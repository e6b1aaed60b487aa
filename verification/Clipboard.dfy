/**
 The Wayland clipboard owner: eight transfer slots that hand one text to whoever pastes it.
 What poll, write, the clock and the display connection answer is an input of every method.
 */
module Clipboard {
  import opened Numbers

  type Text = seq<bv8>

  const MAX_TRANSFERS: nat := 8
  const TRANSFER_TIMEOUT_MS: int := 2000
  const MAX_WRITE: nat := 65536
  const NO_FD: int := -1

  datatype Transfer = Transfer(fd: int, offset: nat, deadline: int)

  /** `source_send`: a descriptor to paste into, and whether it could be made non-blocking. */
  datatype Handoff = Handoff(fd: nat, nonblocking: bool, now: int)

  /** The events one `dispatch_pending` delivers, in order, and its own result. */
  datatype Dispatch = Dispatch(handoffs: seq<Handoff>, stops: bool, failed: bool)

  datatype Revents = Revents(input: bool, output: bool, gone: bool)

  const NOTHING := Revents(false, false, false)

  datatype Poll = Interrupted | Broken | TimedOut | Ready(display: Revents, slots: nat -> Revents)

  /** A write of at most the requested length, EAGAIN or EINTR, or any other error. */
  datatype Write = Accepted(count: nat) | TryAgain | Rejected

  /** The clock before the deadline test, the write, and the clock after it. */
  datatype SlotTurn = SlotTurn(before: int, write: Write, after: int)

  datatype Flush = Flushed | Pending | FlushFailed

  /** Everything the outside answers during one iteration of the serve loop. */
  datatype Turn = Turn(
    unread: seq<Dispatch>,
    flush: Flush,
    now: int,
    poll: Poll,
    readFails: bool,
    dispatch: Dispatch,
    slots: nat -> SlotTurn)

  datatype Outcome = Exited(code: int) | Running

  datatype Reason = Complete | Expired | Gone | WriteFailed | NoSlot

  /** Where a descriptor handed to the process is: in one slot, or closed. */
  datatype Fate = Held(slot: nat) | Closed(reason: Reason)

  /** The history of one descriptor: when it came, the bytes written to it and how often it was closed. */
  datatype Descriptor = Descriptor(fd: nat, handedAt: int, received: Text, fate: Fate, closes: nat)

  /** One write: its descriptor, the one poll had seen in that slot, and whether it was writable. */
  datatype WriteNote = WriteNote(descriptor: nat, polled: int, writable: bool, requested: nat, count: nat)

  /** C's conversion of a 64-bit difference to `int` on the supported targets. */
  function ToInt32(x: int): int {
    (x + 0x8000_0000) % 0x1_0000_0000 - 0x8000_0000
  }

  function Remaining(deadline: int, now: int): nat {
    var left := ToInt32(deadline - now);
    if left < 0 then 0 else left
  }

  /** The conversion loses nothing as long as the deadline is less than 2^31 ms away or past. */
  lemma RemainingIsClampedDifference(deadline: int, now: int)
    requires -0x8000_0000 <= deadline - now < 0x8000_0000
    ensures Remaining(deadline, now) == if deadline < now then 0 else deadline - now
  {
  }

  datatype History = History(handed: seq<Descriptor>, owner: seq<int>, writes: seq<WriteNote>)

  /** The process's variables, with the history of every descriptor it was ever handed. */
  datatype State = State(slots: seq<Transfer>, stopped: bool, history: History)

  /** Before the loop all slots are free and no descriptor has been handed over. */
  ghost function Start(text: Text): (s: State)
    ensures Valid(text, s)
  {
    State(seq(MAX_TRANSFERS, i => Transfer(NO_FD, 0, 0)), false, History([], seq(MAX_TRANSFERS, i => -1), []))
  }

  predicate InUse(slots: seq<Transfer>, fd: int) {
    exists i :: 0 <= i < |slots| && slots[i].fd == fd
  }

  /** The kernel's choice of a descriptor number: the proposed one unless it is open already. */
  function Unused(proposed: nat, slots: seq<Transfer>): (fd: nat)
    ensures !InUse(slots, fd)
    ensures !InUse(slots, proposed) ==> fd == proposed
  {
    if InUse(slots, proposed) then Highest(slots) + 1 else proposed
  }

  function Highest(slots: seq<Transfer>): (top: nat)
    ensures forall i :: 0 <= i < |slots| ==> slots[i].fd <= top
  {
    if slots == [] then 0
    else
      var rest := Highest(slots[..|slots| - 1]);
      if slots[|slots| - 1].fd > rest then slots[|slots| - 1].fd else rest
  }

  function FirstFree(slots: seq<Transfer>, i: nat): (free: nat)
    requires i <= |slots|
    ensures i <= free <= |slots|
    ensures free < |slots| ==> slots[free].fd == NO_FD
    ensures forall j :: i <= j < free ==> slots[j].fd != NO_FD
    decreases |slots| - i
  {
    if i == |slots| || slots[i].fd == NO_FD then i else FirstFree(slots, i + 1)
  }

  /** A new descriptor goes to the first free slot, or is closed when there is none or it would block. */
  ghost function HandOver(s: State, h: Handoff): State
    requires |s.slots| == |s.history.owner|
  {
    var fd := Unused(h.fd, s.slots);
    var i := FirstFree(s.slots, 0);
    var k := |s.history.handed|;
    if i < |s.slots| && h.nonblocking then
      s.(slots := s.slots[i := Transfer(fd, 0, h.now + TRANSFER_TIMEOUT_MS)],
         history := s.history.(handed := s.history.handed + [Descriptor(fd, h.now, [], Held(i), 0)],
                               owner := s.history.owner[i := k]))
    else
      s.(history := s.history.(handed := s.history.handed + [Descriptor(fd, h.now, [], Closed(NoSlot), 1)]))
  }

  ghost function HandOverAll(s: State, hs: seq<Handoff>): (t: State)
    requires |s.slots| == |s.history.owner|
    ensures |t.slots| == |t.history.owner| == |s.slots|
    decreases |hs|
  {
    if hs == [] then s else HandOverAll(HandOver(s, hs[0]), hs[1..])
  }

  /** `dispatch_pending`: the events arrive, and one of them may ask the loop to stop. */
  ghost function Dispatched(s: State, d: Dispatch): (t: State)
    requires |s.slots| == |s.history.owner|
    ensures |t.slots| == |t.history.owner| == |s.slots|
  {
    var t := HandOverAll(s, d.handoffs);
    t.(stopped := t.stopped || d.stops)
  }

  /** The owner of slot `i` is closed and the slot freed. */
  ghost function CloseSlot(s: State, i: nat, reason: Reason): State
    requires i < |s.slots| == |s.history.owner| && 0 <= s.history.owner[i] < |s.history.handed|
  {
    var k := s.history.owner[i];
    var d := s.history.handed[k];
    s.(slots := s.slots[i := s.slots[i].(fd := NO_FD)],
       history := s.history.(handed := s.history.handed[k := d.(fate := Closed(reason), closes := d.closes + 1)],
                             owner := s.history.owner[i := -1]))
  }

  /** How a write that left `offset` bytes delivered ends for the slot: closed, or still held. */
  function FateAfter(text: Text, i: nat, offset: nat, write: Write): Fate {
    if offset == |text| then Closed(Complete)
    else if write.Rejected? then Closed(WriteFailed)
    else Held(i)
  }

  /** A write for slot `i` that moved `count` bytes, noted with what poll had seen there. */
  ghost function Written(text: Text, s: State, i: nat, polled: State, r: Revents, requested: nat, count: nat,
      turn: SlotTurn): State
    requires i < |s.slots| == |s.history.owner| == |polled.slots| == |polled.history.owner|
    requires 0 <= s.history.owner[i] < |s.history.handed|
    requires s.slots[i].offset + count <= |text|
  {
    var t := s.slots[i];
    var k := s.history.owner[i];
    var d := s.history.handed[k];
    var deadline := if count > 0 then turn.after + TRANSFER_TIMEOUT_MS else t.deadline;
    s.(slots := s.slots[i := Transfer(t.fd, t.offset + count, deadline)],
       history := History(
         s.history.handed[k := d.(received := d.received + text[t.offset..t.offset + count])],
         s.history.owner,
         s.history.writes + [WriteNote(k, polled.history.owner[i], r.output, requested, count)]))
  }

  /** The write, and the close it may cause. */
  ghost function WriteSlot(text: Text, s: State, i: nat, polled: State, r: Revents, requested: nat, count: nat,
      turn: SlotTurn): State
    requires i < |s.slots| == |s.history.owner| == |polled.slots| == |polled.history.owner|
    requires 0 <= s.history.owner[i] < |s.history.handed|
    requires s.slots[i].offset + count <= |text|
  {
    var w := Written(text, s, i, polled, r, requested, count, turn);
    var fate := FateAfter(text, i, w.slots[i].offset, turn.write);
    if fate.Held? then w else CloseSlot(w, i, fate.reason)
  }

  /** What poll reports for a slot: nothing unless it was armed with a descriptor. */
  function Reported(poll: Poll, polled: seq<Transfer>, i: nat): Revents
    requires i < |polled|
  {
    if poll.Ready? && polled[i].fd != NO_FD then poll.slots(i) else NOTHING
  }

  /** A slot is free, or holds an open descriptor that has received as much of the text as the slot says. */
  ghost predicate SlotHolds(text: Text, s: State, i: nat)
    requires i < |s.slots| == |s.history.owner|
  {
    var t, k := s.slots[i], s.history.owner[i];
    && (t.fd == NO_FD <==> k == -1)
    && -1 <= k < |s.history.handed|
    && (k != -1 ==>
          var d := s.history.handed[k];
          d.fd == t.fd && d.fate == Held(i) && t.offset <= |text| && d.received == text[..t.offset])
  }

  /** Between two writes a slot in use also has something left to write. */
  ghost predicate SlotOk(text: Text, s: State, i: nat)
    requires i < |s.slots| == |s.history.owner|
  {
    SlotHolds(text, s, i) && (s.history.owner[i] != -1 ==> s.slots[i].offset < |text| || text == [])
  }

  /** A descriptor is in exactly one slot, or was closed exactly once; what it received is a prefix of the text. */
  ghost predicate DescriptorKept(text: Text, s: State, k: nat)
    requires k < |s.history.handed|
  {
    var d := s.history.handed[k];
    && d.received <= text
    && d.closes == (if d.fate.Held? then 0 else 1)
    && (d.fate.Held? ==> d.fate.slot < |s.history.owner| && s.history.owner[d.fate.slot] == k)
    && (d.fate == Closed(Complete) ==> d.received == text)
    && (d.fate == Closed(NoSlot) ==> d.received == [])
  }

  ghost predicate DescriptorOk(text: Text, s: State, k: nat)
    requires k < |s.history.handed|
  {
    && DescriptorKept(text, s, k)
    && (s.history.handed[k].received == text && text != [] ==> s.history.handed[k].fate == Closed(Complete))
  }

  /** A write goes to the descriptor poll reported writable in this very iteration. */
  ghost predicate WriteOk(w: WriteNote) {
    w.polled == w.descriptor && w.writable && w.count <= w.requested <= MAX_WRITE
  }

  ghost predicate Valid(text: Text, s: State) {
    && |s.slots| == |s.history.owner| == MAX_TRANSFERS
    && (forall i: nat :: i < |s.slots| ==> SlotOk(text, s, i))
    && (forall k: nat :: k < |s.history.handed| ==> DescriptorOk(text, s, k))
    && (forall i, j :: 0 <= i < j < |s.slots| && s.slots[i].fd != NO_FD ==> s.slots[i].fd != s.slots[j].fd)
    && (forall n :: 0 <= n < |s.history.writes| ==> WriteOk(s.history.writes[n]))
  }

  /** `Valid`, except that slot `open` may hold a descriptor that has just received everything. */
  ghost predicate ValidBut(text: Text, s: State, open: nat) {
    && |s.slots| == |s.history.owner| == MAX_TRANSFERS && open < MAX_TRANSFERS && SlotHolds(text, s, open)
    && (forall i: nat :: i < |s.slots| && i != open ==> SlotOk(text, s, i))
    && (forall k: nat :: k < |s.history.handed| ==> DescriptorKept(text, s, k))
    && (forall k: nat :: k < |s.history.handed| && k != s.history.owner[open] ==> DescriptorOk(text, s, k))
    && (forall i, j :: 0 <= i < j < |s.slots| && s.slots[i].fd != NO_FD ==> s.slots[i].fd != s.slots[j].fd)
    && (forall n :: 0 <= n < |s.history.writes| ==> WriteOk(s.history.writes[n]))
  }

  /**
   The history only grows: bytes are appended, no descriptor changes its slot, and a closed one is never touched again.
   */
  ghost predicate Extends(before: State, after: State) {
    && |before.history.handed| <= |after.history.handed|
    && before.history.writes <= after.history.writes
    && forall k :: 0 <= k < |before.history.handed| ==> Continues(before.history.handed[k], after.history.handed[k])
  }

  ghost predicate Continues(d: Descriptor, e: Descriptor) {
    d.fd == e.fd && d.handedAt == e.handedAt && d.received <= e.received && (d.fate.Closed? ==> e == d) &&
        (e.fate.Held? ==> e.fate == d.fate)
  }

  /** Occupied slots have kept their descriptor since poll looked at them. */
  ghost predicate KeptSince(polled: State, s: State, from: nat) {
    && |polled.slots| == |polled.history.owner| == |s.slots| == |s.history.owner|
    && forall i :: from <= i < |s.slots| && polled.slots[i].fd != NO_FD ==>
                     s.slots[i].fd != NO_FD && s.history.owner[i] == polled.history.owner[i]
  }

  lemma HandOverKeeps(text: Text, s: State, h: Handoff)
    requires Valid(text, s)
    ensures Valid(text, HandOver(s, h)) && Extends(s, HandOver(s, h)) && KeptSince(s, HandOver(s, h), 0)
  {
    var t := HandOver(s, h);
    var fd := Unused(h.fd, s.slots);
    assert forall i :: 0 <= i < |s.slots| ==> s.slots[i].fd != fd;
    assert forall i: nat :: i < |s.slots| && s.slots[i].fd == NO_FD ==> SlotOk(text, s, i);
    forall i: nat | i < |t.slots| ensures SlotOk(text, t, i) {
      assert SlotOk(text, s, i);
    }
    forall k: nat | k < |t.history.handed| ensures DescriptorOk(text, t, k) {
      if k < |s.history.handed| { assert DescriptorOk(text, s, k); }
    }
  }

  lemma ValidIsValidBut(text: Text, s: State, i: nat)
    requires Valid(text, s) && i < MAX_TRANSFERS
    ensures SlotOk(text, s, i) && ValidBut(text, s, i)
  {
    forall k: nat | k < |s.history.handed| ensures DescriptorKept(text, s, k) { assert DescriptorOk(text, s, k); }
  }

  /** Why an occupied slot may be closed: as complete exactly when all of a text has been written. */
  predicate MayClose(text: Text, slot: Transfer, reason: Reason) {
    slot.fd != NO_FD && reason != NoSlot &&
    (reason == Complete ==> slot.offset == |text|) && (slot.offset == |text| && text != [] ==> reason == Complete)
  }

  lemma CloseSlotKeeps(text: Text, s: State, i: nat, reason: Reason)
    requires ValidBut(text, s, i) && MayClose(text, s.slots[i], reason)
    ensures Valid(text, CloseSlot(s, i, reason)) && Extends(s, CloseSlot(s, i, reason))
  {
    var t := CloseSlot(s, i, reason);
    forall j: nat | j < |t.slots| ensures SlotOk(text, t, j) {
      if j != i { assert SlotOk(text, s, j); }
    }
    forall k: nat | k < |t.history.handed| ensures DescriptorOk(text, t, k) {
      assert DescriptorKept(text, s, k);
      if k != s.history.owner[i] { assert DescriptorOk(text, s, k); }
    }
  }

  lemma WrittenKeeps(text: Text, s: State, i: nat, polled: State, r: Revents, requested: nat, count: nat,
      turn: SlotTurn)
    requires Valid(text, s) && i < |s.slots| && s.slots[i].fd != NO_FD
    requires count <= requested <= MAX_WRITE && s.slots[i].offset + count <= |text|
    requires KeptSince(polled, s, i) && polled.slots[i].fd != NO_FD && r.output
    ensures SlotOk(text, s, i)
    ensures var w := Written(text, s, i, polled, r, requested, count, turn);
            ValidBut(text, w, i) && Extends(s, w) && KeptSince(polled, w, i)
  {
    assert SlotOk(text, s, i);
    var w := Written(text, s, i, polled, r, requested, count, turn);
    var o := s.slots[i].offset;
    assert text[..o] + text[o..o + count] == text[..o + count];
    assert DescriptorOk(text, s, s.history.owner[i]);
    forall j: nat | j < |w.slots| && j != i ensures SlotOk(text, w, j) {
      assert SlotOk(text, s, j);
    }
    forall k: nat | k < |w.history.handed|
      ensures DescriptorKept(text, w, k) && (k != w.history.owner[i] ==> DescriptorOk(text, w, k))
    {
      assert DescriptorOk(text, s, k);
    }
  }

  lemma WriteSlotKeeps(text: Text, s: State, i: nat, polled: State, r: Revents, requested: nat, count: nat,
      turn: SlotTurn)
    requires Valid(text, s) && i < |s.slots| && s.slots[i].fd != NO_FD
    requires count <= requested <= MAX_WRITE && s.slots[i].offset + count <= |text|
    requires KeptSince(polled, s, i) && polled.slots[i].fd != NO_FD && r.output
    ensures SlotOk(text, s, i)
    ensures var t := WriteSlot(text, s, i, polled, r, requested, count, turn);
            Valid(text, t) && Extends(s, t) && KeptSince(polled, t, i + 1)
  {
    WrittenKeeps(text, s, i, polled, r, requested, count, turn);
    var w := Written(text, s, i, polled, r, requested, count, turn);
    var fate := FateAfter(text, i, w.slots[i].offset, turn.write);
    if fate.Held? {
      StillOpen(text, w, i);
    } else {
      assert w.slots[i].fd == s.slots[i].fd;
      hide ValidBut, Valid, Extends;
      CloseSlotKeeps(text, w, i, fate.reason);
      ExtendsTransitively(s, w, CloseSlot(w, i, fate.reason));
    }
  }

  lemma StillOpen(text: Text, w: State, i: nat)
    requires ValidBut(text, w, i) && w.slots[i].fd != NO_FD && w.slots[i].offset < |text|
    ensures Valid(text, w)
  {
    forall j: nat | j < |w.slots| ensures SlotOk(text, w, j) {
      if j != i { assert SlotOk(text, w, j); }
    }
    forall k: nat | k < |w.history.handed| ensures DescriptorOk(text, w, k) {
      assert DescriptorKept(text, w, k);
      if k != w.history.owner[i] { assert DescriptorOk(text, w, k); }
    }
  }

  /** One slot of the scan after dispatch: drop it, skip it, or write to it and perhaps close it. */
  ghost function ScanSlot(text: Text, s: State, i: nat, polled: State, poll: Poll, turn: SlotTurn): (t: State)
    requires Valid(text, s) && i < MAX_TRANSFERS && KeptSince(polled, s, i)
    ensures Valid(text, t) && Extends(s, t) && KeptSince(polled, t, i + 1)
  {
    var slot, r := s.slots[i], Reported(poll, polled.slots, i);
    if slot.fd == NO_FD then s
    else if turn.before >= slot.deadline then
      ValidIsValidBut(text, s, i); CloseSlotKeeps(text, s, i, Expired); CloseSlot(s, i, Expired)
    else if r.gone then
      ValidIsValidBut(text, s, i); CloseSlotKeeps(text, s, i, Gone); CloseSlot(s, i, Gone)
    else if !r.output then s
    else
      assert SlotOk(text, s, i);
      var requested := Min(|text| - slot.offset, MAX_WRITE);
      var count := if turn.write.Accepted? then Min(turn.write.count, requested) else 0;
      WriteSlotKeeps(text, s, i, polled, r, requested, count, turn);
      WriteSlot(text, s, i, polled, r, requested, count, turn)
  }

  lemma ExtendsTransitively(a: State, b: State, c: State)
    requires Extends(a, b) && Extends(b, c)
    ensures Extends(a, c)
  {
    forall k | 0 <= k < |a.history.handed| ensures Continues(a.history.handed[k], c.history.handed[k]) {
      assert Continues(a.history.handed[k], b.history.handed[k]);
      assert Continues(b.history.handed[k], c.history.handed[k]);
    }
  }

  ghost function ScanFrom(text: Text, s: State, i: nat, polled: State, poll: Poll, slots: nat -> SlotTurn): (t: State)
    requires Valid(text, s) && i <= MAX_TRANSFERS && KeptSince(polled, s, i)
    ensures Valid(text, t) && Extends(s, t)
    decreases MAX_TRANSFERS - i
  {
    if i == MAX_TRANSFERS then s
    else
      var next := ScanSlot(text, s, i, polled, poll, slots(i));
      var t := ScanFrom(text, next, i + 1, polled, poll, slots);
      ExtendsTransitively(s, next, t);
      t
  }

  lemma {:induction false} HandOverAllKeeps(text: Text, s: State, hs: seq<Handoff>)
    requires Valid(text, s)
    ensures var t := HandOverAll(s, hs); Valid(text, t) && Extends(s, t) && KeptSince(s, t, 0)
    decreases |hs|
  {
    if hs != [] {
      var next := HandOver(s, hs[0]);
      HandOverKeeps(text, s, hs[0]);
      HandOverAllKeeps(text, next, hs[1..]);
      ExtendsTransitively(s, next, HandOverAll(s, hs));
    }
  }

  lemma DispatchedKeeps(text: Text, s: State, d: Dispatch)
    requires Valid(text, s)
    ensures var t := Dispatched(s, d); Valid(text, t) && Extends(s, t) && KeptSince(s, t, 0)
  {
    HandOverAllKeeps(text, s, d.handoffs);
    var u, t := HandOverAll(s, d.handoffs), Dispatched(s, d);
    assert forall i: nat :: i < |t.slots| ==> SlotOk(text, u, i) == SlotOk(text, t, i);
    assert forall k: nat :: k < |t.history.handed| ==> DescriptorOk(text, u, k) == DescriptorOk(text, t, k);
  }

  /** The events queued before reading may end the loop: success when the display fails or stops it. */
  ghost function AfterUnread(text: Text, s: State, unread: seq<Dispatch>): (r: (State, Outcome))
    requires Valid(text, s)
    ensures Valid(text, r.0) && Extends(s, r.0)
    decreases |unread|
  {
    if unread == [] then (s, Running)
    else
      DispatchedKeeps(text, s, unread[0]);
      var t := Dispatched(s, unread[0]);
      if unread[0].failed || t.stopped then (t, Exited(0))
      else
        var r := AfterUnread(text, t, unread[1..]);
        ExtendsTransitively(s, t, r.0);
        r
  }

  predicate DisplayLost(turn: Turn) {
    || turn.poll.Broken?
    || (turn.poll.Ready? && (turn.poll.display.gone || (turn.poll.display.input && turn.readFails)))
  }

  /** Dispatch of what was read, and the scan, after poll looked at the state `polled`. */
  ghost function AfterPoll(text: Text, polled: State, turn: Turn): (r: (State, Outcome))
    requires Valid(text, polled)
    ensures Valid(text, r.0) && Extends(polled, r.0)
  {
    DispatchedKeeps(text, polled, turn.dispatch);
    var dispatched := Dispatched(polled, turn.dispatch);
    if turn.dispatch.failed then (dispatched, Exited(-1))
    else
      var t := ScanFrom(text, dispatched, 0, polled, turn.poll, turn.slots);
      ExtendsTransitively(polled, dispatched, t);
      (t, Running)
  }

  /** One iteration of the serve loop. */
  ghost function Turned(text: Text, s: State, turn: Turn): (r: (State, Outcome))
    requires Valid(text, s)
    ensures Valid(text, r.0) && Extends(s, r.0)
  {
    var (polled, outcome) := AfterUnread(text, s, turn.unread);
    if outcome.Exited? then (polled, outcome)
    else if turn.flush.FlushFailed? || DisplayLost(turn) then (polled, Exited(-1))
    else if turn.poll.Interrupted? then (polled, Running)
    else
      var r := AfterPoll(text, polled, turn);
      ExtendsTransitively(s, polled, r.0);
      r
  }

  /** The loop over a script of answers; `Running` when the script ends before the loop does. */
  ghost function Served(text: Text, s: State, script: seq<Turn>): (r: (State, Outcome))
    requires Valid(text, s)
    ensures Valid(text, r.0) && Extends(s, r.0)
    decreases |script|
  {
    if s.stopped then (s, Exited(0))
    else if script == [] then (s, Running)
    else
      var (next, outcome) := Turned(text, s, script[0]);
      if outcome.Exited? then (next, outcome)
      else
        var r := Served(text, next, script[1..]);
        ExtendsTransitively(s, next, r.0);
        r
  }

  /**
   In every run of the loop each descriptor handed over has received a prefix of the text and is in
   exactly one slot, which knows how long that prefix is, or was closed exactly once; it received
   all of a text that is not empty exactly when it was closed as complete.
   */
  lemma EveryRunDeliversPrefixes(text: Text, script: seq<Turn>, k: nat)
    requires k < |Served(text, Start(text), script).0.history.handed|
    ensures var s := Served(text, Start(text), script).0;
            var d := s.history.handed[k];
            && d.received <= text
            && (d.fate.Held? ==> d.closes == 0 && d.fate.slot < 8 && s.slots[d.fate.slot].fd == d.fd &&
                                 |d.received| == s.slots[d.fate.slot].offset)
            && (d.fate.Closed? ==> d.closes == 1)
            && (forall i :: 0 <= i < 8 && s.slots[i].fd == d.fd && d.fate.Held? ==> d.fate.slot == i)
            && (text != [] ==> (d.received == text <==> d.fate == Closed(Complete)))
  {
    var s := Served(text, Start(text), script).0;
    assert DescriptorOk(text, s, k);
    if s.history.handed[k].fate.Held? { assert SlotOk(text, s, s.history.handed[k].fate.slot); }
  }

  /** In every run each write went to the descriptor that this iteration's poll had reported writable. */
  lemma EveryWriteWasPolled(text: Text, script: seq<Turn>, n: nat)
    requires n < |Served(text, Start(text), script).0.history.writes|
    ensures var w := Served(text, Start(text), script).0.history.writes[n];
            w.polled == w.descriptor && w.writable && w.count <= w.requested <= 65536
  {
    assert WriteOk(Served(text, Start(text), script).0.history.writes[n]);
  }

  /** What a longer run shows of a descriptor continues what a shorter one showed. */
  lemma {:induction false} HistoryIsNeverRewritten(text: Text, s: State, script: seq<Turn>, n: nat)
    requires Valid(text, s) && n <= |script|
    ensures Extends(Served(text, s, script[..n]).0, Served(text, s, script).0)
    decreases |script|
  {
    if n > 0 && !s.stopped {
      assert script[..n][0] == script[0] && script[..n][1..] == script[1..][..n - 1];
      var (next, outcome) := Turned(text, s, script[0]);
      if outcome.Running? { HistoryIsNeverRewritten(text, next, script[1..], n - 1); }
    }
  }

  /** The timeout poll is given: none without an active transfer, otherwise the earliest deadline. */
  predicate IsPollTimeout(slots: seq<Transfer>, now: int, timeout: int) {
    && (timeout == -1 <==> forall i :: 0 <= i < |slots| ==> slots[i].fd == NO_FD)
    && (forall i :: 0 <= i < |slots| && slots[i].fd != NO_FD ==> timeout <= Remaining(slots[i].deadline, now))
    && (timeout != -1 ==>
          exists i :: 0 <= i < |slots| && slots[i].fd != NO_FD && timeout == Remaining(slots[i].deadline, now))
  }

  class Server {
    const text: Text
    const transfers: array<Transfer>
    var stopped: bool
    ghost var history: History

    ghost function Contents(): State
      reads this, transfers
    {
      State(transfers[..], stopped, history)
    }

    ghost predicate ServerValid()
      reads this, transfers
    {
      Valid(text, Contents())
    }

    constructor (text: Text)
      ensures this.text == text && Contents() == Start(text) && fresh(transfers)
    {
      this.text := text;
      transfers := new Transfer[MAX_TRANSFERS](_ => Transfer(NO_FD, 0, 0));
      stopped := false;
      history := Start(text).history;
    }

    method SourceSend(h: Handoff)
      requires ServerValid()
      modifies this`history, transfers
      ensures ServerValid() && Contents() == HandOver(old(Contents()), h)
    {
      HandOverKeeps(text, Contents(), h);
      ghost var before, k := Contents(), |history.handed|;
      var fd := Unused(h.fd, transfers[..]);
      for i := 0 to MAX_TRANSFERS
        invariant Contents() == before
        invariant FirstFree(transfers[..], 0) == FirstFree(transfers[..], i)
      {
        if transfers[i].fd != NO_FD { continue; }
        if !h.nonblocking { break; }
        transfers[i] := Transfer(fd, 0, h.now + TRANSFER_TIMEOUT_MS);
        history := history.(handed := history.handed + [Descriptor(fd, h.now, [], Held(i), 0)],
            owner := history.owner[i := k]);
        return;
      }
      history := history.(handed := history.handed + [Descriptor(fd, h.now, [], Closed(NoSlot), 1)]);
    }

    method DispatchPending(d: Dispatch) returns (ok: bool)
      requires ServerValid()
      modifies this`history, this`stopped, transfers
      ensures ServerValid() && Contents() == Dispatched(old(Contents()), d) && ok == !d.failed
    {
      DispatchedKeeps(text, Contents(), d);
      for n := 0 to |d.handoffs|
        invariant ServerValid() && stopped == old(stopped)
        invariant HandOverAll(Contents(), d.handoffs[n..]) == HandOverAll(old(Contents()), d.handoffs)
      {
        SourceSend(d.handoffs[n]);
      }
      stopped := stopped || d.stops;
      ok := !d.failed;
    }

    method CloseTransfer(i: nat, ghost reason: Reason)
      requires ValidBut(text, Contents(), i) && MayClose(text, transfers[i], reason)
      modifies this`history, transfers
      ensures ServerValid() && Contents() == CloseSlot(old(Contents()), i, reason)
    {
      CloseSlotKeeps(text, Contents(), i, reason);
      history := CloseSlot(Contents(), i, reason).history;
      transfers[i] := transfers[i].(fd := NO_FD);
    }

    method PollTimeout(now: int) returns (timeout: int)
      requires ServerValid()
      ensures IsPollTimeout(transfers[..], now, timeout)
    {
      timeout := -1;
      for i := 0 to MAX_TRANSFERS
        invariant IsPollTimeout(transfers[..i], now, timeout)
      {
        assert transfers[..i + 1] == transfers[..i] + [transfers[i]];
        if transfers[i].fd == NO_FD { continue; }
        var remaining := Remaining(transfers[i].deadline, now);
        if timeout == -1 || remaining < timeout { timeout := remaining; }
      }
      assert transfers[..] == transfers[..MAX_TRANSFERS];
    }

    method ScanTransfer(i: nat, ghost polled: State, poll: Poll, revents: Revents, turn: SlotTurn)
      requires ServerValid() && i < MAX_TRANSFERS && KeptSince(polled, Contents(), i)
      requires revents == Reported(poll, polled.slots, i)
      modifies this`history, transfers
      ensures ServerValid() && Contents() == ScanSlot(text, old(Contents()), i, polled, poll, turn)
    {
      ghost var before := Contents();
      ValidIsValidBut(text, before, i);
      var slot := transfers[i];
      if slot.fd == NO_FD { return; }
      if turn.before >= slot.deadline || revents.gone {
        CloseTransfer(i, if turn.before >= slot.deadline then Expired else Gone);
        return;
      }
      if !revents.output { return; }
      var requested := Min(|text| - slot.offset, MAX_WRITE);
      var count := if turn.write.Accepted? then Min(turn.write.count, requested) else 0;
      WrittenKeeps(text, before, i, polled, revents, requested, count, turn);
      history := Written(text, before, i, polled, revents, requested, count, turn).history;
      if count > 0 {
        transfers[i] := transfers[i].(offset := slot.offset + count, deadline := turn.after + TRANSFER_TIMEOUT_MS);
      }
      assert Contents() == Written(text, before, i, polled, revents, requested, count, turn);
      if transfers[i].offset == |text| || turn.write.Rejected? {
        CloseTransfer(i, if transfers[i].offset == |text| then Complete else WriteFailed);
      }
      assert Contents() == ScanSlot(text, before, i, polled, poll, turn);
    }

    /** The scan of all slots; `polled` is the state when poll was given the descriptors `fds`. */
    method ScanTransfers(ghost polled: State, fds: seq<Transfer>, poll: Poll, slots: nat -> SlotTurn)
      requires ServerValid() && KeptSince(polled, Contents(), 0) && fds == polled.slots
      modifies this`history, transfers
      ensures ServerValid() && Contents() == ScanFrom(text, old(Contents()), 0, polled, poll, slots)
    {
      for i := 0 to MAX_TRANSFERS
        invariant ServerValid() && KeptSince(polled, Contents(), i)
        invariant ScanFrom(text, Contents(), i, polled, poll, slots) ==
                  ScanFrom(text, old(Contents()), 0, polled, poll, slots)
      {
        ScanTransfer(i, polled, poll, Reported(poll, fds, i), slots(i));
      }
    }

    /** Dispatches what was queued before this read; `Running` means that nothing ended the loop. */
    method DispatchUnread(unread: seq<Dispatch>) returns (outcome: Outcome)
      requires ServerValid()
      modifies this`history, this`stopped, transfers
      ensures ServerValid() && (Contents(), outcome) == AfterUnread(text, old(Contents()), unread)
    {
      for m := 0 to |unread|
        invariant ServerValid()
        invariant AfterUnread(text, Contents(), unread[m..]) == AfterUnread(text, old(Contents()), unread)
      {
        var ok := DispatchPending(unread[m]);
        if !ok || stopped { return Exited(0); }
      }
      outcome := Running;
    }

    /** Dispatches what poll and the read brought, then scans the slots. */
    method DispatchAndScan(fds: seq<Transfer>, turn: Turn) returns (outcome: Outcome)
      requires ServerValid() && fds == transfers[..]
      modifies this`history, this`stopped, transfers
      ensures ServerValid() && (Contents(), outcome) == AfterPoll(text, old(Contents()), turn)
    {
      ghost var polled := Contents();
      DispatchedKeeps(text, polled, turn.dispatch);
      var ok := DispatchPending(turn.dispatch);
      if !ok { return Exited(-1); }
      ScanTransfers(polled, fds, turn.poll, turn.slots);
      outcome := Running;
    }

    /** One iteration of the loop; `Running` means that it goes round again. */
    method ServeTurn(turn: Turn) returns (outcome: Outcome)
      requires ServerValid()
      modifies this`history, this`stopped, transfers
      ensures ServerValid() && (Contents(), outcome) == Turned(text, old(Contents()), turn)
    {
      outcome := DispatchUnread(turn.unread);
      if outcome.Exited? { return; }
      if turn.flush.FlushFailed? { return Exited(-1); }
      var timeout := PollTimeout(turn.now);
      var fds := transfers[..];
      if turn.poll.Ready? && turn.poll.display.input && turn.readFails { return Exited(-1); }
      if turn.poll.Interrupted? { return; }
      if turn.poll.Broken? || (turn.poll.Ready? && turn.poll.display.gone) { return Exited(-1); }
      outcome := DispatchAndScan(fds, turn);
    }

    method Serve(script: seq<Turn>) returns (outcome: Outcome)
      requires ServerValid()
      modifies this`history, this`stopped, transfers
      ensures ServerValid() && (Contents(), outcome) == Served(text, old(Contents()), script)
    {
      var n := 0;
      while !stopped
        invariant ServerValid() && n <= |script|
        invariant Served(text, Contents(), script[n..]) == Served(text, old(Contents()), script)
        decreases |script| - n
      {
        if n == |script| { return Running; }
        outcome := ServeTurn(script[n]);
        assert script[n..][0] == script[n] && script[n..][1..] == script[n + 1..];
        if outcome.Exited? { return; }
        n := n + 1;
      }
      outcome := Exited(0);
    }
  }
}
