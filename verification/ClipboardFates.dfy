/**
 What becomes of each descriptor the clipboard owner is handed: told from what the run showed of it,
 the clock at each scan, poll's report and what its writes moved; and how the loop itself ends.
 */
module ClipboardFates {
  import opened Numbers
  import opened Clipboard

  // ---- What a run shows of one descriptor

  /** One scan of a descriptor's slot: the clock, what poll had reported, the answer to a write, the clock after it. */
  datatype Sight = Sight(clock: int, gone: bool, writable: bool, write: Write, after: int)

  /** The turn comes to its scan. */
  ghost predicate Scans(text: Text, s: State, turn: Turn)
    requires Valid(text, s)
  {
    && AfterUnread(text, s, turn.unread).1.Running? && !turn.flush.FlushFailed? && !DisplayLost(turn)
    && !turn.poll.Interrupted? && !turn.dispatch.failed
  }

  /** What the turn shows of descriptor `k`: nothing unless there is a scan and the descriptor is in a slot. */
  ghost function Seen(text: Text, s: State, turn: Turn, k: nat): seq<Sight>
    requires Valid(text, s)
  {
    if !Scans(text, s, turn) then []
    else
      var polled := AfterUnread(text, s, turn.unread).0;
      SeenInScan(text, Dispatched(polled, turn.dispatch), polled, turn.poll, turn.slots, k)
  }

  ghost function SeenInScan(text: Text, s: State, polled: State, poll: Poll, slots: nat -> SlotTurn, k: nat): seq<Sight>
    requires |polled.slots| == MAX_TRANSFERS
  {
    if k < |s.history.handed| && s.history.handed[k].fate.Held? && s.history.handed[k].fate.slot < MAX_TRANSFERS then
      var i := s.history.handed[k].fate.slot;
      [SightOf(Reported(poll, polled.slots, i), slots(i))]
    else []
  }

  function SightOf(r: Revents, turn: SlotTurn): Sight {
    Sight(turn.before, r.gone, r.output, turn.write, turn.after)
  }

  /** All that a run shows of descriptor `k`, in order. */
  ghost function SightsOf(text: Text, s: State, script: seq<Turn>, k: nat): seq<Sight>
    requires Valid(text, s)
    decreases |script|
  {
    if s.stopped || script == [] then []
    else
      var (next, outcome) := Turned(text, s, script[0]);
      Seen(text, s, script[0], k) + if outcome.Exited? then [] else SightsOf(text, next, script[1..], k)
  }

  // ---- What that says

  /** How many bytes a descriptor has been given, and when it was handed over or last given some. */
  datatype Progress = Progress(given: nat, since: int)

  /**
   The bytes moved at a sight: some only if it is within 2000 ms, poll reported nothing but that writing is possible.
   */
  function Moved(length: nat, p: Progress, sight: Sight): nat
    requires p.given <= length
  {
    if sight.clock - p.since < 2000 && sight.writable && !sight.gone && sight.write.Accepted?
    then Min(sight.write.count, Min(length - p.given, 65536))
    else 0
  }

  function ProgressOf(length: nat, start: int, sights: seq<Sight>): (p: Progress)
    ensures p.given <= length
  {
    if sights == [] then Progress(0, start)
    else
      var p, last := ProgressOf(length, start, sights[..|sights| - 1]), sights[|sights| - 1];
      var moved := Moved(length, p, last);
      if moved == 0 then p else Progress(p.given + moved, last.after)
  }

  /** Sight `n` is 2000 ms or more after the hand-over and every write before it. */
  predicate Overdue(length: nat, start: int, sights: seq<Sight>, n: nat)
    requires n < |sights|
  {
    sights[n].clock - ProgressOf(length, start, sights[..n]).since >= 2000
  }

  /** Whether sight `n` is one at which the descriptor is closed, and why. */
  predicate ClosesAt(length: nat, start: int, sights: seq<Sight>, n: nat, reason: Reason)
    requires n < |sights|
  {
    match reason
    case Expired => Overdue(length, start, sights, n)
    case Gone => !Overdue(length, start, sights, n) && sights[n].gone
    case Complete =>
      !Overdue(length, start, sights, n) && !sights[n].gone && sights[n].writable &&
      ProgressOf(length, start, sights[..n + 1]).given == length
    case WriteFailed =>
      !Overdue(length, start, sights, n) && !sights[n].gone && sights[n].writable && sights[n].write.Rejected? &&
      ProgressOf(length, start, sights[..n + 1]).given < length
    case NoSlot => false
  }

  predicate StaysOpenAt(length: nat, start: int, sights: seq<Sight>, n: nat)
    requires n < |sights|
  {
    forall reason :: !ClosesAt(length, start, sights, n, reason)
  }

  /** The state agrees with what the sights of descriptor `k` say. */
  ghost predicate Tells(text: Text, s: State, k: nat, sights: seq<Sight>)
    requires k < |s.history.handed|
  {
    var d := s.history.handed[k];
    if d.fate == Closed(NoSlot) then sights == []
    else
      var p := ProgressOf(|text|, d.handedAt, sights);
      && |d.received| == p.given
      && (forall n: nat :: n + 1 < |sights| ==> StaysOpenAt(|text|, d.handedAt, sights, n))
      && (sights == [] ==> d.fate.Held?)
      && (sights != [] ==>
            forall reason :: d.fate == Closed(reason) <==> ClosesAt(|text|, d.handedAt, sights, |sights| - 1, reason))
      && (d.fate.Held? ==>
            d.fate.slot < |s.slots| && s.slots[d.fate.slot].deadline == p.since + 2000 &&
            s.slots[d.fate.slot].offset == p.given)
  }

  /** Descriptor `k` and its slot are the same in both states. */
  ghost predicate SameFor(s: State, t: State, k: nat) {
    && k < |s.history.handed| && k < |t.history.handed| && t.history.handed[k] == s.history.handed[k]
    && (s.history.handed[k].fate.Held? ==>
          var i := s.history.handed[k].fate.slot;
          i < |s.slots| && i < |t.slots| && t.slots[i] == s.slots[i])
  }

  lemma SameTells(text: Text, s: State, t: State, k: nat, sights: seq<Sight>)
    requires SameFor(s, t, k) && Tells(text, s, k, sights)
    ensures k < |t.history.handed| && t.history.handed[k] == s.history.handed[k] && Tells(text, t, k, sights)
  {
    hide ProgressOf, StaysOpenAt, ClosesAt;
  }

  lemma HandOverShows(text: Text, s: State, h: Handoff, k: nat)
    requires Valid(text, s)
    ensures k < |s.history.handed| ==> SameFor(s, HandOver(s, h), k)
    ensures k == |s.history.handed| ==> Tells(text, HandOver(s, h), k, [])
  {
    if k < |s.history.handed| {
      assert DescriptorOk(text, s, k);
      if s.history.handed[k].fate.Held? { assert SlotOk(text, s, s.history.handed[k].fate.slot); }
    }
  }

  lemma {:induction false} HandOverAllShows(text: Text, s: State, hs: seq<Handoff>, k: nat, sights: seq<Sight>)
    requires Valid(text, s)
    requires if k < |s.history.handed| then Tells(text, s, k, sights) else sights == []
    ensures k < |HandOverAll(s, hs).history.handed| ==> Tells(text, HandOverAll(s, hs), k, sights)
    decreases |hs|
  {
    hide Valid, Tells, SameFor, HandOver;
    if hs != [] {
      HandOverKeeps(text, s, hs[0]);
      HandOverShows(text, s, hs[0], k);
      HandOverCounts(s, hs[0]);
      if k < |s.history.handed| { SameTells(text, s, HandOver(s, hs[0]), k, sights); }
      HandOverAllShows(text, HandOver(s, hs[0]), hs[1..], k, sights);
    }
  }

  lemma HandOverCounts(s: State, h: Handoff)
    requires |s.slots| == |s.history.owner|
    ensures |HandOver(s, h).history.handed| == |s.history.handed| + 1
  {
  }

  /** Whatever is dispatched shows nothing of the descriptors that are there already. */
  lemma DispatchedShows(text: Text, s: State, d: Dispatch, k: nat, sights: seq<Sight>)
    requires Valid(text, s)
    requires if k < |s.history.handed| then Tells(text, s, k, sights) else sights == []
    ensures k < |Dispatched(s, d).history.handed| ==> Tells(text, Dispatched(s, d), k, sights)
  {
    HandOverAllShows(text, s, d.handoffs, k, sights);
    hide ProgressOf, StaysOpenAt, ClosesAt;
  }

  lemma {:induction false} UnreadShows(text: Text, s: State, unread: seq<Dispatch>, k: nat, sights: seq<Sight>)
    requires Valid(text, s)
    requires if k < |s.history.handed| then Tells(text, s, k, sights) else sights == []
    ensures var t := AfterUnread(text, s, unread).0; k < |t.history.handed| ==> Tells(text, t, k, sights)
    decreases |unread|
  {
    hide Valid, Tells, Dispatched;
    if unread != [] {
      DispatchedKeeps(text, s, unread[0]);
      DispatchedShows(text, s, unread[0], k, sights);
      var t := Dispatched(s, unread[0]);
      if !unread[0].failed && !t.stopped {
        DispatchedCounts(s, unread[0]);
        UnreadShows(text, t, unread[1..], k, sights);
      }
    }
  }

  lemma DispatchedCounts(s: State, d: Dispatch)
    requires |s.slots| == |s.history.owner|
    ensures |Dispatched(s, d).history.handed| >= |s.history.handed|
  {
    HandOverAllCounts(s, d.handoffs);
  }

  lemma {:induction false} HandOverAllCounts(s: State, hs: seq<Handoff>)
    requires |s.slots| == |s.history.owner|
    ensures |HandOverAll(s, hs).history.handed| == |s.history.handed| + |hs|
    decreases |hs|
  {
    hide HandOver;
    if hs != [] {
      HandOverCounts(s, hs[0]);
      HandOverSizes(s, hs[0]);
      HandOverAllCounts(HandOver(s, hs[0]), hs[1..]);
    }
  }

  lemma HandOverSizes(s: State, h: Handoff)
    requires |s.slots| == |s.history.owner|
    ensures |HandOver(s, h).slots| == |HandOver(s, h).history.owner| == |s.slots|
  {
  }

  // ---- One scan

  lemma OneMore(length: nat, start: int, sights: seq<Sight>, sight: Sight)
    ensures var p := ProgressOf(length, start, sights);
            var moved := Moved(length, p, sight);
            ProgressOf(length, start, sights + [sight]) ==
            if moved == 0 then p else Progress(p.given + moved, sight.after)
    ensures forall n: nat, reason :: n < |sights| ==>
              (ClosesAt(length, start, sights + [sight], n, reason) <==> ClosesAt(length, start, sights, n, reason))
    ensures var p := ProgressOf(length, start, sights);
            Overdue(length, start, sights + [sight], |sights|) <==> sight.clock - p.since >= 2000
  {
    var more := sights + [sight];
    assert more[..|sights|] == sights;
    forall n: nat, reason | n < |sights|
      ensures ClosesAt(length, start, more, n, reason) <==> ClosesAt(length, start, sights, n, reason)
    {
      assert more[..n] == sights[..n] && more[..n + 1] == sights[..n + 1];
    }
  }

  /** What a scan does to the slot of descriptor `k`, told from the slot, the descriptor and the sight. */
  lemma ScanShows(text: Text, s: State, i: nat, polled: State, poll: Poll, turn: SlotTurn, k: nat)
    requires Valid(text, s) && i < MAX_TRANSFERS && KeptSince(polled, s, i)
    requires k < |s.history.handed| && s.history.handed[k].fate == Held(i)
    ensures var t := ScanSlot(text, s, i, polled, poll, turn);
            var slot, d, e := s.slots[i], s.history.handed[k], t.history.handed[k];
            var sight := SightOf(Reported(poll, polled.slots, i), turn);
            var p := Progress(slot.offset, slot.deadline - 2000);
            slot.offset <= |text| &&
            var moved := Moved(|text|, p, sight);
            && e.handedAt == d.handedAt && |e.received| == |d.received| + moved
            && (e.fate == Closed(Expired) <==> sight.clock >= slot.deadline)
            && (e.fate == Closed(Gone) <==> sight.clock < slot.deadline && sight.gone)
            && (e.fate == Closed(Complete) <==>
                  sight.clock < slot.deadline && !sight.gone && sight.writable && slot.offset + moved == |text|)
            && (e.fate == Closed(WriteFailed) <==>
                  sight.clock < slot.deadline && !sight.gone && sight.writable && sight.write.Rejected? &&
                  slot.offset + moved < |text|)
            && e.fate != Closed(NoSlot)
            && (e.fate.Held? ==>
                  e.fate == Held(i) && |t.slots| == MAX_TRANSFERS && t.slots[i].offset == slot.offset + moved &&
                  t.slots[i].deadline == if moved == 0 then slot.deadline else sight.after + 2000)
  {
    assert DescriptorOk(text, s, k) && SlotOk(text, s, i);
    hide Valid, ValidBut, KeptSince, DescriptorOk, SlotOk, Extends;
  }

  lemma ScanTells(text: Text, s: State, i: nat, polled: State, poll: Poll, turn: SlotTurn, k: nat, sights: seq<Sight>)
    requires Valid(text, s) && i < MAX_TRANSFERS && KeptSince(polled, s, i)
    requires k < |s.history.handed| && s.history.handed[k].fate == Held(i) && Tells(text, s, k, sights)
    ensures var t := ScanSlot(text, s, i, polled, poll, turn);
            k < |t.history.handed| &&
            Tells(text, t, k, sights + [SightOf(Reported(poll, polled.slots, i), turn)])
  {
    var t := ScanSlot(text, s, i, polled, poll, turn);
    var sight := SightOf(Reported(poll, polled.slots, i), turn);
    ScanShows(text, s, i, polled, poll, turn, k);
    hide ScanSlot, Valid, KeptSince, Moved, ProgressOf;
    var start, more := s.history.handed[k].handedAt, sights + [sight];
    OneMore(|text|, start, sights, sight);
    forall n: nat | n + 1 < |more| ensures StaysOpenAt(|text|, start, more, n) {
      HeldStaysOpen(text, s, k, sights, n);
    }
    OneMoreCloses(|text|, start, sights, sight);
  }

  lemma HeldStaysOpen(text: Text, s: State, k: nat, sights: seq<Sight>, n: nat)
    requires k < |s.history.handed| && s.history.handed[k].fate.Held? && Tells(text, s, k, sights) && n < |sights|
    ensures StaysOpenAt(|text|, s.history.handed[k].handedAt, sights, n)
  {
    hide ClosesAt, ProgressOf;
    if n == |sights| - 1 {
      var d := s.history.handed[k];
      forall reason ensures !ClosesAt(|text|, d.handedAt, sights, n, reason) {
        assert d.fate == Closed(reason) <==> ClosesAt(|text|, d.handedAt, sights, |sights| - 1, reason);
      }
    }
  }

  lemma OneMoreCloses(length: nat, start: int, sights: seq<Sight>, sight: Sight)
    ensures var p, more := ProgressOf(length, start, sights), sights + [sight];
            var inTime := sight.clock < p.since + 2000;
            var ready := inTime && !sight.gone && sight.writable;
            var given := p.given + Moved(length, p, sight);
            && (ClosesAt(length, start, more, |sights|, Expired) <==> !inTime)
            && (ClosesAt(length, start, more, |sights|, Gone) <==> inTime && sight.gone)
            && (ClosesAt(length, start, more, |sights|, Complete) <==> ready && given == length)
            && (ClosesAt(length, start, more, |sights|, WriteFailed) <==>
                  ready && sight.write.Rejected? && given < length)
            && !ClosesAt(length, start, more, |sights|, NoSlot)
  {
    OneMore(length, start, sights, sight);
    hide Moved, ProgressOf;
    var more := sights + [sight];
    assert more[..|sights| + 1] == more;
  }

  lemma ScanLeaves(text: Text, s: State, i: nat, polled: State, poll: Poll, turn: SlotTurn, k: nat)
    requires Valid(text, s) && i < MAX_TRANSFERS && KeptSince(polled, s, i)
    requires k < |s.history.handed| && s.history.handed[k].fate != Held(i)
    ensures SameFor(s, ScanSlot(text, s, i, polled, poll, turn), k)
  {
    assert SlotOk(text, s, i) && DescriptorOk(text, s, k);
    hide ValidBut, KeptSince, Extends;
  }

  /** The scan from slot `i` on shows the descriptor once if its slot is still to come, and otherwise not. */
  lemma {:induction false} ScanFromTells(text: Text, s: State, i: nat, polled: State, poll: Poll,
      slots: nat -> SlotTurn,
      k: nat, sights: seq<Sight>)
    requires Valid(text, s) && i <= MAX_TRANSFERS && KeptSince(polled, s, i)
    requires k < |s.history.handed| && Tells(text, s, k, sights)
    ensures var t := ScanFrom(text, s, i, polled, poll, slots);
            var d := s.history.handed[k];
            k < |t.history.handed| &&
            if d.fate.Held? && i <= d.fate.slot < MAX_TRANSFERS
            then Tells(text, t, k, sights + [SightOf(Reported(poll, polled.slots, d.fate.slot), slots(d.fate.slot))])
            else Tells(text, t, k, sights)
    decreases MAX_TRANSFERS - i
  {
    hide Valid, KeptSince, Tells, ScanSlot, Reported, SightOf, SameFor, Extends;
    ScanIsSized(text, s, i, polled);
    if i < MAX_TRANSFERS {
      var next := ScanSlot(text, s, i, polled, poll, slots(i));
      if s.history.handed[k].fate == Held(i) {
        var more := sights + [SightOf(Reported(poll, polled.slots, i), slots(i))];
        ScanTells(text, s, i, polled, poll, slots(i), k, sights);
        ScanMoves(text, s, i, polled, poll, slots(i), k);
        ScanFromTells(text, next, i + 1, polled, poll, slots, k, more);
      } else {
        ScanLeaves(text, s, i, polled, poll, slots(i), k);
        SameTells(text, s, next, k, sights);
        ScanFromTells(text, next, i + 1, polled, poll, slots, k, sights);
      }
    }
  }

  lemma ScanIsSized(text: Text, s: State, i: nat, polled: State)
    requires Valid(text, s) && KeptSince(polled, s, i)
    ensures |polled.slots| == MAX_TRANSFERS
  {
  }

  lemma ScanMoves(text: Text, s: State, i: nat, polled: State, poll: Poll, turn: SlotTurn, k: nat)
    requires Valid(text, s) && i < MAX_TRANSFERS && KeptSince(polled, s, i)
    requires k < |s.history.handed| && s.history.handed[k].fate == Held(i)
    ensures var t := ScanSlot(text, s, i, polled, poll, turn);
            k < |t.history.handed| && (t.history.handed[k].fate.Held? ==> t.history.handed[k].fate == Held(i))
  {
    ScanShows(text, s, i, polled, poll, turn, k);
    hide ScanSlot, Valid, KeptSince;
  }

  // ---- A turn, and a run

  /** What is known of descriptor `k`, if it has been handed over yet. */
  ghost predicate Known(text: Text, s: State, k: nat, sights: seq<Sight>) {
    if k < |s.history.handed| then Tells(text, s, k, sights) else sights == []
  }

  lemma TurnTells(text: Text, s: State, turn: Turn, k: nat, sights: seq<Sight>)
    requires Valid(text, s) && Known(text, s, k, sights)
    ensures Known(text, Turned(text, s, turn).0, k, sights + Seen(text, s, turn, k))
  {
    hide Valid, Tells, Dispatched, AfterUnread, DisplayLost, ScanFrom, Reported, SightOf;
    var polled := AfterUnread(text, s, turn.unread).0;
    UnreadShows(text, s, turn.unread, k, sights);
    if k < |s.history.handed| { assert Extends(s, polled); }
    assert sights + [] == sights;
    if AfterUnread(text, s, turn.unread).1.Running? {
      DispatchedKeeps(text, polled, turn.dispatch);
      DispatchedShows(text, polled, turn.dispatch, k, sights);
      DispatchedCounts(polled, turn.dispatch);
      var dispatched := Dispatched(polled, turn.dispatch);
      if Scans(text, s, turn) {
        if k < |dispatched.history.handed| {
          ScanFromTells(text, dispatched, 0, polled, turn.poll, turn.slots, k, sights);
        } else {
          ScanFromCounts(text, dispatched, 0, polled, turn.poll, turn.slots);
        }
      }
    }
  }

  lemma {:induction false} ScanFromCounts(text: Text, s: State, i: nat, polled: State, poll: Poll,
      slots: nat -> SlotTurn)
    requires Valid(text, s) && i <= MAX_TRANSFERS && KeptSince(polled, s, i)
    ensures |ScanFrom(text, s, i, polled, poll, slots).history.handed| == |s.history.handed|
    decreases MAX_TRANSFERS - i
  {
    hide Valid, KeptSince, ScanSlot;
    if i < MAX_TRANSFERS {
      ScanSlotCounts(text, s, i, polled, poll, slots(i));
      ScanFromCounts(text, ScanSlot(text, s, i, polled, poll, slots(i)), i + 1, polled, poll, slots);
    }
  }

  lemma ScanSlotCounts(text: Text, s: State, i: nat, polled: State, poll: Poll, turn: SlotTurn)
    requires Valid(text, s) && i < MAX_TRANSFERS && KeptSince(polled, s, i)
    ensures |ScanSlot(text, s, i, polled, poll, turn).history.handed| == |s.history.handed|
  {
    assert SlotOk(text, s, i);
    hide ValidBut, KeptSince, Extends, SlotOk;
  }

  lemma {:induction false} RunTells(text: Text, s: State, script: seq<Turn>, k: nat, sights: seq<Sight>)
    requires Valid(text, s) && Known(text, s, k, sights)
    ensures Known(text, Served(text, s, script).0, k, sights + SightsOf(text, s, script, k))
    decreases |script|
  {
    hide Valid, Known, Turned, Seen;
    assert sights + [] == sights;
    if !s.stopped && script != [] {
      var (next, outcome) := Turned(text, s, script[0]);
      var seen := Seen(text, s, script[0], k);
      TurnTells(text, s, script[0], k, sights);
      if outcome.Exited? {
        assert sights + (seen + []) == sights + seen;
      } else {
        RunTells(text, next, script[1..], k, sights + seen);
        assert sights + seen + SightsOf(text, next, script[1..], k) ==
               sights + (seen + SightsOf(text, next, script[1..], k));
      }
    }
  }

  lemma TellsFate(text: Text, s: State, k: nat, sights: seq<Sight>, reason: Reason)
    requires k < |s.history.handed| && Tells(text, s, k, sights) && s.history.handed[k].fate != Closed(NoSlot)
    ensures var d := s.history.handed[k];
            && (d.fate == Closed(reason) <==>
                  exists n: nat :: n < |sights| && ClosesAt(|text|, d.handedAt, sights, n, reason))
            && |d.received| == ProgressOf(|text|, d.handedAt, sights).given
  {
    hide ClosesAt, ProgressOf;
    var d := s.history.handed[k];
    forall n: nat | n + 1 < |sights| ensures !ClosesAt(|text|, d.handedAt, sights, n, reason) {
      assert StaysOpenAt(|text|, d.handedAt, sights, n);
    }
    if sights != [] {
      assert d.fate == Closed(reason) <==> ClosesAt(|text|, d.handedAt, sights, |sights| - 1, reason);
    }
  }

  /**
   In every run, what has become of a descriptor that got a slot is what the run showed of it: closed
   as expired exactly at a scan 2000 ms or more after its hand-over or the last write that moved a byte,
   as gone exactly when poll reported that sooner, as complete exactly at a write that brought the bytes
   given to those of the text, as failed exactly at a write refused before; and otherwise it is held.
   */
  lemma FateIff(text: Text, script: seq<Turn>, k: nat, reason: Reason)
    requires k < |Served(text, Start(text), script).0.history.handed|
    ensures var d := Served(text, Start(text), script).0.history.handed[k];
            var sights := SightsOf(text, Start(text), script, k);
            d.fate != Closed(NoSlot) ==>
              && (d.fate == Closed(reason) <==>
                    exists n: nat :: n < |sights| && ClosesAt(|text|, d.handedAt, sights, n, reason))
              && |d.received| == ProgressOf(|text|, d.handedAt, sights).given
              && d.received == text[..|d.received|]
  {
    hide Served, Start, SightsOf, ClosesAt, ProgressOf, Tells, DescriptorOk;
    var s := Served(text, Start(text), script).0;
    var sights := SightsOf(text, Start(text), script, k);
    StartIsEmpty(text);
    RunTells(text, Start(text), script, k, []);
    assert [] + sights == sights;
    assert DescriptorOk(text, s, k);
    if s.history.handed[k].fate != Closed(NoSlot) { TellsFate(text, s, k, sights, reason); }
    OkIsPrefix(text, s, k);
  }

  lemma StartIsEmpty(text: Text)
    ensures Start(text).history.handed == []
  {
  }

  lemma OkIsPrefix(text: Text, s: State, k: nat)
    requires k < |s.history.handed| && DescriptorOk(text, s, k)
    ensures var d := s.history.handed[k]; |d.received| <= |text| && d.received == text[..|d.received|]
  {
  }

  // ---- A paste that is served

  /** The turn gets to its scan and goes on, poll reports slot `i` writable, and its write moves something. */
  predicate Serves(turn: Turn, i: nat) {
    && (forall n :: 0 <= n < |turn.unread| ==> !turn.unread[n].failed && !turn.unread[n].stops)
    && !turn.flush.FlushFailed? && turn.poll.Ready? && !turn.poll.display.gone
    && !(turn.poll.display.input && turn.readFails) && !turn.dispatch.failed && !turn.dispatch.stops
    && turn.poll.slots(i).output && !turn.poll.slots(i).gone
    && turn.slots(i).write.Accepted? && turn.slots(i).write.count >= 1
  }

  lemma {:induction false} HandOverAllStops(s: State, hs: seq<Handoff>)
    requires |s.slots| == |s.history.owner|
    ensures HandOverAll(s, hs).stopped == s.stopped
    decreases |hs|
  {
    if hs != [] { HandOverAllStops(HandOver(s, hs[0]), hs[1..]); }
  }

  lemma {:induction false} UnreadPasses(text: Text, s: State, unread: seq<Dispatch>)
    requires Valid(text, s) && !s.stopped
    requires forall n :: 0 <= n < |unread| ==> !unread[n].failed && !unread[n].stops
    ensures var r := AfterUnread(text, s, unread); r.1.Running? && !r.0.stopped && KeptSince(s, r.0, 0)
    decreases |unread|
  {
    hide Valid, KeptSince;
    NothingMoves(text, s);
    if unread != [] {
      DispatchedKeeps(text, s, unread[0]);
      HandOverAllStops(s, unread[0].handoffs);
      UnreadPasses(text, Dispatched(s, unread[0]), unread[1..]);
      KeptTransitively(s, Dispatched(s, unread[0]), AfterUnread(text, s, unread).0);
    }
  }

  lemma NothingMoves(text: Text, s: State)
    requires Valid(text, s)
    ensures KeptSince(s, s, 0)
  {
  }

  lemma KeptTransitively(a: State, b: State, c: State)
    requires KeptSince(a, b, 0) && KeptSince(b, c, 0)
    ensures KeptSince(a, c, 0)
  {
  }

  /** A slot that has kept its descriptor still holds it. */
  lemma StillHeld(text: Text, s: State, t: State, k: nat, i: nat)
    requires Valid(text, s) && Valid(text, t) && KeptSince(s, t, 0)
    requires k < |s.history.handed| && s.history.handed[k].fate == Held(i)
    ensures i < MAX_TRANSFERS && s.slots[i].fd != NO_FD && k < |t.history.handed| && t.history.handed[k].fate == Held(i)
  {
    assert DescriptorOk(text, s, k);
    assert SlotOk(text, s, i);
    assert SlotOk(text, t, i);
  }

  lemma TurnServes(text: Text, s: State, turn: Turn, k: nat, i: nat, sights: seq<Sight>)
    requires Valid(text, s) && !s.stopped && k < |s.history.handed| && s.history.handed[k].fate == Held(i)
    requires Tells(text, s, k, sights) && Serves(turn, i)
    ensures var (t, outcome) := Turned(text, s, turn);
            && outcome.Running? && !t.stopped && k < |t.history.handed|
            && Tells(text, t, k, sights + [Sight(turn.slots(i).before, false, true, turn.slots(i).write,
                                                 turn.slots(i).after)])
            && (t.history.handed[k].fate.Held? ==> t.history.handed[k].fate == Held(i))
  {
    var polled := AfterUnread(text, s, turn.unread).0;
    UnreadPasses(text, s, turn.unread);
    StillHeld(text, s, polled, k, i);
    DispatchedKeeps(text, polled, turn.dispatch);
    StillHeld(text, polled, Dispatched(polled, turn.dispatch), k, i);
    HandOverAllStops(polled, turn.dispatch.handoffs);
    hide Valid, Tells, KeptSince, AfterUnread, ScanFrom, HandOverAll, DescriptorOk, SlotOk;
    TurnTells(text, s, turn, k, sights);
    ScanFromStops(text, Dispatched(polled, turn.dispatch), 0, polled, turn.poll, turn.slots);
  }

  lemma {:induction false} ScanFromStops(text: Text, s: State, i: nat, polled: State, poll: Poll,
      slots: nat -> SlotTurn)
    requires Valid(text, s) && i <= MAX_TRANSFERS && KeptSince(polled, s, i)
    ensures ScanFrom(text, s, i, polled, poll, slots).stopped == s.stopped
    decreases MAX_TRANSFERS - i
  {
    hide Valid, KeptSince;
    if i < MAX_TRANSFERS {
      ScanFromStops(text, ScanSlot(text, s, i, polled, poll, slots(i)), i + 1, polled, poll, slots);
    }
  }

  /** The descriptor of slot `i` is served in every turn, within 2000 ms of the time before. */
  predicate ServesAll(script: seq<Turn>, i: nat, since: int) {
    && (forall n: nat :: n < |script| ==> Serves(script[n], i))
    && (script != [] ==> script[0].slots(i).before - since < 2000)
    && (forall m: nat, n: nat :: n == m + 1 < |script| ==> script[n].slots(i).before - script[m].slots(i).after < 2000)
  }

  lemma ServesRest(script: seq<Turn>, i: nat, since: int)
    requires ServesAll(script, i, since) && script != []
    ensures ServesAll(script[1..], i, script[0].slots(i).after)
  {
    var rest := script[1..];
    forall m: nat, n: nat | n == m + 1 < |rest| ensures rest[n].slots(i).before - rest[m].slots(i).after < 2000 {
      assert rest[n] == script[n + 1] && rest[m] == script[m + 1];
    }
  }

  /** A turn that serves the descriptor in time moves a byte if one is left, and closes it after the last. */
  lemma ServedSight(text: Text, t: State, k: nat, sights: seq<Sight>, sight: Sight)
    requires k < |t.history.handed| && Tells(text, t, k, sights + [sight])
    requires !sight.gone && sight.writable && sight.write.Accepted? && sight.write.count >= 1
    requires sight.clock - ProgressOf(|text|, t.history.handed[k].handedAt, sights).since < 2000
    ensures var d := t.history.handed[k];
            var p, q := ProgressOf(|text|, d.handedAt, sights), ProgressOf(|text|, d.handedAt, sights + [sight]);
            && (p.given < |text| ==> q.given > p.given && q.since == sight.after)
            && (if q.given == |text| then d.fate == Closed(Complete) else d.fate.Held?)
  {
    var d := t.history.handed[k];
    OneMore(|text|, d.handedAt, sights, sight);
    OneMoreCloses(|text|, d.handedAt, sights, sight);
    hide ProgressOf, ClosesAt;
    assert forall reason :: d.fate == Closed(reason) ==>
        ClosesAt(|text|, d.handedAt, sights + [sight], |sights|, reason);
    assert ClosesAt(|text|, d.handedAt, sights + [sight], |sights|, Complete) ==> d.fate == Closed(Complete);
  }

  lemma {:induction false} ServedUntilComplete(text: Text, s: State, script: seq<Turn>, k: nat, i: nat,
      sights: seq<Sight>)
    requires Valid(text, s) && !s.stopped && k < |s.history.handed| && s.history.handed[k].fate == Held(i)
    requires Tells(text, s, k, sights) && script != []
    requires var p := ProgressOf(|text|, s.history.handed[k].handedAt, sights);
             |script| >= |text| - p.given && ServesAll(script, i, p.since)
    ensures var t := Served(text, s, script).0;
            k < |t.history.handed| && t.history.handed[k].fate == Closed(Complete)
    decreases |script|
  {
    var turn := script[0];
    var sight := Sight(turn.slots(i).before, false, true, turn.slots(i).write, turn.slots(i).after);
    TurnServes(text, s, turn, k, i, sights);
    var next := Turned(text, s, turn).0;
    assert Extends(s, next) && Continues(s.history.handed[k], next.history.handed[k]);
    ServedSight(text, next, k, sights, sight);
    ServesRest(script, i, ProgressOf(|text|, s.history.handed[k].handedAt, sights).since);
    HeldHasLeft(text, s, k, sights);
    hide Valid, Tells, Turned, ProgressOf, Serves, ServesAll;
    var r := Served(text, next, script[1..]);
    if next.history.handed[k].fate.Held? {
      ServedUntilComplete(text, next, script[1..], k, i, sights + [sight]);
    } else {
      assert Extends(next, r.0) && Continues(next.history.handed[k], r.0.history.handed[k]);
    }
  }

  lemma HeldHasLeft(text: Text, s: State, k: nat, sights: seq<Sight>)
    requires Valid(text, s) && k < |s.history.handed| && s.history.handed[k].fate.Held? && Tells(text, s, k, sights)
    ensures text != [] ==> ProgressOf(|text|, s.history.handed[k].handedAt, sights).given < |text|
  {
    assert DescriptorOk(text, s, k);
    hide ProgressOf, StaysOpenAt, ClosesAt;
  }

  /**
   A descriptor that is handed over goes to the lowest of the eight slots that is free, with 2000 ms
   until its deadline, or is closed: when all eight are taken or it cannot be made non-blocking.
   */
  lemma HandOverIff(text: Text, s: State, h: Handoff, i: nat)
    requires Valid(text, s)
    ensures var k := |s.history.handed|;
            var t := HandOver(s, h);
            && |s.slots| == 8 && |t.slots| == 8 && |t.history.handed| == k + 1
            && t.history.handed[k].handedAt == h.now && t.history.handed[k].received == []
            && (t.history.handed[k].fate == Closed(NoSlot) <==>
                  !h.nonblocking || forall j :: 0 <= j < 8 ==> s.slots[j].fd != -1)
            && (t.history.handed[k].fate == Held(i) <==>
                  h.nonblocking && i < 8 && s.slots[i].fd == -1 && forall j :: 0 <= j < i ==> s.slots[j].fd != -1)
            && (t.history.handed[k].fate == Held(i) ==>
                  t.slots == s.slots[i := Transfer(t.history.handed[k].fd, 0, h.now + 2000)])
  {
  }

  /**
   A paste is served: if from then on every turn gets to its scan, finds the slot writable less than
   2000 ms after the hand-over or its last write, and the write moves at least one byte, the
   descriptor has received the whole text and is closed as complete after as many turns as the text
   has bytes, or after one.
   */
  lemma ServedPasteIsComplete(text: Text, s: State, h: Handoff, i: nat, script: seq<Turn>)
    requires Valid(text, s) && Valid(text, HandOver(s, h)) && !s.stopped
    requires |HandOver(s, h).history.handed| == |s.history.handed| + 1
    requires HandOver(s, h).history.handed[|s.history.handed|].fate == Held(i)
    requires |script| >= |text| && script != [] && ServesAll(script, i, h.now)
    ensures var k, t := |s.history.handed|, Served(text, HandOver(s, h), script).0;
            && k < |t.history.handed|
            && t.history.handed[k].fate == Closed(Complete) && t.history.handed[k].received == text
  {
    var k, start := |s.history.handed|, HandOver(s, h);
    HandOverIff(text, s, h, i);
    HandOverShows(text, s, h, k);
    HandOverStops(s, h);
    ServedUntilComplete(text, start, script, k, i, []);
    var t := Served(text, start, script).0;
    assert DescriptorOk(text, t, k);
  }

  lemma HandOverStops(s: State, h: Handoff)
    requires |s.slots| == |s.history.owner|
    ensures HandOver(s, h).stopped == s.stopped
  {
  }

  // ---- How the loop ends

  /** The events before poll end the loop: the display fails there, or a stop arrives. */
  predicate EndsEarly(turn: Turn) {
    exists n :: 0 <= n < |turn.unread| && (turn.unread[n].failed || turn.unread[n].stops)
  }

  /** The connection is lost: at the flush, at poll, when reading, or when dispatching what was read. */
  predicate Breaks(turn: Turn) {
    !EndsEarly(turn) &&
    (|| turn.flush.FlushFailed?
     || turn.poll.Broken?
     || (turn.poll.Ready? && turn.poll.display.input && turn.readFails)
     || (turn.poll.Ready? && turn.poll.display.gone)
     || (!turn.poll.Interrupted? && turn.dispatch.failed))
  }

  /** A stop arrives with what is dispatched after poll, so that the loop ends before its next turn. */
  predicate StopsLate(turn: Turn) {
    !EndsEarly(turn) && !Breaks(turn) && !turn.poll.Interrupted? && turn.dispatch.stops
  }

  predicate GoesOn(turn: Turn) {
    !EndsEarly(turn) && !Breaks(turn) && !StopsLate(turn)
  }

  lemma {:induction false} UnreadEnds(text: Text, s: State, unread: seq<Dispatch>)
    requires Valid(text, s) && !s.stopped
    ensures var r := AfterUnread(text, s, unread);
            if exists n :: 0 <= n < |unread| && (unread[n].failed || unread[n].stops)
            then r.1 == Exited(0) else r.1 == Running && !r.0.stopped
    decreases |unread|
  {
    hide Valid;
    if unread != [] {
      DispatchedKeeps(text, s, unread[0]);
      HandOverAllStops(s, unread[0].handoffs);
      if !unread[0].failed && !unread[0].stops {
        UnreadEnds(text, Dispatched(s, unread[0]), unread[1..]);
        forall n | 0 <= n < |unread| && (unread[n].failed || unread[n].stops)
          ensures exists m :: 0 <= m < |unread[1..]| && (unread[1..][m].failed || unread[1..][m].stops)
        {
          assert unread[1..][n - 1] == unread[n];
        }
      } else {
        assert unread[0].failed || unread[0].stops;
      }
    }
  }

  lemma TurnEnds(text: Text, s: State, turn: Turn)
    requires Valid(text, s) && !s.stopped
    ensures var (t, outcome) := Turned(text, s, turn);
            && (outcome == Exited(0) <==> EndsEarly(turn))
            && (outcome == Exited(-1) <==> Breaks(turn))
            && (outcome == Running ==> (t.stopped <==> StopsLate(turn)))
            && (outcome == Running || outcome == Exited(0) || outcome == Exited(-1))
  {
    hide Valid, AfterUnread, ScanFrom, HandOverAll, KeptSince, Extends, AfterPoll;
    var polled := AfterUnread(text, s, turn.unread).0;
    UnreadEnds(text, s, turn.unread);
    if !EndsEarly(turn) { AfterPollStops(text, polled, turn); }
  }

  lemma AfterPollStops(text: Text, polled: State, turn: Turn)
    requires Valid(text, polled) && !polled.stopped
    ensures var (t, outcome) := AfterPoll(text, polled, turn);
            outcome == (if turn.dispatch.failed then Exited(-1) else Running) && t.stopped == turn.dispatch.stops
  {
    hide Valid, ScanFrom, HandOverAll, KeptSince, Extends;
    DispatchedKeeps(text, polled, turn.dispatch);
    HandOverAllStops(polled, turn.dispatch.handoffs);
    if !turn.dispatch.failed {
      ScanFromStops(text, Dispatched(polled, turn.dispatch), 0, polled, turn.poll, turn.slots);
    }
  }

  /** The first turn after which the loop does not go on; the length of the script when there is none. */
  function LastTurn(script: seq<Turn>): (n: nat)
    ensures n <= |script|
    ensures forall m :: 0 <= m < n ==> GoesOn(script[m])
    ensures n < |script| ==> !GoesOn(script[n])
  {
    if script == [] || !GoesOn(script[0]) then 0 else 1 + LastTurn(script[1..])
  }

  /**
   The loop ends in the first turn that does not go on: with an error if that turn loses the
   connection, and with success if a stop or a failing display ends it before poll, or a stop arrives
   after.
   */
  lemma {:induction false} LoopEnds(text: Text, s: State, script: seq<Turn>)
    requires Valid(text, s) && !s.stopped
    ensures var n := LastTurn(script);
            Served(text, s, script).1 ==
            if n == |script| then Running else if Breaks(script[n]) then Exited(-1) else Exited(0)
    decreases |script|
  {
    hide Valid, Turned, EndsEarly, Breaks;
    if script != [] {
      var (next, outcome) := Turned(text, s, script[0]);
      TurnEnds(text, s, script[0]);
      if outcome.Running? && !next.stopped { LoopEnds(text, next, script[1..]); }
    }
  }
}
