/**
 What a run of events does for one subscription, told from the events alone: whether it is current,
 how many chunks it has sent, and that queued replies reach the client.
 */
module StreamLives {
  import opened Numbers
  import opened Streams

  /** The life of a subscription: the ticks it has had while current, and whether its socket was open then. */
  datatype Life = NotYet | Live(socket: Socket, terminal: string, ticks: nat) | Over(ticks: nat, heard: bool)

  function Subscriptions(events: seq<Event>): nat {
    if events == [] then 0
    else Subscriptions(events[..|events| - 1]) + if events[|events| - 1].Subscribe? then 1 else 0
  }

  /** The event ends the stream of this socket and terminal. */
  predicate Ends(e: Event, socket: Socket, terminal: string) {
    e == Subscribe(socket, terminal) || e == Unsubscribe(socket, terminal) || e == Close(socket)
  }

  function LifeAfter(life: Life, e: Event, id: nat, isNext: bool, closed: bool): Life {
    match life
    case NotYet =>
      if e.Subscribe? && isNext then (if closed then Over(0, false) else Live(e.socket, e.terminal, 0)) else NotYet
    case Live(socket, terminal, ticks) =>
      if Ends(e, socket, terminal) then Over(ticks, true)
      else if e == Tick(id) then Live(socket, terminal, ticks + 1)
      else life
    case Over(_, _) => life
  }

  function LifeOf(events: seq<Event>, id: nat): Life {
    if events == [] then NotYet
    else
      var before, e := events[..|events| - 1], events[|events| - 1];
      LifeAfter(LifeOf(before, id), e, id, Subscriptions(before) == id, e.Subscribe? && Close(e.socket) in before)
  }

  /** The state agrees with what the events say of subscription `id`. */
  ghost predicate Agrees(s: State, life: Life, id: nat, setting: Setting) {
    match life
    case NotYet => id >= |s.streams|
    case Live(socket, terminal, ticks) =>
      && id < |s.streams| && IsCurrent(s, id)
      && var stream := s.streams[id];
         && stream.socket == socket && stream.terminal == terminal
         && stream.chunkIndex == Min(ticks, setting.chunks)
         && (stream.armed <==> ticks <= setting.chunks)
         && (!setting.delayed ==> stream.received == Sent(stream.chunkIndex))
    case Over(ticks, heard) =>
      && id < |s.streams| && !IsCurrent(s, id)
      && var stream := s.streams[id];
         && stream.chunkIndex == Min(ticks, setting.chunks)
         && (!setting.delayed ==> stream.received == if heard then Sent(stream.chunkIndex) else [])
  }

  /** An event that is neither a tick of the stream nor its end changes nothing of it. */
  lemma OtherEvents(s: State, e: Event, id: nat, setting: Setting)
    requires Valid(s, setting) && id < |s.streams| && e != Tick(id)
    requires IsCurrent(s, id) ==> !Ends(e, s.streams[id].socket, s.streams[id].terminal)
    ensures var t := Step(s, e, setting);
            && id < |t.streams| && (IsCurrent(t, id) <==> IsCurrent(s, id))
            && t.streams[id].socket == s.streams[id].socket && t.streams[id].terminal == s.streams[id].terminal
            && t.streams[id].chunkIndex == s.streams[id].chunkIndex
            && (IsCurrent(s, id) ==> t.streams[id].armed == s.streams[id].armed)
            && (!setting.delayed ==> t.streams[id].received == s.streams[id].received)
  {
    var t, stream := Step(s, e, setting), s.streams[id];
    if !IsCurrent(s, id) { SilentStep(s, id, e, setting); }
    match e
    case Subscribe(socket, terminal) =>
      assert HeldOk(s, socket, terminal);
      SubscribedIs(s, socket, terminal, setting);
      ClearEffect(s, socket, terminal, id);
      BeginHolds(s, socket, terminal, stream.socket, stream.terminal);
      assert t.streams[id] == t.streams[..|s.streams|][id];
      assert Held(t, stream.socket, stream.terminal) ==
             Held(Begin(s, socket, terminal), stream.socket, stream.terminal);
    case Unsubscribe(socket, terminal) =>
      assert HeldOk(s, socket, terminal);
      ClearEffect(s, socket, terminal, id);
      ClearHolds(s, socket, terminal, stream.socket, stream.terminal);
    case Tick(other) =>
      assert Held(t, stream.socket, stream.terminal) == Held(s, stream.socket, stream.terminal);
    case Deliver =>
      assert Held(t, stream.socket, stream.terminal) == Held(s, stream.socket, stream.terminal);
    case Close(_) =>
  }

  /** A tick of a current stream sends the next chunk, or stops its interval when there is none. */
  lemma OwnTick(s: State, id: nat, ticks: nat, setting: Setting)
    requires Valid(s, setting) && id < |s.streams|
    requires IsCurrent(s, id) && Agrees(s, Live(s.streams[id].socket, s.streams[id].terminal, ticks), id, setting)
    ensures var t := Step(s, Tick(id), setting);
            Agrees(t, Live(s.streams[id].socket, s.streams[id].terminal, ticks + 1), id, setting)
  {
    var t, stream := Step(s, Tick(id), setting), s.streams[id];
    assert Held(t, stream.socket, stream.terminal) == Held(s, stream.socket, stream.terminal);
    if ticks < setting.chunks { TickedIs(s, id, setting); }
  }

  lemma OverTick(s: State, id: nat, setting: Setting)
    requires id < |s.streams| && !IsCurrent(s, id)
    ensures var t := Step(s, Tick(id), setting);
            id < |t.streams| && !IsCurrent(t, id) && t.streams[id].chunkIndex == s.streams[id].chunkIndex &&
            t.streams[id].received == s.streams[id].received
  {
    var stream := s.streams[id];
    var t := Step(s, Tick(id), setting);
    assert Held(t, stream.socket, stream.terminal) == Held(s, stream.socket, stream.terminal);
  }

  /** Ending a stream leaves its count. */
  lemma EndKeepsCount(s: State, e: Event, id: nat, setting: Setting)
    requires Valid(s, setting) && id < |s.streams| && Ends(e, s.streams[id].socket, s.streams[id].terminal)
    ensures var t := Step(s, e, setting);
            id < |t.streams| && !IsCurrent(t, id) && t.streams[id].chunkIndex == s.streams[id].chunkIndex &&
            t.streams[id].received == s.streams[id].received
  {
    SupersededNow(s, id, e, setting);
    if e.Subscribe? {
      SubscribedIs(s, e.socket, e.terminal, setting);
      var t := Step(s, e, setting);
      assert t.streams[id] == t.streams[..|s.streams|][id];
    }
    if !e.Close? { ClearEffect(s, e.socket, e.terminal, id); }
  }

  lemma NewStream(s: State, socket: Socket, terminal: string, setting: Setting)
    requires Valid(s, setting)
    ensures var t, id := Step(s, Subscribe(socket, terminal), setting), |s.streams|;
            Agrees(t, if socket in s.closed then Over(0, false) else Live(socket, terminal, 0), id, setting)
  {
    var t, id := Step(s, Subscribe(socket, terminal), setting), |s.streams|;
    SubscribedIs(s, socket, terminal, setting);
    BeginHolds(s, socket, terminal, socket, terminal);
    assert Held(t, socket, terminal) == Held(Begin(s, socket, terminal), socket, terminal);
  }

  lemma StepAgrees(s: State, life: Life, e: Event, id: nat, setting: Setting)
    requires Valid(s, setting) && Agrees(s, life, id, setting)
    ensures var isNext := |s.streams| == id;
            Agrees(Step(s, e, setting), LifeAfter(life, e, id, isNext, e.Subscribe? && e.socket in s.closed), id,
                setting)
  {
    hide Step, Valid, IsCurrent, Sent;
    match life
    case NotYet =>
      if e.Subscribe? && |s.streams| == id {
        NewStream(s, e.socket, e.terminal, setting);
      } else {
        StepCounts(s, e, setting);
      }
    case Live(socket, terminal, ticks) =>
      if Ends(e, socket, terminal) {
        EndKeepsCount(s, e, id, setting);
      } else if e == Tick(id) {
        OwnTick(s, id, ticks, setting);
      } else {
        OtherEvents(s, e, id, setting);
      }
    case Over(_, _) =>
      if e == Tick(id) {
        OverTick(s, id, setting);
      } else {
        OtherEvents(s, e, id, setting);
      }
  }

  lemma StepCounts(s: State, e: Event, setting: Setting)
    ensures var t := Step(s, e, setting);
            && |t.streams| == |s.streams| + (if e.Subscribe? then 1 else 0)
            && t.closed == s.closed + if e.Close? then {e.socket} else {}
  {
  }

  lemma {:induction false} RunAgrees(events: seq<Event>, id: nat, setting: Setting)
    ensures var s := Run(events, setting);
            && |s.streams| == Subscriptions(events)
            && (forall socket :: socket in s.closed <==> Close(socket) in events)
            && Agrees(s, LifeOf(events, id), id, setting)
  {
    hide Step, Valid, Agrees;
    if events == [] {
      NothingYet(id, setting);
    } else {
      var before, e := events[..|events| - 1], events[|events| - 1];
      assert events == before + [e];
      RunAgrees(before, id, setting);
      RunIsValid(before, setting);
      StepCounts(Run(before, setting), e, setting);
      StepAgrees(Run(before, setting), LifeOf(before, id), e, id, setting);
    }
  }

  lemma NothingYet(id: nat, setting: Setting)
    ensures Agrees(INITIAL, NotYet, id, setting)
  {
  }

  /**
   In every run, from the events alone: a subscription is current exactly from its event until the
   next one for the same socket and terminal, an unsubscription or the closing of its socket; it has
   sent one chunk for each of its ticks in that time until there are no more; its interval is armed
   exactly until the tick after the last chunk; and without delay its client has received all of that.
   */
  lemma StreamIsItsLife(events: seq<Event>, id: nat, setting: Setting)
    requires id < Subscriptions(events)
    ensures var s, life := Run(events, setting), LifeOf(events, id);
            && id < |s.streams|
            && (IsCurrent(s, id) <==> life.Live?)
            && (life.Live? ==> (s.streams[id].armed <==> life.ticks <= setting.chunks))
            && !life.NotYet? && s.streams[id].chunkIndex == Min(life.ticks, setting.chunks)
            && (!setting.delayed ==>
                 s.streams[id].received ==
                 if life.Live? || life.heard then Sent(Min(life.ticks, setting.chunks)) else [])
  {
    RunAgrees(events, id, setting);
  }

  // ---- Queued replies

  /** The oldest queued reply leaves the queue, and reaches its client if its stream is current. */
  lemma DeliverSends(s: State, setting: Setting, id: nat)
    requires s.pending != [] && id < |s.streams|
    ensures var t, head := Step(s, Deliver, setting), s.pending[0];
            && t.pending == s.pending[1..] && |t.streams| == |s.streams|
            && (IsCurrent(t, id) <==> IsCurrent(s, id))
            && t.streams[id] ==
                 if head.stream == id && IsCurrent(s, id)
                 then s.streams[id].(received := s.streams[id].received + [head.message])
                 else s.streams[id]
  {
    var t, stream := Step(s, Deliver, setting), s.streams[id];
    assert Held(t, stream.socket, stream.terminal) == Held(s, stream.socket, stream.terminal);
  }

  function Delivered(s: State, n: nat, setting: Setting): State
    decreases n
  {
    if n == 0 then s else Delivered(Step(s, Deliver, setting), n - 1, setting)
  }

  /** After as many deliveries as there are queued replies, the queue is empty and every current stream has its own. */
  lemma {:induction false} AllIsDelivered(s: State, setting: Setting, id: nat)
    requires id < |s.streams|
    ensures var t := Delivered(s, |s.pending|, setting);
            && t.pending == [] && id < |t.streams|
            && t.streams[id].received ==
                 s.streams[id].received + (if IsCurrent(s, id) then Queued(s.pending, id) else [])
    decreases |s.pending|
  {
    hide IsCurrent, Step;
    if s.pending == [] {
      assert s.streams[id].received + [] == s.streams[id].received;
    } else {
      var next := Step(s, Deliver, setting);
      DeliverSends(s, setting, id);
      QueuedHead(s.pending, id);
      AllIsDelivered(next, setting, id);
      if s.pending[0].stream == id {
        Regrouped(s.streams[id].received, s.pending[0].message, Queued(s.pending[1..], id));
      }
    }
  }

  /** So with delayed replies too, a current stream's client ends up with all that its ticks have sent. */
  lemma DelayedArrives(events: seq<Event>, id: nat, setting: Setting)
    requires id < Subscriptions(events) && LifeOf(events, id).Live?
    ensures var s := Run(events, setting);
            var t := Delivered(s, |s.pending|, setting);
            t.pending == [] && id < |t.streams| &&
            t.streams[id].received == Sent(Min(LifeOf(events, id).ticks, setting.chunks))
  {
    hide Sent;
    var s := Run(events, setting);
    StreamIsItsLife(events, id, setting);
    RunIsValid(events, setting);
    assert StreamOk(s, id, setting);
    AllIsDelivered(s, setting, id);
  }
}
