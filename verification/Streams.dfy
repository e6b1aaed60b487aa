/**
 The mock server's terminal streams.  A client subscribes again whenever its viewport changes;
 each subscription supersedes the one before on that socket and terminal, and replies may be
 delayed, all by the same time.
 */
module Streams {
  import opened Wrappers

  type Socket = nat

  datatype Message = Scrollback | Data(chunk: nat)

  /** One subscription: its interval, the next chunk, and the messages its client has received. */
  datatype Stream = Stream(socket: Socket, terminal: string, armed: bool, chunkIndex: nat, received: seq<Message>)

  /** A delayed reply, to be sent if its stream is still current when the delay is over. */
  datatype Delivery = Delivery(stream: nat, message: Message)

  /** Whether replies are delayed, and how many chunks there are. */
  datatype Setting = Setting(delayed: bool, chunks: nat)

  /**
   The handler's state.  Streams are numbered in the order of their subscriptions; `current` maps
   a socket's terminals to streams; replies with the same delay fire in the order they were queued.
   */
  datatype State = State(
    current: map<Socket, map<string, nat>>,
    streams: seq<Stream>,
    closed: set<Socket>,
    pending: seq<Delivery>)

  const INITIAL := State(map[], [], {}, [])

  function Held(s: State, socket: Socket, terminal: string): Option<nat> {
    if socket in s.current && terminal in s.current[socket] then Some(s.current[socket][terminal]) else None
  }

  /** `isCurrentTerminalStream`: the stream its socket and terminal hold, on an open socket. */
  predicate IsCurrent(s: State, id: nat) {
    id < |s.streams| && Held(s, s.streams[id].socket, s.streams[id].terminal) == Some(id) &&
        s.streams[id].socket !in s.closed
  }

  function Stop(s: State, id: nat): State {
    if id < |s.streams| then s.(streams := s.streams[id := s.streams[id].(armed := false)]) else s
  }

  function Clear(s: State, socket: Socket, terminal: string): State {
    var id := Held(s, socket, terminal);
    if id.None? then s else Stop(s, id.value).(current := s.current[socket := s.current[socket] - {terminal}])
  }

  function Send(s: State, delivery: Delivery): State {
    if !IsCurrent(s, delivery.stream) then s
    else
      var stream := s.streams[delivery.stream];
      s.(streams := s.streams[delivery.stream := stream.(received := stream.received + [delivery.message])])
  }

  function Respond(s: State, delivery: Delivery, setting: Setting): State {
    if setting.delayed then s.(pending := s.pending + [delivery]) else Send(s, delivery)
  }

  function Begin(s: State, socket: Socket, terminal: string): State {
    var t := Clear(s, socket, terminal);
    var perTerminal := if socket in t.current then t.current[socket] else map[];
    t.(current := t.current[socket := perTerminal[terminal := |s.streams|]],
       streams := t.streams + [Stream(socket, terminal, false, 0, [])])
  }

  function Arm(s: State, id: nat): State
    requires id < |s.streams|
  {
    s.(streams := s.streams[id := s.streams[id].(armed := true)])
  }

  datatype Event =
    | Subscribe(socket: Socket, terminal: string)
    | Unsubscribe(socket: Socket, terminal: string)
    | Tick(stream: nat)
    | Deliver
    | Close(socket: Socket)

  /** The interval of a stream fires, if it is armed. */
  function Ticked(s: State, id: nat, setting: Setting): State {
    if id >= |s.streams| || !s.streams[id].armed then s
    else if !IsCurrent(s, id) || s.streams[id].chunkIndex >= setting.chunks then Stop(s, id)
    else
      var t := Respond(s, Delivery(id, Data(s.streams[id].chunkIndex)), setting);
      t.(streams := t.streams[id := t.streams[id].(chunkIndex := t.streams[id].chunkIndex + 1)])
  }

  function Subscribed(s: State, socket: Socket, terminal: string, setting: Setting): (t: State)
    ensures |t.streams| == |s.streams| + 1
  {
    var begun := Begin(s, socket, terminal);
    Arm(Respond(begun, Delivery(|s.streams|, Scrollback), setting), |s.streams|)
  }

  function Step(s: State, e: Event, setting: Setting): State {
    match e
    case Subscribe(socket, terminal) => Subscribed(s, socket, terminal, setting)
    case Unsubscribe(socket, terminal) => Clear(s, socket, terminal)
    case Tick(id) => Ticked(s, id, setting)
    case Deliver => if s.pending == [] then s else Send(s.(pending := s.pending[1..]), s.pending[0])
    case Close(socket) => s.(closed := s.closed + {socket})
  }

  function Run(events: seq<Event>, setting: Setting): State {
    if events == [] then INITIAL else Step(Run(events[..|events| - 1], setting), events[|events| - 1], setting)
  }

  /** What a stream that sent `chunks` chunks has sent. */
  function Sent(chunks: nat): seq<Message> {
    if chunks == 0 then [Scrollback] else Sent(chunks - 1) + [Data(chunks - 1)]
  }

  /** The messages still queued for a stream, in order. */
  function Queued(pending: seq<Delivery>, id: nat): seq<Message> {
    if pending == [] then []
    else if pending[0].stream == id then [pending[0].message] + Queued(pending[1..], id)
    else Queued(pending[1..], id)
  }

  /** What holds of every subscription. */
  ghost predicate StreamOk(s: State, id: nat, setting: Setting)
    requires id < |s.streams|
  {
    var stream := s.streams[id];
    && (stream.armed ==> Held(s, stream.socket, stream.terminal) == Some(id))
    && stream.chunkIndex <= setting.chunks
    && stream.received <= Sent(stream.chunkIndex)
    && (IsCurrent(s, id) ==> stream.received + Queued(s.pending, id) == Sent(stream.chunkIndex))
  }

  ghost predicate HeldOk(s: State, socket: Socket, terminal: string) {
    var id := Held(s, socket, terminal);
    id.Some? ==>
      id.value < |s.streams| && s.streams[id.value].socket == socket && s.streams[id.value].terminal == terminal
  }

  ghost predicate Valid(s: State, setting: Setting) {
    && (forall id: nat :: id < |s.streams| ==> StreamOk(s, id, setting))
    && (forall socket, terminal :: HeldOk(s, socket, terminal))
    && (forall k :: 0 <= k < |s.pending| ==> s.pending[k].stream < |s.streams|)
    && (!setting.delayed ==> s.pending == [])
  }

  lemma {:induction false} QueuedSnoc(pending: seq<Delivery>, last: Delivery, id: nat)
    ensures Queued(pending + [last], id) == Queued(pending, id) + if last.stream == id then [last.message] else []
  {
    if pending != [] {
      assert (pending + [last])[1..] == pending[1..] + [last];
      QueuedSnoc(pending[1..], last, id);
    }
  }

  lemma {:induction false} QueuedNone(pending: seq<Delivery>, id: nat)
    requires forall k :: 0 <= k < |pending| ==> pending[k].stream < id
    ensures Queued(pending, id) == []
  {
    if pending != [] { QueuedNone(pending[1..], id); }
  }

  /** `Clear` frees the terminal and stops its stream; everything else keeps its facts. */
  lemma ClearEffect(s: State, socket: Socket, terminal: string, id: nat)
    requires id < |s.streams|
    ensures var t := Clear(s, socket, terminal);
            && |t.streams| == |s.streams| && t.pending == s.pending && t.closed == s.closed
            && (Held(s, socket, terminal) == Some(id) ==> t.streams[id] == s.streams[id].(armed := false))
            && (Held(s, socket, terminal) != Some(id) ==> t.streams[id] == s.streams[id])
  {
  }

  lemma ClearHolds(s: State, socket: Socket, terminal: string, otherSocket: Socket, otherTerminal: string)
    ensures Held(Clear(s, socket, terminal), otherSocket, otherTerminal) ==
            if otherSocket == socket && otherTerminal == terminal then None else Held(s, otherSocket, otherTerminal)
  {
  }

  lemma ClearKeeps(s: State, socket: Socket, terminal: string, setting: Setting)
    requires Valid(s, setting)
    ensures Valid(Clear(s, socket, terminal), setting)
  {
    var t := Clear(s, socket, terminal);
    forall id: nat | id < |t.streams| ensures StreamOk(t, id, setting) {
      assert StreamOk(s, id, setting);
      ClearEffect(s, socket, terminal, id);
      ClearHolds(s, socket, terminal, s.streams[id].socket, s.streams[id].terminal);
    }
    forall otherSocket, otherTerminal ensures HeldOk(t, otherSocket, otherTerminal) {
      assert HeldOk(s, otherSocket, otherTerminal);
      ClearHolds(s, socket, terminal, otherSocket, otherTerminal);
      if Held(s, otherSocket, otherTerminal).Some? {
        ClearEffect(s, socket, terminal, Held(s, otherSocket, otherTerminal).value);
      }
    }
  }

  lemma BeginHolds(s: State, socket: Socket, terminal: string, otherSocket: Socket, otherTerminal: string)
    ensures Held(Begin(s, socket, terminal), otherSocket, otherTerminal) ==
            if otherSocket == socket && otherTerminal == terminal then Some(|s.streams|)
            else Held(s, otherSocket, otherTerminal)
  {
    ClearHolds(s, socket, terminal, otherSocket, otherTerminal);
  }

  /** The state after a subscription: the new stream has sent the scrollback, or it is queued. */
  lemma SubscribedIs(s: State, socket: Socket, terminal: string, setting: Setting)
    requires Valid(s, setting)
    ensures var t, n := Subscribed(s, socket, terminal, setting), |s.streams|;
            && t.current == Begin(s, socket, terminal).current && t.closed == s.closed
            && t.streams[..n] == Clear(s, socket, terminal).streams
            && t.streams[n] ==
                 Stream(socket, terminal, true, 0, if setting.delayed || socket in s.closed then [] else [Scrollback])
            && t.pending == if setting.delayed then s.pending + [Delivery(n, Scrollback)] else s.pending
  {
    BeginHolds(s, socket, terminal, socket, terminal);
    var begun := Begin(s, socket, terminal);
    assert IsCurrent(begun, |s.streams|) <==> socket !in s.closed;
  }

  lemma SubscribeKeeps(s: State, socket: Socket, terminal: string, setting: Setting)
    requires Valid(s, setting)
    ensures Valid(Subscribed(s, socket, terminal, setting), setting)
  {
    var t, cleared, n := Subscribed(s, socket, terminal, setting), Clear(s, socket, terminal), |s.streams|;
    SubscribedIs(s, socket, terminal, setting);
    ClearKeeps(s, socket, terminal, setting);
    hide Subscribed, Begin, Clear;
    assert forall otherSocket, otherTerminal ::
        Held(t, otherSocket, otherTerminal) == Held(Begin(s, socket, terminal), otherSocket, otherTerminal);
    forall id: nat | id < |t.streams| ensures StreamOk(t, id, setting) {
      QueuedSnoc(s.pending, Delivery(n, Scrollback), id);
      if id == n {
        BeginHolds(s, socket, terminal, socket, terminal);
        QueuedNone(s.pending, n);
        assert [] + [Scrollback] == [Scrollback] + [] == Sent(0);
      } else {
        assert t.streams[id] == t.streams[..n][id] == cleared.streams[id];
        ClearEffect(s, socket, terminal, id);
        SupersededOk(s, cleared, t, socket, terminal, id, setting);
      }
    }
    forall otherSocket, otherTerminal ensures HeldOk(t, otherSocket, otherTerminal) {
      assert HeldOk(s, otherSocket, otherTerminal);
      BeginHolds(s, socket, terminal, otherSocket, otherTerminal);
      var held := Held(s, otherSocket, otherTerminal);
      if held.Some? {
        assert t.streams[held.value] == t.streams[..n][held.value];
        ClearEffect(s, socket, terminal, held.value);
      }
    }
  }

  /** An older stream keeps its facts: it is the one superseded, or its place is untouched. */
  lemma SupersededOk(s: State, cleared: State, t: State, socket: Socket, terminal: string, id: nat, setting: Setting)
    requires id < |s.streams| == |cleared.streams| < |t.streams|
    requires StreamOk(cleared, id, setting) && t.streams[id] == cleared.streams[id] &&
             t.closed == cleared.closed == s.closed
    requires Queued(t.pending, id) == Queued(cleared.pending, id)
    requires cleared == Clear(s, socket, terminal) && t.current == Begin(s, socket, terminal).current
    ensures StreamOk(t, id, setting)
  {
    var stream := cleared.streams[id];
    BeginHolds(s, socket, terminal, stream.socket, stream.terminal);
    ClearHolds(s, socket, terminal, stream.socket, stream.terminal);
    assert Held(t, stream.socket, stream.terminal) == Held(Begin(s, socket, terminal), stream.socket, stream.terminal);
  }

  /** The state after a tick that sends the next chunk. */
  lemma TickedIs(s: State, id: nat, setting: Setting)
    requires id < |s.streams| && s.streams[id].armed && IsCurrent(s, id) && s.streams[id].chunkIndex < setting.chunks
    ensures var t, stream := Ticked(s, id, setting), s.streams[id];
            var message := Data(stream.chunkIndex);
            && t.current == s.current && t.closed == s.closed
            && t.streams == s.streams[id := Stream(stream.socket, stream.terminal, true, stream.chunkIndex + 1,
              if setting.delayed then stream.received else stream.received + [message])]
            && t.pending == if setting.delayed then s.pending + [Delivery(id, message)] else s.pending
  {
  }

  lemma TickKeeps(s: State, id: nat, setting: Setting)
    requires Valid(s, setting)
    ensures Valid(Ticked(s, id, setting), setting)
  {
    var t := Ticked(s, id, setting);
    assert forall socket, terminal :: Held(t, socket, terminal) == Held(s, socket, terminal);
    if id < |s.streams| && s.streams[id].armed && IsCurrent(s, id) && s.streams[id].chunkIndex < setting.chunks {
      TickedIs(s, id, setting);
      hide Ticked;
      forall k: nat | k < |t.streams| ensures StreamOk(t, k, setting) {
        assert StreamOk(s, k, setting);
        QueuedSnoc(s.pending, Delivery(id, Data(s.streams[id].chunkIndex)), k);
        if k == id { TickedOk(s.streams[id].received, Queued(s.pending, id), s.streams[id].chunkIndex); }
      }
    } else {
      forall k: nat | k < |t.streams| ensures StreamOk(t, k, setting) { assert StreamOk(s, k, setting); }
    }
    forall socket, terminal ensures HeldOk(t, socket, terminal) { assert HeldOk(s, socket, terminal); }
  }

  lemma TickedOk(received: seq<Message>, queued: seq<Message>, chunk: nat)
    requires received + queued == Sent(chunk)
    ensures received + (queued + [Data(chunk)]) == Sent(chunk + 1)
    ensures queued == [] ==> received + [Data(chunk)] == Sent(chunk + 1)
  {
    assert received + (queued + [Data(chunk)]) == (received + queued) + [Data(chunk)];
  }

  /** Removing the first delivery takes its message from its stream's queue. */
  lemma QueuedHead(pending: seq<Delivery>, id: nat)
    requires pending != []
    ensures Queued(pending, id) ==
            (if pending[0].stream == id then [pending[0].message] else []) + Queued(pending[1..], id)
  {
  }

  lemma Regrouped(received: seq<Message>, message: Message, queued: seq<Message>)
    ensures (received + [message]) + queued == received + ([message] + queued)
    ensures received <= (received + [message]) + queued
    ensures received + [message] <= (received + [message]) + queued
  {
  }

  lemma DeliverKeeps(s: State, setting: Setting)
    requires Valid(s, setting)
    ensures Valid(Step(s, Deliver, setting), setting)
  {
    if s.pending != [] {
      var t, head := Step(s, Deliver, setting), s.pending[0];
      assert t.current == s.current && t.closed == s.closed && t.pending == s.pending[1..];
      assert forall socket, terminal :: Held(t, socket, terminal) == Held(s, socket, terminal);
      forall id: nat | id < |t.streams| ensures StreamOk(t, id, setting) {
        assert StreamOk(s, id, setting);
        QueuedHead(s.pending, id);
        Regrouped(s.streams[id].received, head.message, Queued(t.pending, id));
      }
      forall socket, terminal ensures HeldOk(t, socket, terminal) { assert HeldOk(s, socket, terminal); }
    }
  }

  lemma CloseKeeps(s: State, socket: Socket, setting: Setting)
    requires Valid(s, setting)
    ensures Valid(Step(s, Close(socket), setting), setting)
  {
    var t := Step(s, Close(socket), setting);
    forall id: nat | id < |t.streams| ensures StreamOk(t, id, setting) { assert StreamOk(s, id, setting); }
    forall otherSocket, terminal ensures HeldOk(t, otherSocket, terminal) { assert HeldOk(s, otherSocket, terminal); }
  }

  lemma StepKeepsValid(s: State, e: Event, setting: Setting)
    requires Valid(s, setting)
    ensures Valid(Step(s, e, setting), setting)
  {
    hide Valid, Subscribed, Clear, Ticked;
    match e
    case Subscribe(socket, terminal) => SubscribeKeeps(s, socket, terminal, setting);
    case Unsubscribe(socket, terminal) => ClearKeeps(s, socket, terminal, setting);
    case Tick(id) => TickKeeps(s, id, setting);
    case Deliver => DeliverKeeps(s, setting);
    case Close(socket) => CloseKeeps(s, socket, setting);
  }

  lemma {:induction false} RunIsValid(events: seq<Event>, setting: Setting)
    ensures Valid(Run(events, setting), setting)
  {
    if events != [] {
      RunIsValid(events[..|events| - 1], setting);
      StepKeepsValid(Run(events[..|events| - 1], setting), events[|events| - 1], setting);
    }
  }

  /** In every run, a socket and terminal have at most one armed interval: that of the stream they hold. */
  lemma AtMostOneArmed(events: seq<Event>, id: nat, other: nat, setting: Setting)
    requires var s := Run(events, setting);
             && id < |s.streams| && other < |s.streams| && s.streams[id].armed && s.streams[other].armed
             && s.streams[id].socket == s.streams[other].socket && s.streams[id].terminal == s.streams[other].terminal
    ensures id == other
    ensures var s := Run(events, setting); Held(s, s.streams[id].socket, s.streams[id].terminal) == Some(id)
  {
    var s := Run(events, setting);
    RunIsValid(events, setting);
    assert StreamOk(s, id, setting) && StreamOk(s, other, setting);
  }

  lemma {:induction false} SentIsPrefix(chunks: nat, more: nat)
    requires chunks <= more
    ensures Sent(chunks) <= Sent(more)
  {
    if chunks < more { SentIsPrefix(chunks, more - 1); }
  }

  /**
   In every run a client receives the scrollback and then the chunks, in order, none repeated and
   none skipped; a current stream with nothing queued has received all it has sent.
   */
  lemma ChunksArriveInOrder(events: seq<Event>, id: nat, setting: Setting)
    requires id < |Run(events, setting).streams|
    ensures var s := Run(events, setting);
            && s.streams[id].received <= Sent(setting.chunks)
            && (IsCurrent(s, id) && Queued(s.pending, id) == [] ==>
                 s.streams[id].received == Sent(s.streams[id].chunkIndex))
  {
    var s := Run(events, setting);
    RunIsValid(events, setting);
    assert StreamOk(s, id, setting);
    SentIsPrefix(s.streams[id].chunkIndex, setting.chunks);
  }

  /** A stream that is not current stays so and receives nothing more. */
  lemma SilentStep(s: State, id: nat, e: Event, setting: Setting)
    requires id < |s.streams| && !IsCurrent(s, id)
    ensures var t := Step(s, e, setting);
            && id < |t.streams| && !IsCurrent(t, id) && t.streams[id].received == s.streams[id].received
            && t.streams[id].socket == s.streams[id].socket && t.streams[id].terminal == s.streams[id].terminal
  {
    var stream := s.streams[id];
    match e
    case Subscribe(socket, terminal) => SilentSubscribe(s, id, socket, terminal, setting);
    case Unsubscribe(socket, terminal) =>
      ClearEffect(s, socket, terminal, id);
      ClearHolds(s, socket, terminal, stream.socket, stream.terminal);
    case Tick(other) =>
      var t := Ticked(s, other, setting);
      assert Held(t, stream.socket, stream.terminal) == Held(s, stream.socket, stream.terminal);
    case Deliver =>
      var t := Step(s, Deliver, setting);
      assert Held(t, stream.socket, stream.terminal) == Held(s, stream.socket, stream.terminal);
    case Close(_) =>
  }

  lemma SilentSubscribe(s: State, id: nat, socket: Socket, terminal: string, setting: Setting)
    requires id < |s.streams| && !IsCurrent(s, id)
    ensures var t := Subscribed(s, socket, terminal, setting);
            && !IsCurrent(t, id) && t.streams[id].received == s.streams[id].received
            && t.streams[id].socket == s.streams[id].socket && t.streams[id].terminal == s.streams[id].terminal
  {
    var t, stream := Subscribed(s, socket, terminal, setting), s.streams[id];
    ClearEffect(s, socket, terminal, id);
    BeginHolds(s, socket, terminal, stream.socket, stream.terminal);
    assert Held(t, stream.socket, stream.terminal) == Held(Begin(s, socket, terminal), stream.socket, stream.terminal);
  }

  lemma {:induction false} SilentAfterwards(events: seq<Event>, more: seq<Event>, id: nat, setting: Setting)
    requires id < |Run(events, setting).streams| && !IsCurrent(Run(events, setting), id)
    ensures var s, t := Run(events, setting), Run(events + more, setting);
            id < |t.streams| && !IsCurrent(t, id) && t.streams[id].received == s.streams[id].received
  {
    hide Step, IsCurrent;
    if more == [] {
      assert events + more == events;
    } else {
      var n := |more| - 1;
      assert (events + more)[..|events + more| - 1] == events + more[..n];
      SilentAfterwards(events, more[..n], id, setting);
      SilentStep(Run(events + more[..n], setting), id, more[n], setting);
    }
  }

  /** Subscribing again, unsubscribing or closing the socket ends a stream. */
  predicate Supersedes(e: Event, stream: Stream) {
    match e
    case Subscribe(socket, terminal) => socket == stream.socket && terminal == stream.terminal
    case Unsubscribe(socket, terminal) => socket == stream.socket && terminal == stream.terminal
    case Close(socket) => socket == stream.socket
    case _ => false
  }

  /** Nothing is delivered for a superseded request, whatever was queued for it and whatever follows. */
  lemma SupersededIsSilent(events: seq<Event>, e: Event, more: seq<Event>, id: nat, setting: Setting)
    requires var s := Run(events, setting); id < |s.streams| && Supersedes(e, s.streams[id])
    ensures var s, t := Run(events, setting), Run(events + [e] + more, setting);
            id < |t.streams| && !IsCurrent(t, id) && t.streams[id].received == s.streams[id].received
  {
    var s := Run(events, setting);
    assert (events + [e])[..|events + [e]| - 1] == events;
    RunIsValid(events, setting);
    SupersededNow(s, id, e, setting);
    SilentAfterwards(events + [e], more, id, setting);
  }

  lemma SupersededNow(s: State, id: nat, e: Event, setting: Setting)
    requires Valid(s, setting) && id < |s.streams| && Supersedes(e, s.streams[id])
    ensures var t := Step(s, e, setting);
            id < |t.streams| && !IsCurrent(t, id) && t.streams[id].received == s.streams[id].received
  {
    var t, stream := Step(s, e, setting), s.streams[id];
    match e
    case Subscribe(socket, terminal) =>
      SubscribedIs(s, socket, terminal, setting);
      assert t.streams[id] == t.streams[..|s.streams|][id];
      ClearEffect(s, socket, terminal, id);
      BeginHolds(s, socket, terminal, stream.socket, stream.terminal);
      assert Held(t, socket, terminal) == Held(Begin(s, socket, terminal), socket, terminal);
    case Unsubscribe(socket, terminal) =>
      ClearEffect(s, socket, terminal, id);
      ClearHolds(s, socket, terminal, socket, terminal);
    case Close(_) =>
  }

  /** The handler's module state, changed in place. */
  class TerminalStreams {
    var current: map<Socket, map<string, nat>>
    var streams: seq<Stream>
    var closed: set<Socket>
    var pending: seq<Delivery>

    function Contents(): State
      reads this
    {
      State(current, streams, closed, pending)
    }

    constructor ()
      ensures Contents() == INITIAL
    {
      current, streams, closed, pending := map[], [], {}, [];
    }

    predicate IsCurrentTerminalStream(id: nat)
      reads this
    {
      IsCurrent(Contents(), id)
    }

    method StopTerminalStreamInterval(id: nat)
      modifies this`streams
      ensures Contents() == Stop(old(Contents()), id)
    {
      if id < |streams| && streams[id].armed { streams := streams[id := streams[id].(armed := false)]; }
      assert Contents() == Stop(old(Contents()), id);
    }

    method ClearTerminalStream(socket: Socket, terminal: string)
      modifies this`streams, this`current
      ensures Contents() == Clear(old(Contents()), socket, terminal)
    {
      if socket in current && terminal in current[socket] {
        StopTerminalStreamInterval(current[socket][terminal]);
        current := current[socket := current[socket] - {terminal}];
      }
    }

    method BeginTerminalStream(socket: Socket, terminal: string) returns (id: nat)
      modifies this`streams, this`current
      ensures id == |old(streams)| && Contents() == Begin(old(Contents()), socket, terminal)
    {
      ClearTerminalStream(socket, terminal);
      var perTerminal: map<string, nat> := if socket in current then current[socket] else map[];
      id := |streams|;
      streams := streams + [Stream(socket, terminal, false, 0, [])];
      current := current[socket := perTerminal[terminal := id]];
    }

    method SendIfCurrent(delivery: Delivery)
      modifies this`streams
      ensures Contents() == Send(old(Contents()), delivery)
    {
      var id := delivery.stream;
      if IsCurrentTerminalStream(id) {
        streams := streams[id := streams[id].(received := streams[id].received + [delivery.message])];
      }
    }

    method RespondWith(delivery: Delivery, setting: Setting)
      modifies this`streams, this`pending
      ensures Contents() == Respond(old(Contents()), delivery, setting)
    {
      if setting.delayed { pending := pending + [delivery]; } else { SendIfCurrent(delivery); }
    }

    method SubscribeTerminal(socket: Socket, terminal: string, setting: Setting)
      modifies this`streams, this`current, this`pending
      ensures Contents() == Step(old(Contents()), Subscribe(socket, terminal), setting)
    {
      var id := BeginTerminalStream(socket, terminal);
      RespondWith(Delivery(id, Scrollback), setting);
      streams := streams[id := streams[id].(armed := true)];
    }

    method TickInterval(id: nat, setting: Setting)
      modifies this`streams, this`pending
      ensures Contents() == Step(old(Contents()), Tick(id), setting)
    {
      if id >= |streams| || !streams[id].armed { return; }
      if !IsCurrentTerminalStream(id) || streams[id].chunkIndex >= setting.chunks {
        StopTerminalStreamInterval(id);
        return;
      }
      RespondWith(Delivery(id, Data(streams[id].chunkIndex)), setting);
      streams := streams[id := streams[id].(chunkIndex := streams[id].chunkIndex + 1)];
    }

    method DeliverNext(setting: Setting)
      modifies this`streams, this`pending
      ensures Contents() == Step(old(Contents()), Deliver, setting)
    {
      if pending != [] {
        var head := pending[0];
        pending := pending[1..];
        SendIfCurrent(head);
      }
    }
  }
}
