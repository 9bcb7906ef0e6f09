/**
 The reconnecting MQTT client: the caller's sends, the connecting loop with the packet it holds over between connections,
 and the receiving goroutine of every stream ever opened, as one step relation with histories.
 */
module MqttClient {
  import opened Wrappers

  const CONNECTION_ACCEPTED := 0
  const QOS_FAILURE := 0x80
  const SUBSCRIBE_ID := 1

  datatype Packet =
    | Connack(code: nat)
    | Publish(id: nat, qos: nat, topic: string, payload: string)
    | Puback(id: nat)
    | Suback(id: nat, codes: seq<nat>)
    | Pingresp
    | OtherPacket(kind: nat)

  datatype Config = Config(maxCacheMessages: nat, subscribes: bool, disableAutoAck: bool)

  // ---------- One stream ----------

  /** The first completion or cancellation of a future counts. */
  datatype Future = Pending | Completed | Cancelled

  function Complete(f: Future): Future {
    if f == Pending then Completed else f
  }

  function Cancel(f: Future): Future {
    if f == Pending then Cancelled else f
  }

  /** What happened on a connection, in order. */
  datatype Event =
    | ConnackAccepted
    | SubackAccepted
    | Handed(p: Packet)                       // a queued packet was handed to the connection without error
    | PublishHandled(p: Packet, ok: bool)     // the publish callback ran
    | PubackHandled(p: Packet, ok: bool)      // the puback callback ran
    | AckTried(id: nat, ok: bool)             // an acknowledgement was sent, with or without error
    | Died(error: bool)                       // the stream's death, with or without an error to report

  datatype Stream = Stream(
    receiving: bool,
    connacked: bool,
    connectFuture: Future,
    subscribeFuture: Future,
    died: bool,
    trace: seq<Event>)

  const FRESH_STREAM := Stream(true, false, Pending, Pending, false, [])

  /** die: only the first call has an effect. */
  function Die(s: Stream, error: bool): Stream {
    if s.died then s
    else s.(died := true, connectFuture := Cancel(s.connectFuture), subscribeFuture := Cancel(s.subscribeFuture),
            trace := s.trace + [Died(error)])
  }

  function Fail(s: Stream): Stream {
    Die(s, true).(receiving := false)
  }

  /** What Receive returns next, and how the callback and the acknowledgement it may lead to will end. */
  datatype Arrival = ReceiveFailed | Received(p: Packet, handlerOk: bool, sendOk: bool)

  /** One turn of the receive loop. */
  function ReceiveStep(cfg: Config, s: Stream, a: Arrival): Stream {
    match a
    case ReceiveFailed => Fail(s)
    case Received(p, handlerOk, sendOk) =>
      if !s.connacked then
        var s1 := s.(connacked := true);
        if p == Connack(CONNECTION_ACCEPTED) then
          s1.(connectFuture := Complete(s1.connectFuture), trace := s1.trace + [ConnackAccepted])
        else Fail(s1)
      else match p
        case Publish(id, qos, _, _) =>
          var s1 := s.(trace := s.trace + [PublishHandled(p, handlerOk)]);
          if handlerOk && !cfg.disableAutoAck && qos == 1 then
            var s2 := s1.(trace := s1.trace + [AckTried(id, sendOk)]);
            if sendOk then s2 else Fail(s2)
          else s1
        case Puback(_) =>
          var s1 := s.(trace := s.trace + [PubackHandled(p, handlerOk)]);
          if handlerOk then s1 else Fail(s1)
        case Suback(id, codes) =>
          if id != SUBSCRIBE_ID then s
          else if QOS_FAILURE in codes then Fail(s)
          else s.(subscribeFuture := Complete(s.subscribeFuture), trace := s.trace + [SubackAccepted])
        case Pingresp => s
        case _ => Fail(s)
  }

  // ---------- Histories ----------

  /** The pieces that the events of a trace contribute, in order. */
  function Select<T>(f: Event -> seq<T>, trace: seq<Event>): seq<T> {
    if trace == [] then [] else f(trace[0]) + Select(f, trace[1..])
  }

  lemma {:induction false} SelectAppend<T>(f: Event -> seq<T>, a: seq<Event>, b: seq<Event>)
    ensures Select(f, a + b) == Select(f, a) + Select(f, b)
  {
    if a == [] {
      assert a + b == b;
    } else {
      assert (a + b)[1..] == a[1..] + b;
      SelectAppend(f, a[1..], b);
    }
  }

  function HandedPacket(e: Event): seq<Packet> {
    if e.Handed? then [e.p] else []
  }

  /** The id of a QoS 1 publish that its handler took. */
  function TakenId(e: Event): seq<nat> {
    if e.PublishHandled? && e.ok && e.p.Publish? && e.p.qos == 1 then [e.p.id] else []
  }

  function AckedId(e: Event): seq<nat> {
    if e.AckTried? then [e.id] else []
  }

  function Death(e: Event): seq<Event> {
    if e.Died? then [e] else []
  }

  function ConnackOf(e: Event): seq<Event> {
    if e.ConnackAccepted? then [e] else []
  }

  function HandedIn(trace: seq<Event>): seq<Packet> {
    Select(HandedPacket, trace)
  }

  /** The packets handed over to the streams, one stream after the other. */
  function HandedBy(streams: seq<Stream>): seq<Packet> {
    if streams == [] then [] else HandedBy(streams[..|streams| - 1]) + HandedIn(streams[|streams| - 1].trace)
  }

  // ---------- The client ----------

  /** Where the connecting loop is. */
  datatype Loop = Idle | AwaitConnack | AwaitSuback | Sending | Closing | Stopped

  datatype State = State(
    cfg: Config,
    dying: bool,
    cache: seq<Packet>,
    accepted: seq<Packet>,
    loop: Loop,
    curr: Option<Packet>,
    streams: seq<Stream>)

  function Init(cfg: Config): State {
    State(cfg, false, [], [], Idle, None, [])
  }

  datatype Action =
    | Accept(p: Packet)                      // Send or SendOrDrop: the packet goes into the cache
    | Drop(p: Packet)                        // SendOrDrop: the cache is full
    | Refuse(p: Packet)                      // Send or SendOrDrop: the client is dying
    | Close
    | Stop                                   // connecting: the client is dying
    | DialFailed                             // connect: no connection, or CONNECT could not be sent
    | Dialed
    | ConnectDone(subscribeOk: bool)         // connect: the connect future is complete; SUBSCRIBE is sent if there is one
    | ConnectGaveUp                          // connect: cancelled or timed out
    | SubscribeDone
    | SubscribeGaveUp
    | Take                                   // sending: a packet comes out of the cache
    | HandOver(ok: bool)                     // sending: the packet at hand is sent
    | StopSending                            // sending: the client or the stream is dying
    | CloseStream                            // close: the stream is dead and its receiver has ended
    | Receive(i: nat, a: Arrival)            // the receiver of any stream, also of one given up before
    | PingFailed(i: nat)

  function Last(s: State): Stream
    requires s.streams != []
  {
    s.streams[|s.streams| - 1]
  }

  /** A rendezvous when the cache has no room at all. */
  predicate CanAccept(s: State) {
    |s.cache| < s.cfg.maxCacheMessages || (s.cfg.maxCacheMessages == 0 && s.loop == Sending && s.curr == None)
  }

  predicate Enabled(s: State, a: Action) {
    match a
    case Accept(_) => CanAccept(s)
    case Drop(_) => !CanAccept(s) && !s.dying
    case Refuse(_) => s.dying
    case Close => true
    case Stop => s.loop == Idle && s.dying
    case DialFailed => s.loop == Idle
    case Dialed => s.loop == Idle
    case ConnectDone(_) => s.loop == AwaitConnack && s.streams != [] && Last(s).connectFuture == Completed
    case ConnectGaveUp => s.loop == AwaitConnack && s.streams != []
    case SubscribeDone => s.loop == AwaitSuback && s.streams != [] && Last(s).subscribeFuture == Completed
    case SubscribeGaveUp => s.loop == AwaitSuback && s.streams != []
    case Take => s.loop == Sending && s.curr == None && s.cache != []
    case HandOver(_) => s.loop == Sending && s.curr != None && s.streams != []
    case StopSending => s.loop == Sending && s.curr == None && s.streams != [] && (s.dying || Last(s).died)
    case CloseStream => s.loop == Closing && s.streams != [] && !Last(s).receiving
    case Receive(i, _) => i < |s.streams| && s.streams[i].receiving
    case PingFailed(i) => i < |s.streams|
  }

  function SetStream(s: State, i: nat, st: Stream): State
    requires i < |s.streams|
  {
    s.(streams := s.streams[i := st])
  }

  function SetLast(s: State, st: Stream): State
    requires s.streams != []
  {
    SetStream(s, |s.streams| - 1, st)
  }

  function Next(s: State, a: Action): State
    requires Enabled(s, a)
  {
    match a
    case Accept(p) =>
      var s1 := s.(accepted := s.accepted + [p]);
      if |s.cache| < s.cfg.maxCacheMessages then s1.(cache := s.cache + [p]) else s1.(curr := Some(p))
    case Drop(_) => s
    case Refuse(_) => s
    case Close => s.(dying := true)
    case Stop => s.(loop := Stopped)
    case DialFailed => s
    case Dialed => s.(loop := AwaitConnack, streams := s.streams + [FRESH_STREAM])
    case ConnectDone(subscribeOk) =>
      if !s.cfg.subscribes then s.(loop := Sending)
      else if subscribeOk then s.(loop := AwaitSuback)
      else s.(loop := Idle)
    case ConnectGaveUp => SetLast(s, Die(Last(s), true)).(loop := Idle)
    case SubscribeDone => s.(loop := Sending)
    case SubscribeGaveUp => SetLast(s, Die(Last(s), true)).(loop := Idle)
    case Take => s.(curr := Some(s.cache[0]), cache := s.cache[1..])
    case HandOver(ok) =>
      if ok then SetLast(s, Last(s).(trace := Last(s).trace + [Handed(s.curr.value)])).(curr := None)
      else SetLast(s, Die(Last(s), true)).(loop := Closing)
    case StopSending => SetLast(s, Die(Last(s), false)).(loop := Closing)
    case CloseStream => s.(loop := Idle)
    case Receive(i, arrival) => SetStream(s, i, ReceiveStep(s.cfg, s.streams[i], arrival))
    case PingFailed(i) => SetStream(s, i, Die(s.streams[i], true))
  }

  // ---------- What holds of every stream ----------

  /** Callbacks, acknowledgements and queued packets come only after an accepted CONNACK, queued packets also after the SUBACK if there are subscriptions. */
  ghost predicate Gated(cfg: Config, trace: seq<Event>) {
    forall j | 0 <= j < |trace| ::
      && (!trace[j].ConnackAccepted? && !trace[j].Died? ==> ConnackAccepted in trace[..j])
      && (trace[j].Handed? && cfg.subscribes ==> SubackAccepted in trace[..j])
  }

  /** With auto-ack on, the ids acknowledged are, in order, those of the QoS 1 publishes whose handler succeeded; with auto-ack off there are none. */
  ghost predicate AckLaw(cfg: Config, trace: seq<Event>) {
    Select(AckedId, trace) == if cfg.disableAutoAck then [] else Select(TakenId, trace)
  }

  ghost predicate StreamCore(cfg: Config, s: Stream) {
    && Gated(cfg, s.trace)
    && AckLaw(cfg, s.trace)
    && |Select(ConnackOf, s.trace)| == (if ConnackAccepted in s.trace then 1 else 0)
    && |Select(Death, s.trace)| == (if s.died then 1 else 0)
    && (!s.connacked ==> ConnackAccepted !in s.trace)
    && (s.connectFuture == Completed ==> ConnackAccepted in s.trace)
    && (s.subscribeFuture == Completed ==> SubackAccepted in s.trace)
    && (if s.died then s.connectFuture != Pending && s.subscribeFuture != Pending
        else s.connectFuture != Cancelled && s.subscribeFuture != Cancelled)
  }

  ghost predicate StreamOk(cfg: Config, s: Stream) {
    && StreamCore(cfg, s)
    && (s.receiving && s.connacked ==> ConnackAccepted in s.trace)
    && (!s.receiving ==> s.died)
  }

  lemma SelectOne<T>(f: Event -> seq<T>, t: seq<Event>, e: Event)
    ensures Select(f, t + [e]) == Select(f, t) + f(e)
  {
    SelectAppend(f, t, [e]);
    assert Select(f, [e]) == f(e) + Select(f, []);
  }

  /** Appending an event that the gate lets pass. */
  lemma GateAppend(cfg: Config, t: seq<Event>, e: Event)
    requires Gated(cfg, t)
    requires !e.ConnackAccepted? && !e.Died? ==> ConnackAccepted in t
    requires e.Handed? && cfg.subscribes ==> SubackAccepted in t
    ensures Gated(cfg, t + [e])
  {
    var u := t + [e];
    assert u[..|t|] == t;
    forall j | 0 <= j < |u|
      ensures !u[j].ConnackAccepted? && !u[j].Died? ==> ConnackAccepted in u[..j]
      ensures u[j].Handed? && cfg.subscribes ==> SubackAccepted in u[..j]
    {
      if j < |t| {
        assert u[..j] == t[..j];
      }
    }
  }

  /** What each selection sees of an appended event. */
  lemma EventAppended(t: seq<Event>, e: Event)
    ensures Select(AckedId, t + [e]) == Select(AckedId, t) + AckedId(e)
    ensures Select(TakenId, t + [e]) == Select(TakenId, t) + TakenId(e)
    ensures Select(ConnackOf, t + [e]) == Select(ConnackOf, t) + ConnackOf(e)
    ensures Select(Death, t + [e]) == Select(Death, t) + Death(e)
    ensures Select(HandedPacket, t + [e]) == Select(HandedPacket, t) + HandedPacket(e)
  {
    SelectOne(AckedId, t, e);
    SelectOne(TakenId, t, e);
    SelectOne(ConnackOf, t, e);
    SelectOne(Death, t, e);
    SelectOne(HandedPacket, t, e);
  }

  lemma DieKeeps(cfg: Config, s: Stream, error: bool)
    requires StreamCore(cfg, s)
    ensures StreamCore(cfg, Die(s, error)) && Die(s, error).died && HandedIn(Die(s, error).trace) == HandedIn(s.trace)
    ensures StreamOk(cfg, s) ==> StreamOk(cfg, Die(s, error))
  {
    hide Select;
    if !s.died {
      GateAppend(cfg, s.trace, Died(error));
      EventAppended(s.trace, Died(error));
    }
  }

  lemma FailKeeps(cfg: Config, s: Stream)
    requires StreamCore(cfg, s)
    ensures StreamOk(cfg, Fail(s)) && HandedIn(Fail(s).trace) == HandedIn(s.trace)
  {
    hide Select, Gated;
    DieKeeps(cfg, s, true);
  }

  /** Every turn of the receive loop keeps the stream's laws and hands over nothing. */
  lemma ReceiveKeeps(cfg: Config, s: Stream, a: Arrival)
    requires StreamOk(cfg, s) && s.receiving
    ensures StreamOk(cfg, ReceiveStep(cfg, s, a)) && HandedIn(ReceiveStep(cfg, s, a).trace) == HandedIn(s.trace)
  {
    hide HandedIn, Gated, AckLaw, Fail;
    FailKeeps(cfg, s);
    if a.Received? {
      if !s.connacked {
        FirstPacketKeeps(cfg, s);
      } else if a.p.Publish? {
        PublishKeeps(cfg, s, a.p, a.handlerOk, a.sendOk);
      } else if a.p.Puback? {
        PlainEventKeeps(cfg, s, PubackHandled(a.p, a.handlerOk));
        FailKeeps(cfg, s.(trace := s.trace + [PubackHandled(a.p, a.handlerOk)]));
      } else if a.p.Suback? {
        PlainEventKeeps(cfg, s, SubackAccepted);
      }
    }
  }

  lemma FirstPacketKeeps(cfg: Config, s: Stream)
    requires StreamOk(cfg, s) && s.receiving && !s.connacked
    ensures var s1 := s.(connacked := true);
            var s2 := s1.(connectFuture := Complete(s1.connectFuture), trace := s1.trace + [ConnackAccepted]);
            && StreamOk(cfg, Fail(s1)) && HandedIn(Fail(s1).trace) == HandedIn(s.trace)
            && StreamOk(cfg, s2) && HandedIn(s2.trace) == HandedIn(s.trace)
  {
    hide Select, Gated;
    FailKeeps(cfg, s.(connacked := true));
    GateAppend(cfg, s.trace, ConnackAccepted);
    EventAppended(s.trace, ConnackAccepted);
  }

  /** An event of the receive loop that no law but the gate is about. */
  lemma PlainEventKeeps(cfg: Config, s: Stream, e: Event)
    requires StreamOk(cfg, s) && s.receiving && s.connacked && (e.PubackHandled? || e.SubackAccepted?)
    ensures var s' := s.(trace := s.trace + [e]);
            && StreamOk(cfg, s') && HandedIn(s'.trace) == HandedIn(s.trace)
            && (e.SubackAccepted? ==> StreamOk(cfg, s'.(subscribeFuture := Complete(s.subscribeFuture))))
  {
    hide Select, Gated;
    GateAppend(cfg, s.trace, e);
    EventAppended(s.trace, e);
  }

  lemma PublishKeeps(cfg: Config, s: Stream, p: Packet, handlerOk: bool, sendOk: bool)
    requires StreamOk(cfg, s) && s.receiving && s.connacked && p.Publish?
    ensures var s' := ReceiveStep(cfg, s, Received(p, handlerOk, sendOk));
            StreamOk(cfg, s') && HandedIn(s'.trace) == HandedIn(s.trace)
  {
    hide Select, Gated, Fail;
    var e, ack := PublishHandled(p, handlerOk), AckTried(p.id, sendOk);
    var t1 := s.trace + [e];
    GateAppend(cfg, s.trace, e);
    EventAppended(s.trace, e);
    if handlerOk && !cfg.disableAutoAck && p.qos == 1 {
      GateAppend(cfg, t1, ack);
      EventAppended(t1, ack);
      FailKeeps(cfg, s.(trace := t1 + [ack]));
    }
  }

  // ---------- What holds of every run ----------

  function Held(s: State): seq<Packet> {
    if s.curr.Some? then [s.curr.value] else []
  }

  /** What was accepted is, in order, what was handed over, then the packet at hand, then the queue. */
  ghost predicate Conserved(s: State) {
    s.accepted == HandedBy(s.streams) + Held(s) + s.cache
  }

  ghost predicate Inv(s: State) {
    && Conserved(s)
    && |s.cache| <= s.cfg.maxCacheMessages
    && (forall i | 0 <= i < |s.streams| :: StreamOk(s.cfg, s.streams[i]))
    && (s.loop in {AwaitConnack, AwaitSuback, Sending, Closing} ==> s.streams != [])
    && (s.loop in {AwaitSuback, Sending} ==> Last(s).connectFuture == Completed)
    && (s.loop == AwaitSuback ==> s.cfg.subscribes)
    && (s.loop == Sending && s.cfg.subscribes ==> Last(s).subscribeFuture == Completed)
  }

  lemma {:induction false} SameHandedBy(a: seq<Stream>, b: seq<Stream>)
    requires |a| == |b| && forall i | 0 <= i < |a| :: HandedIn(a[i].trace) == HandedIn(b[i].trace)
    ensures HandedBy(a) == HandedBy(b)
  {
    if a != [] {
      SameHandedBy(a[..|a| - 1], b[..|b| - 1]);
    }
  }

  /** Replacing a stream by one that keeps the laws and has handed over the same packets. */
  lemma SetStreamKeeps(s: State, i: nat, st: Stream)
    requires Inv(s) && i < |s.streams| && StreamOk(s.cfg, st) && HandedIn(st.trace) == HandedIn(s.streams[i].trace)
    requires s.streams[i].connectFuture == Completed ==> st.connectFuture == Completed
    requires s.streams[i].subscribeFuture == Completed ==> st.subscribeFuture == Completed
    ensures Inv(SetStream(s, i, st))
  {
    hide StreamOk, HandedBy, HandedIn;
    SameHandedBy(s.streams, s.streams[i := st]);
  }

  lemma HandKeeps(cfg: Config, s: Stream, p: Packet)
    requires StreamOk(cfg, s) && s.connectFuture == Completed && (cfg.subscribes ==> s.subscribeFuture == Completed)
    ensures var s' := s.(trace := s.trace + [Handed(p)]);
            StreamOk(cfg, s') && HandedIn(s'.trace) == HandedIn(s.trace) + [p]
  {
    hide Select, Gated;
    GateAppend(cfg, s.trace, Handed(p));
    EventAppended(s.trace, Handed(p));
  }

  lemma DieStepKeeps(s: State, i: nat, error: bool)
    requires Inv(s) && i < |s.streams|
    ensures Inv(SetStream(s, i, Die(s.streams[i], error)))
  {
    hide StreamCore, HandedBy, HandedIn;
    DieKeeps(s.cfg, s.streams[i], error);
    SetStreamKeeps(s, i, Die(s.streams[i], error));
  }

  /** Handing the packet at hand to the last stream moves it to the end of what was handed over. */
  lemma HandOverKeeps(s: State)
    requires Inv(s) && Enabled(s, HandOver(true))
    ensures Inv(Next(s, HandOver(true)))
  {
    hide StreamOk, HandedIn, HandedBy;
    var p, front := s.curr.value, s.streams[..|s.streams| - 1];
    HandKeeps(s.cfg, Last(s), p);
    var s' := Next(s, HandOver(true));
    assert s'.streams == front + [Last(s')] && s.streams == front + [Last(s)];
    HandedByLast(front, Last(s'));
    HandedByLast(front, Last(s));
    assert HandedBy(s'.streams) == HandedBy(s.streams) + [p];
  }

  lemma HandedByLast(front: seq<Stream>, st: Stream)
    ensures HandedBy(front + [st]) == HandedBy(front) + HandedIn(st.trace)
  {
    assert (front + [st])[..|front|] == front;
  }

  /** Every step of every thread keeps the invariant. */
  lemma StepKeeps(s: State, a: Action)
    requires Inv(s) && Enabled(s, a)
    ensures Inv(Next(s, a)) && Next(s, a).cfg == s.cfg
  {
    hide StreamOk, HandedBy, HandedIn, Die, ReceiveStep;
    match a
    case Receive(i, arrival) =>
      ReceiveKeeps(s.cfg, s.streams[i], arrival);
      FuturesStay(s.cfg, s.streams[i], arrival);
      SetStreamKeeps(s, i, ReceiveStep(s.cfg, s.streams[i], arrival));
    case PingFailed(i) =>
      DieStepKeeps(s, i, true);
    case Dialed =>
      FreshStreamKeeps(s);
    case HandOver(true) =>
      HandOverKeeps(s);
    case _ =>
      OtherStepKeeps(s, a);
  }

  lemma FuturesStay(cfg: Config, s: Stream, a: Arrival)
    ensures s.connectFuture == Completed ==> ReceiveStep(cfg, s, a).connectFuture == Completed
    ensures s.subscribeFuture == Completed ==> ReceiveStep(cfg, s, a).subscribeFuture == Completed
  {
  }

  /** The steps of the callers and of the connecting loop that hand nothing over. */
  lemma OtherStepKeeps(s: State, a: Action)
    requires Inv(s) && Enabled(s, a)
    requires !a.Receive? && !a.PingFailed? && !a.Dialed? && a != HandOver(true)
    ensures Inv(Next(s, a)) && Next(s, a).cfg == s.cfg
  {
    hide StreamOk, HandedBy, Die;
    if a.ConnectGaveUp? || a.SubscribeGaveUp? || a.HandOver? {
      LeaveStream(s, true, if a.HandOver? then Closing else Idle);
    } else if a.StopSending? {
      LeaveStream(s, false, Closing);
    } else if a.Take? || a.Accept? {
      QueueStepKeeps(s, a);
    }
  }

  lemma LeaveStream(s: State, error: bool, to: Loop)
    requires Inv(s) && s.streams != [] && to in {Idle, Closing}
    ensures Inv(SetLast(s, Die(Last(s), error)).(loop := to))
  {
    hide StreamOk, HandedBy, Die;
    DieStepKeeps(s, |s.streams| - 1, error);
  }

  lemma QueueStepKeeps(s: State, a: Action)
    requires Inv(s) && Enabled(s, a) && (a.Take? || a.Accept?)
    ensures Inv(Next(s, a))
  {
    hide StreamOk, HandedBy;
    if a.Take? {
      assert s.cache == [s.cache[0]] + s.cache[1..];
    }
  }

  lemma FreshStreamKeeps(s: State)
    requires Inv(s) && Enabled(s, Dialed)
    ensures Inv(Next(s, Dialed))
  {
    hide StreamOk, HandedIn;
    FreshStreamOk(s.cfg);
    var s' := Next(s, Dialed);
    assert s'.streams[..|s'.streams| - 1] == s.streams;
    assert HandedBy(s'.streams) == HandedBy(s.streams) + [];
  }

  lemma FreshStreamOk(cfg: Config)
    ensures StreamOk(cfg, FRESH_STREAM) && HandedIn(FRESH_STREAM.trace) == []
  {
  }

  // ---------- Runs ----------

  predicate IsRun(s: State, acts: seq<Action>)
    decreases |acts|
  {
    acts == [] || (Enabled(s, acts[0]) && IsRun(Next(s, acts[0]), acts[1..]))
  }

  function After(s: State, acts: seq<Action>): State
    requires IsRun(s, acts)
    decreases |acts|
  {
    if acts == [] then s else After(Next(s, acts[0]), acts[1..])
  }

  lemma {:induction false} RunConcat(s: State, a: seq<Action>, b: seq<Action>)
    requires IsRun(s, a) && IsRun(After(s, a), b)
    ensures IsRun(s, a + b) && After(s, a + b) == After(After(s, a), b)
    decreases |a|
  {
    hide Enabled, Next;
    if a == [] {
      assert a + b == b;
    } else {
      assert (a + b)[1..] == a[1..] + b;
      RunConcat(Next(s, a[0]), a[1..], b);
    }
  }

  lemma {:induction false} RunKeeps(s: State, acts: seq<Action>)
    requires Inv(s) && IsRun(s, acts)
    ensures Inv(After(s, acts)) && After(s, acts).cfg == s.cfg
    decreases |acts|
  {
    hide Inv, Enabled, Next;
    if acts != [] {
      StepKeeps(s, acts[0]);
      RunKeeps(Next(s, acts[0]), acts[1..]);
    }
  }

  /** The packets that the callers' sends put into the cache, in order. */
  function AcceptedIn(acts: seq<Action>): seq<Packet> {
    if acts == [] then [] else (if acts[0].Accept? then [acts[0].p] else []) + AcceptedIn(acts[1..])
  }

  lemma {:induction false} RunAccepts(s: State, acts: seq<Action>)
    requires IsRun(s, acts)
    ensures After(s, acts).accepted == s.accepted + AcceptedIn(acts)
    decreases |acts|
  {
    hide Enabled, Next;
    if acts != [] {
      AcceptsOne(s, acts[0]);
      RunAccepts(Next(s, acts[0]), acts[1..]);
      Regroup(s.accepted, if acts[0].Accept? then [acts[0].p] else [], AcceptedIn(acts[1..]), []);
    }
  }

  lemma AcceptsOne(s: State, a: Action)
    requires Enabled(s, a)
    ensures Next(s, a).accepted == s.accepted + if a.Accept? then [a.p] else []
  {
  }

  /**
   In every run: what was accepted is, in order, what was handed to some connection without error, then the packet held over,
   then the cache. So nothing is lost, reordered or handed over again, and at most one packet more than the cache holds is outstanding.
   */
  lemma NothingLostOrReordered(cfg: Config, acts: seq<Action>)
    requires IsRun(Init(cfg), acts)
    ensures var s := After(Init(cfg), acts);
            && AcceptedIn(acts) == HandedBy(s.streams) + Held(s) + s.cache
            && HandedBy(s.streams) <= AcceptedIn(acts)
            && |AcceptedIn(acts)| - |HandedBy(s.streams)| <= cfg.maxCacheMessages + 1
  {
    hide Enabled, Next;
    RunKeeps(Init(cfg), acts);
    RunAccepts(Init(cfg), acts);
    assert [] + AcceptedIn(acts) == AcceptedIn(acts);
  }

  /** In every run, every stream, also one given up: the gate, the acknowledgement law, one connack and one death at most. */
  lemma StreamsBehave(cfg: Config, acts: seq<Action>, i: nat)
    requires IsRun(Init(cfg), acts) && i < |After(Init(cfg), acts).streams|
    ensures var trace := After(Init(cfg), acts).streams[i].trace;
            && Gated(cfg, trace)
            && AckLaw(cfg, trace)
            && |Select(ConnackOf, trace)| <= 1
            && |Select(Death, trace)| <= 1
  {
    hide Enabled, Next;
    RunKeeps(Init(cfg), acts);
  }

  /** A packet handed over stays so: no step takes back history. */
  lemma HistoryGrows(s: State, a: Action)
    requires Inv(s) && Enabled(s, a)
    ensures HandedBy(Next(s, a).streams) == HandedBy(s.streams) + if a == HandOver(true) then Held(s) else []
  {
    hide StreamOk, HandedBy, HandedIn;
    hide Enabled, Next;
    StepKeeps(s, a);
    AcceptsOne(s, a);
    QueueMoves(s, a);
    var s' := Next(s, a);
    var x, y, q, d := HandedBy(s'.streams), HandedBy(s.streams), Held(s') + s'.cache, if a.Accept? then [a.p] else [];
    var h := if a == HandOver(true) then Held(s) else [];
    Regroup(y, Held(s), s.cache, d);
    Regroup(x, Held(s'), s'.cache, []);
    assert s'.accepted == x + q && s'.accepted == y + (Held(s) + s.cache) + d;
    if a == HandOver(true) {
      Regroup(y, h, q, []);
      assert s'.accepted == y + (h + q) + [];
    }
    assert s'.accepted == (y + h) + q;
    CancelRight(x, y + h, q);
  }

  lemma Regroup(a: seq<Packet>, b: seq<Packet>, c: seq<Packet>, d: seq<Packet>)
    ensures a + b + c + d == a + (b + c) + d == a + (b + c + d) && a + [] == a
  {
  }

  lemma CancelRight(x: seq<Packet>, y: seq<Packet>, q: seq<Packet>)
    requires x + q == y + q
    ensures x == y
  {
    assert |x| == |y|;
    assert x == (x + q)[..|x|];
  }

  /** What a step does to the packets not handed over yet. */
  lemma QueueMoves(s: State, a: Action)
    requires Inv(s) && Enabled(s, a)
    ensures var before, after := Held(s) + s.cache, Held(Next(s, a)) + Next(s, a).cache;
            if a == HandOver(true) then before == Held(s) + after else after == before + if a.Accept? then [a.p] else []
  {
    hide StreamOk, HandedBy, Die, ReceiveStep;
    if a.Take? {
      assert s.cache == [s.cache[0]] + s.cache[1..];
    } else if a.Accept? {
      Regroup(Held(s), s.cache, [a.p], []);
    }
  }

  // ---------- Everything can be delivered ----------

  /** From the sending loop: take and hand over until nothing is left. */
  lemma {:induction false} DrainDelivers(s: State) returns (acts: seq<Action>)
    requires Inv(s) && s.loop == Sending
    ensures IsRun(s, acts) && AcceptedIn(acts) == []
    ensures var s' := After(s, acts); HandedBy(s'.streams) == s.accepted && s'.cache == [] && s'.curr == None
    decreases |s.cache|, s.curr != None
  {
    hide HandedBy, StreamOk;
    acts := [];
    if s.curr != None || s.cache != [] {
      var a := if s.curr == None then Take else HandOver(true);
      StepKeeps(s, a);
      AcceptsOne(s, a);
      var rest := DrainDelivers(Next(s, a));
      acts := [a] + rest;
    }
  }

  predicate Healthy(st: Stream) {
    st.receiving && !st.died
  }

  /** The next step towards a connection that delivers: keep a healthy stream, give up any other. */
  function Repair(s: State): Action
    requires s.streams != [] || s.loop == Idle
  {
    var last := |s.streams| - 1;
    match s.loop
    case AwaitConnack =>
      if !Healthy(Last(s)) then ConnectGaveUp
      else if Last(s).connectFuture == Completed then ConnectDone(true)
      else if !Last(s).connacked then Receive(last, Received(Connack(CONNECTION_ACCEPTED), true, true))
      else ConnectGaveUp
    case AwaitSuback =>
      if !Healthy(Last(s)) then SubscribeGaveUp
      else if Last(s).subscribeFuture == Completed then SubscribeDone
      else Receive(last, Received(Suback(SUBSCRIBE_ID, []), true, true))
    case Closing => if Last(s).receiving then Receive(last, ReceiveFailed) else CloseStream
    case _ => Dialed
  }

  /** How far the connecting loop is from sending when every step goes well. */
  function Distance(s: State): nat
    requires s.streams != [] || s.loop == Idle || s.loop == Stopped
  {
    match s.loop
    case Closing => if Last(s).receiving then 9 else 8
    case AwaitConnack =>
      if Healthy(Last(s)) && Last(s).connectFuture == Completed then 4
      else if Healthy(Last(s)) && !Last(s).connacked then 5
      else 7
    case AwaitSuback => if !Healthy(Last(s)) then 7 else if Last(s).subscribeFuture == Completed then 1 else 2
    case Sending => 0
    case _ => 6
  }

  lemma RepairHelps(s: State)
    requires Inv(s) && s.loop != Stopped && s.loop != Sending
    ensures Enabled(s, Repair(s)) && !Repair(s).Accept?
    ensures var s' := Next(s, Repair(s)); Inv(s') && s'.loop != Stopped && Distance(s') < Distance(s)
  {
    hide HandedBy, Gated, AckLaw, Select;
    StepKeeps(s, Repair(s));
  }

  /** From every state not stopped there is a continuation without further sends that hands over everything accepted. */
  lemma {:induction false} RecoveryDelivers(s: State) returns (acts: seq<Action>)
    requires Inv(s) && s.loop != Stopped
    ensures IsRun(s, acts) && AcceptedIn(acts) == []
    ensures var s' := After(s, acts); HandedBy(s'.streams) == s.accepted && s'.cache == [] && s'.curr == None
    decreases Distance(s)
  {
    if s.loop == Sending {
      acts := DrainDelivers(s);
    } else {
      var a := Repair(s);
      RepairHelps(s);
      AcceptsOne(s, a);
      hide Enabled, Next, Inv, HandedBy;
      var rest := RecoveryDelivers(Next(s, a));
      acts := [a] + rest;
    }
  }
}
