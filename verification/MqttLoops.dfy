/** The receiving and sending loops of a stream, as loops over what their environment does, against the step relation. */
module MqttLoops {
  import opened Wrappers
  import opened MqttClient

  /** The receive loop over a list of arrivals: it ends at the first failure. */
  function ReceiveAll(cfg: Config, s: Stream, inbox: seq<Arrival>): Stream
    decreases |inbox|
  {
    if inbox == [] || !s.receiving then s else ReceiveAll(cfg, ReceiveStep(cfg, s, inbox[0]), inbox[1..])
  }

  /** Whatever arrives, and however handlers and sends end, the stream's laws hold when the loop ends or waits. */
  lemma {:induction false} ReceiveAllKeeps(cfg: Config, s: Stream, inbox: seq<Arrival>)
    requires StreamOk(cfg, s)
    ensures StreamOk(cfg, ReceiveAll(cfg, s, inbox))
    decreases |inbox|
  {
    hide StreamOk, ReceiveStep;
    if inbox != [] && s.receiving {
      ReceiveKeeps(cfg, s, inbox[0]);
      ReceiveAllKeeps(cfg, ReceiveStep(cfg, s, inbox[0]), inbox[1..]);
    }
  }

  /** A stream's connection and the state of its receiver, which has ended when receiving is false. */
  class Connection {
    var receiving: bool
    var connacked: bool
    var connectFuture: Future
    var subscribeFuture: Future
    var died: bool
    ghost var trace: seq<Event>

    constructor ()
      ensures Snapshot() == FRESH_STREAM
    {
      receiving, connacked, connectFuture, subscribeFuture, died, trace := true, false, Pending, Pending, false, [];
    }

    ghost function Snapshot(): Stream
      reads this
    {
      Stream(receiving, connacked, connectFuture, subscribeFuture, died, trace)
    }

    /** The body of once.Do. */
    method DieOnce(error: bool)
      modifies this
      ensures Snapshot() == Die(old(Snapshot()), error)
    {
      if !died {
        died := true;
        connectFuture := Cancel(connectFuture);
        subscribeFuture := Cancel(subscribeFuture);
        trace := trace + [Died(error)];
      }
    }

    method Note(ghost e: Event)
      modifies this`trace
      ensures trace == old(trace) + [e]
    {
      trace := trace + [e];
    }

    /** The goroutine's loop: it ends at the first failure, or waits behind the last arrival. */
    method Receiving(cfg: Config, inbox: seq<Arrival>)
      requires receiving
      modifies this
      ensures Snapshot() == ReceiveAll(cfg, old(Snapshot()), inbox)
      ensures old(StreamOk(cfg, Snapshot())) ==> StreamOk(cfg, Snapshot())
    {
      hide StreamOk, ReceiveStep;
      ghost var start := Snapshot();
      if StreamOk(cfg, start) {
        ReceiveAllKeeps(cfg, start, inbox);
      }
      var i := 0;
      while i < |inbox| && receiving
        invariant 0 <= i <= |inbox|
        invariant ReceiveAll(cfg, start, inbox) == ReceiveAll(cfg, Snapshot(), inbox[i..])
      {
        ghost var rest := inbox[i..];
        ReceiveOne(cfg, inbox[i]);
        i := i + 1;
        assert rest[1..] == inbox[i..];
      }
    }

    /** One packet or failure. */
    method ReceiveOne(cfg: Config, a: Arrival)
      requires receiving
      modifies this
      ensures Snapshot() == ReceiveStep(cfg, old(Snapshot()), a)
    {
      var err := false;
      match a {
        case ReceiveFailed =>
          err := true;
        case Received(p, handlerOk, sendOk) =>
          if !connacked {
            connacked := true;
            if p == Connack(CONNECTION_ACCEPTED) {
              connectFuture := Complete(connectFuture);
              Note(ConnackAccepted);
            } else {
              err := true;
            }
          } else {
            match p {
              case Publish(id, qos, _, _) =>
                Note(PublishHandled(p, handlerOk));
                if handlerOk && !cfg.disableAutoAck && qos == 1 {
                  Note(AckTried(id, sendOk));
                  err := !sendOk;
                }
              case Puback(_) =>
                Note(PubackHandled(p, handlerOk));
                err := !handlerOk;
              case Suback(id, codes) =>
                if id == SUBSCRIBE_ID {
                  if QOS_FAILURE in codes {
                    err := true;
                  } else {
                    subscribeFuture := Complete(subscribeFuture);
                    Note(SubackAccepted);
                  }
                }
              case Pingresp =>
              case _ =>
                err := true;
            }
          }
      }
      if err {
        DieOnce(true);
        receiving := false;
      }
    }

    /** send: hands the packet over, or dies. */
    method SendPacket(p: Packet, ok: bool)
      modifies this
      ensures Snapshot() == if ok then old(Snapshot()).(trace := old(trace) + [Handed(p)]) else Die(old(Snapshot()), true)
    {
      if ok {
        Note(Handed(p));
      } else {
        DieOnce(true);
      }
    }
  }

  /** What other goroutines do while the connecting loop waits; those of streams given up before are numbered. */
  datatype Elsewhere =
    | Arrives(a: Arrival)
    | PingFails
    | CallerSends(p: Packet)
    | CallerCloses
    | ArrivesLate(i: nat, a: Arrival)
    | PingFailsLate(i: nat)

  /** What the select of the sending loop finds ready, and how a send ends. */
  datatype Choice = TakeNext(ok: bool) | ClientDying | StreamDying

  datatype Turn = Turn(meanwhile: seq<Elsewhere>, choice: Choice)

  /** How one turn of the connecting loop goes. */
  datatype Attempt = Attempt(
    untilClosed: seq<Elsewhere>,
    untilTimer: seq<Elsewhere>,
    seesDying: bool,
    dialed: bool,
    untilConnack: seq<Elsewhere>,
    subscribeSent: bool,
    untilSuback: seq<Elsewhere>,
    heldOk: bool,
    turns: seq<Turn>)

  lemma FailureEnds(cfg: Config, s: Stream)
    ensures !ReceiveStep(cfg, s, ReceiveFailed).receiving
  {
  }

  // ---------- What a script plays ----------

  /** A run of the step relation from the start, and the state it leads to. */
  datatype Play = Play(acts: seq<Action>, s: State)

  ghost predicate Ran(p: Play) {
    IsRun(Init(p.s.cfg), p.acts) && After(Init(p.s.cfg), p.acts) == p.s
  }

  function Start(cfg: Config): (p: Play)
    ensures Ran(p)
  {
    Play([], Init(cfg))
  }

  /** One more action; one that is not enabled waits for ever and has no effect. */
  function Do(p: Play, a: Action): (q: Play)
    requires Ran(p)
    ensures Ran(q) && q.s.cfg == p.s.cfg
  {
    if Enabled(p.s, a) then
      OneStep(Init(p.s.cfg), p.acts, a);
      Play(p.acts + [a], Next(p.s, a))
    else p
  }

  /** The connecting loop has a stream. */
  predicate Connected(s: State) {
    s.loop != Idle && s.loop != Stopped && s.streams != []
  }

  /** How many streams the connecting loop has let go. */
  function GivenUp(s: State): nat {
    if Connected(s) then |s.streams| - 1 else |s.streams|
  }

  function PlayElsewhere(p: Play, step: Elsewhere): (q: Play)
    requires Ran(p)
    ensures Ran(q) && q.s.cfg == p.s.cfg
  {
    match step
    case Arrives(a) => if Connected(p.s) then Do(p, Receive(|p.s.streams| - 1, a)) else p
    case PingFails => if Connected(p.s) then Do(p, PingFailed(|p.s.streams| - 1)) else p
    case CallerSends(packet) => if |p.s.cache| < p.s.cfg.maxCacheMessages then Do(p, Accept(packet)) else p
    case CallerCloses => Do(p, Action.Close)
    case ArrivesLate(i, a) => if i < GivenUp(p.s) then Do(p, Receive(i, a)) else p
    case PingFailsLate(i) => if i < GivenUp(p.s) then Do(p, PingFailed(i)) else p
  }

  function PlayMeanwhile(p: Play, steps: seq<Elsewhere>): (q: Play)
    requires Ran(p)
    ensures Ran(q) && q.s.cfg == p.s.cfg
    decreases |steps|
  {
    if steps == [] then p else PlayMeanwhile(PlayElsewhere(p, steps[0]), steps[1..])
  }

  /** connect: a stream comes of it exactly when the loop goes on to sending. */
  function PlayConnect(p: Play, attempt: Attempt): (q: Play)
    requires Ran(p)
    ensures Ran(q) && q.s.cfg == p.s.cfg
  {
    if !attempt.dialed then Do(p, DialFailed)
    else
      var p1 := PlayMeanwhile(Do(p, Dialed), attempt.untilConnack);
      if p1.s.streams == [] || Last(p1.s).connectFuture != Completed then Do(p1, ConnectGaveUp)
      else
        var p2 := Do(p1, ConnectDone(attempt.subscribeSent));
        if !p.s.cfg.subscribes || !attempt.subscribeSent then p2
        else
          var p3 := PlayMeanwhile(p2, attempt.untilSuback);
          if p3.s.streams == [] || Last(p3.s).subscribeFuture != Completed then Do(p3, SubscribeGaveUp)
          else Do(p3, SubscribeDone)
  }

  function PlayChoice(p: Play, choice: Choice): (q: Play)
    requires Ran(p)
    ensures Ran(q) && q.s.cfg == p.s.cfg
  {
    match choice
    case TakeNext(ok) => if p.s.cache != [] then Do(Do(p, Take), HandOver(ok)) else p
    case ClientDying => if p.s.dying then Do(p, StopSending) else p
    case StreamDying => if p.s.streams != [] && Last(p.s).died then Do(p, StopSending) else p
  }

  function PlayTurns(p: Play, turns: seq<Turn>): (q: Play)
    requires Ran(p)
    ensures Ran(q) && q.s.cfg == p.s.cfg
    decreases |turns|
  {
    if turns == [] || p.s.loop != Loop.Sending then p
    else PlayTurns(PlayChoice(PlayMeanwhile(p, turns[0].meanwhile), turns[0].choice), turns[1..])
  }

  /** sending: what was held over goes first. */
  function PlaySending(p: Play, currOk: bool, turns: seq<Turn>): (q: Play)
    requires Ran(p)
    ensures Ran(q) && q.s.cfg == p.s.cfg
  {
    PlayTurns(if p.s.curr != None then Do(p, HandOver(currOk)) else p, turns)
  }

  /** close: the receiver fails on the closed connection at the latest. */
  function PlayClose(p: Play, untilClosed: seq<Elsewhere>): (q: Play)
    requires Ran(p)
    ensures Ran(q) && q.s.cfg == p.s.cfg
  {
    Do(PlayElsewhere(PlayMeanwhile(p, untilClosed), Arrives(ReceiveFailed)), CloseStream)
  }

  function PlayAttempt(p: Play, attempt: Attempt): (q: Play)
    requires Ran(p)
    ensures Ran(q) && q.s.cfg == p.s.cfg
  {
    var p1 := if p.s.loop == Closing then PlayClose(p, attempt.untilClosed) else p;
    var p2 := PlayMeanwhile(p1, attempt.untilTimer);
    if p2.s.dying && attempt.seesDying then Do(p2, Stop)
    else
      var p3 := PlayConnect(p2, attempt);
      if p3.s.loop == Loop.Sending then PlaySending(p3, attempt.heldOk, attempt.turns) else p3
  }

  /** The connecting loop goes on until it has stopped, or its script ends while it sends. */
  function PlayAttempts(p: Play, attempts: seq<Attempt>): (q: Play)
    requires Ran(p)
    ensures Ran(q) && q.s.cfg == p.s.cfg
    decreases |attempts|
  {
    if attempts == [] || p.s.loop == Stopped || p.s.loop == Loop.Sending then p
    else PlayAttempts(PlayAttempt(p, attempts[0]), attempts[1..])
  }

  /** Whatever is played, the packets put into the cache are, in order, those that connections took, the one held over, and the cache. */
  lemma NothingLost(p: Play)
    requires Ran(p)
    ensures AcceptedIn(p.acts) == HandedBy(p.s.streams) + Held(p.s) + p.s.cache
  {
    hide Enabled, Next;
    NothingLostOrReordered(p.s.cfg, p.acts);
  }

  // ---------- The connecting and sending loops ----------

  class Client {
    const cfg: Config
    var cache: seq<Packet>
    var dying: bool
    var stream: Connection?

    constructor (cfg: Config)
      ensures this.cfg == cfg && stream == null && At(Start(cfg), Idle, None)
    {
      this.cfg, cache, dying, stream := cfg, [], false, null;
    }

    /** The play led to this client, its connecting loop at that place with that packet at hand. */
    ghost predicate At(p: Play, loop: Loop, curr: Option<Packet>)
      reads this, stream
    {
      Ran(p) && InState(p.s, loop, curr)
    }

    ghost predicate InState(s: State, loop: Loop, curr: Option<Packet>)
      reads this, stream
    {
      && s.cfg == cfg && s.cache == cache && s.dying == dying && s.loop == loop && s.curr == curr
      && (stream != null <==> loop != Idle && loop != Stopped)
      && (stream != null ==> s.streams != [] && Last(s) == stream.Snapshot())
    }

    /**
     The connecting loop, with the packet it holds over from one stream to the next: it plays its script, from the first attempt to the last.
     So the packets put into the cache are, in order, those that connections took, the packet held over, and the cache.
     */
    method Connecting(attempts: seq<Attempt>) returns (held: Option<Packet>)
      requires stream == null && At(Start(cfg), Idle, None)
      modifies this
      ensures var p := PlayAttempts(Start(cfg), attempts);
              && At(p, p.s.loop, held)
              && AcceptedIn(p.acts) == HandedBy(p.s.streams) + (if held == None then [] else [held.value]) + cache
    {
      hide At, InState, Ran, PlayConnect, PlaySending, PlayClose, PlayMeanwhile;
      held := None;
      ghost var p, loop := Start(cfg), Idle;
      var i := 0;
      while i < |attempts|
        invariant i <= |attempts|
        invariant stream != null ==> fresh(stream)
        invariant loop == p.s.loop && loop == if stream == null then Idle else Closing
        invariant Ran(p) && At(p, loop, held)
        invariant PlayAttempts(Start(cfg), attempts) == PlayAttempts(p, attempts[i..])
      {
        ghost var rest := attempts[i..];
        var stop;
        held, stop, p := OneAttempt(attempts[i], p, held);
        loop := p.s.loop;
        i := i + 1;
        assert rest[1..] == attempts[i..];
        if stop {
          break;
        }
      }
      Outstanding(p, loop, held);
    }

    /** One turn of the loop; it is the last one when the client stops, or the script ends while the stream is sending. */
    method OneAttempt(attempt: Attempt, ghost p: Play, held: Option<Packet>) returns (held': Option<Packet>, stop: bool, ghost q: Play)
      requires p.s.loop == (if stream == null then Idle else Closing) && At(p, p.s.loop, held)
      modifies this, stream
      ensures q == PlayAttempt(p, attempt) && At(q, q.s.loop, held')
      ensures stream != null && stream != old(stream) ==> fresh(stream)
      ensures if stop then q.s.loop == Stopped || q.s.loop == Loop.Sending else q.s.loop == if stream == null then Idle else Closing
    {
      hide At, InState, Ran, PlayConnect, PlaySending, PlayClose, PlayMeanwhile;
      held', q := held, p;
      AtTells(p, p.s.loop, held);
      if stream != null {
        CloseStreamWhile(attempt.untilClosed, p, held);
        q := PlayClose(p, attempt.untilClosed);
      }
      Meanwhile(attempt.untilTimer, q, Idle, held);
      q := PlayMeanwhile(q, attempt.untilTimer);
      AtTells(q, Idle, held);
      if dying && attempt.seesDying {
        Stops(q, held);
        q := Do(q, Stop);
        AtTells(q, Stopped, held);
        return held, true, q;
      }
      var connected := Connect(attempt, q, held);
      q := PlayConnect(q, attempt);
      AtTells(q, if connected then Loop.Sending else Idle, held);
      if !connected {
        return held, false, q;
      }
      var ended;
      held', ended := Sending(held, attempt.heldOk, attempt.turns, q);
      q := PlaySending(q, attempt.heldOk, attempt.turns);
      AtTells(q, if ended then Closing else Loop.Sending, held');
      stop := !ended;
    }

    lemma AtTells(p: Play, loop: Loop, curr: Option<Packet>)
      requires At(p, loop, curr)
      ensures p.s.loop == loop && p.s.dying == dying && Ran(p) && (stream != null <==> loop != Idle && loop != Stopped)
    {
    }

    lemma Outstanding(p: Play, loop: Loop, held: Option<Packet>)
      requires At(p, loop, held)
      ensures AcceptedIn(p.acts) == HandedBy(p.s.streams) + (if held == None then [] else [held.value]) + cache
    {
      NothingLost(p);
    }

    /** connect: dials, waits for the CONNACK, and subscribes if there is anything to subscribe to. */
    method Connect(attempt: Attempt, ghost p: Play, ghost curr: Option<Packet>) returns (connected: bool)
      requires stream == null && At(p, Idle, curr)
      modifies this
      ensures connected <==> stream != null
      ensures connected ==> fresh(stream)
      ensures At(PlayConnect(p, attempt), if connected then Loop.Sending else Idle, curr)
    {
      hide At, InState, Ran, Do, PlayMeanwhile;
      Running(p, Idle, curr);
      connected := false;
      if !attempt.dialed {
        DialFails(p, curr);
        return;
      }
      Dials(p, curr);
      ghost var q := Do(p, Dialed);
      Meanwhile(attempt.untilConnack, q, AwaitConnack, curr);
      q := PlayMeanwhile(q, attempt.untilConnack);
      Running(q, AwaitConnack, curr);
      if stream.connectFuture != Completed {
        GivesUp(ConnectGaveUp, q, AwaitConnack, curr);
        return;
      }
      Connects(attempt.subscribeSent, q, curr);
      q := Do(q, ConnectDone(attempt.subscribeSent));
      if cfg.subscribes {
        if stream == null {
          return;
        }
        Meanwhile(attempt.untilSuback, q, AwaitSuback, curr);
        q := PlayMeanwhile(q, attempt.untilSuback);
        Running(q, AwaitSuback, curr);
        if stream.subscribeFuture != Completed {
          GivesUp(SubscribeGaveUp, q, AwaitSuback, curr);
          return;
        }
        Subscribes(q, curr);
      }
      connected := true;
    }

    lemma Running(p: Play, loop: Loop, curr: Option<Packet>)
      requires At(p, loop, curr)
      ensures Ran(p) && p.s.cfg == cfg && p.s.cache == cache && p.s.dying == dying && p.s.curr == curr && p.s.loop == loop
      ensures stream != null ==> p.s.streams != [] && Last(p.s) == stream.Snapshot()
    {
    }

    method DialFails(ghost p: Play, ghost curr: Option<Packet>)
      requires At(p, Idle, curr)
      ensures At(Do(p, DialFailed), Idle, curr)
    {
    }

    method Dials(ghost p: Play, ghost curr: Option<Packet>)
      requires At(p, Idle, curr)
      modifies this`stream
      ensures stream != null && fresh(stream) && At(Do(p, Dialed), AwaitConnack, curr)
    {
      hide Ran;
      stream := new Connection();
    }

    /** The connect future is complete; a SUBSCRIBE that cannot be sent loses the stream without its death. */
    method Connects(subscribeSent: bool, ghost p: Play, ghost curr: Option<Packet>)
      requires stream != null && stream.connectFuture == Completed && At(p, AwaitConnack, curr)
      modifies this`stream
      ensures stream == if cfg.subscribes && !subscribeSent then null else old(stream)
      ensures At(Do(p, ConnectDone(subscribeSent)), if !cfg.subscribes then Loop.Sending else if subscribeSent then AwaitSuback else Idle, curr)
    {
      hide Ran;
      if cfg.subscribes && !subscribeSent {
        stream := null;
      }
    }

    method Subscribes(ghost p: Play, ghost curr: Option<Packet>)
      requires stream != null && stream.subscribeFuture == Completed && At(p, AwaitSuback, curr)
      ensures At(Do(p, SubscribeDone), Loop.Sending, curr)
    {
    }

    /** A wait that fails kills the stream. */
    method GivesUp(ghost a: Action, ghost p: Play, ghost loop: Loop, ghost curr: Option<Packet>)
      requires stream != null && At(p, loop, curr)
      requires (a == ConnectGaveUp && loop == AwaitConnack) || (a == SubscribeGaveUp && loop == AwaitSuback)
      modifies this`stream, stream
      ensures stream == null && At(Do(p, a), Idle, curr)
      ensures old(stream).Snapshot() == Die(old(stream.Snapshot()), true)
    {
      hide Ran;
      stream.DieOnce(true);
      stream := null;
    }

    /** close: the stream is dead, and its receiver fails on the closed connection at the latest. */
    method CloseStreamWhile(untilClosed: seq<Elsewhere>, ghost p: Play, ghost curr: Option<Packet>)
      requires stream != null && At(p, Closing, curr)
      modifies this, stream
      ensures stream == null && At(PlayClose(p, untilClosed), Idle, curr)
      ensures !old(stream).receiving
    {
      hide At, InState, Ran, PlayMeanwhile, PlayElsewhere, Do;
      Running(p, Closing, curr);
      Meanwhile(untilClosed, p, Closing, curr);
      ghost var q := PlayMeanwhile(p, untilClosed);
      Happens(Arrives(ReceiveFailed), q, Closing, curr);
      q := PlayElsewhere(q, Arrives(ReceiveFailed));
      Closes(q, curr);
    }

    method Closes(ghost p: Play, ghost curr: Option<Packet>)
      requires stream != null && !stream.receiving && At(p, Closing, curr)
      modifies this`stream
      ensures stream == null && At(Do(p, CloseStream), Idle, curr)
    {
      hide Ran;
      stream := null;
    }

    method Stops(ghost p: Play, ghost curr: Option<Packet>)
      requires dying && At(p, Idle, curr)
      ensures At(Do(p, Stop), Stopped, curr)
    {
    }

    /** The other goroutines at work. */
    method Meanwhile(steps: seq<Elsewhere>, ghost p: Play, ghost loop: Loop, ghost curr: Option<Packet>)
      requires At(p, loop, curr)
      modifies this`cache, this`dying, stream
      ensures At(PlayMeanwhile(p, steps), loop, curr)
    {
      hide At, InState, Ran, PlayElsewhere;
      Running(p, loop, curr);
      ghost var q := p;
      var i := 0;
      while i < |steps|
        invariant i <= |steps|
        invariant Ran(q) && At(q, loop, curr)
        invariant PlayMeanwhile(p, steps) == PlayMeanwhile(q, steps[i..])
      {
        ghost var rest := steps[i..];
        Happens(steps[i], q, loop, curr);
        q := PlayElsewhere(q, steps[i]);
        i := i + 1;
        assert rest[1..] == steps[i..];
      }
    }

    /** A turn of the receiver while it runs, a failing ping, a caller's send while there is room, a caller's close, or something at a stream that the client has let go. */
    method Happens(step: Elsewhere, ghost p: Play, ghost loop: Loop, ghost curr: Option<Packet>)
      requires At(p, loop, curr)
      modifies this`cache, this`dying, stream
      ensures At(PlayElsewhere(p, step), loop, curr)
      ensures step == Arrives(ReceiveFailed) && stream != null ==> !stream.receiving
    {
      hide Ran, ReceiveStep, Die;
      match step {
        case Arrives(arrival) =>
          if stream != null && stream.receiving {
            FailureEnds(cfg, stream.Snapshot());
            stream.ReceiveOne(cfg, arrival);
          }
        case PingFails =>
          if stream != null {
            stream.DieOnce(true);
          }
        case CallerSends(packet) =>
          if |cache| < cfg.maxCacheMessages {
            cache := cache + [packet];
          }
        case CallerCloses =>
          dying := true;
        case _ =>
      }
    }

    /**
     The sending loop: what was held over goes first, then the cache, until a send fails or the client or the stream is dying.
     The packet returned is the one to hold over.
     */
    method Sending(curr: Option<Packet>, currOk: bool, turns: seq<Turn>, ghost p: Play) returns (held: Option<Packet>, ended: bool)
      requires stream != null && At(p, Loop.Sending, curr)
      modifies this`cache, this`dying, stream
      ensures At(PlaySending(p, currOk, turns), if ended then Closing else Loop.Sending, held)
      ensures held != None ==> ended
    {
      hide At, InState, Ran, Do, PlayChoice, PlayMeanwhile;
      Running(p, Loop.Sending, curr);
      held, ended := None, false;
      ghost var q := p;
      if curr != None {
        HandsOver(curr.value, currOk, p);
        q := Do(p, HandOver(currOk));
        Running(q, if currOk then Loop.Sending else Closing, if currOk then None else curr);
        if !currOk {
          return curr, true;
        }
      }
      var i := 0;
      while i < |turns|
        invariant i <= |turns| && held == None && !ended
        invariant Ran(q) && At(q, Loop.Sending, None)
        invariant PlaySending(p, currOk, turns) == PlayTurns(q, turns[i..])
      {
        ghost var rest := turns[i..];
        Running(q, Loop.Sending, None);
        Meanwhile(turns[i].meanwhile, q, Loop.Sending, None);
        q := PlayMeanwhile(q, turns[i].meanwhile);
        held, ended := Chooses(turns[i].choice, q);
        q := PlayChoice(q, turns[i].choice);
        Running(q, if ended then Closing else Loop.Sending, held);
        assert rest[1..] == turns[i + 1..];
        i := i + 1;
        if ended {
          return;
        }
      }
    }

    /** One turn of the select. A choice that is not ready waits for the next. */
    method Chooses(choice: Choice, ghost p: Play) returns (held: Option<Packet>, ended: bool)
      requires stream != null && At(p, Loop.Sending, None)
      modifies this`cache, stream
      ensures At(PlayChoice(p, choice), if ended then Closing else Loop.Sending, held)
      ensures held != None ==> ended
    {
      hide At, InState, Ran, Do;
      Running(p, Loop.Sending, None);
      held, ended := None, false;
      match choice {
        case TakeNext(ok) =>
          if cache != [] {
            var packet := Takes(p);
            HandsOver(packet, ok, Do(p, Take));
            if !ok {
              held, ended := Some(packet), true;
            }
          }
        case ClientDying =>
          if dying {
            ended := true;
            StopsSending(p);
          }
        case StreamDying =>
          if stream.died {
            ended := true;
            StopsSending(p);
          }
      }
    }

    method Takes(ghost p: Play) returns (packet: Packet)
      requires cache != [] && stream != null && At(p, Loop.Sending, None)
      modifies this`cache
      ensures At(Do(p, Take), Loop.Sending, Some(packet))
    {
      hide Ran;
      packet := cache[0];
      cache := cache[1..];
    }

    /** The packet at hand is sent; if that fails it stays at hand and the stream is dead. */
    method HandsOver(packet: Packet, ok: bool, ghost p: Play)
      requires stream != null && At(p, Loop.Sending, Some(packet))
      modifies stream
      ensures At(Do(p, HandOver(ok)), if ok then Loop.Sending else Closing, if ok then None else Some(packet))
    {
      hide Ran;
      stream.SendPacket(packet, ok);
    }

    /** The loop ends and connecting closes the stream. */
    method StopsSending(ghost p: Play)
      requires stream != null && (dying || stream.died) && At(p, Loop.Sending, None)
      modifies stream
      ensures At(Do(p, StopSending), Closing, None)
    {
      hide Ran;
      stream.DieOnce(false);
    }
  }

  lemma OneStep(s: State, acts: seq<Action>, a: Action)
    requires IsRun(s, acts) && Enabled(After(s, acts), a)
    ensures IsRun(s, acts + [a]) && After(s, acts + [a]) == Next(After(s, acts), a)
  {
    assert [a][1..] == [];
    RunConcat(s, acts, [a]);
  }
}
