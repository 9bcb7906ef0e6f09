/** What scripts of the connecting and sending loops achieve. */
module MqttDelivery {
  import opened Wrappers
  import opened MqttClient
  import opened MqttLoops

  /** The packets and the queue are as they were, and nothing more has been handed over. */
  ghost predicate Same(s: State, q: State) {
    && q.cfg == s.cfg && q.cache == s.cache && q.curr == s.curr && q.accepted == s.accepted
    && HandedBy(q.streams) == HandedBy(s.streams)
  }

  lemma RanKeeps(p: Play)
    requires Ran(p)
    ensures Inv(p.s)
  {
    hide Inv, Enabled, Next;
    Starts(p.s.cfg);
    RunKeeps(Init(p.s.cfg), p.acts);
  }

  lemma Starts(cfg: Config)
    ensures Inv(Init(cfg))
  {
  }

  /** An enabled action is played; only a successful hand-over adds to what has been handed over. */
  lemma Plays(p: Play, a: Action)
    requires Ran(p) && Enabled(p.s, a)
    ensures Do(p, a).s == Next(p.s, a)
    ensures HandedBy(Do(p, a).s.streams) == HandedBy(p.s.streams) + if a == HandOver(true) then Held(p.s) else []
  {
    hide Inv, Enabled, Next, HandedBy;
    RanKeeps(p);
    HistoryGrows(p.s, a);
  }

  lemma PlaysQuietly(p: Play, a: Action)
    requires Ran(p) && Enabled(p.s, a) && !a.Accept? && !a.Take? && !a.HandOver?
    ensures Do(p, a).s == Next(p.s, a) && Same(p.s, Do(p, a).s)
  {
    hide Inv, HandedBy, ReceiveStep, Die;
    Plays(p, a);
  }

  // ---------- Sending ----------

  /** Turns that find nothing but the cache ready, and whose sends go well. */
  function Takes(n: nat): seq<Turn> {
    if n == 0 then [] else [Turn([], TakeNext(true))] + Takes(n - 1)
  }

  predicate AtTheSelect(s: State) {
    s.loop == Loop.Sending && s.curr == None && s.streams != []
  }

  lemma OneTake(p: Play)
    requires Ran(p) && AtTheSelect(p.s) && p.s.cache != []
    ensures var q := PlayChoice(p, TakeNext(true));
            && AtTheSelect(q.s) && q.s.cache == p.s.cache[1..] && q.s.accepted == p.s.accepted
            && HandedBy(q.s.streams) == HandedBy(p.s.streams) + [p.s.cache[0]]
  {
    hide Inv, HandedBy, Ran;
    Plays(p, Take);
    var p1 := Do(p, Take);
    Plays(p1, HandOver(true));
  }

  function Min(a: nat, b: nat): nat {
    if a < b then a else b
  }

  /** From s to q, the first n packets of the cache were handed over, in order. */
  ghost predicate HandedFirst(s: State, q: State, n: nat) {
    && AtTheSelect(q) && q.accepted == s.accepted
    && q.cache == s.cache[Min(n, |s.cache|)..]
    && HandedBy(q.streams) == HandedBy(s.streams) + s.cache[..Min(n, |s.cache|)]
  }

  lemma {:induction false} TakesDeliver(p: Play, n: nat)
    requires Ran(p) && AtTheSelect(p.s)
    ensures HandedFirst(p.s, PlayTurns(p, Takes(n)).s, n)
    decreases n
  {
    hide HandedBy, Ran, Do, PlayTurns, PlayChoice, Takes, HandedFirst;
    if n == 0 || p.s.cache == [] {
      NothingToTake(p, n);
      NothingHanded(p.s, n);
    } else {
      OneTake(p);
      TakesCons(p, n);
      var q := PlayChoice(p, TakeNext(true));
      TakesDeliver(q, n - 1);
      OneMoreHanded(p.s, q.s, PlayTurns(q, Takes(n - 1)).s, n);
    }
  }

  lemma NothingHanded(s: State, n: nat)
    requires AtTheSelect(s) && (n == 0 || s.cache == [])
    ensures HandedFirst(s, s, n)
  {
    hide HandedBy;
    FirstOf(HandedBy(s.streams), s.cache, 0);
  }

  lemma OneMoreHanded(s: State, s1: State, q: State, n: nat)
    requires n > 0 && s.cache != [] && s1.cache == s.cache[1..] && s1.accepted == s.accepted
    requires HandedBy(s1.streams) == HandedBy(s.streams) + [s.cache[0]] && HandedFirst(s1, q, n - 1)
    ensures HandedFirst(s, q, n)
  {
    hide HandedBy, AtTheSelect;
    FirstOf(HandedBy(s.streams), s.cache, Min(n, |s.cache|));
  }

  lemma TakesCons(p: Play, n: nat)
    requires Ran(p) && AtTheSelect(p.s) && n > 0
    ensures PlayTurns(p, Takes(n)) == PlayTurns(PlayChoice(p, TakeNext(true)), Takes(n - 1))
  {
    hide Ran, PlayChoice;
    assert Takes(n)[1..] == Takes(n - 1);
    assert PlayMeanwhile(p, []) == p;
  }

  lemma {:induction false} NothingToTake(p: Play, n: nat)
    requires Ran(p) && AtTheSelect(p.s) && (n == 0 || p.s.cache == [])
    ensures PlayTurns(p, Takes(n)) == p
  {
    hide Ran;
    if n > 0 {
      TakesCons(p, n);
      NothingToTake(p, n - 1);
    }
  }

  lemma FirstOf(h: seq<Packet>, c: seq<Packet>, k: nat)
    requires k <= |c|
    ensures k == 0 ==> h + c[..k] == h && c[k..] == c
    ensures k > 0 ==> h + [c[0]] + c[1..][..k - 1] == h + c[..k] && c[1..][k - 1..] == c[k..]
  {
    if k > 0 {
      assert [c[0]] + c[1..][..k - 1] == c[..k];
      assert h + [c[0]] + c[1..][..k - 1] == h + ([c[0]] + c[1..][..k - 1]);
    }
  }

  /** On a stream, n good turns hand over the packet held over and then the first n of the cache, in order, and leave the rest. */
  lemma SendingDelivers(p: Play, n: nat)
    requires Ran(p) && p.s.loop == Loop.Sending && p.s.streams != []
    ensures var q, k := PlaySending(p, true, Takes(n)), Min(n, |p.s.cache|);
            && AtTheSelect(q.s) && q.s.cache == p.s.cache[k..] && q.s.accepted == p.s.accepted
            && HandedBy(q.s.streams) == HandedBy(p.s.streams) + Held(p.s) + p.s.cache[..k]
  {
    hide HandedBy, Ran, PlayTurns;
    if p.s.curr == None {
      TakesDeliver(p, n);
      assert HandedBy(p.s.streams) + [] == HandedBy(p.s.streams);
    } else {
      Plays(p, HandOver(true));
      TakesDeliver(Do(p, HandOver(true)), n);
    }
  }

  /** When sending what was held over fails, it stays held over and nothing else is taken. */
  lemma HeldOverAgain(p: Play, later: seq<Turn>)
    requires Ran(p) && p.s.loop == Loop.Sending && p.s.streams != [] && p.s.curr != None
    ensures var q := PlaySending(p, false, later); q.s.loop == Closing && Same(p.s, q.s) && q.s.streams != [] && Last(q.s).died
  {
    hide Inv, HandedBy, Ran, Die;
    DiesNow(Last(p.s), true);
    Plays(p, HandOver(false));
  }

  lemma DiesNow(s: Stream, error: bool)
    ensures Die(s, error).died
  {
  }

  /** When sending a packet of the cache fails, exactly the head of the cache is held over, whatever turns were to follow. */
  lemma FailedSendHoldsOver(p: Play, currOk: bool, later: seq<Turn>)
    requires Ran(p) && AtTheSelect(p.s) && p.s.cache != []
    ensures var q := PlaySending(p, currOk, [Turn([], TakeNext(false))] + later);
            && q.s.loop == Closing && q.s.curr == Some(p.s.cache[0]) && q.s.cache == p.s.cache[1..] && q.s.accepted == p.s.accepted
            && HandedBy(q.s.streams) == HandedBy(p.s.streams)
  {
    hide HandedBy, Ran;
    var turns, q := [Turn([], TakeNext(false))] + later, PlayChoice(p, TakeNext(false));
    OneFailure(p);
    assert turns[1..] == later;
    assert PlayMeanwhile(p, []) == p;
    assert PlayTurns(q, later) == q;
  }

  lemma OneFailure(p: Play)
    requires Ran(p) && AtTheSelect(p.s) && p.s.cache != []
    ensures var q := PlayChoice(p, TakeNext(false));
            && q.s.loop == Closing && q.s.curr == Some(p.s.cache[0]) && q.s.cache == p.s.cache[1..] && q.s.accepted == p.s.accepted
            && HandedBy(q.s.streams) == HandedBy(p.s.streams)
  {
    hide Inv, HandedBy, Ran, Die;
    Plays(p, Take);
    Plays(Do(p, Take), HandOver(false));
  }

  /** The other choices end the loop exactly when they are ready, and send nothing. */
  lemma DyingEndsSending(p: Play)
    requires Ran(p) && AtTheSelect(p.s)
    ensures var q := PlayChoice(p, ClientDying); Same(p.s, q.s) && q.s.loop == if p.s.dying then Closing else Loop.Sending
    ensures var q := PlayChoice(p, StreamDying); Same(p.s, q.s) && q.s.loop == if Last(p.s).died then Closing else Loop.Sending
    ensures var q := PlayChoice(p, ClientDying); p.s.dying ==> q.s.streams != [] && Last(q.s).died
  {
    hide Inv, HandedBy, Ran, Die;
    DiesNow(Last(p.s), false);
    if p.s.dying || Last(p.s).died {
      PlaysQuietly(p, StopSending);
    }
  }

  // ---------- A whole attempt ----------

  const ACCEPTING := Received(Connack(CONNECTION_ACCEPTED), true, true)
  const SUBSCRIBED := Received(Suback(SUBSCRIBE_ID, []), true, true)

  /** An attempt that finds the server there, and n turns of sending that go well. */
  function GoodAttempt(n: nat): Attempt {
    Attempt([], [], false, true, [Arrives(ACCEPTING)], true, [Arrives(SUBSCRIBED)], true, Takes(n))
  }

  lemma CloseIsQuiet(p: Play)
    requires Ran(p) && p.s.loop == Closing
    ensures var q := PlayClose(p, []); q.s.loop == Idle && Same(p.s, q.s) && q.s.dying == p.s.dying
  {
    hide HandedBy, Ran, Die;
    RanKeeps(p);
    var last := |p.s.streams| - 1;
    assert PlayMeanwhile(p, []) == p;
    var q := PlayElsewhere(p, Arrives(ReceiveFailed));
    FailureEnds(p.s.cfg, Last(p.s));
    if Last(p.s).receiving {
      PlaysQuietly(p, Receive(last, ReceiveFailed));
    }
    PlaysQuietly(q, CloseStream);
  }

  lemma OneArrives(p: Play, a: Arrival)
    requires Ran(p) && Connected(p.s) && Last(p.s).receiving
    ensures var q := PlayMeanwhile(p, [Arrives(a)]);
            && q.s == p.s.(streams := p.s.streams[|p.s.streams| - 1 := ReceiveStep(p.s.cfg, Last(p.s), a)]) && Same(p.s, q.s)
  {
    hide HandedBy, Ran, ReceiveStep, Inv;
    assert [Arrives(a)][1..] == [];
    PlaysQuietly(p, Receive(|p.s.streams| - 1, a));
  }

  lemma ConnectIsQuiet(p: Play, n: nat)
    requires Ran(p) && p.s.loop == Idle
    ensures var q := PlayConnect(p, GoodAttempt(n)); q.s.loop == Loop.Sending && q.s.streams != [] && Same(p.s, q.s)
  {
    hide HandedBy, Ran, Inv, Do, PlayMeanwhile;
    PlaysQuietly(p, Dialed);
    var p1 := Do(p, Dialed);
    OneArrives(p1, ACCEPTING);
    var p2 := PlayMeanwhile(p1, [Arrives(ACCEPTING)]);
    PlaysQuietly(p2, ConnectDone(true));
    var p3 := Do(p2, ConnectDone(true));
    if p.s.cfg.subscribes {
      OneArrives(p3, SUBSCRIBED);
      var p4 := PlayMeanwhile(p3, [Arrives(SUBSCRIBED)]);
      PlaysQuietly(p4, SubscribeDone);
    }
  }

  /**
   Whatever has happened before, one attempt that goes well and is long enough hands over everything accepted, the packet
   held over first.
   */
  lemma GoodAttemptDelivers(p: Play, n: nat)
    requires Ran(p) && (p.s.loop == Idle || p.s.loop == Closing) && n >= |p.s.cache|
    ensures var q := PlayAttempt(p, GoodAttempt(n));
            && q.s.loop == Loop.Sending && q.s.cache == [] && q.s.curr == None
            && q.s.accepted == p.s.accepted && HandedBy(q.s.streams) == p.s.accepted
  {
    hide HandedBy, Ran, Inv, Do, PlayConnect, PlayClose, PlaySending;
    if p.s.loop == Closing {
      CloseIsQuiet(p);
    }
    var p1 := if p.s.loop == Closing then PlayClose(p, []) else p;
    assert PlayMeanwhile(p1, []) == p1;
    ConnectIsQuiet(p1, n);
    var p2 := PlayConnect(p1, GoodAttempt(n));
    SendingDelivers(p2, n);
    var q := PlaySending(p2, true, Takes(n));
    RanKeeps(q);
    AllHanded(q.s);
  }

  lemma AllHanded(s: State)
    requires Inv(s) && s.cache == [] && s.curr == None
    ensures HandedBy(s.streams) == s.accepted
  {
    hide HandedBy, StreamOk;
  }

  /** The same for whole scripts of the connecting loop: after any attempts that do not stop it, a good one delivers everything. */
  lemma {:induction false} ScriptDelivers(p: Play, before: seq<Attempt>, n: nat)
    requires Ran(p)
    requires var q := PlayAttempts(p, before); (q.s.loop == Idle || q.s.loop == Closing) && n >= |q.s.cache|
    ensures var q, r := PlayAttempts(p, before), PlayAttempts(p, before + [GoodAttempt(n)]);
            r.s.accepted == q.s.accepted && HandedBy(r.s.streams) == r.s.accepted && r.s.cache == [] && r.s.curr == None
    decreases |before|
  {
    hide HandedBy, Ran, PlayAttempt;
    var script := before + [GoodAttempt(n)];
    if before == [] {
      assert script == [GoodAttempt(n)] && script[1..] == [];
      GoodAttemptDelivers(p, n);
    } else {
      assert script[1..] == before[1..] + [GoodAttempt(n)];
      var p1 := PlayAttempt(p, before[0]);
      ScriptDelivers(p1, before[1..], n);
    }
  }

  /** A dying client is seen and the loop stops, with everything kept. */
  lemma DyingStops(p: Play, attempt: Attempt)
    requires Ran(p) && p.s.loop == Idle && p.s.dying && attempt.untilTimer == [] && attempt.seesDying
    ensures var q := PlayAttempt(p, attempt); q.s.loop == Stopped && Same(p.s, q.s)
  {
    hide HandedBy, Ran, Inv;
    assert PlayMeanwhile(p, []) == p;
    PlaysQuietly(p, Stop);
  }

  /** Without an answer there is no stream: the one dialled is given up and dead, and everything is kept. */
  lemma NoAnswerGivesUp(p: Play, attempt: Attempt)
    requires Ran(p) && p.s.loop == Idle && attempt.dialed && attempt.untilConnack == []
    ensures var q := PlayConnect(p, attempt);
            q.s.loop == Idle && Same(p.s, q.s) && |q.s.streams| == |p.s.streams| + 1 && Last(q.s).died && Last(q.s).connectFuture == Cancelled
  {
    hide HandedBy, Ran, Inv;
    PlaysQuietly(p, Dialed);
    var p1 := Do(p, Dialed);
    assert PlayMeanwhile(p1, []) == p1;
    PlaysQuietly(p1, ConnectGaveUp);
  }

  /** Without a SUBACK the stream is given up and dead; when the SUBSCRIBE cannot be sent it is left as it is. */
  lemma NoSubackGivesUp(p: Play, attempt: Attempt)
    requires Ran(p) && p.s.loop == Idle && p.s.cfg.subscribes
    requires attempt.dialed && attempt.untilConnack == [Arrives(ACCEPTING)] && attempt.untilSuback == []
    ensures var q := PlayConnect(p, attempt);
            && q.s.loop == Idle && Same(p.s, q.s) && |q.s.streams| == |p.s.streams| + 1
            && (Last(q.s).died <==> attempt.subscribeSent)
            && Last(q.s).subscribeFuture == if attempt.subscribeSent then Cancelled else Pending
  {
    hide HandedBy, Ran, Inv, Do, PlayMeanwhile;
    PlaysQuietly(p, Dialed);
    var p1 := Do(p, Dialed);
    OneArrives(p1, ACCEPTING);
    var p2 := PlayMeanwhile(p1, [Arrives(ACCEPTING)]);
    PlaysQuietly(p2, ConnectDone(attempt.subscribeSent));
    var p3 := Do(p2, ConnectDone(attempt.subscribeSent));
    NothingMeanwhile(p3);
    if attempt.subscribeSent {
      PlaysQuietly(p3, SubscribeGaveUp);
    }
  }

  lemma NothingMeanwhile(p: Play)
    requires Ran(p)
    ensures PlayMeanwhile(p, []) == p
  {
  }

  /** Before an attempt that cannot dial, whatever happens elsewhere until the timer fires counts, and nothing else. */
  lemma FailedDialHears(p: Play, attempt: Attempt)
    requires Ran(p) && p.s.loop == Idle && !attempt.dialed
    ensures var waited, q := PlayMeanwhile(p, attempt.untilTimer), PlayAttempt(p, attempt);
            waited.s.loop == Idle && q.s == waited.s.(loop := if waited.s.dying && attempt.seesDying then Stopped else Idle)
  {
    hide Ran, PlayMeanwhile, Do;
    StaysIdle(p, attempt.untilTimer);
    var waited := PlayMeanwhile(p, attempt.untilTimer);
    PlayedNext(waited, Stop);
    PlayedNext(waited, DialFailed);
  }

  lemma PlayedNext(p: Play, a: Action)
    requires Ran(p)
    ensures Enabled(p.s, a) ==> Do(p, a).s == Next(p.s, a)
  {
  }

  lemma {:induction false} StaysIdle(p: Play, steps: seq<Elsewhere>)
    requires Ran(p)
    ensures PlayMeanwhile(p, steps).s.loop == p.s.loop
    decreases |steps|
  {
    hide Ran;
    if steps != [] {
      StaysThere(p, steps[0]);
      StaysIdle(PlayElsewhere(p, steps[0]), steps[1..]);
    }
  }

  lemma StaysThere(p: Play, step: Elsewhere)
    requires Ran(p)
    ensures PlayElsewhere(p, step).s.loop == p.s.loop
  {
    hide Ran, ReceiveStep, Die;
  }

  /** What happens to streams: a failing ping kills the one in use, what a receiver gets it takes, also on streams that were given up. */
  lemma StreamsAreHeard(p: Play, i: nat, a: Arrival)
    requires Ran(p) && i < |p.s.streams|
    ensures Connected(p.s) ==>
              var last := |p.s.streams| - 1;
              && PlayElsewhere(p, PingFails).s == p.s.(streams := p.s.streams[last := Die(p.s.streams[last], true)])
              && (p.s.streams[last].receiving ==>
                    PlayElsewhere(p, Arrives(a)).s == p.s.(streams := p.s.streams[last := ReceiveStep(p.s.cfg, p.s.streams[last], a)]))
    ensures i < GivenUp(p.s) ==>
              && PlayElsewhere(p, PingFailsLate(i)).s == p.s.(streams := p.s.streams[i := Die(p.s.streams[i], true)])
              && (p.s.streams[i].receiving ==>
                    PlayElsewhere(p, ArrivesLate(i, a)).s == p.s.(streams := p.s.streams[i := ReceiveStep(p.s.cfg, p.s.streams[i], a)]))
  {
    hide Ran, ReceiveStep, Die;
  }

  /** A caller's packet goes to the end of the cache while there is room, and a caller's close makes the client die. */
  lemma CallersAreHeard(p: Play, packet: Packet)
    requires Ran(p)
    ensures var q := PlayElsewhere(p, CallerSends(packet));
            if |p.s.cache| < p.s.cfg.maxCacheMessages then q.s == p.s.(cache := p.s.cache + [packet], accepted := p.s.accepted + [packet])
            else q == p
    ensures PlayElsewhere(p, CallerCloses).s == p.s.(dying := true)
  {
    hide Ran;
  }
}
