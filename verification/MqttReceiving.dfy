/** What comes of the packets that a stream receives, from its first to the one that ends it. */
module MqttReceiving {
  import opened MqttClient
  import opened MqttLoops

  /** The CONNACK that opens the gate. */
  predicate Accepts(a: Arrival) {
    a.Received? && a.p == Connack(CONNECTION_ACCEPTED)
  }

  /** What ends the receive loop behind the gate: a failure to receive, to acknowledge or in the puback handler, a refused subscription, and any packet that is out of place. */
  predicate Ends(cfg: Config, a: Arrival) {
    match a
    case ReceiveFailed => true
    case Received(Publish(_, qos, _, _), handlerOk, sendOk) => handlerOk && qos == 1 && !cfg.disableAutoAck && !sendOk
    case Received(Puback(_), handlerOk, _) => !handlerOk
    case Received(Suback(id, codes), _, _) => id == SUBSCRIBE_ID && QOS_FAILURE in codes
    case Received(Pingresp, _, _) => false
    case Received(_, _, _) => true
  }

  /** How many arrivals behind the gate are taken: up to the first that ends the loop, that one included. */
  function Taken(cfg: Config, inbox: seq<Arrival>): (n: nat)
    ensures n <= |inbox|
    ensures forall i | 0 <= i < n - 1 :: !Ends(cfg, inbox[i])
    ensures n < |inbox| ==> n > 0 && Ends(cfg, inbox[n - 1])
  {
    if inbox == [] then 0
    else if Ends(cfg, inbox[0]) then 1
    else
      assert forall i | 0 <= i < |inbox| - 1 :: inbox[1..][i] == inbox[i + 1];
      1 + Taken(cfg, inbox[1..])
  }

  /** The callbacks that arrivals call for, in order. */
  function Callbacks(inbox: seq<Arrival>): seq<Event> {
    if inbox == [] then []
    else (match inbox[0]
          case Received(Publish(id, qos, topic, payload), handlerOk, _) => [PublishHandled(Publish(id, qos, topic, payload), handlerOk)]
          case Received(Puback(id), handlerOk, _) => [PubackHandled(Puback(id), handlerOk)]
          case _ => []) + Callbacks(inbox[1..])
  }

  /** The acknowledgements that arrivals call for, in order. */
  function Acknowledgements(cfg: Config, inbox: seq<Arrival>): seq<Event> {
    if inbox == [] then []
    else (match inbox[0]
          case Received(Publish(id, 1, _, _), true, sendOk) => if cfg.disableAutoAck then [] else [AckTried(id, sendOk)]
          case _ => []) + Acknowledgements(cfg, inbox[1..])
  }

  predicate Subscribed(a: Arrival) {
    a.Received? && a.p.Suback? && a.p.id == SUBSCRIBE_ID && QOS_FAILURE !in a.p.codes
  }

  function CallbackOf(e: Event): seq<Event> {
    if e.PublishHandled? || e.PubackHandled? then [e] else []
  }

  function AcknowledgementOf(e: Event): seq<Event> {
    if e.AckTried? then [e] else []
  }

  /** The last event is a death that the observer hears of. */
  predicate EndsInError(s: Stream) {
    s.trace != [] && s.trace[|s.trace| - 1] == Died(true)
  }

  /** The stream's gate is open and nothing has ended it. */
  predicate Running(s: Stream) {
    s.receiving && s.connacked && !s.died
  }

  /** The events that one arrival behind the gate adds. */
  function Added(cfg: Config, s: Stream, a: Arrival): seq<Event> {
    var ending := if Ends(cfg, a) then [Died(true)] else [];
    match a
    case Received(Suback(_, _), _, _) => if Subscribed(a) then [SubackAccepted] else ending
    case _ => Callbacks([a]) + Acknowledgements(cfg, [a]) + ending
  }

  /** What one arrival behind the gate leaves. */
  lemma OneArrival(cfg: Config, s: Stream, a: Arrival)
    requires Running(s)
    ensures var q := ReceiveStep(cfg, s, a);
            && q.trace == s.trace + Added(cfg, s, a)
            && q.connectFuture == (if Ends(cfg, a) then Cancel(s.connectFuture) else s.connectFuture)
            && q.subscribeFuture == (if Subscribed(a) then Complete(s.subscribeFuture) else if Ends(cfg, a) then Cancel(s.subscribeFuture) else s.subscribeFuture)
            && if Ends(cfg, a) then !q.receiving && q.died && EndsInError(q) else Running(q)
  {
    assert Callbacks([a][1..]) == [] && Acknowledgements(cfg, [a][1..]) == [];
  }

  lemma AddedSelects(cfg: Config, s: Stream, a: Arrival)
    ensures Select(CallbackOf, Added(cfg, s, a)) == Callbacks([a])
    ensures Select(AcknowledgementOf, Added(cfg, s, a)) == Acknowledgements(cfg, [a])
    ensures ConnackAccepted !in Added(cfg, s, a)
  {
    hide Select;
    var ending := if Ends(cfg, a) then [Died(true)] else [];
    var callbacks, acks := Callbacks([a]), Acknowledgements(cfg, [a]);
    OneOfEach(cfg, a);
    if a.Received? && a.p.Suback? {
      SelectShort(CallbackOf, Added(cfg, s, a));
      SelectShort(AcknowledgementOf, Added(cfg, s, a));
    } else {
      PartsSelect(CallbackOf, callbacks, acks, ending);
      PartsSelect(AcknowledgementOf, callbacks, acks, ending);
    }
  }

  lemma OneOfEach(cfg: Config, a: Arrival)
    ensures var callbacks, acks := Callbacks([a]), Acknowledgements(cfg, [a]);
            && |callbacks| <= 1 && (callbacks != [] ==> callbacks[0].PublishHandled? || callbacks[0].PubackHandled?)
            && |acks| <= 1 && (acks != [] ==> acks[0].AckTried?)
            && (a.Received? && a.p.Suback? ==> callbacks == [] && acks == [])
  {
    assert Callbacks([a][1..]) == [] && Acknowledgements(cfg, [a][1..]) == [];
  }

  /** Short parts, selected one by one. */
  lemma PartsSelect(f: Event -> seq<Event>, x: seq<Event>, y: seq<Event>, z: seq<Event>)
    requires |x| <= 1 && |y| <= 1 && |z| <= 1
    ensures Select(f, x + y + z) == Short(f, x) + Short(f, y) + Short(f, z)
  {
    hide Select;
    SelectAppend(f, x + y, z);
    SelectAppend(f, x, y);
    SelectShort(f, x);
    SelectShort(f, y);
    SelectShort(f, z);
  }

  function Short(f: Event -> seq<Event>, es: seq<Event>): seq<Event> {
    if es == [] then [] else f(es[0])
  }

  lemma SelectShort(f: Event -> seq<Event>, es: seq<Event>)
    ensures es == [] ==> Select(f, es) == []
    ensures |es| == 1 ==> Select(f, es) == f(es[0])
  {
    if |es| == 1 {
      assert es[1..] == [];
    }
  }

  /** The same, as its callbacks and acknowledgements. */
  lemma OneArrivalSelects(cfg: Config, s: Stream, a: Arrival)
    requires Running(s)
    ensures var q := ReceiveStep(cfg, s, a);
            && Select(CallbackOf, q.trace) == Select(CallbackOf, s.trace) + Callbacks([a])
            && Select(AcknowledgementOf, q.trace) == Select(AcknowledgementOf, s.trace) + Acknowledgements(cfg, [a])
            && (ConnackAccepted in q.trace <==> ConnackAccepted in s.trace)
  {
    hide ReceiveStep, Added, Select, Callbacks, Acknowledgements;
    OneArrival(cfg, s, a);
    AddedSelects(cfg, s, a);
    SelectAppend(CallbackOf, s.trace, Added(cfg, s, a));
    SelectAppend(AcknowledgementOf, s.trace, Added(cfg, s, a));
  }

  lemma ArrivalsCons(cfg: Config, inbox: seq<Arrival>)
    requires inbox != []
    ensures Callbacks(inbox) == Callbacks([inbox[0]]) + Callbacks(inbox[1..])
    ensures Acknowledgements(cfg, inbox) == Acknowledgements(cfg, [inbox[0]]) + Acknowledgements(cfg, inbox[1..])
  {
    var a := inbox[0];
    assert [a][1..] == [];
  }

  predicate AnySubscribed(inbox: seq<Arrival>) {
    exists i :: 0 <= i < |inbox| && Subscribed(inbox[i])
  }

  predicate NoneEnds(cfg: Config, inbox: seq<Arrival>) {
    forall i | 0 <= i < |inbox| :: !Ends(cfg, inbox[i])
  }

  /** What all arrivals behind the gate leave. */
  lemma {:induction false} AllArrivals(cfg: Config, s: Stream, inbox: seq<Arrival>)
    requires Running(s) && s.connectFuture == Completed && s.subscribeFuture != Cancelled
    ensures var q, taken := ReceiveAll(cfg, s, inbox), inbox[..Taken(cfg, inbox)];
            && Select(CallbackOf, q.trace) == Select(CallbackOf, s.trace) + Callbacks(taken)
            && Select(AcknowledgementOf, q.trace) == Select(AcknowledgementOf, s.trace) + Acknowledgements(cfg, taken)
            && (ConnackAccepted in q.trace <==> ConnackAccepted in s.trace)
            && q.connectFuture == Completed
            && (q.subscribeFuture == Completed <==> s.subscribeFuture == Completed || AnySubscribed(taken))
            && (q.died ==> EndsInError(q))
            && (q.receiving <==> NoneEnds(cfg, inbox))
            && (q.died <==> !q.receiving)
    decreases |inbox|
  {
    hide ReceiveStep, Select, Callbacks, Acknowledgements;
    if inbox == [] {
      NoArrivals(cfg);
    } else {
      var a, rest := inbox[0], inbox[1..];
      var q, taken := ReceiveStep(cfg, s, a), inbox[..Taken(cfg, inbox)];
      OneArrival(cfg, s, a);
      OneArrivalSelects(cfg, s, a);
      ArrivalsCons(cfg, taken);
      NoneEndsCons(cfg, inbox);
      if Ends(cfg, a) {
        assert taken == [a] && taken[1..] == [];
        EndsHere(cfg, q, rest);
        NoArrivals(cfg);
      } else {
        AllArrivals(cfg, q, rest);
        assert taken[1..] == rest[..Taken(cfg, rest)];
        AnySubscribedCons(taken);
      }
    }
  }

  lemma NoArrivals(cfg: Config)
    ensures Callbacks([]) == [] && Acknowledgements(cfg, []) == []
  {
  }

  lemma EndsHere(cfg: Config, q: Stream, rest: seq<Arrival>)
    requires !q.receiving
    ensures ReceiveAll(cfg, q, rest) == q
  {
  }

  lemma NoneEndsCons(cfg: Config, inbox: seq<Arrival>)
    requires inbox != []
    ensures NoneEnds(cfg, inbox) <==> !Ends(cfg, inbox[0]) && NoneEnds(cfg, inbox[1..])
  {
    assert forall i | 0 <= i < |inbox| - 1 :: inbox[1..][i] == inbox[i + 1];
    assert forall i | 0 < i < |inbox| :: inbox[i] == inbox[1..][i - 1];
  }

  lemma AnySubscribedCons(inbox: seq<Arrival>)
    requires inbox != []
    ensures AnySubscribed(inbox) <==> Subscribed(inbox[0]) || AnySubscribed(inbox[1..])
  {
    if i :| 0 <= i < |inbox| - 1 && Subscribed(inbox[1..][i]) {
      assert Subscribed(inbox[i + 1]);
    }
    if i :| 0 < i < |inbox| && Subscribed(inbox[i]) {
      assert Subscribed(inbox[1..][i - 1]);
    }
  }

  /**
   What a fresh stream makes of any arrivals. It opens exactly for an accepting CONNACK as the very first; behind it, the
   callbacks are those that the arrivals call for, in order, up to the one that ends the loop, and so are the acknowledgements;
   and the loop ends exactly at the first arrival that does not fit or fails.
   */
  lemma WhatIsReceived(cfg: Config, inbox: seq<Arrival>)
    ensures var q, accepted := ReceiveAll(cfg, FRESH_STREAM, inbox), inbox != [] && Accepts(inbox[0]);
            && (ConnackAccepted in q.trace <==> accepted)
            && (q.connectFuture == Completed <==> accepted)
            && (q.receiving <==> inbox == [] || (accepted && NoneEnds(cfg, inbox[1..])))
            && (q.died <==> !q.receiving)
            && (q.died ==> EndsInError(q))
            && var taken := if accepted then inbox[1..][..Taken(cfg, inbox[1..])] else [];
            && Select(CallbackOf, q.trace) == Callbacks(taken)
            && Select(AcknowledgementOf, q.trace) == Acknowledgements(cfg, taken)
            && (q.subscribeFuture == Completed <==> AnySubscribed(taken))
  {
    hide Callbacks, Acknowledgements, Ends;
    NoArrivals(cfg);
    if inbox != [] {
      var s := ReceiveStep(cfg, FRESH_STREAM, inbox[0]);
      FirstArrival(cfg, inbox[0]);
      if Accepts(inbox[0]) {
        AllArrivals(cfg, s, inbox[1..]);
      } else {
        EndsHere(cfg, s, inbox[1..]);
      }
    }
  }

  lemma FirstArrival(cfg: Config, a: Arrival)
    ensures var s := ReceiveStep(cfg, FRESH_STREAM, a);
            && Select(CallbackOf, s.trace) == [] && Select(AcknowledgementOf, s.trace) == []
            && (ConnackAccepted in s.trace <==> Accepts(a))
            && if Accepts(a) then Running(s) && s.connectFuture == Completed && s.subscribeFuture == Pending
               else !s.receiving && s.died && EndsInError(s) && s.connectFuture == Cancelled && s.subscribeFuture == Cancelled
  {
    SelectShort(CallbackOf, ReceiveStep(cfg, FRESH_STREAM, a).trace);
    SelectShort(AcknowledgementOf, ReceiveStep(cfg, FRESH_STREAM, a).trace);
  }
}
