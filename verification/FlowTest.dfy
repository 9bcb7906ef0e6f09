/** The mock message flow: packets are received and matched against the expected ones in any order. */
module FlowTest {
  import opened Wrappers

  /** A packet with its two renderings: its value and its type. */
  datatype Packet = Packet(value: string, typeName: string)

  datatype Action =
    | Send(packets: seq<Packet>)
    | Receive(packets: seq<Packet>)
    | Skip(packets: seq<Packet>)
    | Run
    | Close
    | End

  function Values(ps: seq<Packet>): (s: seq<string>)
    ensures |s| == |ps| && forall i :: 0 <= i < |ps| ==> s[i] == ps[i].value
  {
    seq(|ps|, i requires 0 <= i < |ps| => ps[i].value)
  }

  function Types(ps: seq<Packet>): (s: seq<string>)
    ensures |s| == |ps| && forall i :: 0 <= i < |ps| ==> s[i] == ps[i].typeName
  {
    seq(|ps|, i requires 0 <= i < |ps| => ps[i].typeName)
  }

  // ---------- Matching out of order ----------

  /** Taking packets off what is wanted, one at a time from position i: whether all were found, and the position reached. */
  function Consume(want: multiset<string>, got: seq<string>, i: nat): (r: (bool, nat))
    requires i <= |got|
    ensures i <= r.1 <= |got|
    decreases |got| - i
  {
    if want == multiset{} then (true, i)
    else if i == |got| then (false, i)
    else if got[i] in want then Consume(want - multiset{got[i]}, got, i + 1)
    else (false, i + 1)
  }

  /** Greedy matching succeeds exactly when the next packets, as many as wanted, are a permutation of those wanted; it then takes exactly these. */
  lemma {:induction false} ConsumeIffPermutation(want: multiset<string>, got: seq<string>, i: nat)
    requires i <= |got|
    ensures Consume(want, got, i).0 <==> i + |want| <= |got| && multiset(got[i..i + |want|]) == want
    ensures Consume(want, got, i).0 ==> Consume(want, got, i).1 == i + |want|
    decreases |got| - i
  {
    if |want| == 0 {
      assert got[i..i] == [];
    } else if i < |got| {
      if got[i] in want {
        ConsumeIffPermutation(want - multiset{got[i]}, got, i + 1);
      }
      if i + |want| <= |got| {
        TakenFirst(want, got, i);
      }
    }
  }

  lemma TakenFirst(want: multiset<string>, got: seq<string>, i: nat)
    requires 0 < |want| && i + |want| <= |got|
    ensures multiset(got[i..i + |want|]) == want <==>
            got[i] in want && multiset(got[i + 1..i + |want|]) == want - multiset{got[i]}
  {
    var end := i + |want|;
    assert got[i..end] == [got[i]] + got[i + 1..end];
    OneMore(want, multiset(got[i + 1..end]), got[i]);
  }

  lemma OneMore(want: multiset<string>, tail: multiset<string>, x: string)
    ensures multiset{x} + tail == want <==> x in want && tail == want - multiset{x}
  {
  }

  /** The first packets received are those expected, in some order. */
  predicate Permuted(expected: seq<string>, got: seq<string>) {
    |expected| <= |got| && multiset(got[..|expected|]) == multiset(expected)
  }

  lemma MatchedIffPermuted(expected: seq<string>, got: seq<string>)
    ensures var (found, taken) := Consume(multiset(expected), got, 0);
            (found <==> Permuted(expected, got)) && (found ==> taken == |expected|)
  {
    var n := |expected|;
    ConsumeIffPermutation(multiset(expected), got, 0);
    if n <= |got| {
      assert got[0..0 + n] == got[..n];
    }
  }

  // ---------- The store ----------

  /** How many of the first n indexes the store maps to a text. */
  ghost function Count(store: map<nat, string>, n: nat, text: string): nat {
    if n == 0 then 0
    else Count(store, n - 1, text) + if n - 1 in store && store[n - 1] == text then 1 else 0
  }

  /** The store holds the wanted texts, as often as they are wanted. */
  ghost predicate Holds(store: map<nat, string>, n: nat, want: multiset<string>) {
    (forall i <- store :: i < n) && forall text :: Count(store, n, text) == want[text]
  }

  lemma {:induction false} CountAll(store: map<nat, string>, texts: seq<string>, n: nat, text: string)
    requires n <= |texts| && forall i | 0 <= i < n :: i in store && store[i] == texts[i]
    ensures Count(store, n, text) == multiset(texts[..n])[text]
  {
    if n == 0 {
      assert texts[..0] == [];
    } else {
      CountAll(store, texts, n - 1, text);
      assert texts[..n] == texts[..n - 1] + [texts[n - 1]];
    }
  }

  lemma {:induction false} CountWithout(store: map<nat, string>, n: nat, i: nat, text: string)
    requires i in store
    ensures Count(store - {i}, n, text) == Count(store, n, text) - if i < n && store[i] == text then 1 else 0
  {
    if n > 0 {
      CountWithout(store, n - 1, i, text);
    }
  }

  lemma {:induction false} CountPositive(store: map<nat, string>, n: nat, text: string)
    ensures Count(store, n, text) > 0 <==> exists i :: 0 <= i < n && i in store && store[i] == text
  {
    if n > 0 {
      CountPositive(store, n - 1, text);
    }
  }

  lemma HoldsNothing(store: map<nat, string>, n: nat, want: multiset<string>)
    requires Holds(store, n, want)
    ensures |store| == 0 <==> want == multiset{}
  {
    if |store| > 0 {
      assert store.Keys != {};
      var i :| i in store;
      CountPositive(store, n, store[i]);
    } else if want != multiset{} {
      var text :| text in want;
      CountPositive(store, n, text);
    }
  }

  lemma StillHolds(store: map<nat, string>, n: nat, want: multiset<string>, i: nat)
    requires Holds(store, n, want) && i in store
    ensures store[i] in want && Holds(store - {i}, n, want - multiset{store[i]})
  {
    CountPositive(store, n, store[i]);
    forall text
      ensures Count(store - {i}, n, text) == (want - multiset{store[i]})[text]
    {
      CountWithout(store, n, i, text);
    }
  }

  // ---------- A connection and a flow ----------

  /** The packets that Receive will return before it reports the end, and those sent. Once closed, it neither sends nor receives. */
  class Conn {
    var inbox: seq<Packet>
    var sent: seq<Packet>
    var closed: bool

    ghost predicate Valid()
      reads this
    {
      closed ==> inbox == []
    }

    constructor (inbox: seq<Packet>)
      ensures Valid() && this.inbox == inbox && sent == [] && !closed
    {
      this.inbox, sent, closed := inbox, [], false;
    }
  }

  datatype Error = EndOfFile | Unexpected(p: Packet) | Closed

  /** How many packets an action receives when it succeeds. */
  function Taken(action: Action): nat {
    if action.Receive? || action.Skip? then |action.packets| else 0
  }

  /** What an action demands: an open connection to send on or to close, a permutation of the packets listed, or none at all at the end. */
  predicate Granted(action: Action, inbox: seq<Packet>, closed: bool) {
    match action
    case Send(ps) => ps == [] || !closed
    case Receive(ps) => Permuted(Values(ps), Values(inbox))
    case Skip(ps) => Permuted(Types(ps), Types(inbox))
    case Run => true
    case Close => !closed
    case End => inbox == []
  }

  /** What an action that succeeds leaves to receive. */
  function Rest(action: Action, inbox: seq<Packet>): seq<Packet>
    requires Taken(action) <= |inbox|
  {
    if action.Close? then [] else inbox[Taken(action)..]
  }

  predicate Demanded(actions: seq<Action>, inbox: seq<Packet>, closed: bool)
    decreases |actions|
  {
    actions == [] ||
    (Granted(actions[0], inbox, closed) && Demanded(actions[1..], Rest(actions[0], inbox), closed || actions[0].Close?))
  }

  function SentBy(actions: seq<Action>): seq<Packet> {
    if actions == [] then [] else (if actions[0].Send? then actions[0].packets else []) + SentBy(actions[1..])
  }

  /**
   The receive loop: each packet received strikes out some stored entry of the same rendering, whichever is met first.
   It succeeds, having taken exactly as many packets as expected, iff those packets are a permutation of the expected ones.
   */
  method Match(conn: Conn, expected: seq<string>, byType: bool) returns (err: Option<Error>)
    modifies conn`inbox
    ensures |conn.inbox| <= |old(conn.inbox)|
    ensures var got := if byType then Types(old(conn.inbox)) else Values(old(conn.inbox));
            err == None <==> Permuted(expected, got)
    ensures err == None ==> conn.inbox == old(conn.inbox)[|expected|..]
  {
    hide Holds, Permuted, Consume, Values, Types;
    var n := |expected|;
    var store: map<nat, string> := map i: nat | 0 <= i < n :: expected[i];
    ghost var want := multiset(expected);
    HoldsAll(store, expected);
    ghost var inbox := conn.inbox;
    ghost var got := if byType then Types(inbox) else Values(inbox);
    ghost var taken := 0;
    MatchedIffPermuted(expected, got);
    while |store| > 0
      invariant 0 <= taken <= |inbox| && conn.inbox == inbox[taken..]
      invariant Holds(store, n, want)
      invariant Consume(multiset(expected), got, 0) == Consume(want, got, taken)
      decreases |store|
    {
      HoldsNothing(store, n, want);
      ConsumeStep(want, got, taken);
      if conn.inbox == [] {
        return Some(EndOfFile);
      }
      var pkt := conn.inbox[0];
      conn.inbox := conn.inbox[1..];
      var text := if byType then pkt.typeName else pkt.value;
      taken := taken + 1;
      var found;
      found, store := Strike(store, n, want, text);
      if !found {
        return Some(Unexpected(pkt));
      }
      want := want - multiset{text};
    }
    HoldsNothing(store, n, want);
    ConsumeStep(want, got, taken);
    return None;
  }

  /** One more packet taken off, or the end of the matching. */
  lemma ConsumeStep(want: multiset<string>, got: seq<string>, i: nat)
    requires i <= |got|
    ensures want == multiset{} ==> Consume(want, got, i) == (true, i)
    ensures want != multiset{} && i == |got| ==> !Consume(want, got, i).0
    ensures want != multiset{} && i < |got| && got[i] !in want ==> !Consume(want, got, i).0
    ensures i < |got| && got[i] in want ==> Consume(want, got, i) == Consume(want - multiset{got[i]}, got, i + 1)
  {
  }

  lemma HoldsAll(store: map<nat, string>, texts: seq<string>)
    requires store == map i: nat | 0 <= i < |texts| :: texts[i]
    ensures Holds(store, |texts|, multiset(texts))
  {
    assert texts[..|texts|] == texts;
    forall text
      ensures Count(store, |texts|, text) == multiset(texts)[text]
    {
      CountAll(store, texts, |texts|, text);
    }
  }

  /** The range over the store: the first entry met that has the text is deleted. */
  method Strike(store: map<nat, string>, ghost n: nat, ghost want: multiset<string>, text: string)
    returns (found: bool, store': map<nat, string>)
    requires Holds(store, n, want)
    ensures found <==> text in want
    ensures if found then |store'| == |store| - 1 && Holds(store', n, want - multiset{text}) else store' == store
  {
    hide Count;
    var todo := store.Keys;
    while todo != {}
      invariant todo <= store.Keys
      invariant forall i <- store :: i !in todo ==> store[i] != text
    {
      var i :| i in todo;
      todo := todo - {i};
      if store[i] == text {
        StillHolds(store, n, want, i);
        store' := store - {i};
        assert store'.Keys == store.Keys - {i} && |store'.Keys| == |store.Keys| - 1;
        return true, store';
      }
    }
    CountPositive(store, n, text);
    return false, store;
  }

  /**
   A flow succeeds on a connection exactly when the packets it receives are those demanded, in any order within each action,
   and nothing is sent or closed behind a close.
   */
  method Test(conn: Conn, actions: seq<Action>) returns (err: Option<Error>)
    requires conn.Valid()
    modifies conn
    ensures conn.Valid()
    ensures err == None <==> Demanded(actions, old(conn.inbox), old(conn.closed))
    ensures err == None ==> conn.sent == old(conn.sent) + SentBy(actions)
    ensures err == None ==> (conn.closed <==> old(conn.closed) || Close in actions)
  {
    hide Granted, Rest, Permuted, Values, Types, Demanded, SentBy;
    var i := 0;
    ghost var sent := conn.sent;
    while i < |actions|
      invariant 0 <= i <= |actions| && conn.Valid()
      invariant Demanded(actions, old(conn.inbox), old(conn.closed)) <==> Demanded(actions[i..], conn.inbox, conn.closed)
      invariant conn.sent + SentBy(actions[i..]) == sent + SentBy(actions)
      invariant conn.closed <==> old(conn.closed) || Close in actions[..i]
    {
      OneAction(actions, i, conn.inbox, conn.closed);
      err := TestAction(conn, actions[i]);
      if err != None {
        return;
      }
      i := i + 1;
    }
    assert actions[..i] == actions && actions[i..] == [];
    NoActions(conn.inbox, conn.closed);
    return None;
  }

  lemma OneAction(actions: seq<Action>, i: nat, inbox: seq<Packet>, closed: bool)
    requires i < |actions|
    ensures Demanded(actions[i..], inbox, closed) <==>
            Granted(actions[i], inbox, closed) && Demanded(actions[i + 1..], Rest(actions[i], inbox), closed || actions[i].Close?)
    ensures SentBy(actions[i..]) == (if actions[i].Send? then actions[i].packets else []) + SentBy(actions[i + 1..])
    ensures Close in actions[..i + 1] <==> Close in actions[..i] || actions[i].Close?
  {
    assert actions[i..][1..] == actions[i + 1..];
    assert actions[..i + 1] == actions[..i] + [actions[i]];
  }

  lemma NoActions(inbox: seq<Packet>, closed: bool)
    ensures Demanded([], inbox, closed) && SentBy([]) == []
  {
  }

  /** One action: the packets it takes off the inbox and those it sends, or the error. */
  method TestAction(conn: Conn, action: Action) returns (err: Option<Error>)
    requires conn.Valid()
    modifies conn
    ensures conn.Valid()
    ensures err == None <==> Granted(action, old(conn.inbox), old(conn.closed))
    ensures match action
            case Send(ps) => err == None <==> ps == [] || !old(conn.closed)
            case Receive(ps) => err == None <==> Permuted(Values(ps), Values(old(conn.inbox)))
            case Skip(ps) => err == None <==> Permuted(Types(ps), Types(old(conn.inbox)))
            case Run => err == None
            case Close => err == None <==> !old(conn.closed)
            case End => err == None <==> old(conn.inbox) == []
    ensures err == None ==> conn.inbox == Rest(action, old(conn.inbox))
    ensures err == None && (action.Receive? || action.Skip?) ==> conn.inbox == old(conn.inbox)[|action.packets|..]
    ensures action.Send? || action.Run? || action.End? ==> conn.inbox == old(conn.inbox)
    ensures conn.closed <==> old(conn.closed) || action.Close?
    ensures conn.sent == old(conn.sent) + if action.Send? && err == None then action.packets else []
  {
    hide Permuted;
    err := None;
    match action {
      case Send(ps) =>
        err := SendAll(conn, ps);
      case Receive(ps) =>
        err := Match(conn, Values(ps), false);
      case Skip(ps) =>
        err := Match(conn, Types(ps), true);
      case Run =>
      case Close =>
        if conn.closed {
          err := Some(Closed);
        }
        conn.closed, conn.inbox := true, [];
      case End =>
        if conn.inbox != [] {
          err := Some(Unexpected(conn.inbox[0]));
        }
    }
  }

  /** The loop over the packets to send. */
  method SendAll(conn: Conn, ps: seq<Packet>) returns (err: Option<Error>)
    modifies conn`sent
    ensures err == None <==> ps == [] || !conn.closed
    ensures conn.sent == old(conn.sent) + if err == None then ps else []
  {
    for i := 0 to |ps|
      invariant conn.sent == old(conn.sent) + ps[..i]
      invariant i > 0 ==> !conn.closed
    {
      if conn.closed {
        return Some(Closed);
      }
      conn.sent := conn.sent + [ps[i]];
    }
    assert ps[..|ps|] == ps;
    return None;
  }
}
