/** The cache key of a request: its path and its query parameters in a canonical order. */
module CacheKey {
  import opened Wrappers
  import opened Varint
  import opened Separated
  import opened Permutations
  import opened Uri

  // ---------- The order ----------

  /** Strings compare byte by byte. */
  predicate Le(a: Text, b: Text) {
    a == [] || (b != [] && (a[0] < b[0] || (a[0] == b[0] && Le(a[1..], b[1..]))))
  }

  lemma {:induction false} LeTotal(a: Text, b: Text)
    ensures Le(a, b) || Le(b, a)
  {
    if a != [] && b != [] {
      LeTotal(a[1..], b[1..]);
    }
  }

  lemma {:induction false} LeAntisymmetric(a: Text, b: Text)
    requires Le(a, b) && Le(b, a)
    ensures a == b
  {
    if a != [] {
      LeAntisymmetric(a[1..], b[1..]);
      assert a == [a[0]] + a[1..] && b == [b[0]] + b[1..];
    }
  }

  lemma {:induction false} LeTransitive(a: Text, b: Text, c: Text)
    requires Le(a, b) && Le(b, c)
    ensures Le(a, c)
  {
    if a != [] && a[0] == b[0] && b[0] == c[0] {
      LeTransitive(a[1..], b[1..], c[1..]);
    }
  }

  /** At the first difference the smaller byte decides; without one, the shorter text comes first. */
  lemma {:induction false} LeAtFirstDifference(a: Text, b: Text, i: nat)
    requires i <= |a| && i <= |b| && a[..i] == b[..i]
    requires (i == |a| || i == |b|) || a[i] != b[i]
    ensures Le(a, b) <==> i == |a| || (i < |b| && a[i] < b[i])
    decreases i
  {
    if i > 0 {
      assert a[0] == a[..i][0] && b[0] == b[..i][0];
      assert a[1..][..i - 1] == a[..i][1..] && b[1..][..i - 1] == b[..i][1..];
      LeAtFirstDifference(a[1..], b[1..], i - 1);
    }
  }

  predicate PairLe(p: Pair, q: Pair) {
    if p.key == q.key then Le(p.val, q.val) else Le(p.key, q.key)
  }

  predicate Ordered(s: seq<Pair>) {
    forall i, j | 0 <= i < j < |s| :: PairLe(s[i], s[j])
  }

  predicate OrderedTexts(s: seq<Text>) {
    forall i, j | 0 <= i < j < |s| :: Le(s[i], s[j])
  }

  /** Sorting strings: an ordered permutation. */
  function SortTexts(s: seq<Text>): (r: seq<Text>)
    ensures OrderedTexts(r) && multiset(r) == multiset(s)
  {
    if s == [] then []
    else
      assert s == [s[0]] + s[1..];
      Insert(s[0], SortTexts(s[1..]))
  }

  function Insert(x: Text, s: seq<Text>): (r: seq<Text>)
    requires OrderedTexts(s)
    ensures OrderedTexts(r) && multiset(r) == multiset{x} + multiset(s)
  {
    InsertKeeps(x, s);
    if s == [] || Le(x, s[0]) then [x] + s
    else
      var tail := Insert(x, s[1..]);
      HeadKeeps(s[0], tail, multiset{x} + multiset(s[1..]));
      [s[0]] + tail
  }

  lemma InsertKeeps(x: Text, s: seq<Text>)
    requires OrderedTexts(s)
    ensures s == [] || Le(x, s[0]) ==> OrderedTexts([x] + s)
    ensures s != [] && !Le(x, s[0]) ==> forall y <- multiset{x} + multiset(s[1..]) :: Le(s[0], y)
    ensures s != [] ==> multiset(s) == multiset{s[0]} + multiset(s[1..])
  {
    if s != [] {
      assert s == [s[0]] + s[1..];
      LeTotal(x, s[0]);
      if Le(x, s[0]) {
        forall j | 0 <= j < |s|
          ensures Le(x, s[j])
        {
          if j > 0 {
            LeTransitive(x, s[0], s[j]);
          }
        }
      } else {
        forall y | y in s[1..]
          ensures Le(s[0], y)
        {
          var j :| 0 <= j < |s| - 1 && s[1..][j] == y;
          assert s[j + 1] == y;
        }
      }
    }
  }

  lemma HeadKeeps(x: Text, tail: seq<Text>, all: multiset<Text>)
    requires OrderedTexts(tail) && multiset(tail) == all && forall y <- all :: Le(x, y)
    ensures OrderedTexts([x] + tail)
  {
  }

  /** An order determines its permutation: two ordered arrangements of the same pairs are the same. */
  lemma {:induction false} OrderedUnique(s: seq<Pair>, t: seq<Pair>)
    requires Ordered(s) && Ordered(t) && multiset(s) == multiset(t)
    ensures s == t
  {
    assert |multiset(s)| == |s| && |multiset(t)| == |t|;
    if s != [] {
      SameHead(s, t);
      assert s == [s[0]] + s[1..] && t == [t[0]] + t[1..];
      assert multiset(s[1..]) == multiset(s) - multiset{s[0]};
      assert multiset(t[1..]) == multiset(t) - multiset{t[0]};
      OrderedUnique(s[1..], t[1..]);
    }
  }

  lemma SameHead(s: seq<Pair>, t: seq<Pair>)
    requires Ordered(s) && Ordered(t) && multiset(s) == multiset(t) && s != [] && t != []
    ensures s[0] == t[0]
  {
    assert s[0] in multiset(t) && t[0] in multiset(s);
    var i :| 0 <= i < |t| && t[i] == s[0];
    var j :| 0 <= j < |s| && s[j] == t[0];
    if s[0] != t[0] {
      assert PairLe(s[0], t[0]) && PairLe(t[0], s[0]);
      if s[0].key == t[0].key {
        LeAntisymmetric(s[0].val, t[0].val);
      } else {
        LeAntisymmetric(s[0].key, t[0].key);
      }
    }
  }

  // ---------- The key ----------

  function Line(p: Pair): Text {
    p.key + [EQUALS] + p.val
  }

  function Lines(s: seq<Pair>): (lines: seq<Text>)
    ensures |lines| == |s| && forall i | 0 <= i < |s| :: lines[i] == Line(s[i])
  {
    seq(|s|, i requires 0 <= i < |s| => Line(s[i]))
  }

  /** An ordered arrangement of the pairs. */
  predicate Arranged(s: seq<Pair>, pairs: seq<Pair>) {
    Ordered(s) && multiset(s) == multiset(pairs)
  }

  function KeyText(path: Text, s: seq<Pair>): Text
    requires s != []
  {
    path + [QUESTION] + Joined(Lines(s), AMPERSAND)
  }

  /** The key of a path and some pairs renders them by key, then by value. */
  ghost predicate IsKey(key: Text, path: Text, pairs: seq<Pair>) {
    exists s :: Arranged(s, pairs) && s != [] && key == KeyText(path, s)
  }

  /** The pairs of a key stand in ascending order of their keys, and those of one key in ascending order of their values. */
  lemma ArrangedAscends(s: seq<Pair>, pairs: seq<Pair>, i: nat, j: nat)
    requires Arranged(s, pairs) && i < j < |s|
    ensures Le(s[i].key, s[j].key)
    ensures s[i].key == s[j].key ==> Le(s[i].val, s[j].val)
  {
    if s[i].key == s[j].key {
      LeTotal(s[i].key, s[i].key);
    }
  }

  /** The key depends on nothing but the path and how often each pair occurs. */
  lemma SamePairsSameKey(path: Text, pairs: seq<Pair>, others: seq<Pair>, key: Text, otherKey: Text)
    requires multiset(pairs) == multiset(others)
    requires IsKey(key, path, pairs) && IsKey(otherKey, path, others)
    ensures key == otherKey
  {
    var s :| Arranged(s, pairs) && s != [] && key == KeyText(path, s);
    var t :| Arranged(t, others) && t != [] && otherKey == KeyText(path, t);
    OrderedUnique(s, t);
  }

  lemma {:induction false} DecodedAppends(a: seq<Text>, b: seq<Text>)
    ensures Decoded(a + b) == Decoded(a) + Decoded(b)
  {
    if a == [] {
      assert a + b == b;
    } else {
      assert (a + b)[1..] == a[1..] + b;
      DecodedAppends(a[1..], b);
    }
  }

  lemma {:induction false} DecodedPermutes(a: seq<Text>, b: seq<Text>)
    requires multiset(a) == multiset(b)
    ensures multiset(Decoded(a)) == multiset(Decoded(b))
    decreases |a|
  {
    if a == [] {
      assert |multiset(b)| == |b|;
    } else {
      var i := RemoveFirst(a, b);
      var before, after := b[..i], b[i + 1..];
      DecodedPermutes(a[1..], before + after);
      DecodedAppends(before, after);
      DecodedAppends(before, [a[0]] + after);
      assert a == [a[0]] + a[1..];
      DecodedAppends([a[0]], a[1..]);
      DecodedAppends([a[0]], after);
    }
  }

  /** Reordering the query does not change the key. */
  lemma ReorderedQuerySameKey(path: Text, query: Text, reordered: Text, key: Text, otherKey: Text)
    requires multiset(Split(query, AMPERSAND)) == multiset(Split(reordered, AMPERSAND))
    requires IsKey(key, path, Query(query)) && IsKey(otherKey, path, Query(reordered))
    ensures key == otherKey
  {
    DecodedPermutes(Split(query, AMPERSAND), Split(reordered, AMPERSAND));
    SamePairsSameKey(path, Query(query), Query(reordered), key, otherKey);
  }

  /** The key of a request URI: its path and its pairs rendered, or the URI itself when it holds no pairs. */
  ghost predicate HasKey(uri: Text, key: Text, other: Text -> Option<Url>) {
    match ParseRequestURI(uri, other)
    case None => false
    case Some(u) => if Query(u.rawQuery) == [] then key == uri else IsKey(key, u.path, Query(u.rawQuery))
  }

  // ---------- Computing the key ----------

  /** The pairs grouped by key, each group in the order of the query. */
  function Values(pairs: seq<Pair>): map<Text, seq<Text>> {
    if pairs == [] then map[]
    else
      var before, p := Values(pairs[..|pairs| - 1]), pairs[|pairs| - 1];
      before[p.key := (if p.key in before then before[p.key] else []) + [p.val]]
  }

  /** How often a pair is in the groups. */
  function CountIn(values: map<Text, seq<Text>>, p: Pair): nat {
    if p.key in values then multiset(values[p.key])[p.val] else 0
  }

  lemma {:induction false} GroupsHoldThePairs(pairs: seq<Pair>, p: Pair)
    ensures CountIn(Values(pairs), p) == multiset(pairs)[p]
    ensures Values(pairs) == map[] <==> pairs == []
  {
    if pairs != [] {
      var init, last := pairs[..|pairs| - 1], pairs[|pairs| - 1];
      GroupsHoldThePairs(init, p);
      CountWithLast(pairs, p);
      var vals := Values(pairs)[last.key];
      CountWithLast(vals, p.val);
      assert vals[..|vals| - 1] == if last.key in Values(init) then Values(init)[last.key] else [];
    }
  }

  function Group(key: Text, vals: seq<Text>): (s: seq<Pair>)
    ensures |s| == |vals| && forall i | 0 <= i < |s| :: s[i] == Pair(key, vals[i])
  {
    seq(|vals|, i requires 0 <= i < |vals| => Pair(key, vals[i]))
  }

  lemma {:induction false} GroupCounts(key: Text, vals: seq<Text>, p: Pair)
    ensures multiset(Group(key, vals))[p] == if p.key == key then multiset(vals)[p.val] else 0
  {
    if vals != [] {
      GroupCounts(key, vals[1..], p);
      CountWithFirst(vals, p.val);
      CountWithFirst(Group(key, vals), p);
      assert Group(key, vals)[1..] == Group(key, vals[1..]);
    }
  }

  /** The rendered pairs come group by group, the groups in the order of their keys. */
  ghost predicate Progress(s: seq<Pair>, values: map<Text, seq<Text>>, keys: seq<Text>) {
    && Ordered(s)
    && forall p :: multiset(s)[p] == if p.key in keys then CountIn(values, p) else 0
  }

  lemma NextGroup(s: seq<Pair>, values: map<Text, seq<Text>>, keys: seq<Text>, key: Text, vals: seq<Text>)
    requires Progress(s, values, keys) && key !in keys && key in values
    requires forall k <- keys :: Le(k, key)
    requires OrderedTexts(vals) && multiset(vals) == multiset(values[key])
    ensures Progress(s + Group(key, vals), values, keys + [key])
  {
    var group := Group(key, vals);
    forall p
      ensures multiset(s + group)[p] == if p.key in keys + [key] then CountIn(values, p) else 0
    {
      GroupCounts(key, vals, p);
    }
    forall i, j | 0 <= i < j < |s + group|
      ensures PairLe((s + group)[i], (s + group)[j])
    {
      if i < |s| <= j {
        assert s[i] in multiset(s);
      }
    }
  }

  /** The pairs in the groups, each as often as it is there. */
  ghost predicate FromGroups(s: seq<Pair>, values: map<Text, seq<Text>>) {
    forall p :: multiset(s)[p] == CountIn(values, p)
  }

  /** The loops over the groups: every key with its sorted values, in the order of the keys. */
  method QueryVals(values: map<Text, seq<Text>>) returns (queryVals: seq<Text>)
    ensures exists s :: Ordered(s) && FromGroups(s, values) && queryVals == Lines(s)
  {
    hide Ordered, OrderedTexts, FromGroups, Progress, CountIn, Le, Lines, Group;
    var queryKeys := SortedKeys(values);
    ghost var s: seq<Pair> := [];
    queryVals := [];
    NoGroups(values);
    for i := 0 to |queryKeys|
      invariant Progress(s, values, queryKeys[..i])
      invariant queryVals == Lines(s)
    {
      var queryKey := queryKeys[i];
      var vals := SortTexts(values[queryKey]);
      NextKey(queryKeys, i);
      NextGroup(s, values, queryKeys[..i], queryKey, vals);
      LinesAppend(s, Group(queryKey, vals));
      queryVals := AppendGroup(queryVals, queryKey, vals);
      s := s + Group(queryKey, vals);
    }
    AllGroups(s, values, queryKeys);
  }

  lemma NoGroups(values: map<Text, seq<Text>>)
    ensures Progress([], values, []) && Lines([]) == []
  {
  }

  lemma LinesAppend(s: seq<Pair>, t: seq<Pair>)
    ensures Lines(s + t) == Lines(s) + Lines(t)
  {
  }

  lemma NextKey(keys: seq<Text>, i: nat)
    requires i < |keys| && OrderedTexts(keys) && Distinct(keys)
    ensures keys[..i + 1] == keys[..i] + [keys[i]] && keys[i] !in keys[..i]
    ensures forall k <- keys[..i] :: Le(k, keys[i])
  {
  }

  lemma AllGroups(s: seq<Pair>, values: map<Text, seq<Text>>, keys: seq<Text>)
    requires Progress(s, values, keys[..|keys|]) && forall k :: k in keys <==> k in values
    ensures Ordered(s) && FromGroups(s, values)
  {
    assert keys[..|keys|] == keys;
  }

  method AppendGroup(lines: seq<Text>, key: Text, vals: seq<Text>) returns (queryVals: seq<Text>)
    ensures queryVals == lines + Lines(Group(key, vals))
  {
    queryVals := lines;
    for j := 0 to |vals|
      invariant queryVals == lines + Lines(Group(key, vals[..j]))
    {
      queryVals := queryVals + [key + [EQUALS] + vals[j]];
    }
    assert vals[..|vals|] == vals;
  }

  /** The keys in whichever order the map yields them, then sorted. */
  method SortedKeys(values: map<Text, seq<Text>>) returns (keys: seq<Text>)
    ensures OrderedTexts(keys) && (forall k :: k in keys <==> k in values)
    ensures Distinct(keys)
  {
    hide OrderedTexts;
    var unsorted: seq<Text>, todo := [], values.Keys;
    while todo != {}
      invariant todo <= values.Keys && Distinct(unsorted)
      invariant forall k :: k in unsorted <==> k in values && k !in todo
    {
      var key :| key in todo;
      todo := todo - {key};
      unsorted := unsorted + [key];
    }
    keys := SortTexts(unsorted);
    StillDistinct(unsorted, keys);
  }

  lemma StillDistinct(s: seq<Text>, t: seq<Text>)
    requires Distinct(s) && multiset(s) == multiset(t)
    ensures Distinct(t) && forall x :: x in s <==> x in t
  {
    forall x
      ensures x in s <==> x in t
    {
      assert x in s <==> x in multiset(s);
      assert x in t <==> x in multiset(t);
    }
    forall i, j | 0 <= i < j < |t|
      ensures t[i] != t[j]
    {
      DistinctCounts(s, t[i]);
      assert t == t[..j] + [t[j]] + t[j + 1..];
      assert t[..j][i] in multiset(t[..j]);
    }
  }

  /** The key that ignores the order of the query. A URI that does not parse is an error. */
  method RequestUriIgnoreQueryOrder(requestURI: Text, other: Text -> Option<Url>) returns (key: Option<Text>)
    ensures key == None <==> ParseRequestURI(requestURI, other) == None
    ensures key != None ==> HasKey(requestURI, key.value, other)
  {
    hide ParseRequestURI, Query, Values, CountIn, Ordered, FromGroups, Lines;
    var parsedUrl := ParseRequestURI(requestURI, other);
    if parsedUrl == None {
      return None;
    }
    ghost var pairs := Query(parsedUrl.value.rawQuery);
    var values := Values(Query(parsedUrl.value.rawQuery));
    GroupsHoldThePairs(pairs, Pair([], []));
    if values == map[] {
      return Some(requestURI);
    }
    var queryVals := QueryVals(values);
    ghost var s :| Ordered(s) && FromGroups(s, values) && queryVals == Lines(s);
    GroupsArranged(s, pairs);
    key := Some(parsedUrl.value.path + [QUESTION] + Joined(queryVals, AMPERSAND));
  }

  lemma GroupsArranged(s: seq<Pair>, pairs: seq<Pair>)
    requires Ordered(s) && FromGroups(s, Values(pairs)) && pairs != []
    ensures Arranged(s, pairs) && s != []
  {
    forall p
      ensures multiset(s)[p] == multiset(pairs)[p]
    {
      GroupsHoldThePairs(pairs, p);
    }
    assert |multiset(s)| == |s| && |multiset(pairs)| == |pairs|;
  }
}
