/** What a cache key tells apart, among all requests that can be made. */
module CacheIdentity {
  import opened Wrappers
  import opened Varint
  import opened Separated
  import opened Uri
  import opened CacheKey

  // ---------- Among requests with plain parameters ----------

  predicate PlainPair(p: Pair) {
    EQUALS !in p.key && AMPERSAND !in p.key && AMPERSAND !in p.val
  }

  predicate Plain(path: Text, pairs: seq<Pair>) {
    QUESTION !in path && forall p <- pairs :: PlainPair(p)
  }

  /** Among requests with parameters whose parts hold no separator that could end them, the key tells the path and the pairs: equal keys mean the same request. */
  lemma PlainKeysIdentify(path: Text, pairs: seq<Pair>, otherPath: Text, others: seq<Pair>, key: Text, otherKey: Text)
    requires Plain(path, pairs) && Plain(otherPath, others)
    requires IsKey(key, path, pairs) && IsKey(otherKey, otherPath, others)
    ensures key == otherKey <==> path == otherPath && multiset(pairs) == multiset(others)
  {
    if path == otherPath && multiset(pairs) == multiset(others) {
      SamePairsSameKey(path, pairs, others, key, otherKey);
    }
    if key == otherKey {
      var s :| Arranged(s, pairs) && s != [] && key == KeyText(path, s);
      var t :| Arranged(t, others) && t != [] && otherKey == KeyText(otherPath, t);
      Parts(path, Joined(Lines(s), AMPERSAND), otherPath, Joined(Lines(t), AMPERSAND), QUESTION);
      PlainArranged(path, s, pairs);
      PlainArranged(otherPath, t, others);
      LinesIdentify(s, t);
    }
  }

  lemma Parts(a: Text, b: Text, c: Text, d: Text, sep: byte)
    requires sep !in a && sep !in c && a + [sep] + b == c + [sep] + d
    ensures a == c && b == d
  {
    var s := a + [sep] + b;
    assert s[..|a|] == a && s[|a|] == sep && s[|a| + 1..] == b;
    assert s[..|c|] == c && s[|c|] == sep && s[|c| + 1..] == d;
    UntilIsFirst(s, sep, |a|);
    UntilIsFirst(s, sep, |c|);
  }

  lemma PlainArranged(path: Text, s: seq<Pair>, pairs: seq<Pair>)
    requires Plain(path, pairs) && Arranged(s, pairs)
    ensures forall i | 0 <= i < |s| :: PlainPair(s[i])
  {
    forall i | 0 <= i < |s|
      ensures PlainPair(s[i])
    {
      assert s[i] in multiset(s);
    }
  }

  lemma LinesIdentify(s: seq<Pair>, t: seq<Pair>)
    requires s != [] && t != [] && Joined(Lines(s), AMPERSAND) == Joined(Lines(t), AMPERSAND)
    requires forall i | 0 <= i < |s| :: PlainPair(s[i])
    requires forall i | 0 <= i < |t| :: PlainPair(t[i])
    ensures s == t
  {
    JoinedSplits(Lines(s), AMPERSAND);
    JoinedSplits(Lines(t), AMPERSAND);
    assert Lines(s) == Lines(t);
    forall i | 0 <= i < |s|
      ensures s[i] == t[i]
    {
      assert Line(s[i]) == Lines(s)[i] == Lines(t)[i] == Line(t[i]);
      Parts(s[i].key, s[i].val, t[i].key, t[i].val, EQUALS);
    }
  }

  // ---------- Among all requests ----------

  /** One pair, whose rendering with the path has only one '?' that could end a path and only one '='. */
  predicate Distinctive(path: Text, pairs: seq<Pair>) {
    |pairs| == 1 && QUESTION !in path && QUESTION !in pairs[0].key && EQUALS !in pairs[0].key && EQUALS !in pairs[0].val
  }

  /** Two requests for the same path with the same parameters, in any order. */
  predicate SameRequest(u: Url, v: Url) {
    u.path == v.path && multiset(Query(u.rawQuery)) == multiset(Query(v.rawQuery))
  }

  /** All requests with that key are the same request. */
  ghost predicate Identifies(uri: Text, key: Text, other: Text -> Option<Url>)
    requires HasKey(uri, key, other)
  {
    forall uri' | HasKey(uri', key, other) :: SameRequest(ParseRequestURI(uri, other).value, ParseRequestURI(uri', other).value)
  }

  /** The text is itself a request URI, of a request without parameters. */
  predicate Bare(uri: Text, other: Text -> Option<Url>) {
    match ParseRequestURI(uri, other)
    case None => false
    case Some(u) => Query(u.rawQuery) == []
  }

  /** An '=' behind the first '?'. */
  predicate LooksParametrised(uri: Text) {
    var k := Until(uri, QUESTION);
    k < |uri| && EQUALS in uri[k + 1..]
  }

  /**
   When a key belongs to one request only. With parameters: there is one, without the separators that could split it elsewhere,
   and the key sent as a URI is not a request without parameters. Without parameters: the URI does not look as if it had any.
   */
  predicate Alone(uri: Text, key: Text, other: Text -> Option<Url>)
    requires ParseRequestURI(uri, other) != None
  {
    var u := ParseRequestURI(uri, other).value;
    if Bare(uri, other) then !LooksParametrised(uri)
    else Distinctive(u.path, Query(u.rawQuery)) && !Bare(key, other)
  }

  /** Among all requests that can be made, a key belongs to one alone if and only if that holds. */
  lemma KeyIdentifiesIff(uri: Text, key: Text, other: Text -> Option<Url>)
    requires Rooted(uri) && HasKey(uri, key, other)
    ensures Identifies(uri, key, other) <==> Alone(uri, key, other)
  {
    hide ParseRequestURI, Query, IsKey, LooksParametrised;
    if Alone(uri, key, other) {
      forall uri' | HasKey(uri', key, other)
        ensures SameRequest(ParseRequestURI(uri, other).value, ParseRequestURI(uri', other).value)
      {
        AloneIsSame(uri, uri', key, other);
      }
    } else {
      var uri' := Collides(uri, key, other);
    }
  }

  lemma AloneIsSame(uri: Text, uri': Text, key: Text, other: Text -> Option<Url>)
    requires HasKey(uri, key, other) && HasKey(uri', key, other) && Alone(uri, key, other)
    ensures SameRequest(ParseRequestURI(uri, other).value, ParseRequestURI(uri', other).value)
  {
    hide ParseRequestURI, Query, IsKey, Distinctive, LooksParametrised;
    var u, u' := ParseRequestURI(uri, other).value, ParseRequestURI(uri', other).value;
    if Bare(uri, other) && !Bare(uri', other) {
      KeyLooksParametrised(u'.path, Query(u'.rawQuery), key);
    } else if !Bare(uri, other) && !Bare(uri', other) {
      DistinctiveIsAlone(u.path, Query(u.rawQuery), u'.path, Query(u'.rawQuery), key);
    }
  }

  lemma KeyLooksParametrised(path: Text, pairs: seq<Pair>, key: Text)
    requires IsKey(key, path, pairs)
    ensures LooksParametrised(key)
  {
    hide Arranged, Lines, Joined, LooksParametrised;
    var s :| Arranged(s, pairs) && s != [] && key == KeyText(path, s);
    var text := Joined(Lines(s), AMPERSAND);
    HoldsEquals(s);
    var i :| 0 <= i < |text| && text[i] == EQUALS;
    assert key[|path|] == QUESTION && key[|path| + 1 + i] == EQUALS;
    Behind(key, |path|, |path| + 1 + i);
  }

  lemma Behind(key: Text, i: nat, j: nat)
    requires i < j < |key| && key[i] == QUESTION && key[j] == EQUALS
    ensures LooksParametrised(key)
  {
    var k := Until(key, QUESTION);
    UntilAtMost(key, QUESTION, i);
    assert key[k + 1..][j - k - 1] == EQUALS;
  }

  lemma {:induction false} UntilAtMost(s: Text, sep: byte, i: nat)
    requires i < |s| && s[i] == sep
    ensures Until(s, sep) <= i
  {
    if s[0] != sep {
      UntilAtMost(s[1..], sep, i - 1);
    }
  }

  /** Where that does not hold, another request has the same key. */
  lemma Collides(uri: Text, key: Text, other: Text -> Option<Url>) returns (uri': Text)
    requires Rooted(uri) && HasKey(uri, key, other) && !Alone(uri, key, other)
    ensures HasKey(uri', key, other) && !SameRequest(ParseRequestURI(uri, other).value, ParseRequestURI(uri', other).value)
  {
    hide ParseRequestURI, Query, IsKey, Distinctive;
    var u := ParseRequestURI(uri, other).value;
    var pairs := Query(u.rawQuery);
    RootedPath(uri, other);
    if Bare(uri, other) {
      var k := Until(uri, QUESTION);
      assert uri == uri[..k] + [QUESTION] + uri[k + 1..];
      var pairs' := OnePair(uri[..k], uri[k + 1..]);
      uri' := OnePairRequest(uri[..k], pairs'[0], other);
      assert pairs' == [pairs'[0]];
      assert |multiset(pairs')| == 1 && |multiset(pairs)| == 0;
    } else if !Distinctive(u.path, pairs) {
      var path', pairs' := SeparatorsCollide(u.path, pairs, key);
      uri' := OnePairRequest(path', pairs'[0], other);
      assert pairs' == [pairs'[0]];
    } else {
      uri' := key;
      assert |multiset(pairs)| == |pairs|;
    }
  }

  /** path?name=%25 has one distinctive pair, and the same key as path?name=%, which has none, because its piece does not decode. */
  lemma UndecodedCollides(path: Text, name: Text, other: Text -> Option<Url>) returns (uri: Text)
    requires Rooted(path) && Unreserved(path) && Unreserved(name)
    ensures var key := path + [QUESTION] + Line(Pair(name, [PERCENT]));
            && HasKey(uri, key, other) && !Bare(uri, other)
            && Distinctive(path, Query(ParseRequestURI(uri, other).value.rawQuery))
            && HasKey(key, key, other) && Bare(key, other)
  {
    hide Unescape, WritePair, Query, Line, IsKey;
    var p := Pair(name, [PERCENT]);
    UndecodedPiece(name);
    UnreservedRead(path, false);
    var query := Line(p);
    var key := path + [QUESTION] + query;
    UntilIsFirst(key, QUESTION, |path|);
    assert key[..|path|] == path && key[|path| + 1..] == query;
    assert forall c <- key :: c in path || c == QUESTION || c in query;
    uri := OnePairRequest(path, p, other);
    OnePairKey(path, p);
  }

  lemma OnePairKey(path: Text, p: Pair)
    ensures IsKey(path + [QUESTION] + Line(p), path, [p])
  {
    var pairs := OnePairAt(path, Line(p), |p.key|);
    assert Line(p)[..|p.key|] == p.key && Line(p)[|p.key| + 1..] == p.val;
  }

  lemma UndecodedPiece(name: Text)
    requires Unreserved(name)
    ensures var piece := Line(Pair(name, [PERCENT])); Query(piece) == [] && forall c <- piece :: !Control(c)
  {
    hide DecodePiece;
    var piece := Line(Pair(name, [PERCENT]));
    PercentAlone(name);
    UntilIsFirst(piece, AMPERSAND, |piece|);
    assert Split(piece, AMPERSAND) == [piece];
    assert Decoded([piece][1..]) == [];
  }

  lemma PercentAlone(name: Text)
    requires Unreserved(name)
    ensures DecodePiece(Line(Pair(name, [PERCENT]))) == None
  {
    var piece := Line(Pair(name, [PERCENT]));
    UntilIsFirst(piece, EQUALS, |name|);
    assert piece[|name| + 1..] == [PERCENT];
    assert Unescape([PERCENT], true) == None;
  }

  /** The text of a key that is not distinctive is also that of another path, or of one pair split elsewhere. */
  lemma SeparatorsCollide(path: Text, pairs: seq<Pair>, key: Text) returns (path': Text, pairs': seq<Pair>)
    requires Rooted(path) && IsKey(key, path, pairs) && !Distinctive(path, pairs)
    ensures Rooted(path') && |pairs'| == 1 && IsKey(key, path', pairs') && (path' != path || multiset(pairs') != multiset(pairs))
  {
    var s :| Arranged(s, pairs) && s != [] && key == KeyText(path, s);
    assert |multiset(s)| == |s| && |multiset(pairs)| == |pairs|;
    var text := Joined(Lines(s), AMPERSAND);
    HoldsEquals(s);
    if QUESTION in path {
      path', pairs' := ShorterPath(path, text);
    } else if |pairs| > 1 {
      path' := path;
      pairs' := OnePair(path, text);
      assert |multiset(pairs')| == 1;
    } else {
      OneDistinct(s, pairs);
      assert Lines(s) == [Line(s[0])];
      path', pairs' := OnePairCollides(path, s[0]);
    }
  }

  lemma ShorterPath(path: Text, text: Text) returns (path': Text, pairs': seq<Pair>)
    requires Rooted(path) && QUESTION in path && EQUALS in text
    ensures Rooted(path') && |pairs'| == 1 && IsKey(path + [QUESTION] + text, path', pairs') && path' != path
  {
    var k := Until(path, QUESTION);
    UntilFinds(path, QUESTION);
    path' := path[..k];
    var rest := path[k + 1..] + [QUESTION] + text;
    assert path == path' + [QUESTION] + path[k + 1..];
    assert path + [QUESTION] + text == path' + [QUESTION] + rest;
    assert EQUALS in rest;
    pairs' := OnePair(path', rest);
    assert |path'| < |path|;
  }

  lemma OneDistinct(s: seq<Pair>, pairs: seq<Pair>)
    requires |s| == 1 && multiset(s) == multiset(pairs)
    ensures pairs == s
  {
    assert |multiset(s)| == |s| && |multiset(pairs)| == |pairs|;
    assert pairs[0] in multiset(pairs);
  }

  lemma OnePairCollides(path: Text, p: Pair) returns (path': Text, pairs': seq<Pair>)
    requires Rooted(path) && (QUESTION in p.key || EQUALS in p.key || EQUALS in p.val)
    ensures Rooted(path') && |pairs'| == 1
    ensures IsKey(path + [QUESTION] + Line(p), path', pairs') && (path' != path || multiset(pairs') != multiset([p]))
  {
    if QUESTION in p.key {
      path', pairs' := LongerPath(path, p);
    } else {
      path' := path;
      var k := if EQUALS in p.key then Until(p.key, EQUALS) else |p.key| + 1 + Until(p.val, EQUALS);
      UntilFinds(if EQUALS in p.key then p.key else p.val, EQUALS);
      pairs' := OnePairAt(path, Line(p), k);
      assert |pairs'[0].key| == k != |p.key|;
      assert pairs'[0] in multiset(pairs') && pairs'[0] !in multiset([p]);
    }
  }

  lemma LongerPath(path: Text, p: Pair) returns (path': Text, pairs': seq<Pair>)
    requires Rooted(path) && QUESTION in p.key
    ensures Rooted(path') && |pairs'| == 1 && IsKey(path + [QUESTION] + Line(p), path', pairs') && path' != path
  {
    var k := Until(p.key, QUESTION);
    UntilFinds(p.key, QUESTION);
    path' := path + [QUESTION] + p.key[..k];
    var rest := p.key[k + 1..] + [EQUALS] + p.val;
    assert p.key == p.key[..k] + [QUESTION] + p.key[k + 1..];
    assert path + [QUESTION] + Line(p) == path' + [QUESTION] + rest;
    assert EQUALS in rest;
    pairs' := OnePair(path', rest);
    assert |path'| > |path|;
  }

  lemma UntilFinds(s: Text, sep: byte)
    requires sep in s
    ensures Until(s, sep) < |s|
  {
    assert s[..|s|] == s;
  }

  /** Any text with '=' in it is the rendering of one pair. */
  lemma OnePair(path: Text, text: Text) returns (pairs: seq<Pair>)
    requires EQUALS in text
    ensures |pairs| == 1 && IsKey(path + [QUESTION] + text, path, pairs)
  {
    UntilFinds(text, EQUALS);
    pairs := OnePairAt(path, text, Until(text, EQUALS));
  }

  lemma OnePairAt(path: Text, text: Text, k: nat) returns (pairs: seq<Pair>)
    requires k < |text| && text[k] == EQUALS
    ensures pairs == [Pair(text[..k], text[k + 1..])] && IsKey(path + [QUESTION] + text, path, pairs)
  {
    pairs := [Pair(text[..k], text[k + 1..])];
    assert text == text[..k] + [EQUALS] + text[k + 1..];
    assert Lines(pairs) == [text];
    assert Arranged(pairs, pairs);
    assert KeyText(path, pairs) == path + [QUESTION] + text;
  }

  /** Every pair renders with an '='. */
  lemma {:induction false} HoldsEquals(s: seq<Pair>)
    requires s != []
    ensures multiset(Joined(Lines(s), AMPERSAND))[EQUALS] >= |s| && EQUALS in Joined(Lines(s), AMPERSAND)
  {
    var p := s[0];
    assert multiset(Line(p)) == multiset(p.key) + multiset{EQUALS} + multiset(p.val);
    if |s| > 1 {
      HoldsEquals(s[1..]);
      assert Lines(s)[1..] == Lines(s[1..]);
      var rest := Joined(Lines(s[1..]), AMPERSAND);
      assert multiset(Line(p) + [AMPERSAND] + rest) == multiset(Line(p)) + multiset{AMPERSAND} + multiset(rest);
    }
    assert EQUALS in multiset(Joined(Lines(s), AMPERSAND));
  }

  lemma DistinctiveIsAlone(path: Text, pairs: seq<Pair>, path': Text, pairs': seq<Pair>, key: Text)
    requires Distinctive(path, pairs) && IsKey(key, path, pairs) && IsKey(key, path', pairs')
    ensures path' == path && multiset(pairs') == multiset(pairs)
  {
    var s :| Arranged(s, pairs) && s != [] && key == KeyText(path, s);
    var t: seq<Pair> :| Arranged(t, pairs') && t != [] && key == KeyText(path', t);
    OneDistinct(pairs, s);
    var p, text := pairs[0], Joined(Lines(t), AMPERSAND);
    assert Lines(s) == [Line(p)];
    HoldsEquals(t);
    SamePath(path, p, path', text);
    Parts(path, Line(p), path', text, QUESTION);
    CountEquals(p);
    assert |t| == 1;
    assert Lines(t) == [Line(t[0])];
    CountEquals(t[0]);
    Parts(p.key, p.val, t[0].key, t[0].val, EQUALS);
    assert t == [p] == pairs;
  }

  lemma CountEquals(p: Pair)
    ensures multiset(Line(p))[EQUALS] == multiset(p.key)[EQUALS] + 1 + multiset(p.val)[EQUALS]
    ensures multiset(p.key)[EQUALS] == 0 <==> EQUALS !in p.key
    ensures multiset(p.val)[EQUALS] == 0 <==> EQUALS !in p.val
  {
    assert multiset(Line(p)) == multiset(p.key) + multiset{EQUALS} + multiset(p.val);
  }

  /** A path that ended later would leave no '=' behind it. */
  lemma SamePath(path: Text, p: Pair, path': Text, text: Text)
    requires QUESTION !in path && QUESTION !in p.key && EQUALS !in p.val && EQUALS in text
    requires path + [QUESTION] + Line(p) == path' + [QUESTION] + text
    ensures QUESTION !in path'
  {
    var key := path + [QUESTION] + Line(p);
    assert key[|path'|] == QUESTION && key[|path'| + 1..] == text;
    var e := |path| + 1 + |p.key|;
    assert forall i | 0 <= i < |path| :: key[i] == path[i];
    assert forall i | |path| < i < e :: key[i] == p.key[i - |path| - 1];
    assert key[e] == EQUALS;
    assert forall i | e < i < |key| :: key[i] == p.val[i - e - 1];
    var i :| 0 <= i < |text| && text[i] == EQUALS;
    assert key[|path'| + 1 + i] == EQUALS;
    assert |path'| == |path|;
    assert path' == key[..|path|] == path;
  }
}
