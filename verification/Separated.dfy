/** Texts joined by a separator and split at it. */
module Separated {
  import opened Varint

  type Text = seq<byte>

  function Until(s: Text, sep: byte): (k: nat)
    ensures k <= |s| && sep !in s[..k] && (k < |s| ==> s[k] == sep)
  {
    if s == [] || s[0] == sep then 0
    else
      var k := 1 + Until(s[1..], sep);
      assert s[..k] == [s[0]] + s[1..][..k - 1];
      k
  }

  function Split(s: Text, sep: byte): (segments: seq<Text>)
    ensures |segments| > 0 && segments[0] == s[..Until(s, sep)]
    decreases |s|
  {
    var k := Until(s, sep);
    if k == |s| then [s] else [s[..k]] + Split(s[k + 1..], sep)
  }

  function Joined(segments: seq<Text>, sep: byte): Text
    requires segments != []
  {
    if |segments| == 1 then segments[0] else segments[0] + [sep] + Joined(segments[1..], sep)
  }

  /** Splitting is undone by joining, and no segment holds the separator: this determines the segments. */
  lemma {:induction false} SplitJoins(s: Text, sep: byte)
    ensures Joined(Split(s, sep), sep) == s
    ensures forall i | 0 <= i < |Split(s, sep)| :: sep !in Split(s, sep)[i]
    decreases |s|
  {
    var k := Until(s, sep);
    if k < |s| {
      var rest := s[k + 1..];
      SplitJoins(rest, sep);
      assert Split(s, sep)[1..] == Split(rest, sep);
      assert s == s[..k] + [sep] + rest;
    }
  }

  lemma {:induction false} JoinedSplits(segments: seq<Text>, sep: byte)
    requires segments != [] && forall i | 0 <= i < |segments| :: sep !in segments[i]
    ensures Split(Joined(segments, sep), sep) == segments
  {
    if |segments| > 1 {
      JoinedSplits(segments[1..], sep);
      SplitAt(segments[0], Joined(segments[1..], sep), sep);
      assert segments == [segments[0]] + segments[1..];
    } else {
      UntilIsFirst(segments[0], sep, |segments[0]|);
      assert segments == [segments[0]];
    }
  }

  lemma SplitAt(first: Text, rest: Text, sep: byte)
    requires sep !in first
    ensures Split(first + [sep] + rest, sep) == [first] + Split(rest, sep)
  {
    var s, k := first + [sep] + rest, |first|;
    assert s[..k] == first && s[k] == sep && s[k + 1..] == rest;
    UntilIsFirst(s, sep, k);
  }

  lemma UntilIsFirst(s: Text, sep: byte, k: nat)
    requires k <= |s| && sep !in s[..k] && (k < |s| ==> s[k] == sep)
    ensures Until(s, sep) == k
  {
  }
}
