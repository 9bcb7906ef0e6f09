/** Topic validation: segments tested one by one, against a specification over the characters of the topic. */
module Topic {
  import opened Varint
  import opened Separated

  const NUL: byte := 0x00
  const HASH: byte := 0x23
  const DOLLAR: byte := 0x24
  const PLUS: byte := 0x2B
  const SLASH: byte := 0x2F

  const MAX_TOPIC_LEVELS := 9
  const MAX_TOPIC_LENGTH := 255

  // ---------- Counting levels ----------

  function Slashes(s: Text): nat {
    if s == [] then 0 else (if s[0] == SLASH then 1 else 0) + Slashes(s[1..])
  }

  /** There is one level more than there are slashes. */
  lemma {:induction false} LevelsAreSlashes(s: Text)
    ensures |Split(s, SLASH)| == Slashes(s) + 1
    decreases |s|
  {
    var k := Until(s, SLASH);
    SlashesBefore(s, k);
    if k < |s| {
      LevelsAreSlashes(s[k + 1..]);
      assert s[k..][0] == SLASH && s[k..][1..] == s[k + 1..];
    } else {
      assert s[k..] == [];
    }
  }

  lemma {:induction false} SlashesBefore(s: Text, k: nat)
    requires k <= |s| && SLASH !in s[..k]
    ensures Slashes(s) == Slashes(s[k..])
  {
    if k > 0 {
      assert s[..k][0] != SLASH;
      assert s[1..][..k - 1] == s[1..k];
      assert SLASH !in s[1..k] by {
        assert forall j | 0 <= j < k - 1 :: s[1..k][j] == s[..k][j + 1];
      }
      SlashesBefore(s[1..], k - 1);
      assert s[1..][k - 1..] == s[k..];
    }
  }

  // ---------- The specification ----------

  predicate Wild(c: byte) { c == PLUS || c == HASH }

  predicate HasWild(s: Text) { exists i :: 0 <= i < |s| && Wild(s[i]) }

  /** A wildcard stands alone in its level, and '#' ends the topic. */
  predicate WildAt(s: Text, i: nat)
    requires i < |s| && Wild(s[i])
  {
    && (i == 0 || s[i - 1] == SLASH)
    && (i + 1 == |s| || (s[i + 1] == SLASH && s[i] != HASH))
  }

  predicate LevelsValid(s: Text, wildcard: bool) {
    && Slashes(s) < MAX_TOPIC_LEVELS
    && WildcardsValid(s, wildcard)
  }

  predicate WildcardsValid(s: Text, wildcard: bool) {
    forall i | 0 <= i < |s| && Wild(s[i]) :: wildcard && WildAt(s, i)
  }

  /** With system topics the first level must be one of them; without, it must hold no wildcard. */
  predicate SystemLevel(head: Text, sysTopics: set<Text>) {
    if sysTopics == {} then !HasWild(head) else head in sysTopics
  }

  /** What makes a topic valid, by its characters. A first level that starts with '$' must be followed by others and does not count. */
  predicate ValidTopic(topic: Text, wildcard: bool, sysTopics: set<Text>) {
    && 1 <= |topic| <= MAX_TOPIC_LENGTH
    && NUL !in topic
    && if topic[0] == DOLLAR then
         Until(topic, SLASH) < |topic| && SystemLevel(topic[..Until(topic, SLASH)], sysTopics) && LevelsValid(topic[Until(topic, SLASH) + 1..], wildcard)
       else
         LevelsValid(topic, wildcard)
  }

  /** The test of one segment. */
  predicate SegmentValid(segment: Text, isLast: bool, wildcard: bool) {
    && !(|segment| > 1 && HasWild(segment))
    && !(!wildcard && (segment == [HASH] || segment == [PLUS]))
    && !(segment == [HASH] && !isLast)
  }

  predicate SegmentsValid(segments: seq<Text>, wildcard: bool) {
    forall i | 0 <= i < |segments| :: SegmentValid(segments[i], i == |segments| - 1, wildcard)
  }

  /** Testing the segments is testing the characters. */
  lemma {:induction false} SegmentsAreCharacters(s: Text, wildcard: bool)
    ensures SegmentsValid(Split(s, SLASH), wildcard) <==> WildcardsValid(s, wildcard)
    decreases |s|
  {
    var k := Until(s, SLASH);
    if k == |s| {
      assert s[..k] == s;
      OneSegment(s, wildcard);
    } else {
      var rest := s[k + 1..];
      SegmentsAreCharacters(rest, wildcard);
      SegmentThenRest(s[..k], rest, wildcard);
      assert s == s[..k] + [SLASH] + rest;
      FirstThenOthers(s[..k], Split(rest, SLASH), wildcard);
    }
  }

  lemma FirstThenOthers(first: Text, others: seq<Text>, wildcard: bool)
    requires others != []
    ensures SegmentsValid([first] + others, wildcard) <==> SegmentValid(first, false, wildcard) && SegmentsValid(others, wildcard)
  {
    var all := [first] + others;
    assert all[0] == first && forall i | 0 <= i < |others| :: all[i + 1] == others[i];
  }

  lemma OneSegment(s: Text, wildcard: bool)
    requires SLASH !in s
    ensures SegmentValid(s, true, wildcard) <==> WildcardsValid(s, wildcard)
  {
    if |s| == 1 {
      assert s == [s[0]];
    }
  }

  lemma SegmentThenRest(first: Text, rest: Text, wildcard: bool)
    requires SLASH !in first
    ensures WildcardsValid(first + [SLASH] + rest, wildcard) <==>
            SegmentValid(first, false, wildcard) && WildcardsValid(rest, wildcard)
  {
    var s, k := first + [SLASH] + rest, |first|;
    assert forall i | 0 <= i < k :: s[i] == first[i];
    assert forall i | 0 <= i < |rest| :: s[k + 1 + i] == rest[i];
    if k == 1 {
      assert first == [s[0]];
    }
  }

  /** Turning wildcards off rejects exactly the topics with a wildcard after the system level. */
  lemma WildcardsOff(topic: Text, sysTopics: set<Text>)
    ensures ValidTopic(topic, false, sysTopics) <==>
            ValidTopic(topic, true, sysTopics) &&
            !HasWild(if topic[0] == DOLLAR then topic[Until(topic, SLASH) + 1..] else topic)
  {
  }

  /** Without system topics, or when none of them holds a wildcard, that is a wildcard anywhere. */
  lemma WildcardsOffAnywhere(topic: Text, sysTopics: set<Text>)
    requires forall t <- sysTopics :: !HasWild(t)
    ensures ValidTopic(topic, false, sysTopics) <==> ValidTopic(topic, true, sysTopics) && !HasWild(topic)
  {
    WildcardsSwitchIff(sysTopics);
    assert WildcardsSwitch(topic, sysTopics);
  }

  /** A system topic that can be the first level of a valid topic, and holds a wildcard. */
  predicate WildSystemTopic(t: Text) {
    HasWild(t) && t[0] == DOLLAR && SLASH !in t && NUL !in t && |t| < MAX_TOPIC_LENGTH
  }

  ghost predicate WildcardsSwitch(topic: Text, sysTopics: set<Text>) {
    ValidTopic(topic, false, sysTopics) <==> ValidTopic(topic, true, sysTopics) && !HasWild(topic)
  }

  /** The law fails where a system topic can bring its own wildcard in: it is accepted though wildcards are off. */
  lemma SystemTopicWithWildcard(t: Text, sysTopics: set<Text>)
    requires t in sysTopics && WildSystemTopic(t)
    ensures ValidTopic(t + [SLASH], false, sysTopics) && HasWild(t + [SLASH])
  {
    var topic := t + [SLASH];
    assert topic[..|t|] == t && topic[|t| + 1..] == [];
    UntilIsFirst(topic, SLASH, |t|);
    var i :| 0 <= i < |t| && Wild(t[i]);
    assert Wild(topic[i]);
  }

  /** For every topic to be accepted with wildcards off iff it is accepted with them on and holds none, it takes exactly that no such system topic is there. */
  lemma WildcardsSwitchIff(sysTopics: set<Text>)
    ensures (forall topic :: WildcardsSwitch(topic, sysTopics)) <==> (forall t <- sysTopics :: !WildSystemTopic(t))
  {
    forall t | t in sysTopics && WildSystemTopic(t)
      ensures !WildcardsSwitch(t + [SLASH], sysTopics)
    {
      SystemTopicWithWildcard(t, sysTopics);
    }
    if forall t <- sysTopics :: !WildSystemTopic(t) {
      forall topic
        ensures WildcardsSwitch(topic, sysTopics)
      {
        WildcardsOff(topic, sysTopics);
        if ValidTopic(topic, true, sysTopics) && topic[0] == DOLLAR {
          PlainSystemLevel(topic, sysTopics);
          WildIsBehind(topic, Until(topic, SLASH));
        }
      }
    }
  }

  /** The first level of a valid topic holds no wildcard when no system topic brings one in. */
  lemma PlainSystemLevel(topic: Text, sysTopics: set<Text>)
    requires ValidTopic(topic, true, sysTopics) && topic[0] == DOLLAR
    requires forall t <- sysTopics :: !WildSystemTopic(t)
    ensures !HasWild(topic[..Until(topic, SLASH)])
  {
    var k := Until(topic, SLASH);
    var head := topic[..k];
    assert k > 0 && head[0] == DOLLAR;
    assert NUL !in head;
  }

  lemma WildIsBehind(topic: Text, k: nat)
    requires k < |topic| && topic[k] == SLASH && !HasWild(topic[..k])
    ensures HasWild(topic) <==> HasWild(topic[k + 1..])
  {
    var head, rest := topic[..k], topic[k + 1..];
    assert forall i | 0 <= i < k :: topic[i] == head[i];
    assert forall i | 0 <= i < |rest| :: topic[k + 1 + i] == rest[i];
    if HasWild(topic) {
      var i :| 0 <= i < |topic| && Wild(topic[i]);
      assert Wild(rest[i - (k + 1)]);
    }
  }

  /** Without '$' in front and without wildcards, only the length, NUL and the number of levels count. */
  lemma PlainTopics(topic: Text, wildcard: bool, sysTopics: set<Text>)
    requires !HasWild(topic) && (topic != [] ==> topic[0] != DOLLAR)
    ensures ValidTopic(topic, wildcard, sysTopics) <==> 1 <= |topic| <= 255 && NUL !in topic && |Split(topic, SLASH)| <= 9
  {
    LevelsAreSlashes(topic);
  }

  /** Behind a first level with '$' nine more levels may follow, and one must; the first is free of wildcards, or one of the system topics if there are any. */
  lemma SystemTopics(head: Text, rest: Text, wildcard: bool, sysTopics: set<Text>)
    requires head != [] && head[0] == DOLLAR && SLASH !in head && !HasWild(rest)
    ensures !ValidTopic(head, wildcard, sysTopics)
    ensures ValidTopic(head + [SLASH] + rest, wildcard, sysTopics) <==>
              |head| + 1 + |rest| <= 255 && NUL !in head && NUL !in rest && |Split(rest, SLASH)| <= 9 &&
              if sysTopics == {} then !HasWild(head) else head in sysTopics
  {
    var topic := head + [SLASH] + rest;
    UntilIsFirst(head, SLASH, |head|);
    UntilIsFirst(topic, SLASH, |head|);
    assert topic[..|head|] == head && topic[|head| + 1..] == rest;
    LevelsAreSlashes(rest);
  }

  // ---------- The check ----------

  method CheckTopicWith(topic: Text, wildcard: bool, sysTopics: set<Text>) returns (ok: bool)
    ensures ok <==> ValidTopic(topic, wildcard, sysTopics)
  {
    if topic == [] {
      return false;
    }
    if |topic| > MAX_TOPIC_LENGTH || NUL in topic {
      return false;
    }
    hide Split, Until, WildcardsValid, SegmentsValid;
    var segments := Split(topic, SLASH);
    ghost var body := topic;
    SplitFirst(topic);
    if segments[0] != [] && segments[0][0] == DOLLAR {
      if |segments| < 2 {
        return false;
      }
      if sysTopics == {} {
        if HasWild(segments[0]) {
          return false;
        }
      } else {
        if segments[0] !in sysTopics {
          return false;
        }
      }
      segments := segments[1..];
      body := topic[Until(topic, SLASH) + 1..];
    }
    var levels := |segments|;
    LevelsAreSlashes(body);
    if levels > MAX_TOPIC_LEVELS {
      return false;
    }
    SegmentsAreCharacters(body, wildcard);
    ok := CheckSegments(segments, wildcard);
  }

  /** The loop over the levels. */
  method CheckSegments(segments: seq<Text>, wildcard: bool) returns (ok: bool)
    ensures ok <==> SegmentsValid(segments, wildcard)
  {
    hide SegmentValid;
    var levels := |segments|;
    for index := 0 to levels
      invariant forall i | 0 <= i < index :: SegmentValid(segments[i], i == levels - 1, wildcard)
    {
      var valid := CheckSegment(segments[index], index != levels - 1, wildcard);
      if !valid {
        return false;
      }
    }
    return true;
  }

  lemma SplitFirst(topic: Text)
    requires topic != []
    ensures |Split(topic, SLASH)[0]| > 0 && Split(topic, SLASH)[0][0] == DOLLAR <==> topic[0] == DOLLAR
    ensures |Split(topic, SLASH)| < 2 <==> Until(topic, SLASH) == |topic|
    ensures Until(topic, SLASH) < |topic| ==> Split(topic, SLASH)[1..] == Split(topic[Until(topic, SLASH) + 1..], SLASH)
  {
    var k := Until(topic, SLASH);
    if k < |topic| {
      assert Split(topic, SLASH) == [topic[..k]] + Split(topic[k + 1..], SLASH);
    } else {
      assert Split(topic, SLASH) == [topic];
    }
  }

  /** The loop body. */
  method CheckSegment(segment: Text, more: bool, wildcard: bool) returns (valid: bool)
    ensures valid <==> SegmentValid(segment, !more, wildcard)
  {
    if |segment| > 1 && (PLUS in segment || HASH in segment) {
      return false;
    }
    if !wildcard && (segment == [HASH] || segment == [PLUS]) {
      return false;
    }
    if segment == [HASH] && more {
      return false;
    }
    return true;
  }

  class TopicChecker {
    var sysTopics: set<Text>

    constructor (sysTopics: seq<Text>)
      ensures this.sysTopics == set t <- sysTopics
    {
      var known: set<Text> := {};
      for i := 0 to |sysTopics|
        invariant known == set t <- sysTopics[..i]
      {
        known := known + {sysTopics[i]};
      }
      this.sysTopics := known;
    }

    method CheckTopic(topic: Text, wildcard: bool) returns (ok: bool)
      ensures ok <==> ValidTopic(topic, wildcard, sysTopics)
    {
      ok := CheckTopicWith(topic, wildcard, sysTopics);
    }
  }
}
