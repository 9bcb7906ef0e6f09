/** Which bytes decode at all: the records that make up a context and a message, whatever they are decoded onto. */
module MqttGrammar {
  import opened Wrappers
  import opened BitOps
  import opened Varint
  import opened Wire
  import opened MqttCodec

  // ---------- Decoders that read records ----------

  /** One of the records wanted is at the head of s. */
  ghost predicate HeadRecord(fits: Record -> bool, r: Record, s: seq<byte>) {
    WellFormed(r) && fits(r) && |RecordBytes(r)| <= |s| && RecordBytes(r) == s[..|RecordBytes(r)|]
  }

  predicate Inside<M>(step: Step<M>, available: nat) {
    step.Next? && step.size <= available
  }

  /** The step takes exactly the records wanted. */
  ghost predicate ReadsAt<M(!new)>(step: (M, seq<byte>) -> Step<M>, fits: Record -> bool, m: M, s: seq<byte>) {
    && (Inside(step(m, s), |s|) ==> exists r :: HeadRecord(fits, r, s))
    && forall r :: HeadRecord(fits, r, s) ==> Inside(step(m, s), |s|) && step(m, s).size == |RecordBytes(r)|
  }

  ghost predicate Reads<M(!new)>(step: (M, seq<byte>) -> Step<M>, fits: Record -> bool) {
    forall m, s | s != [] :: ReadsAt(step, fits, m, s)
  }

  ghost predicate Records(fits: Record -> bool, rs: seq<Record>, s: seq<byte>) {
    AllBytes(rs) == s && forall i | 0 <= i < |rs| :: WellFormed(rs[i]) && fits(rs[i])
  }

  /** Such a decoder succeeds exactly on sequences of the records wanted. */
  lemma {:induction false} DoneIffRecords<M(!new)>(step: (M, seq<byte>) -> Step<M>, fits: Record -> bool, m: M, s: seq<byte>)
    requires Reads(step, fits)
    ensures Run(step, m, s).Done? <==> exists rs :: Records(fits, rs, s)
    decreases |s|
  {
    if s == [] {
      assert Records(fits, [], s);
    } else {
      assert ReadsAt(step, fits, m, s);
      if Run(step, m, s).Done? {
        var r :| HeadRecord(fits, r, s);
        var tail := s[|RecordBytes(r)|..];
        DoneIffRecords(step, fits, step(m, s).m, tail);
        var rs :| Records(fits, rs, tail);
        OneMoreRecord(fits, r, rs, s);
      }
      if rs :| Records(fits, rs, s) {
        FirstRecord(fits, rs, s);
        var tail := s[|RecordBytes(rs[0])|..];
        DoneIffRecords(step, fits, step(m, s).m, tail);
      }
    }
  }

  lemma OneMoreRecord(fits: Record -> bool, r: Record, rs: seq<Record>, s: seq<byte>)
    requires HeadRecord(fits, r, s) && Records(fits, rs, s[|RecordBytes(r)|..])
    ensures Records(fits, [r] + rs, s)
  {
    assert ([r] + rs)[1..] == rs;
    assert s == RecordBytes(r) + s[|RecordBytes(r)|..];
  }

  lemma FirstRecord(fits: Record -> bool, rs: seq<Record>, s: seq<byte>)
    requires s != [] && Records(fits, rs, s)
    ensures rs != [] && HeadRecord(fits, rs[0], s) && RecordBytes(rs[0]) != []
    ensures Records(fits, rs[1..], s[|RecordBytes(rs[0])|..])
  {
    RecordTag(rs[0], []);
    assert s[|RecordBytes(rs[0])|..] == AllBytes(rs[1..]);
  }

  // ---------- What a skip says about known fields ----------

  lemma SkipOfVarint(s: seq<byte>)
    requires s != [] && ReadTag(s).Tag? && ReadTag(s).wireType == 0
    ensures var rest := s[ReadTag(s).size..];
            match RawVarint(rest, 0)
            case VarintOk(_, k) => Skip(s, 0) == Skipped(ReadTag(s).size + k)
            case VarintErr(_, _) => Skip(s, 0).SkipErr?
  {
    hide RawVarint, FieldNumber, WireType;
  }

  lemma SkipOfBytes(s: seq<byte>)
    requires s != [] && ReadTag(s).Tag? && ReadTag(s).wireType == 2
    ensures var rest := s[ReadTag(s).size..];
            match ReadBytes(rest)
            case BytesOk(_, k) => Skip(s, 0) == Skipped(ReadTag(s).size + k)
            case BytesErr(_) => Skip(s, 0).Skipped? ==> Skip(s, 0).size > |s|
  {
    hide RawVarint, FieldNumber, WireType;
  }

  /** A record at the head of s: what the tag reader and the skip routine see of it. */
  lemma SeesRecord(r: Record, s: seq<byte>)
    requires WellFormed(r) && |RecordBytes(r)| <= |s| && RecordBytes(r) == s[..|RecordBytes(r)|]
    ensures s != [] && ReadTag(s) == ReadTag(r.tag) && ReadTag(s).Tag? && ReadTag(s).wireType != 4
    ensures Skip(s, 0) == Skipped(|RecordBytes(r)|)
  {
    var rest := s[|RecordBytes(r)|..];
    assert s == RecordBytes(r) + rest;
    RecordTag(r, rest);
    SkipsOneRecord(r, rest);
  }

  lemma SeesBytes(r: Record, s: seq<byte>)
    requires WellFormed(r) && |RecordBytes(r)| <= |s| && RecordBytes(r) == s[..|RecordBytes(r)|] && ReadTag(r.tag).wireType == 2
    ensures r.BytesRecord? && ReadTag(s) == ReadTag(r.tag) && ReadTag(s).Tag?
    ensures ReadBytes(s[ReadTag(s).size..]) == BytesOk(r.data, |r.length| + |r.data|)
  {
    hide RawVarint;
    SeesRecord(r, s);
    OnlyBytes(r);
    var n, rest := |r.tag|, s[|RecordBytes(r)|..];
    assert s == r.tag + (r.length + (r.data + rest));
    assert s[n..] == r.length + (r.data + rest);
    VarintHead(r.length, r.data + rest);
    assert s[n..][|r.length|..|r.length| + |r.data|] == r.data;
  }

  lemma OnlyBytes(r: Record)
    requires WellFormed(r) && ReadTag(r.tag).Tag? && ReadTag(r.tag).wireType == 2
    ensures r.BytesRecord? && ReadTag(r.tag).size == |r.tag|
  {
    hide RawVarint;
  }

  // ---------- Contexts ----------

  /** Fields 1 to 4 are varints, field 5 is a string; other positive fields may be anything. */
  predicate ContextTag(t: TagResult) {
    t.Tag? && t.wireType != 4 && t.field > 0 && (t.field <= 4 ==> t.wireType == 0) && (t.field == 5 ==> t.wireType == 2)
  }

  predicate ContextRecord(r: Record) {
    ContextTag(ReadTag(r.tag))
  }

  lemma ContextStepIff(c: ContextValue, s: seq<byte>)
    requires s != []
    ensures Inside(ContextStep(c, s), |s|) <==> ContextTag(ReadTag(s)) && Skip(s, 0).Skipped? && Skip(s, 0).size <= |s|
    ensures Inside(ContextStep(c, s), |s|) ==> ContextStep(c, s).size == Skip(s, 0).size
  {
    hide RawVarint, ReadTag, ReadBytes, Skip, SetField;
    if ContextTag(ReadTag(s)) {
      if ReadTag(s).field <= 4 {
        SkipOfVarint(s);
      } else if ReadTag(s).field == 5 {
        SkipOfBytes(s);
      }
    }
  }

  lemma ContextReads()
    ensures Reads(ContextStep, ContextRecord)
  {
    forall c, s: seq<byte> | s != []
      ensures ReadsAt(ContextStep, ContextRecord, c, s)
    {
      ContextReadsAt(c, s);
    }
  }

  lemma ContextReadsAt(c: ContextValue, s: seq<byte>)
    requires s != []
    ensures ReadsAt(ContextStep, ContextRecord, c, s)
  {
    hide ContextStep, ContextTag, Skip, ReadTag, WellFormed, RecordBytes;
    ContextStepIff(c, s);
    if Inside(ContextStep(c, s), |s|) {
      var r := SkippedRecord(s);
      SeesRecord(r, s);
      assert HeadRecord(ContextRecord, r, s);
    }
    forall r | HeadRecord(ContextRecord, r, s)
      ensures Inside(ContextStep(c, s), |s|) && ContextStep(c, s).size == |RecordBytes(r)|
    {
      SeesRecord(r, s);
    }
  }

  /** Bytes decode as a context if and only if they are a sequence of such records, whatever context they are decoded onto. */
  lemma ContextDecodesIff(c: ContextValue, s: seq<byte>)
    ensures DecodeContext(c, s).Done? <==> exists rs :: Records(ContextRecord, rs, s)
  {
    ContextReads();
    DoneIffRecords(ContextStep, ContextRecord, c, s);
  }

  // ---------- Messages ----------

  predicate ContextDecodes(s: seq<byte>) {
    DecodeContext(EMPTY_CONTEXT, s).Done?
  }

  /** Fields 1 and 2 are length-delimited; other positive fields may be anything. */
  predicate MessageTag(t: TagResult) {
    t.Tag? && t.wireType != 4 && t.field > 0 && (t.field <= 2 ==> t.wireType == 2)
  }

  /** Field 1 holds a context that decodes. */
  predicate MessageRecord(r: Record) {
    MessageTag(ReadTag(r.tag)) && (ReadTag(r.tag).field == 1 ==> r.BytesRecord? && ContextDecodes(r.data))
  }

  /** The data of a length-delimited field at the head of s. */
  function FieldData(s: seq<byte>): seq<byte>
    requires ReadTag(s).Tag?
  {
    match ReadBytes(s[ReadTag(s).size..])
    case BytesOk(data, _) => data
    case BytesErr(_) => []
  }

  lemma MessageStepIff(m: MessageValue, s: seq<byte>)
    requires s != []
    ensures Inside(MessageStep(m, s), |s|) <==>
              MessageTag(ReadTag(s)) && Skip(s, 0).Skipped? && Skip(s, 0).size <= |s| && (ReadTag(s).field == 1 ==> ContextDecodes(FieldData(s)))
    ensures Inside(MessageStep(m, s), |s|) ==> MessageStep(m, s).size == Skip(s, 0).size
  {
    hide RawVarint, ReadTag, ReadBytes, Skip, DecodeContext;
    if MessageTag(ReadTag(s)) && ReadTag(s).field <= 2 {
      SkipOfBytes(s);
      ContextDecodesIff(m.context, FieldData(s));
      ContextDecodesIff(EMPTY_CONTEXT, FieldData(s));
    }
  }

  lemma MessageReads()
    ensures Reads(MessageStep, MessageRecord)
  {
    forall m, s: seq<byte> | s != []
      ensures ReadsAt(MessageStep, MessageRecord, m, s)
    {
      MessageReadsAt(m, s);
    }
  }

  lemma MessageReadsAt(m: MessageValue, s: seq<byte>)
    requires s != []
    ensures ReadsAt(MessageStep, MessageRecord, m, s)
  {
    hide MessageStep, Skip, ReadTag, ReadBytes, WellFormed, RecordBytes, ContextDecodes;
    MessageStepIff(m, s);
    if Inside(MessageStep(m, s), |s|) {
      var r := SkippedRecord(s);
      SeesRecord(r, s);
      if ReadTag(s).field == 1 {
        SeesBytes(r, s);
      }
      assert HeadRecord(MessageRecord, r, s);
    }
    forall r | HeadRecord(MessageRecord, r, s)
      ensures Inside(MessageStep(m, s), |s|) && MessageStep(m, s).size == |RecordBytes(r)|
    {
      SeesRecord(r, s);
      if ReadTag(s).field == 1 {
        SeesBytes(r, s);
      }
    }
  }

  /** Bytes decode as a message if and only if they are a sequence of such records, whatever message they are decoded onto. */
  lemma MessageDecodesIff(m: MessageValue, s: seq<byte>)
    ensures DecodeMessage(m, s).Done? <==> exists rs :: Records(MessageRecord, rs, s)
  {
    MessageReads();
    DoneIffRecords(MessageStep, MessageRecord, m, s);
  }

  // ---------- What a record does ----------

  lemma SeesVarint(r: Record, s: seq<byte>)
    requires WellFormed(r) && |RecordBytes(r)| <= |s| && RecordBytes(r) == s[..|RecordBytes(r)|] && ReadTag(r.tag).wireType == 0
    ensures r.VarintRecord? && ReadTag(s) == ReadTag(r.tag) && ReadTag(s).Tag?
    ensures RawVarint(s[ReadTag(s).size..], 0) == RawVarint(r.value, 0)
  {
    hide RawVarint;
    SeesRecord(r, s);
    OnlyVarint(r);
    var n, rest := |r.tag|, s[|RecordBytes(r)|..];
    assert s == r.tag + (r.value + rest);
    assert s[n..] == r.value + rest;
    VarintHead(r.value, rest);
  }

  lemma OnlyVarint(r: Record)
    requires WellFormed(r) && ReadTag(r.tag).Tag? && ReadTag(r.tag).wireType == 0
    ensures r.VarintRecord? && ReadTag(r.tag).size == |r.tag|
  {
    hide RawVarint;
  }

  /** Each record overwrites its field, also with zero or nothing, and with the low bits of a number too large; the others do nothing. */
  lemma ContextRecordTaken(c: ContextValue, r: Record)
    requires WellFormed(r) && ContextRecord(r)
    ensures DecodeContext(c, RecordBytes(r)).Done?
    ensures ReadTag(r.tag).field <= 4 ==> r.VarintRecord?
    ensures ReadTag(r.tag).field == 5 ==> r.BytesRecord?
    ensures DecodeContext(c, RecordBytes(r)).m ==
            match ReadTag(r.tag).field
            case 1 => c.(id := RawVarint(r.value, 0).value % TWO_64)
            case 2 => c.(ts := RawVarint(r.value, 0).value % TWO_64)
            case 3 => c.(qos := RawVarint(r.value, 0).value % TWO_32)
            case 4 => c.(flags := RawVarint(r.value, 0).value % TWO_32)
            case 5 => c.(topic := r.data)
            case _ => c
  {
    hide RawVarint, ReadTag, ReadBytes, Skip, WellFormed, RecordBytes, Run;
    var s := RecordBytes(r);
    assert s[..|s|] == s;
    SeesRecord(r, s);
    ContextStepIff(c, s);
    if ReadTag(r.tag).field <= 4 {
      SeesVarint(r, s);
    } else if ReadTag(r.tag).field == 5 {
      SeesBytes(r, s);
    }
    RunOne(ContextStep, c, s);
  }

  /** A context record is decoded onto the context there is, a content record replaces the content. */
  lemma MessageRecordTaken(m: MessageValue, r: Record)
    requires WellFormed(r) && MessageRecord(r)
    ensures var decoded, field := DecodeMessage(m, RecordBytes(r)), ReadTag(r.tag).field;
            && decoded.Done?
            && (field == 1 ==> r.BytesRecord? && DecodeContext(m.context, r.data) == Done(decoded.m.context) && decoded.m.content == m.content)
            && (field == 2 ==> r.BytesRecord? && decoded.m == m.(content := r.data))
            && (field > 2 ==> decoded.m == m)
  {
    hide RawVarint, ReadTag, ReadBytes, Skip, WellFormed, RecordBytes, Run, DecodeContext;
    var s := RecordBytes(r);
    assert s[..|s|] == s;
    SeesRecord(r, s);
    if ReadTag(r.tag).field <= 2 {
      SeesBytes(r, s);
    }
    MessageStepIff(m, s);
    RunOne(MessageStep, m, s);
  }

  // ---------- What is refused at its tag ----------

  /** The error for a tag that does not fit: some fields need the wire types given. */
  function TagError(t: TagResult, wireTypes: map<int, nat>): Option<Error>
    requires t.Tag?
  {
    if t.wireType == 4 then Some(EndGroupTag)
    else if t.field <= 0 then Some(IllegalTag)
    else if t.field in wireTypes && wireTypes[t.field] != t.wireType then Some(WrongWireType)
    else None
  }

  lemma ContextTagRefused(c: ContextValue, s: seq<byte>)
    requires s != [] && ReadTag(s).Tag? && TagError(ReadTag(s), map[1 := 0, 2 := 0, 3 := 0, 4 := 0, 5 := 2]) != None
    ensures DecodeContext(c, s) == Failed(c, TagError(ReadTag(s), map[1 := 0, 2 := 0, 3 := 0, 4 := 0, 5 := 2]).value)
  {
    hide ReadTag;
  }

  lemma MessageTagRefused(m: MessageValue, s: seq<byte>)
    requires s != [] && ReadTag(s).Tag? && TagError(ReadTag(s), map[1 := 2, 2 := 2]) != None
    ensures DecodeMessage(m, s) == Failed(m, TagError(ReadTag(s), map[1 := 2, 2 := 2]).value)
  {
    hide ReadTag;
  }

  // ---------- What a failure leaves ----------

  /** A field whose varint is cut short keeps the bits read so far. */
  lemma CutFieldKeepsBits(c: ContextValue, field: int, v: uint64, k: nat)
    requires 1 <= field <= 4 && k < |EncVarint(v)| <= 10
    ensures var bits := v % Pow2(7 * k);
            DecodeContext(c, [8 * field] + EncVarint(v)[..k]) == Failed(
              match field
              case 1 => c.(id := bits % TWO_64)
              case 2 => c.(ts := bits % TWO_64)
              case 3 => c.(qos := bits % TWO_32)
              case _ => c.(flags := bits % TWO_32), UnexpectedEOF)
  {
    hide RawVarint, EncVarint, Pow2;
    var s := [8 * field] + EncVarint(v)[..k];
    ReadsShortTag(8 * field, EncVarint(v)[..k]);
    assert s[1..] == EncVarint(v)[..k];
    CutVarint(v, k, 0);
  }

  /** A context that fails inside a message leaves the fields it had decoded. */
  lemma FailedContextStays(m: MessageValue, data: seq<byte>, rest: seq<byte>)
    requires |data| < TWO_63 && DecodeContext(m.context, data).Failed?
    ensures var outcome := DecodeContext(m.context, data);
            DecodeMessage(m, RawField(0x0a, data) + rest) == Failed(m.(context := outcome.m), Reported(outcome.err, |data|))
  {
    hide DecodeContext, RawField;
    ReadsRawField(0x0a, data, rest);
    RawFieldStarts(data, rest);
  }

  lemma RawFieldStarts(data: seq<byte>, rest: seq<byte>)
    ensures RawField(0x0a, data) + rest != []
  {
  }
}
