/** The mqtt.Context and mqtt.Message codecs. */
module MqttCodec {
  import opened Wrappers
  import opened Varint
  import opened Wire

  datatype ContextValue = ContextValue(id: uint64, ts: uint64, qos: uint32, flags: uint32, topic: seq<byte>)

  datatype MessageValue = MessageValue(context: ContextValue, content: seq<byte>)

  const EMPTY_CONTEXT := ContextValue(0, 0, 0, 0, [])
  const EMPTY_MESSAGE := MessageValue(EMPTY_CONTEXT, [])

  // ---------- Encoding, front to back ----------

  function EncodeContext(c: ContextValue): seq<byte> {
    VarintField(0x08, c.id) + (VarintField(0x10, c.ts) + (VarintField(0x18, c.qos) +
      (VarintField(0x20, c.flags) + BytesField(0x2a, c.topic))))
  }

  function EncodeMessage(m: MessageValue): seq<byte> {
    RawField(0x0a, EncodeContext(m.context)) + BytesField(0x12, m.content)
  }

  // ---------- Decoding one record ----------

  /** The low 32 bits, as the uint32 accumulator keeps them. */
  function Low32(v: nat): uint32 {
    v % TWO_32
  }

  function Low64(v: nat): uint64 {
    v % TWO_64
  }

  /** The varint fields, truncated to their width. */
  function SetField(c: ContextValue, field: int, v: nat): ContextValue {
    if field == 1 then c.(id := Low64(v))
    else if field == 2 then c.(ts := Low64(v))
    else if field == 3 then c.(qos := Low32(v))
    else c.(flags := Low32(v))
  }

  /** A varint field behind a tag of n bytes: it is overwritten even when the varint is cut short. */
  function VarintStep(c: ContextValue, field: int, rest: seq<byte>, n: nat): Step<ContextValue> {
    match RawVarint(rest, 0)
    case VarintErr(e, p) => Stop(SetField(c, field, p), e)
    case VarintOk(v, k) => Next(SetField(c, field, v), n + k)
  }

  function ContextStep(c: ContextValue, s: seq<byte>): Step<ContextValue> {
    match ReadTag(s)
    case TagErr(e) => Stop(c, e)
    case Tag(field, wireType, n) =>
      if wireType == 4 then Stop(c, EndGroupTag)
      else if field <= 0 then Stop(c, IllegalTag)
      else if field <= 4 then
        if wireType != 0 then Stop(c, WrongWireType) else VarintStep(c, field, s[n..], n)
      else if field == 5 then
        if wireType != 2 then Stop(c, WrongWireType)
        else match ReadBytes(s[n..])
          case BytesErr(e) => Stop(c, e)
          case BytesOk(data, k) => Next(c.(topic := data), n + k)
      else SkipStep(c, s)
  }

  function DecodeContext(c: ContextValue, s: seq<byte>): Outcome<ContextValue> {
    Run(ContextStep, c, s)
  }

  function MessageStep(m: MessageValue, s: seq<byte>): Step<MessageValue> {
    match ReadTag(s)
    case TagErr(e) => Stop(m, e)
    case Tag(field, wireType, n) =>
      if wireType == 4 then Stop(m, EndGroupTag)
      else if field <= 0 then Stop(m, IllegalTag)
      else if field == 1 || field == 2 then
        if wireType != 2 then Stop(m, WrongWireType)
        else match ReadBytes(s[n..])
          case BytesErr(e) => Stop(m, e)
          case BytesOk(data, k) => TakeField(m, field, data, n + k)
      else SkipStep(m, s)
  }

  /** A length-delimited field of a message: the context is decoded on top of what is there, the content replaced. */
  function TakeField(m: MessageValue, field: int, data: seq<byte>, size: Positive): Step<MessageValue> {
    if field == 1 then
      match DecodeContext(m.context, data)
      case Failed(c, e) => Stop(m.(context := c), Reported(e, |data|))
      case Done(c) => Next(m.(context := c), size)
    else Next(m.(content := data), size)
  }

  function DecodeMessage(m: MessageValue, s: seq<byte>): Outcome<MessageValue> {
    Run(MessageStep, m, s)
  }

  // ---------- Concatenation and unknown records ----------

  lemma ContextStepLocalAt(m: ContextValue, a: seq<byte>, b: seq<byte>)
    ensures LocalAt(ContextStep, m, a, b)
  {
    hide RawVarint, ReadTag, ReadBytes, Skip, Run;
    if ContextStep(m, a).Next? && ContextStep(m, a).size <= |a| {
      ReadTagLocal(a, b);
      var n := ReadTag(a).size;
      assert (a + b)[n..] == a[n..] + b;
      if RawVarint(a[n..], 0).VarintOk? { RawVarintLocal(a[n..], b, 0); }
      if ReadBytes(a[n..]).BytesOk? { ReadBytesLocal(a[n..], b); }
      if SkipStep(m, a).Next? && SkipStep(m, a).size <= |a| { SkipStepLocal(m, a, b); }
    }
  }

  lemma ContextStepLocal()
    ensures Local(ContextStep)
  {
    forall m, a: seq<byte>, b: seq<byte>
      ensures LocalAt(ContextStep, m, a, b)
    {
      ContextStepLocalAt(m, a, b);
    }
  }

  lemma MessageStepLocalAt(m: MessageValue, a: seq<byte>, b: seq<byte>)
    ensures LocalAt(MessageStep, m, a, b)
  {
    hide RawVarint, ReadTag, ReadBytes, Skip, Run;
    if MessageStep(m, a).Next? && MessageStep(m, a).size <= |a| {
      ReadTagLocal(a, b);
      var n := ReadTag(a).size;
      assert (a + b)[n..] == a[n..] + b;
      if ReadBytes(a[n..]).BytesOk? { ReadBytesLocal(a[n..], b); }
      if SkipStep(m, a).Next? && SkipStep(m, a).size <= |a| { SkipStepLocal(m, a, b); }
    }
  }

  lemma MessageStepLocal()
    ensures Local(MessageStep)
  {
    forall m, a: seq<byte>, b: seq<byte>
      ensures LocalAt(MessageStep, m, a, b)
    {
      MessageStepLocalAt(m, a, b);
    }
  }

  /** Decoding two encodings in a row merges: the second is decoded on top of the first, nested contexts included. */
  lemma DecodeConcat(m: MessageValue, a: seq<byte>, b: seq<byte>)
    requires DecodeMessage(m, a).Done?
    ensures DecodeMessage(m, a + b) == DecodeMessage(DecodeMessage(m, a).m, b)
  {
    MessageStepLocal();
    RunConcat(MessageStep, m, a, b);
  }

  lemma DecodeContextConcat(c: ContextValue, a: seq<byte>, b: seq<byte>)
    requires DecodeContext(c, a).Done?
    ensures DecodeContext(c, a + b) == DecodeContext(DecodeContext(c, a).m, b)
  {
    ContextStepLocal();
    RunConcat(ContextStep, c, a, b);
  }

  /** A well-formed record of a field that the message does not know, groups of any depth included. */
  predicate Unknown(r: Record, known: nat) {
    WellFormed(r) && ReadTag(r.tag).Tag? && ReadTag(r.tag).field > known
  }

  /** Unknown records between decoded records change nothing. */
  lemma UnknownRecordIgnored(m: MessageValue, a: seq<byte>, r: Record, b: seq<byte>)
    requires DecodeMessage(m, a).Done? && Unknown(r, 2)
    ensures DecodeMessage(m, a + RecordBytes(r) + b) == DecodeMessage(m, a + b)
  {
    MessageStepLocal();
    RecordTag(r, []);
    SkipsOneRecord(r, []);
    assert RecordBytes(r) + [] == RecordBytes(r);
    RunIgnores(MessageStep, m, a, RecordBytes(r), b);
  }

  lemma UnknownContextRecordIgnored(c: ContextValue, a: seq<byte>, r: Record, b: seq<byte>)
    requires DecodeContext(c, a).Done? && Unknown(r, 5)
    ensures DecodeContext(c, a + RecordBytes(r) + b) == DecodeContext(c, a + b)
  {
    ContextStepLocal();
    RecordTag(r, []);
    SkipsOneRecord(r, []);
    assert RecordBytes(r) + [] == RecordBytes(r);
    RunIgnores(ContextStep, c, a, RecordBytes(r), b);
  }

  // ---------- Round trips ----------

  /** The fields that c carries on the wire replace those of before; zero fields are not written and keep the old value. */
  function Overlay(before: ContextValue, c: ContextValue): ContextValue {
    ContextValue(
      if c.id != 0 then c.id else before.id,
      if c.ts != 0 then c.ts else before.ts,
      if c.qos != 0 then c.qos else before.qos,
      if c.flags != 0 then c.flags else before.flags,
      if c.topic != [] then c.topic else before.topic)
  }

  function OverlayMessage(before: MessageValue, m: MessageValue): MessageValue {
    MessageValue(Overlay(before.context, m.context), if m.content != [] then m.content else before.content)
  }

  lemma DecodesNothing(c: ContextValue)
    ensures DecodeContext(c, []) == Done(c)
  {
  }

  /** One varint field on the wire. */
  lemma DecodesVarintField(c: ContextValue, field: int, v: uint64)
    requires 1 <= field <= 4
    requires field >= 3 ==> v < TWO_32
    ensures DecodeContext(c, VarintField(8 * field, v)) == Done(
      if v == 0 then c
      else if field == 1 then c.(id := v)
      else if field == 2 then c.(ts := v)
      else if field == 3 then c.(qos := v)
      else c.(flags := v))
  {
    hide RawVarint, EncVarint, Run;
    DecodesNothing(c);
    if v != 0 {
      var s := VarintField(8 * field, v);
      ReadsVarintField(8 * field, v, []);
      assert s + [] == s;
      RunOne(ContextStep, c, s);
    }
  }

  lemma DecodesTopic(c: ContextValue, topic: seq<byte>)
    requires |topic| < TWO_63
    ensures DecodeContext(c, BytesField(0x2a, topic)) == Done(if topic == [] then c else c.(topic := topic))
  {
    if topic != [] {
      var s := RawField(0x2a, topic);
      ReadsRawField(0x2a, topic, []);
      assert s + [] == s;
      RunOne(ContextStep, c, s);
    }
  }

  /** Decoding an encoded context onto any context overlays the fields written. */
  lemma ContextOverlay(before: ContextValue, c: ContextValue)
    requires |c.topic| < TWO_63
    ensures DecodeContext(before, EncodeContext(c)) == Done(Overlay(before, c))
  {
    hide Run, ContextStep, VarintField, BytesField;
    var s5 := BytesField(0x2a, c.topic);
    var s4 := VarintField(0x20, c.flags) + s5;
    var s3 := VarintField(0x18, c.qos) + s4;
    var s2 := VarintField(0x10, c.ts) + s3;
    var c1 := if c.id == 0 then before else before.(id := c.id);
    var c2 := if c.ts == 0 then c1 else c1.(ts := c.ts);
    var c3 := if c.qos == 0 then c2 else c2.(qos := c.qos);
    var c4 := if c.flags == 0 then c3 else c3.(flags := c.flags);
    DecodesVarintField(before, 1, c.id);
    DecodeContextConcat(before, VarintField(0x08, c.id), s2);
    DecodesVarintField(c1, 2, c.ts);
    DecodeContextConcat(c1, VarintField(0x10, c.ts), s3);
    DecodesVarintField(c2, 3, c.qos);
    DecodeContextConcat(c2, VarintField(0x18, c.qos), s4);
    DecodesVarintField(c3, 4, c.flags);
    DecodeContextConcat(c3, VarintField(0x20, c.flags), s5);
    DecodesTopic(c4, c.topic);
  }

  /** Decoding an encoded message onto any message overlays the fields written, through the nested context. */
  lemma MessageOverlay(before: MessageValue, m: MessageValue)
    requires |EncodeMessage(m)| < TWO_63
    ensures DecodeMessage(before, EncodeMessage(m)) == Done(OverlayMessage(before, m))
  {
    var inner := EncodeContext(m.context);
    var s1, s2 := RawField(0x0a, inner), BytesField(0x12, m.content);
    ContextOverlay(before.context, m.context);
    ReadsRawField(0x0a, inner, []);
    assert s1 + [] == s1;
    RunOne(MessageStep, before, s1);
    DecodeConcat(before, s1, s2);
    var m1 := before.(context := Overlay(before.context, m.context));
    if m.content != [] {
      ReadsRawField(0x12, m.content, []);
      assert s2 + [] == s2;
      RunOne(MessageStep, m1, s2);
    }
  }

  /** Unmarshalling a marshalled message into a fresh one gives every field back. */
  lemma MessageRoundTrip(m: MessageValue)
    requires |EncodeMessage(m)| < TWO_63
    ensures DecodeMessage(EMPTY_MESSAGE, EncodeMessage(m)) == Done(m)
  {
    MessageOverlay(EMPTY_MESSAGE, m);
  }

  // ---------- The Go structs ----------

  lemma ContextSize(c: ContextValue)
    ensures |EncodeContext(c)| == VarintFieldSize(c.id) + VarintFieldSize(c.ts) + VarintFieldSize(c.qos)
                                + VarintFieldSize(c.flags) + BytesFieldSize(c.topic)
  {
    FieldSizes(0x08, c.id, c.topic);
    FieldSizes(0x10, c.ts, c.topic);
    FieldSizes(0x18, c.qos, c.topic);
    FieldSizes(0x20, c.flags, c.topic);
    FieldSizes(0x2a, c.flags, c.topic);
  }

  lemma MessageSize(m: MessageValue)
    ensures |EncodeMessage(m)| == RawFieldSize(EncodeContext(m.context)) + BytesFieldSize(m.content)
  {
    FieldSizes(0x0a, 0, EncodeContext(m.context));
    FieldSizes(0x12, 0, m.content);
  }

  lemma PartsFit(m: MessageValue)
    ensures |m.content| <= |EncodeMessage(m)| && |m.context.topic| <= |EncodeContext(m.context)| <= |EncodeMessage(m)|
  {
    MessageSize(m);
    ContextSize(m.context);
  }

  class Context {
    var ID: uint64
    var TS: uint64
    var QOS: uint32
    var Flags: uint32
    var Topic: seq<byte>

    constructor ()
      ensures Value() == EMPTY_CONTEXT
    {
      ID, TS, QOS, Flags, Topic := 0, 0, 0, 0, [];
    }

    function Value(): ContextValue
      reads this
    {
      ContextValue(ID, TS, QOS, Flags, Topic)
    }

    /** Size counts exactly the bytes that marshalling writes. */
    method Size() returns (n: nat)
      ensures n == |EncodeContext(Value())|
    {
      n := 0;
      if ID != 0 {
        n := n + 1 + Sov(ID);
      }
      if TS != 0 {
        n := n + 1 + Sov(TS);
      }
      if QOS != 0 {
        n := n + 1 + Sov(QOS);
      }
      if Flags != 0 {
        n := n + 1 + Sov(Flags);
      }
      var l := |Topic|;
      if l > 0 {
        n := n + 1 + l + Sov(l);
      }
      ContextSize(Value());
    }

    /** Fills the end of dAtA[:end] back to front and returns how many bytes it took. */
    method MarshalToSizedBuffer(dAtA: array<byte>, end: nat) returns (n: nat)
      requires |EncodeContext(Value())| <= end <= dAtA.Length && |Topic| < TWO_63
      modifies dAtA
      ensures n <= end && Prepended(dAtA, end - n, end, EncodeContext(Value()))
    {
      hide VarintField, BytesField, VarintFieldSize, BytesFieldSize;
      ContextSize(Value());
      FieldSizes(0x2a, 0, Topic);
      FieldSizes(0x20, Flags, []);
      FieldSizes(0x18, QOS, []);
      FieldSizes(0x10, TS, []);
      FieldSizes(0x08, ID, []);
      ghost var behind := dAtA[end..];
      ghost var s5 := BytesField(0x2a, Topic);
      ghost var s4 := VarintField(0x20, Flags) + s5;
      ghost var s3 := VarintField(0x18, QOS) + s4;
      ghost var s2 := VarintField(0x10, TS) + s3;
      var i := PutBytesField(dAtA, end, 0x2a, Topic);
      i := PutVarintField(dAtA, i, 0x20, Flags);
      Associate(VarintField(0x20, Flags), s5, behind);
      i := PutVarintField(dAtA, i, 0x18, QOS);
      Associate(VarintField(0x18, QOS), s4, behind);
      i := PutVarintField(dAtA, i, 0x10, TS);
      Associate(VarintField(0x10, TS), s3, behind);
      i := PutVarintField(dAtA, i, 0x08, ID);
      Associate(VarintField(0x08, ID), s2, behind);
      n := end - i;
    }

    /** The buffer that Size allocates is filled to its first byte. */
    method Marshal() returns (dAtA: array<byte>)
      requires |Topic| < TWO_63
      ensures fresh(dAtA) && dAtA[..] == EncodeContext(Value())
    {
      var size := Size();
      dAtA := new byte[size](_ => 0);
      var n := MarshalToSizedBuffer(dAtA, size);
      assert dAtA[0..] == EncodeContext(Value()) + [];
    }

    /** Decodes on top of the current fields. */
    method Unmarshal(dAtA: Slice) returns (err: Option<Error>)
      modifies this
      ensures Returned(DecodeContext(old(Value()), dAtA), |dAtA|, Value(), err)
    {
      var l := |dAtA|;
      var iNdEx: nat := 0;
      hide ContextStep, Run, Took;
      ghost var whole := DecodeContext(Value(), dAtA);
      assert dAtA[0..] == dAtA;
      while iNdEx < l
        invariant iNdEx <= l && whole == DecodeContext(Value(), dAtA[iNdEx..])
      {
        ghost var start, s, before := iNdEx, dAtA[iNdEx..], Value();
        iNdEx, err := UnmarshalField(dAtA, iNdEx);
        RunTakes(ContextStep, before, s, l, Value(), iNdEx - start, err);
        if err != None {
          return;
        }
        assert s[iNdEx - start..] == dAtA[iNdEx..];
      }
      err := None;
    }

    /** The varint fields: the field is reset and then gathers the bits, also those of a varint that is cut short. */
    method UnmarshalVarint(dAtA: seq<byte>, start: nat, fieldNum: int) returns (iNdEx: nat, err: Option<Error>)
      requires start <= |dAtA| && 1 <= fieldNum <= 4
      modifies this
      ensures start <= iNdEx <= |dAtA|
      ensures match RawVarint(dAtA[start..], 0)
              case VarintOk(v, n) => err == None && iNdEx == start + n && Value() == SetField(old(Value()), fieldNum, v)
              case VarintErr(e, p) => err == Some(e) && Value() == SetField(old(Value()), fieldNum, p)
    {
      hide RawVarint;
      if fieldNum == 1 {
        ID, iNdEx, err := ReadUint64(dAtA, start);
      } else if fieldNum == 2 {
        TS, iNdEx, err := ReadUint64(dAtA, start);
      } else if fieldNum == 3 {
        QOS, iNdEx, err := ReadUint32(dAtA, start);
      } else {
        Flags, iNdEx, err := ReadUint32(dAtA, start);
      }
    }

    /** One turn of the decoding loop. */
    method UnmarshalField(dAtA: Slice, preIndex: nat) returns (iNdEx: nat, err: Option<Error>)
      requires preIndex < |dAtA|
      modifies this
      ensures Took(ContextStep(old(Value()), dAtA[preIndex..]), |dAtA| - preIndex, |dAtA|, Value(), iNdEx - preIndex, err)
    {
      hide RawVarint, Skip, ReadTag, ReadBytes, SetField;
      var fieldNum, wireType;
      fieldNum, wireType, iNdEx, err := TakeTag(dAtA, preIndex);
      if err != None {
        return;
      }
      if wireType == 4 {
        err := Some(EndGroupTag);
      } else if fieldNum <= 0 {
        err := Some(IllegalTag);
      } else if fieldNum <= 4 {
        if wireType != 0 {
          err := Some(WrongWireType);
          return;
        }
        iNdEx, err := UnmarshalVarint(dAtA, iNdEx, fieldNum);
      } else if fieldNum == 5 {
        if wireType != 2 {
          err := Some(WrongWireType);
          return;
        }
        var data;
        data, iNdEx, err := TakeBytes(dAtA, iNdEx);
        if err == None {
          Topic := data;
        }
      } else {
        iNdEx, err := SkipUnknown(dAtA, preIndex);
      }
    }
  }

  class Message {
    const Context: Context
    var Content: seq<byte>

    constructor ()
      ensures Value() == EMPTY_MESSAGE && fresh(Context)
    {
      Context := new Context();
      Content := [];
    }

    function Value(): MessageValue
      reads this, Context
    {
      MessageValue(Context.Value(), Content)
    }

    /** Size counts exactly the bytes that marshalling writes. */
    method Size() returns (n: nat)
      requires |EncodeMessage(Value())| < TWO_63
      ensures n == |EncodeMessage(Value())|
    {
      MessageSize(Value());
      var l := Context.Size();
      n := 1 + l + Sov(l);
      l := |Content|;
      if l > 0 {
        n := n + 1 + l + Sov(l);
      }
    }

    /** Fills the end of dAtA[:end] back to front, the nested context into what is left of it. */
    method MarshalToSizedBuffer(dAtA: array<byte>, end: nat) returns (n: nat)
      requires |EncodeMessage(Value())| <= end <= dAtA.Length && |EncodeMessage(Value())| < TWO_63
      modifies dAtA
      ensures n <= end && Prepended(dAtA, end - n, end, EncodeMessage(Value()))
    {
      hide VarintField, BytesField, BytesFieldSize, EncodeContext, EncVarint, Sov;
      MessageSize(Value());
      PartsFit(Value());
      FieldSizes(0x12, 0, Content);
      ghost var behind, inner, content := dAtA[end..], EncodeContext(Context.Value()), BytesField(0x12, Content);
      SovCountsBytes(|inner|);
      var i := PutBytesField(dAtA, end, 0x12, Content);
      ghost var tail := dAtA[i..];
      var size := Context.MarshalToSizedBuffer(dAtA, i);
      i := i - size;
      i := PutVarint(dAtA, i, size);
      i := PutByte(dAtA, i, 0x0a);
      Reassociate([0x0a], EncVarint(|inner|), inner, tail);
      assert dAtA[i..] == RawField(0x0a, inner) + tail;
      Associate(RawField(0x0a, inner), content, behind);
      assert dAtA[i..] == EncodeMessage(Value()) + behind;
      n := end - i;
    }

    /** The buffer that Size allocates is filled to its first byte. */
    method Marshal() returns (dAtA: array<byte>)
      requires |EncodeMessage(Value())| < TWO_63
      ensures fresh(dAtA) && dAtA[..] == EncodeMessage(Value())
    {
      var size := Size();
      dAtA := new byte[size](_ => 0);
      var n := MarshalToSizedBuffer(dAtA, size);
      assert dAtA[0..] == EncodeMessage(Value()) + [];
    }

    /** Decodes on top of the current fields. */
    method Unmarshal(dAtA: Slice) returns (err: Option<Error>)
      modifies this, Context
      ensures Returned(DecodeMessage(old(Value()), dAtA), |dAtA|, Value(), err)
    {
      var l := |dAtA|;
      var iNdEx: nat := 0;
      hide MessageStep, Run, Took;
      ghost var whole := DecodeMessage(Value(), dAtA);
      assert dAtA[0..] == dAtA;
      while iNdEx < l
        invariant iNdEx <= l && whole == DecodeMessage(Value(), dAtA[iNdEx..])
      {
        ghost var start, s, before := iNdEx, dAtA[iNdEx..], Value();
        iNdEx, err := UnmarshalField(dAtA, iNdEx);
        RunTakes(MessageStep, before, s, l, Value(), iNdEx - start, err);
        if err != None {
          return;
        }
        assert s[iNdEx - start..] == dAtA[iNdEx..];
      }
      err := None;
    }

    /** One turn of the decoding loop. */
    method UnmarshalField(dAtA: Slice, preIndex: nat) returns (iNdEx: nat, err: Option<Error>)
      requires preIndex < |dAtA|
      modifies this, Context
      ensures Took(MessageStep(old(Value()), dAtA[preIndex..]), |dAtA| - preIndex, |dAtA|, Value(), iNdEx - preIndex, err)
    {
      hide RawVarint, Skip, ReadTag, ReadBytes, Run;
      var fieldNum, wireType;
      fieldNum, wireType, iNdEx, err := TakeTag(dAtA, preIndex);
      if err != None {
        return;
      }
      if wireType == 4 {
        err := Some(EndGroupTag);
      } else if fieldNum <= 0 {
        err := Some(IllegalTag);
      } else if fieldNum <= 2 {
        if wireType != 2 {
          err := Some(WrongWireType);
          return;
        }
        var data;
        data, iNdEx, err := TakeBytes(dAtA, iNdEx);
        if err != None {
          return;
        }
        if fieldNum == 1 {
          err := Context.Unmarshal(data);
        } else {
          Content := data;
        }
      } else {
        iNdEx, err := SkipUnknown(dAtA, preIndex);
      }
    }
  }
}
