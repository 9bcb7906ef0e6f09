/** In what order the encoders write: every encoding as a sequence of records, field by field. */
module WireOrder {
  import opened Varint
  import opened Wire
  import opened MqttGrammar
  import Mqtt = MqttCodec
  import Faas = FaasCodec

  function Field(r: Record): int {
    if ReadTag(r.tag).Tag? then ReadTag(r.tag).field else 0
  }

  /** The records of s, each with a tag of one byte, in strictly ascending order of fields from lo to hi. */
  ghost predicate InOrder(fits: Record -> bool, rs: seq<Record>, s: seq<byte>, lo: int, hi: int) {
    && Records(fits, rs, s)
    && (forall i | 0 <= i < |rs| :: |rs[i].tag| == 1 && lo <= Field(rs[i]) <= hi)
    && forall i, j | 0 <= i < j < |rs| :: Field(rs[i]) < Field(rs[j])
  }

  ghost predicate Present(rs: seq<Record>, field: int) {
    exists i :: 0 <= i < |rs| && Field(rs[i]) == field
  }

  lemma {:induction false} AllBytesAppend(a: seq<Record>, b: seq<Record>)
    ensures AllBytes(a + b) == AllBytes(a) + AllBytes(b)
  {
    if a == [] {
      assert a + b == b;
    } else {
      hide RecordBytes;
      AllBytesAppend(a[1..], b);
      assert (a + b)[1..] == a[1..] + b;
      Associate(RecordBytes(a[0]), AllBytes(a[1..]), AllBytes(b));
    }
  }

  lemma OrderAppends(fits: Record -> bool, a: seq<Record>, s: seq<byte>, lo: int, mid: int, b: seq<Record>, t: seq<byte>, hi: int)
    requires InOrder(fits, a, s, lo, mid) && InOrder(fits, b, t, mid + 1, hi) && lo <= mid <= hi
    ensures InOrder(fits, a + b, s + t, lo, hi)
    ensures forall f :: Present(a + b, f) <==> Present(a, f) || Present(b, f)
  {
    AllBytesAppend(a, b);
    forall f
      ensures Present(a + b, f) <==> Present(a, f) || Present(b, f)
    {
      PresentAppends(a, b, f);
    }
  }

  lemma PresentAppends(a: seq<Record>, b: seq<Record>, f: int)
    ensures Present(a + b, f) <==> Present(a, f) || Present(b, f)
  {
    if i :| 0 <= i < |a| && Field(a[i]) == f {
      assert Field((a + b)[i]) == f;
    }
    if i :| 0 <= i < |b| && Field(b[i]) == f {
      assert Field((a + b)[|a| + i]) == f;
    }
    if i :| 0 <= i < |a + b| && Field((a + b)[i]) == f {
      assert (i < |a| && Field(a[i]) == f) || (i >= |a| && Field(b[i - |a|]) == f);
    }
  }

  lemma ShortTag(tag: byte)
    requires tag < 128
    ensures IsTag([tag], tag % 8) && ReadTag([tag]) == Tag(tag / 8, tag % 8, 1)
  {
    assert [tag] + [] == [tag];
    ReadsShortTag(tag, []);
    ShortVarint(tag, []);
  }

  lemma WholeVarint(v: uint64)
    ensures IsVarint(EncVarint(v)) && RawVarint(EncVarint(v), 0).value == v
  {
    VarintRoundTrip(v, []);
    SovCountsBytes(v);
    assert EncVarint(v) + [] == EncVarint(v);
  }

  /** A varint field that is not zero is one record with that value. */
  lemma VarintPiece(fits: Record -> bool, tag: byte, v: uint64) returns (rs: seq<Record>)
    requires tag < 128 && tag % 8 == 0
    requires forall r: Record | r.VarintRecord? && ReadTag(r.tag) == Tag(tag / 8, 0, 1) :: fits(r)
    ensures InOrder(fits, rs, VarintField(tag, v), tag / 8, tag / 8)
    ensures if v == 0 then rs == []
            else |rs| == 1 && rs[0].VarintRecord? && Field(rs[0]) == tag / 8 && RawVarint(rs[0].value, 0).value == v
  {
    hide RawVarint, EncVarint;
    rs := if v == 0 then [] else [VarintRecord([tag], EncVarint(v))];
    ShortTag(tag);
    WholeVarint(v);
    if v != 0 {
      assert AllBytes(rs[1..]) == [];
      assert AllBytes(rs) == RecordBytes(rs[0]);
    }
  }

  /** A length-delimited field is one record with its data. */
  lemma RawPiece(fits: Record -> bool, tag: byte, data: seq<byte>) returns (rs: seq<Record>)
    requires tag < 128 && tag % 8 == 2 && |data| < TWO_63
    requires fits(BytesRecord([tag], EncVarint(|data|), data))
    ensures InOrder(fits, rs, RawField(tag, data), tag / 8, tag / 8)
    ensures |rs| == 1 && rs[0].BytesRecord? && Field(rs[0]) == tag / 8 && rs[0].data == data
  {
    hide RawVarint, EncVarint;
    rs := [BytesRecord([tag], EncVarint(|data|), data)];
    ShortTag(tag);
    WholeVarint(|data|);
    assert AllBytes(rs[1..]) == [];
    assert AllBytes(rs) == RecordBytes(rs[0]);
  }

  lemma BytesPiece(fits: Record -> bool, tag: byte, data: seq<byte>) returns (rs: seq<Record>)
    requires tag < 128 && tag % 8 == 2 && |data| < TWO_63
    requires fits(BytesRecord([tag], EncVarint(|data|), data))
    ensures InOrder(fits, rs, BytesField(tag, data), tag / 8, tag / 8)
    ensures if data == [] then rs == [] else |rs| == 1 && rs[0].BytesRecord? && Field(rs[0]) == tag / 8 && rs[0].data == data
  {
    if data == [] {
      rs := [];
    } else {
      rs := RawPiece(fits, tag, data);
    }
  }

  // ---------- mqtt ----------

  predicate Carries(c: Mqtt.ContextValue, field: int) {
    match field
    case 1 => c.id != 0
    case 2 => c.ts != 0
    case 3 => c.qos != 0
    case 4 => c.flags != 0
    case 5 => c.topic != []
    case _ => false
  }

  /** A context is written as records in strictly ascending order of their fields, one for each field that is not zero. */
  lemma ContextInOrder(c: Mqtt.ContextValue) returns (rs: seq<Record>)
    requires |c.topic| < TWO_63
    ensures InOrder(ContextRecord, rs, Mqtt.EncodeContext(c), 1, 5)
    ensures forall f :: Present(rs, f) <==> Carries(c, f)
  {
    hide InOrder, Present, Field, ReadTag, RawVarint, EncVarint, VarintField, BytesField;
    ShortTag(0x2a);
    rs := BytesPiece(ContextRecord, 0x2a, c.topic);
    OnlyHere(rs, 5);
    var s := BytesField(0x2a, c.topic);
    rs := VarintAhead(0x20, c.flags, rs, s);
    s := VarintField(0x20, c.flags) + s;
    rs := VarintAhead(0x18, c.qos, rs, s);
    s := VarintField(0x18, c.qos) + s;
    rs := VarintAhead(0x10, c.ts, rs, s);
    s := VarintField(0x10, c.ts) + s;
    rs := VarintAhead(0x08, c.id, rs, s);
  }

  /** A varint field in front of later fields. */
  lemma VarintAhead(tag: byte, v: uint64, later: seq<Record>, s: seq<byte>) returns (rs: seq<Record>)
    requires tag in {0x08, 0x10, 0x18, 0x20} && InOrder(ContextRecord, later, s, tag / 8 + 1, 5)
    ensures InOrder(ContextRecord, rs, VarintField(tag, v) + s, tag / 8, 5)
    ensures forall f :: Present(rs, f) <==> (f == tag / 8 && v != 0) || Present(later, f)
  {
    hide InOrder, Present, Field, ReadTag, RawVarint, EncVarint, VarintField;
    var a := VarintPiece(ContextRecord, tag, v);
    OnlyHere(a, tag / 8);
    OrderAppends(ContextRecord, a, VarintField(tag, v), tag / 8, tag / 8, later, s, 5);
    rs := a + later;
  }

  lemma OnlyHere(rs: seq<Record>, field: int)
    requires |rs| <= 1 && (rs != [] ==> Field(rs[0]) == field)
    ensures forall f :: Present(rs, f) <==> f == field && rs != []
  {
  }

  /** A message is written as its context, always, and then its content, if there is any. */
  lemma MessageInOrder(m: Mqtt.MessageValue) returns (rs: seq<Record>)
    requires |Mqtt.EncodeMessage(m)| < TWO_63
    ensures InOrder(MessageRecord, rs, Mqtt.EncodeMessage(m), 1, 2)
    ensures |rs| == if m.content == [] then 1 else 2
    ensures rs[0].BytesRecord? && Field(rs[0]) == 1 && rs[0].data == Mqtt.EncodeContext(m.context)
    ensures m.content != [] ==> rs[1].BytesRecord? && Field(rs[1]) == 2 && rs[1].data == m.content
  {
    hide InOrder, ReadTag, RawVarint, EncVarint;
    var inner := Mqtt.EncodeContext(m.context);
    Mqtt.PartsFit(m);
    Mqtt.ContextOverlay(Mqtt.EMPTY_CONTEXT, m.context);
    ShortTag(0x0a);
    ShortTag(0x12);
    var a := RawPiece(MessageRecord, 0x0a, inner);
    var b := BytesPiece(MessageRecord, 0x12, m.content);
    OrderAppends(MessageRecord, a, RawField(0x0a, inner), 1, 1, b, BytesField(0x12, m.content), 2);
    rs := a + b;
  }

  // ---------- faas ----------

  predicate AnyRecord(r: Record) {
    true
  }

  /** A metadata record whose data are the key and then the value. */
  ghost predicate IsEntry(r: Record, k: seq<byte>, v: seq<byte>) {
    && r.BytesRecord? && Field(r) == 2
    && exists fields: seq<Record> ::
         && InOrder(AnyRecord, fields, r.data, 1, 2) && |fields| == 2
         && fields[0].BytesRecord? && Field(fields[0]) == 1 && fields[0].data == k
         && fields[1].BytesRecord? && Field(fields[1]) == 2 && fields[1].data == v
  }

  /** Well-formed records that are the entries listed, in that order. */
  ghost predicate Entries(rs: seq<Record>, s: seq<byte>, md: map<seq<byte>, seq<byte>>, order: seq<seq<byte>>) {
    && Records(AnyRecord, rs, s) && |rs| == |order|
    && forall i | 0 <= i < |rs| :: |rs[i].tag| == 1 && order[i] in md && IsEntry(rs[i], order[i], md[order[i]])
  }

  lemma EntryPiece(k: seq<byte>, v: seq<byte>) returns (r: Record)
    requires |Faas.EncodeEntry(k, v)| < TWO_63
    ensures WellFormed(r) && RecordBytes(r) == Faas.EncodeEntry(k, v) && |r.tag| == 1 && IsEntry(r, k, v)
  {
    hide InOrder, ReadTag, RawVarint, EncVarint;
    ShortTag(0x0a);
    ShortTag(0x12);
    var a := RawPiece(AnyRecord, 0x0a, k);
    var b := RawPiece(AnyRecord, 0x12, v);
    var body := RawField(0x0a, k) + RawField(0x12, v);
    OrderAppends(AnyRecord, a, RawField(0x0a, k), 1, 1, b, RawField(0x12, v), 2);
    var rs := RawPiece(AnyRecord, 0x12, body);
    r := rs[0];
    assert InOrder(AnyRecord, a + b, r.data, 1, 2);
    OneRecord(rs, RawField(0x12, body), 2);
  }

  lemma OneRecord(rs: seq<Record>, s: seq<byte>, field: int)
    requires InOrder(AnyRecord, rs, s, field, field) && |rs| == 1
    ensures WellFormed(rs[0]) && RecordBytes(rs[0]) == s && |rs[0].tag| == 1
  {
    assert AllBytes(rs[1..]) == [];
  }

  lemma {:induction false} EntriesPiece(md: map<seq<byte>, seq<byte>>, order: seq<seq<byte>>) returns (rs: seq<Record>)
    requires (forall k <- order :: k in md) && |Faas.EncodeEntries(md, order)| < TWO_63
    ensures Entries(rs, Faas.EncodeEntries(md, order), md, order)
  {
    hide Entries, IsEntry;
    if order == [] {
      rs := [];
      NoEntries(md);
    } else {
      var r := EntryPiece(order[0], md[order[0]]);
      var rest := EntriesPiece(md, order[1..]);
      rs := [r] + rest;
      EntriesCons(r, rest, Faas.EncodeEntries(md, order[1..]), md, order);
    }
  }

  lemma NoEntries(md: map<seq<byte>, seq<byte>>)
    ensures Entries([], [], md, [])
  {
  }

  lemma EntriesCons(r: Record, rest: seq<Record>, s: seq<byte>, md: map<seq<byte>, seq<byte>>, order: seq<seq<byte>>)
    requires order != [] && order[0] in md && Entries(rest, s, md, order[1..])
    requires WellFormed(r) && |r.tag| == 1 && IsEntry(r, order[0], md[order[0]])
    ensures Entries([r] + rest, RecordBytes(r) + s, md, order)
  {
    hide IsEntry, WellFormed, RecordBytes;
    assert ([r] + rest)[1..] == rest;
    assert forall i | 0 < i < |order| :: order[i] == order[1..][i - 1];
  }

  /**
   A message is written as its id, unless it is zero, then one metadata record for each key in the order of the walk,
   key before value, then its payload, unless it is empty.
   */
  lemma FaasInOrder(m: Faas.MessageValue, order: seq<seq<byte>>) returns (ids: seq<Record>, entries: seq<Record>, payloads: seq<Record>)
    requires Faas.Walk(m.metadata, order) && |Faas.EncodeMessage(m, order)| < TWO_63
    ensures Faas.EncodeMessage(m, order) == AllBytes(ids + (entries + payloads))
    ensures if m.id == 0 then ids == []
            else |ids| == 1 && WellFormed(ids[0]) && ids[0].VarintRecord? && Field(ids[0]) == 1 && |ids[0].tag| == 1
                 && RawVarint(ids[0].value, 0).value == m.id
    ensures Entries(entries, AllBytes(entries), m.metadata, order)
    ensures if m.payload == [] then payloads == []
            else |payloads| == 1 && WellFormed(payloads[0]) && payloads[0].BytesRecord? && Field(payloads[0]) == 3 && |payloads[0].tag| == 1
                 && payloads[0].data == m.payload
  {
    hide IsEntry, ReadTag, RawVarint, EncVarint;
    FieldSizes(0x1a, 0, m.payload);
    ShortTag(0x1a);
    ids := VarintPiece(AnyRecord, 0x08, m.id);
    entries := EntriesPiece(m.metadata, order);
    payloads := BytesPiece(AnyRecord, 0x1a, m.payload);
    AllBytesAppend(entries, payloads);
    AllBytesAppend(ids, entries + payloads);
  }
}
