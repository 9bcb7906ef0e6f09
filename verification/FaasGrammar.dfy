/** What any well-formed records do to a faas.Message and inside a map entry, in whatever order they come. */
module FaasGrammar {
  import opened Wrappers
  import opened BitOps
  import opened Varint
  import opened Wire
  import opened FaasCodec
  import opened MqttGrammar

  function Field(r: Record): int {
    if ReadTag(r.tag).Tag? then ReadTag(r.tag).field else 0
  }

  /** The data of the last record of a field, if there is one. */
  function LastData(rs: seq<Record>, field: int, before: Bytes): Bytes {
    if rs == [] then before
    else
      var last := rs[|rs| - 1];
      if Field(last) == field && last.BytesRecord? then last.data else LastData(rs[..|rs| - 1], field, before)
  }

  /** Keys and values are length-delimited; all other fields may be anything. */
  predicate EntryRecord(r: Record) {
    WellFormed(r) && (Field(r) == 1 || Field(r) == 2 ==> r.BytesRecord?)
  }

  predicate EntryRecords(rs: seq<Record>) {
    forall i | 0 <= i < |rs| :: EntryRecord(rs[i])
  }

  lemma {:induction false} LastDataCons(r: Record, rs: seq<Record>, field: int, before: Bytes)
    ensures LastData([r] + rs, field, before) == LastData(rs, field, if Field(r) == field && r.BytesRecord? then r.data else before)
  {
    hide Field;
    if rs == [] {
      assert [r][..0] == [];
    } else {
      LastDataCons(r, rs[..|rs| - 1], field, before);
      assert ([r] + rs)[..|rs|] == [r] + rs[..|rs| - 1];
    }
  }

  /** In a map entry the last key and the last value count, in any order and among any unknown fields. */
  lemma {:induction false} EntryReads(key: Bytes, value: Bytes, rs: seq<Record>)
    requires EntryRecords(rs) && |AllBytes(rs)| < TWO_63
    ensures EntryLoop(key, value, AllBytes(rs), |AllBytes(rs)|) == Entry(LastData(rs, 1, key), LastData(rs, 2, value))
    decreases |rs|
  {
    hide EntryLoop, EntryRecord;
    if rs == [] {
      NothingLeft(key, value);
    } else {
      var r, rest := rs[0], rs[1..];
      assert rs == [r] + rest;
      LastDataCons(r, rest, 1, key);
      LastDataCons(r, rest, 2, value);
      FirstField(key, value, r, AllBytes(rest));
      EntryReads(if Field(r) == 1 && r.BytesRecord? then r.data else key, if Field(r) == 2 && r.BytesRecord? then r.data else value, rest);
    }
  }

  lemma NothingLeft(key: Bytes, value: Bytes)
    ensures EntryLoop(key, value, [], 0) == Entry(key, value)
  {
  }

  lemma FirstField(key: Bytes, value: Bytes, r: Record, rest: Bytes)
    requires EntryRecord(r) && |RecordBytes(r) + rest| < TWO_63
    ensures EntryLoop(key, value, RecordBytes(r) + rest, |RecordBytes(r) + rest|)
         == EntryLoop(if Field(r) == 1 && r.BytesRecord? then r.data else key,
                      if Field(r) == 2 && r.BytesRecord? then r.data else value, rest, |rest|)
  {
    hide RawVarint, ReadTag, ReadBytes, Skip, WellFormed, RecordBytes;
    var s, n := RecordBytes(r) + rest, |RecordBytes(r)|;
    assert s[..n] == RecordBytes(r) && s[n..] == rest;
    SeesRecord(r, s);
    if Field(r) == 1 || Field(r) == 2 {
      BytesTag(r);
      SeesBytes(r, s);
      BytesLength(r);
      assert s[ReadTag(s).size + (|r.length| + |r.data|)..] == rest;
    }
  }

  lemma BytesTag(r: Record)
    requires WellFormed(r) && r.BytesRecord?
    ensures ReadTag(r.tag).Tag? && ReadTag(r.tag).wireType == 2 && ReadTag(r.tag).size == |r.tag|
  {
    hide RawVarint;
  }

  lemma BytesLength(r: Record)
    requires r.BytesRecord?
    ensures |RecordBytes(r)| == |r.tag| + |r.length| + |r.data|
  {
  }

  /** The records a message knows: a varint, entries that can be read, and a payload. */
  predicate KnownShape(r: Record) {
    && WellFormed(r) && Field(r) > 0
    && (Field(r) == 1 ==> ReadTag(r.tag).wireType == 0)
    && (Field(r) == 2 || Field(r) == 3 ==> r.BytesRecord?)
  }

  /** The id is overwritten with the low 64 bits and the payload replaced; an entry sets its last key to its last value; unknown records do nothing. */
  lemma RecordTaken(m: MessageValue, r: Record, rs: seq<Record>)
    requires KnownShape(r)
    requires Field(r) == 2 ==> EntryRecords(rs) && r.data == AllBytes(rs)
    ensures var decoded := DecodeMessage(m, RecordBytes(r));
            && decoded.Done?
            && (Field(r) == 1 ==> r.VarintRecord? && decoded.m == m.(id := RawVarint(r.value, 0).value % TWO_64))
            && (Field(r) == 2 ==> decoded.m == m.(metadata := m.metadata[LastData(rs, 1, []) := LastData(rs, 2, [])]))
            && (Field(r) == 3 ==> decoded.m == m.(payload := r.data))
            && (Field(r) > 3 ==> decoded.m == m)
  {
    hide RawVarint, ReadTag, ReadBytes, Skip, WellFormed, RecordBytes, Run, EntryLoop, LastData;
    var s := RecordBytes(r);
    assert s[..|s|] == s;
    SeesRecord(r, s);
    if Field(r) == 1 {
      SeesVarint(r, s);
      SkipOfVarint(s);
    } else if Field(r) == 2 {
      BytesTag(r);
      EntryHead(m, r, rs);
    } else if Field(r) == 3 {
      BytesTag(r);
      SeesBytes(r, s);
      BytesLength(r);
    }
    RunOne(MessageStep, m, s);
  }

  lemma EntryHead(m: MessageValue, r: Record, rs: seq<Record>)
    requires WellFormed(r) && r.BytesRecord? && EntryRecords(rs) && r.data == AllBytes(rs)
    ensures var s := RecordBytes(r);
            MetadataStep(m, s[|r.tag|..], |r.tag|) == Next(m.(metadata := m.metadata[LastData(rs, 1, []) := LastData(rs, 2, [])]), |s|)
  {
    hide RawVarint, EntryLoop, LastData;
    var s := RecordBytes(r);
    assert s[|r.tag|..] == r.length + r.data;
    VarintHead(r.length, r.data);
    EntryReads([], [], rs);
  }

  lemma TagRefused(m: MessageValue, s: Bytes)
    requires s != [] && ReadTag(s).Tag? && TagError(ReadTag(s), map[1 := 0, 2 := 2, 3 := 2]) != None
    ensures DecodeMessage(m, s) == Failed(m, TagError(ReadTag(s), map[1 := 0, 2 := 2, 3 := 2]).value)
  {
    hide ReadTag;
  }

  /** An id whose varint is cut short keeps the bits read so far. */
  lemma CutIdKeepsBits(m: MessageValue, v: uint64, k: nat)
    requires k < |EncVarint(v)| <= 10
    ensures DecodeMessage(m, [0x08] + EncVarint(v)[..k]) == Failed(m.(id := v % Pow2(7 * k) % TWO_64), UnexpectedEOF)
  {
    hide RawVarint, EncVarint, Pow2;
    var s := [0x08] + EncVarint(v)[..k];
    ReadsShortTag(0x08, EncVarint(v)[..k]);
    assert s[1..] == EncVarint(v)[..k];
    CutVarint(v, k, 0);
  }
}
