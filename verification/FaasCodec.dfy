/** The faas.Message codec, with its metadata map written in any iteration order. */
module FaasCodec {
  import opened Wrappers
  import opened Varint
  import opened Permutations
  import opened Wire

  type Bytes = seq<byte>

  datatype MessageValue = MessageValue(id: uint64, metadata: map<Bytes, Bytes>, payload: Bytes)

  const EMPTY_MESSAGE := MessageValue(0, map[], [])

  // ---------- Encoding for a given order of the keys ----------

  function EncodeEntry(k: Bytes, v: Bytes): Bytes {
    RawField(0x12, RawField(0x0a, k) + RawField(0x12, v))
  }

  function EncodeEntries(md: map<Bytes, Bytes>, order: seq<Bytes>): Bytes
    requires forall k <- order :: k in md
  {
    if order == [] then [] else EncodeEntry(order[0], md[order[0]]) + EncodeEntries(md, order[1..])
  }

  /** An order in which a map can be walked: every key once. */
  ghost predicate Walk(md: map<Bytes, Bytes>, order: seq<Bytes>) {
    && (forall k :: k in order <==> k in md)
    && Distinct(order)
  }

  function EncodeMessage(m: MessageValue, order: seq<Bytes>): Bytes
    requires forall k <- order :: k in m.metadata
  {
    VarintField(0x08, m.id) + (EncodeEntries(m.metadata, order) + BytesField(0x1a, m.payload))
  }

  // ---------- Decoding ----------

  datatype EntryResult = Entry(key: Bytes, value: Bytes) | EntryErr(err: Error)

  /**
   The map entry loop. It runs until limit bytes are used up, but its fields may read on to the end of all the data,
   and neither the wire type nor the sign of the field number is checked.
   */
  function EntryLoop(key: Bytes, value: Bytes, s: Bytes, limit: int): EntryResult
    requires limit <= |s|
    decreases |s|
  {
    if limit <= 0 then Entry(key, value)
    else match ReadTag(s)
      case TagErr(e) => EntryErr(e)
      case Tag(field, _, n) =>
        if field == 1 || field == 2 then
          match ReadBytes(s[n..])
          case BytesErr(e) => EntryErr(e)
          case BytesOk(data, k) =>
            if field == 1 then EntryLoop(data, value, s[n + k..], limit - n - k)
            else EntryLoop(key, data, s[n + k..], limit - n - k)
        else match Skip(s, 0)
          case SkipErr(e) => EntryErr(Reported(e, |s|))
          case Skipped(k) =>
            if k >= TWO_63 then EntryErr(InvalidLength)
            else if k > limit then EntryErr(PastEntry(k - |s|))
            else EntryLoop(key, value, s[k..], limit - k)
  }

  /** A metadata field behind its tag of n bytes: an announced length, and the entry loop over it. */
  function MetadataStep(m: MessageValue, rest: Bytes, n: Positive): Step<MessageValue> {
    match RawVarint(rest, 0)
    case VarintErr(e, _) => Stop(m, e)
    case VarintOk(v, k) =>
      var length := v % TWO_64;
      if length >= TWO_63 then Stop(m, InvalidLength)
      else if k + length > |rest| then Stop(m, PastEnd(k + length - |rest|))
      else match EntryLoop([], [], rest[k..], length)
        case EntryErr(e) => Stop(m, e)
        case Entry(key, value) => Next(m.(metadata := m.metadata[key := value]), n + k + length)
  }

  /** The id is reset and then gathers the bits, also those of a varint that is cut short. */
  function IdStep(m: MessageValue, rest: Bytes, n: Positive): Step<MessageValue> {
    match RawVarint(rest, 0)
    case VarintErr(e, p) => Stop(m.(id := p % TWO_64), e)
    case VarintOk(v, k) => Next(m.(id := v % TWO_64), n + k)
  }

  function PayloadStep(m: MessageValue, rest: Bytes, n: Positive): Step<MessageValue> {
    match ReadBytes(rest)
    case BytesErr(e) => Stop(m, e)
    case BytesOk(data, k) => Next(m.(payload := data), n + k)
  }

  function MessageStep(m: MessageValue, s: Bytes): Step<MessageValue> {
    match ReadTag(s)
    case TagErr(e) => Stop(m, e)
    case Tag(field, wireType, n) =>
      if wireType == 4 then Stop(m, EndGroupTag)
      else if field <= 0 then Stop(m, IllegalTag)
      else if field == 1 then
        if wireType != 0 then Stop(m, WrongWireType) else IdStep(m, s[n..], n)
      else if field == 2 then
        if wireType != 2 then Stop(m, WrongWireType) else MetadataStep(m, s[n..], n)
      else if field == 3 then
        if wireType != 2 then Stop(m, WrongWireType) else PayloadStep(m, s[n..], n)
      else SkipStep(m, s)
  }

  function DecodeMessage(m: MessageValue, s: Bytes): Outcome<MessageValue> {
    Run(MessageStep, m, s)
  }

  // ---------- Concatenation and unknown records ----------

  lemma {:induction false} EntryLoopLocal(key: Bytes, value: Bytes, a: Bytes, b: Bytes, limit: int)
    requires limit <= |a| && EntryLoop(key, value, a, limit).Entry?
    ensures EntryLoop(key, value, a + b, limit) == EntryLoop(key, value, a, limit)
    decreases |a|
  {
    hide Skip, RawVarint, ReadTag, ReadBytes;
    if limit > 0 {
      ReadTagLocal(a, b);
      var Tag(field, _, n) := ReadTag(a);
      assert (a + b)[n..] == a[n..] + b;
      if field == 1 || field == 2 {
        ReadBytesLocal(a[n..], b);
        var BytesOk(data, k) := ReadBytes(a[n..]);
        assert (a + b)[n + k..] == a[n + k..] + b;
        EntryLoopLocal(if field == 1 then data else key, if field == 1 then value else data, a[n + k..], b, limit - n - k);
      } else {
        SkipLocal(a, b, 0);
        var Skipped(k) := Skip(a, 0);
        assert (a + b)[k..] == a[k..] + b;
        EntryLoopLocal(key, value, a[k..], b, limit - k);
      }
    }
  }

  lemma MetadataStepLocal(m: MessageValue, a: Bytes, b: Bytes, n: Positive)
    requires MetadataStep(m, a, n).Next?
    ensures MetadataStep(m, a + b, n) == MetadataStep(m, a, n)
  {
    RawVarintLocal(a, b, 0);
    var VarintOk(v, k) := RawVarint(a, 0);
    assert (a + b)[k..] == a[k..] + b;
    EntryLoopLocal([], [], a[k..], b, v % TWO_64);
  }

  lemma MessageStepLocalAt(m: MessageValue, a: Bytes, b: Bytes)
    ensures LocalAt(MessageStep, m, a, b)
  {
    hide RawVarint, ReadTag, ReadBytes, Skip, MetadataStep;
    if MessageStep(m, a).Next? && MessageStep(m, a).size <= |a| {
      ReadTagLocal(a, b);
      var n := ReadTag(a).size;
      assert (a + b)[n..] == a[n..] + b;
      if RawVarint(a[n..], 0).VarintOk? { RawVarintLocal(a[n..], b, 0); }
      if ReadBytes(a[n..]).BytesOk? { ReadBytesLocal(a[n..], b); }
      if MetadataStep(m, a[n..], n).Next? { MetadataStepLocal(m, a[n..], b, n); }
      if SkipStep(m, a).Next? && SkipStep(m, a).size <= |a| { SkipStepLocal(m, a, b); }
    }
  }

  lemma MessageStepLocal()
    ensures Local(MessageStep)
  {
    forall m, a: seq<byte>, b: seq<byte>
      ensures LocalAt(MessageStep, m, a, b)
    {
      MessageStepLocalAt(m, a, b);
    }
  }

  /** Decoding two encodings in a row merges: later map entries and scalars win. */
  lemma DecodeConcat(m: MessageValue, a: Bytes, b: Bytes)
    requires DecodeMessage(m, a).Done?
    ensures DecodeMessage(m, a + b) == DecodeMessage(DecodeMessage(m, a).m, b)
  {
    MessageStepLocal();
    RunConcat(MessageStep, m, a, b);
  }

  /** Unknown records between decoded records change nothing. */
  lemma UnknownRecordIgnored(m: MessageValue, a: Bytes, r: Record, b: Bytes)
    requires DecodeMessage(m, a).Done? && WellFormed(r) && ReadTag(r.tag).Tag? && ReadTag(r.tag).field > 3
    ensures DecodeMessage(m, a + RecordBytes(r) + b) == DecodeMessage(m, a + b)
  {
    MessageStepLocal();
    RecordTag(r, []);
    SkipsOneRecord(r, []);
    assert RecordBytes(r) + [] == RecordBytes(r);
    RunIgnores(MessageStep, m, a, RecordBytes(r), b);
  }

  // ---------- Round trips ----------

  lemma DecodesEntry(m: MessageValue, k: Bytes, v: Bytes)
    requires |EncodeEntry(k, v)| < TWO_63
    ensures DecodeMessage(m, EncodeEntry(k, v)) == Done(m.(metadata := m.metadata[k := v]))
  {
    hide Skip, EncVarint, RawVarint, Run, EntryLoop, Sov;
    var f1, f2 := RawField(0x0a, k), RawField(0x12, v);
    var s := EncodeEntry(k, v);
    assert EncodeEntry(k, v) == [0x12] + EncVarint(|f1 + f2|) + (f1 + f2);
    EntryFields(k, v);
    ReadsRawField(0x12, f1 + f2, []);
    assert s + [] == s;
    SovCountsBytes(|f1 + f2|);
    RawFieldLength(0x12, f1 + f2);
    RunOne(MessageStep, m, s);
  }

  lemma RawFieldLength(tag: byte, data: Bytes)
    requires |data| < TWO_63
    ensures var s := RawField(tag, data);
            var n := |EncVarint(|data|)|;
            s != [] && RawVarint(s[1..], 0) == VarintOk(|data|, n) && s[1..][n..] == data && |s| == 1 + n + |data|
  {
    var s := RawField(tag, data);
    assert s[1..] == EncVarint(|data|) + data;
    VarintRoundTrip(|data|, data);
    SovCountsBytes(|data|);
  }

  /** The entry loop over the two fields of an entry. */
  lemma EntryFields(k: Bytes, v: Bytes)
    requires |RawField(0x0a, k) + RawField(0x12, v)| < TWO_63
    ensures var s := RawField(0x0a, k) + RawField(0x12, v);
            EntryLoop([], [], s, |s|) == Entry(k, v)
  {
    hide Skip, EncVarint, RawVarint, ReadTag, ReadBytes, RawField;
    var f1, f2 := RawField(0x0a, k), RawField(0x12, v);
    var s := f1 + f2;
    FieldSizes(0x0a, 0, k);
    FieldSizes(0x12, 0, v);
    ReadsRawField(0x0a, k, f2);
    assert s[|f1|..] == f2;
    ReadsRawField(0x12, v, []);
    assert f2 + [] == f2 && f2[|f2|..] == [];
    assert EntryLoop(k, [], f2, |f2|) == EntryLoop(k, v, [], 0);
  }

  /** Entries decode to the map update they list, in any order. */
  lemma {:induction false} DecodesEntries(m: MessageValue, md: map<Bytes, Bytes>, order: seq<Bytes>)
    requires forall k <- order :: k in md
    requires |EncodeEntries(md, order)| < TWO_63
    ensures DecodeMessage(m, EncodeEntries(md, order))
         == Done(m.(metadata := m.metadata + map k | k in order :: md[k]))
    decreases |order|
  {
    hide Run, MessageStep, EncodeEntry;
    if order == [] {
      assert m.metadata + (map k | k in order :: md[k]) == m.metadata;
      DecodesNothing(m);
    } else {
      var k := order[0];
      var m1 := m.(metadata := m.metadata[k := md[k]]);
      DecodesEntry(m, k, md[k]);
      DecodeConcat(m, EncodeEntry(k, md[k]), EncodeEntries(md, order[1..]));
      DecodesEntries(m1, md, order[1..]);
      assert m1.metadata + (map j | j in order[1..] :: md[j]) == m.metadata + (map j | j in order :: md[j]);
    }
  }

  lemma DecodesNothing(m: MessageValue)
    ensures DecodeMessage(m, []) == Done(m)
  {
  }

  /** Decoding an encoding onto any message: the map gains the entries, a zero id and an empty payload leave the old value. */
  lemma MessageOverlay(before: MessageValue, m: MessageValue, order: seq<Bytes>)
    requires Walk(m.metadata, order) && |EncodeMessage(m, order)| < TWO_63
    ensures DecodeMessage(before, EncodeMessage(m, order)) == Done(MessageValue(
      if m.id != 0 then m.id else before.id,
      before.metadata + m.metadata,
      if m.payload != [] then m.payload else before.payload))
  {
    hide Run, MessageStep;
    var s1, s2, s3 := VarintField(0x08, m.id), EncodeEntries(m.metadata, order), BytesField(0x1a, m.payload);
    var m1 := if m.id == 0 then before else before.(id := m.id);
    DecodesId(before, m.id);
    DecodeConcat(before, s1, s2 + s3);
    assert |EncodeMessage(m, order)| == |s1| + |s2| + |s3|;
    DecodesEntries(m1, m.metadata, order);
    var m2 := m1.(metadata := m1.metadata + map k | k in order :: m.metadata[k]);
    assert (map k | k in order :: m.metadata[k]) == m.metadata;
    DecodeConcat(m1, s2, s3);
    assert |m.payload| <= |s3|;
    DecodesPayload(m2, m.payload);
  }

  lemma DecodesId(m: MessageValue, id: uint64)
    ensures DecodeMessage(m, VarintField(0x08, id)) == Done(if id == 0 then m else m.(id := id))
  {
    if id != 0 {
      var s := VarintField(0x08, id);
      ReadsVarintField(0x08, id, []);
      assert s + [] == s;
      RunOne(MessageStep, m, s);
    }
  }

  lemma DecodesPayload(m: MessageValue, payload: Bytes)
    requires |payload| < TWO_63
    ensures DecodeMessage(m, BytesField(0x1a, payload)) == Done(if payload == [] then m else m.(payload := payload))
  {
    if payload != [] {
      var s := RawField(0x1a, payload);
      ReadsRawField(0x1a, payload, []);
      assert s + [] == s;
      RunOne(MessageStep, m, s);
    }
  }

  /** Whatever order the map is walked in, unmarshalling into a fresh message gives back the id, the exact map and the payload. */
  lemma MessageRoundTrip(m: MessageValue, order: seq<Bytes>)
    requires Walk(m.metadata, order) && |EncodeMessage(m, order)| < TWO_63
    ensures DecodeMessage(EMPTY_MESSAGE, EncodeMessage(m, order)) == Done(m)
  {
    MessageOverlay(EMPTY_MESSAGE, m, order);
    assert map[] + m.metadata == m.metadata;
  }

  // ---------- The size does not depend on the order ----------

  function EntrySize(k: Bytes, v: Bytes): nat {
    var mapEntrySize := 1 + |k| + Sov(|k|) + 1 + |v| + Sov(|v|);
    mapEntrySize + 1 + Sov(mapEntrySize)
  }

  lemma EntrySizeIsLength(k: Bytes, v: Bytes)
    ensures |EncodeEntry(k, v)| == EntrySize(k, v)
  {
    FieldSizes(0x0a, 0, k);
    FieldSizes(0x12, 0, v);
    FieldSizes(0x12, 0, RawField(0x0a, k) + RawField(0x12, v));
  }

  lemma {:induction false} EntriesAppend(md: map<Bytes, Bytes>, a: seq<Bytes>, b: seq<Bytes>)
    requires forall k <- a + b :: k in md
    ensures forall k <- a :: k in md
    ensures forall k <- b :: k in md
    ensures EncodeEntries(md, a + b) == EncodeEntries(md, a) + EncodeEntries(md, b)
  {
    hide EncodeEntry;
    assert forall k <- a :: k in a + b;
    assert forall k <- b :: k in a + b;
    if a == [] {
      assert a + b == b;
    } else {
      assert (a + b)[1..] == a[1..] + b;
      EntriesAppend(md, a[1..], b);
      Associate(EncodeEntry(a[0], md[a[0]]), EncodeEntries(md, a[1..]), EncodeEntries(md, b));
    }
  }

  /** Two walks of the same keys write equally many bytes. */
  lemma {:induction false} OrdersWriteSameLength(md: map<Bytes, Bytes>, o1: seq<Bytes>, o2: seq<Bytes>)
    requires multiset(o1) == multiset(o2) && forall k <- o1 :: k in md
    ensures forall k <- o2 :: k in md
    ensures |EncodeEntries(md, o1)| == |EncodeEntries(md, o2)|
    decreases |o1|
  {
    hide EncodeEntry;
    assert forall k <- o2 :: k in multiset(o2);
    if o1 == [] {
      assert |multiset(o1)| == |multiset(o2)|;
    } else {
      var i := RemoveFirst(o1, o2);
      var k, a, b := o1[0], o2[..i], o2[i + 1..];
      OrdersWriteSameLength(md, o1[1..], a + b);
      EntriesAppend(md, a, b);
      EntriesAppend(md, a, [k] + b);
      EntriesAppend(md, [k], b);
    }
  }

  /** All iteration orders of the map give encodings of one length. */
  lemma EncodedLengthIgnoresOrder(m: MessageValue, o1: seq<Bytes>, o2: seq<Bytes>)
    requires Walk(m.metadata, o1) && Walk(m.metadata, o2)
    ensures |EncodeMessage(m, o1)| == |EncodeMessage(m, o2)|
  {
    DistinctPermutation(o1, o2);
    OrdersWriteSameLength(m.metadata, o1, o2);
  }

  // ---------- The Go struct ----------

  /** order lists, without repetition, the keys that are not left. */
  ghost predicate Rest(md: map<Bytes, Bytes>, left: set<Bytes>, order: seq<Bytes>) {
    && (forall k :: k in order <==> k in md && k !in left)
    && Distinct(order)
  }

  /** Any part of a walk can be completed at the front. */
  lemma {:induction false} CompleteWalk(md: map<Bytes, Bytes>, left: set<Bytes>, order: seq<Bytes>) returns (front: seq<Bytes>)
    requires left <= md.Keys && Rest(md, left, order)
    ensures Walk(md, front + order)
    decreases left
  {
    if left == {} {
      front := [];
      assert front + order == order;
    } else {
      var k :| k in left;
      var f := CompleteWalk(md, left - {k}, [k] + order);
      front := f + [k];
      assert front + order == f + ([k] + order);
    }
  }

  /** What has been written of a message, and the rest of it, fit the sized buffer. */
  lemma RoomForMore(m: MessageValue, left: set<Bytes>, order: seq<Bytes>, end: nat)
    requires left <= m.metadata.Keys && Rest(m.metadata, left, order)
    requires forall o | Walk(m.metadata, o) :: |EncodeMessage(m, o)| <= end
    ensures VarintFieldSize(m.id) + |EncodeEntries(m.metadata, order)| + BytesFieldSize(m.payload) <= end
    ensures |m.payload| <= end
  {
    var front := CompleteWalk(m.metadata, left, order);
    EntriesAppend(m.metadata, front, order);
    FieldSizes(0x08, m.id, []);
    FieldSizes(0x1a, 0, m.payload);
  }

  /** Some walk exists, so the payload fits the sized buffer. */
  lemma SomeWalk(m: MessageValue, end: nat)
    requires forall o | Walk(m.metadata, o) :: |EncodeMessage(m, o)| <= end
    ensures BytesFieldSize(m.payload) <= end && |m.payload| <= end
  {
    RoomForMore(m, m.metadata.Keys, [], end);
  }

  // ---------- When decoding panics ----------

  /** By how much a field of a map entry moves the cursor. */
  function FieldSize(s: Bytes, limit: int): (size: Option<Positive>)
    ensures size != None ==> s != []
  {
    match ReadTag(s)
    case TagErr(_) => None
    case Tag(field, _, n) =>
      if field == 1 || field == 2 then
        match ReadBytes(s[n..])
        case BytesErr(_) => None
        case BytesOk(_, k) => Some(n + k)
      else match Skip(s, 0)
        case SkipErr(_) => None
        case Skipped(k) => if k <= limit && k < TWO_63 then Some(k) else None
  }

  /** The loop over a map entry from i to post comes to a field at c. */
  ghost predicate EntryReaches(s: Bytes, i: nat, post: nat, c: nat)
    decreases if i <= |s| then |s| - i else 0
  {
    i < post && i <= |s| &&
    (c == i || match FieldSize(s[i..], post - i) case None => false case Some(n) => EntryReaches(s, i + n, post, c))
  }

  /** At c there is a field that is neither key nor value, and the cursor behind it wraps around. */
  ghost predicate WrapsBehind(s: Bytes, c: nat) {
    && c <= |s|
    && ReadTag(s[c..]).Tag? && ReadTag(s[c..]).field != 1 && ReadTag(s[c..]).field != 2
    && Skip(s[c..], 0).Skipped? && Skip(s[c..], 0).size < TWO_63 <= c + Skip(s[c..], 0).size
  }

  ghost predicate PanicsIn(r: EntryResult, l: nat) {
    r.EntryErr? && Reported(r.err, l) == IndexPanic
  }

  ghost predicate ReachesWrap(s: Bytes, i: nat, post: nat, c: nat) {
    EntryReaches(s, i, post, c) && WrapsBehind(s, c)
  }

  ghost predicate EntryWraps(s: Bytes, i: nat, post: nat) {
    exists c :: ReachesWrap(s, i, post, c)
  }

  lemma {:induction false} EntryPanicsIff(key: Bytes, value: Bytes, s: Bytes, i: nat, post: nat)
    requires i <= |s| && post <= |s| < TWO_63
    ensures PanicsIn(EntryLoop(key, value, s[i..], post - i), |s|) <==> EntryWraps(s, i, post)
    decreases |s| - i
  {
    hide Skip, RawVarint, ReadTag, ReadBytes, Reported, WrapsBehind;
    if i < post {
      EntryFieldPanics(key, value, s, i, post);
      if FieldSize(s[i..], post - i) == None {
        LastField(s, i, post);
      } else {
        var key', value' := EntryMoves(key, value, s, i, post);
        EntryPanicsIff(key', value', s, i + FieldSize(s[i..], post - i).value, post);
        NextField(s, i, post);
      }
    }
  }

  lemma LastField(s: Bytes, i: nat, post: nat)
    requires i < post && i <= |s| && FieldSize(s[i..], post - i) == None
    ensures EntryWraps(s, i, post) <==> WrapsBehind(s, i)
  {
    hide FieldSize, WrapsBehind;
    if WrapsBehind(s, i) {
      assert ReachesWrap(s, i, post, i);
    }
  }

  lemma NextField(s: Bytes, i: nat, post: nat)
    requires i < post && i <= |s| && FieldSize(s[i..], post - i) != None && !WrapsBehind(s, i)
    ensures EntryWraps(s, i, post) <==> EntryWraps(s, i + FieldSize(s[i..], post - i).value, post)
  {
    hide FieldSize, WrapsBehind;
    var next := i + FieldSize(s[i..], post - i).value;
    if EntryWraps(s, i, post) {
      var c :| ReachesWrap(s, i, post, c);
      assert ReachesWrap(s, next, post, c);
    }
    if EntryWraps(s, next, post) {
      var c :| ReachesWrap(s, next, post, c);
      assert ReachesWrap(s, i, post, c);
    }
  }

  lemma EntryFieldPanics(key: Bytes, value: Bytes, s: Bytes, i: nat, post: nat)
    requires i < post <= |s| < TWO_63
    ensures WrapsBehind(s, i) ==> FieldSize(s[i..], post - i) == None
    ensures FieldSize(s[i..], post - i) == None ==>
              (PanicsIn(EntryLoop(key, value, s[i..], post - i), |s|) <==> WrapsBehind(s, i))
  {
    hide Skip, RawVarint, ReadTag, ReadBytes;
  }

  lemma EntryMoves(key: Bytes, value: Bytes, s: Bytes, i: nat, post: nat) returns (key': Bytes, value': Bytes)
    requires i < post <= |s| && FieldSize(s[i..], post - i) != None
    ensures var n := FieldSize(s[i..], post - i).value;
            i + n <= |s| && EntryLoop(key, value, s[i..], post - i) == EntryLoop(key', value', s[i + n..], post - i - n)
  {
    hide Skip, RawVarint, ReadTag, ReadBytes;
    var n := FieldSize(s[i..], post - i).value;
    assert s[i..][n..] == s[i + n..];
    var Tag(field, _, k) := ReadTag(s[i..]);
    key' := if field == 1 then ReadBytes(s[i..][k..]).data else key;
    value' := if field == 2 then ReadBytes(s[i..][k..]).data else value;
  }

  /** A map entry starts at i, and its loop comes to such a field. */
  ghost predicate PanicEntry(s: Bytes, i: nat) {
    && i <= |s|
    && RawVarint(s[i..], 0).VarintOk?
    && var VarintOk(v, k) := RawVarint(s[i..], 0);
       v % TWO_64 < TWO_63 && i + k + v % TWO_64 <= |s| && EntryWraps(s, i + k, i + k + v % TWO_64)
  }

  /** A metadata record with such an entry starts at i. */
  ghost predicate PanicRecord(s: Bytes, i: nat) {
    && i <= |s|
    && ReadTag(s[i..]).Tag?
    && var n := ReadTag(s[i..]).size;
       ReadTag(s[i..]) == Tag(2, 2, n) && PanicEntry(s, i + n)
  }

  ghost predicate StepPanics(step: Step<MessageValue>, l: nat) {
    step.Stop? && Reported(step.err, l) == IndexPanic
  }

  lemma MetadataPanicsIff(m: MessageValue, s: Bytes, i: nat, n: Positive)
    requires i <= |s| < TWO_63
    ensures StepPanics(MetadataStep(m, s[i..], n), |s|) <==> PanicEntry(s, i)
  {
    hide RawVarint, EntryWraps, EntryLoop;
    if RawVarint(s[i..], 0).VarintOk? {
      var VarintOk(v, k) := RawVarint(s[i..], 0);
      var length := v % TWO_64;
      if length < TWO_63 && i + k + length <= |s| {
        assert s[i..][k..] == s[i + k..];
        EntryPanicsIff([], [], s, i + k, i + k + length);
      }
    }
  }

  lemma StepPanicsIff(m: MessageValue, s: Bytes, i: nat)
    requires i <= |s| < TWO_63
    ensures StepPanics(MessageStep(m, s[i..]), |s|) <==> PanicRecord(s, i)
  {
    hide RawVarint, ReadTag, ReadBytes, Skip, MetadataStep, PanicEntry;
    if ReadTag(s[i..]).Tag? {
      var n := ReadTag(s[i..]).size;
      assert s[i..][n..] == s[i + n..];
      MetadataPanicsIff(m, s, i + n, n);
    }
  }

  ghost predicate OutcomePanics(outcome: Outcome<MessageValue>, l: nat) {
    outcome.Failed? && Reported(outcome.err, l) == IndexPanic
  }

  /** Decoding from i on comes to such a record at start. */
  ghost predicate ReachesPanic(m: MessageValue, s: Bytes, i: nat, start: nat) {
    i <= start && i <= |s| && RunReaches(MessageStep, m, s[i..], start - i) && PanicRecord(s, start)
  }

  lemma {:induction false} RunPanicsIff(m: MessageValue, s: Bytes, i: nat)
    requires i <= |s| < TWO_63
    ensures OutcomePanics(Run(MessageStep, m, s[i..]), |s|) <==> exists start :: ReachesPanic(m, s, i, start)
    decreases |s| - i
  {
    hide MessageStep, PanicRecord;
    StepPanicsIff(m, s, i);
    var step := MessageStep(m, s[i..]);
    if i < |s| && step.Next? && i + step.size <= |s| {
      var m', next := step.m, i + step.size;
      assert s[i..][step.size..] == s[next..];
      RunPanicsIff(m', s, next);
      if start :| ReachesPanic(m, s, i, start) {
        assert ReachesPanic(m', s, next, start);
      }
      if start :| ReachesPanic(m', s, next, start) {
        assert ReachesPanic(m, s, i, start);
      }
    } else {
      NothingBehind(m, s, i);
      NoRecordAtEnd(s);
    }
  }

  lemma NoRecordAtEnd(s: Bytes)
    ensures !PanicRecord(s, |s|)
  {
    assert s[|s|..] == [];
  }

  lemma NothingBehind(m: MessageValue, s: Bytes, i: nat)
    requires i <= |s|
    requires i == |s| || MessageStep(m, s[i..]).Stop? || i + MessageStep(m, s[i..]).size > |s|
    ensures (exists start :: ReachesPanic(m, s, i, start)) <==> PanicRecord(s, i)
  {
    hide MessageStep, PanicRecord;
    if PanicRecord(s, i) {
      assert ReachesPanic(m, s, i, i);
    }
  }

  /**
   Decoding ends in an index panic if and only if it comes to a map entry, and in that to a field at some c, other than key and
   value, whose end c + k wraps around while its size k does not.
   */
  lemma DecodePanicsIff(m: MessageValue, s: Bytes)
    requires |s| < TWO_63
    ensures OutcomePanics(DecodeMessage(m, s), |s|) <==> exists start :: ReachesPanic(m, s, 0, start)
  {
    assert s[0..] == s;
    RunPanicsIff(m, s, 0);
  }

  /** Twelve bytes suffice: a map entry that holds one unknown record, which announces 2^63 - 11 bytes. */
  lemma DecodePanics(m: MessageValue)
    ensures var s := [0x12, 10, 0x1a] + EncVarint(TWO_63 - 11);
            |s| == 12 && OutcomePanics(DecodeMessage(m, s), |s|)
  {
    hide EncVarint, DecodeMessage, OutcomePanics, EntryWraps, RawVarint, Skip, ReadTag;
    var size := TWO_63 - 11;
    var s := [0x12, 10, 0x1a] + EncVarint(size);
    NineBytes(size);
    UnknownSize(s, size);
    WrapsAtOnce(s);
    EntryHeader(s);
    assert s[0..] == s;
    assert ReachesPanic(m, s, 0, 0);
    DecodePanicsIff(m, s);
  }

  lemma WrapsAtOnce(s: Bytes)
    requires |s| == 12 && WrapsBehind(s, 2)
    ensures EntryWraps(s, 2, 12)
  {
    assert ReachesWrap(s, 2, 12, 2);
  }

  lemma EntryHeader(s: Bytes)
    requires |s| == 12 && s[0] == 0x12 && s[1] == 10
    ensures ReadTag(s) == Tag(2, 2, 1) && RawVarint(s[1..], 0) == VarintOk(10, 1)
  {
    assert s == [0x12] + s[1..];
    ReadsShortTag(0x12, s[1..]);
  }

  lemma NineBytes(v: nat)
    requires TWO_63 / 128 <= v < TWO_63
    ensures |EncVarint(v)| == 9
  {
    hide EncVarint;
    var v4 := v / 128 / 128 / 128 / 128;
    FourBytesMore(v);
    FourBytesMore(v4);
    LastByte(v4 / 128 / 128 / 128 / 128);
  }

  lemma FourBytesMore(v: nat)
    requires v >= 128 * 128 * 128 * 128
    ensures |EncVarint(v)| == 4 + |EncVarint(v / 128 / 128 / 128 / 128)|
  {
    hide EncVarint;
    OneByteMore(v);
    OneByteMore(v / 128);
    OneByteMore(v / 128 / 128);
    OneByteMore(v / 128 / 128 / 128);
  }

  lemma OneByteMore(v: nat)
    requires v >= 128
    ensures |EncVarint(v)| == 1 + |EncVarint(v / 128)|
  {
  }

  lemma LastByte(v: nat)
    requires v < 128
    ensures |EncVarint(v)| == 1
  {
  }

  lemma UnknownSize(s: Bytes, size: nat)
    requires |s| == 12 && s[2..] == [0x1a] + EncVarint(size) && size == TWO_63 - 11 && |EncVarint(size)| == 9
    ensures WrapsBehind(s, 2)
  {
    hide EncVarint, RawVarint;
    var t := s[2..];
    ReadsShortTag(0x1a, t[1..]);
    ShortVarint(0x1a, t[1..]);
    assert t[1..] == EncVarint(size) + [];
    VarintRoundTrip(size, []);
    SovCountsBytes(size);
    assert t == [0x1a] + t[1..];
    assert RawVarint(t[1..], 0) == VarintOk(size, 9);
    assert Payload(2, t[1..]) == Token(Plain, 9 + size);
    assert RawVarint(t, 0) == VarintOk(0x1a, 1) && WireType(0x1a) == 2;
    assert SkipToken(t) == Token(Plain, 10 + size);
  }

  // ---------- Equality ----------

  /** A missing key reads as the empty string. */
  function Lookup(md: map<Bytes, Bytes>, k: Bytes): Bytes {
    if k in md then md[k] else []
  }

  /** The generated comparison: as many keys, and equal values at the first message's keys. */
  predicate ComparesEqual(a: MessageValue, b: MessageValue) {
    && a.id == b.id
    && |a.metadata| == |b.metadata|
    && (forall k <- a.metadata :: a.metadata[k] == Lookup(b.metadata, k))
    && a.payload == b.payload
  }

  /** Messages that compare equal are equal unless an empty value stands at a key that the other lacks; without such a key the comparison is exact. */
  lemma ComparesEqualIffEqual(a: MessageValue, b: MessageValue)
    ensures a == b <==> ComparesEqual(a, b) && forall k <- a.metadata :: a.metadata[k] == [] ==> k in b.metadata
  {
    if ComparesEqual(a, b) && forall k <- a.metadata :: a.metadata[k] == [] ==> k in b.metadata {
      assert a.metadata.Keys <= b.metadata.Keys;
      SubsetOfSameSize(a.metadata.Keys, b.metadata.Keys);
      assert |a.metadata.Keys| == |a.metadata| && |b.metadata.Keys| == |b.metadata|;
    }
  }

  lemma SubsetOfSameSize(a: set<Bytes>, b: set<Bytes>)
    requires a <= b && |a| == |b|
    ensures a == b
  {
    assert b == a + (b - a);
  }

  /** A comparison that holds also holds the other way round if and only if whatever the first message lacks is empty in the second. */
  lemma ComparesBackIff(a: MessageValue, b: MessageValue)
    requires ComparesEqual(a, b)
    ensures ComparesEqual(b, a) <==> forall k <- b.metadata :: k !in a.metadata ==> b.metadata[k] == []
  {
  }

  /** So the comparison is not symmetric. */
  lemma ComparisonIsNotSymmetric(k: Bytes, k': Bytes, v: Bytes)
    requires k != k' && v != []
    ensures var a, b := MessageValue(0, map[k := []], []), MessageValue(0, map[k' := v], []);
            ComparesEqual(a, b) && !ComparesEqual(b, a)
  {
  }

  class Message {
    var ID: uint64
    var Metadata: map<Bytes, Bytes>
    var Payload: Bytes

    constructor ()
      ensures Value() == EMPTY_MESSAGE
    {
      ID, Metadata, Payload := 0, map[], [];
    }

    function Value(): MessageValue
      reads this
    {
      MessageValue(ID, Metadata, Payload)
    }

    method Equal(that: Message) returns (same: bool)
      ensures same <==> ComparesEqual(Value(), that.Value())
    {
      if ID != that.ID || |Metadata| != |that.Metadata| {
        return false;
      }
      var todo := Metadata.Keys;
      while todo != {}
        invariant todo <= Metadata.Keys
        invariant forall k <- Metadata :: k !in todo ==> Metadata[k] == Lookup(that.Metadata, k)
      {
        var k :| k in todo;
        todo := todo - {k};
        if Metadata[k] != Lookup(that.Metadata, k) {
          return false;
        }
      }
      return Payload == that.Payload;
    }

    /** Size counts exactly the bytes that marshalling writes in any order. */
    method Size() returns (n: nat)
      ensures forall order | Walk(Metadata, order) :: n == |EncodeMessage(Value(), order)|
    {
      hide EncodeEntry, VarintField, BytesField, Sov;
      n := 0;
      if ID != 0 {
        n := n + 1 + Sov(ID);
      }
      ghost var walked: seq<Bytes> := [];
      ghost var idSize := n;
      var left := Metadata.Keys;
      while left != {}
        invariant left <= Metadata.Keys && forall k :: k in walked <==> k in Metadata.Keys - left
        invariant Distinct(walked)
        invariant n == idSize + |EncodeEntries(Metadata, walked)|
      {
        var k :| k in left;
        var v := Metadata[k];
        var mapEntrySize := 1 + |k| + Sov(|k|) + 1 + |v| + Sov(|v|);
        n := n + mapEntrySize + 1 + Sov(mapEntrySize);
        EntrySizeIsLength(k, v);
        assert k !in walked;
        EntriesAppend(Metadata, walked, [k]);
        walked := walked + [k];
        left := left - {k};
      }
      var l := |Payload|;
      if l > 0 {
        n := n + 1 + l + Sov(l);
      }
      FieldSizes(0x08, ID, []);
      FieldSizes(0x1a, 0, Payload);
      forall order | Walk(Metadata, order)
        ensures n == |EncodeMessage(Value(), order)|
      {
        EncodedLengthIgnoresOrder(Value(), walked, order);
      }
    }

    /** Fills the end of dAtA[:end] back to front; order is the reverse of the order in which the map was walked. */
    method MarshalToSizedBuffer(dAtA: array<byte>, end: nat) returns (n: nat, ghost order: seq<Bytes>)
      requires end <= dAtA.Length && end < TWO_63
      requires forall o | Walk(Metadata, o) :: |EncodeMessage(Value(), o)| <= end
      modifies dAtA
      ensures Walk(Metadata, order) && n <= end && Prepended(dAtA, end - n, end, EncodeMessage(Value(), order))
    {
      hide EncodeEntry, EncodeEntries, VarintField, BytesField, BytesFieldSize, VarintFieldSize, Rest;
      ghost var behind, tail := dAtA[end..], BytesField(0x1a, Payload);
      FieldSizes(0x08, ID, []);
      FieldSizes(0x1a, 0, Payload);
      SomeWalk(Value(), end);
      var i := PutBytesField(dAtA, end, 0x1a, Payload);
      i, order := PutEntries(dAtA, i, end, |tail|);
      Associate(EncodeEntries(Metadata, order), tail, behind);
      i := PutVarintField(dAtA, i, 0x08, ID);
      Associate(VarintField(0x08, ID), EncodeEntries(Metadata, order) + tail, behind);
      n := end - i;
    }

    /** The map entries, in whatever order the keys come; room is what the sized buffer has left for id and entries. */
    method PutEntries(dAtA: array<byte>, start: nat, ghost end: nat, ghost tailSize: nat) returns (i: nat, ghost order: seq<Bytes>)
      requires start + tailSize == end <= dAtA.Length && end < TWO_63 && tailSize == BytesFieldSize(Payload)
      requires forall o | Walk(Metadata, o) :: |EncodeMessage(Value(), o)| <= end
      modifies dAtA
      ensures Walk(Metadata, order) && VarintFieldSize(ID) <= i
      ensures Prepended(dAtA, i, start, EncodeEntries(Metadata, order))
    {
      hide EncodeEntry, BytesFieldSize, VarintFieldSize;
      ghost var behind := dAtA[start..];
      i, order := start, [];
      var left := Metadata.Keys;
      while left != {}
        invariant left <= Metadata.Keys && Rest(Metadata, left, order)
        invariant 0 <= i && i + |EncodeEntries(Metadata, order)| == start
        invariant dAtA[i..] == EncodeEntries(Metadata, order) + behind
        invariant forall k :: 0 <= k < i ==> dAtA[k] == old(dAtA[k])
      {
        var k :| k in left;
        var v := Metadata[k];
        ghost var order' := [k] + order;
        assert k !in order && order'[0] == k && order'[1..] == order;
        RoomForMore(Value(), left - {k}, order', end);
        EntrySizeIsLength(k, v);
        i := PutEntry(dAtA, i, k, v);
        Associate(EncodeEntry(k, v), EncodeEntries(Metadata, order), behind);
        order := order';
        left := left - {k};
      }
      RoomForMore(Value(), {}, order, end);
    }

    /** One map entry, value first, with its own length in front. */
    method PutEntry(dAtA: array<byte>, end: nat, k: Bytes, v: Bytes) returns (i: nat)
      requires EntrySize(k, v) <= end <= dAtA.Length && end < TWO_63
      modifies dAtA
      ensures Prepended(dAtA, i, end, EncodeEntry(k, v))
    {
      hide EncVarint, Sov;
      var baseI := end;
      ghost var behind, f1, f2 := dAtA[end..], RawField(0x0a, k), RawField(0x12, v);
      FieldSizes(0x0a, 0, k);
      FieldSizes(0x12, 0, v);
      SovCountsBytes(|f1 + f2|);
      i := PutRawField(dAtA, end, 0x12, v);
      i := PutRawField(dAtA, i, 0x0a, k);
      Associate(f1, f2, behind);
      i := PutVarint(dAtA, i, baseI - i);
      i := PutByte(dAtA, i, 0x12);
      Reassociate([0x12], EncVarint(|f1 + f2|), f1 + f2, behind);
      assert dAtA[i..] == EncodeEntry(k, v) + behind;
    }

    /** The buffer that Size allocates is filled to its first byte. */
    method Marshal() returns (dAtA: array<byte>, ghost order: seq<Bytes>)
      requires forall o | Walk(Metadata, o) :: |EncodeMessage(Value(), o)| < TWO_63
      ensures fresh(dAtA) && Walk(Metadata, order) && dAtA[..] == EncodeMessage(Value(), order)
    {
      var size := Size();
      ghost var walk := CompleteWalk(Metadata, Metadata.Keys, []);
      assert size == |EncodeMessage(Value(), walk + [])|;
      dAtA := new byte[size](_ => 0);
      var n;
      n, order := MarshalToSizedBuffer(dAtA, size);
      assert dAtA[0..] == EncodeMessage(Value(), order) + [];
    }

    /** Decodes on top of the current fields. */
    method Unmarshal(dAtA: Slice) returns (err: Option<Error>)
      modifies this
      ensures Returned(DecodeMessage(old(Value()), dAtA), |dAtA|, Value(), err)
    {
      var l := |dAtA|;
      var iNdEx: nat := 0;
      hide MessageStep, Run, Took;
      ghost var whole := DecodeMessage(Value(), dAtA);
      assert dAtA[0..] == dAtA;
      while iNdEx < l
        invariant iNdEx <= l && whole == DecodeMessage(Value(), dAtA[iNdEx..])
      {
        ghost var start, s, before := iNdEx, dAtA[iNdEx..], Value();
        iNdEx, err := UnmarshalField(dAtA, iNdEx);
        RunTakes(MessageStep, before, s, l, Value(), iNdEx - start, err);
        if err != None {
          return;
        }
        assert s[iNdEx - start..] == dAtA[iNdEx..];
      }
      err := None;
    }

    /** One turn of the decoding loop. */
    method UnmarshalField(dAtA: Slice, preIndex: nat) returns (iNdEx: nat, err: Option<Error>)
      requires preIndex < |dAtA|
      modifies this
      ensures Took(MessageStep(old(Value()), dAtA[preIndex..]), |dAtA| - preIndex, |dAtA|, Value(), iNdEx - preIndex, err)
    {
      hide RawVarint, Skip, ReadTag, ReadBytes, IdStep, MetadataStep, PayloadStep;
      var fieldNum, wireType;
      fieldNum, wireType, iNdEx, err := TakeTag(dAtA, preIndex);
      if err != None {
        return;
      }
      ghost var tagSize := iNdEx - preIndex;
      assert dAtA[preIndex..][tagSize..] == dAtA[iNdEx..];
      if wireType == 4 {
        err := Some(EndGroupTag);
      } else if fieldNum <= 0 {
        err := Some(IllegalTag);
      } else if fieldNum == 1 {
        if wireType != 0 {
          err := Some(WrongWireType);
        } else {
          iNdEx, err := UnmarshalId(dAtA, iNdEx, tagSize);
        }
      } else if fieldNum == 2 {
        if wireType != 2 {
          err := Some(WrongWireType);
        } else {
          iNdEx, err := UnmarshalEntry(dAtA, iNdEx, tagSize);
        }
      } else if fieldNum == 3 {
        if wireType != 2 {
          err := Some(WrongWireType);
        } else {
          iNdEx, err := UnmarshalPayload(dAtA, iNdEx, tagSize);
        }
      } else {
        iNdEx, err := SkipUnknown(dAtA, preIndex);
      }
    }

    method UnmarshalId(dAtA: Slice, start: nat, ghost tagSize: nat) returns (iNdEx: nat, err: Option<Error>)
      requires start <= |dAtA| && tagSize > 0
      modifies this
      ensures Took(IdStep(old(Value()), dAtA[start..], tagSize), tagSize + |dAtA| - start, |dAtA|, Value(), tagSize + iNdEx - start, err)
    {
      hide RawVarint;
      var value;
      value, iNdEx, err := ReadUint64(dAtA, start);
      ID := value;
    }

    method UnmarshalPayload(dAtA: Slice, start: nat, ghost tagSize: nat) returns (iNdEx: nat, err: Option<Error>)
      requires start <= |dAtA| && tagSize > 0
      modifies this
      ensures Took(PayloadStep(old(Value()), dAtA[start..], tagSize), tagSize + |dAtA| - start, |dAtA|, Value(), tagSize + iNdEx - start, err)
    {
      hide ReadBytes;
      var data;
      data, iNdEx, err := TakeBytes(dAtA, start);
      if err == None {
        Payload := data;
      }
    }

    /** The length of a map entry and the loop over its fields; the cursor ends where the length says. */
    method UnmarshalEntry(dAtA: Slice, start: nat, ghost tagSize: nat) returns (iNdEx: nat, err: Option<Error>)
      requires start <= |dAtA| && tagSize > 0
      modifies this
      ensures Took(MetadataStep(old(Value()), dAtA[start..], tagSize), tagSize + |dAtA| - start, |dAtA|, Value(), tagSize + iNdEx - start, err)
    {
      hide RawVarint, Skip, ReadTag, ReadBytes;
      ghost var rest := dAtA[start..];
      var msglen;
      msglen, iNdEx, err := ReadUint64(dAtA, start);
      if err != None {
        return;
      }
      if msglen >= TWO_63 {
        err := Some(InvalidLength);
        return;
      }
      var postIndex := iNdEx + msglen;
      if postIndex >= TWO_63 {
        err := Some(InvalidLength);
        return;
      }
      if postIndex > |dAtA| {
        err := Some(UnexpectedEOF);
        return;
      }
      assert rest[iNdEx - start..] == dAtA[iNdEx..];
      var mapkey, mapvalue := [], [];
      ghost var entry := EntryLoop([], [], dAtA[iNdEx..], msglen);
      while iNdEx < postIndex
        invariant iNdEx <= |dAtA| && postIndex <= |dAtA|
        invariant entry == EntryLoop(mapkey, mapvalue, dAtA[iNdEx..], postIndex - iNdEx)
        invariant Value() == old(Value())
        decreases |dAtA| - iNdEx
      {
        mapkey, mapvalue, iNdEx, err := EntryField(mapkey, mapvalue, dAtA, iNdEx, postIndex);
        if err != None {
          return;
        }
      }
      Metadata := Metadata[mapkey := mapvalue];
      iNdEx := postIndex;
      err := None;
    }

    /** One turn of the map entry loop. */
    method EntryField(mapkey: Bytes, mapvalue: Bytes, dAtA: Slice, entryPreIndex: nat, postIndex: nat)
      returns (key: Bytes, value: Bytes, iNdEx: nat, err: Option<Error>)
      requires entryPreIndex < postIndex <= |dAtA|
      ensures err == None ==> entryPreIndex < iNdEx <= |dAtA|
      ensures var entry := EntryLoop(mapkey, mapvalue, dAtA[entryPreIndex..], postIndex - entryPreIndex);
              if err == None then entry == EntryLoop(key, value, dAtA[iNdEx..], postIndex - iNdEx)
              else entry.EntryErr? && err == Some(Reported(entry.err, |dAtA|))
    {
      hide RawVarint, Skip, ReadTag, ReadBytes;
      ghost var s := dAtA[entryPreIndex..];
      key, value := mapkey, mapvalue;
      var fieldNum, wireType;
      fieldNum, wireType, iNdEx, err := TakeTag(dAtA, entryPreIndex);
      if err != None {
        return;
      }
      if fieldNum == 1 {
        key, iNdEx, err := TakeBytes(dAtA, iNdEx);
      } else if fieldNum == 2 {
        value, iNdEx, err := TakeBytes(dAtA, iNdEx);
      } else {
        iNdEx := entryPreIndex;
        var skippy;
        skippy, err := SkipRecord(dAtA[iNdEx..]);
        if err != None {
          return;
        }
        if iNdEx + skippy >= TWO_63 {
          err := Some(IndexPanic);
          return;
        }
        if iNdEx + skippy > postIndex {
          err := Some(UnexpectedEOF);
          return;
        }
        iNdEx := iNdEx + skippy;
      }
      if err == None {
        assert s[iNdEx - entryPreIndex..] == dAtA[iNdEx..];
      }
    }
  }
}
