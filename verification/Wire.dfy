/**
 The wire layer shared by the generated message codecs: tags, length-delimited data,
 skipping an unknown record, and the decoding loop as a fold of one-record steps.
 */
module Wire {
  import opened Wrappers
  import opened Varint
  import opened BitOps

  // ---------- Tags and length-delimited data ----------

  /** An error that the code returns wherever it occurs. */
  predicate Concrete(e: Error) {
    !e.PastEnd? && !e.PastEntry?
  }

  /** An error that is no index panic, wherever it occurs. */
  predicate NoPanic(e: Error) {
    !e.PastEntry? && e != IndexPanic
  }

  datatype TagResult = Tag(field: int, wireType: nat, size: nat) | TagErr(err: Error)

  /** int32(x) for an unsigned x */
  function Int32(x: nat): (r: int)
    ensures -TWO_31 <= r < TWO_31
  {
    var y := x % TWO_32;
    if y >= TWO_31 then y - TWO_32 else y
  }

  function FieldNumber(wire: nat): int {
    Int32(wire % TWO_64 / 8)
  }

  function ReadTag(s: seq<byte>): (r: TagResult)
    ensures r.Tag? ==> 0 < r.size <= |s|
    ensures r.TagErr? ==> Concrete(r.err) && NoPanic(r.err)
  {
    match RawVarint(s, 0)
    case VarintErr(e, _) => TagErr(e)
    case VarintOk(v, n) => Tag(FieldNumber(v), WireType(v), n)
  }

  /** A Go slice: its length is an int of 64 bits. */
  type Slice = s: seq<byte> | |s| < TWO_63

  /**
   The error that the code returns for data of l bytes. A cursor that passes 2^63 wraps around and is negative, which the code
   checks; only behind an unknown record of a map entry it does not, and then indexes with it.
   */
  function Reported(e: Error, l: nat): (r: Error)
    ensures Concrete(r)
    ensures NoPanic(e) ==> r != IndexPanic
  {
    match e
    case PastEnd(excess) => if l + excess >= TWO_63 then InvalidLength else UnexpectedEOF
    case PastEntry(beyond) => if l + beyond >= TWO_63 then IndexPanic else UnexpectedEOF
    case _ => e
  }

  datatype BytesResult = BytesOk(data: seq<byte>, size: nat) | BytesErr(err: Error)

  /** A length varint, which must not be negative as an int64, and that many bytes. */
  function ReadBytes(s: seq<byte>): (r: BytesResult)
    ensures r.BytesOk? ==> |r.data| < r.size <= |s|
    ensures r.BytesErr? ==> NoPanic(r.err)
  {
    match RawVarint(s, 0)
    case VarintErr(e, _) => BytesErr(e)
    case VarintOk(v, n) =>
      var length := v % TWO_64;
      if length >= TWO_63 then BytesErr(InvalidLength)
      else if n + length > |s| then BytesErr(PastEnd(n + length - |s|))
      else BytesOk(s[n..n + length], n + length)
  }

  /** The shift loop into a 64-bit register. */
  method ReadUint64(dAtA: seq<byte>, start: nat) returns (value: uint64, iNdEx: nat, err: Option<Error>)
    requires start <= |dAtA|
    ensures start <= iNdEx <= |dAtA|
    ensures match RawVarint(dAtA[start..], 0)
            case VarintOk(v, n) => err == None && iNdEx == start + n && value == v % TWO_64
            case VarintErr(e, p) => err == Some(e) && value == p % TWO_64
  {
    hide RawVarint, Pow2;
    Pow2Constants();
    value, iNdEx, err := ReadVarint(dAtA, start, 64);
  }

  /** The same into a 32-bit register, which loses the bits above. */
  method ReadUint32(dAtA: seq<byte>, start: nat) returns (value: uint32, iNdEx: nat, err: Option<Error>)
    requires start <= |dAtA|
    ensures start <= iNdEx <= |dAtA|
    ensures match RawVarint(dAtA[start..], 0)
            case VarintOk(v, n) => err == None && iNdEx == start + n && value == v % TWO_32
            case VarintErr(e, p) => err == Some(e) && value == p % TWO_32
  {
    hide RawVarint, Pow2;
    Pow2Constants();
    value, iNdEx, err := ReadVarint(dAtA, start, 32);
  }

  lemma ReadTagLocal(a: seq<byte>, b: seq<byte>)
    requires ReadTag(a).Tag?
    ensures ReadTag(a + b) == ReadTag(a) && ReadTag(a).size <= |a|
  {
    RawVarintLocal(a, b, 0);
  }

  lemma ReadBytesLocal(a: seq<byte>, b: seq<byte>)
    requires ReadBytes(a).BytesOk?
    ensures ReadBytes(a + b) == ReadBytes(a) && ReadBytes(a).size <= |a|
  {
    RawVarintLocal(a, b, 0);
    var n := RawVarint(a, 0).size;
    assert (a + b)[n..ReadBytes(a).size] == a[n..ReadBytes(a).size];
  }

  /** A one-byte tag as the encoders write it. */
  lemma ReadsShortTag(tag: byte, rest: seq<byte>)
    requires tag < 128
    ensures ReadTag([tag] + rest) == Tag(tag / 8, tag % 8, 1)
  {
    hide RawVarint, FieldNumber, WireType;
    ShortVarint(tag, rest);
    TagParts(tag);
  }

  lemma TagParts(tag: byte)
    ensures FieldNumber(tag) == tag / 8 && WireType(tag) == tag % 8
  {
  }

  lemma ShortVarint(b: byte, rest: seq<byte>)
    requires b < 128
    ensures RawVarint([b] + rest, 0) == VarintOk(b, 1)
  {
  }

  lemma ReadsBackBytes(data: seq<byte>, rest: seq<byte>)
    requires |data| < TWO_63
    ensures var enc := EncVarint(|data|) + data;
            ReadBytes(enc + rest) == BytesOk(data, |enc|)
  {
    hide RawVarint, EncVarint, Sov;
    var head := EncVarint(|data|);
    var s := head + data + rest;
    assert s == head + (data + rest);
    VarintRoundTrip(|data|, data + rest);
    SovCountsBytes(|data|);
    assert s[|head|..|head| + |data|] == data;
  }

  // ---------- Skipping ----------

  /** What the token after a tag does to the nesting depth. */
  datatype Nesting = Plain | Open | Close

  datatype TokenResult = Token(nesting: Nesting, size: nat) | TokenErr(err: Error)

  /** The payload behind a tag of the given wire type. The size may run past the end of s. */
  function Payload(wireType: nat, s: seq<byte>): (r: TokenResult)
    ensures r.TokenErr? ==> Concrete(r.err) && NoPanic(r.err)
  {
    if wireType == 0 then
      match RawVarint(s, 0)
      case VarintErr(e, _) => TokenErr(e)
      case VarintOk(_, k) => Token(Plain, k)
    else if wireType == 1 then Token(Plain, 8)
    else if wireType == 2 then
      match RawVarint(s, 0)
      case VarintErr(e, _) => TokenErr(e)
      case VarintOk(length, k) =>
        if length % TWO_64 >= TWO_63 then TokenErr(InvalidLength) else Token(Plain, k + length % TWO_64)
    else if wireType == 3 then Token(Open, 0)
    else if wireType == 4 then Token(Close, 0)
    else if wireType == 5 then Token(Plain, 4)
    else TokenErr(IllegalWireType)
  }

  function WireType(wire: nat): nat {
    wire % TWO_64 % 8
  }

  /** One token of the skip loop: a tag and the payload of its wire type. */
  function SkipToken(s: seq<byte>): (r: TokenResult)
    ensures r.Token? ==> r.size > 0
    ensures r.TokenErr? ==> Concrete(r.err) && NoPanic(r.err)
  {
    match RawVarint(s, 0)
    case VarintErr(e, _) => TokenErr(e)
    case VarintOk(v, n) =>
      match Payload(WireType(v), s[n..])
      case TokenErr(e) => TokenErr(e)
      case Token(nesting, k) => Token(nesting, n + k)
  }

  datatype SkipResult = Skipped(size: nat) | SkipErr(err: Error)

  function NewDepth(nesting: Nesting, depth: nat): nat
    requires nesting == Close ==> depth > 0
  {
    match nesting
    case Plain => depth
    case Open => depth + 1
    case Close => depth - 1
  }

  /** The skip loop from a given nesting depth: it stops when the depth is back at 0 after a token. */
  function Skip(s: seq<byte>, depth: nat): (r: SkipResult)
    ensures r.Skipped? ==> r.size > 0
    ensures r.SkipErr? ==> NoPanic(r.err)
    decreases |s|
  {
    if s == [] then SkipErr(UnexpectedEOF)
    else match SkipToken(s)
      case TokenErr(e) => SkipErr(e)
      case Token(nesting, n) =>
        if nesting == Close && depth == 0 then SkipErr(UnexpectedEndOfGroup)
        else if NewDepth(nesting, depth) == 0 then Skipped(n)
        else if n > |s| then SkipErr(PastEnd(n - |s|))
        else Plus(n, Skip(s[n..], NewDepth(nesting, depth)))
  }

  function Plus(n: nat, r: SkipResult): SkipResult {
    match r
    case Skipped(size) => Skipped(n + size)
    case SkipErr(e) => SkipErr(e)
  }

  /** One token inside s, and what is left to skip behind it. */
  lemma SkipUnfold(s: seq<byte>, depth: nat, nesting: Nesting, n: nat, tail: seq<byte>)
    requires s != [] && SkipToken(s) == Token(nesting, n) && (nesting == Close ==> depth > 0)
    requires n <= |s| && tail == s[n..]
    ensures Skip(s, depth) == Plus(n, if NewDepth(nesting, depth) == 0 then Skipped(0) else Skip(tail, NewDepth(nesting, depth)))
  {
  }

  lemma SkipTokenLocal(a: seq<byte>, b: seq<byte>)
    requires SkipToken(a).Token?
    ensures SkipToken(a + b) == SkipToken(a)
  {
    RawVarintLocal(a, b, 0);
    var n := RawVarint(a, 0).size;
    assert (a + b)[n..] == a[n..] + b;
    PayloadLocal(WireType(RawVarint(a, 0).value), a[n..], b);
  }

  lemma PayloadLocal(wireType: nat, a: seq<byte>, b: seq<byte>)
    requires Payload(wireType, a).Token?
    ensures Payload(wireType, a + b) == Payload(wireType, a)
  {
    if RawVarint(a, 0).VarintOk? {
      RawVarintLocal(a, b, 0);
    }
  }

  lemma {:induction false} SkipLocal(a: seq<byte>, b: seq<byte>, depth: nat)
    requires Skip(a, depth).Skipped? && Skip(a, depth).size <= |a|
    ensures Skip(a + b, depth) == Skip(a, depth)
    decreases |a|
  {
    SkipTokenLocal(a, b);
    var nesting, n := SkipToken(a).nesting, SkipToken(a).size;
    assert (a + b)[n..] == a[n..] + b;
    SkipUnfold(a, depth, nesting, n, a[n..]);
    SkipUnfold(a + b, depth, nesting, n, a[n..] + b);
    if NewDepth(nesting, depth) != 0 {
      SkipLocal(a[n..], b, NewDepth(nesting, depth));
    }
  }

  /** What a skipped token does to cursor and depth: an end tag outside any group is an error. */
  ghost predicate Moves(token: TokenResult, depth: nat, moved: int, depth': nat, err: Option<Error>) {
    match token
    case TokenErr(e) => err == Some(e)
    case Token(nesting, size) =>
      if nesting == Close && depth == 0 then err == Some(UnexpectedEndOfGroup)
      else err == None && moved == size && depth' == NewDepth(nesting, depth)
  }

  /** The switch over wire types: the end of the payload behind a tag, and the new depth. */
  method SkipPayload(dAtA: seq<byte>, start: nat, wireType: nat, depth: nat)
    returns (iNdEx: nat, depth': nat, err: Option<Error>)
    requires start <= |dAtA|
    ensures Moves(Payload(wireType, dAtA[start..]), depth, iNdEx - start, depth', err)
  {
    hide RawVarint;
    iNdEx, depth', err := start, depth, None;
    if wireType == 0 {
      var v;
      v, iNdEx, err := ReadUint64(dAtA, start);
    } else if wireType == 1 {
      iNdEx := iNdEx + 8;
    } else if wireType == 2 {
      var length;
      length, iNdEx, err := ReadUint64(dAtA, start);
      if err == None && length >= TWO_63 {
        err := Some(InvalidLength);
      }
      iNdEx := iNdEx + length;
    } else if wireType == 3 {
      depth' := depth + 1;
    } else if wireType == 4 {
      if depth == 0 {
        err := Some(UnexpectedEndOfGroup);
      } else {
        depth' := depth - 1;
      }
    } else if wireType == 5 {
      iNdEx := iNdEx + 4;
    } else {
      err := Some(IllegalWireType);
    }
  }

  /** One turn of the skip loop: the cursor behind the token and the new depth. */
  method SkipOneToken(dAtA: seq<byte>, start: nat, depth: nat) returns (iNdEx: nat, depth': nat, err: Option<Error>)
    requires start <= |dAtA|
    ensures Moves(SkipToken(dAtA[start..]), depth, iNdEx - start, depth', err)
  {
    hide RawVarint, Payload, And;
    var wire;
    depth' := depth;
    wire, iNdEx, err := ReadUint64(dAtA, start);
    if err == None {
      assert dAtA[start..][iNdEx - start..] == dAtA[iNdEx..];
      TagBits(wire);
      iNdEx, depth', err := SkipPayload(dAtA, iNdEx, And(wire, 0x7), depth);
    }
  }

  /** The skip routine of the generated code: a token loop with a depth counter. A cursor from 2^63 on is a negative one. */
  method SkipRecord(dAtA: Slice) returns (n: nat, err: Option<Error>)
    ensures match Skip(dAtA, 0)
            case Skipped(size) => if size >= TWO_63 then err == Some(InvalidLength) && n == 0 else err == None && n == size
            case SkipErr(e) => err == Some(Reported(e, |dAtA|)) && n == 0
  {
    hide SkipToken;
    var l := |dAtA|;
    var iNdEx: nat := 0;
    var depth: nat := 0;
    ghost var whole := Skip(dAtA, 0);
    while iNdEx < l
      invariant iNdEx <= l ==> whole == Plus(iNdEx, Skip(dAtA[iNdEx..], depth))
      invariant iNdEx > l ==> iNdEx < TWO_63 && whole == SkipErr(PastEnd(iNdEx - l))
      decreases l - iNdEx
    {
      ghost var start, s, before := iNdEx, dAtA[iNdEx..], depth;
      iNdEx, depth, err := SkipOneToken(dAtA, iNdEx, depth);
      if err != None {
        return 0, err;
      }
      if iNdEx >= TWO_63 {
        return 0, Some(InvalidLength);
      }
      if iNdEx <= l {
        assert dAtA[iNdEx..] == s[iNdEx - start..];
        SkipUnfold(s, before, SkipToken(s).nesting, SkipToken(s).size, dAtA[iNdEx..]);
      }
      if depth == 0 {
        return iNdEx, None;
      }
    }
    return 0, Some(UnexpectedEOF);
  }

  /** What a skip refuses at its first tag: an end of a group that was not started, wire types there are none of, and a length that is negative as an int64. */
  lemma SkipRefuses(s: seq<byte>)
    requires s != [] && ReadTag(s).Tag?
    ensures ReadTag(s).wireType == 4 ==> Skip(s, 0) == SkipErr(UnexpectedEndOfGroup)
    ensures ReadTag(s).wireType == 6 || ReadTag(s).wireType == 7 ==> Skip(s, 0) == SkipErr(IllegalWireType)
    ensures ReadTag(s).wireType == 2 ==>
              match RawVarint(s[ReadTag(s).size..], 0)
              case VarintErr(e, _) => Skip(s, 0) == SkipErr(e)
              case VarintOk(v, _) => v % TWO_64 >= TWO_63 ==> Skip(s, 0) == SkipErr(InvalidLength)
  {
    hide RawVarint;
  }

  // ---------- Record trees ----------

  /** A record as bytes: the tag, length and value varints are kept as written, so padded varints are covered too. */
  datatype Record =
    | VarintRecord(tag: seq<byte>, value: seq<byte>)
    | Fixed64Record(tag: seq<byte>, data: seq<byte>)
    | BytesRecord(tag: seq<byte>, length: seq<byte>, data: seq<byte>)
    | GroupRecord(tag: seq<byte>, items: seq<Record>, end: seq<byte>)
    | Fixed32Record(tag: seq<byte>, data: seq<byte>)

  predicate IsVarint(s: seq<byte>) {
    RawVarint(s, 0).VarintOk? && RawVarint(s, 0).size == |s|
  }

  predicate IsTag(s: seq<byte>, wireType: nat) {
    IsVarint(s) && WireType(RawVarint(s, 0).value) == wireType
  }

  predicate WellFormed(r: Record) {
    match r
    case VarintRecord(tag, value) => IsTag(tag, 0) && IsVarint(value)
    case Fixed64Record(tag, data) => IsTag(tag, 1) && |data| == 8
    case BytesRecord(tag, length, data) =>
      IsTag(tag, 2) && IsVarint(length) && RawVarint(length, 0).value % TWO_64 == |data| < TWO_63
    case GroupRecord(tag, items, end) => IsTag(tag, 3) && IsTag(end, 4) && AllWellFormed(items)
    case Fixed32Record(tag, data) => IsTag(tag, 5) && |data| == 4
  }

  predicate AllWellFormed(rs: seq<Record>) {
    rs == [] || (WellFormed(rs[0]) && AllWellFormed(rs[1..]))
  }

  function RecordBytes(r: Record): seq<byte> {
    match r
    case VarintRecord(tag, value) => tag + value
    case Fixed64Record(tag, data) => tag + data
    case BytesRecord(tag, length, data) => tag + length + data
    case GroupRecord(tag, items, end) => tag + AllBytes(items) + end
    case Fixed32Record(tag, data) => tag + data
  }

  function AllBytes(rs: seq<Record>): seq<byte> {
    if rs == [] then [] else RecordBytes(rs[0]) + AllBytes(rs[1..])
  }

  lemma VarintHead(s: seq<byte>, rest: seq<byte>)
    requires IsVarint(s)
    ensures s != [] && RawVarint(s + rest, 0) == RawVarint(s, 0) && (s + rest)[|s|..] == rest
  {
    RawVarintLocal(s, rest, 0);
  }

  /** A tag and a body whose payload is read whole make one token. */
  lemma TagToken(tag: seq<byte>, wireType: nat, body: seq<byte>, rest: seq<byte>)
    requires IsTag(tag, wireType) && Payload(wireType, body + rest).Token? && Payload(wireType, body + rest).size == |body|
    ensures SkipToken(tag + body + rest) == Token(Payload(wireType, body + rest).nesting, |tag + body|)
    ensures (tag + body + rest)[|tag + body|..] == rest && tag != []
  {
    hide RawVarint, Payload;
    assert tag + body + rest == tag + (body + rest);
    VarintHead(tag, body + rest);
  }

  /** One token per leaf record. */
  lemma LeafToken(r: Record, rest: seq<byte>)
    requires WellFormed(r) && !r.GroupRecord?
    ensures RecordBytes(r) != [] && SkipToken(RecordBytes(r) + rest) == Token(Plain, |RecordBytes(r)|)
  {
    match r
    case VarintRecord(tag, value) =>
      VarintHead(value, rest);
      TagToken(tag, 0, value, rest);
    case BytesRecord(tag, length, data) =>
      VarintHead(length, data + rest);
      assert length + data + rest == length + (data + rest);
      assert tag + length + data == tag + (length + data);
      TagToken(tag, 2, length + data, rest);
    case Fixed64Record(tag, data) =>
      TagToken(tag, 1, data, rest);
    case Fixed32Record(tag, data) =>
      TagToken(tag, 5, data, rest);
  }

  lemma AfterOpen(tag: seq<byte>, rest: seq<byte>, depth: nat)
    requires IsTag(tag, 3)
    ensures Skip(tag + rest, depth) == Plus(|tag|, Skip(rest, depth + 1))
  {
    TagToken(tag, 3, [], rest);
    assert tag + [] == tag && [] + rest == rest;
    SkipUnfold(tag + rest, depth, Open, |tag|, rest);
  }

  lemma AfterClose(tag: seq<byte>, rest: seq<byte>, depth: nat)
    requires IsTag(tag, 4) && depth > 0
    ensures Skip(tag + rest, depth) == Plus(|tag|, if depth == 1 then Skipped(0) else Skip(rest, depth - 1))
  {
    TagToken(tag, 4, [], rest);
    assert tag + [] == tag && [] + rest == rest;
    SkipUnfold(tag + rest, depth, Close, |tag|, rest);
  }

  /** The items of an open group and its end tag. */
  lemma {:induction false} SkipsGroupBody(items: seq<Record>, end: seq<byte>, rest: seq<byte>, depth: nat)
    requires IsTag(end, 4) && AllWellFormed(items)
    ensures Skip(AllBytes(items) + (end + rest), depth + 1)
         == Plus(|AllBytes(items)| + |end|, if depth == 0 then Skipped(0) else Skip(rest, depth))
    decreases items, 3
  {
    hide Skip;
    SkipsAllInner(items, end + rest, depth + 1);
    AfterClose(end, rest, depth + 1);
  }

  /** A group is one opening token, its items, and one closing token. */
  lemma {:induction false} SkipsGroup(r: Record, rest: seq<byte>, depth: nat)
    requires WellFormed(r) && r.GroupRecord?
    ensures Skip(RecordBytes(r) + rest, depth) == Plus(|RecordBytes(r)|, if depth == 0 then Skipped(0) else Skip(rest, depth))
    decreases r, 0
  {
    hide Skip;
    SkipsGroupBody(r.items, r.end, rest, depth);
    var inner := AllBytes(r.items) + (r.end + rest);
    Reassociate(r.tag, AllBytes(r.items), r.end, rest);
    AfterOpen(r.tag, inner, depth);
    assert |RecordBytes(r)| == |r.tag| + (|AllBytes(r.items)| + |r.end|);
  }

  /** A record tree inside a group is passed over whole: the loop goes on behind it at the same depth. */
  lemma {:induction false} SkipsInner(r: Record, rest: seq<byte>, depth: nat)
    requires WellFormed(r) && depth > 0
    ensures Skip(RecordBytes(r) + rest, depth) == Plus(|RecordBytes(r)|, Skip(rest, depth))
    decreases r, 1
  {
    if r.GroupRecord? {
      SkipsGroup(r, rest, depth);
    } else {
      LeafToken(r, rest);
      assert (RecordBytes(r) + rest)[|RecordBytes(r)|..] == rest;
    }
  }

  lemma {:induction false} SkipsAllInner(rs: seq<Record>, rest: seq<byte>, depth: nat)
    requires AllWellFormed(rs) && depth > 0
    ensures Skip(AllBytes(rs) + rest, depth) == Plus(|AllBytes(rs)|, Skip(rest, depth))
    decreases rs, 2
  {
    if rs == [] {
      assert AllBytes(rs) + rest == rest;
    } else {
      assert AllBytes(rs) + rest == RecordBytes(rs[0]) + (AllBytes(rs[1..]) + rest);
      SkipsInner(rs[0], AllBytes(rs[1..]) + rest, depth);
      SkipsAllInner(rs[1..], rest, depth);
    }
  }

  /** Skipping consumes exactly one record, whatever follows it and however deep its groups nest. */
  lemma SkipsOneRecord(r: Record, rest: seq<byte>)
    requires WellFormed(r)
    ensures Skip(RecordBytes(r) + rest, 0) == Skipped(|RecordBytes(r)|)
  {
    if r.GroupRecord? {
      SkipsGroup(r, rest, 0);
    } else {
      LeafToken(r, rest);
    }
  }

  /** The rest of an open group: records, then its end tag. */
  datatype Frame = Frame(items: seq<Record>, end: seq<byte>)

  predicate FramesOk(fs: seq<Frame>) {
    fs == [] || (AllWellFormed(fs[0].items) && IsTag(fs[0].end, 4) && FramesOk(fs[1..]))
  }

  function FramesBytes(fs: seq<Frame>): seq<byte> {
    if fs == [] then [] else AllBytes(fs[0].items) + fs[0].end + FramesBytes(fs[1..])
  }

  lemma TagPrefix(s: seq<byte>, n: nat)
    requires RawVarint(s, 0).VarintOk? && n == RawVarint(s, 0).size
    ensures IsVarint(s[..n]) && RawVarint(s[..n], 0) == RawVarint(s, 0)
  {
    RawVarintPrefix(s, 0);
  }

  lemma {:induction false} RawVarintPrefix(s: seq<byte>, k: nat)
    requires RawVarint(s, k).VarintOk?
    ensures RawVarint(s[..RawVarint(s, k).size], k) == RawVarint(s, k)
    decreases |s|
  {
    var n := RawVarint(s, k).size;
    if s[0] >= 128 {
      assert s[..n][1..] == s[1..][..n - 1];
      RawVarintPrefix(s[1..], k + 1);
    }
  }

  /** A plain token inside s is a leaf record. */
  lemma TokenLeaf(s: seq<byte>) returns (r: Record)
    requires SkipToken(s).Token? && SkipToken(s).nesting == Plain && SkipToken(s).size <= |s|
    ensures WellFormed(r) && RecordBytes(r) == s[..SkipToken(s).size]
  {
    hide RawVarint, Payload;
    var n, size := RawVarint(s, 0).size, SkipToken(s).size;
    TagPrefix(s, n);
    assert s[n..][..size - n] == s[n..size];
    assert s[..size] == s[..n] + s[n..size];
    r := PayloadLeaf(s[..n], WireType(RawVarint(s, 0).value), s[n..]);
  }

  lemma PayloadLeaf(tag: seq<byte>, wireType: nat, s: seq<byte>) returns (r: Record)
    requires IsTag(tag, wireType)
    requires var p := Payload(wireType, s); p.Token? && p.nesting == Plain && p.size <= |s|
    ensures WellFormed(r) && RecordBytes(r) == tag + s[..Payload(wireType, s).size]
  {
    hide RawVarint;
    var body := s[..Payload(wireType, s).size];
    if wireType == 0 {
      TagPrefix(s, |body|);
      r := VarintRecord(tag, body);
    } else if wireType == 1 {
      r := Fixed64Record(tag, body);
    } else if wireType == 5 {
      r := Fixed32Record(tag, body);
    } else {
      var k := RawVarint(s, 0).size;
      TagPrefix(s, k);
      r := BytesRecord(tag, s[..k], body[k..]);
      assert body == s[..k] + body[k..];
      assert tag + s[..k] + body[k..] == tag + body;
    }
  }

  /** A record in front of the innermost open group's rest. */
  lemma FramesCons(r: Record, fs: seq<Frame>) returns (gs: seq<Frame>)
    requires WellFormed(r) && FramesOk(fs) && fs != []
    ensures |gs| == |fs| && FramesOk(gs) && FramesBytes(gs) == RecordBytes(r) + FramesBytes(fs)
  {
    gs := [Frame([r] + fs[0].items, fs[0].end)] + fs[1..];
    assert gs[1..] == fs[1..];
    AllBytesCons(r, fs[0].items);
    Reassociate(RecordBytes(r), AllBytes(fs[0].items), fs[0].end, FramesBytes(fs[1..]));
  }

  lemma AllBytesCons(r: Record, rs: seq<Record>)
    ensures AllBytes([r] + rs) == RecordBytes(r) + AllBytes(rs)
    ensures WellFormed(r) && AllWellFormed(rs) ==> AllWellFormed([r] + rs)
  {
    assert ([r] + rs)[1..] == rs;
  }

  lemma Associate(a: seq<byte>, b: seq<byte>, c: seq<byte>)
    ensures a + (b + c) == a + b + c
  {
  }

  lemma Reassociate(a: seq<byte>, b: seq<byte>, c: seq<byte>, d: seq<byte>)
    ensures a + b + c + d == a + (b + c + d) == a + (b + (c + d))
  {
  }

  /** An end tag in front of open groups ends one more. */
  lemma FramesEnd(end: seq<byte>, fs: seq<Frame>) returns (gs: seq<Frame>)
    requires IsTag(end, 4) && FramesOk(fs)
    ensures |gs| == |fs| + 1 && FramesOk(gs) && FramesBytes(gs) == end + FramesBytes(fs)
  {
    gs := [Frame([], end)] + fs;
    assert gs[1..] == fs;
  }

  /** A start tag in front of open groups makes the innermost one a record of the next. */
  lemma FramesGroup(tag: seq<byte>, fs: seq<Frame>) returns (gs: seq<Frame>)
    requires IsTag(tag, 3) && FramesOk(fs) && |fs| > 1
    ensures |gs| == |fs| - 1 && FramesOk(gs) && FramesBytes(gs) == tag + FramesBytes(fs)
  {
    gs := FramesCons(GroupRecord(tag, fs[0].items, fs[0].end), fs[1..]);
    Reassociate(tag, AllBytes(fs[0].items), fs[0].end, FramesBytes(fs[1..]));
  }

  /** The first token of a successful skip, and the skip of what is behind it. */
  lemma SkipHead(s: seq<byte>, depth: nat)
    requires Skip(s, depth).Skipped? && Skip(s, depth).size <= |s|
    ensures s != [] && SkipToken(s).Token? && (SkipToken(s).nesting == Close ==> depth > 0) && SkipToken(s).size <= |s|
    ensures var n, depth' := SkipToken(s).size, NewDepth(SkipToken(s).nesting, depth);
            if depth' == 0 then Skip(s, depth).size == n
            else Skip(s[n..], depth').Skipped? && Skip(s, depth).size == n + Skip(s[n..], depth').size
  {
    hide SkipToken;
  }

  /** From inside depth groups, a successful skip has read the rest of each of them. */
  lemma {:induction false} SkipReadsFrames(s: seq<byte>, depth: nat) returns (fs: seq<Frame>)
    requires depth > 0 && Skip(s, depth).Skipped? && Skip(s, depth).size <= |s|
    ensures |fs| == depth && FramesOk(fs) && FramesBytes(fs) == s[..Skip(s, depth).size]
    decreases |s|
  {
    hide Skip, SkipToken, RawVarint;
    SkipHead(s, depth);
    var nesting, n := SkipToken(s).nesting, SkipToken(s).size;
    var tail, depth' := s[n..], NewDepth(nesting, depth);
    var inner := [];
    if depth' > 0 {
      inner := SkipReadsFrames(tail, depth');
    }
    assert |inner| == depth' && FramesOk(inner) && s[..n] + FramesBytes(inner) == s[..Skip(s, depth).size];
    match nesting {
      case Plain =>
        var r := TokenLeaf(s);
        fs := FramesCons(r, inner);
      case Open =>
        BareToken(s);
        fs := FramesGroup(s[..n], inner);
      case Close =>
        BareToken(s);
        fs := FramesEnd(s[..n], inner);
    }
  }

  /** A group token is only a tag. */
  lemma BareToken(s: seq<byte>)
    requires SkipToken(s).Token? && SkipToken(s).nesting != Plain
    ensures SkipToken(s).size <= |s|
    ensures IsTag(s[..SkipToken(s).size], if SkipToken(s).nesting == Open then 3 else 4)
  {
    hide RawVarint;
    TagPrefix(s, SkipToken(s).size);
  }

  /** The record a successful skip has read. */
  lemma SkippedRecord(s: seq<byte>) returns (r: Record)
    requires Skip(s, 0).Skipped? && Skip(s, 0).size <= |s|
    ensures WellFormed(r) && RecordBytes(r) == s[..Skip(s, 0).size]
  {
    hide Skip, SkipToken, RawVarint;
    SkipHead(s, 0);
    var nesting, n := SkipToken(s).nesting, SkipToken(s).size;
    var tail := s[n..];
    if nesting == Plain {
      r := TokenLeaf(s);
    } else {
      BareToken(s);
      var fs := SkipReadsFrames(tail, 1);
      r := GroupRecord(s[..n], fs[0].items, fs[0].end);
      assert FramesBytes(fs) == AllBytes(r.items) + r.end;
      assert s[..Skip(s, 0).size] == s[..n] + tail[..Skip(tail, 1).size];
      assert RecordBytes(r) == s[..n] + FramesBytes(fs);
    }
  }

  /** The depth counter recognises exactly the record trees: a skip of n bytes inside s succeeds iff s starts with a well-formed record of n bytes. */
  lemma SkipIffRecord(s: seq<byte>, n: nat)
    requires n <= |s|
    ensures Skip(s, 0) == Skipped(n) <==> exists r :: WellFormed(r) && RecordBytes(r) == s[..n]
  {
    hide Skip, RecordBytes, WellFormed;
    if Skip(s, 0) == Skipped(n) {
      var r := SkippedRecord(s);
    }
    forall r | WellFormed(r) && RecordBytes(r) == s[..n]
      ensures Skip(s, 0) == Skipped(n)
    {
      SkipsOneRecord(r, s[n..]);
      assert s == s[..n] + s[n..];
    }
  }

  // ---------- The decoding loop ----------

  type Positive = n: nat | n > 0 witness 1

  /** One turn of a decoding loop: a record of the given size was taken in, or decoding stops. */
  datatype Step<M> = Next(m: M, size: Positive) | Stop(m: M, err: Error)

  /** Decoding returns the updated message, also when it fails. */
  datatype Outcome<M> = Done(m: M) | Failed(m: M, err: Error)

  function Run<M>(step: (M, seq<byte>) -> Step<M>, m: M, s: seq<byte>): Outcome<M>
    decreases |s|
  {
    if s == [] then Done(m)
    else match step(m, s)
      case Stop(m', e) => Failed(m', e)
      case Next(m', n) => if n <= |s| then Run(step, m', s[n..]) else Failed(m', PastEnd(n - |s|))
  }

  /** Decoding s comes to a record that starts there, or to the end. */
  ghost predicate RunReaches<M>(step: (M, seq<byte>) -> Step<M>, m: M, s: seq<byte>, start: nat)
    decreases |s|
  {
    start == 0 ||
    (s != [] &&
     match step(m, s)
     case Stop(_, _) => false
     case Next(m', n) => n <= |s| && n <= start && RunReaches(step, m', s[n..], start - n))
  }

  /** A step that takes a record lying inside a takes the same record when more bytes follow. */
  ghost predicate LocalAt<M(!new)>(step: (M, seq<byte>) -> Step<M>, m: M, a: seq<byte>, b: seq<byte>) {
    step(m, a).Next? && step(m, a).size <= |a| ==> step(m, a + b) == step(m, a)
  }

  ghost predicate Local<M(!new)>(step: (M, seq<byte>) -> Step<M>) {
    forall m, a, b :: LocalAt(step, m, a, b)
  }

  /** If a decodes, then decoding a + b is decoding b on top of the message a left. */
  lemma {:induction false} RunConcat<M(!new)>(step: (M, seq<byte>) -> Step<M>, m: M, a: seq<byte>, b: seq<byte>)
    requires Local(step) && Run(step, m, a).Done?
    ensures Run(step, m, a + b) == Run(step, Run(step, m, a).m, b)
    decreases |a|
  {
    if a == [] {
      assert a + b == b;
    } else {
      assert LocalAt(step, m, a, b);
      var n := step(m, a).size;
      assert (a + b)[n..] == a[n..] + b;
      RunConcat(step, step(m, a).m, a[n..], b);
    }
  }

  lemma RunOne<M>(step: (M, seq<byte>) -> Step<M>, m: M, s: seq<byte>)
    requires s != [] && step(m, s).Next? && step(m, s).size == |s|
    ensures Run(step, m, s) == Done(step(m, s).m)
  {
    assert s[|s|..] == [];
  }

  /** A record that the step passes over can be inserted between decoded records without any effect. */
  lemma RunIgnores<M(!new)>(step: (M, seq<byte>) -> Step<M>, m: M, a: seq<byte>, r: seq<byte>, b: seq<byte>)
    requires Local(step) && Run(step, m, a).Done? && r != []
    requires step(Run(step, m, a).m, r) == Next(Run(step, m, a).m, |r|)
    ensures Run(step, m, a + r + b) == Run(step, m, a + b)
  {
    var m' := Run(step, m, a).m;
    RunOne(step, m', r);
    RunConcat(step, m, a, b);
    RunConcat(step, m, a, r + b);
    RunConcat(step, m', r, b);
    assert a + r + b == a + (r + b);
  }

  /** A decoding method returned the outcome in the object it updates, for data of l bytes. */
  ghost predicate Returned<M>(outcome: Outcome<M>, l: nat, m: M, err: Option<Error>) {
    match outcome
    case Done(m') => err == None && m == m'
    case Failed(m', e) => err == Some(Reported(e, l)) && m == m'
  }

  /** One turn of a decoding method took the step and moved the cursor inside the bytes available. */
  ghost predicate Took<M>(step: Step<M>, available: nat, l: nat, m: M, moved: int, err: Option<Error>) {
    match step
    case Stop(m', e) => err == Some(Reported(e, l)) && m == m'
    case Next(m', n) =>
      m == m' && if n <= available then err == None && moved == n else err == Some(Reported(PastEnd(n - available), l))
  }

  lemma RunTakes<M>(step: (M, seq<byte>) -> Step<M>, m: M, s: seq<byte>, l: nat, m': M, moved: int, err: Option<Error>)
    requires s != [] && Took(step(m, s), |s|, l, m', moved, err)
    ensures err == None ==> 0 < moved <= |s| && Run(step, m, s) == Run(step, m', s[moved..])
    ensures err != None ==> Returned(Run(step, m, s), l, m', err)
  {
  }

  // ---------- What all message steps share ----------

  /** The default case: an unknown record is skipped and the message stays as it is. */
  function SkipStep<M>(m: M, s: seq<byte>): Step<M> {
    match Skip(s, 0)
    case SkipErr(e) => Stop(m, Reported(e, |s|))
    case Skipped(n) => Next(m, n)
  }

  lemma SkipStepLocal<M(!new)>(m: M, a: seq<byte>, b: seq<byte>)
    requires SkipStep(m, a).Next? && SkipStep(m, a).size <= |a|
    ensures SkipStep(m, a + b) == SkipStep(m, a)
  {
    SkipLocal(a, b, 0);
  }

  /** The tag check of a decoder sees the tag of the record at the head of its input. */
  lemma RecordTag(r: Record, rest: seq<byte>)
    requires WellFormed(r)
    ensures RecordBytes(r) != [] && ReadTag(RecordBytes(r) + rest) == ReadTag(r.tag)
    ensures ReadTag(r.tag).Tag? && ReadTag(r.tag).wireType != 4
  {
    hide RawVarint;
    var body := RecordBody(r);
    Associate(r.tag, body, rest);
    VarintHead(r.tag, body + rest);
  }

  lemma RecordBody(r: Record) returns (body: seq<byte>)
    requires WellFormed(r)
    ensures RecordBytes(r) == r.tag + body && IsVarint(r.tag) && WireType(RawVarint(r.tag, 0).value) != 4
  {
    hide RawVarint;
    body := RecordBytes(r)[|r.tag|..];
  }

  // ---------- Fields as the encoders write them ----------

  /** A varint field, left out when it is zero. */
  function VarintField(tag: byte, v: nat): seq<byte> {
    if v == 0 then [] else [tag] + EncVarint(v)
  }

  /** A length-delimited field that is always written. */
  function RawField(tag: byte, data: seq<byte>): seq<byte> {
    [tag] + EncVarint(|data|) + data
  }

  /** A length-delimited field, left out when it is empty. */
  function BytesField(tag: byte, data: seq<byte>): seq<byte> {
    if data == [] then [] else RawField(tag, data)
  }

  lemma ReadsVarintField(tag: byte, v: uint64, rest: seq<byte>)
    requires tag < 128 && v != 0
    ensures var s := VarintField(tag, v) + rest;
            ReadTag(s) == Tag(tag / 8, tag % 8, 1) && RawVarint(s[1..], 0) == VarintOk(v, |VarintField(tag, v)| - 1)
  {
    var s := VarintField(tag, v) + rest;
    assert s == [tag] + (EncVarint(v) + rest);
    ReadsShortTag(tag, EncVarint(v) + rest);
    assert s[1..] == EncVarint(v) + rest;
    VarintRoundTrip(v, rest);
    SovCountsBytes(v);
  }

  lemma ReadsRawField(tag: byte, data: seq<byte>, rest: seq<byte>)
    requires tag < 128 && |data| < TWO_63
    ensures var s := RawField(tag, data) + rest;
            ReadTag(s) == Tag(tag / 8, tag % 8, 1) && ReadBytes(s[1..]) == BytesOk(data, |RawField(tag, data)| - 1)
  {
    var s := RawField(tag, data) + rest;
    var enc := EncVarint(|data|) + data;
    assert s == [tag] + (enc + rest);
    ReadsShortTag(tag, enc + rest);
    assert s[1..] == enc + rest;
    ReadsBackBytes(data, rest);
  }

  // ---------- Reading fields ----------

  /** The tag at the head of every decoding loop. */
  method TakeTag(dAtA: seq<byte>, start: nat) returns (fieldNum: int, wireType: nat, iNdEx: nat, err: Option<Error>)
    requires start <= |dAtA|
    ensures start <= iNdEx <= |dAtA|
    ensures match ReadTag(dAtA[start..])
            case Tag(f, w, n) =>
              err == None && f == fieldNum && w == wireType && iNdEx == start + n > start && dAtA[start..][n..] == dAtA[iNdEx..]
            case TagErr(e) => err == Some(e)
  {
    hide RawVarint, And, ShiftRight;
    var wire;
    wire, iNdEx, err := ReadUint64(dAtA, start);
    TagBits(wire);
    fieldNum, wireType := Int32(ShiftRight(wire, 3)), And(wire, 0x7);
  }

  /** A length varint and the bytes it announces. */
  method TakeBytes(dAtA: Slice, start: nat) returns (data: Slice, iNdEx: nat, err: Option<Error>)
    requires start <= |dAtA|
    ensures match ReadBytes(dAtA[start..])
            case BytesOk(d, n) => err == None && data == d && iNdEx == start + n && start < iNdEx <= |dAtA|
            case BytesErr(e) => err == Some(Reported(e, |dAtA|))
    ensures match RawVarint(dAtA[start..], 0)
            case VarintErr(e, _) => err == Some(e)
            case VarintOk(v, n) =>
              var length := v % TWO_64;
              if length >= TWO_63 || start + n + length >= TWO_63 then err == Some(InvalidLength)
              else if start + n + length > |dAtA| then err == Some(UnexpectedEOF)
              else err == None && data == dAtA[start + n..start + n + length]
  {
    hide RawVarint;
    var length;
    data := [];
    length, iNdEx, err := ReadUint64(dAtA, start);
    if err != None {
      return;
    }
    if length >= TWO_63 {
      err := Some(InvalidLength);
      return;
    }
    var postIndex := iNdEx + length;
    if postIndex >= TWO_63 {
      err := Some(InvalidLength);
      return;
    }
    if postIndex > |dAtA| {
      err := Some(UnexpectedEOF);
      return;
    }
    data := dAtA[iNdEx..postIndex];
    assert dAtA[start..][iNdEx - start..postIndex - start] == data;
    iNdEx := postIndex;
  }

  /** The default case of the decoders: skip the record at preIndex. */
  method SkipUnknown(dAtA: Slice, preIndex: nat) returns (iNdEx: nat, err: Option<Error>)
    requires preIndex <= |dAtA|
    ensures match Skip(dAtA[preIndex..], 0)
            case SkipErr(e) => err == Some(Reported(e, |dAtA| - preIndex))
            case Skipped(n) =>
              if preIndex + n > |dAtA| then err == Some(Reported(PastEnd(preIndex + n - |dAtA|), |dAtA|))
              else err == None && iNdEx == preIndex + n
    ensures match Skip(dAtA[preIndex..], 0)
            case SkipErr(_) => err != None
            case Skipped(n) =>
              err == if preIndex + n >= TWO_63 then Some(InvalidLength) else if preIndex + n > |dAtA| then Some(UnexpectedEOF) else None
  {
    hide Skip;
    iNdEx := preIndex;
    var skippy;
    skippy, err := SkipRecord(dAtA[preIndex..]);
    if err != None {
      return;
    }
    if preIndex + skippy >= TWO_63 {
      err := Some(InvalidLength);
      return;
    }
    if preIndex + skippy > |dAtA| {
      err := Some(UnexpectedEOF);
      return;
    }
    iNdEx := preIndex + skippy;
  }

  // ---------- Writing fields back to front ----------

  function VarintFieldSize(v: nat): nat {
    if v == 0 then 0 else 1 + Sov(v)
  }

  function RawFieldSize(data: seq<byte>): nat {
    1 + |data| + Sov(|data|)
  }

  function BytesFieldSize(data: seq<byte>): nat {
    if data == [] then 0 else RawFieldSize(data)
  }

  lemma FieldSizes(tag: byte, v: nat, data: seq<byte>)
    ensures |VarintField(tag, v)| == VarintFieldSize(v)
    ensures |RawField(tag, data)| == RawFieldSize(data)
    ensures |BytesField(tag, data)| == BytesFieldSize(data)
  {
    SovCountsBytes(v);
    SovCountsBytes(|data|);
  }

  /** Writing s below the cursor end has moved it to i; what was written before is behind it and the room below is untouched. */
  twostate predicate Prepended(dAtA: array<byte>, i: int, end: int, s: seq<byte>)
    reads dAtA
  {
    && 0 <= i <= end <= dAtA.Length
    && i + |s| == end
    && dAtA[i..] == s + old(dAtA[end..])
    && forall k :: 0 <= k < i ==> dAtA[k] == old(dAtA[k])
  }

  method PutByte(dAtA: array<byte>, end: nat, b: byte) returns (i: nat)
    requires 1 <= end <= dAtA.Length
    modifies dAtA
    ensures Prepended(dAtA, i, end, [b])
  {
    i := end - 1;
    dAtA[i] := b;
  }

  method PutVarint(dAtA: array<byte>, end: nat, v: uint64) returns (i: nat)
    requires Sov(v) <= end <= dAtA.Length
    modifies dAtA
    ensures Prepended(dAtA, i, end, EncVarint(v))
  {
    i := EncodeVarint(dAtA, end, v);
    SovCountsBytes(v);
    assert dAtA[i..] == dAtA[i..end] + dAtA[end..];
  }

  /** copy(dAtA[i:], data) behind a cursor moved down by len(data) */
  method PutBytes(dAtA: array<byte>, end: nat, data: seq<byte>) returns (i: nat)
    requires |data| <= end <= dAtA.Length
    modifies dAtA
    ensures Prepended(dAtA, i, end, data)
  {
    i := end - |data|;
    forall k | 0 <= k < |data| {
      dAtA[i + k] := data[k];
    }
    assert dAtA[i..end] == data;
    assert dAtA[i..] == dAtA[i..end] + dAtA[end..];
  }

  method PutVarintField(dAtA: array<byte>, end: nat, tag: byte, v: uint64) returns (i: nat)
    requires VarintFieldSize(v) <= end <= dAtA.Length
    modifies dAtA
    ensures Prepended(dAtA, i, end, VarintField(tag, v))
  {
    hide EncVarint, Sov;
    i := end;
    ghost var behind := dAtA[end..];
    if v != 0 {
      FieldSizes(tag, v, []);
      i := PutVarint(dAtA, i, v);
      i := PutByte(dAtA, i, tag);
      Associate([tag], EncVarint(v), behind);
    }
  }

  method PutRawField(dAtA: array<byte>, end: nat, tag: byte, data: seq<byte>) returns (i: nat)
    requires RawFieldSize(data) <= end <= dAtA.Length
    requires |data| < TWO_63
    modifies dAtA
    ensures Prepended(dAtA, i, end, RawField(tag, data))
  {
    hide EncVarint, Sov;
    SovCountsBytes(|data|);
    ghost var behind := dAtA[end..];
    i := PutBytes(dAtA, end, data);
    i := PutVarint(dAtA, i, |data|);
    i := PutByte(dAtA, i, tag);
    Reassociate([tag], EncVarint(|data|), data, behind);
  }

  method PutBytesField(dAtA: array<byte>, end: nat, tag: byte, data: seq<byte>) returns (i: nat)
    requires BytesFieldSize(data) <= end <= dAtA.Length
    requires |data| < TWO_63
    modifies dAtA
    ensures Prepended(dAtA, i, end, BytesField(tag, data))
  {
    hide EncVarint, Sov;
    i := end;
    if |data| > 0 {
      i := PutRawField(dAtA, end, tag, data);
    }
  }
}
