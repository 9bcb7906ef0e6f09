/** Base 128 varints: the closed-form size, the byte loop that writes them, and the shift loop that reads them. */
module Varint {
  import opened Wrappers
  import opened BitOps

  type byte = x: int | 0 <= x < 256
  type uint64 = x: int | 0 <= x < TWO_64
  type uint32 = x: int | 0 <= x < TWO_32

  const TWO_31 := 0x8000_0000
  const TWO_32 := 0x1_0000_0000
  const TWO_63 := 0x8000_0000_0000_0000
  const TWO_64 := 0x1_0000_0000_0000_0000

  /** What can go wrong in decoding; the last three say how a cursor ran past its end, and what that looks like depends on where it stood. */
  datatype Error =
    | IntOverflow
    | UnexpectedEOF
    | InvalidLength
    | UnexpectedEndOfGroup
    | IllegalWireType
    | WrongWireType
    | IllegalTag
    | EndGroupTag
    | PastEnd(excess: nat)
    | PastEntry(beyond: int)
    | IndexPanic

  lemma Pow2Constants()
    ensures Pow2(7) == 128 && Pow2(32) == TWO_32 && Pow2(64) == TWO_64
  {
    assert Pow2(4) == 16;
    assert Pow2(8) == 256 by { Pow2Adds(4, 4); }
    Pow2Adds(7, 1);
    Pow2Adds(8, 8);
    Pow2Adds(16, 16);
    Pow2Adds(32, 32);
  }

  // ---------- The closed form for the encoded size ----------

  /** The number of bits needed to write x, 0 for x == 0 (Go's bits.Len64). */
  function BitLen(x: nat): nat {
    if x == 0 then 0 else 1 + BitLen(x / 2)
  }

  function Sov(x: nat): (n: nat)
    ensures n >= 1
  {
    OrOne(x);
    (BitLen(Or(x, 1)) + 6) / 7
  }

  lemma Halve(x: nat)
    requires x > 0
    ensures BitLen(x) == 1 + BitLen(x / 2)
  {
  }

  lemma SevenBits(x: nat)
    requires x >= 128
    ensures BitLen(x) == 7 + BitLen(x / 128)
  {
    hide BitLen;
    Halve(x);
    Halve(x / 2);
    Halve(x / 4);
    Halve(x / 8);
    Halve(x / 16);
    Halve(x / 32);
    Halve(x / 64);
    assert x / 2 / 2 == x / 4 && x / 4 / 2 == x / 8 && x / 8 / 2 == x / 16;
    assert x / 16 / 2 == x / 32 && x / 32 / 2 == x / 64 && x / 64 / 2 == x / 128;
  }

  lemma {:induction false} SmallBits(x: nat, n: nat)
    requires 1 <= x < Pow2(n)
    ensures 1 <= BitLen(x) <= n
  {
    if x > 1 {
      SmallBits(x / 2, n - 1);
    }
  }

  // ---------- The bytes of a varint ----------

  /** Seven bits a byte, least significant group first, high bit set on every byte but the last. */
  function EncVarint(v: nat): (s: seq<byte>)
    ensures |s| >= 1
  {
    if v < 128 then [v] else [v % 128 + 128] + EncVarint(v / 128)
  }

  /** Byte i holds bits 7i to 7i + 6, and a high bit unless it is the last. */
  lemma {:induction false} VarintBytes(v: nat, i: nat)
    requires i < |EncVarint(v)|
    ensures EncVarint(v)[i] == ShiftRight(v, 7 * i) % 128 + if i < |EncVarint(v)| - 1 then 128 else 0
    ensures v == 0 || EncVarint(v)[|EncVarint(v)| - 1] != 0
  {
    if v >= 128 {
      if i > 0 {
        SevenMore(v, 7 * i - 7);
        VarintBytes(v / 128, i - 1);
      } else {
        VarintBytes(v / 128, 0);
      }
    }
  }

  lemma SevenMore(v: nat, n: nat)
    ensures ShiftRight(v, n + 7) == ShiftRight(v / 128, n)
  {
    hide ShiftRight;
    HalfMore(v, n + 6);
    HalfMore(v / 2, n + 5);
    HalfMore(v / 4, n + 4);
    HalfMore(v / 8, n + 3);
    HalfMore(v / 16, n + 2);
    HalfMore(v / 32, n + 1);
    HalfMore(v / 64, n);
    assert v / 2 / 2 == v / 4 && v / 4 / 2 == v / 8 && v / 8 / 2 == v / 16;
    assert v / 16 / 2 == v / 32 && v / 32 / 2 == v / 64 && v / 64 / 2 == v / 128;
  }

  lemma HalfMore(v: nat, n: nat)
    ensures ShiftRight(v, n + 1) == ShiftRight(v / 2, n)
  {
  }

  /** The closed form (Len64(x|1)+6)/7 counts exactly the bytes the loop writes. */
  lemma {:induction false} SovCountsBytes(v: nat)
    ensures |EncVarint(v)| == Sov(v)
  {
    hide BitLen, Pow2, Or;
    if v < 128 {
      Pow2Constants();
      OrOne(v);
      SmallBits(Or(v, 1), 7);
    } else {
      SovCountsBytes(v / 128);
      SevenBits(v);
      SetLowBitKeepsLength(v);
      SetLowBitKeepsLength(v / 128);
    }
  }

  lemma SetLowBitKeepsLength(v: nat)
    requires v > 0
    ensures BitLen(Or(v, 1)) == BitLen(v)
  {
    hide Or;
    OrOne(v);
    Halve(v);
    Halve(Or(v, 1));
    assert Or(v, 1) / 2 == v / 2;
  }

  /** Writes v just below offset and returns the start of the bytes written. Nothing else in the buffer changes. */
  method EncodeVarint(dAtA: array<byte>, offset: nat, v: uint64) returns (base: nat)
    requires Sov(v) <= offset <= dAtA.Length
    modifies dAtA
    ensures base == offset - Sov(v)
    ensures dAtA[base..offset] == EncVarint(v)
    ensures dAtA[..base] == old(dAtA[..base]) && dAtA[offset..] == old(dAtA[offset..])
  {
    hide Or, And, ShiftRight, Sov;
    SovCountsBytes(v);
    var i: nat := offset - Sov(v);
    base := i;
    var x: nat := v;
    while x >= 128
      invariant base <= i < offset
      invariant |EncVarint(x)| == offset - i
      invariant dAtA[base..i] + EncVarint(x) == EncVarint(v)
      invariant dAtA[..base] == old(dAtA[..base]) && dAtA[offset..] == old(dAtA[offset..])
    {
      ghost var before := dAtA[base..i];
      GroupByte(x);
      dAtA[i] := Or(And(x, 0x7f), 0x80);
      assert dAtA[base..i + 1] == before + [x % 128 + 128];
      x := ShiftRight(x, 7);
      i := i + 1;
    }
    dAtA[i] := x;
  }

  // ---------- Reading a varint ----------

  /** A complete varint and the bytes it takes, or the error and the bits gathered before it. */
  datatype VarintResult = VarintOk(value: nat, size: nat) | VarintErr(err: Error, partial: nat)

  /** The unbounded value at the head of s when k bytes of the varint have been read already; the eleventh byte is an error. */
  function RawVarint(s: seq<byte>, k: nat): (r: VarintResult)
    ensures r.VarintOk? ==> 1 <= r.size <= |s| && r.size + k <= 10
    ensures r.VarintErr? ==> r.err == IntOverflow || r.err == UnexpectedEOF
    decreases 10 - k
  {
    if k >= 10 then VarintErr(IntOverflow, 0)
    else if s == [] then VarintErr(UnexpectedEOF, 0)
    else if s[0] < 128 then VarintOk(s[0], 1)
    else match RawVarint(s[1..], k + 1)
      case VarintOk(v, n) => VarintOk(s[0] - 128 + 128 * v, n + 1)
      case VarintErr(e, p) => VarintErr(e, s[0] - 128 + 128 * p)
  }

  /** A varint cut short after k bytes has gathered the lowest 7k bits. */
  lemma {:induction false} CutVarint(v: nat, k: nat, before: nat)
    requires k < |EncVarint(v)| && |EncVarint(v)| + before <= 10
    ensures RawVarint(EncVarint(v)[..k], before) == VarintErr(UnexpectedEOF, v % Pow2(7 * k))
  {
    var s := EncVarint(v)[..k];
    if k == 0 {
      assert s == [] && v % 1 == 0;
    } else {
      hide Pow2, RawVarint;
      assert s[0] == v % 128 + 128 && s[1..] == EncVarint(v / 128)[..k - 1];
      CutVarint(v / 128, k - 1, before + 1);
      RawVarintStep(s, before);
      Pow2Adds(7, 7 * k - 7);
      SevenBitsMore();
      LowGroups(v, Pow2(7 * k - 7));
    }
  }

  lemma SevenBitsMore()
    ensures Pow2(7) == 128
  {
    assert Pow2(4) == 16;
  }

  lemma LowGroups(v: nat, p: nat)
    requires p > 0
    ensures v % 128 + 128 * (v / 128 % p) == v % (128 * p)
  {
    var q, r := v / 128 / p, v / 128 % p;
    assert v / 128 == q * p + r;
    MulAssoc(q, 128, p);
    MulAssoc(128, q, p);
    Commute(q, 128);
    assert v == q * (128 * p) + (128 * r + v % 128);
    DivUnique(v, q, 128 * p, 128 * r + v % 128);
  }

  predicate AllContinue(s: seq<byte>, n: nat)
    requires n <= |s|
  {
    forall i | 0 <= i < n :: s[i] >= 128
  }

  /** Ten bytes that all continue overflow; fewer that end before one stops are cut short; anything else is a varint. */
  lemma {:induction false} VarintErrorsIff(s: seq<byte>, k: nat)
    requires k <= 10
    ensures RawVarint(s, k).VarintErr? && RawVarint(s, k).err == IntOverflow <==> |s| >= 10 - k && AllContinue(s, 10 - k)
    ensures RawVarint(s, k).VarintErr? && RawVarint(s, k).err == UnexpectedEOF <==> |s| < 10 - k && AllContinue(s, |s|)
    decreases 10 - k
  {
    if k < 10 && s != [] && s[0] >= 128 {
      VarintErrorsIff(s[1..], k + 1);
      assert forall i | 0 < i < |s| :: s[i] == s[1..][i - 1];
      assert forall i | 0 <= i < |s| - 1 :: s[1..][i] == s[i + 1];
    }
  }

  /** Reading inverts writing for every value that fits the bytes left, and consumes exactly the bytes written. */
  lemma {:induction false} ReadsBackVarint(v: nat, k: nat, rest: seq<byte>)
    requires k < 10 && v < Pow2(7 * (10 - k))
    ensures RawVarint(EncVarint(v) + rest, k) == VarintOk(v, |EncVarint(v)|)
    decreases v
  {
    if v >= 128 {
      assert (EncVarint(v) + rest)[1..] == EncVarint(v / 128) + rest;
      OneGroupLess(v, 10 - k);
      ReadsBackVarint(v / 128, k + 1, rest);
    }
  }

  lemma OneGroupLess(v: nat, groups: nat)
    requires groups > 0 && 128 <= v < Pow2(7 * groups)
    ensures groups > 1 && v / 128 < Pow2(7 * (groups - 1))
  {
    hide Pow2;
    Pow2Constants();
    Pow2Adds(7, 7 * (groups - 1));
  }

  lemma VarintRoundTrip(v: uint64, rest: seq<byte>)
    ensures RawVarint(EncVarint(v) + rest, 0) == VarintOk(v, Sov(v))
  {
    hide EncVarint, Sov, Pow2;
    Pow2Constants();
    Pow2Adds(64, 6);
    SovCountsBytes(v);
    ReadsBackVarint(v, 0, rest);
  }

  /** A varint that is complete in a is read the same whatever follows. */
  lemma {:induction false} RawVarintLocal(a: seq<byte>, b: seq<byte>, k: nat)
    requires RawVarint(a, k).VarintOk?
    ensures RawVarint(a + b, k) == RawVarint(a, k)
    decreases |a|
  {
    if a[0] >= 128 {
      assert (a + b)[1..] == a[1..] + b;
      RawVarintLocal(a[1..], b, k + 1);
    }
  }

  // ---------- The shift loop ----------

  /** acc | x << shift in an unsigned register of the given width */
  function OrShifted(acc: nat, x: nat, shift: nat, width: nat): nat {
    Or(acc, ShiftLeft(x, shift, width))
  }

  /** While the register holds only bits below shift, the or adds what the register keeps of the group. */
  lemma OrShiftedAdds(acc: nat, x: nat, shift: nat, width: nat)
    requires acc < Pow2(shift)
    ensures OrShifted(acc, x, shift, width) == acc + x * Pow2(shift) % Pow2(width)
  {
    hide Or, Pow2;
    if shift >= width {
      Pow2Adds(shift - width, width);
      ShiftedOut(x, Pow2(shift - width), Pow2(width));
      OrZero(acc);
    } else {
      Pow2Adds(shift, width - shift);
      ShiftedInside(x, Pow2(shift), Pow2(width - shift));
      OrIsAdd(acc, x % Pow2(width - shift), shift);
    }
  }

  lemma ShiftedOut(x: nat, q: nat, M: nat)
    requires M > 0
    ensures x * (q * M) % M == 0
  {
    MulAssoc(x, q, M);
    DivUnique(x * (q * M), x * q, M, 0);
  }

  lemma ShiftedInside(x: nat, P: nat, q: nat)
    requires P > 0 && q > 0
    ensures P * q > 0
    ensures x * P % (P * q) == x % q * P
  {
    var h, lo := x / q, x % q;
    MulMono(1, q, P);
    Commute(P, q);
    SplitProduct(h, q, lo, P);
    MulMono(lo + 1, q, P);
    Distribute(lo, 1, P);
    DivUnique(x * P, h, P * q, lo * P);
  }

  /** The register holds the low bits of the unbounded value raw. */
  ghost predicate LowBits(value: nat, raw: nat, width: nat) {
    value == raw % Pow2(width)
  }

  ghost function AddGroup(raw: nat, x: nat, shift: nat): nat {
    raw + x * Pow2(shift)
  }

  lemma OrShiftedKeepsLowBits(value: nat, raw: nat, x: nat, shift: nat, width: nat)
    requires raw < Pow2(shift) && LowBits(value, raw, width)
    ensures LowBits(OrShifted(value, x, shift, width), AddGroup(raw, x, shift), width)
  {
    hide Or, OrShifted, Pow2;
    NotAbove(raw, Pow2(width));
    OrShiftedAdds(value, x, shift, width);
    SumOfLowBits(raw, x, shift, width);
  }

  lemma SumOfLowBits(raw: nat, x: nat, shift: nat, width: nat)
    requires raw < Pow2(shift)
    ensures raw % Pow2(width) + x * Pow2(shift) % Pow2(width) == (raw + x * Pow2(shift)) % Pow2(width)
  {
    hide Pow2;
    if shift >= width {
      Pow2Adds(shift - width, width);
      GroupAboveRegister(raw, x, Pow2(shift - width), Pow2(width));
    } else {
      Pow2Adds(shift, width - shift);
      GroupInRegister(raw, x, Pow2(shift), Pow2(width - shift));
    }
  }

  lemma NotAbove(x: nat, m: nat)
    requires m > 0
    ensures x % m <= x
  {
  }

  /** A group shifted past the top of the register leaves it as it is. */
  lemma GroupAboveRegister(raw: nat, x: nat, q: nat, M: nat)
    requires M > 0
    ensures raw % M + x * (q * M) % M == (raw + x * (q * M)) % M
  {
    assert x * (q * M) == (x * q) * M + 0 by { MulAssoc(x, q, M); }
    DivUnique(x * (q * M), x * q, M, 0);
    var h, r := raw / M, raw % M;
    assert raw + x * (q * M) == (h + x * q) * M + r by { MulAssoc(x, q, M); Distribute(h, x * q, M); }
    DivUnique(raw + x * (q * M), h + x * q, M, r);
  }

  /** A group that starts inside the register loses only the bits above it. */
  lemma GroupInRegister(raw: nat, x: nat, P: nat, q: nat)
    requires raw < P && q > 0
    ensures P * q > 0
    ensures raw % (P * q) + x * P % (P * q) == (raw + x * P) % (P * q)
  {
    var h, lo := x / q, x % q;
    MulMono(1, q, P);
    Commute(P, q);
    SplitProduct(h, q, lo, P);
    MulMono(lo + 1, q, P);
    Distribute(lo, 1, P);
    DivUnique(raw, 0, P * q, raw);
    DivUnique(x * P, h, P * q, lo * P);
    DivUnique(raw + x * P, h, P * q, raw + lo * P);
  }

  lemma SplitProduct(h: nat, q: nat, lo: nat, P: nat)
    ensures (h * q + lo) * P == h * (P * q) + lo * P
  {
    Distribute(h * q, lo, P);
    MulAssoc(h, q, P);
    Commute(q, P);
  }

  lemma MulAssoc(a: nat, b: nat, c: nat)
    ensures a * (b * c) == (a * b) * c
  {
  }

  /** What the shift loop promises about the varint at the head of s: the register holds its low bits, the cursor moved past it. */
  ghost predicate Reads(s: VarintResult, value: nat, moved: int, err: Option<Error>, width: nat) {
    match s
    case VarintOk(v, n) => err == None && moved == n && value == v % Pow2(width)
    case VarintErr(e, p) => err == Some(e) && value == p % Pow2(width)
  }

  method ReadVarint(dAtA: seq<byte>, start: nat, width: nat) returns (value: nat, iNdEx: nat, err: Option<Error>)
    requires start <= |dAtA|
    ensures start <= iNdEx <= |dAtA|
    ensures Reads(RawVarint(dAtA[start..], 0), value, iNdEx - start, err, width)
  {
    hide RawVarint, Pow2, Or, And, ShiftRight, OrShifted, Gathered, Reads;
    value, iNdEx, err := 0, start, None;
    var shift := 0;
    ghost var k: nat, raw: nat := 0, 0;
    ghost var whole := RawVarint(dAtA[start..], 0);
    GatheredNothing(whole, width);
    while true
      invariant start <= iNdEx <= |dAtA| && err == None
      invariant shift == 7 * k && 0 <= k <= 10
      invariant iNdEx == start + k
      invariant Gathered(whole, RawVarint(dAtA[iNdEx..], k), raw, value, k, width)
      decreases 70 - shift
    {
      ghost var rest := dAtA[iNdEx..];
      if shift >= 64 {
        GatheredError(whole, rest, raw, value, k, width);
        return value, iNdEx, Some(IntOverflow);
      }
      if iNdEx >= |dAtA| {
        GatheredError(whole, rest, raw, value, k, width);
        return value, iNdEx, Some(UnexpectedEOF);
      }
      var b := dAtA[iNdEx];
      iNdEx := iNdEx + 1;
      ghost var before := value;
      GroupByte(b);
      value := OrShifted(value, And(b, 0x7f), shift, width);
      if b < 128 {
        GatheredLast(whole, rest, raw, before, k, width);
        break;
      }
      raw := GatheredMore(whole, rest, raw, before, k, width);
      assert rest[1..] == dAtA[iNdEx..];
      shift := shift + 7;
      k := k + 1;
    }
  }

  /** k groups have gathered raw, the register holds its low bits, and prefixing them to the rest of the varint gives the whole. */
  ghost predicate Gathered(whole: VarintResult, rest: VarintResult, raw: nat, value: nat, k: nat, width: nat) {
    && raw < Pow2(7 * k)
    && LowBits(value, raw, width)
    && Joins(whole, rest, raw, Pow2(7 * k), k)
  }

  ghost predicate Joins(whole: VarintResult, rest: VarintResult, raw: nat, P: nat, k: nat) {
    match rest
    case VarintOk(v, n) => whole == VarintOk(raw + P * v, k + n)
    case VarintErr(e, p) => whole == VarintErr(e, raw + P * p)
  }

  ghost function GroupBefore(g: nat, rest: VarintResult): VarintResult {
    match rest
    case VarintOk(v, n) => VarintOk(g + 128 * v, n + 1)
    case VarintErr(e, p) => VarintErr(e, g + 128 * p)
  }

  lemma JoinsMore(whole: VarintResult, rest: VarintResult, raw: nat, P: nat, g: nat, k: nat)
    requires g < 128 && raw < P && Joins(whole, GroupBefore(g, rest), raw, P, k)
    ensures raw + g * P < P * 128 && Joins(whole, rest, raw + g * P, P * 128, k + 1)
  {
    Regroup(raw, P, g, if rest.VarintOk? then rest.value else rest.partial);
  }

  lemma GatheredNothing(whole: VarintResult, width: nat)
    ensures Gathered(whole, whole, 0, 0, 0, width)
  {
    DivUnique(0, 0, Pow2(width), 0);
  }

  lemma GatheredError(whole: VarintResult, s: seq<byte>, raw: nat, value: nat, k: nat, width: nat)
    requires Gathered(whole, RawVarint(s, k), raw, value, k, width) && (k >= 10 || s == [])
    ensures Reads(whole, value, k, Some(if k >= 10 then IntOverflow else UnexpectedEOF), width)
  {
  }

  lemma RawVarintStep(s: seq<byte>, k: nat)
    requires k < 10 && s != []
    ensures RawVarint(s, k) == if s[0] < 128 then VarintOk(s[0], 1) else GroupBefore(s[0] - 128, RawVarint(s[1..], k + 1))
  {
  }

  lemma GatheredLast(whole: VarintResult, s: seq<byte>, raw: nat, value: nat, k: nat, width: nat)
    requires k < 10 && s != [] && s[0] < 128 && Gathered(whole, RawVarint(s, k), raw, value, k, width)
    ensures Reads(whole, OrShifted(value, s[0], 7 * k, width), k + 1, None, width)
  {
    hide RawVarint, Pow2, OrShifted;
    RawVarintStep(s, k);
    OrShiftedKeepsLowBits(value, raw, s[0], 7 * k, width);
    Commute(Pow2(7 * k), s[0]);
  }

  lemma Commute(a: nat, b: nat)
    ensures a * b == b * a
  {
  }

  lemma GatheredMore(whole: VarintResult, s: seq<byte>, raw: nat, value: nat, k: nat, width: nat) returns (raw': nat)
    requires k < 10 && s != [] && s[0] >= 128 && Gathered(whole, RawVarint(s, k), raw, value, k, width)
    ensures Gathered(whole, RawVarint(s[1..], k + 1), raw', OrShifted(value, s[0] % 128, 7 * k, width), k + 1, width)
  {
    hide RawVarint, Pow2, OrShifted, Joins, GroupBefore, LowBits;
    var g := s[0] - 128;
    raw' := AddGroup(raw, g, 7 * k);
    RawVarintStep(s, k);
    OrShiftedKeepsLowBits(value, raw, g, 7 * k, width);
    JoinsMore(whole, RawVarint(s[1..], k + 1), raw, Pow2(7 * k), g, k);
    Pow2Adds(7 * k, 7);
    Pow2Constants();
  }

  lemma Regroup(raw: nat, P: nat, c: nat, v: nat)
    requires c < 128 && raw < P
    ensures raw + P * (c + 128 * v) == raw + c * P + P * 128 * v
    ensures raw + c * P < P * 128
  {
    MulMono(c, 127, P);
  }
}
