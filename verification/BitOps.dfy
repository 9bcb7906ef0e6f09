/** Bitwise operations on natural numbers, digit by digit, and the arithmetic that the varint loops do with them. */
module BitOps {

  function Pow2(n: nat): (p: nat)
    ensures p > 0
  {
    if n == 0 then 1 else 2 * Pow2(n - 1)
  }

  lemma {:induction false} Pow2Adds(m: nat, n: nat)
    ensures Pow2(m + n) == Pow2(m) * Pow2(n)
  {
    if m == 0 {
    } else {
      Pow2Adds(m - 1, n);
    }
  }

  predicate Bit(x: nat, i: nat) {
    if i == 0 then x % 2 == 1 else Bit(x / 2, i - 1)
  }

  function Digit(b: bool): nat {
    if b then 1 else 0
  }

  /** x | y */
  function Or(x: nat, y: nat): nat {
    if x == 0 && y == 0 then 0 else 2 * Or(x / 2, y / 2) + Digit(x % 2 == 1 || y % 2 == 1)
  }

  /** x & y */
  function And(x: nat, y: nat): nat {
    if x == 0 || y == 0 then 0 else 2 * And(x / 2, y / 2) + Digit(x % 2 == 1 && y % 2 == 1)
  }

  /** x << shift in a register of the given width */
  function ShiftLeft(x: nat, shift: nat, width: nat): nat {
    x * Pow2(shift) % Pow2(width)
  }

  /** x >> shift */
  function ShiftRight(x: nat, shift: nat): nat {
    if shift == 0 then x else ShiftRight(x / 2, shift - 1)
  }

  /** The operations do to every bit what their names say. */
  lemma {:induction false} BitwiseByBits(x: nat, y: nat, i: nat)
    ensures Bit(Or(x, y), i) <==> Bit(x, i) || Bit(y, i)
    ensures Bit(And(x, y), i) <==> Bit(x, i) && Bit(y, i)
    decreases i
  {
    hide Or, And;
    OrHalves(x, y);
    AndHalves(x, y);
    if i > 0 {
      BitwiseByBits(x / 2, y / 2, i - 1);
    }
  }

  lemma OrHalves(x: nat, y: nat)
    ensures Or(x, y) / 2 == Or(x / 2, y / 2) && Or(x, y) % 2 == Digit(x % 2 == 1 || y % 2 == 1)
  {
  }

  lemma AndHalves(x: nat, y: nat)
    ensures And(x, y) / 2 == And(x / 2, y / 2) && And(x, y) % 2 == Digit(x % 2 == 1 && y % 2 == 1)
  {
    if x == 0 || y == 0 {
      assert And(x / 2, y / 2) == 0;
    }
  }

  /** An or with a number whose bits start above those of x adds. */
  lemma {:induction false} OrIsAdd(x: nat, y: nat, shift: nat)
    requires x < Pow2(shift)
    ensures Or(x, y * Pow2(shift)) == x + y * Pow2(shift)
    decreases shift
  {
    if shift == 0 {
      OrZero(y);
    } else {
      var z, half := y * Pow2(shift), y * Pow2(shift - 1);
      Twice(y, Pow2(shift - 1));
      OrIsAdd(x / 2, y, shift - 1);
      OrHalves(x, z);
      assert z / 2 == half && z % 2 == 0;
    }
  }

  lemma Twice(y: nat, p: nat)
    ensures y * (2 * p) == 2 * (y * p)
  {
  }

  lemma {:induction false} OrZero(y: nat)
    ensures Or(0, y) == y && Or(y, 0) == y
  {
    if y > 0 {
      OrZero(y / 2);
    }
  }

  /** A mask of n low bits is the remainder. */
  lemma {:induction false} MaskIsRemainder(x: nat, n: nat)
    ensures And(x, Pow2(n) - 1) == x % Pow2(n)
    decreases n
  {
    hide And;
    if n == 0 {
      AndZero(x);
    } else {
      var m := Pow2(n) - 1;
      assert m / 2 == Pow2(n - 1) - 1 && m % 2 == 1;
      MaskIsRemainder(x / 2, n - 1);
      AndHalves(x, m);
      HalfRemainder(x, Pow2(n - 1));
    }
  }

  lemma AndZero(x: nat)
    ensures And(x, 0) == 0
  {
  }

  lemma HalfRemainder(x: nat, p: nat)
    requires p > 0
    ensures x % (2 * p) == 2 * (x / 2 % p) + x % 2
  {
    var q, r := x / 2 / p, x / 2 % p;
    assert x / 2 == q * p + r;
    Twice(q, p);
    assert x == q * (2 * p) + (2 * r + x % 2);
    DivUnique(x, q, 2 * p, 2 * r + x % 2);
  }

  lemma Distribute(a: nat, b: nat, c: nat)
    ensures (a + b) * c == a * c + b * c
  {
  }

  lemma MulMono(a: nat, b: nat, c: nat)
    requires a <= b
    ensures a * c <= b * c
  {
  }

  lemma DivUnique(x: nat, q: nat, m: nat, r: nat)
    requires m > 0 && r < m && x == q * m + r
    ensures x / m == q && x % m == r
  {
    var q', r' := x / m, x % m;
    assert x == q' * m + r';
    if q < q' {
      MulMono(q + 1, q', m);
      Distribute(q, 1, m);
    } else if q' < q {
      MulMono(q' + 1, q, m);
      Distribute(q', 1, m);
    }
  }

  lemma {:induction false} ShiftRightDivides(x: nat, shift: nat)
    ensures ShiftRight(x, shift) * Pow2(shift) <= x < (ShiftRight(x, shift) + 1) * Pow2(shift)
    decreases shift
  {
    if shift > 0 {
      ShiftRightDivides(x / 2, shift - 1);
      Twice(ShiftRight(x, shift), Pow2(shift - 1));
      Twice(ShiftRight(x, shift) + 1, Pow2(shift - 1));
    }
  }

  /** v & 0x7f | 0x80, the byte written for a group, and v >> 7, what is left to write. */
  lemma GroupByte(v: nat)
    ensures And(v, 0x7f) == v % 128
    ensures Or(And(v, 0x7f), 0x80) == v % 128 + 128
    ensures ShiftRight(v, 7) == v / 128
  {
    assert Pow2(4) == 16 && Pow2(7) == 128;
    MaskIsRemainder(v, 7);
    OrIsAdd(v % 128, 1, 7);
    ShiftRightDivides(v, 7);
  }

  /** The field number and the wire type in a tag. */
  lemma TagBits(wire: nat)
    ensures ShiftRight(wire, 3) == wire / 8 && And(wire, 0x7) == wire % 8
  {
    assert Pow2(3) == 8;
    MaskIsRemainder(wire, 3);
    ShiftRightDivides(wire, 3);
  }

  /** x | 1 */
  lemma OrOne(x: nat)
    ensures Or(x, 1) == if x % 2 == 0 then x + 1 else x
  {
    OrZero(x / 2);
    OrHalves(x, 1);
  }
}
