/** Bytes, machine-word bounds, powers of two and bitwise OR over naturals. */
module Bits {

  type byte = n: nat | n < 256

  const TWO_31: int := 0x8000_0000
  const TWO_32: int := 0x1_0000_0000
  const TWO_63: int := 0x8000_0000_0000_0000
  const TWO_64: int := 0x1_0000_0000_0000_0000

  function Pow2(n: nat): (p: nat)
    ensures p >= 1
  {
    if n == 0 then 1 else 2 * Pow2(n - 1)
  }

  /** Bitwise OR of two unsigned words, bit by bit from the bottom. */
  function Or(a: nat, b: nat): nat {
    if a == 0 && b == 0 then 0
    else 2 * Or(a / 2, b / 2) + (if a % 2 == 1 || b % 2 == 1 then 1 else 0)
  }

  /** Bitwise exclusive OR of two unsigned words. */
  function Xor(a: nat, b: nat): nat {
    if a == 0 && b == 0 then 0
    else 2 * Xor(a / 2, b / 2) + (if a % 2 != b % 2 then 1 else 0)
  }

  /** Bit k of an unsigned word. */
  predicate Bit(w: nat, k: nat) {
    if k == 0 then w % 2 == 1 else Bit(w / 2, k - 1)
  }

  lemma Pow2Seven(n: nat)
    ensures Pow2(n + 7) == 128 * Pow2(n)
  {
    assert Pow2(n + 1) == 2 * Pow2(n);
    assert Pow2(n + 2) == 4 * Pow2(n);
    assert Pow2(n + 3) == 8 * Pow2(n);
    assert Pow2(n + 4) == 16 * Pow2(n);
    assert Pow2(n + 5) == 32 * Pow2(n);
    assert Pow2(n + 6) == 64 * Pow2(n);
  }

  /** The powers of two the varint loops meet. */
  lemma PowersOfTwo()
    ensures Pow2(0) == 1 && Pow2(3) == 8 && Pow2(4) == 16 && Pow2(7) == 0x80 && Pow2(10) == 0x400
    ensures Pow2(8) == 0x100 && Pow2(11) == 0x800 && Pow2(14) == 0x4000 && Pow2(17) == 0x2_0000
    ensures Pow2(18) == 0x4_0000 && Pow2(21) == 0x20_0000 && Pow2(24) == 0x100_0000 && Pow2(25) == 0x200_0000
    ensures Pow2(28) == 0x1000_0000 && Pow2(29) == 0x2000_0000 && Pow2(31) == TWO_31 && Pow2(32) == TWO_32
    ensures Pow2(36) == 0x10_0000_0000 && Pow2(43) == 0x800_0000_0000 && Pow2(50) == 0x4_0000_0000_0000
    ensures Pow2(57) == 0x200_0000_0000_0000 && Pow2(63) == TWO_63 && Pow2(64) == TWO_64
  {
    assert Pow2(0) == 1 && Pow2(1) == 2 && Pow2(2) == 4 && Pow2(3) == 8 && Pow2(4) == 16;
    Pow2Seven(0); Pow2Seven(7); Pow2Seven(14); Pow2Seven(21); Pow2Seven(1);
    Pow2Seven(3); Pow2Seven(10); Pow2Seven(17);
    Pow2Seven(4); Pow2Seven(11); Pow2Seven(18); Pow2Seven(24);
    Pow2Seven(25);
    Pow2Seven(22); Pow2Seven(15); Pow2Seven(8); Pow2Seven(29); Pow2Seven(36); Pow2Seven(43); Pow2Seven(50);
    Pow2Seven(56); Pow2Seven(49); Pow2Seven(42); Pow2Seven(35); Pow2Seven(28); Pow2Seven(57);
  }

  lemma Pow2At7()
    ensures Pow2(7) == 128
  { PowersOfTwo(); }

  lemma Pow2Word()
    ensures Pow2(32) == TWO_32
  { PowersOfTwo(); }

  lemma Pow2Long()
    ensures Pow2(64) == TWO_64
  { PowersOfTwo(); }

  lemma Pow2Sign()
    ensures Pow2(63) == TWO_63
  { PowersOfTwo(); }

  lemma {:induction false} Pow2Sum(a: nat, b: nat)
    ensures Pow2(a + b) == Pow2(a) * Pow2(b)
  {
    if a > 0 {
      Pow2Sum(a - 1, b);
      assert Pow2(a + b) == 2 * Pow2(a - 1 + b);
    }
  }

  lemma {:induction false} Pow2Monotone(a: nat, b: nat)
    requires a <= b
    ensures Pow2(a) <= Pow2(b)
    decreases b - a
  {
    if a < b { Pow2Monotone(a, b - 1); }
  }

  lemma {:induction false} OrZero(b: nat)
    ensures Or(0, b) == b
  {
    if b > 0 { OrZero(b / 2); }
  }

  lemma {:induction false} OrAtLeast(a: nat, b: nat)
    ensures Or(a, b) >= a && Or(a, b) >= b
  {
    if a > 0 || b > 0 { OrAtLeast(a / 2, b / 2); }
  }

  /** y shifted left by p bits. */
  function Shl(y: nat, p: nat): nat {
    if p == 0 then y else 2 * Shl(y, p - 1)
  }

  /** OR-ing a value shifted past every set bit of the accumulator is addition. */
  lemma {:induction false} OrDisjoint(a: nat, x: nat, p: nat)
    requires a < Pow2(p)
    ensures Or(a, Shl(x, p)) == a + Shl(x, p)
  {
    if p == 0 { OrZero(x); } else { OrDisjoint(a / 2, x, p - 1); }
  }

  lemma {:induction false} XorZero(b: nat)
    ensures Xor(0, b) == b
  {
    if b > 0 { XorZero(b / 2); }
  }

  lemma {:induction false} XorDisjoint(a: nat, x: nat, p: nat)
    requires a < Pow2(p)
    ensures Xor(a, Shl(x, p)) == a + Shl(x, p)
  {
    if p == 0 {
      XorZero(x);
    } else {
      var half := Shl(x, p - 1);
      XorDisjoint(a / 2, x, p - 1);
      assert Shl(x, p) / 2 == half && Shl(x, p) % 2 == 0;
    }
  }

  lemma {:induction false} ShlProduct(y: nat, p: nat)
    ensures Shl(y, p) == y * Pow2(p)
  {
    if p > 0 { ShlProduct(y, p - 1); }
  }

  lemma {:induction false} ShlZero(p: nat)
    ensures Shl(0, p) == 0
  {
    if p > 0 { ShlZero(p - 1); }
  }

  lemma {:induction false} ShlAdd(a: nat, b: nat, p: nat)
    ensures Shl(a + b, p) == Shl(a, p) + Shl(b, p)
  {
    if p > 0 { ShlAdd(a, b, p - 1); }
  }

  lemma {:induction false} ShlTwice(y: nat, p: nat)
    ensures Shl(2 * y, p) == Shl(y, p + 1)
  {
    if p > 0 { ShlTwice(y, p - 1); }
  }

  lemma ShlSeven(y: nat, p: nat)
    ensures Shl(128 * y, p) == Shl(y, p + 7)
  {
    ShlTwice(64 * y, p); ShlTwice(32 * y, p + 1); ShlTwice(16 * y, p + 2); ShlTwice(8 * y, p + 3);
    ShlTwice(4 * y, p + 4); ShlTwice(2 * y, p + 5); ShlTwice(y, p + 6);
  }

  lemma {:induction false} ShlBound(y: nat, k: nat, p: nat)
    requires y < Pow2(k)
    ensures Shl(y, p) + Pow2(p) <= Pow2(k + p)
  {
    if p > 0 { ShlBound(y, k, p - 1); }
  }

  lemma MulAtLeast(e: int, m: nat)
    requires e >= 1
    ensures e * m >= m
  {
  }

  lemma AddMod(a: int, b: int, m: nat)
    requires m > 0
    ensures (a % m + b) % m == (a + b) % m
    ensures (a + b % m) % m == (a + b) % m
  {
    ModShifted(a % m + b, a / m, m);
    assert a == m * (a / m) + a % m;
    ModShifted(a + b % m, b / m, m);
    assert b == m * (b / m) + b % m;
  }

  lemma ModShifted(x: int, k: int, m: nat)
    requires m > 0
    ensures (x + m * k) % m == x % m
  {
    var d, r := x / m, x % m;
    var d', r' := (x + m * k) / m, (x + m * k) % m;
    assert m * (d + k - d') == r' - r by {
      assert x == m * d + r && x + m * k == m * d' + r';
      assert m * (d + k - d') == m * d + m * k - m * d';
    }
    MulSmall(d + k - d', m, r' - r);
  }

  lemma MulSmall(e: int, m: nat, z: int)
    requires m * e == z && z < m && -z < m
    ensures z == 0
  {
    if e >= 1 { MulAtLeast(e, m); } else if e <= -1 { MulAtLeast(-e, m); NegMul(e, m); }
  }

  lemma NegMul(e: int, m: int)
    ensures (-e) * m == -(e * m)
  {
  }

  lemma ModUnique(n: nat, d: nat, r: nat, m: nat)
    requires m > 0 && r < m && n == d * m + r
    ensures n % m == r && n / m == d
  {
    var d', r' := n / m, n % m;
    assert (d' - d) * m == r - r' by {
      assert n == m * d' + r';
      assert (d' - d) * m == d' * m - d * m;
    }
    if d < d' { MulAtLeast(d' - d, m); }
    if d' < d { MulAtLeast(d - d', m); NegMul(d - d', m); }
  }

  /** Truncating a left shift to q bits drops the top bits of the shifted value. */
  lemma ShiftTruncated(y: nat, p: nat, q: nat)
    requires p <= q
    ensures Shl(y, p) % Pow2(q) == Shl(y % Pow2(q - p), p)
  {
    ShlProduct(y, p);
    ShlProduct(y % Pow2(q - p), p);
    Pow2Sum(q - p, p);
    ScaledMod(y, Pow2(q - p), Pow2(p));
  }

  lemma ScaledMod(y: nat, m: nat, t: nat)
    requires m >= 1 && t >= 1
    ensures m * t >= 1
    ensures (y * t) % (m * t) == (y % m) * t
  {
    var d, r := y / m, y % m;
    assert y == m * d + r;
    MulAtLeast(m, t);
    MulShift(y, m, d, r, t);
    MulBelow(r, m, t);
    var n, mt, rt := y * t, m * t, r * t;
    assert rt >= 0 by { if r > 0 { MulAtLeast(r, t); } }
    ModUnique(n, d, rt, mt);
  }

  lemma MulShift(y: nat, m: nat, d: nat, r: nat, t: nat)
    requires y == m * d + r
    ensures y * t == d * (m * t) + r * t
  {
    assert y * t == (m * d) * t + r * t;
    assert (m * d) * t == d * (m * t);
  }

  lemma MulBelow(r: nat, m: nat, t: nat)
    requires r < m && t >= 1
    ensures r * t < m * t
  {
    MulAtLeast(m - r, t);
    assert (m - r) * t == m * t - r * t;
  }

  lemma {:induction false} OrBit(a: nat, b: nat, k: nat)
    ensures Bit(Or(a, b), k) <==> Bit(a, k) || Bit(b, k)
  {
    if a == 0 && b == 0 {
    } else if k > 0 {
      OrBit(a / 2, b / 2, k - 1);
    }
  }

  lemma {:induction false} BitOfPow2(j: nat, k: nat)
    ensures Bit(Pow2(j), k) <==> j == k
  {
    if j > 0 && k > 0 {
      assert Pow2(j) / 2 == Pow2(j - 1);
      BitOfPow2(j - 1, k - 1);
    } else if j == 0 && k > 0 {
      ZeroHasNoBits(k - 1);
    }
  }

  lemma {:induction false} ZeroHasNoBits(k: nat)
    ensures !Bit(0, k)
  {
    if k > 0 { ZeroHasNoBits(k - 1); }
  }

  lemma {:induction false} OrBound(a: nat, b: nat, q: nat)
    requires a < Pow2(q) && b < Pow2(q)
    ensures Or(a, b) < Pow2(q)
  {
    if q > 0 { OrBound(a / 2, b / 2, q - 1); }
  }

  /** Of the q low bits of w, exactly the bottom r are set. */
  ghost predicate LowBits(w: nat, r: nat, q: nat) {
    forall k | 0 <= k < q :: Bit(w, k) == (k < r)
  }

  /** A q-bit word equals the mask of its r low bits exactly when those, and only those, are set. */
  lemma {:induction false} MaskIffLowBits(w: nat, r: nat, q: nat)
    requires r <= q && w < Pow2(q)
    ensures w == Pow2(r) - 1 <==> LowBits(w, r, q)
  {
    if q > 0 {
      var r' := if r == 0 then 0 else r - 1;
      MaskIffLowBits(w / 2, r', q - 1);
      if LowBits(w, r, q) {
        assert Bit(w, 0) <==> 0 < r;
        forall k | 0 <= k < q - 1 ensures Bit(w / 2, k) == (k < r') {
          assert Bit(w, k + 1) <==> k + 1 < r;
        }
        assert w == Pow2(r) - 1;
      } else if w == Pow2(r) - 1 {
        assert w / 2 == Pow2(r') - 1 && (w % 2 == 1 <==> 0 < r);
        forall k | 0 <= k < q ensures Bit(w, k) == (k < r) {
          if k > 0 { assert Bit(w / 2, k - 1) <==> k - 1 < r'; }
        }
        assert false;
      }
    }
  }
}
