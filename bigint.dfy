/** The signed 512-bit integers the lattice code computes with.  They are
    signed-magnitude: a sign and a magnitude below 2^512.  Division
    truncates toward zero and the remainder takes the dividend's sign.  The
    bit length and the bit tests read the magnitude. */
module BigInt {
  import opened Arith

  /** The largest magnitude an `int512_t` holds: 2^512 - 1. */
  const Int512Max: int := 0xffffffffffffffffffffffffffffffffffffffffffffffffffffffffffffffffffffffffffffffffffffffffffffffffffffffffffffffffffffffffffffffff

  /** x is a value of `int512_t`. */
  predicate Fits(x: int)
  {
    -Int512Max <= x <= Int512Max
  }

  function Abs(x: int): nat
  {
    if x < 0 then -x else x
  }

  /** The quotient of the magnitudes is not negative. */
  lemma QuotientOfMagnitudes(a: int, b: int)
    requires b != 0
    ensures Abs(a) / Abs(b) >= 0
  {
  }

  /** `/` on `int512_t`: the quotient of the magnitudes, negated when the
      signs differ, so truncated toward zero. */
  function TruncDiv(a: int, b: int): (q: int)
    requires b != 0
    ensures Abs(q) == Abs(a) / Abs(b)
    ensures q == 0 || (q < 0 <==> (a < 0) != (b < 0))
  {
    QuotientOfMagnitudes(a, b);
    if (a < 0) == (b < 0) then Abs(a) / Abs(b) else -(Abs(a) / Abs(b))
  }

  /** `%` on `int512_t`: the remainder of the magnitudes with the sign of
      the dividend. */
  function TruncRem(a: int, b: int): (r: int)
    requires b != 0
    ensures Abs(r) == Abs(a) % Abs(b)
    ensures r == 0 || (r < 0 <==> a < 0)
  {
    if a < 0 then -(Abs(a) % Abs(b)) else Abs(a) % Abs(b)
  }

  /** The division identity of truncating division: a == b * q + r. */
  lemma TruncDivIdentity(a: int, b: int)
    requires b != 0
    ensures b * TruncDiv(a, b) + TruncRem(a, b) == a
  {
    var x, y := Abs(a), Abs(b);
    var q: int, r: int := x / y, x % y;
    var yq := y * q;
    assert x == yq + r;
    assert TruncDiv(a, b) == (if (a < 0) == (b < 0) then q else -q);
    assert TruncRem(a, b) == (if a < 0 then -r else r);
    if b < 0 {
      assert b * q == -yq && b * -q == yq;
    } else {
      assert b * q == yq && b * -q == -yq;
    }
  }

  /** The remainder is smaller than the divisor in magnitude and is zero
      or has the dividend's sign; the quotient is no larger than the
      dividend in magnitude. */
  lemma TruncDivBounds(a: int, b: int)
    requires b != 0
    ensures Abs(TruncRem(a, b)) < Abs(b)
    ensures TruncRem(a, b) == 0 || (TruncRem(a, b) < 0 <==> a < 0)
    ensures Abs(TruncDiv(a, b)) <= Abs(a)
  {
    var x, y := Abs(a), Abs(b);
    var q := x / y;
    assert x == y * q + x % y;
    if q > 0 {
      MulAtLeast(y, q);
    }
  }

  /** A divisor of magnitude 1 leaves no remainder. */
  lemma TruncRemByOne(a: int, b: int)
    requires Abs(b) == 1
    ensures TruncRem(a, b) == 0
    ensures TruncDiv(a, b) == (if b < 0 then -a else a)
  {
  }

  /** Bits needed for n: 0 for zero, else one more than for n / 2. */
  function BitLenNat(n: nat): nat
  {
    if n == 0 then 0 else 1 + BitLenNat(n / 2)
  }

  /** n has exactly BitLenNat(n) significant bits. */
  lemma {:induction false} BitLenNatBounds(n: nat)
    ensures n < Pow2(BitLenNat(n))
    ensures n > 0 ==> Pow2(BitLenNat(n) - 1) <= n
  {
    if n > 0 {
      BitLenNatBounds(n / 2);
    }
  }

  /** `bitlen`: the bit length of the magnitude.  The magnitude lies in
      [2^(len-1), 2^len), and the length is 0 only for 0. */
  function BitLen(x: int): (len: nat)
    ensures Abs(x) < Pow2(len)
    ensures x != 0 ==> Pow2(len - 1) <= Abs(x)
    ensures len == 0 <==> x == 0
  {
    BitLenNatBounds(Abs(x));
    BitLenNat(Abs(x))
  }

  /** `bit_test(x, i)`: bit i of the magnitude, set exactly when the
      magnitude's low i + 1 bits reach 2^i. */
  predicate BitTest(x: int, i: nat)
    ensures BitTest(x, i) <==> Abs(x) % Pow2(i + 1) >= Pow2(i)
  {
    BitSetLowBits(Abs(x), i);
    BitSet(Abs(x), i)
  }

  /** The bits of x's magnitude below position m, summed with their
      weights. */
  function BitsValue(x: int, m: nat): nat
  {
    if m == 0 then 0 else BitsValue(x, m - 1) + (if BitTest(x, m - 1) then Pow2(m - 1) else 0)
  }

  /** The bits below m hold the magnitude modulo 2^m. */
  lemma {:induction false} BitsValueIsLowBits(x: int, m: nat)
    ensures BitsValue(x, m) == Abs(x) % Pow2(m)
  {
    if m > 0 {
      BitsValueIsLowBits(x, m - 1);
      var a := Pow2(m - 1);
      DivDiv(Abs(x), a, 2);
      assert Pow2(m) == a * 2;
    }
  }

  /** Every bit at or above the bit length is clear, and the bits below any
      bound at least the bit length give back the magnitude. */
  lemma BitsAboveLength(x: int, m: nat)
    requires BitLen(x) <= m
    ensures Abs(x) == BitsValue(x, m)
    ensures !BitTest(x, m)
  {
    Pow2Monotone(BitLen(x), m);
    BitsValueIsLowBits(x, m);
    SmallDivMod(Abs(x), Pow2(m));
  }
}
