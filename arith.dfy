/** Powers and the facts about Euclidean division and remainder that the
    field and lattice models rely on.  Every lemma here is stated for a
    general modulus or divisor; the callers instantiate it with p, 2^64,
    256 or a power of two. */
module Arith {

  /** b raised to the e-th power. */
  function Pow(b: int, e: nat): int
  {
    if e == 0 then 1 else b * Pow(b, e - 1)
  }

  /** 2 raised to the e-th power, the value of the shift `1 << e`. */
  function Pow2(e: nat): (r: nat)
    ensures r >= 1
  {
    if e == 0 then 1 else 2 * Pow2(e - 1)
  }

  lemma {:induction false} Pow2Add(a: nat, b: nat)
    ensures Pow2(a + b) == Pow2(a) * Pow2(b)
  {
    if a > 0 {
      Pow2Add(a - 1, b);
      assert Pow2(a + b) == 2 * Pow2(a - 1 + b);
    }
  }

  lemma Pow2Of8()
    ensures Pow2(8) == 256
  {
    assert Pow2(4) == 16;
    Pow2Add(4, 4);
  }

  /** One more byte of weight: 2^(n + 8) == 256 * 2^n. */
  lemma Pow2Step8(n: nat)
    ensures Pow2(n + 8) == 256 * Pow2(n)
  {
    Pow2Add(n, 8);
    Pow2Of8();
  }

  lemma {:induction false} Pow2Monotone(a: nat, b: nat)
    requires a <= b
    ensures Pow2(a) <= Pow2(b)
  {
    if a < b {
      Pow2Monotone(a, b - 1);
    }
  }

  lemma {:induction false} PowAdd(x: int, m: nat, n: nat)
    ensures Pow(x, m + n) == Pow(x, m) * Pow(x, n)
  {
    if m > 0 {
      PowAdd(x, m - 1, n);
      assert Pow(x, m + n) == x * Pow(x, m - 1 + n);
    }
  }

  /** The square of x^(2^t) is x^(2^(t+1)): one squaring step of
      square-and-multiply. */
  lemma PowSquare(x: int, t: nat)
    ensures Pow(x, Pow2(t + 1)) == Pow(x, Pow2(t)) * Pow(x, Pow2(t))
  {
    PowAdd(x, Pow2(t), Pow2(t));
  }

  /** The remainder is determined by any decomposition x == q*m + r with
      0 <= r < m. */
  lemma ModUnique(x: int, m: int, q: int, r: int)
    requires m > 0 && 0 <= r < m && x == q * m + r
    ensures x / m == q && x % m == r
  {
    var q', r' := x / m, x % m;
    assert (q - q') * m == r' - r;
    if q > q' {
      assert (q - q') * m >= m by { MulAtLeast(q - q', m); }
    } else if q < q' {
      assert (q' - q) * m >= m by { MulAtLeast(q' - q, m); }
    }
  }

  lemma MulAtLeast(k: int, m: int)
    requires k >= 1 && m > 0
    ensures k * m >= m
  {
    assert k * m == (k - 1) * m + m;
    assert (k - 1) * m >= 0;
  }

  /** Adding a multiple of m changes neither the remainder nor, beyond k,
      the quotient. */
  lemma DivModAddMultiple(x: int, k: int, m: int)
    requires m > 0
    ensures (x + k * m) % m == x % m
    ensures (x + k * m) / m == x / m + k
  {
    ModUnique(x + k * m, m, x / m + k, x % m);
  }

  /** Reducing a factor modulo m first does not change a product's
      remainder. */
  lemma ModMulLeft(a: int, b: int, m: int)
    requires m > 0
    ensures (a * b) % m == ((a % m) * b) % m
  {
    var q := a / m;
    assert a * b == (a % m) * b + (q * b) * m;
    DivModAddMultiple((a % m) * b, q * b, m);
  }

  /** Multiplication respects congruence modulo m in both factors. */
  lemma ModMulCong(a: int, a': int, b: int, b': int, m: int)
    requires m > 0 && a % m == a' % m && b % m == b' % m
    ensures (a * b) % m == (a' * b') % m
  {
    ModMulLeft(a, b, m);
    ModMulLeft(a', b, m);
    ModMulLeft(b, a', m);
    ModMulLeft(b', a', m);
  }

  /** Addition respects congruence modulo m in both summands. */
  lemma ModAddCong(a: int, a': int, b: int, b': int, m: int)
    requires m > 0 && a % m == a' % m && b % m == b' % m
    ensures (a + b) % m == (a' + b') % m
  {
    ModUnique(a + b, m, a / m + b / m + (a % m + b % m) / m, (a % m + b % m) % m);
    ModUnique(a' + b', m, a' / m + b' / m + (a' % m + b' % m) / m, (a' % m + b' % m) % m);
  }

  /** A remainder is its own remainder. */
  lemma ModOfMod(a: int, m: int)
    requires m > 0
    ensures (a % m) % m == a % m
  {
    ModUnique(a % m, m, 0, a % m);
  }

  /** Multiplying by a non-negative factor preserves order. */
  lemma MulMonotone(a: int, z: int, w: int)
    requires a >= 0 && z <= w
    ensures a * z <= a * w
  {
    assert a * w - a * z == a * (w - z);
  }

  /** A value below n, scaled by a positive x, stays below n * x. */
  lemma MulBelow(v: int, n: int, x: int)
    requires 0 <= v < n && x > 0
    ensures v * x < n * x
  {
    MulMonotone(x, v + 1, n);
  }

  /** Shifting in one more base-256 digit: if acc holds pre at weight
      256 x, adding the digit at weight x gives (pre * 256 + digit) at
      weight x. */
  lemma AccumulateDigit(pre: int, digit: int, v: int, acc: int, x: int, y: int)
    requires v == pre * 256 + digit && y == 256 * x && acc == pre * y
    ensures acc + digit * x == v * x
  {
  }

  /** Adding digit d at weight x to pre shifted one digit further up gives
      v = pre * 256 + d at weight x, and that stays below bound * x. */
  lemma ShiftedDigitStep(pre: int, d: int, v: int, acc: int, x: int, y: int, bound: int, top: int)
    requires v == pre * 256 + d && y == 256 * x && acc == pre * y
    requires 0 <= v < bound && x > 0 && top == bound * x
    ensures acc + d * x == v * x
    ensures 0 <= v * x < top
  {
    AccumulateDigit(pre, d, v, acc, x, y);
    MulBelow(v, bound, x);
    MulMonotone(v, 0, x);
  }

  /** A digit below base plus base times a value below bound stays below
      base * bound. */
  lemma DigitBound(lo: int, hi: int, base: int, bound: int)
    requires 0 <= lo < base && 0 <= hi < bound
    ensures lo + base * hi < base * bound
  {
    MulMonotone(base, hi, bound - 1);
    assert base * (bound - 1) == base * bound - base;
  }

  /** Shifting one base-256 digit d into x * y + z, where w == y * 256. */
  lemma ShiftDigit(x: int, y: int, z: int, d: int, w: int)
    requires w == y * 256
    ensures (x * y + z) * 256 + d == x * w + (z * 256 + d)
  {
  }

  /** Distributing the weight c of the upper words over a new top word w
      of relative weight y: c * y is the new word's weight. */
  lemma ShiftWord(a: int, c: int, v: int, y: int, w: int, big: int)
    requires big == c * y
    ensures a + c * (v + y * w) == (a + c * v) + big * w
  {
    assert c * (v + y * w) == c * v + (c * y) * w;
  }

  /** Dividing by at least 2 at least halves. */
  lemma QuotientAtMostHalf(x: nat, y: nat)
    requires y >= 2
    ensures 2 * (x / y) <= x
  {
    MulMonotone(x / y, 2, y);
  }

  /** Dividing by a then by b is dividing by a*b; the remainder modulo a*b
      splits into the two remainders. */
  lemma DivDiv(x: int, a: int, b: int)
    requires a > 0 && b > 0
    ensures x / (a * b) == (x / a) / b
    ensures x % (a * b) == a * ((x / a) % b) + x % a
  {
    var y, ra := x / a, x % a;
    var q, z := y / b, y % b;
    assert x == a * y + ra;
    assert y == b * q + z;
    assert a * y == (a * b) * q + a * z by {
      assert a * y == a * (b * q + z);
      assert a * (b * q + z) == a * (b * q) + a * z;
      assert a * (b * q) == (a * b) * q;
    }
    MulMonotone(a, z, b - 1);
    assert a * (b - 1) == a * b - a;
    ModUnique(x, a * b, q, a * z + ra);
  }

  /** Keeping one more low bit: the remainder modulo 2 lo is the remainder
      modulo lo plus bit (w / lo) % 2 at weight lo; scaled here by hi. */
  lemma LowBitsStep(w: nat, lo: nat, lo2: nat, hi: nat)
    requires lo > 0 && lo2 == lo * 2
    ensures hi * (w % lo2) == hi * (w % lo) + ((w / lo) % 2) * (hi * lo)
  {
    DivDiv(w, lo, 2);
    var bit := (w / lo) % 2;
    assert w % lo2 == lo * bit + w % lo;
    assert hi * (lo * bit + w % lo) == hi * (w % lo) + bit * (hi * lo);
  }

  /** Bit i of n, `(n >> i) & 1`, is set. */
  predicate BitSet(n: nat, i: nat)
  {
    (n / Pow2(i)) % 2 == 1
  }

  /** Bit i of n is set exactly when n's low i + 1 bits reach 2^i. */
  lemma BitSetLowBits(n: nat, i: nat)
    ensures BitSet(n, i) <==> n % Pow2(i + 1) >= Pow2(i)
  {
    LowBitsStep(n, Pow2(i), Pow2(i + 1), 1);
  }

  /** A non-negative value below d has quotient 0 and is its own
      remainder. */
  lemma SmallDivMod(x: int, d: int)
    requires 0 <= x < d
    ensures x / d == 0 && x % d == x
  {
    ModUnique(x, d, 0, x);
  }

  // Montgomery arithmetic modulo m with radix r and r * ri == 1 (mod m).
  // A value v is held in Montgomery form as v * r (mod m); a Montgomery
  // product of s and t is s * t * ri (mod m).

  /** Multiplying by r and by ri cancels. */
  lemma MontCancel(x: int, m: int, r: int, ri: int)
    requires m > 1 && (r * ri) % m == 1
    ensures (x * r * ri) % m == x % m
  {
    assert 1 % m == 1 by { SmallDivMod(1, m); }
    ModMulCong(x, x, r * ri, 1, m);
    assert x * r * ri == x * (r * ri);
  }

  /** The reduced Montgomery product of u: below m, and R times it is u. */
  lemma MontReduce(u: int, m: int, r: int, ri: int)
    requires m > 1 && (r * ri) % m == 1
    ensures 0 <= (u * ri) % m < m
    ensures (((u * ri) % m) * r) % m == u % m
  {
    ModMulLeft(u * ri, r, m);
    assert u * ri * r == u * r * ri;
    MontCancel(u, m, r, ri);
  }

  /** A Montgomery product of congruent operands is congruent. */
  lemma MontProductCong(s: int, t: int, x: int, y: int, m: int, ri: int)
    requires m > 1 && s % m == x % m && t % m == y % m
    ensures (s * t * ri) % m == (x * y * ri) % m
  {
    ModMulCong(s, x, t, y, m);
    ModMulCong(s * t, x * y, ri, ri, m);
  }

  /** The product of x (carrying ri) and y (carrying r) carries ri. */
  lemma MontMultiplyStep(s: int, t: int, x: int, y: int, m: int, r: int, ri: int)
    requires m > 1 && (r * ri) % m == 1
    requires s % m == (x * ri) % m && t % m == (y * r) % m
    ensures (s * t * ri) % m == (x * y * ri) % m
  {
    MontProductCong(s, t, x * ri, y * r, m, ri);
    assert x * ri * (y * r) * ri == (x * y * ri) * r * ri;
    MontCancel(x * y * ri, m, r, ri);
  }

  /** The Montgomery square of y (carrying r) is y * y carrying r. */
  lemma MontSquareStep(t: int, y: int, m: int, r: int, ri: int)
    requires m > 1 && (r * ri) % m == 1
    requires t % m == (y * r) % m
    ensures (t * t * ri) % m == (y * y * r) % m
  {
    MontProductCong(t, t, y * r, y * r, m, ri);
    assert y * r * (y * r) * ri == (y * y * r) * r * ri;
    MontCancel(y * y * r, m, r, ri);
  }

  /** Multiplying x (carrying ri) by r^3 mod m turns the factor into r. */
  lemma MontRescale(s: int, x: int, r3: int, m: int, r: int, ri: int)
    requires m > 1 && (r * ri) % m == 1
    requires s % m == (x * ri) % m && r3 == (r * r * r) % m
    ensures (s * r3 * ri) % m == (x * r) % m
  {
    ModOfMod(r * r * r, m);
    MontProductCong(s, r3, x * ri, r * r * r, m, ri);
    assert x * ri * (r * r * r) * ri == ((x * r * r * ri) * r * ri);
    MontCancel(x * r * r * ri, m, r, ri);
    assert x * r * r * ri == (x * r) * r * ri;
    MontCancel(x * r, m, r, ri);
  }

  /** Montgomery multiplication by r^2 mod m multiplies by r. */
  lemma MontEncodeStep(a: int, r2: int, m: int, r: int, ri: int)
    requires m > 1 && (r * ri) % m == 1 && r2 == (r * r) % m
    ensures (a * r2 * ri) % m == (a * r) % m
  {
    ModOfMod(r * r, m);
    MontProductCong(a, r2, a, r * r, m, ri);
    assert a * (r * r) * ri == (a * r) * r * ri;
    MontCancel(a * r, m, r, ri);
  }

  /** Decoding an encoded value below m returns it. */
  lemma MontDecodeEncodeStep(v: int, e: int, m: int, r: int, ri: int)
    requires m > 1 && (r * ri) % m == 1 && 0 <= v < m && e == (v * r) % m
    ensures (e * ri) % m == v
  {
    ModOfMod(v * r, m);
    ModMulCong(e, v * r, ri, ri, m);
    MontCancel(v, m, r, ri);
    SmallDivMod(v, m);
  }

  /** The Montgomery product of the encodings of a and b, decoded, is a * b. */
  lemma MontProductOfEncoded(a: int, b: int, ea: int, eb: int, m: int, r: int, ri: int)
    requires m > 1 && (r * ri) % m == 1
    requires ea == (a * r) % m && eb == (b * r) % m
    ensures (((ea * eb * ri) % m) * ri) % m == (a * b) % m
  {
    ModOfMod(a * r, m);
    ModOfMod(b * r, m);
    MontProductCong(ea, eb, a * r, b * r, m, ri);
    assert a * r * (b * r) * ri == (a * b * r) * r * ri;
    MontCancel(a * b * r, m, r, ri);
    ModOfMod(ea * eb * ri, m);
    ModMulCong((ea * eb * ri) % m, a * b * r, ri, ri, m);
    MontCancel(a * b, m, r, ri);
  }

  // Right-to-left square-and-multiply in Montgomery form.  After t
  // exponent bits, pw holds a^(2^t) and s holds a^e, where e is the value
  // of the bits taken so far; pw carries the factor r and s the factor ri.

  ghost predicate Ladder(s: int, pw: int, a: int, e: nat, t: nat, m: int, r: int, ri: int)
    requires m > 0
  {
    && pw % m == (Pow(a, Pow2(t)) * r) % m
    && s % m == (Pow(a, e) * ri) % m
  }

  /** Starting from s = ri and pw = x (the Montgomery form of a = x ri). */
  lemma LadderInit(x: int, m: int, r: int, ri: int)
    requires m > 1 && (r * ri) % m == 1
    ensures Ladder(ri, x, x * ri, 0, 0, m, r, ri)
  {
    var a := x * ri;
    assert Pow(a, Pow2(0)) == a;
    assert Pow(a, 0) == 1;
    MontCancel(x, m, r, ri);
    assert x * r * ri == a * r;
  }

  /** Squaring pw moves the ladder one bit on without taking it. */
  lemma LadderSquare(s: int, pw: int, pw2: int, a: int, e: nat, t: nat, m: int, r: int, ri: int)
    requires m > 1 && (r * ri) % m == 1
    requires Ladder(s, pw, a, e, t, m, r, ri) && pw2 == (pw * pw * ri) % m
    ensures Ladder(s, pw2, a, e, t + 1, m, r, ri)
  {
    var y := Pow(a, Pow2(t));
    MontSquareStep(pw, y, m, r, ri);
    ModOfMod(pw * pw * ri, m);
    PowSquare(a, t);
  }

  /** Multiplying s by pw takes bit t, adding 2^t to the exponent. */
  lemma LadderMultiply(s: int, pw: int, s2: int, pw2: int, a: int, e: nat, t: nat, m: int, r: int, ri: int)
    requires m > 1 && (r * ri) % m == 1
    requires Ladder(s, pw, a, e, t, m, r, ri)
    requires s2 == (s * pw * ri) % m && pw2 == (pw * pw * ri) % m
    ensures Ladder(s2, pw2, a, e + Pow2(t), t + 1, m, r, ri)
  {
    LadderSquare(s, pw, pw2, a, e, t, m, r, ri);
    var x, y := Pow(a, e), Pow(a, Pow2(t));
    MontMultiplyStep(s, pw, x, y, m, r, ri);
    ModOfMod(s * pw * ri, m);
    PowAdd(a, e, Pow2(t));
  }

  /** A final Montgomery multiplication by r^3 mod m converts s to the
      Montgomery form of a^e. */
  lemma LadderFinish(s: int, pw: int, a: int, e: nat, t: nat, r3: int, out: int, m: int, r: int, ri: int)
    requires m > 1 && (r * ri) % m == 1
    requires Ladder(s, pw, a, e, t, m, r, ri)
    requires r3 == (r * r * r) % m && out == (s * r3 * ri) % m
    ensures out == (Pow(a, e) * r) % m
  {
    MontRescale(s, Pow(a, e), r3, m, r, ri);
  }

  /** A value below m that cancels w modulo m is -w reduced modulo m. */
  lemma NegationIsUnique(v: int, w: int, m: int)
    requires m > 0 && 0 <= v < m && (v + w) % m == 0
    ensures v == (-w) % m
  {
    ModAddCong(v + w, 0, -w, -w, m);
    assert v + w + -w == v;
    SmallDivMod(v, m);
  }

  /** The residue that negates n * r modulo m is (-n) * r modulo m. */
  lemma NegOfScaled(v: int, w: int, n: int, r: int, m: int)
    requires m > 0 && 0 <= v < m && w == (n * r) % m && (v + w) % m == 0
    ensures v == ((-n) * r) % m
  {
    NegationIsUnique(v, w, m);
    NegOfMod(n * r, m);
    assert -(n * r) == (-n) * r;
  }

  /** Negating before or after reduction gives the same residue. */
  lemma NegOfMod(x: int, m: int)
    requires m > 0
    ensures (-(x % m)) % m == (-x) % m
  {
    assert -(x % m) == -x + (x / m) * m;
    DivModAddMultiple(-x, x / m, m);
  }
}
