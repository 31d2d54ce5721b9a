/** Scalar decomposition with respect to a lattice basis: Babai rounding of
    k * inverse[i] / det, the closest lattice vector subtracted from
    <k, 0, ..., 0>, and the bit-sliced byte schedule `multi` builds from the
    components for a simultaneous multi-scalar multiplication.  The 512-bit
    signed integers are unbounded here; the preconditions say that every
    intermediate the source computes fits in 512 bits. */
module Decomposition {
  import opened Arith
  import opened Words
  import opened Constants
  import opened BigInt

  /** A lattice: the basis rows `vectors`, the row `inverse` used for
      rounding and the determinant `det`.  The operations only read it. */
  datatype Lattice = Lattice(vectors: seq<seq<int>>, inverse: seq<int>, det: int)

  /** What decompose reads of its lattice: n = |inverse| >= 1 components and
      the first n entries of the first n basis rows. */
  predicate WellShaped(l: Lattice)
  {
    |l.inverse| >= 1 && |l.vectors| >= |l.inverse|
    && forall j :: 0 <= j < |l.inverse| ==> |l.vectors[j]| >= |l.inverse|
  }

  // ---------------------------------------------------------------------
  // round

  /** `constants::order >> 1`, the threshold round compares against. */
  const Half: int := Order / 2

  /** The value round leaves in num. */
  function Rounded(num: int, denom: int): int
  {
    if denom == 0 then num
    else
      var q := TruncDiv(num, denom);
      if TruncRem(q, denom) > Half then q + 1 else q
  }

  /** `round`: with a zero denominator num is left alone; otherwise num
      becomes the truncated quotient q, plus one exactly when the truncated
      remainder of q itself by denom exceeds order >> 1. */
  method Round(num: int, denom: int) returns (r: int)
    ensures denom == 0 ==> r == num
    ensures denom != 0 ==> r == TruncDiv(num, denom) || r == TruncDiv(num, denom) + 1
    ensures denom != 0 ==> (r == TruncDiv(num, denom) + 1 <==> TruncRem(TruncDiv(num, denom), denom) > Half)
    ensures r == Rounded(num, denom)
  {
    r := num;
    if denom != 0 {
      r := TruncDiv(r, denom);
      var rem := TruncRem(r, denom);
      if rem > Half {
        r := r + 1;
      }
    }
  }

  /** round never leaves the 512-bit range: the quotient is no larger than
      num, and it can only be at the edge of the range when the
      denominator is 1 or -1, which leaves no remainder to round up on. */
  lemma RoundedFits(num: int, denom: int)
    requires Fits(num)
    ensures Fits(Rounded(num, denom))
  {
    if denom != 0 {
      var q := TruncDiv(num, denom);
      TruncDivBounds(num, denom);
      if Abs(denom) == 1 {
        TruncRemByOne(q, denom);
      } else {
        QuotientAtMostHalf(Abs(num), Abs(denom));
      }
    }
  }

  /** Because the remainder is taken of the quotient by denom, it is
      smaller than denom; for every denominator no larger than
      (order >> 1) + 1 in magnitude, round is plain truncating division. */
  lemma RoundTruncatesForSmallDenominators(num: int, denom: int)
    requires 0 < Abs(denom) <= Half + 1
    ensures Rounded(num, denom) == TruncDiv(num, denom)
  {
    TruncDivBounds(TruncDiv(num, denom), denom);
  }

  /** The rounding the comment above round describes: Euclidean division
      of num by denom, rounded up when the remainder of num itself exceeds
      half of denom. */
  function NearestRound(num: int, denom: int): int
    requires denom > 0
  {
    if num % denom > denom / 2 then num / denom + 1 else num / denom
  }

  /** NearestRound is a nearest integer to num / denom: denom times it is
      within denom / 2 of num. */
  lemma NearestRoundIsNearest(num: int, denom: int)
    requires denom > 0
    ensures 2 * Abs(num - denom * NearestRound(num, denom)) <= denom
  {
    var q, r := num / denom, num % denom;
    assert num == denom * q + r;
    if r > denom / 2 {
      assert num - denom * (q + 1) == r - denom;
    } else {
      assert num - denom * q == r;
    }
  }

  /** round as written is not rounding to nearest: 5 / 3 rounds to 1
      (the remainder of the quotient 1 by 3 is 1, far below order >> 1),
      while the nearest integer to 5 / 3 is 2. */
  lemma RoundMissesNearest()
    ensures Rounded(5, 3) == 1
    ensures NearestRound(5, 3) == 2
    ensures 2 * Abs(5 - 3 * Rounded(5, 3)) > 3
  {
    assert TruncDiv(5, 3) == 1;
    assert TruncRem(1, 3) == 1;
  }

  /** The miss does not hinge on the threshold: even with denom = order,
      where order >> 1 is half of denom, num = order + (order >> 1) + 1
      rounds to 1, because the remainder taken is that of the quotient 1,
      not of num; the nearest integer is 2. */
  lemma RoundMissesNearestAtOrder()
    ensures Rounded(Order + Half + 1, Order) == 1
    ensures NearestRound(Order + Half + 1, Order) == 2
    ensures 2 * Abs(Order + Half + 1 - Order * Rounded(Order + Half + 1, Order)) > Order
  {
    var num := Order + Half + 1;
    assert Order == 2 * Half + 1;
    DivModAddMultiple(Half + 1, 1, Order);
    SmallDivMod(Half + 1, Order);
    assert TruncDiv(num, Order) == 1;
    SmallDivMod(1, Order);
    assert TruncRem(1, Order) == 1;
  }

  // ---------------------------------------------------------------------
  // decompose

  /** c[i] = k * inverse[i] / det, rounded by round: Babai's rounding. */
  function Coefficients(l: Lattice, k: int): (c: seq<int>)
    ensures |c| == |l.inverse|
    ensures forall i :: 0 <= i < |c| ==> c[i] == Rounded(k * l.inverse[i], l.det)
  {
    seq(|l.inverse|, i requires 0 <= i < |l.inverse| => Rounded(k * l.inverse[i], l.det))
  }

  /** Column i of the combination of the first m basis rows with
      coefficients c: the sum of c[j] * vectors[j][i] over j < m. */
  function Combination(c: seq<int>, vs: seq<seq<int>>, i: nat, m: nat): int
    requires m <= |c| && m <= |vs| && forall j :: 0 <= j < m ==> i < |vs[j]|
  {
    if m == 0 then 0 else Combination(c, vs, i, m - 1) + c[m - 1] * vs[m - 1][i]
  }

  /** Component i of decompose's output: the closest vector's column i
      negated, plus twice vectors[0][i], plus k in the first component. */
  function DecomposeSpec(l: Lattice, k: int): (out: seq<int>)
    requires WellShaped(l)
    ensures |out| == |l.inverse|
  {
    var n, c := |l.inverse|, Coefficients(l, k);
    seq(n, i requires 0 <= i < n =>
      -Combination(c, l.vectors, i, n) + 2 * l.vectors[0][i] + (if i == 0 then k else 0))
  }

  /** Every intermediate decompose computes fits in 512 bits: the products
      k * inverse[i], each term c[j] * vectors[j][i] and running sum, and
      the values after each of the final additions. */
  predicate DecomposeFits(l: Lattice, k: int)
    requires WellShaped(l)
  {
    var n, c := |l.inverse|, Coefficients(l, k);
    Fits(k)
    && (forall i :: 0 <= i < n ==> Fits(k * l.inverse[i]))
    && (forall i, m :: 0 <= i < n && 0 < m <= n ==>
          Fits(c[m - 1] * l.vectors[m - 1][i]) && Fits(Combination(c, l.vectors, i, m)))
    && (forall i :: 0 <= i < n ==>
          Fits(l.vectors[0][i] - Combination(c, l.vectors, i, n))
          && Fits(2 * l.vectors[0][i] - Combination(c, l.vectors, i, n)))
    && Fits(DecomposeSpec(l, k)[0])
  }

  /** Column i of the closest vector, negated, plus twice vectors[0][i]:
      output component i before k is added. */
  ghost function DecomposedColumn(l: Lattice, c: seq<int>, i: nat): int
    requires WellShaped(l) && |c| == |l.inverse| && i < |l.inverse|
  {
    -Combination(c, l.vectors, i, |l.inverse|) + 2 * l.vectors[0][i]
  }

  /** The first loop of decompose: c[i] = k * inverse[i], then rounded by
      det in place. */
  method RoundCoefficients(l: Lattice, k: int) returns (c: array<int>)
    ensures fresh(c)
    ensures c[..] == Coefficients(l, k)
  {
    var n := |l.inverse|;
    c := new int[n];
    for i := 0 to n
      invariant forall j :: 0 <= j < i ==> c[j] == Rounded(k * l.inverse[j], l.det)
    {
      c[i] := k * l.inverse[i];
      c[i] := Round(c[i], l.det);
    }
  }

  /** The body of decompose's second loop for component i: accumulate
      c[j] * vectors[j][i] over j, negate, and add vectors[0][i] twice. */
  method ComputeColumn(l: Lattice, c: array<int>, i: nat) returns (v: int)
    requires WellShaped(l) && c.Length == |l.inverse| && i < c.Length
    ensures v == DecomposedColumn(l, c[..], i)
  {
    var n := |l.inverse|;
    v := 0;
    for j := 0 to n
      invariant v == Combination(c[..], l.vectors, i, j)
    {
      var temp := c[j] * l.vectors[j][i];
      v := v + temp;
    }
    v := -v;
    v := v + l.vectors[0][i];
    v := v + l.vectors[0][i];
  }

  /** `decompose`: rounds each c[i], then builds every output component by
      accumulating c[j] * vectors[j][i], negating, and adding vectors[0][i]
      twice; k is added to the first component last. */
  method Decompose(l: Lattice, k: int) returns (out: seq<int>)
    requires WellShaped(l) && DecomposeFits(l, k)
    ensures out == DecomposeSpec(l, k)
    ensures forall i :: 0 <= i < |out| ==> Fits(out[i])
  {
    var n := |l.inverse|;
    var c := RoundCoefficients(l, k);
    ghost var coef := c[..];
    var o := new int[n];
    for i := 0 to n
      modifies o
      invariant c[..] == coef
      invariant forall j :: 0 <= j < i ==> o[j] == DecomposedColumn(l, coef, j)
    {
      o[i] := ComputeColumn(l, c, i);
    }
    o[0] := o[0] + k;
    out := o[..];
    assert forall i :: 0 <= i < n ==> out[i] == DecomposeSpec(l, k)[i];
  }

  /** The coefficients that express decompose's output, less <k, 0, ..., 0>,
      in the basis: 2 - c[0] for the first row and -c[j] for the others. */
  function CosetCoefficients(l: Lattice, k: int): (a: seq<int>)
    ensures |a| == |l.inverse|
  {
    var c := Coefficients(l, k);
    seq(|c|, j requires 0 <= j < |c| => if j == 0 then 2 - c[0] else -c[j])
  }

  /** Taking the coefficients 2 - c[0], -c[1], ... instead of c negates
      the combination and adds twice the first row. */
  lemma {:induction false} CombinationOfCoset(a: seq<int>, c: seq<int>, vs: seq<seq<int>>, i: nat, m: nat)
    requires 0 < m <= |c| == |a| && m <= |vs| && forall j :: 0 <= j < m ==> i < |vs[j]|
    requires a[0] == 2 - c[0] && forall j :: 0 < j < |a| ==> a[j] == -c[j]
    ensures Combination(a, vs, i, m) == -Combination(c, vs, i, m) + 2 * vs[0][i]
  {
    if m == 1 {
      assert Combination(a, vs, i, 0) == 0 && Combination(c, vs, i, 0) == 0;
      assert (2 - c[0]) * vs[0][i] == 2 * vs[0][i] - c[0] * vs[0][i];
    } else {
      CombinationOfCoset(a, c, vs, i, m - 1);
      assert a[m - 1] * vs[m - 1][i] == -(c[m - 1] * vs[m - 1][i]);
    }
  }

  /** decompose's output minus <k, 0, ..., 0> is an integer combination of
      the basis rows, so the output lies in the coset of <k, 0, ..., 0>
      modulo the lattice, whatever the rounding produced. */
  lemma DecomposeCoset(l: Lattice, k: int)
    requires WellShaped(l)
    ensures forall i :: 0 <= i < |l.inverse| ==>
      DecomposeSpec(l, k)[i] - (if i == 0 then k else 0)
        == Combination(CosetCoefficients(l, k), l.vectors, i, |l.inverse|)
  {
    var n := |l.inverse|;
    forall i | 0 <= i < n
      ensures DecomposeSpec(l, k)[i] - (if i == 0 then k else 0)
        == Combination(CosetCoefficients(l, k), l.vectors, i, n)
    {
      CombinationOfCoset(CosetCoefficients(l, k), Coefficients(l, k), l.vectors, i, n);
    }
  }

  // ---------------------------------------------------------------------
  // multi

  /** The largest bit length among the components: multi's maxlen. */
  function MaxBitLen(xs: seq<int>): nat
  {
    if xs == [] then 0
    else
      var m := MaxBitLen(xs[..|xs| - 1]);
      if BitLen(xs[|xs| - 1]) > m then BitLen(xs[|xs| - 1]) else m
  }

  /** maxlen bounds every component's bit length and is attained by one of
      them, or is 0 when there is none. */
  lemma {:induction false} MaxBitLenIsMaximum(xs: seq<int>)
    ensures forall j :: 0 <= j < |xs| ==> BitLen(xs[j]) <= MaxBitLen(xs)
    ensures MaxBitLen(xs) == 0 || exists j :: 0 <= j < |xs| && BitLen(xs[j]) == MaxBitLen(xs)
  {
    if xs != [] {
      var init := xs[..|xs| - 1];
      MaxBitLenIsMaximum(init);
      assert forall j :: 0 <= j < |init| ==> init[j] == xs[j];
    }
  }

  /** Byte i of multi's schedule once components 0 .. m-1 have been added:
      each component whose bit i is set adds 1 << j, wrapping modulo 256
      as the `uint8_t` does. */
  function ScheduleByte(d: seq<int>, i: nat, m: nat): Byte
    requires m <= |d|
  {
    if m == 0 then 0
    else (ScheduleByte(d, i, m - 1) + (if BitTest(d[m - 1], i) then Pow2(m - 1) else 0)) % 256
  }

  /** Adding component j to byte i. */
  lemma ScheduleByteStep(d: seq<int>, i: nat, j: nat)
    requires j < |d|
    ensures ScheduleByte(d, i, j + 1) == (ScheduleByte(d, i, j) + (if BitTest(d[j], i) then Pow2(j) else 0)) % 256
  {
  }

  /** multi's output: len bytes, byte i collecting bit i of every
      component. */
  function Schedule(d: seq<int>, len: nat): (s: seq<Byte>)
    ensures |s| == len
  {
    seq(len, i requires 0 <= i < len => ScheduleByte(d, i, |d|))
  }

  /** The sum of 2^j over the components j < m whose bit i is set. */
  function BitColumn(d: seq<int>, i: nat, m: nat): nat
    requires m <= |d|
  {
    if m == 0 then 0 else BitColumn(d, i, m - 1) + (if BitTest(d[m - 1], i) then Pow2(m - 1) else 0)
  }

  /** Wrapping at every addition is wrapping once at the end. */
  lemma {:induction false} ScheduleByteWraps(d: seq<int>, i: nat, m: nat)
    requires m <= |d|
    ensures ScheduleByte(d, i, m) == BitColumn(d, i, m) % 256
  {
    if m > 0 {
      ScheduleByteWraps(d, i, m - 1);
      var t := if BitTest(d[m - 1], i) then Pow2(m - 1) else 0;
      ModAddCong(ScheduleByte(d, i, m - 1), BitColumn(d, i, m - 1), t, t, 256);
    }
  }

  /** The column below m is below 2^m. */
  lemma {:induction false} BitColumnBound(d: seq<int>, i: nat, m: nat)
    requires m <= |d|
    ensures BitColumn(d, i, m) < Pow2(m)
  {
    if m > 0 {
      BitColumnBound(d, i, m - 1);
    }
  }

  /** Component m-1 adds a multiple of 2^(t+1) to the column, which leaves
      its bit t alone. */
  lemma BitColumnHigher(d: seq<int>, i: nat, t: nat, m: nat)
    requires t + 1 < m <= |d|
    ensures BitSet(BitColumn(d, i, m), t) <==> BitSet(BitColumn(d, i, m - 1), t)
  {
    var a, y := Pow2(t), BitColumn(d, i, m - 1);
    var k := 0;
    if BitTest(d[m - 1], i) {
      k := Pow2(m - 2 - t);
      Pow2Add(t, m - 1 - t);
      assert t + (m - 1 - t) == m - 1;
      assert Pow2(m - 1) == a * Pow2(m - 1 - t);
      assert Pow2(m - 1 - t) == 2 * k;
      assert a * (2 * k) == (2 * k) * a;
    }
    assert BitColumn(d, i, m) == y + (2 * k) * a;
    DivModAddMultiple(y, 2 * k, a);
    DivModAddMultiple(y / a, k, 2);
  }

  /** Bit t of the column is bit i of component t: the components below t
      add up to less than 2^t, and those above t add multiples of 2^(t+1). */
  lemma {:induction false} BitColumnBit(d: seq<int>, i: nat, t: nat, m: nat)
    requires t < m <= |d|
    ensures BitSet(BitColumn(d, i, m), t) <==> BitTest(d[t], i)
  {
    if m == t + 1 {
      var a, b := Pow2(t), if BitTest(d[t], i) then 1 else 0;
      BitColumnBound(d, i, t);
      assert BitColumn(d, i, m) == b * a + BitColumn(d, i, t);
      ModUnique(BitColumn(d, i, m), a, b, BitColumn(d, i, t));
    } else {
      BitColumnBit(d, i, t, m - 1);
      BitColumnHigher(d, i, t, m);
    }
  }

  /** With at most eight components no byte wraps, so bit j of byte i of
      the schedule is bit i of component j. */
  lemma ScheduleBit(d: seq<int>, i: nat, j: nat)
    requires j < |d| <= 8
    ensures BitSet(ScheduleByte(d, i, |d|), j) <==> BitTest(d[j], i)
  {
    ScheduleByteWraps(d, i, |d|);
    BitColumnBound(d, i, |d|);
    Pow2Monotone(|d|, 8);
    Pow2Of8();
    SmallDivMod(BitColumn(d, i, |d|), 256);
    BitColumnBit(d, i, j, |d|);
  }

  /** The magnitude read back from bit j of the first m schedule bytes. */
  function ReadBack(s: seq<Byte>, j: nat, m: nat): nat
    requires m <= |s|
  {
    if m == 0 then 0 else ReadBack(s, j, m - 1) + (if BitSet(s[m - 1], j) then Pow2(m - 1) else 0)
  }

  /** With at most eight components, each component's magnitude can be
      read back from the schedule: its bits sit in bit j of the bytes, and
      the schedule is as long as the longest component. */
  lemma ScheduleReadBack(d: seq<int>, j: nat)
    requires j < |d| <= 8
    ensures Abs(d[j]) == ReadBack(Schedule(d, MaxBitLen(d)), j, MaxBitLen(d))
  {
    var len := MaxBitLen(d);
    var s := Schedule(d, len);
    MaxBitLenIsMaximum(d);
    BitsAboveLength(d[j], len);
    ReadBackBits(d, s, j, len);
  }

  /** Reading bit j of the schedule bytes below m gives the bits of
      component j below m. */
  lemma {:induction false} ReadBackBits(d: seq<int>, s: seq<Byte>, j: nat, m: nat)
    requires j < |d| <= 8 && m <= |s|
    requires forall i :: 0 <= i < |s| ==> s[i] == ScheduleByte(d, i, |d|)
    ensures ReadBack(s, j, m) == BitsValue(d[j], m)
  {
    if m > 0 {
      ReadBackBits(d, s, j, m - 1);
      ScheduleBit(d, m - 1, j);
    }
  }

  /** multi's first loop: the largest bit length among the components. */
  method MaxLength(decomp: seq<int>) returns (maxlen: nat)
    ensures maxlen == MaxBitLen(decomp)
  {
    maxlen := 0;
    for x := 0 to |decomp|
      invariant maxlen == MaxBitLen(decomp[..x])
    {
      assert decomp[..x + 1][..x] == decomp[..x];
      var len := BitLen(decomp[x]);
      if len > maxlen {
        maxlen := len;
      }
    }
    assert decomp[..|decomp|] == decomp;
  }

  /** multi's second loop: maxlen zero bytes, then for each component j and
      each bit position i where its bit is set, byte i gains 1 << j,
      wrapping as a `uint8_t`.  `1 << j` is an `int` shift, defined for
      j < 31. */
  method BuildSchedule(decomp: seq<int>, maxlen: nat) returns (out: seq<Byte>)
    requires |decomp| <= 31
    ensures out == Schedule(decomp, maxlen)
  {
    var buf := new Byte[maxlen](_ => 0);
    for j := 0 to |decomp|
      invariant forall i :: 0 <= i < maxlen ==> buf[i] == ScheduleByte(decomp, i, j)
    {
      for i := 0 to maxlen
        invariant forall i' :: 0 <= i' < i ==> buf[i'] == ScheduleByte(decomp, i', j + 1)
        invariant forall i' :: i <= i' < maxlen ==> buf[i'] == ScheduleByte(decomp, i', j)
      {
        ScheduleByteStep(decomp, i, j);
        if BitTest(decomp[j], i) {
          buf[i] := (buf[i] + Pow2(j)) % 256;
        }
        assert buf[i] == ScheduleByte(decomp, i, j + 1);
      }
    }
    out := buf[..];
  }

  /** `multi`: decomposes the scalar, finds the longest component, and
      builds one byte per bit position from the components' bits. */
  method Multi(l: Lattice, scalar: int) returns (out: seq<Byte>)
    requires WellShaped(l) && DecomposeFits(l, scalar) && |l.inverse| <= 31
    ensures out == Schedule(DecomposeSpec(l, scalar), MaxBitLen(DecomposeSpec(l, scalar)))
  {
    var decomp := Decompose(l, scalar);
    var maxlen := MaxLength(decomp);
    out := BuildSchedule(decomp, maxlen);
  }
}
