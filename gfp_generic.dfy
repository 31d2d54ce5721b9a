/** The four primitive field operations a field element is built on
    (negate, add, subtract, Montgomery multiply).  Their word-level
    algorithms are not part of this model; each is given here by its
    interface contract: the result is below p and congruent to the
    intended value modulo p.  Because a value below p is determined by its
    residue, each definition below is the only function meeting its
    contract, so nothing is assumed beyond that contract. */
module FieldOps {
  import opened Arith
  import opened Words
  import opened Constants

  /** The field element whose words hold n. */
  function FromValue(n: nat): (e: Gfp)
    requires n < P
    ensures Value(e) == n
  {
    RIsPow2();
    BitLengths();
    Pow2Monotone(254, 256);
    ToWordsValue(n, 4);
    ToWords(n, 4)
  }

  /** R * R^-1 == 1 (mod p): multiplying by R and by rn1 cancels. */
  lemma RCancel(x: int)
    ensures (x * R * Value(RN1)) % P == x % P
  {
    Rn1IsInverseOfR();
    MontCancel(x, P, R, Value(RN1));
  }

  /** `gfp_neg`: c == -a (mod p). */
  function Neg(a: Gfp): (c: Gfp)
    ensures Value(c) < P
    ensures (Value(c) + Value(a)) % P == 0
  {
    var r := (P - Value(a) % P) % P;
    ModAddCong(r, P - Value(a) % P, Value(a), Value(a) % P, P);
    FromValue(r)
  }

  /** `gfp_add`: c == a + b (mod p). */
  function Add(a: Gfp, b: Gfp): (c: Gfp)
    ensures Value(c) < P
    ensures Value(c) % P == (Value(a) + Value(b)) % P
  {
    ModOfMod(Value(a) + Value(b), P);
    FromValue((Value(a) + Value(b)) % P)
  }

  /** `gfp_sub`: c + b == a (mod p). */
  function Sub(a: Gfp, b: Gfp): (c: Gfp)
    ensures Value(c) < P
    ensures (Value(c) + Value(b)) % P == Value(a) % P
  {
    var r := (Value(a) - Value(b)) % P;
    ModAddCong(r, Value(a) - Value(b), Value(b), Value(b), P);
    FromValue(r)
  }

  /** `gfp_mul`, Montgomery multiplication: c * R == a * b (mod p). */
  function Mul(a: Gfp, b: Gfp): (c: Gfp)
    ensures Value(c) < P
    ensures (Value(c) * R) % P == (Value(a) * Value(b)) % P
  {
    var u := Value(a) * Value(b);
    Rn1IsInverseOfR();
    MontReduce(u, P, R, Value(RN1));
    FromValue((u * Value(RN1)) % P)
  }

  /** The Montgomery product is a * b * R^-1 reduced modulo p; this follows
      from Mul's contract alone. */
  lemma MulValue(a: Gfp, b: Gfp)
    ensures Value(Mul(a, b)) == (Value(a) * Value(b) * Value(RN1)) % P
  {
    var c := Value(Mul(a, b));
    ModMulCong(c * R, Value(a) * Value(b), Value(RN1), Value(RN1), P);
    RCancel(c);
    SmallDivMod(c, P);
  }
}
