/** The BN254 parameters and the Montgomery auxiliaries of its base field,
    with the arithmetic relations their documentation asserts proved from
    the literal values.  R is 2^256, the Montgomery radix of a four-word
    field element. */
module Constants {
  import opened Arith
  import opened Words

  /** The BN parameter u. */
  const U: int := 0x44E992B44A6909F1

  /** The number of elements of G1 and G2. */
  const Order: int := 0x30644E72E131A029B85045B68181585D2833E84879B9709143E1F593F0000001

  /** The prime of the base field. */
  const P: int := 0x30644E72E131A029B85045B68181585D97816A916871CA8D3C208C16D87CFD47

  /** The Montgomery radix R = 2^256. */
  const R: int := 0x1_0000000000000000_0000000000000000_0000000000000000_0000000000000000

  /** p as four little-endian words. */
  const P2: Gfp := [0x3c208c16d87cfd47, 0x97816a916871ca8d, 0xb85045b68181585d, 0x30644e72e131a029]

  /** The negative inverse of p modulo R, as four little-endian words. */
  const NP: seq<Word> := [0x87d20782e4866389, 0x9ede7d651eca6ac9, 0xd8afcbd01833da80, 0xf57a22b791888c6b]

  /** R^-1 mod p, as a field element. */
  const RN1: Gfp := [0xed84884a014afa37, 0xeb2022850278edf8, 0xcf63e9cfb74492d9, 0x2e67157159e5c639]

  /** R^2 mod p, as a field element. */
  const R2: Gfp := [0xf32cfc5b538afa89, 0xb5e71911d44501fb, 0x47ab1eff0a417ff6, 0x06d89f71cab8351f]

  /** R^3 mod p, as a field element. */
  const R3: Gfp := [0xb1cd6dafda1530df, 0x62f210e6a7283db6, 0xef7f0b0c0ada0afb, 0x20fd6e902d592544]

  lemma RIsPow2()
    ensures R == Pow2(256)
  {
    WordModulusIsPow2();
    Pow2Add(64, 64);
    assert Pow2(128) == 0x1_0000000000000000_0000000000000000;
    Pow2Add(128, 128);
  }

  /** The four words of p2, read little-endian, are p. */
  lemma P2IsP()
    ensures Value(P2) == P
  {
    Value4(P2);
  }

  /** np * p == -1 (mod 2^256). */
  lemma NpIsNegativeInverse()
    ensures (Value(NP) * P) % R == R - 1
  {
    Value4(NP);
  }

  /** rn1 is below p and is the inverse of R modulo p. */
  lemma Rn1IsInverseOfR()
    ensures Value(RN1) < P
    ensures (Value(RN1) * R) % P == 1
    ensures (R * Value(RN1)) % P == 1
  {
    Value4(RN1);
  }

  /** r2 is R^2 reduced modulo p. */
  lemma R2IsRSquared()
    ensures Value(R2) < P
    ensures Value(R2) == (R * R) % P
  {
    Value4(R2);
  }

  /** r3 is R^3 reduced modulo p. */
  lemma R3IsRCubed()
    ensures Value(R3) < P
    ensures Value(R3) == (R * R * R) % P
  {
    Value4(R3);
  }

  /** p and the group order are the BN polynomials evaluated at u. */
  lemma BnPolynomials()
    ensures P == 36 * Pow(U, 4) + 36 * Pow(U, 3) + 24 * Pow(U, 2) + 6 * U + 1
    ensures Order == 36 * Pow(U, 4) + 36 * Pow(U, 3) + 18 * Pow(U, 2) + 6 * U + 1
  {
    assert Pow(U, 2) == U * U;
    assert Pow(U, 3) == U * U * U;
    assert Pow(U, 4) == U * U * U * U;
  }

  /** Both p and the order are 254-bit numbers. */
  lemma BitLengths()
    ensures Pow2(253) <= P < Pow2(254)
    ensures Pow2(253) <= Order < Pow2(254)
  {
    RIsPow2();
    Pow2Add(253, 3);
    assert Pow2(3) == 8;
  }

  /** The decimal spellings documented beside the hexadecimal literals. */
  lemma DecimalSpellings()
    ensures Order == 21888242871839275222246405745257275088548364400416034343698204186575808495617
    ensures P == 21888242871839275222246405745257275088696311157297823662689037894645226208583
  {
  }

  /** order - 1 = 2^28 * 3^2 * 13 * 29 * 983 * 11003 * 237073 * 405928799
      * 1670836401704629 * 13818364434197438864469338081, so order - 1 is
      divisible by 2^28 (the high 2-adicity the SNARK use asks for). */
  lemma OrderTwoAdicity()
    ensures Order - 1 == Pow2(28) * 9 * 13 * 29 * 983 * 11003 * 237073 * 405928799
      * 1670836401704629 * 13818364434197438864469338081
    ensures (Order - 1) % Pow2(28) == 0
  {
    assert Pow2(4) == 16;
    Pow2Add(4, 4);
    assert Pow2(8) == 0x100;
    Pow2Add(8, 8);
    assert Pow2(16) == 0x1_0000;
    Pow2Add(16, 8);
    assert Pow2(24) == 0x100_0000;
    Pow2Add(24, 4);
    assert Pow2(28) == 0x1000_0000;
    var cofactor := 9 * 13 * 29 * 983 * 11003 * 237073 * 405928799
      * 1670836401704629 * 13818364434197438864469338081;
    assert Order - 1 == 0x1000_0000 * cofactor;
    ModUnique(Order - 1, Pow2(28), cofactor, 0);
  }
}
