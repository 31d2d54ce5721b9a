/** The prime-field element `gfp`: four little-endian 64-bit words holding
    x * R mod p for the element x it stands for (Montgomery form), with
    inversion, big-endian (un)marshalling with the range check against p,
    Montgomery encoding and decoding, hexadecimal rendering and
    construction from a signed 64-bit integer.  Members that update the
    element in place take it as an array of four words; members that only
    read it take its value. */
module Gfp {
  import opened Arith
  import opened Words
  import opened Constants
  import opened FieldOps

  /** The outcome of unmarshal: success (an empty error code) or one of the
      two unmarshal errors. */
  datatype UnmarshalError = Success | CoordinateExceedsModulus | MalformedPoint

  /** `set_zero`: every word becomes 0. */
  method SetZero(e: array<Word>)
    requires e.Length == 4
    modifies e
    ensures e[..] == [0, 0, 0, 0]
    ensures Value(e[..]) == 0
  {
    for i := 0 to 4
      invariant forall j :: 0 <= j < i ==> e[j] == 0
    {
      e[i] := 0;
    }
    Value4(e[..]);
  }

  // ---------------------------------------------------------------------
  // invert

  /** The exponent p - 2 as the four literal words invert scans. */
  const InvertBits: Gfp := [0x3c208c16d87cfd45, 0x97816a916871ca8d, 0xb85045b68181585d, 0x30644e72e131a029]

  lemma InvertBitsIsPMinus2()
    ensures Value(InvertBits) == P - 2
  {
    Value4(InvertBits);
  }

  /** The state of square-and-multiply after t bits for the element a:
      power holds a^(2^t) * R and sum holds a^e * R^-1, modulo p. */
  ghost predicate LadderState(sum: Gfp, power: Gfp, a: int, e: nat, t: nat)
  {
    Ladder(Value(sum), Value(power), a, e, t, P, R, Value(RN1))
  }

  /** Before the first bit: sum is rn1 (a^0 * R^-1) and power is the input
      x, which holds a * R. */
  lemma InvertStart(x: Gfp)
    ensures LadderState(RN1, x, Value(x) * Value(RN1), 0, 0)
  {
    Rn1IsInverseOfR();
    LadderInit(Value(x), P, R, Value(RN1));
  }

  /** An inner-loop iteration whose bit is clear only squares power. */
  lemma InvertSkip(sum: Gfp, power: Gfp, a: int, e: nat, t: nat)
    requires LadderState(sum, power, a, e, t)
    ensures LadderState(sum, Mul(power, power), a, e, t + 1)
  {
    Rn1IsInverseOfR();
    MulValue(power, power);
    LadderSquare(Value(sum), Value(power), Value(Mul(power, power)), a, e, t, P, R, Value(RN1));
  }

  /** An inner-loop iteration whose bit is set multiplies sum by power
      before squaring power, adding 2^t to the exponent sum holds. */
  lemma InvertTake(sum: Gfp, power: Gfp, a: int, e: nat, t: nat)
    requires LadderState(sum, power, a, e, t)
    ensures LadderState(Mul(sum, power), Mul(power, power), a, e + Pow2(t), t + 1)
  {
    Rn1IsInverseOfR();
    MulValue(power, power);
    MulValue(sum, power);
    LadderMultiply(Value(sum), Value(power), Value(Mul(sum, power)), Value(Mul(power, power)),
                   a, e, t, P, R, Value(RN1));
  }

  /** After all 256 bits of p - 2, sum holds a^(p-2) * R^-1; one Montgomery
      multiplication by r3 turns that into a^(p-2) * R. */
  lemma InvertFinish(sum: Gfp, power: Gfp, a: int, e: nat)
    requires e == P - 2 && LadderState(sum, power, a, e, 256)
    ensures Value(Mul(sum, R3)) == (Pow(a, P - 2) * R) % P
  {
    MulValue(sum, R3);
    R3IsRCubed();
    Rn1IsInverseOfR();
    LadderFinish(Value(sum), Value(power), a, e, 256, Value(R3), Value(Mul(sum, R3)), P, R, Value(RN1));
  }

  /** The positions invert's loops pass through: bit `bit` of word `word`,
      up to the end of the last word. */
  predicate InvertPosition(word: nat, bit: nat)
  {
    (word < 4 && bit <= 64) || (word == 4 && bit == 0)
  }

  /** The value of power when invert reaches bit `bit` of word `word`:
      x squared once per bit passed. */
  function PowerAt(x: Gfp, word: nat, bit: nat): Gfp
    requires InvertPosition(word, bit)
    decreases word, bit
  {
    if bit > 0 then
      var p := PowerAt(x, word, bit - 1);
      Mul(p, p)
    else if word > 0 then PowerAt(x, word - 1, 64)
    else x
  }

  /** The value of sum when invert reaches bit `bit` of word `word`: rn1
      multiplied by power at every set bit passed. */
  function SumAt(x: Gfp, word: nat, bit: nat): Gfp
    requires InvertPosition(word, bit)
    decreases word, bit
  {
    if bit > 0 then
      var s := SumAt(x, word, bit - 1);
      if BitSet(InvertBits[word], bit - 1) then Mul(s, PowerAt(x, word, bit - 1)) else s
    else if word > 0 then SumAt(x, word - 1, 64)
    else RN1
  }

  /** The part of the exponent p - 2 invert has taken before bit `bit` of
      word `word`: the words below `word` and the low bits of word `word`. */
  ghost function ExponentAt(word: nat, bit: nat): nat
    requires InvertPosition(word, bit)
  {
    Value(InvertBits[..word]) + if word < 4 then TakenBits(InvertBits[word], 64 * word, bit) else 0
  }

  /** The ladder state invert holds at bit `bit` of word `word`. */
  ghost predicate LadderAt(x: Gfp, a: int, word: nat, bit: nat)
    requires InvertPosition(word, bit)
  {
    LadderState(SumAt(x, word, bit), PowerAt(x, word, bit), a, ExponentAt(word, bit), 64 * word + bit)
  }

  /** Passing one bit keeps the ladder state. */
  lemma InvertBitStep(x: Gfp, a: int, word: nat, bit: nat)
    requires word < 4 && bit < 64
    requires LadderAt(x, a, word, bit)
    ensures LadderAt(x, a, word, bit + 1)
  {
    var t := 64 * word + bit;
    var s, p, e := SumAt(x, word, bit), PowerAt(x, word, bit), ExponentAt(word, bit);
    assert t + 1 == 64 * word + (bit + 1);
    if BitSet(InvertBits[word], bit) {
      assert ExponentAt(word, bit + 1) == e + Pow2(t);
      InvertTake(s, p, a, e, t);
    } else {
      assert ExponentAt(word, bit + 1) == e;
      InvertSkip(s, p, a, e, t);
    }
  }

  /** The end of a word is the start of the next: the same sum, power,
      exponent and bit count. */
  lemma InvertWordStep(x: Gfp, a: int, word: nat)
    requires word < 4
    requires LadderAt(x, a, word, 64)
    ensures LadderAt(x, a, word + 1, 0)
  {
    PrefixValueStep(InvertBits, word);
    assert 64 * (word + 1) + 0 == 64 * word + 64;
  }

  /** At every position, power and sum are the ladder state for the bits
      passed and the exponent taken so far. */
  lemma {:induction false} InvertLadder(x: Gfp, a: int, word: nat, bit: nat)
    requires InvertPosition(word, bit) && a == Value(x) * Value(RN1)
    ensures LadderAt(x, a, word, bit)
    decreases word, bit
  {
    if bit > 0 {
      InvertLadder(x, a, word, bit - 1);
      InvertBitStep(x, a, word, bit - 1);
    } else if word > 0 {
      InvertLadder(x, a, word - 1, 64);
      InvertWordStep(x, a, word - 1);
    } else {
      assert InvertBits[..0] == [];
      InvertStart(x);
    }
  }

  /** After the last bit, one Montgomery multiplication by r3 leaves the
      Montgomery form of a^(p-2), where x holds a * R. */
  lemma InvertResult(x: Gfp)
    ensures Value(Mul(SumAt(x, 4, 0), R3)) == (Pow(Value(x) * Value(RN1), P - 2) * R) % P
  {
    var a := Value(x) * Value(RN1);
    InvertLadder(x, a, 4, 0);
    assert InvertBits[..4] == InvertBits;
    InvertBitsIsPMinus2();
    InvertFinish(SumAt(x, 4, 0), PowerAt(x, 4, 0), a, P - 2);
  }

  /** `invert`: square-and-multiply over the 256 bits of p - 2, least
      significant first, starting from rn1 and closing with one
      multiplication by r3.  If x holds a * R (mod p), the result holds
      a^(p-2) * R: the Montgomery form of a^(p-2). */
  method Invert(x: Gfp) returns (r: Gfp)
    ensures r == Mul(SumAt(x, 4, 0), R3)
    ensures Value(r) < P
    ensures Value(r) == (Pow(Value(x) * Value(RN1), P - 2) * R) % P
  {
    var sum, power := RN1, x;
    for word := 0 to 4
      invariant sum == SumAt(x, word, 0) && power == PowerAt(x, word, 0)
    {
      for bit := 0 to 64
        invariant sum == SumAt(x, word, bit) && power == PowerAt(x, word, bit)
      {
        if BitSet(InvertBits[word], bit) {
          sum := Mul(sum, power);
        }
        power := Mul(power, power);
      }
    }
    r := Mul(sum, R3);
    InvertResult(x);
  }

  // ---------------------------------------------------------------------
  // marshal / unmarshal

  /** The 32 bytes marshal writes: the words most-significant first, each
      word's bytes most-significant first. */
  function MarshalBytes(x: Gfp): (bs: seq<Byte>)
    ensures |bs| == 32
  {
    WordBytes(x[3]) + WordBytes(x[2]) + WordBytes(x[1]) + WordBytes(x[0])
  }

  /** Bytes 8w .. 8w+7 of the marshalled form are the bytes of word 3-w. */
  lemma MarshalBlock(x: Gfp, w: nat)
    requires w < 4
    ensures MarshalBytes(x)[8 * w .. 8 * w + 8] == WordBytes(x[3 - w])
  {
    Blocks(WordBytes(x[3]), WordBytes(x[2]), WordBytes(x[1]), WordBytes(x[0]));
  }

  /** Byte 8w + b of the marshalled form is byte b of word 3-w. */
  lemma MarshalByteOfWord(x: Gfp, w: nat, b: nat)
    requires w < 4 && b < 8
    ensures MarshalBytes(x)[8 * w + b] == WordBytes(x[3 - w])[b]
  {
    MarshalBlock(x, w);
    assert MarshalBytes(x)[8 * w + b] == MarshalBytes(x)[8 * w .. 8 * w + 8][b];
  }

  /** Byte 8w + b of the marshalled form is (word[3-w] >> (56 - 8b)) & 0xff. */
  lemma MarshalByteAt(x: Gfp, w: nat, b: nat)
    requires w < 4 && b < 8
    ensures MarshalBytes(x)[8 * w + b] == (x[3 - w] / Pow2(56 - 8 * b)) % 256
  {
    MarshalByteOfWord(x, w, b);
    BigEndianByte(x[3 - w], 8, b);
    assert 8 * (8 - 1 - b) == 56 - 8 * b;
  }

  /** The marshalled bytes, read big-endian, are the integer the words hold
      (still in Montgomery form: marshal does not decode). */
  lemma MarshalValue(x: Gfp)
    ensures BytesValue(MarshalBytes(x)) == Value(x)
  {
    var b3, b2, b1, b0 := WordBytes(x[3]), WordBytes(x[2]), WordBytes(x[1]), WordBytes(x[0]);
    WordBytesValue(x[3]);
    WordBytesValue(x[2]);
    WordBytesValue(x[1]);
    WordBytesValue(x[0]);
    BytesValueAppendWord(b3, b2);
    BytesValueAppendWord(b3 + b2, b1);
    BytesValueAppendWord(b3 + b2 + b1, b0);
    Value4(x);
  }

  /** `marshal`: writes the 32-byte big-endian form of the words. */
  method Marshal(x: Gfp, out: array<Byte>)
    requires out.Length == 32
    modifies out
    ensures out[..] == MarshalBytes(x)
    ensures BytesValue(out[..]) == Value(x)
  {
    for w := 0 to 4
      invariant forall j :: 0 <= j < 8 * w ==> out[j] == MarshalBytes(x)[j]
    {
      for b := 0 to 8
        invariant forall j :: 0 <= j < 8 * w + b ==> out[j] == MarshalBytes(x)[j]
      {
        MarshalByteAt(x, w, b);
        out[8 * w + b] := (x[3 - w] / Pow2(56 - 8 * b)) % 256;
      }
    }
    MarshalValue(x);
  }

  /** Word j that unmarshal assembles: the big-endian value of bytes
      8(3-j) .. 8(3-j)+7. */
  function UnmarshalWord(bs: seq<Byte>, j: nat): Word
    requires |bs| == 32 && j < 4
  {
    var block := bs[24 - 8 * j .. 32 - 8 * j];
    BytesValueBound(block);
    WordModulusIsPow2();
    BytesValue(block)
  }

  /** The words unmarshal assembles: word 3-w is the big-endian value of
      bytes 8w .. 8w+7. */
  function UnmarshalWords(bs: seq<Byte>): (x: Gfp)
    requires |bs| == 32
  {
    [UnmarshalWord(bs, 0), UnmarshalWord(bs, 1), UnmarshalWord(bs, 2), UnmarshalWord(bs, 3)]
  }

  /** The assembled words hold the big-endian integer of the 32 bytes. */
  lemma UnmarshalValue(bs: seq<Byte>)
    requires |bs| == 32
    ensures Value(UnmarshalWords(bs)) == BytesValue(bs)
  {
    assert bs == bs[0..8] + bs[8..16] + bs[16..24] + bs[24..32];
    assert UnmarshalWords(bs) == [BytesValue(bs[24..32]), BytesValue(bs[16..24]), BytesValue(bs[8..16]), BytesValue(bs[0..8])];
    BytesValueAppendWord(bs[0..8], bs[8..16]);
    BytesValueAppendWord(bs[0..8] + bs[8..16], bs[16..24]);
    BytesValueAppendWord(bs[0..8] + bs[8..16] + bs[16..24], bs[24..32]);
    Value4(UnmarshalWords(bs));
  }

  /** Words that agree with unmarshal's words one by one are its words,
      and hold the big-endian integer of the input. */
  lemma UnmarshalAssembled(ws: seq<Word>, bs: seq<Byte>)
    requires |ws| == 4 && |bs| == 32
    requires forall j :: 0 <= j < 4 ==> ws[j] == UnmarshalWord(bs, j)
    ensures ws == UnmarshalWords(bs)
    ensures Value(ws) == BytesValue(bs)
  {
    assert ws == UnmarshalWords(bs);
    UnmarshalValue(bs);
  }

  /** The outcome the range check must report for the integer v. */
  function RangeStatus(v: nat): (status: UnmarshalError)
  {
    if v < P then Success
    else if v > P then CoordinateExceedsModulus
    else MalformedPoint
  }

  /** Adding one byte of the current word at weight 2^(56 - 8b) keeps the
      partial word equal to the bytes read so far, at that weight, and
      below 2^64. */
  lemma UnmarshalStepValue(bs: seq<Byte>, acc: nat, b: nat)
    requires b < 8 && |bs| == b + 1
    requires acc == BytesValue(bs[..b]) * Pow2(64 - 8 * b)
    ensures acc + bs[b] * Pow2(56 - 8 * b) == BytesValue(bs) * Pow2(56 - 8 * b)
    ensures BytesValue(bs) * Pow2(56 - 8 * b) < WordModulus
  {
    var x, y := Pow2(56 - 8 * b), Pow2(64 - 8 * b);
    var pre, v := BytesValue(bs[..b]), BytesValue(bs);
    assert bs[..|bs| - 1] == bs[..b];
    assert v == pre * 256 + bs[b];
    assert y == 256 * x by {
      Pow2Step8(56 - 8 * b);
      assert 56 - 8 * b + 8 == 64 - 8 * b;
    }
    var bound := Pow2(8 * (b + 1));
    BytesValueBound(bs);
    assert bound * x == WordModulus by {
      Pow2Add(8 * (b + 1), 56 - 8 * b);
      assert 8 * (b + 1) + (56 - 8 * b) == 64;
      WordModulusIsPow2();
    }
    ShiftedDigitStep(pre, bs[b], v, acc, x, y, bound, WordModulus);
  }

  /** The same step with the shifts the source writes. */
  lemma UnmarshalStep(bs: seq<Byte>, acc: nat, b: nat)
    requires b < 8 && |bs| == b + 1
    requires acc == ShiftLeft(BytesValue(bs[..b]), 64 - 8 * b)
    ensures acc + ShiftLeft(bs[b], 56 - 8 * b) == ShiftLeft(BytesValue(bs), 56 - 8 * b)
    ensures ShiftLeft(BytesValue(bs), 56 - 8 * b) < WordModulus
  {
    ShiftLeftValue(BytesValue(bs[..b]), 64 - 8 * b);
    UnmarshalStepValue(bs, acc, b);
    ShiftLeftSum(acc, bs[b], BytesValue(bs), 56 - 8 * b);
  }

  /** The partial word 3-w after unmarshal's inner loop has added the
      first b bytes of word w, each shifted to its big-endian place. */
  function PartialWord(input: seq<Byte>, w: nat, b: nat): int
    requires |input| == 32 && w < 4 && b <= 8
  {
    if b == 0 then 0
    else PartialWord(input, w, b - 1) + ShiftLeft(input[8 * w + (b - 1)], 56 - 8 * (b - 1))
  }

  /** The partial word holds the bytes read so far, big-endian, shifted to
      the top of the word, and so never overflows 64 bits. */
  lemma {:induction false} PartialWordValue(input: seq<Byte>, w: nat, b: nat)
    requires |input| == 32 && w < 4 && b <= 8
    ensures PartialWord(input, w, b) == ShiftLeft(BytesValue(input[8 * w .. 8 * w + b]), 64 - 8 * b)
    ensures PartialWord(input, w, b) < WordModulus
  {
    var bs := input[8 * w .. 8 * w + b];
    if b == 0 {
      assert bs == [];
      assert ShiftLeft(0, 64) == 0 by { ShiftLeftValue(0, 64); }
      WordModulusIsPow2();
    } else {
      var prev, d := PartialWord(input, w, b - 1), input[8 * w + (b - 1)];
      PartialWordValue(input, w, b - 1);
      assert bs[..b - 1] == input[8 * w .. 8 * w + (b - 1)];
      assert bs[b - 1] == d;
      UnmarshalStep(bs, prev, b - 1);
      assert 56 - 8 * (b - 1) == 64 - 8 * b;
    }
  }

  /** One iteration of the inner loop: the next partial word, which fits
      in 64 bits. */
  lemma PartialWordStep(input: seq<Byte>, w: nat, b: nat)
    requires |input| == 32 && w < 4 && b < 8
    ensures PartialWord(input, w, b + 1) == PartialWord(input, w, b) + ShiftLeft(input[8 * w + b], 56 - 8 * b)
    ensures PartialWord(input, w, b) + ShiftLeft(input[8 * w + b], 56 - 8 * b) < WordModulus
  {
    PartialWordValue(input, w, b + 1);
  }

  /** After its eighth byte, the partial word is word 3-w of the result. */
  lemma UnmarshalWordDone(input: seq<Byte>, w: nat)
    requires |input| == 32 && w < 4
    ensures PartialWord(input, w, 8) == UnmarshalWord(input, 3 - w)
  {
    PartialWordValue(input, w, 8);
    assert 24 - 8 * (3 - w) == 8 * w;
  }

  /** The range check stops at word i, below p's word, with the words
      above it equal to p's: the value is below p. */
  lemma RangeBelow(ws: Gfp, i: nat)
    requires i < 4 && ws[i] < P2[i]
    requires forall j :: i < j < 4 ==> ws[j] == P2[j]
    ensures RangeStatus(Value(ws)) == Success
  {
    assert ws[i + 1..] == P2[i + 1..];
    ValueLexLess(ws, P2, i);
    P2IsP();
  }

  /** The range check stops at word i, above p's word, with the words
      above it equal to p's: the value exceeds p. */
  lemma RangeAbove(ws: Gfp, i: nat)
    requires i < 4 && ws[i] > P2[i]
    requires forall j :: i < j < 4 ==> ws[j] == P2[j]
    ensures RangeStatus(Value(ws)) == CoordinateExceedsModulus
  {
    assert ws[i + 1..] == P2[i + 1..];
    ValueLexLess(P2, ws, i);
    P2IsP();
  }

  /** The range check passes every word: the value is p. */
  lemma RangeEqual(ws: Gfp)
    requires forall j :: 0 <= j < 4 ==> ws[j] == P2[j]
    ensures RangeStatus(Value(ws)) == MalformedPoint
  {
    assert ws == P2;
    P2IsP();
  }

  /** The first half of `unmarshal`: each word is cleared and then
      accumulates its eight bytes, most significant first, each shifted to
      its big-endian place. */
  method AssembleWords(result: array<Word>, input: seq<Byte>)
    requires result.Length == 4 && |input| == 32
    modifies result
    ensures result[..] == UnmarshalWords(input)
    ensures Value(result[..]) == BytesValue(input)
  {
    for w := 0 to 4
      invariant forall j :: 3 - w < j < 4 ==> result[j] == UnmarshalWord(input, j)
    {
      result[3 - w] := 0;
      for b := 0 to 8
        invariant result[3 - w] == PartialWord(input, w, b)
        invariant forall j :: 3 - w < j < 4 ==> result[j] == UnmarshalWord(input, j)
      {
        PartialWordStep(input, w, b);
        result[3 - w] := result[3 - w] + ShiftLeft(input[8 * w + b], 56 - 8 * b);
      }
      UnmarshalWordDone(input, w);
    }
    UnmarshalAssembled(result[..], input);
  }

  /** The second half of `unmarshal`: compares the words with p's, most
      significant first, stopping at the first that differs.  The outcome
      is success exactly when the value is below p, "exceeds modulus"
      exactly when it is above p, and "malformed" exactly when it equals p. */
  method RangeCheck(result: array<Word>) returns (err: UnmarshalError)
    requires result.Length == 4
    ensures err == RangeStatus(Value(result[..]))
  {
    var i := 4;
    while i > 0
      invariant 0 <= i <= 4
      invariant forall j :: i <= j < 4 ==> result[j] == P2[j]
    {
      i := i - 1;
      if result[i] < P2[i] {
        RangeBelow(result[..], i);
        return Success;
      }
      if result[i] > P2[i] {
        RangeAbove(result[..], i);
        return CoordinateExceedsModulus;
      }
    }
    RangeEqual(result[..]);
    return MalformedPoint;
  }

  /** `unmarshal`: assembles the words from 32 big-endian bytes (whatever
      the outcome), then checks them against p. */
  method Unmarshal(result: array<Word>, input: seq<Byte>) returns (err: UnmarshalError)
    requires result.Length == 4 && |input| == 32
    modifies result
    ensures result[..] == UnmarshalWords(input)
    ensures Value(result[..]) == BytesValue(input)
    ensures err == RangeStatus(BytesValue(input))
  {
    AssembleWords(result, input);
    err := RangeCheck(result);
  }

  /** Unmarshalling the marshalled words of a value below p succeeds and
      restores the words exactly. */
  lemma MarshalRoundTrip(x: Gfp)
    requires Value(x) < P
    ensures UnmarshalWords(MarshalBytes(x)) == x
    ensures RangeStatus(BytesValue(MarshalBytes(x))) == Success
  {
    Blocks(WordBytes(x[3]), WordBytes(x[2]), WordBytes(x[1]), WordBytes(x[0]));
    WordBytesValue(x[3]);
    WordBytesValue(x[2]);
    WordBytesValue(x[1]);
    WordBytesValue(x[0]);
    MarshalValue(x);
  }

  /** The three outcomes at the modulus boundary: the encodings of p - 1,
      p and p + 1. */
  lemma ModulusBoundaries()
    ensures RangeStatus(BytesValue(BigEndian(P - 1, 32))) == Success
    ensures RangeStatus(BytesValue(BigEndian(P, 32))) == MalformedPoint
    ensures RangeStatus(BytesValue(BigEndian(P + 1, 32))) == CoordinateExceedsModulus
  {
    RIsPow2();
    BitLengths();
    Pow2Monotone(254, 256);
    BigEndianValue(P - 1, 32);
    BigEndianValue(P, 32);
    BigEndianValue(P + 1, 32);
    SmallDivMod(P - 1, R);
    SmallDivMod(P, R);
    SmallDivMod(P + 1, R);
  }

  // ---------------------------------------------------------------------
  // Montgomery conversion

  /** The field element one, in plain (not Montgomery) form. */
  const One: Gfp := [1, 0, 0, 0]

  lemma OneValue()
    ensures Value(One) == 1
  {
    Value4(One);
  }

  /** `mont_encode`: a Montgomery multiplication by r2, giving a * R mod p. */
  function MontEncode(a: Gfp): (r: Gfp)
    ensures Value(r) < P
    ensures Value(r) == (Value(a) * R) % P
  {
    MulValue(a, R2);
    R2IsRSquared();
    Rn1IsInverseOfR();
    MontEncodeStep(Value(a), Value(R2), P, R, Value(RN1));
    Mul(a, R2)
  }

  /** `mont_decode`: a Montgomery multiplication by one, giving a * R^-1
      mod p. */
  function MontDecode(a: Gfp): (r: Gfp)
    ensures Value(r) < P
    ensures (Value(r) * R) % P == Value(a) % P
    ensures Value(r) == (Value(a) * Value(RN1)) % P
  {
    var r := Mul(a, One);
    OneValue();
    MulValue(a, One);
    r
  }

  /** Decoding undoes encoding for every value below p. */
  lemma MontDecodeEncode(a: Gfp)
    requires Value(a) < P
    ensures MontDecode(MontEncode(a)) == a
  {
    var e := MontEncode(a);
    Rn1IsInverseOfR();
    MontDecodeEncodeStep(Value(a), Value(e), P, R, Value(RN1));
    ValueInjective(MontDecode(e), a);
  }

  /** Encoding undoes decoding for every value below p. */
  lemma MontEncodeDecode(a: Gfp)
    requires Value(a) < P
    ensures MontEncode(MontDecode(a)) == a
  {
    var d := MontDecode(a);
    SmallDivMod(Value(a), P);
    ValueInjective(MontEncode(d), a);
  }

  /** Montgomery multiplication of two encoded elements encodes their
      product: the field multiplication the representation exists for. */
  lemma MulOfEncoded(a: Gfp, b: Gfp)
    ensures Value(MontDecode(Mul(MontEncode(a), MontEncode(b)))) == (Value(a) * Value(b)) % P
  {
    var ea, eb := MontEncode(a), MontEncode(b);
    MulValue(ea, eb);
    Rn1IsInverseOfR();
    MontProductOfEncoded(Value(a), Value(b), Value(ea), Value(eb), P, R, Value(RN1));
  }

  /** Raising congruent bases to the same power gives congruent results. */
  lemma {:induction false} PowMod(a: int, n: nat)
    ensures Pow(a, n) % P == Pow(a % P, n) % P
  {
    if n > 0 {
      PowMod(a, n - 1);
      ModOfMod(a, P);
      ModMulCong(a, a % P, Pow(a, n - 1), Pow(a % P, n - 1), P);
    }
  }

  /** Decoded, invert's result is the decoded input raised to p - 2. */
  lemma InvertDecoded(x: Gfp, r: Gfp)
    requires Value(r) == (Pow(Value(x) * Value(RN1), P - 2) * R) % P
    ensures Value(MontDecode(r)) == Pow(Value(MontDecode(x)), P - 2) % P
  {
    var a := Value(x) * Value(RN1);
    ModMulCong(Value(r), Pow(a, P - 2) * R, Value(RN1), Value(RN1), P);
    ModOfMod(Pow(a, P - 2) * R, P);
    RCancel(Pow(a, P - 2));
    PowMod(a, P - 2);
  }

  // ---------------------------------------------------------------------
  // string

  /** The byte at memory offset k of a word on a little-endian host: bits
      8k .. 8k + 7 of the word. */
  function HostByte(v: Word, k: nat): (b: Byte)
    requires k < 8
    ensures b == (v / Pow2(8 * k)) % 256
  {
    LittleEndianReversed(v, 8, k);
    BigEndianByte(v, 8, 7 - k);
    assert 8 * (8 - 1 - (7 - k)) == 8 * k;
    LittleEndian(v, 8)[k]
  }

  /** The byte string reads at memory offset 7 - i of word 3 - k is byte
      8k + i of the marshalled form; its two digits sit at 16k + 2i. */
  lemma StringByte(x: Gfp, k: nat, i: nat)
    requires k < 4 && i < 8
    ensures HexOfBytes(MarshalBytes(x))[16 * k + 2 * i] == HexTable[HostByte(x[3 - k], 7 - i) / 16]
    ensures HexOfBytes(MarshalBytes(x))[16 * k + 2 * i + 1] == HexTable[HostByte(x[3 - k], 7 - i) % 16]
  {
    var bs, n, byte := MarshalBytes(x), 8 * k + i, HostByte(x[3 - k], 7 - i);
    assert bs[n] == byte by {
      MarshalByteAt(x, k, i);
      assert 56 - 8 * i == 8 * (7 - i);
    }
    HexOfBytesAt(bs, n);
    assert 2 * n == 16 * k + 2 * i && 2 * n + 1 == 16 * k + 2 * i + 1;
  }

  /** The rendering of the marshalled bytes is 64 digits of the table that
      spell the integer the words hold. */
  lemma StringValue(x: Gfp)
    ensures forall i :: 0 <= i < 64 ==> HexOfBytes(MarshalBytes(x))[i] in HexTable
    ensures HexValue(HexOfBytes(MarshalBytes(x))) == Value(x)
  {
    HexOfBytesDigits(MarshalBytes(x));
    HexOfBytesValue(MarshalBytes(x));
    MarshalValue(x);
  }

  /** `string`: 64 lowercase hexadecimal digits, the words most-significant
      first, each word's bytes read from the top of its memory image down
      (a little-endian host), high nibble before low nibble.  The digits
      spell the integer the words hold. */
  method String(x: Gfp) returns (s: string)
    ensures |s| == 64
    ensures forall i :: 0 <= i < 64 ==> s[i] in HexTable
    ensures s == HexOfBytes(MarshalBytes(x))
    ensures HexValue(s) == Value(x)
  {
    ghost var hex := HexOfBytes(MarshalBytes(x));
    var buf := new char[64];
    var pos := 0;
    for k := 0 to 4
      invariant pos == 16 * k
      invariant forall j :: 0 <= j < pos ==> buf[j] == hex[j]
    {
      var v := x[3 - k];
      for i := 0 to 8
        invariant pos == 16 * k + 2 * i
        invariant forall j :: 0 <= j < pos ==> buf[j] == hex[j]
      {
        var byte := HostByte(v, 7 - i);
        StringByte(x, k, i);
        var high, low := HexTable[byte / 16], HexTable[byte % 16];
        assert high == hex[pos] && low == hex[pos + 1];
        buf[pos] := high;
        buf[pos + 1] := low;
        pos := pos + 2;
      }
    }
    s := buf[..];
    assert s == hex;
    StringValue(x);
  }

  // ---------------------------------------------------------------------
  // new_gfp

  const Int64Min: int := -0x8000_0000_0000_0000
  const Int64Max: int := 0x7fff_ffff_ffff_ffff

  /** The element new_gfp encodes: the magnitude of x in the low word,
      negated in the field when x is negative.  It is x modulo p. */
  function SignedElement(x: int): (out: Gfp)
    requires Int64Min <= x <= Int64Max
    ensures Value(out) < P
    ensures Value(out) == x % P
  {
    var w: Word := if x >= 0 then x else -x;
    Value4([w, 0, 0, 0]);
    if x >= 0 then
      SmallDivMod(x, P);
      [w, 0, 0, 0]
    else
      var n := Neg([w, 0, 0, 0]);
      NegationIsUnique(Value(n), w, P);
      n
  }

  /** `new_gfp`: the Montgomery form of a signed 64-bit integer. */
  function NewGfp(x: int): (r: Gfp)
    requires Int64Min <= x <= Int64Max
    ensures Value(r) < P
    ensures Value(r) == (x * R) % P
  {
    var out := SignedElement(x);
    ModMulLeft(x, R, P);
    MontEncode(out)
  }

  /** new_gfp(0) is the zero element. */
  lemma NewGfpZero()
    ensures NewGfp(0) == [0, 0, 0, 0]
  {
    var z := NewGfp(0);
    assert Value(z) == 0 by {
      assert 0 * R == 0;
    }
    Value4([0, 0, 0, 0]);
    ValueInjective(z, [0, 0, 0, 0]);
  }

  /** The negation of the encoding of n is the encoding of -n. */
  lemma NegOfEncoded(e: Gfp, n: int)
    requires Value(e) == (n * R) % P
    ensures Value(Neg(e)) == ((-n) * R) % P
  {
    NegOfScaled(Value(Neg(e)), Value(e), n, R, P);
  }

  /** new_gfp(-n) is the field negation of new_gfp(n). */
  lemma NewGfpNegate(n: int)
    requires Int64Min < n <= Int64Max
    ensures NewGfp(-n) == Neg(NewGfp(n))
  {
    var pos, out := NewGfp(n), NewGfp(-n);
    NegOfEncoded(pos, n);
    ValueInjective(out, Neg(pos));
  }
}
