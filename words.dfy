/** The machine representations the field element uses: unsigned 64-bit
    words read little-endian (word i weighs 2^(64 i)), bytes read
    big-endian, and lowercase hexadecimal digits. */
module Words {
  import opened Arith

  const WordModulus: int := 0x1_0000_0000_0000_0000

  /** A `uint64_t`. */
  type Word = x: int | 0 <= x < 0x1_0000_0000_0000_0000

  /** A `uint8_t`. */
  type Byte = x: int | 0 <= x < 0x100

  /** A field element `gfp`: four little-endian 64-bit words. */
  type Gfp = ws: seq<Word> | |ws| == 4 witness [0, 0, 0, 0]

  /** The unsigned integer held by little-endian words: sum of ws[i]*2^(64 i). */
  function Value(ws: seq<Word>): nat
  {
    if ws == [] then 0 else ws[0] + WordModulus * Value(ws[1..])
  }

  /** The integer value of a four-word sequence, unfolded word by word. */
  lemma Value4(ws: seq<Word>)
    requires |ws| == 4
    ensures Value(ws) == ws[0] + WordModulus * (ws[1] + WordModulus * (ws[2] + WordModulus * ws[3]))
  {
    var t1, t2, t3 := ws[1..], ws[2..], ws[3..];
    assert t1[1..] == t2 && t2[1..] == t3 && t3[1..] == [];
    assert Value(t3) == ws[3];
    assert Value(t2) == ws[2] + WordModulus * ws[3];
    assert Value(t1) == ws[1] + WordModulus * Value(t2);
  }

  /** The k little-endian words of n (the low 64k bits of n). */
  function ToWords(n: nat, k: nat): (ws: seq<Word>)
    ensures |ws| == k
  {
    if k == 0 then [] else [n % WordModulus] + ToWords(n / WordModulus, k - 1)
  }

  lemma WordModulusIsPow2()
    ensures WordModulus == Pow2(64)
  {
    Pow2Of8();
    Pow2Add(8, 8);
    assert Pow2(16) == 0x1_0000;
    Pow2Add(16, 16);
    assert Pow2(32) == 0x1_0000_0000;
    Pow2Add(32, 32);
  }

  /** One more word of weight: 2^(n + 64) == 2^64 * 2^n. */
  lemma Pow2Step64(n: nat)
    ensures Pow2(n + 64) == WordModulus * Pow2(n)
  {
    Pow2Add(n, 64);
    WordModulusIsPow2();
  }

  /** k words hold values below 2^(64k). */
  lemma {:induction false} ValueBound(ws: seq<Word>)
    ensures Value(ws) < Pow2(64 * |ws|)
  {
    if ws != [] {
      var n := 64 * (|ws| - 1);
      ValueBound(ws[1..]);
      Pow2Step64(n);
      assert n + 64 == 64 * |ws|;
      DigitBound(ws[0], Value(ws[1..]), WordModulus, Pow2(n));
    }
  }

  /** Appending a most-significant word adds it at weight 2^(64 |ws|). */
  lemma {:induction false} ValueAppend(ws: seq<Word>, w: Word)
    ensures Value(ws + [w]) == Value(ws) + Pow2(64 * |ws|) * w
  {
    if ws == [] {
      assert [w][1..] == [];
    } else {
      var n := 64 * (|ws| - 1);
      assert (ws + [w])[1..] == ws[1..] + [w];
      ValueAppend(ws[1..], w);
      Pow2Step64(n);
      assert n + 64 == 64 * |ws|;
      assert Value(ws + [w]) == ws[0] + WordModulus * (Value(ws[1..]) + Pow2(n) * w);
      ShiftWord(ws[0], WordModulus, Value(ws[1..]), Pow2(n), w, Pow2(64 * |ws|));
    }
  }

  /** Converting n < 2^(64k) to k words and back yields n. */
  lemma {:induction false} ToWordsValue(n: nat, k: nat)
    requires n < Pow2(64 * k)
    ensures Value(ToWords(n, k)) == n
  {
    if k == 0 {
    } else {
      var m := 64 * (k - 1);
      Pow2Step64(m);
      assert m + 64 == 64 * k;
      DivDiv(n, WordModulus, Pow2(m));
      SmallDivMod(n, WordModulus * Pow2(m));
      ToWordsValue(n / WordModulus, k - 1);
      assert ToWords(n, k)[1..] == ToWords(n / WordModulus, k - 1);
    }
  }

  /** Two word sequences of equal length are equal when their values are. */
  lemma {:induction false} ValueInjective(a: seq<Word>, b: seq<Word>)
    requires |a| == |b| && Value(a) == Value(b)
    ensures a == b
  {
    if a != [] {
      ModUnique(Value(a), WordModulus, Value(a[1..]), a[0]);
      ModUnique(Value(b), WordModulus, Value(b[1..]), b[0]);
      ValueInjective(a[1..], b[1..]);
      assert a == [a[0]] + a[1..];
      assert b == [b[0]] + b[1..];
    }
  }

  /** Comparing most-significant word first decides integer order: if the
      words above position i agree and word i of a is smaller, then a is
      smaller. */
  lemma {:induction false} ValueLexLess(a: seq<Word>, b: seq<Word>, i: nat)
    requires |a| == |b| && i < |a|
    requires a[i + 1..] == b[i + 1..] && a[i] < b[i]
    ensures Value(a) < Value(b)
  {
    if i == 0 {
      assert a[1..] == b[1..];
    } else {
      assert a[1..][i..] == a[i + 1..] && b[1..][i..] == b[i + 1..];
      ValueLexLess(a[1..], b[1..], i - 1);
      assert WordModulus * (Value(a[1..]) + 1) <= WordModulus * Value(b[1..]);
    }
  }

  /** `v << n` on unbounded integers: n doublings. */
  function ShiftLeft(v: nat, n: nat): nat
  {
    if n == 0 then v else 2 * ShiftLeft(v, n - 1)
  }

  /** A left shift by n multiplies by 2^n. */
  lemma {:induction false} ShiftLeftValue(v: nat, n: nat)
    ensures ShiftLeft(v, n) == v * Pow2(n)
  {
    if n > 0 {
      ShiftLeftValue(v, n - 1);
      assert 2 * (v * Pow2(n - 1)) == v * (2 * Pow2(n - 1));
    }
  }

  /** A sum of products at weight 2^n is the same sum of shifts by n. */
  lemma ShiftLeftSum(a: nat, d: nat, v: nat, n: nat)
    requires a + d * Pow2(n) == v * Pow2(n)
    ensures a + ShiftLeft(d, n) == ShiftLeft(v, n)
    ensures ShiftLeft(v, n) == v * Pow2(n)
  {
    ShiftLeftValue(d, n);
    ShiftLeftValue(v, n);
  }

  /** Scanning a word from its least significant bit: with the low `bit`
      bits of w counted at weight 2^t, one more bit adds 2^(t + bit) when it
      is set and nothing when it is clear. */
  lemma WordBitsStep(w: Word, bit: nat, t: nat)
    ensures Pow2(t) * (w % Pow2(bit + 1))
         == Pow2(t) * (w % Pow2(bit)) + if BitSet(w, bit) then Pow2(t + bit) else 0
  {
    var hi, lo := Pow2(t), Pow2(bit);
    assert Pow2(bit + 1) == lo * 2;
    LowBitsStep(w, lo, Pow2(bit + 1), hi);
    Pow2Add(t, bit);
  }

  /** The bits of w below `bit`, bit i counted at weight 2^(t + i): what a
      least-significant-first scan of w has taken after `bit` steps. */
  ghost function TakenBits(w: Word, t: nat, bit: nat): nat
  {
    if bit == 0 then 0
    else TakenBits(w, t, bit - 1) + if BitSet(w, bit - 1) then Pow2(t + bit - 1) else 0
  }

  /** The scan has taken the low `bit` bits of w, shifted up by t. */
  lemma {:induction false} TakenBitsValue(w: Word, t: nat, bit: nat)
    ensures TakenBits(w, t, bit) == Pow2(t) * (w % Pow2(bit))
  {
    if bit > 0 {
      TakenBitsValue(w, t, bit - 1);
      WordBitsStep(w, bit - 1, t);
    }
  }

  /** Scanning all 64 bits takes the whole word at weight 2^t. */
  lemma TakenWord(w: Word, t: nat)
    ensures TakenBits(w, t, 64) == Pow2(t) * w
  {
    TakenBitsValue(w, t, 64);
    WordModulusIsPow2();
    SmallDivMod(w, Pow2(64));
  }

  /** Scanning word k of a little-endian word sequence after the words
      below it extends the value of the prefix by that word. */
  lemma PrefixValueStep(ws: seq<Word>, k: nat)
    requires k < |ws|
    ensures Value(ws[..k + 1]) == Value(ws[..k]) + TakenBits(ws[k], 64 * k, 64)
  {
    assert ws[..k + 1] == ws[..k] + [ws[k]];
    ValueAppend(ws[..k], ws[k]);
    TakenWord(ws[k], 64 * k);
  }

  /** The four 8-byte blocks of a 32-byte concatenation. */
  lemma Blocks(b0: seq<Byte>, b1: seq<Byte>, b2: seq<Byte>, b3: seq<Byte>)
    requires |b0| == 8 && |b1| == 8 && |b2| == 8 && |b3| == 8
    ensures (b0 + b1 + b2 + b3)[0..8] == b0
    ensures (b0 + b1 + b2 + b3)[8..16] == b1
    ensures (b0 + b1 + b2 + b3)[16..24] == b2
    ensures (b0 + b1 + b2 + b3)[24..32] == b3
  {
  }

  /** The unsigned integer held by big-endian bytes. */
  function BytesValue(bs: seq<Byte>): nat
  {
    if bs == [] then 0 else BytesValue(bs[..|bs| - 1]) * 256 + bs[|bs| - 1]
  }

  /** The k big-endian bytes of v mod 2^(8k): the k - 1 bytes of v / 256
      followed by the low byte of v. */
  function BigEndian(v: nat, k: nat): (bs: seq<Byte>)
    ensures |bs| == k
  {
    if k == 0 then [] else BigEndian(v / 256, k - 1) + [v % 256]
  }

  /** The 8 big-endian bytes of one word, as marshal writes them. */
  function WordBytes(v: Word): (bs: seq<Byte>)
    ensures |bs| == 8
  {
    BigEndian(v, 8)
  }

  /** The k bytes of v mod 2^(8k) in little-endian order: the memory image
      of an unsigned integer on a little-endian host, lowest address first. */
  function LittleEndian(v: nat, k: nat): (bs: seq<Byte>)
    ensures |bs| == k
  {
    if k == 0 then [] else [v % 256] + LittleEndian(v / 256, k - 1)
  }

  /** The little-endian image is the big-endian one reversed. */
  lemma {:induction false} LittleEndianReversed(v: nat, k: nat, j: nat)
    requires j < k
    ensures LittleEndian(v, k)[j] == BigEndian(v, k)[k - 1 - j]
  {
    if j > 0 {
      LittleEndianReversed(v / 256, k - 1, j - 1);
    }
  }

  /** Byte b of the k big-endian bytes of v is (v >> 8(k-1-b)) & 0xff. */
  lemma {:induction false} BigEndianByte(v: nat, k: nat, b: nat)
    requires b < k
    ensures BigEndian(v, k)[b] == (v / Pow2(8 * (k - 1 - b))) % 256
  {
    var hi := BigEndian(v / 256, k - 1);
    assert BigEndian(v, k) == hi + [v % 256];
    if b == k - 1 {
      assert Pow2(8 * (k - 1 - b)) == 1;
    } else {
      var n := 8 * (k - 2 - b);
      BigEndianByte(v / 256, k - 1, b);
      Pow2Step8(n);
      assert n + 8 == 8 * (k - 1 - b);
      DivDiv(v, 256, Pow2(n));
    }
  }

  lemma {:induction false} BytesValueBound(bs: seq<Byte>)
    ensures BytesValue(bs) < Pow2(8 * |bs|)
  {
    if bs != [] {
      var n := 8 * (|bs| - 1);
      BytesValueBound(bs[..|bs| - 1]);
      Pow2Step8(n);
      assert n + 8 == 8 * |bs|;
    }
  }

  /** Concatenation of big-endian byte strings shifts the left part up. */
  lemma {:induction false} BytesValueAppend(a: seq<Byte>, b: seq<Byte>)
    ensures BytesValue(a + b) == BytesValue(a) * Pow2(8 * |b|) + BytesValue(b)
  {
    if b == [] {
      assert a + b == a;
    } else {
      var b', n := b[..|b| - 1], 8 * (|b| - 1);
      assert (a + b)[..|a + b| - 1] == a + b';
      BytesValueAppend(a, b');
      Pow2Step8(n);
      assert n + 8 == 8 * |b|;
      ShiftDigit(BytesValue(a), Pow2(n), BytesValue(b'), b[|b| - 1], Pow2(8 * |b|));
    }
  }

  /** Appending a block of 8 bytes shifts the left part up by one word. */
  lemma BytesValueAppendWord(a: seq<Byte>, b: seq<Byte>)
    requires |b| == 8
    ensures BytesValue(a + b) == BytesValue(a) * WordModulus + BytesValue(b)
  {
    BytesValueAppend(a, b);
    WordModulusIsPow2();
  }

  /** Reading back k big-endian bytes of v gives v mod 2^(8k). */
  lemma {:induction false} BigEndianValue(v: nat, k: nat)
    ensures BytesValue(BigEndian(v, k)) == v % Pow2(8 * k)
  {
    if k == 0 {
      assert v % 1 == 0;
    } else {
      var hi, n := BigEndian(v / 256, k - 1), 8 * (k - 1);
      assert BigEndian(v, k)[..k - 1] == hi;
      BigEndianValue(v / 256, k - 1);
      Pow2Step8(n);
      assert n + 8 == 8 * k;
      DivDiv(v, 256, Pow2(n));
    }
  }

  lemma WordBytesValue(v: Word)
    ensures BytesValue(WordBytes(v)) == v
  {
    BigEndianValue(v, 8);
    WordModulusIsPow2();
    SmallDivMod(v, Pow2(64));
  }

  /** The digits `0123456789abcdef` that the rendering indexes. */
  const HexTable: string := "0123456789abcdef"

  /** The value of one lowercase hexadecimal digit (0 for any other char). */
  function DigitValue(c: char): nat
  {
    if '0' <= c <= '9' then (c - '0') as nat
    else if 'a' <= c <= 'f' then (c - 'a') as nat + 10
    else 0
  }

  lemma DigitValueOfTable(d: nat)
    requires d < 16
    ensures DigitValue(HexTable[d]) == d
  {
    assert HexTable == ['0', '1', '2', '3', '4', '5', '6', '7', '8', '9', 'a', 'b', 'c', 'd', 'e', 'f'];
  }

  /** The integer spelt by a string of hexadecimal digits, most-significant first. */
  function HexValue(s: string): nat
  {
    if s == [] then 0 else HexValue(s[..|s| - 1]) * 16 + DigitValue(s[|s| - 1])
  }

  /** Two hexadecimal digits per byte, high nibble first. */
  function HexOfBytes(bs: seq<Byte>): (s: string)
    ensures |s| == 2 * |bs|
  {
    if bs == [] then []
    else
      var last := bs[|bs| - 1];
      HexOfBytes(bs[..|bs| - 1]) + [HexTable[last / 16], HexTable[last % 16]]
  }

  /** Byte i of bs is rendered at positions 2i (high nibble) and 2i + 1
      (low nibble). */
  lemma {:induction false} HexOfBytesAt(bs: seq<Byte>, i: nat)
    requires i < |bs|
    ensures HexOfBytes(bs)[2 * i] == HexTable[bs[i] / 16]
    ensures HexOfBytes(bs)[2 * i + 1] == HexTable[bs[i] % 16]
  {
    var init := bs[..|bs| - 1];
    if i < |bs| - 1 {
      HexOfBytesAt(init, i);
    }
  }

  /** Every character of the rendering is a digit of the table. */
  lemma {:induction false} HexOfBytesDigits(bs: seq<Byte>)
    ensures forall i :: 0 <= i < |HexOfBytes(bs)| ==> HexOfBytes(bs)[i] in HexTable
  {
    if bs != [] {
      var last := bs[|bs| - 1];
      HexOfBytesDigits(bs[..|bs| - 1]);
      assert HexTable[last / 16] in HexTable && HexTable[last % 16] in HexTable;
    }
  }

  /** Two more digits scale the value spelt so far by 16 twice. */
  lemma HexValueAppend2(h: string, c1: char, c2: char)
    ensures HexValue(h + [c1, c2]) == (HexValue(h) * 16 + DigitValue(c1)) * 16 + DigitValue(c2)
  {
    var s := h + [c1, c2];
    assert s[..|s| - 1] == h + [c1];
    assert (h + [c1])[..|h|] == h;
  }

  /** Hexadecimal rendering of big-endian bytes spells the same integer. */
  lemma {:induction false} HexOfBytesValue(bs: seq<Byte>)
    ensures HexValue(HexOfBytes(bs)) == BytesValue(bs)
  {
    if bs != [] {
      var init, last := bs[..|bs| - 1], bs[|bs| - 1];
      var h, c1, c2 := HexOfBytes(init), HexTable[last / 16], HexTable[last % 16];
      HexValueAppend2(h, c1, c2);
      HexOfBytesValue(init);
      DigitValueOfTable(last / 16);
      DigitValueOfTable(last % 16);
      assert (BytesValue(init) * 16 + last / 16) * 16 + last % 16 == BytesValue(init) * 256 + last;
    }
  }
}
