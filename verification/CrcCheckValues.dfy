/** The published check values of both checks, worked out bit by bit on machine words that hold the same
    bits as the registers. */
module CrcCheckValues {
  import opened Bytes
  import opened Crc
  import opened CrcDivision

  // ---- The division on machine words ---------------------------------------------------------

  function Low(x: bv32): bit { if x & 1 == 1 then 1 else 0 }

  function Half(x: bv32): bv32 { x >> 1 }

  function Mix(x: bv32, y: bv32): bv32 { x ^ y }

  /** The low bits of a machine word. */
  function WordBits(x: bv32, n: nat): (s: seq<bit>)
    ensures |s| == n
  {
    if n == 0 then [] else [Low(x)] + WordBits(Half(x), n - 1)
  }

  predicate Within(x: bv32, n: nat) { if n == 0 then x == 0 else Within(Half(x), n - 1) }

  lemma HalfOfZero()
    ensures Low(0) == 0 && Half(0) == 0
  {
  }

  lemma MixParts(x: bv32, y: bv32)
    ensures Half(Mix(x, y)) == Mix(Half(x), Half(y))
    ensures Low(Mix(x, y)) == if Low(x) == Low(y) then 0 else 1
    ensures Mix(0, 0) == 0
  {
    assert (x ^ y) & 1 == (x & 1) ^ (y & 1);
    assert (x & 1 == 0 || x & 1 == 1) && (y & 1 == 0 || y & 1 == 1);
  }

  lemma {:induction false} WordHalf(x: bv32, n: nat)
    requires n > 0 && Within(x, n)
    ensures WordBits(Half(x), n) == WordBits(x, n)[1..] + [0] && Within(Half(x), n)
    decreases n
  {
    hide Low, Half;
    HalfOfZero();
    if n > 1 { WordHalf(Half(x), n - 1); }
  }

  lemma {:induction false} WordMix(x: bv32, y: bv32, n: nat)
    requires Within(x, n) && Within(y, n)
    ensures WordBits(Mix(x, y), n) == XorBits(WordBits(x, n), WordBits(y, n)) && Within(Mix(x, y), n)
    decreases n
  {
    hide Low, Half, Mix, XorBits;
    MixParts(x, y);
    if n > 0 {
      WordMix(Half(x), Half(y), n - 1);
      XorBitsCons(Low(x), WordBits(Half(x), n - 1), Low(y), WordBits(Half(y), n - 1));
    } else {
      assert XorBits([], []) == [];
    }
  }

  function WordNext(mask: bv32, x: bv32, b: bit): bv32 {
    if Low(x) != b then Mix(Half(x), mask) else Half(x)
  }

  predicate Masks(mask: bv32, w: nat, divisor: seq<bit>) {
    w > 0 && |divisor| == w + 1 && WordBits(mask, w) == divisor[1..] && Within(mask, w)
  }

  lemma WordStep(mask: bv32, w: nat, divisor: seq<bit>, x: bv32, b: bit)
    requires Masks(mask, w, divisor) && Within(x, w)
    ensures WordBits(WordNext(mask, x, b), w) == Next(WordBits(x, w), b, divisor)
    ensures Within(WordNext(mask, x, b), w)
  {
    hide Low, Half, Mix;
    WordHalf(x, w);
    WordMix(Half(x), mask, w);
  }

  /** The register after many message bits. */
  function Fold(register: seq<bit>, bits: seq<bit>, divisor: seq<bit>): (s: seq<bit>)
    requires register != [] && |divisor| == |register| + 1
    ensures |s| == |register|
    decreases |bits|
  {
    if bits == [] then register else Fold(Next(register, bits[0], divisor), bits[1..], divisor)
  }

  lemma {:induction false} FeedFolds(poly: nat, w: nat, divisor: seq<bit>, r: nat, bits: seq<bit>)
    requires Reflects(poly, w, divisor) && r < Pow2(w)
    ensures LowBits(Feed(poly, r, bits), w) == Fold(LowBits(r, w), bits, divisor)
    decreases |bits|
  {
    hide Xor, Shift, LowBits, Next;
    if bits != [] {
      ShiftIsNext(poly, w, divisor, r, bits[0]);
      FeedFolds(poly, w, divisor, Shift(poly, Xor(r, bits[0])), bits[1..]);
    }
  }

  function WordFold(mask: bv32, x: bv32, bits: seq<bit>): bv32
    decreases |bits|
  {
    if bits == [] then x else WordFold(mask, WordNext(mask, x, bits[0]), bits[1..])
  }

  lemma {:induction false} WordFolds(mask: bv32, w: nat, divisor: seq<bit>, x: bv32, bits: seq<bit>)
    requires Masks(mask, w, divisor) && Within(x, w)
    ensures Fold(WordBits(x, w), bits, divisor) == WordBits(WordFold(mask, x, bits), w)
    ensures Within(WordFold(mask, x, bits), w)
    decreases |bits|
  {
    hide Within, Next, WordNext, WordBits;
    if bits != [] {
      WordStep(mask, w, divisor, x, bits[0]);
      WordFolds(mask, w, divisor, WordNext(mask, x, bits[0]), bits[1..]);
    }
  }

  lemma {:induction false} WordFoldAppends(mask: bv32, x: bv32, s: seq<bit>, t: seq<bit>)
    ensures WordFold(mask, x, s + t) == WordFold(mask, WordFold(mask, x, s), t)
    decreases |s|
  {
    hide WordNext;
    if s == [] {
      assert s + t == t;
    } else {
      assert (s + t)[1..] == s[1..] + t;
      WordFoldAppends(mask, WordNext(mask, x, s[0]), s[1..], t);
    }
  }

  lemma WordOctet(mask: bv32, x: bv32, s: seq<byte>, b: byte)
    ensures WordFold(mask, x, WireBits(s + [b])) == WordFold(mask, WordFold(mask, x, WireBits(s)), LowBits(b, 8))
  {
    hide WordFold, LowBits;
    assert (s + [b])[..|s|] == s;
    WordFoldAppends(mask, x, WireBits(s), LowBits(b, 8));
  }

  lemma DigitBits()
    ensures LowBits(0x31, 8) == [1, 0, 0, 0, 1, 1, 0, 0]
    ensures LowBits(0x32, 8) == [0, 1, 0, 0, 1, 1, 0, 0]
    ensures LowBits(0x33, 8) == [1, 1, 0, 0, 1, 1, 0, 0]
    ensures LowBits(0x34, 8) == [0, 0, 1, 0, 1, 1, 0, 0]
    ensures LowBits(0x35, 8) == [1, 0, 1, 0, 1, 1, 0, 0]
    ensures LowBits(0x36, 8) == [0, 1, 1, 0, 1, 1, 0, 0]
    ensures LowBits(0x37, 8) == [1, 1, 1, 0, 1, 1, 0, 0]
    ensures LowBits(0x38, 8) == [0, 0, 0, 1, 1, 1, 0, 0]
    ensures LowBits(0x39, 8) == [1, 0, 0, 1, 1, 1, 0, 0]
  {
    hide LowBits;
    FourBits(3, 4);
    FourBits(0x31, 8);
    FourBits(0x32, 8);
    FourBits(0x33, 8);
    FourBits(0x34, 8);
    FourBits(0x35, 8);
    FourBits(0x36, 8);
    FourBits(0x37, 8);
    FourBits(0x38, 8);
    FourBits(0x39, 8);
  }

  lemma EmptyWord()
    ensures WordBits(0, 0) == [] && Within(0, 0)
  {
  }

  lemma FourWord(x: bv32, n: nat)
    requires n >= 4
    ensures WordBits(x, n) == [Low(x), Low(x >> 1), Low(x >> 2), Low(x >> 3)] + WordBits(x >> 4, n - 4)
    ensures Within(x, n) <==> Within(x >> 4, n - 4)
  {
    assert x >> 1 >> 1 == x >> 2 && x >> 2 >> 1 == x >> 3 && x >> 3 >> 1 == x >> 4;
    hide Low;
    assert WordBits(x, n) == [Low(x)] + WordBits(x >> 1, n - 1);
    assert WordBits(x >> 1, n - 1) == [Low(x >> 1)] + WordBits(x >> 2, n - 2);
    assert WordBits(x >> 2, n - 2) == [Low(x >> 2)] + WordBits(x >> 3, n - 3);
    assert WordBits(x >> 3, n - 3) == [Low(x >> 3)] + WordBits(x >> 4, n - 4);
    assert Within(x >> 1, n - 1) == Within(x >> 2, n - 2) && Within(x >> 2, n - 2) == Within(x >> 3, n - 3);
  }

  lemma Octets16First()
    ensures WordFold(0xa001, 0xffff, [1, 0, 0, 0, 1, 1, 0, 0]) == 0x947e
    ensures WordFold(0xa001, 0x947e, [0, 1, 0, 0, 1, 1, 0, 0]) == 0xf595
    ensures WordFold(0xa001, 0xf595, [1, 1, 0, 0, 1, 1, 0, 0]) == 0x7a75
  {
  }

  lemma Octets16Middle()
    ensures WordFold(0xa001, 0x7a75, [0, 0, 1, 0, 1, 1, 0, 0]) == 0x30ba
    ensures WordFold(0xa001, 0x30ba, [1, 0, 1, 0, 1, 1, 0, 0]) == 0xa471
    ensures WordFold(0xa001, 0xa471, [0, 1, 1, 0, 1, 1, 0, 0]) == 0x32e4
  {
  }

  lemma Octets16Last()
    ensures WordFold(0xa001, 0x32e4, [1, 1, 1, 0, 1, 1, 0, 0]) == 0x9d73
    ensures WordFold(0xa001, 0x9d73, [0, 0, 0, 1, 1, 1, 0, 0]) == 0x37dd
    ensures WordFold(0xa001, 0x37dd, [1, 0, 0, 1, 1, 1, 0, 0]) == 0x4b37
  {
  }

  lemma Octets32First()
    ensures WordFold(0xedb88320, 0xffffffff, [1, 0, 0, 0, 1, 1, 0, 0]) == 0x7c231048
    ensures WordFold(0xedb88320, 0x7c231048, [0, 1, 0, 0, 1, 1, 0, 0]) == 0xb0acbb32
    ensures WordFold(0xedb88320, 0xb0acbb32, [1, 1, 0, 0, 1, 1, 0, 0]) == 0x77b79c2d
  {
  }

  lemma Octets32Middle()
    ensures WordFold(0xedb88320, 0x77b79c2d, [0, 0, 1, 0, 1, 1, 0, 0]) == 0x641c1f5c
    ensures WordFold(0xedb88320, 0x641c1f5c, [1, 0, 1, 0, 1, 1, 0, 0]) == 0x340ac5e3
    ensures WordFold(0xedb88320, 0x340ac5e3, [0, 1, 1, 0, 1, 1, 0, 0]) == 0xf68d2c9e
  {
  }

  lemma Octets32Last()
    ensures WordFold(0xedb88320, 0xf68d2c9e, [1, 1, 1, 0, 1, 1, 0, 0]) == 0xaffc9660
    ensures WordFold(0xedb88320, 0xaffc9660, [0, 0, 0, 1, 1, 1, 0, 0]) == 0x651f2550
    ensures WordFold(0xedb88320, 0x651f2550, [1, 0, 0, 1, 1, 1, 0, 0]) == 0x340bc6d9
  {
  }

  lemma Mask16Word()
    ensures WordBits(0xa001, 16) == [1, 0, 0, 0, 0, 0, 0, 0, 0, 0, 0, 0, 0, 1, 0, 1] && Within(0xa001, 16)
  {
    EmptyWord();
    hide WordBits, Within;
    FourWord(0xa001, 16);
    FourWord(0xa00, 12);
    FourWord(0xa0, 8);
    FourWord(0xa, 4);
  }

  lemma Start16Word()
    ensures WordBits(0xffff, 16) == Ones(16) && Within(0xffff, 16)
  {
    EmptyWord();
    hide WordBits, Within;
    FourWord(0xffff, 16);
    FourWord(0xfff, 12);
    FourWord(0xff, 8);
    FourWord(0xf, 4);
  }

  lemma End16Word()
    ensures WordBits(0x4b37, 16) == [1, 1, 1, 0, 1, 1, 0, 0, 1, 1, 0, 1, 0, 0, 1, 0] && Within(0x4b37, 16)
  {
    EmptyWord();
    hide WordBits, Within;
    FourWord(0x4b37, 16);
    FourWord(0x4b3, 12);
    FourWord(0x4b, 8);
    FourWord(0x4, 4);
  }

  lemma End16Bits()
    ensures LowBits(0x4b37, 16) == [1, 1, 1, 0, 1, 1, 0, 0, 1, 1, 0, 1, 0, 0, 1, 0]
  {
    hide LowBits;
    FourBits(0x4b37, 16);
    FourBits(0x4b3, 12);
    FourBits(0x4b, 8);
    FourBits(0x4, 4);
    assert LowBits(0x4b37, 16) == [1, 1, 1, 0, 1, 1, 0, 0, 1, 1, 0, 1, 0, 0, 1, 0] + LowBits(0, 0);
  }

  lemma Mask32WordHigh()
    ensures WordBits(0xedb8, 16) == [0, 0, 0, 1, 1, 1, 0, 1, 1, 0, 1, 1, 0, 1, 1, 1] && Within(0xedb8, 16)
  {
    EmptyWord();
    hide WordBits, Within;
    FourWord(0xedb8, 16);
    FourWord(0xedb, 12);
    FourWord(0xed, 8);
    FourWord(0xe, 4);
  }

  lemma Mask32Word()
    ensures WordBits(0xedb88320, 32) ==
            [0, 0, 0, 0, 0, 1, 0, 0, 1, 1, 0, 0, 0, 0, 0, 1] +
            [0, 0, 0, 1, 1, 1, 0, 1, 1, 0, 1, 1, 0, 1, 1, 1]
    ensures Within(0xedb88320, 32)
  {
    Mask32WordHigh();
    hide WordBits, Within;
    FourWord(0xedb88320, 32);
    FourWord(0xedb8832, 28);
    FourWord(0xedb883, 24);
    FourWord(0xedb88, 20);
  }

  lemma Start32Word()
    ensures WordBits(0xffffffff, 32) == Ones(32) && Within(0xffffffff, 32)
  {
    Start16Word();
    hide WordBits, Within;
    FourWord(0xffffffff, 32);
    FourWord(0xfffffff, 28);
    FourWord(0xffffff, 24);
    FourWord(0xfffff, 20);
  }

  lemma End32WordHigh()
    ensures WordBits(0xcbf4, 16) == [0, 0, 1, 0, 1, 1, 1, 1, 1, 1, 0, 1, 0, 0, 1, 1] && Within(0xcbf4, 16)
  {
    EmptyWord();
    hide WordBits, Within;
    FourWord(0xcbf4, 16);
    FourWord(0xcbf, 12);
    FourWord(0xcb, 8);
    FourWord(0xc, 4);
  }

  lemma End32Word()
    ensures WordBits(0xcbf43926, 32) ==
            [0, 1, 1, 0, 0, 1, 0, 0, 1, 0, 0, 1, 1, 1, 0, 0] +
            [0, 0, 1, 0, 1, 1, 1, 1, 1, 1, 0, 1, 0, 0, 1, 1]
    ensures Within(0xcbf43926, 32)
  {
    End32WordHigh();
    hide WordBits, Within;
    FourWord(0xcbf43926, 32);
    FourWord(0xcbf4392, 28);
    FourWord(0xcbf439, 24);
    FourWord(0xcbf43, 20);
  }

  lemma End32BitsHigh()
    ensures LowBits(0xcbf4, 16) == [0, 0, 1, 0, 1, 1, 1, 1, 1, 1, 0, 1, 0, 0, 1, 1]
  {
    hide LowBits;
    FourBits(0xcbf4, 16);
    FourBits(0xcbf, 12);
    FourBits(0xcb, 8);
    FourBits(0xc, 4);
    assert LowBits(0xcbf4, 16) == [0, 0, 1, 0, 1, 1, 1, 1, 1, 1, 0, 1, 0, 0, 1, 1] + LowBits(0, 0);
  }

  lemma End32Bits()
    ensures LowBits(0xcbf43926, 32) ==
            [0, 1, 1, 0, 0, 1, 0, 0, 1, 0, 0, 1, 1, 1, 0, 0] +
            [0, 0, 1, 0, 1, 1, 1, 1, 1, 1, 0, 1, 0, 0, 1, 1]
  {
    hide LowBits;
    End32BitsHigh();
    FourBits(0xcbf43926, 32);
    FourBits(0xcbf4392, 28);
    FourBits(0xcbf439, 24);
    FourBits(0xcbf43, 20);
    assert LowBits(0xcbf43926, 32) == [0, 1, 1, 0, 0, 1, 0, 0, 1, 0, 0, 1, 1, 1, 0, 0] + LowBits(0xcbf4, 16);
  }

  function AfterOctet(mask: bv32, x: bv32, b: byte): bv32 { WordFold(mask, x, LowBits(b, 8)) }

  lemma ThreeOctets(mask: bv32, x: bv32, s: seq<byte>, a: byte, b: byte, c: byte)
    ensures WordFold(mask, x, WireBits(s + [a, b, c])) ==
            AfterOctet(mask, AfterOctet(mask, AfterOctet(mask, WordFold(mask, x, WireBits(s)), a), b), c)
  {
    hide WordFold, LowBits, WireBits;
    WordOctet(mask, x, s, a);
    WordOctet(mask, x, s + [a], b);
    WordOctet(mask, x, s + [a] + [b], c);
    assert s + [a] + [b] + [c] == s + [a, b, c];
  }

  lemma CheckMessage()
    ensures Ascii("123456789") == [0x31, 0x32, 0x33] + [0x34, 0x35, 0x36] + [0x37, 0x38, 0x39]
  {
  }

  lemma NineOctets(mask: bv32, x: bv32)
    ensures var first := AfterOctet(mask, AfterOctet(mask, AfterOctet(mask, x, 0x31), 0x32), 0x33);
            var middle := AfterOctet(mask, AfterOctet(mask, AfterOctet(mask, first, 0x34), 0x35), 0x36);
            var last := AfterOctet(mask, AfterOctet(mask, AfterOctet(mask, middle, 0x37), 0x38), 0x39);
            WordFold(mask, x, WireBits(Ascii("123456789"))) == last
  {
    assert WordFold(mask, x, WireBits([])) == x;
    hide WordFold, WireBits, AfterOctet, Ascii;
    CheckMessage();
    var s: seq<byte> := [0x31, 0x32, 0x33];
    assert [] + s == s;
    ThreeOctets(mask, x, [], 0x31, 0x32, 0x33);
    ThreeOctets(mask, x, s, 0x34, 0x35, 0x36);
    ThreeOctets(mask, x, s + [0x34, 0x35, 0x36], 0x37, 0x38, 0x39);
  }

  lemma Registers16()
    ensures WordFold(0xa001, 0xffff, WireBits(Ascii("123456789"))) == 0x4b37
  {
    hide LowBits, WordFold, WireBits;
    NineOctets(0xa001, 0xffff);
    DigitBits();
    Octets16First();
    Octets16Middle();
    Octets16Last();
  }

  /** The published check value of the Modbus check. */
  lemma CheckValue16()
    ensures Crc16(Ascii("123456789")) == 0x4b37
  {
    hide LowBits, WordBits, WordFold, WireBits, Fold, Feed, Absorb, Polynomial, Within, XorBits;
    var m := Ascii("123456789");
    Widths();
    Reflects16();
    AllOnes(16);
    AbsorbFeeds(CRC16_POLY, 0xffff, m);
    FeedFolds(CRC16_POLY, 16, Generator16(), 0xffff, WireBits(m));
    Mask16Word();
    MaskList16();
    Start16Word();
    WordFolds(0xa001, 16, Generator16(), 0xffff, WireBits(m));
    Registers16();
    End16Word();
    End16Bits();
    Crc16Bounded(m);
    LowBitsInjective(Crc16(m), 0x4b37, 16);
  }

  lemma Registers32()
    ensures WordFold(0xedb88320, 0xffffffff, WireBits(Ascii("123456789"))) == 0x340bc6d9
  {
    hide LowBits, WordFold, WireBits;
    NineOctets(0xedb88320, 0xffffffff);
    DigitBits();
    Octets32First();
    Octets32Middle();
    Octets32Last();
  }

  lemma Masks32()
    ensures Masks(0xedb88320, 32, Generator32())
  {
    hide WordBits, Within, Polynomial;
    Mask32Word();
    MaskList32();
  }

  lemma Fold32()
    ensures LowBits(Absorb(CRC32_POLY, 0xffffffff, Ascii("123456789")), 32) == WordBits(0x340bc6d9, 32)
    ensures Within(0x340bc6d9, 32)
  {
    hide LowBits, WordBits, WordFold, WireBits, Fold, Feed, Absorb, Polynomial, Within, Masks;
    var m := Ascii("123456789");
    Widths();
    Reflects32();
    AllOnes(32);
    AbsorbFeeds(CRC32_POLY, 0xffffffff, m);
    FeedFolds(CRC32_POLY, 32, Generator32(), 0xffffffff, WireBits(m));
    Masks32();
    Start32Word();
    WordFolds(0xedb88320, 32, Generator32(), 0xffffffff, WireBits(m));
    Registers32();
  }

  /** The published value of the other check over the same message. */
  lemma CheckValue32()
    ensures Crc32(Ascii("123456789")) == 0xcbf43926
  {
    assert Mix(0x340bc6d9, 0xffffffff) == 0xcbf43926;
    hide LowBits, WordBits, Absorb, Within, Mix, Xor, Ascii;
    var register := Absorb(CRC32_POLY, 0xffffffff, Ascii("123456789"));
    Widths();
    Fold32();
    Start32Word();
    AllOnes(32);
    WordMix(0x340bc6d9, 0xffffffff, 32);
    XorAdds(register, 0xffffffff, 32);
    End32Word();
    End32Bits();
    AbsorbFits(CRC32_POLY, 32, 0xffffffff, Ascii("123456789"));
    XorBelow(register, 0xffffffff, 32);
    LowBitsInjective(Crc32(Ascii("123456789")), 0xcbf43926, 32);
  }
}
