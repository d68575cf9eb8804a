/** What the check registers compute, without shifts and feedback masks: the remainder of the message,
    as a polynomial over the two-element field, on division by the published generator. */
module CrcDivision {
  import opened Bytes
  import opened Crc

  // ---- Polynomials as coefficient lists, highest power first --------------------------------

  function Ones(n: nat): (s: seq<bit>)
    ensures |s| == n && forall i :: 0 <= i < n ==> s[i] == 1
  {
    seq(n, _ => 1)
  }

  /** The sum of these powers. */
  function Polynomial(degree: nat, exponents: set<int>): (s: seq<bit>)
    ensures |s| == degree + 1
  {
    seq(degree + 1, i requires 0 <= i <= degree => if degree - i in exponents then 1 else 0)
  }

  /** The dividend with the divisor taken off its leading power. */
  function Reduced(p: seq<bit>, divisor: seq<bit>): (r: seq<bit>)
    requires 0 < |divisor| <= |p| && divisor[0] == 1
    ensures |r| == |p| - 1
  {
    if p[0] == 0 then p[1..] else XorBits(p[..|divisor|], divisor)[1..] + p[|divisor|..]
  }

  /** Long division: while the dividend is long enough, the divisor is taken off its leading power. */
  function Remainder(p: seq<bit>, divisor: seq<bit>): (r: seq<bit>)
    requires divisor != [] && divisor[0] == 1
    ensures |r| < |divisor| && (|p| >= |divisor| ==> |r| == |divisor| - 1)
    decreases |p|
  {
    if |p| < |divisor| then p else Remainder(Reduced(p, divisor), divisor)
  }

  function Times(q: seq<bit>, d: seq<bit>): (s: seq<bit>)
    requires d != []
    ensures |s| == |q| + |d| - 1
  {
    if q == [] then Zeros(|d| - 1)
    else XorBits((if q[0] == 1 then d else Zeros(|d|)) + Zeros(|q| - 1), [0] + Times(q[1..], d))
  }

  /** Taking off the divisor is adding it, padded to the dividend's length, when the leading coefficient
      is one. */
  lemma ReducedAt(p: seq<bit>, divisor: seq<bit>, i: nat)
    requires 0 < |divisor| <= |p| && divisor[0] == 1 && i < |p| - 1
    ensures Reduced(p, divisor)[i] ==
            if p[0] == 1 && i + 1 < |divisor| && divisor[i + 1] == 1 then 1 - p[i + 1] else p[i + 1]
  {
  }

  lemma Restored(p: seq<bit>, divisor: seq<bit>, q: seq<bit>, t: seq<bit>, u: seq<bit>)
    requires 0 < |divisor| <= |p| == |u| && divisor[0] == 1 && q == (if p[0] == 1 then divisor else Zeros(|divisor|))
    requires |t| == |p| - 1 && u[0] == 0 && Reduced(p, divisor) == XorBits(t, u[1..])
    ensures p == XorBits(XorBits(q + Zeros(|p| - |divisor|), [0] + t), u)
  {
    var all := q + Zeros(|p| - |divisor|);
    forall i | 0 <= i < |p| ensures p[i] == XorBits(XorBits(all, [0] + t), u)[i] {
      if i > 0 {
        ReducedAt(p, divisor, i - 1);
        assert Reduced(p, divisor)[i - 1] == if t[i - 1] == u[i] then 0 else 1;
        assert ([0] + t)[i] == t[i - 1];
      }
    }
  }

  /** Division loses nothing: the dividend is the quotient times the divisor, plus the remainder. */
  lemma {:induction false} DivisionRestores(p: seq<bit>, divisor: seq<bit>) returns (q: seq<bit>)
    requires divisor != [] && divisor[0] == 1 && |p| >= |divisor| - 1
    ensures |q| == |p| - (|divisor| - 1) && |Remainder(p, divisor)| == |divisor| - 1
    ensures p == XorBits(Times(q, divisor), Zeros(|q|) + Remainder(p, divisor))
    decreases |p|
  {
    hide Reduced;
    if |p| < |divisor| {
      q := [];
    } else {
      var more := DivisionRestores(Reduced(p, divisor), divisor);
      q := [p[0]] + more;
      assert q[1..] == more;
      var u := Zeros(|q|) + Remainder(p, divisor);
      assert u[1..] == Zeros(|more|) + Remainder(p, divisor);
      Restored(p, divisor, if p[0] == 1 then divisor else Zeros(|divisor|), Times(more, divisor), u);
    }
  }

  // ---- One shift is one step of the division -------------------------------------------------

  /** The register's polynomial, reflected: its low bit is the coefficient below the leading one. */
  predicate Reflects(poly: nat, w: nat, divisor: seq<bit>) {
    w > 0 && |divisor| == w + 1 && divisor[0] == 1 && LowBits(poly, w) == divisor[1..] && poly < Pow2(w)
  }

  lemma XorBitsCons(a: bit, s: seq<bit>, b: bit, t: seq<bit>)
    requires |s| == |t|
    ensures XorBits([a] + s, [b] + t) == [if a == b then 0 else 1] + XorBits(s, t)
  {
  }

  lemma {:induction false} XorAdds(a: nat, b: nat, n: nat)
    ensures LowBits(Xor(a, b), n) == XorBits(LowBits(a, n), LowBits(b, n))
    decreases n
  {
    hide Xor, XorBits;
    XorHalves(a, b);
    if n > 0 {
      XorAdds(a / 2, b / 2, n - 1);
      XorBitsCons(a % 2, LowBits(a / 2, n - 1), b % 2, LowBits(b / 2, n - 1));
      assert (a + b) % 2 == if a % 2 == b % 2 then 0 else 1;
    } else {
      assert XorBits([], []) == [];
    }
  }

  lemma {:induction false} HalfMovesUp(r: nat, w: nat)
    requires w > 0 && r < Pow2(w)
    ensures LowBits(r / 2, w) == LowBits(r, w)[1..] + [0]
    decreases w
  {
    if w > 1 {
      HalfMovesUp(r / 2, w - 1);
      assert LowBits(r, w)[1..] == LowBits(r / 2, w - 1);
      assert LowBits(r / 2, w) == [r / 2 % 2] + LowBits(r / 2 / 2, w - 1);
    } else {
      assert r / 2 == 0;
    }
  }

  /** The register after one message bit. */
  function Next(register: seq<bit>, b: bit, divisor: seq<bit>): (s: seq<bit>)
    requires register != [] && |divisor| == |register| + 1
    ensures |s| == |register|
  {
    var up := register[1..] + [0];
    if register[0] != b then XorBits(up, divisor[1..]) else up
  }

  lemma ShiftIsNext(poly: nat, w: nat, divisor: seq<bit>, r: nat, b: bit)
    requires Reflects(poly, w, divisor) && r < Pow2(w)
    ensures LowBits(Shift(poly, Xor(r, b)), w) == Next(LowBits(r, w), b, divisor)
    ensures Shift(poly, Xor(r, b)) < Pow2(w)
  {
    assert LowBits(r, w)[0] == r % 2;
    hide Xor, LowBits, XorBits;
    ShiftedBit(poly, r, b);
    HalfMovesUp(r, w);
    XorAdds(r / 2, poly, w);
    XorBelow(r / 2, poly, w);
  }

  lemma ShiftedBit(poly: nat, r: nat, b: bit)
    ensures Shift(poly, Xor(r, b)) == if r % 2 != b then Xor(r / 2, poly) else r / 2
  {
    hide Xor;
    XorHalves(r, b);
    XorZero(r / 2);
    SumParity(r, b);
  }

  lemma SumParity(r: nat, b: bit)
    ensures (r + b) % 2 == 1 <==> r % 2 != b
  {
  }

  /** The message behind which the register's width of zeros stands, the register added to its front. */
  function Dividend(register: seq<bit>, bits: seq<bit>): (p: seq<bit>)
    ensures |p| == |register| + |bits|
  {
    XorBits(register + Zeros(|bits|), bits + Zeros(|register|))
  }

  lemma NextReduces(register: seq<bit>, bits: seq<bit>, divisor: seq<bit>)
    requires register != [] && bits != [] && |divisor| == |register| + 1 && divisor[0] == 1
    ensures Reduced(Dividend(register, bits), divisor) == Dividend(Next(register, bits[0], divisor), bits[1..])
  {
    var p, next := Dividend(register, bits), Next(register, bits[0], divisor);
    var w, n := |register|, |bits|;
    var front, behind := register + Zeros(n), bits + Zeros(w);
    var front', behind' := next + Zeros(n - 1), bits[1..] + Zeros(w);
    forall i | 0 <= i < w + n - 1 ensures Reduced(p, divisor)[i] == Dividend(next, bits[1..])[i] {
      ReducedAt(p, divisor, i);
      assert behind'[i] == behind[i + 1];
      NextAt(register, bits[0], divisor, i);
      assert front'[i] == if i < w then next[i] else 0;
      assert front[i + 1] == if i + 1 < w then register[i + 1] else 0;
    }
  }

  lemma NextAt(register: seq<bit>, b: bit, divisor: seq<bit>, i: nat)
    requires register != [] && |divisor| == |register| + 1
    ensures i < |register| ==>
      var up := if i + 1 < |register| then register[i + 1] else 0;
      Next(register, b, divisor)[i] == if register[0] != b && divisor[i + 1] == 1 then 1 - up else up
  {
  }

  lemma NextDivides(register: seq<bit>, bits: seq<bit>, divisor: seq<bit>)
    requires register != [] && bits != [] && |divisor| == |register| + 1 && divisor[0] == 1
    ensures Remainder(Dividend(register, bits), divisor) ==
            Remainder(Dividend(Next(register, bits[0], divisor), bits[1..]), divisor)
  {
    hide Next, Dividend, Reduced;
    NextReduces(register, bits, divisor);
  }

  lemma {:induction false} FeedDivides(poly: nat, w: nat, divisor: seq<bit>, r: nat, bits: seq<bit>)
    requires Reflects(poly, w, divisor) && r < Pow2(w)
    ensures LowBits(Feed(poly, r, bits), w) == Remainder(Dividend(LowBits(r, w), bits), divisor)
    decreases |bits|
  {
    hide Xor, Shift, LowBits, Next;
    if bits == [] {
      assert Dividend(LowBits(r, w), bits) == LowBits(r, w);
    } else {
      ShiftIsNext(poly, w, divisor, r, bits[0]);
      NextDivides(LowBits(r, w), bits, divisor);
      FeedDivides(poly, w, divisor, Shift(poly, Xor(r, bits[0])), bits[1..]);
    }
  }

  // ---- The two checks ------------------------------------------------------------------------

  /** x^16 + x^15 + x^2 + 1. */
  function Generator16(): (g: seq<bit>)
    ensures |g| == 17 && g[0] == 1
  {
    Polynomial(16, {16, 15, 2, 0})
  }

  /** x^32 + x^26 + x^23 + x^22 + x^16 + x^12 + x^11 + x^10 + x^8 + x^7 + x^5 + x^4 + x^2 + x + 1. */
  function Generator32(): (g: seq<bit>)
    ensures |g| == 33 && g[0] == 1
  {
    Polynomial(32, {32, 26, 23, 22, 16, 12, 11, 10, 8, 7, 5, 4, 2, 1, 0})
  }

  lemma OneBit(v: nat, n: nat)
    requires n >= 1
    ensures LowBits(v, n) == [v % 2] + LowBits(v / 2, n - 1)
  {
  }

  lemma FourBits(v: nat, n: nat)
    requires n >= 4
    ensures LowBits(v, n) == [v % 2, v / 2 % 2, v / 4 % 2, v / 8 % 2] + LowBits(v / 16, n - 4)
  {
    hide LowBits;
    assert v / 2 / 2 == v / 4 && v / 4 / 2 == v / 8 && v / 8 / 2 == v / 16;
    OneBit(v, n);
    OneBit(v / 2, n - 1);
    OneBit(v / 4, n - 2);
    OneBit(v / 8, n - 3);
  }

  lemma MaskList16()
    ensures Generator16()[1..] == [1, 0, 0, 0, 0, 0, 0, 0, 0, 0, 0, 0, 0, 1, 0, 1]
  {
  }

  lemma Reflects16()
    ensures Reflects(CRC16_POLY, 16, Generator16())
  {
    hide LowBits;
    Widths();
    MaskList16();
    FourBits(0xa001, 16);
    FourBits(0xa00, 12);
    FourBits(0xa0, 8);
    FourBits(0xa, 4);
    assert LowBits(0xa001, 16) == [1, 0, 0, 0, 0, 0, 0, 0, 0, 0, 0, 0, 0, 1, 0, 1] + LowBits(0, 0);
  }

  function Mask32(): seq<bit> {
    [0, 0, 0, 0, 0, 1, 0, 0, 1, 1, 0, 0, 0, 0, 0, 1] + [0, 0, 0, 1, 1, 1, 0, 1, 1, 0, 1, 1, 0, 1, 1, 1]
  }

  lemma MaskList32()
    ensures Generator32()[1..] == Mask32()
  {
  }

  lemma MaskHigh32()
    ensures LowBits(0xedb8, 16) == [0, 0, 0, 1, 1, 1, 0, 1, 1, 0, 1, 1, 0, 1, 1, 1]
  {
    hide LowBits;
    FourBits(0xedb8, 16);
    FourBits(0xedb, 12);
    FourBits(0xed, 8);
    FourBits(0xe, 4);
    assert LowBits(0xedb8, 16) == [0, 0, 0, 1, 1, 1, 0, 1, 1, 0, 1, 1, 0, 1, 1, 1] + LowBits(0, 0);
  }

  lemma MaskBits32()
    ensures LowBits(CRC32_POLY, 32) == Mask32()
  {
    hide LowBits;
    FourBits(0xedb88320, 32);
    FourBits(0xedb8832, 28);
    FourBits(0xedb883, 24);
    FourBits(0xedb88, 20);
    MaskHigh32();
    assert LowBits(0xedb88320, 32) == [0, 0, 0, 0, 0, 1, 0, 0, 1, 1, 0, 0, 0, 0, 0, 1] + LowBits(0xedb8, 16);
  }

  lemma Reflects32()
    ensures Reflects(CRC32_POLY, 32, Generator32())
  {
    hide LowBits;
    Widths();
    MaskBits32();
    MaskList32();
  }

  lemma {:induction false} AllOnes(w: nat)
    ensures Pow2(w) > 0 && LowBits(Pow2(w) - 1, w) == Ones(w)
  {
    if w > 0 {
      AllOnes(w - 1);
      assert (Pow2(w) - 1) / 2 == Pow2(w - 1) - 1 && (Pow2(w) - 1) % 2 == 1;
    }
  }

  /** Main result: the Modbus check is the remainder, low bit first, of the message's bits as they travel,
      the first sixteen inverted and sixteen zeros behind, on division by the generator. */
  lemma Crc16Divides(bytes: seq<byte>)
    ensures LowBits(Crc16(bytes), 16) == Remainder(Dividend(Ones(16), WireBits(bytes)), Generator16())
  {
    hide Absorb, Feed, LowBits, WireBits, Remainder, Polynomial;
    Widths();
    Reflects16();
    AllOnes(16);
    AbsorbFeeds(CRC16_POLY, 0xffff, bytes);
    FeedDivides(CRC16_POLY, 16, Generator16(), 0xffff, WireBits(bytes));
  }

  /** Main result: the other check is the same with its own generator and 32 bits, inverted at the end. */
  lemma Crc32Divides(bytes: seq<byte>)
    ensures LowBits(Crc32(bytes), 32) ==
            XorBits(Remainder(Dividend(Ones(32), WireBits(bytes)), Generator32()), Ones(32))
  {
    hide Absorb, Feed, LowBits, WireBits, Remainder, Polynomial, Xor;
    Widths();
    Reflects32();
    AllOnes(32);
    AbsorbFeeds(CRC32_POLY, 0xffffffff, bytes);
    FeedDivides(CRC32_POLY, 32, Generator32(), 0xffffffff, WireBits(bytes));
    XorAdds(Absorb(CRC32_POLY, 0xffffffff, bytes), 0xffffffff, 32);
  }
}
