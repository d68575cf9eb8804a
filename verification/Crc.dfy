/** The bitwise cyclic redundancy checks: the loops that compute them, and the algebra that says
    which transmission errors the Modbus check always catches. */
module Crc {
  import opened Bytes

  // ---- Exclusive or on unsigned numbers --------------------------------------------------

  function Xor(a: nat, b: nat): nat
    decreases a + b
  {
    if a == 0 && b == 0 then 0 else (a + b) % 2 + 2 * Xor(a / 2, b / 2)
  }

  function Pow2(n: nat): nat { if n == 0 then 1 else 2 * Pow2(n - 1) }

  lemma XorIsParts(a: nat, b: nat)
    ensures Xor(a, b) == (a + b) % 2 + 2 * Xor(a / 2, b / 2)
  {
  }

  lemma PartsOf(low: nat, rest: nat)
    requires low < 2
    ensures (low + 2 * rest) % 2 == low && (low + 2 * rest) / 2 == rest
  {
  }

  lemma XorHalves(a: nat, b: nat)
    ensures Xor(a, b) % 2 == (a + b) % 2 && Xor(a, b) / 2 == Xor(a / 2, b / 2)
  {
    hide Xor;
    XorIsParts(a, b);
    PartsOf((a + b) % 2, Xor(a / 2, b / 2));
  }

  lemma {:induction false} XorZero(a: nat)
    ensures Xor(a, 0) == a && Xor(0, a) == a && Xor(a, a) == 0
  {
    if a > 0 { XorZero(a / 2); }
  }

  lemma {:induction false} XorCommutes(a: nat, b: nat)
    ensures Xor(a, b) == Xor(b, a)
    decreases a + b
  {
    if a + b > 0 { XorCommutes(a / 2, b / 2); }
  }

  lemma {:induction false} XorAssociates(a: nat, b: nat, c: nat)
    ensures Xor(Xor(a, b), c) == Xor(a, Xor(b, c))
    decreases a + b + c
  {
    if a + b + c > 0 {
      XorAssociates(a / 2, b / 2, c / 2);
      AssociatesUp(a, b, c);
    }
  }

  lemma AssociatesUp(a: nat, b: nat, c: nat)
    requires Xor(Xor(a / 2, b / 2), c / 2) == Xor(a / 2, Xor(b / 2, c / 2))
    ensures Xor(Xor(a, b), c) == Xor(a, Xor(b, c))
  {
    hide Xor;
    var ab, bc := Xor(a, b), Xor(b, c);
    XorHalves(a, b);
    XorHalves(b, c);
    XorHalves(ab, c);
    XorHalves(a, bc);
    ParityAssociates(a, b, c, ab, bc);
    SameHalves(Xor(ab, c), Xor(a, bc));
  }

  lemma SameHalves(x: nat, y: nat)
    requires x % 2 == y % 2 && x / 2 == y / 2
    ensures x == y
  {
  }

  lemma ParityAssociates(a: nat, b: nat, c: nat, ab: nat, bc: nat)
    requires ab % 2 == (a + b) % 2 && bc % 2 == (b + c) % 2
    ensures (ab + c) % 2 == (a + bc) % 2
  {
  }

  lemma {:induction false} XorCancels(a: nat, b: nat)
    ensures Xor(a, b) == 0 <==> a == b
    decreases a + b
  {
    if a + b > 0 { XorCancels(a / 2, b / 2); }
  }

  lemma {:induction false} XorBelow(a: nat, b: nat, n: nat)
    requires a < Pow2(n) && b < Pow2(n)
    ensures Xor(a, b) < Pow2(n)
  {
    if n > 0 && a + b > 0 { XorBelow(a / 2, b / 2, n - 1); }
  }

  /** (a ^ b) ^ (c ^ d) == (a ^ c) ^ (b ^ d) */
  lemma XorExchange(a: nat, b: nat, c: nat, d: nat)
    ensures Xor(Xor(a, b), Xor(c, d)) == Xor(Xor(a, c), Xor(b, d))
  {
    XorAssociates(a, b, Xor(c, d));
    XorAssociates(b, c, d);
    XorCommutes(b, c);
    XorAssociates(c, b, d);
    XorAssociates(a, c, Xor(b, d));
  }

  // ---- The registers ---------------------------------------------------------------------

  const CRC16_POLY: nat := 0xa001
  const CRC32_POLY: nat := 0xedb88320

  /** One shift of the register, feeding back when the low bit falls out. */
  function Shift(poly: nat, r: nat): nat { if r % 2 == 1 then Xor(r / 2, poly) else r / 2 }

  function ShiftN(poly: nat, r: nat, n: nat): nat
    decreases n
  {
    if n == 0 then r else ShiftN(poly, Shift(poly, r), n - 1)
  }

  function Absorb(poly: nat, r: nat, bytes: seq<byte>): nat {
    if bytes == [] then r
    else ShiftN(poly, Xor(Absorb(poly, r, bytes[..|bytes| - 1]), bytes[|bytes| - 1]), 8)
  }

  /** The checksum appended to a Modbus RTU frame. */
  function Crc16(bytes: seq<byte>): nat { Absorb(CRC16_POLY, 0xffff, bytes) }

  function Crc32(bytes: seq<byte>): nat { Xor(Absorb(CRC32_POLY, 0xffffffff, bytes), 0xffffffff) }

  /** A register as wide as its polynomial: the top bit of the polynomial is set. */
  predicate Width(poly: nat, w: nat) { w > 0 && Pow2(w - 1) <= poly < Pow2(w) }

  lemma Widths()
    ensures Width(CRC16_POLY, 16) && Width(CRC32_POLY, 32)
    ensures Pow2(8) == 256 && Pow2(16) == 0x10000 && Pow2(32) == 0x100000000
  {
    assert Pow2(8) == 256;
    assert Pow2(16) == 0x10000;
    assert Pow2(24) == 0x1000000;
    assert Pow2(32) == 0x100000000;
  }

  lemma {:induction false} Pow2Grows(m: nat, n: nat)
    requires m <= n
    ensures Pow2(m) <= Pow2(n)
    decreases n
  {
    if m < n { Pow2Grows(m, n - 1); }
  }

  lemma ShiftFits(poly: nat, w: nat, r: nat)
    requires Width(poly, w) && r < Pow2(w)
    ensures Shift(poly, r) < Pow2(w)
  {
    if r % 2 == 1 { XorBelow(r / 2, poly, w); }
  }

  lemma {:induction false} ShiftNFits(poly: nat, w: nat, r: nat, n: nat)
    requires Width(poly, w) && r < Pow2(w)
    ensures ShiftN(poly, r, n) < Pow2(w)
    decreases n
  {
    if n > 0 {
      ShiftFits(poly, w, r);
      ShiftNFits(poly, w, Shift(poly, r), n - 1);
    }
  }

  lemma {:induction false} AbsorbFits(poly: nat, w: nat, r: nat, bytes: seq<byte>)
    requires Width(poly, w) && w >= 8 && r < Pow2(w)
    ensures Absorb(poly, r, bytes) < Pow2(w)
    decreases |bytes|
  {
    if bytes != [] {
      var init, b := bytes[..|bytes| - 1], bytes[|bytes| - 1];
      AbsorbFits(poly, w, r, init);
      Widths();
      Pow2Grows(8, w);
      XorBelow(Absorb(poly, r, init), b, w);
      ShiftNFits(poly, w, Xor(Absorb(poly, r, init), b), 8);
    }
  }

  lemma {:induction false} ShiftNMore(poly: nat, r: nat, n: nat)
    ensures ShiftN(poly, r, n + 1) == Shift(poly, ShiftN(poly, r, n))
    decreases n
  {
    if n > 0 { ShiftNMore(poly, Shift(poly, r), n - 1); }
  }

  /** byte_data_crc16_modbus. */
  method ComputeCrc16(bytes: array<byte>, length: nat) returns (crc: nat)
    requires length <= bytes.Length
    ensures crc == Crc16(bytes[..length]) && crc < 0x10000
  {
    Widths();
    crc := 0xffff;
    for i := 0 to length
      invariant crc == Crc16(bytes[..i]) && crc < 0x10000
    {
      assert bytes[..i + 1][..i] == bytes[..i];
      XorBelow(crc, bytes[i], 16);
      crc := Xor(crc, bytes[i]);
      ghost var start := crc;
      for bit := 0 to 8
        invariant crc == ShiftN(CRC16_POLY, start, bit) && crc < 0x10000
      {
        ShiftNMore(CRC16_POLY, start, bit);
        ShiftFits(CRC16_POLY, 16, crc);
        crc := Xor(crc / 2, if crc % 2 == 1 then CRC16_POLY else 0);
        XorZero(ShiftN(CRC16_POLY, start, bit) / 2);
      }
    }
    assert bytes[..length] == bytes[..length];
  }

  // ---- The shift is linear and loses nothing ---------------------------------------------

  lemma ShiftLinear(poly: nat, a: nat, b: nat)
    ensures Shift(poly, Xor(a, b)) == Xor(Shift(poly, a), Shift(poly, b))
  {
    hide Xor;
    XorHalves(a, b);
    var x, y := a / 2, b / 2;
    if a % 2 == 1 && b % 2 == 1 {
      XorExchange(x, poly, y, poly);
      XorZero(poly);
      XorZero(Xor(x, y));
    } else if a % 2 == 1 {
      XorAssociates(x, poly, y);
      XorCommutes(poly, y);
      XorAssociates(x, y, poly);
    } else {
      XorAssociates(x, y, poly);
    }
  }

  lemma ShiftKeepsNonzero(poly: nat, w: nat, r: nat)
    requires Width(poly, w) && 0 < r < Pow2(w)
    ensures 0 < Shift(poly, r) < Pow2(w)
  {
    ShiftFits(poly, w, r);
    if r % 2 == 1 { XorCancels(r / 2, poly); }
  }

  lemma {:induction false} ShiftNKeepsNonzero(poly: nat, w: nat, r: nat, n: nat)
    requires Width(poly, w) && 0 < r < Pow2(w)
    ensures 0 < ShiftN(poly, r, n) < Pow2(w)
    decreases n
  {
    if n > 0 {
      ShiftKeepsNonzero(poly, w, r);
      ShiftNKeepsNonzero(poly, w, Shift(poly, r), n - 1);
    }
  }

  lemma {:induction false} ShiftNZero(poly: nat, n: nat)
    ensures ShiftN(poly, 0, n) == 0
  {
    if n > 0 { ShiftNZero(poly, n - 1); }
  }

  // ---- Bits in the order they travel: least significant first ----------------------------

  type bit = x: int | 0 <= x < 2

  function Zeros(n: nat): (s: seq<bit>)
    ensures |s| == n && forall i :: 0 <= i < n ==> s[i] == 0
  {
    seq(n, _ => 0)
  }

  function LowBits(v: nat, n: nat): (s: seq<bit>)
    ensures |s| == n
  {
    if n == 0 then [] else [v % 2] + LowBits(v / 2, n - 1)
  }

  function Pack(bits: seq<bit>): nat { if bits == [] then 0 else bits[0] + 2 * Pack(bits[1..]) }

  function WireBits(bytes: seq<byte>): (s: seq<bit>)
    ensures |s| == 8 * |bytes|
  {
    if bytes == [] then [] else WireBits(bytes[..|bytes| - 1]) + LowBits(bytes[|bytes| - 1], 8)
  }

  function Feed(poly: nat, r: nat, bits: seq<bit>): nat
    decreases |bits|
  {
    if bits == [] then r else Feed(poly, Shift(poly, Xor(r, bits[0])), bits[1..])
  }

  lemma {:induction false} FeedAppends(poly: nat, r: nat, s: seq<bit>, t: seq<bit>)
    ensures Feed(poly, r, s + t) == Feed(poly, Feed(poly, r, s), t)
    decreases |s|
  {
    if s == [] {
      assert s + t == t;
    } else {
      assert (s + t)[1..] == s[1..] + t;
      FeedAppends(poly, Shift(poly, Xor(r, s[0])), s[1..], t);
    }
  }

  lemma {:induction false} PackBits(bits: seq<bit>)
    ensures Pack(bits) < Pow2(|bits|) && LowBits(Pack(bits), |bits|) == bits
    decreases |bits|
  {
    if bits != [] {
      PackBits(bits[1..]);
      assert Pack(bits) / 2 == Pack(bits[1..]) && Pack(bits) % 2 == bits[0];
      assert bits == [bits[0]] + bits[1..];
    }
  }

  /** Feeding up to a register's worth of bits is shifting their packed value in at once. */
  lemma {:induction false} FeedPacked(poly: nat, r: nat, v: nat, n: nat)
    requires v < Pow2(n)
    ensures Feed(poly, r, LowBits(v, n)) == ShiftN(poly, Xor(r, v), n)
    decreases n
  {
    if n == 0 {
      XorZero(r);
    } else {
      FeedPacked(poly, Shift(poly, Xor(r, v % 2)), v / 2, n - 1);
      assert LowBits(v, n)[1..] == LowBits(v / 2, n - 1);
      ShiftLowBit(poly, r, v);
    }
  }

  lemma XorParts(v: nat)
    ensures Xor(v % 2, 2 * (v / 2)) == v
  {
    hide Xor;
    var low, high := v % 2, 2 * (v / 2);
    XorHalves(low, high);
    XorZero(v / 2);
    SameHalves(Xor(low, high), v);
  }

  /** Shifting after the low bit is added leaves the others where the next bits will be added. */
  lemma ShiftLowBit(poly: nat, r: nat, v: nat)
    ensures Shift(poly, Xor(r, v)) == Xor(Shift(poly, Xor(r, v % 2)), v / 2)
  {
    var low, high := v % 2, 2 * (v / 2);
    hide Xor;
    XorParts(v);
    XorAssociates(r, low, high);
    ShiftLinear(poly, Xor(r, low), high);
    assert Shift(poly, high) == v / 2;
  }

  lemma {:induction false} AbsorbFeeds(poly: nat, r: nat, bytes: seq<byte>)
    ensures Absorb(poly, r, bytes) == Feed(poly, r, WireBits(bytes))
    decreases |bytes|
  {
    if bytes != [] {
      var init, b := bytes[..|bytes| - 1], bytes[|bytes| - 1];
      AbsorbFeeds(poly, r, init);
      FeedAppends(poly, r, WireBits(init), LowBits(b, 8));
      Widths();
      FeedPacked(poly, Absorb(poly, r, init), b, 8);
    }
  }

  function XorBits(s: seq<bit>, t: seq<bit>): (u: seq<bit>)
    requires |s| == |t|
    ensures |u| == |s| && forall i :: 0 <= i < |s| ==> u[i] == if s[i] == t[i] then 0 else 1
  {
    seq(|s|, i requires 0 <= i < |s| => if s[i] == t[i] then 0 else 1)
  }

  lemma {:induction false} FeedLinear(poly: nat, a: nat, b: nat, s: seq<bit>, t: seq<bit>)
    requires |s| == |t|
    ensures Feed(poly, Xor(a, b), XorBits(s, t)) == Xor(Feed(poly, a, s), Feed(poly, b, t))
    decreases |s|
  {
    if s != [] {
      var u := XorBits(s, t);
      assert u[1..] == XorBits(s[1..], t[1..]);
      assert u[0] == Xor(s[0], t[0]);
      XorExchange(a, b, s[0], t[0]);
      ShiftLinear(poly, Xor(a, s[0]), Xor(b, t[0]));
      FeedLinear(poly, Shift(poly, Xor(a, s[0])), Shift(poly, Xor(b, t[0])), s[1..], t[1..]);
    }
  }

  lemma {:induction false} FeedSilence(poly: nat, r: nat, bits: seq<bit>)
    requires forall i :: 0 <= i < |bits| ==> bits[i] == 0
    ensures Feed(poly, r, bits) == ShiftN(poly, r, |bits|)
    decreases |bits|
  {
    if bits != [] {
      XorZero(r);
      FeedSilence(poly, Shift(poly, r), bits[1..]);
    }
  }

  // ---- Which altered frames are caught ---------------------------------------------------

  /** The frames differ, and only within `width` consecutive bits on the wire. */
  predicate BurstApart(f: seq<byte>, g: seq<byte>, start: nat, width: nat) {
    && |f| == |g| && f != g
    && forall k :: 0 <= k < 8 * |f| && !(start <= k < start + width) ==> WireBits(f)[k] == WireBits(g)[k]
  }

  lemma {:induction false} LowBitsInjective(v: nat, u: nat, n: nat)
    requires v < Pow2(n) && u < Pow2(n) && LowBits(v, n) == LowBits(u, n)
    ensures v == u
  {
    if n > 0 {
      assert LowBits(v, n)[0] == v % 2 && LowBits(u, n)[0] == u % 2;
      assert LowBits(v, n)[1..] == LowBits(v / 2, n - 1) && LowBits(u, n)[1..] == LowBits(u / 2, n - 1);
      LowBitsInjective(v / 2, u / 2, n - 1);
    }
  }

  lemma {:induction false} WireBitsInjective(f: seq<byte>, g: seq<byte>)
    requires |f| == |g| && WireBits(f) == WireBits(g)
    ensures f == g
    decreases |f|
  {
    if f != [] {
      var n := |f| - 1;
      var a, b := WireBits(f[..n]), WireBits(g[..n]);
      assert WireBits(f)[..8 * n] == a && WireBits(g)[..8 * n] == b;
      assert WireBits(f)[8 * n..] == LowBits(f[n], 8) && WireBits(g)[8 * n..] == LowBits(g[n], 8);
      Widths();
      LowBitsInjective(f[n], g[n], 8);
      WireBitsInjective(f[..n], g[..n]);
      assert f == f[..n] + [f[n]] && g == g[..n] + [g[n]];
    }
  }

  lemma BurstAlone(poly: nat, w: nat, burst: seq<bit>, k: nat)
    requires Width(poly, w) && |burst| <= w && k < |burst| && burst[k] != 0
    ensures 0 < Feed(poly, 0, burst) < Pow2(w)
  {
    hide Xor, ShiftN, Shift, Feed, Pack;
    PackBits(burst);
    FeedPacked(poly, 0, Pack(burst), |burst|);
    XorZero(Pack(burst));
    PackNonzero(burst, k);
    Pow2Grows(|burst|, w);
    ShiftNKeepsNonzero(poly, w, Pack(burst), |burst|);
  }

  predicate Silent(bits: seq<bit>) { forall i :: 0 <= i < |bits| ==> bits[i] == 0 }

  lemma BurstBetween(poly: nat, w: nat, before: seq<bit>, burst: seq<bit>, after: seq<bit>, k: nat)
    requires Width(poly, w) && Silent(before) && Silent(after) && |burst| <= w && k < |burst| && burst[k] != 0
    ensures Feed(poly, 0, before + (burst + after)) != 0
  {
    hide Width, Xor, ShiftN, Shift, Feed;
    FeedSilence(poly, 0, before);
    ShiftNZero(poly, |before|);
    FeedAppends(poly, 0, before, burst + after);
    FeedAppends(poly, 0, burst, after);
    BurstAlone(poly, w, burst, k);
    FeedSilence(poly, Feed(poly, 0, burst), after);
    ShiftNKeepsNonzero(poly, w, Feed(poly, 0, burst), |after|);
  }

  /** A nonzero pattern confined to a register's width never cancels itself out. */
  lemma BurstShows(poly: nat, w: nat, e: seq<bit>, start: nat)
    requires Width(poly, w)
    requires exists k :: 0 <= k < |e| && e[k] != 0
    requires forall k :: 0 <= k < |e| && e[k] != 0 ==> start <= k < start + w
    ensures Feed(poly, 0, e) != 0
  {
    hide Width, Feed;
    var k :| 0 <= k < |e| && e[k] != 0;
    var end := Min(start + w, |e|);
    assert Silent(e[..start]) && Silent(e[end..]) && e[start..end][k - start] != 0;
    hide Silent;
    BurstBetween(poly, w, e[..start], e[start..end], e[end..], k - start);
    assert e == e[..start] + (e[start..end] + e[end..]);
  }

  lemma {:induction false} PackNonzero(bits: seq<bit>, k: nat)
    requires k < |bits| && bits[k] != 0
    ensures Pack(bits) > 0
    decreases |bits|
  {
    if k > 0 { PackNonzero(bits[1..], k - 1); }
  }

  /** Two frames that differ in a single burst no wider than the register have different
      residues, from any starting value. */
  lemma BurstChangesResidue(poly: nat, w: nat, r: nat, f: seq<byte>, g: seq<byte>, start: nat)
    requires Width(poly, w) && BurstApart(f, g, start, w)
    ensures Absorb(poly, r, f) != Absorb(poly, r, g)
  {
    var s, t := WireBits(f), WireBits(g);
    var e := XorBits(s, t);
    hide Xor, Feed, Absorb, WireBits;
    AbsorbFeeds(poly, r, f);
    AbsorbFeeds(poly, r, g);
    FeedLinear(poly, r, r, s, t);
    XorZero(r);
    if forall k :: 0 <= k < |e| ==> e[k] == 0 {
      assert s == t;
      WireBitsInjective(f, g);
    }
    BurstShows(poly, w, e, start);
    XorCancels(Feed(poly, r, s), Feed(poly, r, t));
  }

  /** Two more bytes are sixteen shifts of what they leave of the register. */
  lemma TrailerShifts(body: seq<byte>, low: byte, high: byte)
    ensures Crc16(body + [low, high]) == ShiftN(CRC16_POLY, Xor(Crc16(body), low + 256 * high), 16)
  {
    hide Absorb, Feed, ShiftN, LowBits, WireBits, Xor;
    var c, t: nat := Crc16(body), low + 256 * high;
    AbsorbTwo(c, body, low, high);
    AbsorbFeeds(CRC16_POLY, c, [low, high]);
    WireBitsTwo(low, high);
    Widths();
    SplitBits(low, high, 8, 8);
    ScaledByte(high);
    FeedPacked(CRC16_POLY, c, t, 16);
  }

  /** Appending a register's value low byte first leaves a zero residue, and nothing else does. */
  lemma ResidueIsTrailer(body: seq<byte>, low: byte, high: byte)
    ensures Crc16(body + [low, high]) == 0 <==> Crc16(body) == low + 256 * high
  {
    hide Absorb, ShiftN, Xor, Crc16;
    var c, t := Crc16(body), low + 256 * high;
    TrailerShifts(body, low, high);
    assert c < Pow2(16) && t < Pow2(16) by { Crc16Bounded(body); Widths(); }
    Widths();
    XorBelow(c, t, 16);
    XorCancels(c, t);
    if c != t { ShiftNKeepsNonzero(CRC16_POLY, 16, Xor(c, t), 16); } else { ShiftNZero(CRC16_POLY, 16); }
  }

  lemma Crc16Bounded(body: seq<byte>)
    ensures Crc16(body) < Pow2(16)
  {
    hide Absorb;
    Widths();
    AbsorbFits(CRC16_POLY, 16, 0xffff, body);
  }

  lemma WireBitsTwo(low: byte, high: byte)
    ensures WireBits([low, high]) == LowBits(low, 8) + LowBits(high, 8)
  {
    hide LowBits;
    assert [low, high][..1] == [low] && [low][..0] == [];
    assert WireBits([low]) == LowBits(low, 8);
  }

  lemma AbsorbTwo(c: nat, body: seq<byte>, low: byte, high: byte)
    requires c == Crc16(body)
    ensures Crc16(body + [low, high]) == Absorb(CRC16_POLY, c, [low, high])
  {
    var frame := body + [low, high];
    assert frame[..|frame| - 1] == body + [low] && (body + [low])[..|body|] == body;
    assert [low, high][..1] == [low] && [low][..0] == [];
    assert Absorb(CRC16_POLY, c, [low]) == ShiftN(CRC16_POLY, Xor(c, low), 8);
    assert Crc16(body + [low]) == ShiftN(CRC16_POLY, Xor(c, low), 8);
  }

  /** A value shifted up. */
  function Scaled(v: nat, n: nat): nat { if n == 0 then v else 2 * Scaled(v, n - 1) }

  lemma ScaledByte(v: nat)
    ensures Scaled(v, 8) == 256 * v
  {
    assert Scaled(v, 1) == 2 * v;
    assert Scaled(v, 2) == 4 * v;
    assert Scaled(v, 3) == 8 * v;
    assert Scaled(v, 4) == 16 * v;
    assert Scaled(v, 5) == 32 * v;
    assert Scaled(v, 6) == 64 * v;
    assert Scaled(v, 7) == 128 * v;
  }

  lemma Halved(low: nat, x: nat)
    ensures (low + 2 * x) % 2 == low % 2 && (low + 2 * x) / 2 == low / 2 + x
  {
  }

  lemma {:induction false} SplitBits(low: nat, high: nat, n: nat, m: nat)
    requires low < Pow2(n)
    ensures LowBits(low, n) + LowBits(high, m) == LowBits(low + Scaled(high, n), n + m)
  {
    if n > 0 {
      var l, h, x := LowBits(low / 2, n - 1), LowBits(high, m), Scaled(high, n - 1);
      SplitBits(low / 2, high, n - 1, m);
      Halved(low, x);
      assert LowBits(low + 2 * x, n + m) == [low % 2] + (l + h);
    }
  }
}
