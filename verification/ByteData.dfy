/** The byte laboratory: hexadecimal and ASCII input, checksums and integer views of a payload, the
    decimal encoder, and the byte clipboard with its hexadecimal printer. Texts are character codes
    without a terminating zero. */
module ByteData {
  import opened Bytes
  import opened Crc

  const MAX_BYTES: nat := 128
  const MAX_TEXT: nat := 512
  const MAX_NUMBER: nat := 32

  datatype Status =
    Ok | BadHex | OddHex | NonAscii | TooManyBytes | TextTooLong | BadNumber | NumberRange | NumberTooLong

  /** A binary32 number: a finite one is its significand times two to its exponent. */
  datatype Float = NaN | Infinite(negative: bool) | Finite(negative: bool, significand: nat, exponent: int)

  const ZERO: Float := Finite(false, 0, -149)

  /** A payload with its checksums and numeric interpretations. */
  datatype Data = Data(
    bytes: seq<byte>, sum8: byte, xor8: nat, crc16: nat, crc32: nat,
    little: nat, big: nat, signedLittle: int, signedBig: int, floatLittle: Float, floatBig: Float)

  const CLEARED: Data := Data([], 0, 0, 0, 0, 0, 0, 0, 0, ZERO, ZERO)

  // ---- Interpretations of a payload --------------------------------------------------------

  function Sum(bytes: seq<byte>): nat { if bytes == [] then 0 else Sum(bytes[..|bytes| - 1]) + bytes[|bytes| - 1] }

  function Parity(bytes: seq<byte>): nat {
    if bytes == [] then 0 else Xor(Parity(bytes[..|bytes| - 1]), bytes[|bytes| - 1])
  }

  function BigValue(bytes: seq<byte>): nat {
    if bytes == [] then 0 else 256 * BigValue(bytes[..|bytes| - 1]) + bytes[|bytes| - 1]
  }

  function LittleValue(bytes: seq<byte>): nat { if bytes == [] then 0 else bytes[0] + 256 * LittleValue(bytes[1..]) }

  /** Two's complement: the representative of value modulo 2^bits closest below 2^(bits-1). */
  function SignedValue(value: nat, bits: nat): (r: int)
    requires bits > 0 && value < Pow2(bits)
    ensures 0 - Pow2(bits - 1) <= r < Pow2(bits - 1)
    ensures r == value || r == value - Pow2(bits)
  {
    if value >= Pow2(bits - 1) then value - Pow2(bits) else value
  }

  predicate Integral(n: nat) { n == 1 || n == 2 || n == 4 }

  lemma {:induction false} ValuesFit(bytes: seq<byte>)
    ensures BigValue(bytes) < Pow2(8 * |bytes|) && LittleValue(bytes) < Pow2(8 * |bytes|)
    decreases |bytes|
  {
    if bytes != [] {
      var n := |bytes| - 1;
      ValuesFit(bytes[..n]);
      ValuesFit(bytes[1..]);
      Pow2Byte(8 * n);
    }
  }

  lemma Pow2Byte(n: nat)
    ensures Pow2(n + 8) == 256 * Pow2(n)
  {
    assert Pow2(n + 8) == 2 * Pow2(n + 7) && Pow2(n + 7) == 2 * Pow2(n + 6) && Pow2(n + 6) == 2 * Pow2(n + 5);
    assert Pow2(n + 5) == 2 * Pow2(n + 4) && Pow2(n + 4) == 2 * Pow2(n + 3) && Pow2(n + 3) == 2 * Pow2(n + 2);
    assert Pow2(n + 2) == 2 * Pow2(n + 1) && Pow2(n + 1) == 2 * Pow2(n);
  }

  /** byte_data_float32, exact: every finite result fits a binary64. */
  function Binary32(bits: nat): (f: Float)
    ensures f.Finite? ==> f.significand < 0x1000000 && -149 <= f.exponent <= 104
    ensures f.Finite? ==> f.exponent == -149 || f.significand >= 0x800000
  {
    var exponent, fraction := bits / 0x800000 % 256, bits % 0x800000;
    var negative := bits / 0x80000000 % 2 == 1;
    if exponent == 255 then if fraction != 0 then NaN else Infinite(negative)
    else
      Finite(negative, if exponent != 0 then fraction + 0x800000 else fraction,
             if exponent != 0 then exponent - 150 else -149)
  }

  /** Sign, exponent and fraction apart (IEEE 754 binary32): infinities and undefined numbers at the top
      exponent, no hidden bit at the bottom one. */
  lemma BinaryParts(sign: nat, exponent: nat, fraction: nat)
    requires sign < 2 && exponent < 256 && fraction < 0x800000
    ensures Binary32(0x80000000 * sign + 0x800000 * exponent + fraction) ==
            if exponent == 255 then if fraction == 0 then Infinite(sign == 1) else NaN
            else if exponent == 0 then Finite(sign == 1, fraction, -149)
            else Finite(sign == 1, 0x800000 + fraction, exponent - 150)
  {
    var high := 256 * sign + exponent;
    var bits := 0x80000000 * sign + 0x800000 * exponent + fraction;
    assert bits == 0x800000 * high + fraction;
    assert bits / 0x800000 == high && bits % 0x800000 == fraction;
    assert high % 256 == exponent && bits / 0x80000000 == sign;
  }

  /** The twenty-two hexadecimal digits, and no others. */
  lemma HexDigitsAre(b: byte)
    ensures HexNibble(b).Some? <==> exists i :: 0 <= i < 16 && IsHexDigit(b, i)
    ensures forall i :: 0 <= i < 16 && IsHexDigit(b, i) ==> HexNibble(b) == Some(i)
  {
    if HexNibble(b).Some? { assert IsHexDigit(b, HexNibble(b).value); }
  }

  /** Written with upper- or lower-case letters. */
  predicate IsHexDigit(b: byte, i: nat)
    requires i < 16
  {
    b == "0123456789ABCDEF"[i] as int || b == "0123456789abcdef"[i] as int
  }

  /** Two different patterns are never read as the same number. */
  lemma FloatsDistinct(a: nat, b: nat)
    requires a < 0x100000000 && b < 0x100000000 && Binary32(a) == Binary32(b) && !Binary32(a).NaN?
    ensures a == b
  {
    FloatFields(a);
    FloatFields(b);
  }

  lemma FloatFields(bits: nat)
    requires bits < 0x100000000
    ensures bits == bits / 0x80000000 % 2 * 0x80000000 + bits / 0x800000 % 256 * 0x800000 + bits % 0x800000
  {
    var q := bits / 0x800000;
    assert bits == 0x800000 * q + bits % 0x800000;
    assert q == 256 * (q / 256) + q % 256 && q / 256 == bits / 0x80000000;
  }

  function Interpreted(bytes: seq<byte>): Data {
    var n := |bytes|;
    ValuesFit(bytes);
    Data(bytes, Sum(bytes) % 256, Parity(bytes), Crc16(bytes), Crc32(bytes),
         if Integral(n) then LittleValue(bytes) else 0, if Integral(n) then BigValue(bytes) else 0,
         if Integral(n) then SignedValue(LittleValue(bytes), 8 * n) else 0,
         if Integral(n) then SignedValue(BigValue(bytes), 8 * n) else 0,
         if n == 4 then Binary32(LittleValue(bytes)) else ZERO, if n == 4 then Binary32(BigValue(bytes)) else ZERO)
  }

  lemma {:induction false} LittleAppends(s: seq<byte>, b: byte)
    ensures LittleValue(s + [b]) == LittleValue(s) + Pow2(8 * |s|) * b
    decreases |s|
  {
    if s == [] {
      assert [b][1..] == [];
      assert LittleValue(s + [b]) == b;
    } else {
      assert (s + [b])[1..] == s[1..] + [b];
      LittleAppends(s[1..], b);
      Pow2Byte(8 * (|s| - 1));
      assert 256 * (Pow2(8 * (|s| - 1)) * b) == Pow2(8 * |s|) * b;
    }
  }

  /** The inner loop of the 32-bit check. */
  method AbsorbOctet(crc: nat, value: byte) returns (next: nat)
    ensures next == ShiftN(CRC32_POLY, Xor(crc, value), 8)
  {
    next := Xor(crc, value);
    ghost var start := next;
    for bit := 0 to 8
      invariant next == ShiftN(CRC32_POLY, start, bit)
    {
      ShiftNMore(CRC32_POLY, start, bit);
      XorZero(next / 2);
      next := Xor(next / 2, if next % 2 == 1 then CRC32_POLY else 0);
    }
  }

  /** Accumulates both byte orders. */
  method IntegerViews(bytes: array<byte>, length: nat) returns (big: nat, little: nat)
    requires length <= bytes.Length
    ensures big == BigValue(bytes[..length]) && little == LittleValue(bytes[..length])
  {
    hide Pow2, LittleValue;
    big, little := 0, 0;
    var place: nat := 1;
    Beginnings();
    for i := 0 to length
      invariant big == BigValue(bytes[..i]) && little == LittleValue(bytes[..i]) && place == Pow2(8 * i)
    {
      assert bytes[..i + 1][..i] == bytes[..i] && bytes[..i + 1] == bytes[..i] + [bytes[i]];
      LittleAppends(bytes[..i], bytes[i]);
      Pow2Byte(8 * i);
      big := 256 * big + bytes[i];
      little := little + place * bytes[i];
      place := 256 * place;
    }
  }

  lemma Beginnings()
    ensures LittleValue([]) == 0 && Pow2(0) == 1
  {
  }

  /** calculate. */
  method Calculate(bytes: array<byte>, length: nat) returns (data: Data)
    requires length <= bytes.Length
    ensures data == Interpreted(bytes[..length])
  {
    hide Pow2, Crc16, ShiftN, Xor, Binary32;
    var sum8: nat := 0;
    var xor8, crc32 := 0, 0xffffffff;
    for i := 0 to length
      invariant sum8 == Sum(bytes[..i]) % 256 && xor8 == Parity(bytes[..i])
      invariant crc32 == Absorb(CRC32_POLY, 0xffffffff, bytes[..i])
    {
      assert bytes[..i + 1][..i] == bytes[..i];
      sum8 := (sum8 + bytes[i]) % 256;
      xor8 := Xor(xor8, bytes[i]);
      crc32 := AbsorbOctet(crc32, bytes[i]);
    }
    var crc16 := ComputeCrc16(bytes, length);
    var big, little, signedBig, signedLittle := 0, 0, 0, 0;
    var floatBig, floatLittle := ZERO, ZERO;
    if length == 1 || length == 2 || length == 4 {
      big, little := IntegerViews(bytes, length);
      ValuesFit(bytes[..length]);
      signedBig, signedLittle := SignedValue(big, 8 * length), SignedValue(little, 8 * length);
      if length == 4 { floatBig, floatLittle := Binary32(big), Binary32(little); }
    }
    data := Data(bytes[..length], sum8, xor8, crc16, Xor(crc32, 0xffffffff), little, big, signedLittle, signedBig,
                 floatLittle, floatBig);
  }

  // ---- Hexadecimal and ASCII input ---------------------------------------------------------

  predicate Space(c: byte) { c == 32 || 9 <= c <= 13 }

  /** Pairs of digits, with white space anywhere except inside a pair. */
  function HexDecode(text: seq<byte>): Option<seq<byte>> {
    if text == [] then Some([])
    else if Space(text[0]) then HexDecode(text[1..])
    else if |text| >= 2 && HexNibble(text[0]).Some? && HexNibble(text[1]).Some? then
      Followed([16 * HexNibble(text[0]).value + HexNibble(text[1]).value], HexDecode(text[2..]))
    else None
  }

  function Followed(s: seq<byte>, rest: Option<seq<byte>>): Option<seq<byte>> {
    match rest case Some(t) => Some(s + t) case None => None
  }

  lemma FollowedTwice(a: seq<byte>, b: seq<byte>, r: Option<seq<byte>>)
    ensures Followed(a, Followed(b, r)) == Followed(a + b, r)
  {
    if r.Some? { assert a + (b + r.value) == a + b + r.value; }
  }

  function AsciiDecode(text: seq<byte>): Option<seq<byte>> {
    if forall i :: 0 <= i < |text| ==> text[i] < 128 then Some(text) else None
  }

  function Decode(text: seq<byte>, ascii: bool): Option<seq<byte>> {
    if ascii then AsciiDecode(text) else HexDecode(text)
  }

  lemma HexStep(t: seq<byte>)
    requires t != []
    ensures Space(t[0]) ==> HexDecode(t) == HexDecode(t[1..])
    ensures !Space(t[0]) && HexNibble(t[0]).None? ==> HexDecode(t) == None
    ensures HexNibble(t[0]).Some? && (|t| == 1 || HexNibble(t[1]).None?) ==> HexDecode(t) == None
    ensures HexNibble(t[0]).Some? && |t| > 1 && HexNibble(t[1]).Some? ==>
      HexDecode(t) == Followed([16 * HexNibble(t[0]).value + HexNibble(t[1]).value], HexDecode(t[2..]))
  {
  }

  /** What a status accuses the text of. */
  predicate Justified(text: seq<byte>, ascii: bool, status: Status) {
    match status
    case Ok => |text| <= MAX_TEXT && Decode(text, ascii).Some? && |Decode(text, ascii).value| <= MAX_BYTES
    case BadHex => !ascii && exists i :: 0 <= i < |text| && !Space(text[i]) && HexNibble(text[i]).None?
    case OddHex => !ascii && exists i ::
      0 <= i < |text| && HexNibble(text[i]).Some? && (i + 1 == |text| || Space(text[i + 1]))
    case NonAscii => ascii && exists i :: 0 <= i < |text| && text[i] >= 128
    case TooManyBytes => if ascii then |text| > MAX_BYTES else |text| > 2 * MAX_BYTES
    case TextTooLong => |text| > MAX_TEXT
    case _ => false
  }

  lemma Blame(text: seq<byte>, ascii: bool, status: Status, i: nat)
    requires i < |text|
    requires match status
      case BadHex => !ascii && !Space(text[i]) && HexNibble(text[i]).None?
      case OddHex => !ascii && HexNibble(text[i]).Some? && (i + 1 == |text| || Space(text[i + 1]))
      case NonAscii => ascii && text[i] >= 128
      case TooManyBytes => i >= MAX_BYTES && (!ascii ==> i > 2 * MAX_BYTES)
      case TextTooLong => i >= MAX_TEXT
      case _ => false
    ensures Justified(text, ascii, status)
    ensures status.NonAscii? ==> Decode(text, ascii).None?
  {
  }

  lemma TooMany(text: seq<byte>, ascii: bool, s: seq<byte>, b: byte, i: nat)
    requires i < |text| && |s| == MAX_BYTES
    requires if ascii then i >= MAX_BYTES else HexDecode(text) == Followed(s + [b], HexDecode(text[i + 1..]))
    ensures Decode(text, ascii).Some? ==> |Decode(text, ascii).value| > MAX_BYTES
  {
    hide HexDecode;
  }

  lemma AllAscii(text: seq<byte>)
    requires forall k :: 0 <= k < |text| ==> text[k] < 128
    ensures AsciiDecode(text) == Some(text)
  {
  }

  lemma EmptyHex()
    ensures HexDecode([]) == Some([])
  {
  }

  /** Where hexadecimal reading resumes: at a digit still waiting for its partner, or after it. */
  function Resume(text: seq<byte>, i: nat, high: Option<nat>): seq<byte>
    requires i <= |text| && (high.Some? ==> i > 0)
  {
    text[if high.Some? then i - 1 else i..]
  }

  /** One character of hexadecimal input: skipped, kept as a first digit, or completing a byte. */
  method HexTurn(text: seq<byte>, i: nat, high: Option<nat>)
      returns (status: Status, value: Option<byte>, next: Option<nat>)
    requires i < |text| && (high.Some? ==> i > 0 && high == HexNibble(text[i - 1]) && !Space(text[i - 1]))
    ensures status in {Ok, OddHex, BadHex}
    ensures !status.Ok? ==> HexDecode(Resume(text, i, high)) == None && Justified(text, false, status)
    ensures status.Ok? ==> (next.Some? ==> high.None? && next == HexNibble(text[i]) && !Space(text[i]) && value.None?)
    ensures status.Ok? ==> (value.Some? ==> high.Some?) && (high.Some? ==> value.Some?)
    ensures status.Ok? ==>
      HexDecode(Resume(text, i, high)) ==
      if value.Some? then Followed([value.value], HexDecode(Resume(text, i + 1, next)))
      else HexDecode(Resume(text, i + 1, next))
  {
    hide HexDecode, Justified;
    status, value, next := Ok, None, None;
    HexStep(Resume(text, i, high));
    if Space(text[i]) {
      if high.Some? {
        Blame(text, false, OddHex, i - 1);
        status := OddHex;
      }
      return;
    }
    var nibble := HexNibble(text[i]);
    if nibble.None? {
      Blame(text, false, BadHex, i);
      status := BadHex;
    } else if high.None? {
      next := nibble;
    } else {
      value := Some(16 * high.value + nibble.value);
      assert text[i - 1..][2..] == text[i + 1..];
    }
  }

  /** byte_data_parse. */
  method Parse(text: seq<byte>, ascii: bool) returns (status: Status, data: Data)
    ensures status.Ok? <==>
      |text| <= 512 && Decode(text, ascii).Some? && |Decode(text, ascii).value| <= 128
    ensures status.Ok? ==> data == Interpreted(Decode(text, ascii).value)
    ensures !status.Ok? ==> data == CLEARED && Justified(text, ascii, status)
  {
    hide HexDecode, Interpreted, Justified, AsciiDecode, HexNibble, Space, Followed, Binary32, Integral;
    data := CLEARED;
    var bytes := new byte[MAX_BYTES](_ => 0);
    var length := 0;
    var high: Option<nat> := None;
    FollowedNothing(HexDecode(text));
    assert text[0..] == text && bytes[..0] == [];
    for i := 0 to |text|
      invariant i <= MAX_TEXT && length <= MAX_BYTES
      invariant ascii ==> high.None? && bytes[..length] == text[..i]
      invariant ascii ==> forall k :: 0 <= k < i ==> text[k] < 128
      invariant !ascii ==> 2 * length + (if high.Some? then 1 else 0) <= i
      invariant high.Some? ==> i > 0 && high == HexNibble(text[i - 1]) && !Space(text[i - 1])
      invariant !ascii ==> HexDecode(text) == Followed(bytes[..length], HexDecode(Resume(text, i, high)))
    {
      if i == MAX_TEXT {
        Blame(text, ascii, TextTooLong, i);
        return TextTooLong, CLEARED;
      }
      var value: byte;
      if ascii {
        if text[i] > 127 {
          Blame(text, ascii, NonAscii, i);
          return NonAscii, CLEARED;
        }
        value := text[i];
      } else {
        var turn, octet, next := HexTurn(text, i, high);
        if !turn.Ok? {
          FollowedByEnd(bytes[..length]);
          return turn, CLEARED;
        }
        high := next;
        if octet.None? { continue; }
        value := octet.value;
        FollowedTwice(bytes[..length], [value], HexDecode(Resume(text, i + 1, high)));
      }
      ghost var before := bytes[..length];
      if length == MAX_BYTES {
        Blame(text, ascii, TooManyBytes, i);
        TooMany(text, ascii, before, value, i);
        return TooManyBytes, CLEARED;
      }
      bytes[length] := value;
      length := length + 1;
      assert bytes[..length] == before + [value];
    }
    FollowedByEnd(bytes[..length]);
    if high.Some? {
      HexStep(text[|text| - 1..]);
      Blame(text, ascii, OddHex, |text| - 1);
      return OddHex, CLEARED;
    }
    EmptyHex();
    if ascii { AllAscii(text); }
    assert text[..|text|] == text && text[|text|..] == [];
    data := Calculate(bytes, length);
    status := Ok;
  }

  lemma FollowedNothing(r: Option<seq<byte>>)
    ensures Followed([], r) == r
  {
    if r.Some? { assert [] + r.value == r.value; }
  }

  lemma FollowedByEnd(s: seq<byte>)
    ensures Followed(s, Some([])) == Some(s) && Followed(s, None) == None
  {
    assert s + [] == s;
  }

  // ---- Decimal numbers ---------------------------------------------------------------------

  /** The six integer types: width in bytes, and whether negative values exist. */
  datatype IntType = IntType(width: nat, signed: bool)

  predicate Supported(t: IntType) { Integral(t.width) }

  function Least(t: IntType): int
    requires Supported(t)
  {
    if t.signed then 0 - Pow2(8 * t.width - 1) else 0
  }

  function Greatest(t: IntType): int
    requires Supported(t)
  {
    if t.signed then Pow2(8 * t.width - 1) - 1 else Pow2(8 * t.width) - 1
  }

  predicate AllDigits(s: seq<byte>) { s != [] && forall i :: 0 <= i < |s| ==> IsDigit(s[i]) }

  function DigitValue(c: byte): nat
    requires IsDigit(c)
  {
    c as int - 48
  }

  function Magnitude(s: seq<byte>): nat
    requires forall i :: 0 <= i < |s| ==> IsDigit(s[i])
  {
    if s == [] then 0 else 10 * Magnitude(s[..|s| - 1]) + DigitValue(s[|s| - 1])
  }

  const PLUS: byte := 43
  const MINUS: byte := 45

  function Unsigned(text: seq<byte>): seq<byte> {
    if text != [] && (text[0] == PLUS || text[0] == MINUS) then text[1..] else text
  }

  predicate Negative(text: seq<byte>) { text != [] && text[0] == MINUS }

  /** The number a text denotes for a type: an optional plus, or a minus for signed types, and digits. */
  function Number(text: seq<byte>, t: IntType): Option<int> {
    if !AllDigits(Unsigned(text)) || (Negative(text) && !t.signed) then None
    else Some(if Negative(text) then 0 - Magnitude(Unsigned(text)) else Magnitude(Unsigned(text)))
  }

  predicate InRange(v: int, t: IntType)
    requires Supported(t)
  {
    Least(t) <= v <= Greatest(t)
  }

  lemma {:induction false} MagnitudeGrows(s: seq<byte>, n: nat)
    requires n <= |s| && forall i :: 0 <= i < |s| ==> IsDigit(s[i])
    ensures Magnitude(s[..n]) <= Magnitude(s)
    decreases |s|
  {
    if n == |s| {
      assert s[..n] == s;
    } else {
      assert s[..|s| - 1][..n] == s[..n];
      MagnitudeGrows(s[..|s| - 1], n);
    }
  }

  lemma PowerValues()
    ensures Pow2(7) == 0x80 && Pow2(8) == 0x100 && Pow2(15) == 0x8000 && Pow2(16) == 0x10000
    ensures Pow2(31) == 0x80000000 && Pow2(32) == 0x100000000
  {
    assert Pow2(7) == 0x80;
    assert Pow2(15) == 0x8000;
    assert Pow2(23) == 0x800000;
    assert Pow2(31) == 0x80000000;
  }

  /** The largest magnitude the sign and the type allow. */
  function Limit(t: IntType, negative: bool): nat
    requires Supported(t) && (negative ==> t.signed)
  {
    PowerValues();
    if negative then 0 - Least(t) else Greatest(t)
  }

  /** The digits of byte_data_encode: a magnitude no greater than the limit, or the reason why not.
      The running product stays far inside 64 bits. */
  method ReadMagnitude(text: seq<byte>, limit: nat) returns (status: Status, magnitude: nat)
    requires limit < 0x100000000
    ensures status in {Ok, BadNumber, NumberRange}
    ensures status.Ok? <==> AllDigits(text) && Magnitude(text) <= limit
    ensures status.Ok? ==> magnitude == Magnitude(text)
    ensures status.BadNumber? ==> !AllDigits(text)
    ensures status.NumberRange? && AllDigits(text) ==> Magnitude(text) > limit
  {
    magnitude := 0;
    if text == [] { return BadNumber, 0; }
    for i := 0 to |text|
      invariant forall k :: 0 <= k < i ==> IsDigit(text[k])
      invariant magnitude == Magnitude(text[..i]) <= limit
    {
      if !IsDigit(text[i]) { return BadNumber, 0; }
      assert text[..i + 1][..i] == text[..i];
      assert magnitude * 10 + DigitValue(text[i]) < 0x1_0000_0000_0000_0000;
      magnitude := magnitude * 10 + DigitValue(text[i]);
      if magnitude > limit {
        if AllDigits(text) { MagnitudeGrows(text, i + 1); }
        return NumberRange, 0;
      }
    }
    assert text[..|text|] == text;
    status := Ok;
  }

  /** The weight of the k-th octet. */
  function Place(k: nat): (p: nat)
    ensures p > 0
  {
    if k == 0 then 1 else 256 * Place(k - 1)
  }

  /** One octet of a register, shifted down and truncated. */
  function Octet(bits: nat, k: nat): byte { bits / Place(k) % 256 }

  /** The view of an encoded payload that matches its type and byte order. */
  function View(data: Data, t: IntType, little: bool): int {
    if t.signed then if little then data.signedLittle else data.signedBig
    else if little then data.little else data.big
  }

  function Wrapped(v: int): nat
    requires -0x80000000 <= v < 0x100000000
  {
    if v < 0 then v + 0x100000000 else v
  }

  /** The bytes of a number, most or least significant first. */
  function Image(bits: nat, width: nat, little: bool): (s: seq<byte>)
    requires bits < 0x100000000 && Integral(width)
    ensures |s| == width
  {
    var b0, b1, b2, b3: byte := bits % 256, bits / 0x100 % 256, bits / 0x10000 % 256, bits / 0x1000000 % 256;
    if width == 1 then [b0]
    else if width == 2 then if little then [b0, b1] else [b1, b0]
    else if little then [b0, b1, b2, b3] else [b3, b2, b1, b0]
  }

  lemma Places()
    ensures Place(1) == 0x100 && Place(2) == 0x10000 && Place(3) == 0x1000000 && Place(4) == 0x100000000
  {
  }

  lemma OneValue(a: byte)
    ensures LittleValue([a]) == a && BigValue([a]) == a
  {
    assert [a][1..] == [] && [a][..0] == [];
  }

  lemma PairValues(a: byte, b: byte)
    ensures LittleValue([a, b]) == a as int + 256 * b as int && BigValue([a, b]) == 256 * a as int + b as int
  {
    OneValue(a);
    OneValue(b);
    assert [a, b][1..] == [b] && [a, b][..1] == [a];
  }

  lemma QuadValues(a: byte, b: byte, c: byte, d: byte)
    ensures LittleValue([a, b, c, d]) == a as int + 0x100 * b as int + 0x10000 * c as int + 0x1000000 * d as int
    ensures BigValue([a, b, c, d]) == 0x1000000 * a as int + 0x10000 * b as int + 0x100 * c as int + d as int
  {
    PairValues(c, d);
    PairValues(a, b);
    assert [a, b, c, d][1..] == [b, c, d] && [b, c, d][1..] == [c, d];
    assert [a, b, c, d][..3] == [a, b, c] && [a, b, c][..2] == [a, b];
    assert LittleValue([b, c, d]) == b as int + 256 * LittleValue([c, d]);
    assert BigValue([a, b, c]) == 256 * BigValue([a, b]) + c as int;
  }

  lemma Octets(bits: nat)
    requires bits < 0x100000000
    ensures bits % 0x100 + 0x100 * (bits / 0x100 % 0x100) == bits % 0x10000
    ensures bits % 0x10000 + 0x10000 * (bits / 0x10000 % 0x100) + 0x1000000 * (bits / 0x1000000 % 0x100) == bits
  {
    var q := bits / 0x10000;
    assert bits / 0x1000000 == q / 0x100 && q / 0x100 < 0x100;
    assert q == q % 0x100 + 0x100 * (q / 0x100);
    assert bits == bits % 0x10000 + 0x10000 * q;
  }

  lemma ImageValue(bits: nat, width: nat, little: bool)
    requires bits < 0x100000000 && Integral(width)
    ensures var s := Image(bits, width, little);
            (if little then LittleValue(s) else BigValue(s)) == bits % Place(width)
  {
    hide Place, LittleValue, BigValue;
    Places();
    Octets(bits);
    var s := Image(bits, width, little);
    if width == 1 {
      OneValue(s[0]);
      assert s == [s[0]];
    } else if width == 2 {
      assert s == [s[0], s[1]];
      PairValues(s[0], s[1]);
    } else {
      assert s == [s[0], s[1], s[2], s[3]];
      QuadValues(s[0], s[1], s[2], s[3]);
    }
  }

  lemma ViewIs(s: seq<byte>, t: IntType, little: bool)
    requires Supported(t) && |s| == t.width
    ensures (if little then LittleValue(s) else BigValue(s)) < Pow2(8 * t.width)
    ensures View(Interpreted(s), t, little) ==
            var v := if little then LittleValue(s) else BigValue(s);
            if t.signed then SignedValue(v, 8 * t.width) else v
  {
    hide Crc16, Crc32, Sum, Parity, Pow2;
    ValuesFit(s);
  }

  /** Reducing to the field's width and reading it back with its sign restores the number. */
  lemma SignRestores(v: int, t: IntType)
    requires Supported(t) && InRange(v, t)
    ensures PowerBounds(v) && Wrapped(v) % Place(t.width) < Pow2(8 * t.width)
    ensures var m := Wrapped(v) % Place(t.width); (if t.signed then SignedValue(m, 8 * t.width) else m) == v
  {
    hide Pow2, Place;
    PowerValues();
    Places();
    if t.width == 1 {
    } else if t.width == 2 {
    } else {
    }
  }

  /** Writing a value in range and reading it back in the matching view returns it. */
  lemma ImageRoundTrip(v: int, t: IntType, little: bool)
    requires Supported(t) && InRange(v, t)
    ensures PowerBounds(v) && View(Interpreted(Image(Wrapped(v), t.width, little)), t, little) == v
  {
    hide Interpreted, View, LittleValue, BigValue, Pow2, Image, SignedValue, Place, InRange;
    SignRestores(v, t);
    ImageValue(Wrapped(v), t.width, little);
    ViewIs(Image(Wrapped(v), t.width, little), t, little);
  }

  predicate PowerBounds(v: int) { -0x80000000 <= v < 0x100000000 }

  /** At most 32 characters, all of them ASCII. */
  method ScanNumber(text: seq<byte>) returns (status: Status)
    ensures status in {Ok, NumberTooLong, BadNumber}
    ensures status.Ok? ==> |text| <= MAX_NUMBER
    ensures status.NumberTooLong? ==> |text| > MAX_NUMBER
    ensures status.BadNumber? ==> !AllDigits(Unsigned(text))
  {
    for i := 0 to |text|
      invariant i <= MAX_NUMBER
    {
      if i == MAX_NUMBER { return NumberTooLong; }
      if text[i] > 127 {
        NotAscii(text, i);
        return BadNumber;
      }
    }
    return Ok;
  }

  /** The bytes of a number in range, interpreted. */
  method EmitNumber(v: int, t: IntType, little: bool) returns (data: Data)
    requires Supported(t) && InRange(v, t)
    ensures |data.bytes| == t.width && data == Interpreted(data.bytes) && View(data, t, little) == v
  {
    hide Interpreted, View, InRange;
    ImageRoundTrip(v, t, little);
    var bits: nat := if v < 0 then (0x100000000 - (0 - v)) % 0x100000000 else v;
    assert bits == Wrapped(v);
    var bytes := new byte[t.width](_ => 0);
    for i := 0 to t.width
      invariant forall k :: 0 <= k < i ==> bytes[k] == Image(bits, t.width, little)[k]
    {
      var place := if little then i else t.width - 1 - i;
      OctetOfImage(bits, t.width, little, i);
      bytes[i] := Octet(bits, place);
    }
    assert bytes[..t.width] == Image(bits, t.width, little);
    data := Calculate(bytes, t.width);
    InterpretedKeeps(bytes[..t.width]);
  }

  /** The integer half of byte_data_encode. */
  method Encode(text: seq<byte>, t: IntType, little: bool) returns (status: Status, data: Data)
    requires Supported(t)
    ensures status.Ok? <==> |text| <= 32 && Number(text, t).Some? && InRange(Number(text, t).value, t)
    ensures status.Ok? ==>
      |data.bytes| == t.width && data == Interpreted(data.bytes) && View(data, t, little) == Number(text, t).value
    ensures !status.Ok? ==> data == CLEARED
    ensures status.NumberTooLong? ==> |text| > 32
    ensures |text| <= 32 && Number(text, t).Some? && !InRange(Number(text, t).value, t) ==> status.NumberRange?
    ensures status.BadNumber? ==> Number(text, t).None?
  {
    hide Interpreted, View, Magnitude, AllDigits, Unsigned, Pow2;
    data := CLEARED;
    status := ScanNumber(text);
    if !status.Ok? { return; }
    PowerValues();
    var negative := Negative(text);
    if negative && !t.signed { return BadNumber, CLEARED; }
    var magnitude;
    status, magnitude := ReadMagnitude(Unsigned(text), Limit(t, negative));
    if !status.Ok? { return; }
    data := EmitNumber(if negative then 0 - magnitude as int else magnitude as int, t, little);
  }

  lemma InterpretedKeeps(s: seq<byte>)
    ensures Interpreted(s).bytes == s
  {
  }

  lemma NotAscii(text: seq<byte>, i: nat)
    requires i < |text| && text[i] > 127
    ensures !AllDigits(Unsigned(text))
  {
    if text[0] == PLUS || text[0] == MINUS { assert Unsigned(text)[i - 1] == text[i]; }
  }

  lemma OctetOfImage(bits: nat, width: nat, little: bool, i: nat)
    requires bits < 0x100000000 && Integral(width) && i < width
    ensures Octet(bits, if little then i else width - 1 - i) == Image(bits, width, little)[i]
  {
    Places();
  }

  // ---- The byte clipboard ------------------------------------------------------------------

  function HexDigit(n: nat): (c: byte)
    requires n < 16
    ensures HexNibble(c) == Some(n)
  {
    if n < 10 then 48 + n else 55 + n
  }

  function HexPair(b: byte): seq<byte> { [HexDigit(b / 16), HexDigit(b % 16)] }

  /** Two upper-case digits a byte, one space between bytes. */
  function HexText(bytes: seq<byte>): (s: seq<byte>)
    ensures |s| == if bytes == [] then 0 else 3 * |bytes| - 1
  {
    if bytes == [] then []
    else if |bytes| == 1 then HexPair(bytes[0])
    else HexPair(bytes[0]) + [SP] + HexText(bytes[1..])
  }

  lemma {:induction false} HexTextAppends(s: seq<byte>, b: byte)
    requires s != []
    ensures HexText(s + [b]) == HexText(s) + [SP] + HexPair(b)
    decreases |s|
  {
    var t := s + [b];
    if |s| == 1 {
      assert t[1..] == [b];
    } else {
      assert t[1..] == s[1..] + [b];
      HexTextAppends(s[1..], b);
    }
  }

  /** The parser reads back exactly what the printer wrote. */
  lemma {:induction false} HexRoundTrip(bytes: seq<byte>)
    ensures HexDecode(HexText(bytes)) == Some(bytes)
    decreases |bytes|
  {
    if bytes != [] {
      var text, b := HexText(bytes), bytes[0];
      assert 16 * (b / 16) + b % 16 == b;
      HexStep(text);
      if |bytes| == 1 {
        assert text[2..] == [];
        assert bytes == [b] + [];
      } else {
        assert text[2..] == [SP] + HexText(bytes[1..]);
        HexStep(text[2..]);
        assert text[2..][1..] == HexText(bytes[1..]);
        HexRoundTrip(bytes[1..]);
        assert bytes == [b] + bytes[1..];
      }
    }
  }

  /** Main result: a payload of any storable length survives printing and parsing, within the
      parser's limits on both. */
  lemma ClipboardRoundTrip(bytes: seq<byte>)
    requires |bytes| <= MAX_BYTES
    ensures |HexText(bytes)| <= 512 && Decode(HexText(bytes), false) == Some(bytes)
  {
    HexRoundTrip(bytes);
  }

  class Clipboard {
    const bytes: array<byte>
    var length: nat
    var present: bool

    ghost predicate Valid() reads this, bytes {
      bytes.Length == MAX_BYTES && length <= MAX_BYTES && (!present ==> length == 0) &&
      forall i :: length <= i < MAX_BYTES ==> bytes[i] == 0
    }

    ghost function Contents(): Option<seq<byte>>
      reads this, bytes
      requires Valid()
    {
      if present then Some(bytes[..length]) else None
    }

    constructor ()
      ensures Valid() && Contents() == None && fresh(bytes)
    {
      bytes := new byte[MAX_BYTES](_ => 0);
      length, present := 0, false;
    }

    /** The source may be a slice of the clipboard itself. */
    method Store(source: array<byte>, at: nat, count: nat) returns (stored: bool)
      requires Valid() && at + count <= source.Length
      modifies this, bytes
      ensures Valid() && stored == (count <= 128)
      ensures Contents() == if stored then Some(old(source[at..at + count])) else old(Contents())
    {
      if count > MAX_BYTES { return false; }
      forall i | 0 <= i < count { bytes[i] := source[at + i]; }
      assert bytes[..count] == old(source[at..at + count]);
      forall i | count <= i < MAX_BYTES { bytes[i] := 0; }
      assert bytes[..count] == old(source[at..at + count]);
      length, present := count, true;
      return true;
    }

    method Clear()
      requires Valid()
      modifies this, bytes
      ensures Valid() && Contents() == None
    {
      forall i | 0 <= i < bytes.Length { bytes[i] := 0; }
      length, present := 0, false;
    }

    /** Prints into a caller's buffer, zero-terminated; on failure a usable buffer is left empty. */
    method Hex(text: array<byte>) returns (printed: bool)
      requires Valid() && text != bytes
      modifies text
      ensures printed <==> present && text.Length >= (if length == 0 then 1 else 3 * length)
      ensures printed ==> var s := HexText(Contents().value); text[..|s|] == s && text[|s|] == 0
      ensures !printed && text.Length > 0 ==> text[0] == 0
    {
      if text.Length == 0 { return false; }
      text[0] := 0;
      var required := if length != 0 then 3 * length else 1;
      if !present || text.Length < required { return false; }
      var used := 0;
      for i := 0 to length
        invariant used == |HexText(bytes[..i])| && text[..used] == HexText(bytes[..i])
      {
        ghost var done := HexText(bytes[..i]);
        assert bytes[..i + 1] == bytes[..i] + [bytes[i]];
        if i > 0 {
          HexTextAppends(bytes[..i], bytes[i]);
          text[used] := SP;
          used := used + 1;
          assert text[..used] == done + [SP];
        } else {
          assert bytes[..1] == [bytes[0]];
        }
        text[used] := HexDigit(bytes[i] / 16);
        text[used + 1] := HexDigit(bytes[i] % 16);
        used := used + 2;
        assert text[..used] == text[..used - 2] + HexPair(bytes[i]);
      }
      text[used] := 0;
      return true;
    }
  }
}
