/** The text shown for a Modbus reply, and the decimal fields a request is typed in. */
module ModbusText {
  import opened Bytes
  import opened Modbus
  import ByteData

  datatype View = Words | Unsigned32 | Signed32 | Float32
  datatype Order = ABCD | CDAB | BADC | DCBA

  // ---- Numbers in text ---------------------------------------------------------------------

  function Decimal(n: nat): (s: seq<byte>)
    ensures s != []
  {
    (if n < 10 then [] else Decimal(n / 10)) + [48 + n % 10]
  }

  function SignedDecimal(n: int): seq<byte> { if n < 0 then [45] + Decimal(0 - n) else Decimal(n) }

  /** Upper-case hexadecimal, padded to so many digits. */
  function Hex(n: nat, digits: nat): (s: seq<byte>)
    ensures |s| == digits
  {
    if digits == 0 then [] else Hex(n / 16, digits - 1) + [ByteData.HexDigit(n % 16)]
  }

  lemma {:induction false} DecimalLength(n: nat, digits: nat, limit: nat)
    requires digits >= 1 && n < limit && limit == Power10(digits)
    ensures |Decimal(n)| <= digits
    decreases digits
  {
    if n >= 10 {
      assert digits > 1;
      assert Power10(digits) == 10 * Power10(digits - 1);
      DecimalLength(n / 10, digits - 1, Power10(digits - 1));
    }
  }

  function Power10(k: nat): (p: nat)
    ensures p >= 1
  {
    if k == 0 then 1 else 10 * Power10(k - 1)
  }

  lemma WordLengths(n: word)
    ensures |Decimal(n)| <= 5
  {
    assert Power10(5) == 100000;
    DecimalLength(n, 5, 100000);
  }

  lemma LongLengths(n: nat)
    requires n < 0x100000000
    ensures |Decimal(n)| <= 10
  {
    assert Power10(5) == 100000;
    assert Power10(10) == 10000000000;
    DecimalLength(n, 10, 10000000000);
  }

  /** modbus_parse_decimal: one to five digits, no greater than the maximum. */
  method ParseDecimal(text: seq<byte>, maximum: word) returns (value: Option<word>)
    ensures value.Some? <==> ByteData.AllDigits(text) && |text| <= 5 && ByteData.Magnitude(text) <= maximum
    ensures value.Some? ==> value.value == ByteData.Magnitude(text)
  {
    if text == [] { return None; }
    var parsed := 0;
    for i := 0 to |text|
      invariant i <= 5 && forall k :: 0 <= k < i ==> IsDigit(text[k])
      invariant parsed == ByteData.Magnitude(text[..i]) <= maximum
    {
      if i == 5 || !IsDigit(text[i]) { return None; }
      assert text[..i + 1][..i] == text[..i];
      parsed := parsed * 10 + ByteData.DigitValue(text[i]);
      if parsed > maximum {
        if ByteData.AllDigits(text) { ByteData.MagnitudeGrows(text, i + 1); }
        return None;
      }
    }
    assert text[..|text|] == text;
    value := Some(parsed);
  }

  /** What is printed for a word is read back as that word. */
  lemma DecimalRoundTrip(n: word)
    ensures ByteData.AllDigits(Decimal(n)) && |Decimal(n)| <= 5 && ByteData.Magnitude(Decimal(n)) == n
  {
    WordLengths(n);
    DecimalValue(n);
  }

  lemma {:induction false} DecimalValue(n: nat)
    ensures ByteData.AllDigits(Decimal(n)) && ByteData.Magnitude(Decimal(n)) == n
  {
    var s := Decimal(n);
    if n >= 10 {
      DecimalValue(n / 10);
      assert s[..|s| - 1] == Decimal(n / 10);
    } else {
      assert s[..|s| - 1] == [];
    }
  }

  /** A number of either sign is read back from its decimal text by the byte laboratory's reader. */
  lemma SignedRoundTrip(v: int, t: ByteData.IntType)
    requires v >= 0 || t.signed
    ensures ByteData.Number(SignedDecimal(v), t) == Some(v)
  {
    hide Decimal, ByteData.Magnitude;
    var n: nat := if v < 0 then 0 - v else v;
    DecimalValue(n);
    var text, digits := SignedDecimal(v), Decimal(n);
    if v < 0 {
      assert text[1..] == digits;
    } else {
      assert IsDigit(digits[0]);
    }
    assert ByteData.Unsigned(text) == digits;
  }

  // ---- Register pairs ----------------------------------------------------------------------

  function SwapWords(v: nat): nat { v % 0x10000 * 0x10000 + v / 0x10000 % 0x10000 }

  /** The masks and shifts that exchange the two bytes of each half. */
  function SwapBytes(v: nat): nat {
    v / 0x10000 % 0x100 * 0x1000000 + v / 0x1000000 % 0x100 * 0x10000 + v % 0x100 * 0x100 + v / 0x100 % 0x100
  }

  function PairBits(order: Order, first: word, second: word): nat {
    var value := first * 0x10000 + second;
    var words := if order == CDAB || order == DCBA then SwapWords(value) else value;
    if order == BADC || order == DCBA then SwapBytes(words) else words
  }

  function Big(a: byte, b: byte, c: byte, d: byte): (v: nat)
    ensures v < 0x100000000
  {
    a * 0x1000000 + b * 0x10000 + c * 0x100 + d
  }

  lemma Low16(high: nat, low: nat)
    requires low < 0x10000
    ensures (high * 0x10000 + low) / 0x10000 == high && (high * 0x10000 + low) % 0x10000 == low
  {
  }

  lemma Low8(high: nat, low: nat)
    requires low < 0x100
    ensures (high * 0x100 + low) / 0x100 == high && (high * 0x100 + low) % 0x100 == low
  {
  }

  lemma Low24(high: nat, low: nat)
    requires low < 0x1000000
    ensures (high * 0x1000000 + low) / 0x1000000 == high
  {
  }

  lemma SwappedWords(a: byte, b: byte, c: byte, d: byte)
    ensures SwapWords(Big(a, b, c, d)) == Big(c, d, a, b)
  {
    Low16(a * 0x100 + b, c * 0x100 + d);
  }

  lemma SwappedBytes(a: byte, b: byte, c: byte, d: byte)
    ensures SwapBytes(Big(a, b, c, d)) == Big(b, a, d, c)
  {
    var v := Big(a, b, c, d);
    assert v / 0x10000 % 0x100 == b by {
      Low16(a * 0x100 + b, c * 0x100 + d);
      Low8(a, b);
    }
    assert v / 0x1000000 % 0x100 == a by { Low24(a, b * 0x10000 + c * 0x100 + d); }
    assert v % 0x100 == d && v / 0x100 % 0x100 == c by {
      Low8(a * 0x10000 + b * 0x100 + c, d);
      Low8(a * 0x100 + b, c);
    }
  }

  /** Each order names its bytes from most to least significant: A and B are the high and low byte of
      the first register, C and D those of the second. */
  lemma OrderNamesBytes(order: Order, a: byte, b: byte, c: byte, d: byte)
    ensures PairBits(order, ReadU16(a, b), ReadU16(c, d)) == match order
      case ABCD => Big(a, b, c, d)
      case CDAB => Big(c, d, a, b)
      case BADC => Big(b, a, d, c)
      case DCBA => Big(d, c, b, a)
  {
    hide SwapWords, SwapBytes;
    assert ReadU16(a, b) * 0x10000 + ReadU16(c, d) == Big(a, b, c, d);
    SwappedWords(a, b, c, d);
    SwappedBytes(a, b, c, d);
    SwappedBytes(c, d, a, b);
  }

  lemma PairBitsFit(order: Order, first: word, second: word)
    ensures PairBits(order, first, second) < 0x100000000
  {
    OrderNamesBytes(order, first / 256, first % 256, second / 256, second % 256);
    assert ReadU16(first / 256, first % 256) == first && ReadU16(second / 256, second % 256) == second;
  }

  // ---- The text ----------------------------------------------------------------------------

  /** A reply to show: the request it answers, its values and its exception code. */
  datatype Shown = Shown(request: Request, values: seq<word>, exceptionCode: byte, view: View, order: Order)

  predicate Bits(s: Shown) { s.request.code <= 2 }

  /** The program shows a reply that matches its valid request; bits must be zero or one. */
  predicate Formats(s: Shown) {
    && ValidRequest(s.request) && s.exceptionCode == 0 && |s.values| == s.request.quantity
    && (Bits(s) ==> forall i :: 0 <= i < |s.values| ==> s.values[i] <= 1)
  }

  function Header(s: Shown): seq<byte> {
    if Bits(s) then Ascii("Zero-based address : bit value\n")
    else if s.view == Words then Ascii("Address : unsigned | hex | signed int16\n")
    else
      var view :=
        match s.view case Unsigned32 => "Unsigned 32-bit" case Signed32 => "Signed 32-bit" case _ => "Float32";
      var order := match s.order case ABCD => "ABCD" case CDAB => "CDAB" case BADC => "BADC" case DCBA => "DCBA";
      Ascii(view) + Ascii(" | ") + Ascii(order) + Ascii(" | zero-based address pairs\n")
  }

  function TwosComplement(v: nat, modulus: nat): int { if v >= modulus / 2 then v - modulus else v }

  /** `float` is what the C library prints for a finite Float32 bit pattern. */
  function FloatText(bits: nat, float: nat -> seq<byte>): seq<byte> {
    match ByteData.Binary32(bits)
    case NaN => Ascii("NaN")
    case Infinite(negative) => (if negative then Ascii("-") else Ascii("+")) + Ascii("Infinity")
    case Finite(_, _, _) => float(bits)
  }

  function NumberText(s: Shown, bits: nat, float: nat -> seq<byte>): seq<byte> {
    match s.view
    case Unsigned32 => Decimal(bits)
    case Signed32 => SignedDecimal(TwosComplement(bits, 0x100000000))
    case _ => FloatText(bits, float)
  }

  function Next(s: Shown, i: nat): (n: nat)
    requires i < |s.values|
    ensures i < n <= |s.values|
  {
    if Bits(s) || s.view == Words || i + 1 == |s.values| then i + 1 else i + 2
  }

  function Item(s: Shown, i: nat, float: nat -> seq<byte>): seq<byte>
    requires i < |s.values|
  {
    var address, first := s.request.address + i, s.values[i];
    if Bits(s) then Decimal(address) + Ascii(" : ") + Decimal(first) + [LF]
    else if s.view == Words then
      Decimal(address) + Ascii(" : ") + Decimal(first) + Ascii(" | 0x") + Hex(first, 4) + Ascii(" | ")
      + SignedDecimal(TwosComplement(first, 0x10000)) + [LF]
    else if i + 1 == |s.values| then
      Decimal(address) + Ascii(" : unpaired register 0x") + Hex(first, 4) + Ascii(" (needs the next register)\n")
    else
      var second := s.values[i + 1];
      var bits := PairBits(s.order, first, second);
      Decimal(address) + [45] + Decimal(address + 1) + Ascii(" : ") + NumberText(s, bits, float)
      + Ascii("\n  Raw ") + Hex(first, 4) + [SP] + Hex(second, 4) + Ascii(" | bits 0x") + Hex(bits, 8) + [LF]
  }

  function Body(s: Shown, i: nat, float: nat -> seq<byte>): seq<byte>
    requires i <= |s.values|
    decreases |s.values| - i
  {
    if i == |s.values| then [] else Item(s, i, float) + Body(s, Next(s, i), float)
  }

  function Text(s: Shown, float: nat -> seq<byte>): seq<byte> { Header(s) + Body(s, 0, float) }

  /** modbus_format_values: all of the text when the reply can be shown and it fits with its
      terminator, and none of it otherwise. */
  method FormatValues(s: Shown, float: nat -> seq<byte>, capacity: nat) returns (ok: bool, text: seq<byte>)
    ensures ok <==> Formats(s) && |Text(s, float)| < capacity
    ensures text == if ok then Text(s, float) else []
  {
    hide Item, Header;
    if capacity == 0 { return false, []; }
    if !ValidRequest(s.request) || s.exceptionCode != 0 || |s.values| != s.request.quantity { return false, []; }
    text := Header(s);
    if |text| >= capacity { return false, []; }
    var i := 0;
    while i < |s.values|
      invariant i <= |s.values| && |text| < capacity
      invariant Text(s, float) == text + Body(s, i, float)
      invariant Bits(s) ==> forall k :: 0 <= k < i ==> s.values[k] <= 1
    {
      if Bits(s) && s.values[i] > 1 { return false, []; }
      var written := Item(s, i, float);
      if |written| >= capacity - |text| { return false, []; }
      text := text + written;
      i := Next(s, i);
    }
    ok := true;
  }

  lemma ItemLength(s: Shown, i: nat, float: nat -> seq<byte>)
    requires Formats(s) && i < |s.values| && forall v :: |float(v)| <= 15
    ensures |Item(s, i, float)| <= if Next(s, i) == i + 2 then 64 else if i + 1 == |s.values| then 64 else 32
  {
    hide Decimal, Hex, Ascii, PairBits;
    var address, first := s.request.address + i, s.values[i];
    WordLengths(address);
    WordLengths(first);
    if Bits(s) {
    } else if s.view == Words {
      WordLengths(Distance(TwosComplement(first, 0x10000)));
    } else if i + 1 < |s.values| {
      WordLengths(address + 1);
      var bits := PairBits(s.order, first, s.values[i + 1]);
      PairBitsFit(s.order, first, s.values[i + 1]);
      LongLengths(bits);
      LongLengths(Distance(TwosComplement(bits, 0x100000000)));
    }
  }

  function Distance(x: int): nat { if x < 0 then 0 - x else x }

  lemma {:induction false} BodyLength(s: Shown, i: nat, float: nat -> seq<byte>)
    requires Formats(s) && i <= |s.values| && forall v :: |float(v)| <= 15
    ensures |Body(s, i, float)| <= 32 * (|s.values| - i) + 32
    ensures i == |s.values| ==> |Body(s, i, float)| == 0
    decreases |s.values| - i
  {
    hide Item;
    if i < |s.values| {
      ItemLength(s, i, float);
      BodyLength(s, Next(s, i), float);
    }
  }

  /** Main result: 768 characters hold every reply in every view and byte order, as long as no Float32
      prints in more than 15. */
  lemma EveryReplyFits(s: Shown, float: nat -> seq<byte>)
    requires Formats(s) && forall v :: |float(v)| <= 15
    ensures |Text(s, float)| < 768
  {
    hide Body;
    BodyLength(s, 0, float);
  }
}
