/** A reader of the shown Modbus text, made of its separators and line ends alone, and the proof that it
    recovers every address and value from what the program prints. */
module ModbusReader {
  import opened Bytes
  import opened Modbus
  import opened ModbusText
  import ByteData

  // ---- The reader --------------------------------------------------------------------------

  datatype Scan<+T> = Bad | Got(value: T, rest: seq<byte>)

  datatype Number = Unsigned(magnitude: nat) | Signed(value: int) | Floating(text: seq<byte>)

  datatype Row =
    | BitRow(address: nat, value: nat)
    | WordRow(address: nat, unsigned: nat, hex: nat, signed: int)
    | LoneRow(address: nat, hex: nat)
    | PairRow(address: nat, next: nat, number: Number, first: nat, second: nat, bits: nat)

  datatype Kind = BitKind | WordKind | PairKind(view: View, order: Order)

  datatype Report = Report(kind: Kind, rows: seq<Row>)

  function Skip(s: seq<byte>, text: string): (r: Scan<()>)
    ensures r.Got? ==> |r.rest| + |text| == |s|
  {
    if Ascii(text) <= s then Got((), s[|text|..]) else Bad
  }

  /** How many digits stand in front. */
  function DigitRun(s: seq<byte>): (n: nat)
    ensures n <= |s| && forall i :: 0 <= i < n ==> IsDigit(s[i])
  {
    if s == [] || !IsDigit(s[0]) then 0 else 1 + DigitRun(s[1..])
  }

  function ReadNumber(s: seq<byte>): (r: Scan<nat>)
    ensures r.Got? ==> |r.rest| < |s|
  {
    var n := DigitRun(s);
    if n == 0 then Bad else Got(ByteData.Magnitude(s[..n]), s[n..])
  }

  function ReadSigned(s: seq<byte>): (r: Scan<int>)
    ensures r.Got? ==> |r.rest| < |s|
  {
    if s != [] && s[0] == 45 then
      var m := ReadNumber(s[1..]);
      if m.Bad? then Bad else Got(0 - m.value, m.rest)
    else
      var m := ReadNumber(s);
      if m.Bad? then Bad else Got(m.value, m.rest)
  }

  predicate HexDigits(s: seq<byte>) { forall i :: 0 <= i < |s| ==> 48 <= s[i] <= 57 || 65 <= s[i] <= 70 }

  /** The value of upper-case digits. */
  function HexWorth(s: seq<byte>): nat
    requires HexDigits(s)
  {
    if s == [] then 0
    else
      var last := s[|s| - 1];
      16 * HexWorth(s[..|s| - 1]) + if last <= 57 then last - 48 else last - 55
  }

  function ReadHex(s: seq<byte>, digits: nat): (r: Scan<nat>)
    ensures r.Got? ==> |r.rest| <= |s|
  {
    if |s| >= digits && HexDigits(s[..digits]) then Got(HexWorth(s[..digits]), s[digits..]) else Bad
  }

  function ReadLine(s: seq<byte>): (r: Scan<seq<byte>>)
    ensures r.Got? ==> |r.rest| < |s| && s == r.value + [LF] + r.rest && LF !in r.value
  {
    if s == [] then Bad
    else if s[0] == LF then Got([], s[1..])
    else
      var r := ReadLine(s[1..]);
      if r.Bad? then Bad else Got([s[0]] + r.value, r.rest)
  }

  /** A number as its view writes it, alone on the rest of its line. */
  function ReadView(view: View, s: seq<byte>): (r: Scan<Number>)
    ensures r.Got? ==> |r.rest| < |s|
  {
    match view
    case Unsigned32 =>
      var n := ReadNumber(s);
      if n.Bad? then Bad else
      var end := Skip(n.rest, "\n");
      if end.Bad? then Bad else Got(Unsigned(n.value), end.rest)
    case Signed32 =>
      var n := ReadSigned(s);
      if n.Bad? then Bad else
      var end := Skip(n.rest, "\n");
      if end.Bad? then Bad else Got(Signed(n.value), end.rest)
    case _ =>
      var line := ReadLine(s);
      if line.Bad? then Bad else Got(Floating(line.value), line.rest)
  }

  function ReadBitRow(s: seq<byte>): (r: Scan<Row>)
    ensures r.Got? ==> |r.rest| < |s|
  {
    var address := ReadNumber(s);
    if address.Bad? then Bad else
    var colon := Skip(address.rest, " : ");
    if colon.Bad? then Bad else
    var value := ReadNumber(colon.rest);
    if value.Bad? then Bad else
    var end := Skip(value.rest, "\n");
    if end.Bad? then Bad else Got(BitRow(address.value, value.value), end.rest)
  }

  function ReadWordRow(s: seq<byte>): (r: Scan<Row>)
    ensures r.Got? ==> |r.rest| < |s|
  {
    var address := ReadNumber(s);
    if address.Bad? then Bad else
    var colon := Skip(address.rest, " : ");
    if colon.Bad? then Bad else
    var unsigned := ReadNumber(colon.rest);
    if unsigned.Bad? then Bad else
    var bar := Skip(unsigned.rest, " | 0x");
    if bar.Bad? then Bad else
    var hex := ReadHex(bar.rest, 4);
    if hex.Bad? then Bad else
    var bar' := Skip(hex.rest, " | ");
    if bar'.Bad? then Bad else
    var signed := ReadSigned(bar'.rest);
    if signed.Bad? then Bad else
    var end := Skip(signed.rest, "\n");
    if end.Bad? then Bad else Got(WordRow(address.value, unsigned.value, hex.value, signed.value), end.rest)
  }

  function ReadLone(address: nat, s: seq<byte>): (r: Scan<Row>)
    ensures r.Got? ==> |r.rest| <= |s|
  {
    var name := Skip(s, " : unpaired register 0x");
    if name.Bad? then Bad else
    var hex := ReadHex(name.rest, 4);
    if hex.Bad? then Bad else
    var end := Skip(hex.rest, " (needs the next register)\n");
    if end.Bad? then Bad else Got(LoneRow(address, hex.value), end.rest)
  }

  /** The second line of a pair. */
  function ReadRaw(s: seq<byte>): (r: Scan<(nat, nat, nat)>)
    ensures r.Got? ==> |r.rest| <= |s|
  {
    var raw := Skip(s, "  Raw ");
    if raw.Bad? then Bad else
    var first := ReadHex(raw.rest, 4);
    if first.Bad? then Bad else
    var space := Skip(first.rest, " ");
    if space.Bad? then Bad else
    var second := ReadHex(space.rest, 4);
    if second.Bad? then Bad else
    var bar := Skip(second.rest, " | bits 0x");
    if bar.Bad? then Bad else
    var bits := ReadHex(bar.rest, 8);
    if bits.Bad? then Bad else
    var end := Skip(bits.rest, "\n");
    if end.Bad? then Bad else Got((first.value, second.value, bits.value), end.rest)
  }

  function ReadPair(view: View, address: nat, s: seq<byte>): (r: Scan<Row>)
    ensures r.Got? ==> |r.rest| <= |s|
  {
    var dash := Skip(s, "-");
    if dash.Bad? then Bad else
    var next := ReadNumber(dash.rest);
    if next.Bad? then Bad else
    var colon := Skip(next.rest, " : ");
    if colon.Bad? then Bad else
    var number := ReadView(view, colon.rest);
    if number.Bad? then Bad else
    var raw := ReadRaw(number.rest);
    if raw.Bad? then Bad
    else Got(PairRow(address, next.value, number.value, raw.value.0, raw.value.1, raw.value.2), raw.rest)
  }

  function ReadPairRow(view: View, s: seq<byte>): (r: Scan<Row>)
    ensures r.Got? ==> |r.rest| < |s|
  {
    var address := ReadNumber(s);
    if address.Bad? then Bad
    else if Skip(address.rest, "-").Got? then ReadPair(view, address.value, address.rest)
    else ReadLone(address.value, address.rest)
  }

  function ReadRow(kind: Kind, s: seq<byte>): (r: Scan<Row>)
    ensures r.Got? ==> |r.rest| < |s|
  {
    match kind
    case BitKind => ReadBitRow(s)
    case WordKind => ReadWordRow(s)
    case PairKind(view, _) => ReadPairRow(view, s)
  }

  function ReadRows(kind: Kind, s: seq<byte>): Option<seq<Row>>
    decreases |s|
  {
    if s == [] then Some([])
    else
      var row := ReadRow(kind, s);
      if row.Bad? then None
      else match ReadRows(kind, row.rest)
        case Some(rows) => Some([row.value] + rows)
        case None => None
  }

  function ReadOrder(view: View, s: seq<byte>): Scan<Kind> {
    var a, b, c, d := Skip(s, "ABCD"), Skip(s, "CDAB"), Skip(s, "BADC"), Skip(s, "DCBA");
    if a.Got? then Got(PairKind(view, ABCD), a.rest)
    else if b.Got? then Got(PairKind(view, CDAB), b.rest)
    else if c.Got? then Got(PairKind(view, BADC), c.rest)
    else if d.Got? then Got(PairKind(view, DCBA), d.rest)
    else Bad
  }

  function ReadPairHeader(view: View, s: seq<byte>): Scan<Kind> {
    var kind := ReadOrder(view, s);
    if kind.Bad? then Bad else
    var end := Skip(kind.rest, " | zero-based address pairs\n");
    if end.Bad? then Bad else Got(kind.value, end.rest)
  }

  /** What kind of rows follow, from the first line. */
  function ReadHeader(s: seq<byte>): Scan<Kind> {
    var bits := Skip(s, "Zero-based address : bit value\n");
    var words := Skip(s, "Address : unsigned | hex | signed int16\n");
    var u, i, f := Skip(s, "Unsigned 32-bit | "), Skip(s, "Signed 32-bit | "), Skip(s, "Float32 | ");
    if bits.Got? then Got(BitKind, bits.rest)
    else if words.Got? then Got(WordKind, words.rest)
    else if u.Got? then ReadPairHeader(Unsigned32, u.rest)
    else if i.Got? then ReadPairHeader(Signed32, i.rest)
    else if f.Got? then ReadPairHeader(Float32, f.rest)
    else Bad
  }

  function ReadText(s: seq<byte>): Option<Report> {
    var kind := ReadHeader(s);
    if kind.Bad? then None
    else match ReadRows(kind.value, kind.rest)
      case Some(rows) => Some(Report(kind.value, rows))
      case None => None
  }

  // ---- What a report must say --------------------------------------------------------------

  function KindOf(s: Shown): Kind {
    if s.request.code <= 2 then BitKind else if s.view == Words then WordKind else PairKind(s.view, s.order)
  }

  /** A two's complement reading: the number in range with the same bits. */
  predicate Represents(v: int, bits: nat, modulus: nat)
    requires modulus > 0
  {
    0 - modulus / 2 <= v < modulus / 2 && (v - bits) % modulus == 0
  }

  /** The bytes of two registers, A to D, in the named order. */
  function Ordered(order: Order, first: word, second: word): nat {
    var a, b, c, d := first / 256, first % 256, second / 256, second % 256;
    match order
    case ABCD => Big(a, b, c, d)
    case CDAB => Big(c, d, a, b)
    case BADC => Big(b, a, d, c)
    case DCBA => Big(d, c, b, a)
  }

  predicate NumberTells(view: View, number: Number, bits: nat, float: nat -> seq<byte>) {
    match view
    case Unsigned32 => number == Unsigned(bits)
    case Signed32 => number.Signed? && Represents(number.value, bits, 0x100000000)
    case _ =>
      match ByteData.Binary32(bits)
      case NaN => number == Floating(Ascii("NaN"))
      case Infinite(negative) => number == Floating(Ascii(if negative then "-Infinity" else "+Infinity"))
      case Finite(_, _, _) => number == Floating(float(bits))
  }

  /** What a row says about the value at i, and the next one. */
  predicate RowTells(s: Shown, row: Row, i: nat, float: nat -> seq<byte>)
    requires i < |s.values|
  {
    var address, value := s.request.address + i, s.values[i];
    match KindOf(s)
    case BitKind => row == BitRow(address, value)
    case WordKind =>
      && row.WordRow? && row.address == address && row.unsigned == value && row.hex == value
      && Represents(row.signed, value, 0x10000)
    case PairKind(view, order) =>
      if i + 1 == |s.values| then row == LoneRow(address, value)
      else
        && row.PairRow? && row.address == address && row.next == address + 1
        && row.first == value && row.second == s.values[i + 1]
        && row.bits == Ordered(order, value, s.values[i + 1])
        && NumberTells(view, row.number, row.bits, float)
  }

  /** The value a row starts with, when the first row starts with `from`. */
  function Start(s: Shown, from: nat, k: nat): nat { if KindOf(s).PairKind? then from + 2 * k else from + k }

  /** Every value from this one on has its row, in order, and there are no other rows. */
  predicate RowsTell(s: Shown, rows: seq<Row>, from: nat, float: nat -> seq<byte>)
    requires from <= |s.values|
  {
    && |rows| == (if KindOf(s).PairKind? then (|s.values| - from + 1) / 2 else |s.values| - from)
    && forall k :: 0 <= k < |rows| ==> RowTells(s, rows[k], Start(s, from, k), float)
  }

  // ---- The reader reads what is printed ----------------------------------------------------

  lemma Skipped(text: string, t: seq<byte>)
    ensures Skip(Ascii(text) + t, text) == Got((), t)
    ensures text != "" && text[0] as int < 48 ==> !IsDigit((Ascii(text) + t)[0])
  {
  }

  lemma Marks()
    ensures Ascii("\n") == [LF] && Ascii("-") == [45] && Ascii(" ") == [SP]
    ensures Ascii("\n  Raw ") == Ascii("\n") + Ascii("  Raw ")
  {
  }

  lemma {:induction false} RunIs(s: seq<byte>, t: seq<byte>)
    requires (forall i :: 0 <= i < |s| ==> IsDigit(s[i])) && (t != [] ==> !IsDigit(t[0]))
    ensures DigitRun(s + t) == |s|
    decreases |s|
  {
    if s == [] {
      assert s + t == t;
    } else {
      assert (s + t)[1..] == s[1..] + t;
      RunIs(s[1..], t);
    }
  }

  lemma NumberReads(n: nat, t: seq<byte>)
    requires t != [] ==> !IsDigit(t[0])
    ensures ReadNumber(Decimal(n) + t) == Got(n, t)
  {
    hide Decimal, ByteData.Magnitude;
    DecimalValue(n);
    RunIs(Decimal(n), t);
    assert (Decimal(n) + t)[..|Decimal(n)|] == Decimal(n);
  }

  lemma SignedReads(v: int, t: seq<byte>)
    requires t != [] ==> !IsDigit(t[0])
    ensures ReadSigned(SignedDecimal(v) + t) == Got(v, t)
  {
    hide Decimal, ReadNumber;
    if v < 0 {
      assert (SignedDecimal(v) + t)[1..] == Decimal(0 - v) + t;
      NumberReads(0 - v, t);
    } else {
      DecimalValue(v);
      NumberReads(v, t);
    }
  }

  function Power16(k: nat): (p: nat)
    ensures p >= 1
  {
    if k == 0 then 1 else 16 * Power16(k - 1)
  }

  lemma {:induction false} HexIsWorth(n: nat, digits: nat)
    requires n < Power16(digits)
    ensures HexDigits(Hex(n, digits)) && HexWorth(Hex(n, digits)) == n
    decreases digits
  {
    if digits > 0 {
      var s := Hex(n, digits);
      HexIsWorth(n / 16, digits - 1);
      assert s[..|s| - 1] == Hex(n / 16, digits - 1);
    }
  }

  lemma HexReads(n: nat, digits: nat, t: seq<byte>)
    requires (digits == 4 && n < 0x10000) || (digits == 8 && n < 0x100000000)
    ensures ReadHex(Hex(n, digits) + t, digits) == Got(n, t)
  {
    assert Power16(4) == 0x10000;
    assert Power16(8) == 0x100000000;
    hide Hex, Power16, HexWorth;
    HexIsWorth(n, digits);
    assert (Hex(n, digits) + t)[..digits] == Hex(n, digits);
  }

  lemma {:induction false} LineReads(line: seq<byte>, t: seq<byte>)
    requires LF !in line
    ensures ReadLine(line + [LF] + t) == Got(line, t)
    decreases |line|
  {
    var s := line + [LF] + t;
    if line == [] {
      assert s[1..] == t;
    } else {
      assert s[1..] == line[1..] + [LF] + t;
      LineReads(line[1..], t);
      assert line == [line[0]] + line[1..] && line[0] in line;
    }
  }

  lemma BitRowReads(address: nat, value: nat, t: seq<byte>)
    ensures ReadBitRow(Decimal(address) + Ascii(" : ") + Decimal(value) + [LF] + t) == Got(BitRow(address, value), t)
  {
    hide Decimal, Ascii, Skip, ReadNumber;
    Marks();
    var s3 := Ascii("\n") + t;
    var s2 := Decimal(value) + s3;
    var s1 := Ascii(" : ") + s2;
    assert Decimal(address) + Ascii(" : ") + Decimal(value) + [LF] + t == Decimal(address) + s1;
    Skipped("\n", t);
    NumberReads(value, s3);
    Skipped(" : ", s2);
    NumberReads(address, s1);
  }

  lemma WordRowReads(address: nat, value: word, signed: int, t: seq<byte>)
    ensures ReadWordRow(Decimal(address) + Ascii(" : ") + Decimal(value) + Ascii(" | 0x") + Hex(value, 4)
                        + Ascii(" | ") + SignedDecimal(signed) + [LF] + t) ==
            Got(WordRow(address, value, value, signed), t)
  {
    hide Decimal, SignedDecimal, Hex, Ascii, Skip, ReadNumber, ReadHex, ReadSigned;
    Marks();
    var s7 := Ascii("\n") + t;
    var s6 := SignedDecimal(signed) + s7;
    var s5 := Ascii(" | ") + s6;
    var s4 := Hex(value, 4) + s5;
    var s3 := Ascii(" | 0x") + s4;
    var s2 := Decimal(value) + s3;
    var s1 := Ascii(" : ") + s2;
    assert Decimal(address) + Ascii(" : ") + Decimal(value) + Ascii(" | 0x") + Hex(value, 4)
           + Ascii(" | ") + SignedDecimal(signed) + [LF] + t == Decimal(address) + s1;
    Skipped("\n", t);
    SignedReads(signed, s7);
    Skipped(" | ", s6);
    HexReads(value, 4, s5);
    Skipped(" | 0x", s4);
    NumberReads(value, s3);
    Skipped(" : ", s2);
    NumberReads(address, s1);
  }

  lemma LoneReads(view: View, address: nat, value: word, t: seq<byte>)
    ensures ReadPairRow(view, Decimal(address) + Ascii(" : unpaired register 0x") + Hex(value, 4)
                              + Ascii(" (needs the next register)\n") + t) == Got(LoneRow(address, value), t)
  {
    hide Decimal, Hex, ReadNumber, ReadHex;
    var s3 := Ascii(" (needs the next register)\n") + t;
    var s2 := Hex(value, 4) + s3;
    var s1 := Ascii(" : unpaired register 0x") + s2;
    assert s1[0] == 32 && Skip(s1, "-").Bad?;
    hide Ascii, Skip;
    assert Decimal(address) + Ascii(" : unpaired register 0x") + Hex(value, 4)
           + Ascii(" (needs the next register)\n") + t == Decimal(address) + s1;
    Skipped(" (needs the next register)\n", t);
    HexReads(value, 4, s3);
    Skipped(" : unpaired register 0x", s2);
    NumberReads(address, s1);
  }

  lemma RawReads(first: word, second: word, bits: nat, t: seq<byte>)
    requires bits < 0x100000000
    ensures ReadRaw(Ascii("  Raw ") + Hex(first, 4) + [SP] + Hex(second, 4) + Ascii(" | bits 0x") + Hex(bits, 8)
                    + [LF] + t) ==
            Got((first as nat, second as nat, bits), t)
  {
    hide Hex, Ascii, Skip, ReadHex;
    Marks();
    var s6 := Ascii("\n") + t;
    var s5 := Hex(bits, 8) + s6;
    var s4 := Ascii(" | bits 0x") + s5;
    var s3 := Hex(second, 4) + s4;
    var s2 := Ascii(" ") + s3;
    var s1 := Hex(first, 4) + s2;
    assert Ascii("  Raw ") + Hex(first, 4) + [SP] + Hex(second, 4) + Ascii(" | bits 0x") + Hex(bits, 8) + [LF] + t ==
           Ascii("  Raw ") + s1;
    Skipped("\n", t);
    HexReads(bits, 8, s6);
    Skipped(" | bits 0x", s5);
    HexReads(second, 4, s4);
    Skipped(" ", s3);
    HexReads(first, 4, s2);
    Skipped("  Raw ", s1);
  }

  predicate OneLine(float: nat -> seq<byte>, bits: nat) { LF !in float(bits) }

  lemma Specials()
    ensures LF !in Ascii("NaN") && LF !in Ascii("-Infinity") && LF !in Ascii("+Infinity")
    ensures Ascii("-Infinity") == Ascii("-") + Ascii("Infinity")
    ensures Ascii("+Infinity") == Ascii("+") + Ascii("Infinity")
  {
  }

  lemma FloatTells(bits: nat, float: nat -> seq<byte>)
    requires OneLine(float, bits)
    ensures LF !in FloatText(bits, float) && NumberTells(Float32, Floating(FloatText(bits, float)), bits, float)
  {
    hide Ascii, ByteData.Binary32;
    Specials();
    match ByteData.Binary32(bits)
    case NaN =>
    case Infinite(_) =>
    case Finite(_, _, _) =>
  }

  lemma ViewReads(s: Shown, bits: nat, float: nat -> seq<byte>, t: seq<byte>) returns (number: Number)
    requires s.view != Words && bits < 0x100000000 && (s.view == Float32 ==> OneLine(float, bits))
    ensures ReadView(s.view, NumberText(s, bits, float) + [LF] + t) == Got(number, t)
    ensures NumberTells(s.view, number, bits, float)
  {
    hide Decimal, SignedDecimal, Ascii, Skip, ReadNumber, ReadSigned, ReadLine, FloatText;
    Marks();
    var end := Ascii("\n") + t;
    Skipped("\n", t);
    match s.view
    case Unsigned32 =>
      number := Unsigned(bits);
      assert Decimal(bits) + [LF] + t == Decimal(bits) + end;
      NumberReads(bits, end);
    case Signed32 =>
      var v := TwosComplement(bits, 0x100000000);
      number := Signed(v);
      assert SignedDecimal(v) + [LF] + t == SignedDecimal(v) + end;
      SignedReads(v, end);
    case Float32 =>
      number := Floating(FloatText(bits, float));
      FloatTells(bits, float);
      LineReads(FloatText(bits, float), t);
  }

  lemma PairBitsOrdered(order: Order, first: word, second: word)
    ensures PairBits(order, first, second) == Ordered(order, first, second) < 0x100000000
  {
    OrderNamesBytes(order, first / 256, first % 256, second / 256, second % 256);
    assert ReadU16(first / 256, first % 256) == first && ReadU16(second / 256, second % 256) == second;
  }

  lemma PairReads(s: Shown, address: nat, first: word, second: word, float: nat -> seq<byte>, t: seq<byte>)
      returns (row: Row)
    requires s.view != Words && (s.view == Float32 ==> forall b :: OneLine(float, b))
    ensures var bits := PairBits(s.order, first, second);
      ReadPairRow(s.view, Decimal(address) + [45] + Decimal(address + 1) + Ascii(" : ") + NumberText(s, bits, float)
        + Ascii("\n  Raw ") + Hex(first, 4) + [SP] + Hex(second, 4) + Ascii(" | bits 0x") + Hex(bits, 8) + [LF] + t) ==
      Got(row, t)
    ensures row.PairRow? && row.address == address && row.next == address + 1
    ensures row.first == first && row.second == second && row.bits == PairBits(s.order, first, second)
    ensures NumberTells(s.view, row.number, row.bits, float)
  {
    hide Decimal, Hex, Ascii, Skip, ReadNumber, ReadHex, ReadView, ReadRaw, NumberText, PairBits, NumberTells;
    Marks();
    PairBitsOrdered(s.order, first, second);
    var bits := PairBits(s.order, first, second);
    var raw := Ascii("  Raw ") + Hex(first, 4) + [SP] + Hex(second, 4) + Ascii(" | bits 0x") + Hex(bits, 8) + [LF] + t;
    var s4 := NumberText(s, bits, float) + [LF] + raw;
    var s3 := Ascii(" : ") + s4;
    var s2 := Decimal(address + 1) + s3;
    var s1 := Ascii("-") + s2;
    assert Decimal(address) + [45] + Decimal(address + 1) + Ascii(" : ") + NumberText(s, bits, float)
        + Ascii("\n  Raw ") + Hex(first, 4) + [SP] + Hex(second, 4) + Ascii(" | bits 0x") + Hex(bits, 8) + [LF] + t ==
      Decimal(address) + s1;
    RawReads(first, second, bits, t);
    var number := ViewReads(s, bits, float, raw);
    Skipped(" : ", s4);
    NumberReads(address + 1, s3);
    Skipped("-", s2);
    NumberReads(address, s1);
    row := PairRow(address, address + 1, number, first, second, bits);
  }

  /** A row is read as what it must say, whatever follows it. */
  lemma ItemReads(s: Shown, i: nat, float: nat -> seq<byte>, t: seq<byte>) returns (row: Row)
    requires Formats(s) && i < |s.values| && (s.view == Float32 ==> forall b :: OneLine(float, b))
    ensures ReadRow(KindOf(s), Item(s, i, float) + t) == Got(row, t) && RowTells(s, row, i, float)
  {
    hide Decimal, SignedDecimal, Hex, Ascii, ReadBitRow, ReadWordRow, ReadPairRow, NumberText, PairBits, NumberTells;
    var address, first := s.request.address + i, s.values[i];
    if Bits(s) {
      BitRowReads(address, first, t);
      row := BitRow(address, first);
    } else if s.view == Words {
      WordRowReads(address, first, TwosComplement(first, 0x10000), t);
      row := WordRow(address, first, first, TwosComplement(first, 0x10000));
    } else if i + 1 == |s.values| {
      LoneReads(s.view, address, first, t);
      row := LoneRow(address, first);
    } else {
      row := PairReads(s, address, first, s.values[i + 1], float, t);
      PairBitsOrdered(s.order, first, s.values[i + 1]);
    }
  }

  lemma RowsJoin(s: Shown, row: Row, more: seq<Row>, i: nat, float: nat -> seq<byte>)
    requires i < |s.values| && RowTells(s, row, i, float) && RowsTell(s, more, Next(s, i), float)
    ensures RowsTell(s, [row] + more, i, float)
  {
    hide RowTells;
    var rows := [row] + more;
    forall k | 0 <= k < |rows| ensures RowTells(s, rows[k], Start(s, i, k), float) {
      if k > 0 { assert rows[k] == more[k - 1] && Start(s, i, k) == Start(s, Next(s, i), k - 1); }
    }
  }

  lemma {:induction false} BodyReads(s: Shown, i: nat, float: nat -> seq<byte>) returns (rows: seq<Row>)
    requires Formats(s) && i <= |s.values| && (s.view == Float32 ==> forall b :: OneLine(float, b))
    ensures ReadRows(KindOf(s), Body(s, i, float)) == Some(rows) && RowsTell(s, rows, i, float)
    decreases |s.values| - i
  {
    hide ReadRow, RowTells, Item, OneLine;
    if i == |s.values| {
      rows := [];
    } else {
      var row := ItemReads(s, i, float, Body(s, Next(s, i), float));
      var more := BodyReads(s, Next(s, i), float);
      rows := [row] + more;
      RowsJoin(s, row, more, i, float);
    }
  }

  lemma Differ(a: string, b: string, t: seq<byte>)
    requires a != "" && b != "" && a[0] != b[0] && a[0] as int < 256 && b[0] as int < 256
    ensures Skip(Ascii(a) + t, b).Bad?
  {
    assert Ascii(a)[0] != Ascii(b)[0];
  }

  function OrderName(order: Order): string {
    match order case ABCD => "ABCD" case CDAB => "CDAB" case BADC => "BADC" case DCBA => "DCBA"
  }

  function ViewTitle(view: View): string
    requires view != Words
  {
    match view case Unsigned32 => "Unsigned 32-bit | " case Signed32 => "Signed 32-bit | " case Float32 => "Float32 | "
  }

  lemma OrderReads(view: View, order: Order, t: seq<byte>)
    ensures ReadPairHeader(view, Ascii(OrderName(order)) + (Ascii(" | zero-based address pairs\n") + t)) ==
            Got(PairKind(view, order), t)
  {
    hide Ascii, Skip;
    var name, rest := OrderName(order), Ascii(" | zero-based address pairs\n") + t;
    if name != "ABCD" { Differ(name, "ABCD", rest); }
    if name != "CDAB" { Differ(name, "CDAB", rest); }
    if name != "BADC" { Differ(name, "BADC", rest); }
    if name != "DCBA" { Differ(name, "DCBA", rest); }
    Skipped(name, rest);
    Skipped(" | zero-based address pairs\n", t);
  }

  lemma FirstWords(title: string, t: seq<byte>)
    requires title in ["Zero-based address : bit value\n", "Address : unsigned | hex | signed int16\n",
                       "Unsigned 32-bit | ", "Signed 32-bit | ", "Float32 | "]
    ensures Skip(Ascii(title) + t, "Zero-based address : bit value\n").Got? <==> title[0] == 'Z'
    ensures Skip(Ascii(title) + t, "Address : unsigned | hex | signed int16\n").Got? <==> title[0] == 'A'
    ensures Skip(Ascii(title) + t, "Unsigned 32-bit | ").Got? <==> title[0] == 'U'
    ensures Skip(Ascii(title) + t, "Signed 32-bit | ").Got? <==> title[0] == 'S'
    ensures Skip(Ascii(title) + t, "Float32 | ").Got? <==> title[0] == 'F'
  {
    hide Ascii, Skip;
    Skipped(title, t);
    if title[0] != 'Z' { Differ(title, "Zero-based address : bit value\n", t); }
    if title[0] != 'A' { Differ(title, "Address : unsigned | hex | signed int16\n", t); }
    if title[0] != 'U' { Differ(title, "Unsigned 32-bit | ", t); }
    if title[0] != 'S' { Differ(title, "Signed 32-bit | ", t); }
    if title[0] != 'F' { Differ(title, "Float32 | ", t); }
  }

  lemma HeaderIs(s: Shown)
    requires !Bits(s) && s.view != Words
    ensures Header(s) ==
            Ascii(ViewTitle(s.view)) + (Ascii(OrderName(s.order)) + Ascii(" | zero-based address pairs\n"))
  {
    assert Ascii("Unsigned 32-bit") + Ascii(" | ") == Ascii("Unsigned 32-bit | ");
    assert Ascii("Signed 32-bit") + Ascii(" | ") == Ascii("Signed 32-bit | ");
    assert Ascii("Float32") + Ascii(" | ") == Ascii("Float32 | ");
    hide Ascii;
  }

  lemma ViewTitleReads(view: View, t: seq<byte>)
    requires view != Words
    ensures ReadHeader(Ascii(ViewTitle(view)) + t) == ReadPairHeader(view, t)
  {
    hide Ascii, Skip, ReadPairHeader;
    FirstWords(ViewTitle(view), t);
    Skipped(ViewTitle(view), t);
  }

  lemma SingleTitleReads(title: string, t: seq<byte>)
    requires title in ["Zero-based address : bit value\n", "Address : unsigned | hex | signed int16\n"]
    ensures ReadHeader(Ascii(title) + t) == Got(if title[0] == 'Z' then BitKind else WordKind, t)
  {
    hide Ascii, Skip, ReadPairHeader;
    FirstWords(title, t);
    Skipped(title, t);
  }

  lemma PairHeaderReads(s: Shown, t: seq<byte>)
    requires !Bits(s) && s.view != Words
    ensures ReadHeader(Header(s) + t) == Got(KindOf(s), t)
  {
    hide Ascii, ReadPairHeader, ReadHeader, Header, ViewTitle, OrderName;
    HeaderIs(s);
    var rest := Ascii(OrderName(s.order)) + (Ascii(" | zero-based address pairs\n") + t);
    assert Header(s) + t == Ascii(ViewTitle(s.view)) + rest;
    ViewTitleReads(s.view, rest);
    OrderReads(s.view, s.order, t);
  }

  lemma HeaderReads(s: Shown, t: seq<byte>)
    ensures ReadHeader(Header(s) + t) == Got(KindOf(s), t)
  {
    hide Ascii, ReadHeader;
    if Bits(s) {
      SingleTitleReads("Zero-based address : bit value\n", t);
    } else if s.view == Words {
      SingleTitleReads("Address : unsigned | hex | signed int16\n", t);
    } else {
      PairHeaderReads(s, t);
    }
  }

  /** Main result: the text of every reply that is shown is read back as the kind, the order, and for each
      value in turn its address and what the view says of it. The text of a finite Float32 number is
      taken as the C library printed it, on one line. */
  lemma TextTells(s: Shown, float: nat -> seq<byte>) returns (rows: seq<Row>)
    requires Formats(s) && (s.view == Float32 ==> forall b :: OneLine(float, b))
    ensures ReadText(Text(s, float)) == Some(Report(KindOf(s), rows)) && RowsTell(s, rows, 0, float)
  {
    hide ReadHeader, ReadRows, Body, Header, RowsTell, OneLine;
    HeaderReads(s, Body(s, 0, float));
    rows := BodyReads(s, 0, float);
  }
}
