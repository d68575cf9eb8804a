/** Modbus read requests and the strict TCP and RTU reply parsers. */
module Modbus {
  import opened Bytes
  import opened Crc

  const MAX_VALUES: nat := 16
  const MAX_RESPONSE_BYTES: nat := 41
  const RTU_MAX_RESPONSE_BYTES: nat := 37

  datatype Request = Request(transaction: word, unit: byte, code: byte, address: word, quantity: word)

  datatype Status = Ok | Exception | InvalidRequest | InvalidResponse | CrcMismatch

  /** What a parser reports. Cleared fields are empty or zero. */
  datatype Reply = Reply(status: Status, values: seq<word>, exceptionCode: byte)

  predicate ValidRequest(r: Request) {
    1 <= r.code <= 4 && 1 <= r.quantity <= MAX_VALUES && r.address + r.quantity <= 65536
  }

  predicate ValidRtuRequest(r: Request) { ValidRequest(r) && 1 <= r.unit <= 247 }

  function DataBytes(r: Request): nat { if r.code <= 2 then (r.quantity + 7) / 8 else 2 * r.quantity }

  function ReadU16(high: byte, low: byte): word { 256 * high + low }

  // ---- The wire format (Modbus Application Protocol V1.1b3, sections 6.1 to 6.4 and 7) ------

  /** Bits packed eight to a byte, least significant first, the last byte padded with zeros. */
  function PackedBits(bits: seq<bit>): (s: seq<byte>)
    ensures |s| == (|bits| + 7) / 8
    decreases |bits|
  {
    if bits == [] then []
    else
      var n := Min(8, |bits|);
      PackBits(bits[..n]);
      Widths();
      Pow2Grows(n, 8);
      [Pack(bits[..n])] + PackedBits(bits[n..])
  }

  function BigEndian(values: seq<word>): (s: seq<byte>)
    ensures |s| == 2 * |values|
  {
    seq(2 * |values|, i requires 0 <= i < 2 * |values| =>
      if i % 2 == 0 then values[i / 2] / 256 else values[i / 2] % 256)
  }

  predicate ValidValues(r: Request, values: seq<word>) {
    |values| == r.quantity && (r.code <= 2 ==> forall i :: 0 <= i < |values| ==> values[i] < 2)
  }

  function AsBits(values: seq<word>): (bits: seq<bit>)
    requires forall i :: 0 <= i < |values| ==> values[i] < 2
    ensures |bits| == |values| && forall i :: 0 <= i < |values| ==> bits[i] == values[i]
  {
    seq(|values|, i requires 0 <= i < |values| => values[i])
  }

  function EncodeData(r: Request, values: seq<word>): (s: seq<byte>)
    requires ValidValues(r, values)
    ensures |s| == DataBytes(r)
  {
    if r.code <= 2 then PackedBits(AsBits(values)) else BigEndian(values)
  }

  function EncodePdu(r: Request, values: seq<word>): seq<byte>
    requires ValidRequest(r) && ValidValues(r, values)
  {
    [r.code, DataBytes(r)] + EncodeData(r, values)
  }

  function ExceptionPdu(r: Request, code: byte): seq<byte>
    requires ValidRequest(r)
  {
    [r.code + 128, code]
  }

  function TcpFrame(r: Request, pdu: seq<byte>): seq<byte>
    requires |pdu| < 65535
  {
    BigEndian([r.transaction, 0, |pdu| + 1]) + [r.unit] + pdu
  }

  function RtuFrame(r: Request, pdu: seq<byte>): seq<byte> {
    Crc16Fits([r.unit] + pdu);
    var crc := Crc16([r.unit] + pdu);
    [r.unit] + pdu + [crc % 256, crc / 256]
  }

  lemma Crc16Fits(body: seq<byte>)
    ensures Crc16(body) < 65536
  {
    Widths();
    AbsorbFits(CRC16_POLY, 16, 0xffff, body);
  }

  // ---- The parsers as functions of the received bytes --------------------------------------

  function BitValues(bits: seq<bit>): (values: seq<word>)
    ensures |values| == |bits| && forall i :: 0 <= i < |bits| ==> values[i] == bits[i]
  {
    if bits == [] then [] else BitValues(bits[..|bits| - 1]) + [bits[|bits| - 1]]
  }

  function DecodeData(r: Request, data: seq<byte>): (values: seq<word>)
    requires ValidRequest(r) && |data| == DataBytes(r)
    ensures |values| == r.quantity
  {
    if r.code <= 2 then BitValues(WireBits(data)[..r.quantity])
    else seq(r.quantity, i requires 0 <= i < r.quantity => ReadU16(data[2 * i], data[2 * i + 1]))
  }

  function ParsePdu(r: Request, pdu: seq<byte>): Reply
    requires ValidRequest(r)
  {
    if |pdu| < 2 then Reply(InvalidResponse, [], 0)
    else if pdu[0] == r.code + 128 then
      if |pdu| != 2 || pdu[1] == 0 then Reply(InvalidResponse, [], 0) else Reply(Exception, [], pdu[1])
    else if pdu[0] != r.code || pdu[1] != DataBytes(r) || |pdu| != 2 + DataBytes(r) then Reply(InvalidResponse, [], 0)
    else if r.code <= 2 && r.quantity % 8 != 0 && pdu[|pdu| - 1] >= Pow2(r.quantity % 8) then
      Reply(InvalidResponse, [], 0)
    else Reply(Ok, DecodeData(r, pdu[2..]), 0)
  }

  /** modbus_response_length: the frame length announced by a six-byte header, if acceptable. */
  function ResponseLength(r: Request, header: seq<byte>): Option<nat>
    requires |header| >= 6
  {
    if !ValidRequest(r) then None
    else if ReadU16(header[0], header[1]) != r.transaction || ReadU16(header[2], header[3]) != 0 then None
    else
      var total := ReadU16(header[4], header[5]) + 6;
      if total != 9 && total != 9 + DataBytes(r) then None else Some(total)
  }

  function ParseTcp(r: Request, bytes: seq<byte>): Reply {
    if !ValidRequest(r) then Reply(InvalidRequest, [], 0)
    else if |bytes| < 9 || |bytes| > MAX_RESPONSE_BYTES then Reply(InvalidResponse, [], 0)
    else if ResponseLength(r, bytes) != Some(|bytes|) || bytes[6] != r.unit then Reply(InvalidResponse, [], 0)
    else ParsePdu(r, bytes[7..])
  }

  function ParseRtu(r: Request, bytes: seq<byte>): Reply {
    if !ValidRtuRequest(r) then Reply(InvalidRequest, [], 0)
    else if |bytes| < 5 || |bytes| > RTU_MAX_RESPONSE_BYTES || bytes[0] != r.unit then Reply(InvalidResponse, [], 0)
    else
      var n := |bytes| - 2;
      if Crc16(bytes[..n]) != ReadU16(bytes[n + 1], bytes[n]) then Reply(CrcMismatch, [], 0)
      else ParsePdu(r, bytes[1..n])
  }

  // ---- Bit packing is exact ----------------------------------------------------------------

  lemma {:induction false} WireBitOf(data: seq<byte>, i: nat)
    requires i < 8 * |data|
    ensures WireBits(data)[i] == LowBits(data[i / 8], 8)[i % 8]
    decreases |data|
  {
    var n := |data| - 1;
    if i < 8 * n {
      WireBitOf(data[..n], i);
    }
  }

  lemma {:induction false} PackPadded(bits: seq<bit>, n: nat)
    requires |bits| <= n
    ensures LowBits(Pack(bits), n) == bits + Zeros(n - |bits|)
    decreases n
  {
    if bits != [] {
      PackPadded(bits[1..], n - 1);
      assert Pack(bits) / 2 == Pack(bits[1..]) && Pack(bits) % 2 == bits[0];
      assert bits + Zeros(n - |bits|) == [bits[0]] + (bits[1..] + Zeros(n - |bits|));
    } else if n > 0 {
      PackPadded([], n - 1);
      assert LowBits(0, n) == [0] + LowBits(0, n - 1);
      assert [0] + Zeros(n - 1) == Zeros(n);
    }
  }

  lemma {:induction false} WireBitsCons(b: byte, rest: seq<byte>)
    ensures WireBits([b] + rest) == LowBits(b, 8) + WireBits(rest)
    decreases |rest|
  {
    var s := [b] + rest;
    if rest == [] {
      assert s[..0] == [];
    } else {
      var n := |rest| - 1;
      assert s[..|s| - 1] == [b] + rest[..n];
      WireBitsCons(b, rest[..n]);
    }
  }

  lemma {:induction false} PackedBitsOnWire(bits: seq<bit>)
    ensures WireBits(PackedBits(bits)) == bits + Zeros(8 * |PackedBits(bits)| - |bits|)
    decreases |bits|
  {
    hide WireBits, LowBits, Pack;
    if bits != [] {
      var n := Min(8, |bits|);
      var b, rest := Pack(bits[..n]), PackedBits(bits[n..]);
      PackBits(bits[..n]);
      Widths();
      Pow2Grows(n, 8);
      WireBitsCons(b, rest);
      PackPadded(bits[..n], 8);
      PackedBitsOnWire(bits[n..]);
      if |bits| <= 8 {
        assert bits[..n] == bits && bits[n..] == [] && rest == [];
        assert WireBits(rest) == [];
        assert WireBits(PackedBits(bits)) == bits + Zeros(8 - |bits|) + [];
      } else {
        assert bits[..8] + Zeros(0) == bits[..8];
        assert bits == bits[..8] + bits[8..];
      }
    }
  }

  /** No bit from position k on is set. */
  predicate Clear(bits: seq<bit>, k: nat) { forall j :: k <= j < |bits| ==> bits[j] == 0 }

  lemma OneLater(s: seq<bit>, t: seq<bit>, k: nat)
    requires s != [] && s[1..] == t
    ensures k > 0 ==> (Clear(s, k) <==> Clear(t, k - 1))
    ensures Clear(s, 0) <==> s[0] == 0 && Clear(t, 0)
  {
    assert forall j :: 0 <= j < |t| ==> t[j] == s[j + 1];
    assert forall j :: 1 <= j < |s| ==> s[j] == t[j - 1];
  }

  /** A value lies below a power of two exactly when no higher bit is set. */
  lemma {:induction false} HighBitsClear(v: nat, n: nat, k: nat)
    requires v < Pow2(n) && k <= n
    ensures v < Pow2(k) <==> Clear(LowBits(v, n), k)
    decreases n
  {
    if n > 0 {
      assert v == 2 * (v / 2) + v % 2 && (k > 0 ==> Pow2(k) == 2 * Pow2(k - 1));
      OneLater(LowBits(v, n), LowBits(v / 2, n - 1), k);
      HighBitsClear(v / 2, n - 1, if k == 0 then 0 else k - 1);
    }
  }

  /** The parser's padding test: every bit past the requested quantity is zero. */
  lemma PaddingClear(data: seq<byte>, quantity: nat)
    requires quantity > 0 && |data| == (quantity + 7) / 8
    ensures (quantity % 8 == 0 || data[|data| - 1] < Pow2(quantity % 8)) <==> Clear(WireBits(data), quantity)
  {
    if quantity % 8 != 0 { PartialByte(data, quantity); } else { hide WireBits; }
  }

  lemma PartialByte(data: seq<byte>, quantity: nat)
    requires quantity % 8 != 0 && |data| == (quantity + 7) / 8
    ensures data[|data| - 1] < Pow2(quantity % 8) <==> Clear(WireBits(data), quantity)
  {
    hide WireBits, LowBits, Pow2, Clear;
    var n, k := |data| - 1, quantity % 8;
    LastBits(data);
    Widths();
    HighBitsClear(data[n], 8, k);
    assert quantity == 8 * n + k;
    ClearBehind(WireBits(data), LowBits(data[n], 8), 8 * n, k);
  }

  lemma LastBits(data: seq<byte>)
    requires data != []
    ensures WireBits(data)[8 * (|data| - 1)..] == LowBits(data[|data| - 1], 8)
  {
  }

  lemma ClearBehind(w: seq<bit>, last: seq<bit>, at: nat, k: nat)
    requires at <= |w| && w[at..] == last
    ensures Clear(w, at + k) <==> Clear(last, k)
  {
    assert forall j :: 0 <= j < |last| ==> last[j] == w[at + j];
    assert forall i :: at <= i < |w| ==> w[i] == last[i - at];
  }

  // ---- Exactness of the parsers ------------------------------------------------------------

  lemma BitsExact(r: Request, data: seq<byte>)
    requires ValidRequest(r) && r.code <= 2 && |data| == DataBytes(r)
    ensures var values := DecodeData(r, data);
      && ValidValues(r, values)
      && (data == EncodeData(r, values) <==> r.quantity % 8 == 0 || data[|data| - 1] < Pow2(r.quantity % 8))
  {
    var values := DecodeData(r, data);
    assert forall i :: 0 <= i < |values| ==> values[i] == WireBits(data)[i];
    var bits := AsBits(values);
    assert bits == WireBits(data)[..r.quantity];
    PackedBitsOnWire(bits);
    PaddingClear(data, r.quantity);
    var padded := bits + Zeros(8 * |data| - |bits|);
    if Clear(WireBits(data), r.quantity) {
      assert WireBits(data) == padded;
      WireBitsInjective(data, PackedBits(bits));
    }
  }

  lemma BitsRoundTrip(r: Request, values: seq<word>)
    requires ValidRequest(r) && r.code <= 2 && ValidValues(r, values)
    ensures DecodeData(r, EncodeData(r, values)) == values
  {
    PackedBitsOnWire(AsBits(values));
  }

  lemma WordsExact(r: Request, data: seq<byte>)
    requires ValidRequest(r) && r.code > 2 && |data| == DataBytes(r)
    ensures data == EncodeData(r, DecodeData(r, data))
  {
    var values := DecodeData(r, data);
    forall i | 0 <= i < |data| ensures data[i] == BigEndian(values)[i] {
      assert values[i / 2] == ReadU16(data[2 * (i / 2)], data[2 * (i / 2) + 1]);
    }
  }

  lemma BigEndianAt(values: seq<word>, i: nat)
    requires i < |values|
    ensures BigEndian(values)[2 * i] == values[i] / 256 && BigEndian(values)[2 * i + 1] == values[i] % 256
  {
    assert (2 * i) / 2 == i && (2 * i + 1) / 2 == i && (2 * i + 1) % 2 == 1;
  }

  lemma WordsRoundTrip(r: Request, values: seq<word>)
    requires ValidRequest(r) && r.code > 2 && ValidValues(r, values)
    ensures DecodeData(r, EncodeData(r, values)) == values
  {
    hide PackedBits, WireBits;
    var data := EncodeData(r, values);
    var back := DecodeData(r, data);
    forall i | 0 <= i < |values| ensures back[i] == values[i] {
      BigEndianAt(values, i);
    }
  }

  /** A read PDU is accepted exactly when it is the canonical encoding of the reported values. */
  lemma PduExact(r: Request, pdu: seq<byte>, values: seq<word>)
    requires ValidRequest(r)
    ensures ParsePdu(r, pdu) == Reply(Ok, values, 0) <==> ValidValues(r, values) && pdu == EncodePdu(r, values)
  {
    hide WireBits, Pow2, PackedBits, BigEndian;
    if ValidValues(r, values) && pdu == EncodePdu(r, values) {
      assert pdu[2..] == EncodeData(r, values);
      if r.code <= 2 { BitsRoundTrip(r, values); BitsExact(r, pdu[2..]); } else { WordsRoundTrip(r, values); }
    }
    if ParsePdu(r, pdu) == Reply(Ok, values, 0) {
      if r.code <= 2 { BitsExact(r, pdu[2..]); } else { WordsExact(r, pdu[2..]); }
      assert pdu == [pdu[0], pdu[1]] + pdu[2..];
    }
  }

  lemma PduException(r: Request, pdu: seq<byte>, code: byte)
    requires ValidRequest(r)
    ensures ParsePdu(r, pdu) == Reply(Exception, [], code) <==> code != 0 && pdu == ExceptionPdu(r, code)
  {
  }

  /** Anything that is neither accepted nor an exception leaves no value behind. */
  lemma PduCleared(r: Request, pdu: seq<byte>)
    requires ValidRequest(r)
    ensures var reply := ParsePdu(r, pdu);
      && (reply.status.Ok? ==> reply.exceptionCode == 0)
      && (reply.status.Exception? ==> reply.values == [])
      && (!reply.status.Ok? && !reply.status.Exception? ==> reply.values == [] && reply.exceptionCode == 0)
  {
  }

  lemma WordBytes(v: word, high: byte, low: byte)
    ensures ReadU16(high, low) == v <==> high == v / 256 && low == v % 256
  {
  }

  lemma HeaderBytes(r: Request, header: seq<byte>, n: word)
    requires |header| == 6
    ensures header == BigEndian([r.transaction, 0, n]) <==>
      ReadU16(header[0], header[1]) == r.transaction && ReadU16(header[2], header[3]) == 0 &&
        ReadU16(header[4], header[5]) == n
  {
    var values := [r.transaction, 0, n];
    BigEndianAt(values, 0);
    BigEndianAt(values, 1);
    BigEndianAt(values, 2);
    WordBytes(r.transaction, header[0], header[1]);
    WordBytes(0, header[2], header[3]);
    WordBytes(n, header[4], header[5]);
    hide BigEndian, ReadU16;
    var s := BigEndian(values);
    assert s == [s[0], s[1], s[2], s[3], s[4], s[5]];
    assert header == [header[0], header[1], header[2], header[3], header[4], header[5]];
  }

  lemma TcpEnvelope(r: Request, bytes: seq<byte>)
    requires ValidRequest(r) && 9 <= |bytes| <= MAX_RESPONSE_BYTES
    ensures ResponseLength(r, bytes) == Some(|bytes|) && bytes[6] == r.unit <==>
            bytes == TcpFrame(r, bytes[7..]) && |bytes| in {9, 9 + DataBytes(r)}
  {
    hide BigEndian;
    HeaderBytes(r, bytes[..6], |bytes| - 6);
    var head := BigEndian([r.transaction, 0, |bytes| - 6]);
    var f := head + [r.unit] + bytes[7..];
    assert f == TcpFrame(r, bytes[7..]);
    assert f[..6] == head && f[6] == r.unit;
    assert bytes == bytes[..6] + [bytes[6]] + bytes[7..];
  }

  /** Main result for TCP: success means exactly the canonical frame of the reported values, so each
      accepted frame has one meaning and each value vector one accepted frame. */
  lemma TcpExact(r: Request, bytes: seq<byte>, values: seq<word>)
    ensures ParseTcp(r, bytes) == Reply(Ok, values, 0) <==>
            ValidRequest(r) && ValidValues(r, values) && bytes == TcpFrame(r, EncodePdu(r, values))
    ensures forall code: byte :: ParseTcp(r, bytes) == Reply(Exception, [], code) <==>
            ValidRequest(r) && code != 0 && bytes == TcpFrame(r, ExceptionPdu(r, code))
  {
    hide WireBits, Pow2, EncodeData, DecodeData, ParsePdu;
    if ValidRequest(r) {
      if 9 <= |bytes| <= MAX_RESPONSE_BYTES {
        TcpEnvelope(r, bytes);
        PduExact(r, bytes[7..], values);
        forall code: byte ensures ParsePdu(r, bytes[7..]) == Reply(Exception, [], code) <==>
          code != 0 && bytes[7..] == ExceptionPdu(r, code) {
          PduException(r, bytes[7..], code);
        }
      }
      if ValidValues(r, values) && bytes == TcpFrame(r, EncodePdu(r, values)) {
        assert bytes[7..] == EncodePdu(r, values);
      }
      forall code: byte | bytes == TcpFrame(r, ExceptionPdu(r, code))
        ensures bytes[7..] == ExceptionPdu(r, code) && |bytes| == 9 {
      }
    }
  }

  lemma RtuEnvelope(r: Request, bytes: seq<byte>)
    requires |bytes| >= 3
    ensures var n := |bytes| - 2;
      bytes[0] == r.unit && Crc16(bytes[..n]) == ReadU16(bytes[n + 1], bytes[n]) <==> bytes == RtuFrame(r, bytes[1..n])
  {
    hide Crc16, ReadU16;
    var n := |bytes| - 2;
    var pdu := bytes[1..n];
    assert bytes[..n] == [bytes[0]] + pdu;
    assert bytes == bytes[..n] + [bytes[n], bytes[n + 1]];
    var body := [r.unit] + pdu;
    Crc16Fits(body);
    WordBytes(Crc16(body), bytes[n + 1], bytes[n]);
    var f := RtuFrame(r, pdu);
    assert f == body + [Crc16(body) % 256, Crc16(body) / 256];
    if bytes == f {
      assert bytes[0] == f[0] == r.unit;
      assert bytes[n] == f[n] && bytes[n + 1] == f[n + 1];
    }
  }

  /** Main result for RTU. */
  lemma RtuExact(r: Request, bytes: seq<byte>, values: seq<word>)
    ensures ParseRtu(r, bytes) == Reply(Ok, values, 0) <==>
            ValidRtuRequest(r) && ValidValues(r, values) && bytes == RtuFrame(r, EncodePdu(r, values))
    ensures forall code: byte :: ParseRtu(r, bytes) == Reply(Exception, [], code) <==>
            ValidRtuRequest(r) && code != 0 && bytes == RtuFrame(r, ExceptionPdu(r, code))
  {
    hide WireBits, Pow2, EncodeData, DecodeData, ParsePdu, Crc16;
    if ValidRequest(r) {
      if 5 <= |bytes| <= RTU_MAX_RESPONSE_BYTES {
        var n := |bytes| - 2;
        RtuEnvelope(r, bytes);
        PduExact(r, bytes[1..n], values);
        forall code: byte ensures ParsePdu(r, bytes[1..n]) == Reply(Exception, [], code) <==>
          code != 0 && bytes[1..n] == ExceptionPdu(r, code) {
          PduException(r, bytes[1..n], code);
        }
      }
      if ValidValues(r, values) && bytes == RtuFrame(r, EncodePdu(r, values)) {
        assert bytes[1..|bytes| - 2] == EncodePdu(r, values);
      }
      forall code: byte | bytes == RtuFrame(r, ExceptionPdu(r, code))
        ensures |bytes| == 5 && bytes[1..3] == ExceptionPdu(r, code) {
      }
    }
  }

  /** A rejected reply reports no value and no exception code, and an exception no value. */
  lemma RejectedIsCleared(r: Request, bytes: seq<byte>)
    ensures forall reply :: reply in {ParseTcp(r, bytes), ParseRtu(r, bytes)} ==>
      && (reply.status.Ok? ==> reply.exceptionCode == 0 && ValidValues(r, reply.values))
      && (!reply.status.Ok? ==> reply.values == [])
      && (!reply.status.Ok? && !reply.status.Exception? ==> reply.exceptionCode == 0)
  {
    hide WireBits, ParsePdu, EncodeData, Crc16;
    if ValidRequest(r) {
      forall pdu: seq<byte> ensures
        && (ParsePdu(r, pdu).status.Ok? ==>
             ParsePdu(r, pdu).exceptionCode == 0 && ValidValues(r, ParsePdu(r, pdu).values))
        && (!ParsePdu(r, pdu).status.Ok? ==> ParsePdu(r, pdu).values == [])
        && (!ParsePdu(r, pdu).status.Ok? && !ParsePdu(r, pdu).status.Exception? ==>
             ParsePdu(r, pdu).exceptionCode == 0) {
        PduCleared(r, pdu);
        PduExact(r, pdu, ParsePdu(r, pdu).values);
      }
    }
  }

  predicate Accepted(reply: Reply) { reply.status.Ok? || reply.status.Exception? }

  /** Main result on transmission errors: an acceptable frame altered by any nonzero error within
      16 consecutive bits on the wire is accepted for no request whatever. */
  lemma BurstRejected(r: Request, f: seq<byte>, q: Request, g: seq<byte>, start: nat)
    requires Accepted(ParseRtu(r, f)) && BurstApart(f, g, start, 16)
    ensures !Accepted(ParseRtu(q, g))
  {
    hide WireBits, ParsePdu, Absorb;
    var n := |f| - 2;
    Widths();
    BurstChangesResidue(CRC16_POLY, 16, 0xffff, f, g, start);
    assert f == f[..n] + [f[n], f[n + 1]] && g == g[..n] + [g[n], g[n + 1]];
    ResidueIsTrailer(f[..n], f[n], f[n + 1]);
    ResidueIsTrailer(g[..n], g[n], g[n + 1]);
  }

  // ---- Requests ----------------------------------------------------------------------------

  function ReadPdu(r: Request): seq<byte> { [r.code] + BigEndian([r.address, r.quantity]) }

  function TcpRequest(r: Request): seq<byte> { TcpFrame(r, ReadPdu(r)) }

  function RtuRequest(r: Request): seq<byte> { RtuFrame(r, ReadPdu(r)) }

  lemma BigEndianInjective(a: seq<word>, b: seq<word>)
    requires BigEndian(a) == BigEndian(b)
    ensures a == b
  {
    assert |BigEndian(a)| == |BigEndian(b)|;
    forall i | 0 <= i < |a| ensures a[i] == b[i] {
      BigEndianAt(a, i);
      BigEndianAt(b, i);
    }
  }

  /** A request frame can be read back: no two requests share one, the serial frame carries no
      transaction id, and its checksum leaves a zero residue. */
  lemma RequestsDistinct(r: Request, q: Request)
    ensures TcpRequest(r) == TcpRequest(q) ==> r == q
    ensures RtuRequest(r) == RtuRequest(q) ==> r.(transaction := 0) == q.(transaction := 0)
    ensures Crc16(RtuRequest(r)) == 0
  {
    hide BigEndian, Absorb;
    var a, b := BigEndian([r.transaction, 0, 6]), BigEndian([q.transaction, 0, 6]);
    var c, d := BigEndian([r.address, r.quantity]), BigEndian([q.address, q.quantity]);
    if TcpRequest(r) == TcpRequest(q) {
      assert TcpRequest(r) == a + [r.unit] + ([r.code] + c) && TcpRequest(q) == b + [q.unit] + ([q.code] + d);
      assert TcpRequest(r)[..6] == a && TcpRequest(q)[..6] == b;
      assert TcpRequest(r)[6] == r.unit && TcpRequest(r)[7] == r.code;
      assert TcpRequest(q)[6] == q.unit && TcpRequest(q)[7] == q.code;
      assert TcpRequest(r)[8..] == c && TcpRequest(q)[8..] == d;
      BigEndianInjective([r.transaction, 0, 6], [q.transaction, 0, 6]);
      assert r.transaction == [r.transaction, 0, 6][0] == [q.transaction, 0, 6][0];
      BigEndianInjective([r.address, r.quantity], [q.address, q.quantity]);
      assert r.address == [r.address, r.quantity][0] && r.quantity == [r.address, r.quantity][1];
    }
    if RtuRequest(r) == RtuRequest(q) {
      assert RtuRequest(r)[0] == r.unit && RtuRequest(r)[1] == r.code;
      assert RtuRequest(q)[0] == q.unit && RtuRequest(q)[1] == q.code;
      assert RtuRequest(r)[2..6] == c && RtuRequest(q)[2..6] == d;
      BigEndianInjective([r.address, r.quantity], [q.address, q.quantity]);
      assert r.address == [r.address, r.quantity][0] && r.quantity == [r.address, r.quantity][1];
    }
    var body := [r.unit] + ReadPdu(r);
    Crc16Fits(body);
    var crc := Crc16(body);
    ResidueIsTrailer(body, crc % 256, crc / 256);
  }

  /** What a device reads in a request, byte by byte: high bytes first, and in a serial frame the checksum
      of the six bytes before it, low byte first. */
  lemma RequestLayout(r: Request)
    ensures var t := TcpRequest(r);
      && |t| == 12 && 256 * t[0] as int + t[1] as int == r.transaction && t[2..6] == [0, 0, 0, 6]
      && t[6] == r.unit && t[7] == r.code
      && 256 * t[8] as int + t[9] as int == r.address && 256 * t[10] as int + t[11] as int == r.quantity
    ensures var s := RtuRequest(r);
      && |s| == 8 && s[0] == r.unit && s[1] == r.code
      && 256 * s[2] as int + s[3] as int == r.address && 256 * s[4] as int + s[5] as int == r.quantity
      && s[6] as int + 256 * s[7] as int == Crc16(s[..6])
  {
    hide Absorb, Crc16;
    var head, body := BigEndian([r.transaction, 0, 6]), BigEndian([r.address, r.quantity]);
    assert TcpRequest(r) == head + [r.unit] + ([r.code] + body);
    assert TcpRequest(r)[2..6] == head[2..6] == [0, 0, 0, 6];
    var s := RtuRequest(r);
    assert s[..6] == [r.unit] + ReadPdu(r) && s[2..6] == body;
    assert s[2] == body[0] && s[3] == body[1] && s[4] == body[2] && s[5] == body[3];
    Crc16Fits(s[..6]);
  }

  /** What a device writes in a reply: a register high byte first, a bit in the byte of its eight, the
      first one lowest. */
  lemma ReplyLayout(r: Request, values: seq<word>, i: nat)
    requires ValidRequest(r) && ValidValues(r, values) && i < r.quantity
    ensures var pdu := EncodePdu(r, values);
      && pdu[0] == r.code && pdu[1] == |pdu| - 2
      && if r.code <= 2 then |pdu| == 2 + (r.quantity + 7) / 8 && LowBits(pdu[2 + i / 8], 8)[i % 8] == values[i]
         else |pdu| == 2 + 2 * r.quantity && 256 * pdu[2 + 2 * i] as int + pdu[3 + 2 * i] as int == values[i]
  {
    hide PackedBits, LowBits, WireBits;
    var data := EncodeData(r, values);
    if r.code <= 2 {
      PackedBitsOnWire(AsBits(values));
      WireBitOf(data, i);
      assert EncodePdu(r, values)[2 + i / 8] == data[i / 8];
    } else {
      assert EncodePdu(r, values)[2 + 2 * i] == data[2 * i] && EncodePdu(r, values)[3 + 2 * i] == data[2 * i + 1];
    }
  }

  method WriteU16(out: array<byte>, at: nat, value: word)
    requires at + 2 <= out.Length
    modifies out
    ensures out[at] == value / 256 && out[at + 1] == value % 256
    ensures forall i :: 0 <= i < out.Length && i != at && i != at + 1 ==> out[i] == old(out[i])
  {
    out[at], out[at + 1] := value / 256, value % 256;
  }

  method BuildReadPdu(r: Request, out: array<byte>, at: nat)
    requires at + 5 <= out.Length
    modifies out
    ensures out[at..at + 5] == ReadPdu(r)
    ensures forall i :: 0 <= i < out.Length && !(at <= i < at + 5) ==> out[i] == old(out[i])
  {
    out[at] := r.code;
    WriteU16(out, at + 1, r.address);
    WriteU16(out, at + 3, r.quantity);
  }

  /** modbus_build_request. */
  method BuildRequest(r: Request, out: array<byte>) returns (built: bool)
    requires out.Length == 12
    modifies out
    ensures built == ValidRequest(r)
    ensures out[..] == if built then TcpRequest(r) else seq(12, _ => 0)
  {
    forall i | 0 <= i < out.Length { out[i] := 0; }
    if !ValidRequest(r) { return false; }
    WriteU16(out, 0, r.transaction);
    WriteU16(out, 4, 6);
    out[6] := r.unit;
    BuildReadPdu(r, out, 7);
    assert out[..6] == BigEndian([r.transaction, 0, 6]);
    assert out[..] == out[..6] + [out[6]] + out[7..12];
    return true;
  }

  /** modbus_rtu_build_request. */
  method RtuBuildRequest(r: Request, out: array<byte>) returns (built: bool)
    requires out.Length == 8
    modifies out
    ensures built == ValidRtuRequest(r)
    ensures out[..] == if built then RtuRequest(r) else seq(8, _ => 0)
  {
    forall i | 0 <= i < out.Length { out[i] := 0; }
    if !ValidRtuRequest(r) { return false; }
    out[0] := r.unit;
    BuildReadPdu(r, out, 1);
    assert out[..6] == [r.unit] + out[1..6];
    var crc := ComputeCrc16(out, 6);
    out[6], out[7] := crc % 256, crc / 256;
    assert out[..] == out[..6] + [out[6], out[7]];
    return true;
  }

  // ---- Replies, parsed in place ------------------------------------------------------------

  /** The caller's result: leading values, the rest of its fixed array cleared. */
  ghost predicate Holds(values: array<word>, count: nat, reply: Reply)
    reads values
  {
    count == |reply.values| <= values.Length && values[..count] == reply.values &&
    forall i :: count <= i < values.Length ==> values[i] == 0
  }

  /** The value loop: the registers, or one bit to a value. */
  method FillValues(r: Request, bytes: array<byte>, at: nat, values: array<word>)
    requires ValidRequest(r) && at + DataBytes(r) <= bytes.Length && values.Length == MAX_VALUES
    requires forall i :: 0 <= i < values.Length ==> values[i] == 0
    modifies values
    ensures values[..r.quantity] == DecodeData(r, bytes[at..at + DataBytes(r)])
    ensures forall k :: r.quantity <= k < values.Length ==> values[k] == 0
  {
    hide LowBits;
    ghost var data := bytes[at..at + DataBytes(r)];
    for i := 0 to r.quantity
      invariant forall k :: 0 <= k < i ==> values[k] == DecodeData(r, data)[k]
      invariant forall k :: i <= k < values.Length ==> values[k] == 0
    {
      if r.code <= 2 {
        WireBitOf(data, i);
        values[i] := LowBits(bytes[at + i / 8], 8)[i % 8];
      } else {
        values[i] := ReadU16(bytes[at + 2 * i], bytes[at + 1 + 2 * i]);
      }
    }
  }

  /** parse_read_pdu on bytes[at..at + length]. */
  method ParseReadPdu(r: Request, bytes: array<byte>, at: nat, length: nat, values: array<word>)
      returns (status: Status, count: nat, code: byte)
    requires ValidRequest(r) && at + length <= bytes.Length && values.Length == MAX_VALUES
    requires forall i :: 0 <= i < values.Length ==> values[i] == 0
    modifies values
    ensures var reply := ParsePdu(r, bytes[at..at + length]);
      status == reply.status && code == reply.exceptionCode && Holds(values, count, reply)
  {
    hide DecodeData, Pow2;
    status, count, code := InvalidResponse, 0, 0;
    if length < 2 { return; }
    if bytes[at] == r.code + 128 {
      if length != 2 || bytes[at + 1] == 0 { return; }
      status, code := Exception, bytes[at + 1];
      return;
    }
    var dataBytes := DataBytes(r);
    if bytes[at] != r.code || bytes[at + 1] != dataBytes || length != 2 + dataBytes { return; }
    if r.code <= 2 && r.quantity % 8 != 0 {
      if bytes[at + length - 1] >= Pow2(r.quantity % 8) { return; }
    }
    assert bytes[at..at + length][2..] == bytes[at + 2..at + 2 + dataBytes];
    FillValues(r, bytes, at + 2, values);
    count := r.quantity;
    status := Ok;
  }

  /** modbus_parse_response. */
  method ParseResponse(r: Request, bytes: array<byte>, length: nat, values: array<word>)
      returns (status: Status, count: nat, code: byte)
    requires length <= bytes.Length && values.Length == MAX_VALUES
    modifies values
    ensures var reply := ParseTcp(r, bytes[..length]);
      status == reply.status && code == reply.exceptionCode && Holds(values, count, reply)
  {
    hide ParsePdu;
    forall i | 0 <= i < values.Length { values[i] := 0; }
    status, count, code := InvalidResponse, 0, 0;
    if !ValidRequest(r) { status := InvalidRequest; return; }
    if length < 9 || length > MAX_RESPONSE_BYTES { return; }
    var expected := ResponseLength(r, bytes[..length]);
    if expected != Some(length) || bytes[6] != r.unit { return; }
    assert bytes[..length][7..] == bytes[7..7 + (length - 7)];
    status, count, code := ParseReadPdu(r, bytes, 7, length - 7, values);
  }

  /** modbus_rtu_parse_response. */
  method RtuParseResponse(r: Request, bytes: array<byte>, length: nat, values: array<word>)
      returns (status: Status, count: nat, code: byte)
    requires length <= bytes.Length && values.Length == MAX_VALUES
    modifies values
    ensures var reply := ParseRtu(r, bytes[..length]);
      status == reply.status && code == reply.exceptionCode && Holds(values, count, reply)
  {
    hide ParsePdu, Crc16;
    forall i | 0 <= i < values.Length { values[i] := 0; }
    status, count, code := InvalidResponse, 0, 0;
    if !ValidRtuRequest(r) { status := InvalidRequest; return; }
    if length < 5 || length > RTU_MAX_RESPONSE_BYTES || bytes[0] != r.unit { return; }
    var wireCrc := ReadU16(bytes[length - 1], bytes[length - 2]);
    var crc := ComputeCrc16(bytes, length - 2);
    assert bytes[..length][..length - 2] == bytes[..length - 2];
    if crc != wireCrc { status := CrcMismatch; return; }
    assert bytes[..length][1..length - 2] == bytes[1..1 + (length - 3)];
    status, count, code := ParseReadPdu(r, bytes, 1, length - 3, values);
  }
}
