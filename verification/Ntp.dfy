/** NTP timestamps and the offset measurement (RFC 5905 sections 6 and 8), in whole microseconds. */
module Ntp {
  import opened Bytes
  import opened Calendar

  const PACKET_BYTES: nat := 48
  const MIN_UNIX_US: int := 1577836800000000
  const MAX_UNIX_US: int := 4102444800000000
  const UNIX_OFFSET: int := 2208988800
  const ERA_SECONDS: int := 4294967296
  const MILLION: int := 1000000

  predicate ClockSane(us: int) { MIN_UNIX_US <= us < MAX_UNIX_US }

  predicate Int64(x: int) { -0x8000_0000_0000_0000 <= x < 0x8000_0000_0000_0000 }

  predicate Uint64(x: int) { 0 <= x < 0x1_0000_0000_0000_0000 }

  function ReadU32(s: seq<byte>): (v: nat)
    requires |s| >= 4
    ensures v < 0x100000000
  {
    0x1000000 * s[0] as int + 0x10000 * s[1] as int + 0x100 * s[2] as int + s[3] as int
  }

  /** A 32-bit field, most significant octet first; higher bits of the value are cut off. */
  function U32(v: nat): (s: seq<byte>)
    ensures |s| == 4
  {
    [v / 0x1000000 % 256, v / 0x10000 % 256, v / 0x100 % 256, v % 256]
  }

  lemma TwoOctets(v: nat)
    ensures v / 0x100 % 256 * 0x100 + v % 256 == v % 0x10000
  {
  }

  lemma HighOctet(v: nat)
    ensures v / 0x1000000 == v / 0x10000 / 0x100
  {
  }

  lemma Remainder32(high: nat, low: nat)
    requires low < 0x100000000
    ensures (0x100000000 * high + low) % 0x100000000 == low
  {
  }

  lemma SplitAt16(v: nat)
    ensures v % 0x100000000 == v / 0x10000 % 0x10000 * 0x10000 + v % 0x10000
  {
    var q, r := v / 0x10000, v % 0x10000;
    var high, m := q / 0x10000, q % 0x10000;
    assert v == 0x100000000 * high + (0x10000 * m + r);
    Remainder32(high, 0x10000 * m + r);
  }

  lemma U32RoundTrip(v: nat)
    ensures ReadU32(U32(v)) == v % 0x100000000
  {
    TwoOctets(v);
    TwoOctets(v / 0x10000);
    HighOctet(v);
    SplitAt16(v);
  }

  /** Seconds of the NTP scale, before the era is cut off. */
  function Seconds(us: int): int { us / MILLION + UNIX_OFFSET }

  /** The 64-bit fixed-point stamp of a time on the Unix scale. */
  function Stamp(us: int): (s: seq<byte>)
    requires us >= 0
    ensures |s| == 8
  {
    U32(Seconds(us)) + U32(us % MILLION * 0x100000000 / MILLION)
  }

  function RequestPacket(us: int): (s: seq<byte>)
    requires us >= 0
    ensures |s| == PACKET_BYTES
  {
    [0x23, 0, 4, 0xec] + seq(36, _ => 0) + Stamp(us)
  }

  method WriteU32(out: array<byte>, at: nat, value: nat)
    requires at + 4 <= out.Length
    modifies out
    ensures out[at..at + 4] == U32(value)
    ensures forall i :: 0 <= i < out.Length && !(at <= i < at + 4) ==> out[i] == old(out[i])
  {
    out[at], out[at + 1], out[at + 2], out[at + 3] :=
      value / 0x1000000 % 256, value / 0x10000 % 256, value / 0x100 % 256, value % 256;
  }

  /** ntp_build_request. */
  method BuildRequest(us: int, packet: array<byte>) returns (built: bool)
    requires packet.Length == PACKET_BYTES
    modifies packet
    ensures built == ClockSane(us)
    ensures packet[..] == if built then RequestPacket(us) else seq(PACKET_BYTES, _ => 0)
  {
    forall i | 0 <= i < packet.Length { packet[i] := 0; }
    if !ClockSane(us) { return false; }
    packet[0], packet[2], packet[3] := 0x23, 4, 0xec;
    assert Uint64(Seconds(us)) && Uint64(us % MILLION * 0x100000000);
    WriteU32(packet, 40, Seconds(us));
    WriteU32(packet, 44, us % MILLION * 0x100000000 / MILLION);
    assert packet[..] == packet[..4] + packet[4..40] + (packet[40..44] + packet[44..48]);
    return true;
  }

  /** decode_timestamp: the time nearest the pivot that carries this stamp, if it can be told. */
  function Decode(stamp: seq<byte>, pivotUs: int): (us: Option<int>)
    requires |stamp| == 8 && ClockSane(pivotUs)
    ensures us.Some? ==> ClockSane(us.value)
  {
    DecodeFields(ReadU32(stamp), ReadU32(stamp[4..]), pivotUs)
  }

  /** Its arithmetic never leaves 64 bits. */
  function DecodeFields(seconds: nat, fraction: nat, pivotUs: int): (us: Option<int>)
    requires seconds < ERA_SECONDS && fraction < ERA_SECONDS && ClockSane(pivotUs)
    ensures us.Some? ==> ClockSane(us.value)
  {
    if seconds == 0 && fraction == 0 then None
    else
      var pivot := Seconds(pivotUs);
      var full := pivot / ERA_SECONDS * ERA_SECONDS + seconds;
      var difference := full - pivot;
      if difference == ERA_SECONDS / 2 || difference == 0 - ERA_SECONDS / 2 then None
      else
        var nearest := if difference > ERA_SECONDS / 2 then full - ERA_SECONDS
                       else if difference < 0 - ERA_SECONDS / 2 then full + ERA_SECONDS else full;
        assert Uint64(fraction * MILLION + 0x80000000);
        var micros := (fraction * MILLION + 0x80000000) / 0x100000000;
        assert Int64((nearest - UNIX_OFFSET) * MILLION) && Int64((nearest - UNIX_OFFSET) * MILLION + micros);
        var us := (nearest - UNIX_OFFSET) * MILLION + micros;
        if ClockSane(us) then Some(us) else None
  }

  /** Whole seconds less than half an era apart. */
  predicate Near(us: int, pivotUs: int) { -0x80000000 < us / MILLION - pivotUs / MILLION < 0x80000000 }

  /** When the seconds since 1900 have filled 32 bits: 7 February 2036, 06:28:16. */
  const NEXT_ERA: Moment := Moment(2036, 37, (6 * 3600 + 28 * 60 + 16) * 1000000)

  /** A stamp of zero means that there is none (RFC 5905 section 6). */
  predicate Undefined(stamp: seq<byte>)
    requires |stamp| == 8
  {
    ReadU32(stamp) == 0 && ReadU32(stamp[4..]) == 0
  }

  /** The stamp a clock that shows this moment writes: the seconds since 1900 began, modulo 2^32, and a
      binary fraction within half a microsecond. */
  predicate Carries(stamp: seq<byte>, m: Moment)
    requires m.year >= 1900
  {
    && |stamp| == 8
    && var micros, fraction := Since(1900, m) % 1000000, ReadU32(stamp[4..]);
       && ReadU32(stamp) == Since(1900, m) / 1000000 % 0x100000000
       && -0x80000000 <= fraction * 1000000 - micros * 0x100000000 < 0x80000000
  }

  lemma FractionRoundTrip(micros: nat)
    requires micros < MILLION
    ensures var fraction := micros * 0x100000000 / MILLION;
      fraction < 0x100000000 && (fraction * MILLION + 0x80000000) / 0x100000000 == micros &&
        (fraction == 0 <==> micros == 0)
  {
    var fraction := micros * 0x100000000 / MILLION;
    assert micros * 0x100000000 - MILLION < fraction * MILLION <= micros * 0x100000000;
  }

  lemma StampFields(us: nat)
    ensures ReadU32(Stamp(us)) == Seconds(us) % ERA_SECONDS
    ensures ReadU32(Stamp(us)[4..]) == us % MILLION * 0x100000000 / MILLION
  {
    hide U32;
    var s, fraction := Seconds(us), us % MILLION * 0x100000000 / MILLION;
    assert Stamp(us)[4..] == U32(fraction);
    U32RoundTrip(s);
    U32RoundTrip(fraction);
    FractionRoundTrip(us % MILLION);
    assert forall i :: 0 <= i < 4 ==> Stamp(us)[i] == U32(s)[i];
  }

  /** The era nearest the pivot is the true one when the times are within half an era; otherwise it
      is a neighbour of the true one, or none is nearest. */
  lemma EraSelection(s: int, pivot: int)
    requires 0 <= s < 2 * ERA_SECONDS && 0 <= pivot < 2 * ERA_SECONDS && 0 - ERA_SECONDS < s - pivot < ERA_SECONDS
    ensures var full := pivot / ERA_SECONDS * ERA_SECONDS + s % ERA_SECONDS;
      var d := full - pivot;
      var nearest :=
        if d > ERA_SECONDS / 2 then full - ERA_SECONDS
        else if d < 0 - ERA_SECONDS / 2 then full + ERA_SECONDS else full;
      if -0x80000000 < s - pivot < 0x80000000 then d != 0x80000000 && d != -0x80000000 && nearest == s
      else d == 0x80000000 || d == -0x80000000 || nearest == s - ERA_SECONDS || nearest == s + ERA_SECONDS
  {
    assert pivot / ERA_SECONDS == 0 || pivot / ERA_SECONDS == 1;
    assert s / ERA_SECONDS == 0 || s / ERA_SECONDS == 1;
  }

  /** The program's seconds are the calendar's. */
  lemma ScalesAgree(m: Moment)
    requires m.year >= 1970
    ensures Since(1900, m) == Since(1970, m) + UNIX_OFFSET * MILLION
    ensures Since(1900, m) / 1000000 == Seconds(Since(1970, m)) && Since(1900, m) % 1000000 == Since(1970, m) % MILLION
  {
    EpochsApart(m);
  }

  /** A plausible clock shows a year from 2020 to 2099. */
  lemma SaneYears(m: Moment)
    requires Valid(m) && m.year >= 1970
    ensures ClockSane(Since(1970, m)) <==> 2020 <= m.year < 2100
  {
    hide Since, Valid, DaysFrom;
    DaysSince1900(1970);
    DaysSince1900(2020);
    DaysSince1900(2100);
    DaysJoin(1900, 1970, 2020);
    DaysJoin(1900, 1970, 2100);
    assert DaysFrom(1970, 2020) == 18262 && DaysFrom(1970, 2100) == 47482;
    BeforeYear(1970, m, 2020);
    BeforeYear(1970, m, 2100);
  }

  /** Main result: the stamp the program builds for a Unix time is the one the calendar asks for. */
  lemma StampCarries(m: Moment)
    requires m.year >= 1970
    ensures Carries(Stamp(Since(1970, m)), m)
  {
    hide Since, Stamp, ReadU32;
    var us := Since(1970, m);
    ScalesAgree(m);
    StampFields(us);
    FractionClose(us % MILLION);
  }

  /** A request is a client's, version 4, whose only time is the one at which it is sent. */
  lemma RequestCarries(m: Moment)
    requires m.year >= 1970
    ensures var packet := RequestPacket(Since(1970, m));
      && packet[0] / 64 == 0 && packet[0] / 8 % 8 == 4 && packet[0] % 8 == 3
      && packet[4..40] == seq(36, _ => 0) && Carries(packet[40..48], m)
  {
    hide Carries, Since, Stamp;
    StampCarries(m);
    var packet := RequestPacket(Since(1970, m));
    assert packet[40..48] == Stamp(Since(1970, m));
  }

  lemma FractionClose(micros: nat)
    requires micros < MILLION
    ensures var fraction := micros * 0x100000000 / MILLION;
      -0x80000000 <= fraction * 1000000 - micros * 0x100000000 < 0x80000000
  {
  }

  lemma NearestMicrosecond(micros: nat, fraction: nat)
    requires -0x80000000 <= fraction * 1000000 - micros * 0x100000000 < 0x80000000
    ensures (fraction * MILLION + 0x80000000) / 0x100000000 == micros
  {
  }

  /** Main result: for every moment and pivot of the years in use and every stamp the calendar allows for
      that moment, decoding returns that exact microsecond when the seconds are less than 2^31 apart
      and the stamp is not all zero, and in no other case returns anything. */
  lemma StampDecodes(m: Moment, stamp: seq<byte>, pivotUs: int)
    requires m.year >= 1970 && ClockSane(Since(1970, m)) && ClockSane(pivotUs) && Carries(stamp, m)
    ensures var us := Since(1970, m);
      Decode(stamp, pivotUs) == if Near(us, pivotUs) && !Undefined(stamp) then Some(us) else None
  {
    hide Since, ReadU32;
    var us := Since(1970, m);
    var s, pivot, micros, fraction := Seconds(us), Seconds(pivotUs), us % MILLION, ReadU32(stamp[4..]);
    ScalesAgree(m);
    NearestMicrosecond(micros, fraction);
    EraSelection(s, pivot);
    assert us == (s - UNIX_OFFSET) * MILLION + micros;
    assert Decode(stamp, pivotUs) == DecodeFields(s % ERA_SECONDS, fraction, pivotUs);
  }

  lemma NextEraBegins()
    ensures Since(1900, NEXT_ERA) == 0x100000000 * 1000000
  {
    DaysSince1900(2036);
  }

  /** The program's own stamp is all zero at one microsecond only. */
  lemma ZeroStamp(us: int)
    requires ClockSane(us)
    ensures Undefined(Stamp(us)) <==> us == Since(1970, NEXT_ERA)
  {
    hide Stamp, ReadU32, Since;
    StampFields(us);
    FractionRoundTrip(us % MILLION);
    NextEraBegins();
    ScalesAgree(NEXT_ERA);
    assert us == us / MILLION * MILLION + us % MILLION;
  }

  /** Building a stamp and decoding it returns that microsecond, except far from the pivot and at the one
      instant of 2036 whose stamp is all zero. */
  lemma TimestampRoundTrip(us: int, pivotUs: int)
    requires ClockSane(us) && ClockSane(pivotUs)
    ensures Decode(Stamp(us), pivotUs) == if Near(us, pivotUs) && us != Since(1970, NEXT_ERA) then Some(us) else None
  {
    hide Stamp, ReadU32, Decode, Near, Since, Carries;
    var m := MomentOf(1970, us / DAY, us % DAY);
    assert us == us / DAY * DAY + us % DAY;
    StampCarries(m);
    StampDecodes(m, Stamp(us), pivotUs);
    ZeroStamp(us);
  }

  // ---- The measurement ---------------------------------------------------------------------

  datatype Status = Ok | BadClock | BadLength | BadHeader | WrongOrigin | KissOfDeath | Unsynchronized | BadTimestamps

  /** Times in milliseconds as the exact quotients the program rounds to doubles. */
  datatype Result = Result(
    roundTripMs: real, delayMs: real, offsetMs: real, version: nat, leap: nat, stratum: nat,
    referenceId: seq<byte>, delayClamped: bool)

  const EMPTY: Result := Result(0.0, 0.0, 0.0, 0, 0, 0, [0, 0, 0, 0], false)

  function Metadata(packet: seq<byte>): Result
    requires |packet| == PACKET_BYTES
  {
    EMPTY.(version := packet[0] / 8 % 8, leap := packet[0] / 64, stratum := packet[1], referenceId := packet[12..16])
  }

  /** ntp_parse_response. */
  function ParseResponse(packet: seq<byte>, request: seq<byte>, sent: int, received: int, rtt: int): (Status, Result)
    requires |request| == PACKET_BYTES
  {
    if !ClockSane(sent) || !ClockSane(received) || received < sent || rtt < 0 || rtt > 2000000 then (BadClock, EMPTY)
    else
      var elapsed := received - sent;
      if elapsed - rtt < -5000 || elapsed - rtt > 5000 then (BadClock, EMPTY)
      else if |packet| != PACKET_BYTES then (BadLength, EMPTY)
      else
        var parsed := Metadata(packet);
        if (parsed.version != 3 && parsed.version != 4) || packet[0] % 8 != 4 || packet[1] > 15 then (BadHeader, EMPTY)
        else if packet[24..32] != request[40..48] then (WrongOrigin, EMPTY)
        else if parsed.stratum == 0 then (KissOfDeath, parsed)
        else if parsed.leap == 3 then (Unsynchronized, parsed)
        else
          var arrived, left := Decode(packet[32..40], sent), Decode(packet[40..48], sent);
          if arrived.None? || left.None? || left.value < arrived.value then (BadTimestamps, EMPTY)
          else
            var delay := elapsed - (left.value - arrived.value);
            if delay < -1000 then (BadTimestamps, EMPTY)
            else
              var shown := if delay < 1 then 1 else delay;
              (Ok, parsed.(delayClamped := delay < 1, roundTripMs := rtt as real / 1000.0,
                           delayMs := shown as real / 1000.0,
                           offsetMs := ((arrived.value - sent) + (left.value - received)) as real / 2000.0))
  }

  method ReadField(bytes: array<byte>, at: nat) returns (v: nat)
    requires at + 4 <= bytes.Length
    ensures v == ReadU32(bytes[at..at + 4])
  {
    v := 0x1000000 * bytes[at] as int + 0x10000 * bytes[at + 1] as int +
      0x100 * bytes[at + 2] as int + bytes[at + 3] as int;
  }

  /** decode_timestamp on the packet's bytes. */
  method DecodeTimestamp(bytes: array<byte>, at: nat, pivotUs: int) returns (us: Option<int>)
    requires at + 8 <= bytes.Length && ClockSane(pivotUs)
    ensures us == Decode(bytes[at..at + 8], pivotUs)
  {
    hide ReadU32;
    var seconds := ReadField(bytes, at);
    var fraction := ReadField(bytes, at + 4);
    ghost var stamp := bytes[at..at + 8];
    StampHalves(stamp, bytes[at..at + 4], bytes[at + 4..at + 8]);
    if seconds == 0 && fraction == 0 { return None; }
    var pivot := pivotUs / MILLION + UNIX_OFFSET;
    var full := pivot / ERA_SECONDS * ERA_SECONDS + seconds;
    var difference := full - pivot;
    if difference == ERA_SECONDS / 2 || difference == 0 - ERA_SECONDS / 2 { return None; }
    if difference > ERA_SECONDS / 2 {
      full := full - ERA_SECONDS;
    } else if difference < 0 - ERA_SECONDS / 2 {
      full := full + ERA_SECONDS;
    }
    var micros := (fraction * MILLION + 0x80000000) / 0x100000000;
    var time := (full - UNIX_OFFSET) * MILLION + micros;
    us := if ClockSane(time) then Some(time) else None;
  }

  lemma StampHalves(stamp: seq<byte>, high: seq<byte>, low: seq<byte>)
    requires |high| == 4 && |low| == 4 && stamp == high + low
    ensures ReadU32(stamp) == ReadU32(high) && stamp[4..] == low
  {
  }

  /** ntp_parse_response: the checks in the program's order, on the received bytes. */
  method ParsePacket(packet: array<byte>, length: nat, request: array<byte>, sent: int, received: int, rtt: int)
      returns (status: Status, result: Result)
    requires length <= packet.Length && request.Length == PACKET_BYTES
    ensures (status, result) == ParseResponse(packet[..length], request[..], sent, received, rtt)
  {
    hide Decode;
    result := EMPTY;
    if !ClockSane(sent) || !ClockSane(received) || received < sent || rtt < 0 || rtt > 2000000 {
      return BadClock, EMPTY;
    }
    var elapsed := received - sent;
    var drift := elapsed - rtt;
    if drift < -5000 || drift > 5000 { return BadClock, EMPTY; }
    if length != PACKET_BYTES { return BadLength, EMPTY; }
    var version := packet[0] / 8 % 8;
    if (version != 3 && version != 4) || packet[0] % 8 != 4 || packet[1] > 15 { return BadHeader, EMPTY; }
    assert packet[..length][24..32] == packet[24..32] && request[..][40..48] == request[40..48];
    if packet[24..32] != request[40..48] { return WrongOrigin, EMPTY; }
    assert packet[..length][12..16] == packet[12..16];
    var parsed :=
      EMPTY.(version := version, leap := packet[0] / 64, stratum := packet[1], referenceId := packet[12..16]);
    if parsed.stratum == 0 || parsed.leap == 3 {
      return if parsed.stratum == 0 then KissOfDeath else Unsynchronized, parsed;
    }
    var arrived := DecodeTimestamp(packet, 32, sent);
    var left := DecodeTimestamp(packet, 40, sent);
    assert packet[..length][32..40] == packet[32..40] && packet[..length][40..48] == packet[40..48];
    if arrived.None? || left.None? || left.value < arrived.value { return BadTimestamps, EMPTY; }
    var delay := elapsed - (left.value - arrived.value);
    if delay < -1000 { return BadTimestamps, EMPTY; }
    parsed := parsed.(delayClamped := delay < 1);
    if delay < 1 { delay := 1; }
    status := Ok;
    result := parsed.(
      roundTripMs := rtt as real / 1000.0,
      delayMs := delay as real / 1000.0,
      offsetMs := ((arrived.value - sent) + (left.value - received)) as real / 2000.0);
  }

  /** The local clock kept step with the monotonic one, over at most two seconds. */
  predicate ClockKept(sent: int, received: int, rtt: int) {
    && ClockSane(sent) && ClockSane(received) && sent <= received
    && 0 <= rtt <= 2000000 && -5000 <= received - sent - rtt <= 5000
  }

  /** A server's answer, in version 3 or 4, with a stratum that exists. */
  predicate FromServer(packet: seq<byte>)
    requires |packet| == PACKET_BYTES
  {
    packet[0] / 8 % 8 in {3, 4} && packet[0] % 8 == 4 && packet[1] <= 15
  }

  /** Both server times can be told, and they are in order and no later than the local ones allow. */
  predicate TimesTold(packet: seq<byte>, sent: int, received: int)
    requires |packet| == PACKET_BYTES && ClockSane(sent)
  {
    var arrived, left := Decode(packet[32..40], sent), Decode(packet[40..48], sent);
    && arrived.Some? && left.Some? && arrived.value <= left.value
    && left.value - arrived.value <= received - sent + 1000
  }

  /** Each outcome has its condition, and the earlier excludes the later; success needs a synchronized
      server's answer to this very request (RFC 5905 section 8). Numbers are reported then only, the
      round trip as the monotonic clock measured it; metadata also for a refusing or an unsynchronized
      server. */
  lemma OutcomesExplained(packet: seq<byte>, request: seq<byte>, sent: int, received: int, rtt: int)
    requires |request| == PACKET_BYTES
    ensures var (status, result) := ParseResponse(packet, request, sent, received, rtt);
      && (status.BadClock? <==> !ClockKept(sent, received, rtt))
      && (status.BadLength? <==> ClockKept(sent, received, rtt) && |packet| != PACKET_BYTES)
      && (ClockKept(sent, received, rtt) && |packet| == PACKET_BYTES ==>
            var answers := FromServer(packet) && packet[24..32] == request[40..48];
            && (status.BadHeader? <==> !FromServer(packet))
            && (status.WrongOrigin? <==> FromServer(packet) && packet[24..32] != request[40..48])
            && (status.KissOfDeath? <==> answers && packet[1] == 0)
            && (status.Unsynchronized? <==> answers && packet[1] > 0 && packet[0] >= 192)
            && (status.BadTimestamps? <==>
                  answers && packet[1] > 0 && packet[0] < 192 && !TimesTold(packet, sent, received))
            && (status.Ok? <==> answers && packet[1] > 0 && packet[0] < 192 && TimesTold(packet, sent, received)))
      && (status.Ok? ==> result.roundTripMs == rtt as real / 1000.0 && result.delayMs >= 0.001)
      && (!status.Ok? ==> result.delayMs == result.offsetMs == result.roundTripMs == 0.0)
      && (status in {Ok, KissOfDeath, Unsynchronized} ==>
            && result.version == packet[0] / 8 % 8 && result.leap == packet[0] / 64
            && result.stratum == packet[1] && result.referenceId == packet[12..16])
      && (status !in {Ok, KissOfDeath, Unsynchronized} ==> result == EMPTY)
  {
    hide Decode;
    if |packet| == PACKET_BYTES { assert packet[0] / 64 == 3 <==> packet[0] >= 192; }
  }

  /** A server whose clock runs a constant offset ahead of the client's, reached after one path delay
      and answering back over another, having held the request for a while. `arrived` and `left` are
      what its clock shows then, by the calendar. */
  predicate Exchange(packet: seq<byte>, sent: int, received: int, ahead: int, out: int, hold: int, back: int,
      arrived: Moment, left: Moment) {
    && |packet| == PACKET_BYTES && out >= 0 && hold >= 0 && back >= 0
    && received == sent + out + hold + back
    && arrived.year >= 1970 && Since(1970, arrived) == sent + out + ahead
    && left.year >= 1970 && Since(1970, left) == sent + out + hold + ahead
    && ClockSane(sent + out + ahead) && ClockSane(sent + out + hold + ahead)
    && Carries(packet[32..40], arrived) && Carries(packet[40..48], left)
  }

  function Magnitude(x: real): real { if x < 0.0 then -x else x }

  /** Main result: in an accepted exchange the reported offset is off by half the difference of the
      path delays, so it lies within half the reported delay of the server's true offset; and the
      exchange is accepted whenever the header is, the clock did not step, and both server times can
      be told from the client's. */
  lemma OffsetWithinHalfDelay(packet: seq<byte>, request: seq<byte>, sent: int, received: int, rtt: int,
                              ahead: int, out: int, hold: int, back: int, arrived: Moment, left: Moment)
    requires |request| == PACKET_BYTES
    requires Exchange(packet, sent, received, ahead, out, hold, back, arrived, left)
    ensures var (status, result) := ParseResponse(packet, request, sent, received, rtt);
      && (status.Ok? ==>
            && Magnitude(result.offsetMs - ahead as real / 1000.0) <= result.delayMs / 2.0
            && result.offsetMs == ahead as real / 1000.0 + (out - back) as real / 2000.0
            && result.delayMs == (if out + back < 1 then 1 else out + back) as real / 1000.0)
      && (ClockSane(sent) && ClockSane(received) && 0 <= rtt <= 2000000 && -5000 <= received - sent - rtt <= 5000 &&
          packet[0] / 8 % 8 in {3, 4} && packet[0] % 8 == 4 && 1 <= packet[1] <= 15 && packet[0] / 64 != 3 &&
          packet[24..32] == request[40..48] ==>
            (status.Ok? <==> Near(sent + out + ahead, sent) && !Undefined(packet[32..40]) &&
                             Near(sent + out + hold + ahead, sent) && !Undefined(packet[40..48])))
  {
    hide Carries, Decode, Near, Undefined, Since;
    if ClockSane(sent) {
      StampDecodes(arrived, packet[32..40], sent);
      StampDecodes(left, packet[40..48], sent);
    }
    assert (2 * ahead + out - back) as real / 2000.0 == ahead as real / 1000.0 + (out - back) as real / 2000.0;
  }
}
