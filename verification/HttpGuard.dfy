/** The read side of the guarded HTTP transport: an 8 KiB buffer between a socket and the client
    library, proved to refine the stream filter however the socket's bytes are cut, whatever
    lengths the client asks for, and whenever cancellation or the deadline strikes. */
module HttpGuard {
  import opened Bytes
  import opened HttpFraming
  import opened HttpGrammar
  import opened HttpHead

  datatype Stop = Running | Cancelled | DeadlinePassed | InvalidHeaders | InvalidBody

  /** One look at the outside world: has the caller cancelled, is the request budget spent. */
  datatype Probe = Probe(cancelled: bool, late: bool)

  /** First cancellation, then the clock. */
  function Verdict(probe: Probe): Stop {
    if probe.cancelled then Cancelled else if probe.late then DeadlinePassed else Running
  }

  predicate Quiet(seen: seq<Probe>, lo: nat, hi: nat)
    requires hi <= |seen|
  {
    forall i :: lo <= i < hi ==> Verdict(seen[i]).Running?
  }

  /** What the next look will find. */
  function NextProbe(probes: seq<Probe>): Probe { if probes == [] then Probe(false, true) else probes[0] }

  datatype Arrival = Data(bytes: seq<byte>) | Idle | Fin | Fault(code: int)

  // Result codes of the transport layer.
  const TIMED_OUT: int := 0
  const CLOSED_BY_FIN: int := -1
  const CONNECTION_FAILED: int := -2

  function Budget(arrivals: seq<Arrival>): nat {
    if arrivals == [] then 0
    else (if arrivals[0].Data? then 1 + |arrivals[0].bytes| else 1) + Budget(arrivals[1..])
  }

  /** The socket, the clock and the cancel flag as scripts of what they will show. A script that
      has run out shows silence and, for the clock, an expired deadline: no wait is infinite.
      Once the peer has closed, the socket keeps reporting it. */
  class Link {
    var arrivals: seq<Arrival>
    var probes: seq<Probe>
    var polls: seq<bool>
    ghost var history: seq<byte>  // every byte the socket has handed out
    ghost var seen: seq<Probe>    // every look at the outside world
    ghost var failures: nat       // how often the socket failed or a wait ran out

    ghost predicate AtFin() reads this`arrivals { arrivals != [] && arrivals[0].Fin? }

    method Observe() returns (probe: Probe)
      modifies this`probes, this`seen
      ensures seen == old(seen) + [probe] && probe == NextProbe(old(probes))
      ensures probes == if old(probes) == [] then [] else old(probes)[1..]
    {
      if probes == [] {
        probe := Probe(false, true);
      } else {
        probe, probes := probes[0], probes[1..];
      }
      seen := seen + [probe];
    }

    method LimitReached() returns (reached: bool)
      modifies this`polls, this`failures
      ensures reached ==> polls == old(polls) && failures == old(failures) + 1
      ensures !reached ==> |polls| == |old(polls)| - 1 && failures == old(failures)
    {
      if polls == [] || polls[0] {
        failures := failures + 1;
        return true;
      }
      reached, polls := false, polls[1..];
    }

    /** One non-blocking receive of at most `capacity` bytes into buffer[at..]. */
    method Receive(buffer: array<byte>, at: nat, capacity: nat) returns (result: int)
      requires 0 < capacity && at + capacity <= buffer.Length
      modifies this`arrivals, this`history, this`failures, buffer
      ensures result > 0 ==> result <= capacity && history == old(history) + buffer[at..at + result]
      ensures result <= 0 ==> history == old(history)
      ensures forall i :: 0 <= i < buffer.Length && !(at <= i < at + result) ==> buffer[i] == old(buffer[i])
      ensures result == CLOSED_BY_FIN ==> AtFin()
      ensures failures == old(failures) + if result < CLOSED_BY_FIN then 1 else 0
      ensures old(arrivals) != [] && old(arrivals)[0].Data? && old(arrivals)[0].bytes != [] ==>
                var bytes := old(arrivals)[0].bytes;
                result == Min(|bytes|, capacity) && buffer[at..at + result] == bytes[..result] &&
                (result == |bytes| ==> arrivals == old(arrivals)[1..])
      ensures old(AtFin()) ==> result == CLOSED_BY_FIN && AtFin()
      ensures result > 0 ==> Budget(arrivals) < Budget(old(arrivals))
      ensures Budget(arrivals) <= Budget(old(arrivals))
    {
      if arrivals == [] { return TIMED_OUT; }
      match arrivals[0]
      case Fin => result := CLOSED_BY_FIN;
      case Idle => result, arrivals := TIMED_OUT, arrivals[1..];
      case Fault(code) =>
        // Any failure other than an orderly close is reported as it came, never as data or silence.
        result := if code < CLOSED_BY_FIN then code else CONNECTION_FAILED;
        arrivals, failures := arrivals[1..], failures + 1;
      case Data(bytes) =>
        if bytes == [] {
          result, arrivals := TIMED_OUT, arrivals[1..];
        } else {
          var n := Min(|bytes|, capacity);
          forall i | 0 <= i < n { buffer[at + i] := bytes[i]; }
          arrivals := if n == |bytes| then arrivals[1..] else [Arrival.Data(bytes[n..])] + arrivals[1..];
          assert n < |bytes| ==> arrivals[1..] == old(arrivals)[1..];
          history := history + bytes[..n];
          assert buffer[at..at + n] == bytes[..n];
          result := n;
        }
    }
  }

  /** What the guard still owes: released metadata not yet delivered, the framing position, and
      buffered bytes that have not been framed. */
  datatype View =
    | Heading(pending: seq<byte>)
    | Framing(block: seq<byte>, state: BodyState, pending: seq<byte>)
    | Refused

  /** Of two prefixes of one stream, one with a block in it holds the other, if that is just the block. */
  lemma WholeHead(o: seq<byte>, head: seq<byte>, s: seq<byte>)
    requires o <= s && head <= s && BlockEnd(o, false) > 0 && BlockEnd(head, false) == |head| > 0
    ensures |o| >= |head| == BlockEnd(o, false) && o[..|head|] == head
  {
    hide BlockEnd;
    var rest, after := s[|o|..], s[|head|..];
    assert s == o + rest && s == head + after;
    BlockEndExtends(o, rest, false);
    BlockEndExtends(head, after, false);
  }

  /** What a guard in this view will emit if the peer goes on to send x. */
  function Resume(v: View, x: seq<byte>): Filtered {
    match v
    case Heading(pending) => Filter(pending + x)
    case Framing(block, state, pending) => Prepend(block, FilterBody(state, pending + x))
    case Refused => Filtered([], BadHeaders)
  }

  /** Having taken `wire` and delivered `sent`, the view stands exactly where the filter stands,
      for every continuation of the stream. */
  ghost predicate Faithful(wire: seq<byte>, sent: seq<byte>, v: View) {
    forall x: seq<byte> {:trigger Resume(v, x)} :: Filter(wire + x) == Prepend(sent, Resume(v, x))
  }

  function Fed(v: View, d: seq<byte>): View {
    if v.Refused? then v else v.(pending := v.pending + d)
  }

  lemma FeedFaithful(wire: seq<byte>, sent: seq<byte>, v: View, d: seq<byte>)
    requires Faithful(wire, sent, v)
    ensures Faithful(wire + d, sent, Fed(v, d))
  {
    hide Filter, FilterBody;
    forall x: seq<byte> ensures Filter(wire + d + x) == Prepend(sent, Resume(Fed(v, d), x)) {
      assert wire + d + x == wire + (d + x);
      assert Filter(wire + (d + x)) == Prepend(sent, Resume(v, d + x));
      if !v.Refused? {
        assert v.pending + d + x == v.pending + (d + x);
      }
    }
  }

  /** The guard may move to any view that emits `o` and then continues as before. */
  lemma MoveFaithful(wire: seq<byte>, sent: seq<byte>, v: View, o: seq<byte>, v': View)
    requires Faithful(wire, sent, v)
    requires forall x: seq<byte> {:trigger Resume(v', x)} :: Resume(v, x) == Prepend(o, Resume(v', x))
    ensures Faithful(wire, sent + o, v')
  {
    hide Filter, Resume;
    forall x: seq<byte> ensures Filter(wire + x) == Prepend(sent + o, Resume(v', x)) {
      assert Filter(wire + x) == Prepend(sent, Resume(v, x));
      PrependTwice(sent, o, Resume(v', x));
    }
  }

  lemma FaithfulNow(wire: seq<byte>, sent: seq<byte>, v: View)
    requires Faithful(wire, sent, v)
    ensures Filter(wire) == Prepend(sent, Resume(v, []))
  {
    hide Filter, Resume;
    assert Filter(wire + []) == Prepend(sent, Resume(v, []));
    assert wire + [] == wire;
  }

  lemma FaithfulAt(wire: seq<byte>, sent: seq<byte>, v: View, x: seq<byte>)
    requires Faithful(wire, sent, v)
    ensures Filter(wire + x) == Prepend(sent, Resume(v, x))
  {
    hide Filter, Resume;
  }

  lemma FaithfulStart()
    ensures Faithful([], [], Heading([]))
  {
    hide Filter;
    forall x: seq<byte> ensures Filter([] + x) == Prepend([], Resume(Heading([]), x)) {
      assert [] + x == x && [] + Filter(x).out == Filter(x).out;
    }
  }

  /** Whether a read of `chunk` ends a chunked body with more behind it than the buffer holds. */
  predicate TailTooLong(state: BodyState, chunk: seq<byte>, pending: int) {
    Execute(state, chunk).1.Trailing? && |chunk| - Execute(state, chunk).0 + pending > HEADERS_MAX
  }

  // ---- The view changes of the guard, each emitting nothing or what it delivers ----------

  lemma InterimMove(buffered: seq<byte>, x: seq<byte>)
    requires |buffered| <= HEADERS_MAX
    requires var end := BlockEnd(buffered, false); end > 0 && Classify(buffered[..end]).Interim?
    ensures Resume(Heading(buffered), x) == Prepend([], Resume(Heading(buffered[BlockEnd(buffered, false)..]), x))
  {
    hide Classify, FirstBlank;
    WindowExtends(buffered, x, false);
  }

  lemma FinalMove(buffered: seq<byte>, x: seq<byte>)
    requires |buffered| <= HEADERS_MAX
    requires var end := BlockEnd(buffered, false); end > 0 && Classify(buffered[..end]).Final?
    ensures var end := BlockEnd(buffered, false);
      Resume(Heading(buffered), x) ==
      Prepend([], Resume(Framing(buffered[..end], Classify(buffered[..end]).start, buffered[end..]), x))
  {
    hide Classify, FirstBlank, FilterBody;
    WindowExtends(buffered, x, false);
  }

  lemma RefuseHead(buffered: seq<byte>, x: seq<byte>)
    requires |buffered| <= HEADERS_MAX
    requires var end := BlockEnd(buffered, false);
      if end == 0 then |buffered| == HEADERS_MAX else Classify(buffered[..end]).Rejected?
    ensures Resume(Heading(buffered), x) == Prepend([], Resume(Refused, x))
  {
    hide Classify, FirstBlank;
    if BlockEnd(buffered, false) > 0 {
      WindowExtends(buffered, x, false);
    } else {
      FullWindow(buffered, x);
    }
  }

  lemma TrailerMove(buffered: seq<byte>, x: seq<byte>)
    requires |buffered| <= HEADERS_MAX
    requires var end := BlockEnd(buffered, true); end > 0 && ValidTrailer(buffered[..end])
    ensures Resume(Framing([], Trailing, buffered), x) == Prepend([], Resume(Framing(CRLF, Complete, []), x))
  {
    hide ValidTrailer, FirstBlank;
    WindowExtends(buffered, x, true);
  }

  lemma RefuseTrailer(buffered: seq<byte>, x: seq<byte>)
    requires |buffered| <= HEADERS_MAX
    requires var end := BlockEnd(buffered, true);
      if end == 0 then |buffered| == HEADERS_MAX else !ValidTrailer(buffered[..end])
    ensures Resume(Framing([], Trailing, buffered), x) == Prepend([], Resume(Refused, x))
  {
    hide ValidTrailer, FirstBlank;
    if BlockEnd(buffered, true) > 0 {
      WindowExtends(buffered, x, true);
    } else {
      FullWindow(buffered, x);
    }
  }

  lemma BodyMove(state: BodyState, d: seq<byte>, rest: seq<byte>, x: seq<byte>)
    ensures var r := Execute(state, d);
      Resume(Framing([], state, d + rest), x) == Prepend(d[..r.0], Resume(Framing([], r.1, d[r.0..] + rest), x))
  {
    hide Execute, FilterBody;
    var r := Execute(state, d);
    assert d + rest + x == d + (rest + x);
    assert d[r.0..] + rest + x == d[r.0..] + (rest + x);
    ExecuteFilters(state, d, rest + x);
  }

  lemma DeliverMove(block: seq<byte>, n: nat, state: BodyState, pending: seq<byte>, x: seq<byte>)
    requires n <= |block|
    ensures Resume(Framing(block, state, pending), x) ==
            Prepend(block[..n], Resume(Framing(block[n..], state, pending), x))
  {
    assert block == block[..n] + block[n..];
    PrependTwice(block[..n], block[n..], FilterBody(state, pending + x));
  }

  lemma DeliveryFaithful(wire: seq<byte>, sent: seq<byte>, block: seq<byte>, n: nat, state: BodyState,
      pending: seq<byte>)
    requires n <= |block| && Faithful(wire, sent, Framing(block, state, pending))
    ensures Faithful(wire, sent + block[..n], Framing(block[n..], state, pending))
  {
    hide Faithful, Resume;
    forall x: seq<byte> ensures Resume(Framing(block, state, pending), x) ==
                                Prepend(block[..n], Resume(Framing(block[n..], state, pending), x)) {
      DeliverMove(block, n, state, pending, x);
    }
    MoveFaithful(wire, sent, Framing(block, state, pending), block[..n], Framing(block[n..], state, pending));
  }

  lemma DropMove(block: seq<byte>, state: BodyState, p: seq<byte>, q: seq<byte>, x: seq<byte>)
    requires state.Complete? || state.Failed?
    ensures Resume(Framing(block, state, p), x) == Prepend([], Resume(Framing(block, state, q), x))
  {
  }

  lemma BlockHasTwo(s: seq<byte>, trailers: bool)
    requires BlockEnd(s, trailers) > 0
    ensures BlockEnd(s, trailers) >= 2
  {
  }

  lemma TrailerCollapsed(wire: seq<byte>, sent: seq<byte>, buffered: seq<byte>)
    requires Faithful(wire, sent, Framing([], Trailing, buffered)) && |buffered| <= HEADERS_MAX
    requires var end := BlockEnd(buffered, true); end > 0 && ValidTrailer(buffered[..end])
    ensures Faithful(wire, sent, Framing(CRLF, Complete, []))
  {
    hide BlockEnd, Filter, Faithful, Resume, ValidTrailer;
    forall x: seq<byte> ensures Resume(Framing([], Trailing, buffered), x) ==
                                Prepend([], Resume(Framing(CRLF, Complete, []), x)) {
      TrailerMove(buffered, x);
    }
    MoveFaithful(wire, sent, Framing([], Trailing, buffered), [], Framing(CRLF, Complete, []));
    assert sent + [] == sent;
  }

  /** Bytes behind a message that is over do not matter. */
  lemma PendingDropped(wire: seq<byte>, sent: seq<byte>, state: BodyState, p: seq<byte>, q: seq<byte>)
    requires Faithful(wire, sent, Framing([], state, p)) && (state.Complete? || state.Failed?)
    ensures Faithful(wire, sent, Framing([], state, q))
  {
    hide Filter, Faithful, Resume;
    forall x: seq<byte> ensures Resume(Framing([], state, p), x) == Prepend([], Resume(Framing([], state, q), x)) {
      DropMove([], state, p, q, x);
    }
    MoveFaithful(wire, sent, Framing([], state, p), [], Framing([], state, q));
    assert sent + [] == sent;
  }

  /** Releasing a final head keeps the guard faithful, also when a bodyless response drops the rest. */
  lemma HeadReleased(wire: seq<byte>, buffered: seq<byte>, start: BodyState)
    requires Faithful(wire, [], Heading(buffered)) && |buffered| <= HEADERS_MAX && BlockEnd(buffered, false) > 0
    requires Classify(buffered[..BlockEnd(buffered, false)]) == Final(start)
    ensures var end := BlockEnd(buffered, false);
      && Faithful(wire, [], Framing(buffered[..end], start, buffered[end..]))
      && (start.Complete? ==> Faithful(wire, [], Framing(buffered[..end], start, [])))
      && HeadFirst(buffered[..end], true, start)
  {
    hide HeadFirst, Filter, FilterBody, Classify, Faithful, FirstBlank, BlockEnd, Resume;
    var end := BlockEnd(buffered, false);
    var block, rest := buffered[..end], buffered[end..];
    var released := Framing(block, start, rest);
    forall x: seq<byte> ensures Resume(Heading(buffered), x) == Prepend([], Resume(released, x)) {
      FinalMove(buffered, x);
    }
    var none: seq<byte> := [];
    assert none + none == none;
    MoveFaithful(wire, none, Heading(buffered), none, released);
    if start.Complete? {
      forall x: seq<byte> ensures Resume(released, x) == Prepend([], Resume(Framing(block, start, []), x)) {
        DropMove(block, start, rest, [], x);
      }
      MoveFaithful(wire, none, released, none, Framing(block, start, []));
    }
    BlockIsShortest(buffered, false);
    HeadFirstStarts(block, start);
  }

  /** The history of the response being read: bytes taken from the socket, bytes handed to the
      client, where the response starts in the socket's history, whether the peer's close has been
      seen, whether a chunked tail did not fit because a caller asked for more than 8 KiB at once,
      and whether the response was begun after the guard had already refused an earlier one. */
  datatype Trace = Trace(wire: seq<byte>, sent: seq<byte>, origin: nat, closed: bool, oversized: bool, spent: bool)

  /** How a turn of the read loop ends: with a result, with progress, or without a byte. */
  datatype Turn = Settled | Again | Silent

  /** A stream ended only by the peer's close is never ended by more bytes. */
  lemma CloseStaysOpen(s: seq<byte>, y: seq<byte>)
    ensures Filter(s).ending == Open(true) ==> Filter(s + y).ending == Open(true)
  {
    hide Filter, Meaning, HeadWire;
    if Filter(s).ending == Open(true) {
      var r, x := OnlyWellFormedEnds(s);
      var longer := r.(payload := ToClose(r.payload.content + y));
      assert Wire(longer) == s + y;
      WellFormedPasses(longer, []);
      assert Wire(longer) + [] == Wire(longer);
    }
  }

  class Guard {
    const headers: array<byte>
    const link: Link
    const streaming: bool
    var stop: Stop
    var received: nat
    var delivered: nat
    var safeUntil: nat
    var headersComplete: bool
    var readingTrailers: bool
    var messageComplete: bool
    var parser: BodyState

    ghost var trace: Trace
    ghost const since: nat  // looks at the outside world before this guard's first

    ghost function Block(): seq<byte>
      reads this, headers
      requires Shape()
    {
      if safeUntil == 0 then [] else headers[delivered..safeUntil]
    }

    ghost function Now(): View
      reads this, headers
      requires Shape()
    {
      if stop.InvalidHeaders? then Refused
      else if !headersComplete then Heading(headers[..received])
      else Framing(Block(), parser, headers[if safeUntil == 0 then delivered else safeUntil..received])
    }

    ghost predicate Shape()
      reads this
    {
      && headers.Length == HEADERS_MAX
      && delivered <= received <= HEADERS_MAX
      && safeUntil <= received
      && (safeUntil > 0 ==> delivered < safeUntil && headersComplete && !readingTrailers)
      && (stop.InvalidHeaders? || stop.InvalidBody? ==> safeUntil == 0)
      && (!stop.InvalidHeaders? ==>
            if !headersComplete then delivered == 0 && !readingTrailers && !messageComplete
            else (readingTrailers <==> parser.Trailing?) && (messageComplete <==> parser.Complete?))
      && (readingTrailers && !stop.InvalidHeaders? ==> delivered == 0)
    }

    /** The peer closed while a body was being framed. */
    ghost predicate AfterClose()
      reads this, link`arrivals, link`history
    {
      && link.AtFin() && headersComplete && delivered == received && safeUntil == 0 && !readingTrailers
      && !stop.InvalidHeaders? && !stop.InvalidBody?
      && (parser.Complete? || parser.Failed?)
      && Filter(trace.wire) == Filtered(trace.sent, Open(parser.Complete?))
    }

    /** What holds between any two calls, in every run. */
    ghost predicate Valid()
      reads this, headers, link`arrivals, link`history
    {
      && Shape()
      && trace.origin <= |link.history|
      && trace.wire <= link.history[trace.origin..]
      && (stop.Running? ==> trace.wire == link.history[trace.origin..])
      && (headersComplete && parser.Failed? && !trace.closed ==> stop.InvalidBody? || stop.InvalidHeaders?)
      && (stop.InvalidBody? && !trace.spent ==> headersComplete && parser.Failed? && !trace.closed && !trace.oversized)
      && (trace.spent ==> (stop.InvalidHeaders? || stop.InvalidBody?) && trace.sent == [])
      && (trace.oversized && !trace.spent ==> stop.InvalidHeaders? && trace.sent <= Filter(trace.wire).out)
      && (trace.closed && !trace.spent ==> AfterClose())
      && (!trace.closed && !trace.oversized && !trace.spent ==> Faithful(trace.wire, trace.sent, Now()))
      && HeadFirst(trace.sent + Block(), headersComplete, parser)
    }

    /** The guard has stopped for cancellation or the deadline exactly when its last look found that
        reason; every look before was quiet. */
    ghost predicate Probed()
      reads this`stop, link`seen
    {
      && since <= |link.seen|
      && if stop.Cancelled? || stop.DeadlinePassed?
         then since < |link.seen| && Quiet(link.seen, since, |link.seen| - 1) &&
           Verdict(link.seen[|link.seen| - 1]) == stop
         else Quiet(link.seen, since, |link.seen|)
    }

    /** http_transport_response_complete. */
    predicate ResponseComplete() reads this {
      headersComplete && messageComplete && !readingTrailers && safeUntil == 0
    }

    constructor (link: Link, streaming: bool)
      ensures Valid() && Probed() && fresh(headers) && this.link == link && stop == Running
      ensures trace == Trace([], [], |link.history|, false, false, false)
      ensures received == 0 && safeUntil == 0 && !headersComplete
    {
      this.link, this.streaming, since := link, streaming, |link.seen|;
      headers := new byte[HEADERS_MAX](_ => 0);
      stop, received, delivered, safeUntil := Running, 0, 0, 0;
      headersComplete, readingTrailers, messageComplete, parser := false, false, false, SizeStart;
      trace := Trace([], [], |link.history|, false, false, false);
      new;
      assert trace.sent + Block() == [];
      assert headers[..received] == [];
      FaithfulStart();
    }

    /** reset_response. */
    method Reset()
      requires headers.Length == HEADERS_MAX
      modifies this
      ensures Valid() && stop == old(stop)
      ensures trace.wire == [] && trace.sent == [] && trace.origin == |link.history| && !headersComplete
    {
      hide Filter, FilterBody, Faithful, Resume, AfterClose;
      received, delivered, safeUntil := 0, 0, 0;
      headersComplete, readingTrailers, messageComplete, parser := false, false, false, SizeStart;
      trace := Trace([], [], |link.history|, false, false, stop.InvalidHeaders? || stop.InvalidBody?);
      assert headers[..received] == [];
      assert Shape();
      assert trace.sent + Block() == [];
      assert !stop.InvalidHeaders? ==> Now() == Heading([]);
      FaithfulStart();
      assert link.history[trace.origin..] == [];
    }

    /** A complete response makes way for the next one on the same connection. */
    method BeginRequest()
      requires Valid()
      modifies this
      ensures Valid() && stop == old(stop)
      ensures old(ResponseComplete()) ==>
        trace.wire == [] && trace.sent == [] && trace.origin == |link.history| && !headersComplete
      ensures !old(messageComplete && !readingTrailers && safeUntil == 0) ==> unchanged(this)
    {
      hide HeadFirst, Filter, FilterBody, Faithful, Resume, AfterClose;
      if messageComplete && !readingTrailers && safeUntil == 0 { Reset(); }
    }

    /** First reason wins: a running guard looks once, and one that has stopped never looks again. */
    method Stopped() returns (halted: bool)
      requires Shape()
      modifies this`stop, link`probes, link`seen
      ensures Shape() && Now() == old(Now()) && Block() == old(Block()) && halted == !stop.Running?
      ensures !old(stop).Running? ==> stop == old(stop) && link.seen == old(link.seen)
      ensures old(stop).Running? ==>
                var probe := NextProbe(old(link.probes));
                && link.seen == old(link.seen) + [probe]
                && (stop.Cancelled? <==> probe.cancelled)
                && (stop.DeadlinePassed? <==> probe.late && !probe.cancelled)
                && (stop.Running? <==> !probe.late && !probe.cancelled)
      ensures link.probes ==
              if old(stop).Running? && old(link.probes) != [] then old(link.probes)[1..] else old(link.probes)
      ensures old(Valid()) ==> Valid()
      ensures old(Probed()) ==> Probed()
    {
      hide HeadFirst, Filter, FilterBody, Faithful;
      if stop.Running? {
        var probe := link.Observe();
        if probe.cancelled { stop := Cancelled; } else if probe.late { stop := DeadlinePassed; }
      }
      return !stop.Running?;
    }

    /** block_end over the first `length` buffered bytes. */
    method FindBlockEnd(length: nat, trailers: bool) returns (end: nat)
      requires length <= headers.Length
      ensures end == BlockEnd(headers[..length], trailers)
    {
      ghost var s := headers[..length];
      if trailers && length >= 2 && headers[0] == CR && headers[1] == LF {
        assert s[..2] == CRLF;
        return 2;
      }
      var i := 0;
      while i + 4 <= length
        invariant forall k :: k < i ==> !BlankAt(s, k)
        invariant !(trailers && CRLF <= s)
      {
        if headers[i] == CR && headers[i + 1] == LF && headers[i + 2] == CR && headers[i + 3] == LF {
          assert BlankAt(s, i);
          return i + 4;
        }
        i := i + 1;
      }
      assert forall k :: !BlankAt(s, k);
      return 0;
    }

    method Refuse()
      requires Valid() && stop.Running? && !trace.closed && !trace.oversized && !trace.spent && safeUntil == 0
      requires forall x: seq<byte> {:trigger Resume(Refused, x)} :: Resume(Now(), x) == Prepend([], Resume(Refused, x))
      modifies this`stop
      ensures Valid() && stop.InvalidHeaders?
    {
      hide HeadFirst, Filter, FilterBody;
      MoveFaithful(trace.wire, trace.sent, Now(), [], Refused);
      stop := InvalidHeaders;
      assert trace.sent + [] == trace.sent;
    }

    /** A validated trailer section is replaced by an empty one. */
    method CollapseTrailer(ghost end: nat)
      requires Valid() && stop.Running? && !trace.closed && !trace.oversized && !trace.spent && safeUntil == 0 &&
        readingTrailers && headersComplete
      requires end == BlockEnd(headers[..received], true) && end > 0 && ValidTrailer(headers[..end])
      modifies this`received, this`delivered, this`safeUntil, this`readingTrailers, this`messageComplete, this`parser,
        headers
      ensures Valid() && safeUntil == 2 && received <= old(received)
    {
      hide HeadFirst, Filter, ValidTrailer, Faithful, FirstBlank, BlockEnd, Resume, AfterClose;
      ghost var buffered := headers[..received];
      ghost var v := Now();
      assert v == Framing([], Trailing, buffered) && buffered[..end] == headers[..end];
      TrailerCollapsed(trace.wire, trace.sent, buffered);
      BlockHasTwo(buffered, true);
      assert trace.sent + [] == trace.sent;
      HeadFirstGrows(trace.sent, CRLF, parser, Complete);
      headers[0], headers[1] := CR, LF;
      received, safeUntil, delivered := 2, 2, 0;
      readingTrailers, messageComplete, parser := false, true, Complete;
      assert headers[0..2] == CRLF && headers[2..2] == [];
      assert Now() == Framing(CRLF, Complete, []);
    }

    /** An interim head is removed and the bytes behind it move to the front. */
    method DropInterim(end: nat)
      requires Valid() && stop.Running? && !trace.closed && !trace.oversized && !trace.spent && !headersComplete
      requires end == BlockEnd(headers[..received], false) && end > 0 && Classify(headers[..end]).Interim?
      modifies this`received, headers
      ensures Valid() && received < old(received)
    {
      hide HeadFirst, Filter, FilterBody, FilterTrailer, Classify, Faithful, FirstBlank;
      ghost var buffered := headers[..received];
      ghost var v := Now();
      assert v == Heading(buffered) && buffered[..end] == headers[..end];
      forall x: seq<byte> ensures Resume(v, x) == Prepend([], Resume(Heading(buffered[end..]), x)) {
        InterimMove(buffered, x);
      }
      MoveFaithful(trace.wire, trace.sent, v, [], Heading(buffered[end..]));
      assert trace.sent + [] == trace.sent;
      forall i | 0 <= i < received - end { headers[i] := headers[end + i]; }
      received := received - end;
      assert headers[..received] == buffered[end..];
      assert Now() == Heading(buffered[end..]);
    }

    lemma NothingSent()
      requires Valid() && !headersComplete
      ensures trace.sent == [] && Block() == []
    {
      hide BlockEnd, Filter, Faithful;
      assert HeadFirst(trace.sent + Block(), false, parser);
    }

    /** A final head becomes deliverable; a bodyless response also discards what follows it. */
    method ReleaseHead(end: nat, start: BodyState)
      requires Valid() && stop.Running? && !trace.closed && !trace.oversized && !trace.spent && !headersComplete
      requires end == BlockEnd(headers[..received], false) && end > 0
      requires Classify(headers[..end]) == Final(start) && !start.Failed? && !start.Trailing?
      modifies this`received, this`safeUntil, this`headersComplete, this`messageComplete, this`parser
      ensures Valid() && safeUntil == end && headersComplete && parser == start
      ensures received == if start.Complete? then end else old(received)
    {
      hide HeadFirst, Filter, Classify, Faithful, FirstBlank, BlockEnd, AfterClose;
      NothingSent();
      ghost var buffered := headers[..received];
      ghost var block, rest := headers[..end], buffered[end..];
      assert buffered[..end] == block;
      assert Now() == Heading(buffered);
      HeadReleased(trace.wire, buffered, start);
      headersComplete, safeUntil, parser, messageComplete := true, end, start, start.Complete?;
      if messageComplete { received := end; }
      assert Block() == block && trace.sent + Block() == block;
      assert headers[end..received] == if messageComplete then [] else rest;
      assert Now() == Framing(block, start, if messageComplete then [] else rest);
    }

    /** 0: the block is incomplete; 1: the buffer changed, look again; -1: refused. */
    method PrepareMetadata() returns (outcome: int)
      requires Valid() && stop.Running? && !trace.closed && !trace.oversized && !trace.spent && safeUntil == 0
      requires !headersComplete || readingTrailers
      modifies this`stop, this`received, this`delivered, this`safeUntil, this`headersComplete
      modifies this`readingTrailers, this`messageComplete, this`parser, headers
      ensures Valid()
      ensures outcome == 0 ==> unchanged(this) && headers[..] == old(headers[..])
      ensures outcome == 0 ==> BlockEnd(headers[..received], readingTrailers) == 0
      ensures outcome == 1 ==> stop.Running? && received <= old(received)
      ensures outcome == 1 ==> safeUntil > 0 || (received < old(received) && !headersComplete)
      ensures outcome == -1 ==> stop.InvalidHeaders? && safeUntil == 0
      ensures outcome in {-1, 0, 1}
    {
      hide HeadFirst, Filter, FilterBody, FilterTrailer, ParseHead, ValidTrailer, Faithful, FirstBlank, Resume;
      var end := FindBlockEnd(received, readingTrailers);
      if end == 0 { return 0; }
      ghost var buffered := headers[..received];
      var block := headers[..end];
      assert buffered[..end] == block;
      if readingTrailers {
        if !ValidTrailer(block) {
          assert Now() == Framing([], Trailing, buffered);
          forall x: seq<byte>
            ensures Resume(Now(), x) == Prepend([], Resume(Refused, x)) { RefuseTrailer(buffered, x); }
          Refuse();
          return -1;
        }
        CollapseTrailer(end);
        return 1;
      }
      var parsed := ParseHead(block);
      if parsed.None? || parsed.value.status < 100 || parsed.value.status == 101 ||
         (parsed.value.status == 204 && Framed(parsed.value)) || (parsed.value.status < 200 && Framed(parsed.value)) {
        forall x: seq<byte> ensures Resume(Now(), x) == Prepend([], Resume(Refused, x)) { RefuseHead(buffered, x); }
        Refuse();
        return -1;
      }
      if parsed.value.status < 200 {
        DropInterim(end);
      } else {
        StartIsLive(parsed.value);
        ReleaseHead(end, MessageStart(parsed.value));
      }
      return 1;
    }

    method CopyOut(buffer: array<byte>, count: nat, end: nat)
      requires delivered + count <= end <= headers.Length && count <= buffer.Length && buffer != headers
      modifies buffer
      ensures buffer[..count] == headers[delivered..end][..count]
    {
      forall i | 0 <= i < count { buffer[i] := headers[delivered + i]; }
    }

    lemma BlockMeansOpen()
      requires Valid() && safeUntil > 0
      ensures !trace.closed && !trace.oversized && !trace.spent
    {
    }

    /** Validated metadata is delivered before anything else is looked at. */
    method DeliverBlock(buffer: array<byte>, length: nat) returns (count: nat)
      requires Valid() && safeUntil > 0
      requires 0 < length <= buffer.Length && buffer != headers
      modifies this`delivered, this`safeUntil, this`trace, buffer
      ensures Valid()
      ensures count == Min(length, |old(Block())|) > 0
      ensures buffer[..count] == old(Block())[..count] && Block() == old(Block())[count..]
      ensures delivered == old(delivered) + count
      ensures trace == old(trace).(sent := old(trace).sent + buffer[..count])
    {
      hide HeadFirst, Filter, FilterBody, Faithful, Resume, AfterClose, BlockEnd;
      ghost var block, rest := headers[delivered..safeUntil], headers[safeUntil..received];
      assert Now() == Framing(block, parser, rest);
      count := Min(safeUntil - delivered, length);
      CopyOut(buffer, count, safeUntil);
      BlockMeansOpen();
      DeliveryFaithful(trace.wire, trace.sent, block, count, parser, rest);
      assert trace.sent + block[..count] + block[count..] == trace.sent + block;
      trace := trace.(sent := trace.sent + buffer[..count]);
      delivered := delivered + count;
      if delivered == safeUntil {
        assert block[count..] == [];
        safeUntil := 0;
      } else {
        assert headers[delivered..safeUntil] == block[count..];
      }
      assert Now() == Framing(block[count..], parser, rest);
    }

    /** A running guard inside a body, with nothing released. */
    ghost predicate InBody()
      reads this
    {
      && Shape() && stop.Running? && headersComplete && safeUntil == 0 && !Paused(parser)
      && !trace.closed && !trace.oversized && !trace.spent
      && HeadFirst(trace.sent, true, parser)
    }

    /** The same, with all the socket's bytes accounted for. */
    ghost predicate Framable()
      reads this, link`history
    {
      InBody() && trace.origin <= |link.history| && trace.wire == link.history[trace.origin..]
    }

    /** memmove, then memcpy: the buffered bytes go behind `parsed..length` of the caller's. */
    method ShiftPending(tail: nat)
      requires headers.Length == HEADERS_MAX && delivered <= received <= HEADERS_MAX &&
        tail + (received - delivered) <= HEADERS_MAX
      modifies headers
      ensures headers[tail..tail + (received - delivered)] == old(headers[delivered..received])
    {
      forall i | 0 <= i < received - delivered { headers[tail + i] := headers[delivered + i]; }
    }

    method CopyTail(buffer: array<byte>, length: nat, parsed: nat)
      requires parsed <= length <= buffer.Length && buffer != headers && length - parsed <= headers.Length
      modifies headers
      ensures headers[..length - parsed] == buffer[parsed..length]
      ensures headers[length - parsed..] == old(headers[length - parsed..])
    {
      forall i | 0 <= i < length - parsed { headers[i] := buffer[parsed + i]; }
    }

    /** The bytes behind the last chunk's size line go back to the front of the buffer. */
    method KeepTail(buffer: array<byte>, length: nat, parsed: nat)
      requires parsed <= length <= buffer.Length && buffer != headers && headers.Length == HEADERS_MAX
      requires delivered <= received <= HEADERS_MAX && length - parsed + (received - delivered) <= HEADERS_MAX
      modifies this`received, this`delivered, headers
      ensures delivered == 0 && received == length - parsed + (old(received) - old(delivered))
      ensures headers[..received] == buffer[parsed..length] + old(headers[delivered..received])
    {
      var tail := length - parsed;
      var end := tail + (received - delivered);
      ShiftPending(tail);
      ghost var shifted := headers[tail..];
      assert shifted[..end - tail] == headers[tail..end];
      CopyTail(buffer, length, parsed);
      received, delivered := end, 0;
      assert headers[tail..end] == headers[tail..][..end - tail];
      assert headers[..end] == headers[..tail] + headers[tail..end];
    }

    /** The state after framing a chunk, whichever way it ended. */
    method Settle(buffer: array<byte>, length: nat, parsed: nat, next: BodyState)
      requires Framable() && parsed <= length <= buffer.Length && buffer != headers
      requires Faithful(trace.wire, trace.sent + buffer[..parsed],
                        Framing([], next, buffer[parsed..length] + headers[delivered..received]))
      requires !Paused(next) ==> parsed == length
      requires InChunks(parser) ==> InChunks(next)
      requires received == delivered || length + (received - delivered) <= HEADERS_MAX
      modifies this`stop, this`received, this`delivered, this`readingTrailers, this`messageComplete
      modifies this`parser, this`trace, headers
      ensures Valid() && safeUntil == 0
      ensures trace == old(trace).(sent := old(trace).sent + buffer[..parsed], oversized := trace.oversized)
      ensures trace.oversized <==> next.Trailing? && length - parsed + (old(received) - old(delivered)) > HEADERS_MAX
      ensures stop in {Running, InvalidBody, InvalidHeaders} && (stop.InvalidBody? <==> next.Failed?)
      ensures stop.InvalidHeaders? <==> trace.oversized
    {
      hide HeadFirst, Filter, FilterBody, Faithful, Resume, Execute, Step;
      ghost var rest := buffer[parsed..length] + headers[delivered..received];
      ghost var v := Framing([], next, rest);
      HeadFirstGrows(trace.sent, buffer[..parsed], parser, next);
      parser, messageComplete, readingTrailers := next, next.Complete?, next.Trailing?;
      trace := trace.(sent := trace.sent + buffer[..parsed]);
      assert trace.sent + [] == trace.sent;
      if next.Failed? {
        stop := InvalidBody;
        PendingDropped(trace.wire, trace.sent, next, rest, headers[delivered..received]);
        assert Now() == Framing([], next, headers[delivered..received]);
      } else if readingTrailers {
        if length - parsed + (received - delivered) > HEADERS_MAX {
          FaithfulNow(trace.wire, trace.sent, v);
          stop := InvalidHeaders;
          trace := trace.(oversized := true);
        } else {
          KeepTail(buffer, length, parsed);
          assert headers[0..received] == headers[..received];
          assert Now() == v;
        }
      } else if messageComplete {
        PendingDropped(trace.wire, trace.sent, next, rest, []);
        delivered := received;
        assert headers[delivered..received] == [];
        assert Now() == Framing([], next, []);
      } else {
        assert rest == headers[delivered..received];
        assert Now() == v;
      }
    }

    /** Frames body bytes already placed in the caller's buffer and accounts for what follows. */
    method FrameBody(buffer: array<byte>, length: nat) returns (result: int)
      requires Framable() && 0 < length <= buffer.Length && buffer != headers
      requires received == delivered || length + (received - delivered) <= HEADERS_MAX
      requires Faithful(trace.wire, trace.sent, Framing([], parser, buffer[..length] + headers[delivered..received]))
      modifies this`stop, this`received, this`delivered, this`readingTrailers, this`messageComplete
      modifies this`parser, this`trace, headers
      ensures Valid() && safeUntil == 0
      ensures trace.wire == old(trace).wire && trace.origin == old(trace).origin &&
        trace.closed == old(trace).closed && trace.spent == old(trace).spent
      ensures trace.oversized <==> TailTooLong(old(parser), buffer[..length], old(received - delivered))
      ensures stop in {Running, InvalidBody, InvalidHeaders} && (stop.InvalidHeaders? <==> trace.oversized)
      ensures var parsed := Execute(old(parser), buffer[..length]).0;
        result == if parsed > 0 then parsed else CONNECTION_FAILED
      ensures if result > 0 then result <= length && trace.sent == old(trace).sent + buffer[..result]
              else result == CONNECTION_FAILED && trace.sent == old(trace).sent && !stop.Running?
    {
      hide HeadFirst, Filter, FilterBody, Faithful, Resume;
      ghost var d, rest := buffer[..length], headers[delivered..received];
      var (parsed, next) := Execute(parser, buffer[..length]);
      if InChunks(parser) { ExecuteStaysInChunks(parser, buffer[..length]); }
      ghost var v := Framing([], parser, d + rest);
      forall x: seq<byte>
        ensures Resume(v, x) == Prepend(d[..parsed], Resume(Framing([], next, d[parsed..] + rest), x)) {
        BodyMove(parser, d, rest, x);
      }
      MoveFaithful(trace.wire, trace.sent, v, d[..parsed], Framing([], next, d[parsed..] + rest));
      assert d[..parsed] == buffer[..parsed] && d[parsed..] == buffer[parsed..length];
      Settle(buffer, length, parsed, next);
      result := if parsed > 0 then parsed else CONNECTION_FAILED;
      assert parsed == 0 ==> buffer[..parsed] == [];
    }

    /** The peer closed the connection: only a close-delimited body is thereby complete. */
    method AtClose()
      requires Valid() && stop.Running? && headersComplete && !readingTrailers && !messageComplete
      requires safeUntil == 0 && delivered == received && link.AtFin()
      modifies this`messageComplete, this`parser, this`trace
      ensures Valid() && trace == old(trace).(closed := true)
      ensures messageComplete <==> old(parser).UntilClose?
      ensures Filter(trace.wire) == Filtered(trace.sent, Open(messageComplete))
    {
      hide HeadFirst, Filter, Faithful;
      if !trace.closed {
        FaithfulNow(trace.wire, trace.sent, Now());
        assert headers[delivered..received] + [] == [];
        assert [] + FilterBody(parser, []).out == [];
        assert trace.sent + [] == trace.sent;
      }
      assert trace.sent + Block() == trace.sent && trace.sent + [] == trace.sent;
      HeadFirstGrows(trace.sent, [], parser, Complete);
      HeadFirstGrows(trace.sent, [], parser, Failed);
      if parser.UntilClose? { parser, messageComplete := Complete, true; } else { parser := Failed; }
      trace := trace.(closed := true);
    }

    /** Buffered bytes behind the head are framed before the socket is read again. */
    method FramePending(buffer: array<byte>, length: nat) returns (result: int)
      requires Valid() && stop.Running? && headersComplete && !readingTrailers && !messageComplete
      requires safeUntil == 0 && delivered < received
      requires 0 < length <= buffer.Length && buffer != headers
      modifies this`stop, this`received, this`delivered, this`readingTrailers, this`messageComplete
      modifies this`parser, this`trace, headers, buffer
      ensures Valid() && safeUntil == 0
      ensures trace == old(trace).(sent := trace.sent)
      ensures stop in {Running, InvalidBody, InvalidHeaders}
      ensures if result > 0 then result <= length && trace.sent == old(trace).sent + buffer[..result]
              else result == CONNECTION_FAILED && trace.sent == old(trace).sent && !stop.Running?
    {
      hide HeadFirst, Filter, FilterBody, Faithful, Resume;
      ghost var pending := headers[delivered..received];
      assert Now() == Framing([], parser, pending);
      assert trace.sent + Block() == trace.sent;
      var count := Min(received - delivered, length);
      forall i | 0 <= i < count { buffer[i] := headers[delivered + i]; }
      delivered := delivered + count;
      assert pending == buffer[..count] + headers[delivered..received];
      result := FrameBody(buffer, count);
    }

    /** Bytes fresh from the socket are framed in the caller's buffer. */
    method FrameFresh(buffer: array<byte>, length: nat) returns (result: int)
      requires InBody() && received == delivered && 0 < length <= buffer.Length && buffer != headers
      requires trace.origin <= |link.history| - length
      requires trace.wire + buffer[..length] == link.history[trace.origin..]
      requires Faithful(trace.wire, trace.sent, Now())
      modifies this`stop, this`received, this`delivered, this`readingTrailers, this`messageComplete
      modifies this`parser, this`trace, headers
      ensures Valid() && safeUntil == 0
      ensures trace ==
              old(trace).(wire := old(trace).wire + buffer[..length], sent := trace.sent, oversized := trace.oversized)
      ensures trace.oversized <==> TailTooLong(old(parser), buffer[..length], 0)
      ensures stop.InvalidHeaders? <==> trace.oversized
      ensures stop in {Running, InvalidBody, InvalidHeaders}
      ensures var parsed := Execute(old(parser), buffer[..length]).0;
        result == if parsed > 0 then parsed else CONNECTION_FAILED
      ensures if result > 0 then result <= length && trace.sent == old(trace).sent + buffer[..result]
              else result == CONNECTION_FAILED && trace.sent == old(trace).sent && !stop.Running?
    {
      hide HeadFirst, Filter, FilterBody, Faithful, Resume;
      assert headers[delivered..received] == [];
      assert Now() == Framing([], parser, []);
      FeedFaithful(trace.wire, trace.sent, Now(), buffer[..length]);
      assert [] + buffer[..length] == buffer[..length] + headers[delivered..received];
      trace := trace.(wire := trace.wire + buffer[..length]);
      result := FrameBody(buffer, length);
    }

    lemma NowInMetadata()
      requires Shape() && safeUntil == 0 && !stop.InvalidHeaders? && (!headersComplete || readingTrailers)
      ensures Now() ==
              if headersComplete then Framing([], parser, headers[..received]) else Heading(headers[..received])
    {
      assert headers[0..received] == headers[..received];
    }

    /** Bytes already behind the buffered ones become part of them. */
    method Accept(count: nat)
      requires Shape() && stop.Running? && safeUntil == 0 && (!headersComplete || readingTrailers)
      requires !trace.closed && !trace.oversized && !trace.spent && received + count <= HEADERS_MAX
      requires headersComplete ==> !parser.Failed?
      requires Faithful(trace.wire, trace.sent, Now()) && trace.origin <= |link.history|
      requires HeadFirst(trace.sent, headersComplete, parser)
      requires trace.wire + headers[received..received + count] == link.history[trace.origin..]
      modifies this`received, this`trace
      ensures Valid() && trace == old(trace).(wire := trace.wire) && old(trace).wire <= trace.wire
      ensures received == old(received) + count
    {
      hide HeadFirst, Filter, Faithful, Resume, BlockEnd, AfterClose, Now;
      ghost var d, buffered := headers[received..received + count], headers[..received];
      assert trace.sent + [] == trace.sent;
      NowInMetadata();
      FeedFaithful(trace.wire, trace.sent, Now(), d);
      assert headers[..received + count] == buffered + d;
      trace := trace.(wire := trace.wire + d);
      received := received + count;
      NowInMetadata();
    }

    /** One receive into the metadata buffer. Bytes that arrive together with a stop are dropped. */
    method Gather(length: nat) returns (result: int, halted: bool)
      requires Valid() && Probed() && stop.Running? && safeUntil == 0 && (!headersComplete || readingTrailers)
      requires !trace.closed && received < HEADERS_MAX && length > 0
      modifies this`stop, this`received, this`trace, headers, link
      ensures Valid() && halted == !stop.Running? && stop in {Running, Cancelled, DeadlinePassed}
      ensures trace == old(trace).(wire := trace.wire) && old(trace).wire <= trace.wire
      ensures halted || result <= 0 ==> trace == old(trace) && received == old(received)
      ensures !halted && result > 0 ==>
        received == old(received) + result && Budget(link.arrivals) < Budget(old(link.arrivals))
      ensures Budget(link.arrivals) <= Budget(old(link.arrivals)) && link.polls == old(link.polls)
      ensures Probed() && link.failures >= old(link.failures) && |link.seen| >= |old(link.seen)|
      ensures !halted && result < CLOSED_BY_FIN ==> link.failures > old(link.failures)
      ensures !halted && result == CLOSED_BY_FIN ==> link.AtFin()
    {
      hide HeadFirst, Filter, Faithful, Resume, BlockEnd, AfterClose, Now, Budget;
      ghost var buffered := headers[..received];
      assert trace.sent + Block() == trace.sent;
      NowInMetadata();
      result := link.Receive(headers, received, Min(length, HEADERS_MAX - received));
      assert headers[..received] == buffered;
      NowInMetadata();
      halted := Stopped();
      if !halted && result > 0 { Accept(result); }
    }

    /** One receive into the client's buffer, with the same rule. */
    method Fetch(buffer: array<byte>, length: nat) returns (result: int, halted: bool)
      requires Valid() && Probed() && stop.Running? && safeUntil == 0 && headersComplete && !readingTrailers &&
        !messageComplete
      requires delivered == received && 0 < length <= buffer.Length && buffer != headers
      modifies this`stop, this`received, this`delivered, this`readingTrailers, this`messageComplete
      modifies this`parser, this`trace, headers, buffer, link
      ensures halted ==> Valid() && trace == old(trace) && stop in {Cancelled, DeadlinePassed} && safeUntil == 0
      ensures !halted && result <= 0 ==> Valid() && trace == old(trace) && unchanged(this)
      ensures !halted && result == CLOSED_BY_FIN ==> link.AtFin()
      ensures !halted && old(trace).closed ==> result == CLOSED_BY_FIN
      ensures !halted && result > 0 ==> InBody() && unchanged(this)
      ensures !halted && result > 0 ==> result <= length && trace.origin <= |link.history| - result
      ensures !halted && result > 0 ==> trace.wire + buffer[..result] == link.history[trace.origin..]
      ensures !halted && result > 0 ==> Faithful(trace.wire, trace.sent, Now())
      ensures headers[..] == old(headers[..])
      ensures Budget(link.arrivals) <= Budget(old(link.arrivals)) && link.polls == old(link.polls)
      ensures Probed() && link.failures >= old(link.failures) && |link.seen| >= |old(link.seen)|
      ensures !halted && result < CLOSED_BY_FIN ==> link.failures > old(link.failures)
    {
      hide HeadFirst, Filter, FilterBody, Faithful, Resume, Budget, BlockEnd;
      assert trace.sent + Block() == trace.sent;
      result := link.Receive(buffer, 0, length);
      assert Now() == old(Now());
      halted := Stopped();
      if !halted && result > 0 {
        assert buffer[0..result] == buffer[..result];
      }
    }

    /** The guard asks the socket for more only when everything it holds has been passed on and
        the filter is still open. */
    lemma NothingWithheld()
      requires Valid() && stop.Running? && safeUntil == 0 && !trace.closed
      requires if !headersComplete || readingTrailers
               then received < HEADERS_MAX && BlockEnd(headers[..received], readingTrailers) == 0
               else delivered == received && !messageComplete
      ensures Filter(trace.wire).ending.Open? && Filter(trace.wire).out == trace.sent
      ensures !headersComplete || readingTrailers ==> Truncated()
    {
      hide ParseHead, FirstBlank;
      FaithfulNow(trace.wire, trace.sent, Now());
      var buffered := headers[..received];
      assert buffered + [] == buffered;
      if !headersComplete {
        assert Resume(Now(), []) == Filter(buffered);
      } else if readingTrailers {
        assert Now().pending == buffered;
        assert Resume(Now(), []) == Prepend([], FilterTrailer(buffered));
      } else {
        assert Now().pending + [] == [];
      }
    }

    /** A response reported complete has been delivered in full: the filter has ended, or the peer
        has closed a body that runs until close, and the client holds the filter's whole output. */
    lemma CompleteMeansDelivered()
      requires Valid() && ResponseComplete() && !stop.InvalidHeaders? && !trace.spent
      ensures Filter(trace.wire) == Filtered(trace.sent, if trace.closed then Open(true) else Ended)
      ensures trace.closed ==> link.AtFin()
    {
      if !trace.closed {
        FaithfulNow(trace.wire, trace.sent, Now());
        assert trace.sent + ([] + []) == trace.sent;
      }
    }

    /** The body half of one turn of the read loop. */
    method ReadBody(buffer: array<byte>, length: nat) returns (result: int, turn: Turn)
      requires Valid() && Probed() && stop.Running? && headersComplete && !readingTrailers && !messageComplete
      requires safeUntil == 0 && 0 < length <= buffer.Length && buffer != headers
      modifies this, headers, buffer, link
      ensures Valid() && safeUntil == 0
      ensures if result > 0 then result <= length && trace.sent == old(trace).sent + buffer[..result]
              else trace.sent == old(trace).sent
      ensures trace.origin == old(trace).origin && trace.spent == old(trace).spent && old(trace).wire <= trace.wire
      ensures trace.oversized ==> length > HEADERS_MAX
      ensures turn.Settled? && result == 0 ==> ResponseComplete() && stop.Running? && !streaming
      ensures turn.Settled? && result < 0 && stop.Running? && !ResponseComplete() ==>
                Drained() && (link.failures > old(link.failures) || (link.AtFin() && Truncated()))
      ensures turn.Silent? ==>
        result == TIMED_OUT && stop.Running? && trace == old(trace) && received == old(received) && Drained()
      ensures !turn.Again?
      ensures Budget(link.arrivals) <= Budget(old(link.arrivals)) && link.polls == old(link.polls)
      ensures Probed() && link.failures >= old(link.failures) && |link.seen| >= |old(link.seen)|
    {
      hide HeadFirst, Filter, FilterBody, Faithful, Resume, ParseHead, FirstBlank, BlockEnd, Budget;
      turn := Settled;
      if delivered < received {
        result := FramePending(buffer, length);
        return;
      }
      if !trace.closed { NothingWithheld(); }
      var halted;
      result, halted := Fetch(buffer, length);
      if halted {
        result := CONNECTION_FAILED;
      } else if result > 0 {
        result := FrameFresh(buffer, result);
      } else if result == CLOSED_BY_FIN {
        AtClose();
        if messageComplete { result := if streaming then CLOSED_BY_FIN else 0; }
      } else if result == TIMED_OUT {
        turn := Silent;
      }
    }

    /** The metadata half of one turn of the read loop. */
    method ReadMetadata(length: nat) returns (result: int, turn: Turn)
      requires Valid() && Probed() && stop.Running? && safeUntil == 0 && (!headersComplete || readingTrailers) &&
        length > 0
      modifies this, headers, link
      ensures Valid()
      ensures trace == old(trace).(wire := trace.wire) && old(trace).wire <= trace.wire
      ensures turn.Settled? ==> result < 0
      ensures !turn.Again? ==> safeUntil == 0
      ensures turn.Settled? && stop.Running? ==>
                Drained() && (link.failures > old(link.failures) || (link.AtFin() && Truncated()))
      ensures turn.Silent? ==> result == TIMED_OUT && stop.Running? && Drained() && received == old(received)
      ensures turn.Again? ==> stop.Running?
      ensures turn.Again? ==> Budget(link.arrivals) < Budget(old(link.arrivals)) || received < old(received) ||
                              (safeUntil > 0 && received == old(received))
      ensures Budget(link.arrivals) <= Budget(old(link.arrivals)) && link.polls == old(link.polls)
      ensures Probed() && link.failures >= old(link.failures) && |link.seen| >= |old(link.seen)|
    {
      hide HeadFirst, Filter, FilterBody, Faithful, Resume, ParseHead, FirstBlank, BlockEnd, Budget, Truncated;
      result := CONNECTION_FAILED;
      var outcome := PrepareMetadata();
      if outcome < 0 { return result, Settled; }
      if outcome > 0 { return result, Again; }
      if received == HEADERS_MAX {
        RefuseFull();
        return result, Settled;
      }
      NothingWithheld();
      var halted;
      result, halted := Gather(length);
      if halted { return CONNECTION_FAILED, Settled; }
      turn := if result > 0 then Again else if result == TIMED_OUT then Silent else Settled;
    }

    /** Everything the filter lets through of the bytes taken so far has been delivered, and the
        response is not over. */
    ghost predicate Drained() reads this {
      Filter(trace.wire).ending.Open? && Filter(trace.wire).out == trace.sent
    }

    /** The same, and what was received cannot be a whole response either: the peer is needed. */
    ghost predicate Truncated() reads this { Filter(trace.wire) == Filtered(trace.sent, Open(false)) }

    /** read_guarded. */
    method Read(buffer: array<byte>, length: nat) returns (result: int)
      requires Valid() && Probed() && 0 < length <= buffer.Length && buffer != headers
      modifies this, headers, buffer, link
      ensures Valid()
      // Delivery: what is returned extends what was sent, and only that.
      ensures if result > 0 then result <= length && trace.sent == old(trace).sent + buffer[..result]
              else trace.sent == old(trace).sent
      ensures trace.origin == old(trace).origin && trace.spent == old(trace).spent && old(trace).wire <= trace.wire
      // Released metadata comes first, whatever has happened meanwhile.
      ensures old(safeUntil) > 0 ==> result == Min(length, |old(Block())|) && Block() == old(Block())[result..]
      ensures old(safeUntil) > 0 ==> stop == old(stop) && unchanged(link)
      // The first stop reason is final, and a stopped guard delivers nothing else.
      ensures !old(stop).Running? ==> stop == old(stop) && (old(safeUntil) == 0 ==> result == CONNECTION_FAILED)
      // End of file is only ever a complete response.
      ensures result == 0 ==> ResponseComplete() && stop.Running? && !streaming
      // A running guard gives up only when the filter has nothing more for the bytes received.
      ensures result < 0 && stop.Running? && !ResponseComplete() ==> Drained()
      // And it gives up only when the socket failed, a wait ran out, or the peer closed too early.
      ensures result < 0 && stop.Running? && !ResponseComplete() ==>
                link.failures > old(link.failures) || (link.AtFin() && Truncated())
      ensures link.failures >= old(link.failures)
      // Cancellation and the deadline stop it exactly when a look finds them.
      ensures Probed() && (old(stop).Running? && old(safeUntil) == 0 ==> |link.seen| > |old(link.seen)|)
      // No failure is reported inside a released block.
      ensures result <= 0 ==> safeUntil == 0
      ensures trace.oversized && !old(trace).oversized ==> length > HEADERS_MAX
    {
      hide HeadFirst, Filter, FilterBody, Faithful, Resume, ParseHead, FirstBlank, BlockEnd, Drained, AfterClose,
        Budget, Truncated;
      if safeUntil > 0 {
        result := DeliverBlock(buffer, length);
        return;
      }
      result := ReadOn(buffer, length);
    }

    /** One turn of the loop with no released metadata waiting: look, then take what there is. */
    method TakeTurn(buffer: array<byte>, length: nat) returns (result: int, turn: Turn)
      requires Valid() && Probed() && 0 < length <= buffer.Length && buffer != headers && safeUntil == 0
      modifies this, headers, buffer, link
      ensures Valid() && Probed() && (!turn.Again? ==> safeUntil == 0)
      ensures if turn.Settled? && result > 0 then result <= length && trace.sent == old(trace).sent + buffer[..result]
              else trace.sent == old(trace).sent
      ensures trace.origin == old(trace).origin && trace.spent == old(trace).spent && old(trace).wire <= trace.wire
      ensures trace.oversized && !old(trace).oversized ==> length > HEADERS_MAX
      ensures !old(stop).Running? ==> turn.Settled? && stop == old(stop) && result == CONNECTION_FAILED
      ensures turn.Settled? && result == 0 ==> ResponseComplete() && stop.Running? && !streaming
      ensures turn.Settled? && result < 0 && stop.Running? && !ResponseComplete() ==>
                Drained() && (link.failures > old(link.failures) || (link.AtFin() && Truncated()))
      ensures turn.Silent? ==> received == old(received) && Drained()
      ensures !turn.Settled? ==> stop.Running? && trace == old(trace).(wire := trace.wire)
      ensures turn.Again? ==> Budget(link.arrivals) < Budget(old(link.arrivals)) || received < old(received) ||
                              (safeUntil > 0 && received == old(received))
      ensures Budget(link.arrivals) <= Budget(old(link.arrivals)) && link.polls == old(link.polls)
      ensures link.failures >= old(link.failures) && |link.seen| >= |old(link.seen)|
      ensures old(stop).Running? ==> |link.seen| > |old(link.seen)|
    {
      hide HeadFirst, Filter, FilterBody, Faithful, Resume, ParseHead, FirstBlank, BlockEnd, Drained, AfterClose,
        Budget;
      hide Truncated, Probed;
      var halted := Stopped();
      if halted { return CONNECTION_FAILED, Settled; }
      if messageComplete && !readingTrailers {
        return if streaming then CLOSED_BY_FIN else 0, Settled;
      }
      if !headersComplete || readingTrailers {
        result, turn := ReadMetadata(length);
      } else {
        result, turn := ReadBody(buffer, length);
      }
    }

    /** The loop of read_guarded, entered with no released metadata waiting. */
    method ReadOn(buffer: array<byte>, length: nat) returns (result: int)
      requires Valid() && Probed() && 0 < length <= buffer.Length && buffer != headers && safeUntil == 0
      modifies this, headers, buffer, link
      ensures Valid()
      ensures if result > 0 then result <= length && trace.sent == old(trace).sent + buffer[..result]
              else trace.sent == old(trace).sent
      ensures trace.origin == old(trace).origin && trace.spent == old(trace).spent && old(trace).wire <= trace.wire
      ensures !old(stop).Running? ==> stop == old(stop) && result == CONNECTION_FAILED
      ensures result == 0 ==> ResponseComplete() && stop.Running? && !streaming
      ensures result < 0 && stop.Running? && !ResponseComplete() ==> Drained()
      ensures result < 0 && stop.Running? && !ResponseComplete() ==>
                link.failures > old(link.failures) || (link.AtFin() && Truncated())
      ensures link.failures >= old(link.failures)
      ensures Probed() && (old(stop).Running? ==> |link.seen| > |old(link.seen)|)
      ensures result <= 0 ==> safeUntil == 0
      ensures trace.oversized && !old(trace).oversized ==> length > HEADERS_MAX
    {
      hide HeadFirst, Filter, FilterBody, Faithful, Resume, ParseHead, FirstBlank, BlockEnd, Drained, AfterClose,
        Budget;
      hide Truncated, Probed;
      while true
        invariant Valid() && Probed() && stop == old(stop) && (!stop.Running? ==> safeUntil == 0)
        invariant link.failures >= old(link.failures) && |link.seen| >= |old(link.seen)|
        invariant safeUntil > 0 ==> |link.seen| > |old(link.seen)|
        invariant trace == old(trace).(wire := trace.wire) && old(trace).wire <= trace.wire
        decreases Budget(link.arrivals) + |link.polls|, received, if safeUntil > 0 then 0 else 1
      {
        if safeUntil > 0 {
          result := DeliverBlock(buffer, length);
          return;
        }
        var turn;
        result, turn := TakeTurn(buffer, length);
        if turn.Settled? { return; }
        if turn.Silent? {
          var reached := link.LimitReached();
          if reached {
            var halted := Stopped();
            return CONNECTION_FAILED;
          }
        }
      }
    }

    /** A full buffer without the end of a block. */
    method RefuseFull()
      requires Valid() && stop.Running? && !trace.closed && !trace.oversized && !trace.spent && safeUntil == 0
      requires (!headersComplete || readingTrailers) && received == HEADERS_MAX
      requires BlockEnd(headers[..received], readingTrailers) == 0
      modifies this`stop
      ensures Valid() && stop.InvalidHeaders?
    {
      hide HeadFirst, Filter, FilterBody, Faithful, Resume, FirstBlank, BlockEnd;
      ghost var buffered := headers[..received];
      if readingTrailers {
        assert Now() == Framing([], Trailing, buffered);
        forall x: seq<byte> ensures Resume(Now(), x) == Prepend([], Resume(Refused, x)) { RefuseTrailer(buffered, x); }
      } else {
        forall x: seq<byte> ensures Resume(Now(), x) == Prepend([], Resume(Refused, x)) { RefuseHead(buffered, x); }
      }
      Refuse();
    }

    /** At every moment of every run the client holds a prefix of the filtered stream. */
    lemma DeliveredIsFiltered()
      requires Valid()
      ensures trace.sent <= Filter(trace.wire).out
    {
      hide HeadFirst, Filter, FilterBody, Resume;
      if !trace.spent && !trace.oversized && !trace.closed {
        FaithfulNow(trace.wire, trace.sent, Now());
      }
    }

    /** A refusal is the filter's own verdict on the bytes received, unless the caller asked for
        more than the buffer holds. */
    lemma RefusalIsEarned()
      requires Valid() && !trace.spent && !trace.oversized
      ensures stop.InvalidHeaders? ==> Filter(trace.wire) == Filtered(trace.sent, BadHeaders)
      ensures stop.InvalidBody? ==> Filter(trace.wire) == Filtered(trace.sent, BadBody)
    {
      hide HeadFirst, Filter;
      if stop.InvalidHeaders? || stop.InvalidBody? {
        FaithfulNow(trace.wire, trace.sent, Now());
        assert trace.sent + [] == trace.sent && trace.sent + ([] + []) == trace.sent;
      }
    }

    /** Main result. While a peer is sending a well-formed response (and anything after it), cut
        into reads in any way and read with any lengths up to 8192: what the client holds is a
        prefix of exactly what it must see, the guard never refuses, a complete response has been
        delivered whole, and a guard still waiting has not yet received the whole message. */
    lemma DeliversResponse(r: Response, x: seq<byte>)
      requires Valid() && !trace.spent && !trace.oversized
      requires WellFormed(r) && (r.payload.ToClose? ==> x == [])
      requires link.history[trace.origin..] <= Wire(r) + x
      ensures trace.sent <= Passed(r)
      ensures !stop.InvalidHeaders? && !stop.InvalidBody?
      ensures ResponseComplete() ==> (trace.closed <==> r.payload.ToClose?)
      ensures ResponseComplete() && (r.payload.ToClose? ==> trace.wire == Wire(r)) ==> trace.sent == Passed(r)
      ensures Drained() && |trace.wire| >= |Wire(r)| ==> r.payload.ToClose? && trace.sent == Passed(r)
    {
      hide HeadFirst, Filter, FilterBody, Resume, Faithful, Wire, Passed, WellFormed, AfterClose;
      var s := Wire(r) + x;
      var more := s[|trace.wire|..];
      assert s == trace.wire + more;
      WellFormedPasses(r, x);
      FilterGrows(trace.wire, more);
      DeliveredIsFiltered();
      RefusalIsEarned();
      if ResponseComplete() { CompleteMeansDelivered(); }
      CloseStaysOpen(trace.wire, more);
      if trace.closed { Closing(); }
      if |trace.wire| >= |Wire(r)| {
        var y := trace.wire[|Wire(r)|..];
        assert trace.wire == Wire(r) + y;
        WellFormedPasses(r, y);
      }
    }

    lemma Closing()
      requires Valid() && trace.closed && !trace.spent
      ensures Filter(trace.wire) == Filtered(trace.sent, Open(parser.Complete?)) &&
        (ResponseComplete() <==> parser.Complete?)
    {
    }

    /** Main result. In every state of every run, cancelled or not, in which no block is waiting: the
        client holds nothing or a whole head, and is not between the two bytes of the empty trailer that
        ends a chunked message. No read reports a failure in any other state. */
    lemma BlocksAreWhole(y: seq<byte>)
      requires Valid() && safeUntil == 0 && !trace.spent
      ensures trace.sent == [] || BlockEnd(trace.sent, false) > 0
      ensures ChunkedHead(trace.sent) && !trace.oversized && Filter(trace.wire + y).ending == Ended ==>
                |Filter(trace.wire + y).out| != |trace.sent| + 1
    {
      hide Filter, FilterBody, Classify, BlockEnd, Faithful;
      assert trace.sent + Block() == trace.sent;
      if ChunkedHead(trace.sent) && !trace.oversized && Filter(trace.wire + y).ending == Ended {
        if trace.closed {
          FilterGap(trace.wire, y);
        } else {
          FaithfulAt(trace.wire, trace.sent, Now(), y);
          if !stop.InvalidHeaders? && headersComplete { NoHalfTail(parser, headers[delivered..received] + y); }
        }
      }
    }

    /** The same for a well-formed response: the head and the empty trailer are each delivered whole or
        not at all. */
    lemma BlocksOfResponse(r: Response, x: seq<byte>)
      requires Valid() && safeUntil == 0 && !trace.oversized && !trace.spent
      requires WellFormed(r) && (r.payload.ToClose? ==> x == [])
      requires link.history[trace.origin..] <= Wire(r) + x
      ensures trace.sent == [] || |trace.sent| >= |HeadWire(r.head)|
      ensures r.payload.Chunked? ==> |Passed(r)| != |trace.sent| + 1
    {
      hide Filter, Resume, Faithful, Classify, Meaning, HeadWire, BlockEnd, AfterClose;
      var s, head := Wire(r) + x, HeadWire(r.head);
      PassableIsBlock(r.head);
      var more := s[|trace.wire|..];
      assert s == trace.wire + more;
      WellFormedPasses(r, x);
      DeliversResponse(r, x);
      BlocksAreWhole(more);
      if trace.sent != [] {
        WholeHead(trace.sent, head, Passed(r));
      } else if r.payload.Chunked? {
        BlockHasTwo(head, false);
      }
    }

    /** One whole exchange: reads with the given lengths until the guard reports an end. Whatever
        happens, the client holds a prefix of the response that cuts no metadata block. If the lengths
        suffice, no look was alarming, the socket did not fail and no wait ran out, then the response
        was delivered exactly and in full, or the peer closed before its end. */
    method ReadAll(buffer: array<byte>, lengths: seq<nat>, ghost r: Response, ghost x: seq<byte>)
        returns (out: seq<byte>, last: int)
      requires Valid() && Probed() && stop.Running? && !trace.closed && trace.sent == []
      requires buffer != headers && forall n :: n in lengths ==> 0 < n <= buffer.Length && n <= HEADERS_MAX
      requires WellFormed(r) && (r.payload.ToClose? ==> x == [])
      modifies this, headers, buffer, link
      ensures Valid() && Probed() && out == trace.sent && trace.origin == old(trace).origin
      ensures last == 0 ==> ResponseComplete()
      ensures Received() <= Wire(r) + x ==> out <= Passed(r) && stop in {Running, Cancelled, DeadlinePassed}
      ensures Received() <= Wire(r) + x && last <= 0 ==> out == [] || |out| >= |HeadWire(r.head)|
      ensures Received() <= Wire(r) + x && last <= 0 && r.payload.Chunked? ==> |Passed(r)| != |out| + 1
      ensures Received() <= Wire(r) + x && stop.Running? && ResponseComplete() && !r.payload.ToClose? ==>
        out == Passed(r)
      ensures Received() <= Wire(r) + x && |lengths| > |Passed(r)| &&
              stop.Running? && link.failures == old(link.failures) ==>
                if Wire(r) <= Received() then ResponseComplete() && out == Passed(r)
                else (ResponseComplete() && (out == Passed(r) || r.payload.ToClose?)) || (link.AtFin() && Truncated())
    {
      hide HeadFirst, Filter, FilterBody, Resume, Faithful, Wire, Passed, WellFormed, AfterClose, Drained, Truncated,
        Probed;
      out, last := [], 1;
      var i := 0;
      while i < |lengths| && last > 0
        invariant Valid() && Probed() && out == trace.sent && trace.origin == old(trace).origin
        invariant !trace.oversized && !trace.spent && link.failures >= old(link.failures)
        invariant i <= |lengths| && (last > 0 ==> |out| >= i)
        invariant last <= 0 ==> safeUntil == 0
        invariant last == 0 ==> ResponseComplete()
        invariant last <= 0 && stop.Running? && !ResponseComplete() && link.failures == old(link.failures) ==>
                    link.AtFin() && Truncated()
        decreases |lengths| - i
      {
        assert lengths[i] in lengths;
        last := Read(buffer, lengths[i]);
        if last > 0 { out := out + buffer[..last]; }
        i := i + 1;
      }
      if Received() <= Wire(r) + x {
        DeliversResponse(r, x);
        if last <= 0 { BlocksOfResponse(r, x); }
        if stop.Running? && Wire(r) <= Received() { Finishes(r, x); }
      }
    }

    /** What the peer has sent of this response. */
    ghost function Received(): seq<byte>
      reads this`trace, link`history
      requires trace.origin <= |link.history|
    {
      link.history[trace.origin..]
    }

    /** A guard that has the whole message and is not waiting for a failure to pass is done with it. */
    lemma Finishes(r: Response, x: seq<byte>)
      requires Valid() && !trace.spent && !trace.oversized && stop.Running?
      requires WellFormed(r) && (r.payload.ToClose? ==> x == [])
      requires Wire(r) <= Received() <= Wire(r) + x
      ensures !Truncated()
      ensures ResponseComplete() ==> trace.sent == Passed(r)
    {
      hide Filter, Wire, Passed, WellFormed, Faithful, AfterClose;
      var y := trace.wire[|Wire(r)|..];
      assert trace.wire == Wire(r) + y;
      WellFormedPasses(r, y);
      if ResponseComplete() { CompleteMeansDelivered(); }
    }

    lemma StartIsLive(head: Head)
      ensures !MessageStart(head).Failed? && !MessageStart(head).Trailing?
    {
    }
  }

  lemma LastChunk(tail: seq<byte>)
    ensures Execute(SizeStart, [48] + CRLF + tail) == (3, Trailing)
  {
    var s: seq<byte> := [48] + CRLF + tail;
    assert s[1..] == CRLF + tail;
    assert s[1..][1..] == [LF] + tail;
    assert ([LF] + tail)[1..] == tail;
    assert Execute(SizeLf(0), [LF] + tail) == (1, Trailing);
    assert Execute(Size(0), CRLF + tail) == (2, Trailing);
  }

  /** A new guard about to look at a calm world. */
  method CalmGuard(arrivals: seq<Arrival>) returns (g: Guard)
    ensures fresh(g) && fresh(g.link) && fresh(g.headers) && g.Valid() && g.stop.Running? && !g.headersComplete
    ensures g.trace == Trace([], [], 0, false, false, false) && g.safeUntil == 0 && g.received == 0
    ensures g.link.arrivals == arrivals && g.link.history == []
    ensures g.link.probes == [Probe(false, false), Probe(false, false)]
  {
    hide Filter, Faithful, HeadFirst, BlockEnd, Resume, FilterBody, Budget;
    var link := new Link;
    link.arrivals, link.history := arrivals, [];
    link.probes := [Probe(false, false), Probe(false, false), Probe(false, false)];
    g := new Guard(link, false);
    var halted := g.Stopped();
  }

  /** The same, once it has received one whole head. */
  method HeadReceived(head: seq<byte>, later: seq<Arrival>) returns (g: Guard)
    requires IsBlock(head, false)
    ensures fresh(g) && fresh(g.link) && fresh(g.headers) && g.Valid() && g.stop.Running? && !g.headersComplete
    ensures g.trace == Trace(head, [], 0, false, false, false) && g.safeUntil == 0
    ensures g.received == |head| <= g.headers.Length && g.headers[..g.received] == head
    ensures g.link.arrivals == later && g.link.probes == [Probe(false, false)] && g.link.history == head
  {
    hide Filter, Faithful, HeadFirst, BlockEnd, Resume, FilterBody, Budget, Guard.AfterClose, Guard.Probed, Guard.Now;
    g := CalmGuard([Arrival.Data(head)] + later);
    g.NowInMetadata();
    assert g.trace.sent + g.Block() == g.trace.sent;
    var n := g.link.Receive(g.headers, 0, HEADERS_MAX);
    g.NowInMetadata();
    var halted := g.Stopped();
    assert g.headers[0..n] == head;
    g.Accept(n);
  }

  /** The same, once it has released the head and handed it out. */
  method HeadHandedOut(head: seq<byte>, later: seq<Arrival>) returns (g: Guard)
    requires IsBlock(head, false) && Classify(head) == Final(SizeStart)
    ensures fresh(g) && fresh(g.link) && fresh(g.headers) && g.Valid() && g.stop.Running?
    ensures g.headersComplete && g.parser == SizeStart && g.safeUntil == 0 && g.delivered == g.received
    ensures g.trace == Trace(head, head, 0, false, false, false)
    ensures g.link.arrivals == later && g.link.probes == [Probe(false, false)] && g.link.history == head
  {
    hide Filter, Faithful, Classify, HeadFirst, BlockEnd, Resume, FilterBody, Budget;
    g := HeadReceived(head, later);
    g.ReleaseHead(|head|, SizeStart);
    var buffer := new byte[|head|];
    var n := g.DeliverBlock(buffer, |head|);
  }

  /** The shortest chunked response with this head. */
  lemma EmptyChunked(head: HeadText, more: seq<byte>) returns (r: Response)
    requires Passable(head) && Meaning(head) == Final(SizeStart)
    ensures WellFormed(r) && HeadWire(head) + ([48] + CRLF + (CRLF + more)) == Wire(r) + more
  {
    hide Meaning, HeadWire;
    r := Response([], head, Chunked([], SizeLine([48], []), []));
    assert Fits(SizeStart, r.payload);
    assert PayloadWire(r.payload) == [48] + CRLF + CRLF;
    assert Wire(r) == HeadWire(head) + ([48] + CRLF + CRLF);
  }

  /** One read takes the last size line and more behind it than the buffer can hold. */
  method OversizedRead(head: seq<byte>, rest: seq<byte>) returns (g: Guard)
    requires IsBlock(head, false) && Classify(head) == Final(SizeStart) && |rest| > HEADERS_MAX
    ensures g.trace.wire == head + ([48] + CRLF + rest)
    ensures g.Valid() && g.stop.InvalidHeaders? && g.trace.oversized && g.trace.sent == head + ([48] + CRLF)
  {
    hide Filter, Faithful, Classify, HeadFirst, BlockEnd, Execute, Resume, FilterBody, Budget, IsBlock,
      Guard.AfterClose, Guard.Now;
    var chunk := [48] + CRLF + rest;
    g := HeadHandedOut(head, [Arrival.Data(chunk)]);
    var buffer := new byte[|chunk|](_ => 0);
    assert g.trace.sent + g.Block() == g.trace.sent;
    var n := g.link.Receive(buffer, 0, |chunk|);
    assert buffer[..n] == chunk;
    var halted := g.Stopped();
    LastChunk(rest);
    n := g.FrameFresh(buffer, n);
    assert buffer[..n] == [48] + CRLF;
  }

  /** A run in which a well-formed response is refused: one read takes the last size line, the empty
      trailer, and so much of what follows that the buffer cannot hold what lies behind the size line. */
  method RefusedThoughWellFormed(head: HeadText, more: seq<byte>) returns (g: Guard, ghost r: Response)
    requires Passable(head) && Meaning(head) == Final(SizeStart)
    requires |more| > HEADERS_MAX - 2
    ensures WellFormed(r) && g.trace.wire == Wire(r) + more
    ensures g.Valid() && g.stop.InvalidHeaders? && g.trace.oversized && g.trace.sent == HeadWire(head) + ([48] + CRLF)
  {
    hide Classify, WellFormed, Wire, IsBlock, Meaning, HeadWire, Guard.Valid;
    r := EmptyChunked(head, more);
    PassableIsBlock(head);
    g := OversizedRead(HeadWire(head), CRLF + more);
  }
}
