/** Responses as RFC 9112 writes them, independent of the parser, the automaton and the guard, and the
    proof that the stream filter recognizes exactly these responses. */
module HttpGrammar {
  import opened Bytes
  import opened HttpFraming
  import opened HttpHead

  datatype SizeLine = SizeLine(digits: seq<byte>, extension: seq<byte>)
  datatype Chunk = Chunk(size: SizeLine, data: seq<byte>)

  datatype Payload =
    | NoBody
    | Exactly(content: seq<byte>)
    | Chunked(chunks: seq<Chunk>, last: SizeLine, trailer: seq<Field>)
    | ToClose(content: seq<byte>)

  datatype Response = Response(interims: seq<HeadText>, head: HeadText, payload: Payload)

  predicate AllHex(s: seq<byte>) { forall i :: 0 <= i < |s| ==> HexNibble(s[i]).Some? }

  /** Hexadecimal value of digits read after a prefix worth n. */
  function HexFrom(n: nat, digits: seq<byte>): nat
    requires AllHex(digits)
    decreases |digits|
  {
    if digits == [] then n else HexFrom(16 * n + HexNibble(digits[0]).value, digits[1..])
  }

  predicate ValidSize(line: SizeLine) {
    && line.digits != [] && AllHex(line.digits)
    && (line.extension == [] || ((line.extension[0] == 59 || line.extension[0] == SP) && CR !in line.extension))
  }

  predicate ValidChunk(chunk: Chunk) {
    ValidSize(chunk.size) && |chunk.data| == HexFrom(0, chunk.size.digits) && chunk.data != []
  }

  predicate IsBlock(s: seq<byte>, trailers: bool) {
    0 < |s| <= HEADERS_MAX && BlockEnd(s, trailers) == |s|
  }

  predicate Fits(start: BodyState, payload: Payload) {
    match payload
    case NoBody => start.Complete?
    case Exactly(content) => content != [] && start == Fixed(|content|)
    case Chunked(chunks, last, trailer) =>
      && start.SizeStart?
      && (forall i :: 0 <= i < |chunks| ==> ValidChunk(chunks[i]))
      && ValidSize(last) && HexFrom(0, last.digits) == 0
      && ValidTrailers(trailer) && |FieldsWire(trailer)| <= 8192
    case ToClose(_) => start.UntilClose?
  }

  /** A head small enough for the guard's buffer. */
  predicate Passable(h: HeadText) { ValidHead(h) && |HeadWire(h)| <= 8192 }

  predicate IsInterim(h: HeadText) { Passable(h) && Meaning(h).Interim? }

  /** A response the guard is meant to pass: metadata blocks within the limit, framing as announced. */
  predicate WellFormed(r: Response) {
    && (forall i :: 0 <= i < |r.interims| ==> IsInterim(r.interims[i]))
    && Passable(r.head)
    && Meaning(r.head).Final?
    && Fits(Meaning(r.head).start, r.payload)
  }

  function SizeWire(line: SizeLine): seq<byte> { line.digits + line.extension + CRLF }

  function ChunkWire(chunk: Chunk): seq<byte> { SizeWire(chunk.size) + chunk.data + CRLF }

  function ChunksWire(chunks: seq<Chunk>): seq<byte> {
    if chunks == [] then [] else ChunkWire(chunks[0]) + ChunksWire(chunks[1..])
  }

  function PayloadWire(payload: Payload): seq<byte> {
    match payload
    case NoBody => []
    case Exactly(content) => content
    case Chunked(chunks, last, trailer) => ChunksWire(chunks) + SizeWire(last) + FieldsWire(trailer)
    case ToClose(content) => content
  }

  function InterimsWire(interims: seq<HeadText>): seq<byte> {
    if interims == [] then [] else HeadWire(interims[0]) + InterimsWire(interims[1..])
  }

  /** The bytes a peer sends for this response. */
  function Wire(r: Response): seq<byte> { InterimsWire(r.interims) + HeadWire(r.head) + PayloadWire(r.payload) }

  /** The same payload with its trailer section emptied. */
  function Collapsed(payload: Payload): Payload {
    if payload.Chunked? then payload.(trailer := []) else payload
  }

  /** The bytes the client must see: no interim heads, an empty trailer section, all else verbatim. */
  function Passed(r: Response): seq<byte> { HeadWire(r.head) + PayloadWire(Collapsed(r.payload)) }

  function Completion(payload: Payload): Ending { if payload.ToClose? then Open(true) else Ended }

  // ---- Every well-formed response passes as specified ------------------------------------

  lemma {:induction false} DigitsFilter(n: nat, digits: seq<byte>, x: seq<byte>)
    requires AllHex(digits)
    ensures FilterBody(Size(n), digits + x) == Prepend(digits, FilterBody(Size(HexFrom(n, digits)), x))
    decreases |digits|
  {
    if digits == [] {
      assert digits + x == x;
    } else {
      assert (digits + x)[1..] == digits[1..] + x;
      DigitsFilter(16 * n + HexNibble(digits[0]).value, digits[1..], x);
      assert digits == [digits[0]] + digits[1..];
    }
  }

  lemma {:induction false} ExtensionFilter(n: nat, s: seq<byte>, x: seq<byte>)
    requires CR !in s
    ensures FilterBody(Extension(n), s + x) == Prepend(s, FilterBody(Extension(n), x))
    decreases |s|
  {
    if s == [] {
      assert s + x == x;
    } else {
      assert (s + x)[1..] == s[1..] + x;
      ExtensionFilter(n, s[1..], x);
      assert s == [s[0]] + s[1..];
    }
  }

  function AfterSize(n: nat): BodyState { if n == 0 then Trailing else Data(n) }

  lemma LineFeedFilter(b: BodyState, n: nat, x: seq<byte>)
    requires b == Size(n) || b == Extension(n)
    ensures FilterBody(b, CRLF + x) == Prepend(CRLF, FilterBody(AfterSize(n), x))
  {
    assert (CRLF + x)[1..] == [LF] + x;
    assert ([LF] + x)[1..] == x;
    assert FilterBody(SizeLf(n), [LF] + x) == Prepend([LF], FilterBody(AfterSize(n), x));
    PrependTwice([CR], [LF], FilterBody(AfterSize(n), x));
  }

  /** After the digits: straight to the line end, or through an extension. */
  lemma LineTail(n: nat, e: seq<byte>, x: seq<byte>)
    requires e == [] || ((e[0] == 59 || e[0] == SP) && CR !in e)
    ensures FilterBody(Size(n), e + (CRLF + x)) == Prepend(e + CRLF, FilterBody(AfterSize(n), x))
  {
    hide FilterTrailer, Prepend;
    if e == [] {
      assert e + (CRLF + x) == CRLF + x && e + CRLF == CRLF;
      LineFeedFilter(Size(n), n, x);
    } else {
      var tail := e + (CRLF + x);
      assert tail[1..] == e[1..] + (CRLF + x);
      assert HexNibble(e[0]).None?;
      ExtensionFilter(n, e[1..], CRLF + x);
      LineFeedFilter(Extension(n), n, x);
      assert e == [e[0]] + e[1..];
      PrependTwice([e[0]], e[1..], FilterBody(Extension(n), CRLF + x));
      PrependTwice(e, CRLF, FilterBody(AfterSize(n), x));
    }
  }

  lemma SizeFilter(line: SizeLine, x: seq<byte>)
    requires ValidSize(line)
    ensures FilterBody(SizeStart, SizeWire(line) + x) ==
            Prepend(SizeWire(line), FilterBody(AfterSize(HexFrom(0, line.digits)), x))
  {
    hide FilterTrailer, Prepend;
    var d, e := line.digits, line.extension;
    var tail := e + (CRLF + x);
    var n := HexFrom(0, d);
    assert SizeWire(line) + x == d + tail;
    assert (d + tail)[1..] == d[1..] + tail;
    DigitsFilter(HexNibble(d[0]).value, d[1..], tail);
    assert d == [d[0]] + d[1..];
    PrependTwice([d[0]], d[1..], FilterBody(Size(n), tail));
    LineTail(n, e, x);
    PrependTwice(d, e + CRLF, FilterBody(AfterSize(n), x));
    assert d + (e + CRLF) == SizeWire(line);
  }

  lemma DataEnd(x: seq<byte>)
    ensures FilterBody(DataCr, CRLF + x) == Prepend(CRLF, FilterBody(SizeStart, x))
  {
    hide Prepend;
    assert (CRLF + x)[1..] == [LF] + x;
    assert ([LF] + x)[1..] == x;
    assert FilterBody(DataLf, [LF] + x) == Prepend([LF], FilterBody(SizeStart, x));
    PrependTwice([CR], [LF], FilterBody(SizeStart, x));
    assert [CR] + [LF] == CRLF;
  }

  lemma LastOctet(b: byte, x: seq<byte>)
    ensures FilterBody(Data(1), [b] + CRLF + x) == Prepend([b] + CRLF, FilterBody(SizeStart, x))
  {
    hide Prepend;
    var s := [b] + CRLF + x;
    assert s[1..] == CRLF + x;
    assert FilterBody(Data(1), s) == Prepend([b], FilterBody(DataCr, CRLF + x));
    DataEnd(x);
    PrependTwice([b], CRLF, FilterBody(SizeStart, x));
  }

  lemma {:induction false} DataFilter(data: seq<byte>, x: seq<byte>)
    requires data != []
    ensures FilterBody(Data(|data|), data + CRLF + x) == Prepend(data + CRLF, FilterBody(SizeStart, x))
    decreases |data|
  {
    hide Prepend;
    if |data| == 1 {
      LastOctet(data[0], x);
      assert data == [data[0]];
    } else {
      var s := data + CRLF + x;
      assert s[1..] == data[1..] + CRLF + x;
      DataFilter(data[1..], x);
      assert FilterBody(Data(|data|), s) == Prepend([data[0]], FilterBody(Data(|data| - 1), s[1..]));
      assert data + CRLF == [data[0]] + (data[1..] + CRLF);
      PrependTwice([data[0]], data[1..] + CRLF, FilterBody(SizeStart, x));
    }
  }

  lemma {:induction false} ChunksFilter(chunks: seq<Chunk>, x: seq<byte>)
    requires forall i :: 0 <= i < |chunks| ==> ValidChunk(chunks[i])
    ensures FilterBody(SizeStart, ChunksWire(chunks) + x) == Prepend(ChunksWire(chunks), FilterBody(SizeStart, x))
    decreases |chunks|
  {
    hide FilterBody, Prepend;
    if chunks == [] {
      assert ChunksWire(chunks) + x == x;
      PrependNothing(FilterBody(SizeStart, x));
    } else {
      var c, rest := chunks[0], ChunksWire(chunks[1..]) + x;
      ChunksFilter(chunks[1..], x);
      assert ChunksWire(chunks) + x == SizeWire(c.size) + (c.data + CRLF + rest);
      SizeFilter(c.size, c.data + CRLF + rest);
      DataFilter(c.data, rest);
      PrependTwice(SizeWire(c.size), c.data + CRLF, FilterBody(SizeStart, rest));
      assert SizeWire(c.size) + (c.data + CRLF) == ChunkWire(c);
      PrependTwice(ChunkWire(c), ChunksWire(chunks[1..]), FilterBody(SizeStart, x));
    }
  }

  lemma {:induction false} FixedFilter(content: seq<byte>, x: seq<byte>)
    requires content != []
    ensures FilterBody(Fixed(|content|), content + x) == Filtered(content, Ended)
    decreases |content|
  {
    assert (content + x)[1..] == content[1..] + x;
    if |content| > 1 {
      FixedFilter(content[1..], x);
    }
    assert content == [content[0]] + content[1..];
  }

  lemma {:induction false} CloseFilter(content: seq<byte>)
    ensures FilterBody(UntilClose, content) == Filtered(content, Open(true))
    decreases |content|
  {
    if content != [] {
      CloseFilter(content[1..]);
      assert content == [content[0]] + content[1..];
    }
  }

  lemma BlockFound(block: seq<byte>, x: seq<byte>, trailers: bool)
    requires IsBlock(block, trailers)
    ensures BlockEnd(Window(block + x), trailers) == |block|
    ensures (block + x)[..|block|] == block && (block + x)[|block|..] == x
  {
    WindowExtends(block, x, trailers);
  }

  lemma TrailerPasses(fields: seq<Field>, x: seq<byte>)
    requires ValidTrailers(fields) && |FieldsWire(fields)| <= 8192
    ensures FilterTrailer(FieldsWire(fields) + x) == Filtered(CRLF, Ended)
  {
    hide FirstBlank, ValidTrailer, FieldsWire;
    TrailersEnd(fields);
    TrailersRead(fields);
    BlockFound(FieldsWire(fields), x, true);
  }

  lemma ChunkedFilter(p: Payload, x: seq<byte>)
    requires p.Chunked? && Fits(SizeStart, p)
    ensures FilterBody(SizeStart, PayloadWire(p) + x) == Filtered(PayloadWire(Collapsed(p)), Ended)
  {
    hide ValidTrailer, ValidTrailers, FirstBlank, ValidSize, ValidChunk, ChunksWire, SizeWire;
    var trailer := FieldsWire(p.trailer);
    var tail := SizeWire(p.last) + (trailer + x);
    assert PayloadWire(p) + x == ChunksWire(p.chunks) + tail;
    ChunksFilter(p.chunks, tail);
    SizeFilter(p.last, trailer + x);
    TrailerPasses(p.trailer, x);
    PrependTwice(ChunksWire(p.chunks), SizeWire(p.last), FilterTrailer(trailer + x));
  }

  lemma PayloadFilter(payload: Payload, start: BodyState, x: seq<byte>)
    requires Fits(start, payload)
    requires payload.ToClose? ==> x == []
    ensures FilterBody(start, PayloadWire(payload) + x) ==
            Filtered(PayloadWire(Collapsed(payload)), Completion(payload))
  {
    match payload
    case NoBody =>
    case Exactly(content) => FixedFilter(content, x);
    case ToClose(content) =>
      assert content + x == content;
      CloseFilter(content);
    case Chunked(_, _, _) => ChunkedFilter(payload, x);
  }

  lemma PassableIsBlock(h: HeadText)
    requires Passable(h)
    ensures IsBlock(HeadWire(h), false) && Classify(HeadWire(h)) == Meaning(h)
  {
    hide Classify, Meaning, HeadWire, BlockEnd;
    HeadEnds(h);
    HeadClassified(h);
  }

  lemma InterimDropped(h: HeadText, x: seq<byte>)
    requires IsInterim(h)
    ensures Filter(HeadWire(h) + x) == Filter(x)
  {
    hide FirstBlank, Classify, Meaning, HeadWire;
    PassableIsBlock(h);
    BlockFound(HeadWire(h), x, false);
  }

  lemma FinalReleased(h: HeadText, x: seq<byte>)
    requires Passable(h) && Meaning(h).Final?
    ensures Filter(HeadWire(h) + x) == Prepend(HeadWire(h), FilterBody(Meaning(h).start, x))
  {
    hide FirstBlank, Classify, Meaning, HeadWire;
    PassableIsBlock(h);
    BlockFound(HeadWire(h), x, false);
  }

  lemma FinalPasses(h: HeadText, p: Payload, x: seq<byte>)
    requires Passable(h) && Meaning(h).Final? && Fits(Meaning(h).start, p)
    requires p.ToClose? ==> x == []
    ensures Filter(HeadWire(h) + (PayloadWire(p) + x)) ==
            Filtered(HeadWire(h) + PayloadWire(Collapsed(p)), Completion(p))
  {
    hide Meaning, HeadWire, Fits, PayloadWire, Filter, FilterBody;
    FinalReleased(h, PayloadWire(p) + x);
    PayloadFilter(p, Meaning(h).start, x);
  }

  /** Main result: whatever follows it on the connection, a well-formed response is filtered to
      exactly the bytes the client must see, and the filter ends where the message ends. A body
      that runs until close instead leaves the stream open for the peer's close. */
  lemma {:induction false} WellFormedPasses(r: Response, x: seq<byte>)
    requires WellFormed(r)
    requires r.payload.ToClose? ==> x == []
    ensures Filter(Wire(r) + x) == Filtered(Passed(r), Completion(r.payload))
    decreases |r.interims|
  {
    hide Meaning, Passable, HeadWire, Fits, PayloadWire, Filter;
    if r.interims == [] {
      assert Wire(r) + x == HeadWire(r.head) + (PayloadWire(r.payload) + x);
      FinalPasses(r.head, r.payload, x);
    } else {
      var h, next := r.interims[0], r.(interims := r.interims[1..]);
      assert Wire(r) + x == HeadWire(h) + (Wire(next) + x);
      InterimDropped(h, Wire(next) + x);
      WellFormedPasses(next, x);
    }
  }

  // ---- Nothing else passes ---------------------------------------------------------------

  lemma {:induction false} OnlyCloseIsClosable(b: BodyState, s: seq<byte>)
    requires !b.UntilClose?
    ensures FilterBody(b, s).ending != Open(true)
    decreases |s|
  {
    if !Paused(b) && s != [] && !Step(b, s[0]).Failed? {
      OnlyCloseIsClosable(Step(b, s[0]), s[1..]);
    }
  }

  lemma {:induction false} FixedContent(left: nat, s: seq<byte>) returns (content: seq<byte>, x: seq<byte>)
    requires left > 0 && FilterBody(Fixed(left), s).ending == Ended
    ensures |content| == left && s == content + x
    decreases |s|
  {
    if left == 1 {
      content, x := s[..1], s[1..];
    } else {
      content, x := FixedContent(left - 1, s[1..]);
      content := [s[0]] + content;
    }
  }

  lemma {:induction false} ExtensionContent(n: nat, s: seq<byte>) returns (e: seq<byte>, x: seq<byte>)
    requires FilterBody(Extension(n), s).ending == Ended
    ensures CR !in e && s == e + CRLF + x && FilterBody(AfterSize(n), x).ending == Ended
    decreases |s|
  {
    if s[0] == CR {
      AfterLineFeed(n, s);
      e, x := [], s[2..];
    } else {
      e, x := ExtensionContent(n, s[1..]);
      e := [s[0]] + e;
    }
  }

  lemma AfterLineFeed(n: nat, s: seq<byte>)
    requires s != [] && s[0] == CR && FilterBody(SizeLf(n), s[1..]).ending == Ended
    ensures |s| >= 2 && s == CRLF + s[2..] && FilterBody(AfterSize(n), s[2..]).ending == Ended
  {
    assert s[1..][1..] == s[2..];
  }

  lemma SizeContinues(n: nat, s: seq<byte>)
    requires FilterBody(Size(n), s).ending == Ended
    ensures s != []
    ensures FilterBody(Step(Size(n), s[0]), s[1..]).ending == Ended
    ensures HexNibble(s[0]).Some? || s[0] == CR || s[0] == 59 || s[0] == SP
  {
  }

  lemma {:induction false} SizeContent(n: nat, s: seq<byte>) returns (line: SizeLine, x: seq<byte>)
    requires FilterBody(Size(n), s).ending == Ended
    ensures AllHex(line.digits)
    ensures line.extension == [] || ((line.extension[0] == 59 || line.extension[0] == SP) && CR !in line.extension)
    ensures s == SizeWire(line) + x && FilterBody(AfterSize(HexFrom(n, line.digits)), x).ending == Ended
    decreases |s|
  {
    hide FilterBody;
    SizeContinues(n, s);
    if HexNibble(s[0]).Some? {
      var d := HexNibble(s[0]).value;
      line, x := SizeContent(16 * n + d, s[1..]);
      assert s == [s[0]] + (SizeWire(line) + x);
      line := Longer(n, s[0], line, x);
    } else if s[0] == CR {
      AfterLineFeed(n, s);
      line, x := SizeLine([], []), s[2..];
    } else {
      var e;
      e, x := ExtensionContent(n, s[1..]);
      line := SizeLine([], [s[0]] + e);
      assert s == [s[0]] + (e + CRLF + x);
    }
  }

  lemma Longer(n: nat, c: byte, line: SizeLine, x: seq<byte>) returns (r: SizeLine)
    requires HexNibble(c).Some? && AllHex(line.digits)
    ensures r == line.(digits := [c] + line.digits) && AllHex(r.digits)
    ensures HexFrom(n, r.digits) == HexFrom(16 * n + HexNibble(c).value, line.digits)
    ensures SizeWire(r) + x == [c] + (SizeWire(line) + x)
  {
    r := line.(digits := [c] + line.digits);
    assert r.digits[1..] == line.digits;
  }

  lemma {:induction false} DataContent(left: nat, s: seq<byte>) returns (data: seq<byte>, x: seq<byte>)
    requires left > 0 && FilterBody(Data(left), s).ending == Ended
    ensures |data| == left && s == data + CRLF + x && FilterBody(SizeStart, x).ending == Ended
    decreases |s|
  {
    if left == 1 {
      assert FilterBody(DataCr, s[1..]).ending == Ended;
      assert FilterBody(DataLf, s[1..][1..]).ending == Ended;
      data, x := s[..1], s[3..];
      assert s[1..][1..][1..] == x;
    } else {
      data, x := DataContent(left - 1, s[1..]);
      data := [s[0]] + data;
    }
  }

  lemma TrailerContent(s: seq<byte>) returns (trailer: seq<byte>, x: seq<byte>)
    requires FilterTrailer(s).ending == Ended
    ensures s == trailer + x && IsBlock(trailer, true) && ValidTrailer(trailer)
  {
    hide ValidTrailer, FirstBlank;
    var end := BlockEnd(Window(s), true);
    trailer, x := s[..end], s[end..];
    assert s == trailer + x;
    BlockIsShortest(Window(s), true);
    assert Window(s)[..end] == trailer;
  }

  lemma BlockIsShortest(s: seq<byte>, trailers: bool)
    requires BlockEnd(s, trailers) > 0
    ensures BlockEnd(s[..BlockEnd(s, trailers)], trailers) == BlockEnd(s, trailers)
  {
    var end := BlockEnd(s, trailers);
    var t := s[..end];
    if !(trailers && CRLF <= s) {
      assert BlankAt(t, end - 4);
      assert forall i :: BlankAt(t, i) ==> BlankAt(s, i);
    }
  }

  lemma FirstSize(s: seq<byte>) returns (size: SizeLine, x: seq<byte>)
    requires FilterBody(SizeStart, s).ending == Ended
    ensures ValidSize(size) && s == SizeWire(size) + x
    ensures AllHex(size.digits) && FilterBody(AfterSize(HexFrom(0, size.digits)), x).ending == Ended
  {
    hide FilterTrailer;
    var d := HexNibble(s[0]).value;
    size, x := SizeContent(d, s[1..]);
    assert s == [s[0]] + (SizeWire(size) + x);
    size := Longer(0, s[0], size, x);
  }

  lemma {:induction false} ChunkedContent(s: seq<byte>) returns (p: Payload, x: seq<byte>)
    requires FilterBody(SizeStart, s).ending == Ended
    ensures p.Chunked? && Fits(SizeStart, p) && s == PayloadWire(p) + x
    decreases |s|
  {
    hide FilterBody, ValidTrailers, FieldsWire, ValidSize, Fits, PayloadWire, ChunkWire;
    var size, rest := FirstSize(s);
    var n := HexFrom(0, size.digits);
    if n == 0 {
      var trailer;
      trailer, x := LastTrailer(rest);
      p := JustTrailer(size, trailer);
    } else {
      var data, more := DataContent(n, rest);
      p, x := ChunkedContent(more);
      p := Longest(Chunk(size, data), p);
      assert s == ChunkWire(Chunk(size, data)) + more by { OneChunk(size, data, rest, more); }
    }
  }

  lemma LastTrailer(s: seq<byte>) returns (trailer: seq<Field>, x: seq<byte>)
    requires FilterBody(Trailing, s).ending == Ended
    ensures s == FieldsWire(trailer) + x && ValidTrailers(trailer) && |FieldsWire(trailer)| <= 8192
  {
    hide ValidTrailer, ValidTrailers, FieldsWire;
    var block;
    block, x := TrailerContent(s);
    trailer := OnlyTrailers(block);
  }

  lemma JustTrailer(size: SizeLine, trailer: seq<Field>) returns (p: Payload)
    requires ValidSize(size) && AllHex(size.digits) && HexFrom(0, size.digits) == 0
    requires ValidTrailers(trailer) && |FieldsWire(trailer)| <= 8192
    ensures p.Chunked? && Fits(SizeStart, p) && PayloadWire(p) == SizeWire(size) + FieldsWire(trailer)
  {
    hide ValidTrailers, FieldsWire;
    p := Chunked([], size, trailer);
  }

  lemma OneChunk(size: SizeLine, data: seq<byte>, rest: seq<byte>, more: seq<byte>)
    requires rest == data + CRLF + more
    ensures SizeWire(size) + rest == ChunkWire(Chunk(size, data)) + more
  {
  }

  lemma Longest(c: Chunk, p: Payload) returns (r: Payload)
    requires p.Chunked? && Fits(SizeStart, p) && ValidChunk(c)
    ensures r.Chunked? && Fits(SizeStart, r) && PayloadWire(r) == ChunkWire(c) + PayloadWire(p)
  {
    hide ValidChunk, ValidTrailers, FieldsWire, ValidSize, ChunkWire, SizeWire;
    r := p.(chunks := [c] + p.chunks);
    assert r.chunks[1..] == p.chunks;
  }

  lemma PayloadContent(start: BodyState, s: seq<byte>) returns (p: Payload, x: seq<byte>)
    requires start.Complete? || start.SizeStart? || start.UntilClose? || (start.Fixed? && start.left > 0)
    requires FilterBody(start, s).ending in {Ended, Open(true)}
    ensures Fits(start, p) && s == PayloadWire(p) + x
    ensures p.ToClose? <==> FilterBody(start, s).ending == Open(true)
    ensures p.ToClose? ==> x == []
  {
    match start
    case Complete => p, x := NoBody, s;
    case UntilClose =>
      CloseFilter(s);
      p, x := ToClose(s), [];
    case SizeStart =>
      OnlyCloseIsClosable(start, s);
      p, x := ChunkedContent(s);
    case Fixed(left) =>
      OnlyCloseIsClosable(start, s);
      var content;
      content, x := FixedContent(left, s);
      p := Exactly(content);
  }

  lemma HeadContent(s: seq<byte>) returns (h: HeadText, x: seq<byte>)
    requires Filter(s).ending in {Ended, Open(true)}
    ensures Passable(h) && s == HeadWire(h) + x && |x| < |s| && !Meaning(h).Rejected?
    ensures Meaning(h).Interim? ==> Filter(s) == Filter(x)
    ensures Meaning(h).Final? ==> Filter(s).ending == FilterBody(Meaning(h).start, x).ending
  {
    hide FilterBody, BlockEnd, Classify, Meaning, HeadWire;
    var end := BlockEnd(Window(s), false);
    x := s[end..];
    h := OnlyHeads(s[..end]);
    HeadClassified(h);
  }

  lemma StartsFraming(h: HeadText)
    requires ValidHead(h) && Meaning(h).Final?
    ensures var start := Meaning(h).start;
      start.Complete? || start.SizeStart? || start.UntilClose? || (start.Fixed? && start.left > 0)
  {
    hide Worth, Chunks;
  }

  /** Converse: a stream the filter ends (or leaves for a close to end) starts with a well-formed
      response. With WellFormedPasses, completion is exactly well-formedness. */
  lemma {:induction false} OnlyWellFormedEnds(s: seq<byte>) returns (r: Response, x: seq<byte>)
    requires Filter(s).ending in {Ended, Open(true)}
    ensures WellFormed(r) && s == Wire(r) + x
    ensures r.payload.ToClose? <==> Filter(s).ending == Open(true)
    ensures r.payload.ToClose? ==> x == []
    decreases |s|
  {
    hide Meaning, HeadWire, Fits, FilterBody, Filter, PayloadWire;
    var head, rest := HeadContent(s);
    if Meaning(head).Interim? {
      r, x := OnlyWellFormedEnds(rest);
      var interims := [head] + r.interims;
      assert interims[1..] == r.interims;
      r := r.(interims := interims);
    } else {
      StartsFraming(head);
      var p;
      p, x := PayloadContent(Meaning(head).start, rest);
      r := Response([], head, p);
    }
  }

  // ---- How far a chunked message is from its end -------------------------------------------

  lemma NoHalfTail(b: BodyState, s: seq<byte>)
    requires InChunks(b) && FilterBody(b, s).ending == Ended
    ensures |FilterBody(b, s).out| != 1
  {
    if !b.Complete? { ChunkedTail(b, s); }
  }

  lemma {:induction false} BodyGap(b: BodyState, s: seq<byte>, x: seq<byte>)
    requires InChunks(b) && FilterBody(b, s).ending.Open? && FilterBody(b, s + x).ending == Ended
    ensures |FilterBody(b, s + x).out| >= |FilterBody(b, s).out| + 2
    decreases |s|
  {
    if s == [] || b.Trailing? {
      ChunkedTail(b, s + x);
    } else {
      assert (s + x)[1..] == s[1..] + x;
      BodyGap(Step(b, s[0]), s[1..], x);
    }
  }

  /** Until a chunked message has ended, at least the two bytes of its trailer are still to come. */
  lemma {:induction false} FilterGap(s: seq<byte>, x: seq<byte>)
    requires Filter(s).ending.Open? && Filter(s + x).ending == Ended && ChunkedHead(Filter(s).out)
    ensures |Filter(s + x).out| >= |Filter(s).out| + 2
    decreases |s|
  {
    hide Classify, FilterBody, FirstBlank;
    var end := BlockEnd(Window(s), false);
    WindowExtends(s, x, false);
    if Classify(s[..end]).Interim? {
      FilterGap(s[end..], x);
    } else {
      var start := Classify(s[..end]).start;
      BlockIsShortest(Window(s), false);
      assert Window(s)[..end] == s[..end];
      HeadOfOutput(s[..end], FilterBody(start, s[end..]).out);
      BodyGap(start, s[end..], x);
    }
  }

  lemma HeadOfOutput(head: seq<byte>, more: seq<byte>)
    requires BlockEnd(head, false) == |head| > 0
    ensures BlockEnd(head + more, false) == |head| && (head + more)[..|head|] == head
  {
    BlockEndExtends(head, more, false);
  }
}
