/** What the response guard lets through, as a function of the bytes a peer sent.
    The head grammar and the body automaton stand in for the HTTP parser library and follow
    RFC 9112 (sections 3 to 7); the filter is the guard's contract on a whole stream. */
module HttpFraming {
  import opened Bytes

  const HEADERS_MAX: nat := 8192

  // ---- Locating the end of a metadata block ----------------------------------------------

  predicate BlankAt(s: seq<byte>, i: int) {
    0 <= i && i + 4 <= |s| && s[i] == CR && s[i + 1] == LF && s[i + 2] == CR && s[i + 3] == LF
  }

  /** The length of the shortest prefix that ends in an empty line, or 0. */
  function FirstBlank(s: seq<byte>): (end: nat)
    ensures end == 0 <==> forall i :: !BlankAt(s, i)
    ensures end > 0 ==> BlankAt(s, end - 4) && forall i :: i < end - 4 ==> !BlankAt(s, i)
  {
    if |s| < 4 then 0
    else if BlankAt(s, 0) then 4
    else
      var rest := FirstBlank(s[1..]);
      assert forall i :: BlankAt(s[1..], i) <==> i >= 0 && BlankAt(s, i + 1);
      assert forall i :: BlankAt(s, i) ==> BlankAt(s[1..], i - 1);
      if rest == 0 then 0 else
        assert BlankAt(s, rest + 1 - 4);
        rest + 1
  }

  /** A head ends with its empty line; a trailer section may be the empty line alone. */
  function BlockEnd(s: seq<byte>, trailers: bool): (end: nat)
    ensures end <= |s|
  {
    if trailers && CRLF <= s then 2 else FirstBlank(s)
  }

  /** The block is the shortest prefix that ends in an empty line; no other length is. */
  ghost predicate EndsBlock(s: seq<byte>, trailers: bool, end: nat) {
    if trailers && CRLF <= s then end == 2
    else BlankAt(s, end - 4) && forall i :: i < end - 4 ==> !BlankAt(s, i)
  }

  /** A block ends where block_end says, and there is none exactly when it says zero. */
  lemma BlockEndIsFirst(s: seq<byte>, trailers: bool)
    ensures BlockEnd(s, trailers) > 0 <==> exists end: nat :: EndsBlock(s, trailers, end)
    ensures forall end: nat :: EndsBlock(s, trailers, end) <==> end > 0 && end == BlockEnd(s, trailers)
  {
    var end := BlockEnd(s, trailers);
    if end > 0 { assert EndsBlock(s, trailers, end); }
    forall e: nat | EndsBlock(s, trailers, e) ensures e == end {
      if !(trailers && CRLF <= s) { assert BlankAt(s, e - 4) && BlankAt(s, end - 4); }
    }
  }

  // ---- Heads (RFC 9112 sections 4 to 6) --------------------------------------------------

  datatype Fields = Fields(length: Option<nat>, coded: bool, chunked: bool)
  datatype Head = Head(status: nat, fields: Fields)

  const NO_FIELDS: Fields := Fields(None, false, false)

  function LineEnd(s: seq<byte>): (n: nat)
    ensures n <= |s|
  {
    if |s| < 2 then |s| else if CRLF <= s then 0 else 1 + LineEnd(s[1..])
  }

  predicate IsToken(s: seq<byte>) {
    s != [] &&
    forall b :: b in s ==> 32 < b < 127 && b !in {34, 40, 41, 44, 47, 58, 59, 60, 61, 62, 63, 64, 91, 92, 93, 123, 125}
  }

  function Trim(s: seq<byte>): seq<byte> {
    if s != [] && (s[0] == SP || s[0] == HT) then Trim(s[1..])
    else if s != [] && (s[|s| - 1] == SP || s[|s| - 1] == HT) then Trim(s[..|s| - 1])
    else s
  }

  function IndexOf(s: seq<byte>, b: byte): (n: nat)
    ensures n <= |s|
  {
    if s == [] || s[0] == b then 0 else 1 + IndexOf(s[1..], b)
  }

  function AfterLast(s: seq<byte>, b: byte): seq<byte> {
    var n := IndexOf(s, b);
    if n == |s| then s else AfterLast(s[n + 1..], b)
  }

  predicate SameName(s: seq<byte>, name: seq<byte>) {
    |s| == |name| && forall i :: 0 <= i < |s| ==> Lower(s[i]) == name[i]
  }

  function Decimal(s: seq<byte>): Option<nat> {
    if s == [] then Some(0)
    else
      var d := s[|s| - 1];
      match Decimal(s[..|s| - 1])
      case Some(n) => if IsDigit(d) then Some(10 * n + (d - 48)) else None
      case None => None
  }

  const CONTENT_LENGTH: seq<byte> := [99, 111, 110, 116, 101, 110, 116, 45, 108, 101, 110, 103, 116, 104]
  const TRANSFER_ENCODING: seq<byte> :=
    [116, 114, 97, 110, 115, 102, 101, 114, 45, 101, 110, 99, 111, 100, 105, 110, 103]
  const CHUNKED: seq<byte> := [99, 104, 117, 110, 107, 101, 100]

  /** One field line; the framing fields may each appear once. */
  function AddField(line: seq<byte>, fields: Fields): Option<Fields> {
    var colon := IndexOf(line, 58);
    if colon == |line| || !IsToken(line[..colon]) || CR in line || LF in line then None
    else
      var name, value := line[..colon], Trim(line[colon + 1..]);
      if SameName(name, CONTENT_LENGTH) then
        if fields.length.Some? || value == [] then None
        else match Decimal(value)
          case Some(n) => Some(fields.(length := Some(n)))
          case None => None
      else if SameName(name, TRANSFER_ENCODING) then
        if fields.coded then None
        else Some(fields.(coded := true, chunked := SameName(Trim(AfterLast(value, 44)), CHUNKED)))
      else Some(fields)
  }

  /** Field lines up to and including the empty line that must end the block. */
  function ParseFields(s: seq<byte>, fields: Fields): Option<Fields> {
    var n := LineEnd(s);
    if n + 2 > |s| then None
    else if n == 0 then if |s| == 2 then Some(fields) else None
    else match AddField(s[..n], fields)
      case Some(more) => ParseFields(s[n + 2..], more)
      case None => None
  }

  function ParseStatus(line: seq<byte>): Option<nat> {
    if |line| < 12 || line[..5] != [72, 84, 84, 80, 47] || !IsDigit(line[5]) || line[6] != 46 ||
       !IsDigit(line[7]) || line[8] != SP || (|line| > 12 && line[12] != SP) || CR in line || LF in line then None
    else Decimal(line[9..12])
  }

  function ParseHead(block: seq<byte>): Option<Head> {
    var n := LineEnd(block);
    if n + 2 > |block| then None
    else match ParseStatus(block[..n])
      case None => None
      case Some(status) =>
        match ParseFields(block[n + 2..], NO_FIELDS)
        case None => None
        case Some(fields) => if fields.length.Some? && fields.coded then None else Some(Head(status, fields))
  }

  predicate ValidTrailer(block: seq<byte>) { ParseFields(block, NO_FIELDS).Some? }

  // ---- Bodies (RFC 9112 sections 6.3 and 7.1) --------------------------------------------

  /** The framing automaton between the end of a final head and the end of the message. */
  datatype BodyState =
    | Fixed(left: nat)
    | UntilClose
    | SizeStart
    | Size(n: nat)
    | Extension(n: nat)
    | SizeLf(n: nat)
    | Data(left: nat)
    | DataCr
    | DataLf
    | Trailing
    | Complete
    | Failed

  predicate Paused(b: BodyState) { b.Trailing? || b.Complete? || b.Failed? }

  function Step(b: BodyState, c: byte): BodyState
    requires !Paused(b)
  {
    match b
    case Fixed(left) => if left <= 1 then Complete else Fixed(left - 1)
    case UntilClose => UntilClose
    case SizeStart => (match HexNibble(c) case Some(d) => Size(d) case None => Failed)
    case Size(n) =>
      (match HexNibble(c)
       case Some(d) => Size(16 * n + d)
       case None => if c == CR then SizeLf(n) else if c == 59 || c == SP then Extension(n) else Failed)
    case Extension(n) => if c == CR then SizeLf(n) else Extension(n)
    case SizeLf(n) => if c != LF then Failed else if n == 0 then Trailing else Data(n)
    case Data(left) => if left <= 1 then DataCr else Data(left - 1)
    case DataCr => if c == CR then DataLf else Failed
    case DataLf => if c == LF then SizeStart else Failed
  }

  /** The library's execute call: bytes accepted before a pause or an error, and the new state. */
  function Execute(b: BodyState, s: seq<byte>): (r: (nat, BodyState))
    ensures r.0 <= |s|
    ensures !Paused(r.1) ==> r.0 == |s|
    ensures r.1.Failed? || Paused(b) || s == [] || r.0 > 0
    decreases |s|
  {
    if s == [] || Paused(b) then (0, b)
    else
      var next := Step(b, s[0]);
      if next.Failed? then (0, Failed)
      else
        var rest := Execute(next, s[1..]);
        (rest.0 + 1, rest.1)
  }

  /** The framing a final head announces (RFC 9112 section 6.3). */
  function MessageStart(head: Head): BodyState {
    if head.status < 200 || head.status == 204 || head.status == 304 then Complete
    else if head.fields.chunked then SizeStart
    else if head.fields.length.Some? then
      if head.fields.length.value == 0 then Complete else Fixed(head.fields.length.value)
    else UntilClose
  }

  // ---- The stream filter -----------------------------------------------------------------

  datatype Kind = Rejected | Interim | Final(start: BodyState)

  predicate Framed(head: Head) { head.fields.chunked || head.fields.length.Some? }

  /** How a whole head block is treated: refused, dropped, or released with its body framing. */
  function Classify(block: seq<byte>): Kind {
    match ParseHead(block)
    case None => Rejected
    case Some(head) =>
      if head.status < 100 || head.status == 101 then Rejected
      else if (head.status < 200 || head.status == 204) && Framed(head) then Rejected
      else if head.status < 200 then Interim
      else Final(MessageStart(head))
  }

  /** Where the response stands once the given bytes are filtered. An open stream may be ended by
      the peer closing the connection only when its body runs until close. */
  datatype Ending = Open(closable: bool) | Ended | BadHeaders | BadBody

  datatype Filtered = Filtered(out: seq<byte>, ending: Ending)

  function Prepend(s: seq<byte>, f: Filtered): Filtered { f.(out := s + f.out) }

  function Window(s: seq<byte>): (w: seq<byte>)
    ensures w <= s && |w| <= HEADERS_MAX && (|s| <= HEADERS_MAX ==> w == s)
  {
    if |s| <= HEADERS_MAX then s else s[..HEADERS_MAX]
  }

  function FilterTrailer(s: seq<byte>): Filtered {
    var end := BlockEnd(Window(s), true);
    if end == 0 then Filtered([], if |s| >= HEADERS_MAX then BadHeaders else Open(false))
    else if ValidTrailer(s[..end]) then Filtered(CRLF, Ended)
    else Filtered([], BadHeaders)
  }

  function FilterBody(b: BodyState, s: seq<byte>): Filtered
    decreases |s|
  {
    if b.Complete? then Filtered([], Ended)
    else if b.Failed? then Filtered([], BadBody)
    else if b.Trailing? then FilterTrailer(s)
    else if s == [] then Filtered([], Open(b.UntilClose?))
    else
      var next := Step(b, s[0]);
      if next.Failed? then Filtered([], BadBody) else Prepend([s[0]], FilterBody(next, s[1..]))
  }

  /** The filter itself: interim heads vanish, the final head and body pass, trailers collapse
      to an empty line, nothing passes the end of the message. */
  function Filter(s: seq<byte>): Filtered
    decreases |s|
  {
    var end := BlockEnd(Window(s), false);
    if end == 0 then Filtered([], if |s| >= HEADERS_MAX then BadHeaders else Open(false))
    else match Classify(s[..end])
      case Rejected => Filtered([], BadHeaders)
      case Interim => Filter(s[end..])
      case Final(start) => Prepend(s[..end], FilterBody(start, s[end..]))
  }

  // ---- The filter does not depend on how its input is cut --------------------------------

  lemma BlockEndExtends(s: seq<byte>, x: seq<byte>, trailers: bool)
    requires BlockEnd(s, trailers) > 0
    ensures BlockEnd(s + x, trailers) == BlockEnd(s, trailers)
  {
    if !(trailers && CRLF <= s) {
      var end := FirstBlank(s);
      assert BlankAt(s + x, end - 4);
      assert forall i :: i < end - 4 && BlankAt(s + x, i) ==> BlankAt(s, i);
    }
  }

  /** A block found in the buffered bytes is the block of every longer stream. */
  lemma WindowExtends(s: seq<byte>, x: seq<byte>, trailers: bool)
    requires BlockEnd(Window(s), trailers) > 0
    ensures BlockEnd(Window(s + x), trailers) == BlockEnd(Window(s), trailers)
    ensures (s + x)[..BlockEnd(Window(s), trailers)] == s[..BlockEnd(Window(s), trailers)]
    ensures (s + x)[BlockEnd(Window(s), trailers)..] == s[BlockEnd(Window(s), trailers)..] + x
  {
    var more := Window(s + x)[|Window(s)|..];
    assert Window(s + x) == Window(s) + more;
    BlockEndExtends(Window(s), more, trailers);
  }

  lemma FullWindow(s: seq<byte>, x: seq<byte>)
    requires |s| >= HEADERS_MAX
    ensures Window(s + x) == Window(s)
  {
  }

  lemma PrependNothing(f: Filtered)
    ensures Prepend([], f) == f
  {
  }

  lemma PrependTwice(a: seq<byte>, b: seq<byte>, f: Filtered)
    ensures Prepend(a, Prepend(b, f)) == Prepend(a + b, f)
  {
    assert a + (b + f.out) == a + b + f.out;
  }

  /** Executing the automaton on a chunk and filtering the remainder is filtering the whole. */
  lemma {:induction false} ExecuteFilters(b: BodyState, s: seq<byte>, x: seq<byte>)
    ensures FilterBody(b, s + x) ==
            Prepend(s[..Execute(b, s).0], FilterBody(Execute(b, s).1, s[Execute(b, s).0..] + x))
    decreases |s|
  {
    hide Step, FilterTrailer, Prepend;
    if s == [] || Paused(b) || Step(b, s[0]).Failed? {
      assert Execute(b, s).0 == 0 && s[..0] == [] && s[0..] + x == s + x;
      PrependNothing(FilterBody(Execute(b, s).1, s + x));
    } else {
      var next := Step(b, s[0]);
      var (n, after) := Execute(next, s[1..]);
      ExecuteFilters(next, s[1..], x);
      assert (s + x)[1..] == s[1..] + x;
      assert FilterBody(b, s + x) == Prepend([s[0]], FilterBody(next, s[1..] + x));
      PrependTwice([s[0]], s[1..][..n], FilterBody(after, s[1..][n..] + x));
      assert s[..n + 1] == [s[0]] + s[1..][..n];
      assert s[n + 1..] == s[1..][n..];
    }
  }

  /** More input never retracts output, and an ended or refused stream stays so. */
  lemma {:induction false} FilterGrows(s: seq<byte>, x: seq<byte>)
    ensures Filter(s).out <= Filter(s + x).out
    ensures !Filter(s).ending.Open? ==> Filter(s + x) == Filter(s)
    decreases |s|
  {
    var end := BlockEnd(Window(s), false);
    if end > 0 {
      WindowExtends(s, x, false);
      match Classify(s[..end])
      case Rejected =>
      case Interim => FilterGrows(s[end..], x);
      case Final(start) => BodyGrows(start, s[end..], x);
    } else if |s| >= HEADERS_MAX {
      FullWindow(s, x);
    }
  }

  lemma {:induction false} BodyGrows(b: BodyState, s: seq<byte>, x: seq<byte>)
    ensures FilterBody(b, s).out <= FilterBody(b, s + x).out
    ensures !FilterBody(b, s).ending.Open? ==> FilterBody(b, s + x) == FilterBody(b, s)
    decreases |s|
  {
    if b.Trailing? {
      if BlockEnd(Window(s), true) > 0 {
        WindowExtends(s, x, true);
      } else if |s| >= HEADERS_MAX {
        FullWindow(s, x);
      }
    } else if !Paused(b) && s != [] {
      assert (s + x)[1..] == s[1..] + x;
      if !Step(b, s[0]).Failed? {
        BodyGrows(Step(b, s[0]), s[1..], x);
      }
    }
  }

  // ---- What a delivered prefix shows -------------------------------------------------------

  /** The states of a chunked body, from its first size line to its end. */
  predicate InChunks(b: BodyState) { !b.Fixed? && !b.UntilClose? }

  /** The delivered bytes begin with a whole head that announces chunks. */
  predicate ChunkedHead(out: seq<byte>) {
    BlockEnd(out, false) > 0 && Classify(out[..BlockEnd(out, false)]) == Final(SizeStart)
  }

  /** What has been or may be delivered is nothing, or starts with a whole head, whose kind of framing
      the automaton is in. */
  predicate HeadFirst(out: seq<byte>, released: bool, state: BodyState) {
    if released then BlockEnd(out, false) > 0 && (ChunkedHead(out) ==> InChunks(state)) else out == []
  }

  lemma HeadFirstStarts(block: seq<byte>, start: BodyState)
    requires BlockEnd(block, false) == |block| > 0 && Classify(block) == Final(start)
    ensures HeadFirst(block, true, start)
  {
    hide BlockEnd, Classify;
    assert block[..|block|] == block;
  }

  lemma HeadFirstGrows(out: seq<byte>, more: seq<byte>, state: BodyState, next: BodyState)
    requires HeadFirst(out, true, state) && (InChunks(state) ==> InChunks(next))
    ensures HeadFirst(out + more, true, next)
  {
    hide Classify, InChunks;
    BlockEndExtends(out, more, false);
    assert (out + more)[..BlockEnd(out, false)] == out[..BlockEnd(out, false)];
  }

  lemma {:induction false} ExecuteStaysInChunks(b: BodyState, s: seq<byte>)
    requires InChunks(b)
    ensures InChunks(Execute(b, s).1)
    decreases |s|
  {
    if s != [] && !Paused(b) && !Step(b, s[0]).Failed? { ExecuteStaysInChunks(Step(b, s[0]), s[1..]); }
  }

  /** Between the last chunk and the end of a chunked message lie the two bytes of the collapsed
      trailer, never one. */
  lemma {:induction false} ChunkedTail(b: BodyState, s: seq<byte>)
    requires InChunks(b) && !b.Complete? && FilterBody(b, s).ending == Ended
    ensures |FilterBody(b, s).out| >= 2
    decreases |s|
  {
    if !b.Trailing? {
      ChunkedTail(Step(b, s[0]), s[1..]);
    }
  }
}
