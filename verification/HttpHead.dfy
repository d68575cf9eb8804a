/** Response heads and trailers as RFC 9112 (sections 4 to 6) writes them, line by line and without the
    parser's functions, and what each means for the message it heads; then the proof that the parser
    reads every one of them so and accepts nothing else. */
module HttpHead {
  import opened Bytes
  import opened HttpFraming

  // ---- The grammar -------------------------------------------------------------------------

  /** A field line, taken apart: the framing fields with their padding, the last coding and the list
      before it, and any other field. */
  datatype Field =
    | ContentLength(name: seq<byte>, before: seq<byte>, digits: seq<byte>, after: seq<byte>)
    | TransferEncoding(name: seq<byte>, others: seq<byte>, before: seq<byte>, last: seq<byte>, after: seq<byte>)
    | Other(name: seq<byte>, text: seq<byte>)

  datatype HeadText = HeadText(major: byte, minor: byte, code: seq<byte>, reason: seq<byte>, fields: seq<Field>)

  predicate Digit(b: byte) { 48 <= b <= 57 }

  predicate Digits(s: seq<byte>) { forall i :: 0 <= i < |s| ==> Digit(s[i]) }

  predicate Letter(b: byte) { 65 <= b <= 90 || 97 <= b <= 122 }

  /** The characters of a token (RFC 9110 section 5.6.2). */
  predicate Tchar(b: byte) {
    Digit(b) || Letter(b) || b in {33, 35, 36, 37, 38, 39, 42, 43, 45, 46, 94, 95, 96, 124, 126}
  }

  predicate Token(s: seq<byte>) { s != [] && forall i :: 0 <= i < |s| ==> Tchar(s[i]) }

  predicate Padding(b: byte) { b == SP || b == HT }

  predicate Blank(s: seq<byte>) { forall i :: 0 <= i < |s| ==> Padding(s[i]) }

  predicate Tight(s: seq<byte>) { s != [] ==> !Padding(s[0]) && !Padding(s[|s| - 1]) }

  predicate OneLine(s: seq<byte>) { CR !in s && LF !in s }

  /** The same word, its letters in either case. */
  predicate Spells(s: seq<byte>, word: string) {
    |s| == |word| && forall i :: 0 <= i < |s| ==> Either(s[i], word[i])
  }

  predicate Either(b: byte, c: char) { b == c as int || ('a' <= c <= 'z' && b == c as int - 32) }

  predicate ValidField(f: Field) {
    Token(f.name) &&
    match f
    case ContentLength(name, before, digits, after) =>
      Spells(name, "content-length") && Blank(before) && digits != [] && Digits(digits) && Blank(after)
    case TransferEncoding(name, others, before, last, after) =>
      && Spells(name, "transfer-encoding")
      && OneLine(others) && (others == [] || others[|others| - 1] == 44)
      && Blank(before) && OneLine(last) && 44 !in last && Tight(last) && Blank(after)
    case Other(name, text) =>
      !Spells(name, "content-length") && !Spells(name, "transfer-encoding") && OneLine(text)
  }

  function FieldText(f: Field): seq<byte> {
    match f
    case ContentLength(_, before, digits, after) => before + digits + after
    case TransferEncoding(_, others, before, last, after) => others + (before + last + after)
    case Other(_, text) => text
  }

  function FieldLine(f: Field): seq<byte> { f.name + [58] + FieldText(f) }

  predicate ValidFields(fields: seq<Field>) { forall i :: 0 <= i < |fields| ==> ValidField(fields[i]) }

  /** Field lines and the empty line behind them. */
  function FieldsWire(fields: seq<Field>): seq<byte> {
    if fields == [] then CRLF else FieldLine(fields[0]) + CRLF + FieldsWire(fields[1..])
  }

  predicate ValidHead(h: HeadText) {
    && Digit(h.major) && Digit(h.minor) && |h.code| == 3 && Digits(h.code)
    && OneLine(h.reason) && (h.reason != [] ==> h.reason[0] == SP)
    && ValidFields(h.fields)
  }

  function StatusLine(h: HeadText): seq<byte> {
    Ascii("HTTP/") + [h.major, 46, h.minor, SP] + h.code + h.reason
  }

  function HeadWire(h: HeadText): seq<byte> { StatusLine(h) + CRLF + FieldsWire(h.fields) }

  // ---- What a head means -------------------------------------------------------------------

  /** The number that digits denote behind a number already read. */
  function Worth(n: nat, digits: seq<byte>): nat
    requires Digits(digits)
    decreases |digits|
  {
    if digits == [] then n else Worth(10 * n + (digits[0] - 48), digits[1..])
  }

  function FramingFields(fields: seq<Field>): seq<Field> {
    if fields == [] then []
    else (if fields[0].Other? then [] else [fields[0]]) + FramingFields(fields[1..])
  }

  predicate Chunks(f: Field) { f.TransferEncoding? && Spells(f.last, "chunked") }

  /** The body a framing field announces: a coding other than chunked ends with the connection. */
  function Announced(f: Field): BodyState
    requires ValidField(f) && !f.Other?
  {
    match f
    case ContentLength(_, _, digits, _) => if Worth(0, digits) == 0 then Complete else Fixed(Worth(0, digits))
    case TransferEncoding(_, _, _, _, _) => if Chunks(f) then SizeStart else UntilClose
  }

  /** How a response with this head is framed (RFC 9112 section 6.3), or why there is none to pass: a
      switch of protocols, two framing fields, or a body where there can be none. */
  function Meaning(h: HeadText): Kind
    requires ValidHead(h)
  {
    var status, framing := Worth(0, h.code), FramingFields(h.fields);
    FramingFieldsValid(h.fields);
    if status < 100 || status == 101 || |framing| > 1 then Rejected
    else if status < 200 || status == 204 then
      if framing != [] && (framing[0].ContentLength? || Chunks(framing[0])) then Rejected
      else if status == 204 then Final(Complete) else Interim
    else if status == 304 then Final(Complete)
    else Final(if framing == [] then UntilClose else Announced(framing[0]))
  }

  lemma {:induction false} FramingFieldsValid(fields: seq<Field>)
    requires ValidFields(fields)
    ensures forall i :: 0 <= i < |FramingFields(fields)| ==>
              ValidField(FramingFields(fields)[i]) && !FramingFields(fields)[i].Other?
    decreases |fields|
  {
    if fields != [] { FramingFieldsValid(fields[1..]); }
  }

  predicate NoneTwice(fields: seq<Field>) {
    forall i, j :: 0 <= i < j < |fields| ==>
      !(fields[i].ContentLength? && fields[j].ContentLength?) &&
      !(fields[i].TransferEncoding? && fields[j].TransferEncoding?)
  }

  /** A trailer section: any fields, but none of the two framing fields twice. */
  predicate ValidTrailers(fields: seq<Field>) { ValidFields(fields) && NoneTwice(fields) }

  // ---- Words and numbers -------------------------------------------------------------------

  lemma TokensAgree(s: seq<byte>)
    ensures Token(s) <==> IsToken(s)
  {
    if Token(s) {
      forall b | b in s ensures Tchar(b) {}
    } else if IsToken(s) {
      forall i | 0 <= i < |s| ensures Tchar(s[i]) { assert s[i] in s; }
    }
  }

  predicate Written(word: string, name: seq<byte>) {
    |word| == |name| && forall i :: 0 <= i < |word| ==> name[i] == word[i] as int && !('A' <= word[i] <= 'Z')
  }

  lemma WordsAgree(s: seq<byte>, word: string, name: seq<byte>)
    requires Written(word, name)
    ensures Spells(s, word) <==> SameName(s, name)
  {
    if |s| == |word| {
      assert forall i :: 0 <= i < |s| ==> (Either(s[i], word[i]) <==> Lower(s[i]) == name[i]);
    }
  }

  lemma NamesWritten()
    ensures Written("content-length", CONTENT_LENGTH)
    ensures Written("transfer-encoding", TRANSFER_ENCODING)
    ensures Written("chunked", CHUNKED)
  {
  }

  lemma {:induction false} WorthLast(n: nat, s: seq<byte>, d: byte)
    requires Digits(s + [d])
    ensures Digits(s) && Digit(d) && Worth(n, s + [d]) == 10 * Worth(n, s) + (d - 48)
    decreases |s|
  {
    assert (s + [d])[|s|] == d;
    assert forall i :: 0 <= i < |s| ==> (s + [d])[i] == s[i];
    if s == [] {
      assert [d][1..] == [];
    } else {
      assert (s + [d])[1..] == s[1..] + [d];
      WorthLast(10 * n + (s[0] - 48), s[1..], d);
    }
  }

  /** The parser's numbers, read from the right, are the grammar's, read from the left. */
  lemma {:induction false} NumbersAgree(s: seq<byte>)
    ensures if Digits(s) then Decimal(s) == Some(Worth(0, s)) else Decimal(s) == None
    decreases |s|
  {
    if s != [] {
      var init, d := s[..|s| - 1], s[|s| - 1];
      NumbersAgree(init);
      assert s == init + [d];
      if Digits(s) {
        WorthLast(0, init, d);
      } else if Digits(init) {
        assert !Digit(d);
      }
    }
  }

  // ---- Padding and lists -------------------------------------------------------------------

  lemma {:induction false} TrimFront(s: seq<byte>, t: seq<byte>)
    requires Blank(s)
    ensures Trim(s + t) == Trim(t)
    decreases |s|
  {
    if s == [] {
      assert s + t == t;
    } else {
      assert (s + t)[1..] == s[1..] + t;
      TrimFront(s[1..], t);
    }
  }

  lemma {:induction false} TrimLast(s: seq<byte>, b: byte)
    requires Padding(b)
    ensures Trim(s + [b]) == Trim(s)
    decreases |s|
  {
    if s == [] {
      assert [b][1..] == [] && s + [b] == [b];
    } else if Padding(s[0]) {
      assert (s + [b])[1..] == s[1..] + [b];
      TrimLast(s[1..], b);
    } else {
      assert (s + [b])[..|s|] == s;
    }
  }

  lemma {:induction false} TrimBack(s: seq<byte>, t: seq<byte>)
    requires Blank(t)
    ensures Trim(s + t) == Trim(s)
    decreases |t|
  {
    if t == [] {
      assert s + t == s;
    } else {
      var n := |t| - 1;
      assert s + t == s + t[..n] + [t[n]];
      TrimLast(s + t[..n], t[n]);
      TrimBack(s, t[..n]);
    }
  }

  lemma PaddingTrims(before: seq<byte>, s: seq<byte>, after: seq<byte>)
    requires Blank(before) && Blank(after)
    ensures Trim(before + s + after) == Trim(s)
  {
    assert before + s + after == before + (s + after);
    TrimFront(before, s + after);
    TrimBack(s, after);
  }

  lemma TrimPadded(before: seq<byte>, s: seq<byte>, after: seq<byte>)
    requires Blank(before) && Tight(s) && Blank(after)
    ensures Trim(before + s + after) == s
  {
    PaddingTrims(before, s, after);
  }

  /** Trimming takes off padding and nothing else. */
  lemma {:induction false} TrimSplits(s: seq<byte>) returns (before: seq<byte>, after: seq<byte>)
    ensures s == before + Trim(s) + after && Blank(before) && Tight(Trim(s)) && Blank(after)
    decreases |s|
  {
    if s != [] && Padding(s[0]) {
      before, after := TrimSplits(s[1..]);
      before := [s[0]] + before;
      assert s == [s[0]] + s[1..];
    } else if s != [] && Padding(s[|s| - 1]) {
      before, after := TrimSplits(s[..|s| - 1]);
      after := after + [s[|s| - 1]];
      assert s == s[..|s| - 1] + [s[|s| - 1]];
    } else {
      before, after := [], [];
    }
  }

  lemma {:induction false} FoundAt(s: seq<byte>, b: byte, t: seq<byte>)
    requires b !in s
    ensures IndexOf(s + [b] + t, b) == |s|
    decreases |s|
  {
    if s != [] {
      assert (s + [b] + t)[1..] == s[1..] + [b] + t;
      FoundAt(s[1..], b, t);
    }
  }

  lemma {:induction false} NotFound(s: seq<byte>, b: byte)
    ensures IndexOf(s, b) < |s| ==> s[IndexOf(s, b)] == b
    ensures b !in s[..IndexOf(s, b)] && (IndexOf(s, b) == |s| <==> b !in s)
    decreases |s|
  {
    if s != [] && s[0] != b {
      NotFound(s[1..], b);
      assert s == [s[0]] + s[1..];
      assert s[..IndexOf(s, b)] == [s[0]] + s[1..][..IndexOf(s[1..], b)];
    }
  }

  lemma {:induction false} FoundBefore(s: seq<byte>, b: byte, i: nat)
    requires i < |s| && s[i] == b
    ensures IndexOf(s, b) <= i
    decreases |s|
  {
    if s[0] != b { FoundBefore(s[1..], b, i - 1); }
  }

  lemma {:induction false} LastOf(list: seq<byte>, b: byte, s: seq<byte>)
    requires (list == [] || list[|list| - 1] == b) && b !in s
    ensures AfterLast(list + s, b) == s
    decreases |list|
  {
    var t := list + s;
    var n := IndexOf(t, b);
    if list == [] {
      assert t == s;
      NotFound(t, b);
    } else {
      FoundBefore(t, b, |list| - 1);
      assert t[n + 1..] == list[n + 1..] + s;
      LastOf(list[n + 1..], b, s);
    }
  }

  lemma {:induction false} AfterLastSplits(s: seq<byte>, b: byte) returns (list: seq<byte>)
    ensures s == list + AfterLast(s, b) && (list == [] || list[|list| - 1] == b) && b !in AfterLast(s, b)
    decreases |s|
  {
    var n := IndexOf(s, b);
    NotFound(s, b);
    hide IndexOf;
    if n == |s| {
      list := [];
    } else {
      var first, rest := s[..n + 1], s[n + 1..];
      var more := AfterLastSplits(rest, b);
      list := first + more;
      assert AfterLast(s, b) == AfterLast(rest, b);
      assert s == first + rest && first + (more + AfterLast(rest, b)) == list + AfterLast(rest, b);
    }
  }

  /** The last coding may be trimmed before or after the list is cut. */
  lemma {:induction false} TrimmedList(s: seq<byte>, b: byte)
    requires !Padding(b)
    ensures Trim(AfterLast(Trim(s), b)) == Trim(AfterLast(s, b))
    decreases |s|
  {
    var before, after := TrimSplits(s);
    var list := AfterLastSplits(Trim(s), b);
    var last := AfterLast(Trim(s), b);
    if list == [] {
      assert s == before + last + after;
      assert b !in s;
      LastOf([], b, s);
      assert [] + s == s;
      PaddingTrims(before, last, after);
    } else {
      assert s == (before + list) + (last + after);
      assert b !in last + after;
      LastOf(before + list, b, last + after);
      TrimBack(last, after);
    }
  }

  // ---- Reading what the grammar writes -----------------------------------------------------

  /** What a field adds to what the parser knows; a framing field may come once. */
  function Noted(f: Field, known: Fields): Option<Fields>
    requires ValidField(f)
  {
    match f
    case ContentLength(_, _, digits, _) =>
      if known.length.Some? then None else Some(known.(length := Some(Worth(0, digits))))
    case TransferEncoding(_, _, _, _, _) =>
      if known.coded then None else Some(known.(coded := true, chunked := Chunks(f)))
    case Other(_, _) => Some(known)
  }

  function NotedAll(fields: seq<Field>, known: Fields): Option<Fields>
    requires ValidFields(fields)
    decreases |fields|
  {
    if fields == [] then Some(known)
    else match Noted(fields[0], known)
      case Some(more) => NotedAll(fields[1..], more)
      case None => None
  }

  lemma TextIsLine(f: Field)
    requires ValidField(f)
    ensures OneLine(FieldText(f))
  {
    hide Spells, Token;
    match f
    case ContentLength(_, before, digits, after) =>
      assert forall b :: b in digits ==> Digit(b);
    case TransferEncoding(_, _, _, _, _) =>
    case Other(_, _) =>
  }

  lemma TokenIsLine(s: seq<byte>)
    requires Token(s)
    ensures OneLine(s) && 58 !in s
  {
    assert forall b :: b in s ==> Tchar(b);
  }

  lemma FieldIsLine(f: Field)
    requires ValidField(f)
    ensures OneLine(FieldLine(f)) && |FieldLine(f)| > |f.name|
    ensures IndexOf(FieldLine(f), 58) == |f.name| && FieldLine(f)[..|f.name|] == f.name
    ensures FieldLine(f)[|f.name| + 1..] == FieldText(f)
  {
    hide Spells, Tchar, FieldText;
    TokenIsLine(f.name);
    TextIsLine(f);
    FoundAt(f.name, 58, FieldText(f));
  }

  lemma ListRead(f: Field)
    requires ValidField(f) && f.TransferEncoding?
    ensures Trim(AfterLast(Trim(FieldText(f)), 44)) == f.last
  {
    TrimmedList(FieldText(f), 44);
    LastOf(f.others, 44, f.before + f.last + f.after);
    TrimPadded(f.before, f.last, f.after);
  }

  lemma LengthAdds(line: seq<byte>, n: nat, known: Fields)
    requires n == IndexOf(line, 58) < |line| && IsToken(line[..n]) && OneLine(line)
    requires SameName(line[..n], CONTENT_LENGTH) && Trim(line[n + 1..]) != []
    ensures AddField(line, known) ==
            if known.length.Some? then None
            else match Decimal(Trim(line[n + 1..])) case Some(v) => Some(known.(length := Some(v))) case None => None
  {
    hide SameName, IsToken, Trim, Decimal, IndexOf;
  }

  lemma CodingAdds(line: seq<byte>, n: nat, known: Fields)
    requires n == IndexOf(line, 58) < |line| && IsToken(line[..n]) && OneLine(line)
    requires SameName(line[..n], TRANSFER_ENCODING) && !SameName(line[..n], CONTENT_LENGTH)
    ensures AddField(line, known) ==
            if known.coded then None
            else
              var last := Trim(AfterLast(Trim(line[n + 1..]), 44));
              Some(known.(coded := true, chunked := SameName(last, CHUNKED)))
  {
    hide SameName, IsToken, Trim, AfterLast, IndexOf;
  }

  lemma OtherAdds(line: seq<byte>, n: nat, known: Fields)
    requires n == IndexOf(line, 58) < |line| && IsToken(line[..n]) && OneLine(line)
    requires !SameName(line[..n], TRANSFER_ENCODING) && !SameName(line[..n], CONTENT_LENGTH)
    ensures AddField(line, known) == Some(known)
  {
    hide SameName, IsToken, Trim, AfterLast, IndexOf;
  }

  lemma FieldRead(f: Field, known: Fields)
    requires ValidField(f)
    ensures AddField(FieldLine(f), known) == Noted(f, known)
  {
    hide Spells, SameName, Written, Trim, AfterLast, IndexOf, Decimal, Worth, FieldLine, Tchar, IsToken, AddField;
    var line, n := FieldLine(f), |f.name|;
    FieldIsLine(f);
    TokensAgree(f.name);
    NamesWritten();
    WordsAgree(f.name, "content-length", CONTENT_LENGTH);
    WordsAgree(f.name, "transfer-encoding", TRANSFER_ENCODING);
    match f
    case ContentLength(_, before, digits, after) =>
      TrimPadded(before, digits, after);
      NumbersAgree(digits);
      LengthAdds(line, n, known);
    case TransferEncoding(_, _, _, _, _) =>
      OneName(f.name);
      ListRead(f);
      WordsAgree(f.last, "chunked", CHUNKED);
      CodingAdds(line, n, known);
    case Other(_, _) => OtherAdds(line, n, known);
  }

  lemma OneName(s: seq<byte>)
    ensures !(Spells(s, "content-length") && Spells(s, "transfer-encoding"))
  {
  }

  lemma {:induction false} LineRead(line: seq<byte>, rest: seq<byte>)
    requires OneLine(line)
    ensures LineEnd(line + CRLF + rest) == |line|
    ensures (line + CRLF + rest)[..|line|] == line && (line + CRLF + rest)[|line| + 2..] == rest
    decreases |line|
  {
    var s := line + CRLF + rest;
    if line != [] {
      assert s[1..] == line[1..] + CRLF + rest;
      LineRead(line[1..], rest);
      assert s[0] in line;
    }
  }

  lemma {:induction false} FieldsRead(fields: seq<Field>, known: Fields)
    requires ValidFields(fields)
    ensures ParseFields(FieldsWire(fields), known) == NotedAll(fields, known)
    decreases |fields|
  {
    hide AddField, ValidField, FieldLine, Noted;
    if fields == [] {
      assert CRLF == [] + CRLF + [];
      LineRead([], []);
    } else {
      var line, rest := FieldLine(fields[0]), FieldsWire(fields[1..]);
      FieldIsLine(fields[0]);
      LineRead(line, rest);
      FieldRead(fields[0], known);
      var noted := Noted(fields[0], known);
      if noted.Some? { FieldsRead(fields[1..], noted.value); }
    }
  }

  lemma StatusRead(h: HeadText)
    requires ValidHead(h)
    ensures OneLine(StatusLine(h)) && |StatusLine(h)| >= 12 && ParseStatus(StatusLine(h)) == Some(Worth(0, h.code))
  {
    hide Worth, Decimal, ValidFields;
    var line := StatusLine(h);
    assert Ascii("HTTP/") == [72, 84, 84, 80, 47];
    assert line[..5] == [72, 84, 84, 80, 47] && line[5..9] == [h.major, 46, h.minor, SP];
    assert line[9..12] == h.code && line[12..] == h.reason;
    assert line[5] == line[5..9][0] && line[6] == line[5..9][1] && line[7] == line[5..9][2] && line[8] == line[5..9][3];
    assert h.reason != [] ==> line[12] == h.reason[0];
    NumbersAgree(h.code);
    forall b | b in line ensures b != CR && b != LF {
      assert b in line[..5] || b in line[5..9] || b in h.code || b in h.reason;
    }
  }

  lemma HeadRead(h: HeadText)
    requires ValidHead(h)
    ensures ParseHead(HeadWire(h)) ==
            match NotedAll(h.fields, NO_FIELDS)
            case None => None
            case Some(fields) =>
              if fields.length.Some? && fields.coded then None else Some(Head(Worth(0, h.code), fields))
  {
    hide ParseStatus, ParseFields, StatusLine, NotedAll, Worth;
    StatusRead(h);
    LineRead(StatusLine(h), FieldsWire(h.fields));
    FieldsRead(h.fields, NO_FIELDS);
  }

  // ---- What the parser makes of a head -----------------------------------------------------

  lemma {:induction false} OthersIgnored(fields: seq<Field>, known: Fields)
    requires ValidFields(fields)
    ensures ValidFields(FramingFields(fields)) && NotedAll(fields, known) == NotedAll(FramingFields(fields), known)
    decreases |fields|
  {
    FramingFieldsValid(fields);
    if fields != [] {
      var more := Noted(fields[0], known);
      OthersIgnored(fields[1..], known);
      if more.Some? { OthersIgnored(fields[1..], more.value); }
      var framing := FramingFields(fields);
      if !fields[0].Other? {
        assert framing[0] == fields[0] && framing[1..] == FramingFields(fields[1..]);
      } else {
        assert framing == FramingFields(fields[1..]);
      }
    }
  }

  function Framings(known: Fields): nat {
    (if known.length.Some? then 1 else 0) + (if known.coded then 1 else 0)
  }

  lemma {:induction false} EachCounts(fields: seq<Field>, known: Fields)
    requires ValidFields(fields) && forall i :: 0 <= i < |fields| ==> !fields[i].Other?
    ensures var noted := NotedAll(fields, known);
      noted.Some? ==> Framings(noted.value) == Framings(known) + |fields|
    decreases |fields|
  {
    if fields != [] {
      var more := Noted(fields[0], known);
      if more.Some? { EachCounts(fields[1..], more.value); }
    }
  }

  /** Main result: whatever the status and the fields, a head is treated as it is meant. */
  lemma HeadClassified(h: HeadText)
    requires ValidHead(h)
    ensures Classify(HeadWire(h)) == Meaning(h)
  {
    hide ParseHead, HeadWire, Worth, Chunks;
    HeadRead(h);
    FramingFieldsValid(h.fields);
    var framing := FramingFields(h.fields);
    OthersIgnored(h.fields, NO_FIELDS);
    EachCounts(framing, NO_FIELDS);
    if |framing| == 1 { assert NotedAll(framing[1..], NO_FIELDS) == Some(NO_FIELDS); }
  }

  lemma {:induction false} TrailersNoted(fields: seq<Field>, known: Fields)
    requires ValidFields(fields)
    ensures NotedAll(fields, known).Some? <==>
            && NoneTwice(fields)
            && (known.length.Some? ==> forall i :: 0 <= i < |fields| ==> !fields[i].ContentLength?)
            && (known.coded ==> forall i :: 0 <= i < |fields| ==> !fields[i].TransferEncoding?)
    decreases |fields|
  {
    hide ValidField;
    if fields != [] {
      var more := Noted(fields[0], known);
      if more.Some? { TrailersNoted(fields[1..], more.value); }
    }
  }

  lemma TrailersRead(fields: seq<Field>)
    requires ValidFields(fields)
    ensures ValidTrailer(FieldsWire(fields)) <==> ValidTrailers(fields)
  {
    FieldsRead(fields, NO_FIELDS);
    TrailersNoted(fields, NO_FIELDS);
  }

  // ---- Where a head ends -------------------------------------------------------------------

  lemma BlanksBehind(line: seq<byte>, t: seq<byte>)
    requires OneLine(line) && line != []
    ensures BlankAt(line + CRLF + t, |line|) <==> CRLF <= t
    ensures forall i :: i != |line| ==> (BlankAt(line + CRLF + t, i) <==> BlankAt(t, i - |line| - 2))
  {
    var s := line + CRLF + t;
    assert s[|line|] == CR && s[|line| + 1] == LF;
    forall i | i != |line| ensures BlankAt(s, i) <==> BlankAt(t, i - |line| - 2) {
      if 0 <= i < |line| { assert s[i] in line; }
    }
  }

  lemma BlankBehind(line: seq<byte>, t: seq<byte>)
    requires OneLine(line) && line != []
    ensures CRLF <= t ==> FirstBlank(line + CRLF + t) == |line| + 4
    ensures !(CRLF <= t) && FirstBlank(t) > 0 ==> FirstBlank(line + CRLF + t) == |line| + 2 + FirstBlank(t)
  {
    hide BlankAt;
    var s := line + CRLF + t;
    BlanksBehind(line, t);
    assert BlankAt(s, FirstBlank(t) - 4 + |line| + 2) <==> BlankAt(t, FirstBlank(t) - 4);
    assert BlankAt(s, FirstBlank(s) - 4) && FirstBlank(s) - 4 != |line| ==> BlankAt(t, FirstBlank(s) - 6 - |line|);
  }

  lemma {:induction false} SectionEnd(line: seq<byte>, fields: seq<Field>)
    requires OneLine(line) && line != [] && ValidFields(fields)
    ensures FirstBlank(line + CRLF + FieldsWire(fields)) == |line| + 2 + |FieldsWire(fields)|
    decreases |fields|
  {
    hide ValidField, FirstBlank, FieldLine;
    BlankBehind(line, FieldsWire(fields));
    if fields != [] {
      var next := FieldLine(fields[0]);
      FieldIsLine(fields[0]);
      SectionEnd(next, fields[1..]);
      assert FieldsWire(fields)[0] in next;
    }
  }

  lemma HeadEnds(h: HeadText)
    requires ValidHead(h)
    ensures BlockEnd(HeadWire(h), false) == |HeadWire(h)| > 0
  {
    StatusRead(h);
    SectionEnd(StatusLine(h), h.fields);
  }

  lemma TrailersEnd(fields: seq<Field>)
    requires ValidFields(fields)
    ensures BlockEnd(FieldsWire(fields), true) == |FieldsWire(fields)| > 0
  {
    hide ValidField, FieldLine;
    if fields != [] {
      var line := FieldLine(fields[0]);
      FieldIsLine(fields[0]);
      SectionEnd(line, fields[1..]);
      assert FieldsWire(fields)[0] in line;
    }
  }

  // ---- Nothing else is accepted ------------------------------------------------------------

  lemma FieldFrom(line: seq<byte>, known: Fields) returns (f: Field)
    requires AddField(line, known).Some?
    ensures ValidField(f) && FieldLine(f) == line
  {
    hide Spells, SameName, Written, Trim, AfterLast, Decimal, Tchar, IsToken;
    var n := IndexOf(line, 58);
    NotFound(line, 58);
    var name, text := line[..n], line[n + 1..];
    assert line == name + [58] + text;
    TokensAgree(name);
    NamesWritten();
    WordsAgree(name, "content-length", CONTENT_LENGTH);
    WordsAgree(name, "transfer-encoding", TRANSFER_ENCODING);
    if SameName(name, CONTENT_LENGTH) {
      var before, after := TrimSplits(text);
      NumbersAgree(Trim(text));
      f := ContentLength(name, before, Trim(text), after);
    } else if SameName(name, TRANSFER_ENCODING) {
      f := CodingFrom(name, text);
    } else {
      f := Other(name, text);
    }
  }

  lemma CodingFrom(name: seq<byte>, text: seq<byte>) returns (f: Field)
    requires Token(name) && Spells(name, "transfer-encoding") && OneLine(text)
    ensures ValidField(f) && FieldLine(f) == name + [58] + text
  {
    hide Spells, Trim, AfterLast, Token;
    var others := AfterLastSplits(text, 44);
    var item := AfterLast(text, 44);
    var before, after := TrimSplits(item);
    f := TransferEncoding(name, others, before, Trim(item), after);
    assert forall b :: b in Trim(item) ==> b in item;
    assert forall b :: b in item ==> b in text;
    assert forall b :: b in others ==> b in text;
  }

  lemma {:induction false} LineSplits(s: seq<byte>)
    ensures LineEnd(s) + 2 <= |s| ==> s == s[..LineEnd(s)] + CRLF + s[LineEnd(s) + 2..]
    decreases |s|
  {
    if |s| >= 2 && !(CRLF <= s) {
      LineSplits(s[1..]);
      assert s == [s[0]] + s[1..];
    }
  }

  lemma {:induction false} FieldsFrom(s: seq<byte>, known: Fields) returns (fields: seq<Field>)
    requires ParseFields(s, known).Some?
    ensures ValidFields(fields) && FieldsWire(fields) == s
    decreases |s|
  {
    hide AddField, ValidField, FieldLine;
    var n := LineEnd(s);
    LineSplits(s);
    if n == 0 {
      fields := [];
    } else {
      var f := FieldFrom(s[..n], known);
      var more := FieldsFrom(s[n + 2..], AddField(s[..n], known).value);
      fields := [f] + more;
      assert fields[1..] == more;
    }
  }

  lemma StatusFrom(line: seq<byte>) returns (h: HeadText)
    requires ParseStatus(line).Some?
    ensures ValidHead(h) && h.fields == [] && StatusLine(h) == line
  {
    hide Decimal;
    h := HeadText(line[5], line[7], line[9..12], line[12..], []);
    NumbersAgree(h.code);
    assert forall b :: b in h.reason ==> b in line;
    assert Ascii("HTTP/") == line[..5];
    assert line == line[..5] + [line[5], line[6], line[7], line[8]] + line[9..12] + line[12..];
  }

  /** Main result: the parser accepts no block but the heads of the grammar; any other, a bad status line
      or a bad field line among them, is refused. */
  lemma OnlyHeads(block: seq<byte>) returns (h: HeadText)
    requires !Classify(block).Rejected?
    ensures ValidHead(h) && HeadWire(h) == block
  {
    hide ParseStatus, ParseFields, StatusLine, ValidFields;
    var n := LineEnd(block);
    LineSplits(block);
    h := StatusFrom(block[..n]);
    var fields := FieldsFrom(block[n + 2..], NO_FIELDS);
    StatusKept(h, fields);
    h := h.(fields := fields);
  }

  lemma StatusKept(h: HeadText, fields: seq<Field>)
    ensures StatusLine(h.(fields := fields)) == StatusLine(h)
  {
  }

  lemma OnlyTrailers(block: seq<byte>) returns (fields: seq<Field>)
    requires ValidTrailer(block)
    ensures ValidTrailers(fields) && FieldsWire(fields) == block
  {
    fields := FieldsFrom(block, NO_FIELDS);
    TrailersRead(fields);
  }
}
