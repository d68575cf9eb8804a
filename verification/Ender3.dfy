/** The printer console: lines out of a byte stream, and a ring of the newest received bytes. */
module Ender3 {
  import opened Bytes
  import Circular

  const LINE_CAP: nat := 192
  const LINE_MAX: nat := LINE_CAP - 1
  const RING_CAPACITY: nat := 2048

  // ---- Lines -------------------------------------------------------------------------------

  /** What stands before each newline, in order. */
  function Cut(stream: seq<byte>): seq<seq<byte>> {
    if stream == [] then []
    else
      var init := stream[..|stream| - 1];
      if stream[|stream| - 1] == LF then Cut(init) + [Rest(init)] else Cut(init)
  }

  /** What stands after the last one. */
  function Rest(stream: seq<byte>): seq<byte> {
    if stream == [] then []
    else if stream[|stream| - 1] == LF then []
    else Rest(stream[..|stream| - 1]) + [stream[|stream| - 1]]
  }

  function Joined(parts: seq<seq<byte>>): seq<byte> {
    if parts == [] then [] else Joined(parts[..|parts| - 1]) + parts[|parts| - 1] + [LF]
  }

  /** Cutting loses nothing, and cuts at every newline and nowhere else. */
  lemma {:induction false} CutsAtNewlines(stream: seq<byte>)
    ensures Joined(Cut(stream)) + Rest(stream) == stream
    ensures LF !in Rest(stream) && forall k :: 0 <= k < |Cut(stream)| ==> LF !in Cut(stream)[k]
  {
    if stream != [] {
      var init, last := stream[..|stream| - 1], stream[|stream| - 1];
      CutsAtNewlines(init);
      assert stream == init + [last];
      if last == LF {
        assert Cut(stream)[..|Cut(stream)| - 1] == Cut(init);
      }
    }
  }

  function WithoutReturns(text: seq<byte>): seq<byte> {
    if text == [] then []
    else WithoutReturns(text[..|text| - 1]) + if text[|text| - 1] == CR then [] else [text[|text| - 1]]
  }

  /** A line as it is shown: no carriage returns, at most its first 191 characters. */
  function Shown(text: seq<byte>): (line: seq<byte>)
    ensures |line| <= LINE_MAX
  {
    var clean := WithoutReturns(text);
    clean[..Min(|clean|, LINE_MAX)]
  }

  function Lines(stream: seq<byte>): (r: seq<seq<byte>>) {
    seq(|Cut(stream)|, k requires 0 <= k < |Cut(stream)| => Shown(Cut(stream)[k]))
  }

  /** A line that fits and holds no return is shown as it is, also before the return of a DOS line end. */
  lemma {:induction false} PlainLine(text: seq<byte>)
    requires CR !in text && |text| <= 191
    ensures Shown(text) == text && Shown(text + [CR]) == text
    decreases |text|
  {
    assert (text + [CR])[..|text|] == text;
    if text != [] { PlainLine(text[..|text| - 1]); }
  }

  /** Of any line, the first 191 characters that are no returns. */
  lemma {:induction false} ShownIsPrefix(s: seq<byte>, t: seq<byte>)
    requires |WithoutReturns(s)| <= 191
    ensures WithoutReturns(s) <= WithoutReturns(s + t) && CR !in WithoutReturns(s)
    ensures |WithoutReturns(s)| == 191 ==> Shown(s + t) == WithoutReturns(s)
    decreases |s| + |t|
  {
    if t != [] {
      assert (s + t)[..|s + t| - 1] == s + t[..|t| - 1];
      ShownIsPrefix(s, t[..|t| - 1]);
    } else if s != [] {
      assert s + t == s;
      ShownIsPrefix(s[..|s| - 1], []);
      assert s[..|s| - 1] + [] == s[..|s| - 1];
    }
  }

  lemma ShownNext(text: seq<byte>, b: byte)
    ensures b == CR || |Shown(text)| == LINE_MAX ==> Shown(text + [b]) == Shown(text)
    ensures b != CR && |Shown(text)| < LINE_MAX ==> Shown(text + [b]) == Shown(text) + [b]
  {
    assert (text + [b])[..|text|] == text;
    assert WithoutReturns(text + [b]) == WithoutReturns(text) + if b == CR then [] else [b];
  }

  lemma CutNext(stream: seq<byte>, b: byte)
    ensures Rest(stream + [b]) == if b == LF then [] else Rest(stream) + [b]
    ensures Cut(stream + [b]) == if b == LF then Cut(stream) + [Rest(stream)] else Cut(stream)
  {
    assert (stream + [b])[..|stream|] == stream;
  }

  lemma NextByte(stream: seq<byte>, b: byte)
    ensures Rest(stream + [b]) == if b == LF then [] else Rest(stream) + [b]
    ensures Lines(stream + [b]) == if b == LF then Lines(stream) + [Shown(Rest(stream))] else Lines(stream)
  {
    hide Cut, Rest, Shown;
    CutNext(stream, b);
  }

  class Splitter {
    const line: array<byte>
    var len: nat
    ghost var received: seq<byte>       // every byte since the start, over all calls
    ghost var emitted: seq<seq<byte>>   // every line handed out

    ghost predicate Valid()
      reads this, line
    {
      && line.Length == LINE_CAP && len <= LINE_MAX
      && line[..len] == Shown(Rest(received))
      && emitted == Lines(received)
    }

    constructor ()
      ensures Valid() && received == [] && fresh(line)
    {
      line := new byte[LINE_CAP](_ => 0);
      len, received, emitted := 0, [], [];
    }

    /** One character: a newline ends the line, a return is skipped, and what does not fit is lost. */
    method Take(b: byte) returns (ended: Option<seq<byte>>)
      requires Valid()
      modifies this, line
      ensures Valid() && received == old(received) + [b]
      ensures emitted == old(emitted) + (if ended.Some? then [ended.value] else [])
    {
      hide Lines, Shown, Rest, Cut, WithoutReturns;
      NextByte(received, b);
      ShownNext(Rest(received), b);
      EmptyShown();
      received, ended := received + [b], None;
      if b == LF {
        ended := Some(line[..len]);
        emitted := emitted + [line[..len]];
        len := 0;
      } else if b != CR {
        if len < LINE_CAP - 1 {
          line[len] := b;
          len := len + 1;
        }
      }
    }

    /** ender3_split_lines; the lines returned are those the callback gets, in order. Whatever the
        calls, all lines so far are the lines of all bytes so far. */
    method SplitLines(data: seq<byte>) returns (lines: seq<seq<byte>>)
      requires Valid()
      modifies this, line
      ensures Valid() && received == old(received) + data && emitted == old(emitted) + lines
      ensures Lines(old(received) + data) == Lines(old(received)) + lines
    {
      hide Lines, Shown, Rest, Cut, WithoutReturns;
      lines := [];
      for i := 0 to |data|
        invariant Valid() && received == old(received) + data[..i] && emitted == old(emitted) + lines
      {
        assert data[..i + 1] == data[..i] + [data[i]];
        var ended := Take(data[i]);
        if ended.Some? { lines := lines + [ended.value]; }
      }
      assert data[..|data|] == data;
    }
  }

  lemma EmptyShown()
    ensures Shown([]) == []
  {
  }

  // ---- The ring ----------------------------------------------------------------------------

  /** The newest `n` of a stream. */
  function Newest(stream: seq<byte>, n: nat): (r: seq<byte>)
    ensures |r| == Min(|stream|, n)
  {
    if |stream| <= n then stream else stream[|stream| - n..]
  }

  /** Keeping the newest as they come keeps the newest of all. */
  lemma NewestInSteps(a: seq<byte>, b: seq<byte>, n: nat)
    ensures Newest(Newest(a, n) + b, n) == Newest(a + b, n)
  {
  }

  class Ring {
    const data: array<byte>
    var head: nat
    var len: nat

    ghost predicate Valid()
      reads this
    {
      data.Length == RING_CAPACITY && head < RING_CAPACITY && len <= RING_CAPACITY
    }

    /** The unread bytes, oldest first. */
    ghost function Unread(): seq<byte>
      reads this, data
      requires Valid()
    {
      Circular.Contents(data[..], head, len)
    }

    constructor ()
      ensures Valid() && Unread() == [] && fresh(data)
    {
      data := new byte[RING_CAPACITY](_ => 0);
      head, len := 0, 0;
    }

    method PushOne(b: byte)
      requires Valid()
      modifies this, data
      ensures Valid() && Unread() == Newest(old(Unread()) + [b], RING_CAPACITY)
    {
      if len < RING_CAPACITY {
        Circular.Push(data[..], head, len, b);
      } else {
        Circular.Overwrite(data[..], head, b);
      }
      data[(head + len) % RING_CAPACITY] := b;
      if len < RING_CAPACITY {
        len := len + 1;
      } else {
        head := (head + 1) % RING_CAPACITY;
      }
    }

    method Push(bytes: seq<byte>)
      requires Valid()
      modifies this, data
      ensures Valid() && Unread() == Newest(old(Unread()) + bytes, 2048)
    {
      hide Unread;
      ghost var before := Unread();
      assert before + bytes[..0] == before;
      UnreadFits();
      for i := 0 to |bytes|
        invariant Valid() && Unread() == Newest(before + bytes[..i], RING_CAPACITY)
      {
        assert before + bytes[..i + 1] == before + bytes[..i] + [bytes[i]];
        NewestInSteps(before + bytes[..i], [bytes[i]], RING_CAPACITY);
        PushOne(bytes[i]);
      }
      assert bytes[..|bytes|] == bytes;
    }

    lemma UnreadFits()
      requires Valid()
      ensures |Unread()| == len
    {
    }

    method Pull(out: array<byte>, capacity: nat) returns (count: nat)
      requires Valid() && capacity <= out.Length && out != data
      modifies this`head, this`len, out
      ensures Valid() && count == Min(|old(Unread())|, capacity)
      ensures out[..count] == old(Unread())[..count] && Unread() == old(Unread())[count..]
      ensures forall i :: count <= i < out.Length ==> out[i] == old(out[i])
    {
      count := if len < capacity then len else capacity;
      ghost var before := Unread();
      for i := 0 to count
        invariant Valid() && head == old(head) && len == old(len)
        invariant out[..i] == before[..i]
        invariant forall k :: count <= k < out.Length ==> out[k] == old(out[k])
        invariant Unread() == before
      {
        Circular.At(data[..], head, len, i);
        out[i] := data[(head + i) % RING_CAPACITY];
        assert out[..i + 1] == out[..i] + [before[i]];
      }
      Circular.Drop(data[..], head, len, count);
      head := (head + count) % RING_CAPACITY;
      len := len - count;
    }
  }
}
