/** The run-length encoding of a screen for the remote desktop. */
module RemoteFrame {
  import opened Bytes

  const SCREEN_WIDTH: nat := 720
  const SCREEN_HEIGHT: nat := 1280
  const PIXELS: nat := SCREEN_WIDTH * SCREEN_HEIGHT
  const RUN_MAX: nat := 0xffff

  function Word(low: byte, high: byte): word { low + 256 * high }

  function Run(value: word, count: nat): (r: seq<word>)
    ensures |r| == count
  {
    seq(count, _ => value)
  }

  /** What a receiver makes of (count, value) pairs, both least significant byte first. */
  function Expand(encoded: seq<byte>): seq<word>
    requires |encoded| % 4 == 0
    decreases |encoded|
  {
    if encoded == [] then []
    else Run(Word(encoded[2], encoded[3]), Word(encoded[0], encoded[1])) + Expand(encoded[4..])
  }

  /** One pair: so many pixels of one colour, both numbers low byte first. */
  lemma PairBytes(a: byte, b: byte, c: byte, d: byte)
    ensures var pixels := Expand([a, b, c, d]);
      |pixels| == a as int + 256 * b as int && forall i :: 0 <= i < |pixels| ==> pixels[i] == c as int + 256 * d as int
  {
    assert [a, b, c, d][4..] == [];
  }

  function Count(encoded: seq<byte>, k: nat): word
    requires 4 * k + 4 <= |encoded|
  {
    Word(encoded[4 * k], encoded[4 * k + 1])
  }

  function Value(encoded: seq<byte>, k: nat): word
    requires 4 * k + 4 <= |encoded|
  {
    Word(encoded[4 * k + 2], encoded[4 * k + 3])
  }

  /** No pair is empty, and a run is cut only because its counter is full. */
  predicate Tight(encoded: seq<byte>) {
    && (forall k :: 0 <= k < |encoded| / 4 ==> Count(encoded, k) >= 1)
    && (forall k :: 0 < k < |encoded| / 4 && Value(encoded, k - 1) == Value(encoded, k) ==>
         Count(encoded, k - 1) == RUN_MAX)
  }

  lemma {:induction false} ExpandAppend(a: seq<byte>, b: seq<byte>)
    requires |a| % 4 == 0 && |b| % 4 == 0
    ensures Expand(a + b) == Expand(a) + Expand(b)
    decreases |a|
  {
    if a == [] {
      assert a + b == b;
    } else {
      assert (a + b)[4..] == a[4..] + b;
      ExpandAppend(a[4..], b);
    }
  }

  predicate NoneEmpty(encoded: seq<byte>) { forall k :: 0 <= k < |encoded| / 4 ==> Count(encoded, k) >= 1 }

  /** Without empty pairs an encoding takes at most four bytes a pixel. */
  lemma {:induction false} ExpandLength(encoded: seq<byte>)
    requires |encoded| % 4 == 0 && NoneEmpty(encoded)
    ensures |encoded| <= 4 * |Expand(encoded)|
    decreases |encoded|
  {
    if encoded != [] {
      RestPairs(encoded);
      assert Count(encoded, 0) >= 1;
      ExpandLength(encoded[4..]);
    }
  }

  lemma RestPairs(encoded: seq<byte>)
    requires |encoded| % 4 == 0 && encoded != []
    ensures NoneEmpty(encoded) ==> NoneEmpty(encoded[4..])
    ensures Tight(encoded) ==> Tight(encoded[4..])
    ensures |encoded| >= 8 ==>
      Value(encoded, 1) == Value(encoded[4..], 0) && Count(encoded, 1) == Count(encoded[4..], 0)
  {
    var rest := encoded[4..];
    forall k | 0 <= k < |rest| / 4
      ensures Count(rest, k) == Count(encoded, k + 1) && Value(rest, k) == Value(encoded, k + 1) {}
  }

  /** Where a tight encoding goes on after its first pair, the pixel is another one, or the counter was full. */
  lemma PixelAfter(encoded: seq<byte>)
    requires |encoded| % 4 == 0 && encoded != [] && Tight(encoded) && |Expand(encoded)| > Count(encoded, 0)
    ensures Expand(encoded)[Count(encoded, 0)] == Value(encoded, 0) ==> Count(encoded, 0) == RUN_MAX
  {
    var rest := encoded[4..];
    RestPairs(encoded);
    assert Expand(encoded) == Run(Value(encoded, 0), Count(encoded, 0)) + Expand(rest);
    assert rest != [];
    assert Count(rest, 0) >= 1;
    assert Expand(rest)[0] == Value(rest, 0);
  }

  lemma FirstPair(encoded: seq<byte>)
    requires |encoded| >= 4 && |encoded[4..]| % 4 == 0 && |encoded| % 4 == 0
    ensures Expand(encoded) == Run(Value(encoded, 0), Count(encoded, 0)) + Expand(encoded[4..])
  {
  }

  /** A run of one value at the front of a tight encoding's pixels lies within its first pair. */
  lemma PairCovers(tight: seq<byte>, n: nat, v: word)
    requires |tight| % 4 == 0 && tight != [] && Tight(tight) && 0 < n <= |Expand(tight)| && n <= RUN_MAX
    requires forall k :: 0 <= k < n ==> Expand(tight)[k] == v
    ensures Value(tight, 0) == v && n <= Count(tight, 0)
  {
    assert Count(tight, 0) >= 1;
    hide Expand, Tight;
    FirstPair(tight);
    assert Expand(tight)[0] == Value(tight, 0);
    if n > Count(tight, 0) { PixelAfter(tight); }
  }

  /** Taking a first pair off an encoding of `left` pixels and more: it ends within them, ... */
  lemma EndsInRun(n: nat, v: word, rest: seq<word>, value: word, left: nat, pixels: seq<word>)
    requires Run(v, n) + rest == Run(value, left) + pixels && n <= left
    ensures rest == Run(value, left - n) + pixels
  {
    var all := Run(value, left) + pixels;
    assert rest == (Run(v, n) + rest)[n..];
    assert all[n..] == Run(value, left - n) + pixels;
  }

  /** ... or it takes some of the pixels behind them. */
  lemma EndsBehindRun(n: nat, v: word, rest: seq<word>, value: word, left: nat, pixels: seq<word>)
    requires Run(v, n) + rest == Run(value, left) + pixels && n > left
    ensures n - left <= |pixels| && rest == pixels[n - left..]
    ensures forall k :: 0 <= k < n - left ==> pixels[k] == v
  {
    var all := Run(value, left) + pixels;
    assert rest == (Run(v, n) + rest)[n..] == all[n..];
    forall k | 0 <= k < n - left ensures pixels[k] == v {
      assert all[left + k] == pixels[k] && (Run(v, n) + rest)[left + k] == v;
    }
  }

  lemma PrefixRun(n: nat, v: word, rest: seq<word>, pixels: seq<word>)
    requires n <= |pixels| && rest == pixels[n..] && forall k :: 0 <= k < n ==> pixels[k] == v
    ensures Run(v, n) + rest == pixels
  {
  }

  /** Main result: a tight encoding takes the fewest pairs. Any other encoding of the same pixels, even
      one that has `left` pixels of one value to write first, is at least as long. */
  lemma {:induction false} FewestPairs(tight: seq<byte>, other: seq<byte>, value: word, left: nat)
    requires |tight| % 4 == 0 && |other| % 4 == 0 && Tight(tight)
    requires Expand(other) == Run(value, left) + Expand(tight)
    ensures |tight| <= |other|
    decreases |tight| + |other|
  {
    hide Expand, Tight, Run, Word;
    if tight == [] {
      assert |tight| <= |other|;
    } else {
      NeedsPairs(tight, other, value, left);
      assert |tight| >= 4 && |other| >= 4;
      var n, v, rest := Count(other, 0), Value(other, 0), other[4..];
      FirstPair(other);
      if n <= left {
        EndsInRun(n, v, Expand(rest), value, left, Expand(tight));
        FewestPairs(tight, rest, value, left - n);
      } else {
        var over: nat := n - left;
        EndsBehindRun(n, v, Expand(rest), value, left, Expand(tight));
        PairCovers(tight, over, v);
        FirstPair(tight);
        RestPairs(tight);
        PrefixRun(over, v, Expand(rest), Expand(tight));
        EndsInRun(over, v, Expand(rest), v, Count(tight, 0), Expand(tight[4..]));
        FewestPairs(tight[4..], rest, v, Count(tight, 0) - over);
      }
    }
  }

  lemma NoneShorter(tight: seq<byte>, pixels: seq<word>)
    requires |tight| % 4 == 0 && Tight(tight) && Expand(tight) == pixels
    ensures forall other: seq<byte> :: |other| % 4 == 0 && Expand(other) == pixels ==> |tight| <= |other|
  {
    hide Expand, Tight;
    assert Run(0, 0) + pixels == pixels;
    forall other: seq<byte> | |other| % 4 == 0 && Expand(other) == pixels ensures |tight| <= |other| {
      FewestPairs(tight, other, 0, 0);
    }
  }

  lemma TightHasPixels(tight: seq<byte>)
    requires |tight| % 4 == 0 && Tight(tight) && tight != []
    ensures |Expand(tight)| > 0
  {
    assert NoneEmpty(tight);
    hide Expand, Tight;
    ExpandLength(tight);
  }

  lemma EmptyHasNone(other: seq<byte>)
    requires |other| % 4 == 0
    ensures other == [] ==> Expand(other) == []
  {
  }

  lemma NeedsPairs(tight: seq<byte>, other: seq<byte>, value: word, left: nat)
    requires |tight| % 4 == 0 && |other| % 4 == 0 && Tight(tight) && tight != []
    requires Expand(other) == Run(value, left) + Expand(tight)
    ensures other != []
  {
    hide Expand, Tight, Run;
    TightHasPixels(tight);
    EmptyHasNone(other);
  }

  lemma TightAppend(before: seq<byte>, pair: seq<byte>)
    requires |before| % 4 == 0 && |pair| == 4 && Tight(before) && Word(pair[0], pair[1]) >= 1
    requires RunEnds(before, Word(pair[2], pair[3]))
    ensures Tight(before + pair)
  {
    hide Word;
    var n := |before| / 4;
    var after := before + pair;
    assert |before| == 4 * n && |after| == 4 * (n + 1) && |after| / 4 == n + 1;
    forall k | 0 <= k < n ensures Count(after, k) == Count(before, k) && Value(after, k) == Value(before, k) {}
    assert Count(after, n) == Word(pair[0], pair[1]) && Value(after, n) == Word(pair[2], pair[3]);
  }

  function Pair(count: word, value: word): (pair: seq<byte>)
    ensures |pair| == 4 && Word(pair[0], pair[1]) == count && Word(pair[2], pair[3]) == value
  {
    [count % 256, count / 256, value % 256, value / 256]
  }

  method WritePair(encoded: array<byte>, output: nat, count: word, value: word)
    requires output + 4 <= encoded.Length
    modifies encoded
    ensures encoded[..output + 4] == old(encoded[..output]) + Pair(count, value)
  {
    encoded[output], encoded[output + 1] := count % 256, count / 256;
    encoded[output + 2], encoded[output + 3] := value % 256, value / 256;
  }

  lemma ExpandPair(count: word, value: word)
    ensures Expand(Pair(count, value)) == Run(value, count)
  {
    assert Pair(count, value)[4..] == [];
  }

  /** Whether the pixel after the encoded ones may start a pair of its own. */
  predicate RunEnds(encoded: seq<byte>, next: word)
    requires |encoded| % 4 == 0
  {
    encoded != [] && Value(encoded, |encoded| / 4 - 1) == next ==> Count(encoded, |encoded| / 4 - 1) == RUN_MAX
  }

  /** The loop of send_remote_frame, for a source of any size. */
  method Encode(source: seq<word>, encoded: array<byte>) returns (output: nat)
    requires encoded.Length >= 4 * |source|
    modifies encoded
    ensures output <= 4 * |source| && output % 4 == 0
    ensures Expand(encoded[..output]) == source
    ensures Tight(encoded[..output])
    ensures forall other: seq<byte> :: |other| % 4 == 0 && Expand(other) == source ==> output <= |other|
  {
    hide Expand, Tight, RunEnds, Pair, Run, Word;
    var i := 0;
    output := 0;
    assert Tight([]) && Expand([]) == [] by { EmptyEncoding(); }
    assert i < |source| ==> RunEnds([], source[0]) by { EmptyEncoding(); }
    while i < |source|
      invariant i <= |source| && output <= 4 * i && output % 4 == 0
      invariant Expand(encoded[..output]) == source[..i] && Tight(encoded[..output])
      invariant i < |source| ==> RunEnds(encoded[..output], source[i])
    {
      var value := source[i];
      var count := 1;
      while i + count < |source| && source[i + count] == value && count < RUN_MAX
        invariant 1 <= count <= RUN_MAX && i + count <= |source|
        invariant forall k :: i <= k < i + count ==> source[k] == value
      {
        count := count + 1;
      }
      ghost var before := encoded[..output];
      WritePair(encoded, output, count, value);
      ExpandAppend(before, Pair(count, value));
      ExpandPair(count, value);
      RunIs(source, i, count, value);
      TightAppend(before, Pair(count, value));
      output := output + 4;
      i := i + count;
      if i < |source| { EndsRun(before, count, value, source[i]); }
    }
    assert source[..i] == source;
    NoneShorter(encoded[..output], source);
  }

  lemma EmptyEncoding()
    ensures Tight([]) && Expand([]) == [] && forall next: word :: RunEnds([], next)
  {
  }

  lemma RunIs(source: seq<word>, i: nat, count: nat, value: word)
    requires i + count <= |source| && forall k :: i <= k < i + count ==> source[k] == value
    ensures source[..i + count] == source[..i] + Run(value, count)
  {
  }

  lemma EndsRun(before: seq<byte>, count: word, value: word, next: word)
    requires |before| % 4 == 0 && (next != value || count == RUN_MAX)
    ensures RunEnds(before + Pair(count, value), next)
  {
    hide Pair;
    var n := |before| / 4;
    assert |before| == 4 * n;
    var after := before + Pair(count, value);
    assert Count(after, n) == count && Value(after, n) == value;
  }

  /** A whole screen fits the buffer allocated for it, twice the pixel bytes. */
  method SendFrame(pixels: seq<word>, encoded: array<byte>) returns (payload: nat)
    requires |pixels| == PIXELS && encoded.Length == 2 * (2 * PIXELS)
    modifies encoded
    ensures payload <= encoded.Length && payload % 4 == 0 && Expand(encoded[..payload]) == pixels
  {
    payload := Encode(pixels, encoded);
  }
}
