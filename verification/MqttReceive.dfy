/** Reassembly of a received MQTT message from the fragments the client library delivers. */
module MqttReceive {
  import opened Bytes

  const PAYLOAD_MAX: nat := 512
  const TOPIC_MAX: nat := 127
  const COPY_MAX: nat := 128

  /** One data event. Absent pointers are None; lengths are the library's signed fields. */
  datatype Fragment = Fragment(
    offset: int, total: int, topic: Option<seq<byte>>, topicLen: int,
    data: Option<seq<byte>>, dataLen: int, id: int, qos: int, retain: bool)

  /** The library makes as many bytes readable as it says. */
  predicate Readable(f: Fragment) {
    && (f.topic.Some? ==> f.topicLen <= |f.topic.value|)
    && (f.data.Some? ==> f.dataLen <= |f.data.value|)
  }

  // ---- What a message is, as a property of the fragments -----------------------------------

  predicate WellShaped(f: Fragment) {
    && f.offset >= 0 && f.total >= 0 && f.dataLen >= 0 && f.topicLen >= 0 && f.id >= 0 && 0 <= f.qos <= 2
    && f.offset <= f.total && f.dataLen <= f.total - f.offset && (f.dataLen > 0 ==> f.data.Some?)
  }

  predicate BearsTopic(f: Fragment) { f.topic.Some? || f.topicLen != 0 }

  predicate Opens(f: Fragment) {
    WellShaped(f) && f.offset == 0 && f.topic.Some? && f.topicLen != 0
  }

  predicate SameMessage(f: Fragment, g: Fragment) {
    f.total == g.total && f.id == g.id && f.qos == g.qos && f.retain == g.retain
  }

  function Extent(seg: seq<Fragment>): int {
    if seg == [] then 0 else Extent(seg[..|seg| - 1]) + seg[|seg| - 1].dataLen
  }

  /** The fragments since the latest topic-bearing one. */
  function Segment(history: seq<Fragment>): seq<Fragment> {
    if history == [] then []
    else
      var f := history[|history| - 1];
      if BearsTopic(f) then [f]
      else
        var before := Segment(history[..|history| - 1]);
        if before == [] then [] else before + [f]
  }

  /** In order and without gap or overlap from offset zero, all describing the same message. */
  predicate Tiles(seg: seq<Fragment>) {
    && seg != [] && Opens(seg[0])
    && forall j :: 0 < j < |seg| ==>
         WellShaped(seg[j]) && seg[j].dataLen > 0 && seg[j].offset == Extent(seg[..j]) && SameMessage(seg[0], seg[j])
  }

  predicate Whole(seg: seq<Fragment>) { Tiles(seg) && Extent(seg) == seg[0].total }

  function Content(f: Fragment): seq<byte>
    requires WellShaped(f) && Readable(f)
  {
    if f.dataLen == 0 then [] else f.data.value[..f.dataLen]
  }

  function Payload(seg: seq<Fragment>): (p: seq<byte>)
    requires forall f :: f in seg ==> WellShaped(f) && Readable(f)
    ensures |p| == Extent(seg)
  {
    if seg == [] then [] else Payload(seg[..|seg| - 1]) + Content(seg[|seg| - 1])
  }

  function DisplayByte(b: byte): byte {
    if b == CR then LF else if b == LF || b == HT || 32 <= b <= 126 then b else 46
  }

  function Display(s: seq<byte>): (d: seq<byte>)
    ensures |d| == |s| && forall i :: 0 <= i < |s| ==> d[i] == DisplayByte(s[i])
  {
    seq(|s|, i requires 0 <= i < |s| => DisplayByte(s[i]))
  }

  /** Printable characters, tabs and newlines are shown as they are, a return as a newline, and every other
      byte as a dot; so nothing else is ever shown. */
  lemma DisplayShows(s: seq<byte>, i: nat)
    requires i < |s|
    ensures ' ' as int <= s[i] <= '~' as int || s[i] == '\n' as int || s[i] == '\t' as int ==> Display(s)[i] == s[i]
    ensures s[i] == '\r' as int ==> Display(s)[i] == '\n' as int
    ensures s[i] != Display(s)[i] && s[i] != '\r' as int ==> Display(s)[i] == '.' as int
    ensures ' ' as int <= Display(s)[i] <= '~' as int || Display(s)[i] in {'\n' as int, '\t' as int}
  {
  }

  function Prefix(s: seq<byte>, n: nat): seq<byte> { s[..Min(|s|, n)] }

  lemma PrefixAppend(s: seq<byte>, t: seq<byte>, n: nat)
    ensures Prefix(s + t, n) == if |s| < n then s + Prefix(t, n - |s|) else Prefix(s, n)
  {
  }

  lemma TilesShape(seg: seq<Fragment>, f: Fragment)
    requires Tiles(seg) && f in seg
    ensures WellShaped(f)
  {
    var j :| 0 <= j < |seg| && seg[j] == f;
    if j > 0 { assert WellShaped(seg[j]); }
  }

  /** A further fragment keeps the tiling exactly when it continues where the last one stopped. */
  lemma TilesExtends(seg: seq<Fragment>, f: Fragment)
    requires seg != []
    ensures Tiles(seg + [f]) <==>
      Tiles(seg) && WellShaped(f) && f.dataLen > 0 && f.offset == Extent(seg) && SameMessage(seg[0], f)
  {
    var t := seg + [f];
    assert t[..|seg|] == seg;
    assert forall j :: 0 < j < |seg| ==> t[..j] == seg[..j];
    if Tiles(t) {
      assert t[|seg|] == f;
      forall j | 0 < j < |seg|
        ensures WellShaped(seg[j]) && seg[j].dataLen > 0
        ensures seg[j].offset == Extent(seg[..j]) && SameMessage(seg[0], seg[j]) {
        assert t[j] == seg[j];
      }
    }
  }

  /** A tiling never runs past its total, so nothing can follow a whole message. */
  lemma TilesBounded(seg: seq<Fragment>)
    requires Tiles(seg)
    ensures 0 <= Extent(seg) <= seg[0].total
  {
    var n := |seg| - 1;
    if n == 0 {
      assert seg[..0] == [];
      assert Extent(seg[..0]) == 0;
    } else {
      var last := seg[n];
      assert WellShaped(last) && SameMessage(seg[0], last);
    }
  }

  // ---- Every message can be received -------------------------------------------------------

  /** A message as a peer sends it. */
  datatype Sent = Sent(topic: seq<byte>, payload: seq<byte>, id: nat, qos: nat, retain: bool)

  function Total(sizes: seq<nat>): nat { if sizes == [] then 0 else Total(sizes[..|sizes| - 1]) + sizes[|sizes| - 1] }

  function Piece(m: Sent, at: nat, size: nat, first: bool): Fragment
    requires at + size <= |m.payload|
  {
    Fragment(at, |m.payload|, if first then Some(m.topic) else None, if first then |m.topic| else 0,
             Some(m.payload[at..at + size]), size, m.id, m.qos, m.retain)
  }

  /** The message cut into pieces of these sizes; the first one bears the topic. */
  function Pieces(m: Sent, sizes: seq<nat>): (seg: seq<Fragment>)
    requires Total(sizes) <= |m.payload|
    ensures |seg| == |sizes| && forall f :: f in seg ==> WellShaped(f) == (m.qos <= 2) && Readable(f)
  {
    if sizes == [] then []
    else
      var init := sizes[..|sizes| - 1];
      Pieces(m, init) + [Piece(m, Total(init), sizes[|sizes| - 1], |sizes| == 1)]
  }

  lemma {:induction false} FirstPiece(m: Sent, sizes: seq<nat>)
    requires Total(sizes) <= |m.payload| && sizes != []
    ensures Total(sizes[..1]) <= |m.payload| && Pieces(m, sizes)[0] == Piece(m, 0, sizes[0], true)
    decreases |sizes|
  {
    if |sizes| == 1 {
      assert sizes[..0] == [] && sizes[..1] == sizes;
    } else {
      var init := sizes[..|sizes| - 1];
      FirstPiece(m, init);
      assert init[..1] == sizes[..1];
    }
  }

  /** One more piece behind a tiling. */
  lemma PieceJoins(m: Sent, before: seq<Fragment>, at: nat, size: nat)
    requires m.qos <= 2 && at + size <= |m.payload| && size > 0 && before != []
    requires Tiles(before) && Extent(before) == at && SameMessage(before[0], Piece(m, 0, 0, true))
    requires (forall f :: f in before ==> WellShaped(f) && Readable(f)) && Payload(before) == m.payload[..at]
    ensures var f := Piece(m, at, size, false);
      var seg := before + [f];
      && Tiles(seg) && Extent(seg) == at + size && (forall g :: g in seg ==> WellShaped(g) && Readable(g))
      && Payload(seg) == m.payload[..at + size]
  {
    hide Tiles;
    var f := Piece(m, at, size, false);
    var seg := before + [f];
    TilesExtends(before, f);
    assert seg[..|seg| - 1] == before;
    assert m.payload[..at + size] == m.payload[..at] + m.payload[at..at + size];
    assert Content(f) == m.payload[at..at + size];
  }

  lemma OnePiece(m: Sent, size: nat)
    requires m.topic != [] && m.qos <= 2 && size <= |m.payload|
    ensures var seg := [Piece(m, 0, size, true)];
      && Tiles(seg) && Extent(seg) == size && (forall g :: g in seg ==> WellShaped(g) && Readable(g))
      && Payload(seg) == m.payload[..size]
  {
    var f := Piece(m, 0, size, true);
    assert [f][..0] == [];
    assert Extent([f]) == size && Payload([f]) == Content(f) == m.payload[..size];
  }

  lemma LastPiece(m: Sent, sizes: seq<nat>)
    requires Total(sizes) <= |m.payload| && |sizes| > 1
    ensures var init, last := sizes[..|sizes| - 1], sizes[|sizes| - 1];
      && Total(init) + last == Total(sizes)
      && Pieces(m, sizes) == Pieces(m, init) + [Piece(m, Total(init), last, false)]
  {
  }

  lemma {:induction false} PiecesTile(m: Sent, sizes: seq<nat>)
    requires m.topic != [] && m.qos <= 2 && Total(sizes) <= |m.payload|
    requires sizes != [] && forall i :: 0 < i < |sizes| ==> sizes[i] > 0
    ensures var seg := Pieces(m, sizes);
      Tiles(seg) && Extent(seg) == Total(sizes) && Payload(seg) == m.payload[..Total(sizes)]
    decreases |sizes|
  {
    FirstPiece(m, sizes);
    if |sizes| == 1 {
      assert Pieces(m, sizes) == [Piece(m, 0, sizes[0], true)] && Total(sizes) == sizes[0] by { assert sizes[..0] == []; }
      OnePiece(m, sizes[0]);
    } else {
      LastPiece(m, sizes);
      hide Tiles, Extent, Payload, Pieces, Total, WellShaped, Readable;
      var init := sizes[..|sizes| - 1];
      PiecesTile(m, init);
      FirstPiece(m, init);
      PieceJoins(m, Pieces(m, init), Total(init), sizes[|sizes| - 1]);
    }
  }

  lemma {:induction false} PiecesAreSegment(history: seq<Fragment>, m: Sent, sizes: seq<nat>)
    requires m.topic != [] && Total(sizes) <= |m.payload| && sizes != []
    ensures Segment(history + Pieces(m, sizes)) == Pieces(m, sizes)
    decreases |sizes|
  {
    var n := |sizes| - 1;
    var before := Pieces(m, sizes[..n]);
    var all := history + Pieces(m, sizes);
    assert all[..|all| - 1] == history + before && all[|all| - 1] == Pieces(m, sizes)[n];
    if n > 0 { PiecesAreSegment(history, m, sizes[..n]); }
  }

  /** Main result: whatever came before, any message with a topic, cut into pieces of any sizes of which
      only the first may be empty, is whole when its last piece has come, with exactly its payload. */
  lemma AnyCutIsWhole(history: seq<Fragment>, m: Sent, sizes: seq<nat>)
    requires m.topic != [] && m.qos <= 2 && sizes != [] && Total(sizes) == |m.payload|
    requires forall i :: 0 < i < |sizes| ==> sizes[i] > 0
    ensures var seg := Segment(history + Pieces(m, sizes));
      && seg == Pieces(m, sizes) && Whole(seg) && Payload(seg) == m.payload
      && seg[0].topic == Some(m.topic) && seg[0].topicLen == |m.topic|
      && seg[0].qos == m.qos && seg[0].retain == m.retain
  {
    PiecesTile(m, sizes);
    PiecesAreSegment(history, m, sizes);
    FirstPiece(m, sizes);
    assert m.payload[..|m.payload|] == m.payload;
  }

  /** What the history and the screen are shown of a received topic. */
  function ShownTopic(topic: seq<byte>): (seq<byte>, bool) {
    var cut := Prefix(topic, TOPIC_MAX);
    (seq(|cut|, i requires 0 <= i < |cut| => if 32 <= cut[i] <= 126 then cut[i] else 46),
     |topic| > TOPIC_MAX || exists i :: 0 <= i < |cut| && !(32 <= cut[i] <= 126))
  }

  /** A topic is marked as a preview exactly when it is not shown as it is; then it is cut at 127 bytes and
      its unprintable bytes are dots. */
  lemma TopicShows(topic: seq<byte>)
    ensures var (shown, preview) := ShownTopic(topic);
      && |shown| == Min(|topic|, 127) && (!preview ==> shown == topic)
      && (preview <==> |topic| > 127 || exists i :: 0 <= i < |topic| && !(' ' as int <= topic[i] <= '~' as int))
      && forall i :: 0 <= i < |shown| ==>
           shown[i] == if ' ' as int <= topic[i] <= '~' as int then topic[i] else '.' as int
  {
  }

  /** copy_received_topic: the sanitized topic, and whether it is only a preview. */
  method CopyReceivedTopic(input: seq<byte>, length: nat) returns (output: seq<byte>, preview: bool)
    requires length <= |input|
    ensures (output, preview) == ShownTopic(input[..length])
  {
    var used := Min(length, TOPIC_MAX);
    ghost var cut := Prefix(input[..length], TOPIC_MAX);
    output, preview := [], used != length;
    for i := 0 to used
      invariant |output| == i
      invariant forall k :: 0 <= k < i ==> output[k] == if 32 <= cut[k] <= 126 then cut[k] else 46
      invariant preview <==> used != length || exists k :: 0 <= k < i && !(32 <= cut[k] <= 126)
    {
      assert cut[i] == input[i];
      var printable := 32 <= input[i] <= 126;
      output := output + [if printable then input[i] else 46];
      if !printable { preview := true; }
    }
    assert output == ShownTopic(input[..length]).0;
  }

  datatype Message = Message(
    retained: bool, qos: int, total: nat, truncated: bool, topic: seq<byte>, topicPreview: bool, preview: seq<byte>)

  /** The latest complete receive; bytes are present when the payload fits the copy buffer. */
  datatype Copy = Copy(present: bool, retained: bool, topicPreview: bool, qos: int, length: nat,
                       revision: nat, topic: seq<byte>, bytes: seq<byte>)

  /** What must be published for a whole segment. */
  function Expected(seg: seq<Fragment>): Message
    requires Tiles(seg) && Readable(seg[0]) && forall f :: f in seg ==> WellShaped(f) && Readable(f)
  {
    var f := seg[0];
    var (topic, cut) := ShownTopic(f.topic.value[..f.topicLen]);
    Message(f.retain, f.qos, f.total, f.total > 512, topic, cut, Display(Prefix(Payload(seg), 512)))
  }

  class Receiver {
    const payload: array<byte>       // the text preview being built, zero-terminated
    const receiveBytes: array<byte>  // the exact leading bytes
    var active: bool
    var offset: nat
    var id: int
    var message: Message             // header fields of the message being received
    var latest: Copy
    ghost var history: seq<Fragment> // every fragment since the connection last changed

    ghost predicate Open() reads this {
      Tiles(Segment(history)) && Extent(Segment(history)) < Segment(history)[0].total
    }

    ghost predicate Valid()
      reads this, payload, receiveBytes
    {
      && payload.Length == PAYLOAD_MAX + 1 && receiveBytes.Length == COPY_MAX && payload != receiveBytes
      && (forall f :: f in history ==> Readable(f))
      && (active <==> Open())
      && (active ==> Holds(Segment(history)))
    }

    /** The buffers hold exactly what the segment's fragments carried. */
    ghost predicate Holds(seg: seq<Fragment>)
      reads this, payload, receiveBytes
      requires payload.Length == PAYLOAD_MAX + 1 && receiveBytes.Length == COPY_MAX
    {
      && Tiles(seg) && (forall f :: f in seg ==> WellShaped(f) && Readable(f))
      && id == seg[0].id
      && message == Expected(seg).(preview := [])
      && HoldsBytes(Payload(seg))
    }

    ghost predicate HoldsBytes(p: seq<byte>)
      reads this`offset, payload, receiveBytes
      requires payload.Length == PAYLOAD_MAX + 1 && receiveBytes.Length == COPY_MAX
    {
      offset == |p| && HoldsPreview(p) && HoldsRaw(p)
    }

    ghost predicate HoldsPreview(p: seq<byte>)
      reads payload
      requires payload.Length == PAYLOAD_MAX + 1
    {
      payload[..Min(|p|, PAYLOAD_MAX)] == Display(Prefix(p, PAYLOAD_MAX)) && payload[Min(|p|, PAYLOAD_MAX)] == 0
    }

    ghost predicate HoldsRaw(p: seq<byte>)
      reads receiveBytes
      requires receiveBytes.Length == COPY_MAX
    {
      receiveBytes[..Min(|p|, COPY_MAX)] == Prefix(p, COPY_MAX)
    }

    constructor ()
      ensures Valid() && history == [] && !active && !latest.present
    {
      payload, receiveBytes := new byte[PAYLOAD_MAX + 1](_ => 0), new byte[COPY_MAX](_ => 0);
      active, offset, id := false, 0, 0;
      message := Message(false, 0, 0, false, [], false, []);
      latest := Copy(false, false, false, 0, 0, 0, [], []);
      history := [];
    }

    /** A connect, disconnect or error event abandons the message in progress. */
    method ConnectionChanged()
      requires Valid()
      modifies this`active, this`history
      ensures Valid() && history == [] && !active
    {
      active, history := false, [];
    }

    method CopyDisplayed(at: nat, c: seq<byte>)
      requires payload.Length == PAYLOAD_MAX + 1 && at + |c| <= PAYLOAD_MAX
      modifies payload
      ensures payload[..at + |c|] == old(payload[..at]) + Display(c) && payload[at + |c|] == 0
    {
      for i := 0 to |c|
        invariant payload[..at] == old(payload[..at])
        invariant forall k :: 0 <= k < i ==> payload[at + k] == DisplayByte(c[k])
      {
        payload[at + i] := DisplayByte(c[i]);
      }
      payload[at + |c|] := 0;
    }

    lemma PreviewGrows(p: seq<byte>, c: seq<byte>)
      requires |p| <= PAYLOAD_MAX
      ensures Prefix(p, PAYLOAD_MAX) == p
      ensures Display(Prefix(p + c, PAYLOAD_MAX)) == Display(p) + Display(c[..Min(|c|, PAYLOAD_MAX - |p|)])
    {
      hide DisplayByte;
      var more := c[..Min(|c|, PAYLOAD_MAX - |p|)];
      assert Prefix(p + c, PAYLOAD_MAX) == p + more;
      assert Display(p + more) == Display(p) + Display(more);
    }

    /** The preview half of storing a fragment. */
    method StorePreview(f: Fragment, ghost p: seq<byte>)
      requires payload.Length == PAYLOAD_MAX + 1 && HoldsPreview(p)
      requires WellShaped(f) && Readable(f) && f.dataLen > 0 && |p| == f.offset < PAYLOAD_MAX
      modifies payload
      ensures HoldsPreview(p + Content(f))
    {
      hide Display, Prefix;
      var copy := Min(f.dataLen, PAYLOAD_MAX - f.offset);
      PreviewGrows(p, Content(f));
      assert Content(f)[..copy] == f.data.value[..copy];
      CopyDisplayed(f.offset, f.data.value[..copy]);
    }

    method StoreRaw(f: Fragment, ghost p: seq<byte>)
      requires receiveBytes.Length == COPY_MAX && HoldsRaw(p)
      requires WellShaped(f) && Readable(f) && f.dataLen > 0 && |p| == f.offset < COPY_MAX
      modifies receiveBytes
      ensures HoldsRaw(p + Content(f))
    {
      var at: nat := f.offset;
      var raw := Min(f.dataLen, COPY_MAX - at);
      PrefixAppend(p, Content(f), COPY_MAX);
      assert Prefix(p, COPY_MAX) == p && Prefix(Content(f), COPY_MAX - at) == Content(f)[..raw];
      hide Prefix;
      assert receiveBytes[..at] == p;
      forall i | 0 <= i < raw { receiveBytes[at + i] := f.data.value[i]; }
      assert receiveBytes[..at] == p && receiveBytes[at..at + raw] == Content(f)[..raw];
      assert receiveBytes[..at + raw] == receiveBytes[..at] + receiveBytes[at..at + raw];
    }

    /** Beyond a buffer's end, or without data, there is nothing to store. */
    lemma NothingToStore(p: seq<byte>, c: seq<byte>)
      requires payload.Length == PAYLOAD_MAX + 1 && receiveBytes.Length == COPY_MAX
      ensures HoldsPreview(p) && (c == [] || |p| >= PAYLOAD_MAX) ==> HoldsPreview(p + c)
      ensures HoldsRaw(p) && (c == [] || |p| >= COPY_MAX) ==> HoldsRaw(p + c)
    {
      PrefixAppend(p, c, PAYLOAD_MAX);
      PrefixAppend(p, c, COPY_MAX);
      if c == [] { assert p + c == p; }
    }

    /** Copies this fragment's bytes to their place in the preview and in the exact copy. */
    method Store(f: Fragment, ghost p: seq<byte>)
      requires payload.Length == PAYLOAD_MAX + 1 && receiveBytes.Length == COPY_MAX && payload != receiveBytes
      requires WellShaped(f) && Readable(f) && f.offset == offset && HoldsBytes(p)
      modifies payload, receiveBytes, this`offset
      ensures HoldsBytes(p + Content(f))
    {
      hide HoldsPreview, HoldsRaw;
      NothingToStore(p, Content(f));
      if f.data.Some? && f.dataLen > 0 && f.offset < PAYLOAD_MAX {
        StorePreview(f, p);
        if f.offset < COPY_MAX {
          StoreRaw(f, p);
        }
      }
      offset := f.offset + f.dataLen;
    }

    /** Starts a message: the header fields of its first fragment, and empty buffers. */
    method Begin(f: Fragment)
      requires payload.Length == PAYLOAD_MAX + 1 && receiveBytes.Length == COPY_MAX && payload != receiveBytes
      requires Opens(f) && Readable(f)
      modifies payload, this`message, this`active, this`offset, this`id
      ensures active && id == f.id && offset == 0 && HoldsBytes([])
      ensures Tiles([f]) && message == Expected([f]).(preview := [])
    {
      forall i | 0 <= i < payload.Length { payload[i] := 0; }
      var topic, preview := CopyReceivedTopic(f.topic.value, f.topicLen);
      message := Message(f.retain, f.qos, f.total, f.total > PAYLOAD_MAX, topic, preview, []);
      active, offset, id := true, 0, f.id;
    }

    lemma Continues(before: seq<Fragment>, f: Fragment)
      requires before == Segment(history) && Valid()
      ensures BearsTopic(f) ==> Segment(history + [f]) == [f] && (Tiles([f]) <==> Opens(f))
      ensures !BearsTopic(f) ==>
        (Tiles(Segment(history + [f])) <==>
          active && WellShaped(f) && f.dataLen > 0 && f.offset == Extent(before) && SameMessage(before[0], f))
      ensures !BearsTopic(f) && before != [] ==> Segment(history + [f]) == before + [f]
    {
      assert (history + [f])[..|history|] == history;
      if !BearsTopic(f) && before != [] {
        TilesExtends(before, f);
        if Tiles(before) { TilesBounded(before); }
      }
    }

    lemma SegmentShape(seg: seq<Fragment>)
      requires seg == Segment(history) && forall f :: f in history ==> Readable(f)
      ensures forall f :: f in seg ==> Readable(f)
      ensures Tiles(seg) ==> forall f :: f in seg ==> WellShaped(f)
    {
      SegmentReadable(history);
      if Tiles(seg) {
        forall f | f in seg ensures WellShaped(f) { TilesShape(seg, f); }
      }
    }

    /** The checks of handle_data and the buffering of an accepted fragment. */
    method Absorb(f: Fragment) returns (accepted: bool)
      requires Valid() && Readable(f)
      modifies this`active, this`offset, this`id, this`message, this`history, payload, receiveBytes
      ensures history == old(history) + [f] && (forall g :: g in history ==> Readable(g))
      ensures accepted <==> Tiles(Segment(history))
      ensures accepted ==> Holds(Segment(history))
      ensures active == accepted
    {
      hide Expected, HoldsBytes, Payload, Tiles, Segment, Extent, Content;
      ghost var before := Segment(history);
      Continues(before, f);
      SegmentShape(before);
      if active { ActiveFields(before); }
      history := history + [f];
      ghost var seg := Segment(history);
      SegmentShape(seg);
      if !(f.offset >= 0 && f.total >= 0 && f.dataLen >= 0 && f.topicLen >= 0 && f.id >= 0 && 0 <= f.qos <= 2 &&
           f.offset <= f.total && f.dataLen <= f.total - f.offset && (f.dataLen != 0 ==> f.data.Some?)) {
        active, offset := false, 0;
        return false;
      }
      var first := f.topic.Some? || f.topicLen != 0;
      if first {
        if f.offset != 0 || f.topic.None? || f.topicLen == 0 {
          active, offset := false, 0;
          return false;
        }
        Begin(f);
        Store(f, []);
        FirstPayload(f);
      } else {
        if !active || f.dataLen == 0 || offset != f.offset || message.total != f.total || id != f.id ||
           message.qos != f.qos || message.retained != f.retain {
          active, offset := false, 0;
          return false;
        }
        Store(f, Payload(before));
        NextPayload(before, f);
      }
      return true;
    }

    lemma ActiveFields(before: seq<Fragment>)
      requires Valid() && active && before == Segment(history)
      requires forall f :: f in before ==> WellShaped(f) && Readable(f)
      ensures before != [] && Tiles(before) && HoldsBytes(Payload(before))
      ensures offset == Extent(before) && id == before[0].id && message == Expected(before).(preview := [])
      ensures message.total == before[0].total && message.qos == before[0].qos && message.retained == before[0].retain
    {
    }

    lemma FirstPayload(f: Fragment)
      requires WellShaped(f) && Readable(f)
      ensures Payload([f]) == [] + Content(f)
    {
      assert [f][..0] == [] && Payload([]) == [];
    }

    lemma NextPayload(before: seq<Fragment>, f: Fragment)
      requires Tiles(before + [f]) && forall g :: g in before + [f] ==> WellShaped(g) && Readable(g)
      requires before != [] && Tiles(before)
      ensures Payload(before + [f]) == Payload(before) + Content(f)
      ensures Expected(before + [f]).(preview := []) == Expected(before).(preview := [])
    {
      assert (before + [f])[..|before|] == before;
    }

    /** handle_data: the message published by this event, if any. */
    method HandleData(f: Fragment) returns (published: Option<Message>)
      requires Valid() && Readable(f)
      modifies this, payload, receiveBytes
      ensures Valid() && history == old(history) + [f]
      ensures published.Some? <==> Whole(Segment(history))
      ensures published.None? ==> latest == old(latest)
      ensures published.Some? ==>
        var seg := Segment(history);
        && (forall g :: g in seg ==> WellShaped(g) && Readable(g))
        && published.value == Expected(seg)
        && latest == Copy(true, seg[0].retain, published.value.topicPreview, seg[0].qos, seg[0].total,
                          old(latest).revision + 1, published.value.topic,
                          if seg[0].total <= 128 then Payload(seg) else [])
    {
      hide Segment;
      published := None;
      var accepted := Absorb(f);
      if !accepted { return; }
      TilesBounded(Segment(history));
      if offset == message.total {
        active := false;
        var shown := payload[..Min(offset, PAYLOAD_MAX)];
        published := Some(message.(preview := shown));
        latest := Copy(true, message.retained, message.topicPreview, message.qos, message.total, latest.revision + 1,
                       message.topic, if message.total <= COPY_MAX then receiveBytes[..message.total] else []);
      }
    }

    lemma SegmentReadable(h: seq<Fragment>)
      requires forall f :: f in h ==> Readable(f)
      ensures forall f :: f in Segment(h) ==> Readable(f)
    {
    }
  }
}
