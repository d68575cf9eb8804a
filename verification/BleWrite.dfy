/** Writing a characteristic from the BLE explorer: the first tap arms, a second one within five
    seconds sends, and everything that changes what would be sent disarms. */
module BleWrite {
  import opened Bytes
  import ByteData

  const WRITE_MAX: nat := 64
  const CHARACTERISTIC_MAX: nat := 32
  const CONFIRM_MS: nat := 5000
  const TICKS: nat := 0x1_0000_0000

  // ---- The bytes to write ------------------------------------------------------------------

  function WordLength(text: seq<byte>): (n: nat)
    ensures n <= |text| && (text != [] && text[0] != SP ==> n > 0)
  {
    if text == [] || text[0] == SP then 0 else 1 + WordLength(text[1..])
  }

  /** The text between spaces. */
  function Words(text: seq<byte>): seq<seq<byte>>
    decreases |text|
  {
    if text == [] then []
    else if text[0] == SP then Words(text[1..])
    else [text[..WordLength(text)]] + Words(text[WordLength(text)..])
  }

  predicate HexPair(word: seq<byte>) { |word| == 2 && HexNibble(word[0]).Some? && HexNibble(word[1]).Some? }

  function PairValue(word: seq<byte>): byte
    requires HexPair(word)
  {
    HexNibble(word[0]).value * 16 + HexNibble(word[1]).value
  }

  predicate AllPairs(words: seq<seq<byte>>) { forall i :: 0 <= i < |words| ==> HexPair(words[i]) }

  function PairValues(words: seq<seq<byte>>): (r: seq<byte>)
    requires AllPairs(words)
    ensures |r| == |words|
  {
    seq(|words|, i requires 0 <= i < |words| => PairValue(words[i]))
  }

  predicate Writable(text: seq<byte>) { AllPairs(Words(text)) && 1 <= |Words(text)| <= WRITE_MAX }

  lemma LeadingPair(rest: seq<byte>)
    requires rest != [] && rest[0] != SP
    ensures Words(rest) != []
    ensures |rest| >= 2 && HexNibble(rest[0]).Some? && HexNibble(rest[1]).Some? && (|rest| == 2 || rest[2] == SP) ==>
              Words(rest) == [rest[..2]] + Words(rest[2..])
    ensures !(|rest| >= 2 && HexNibble(rest[0]).Some? && HexNibble(rest[1]).Some? && (|rest| == 2 || rest[2] == SP)) ==>
              !HexPair(Words(rest)[0])
  {
    var n := WordLength(rest);
    assert WordLength(rest) == 1 + WordLength(rest[1..]);
    if |rest| >= 2 && rest[1] != SP {
      assert rest[1..][1..] == rest[2..];
      assert WordLength(rest[1..]) == 1 + WordLength(rest[2..]);
    }
  }

  /** parse_hex: exactly one to 64 two-digit words, whatever the spaces around them. */
  method ParseHex(text: seq<byte>) returns (value: Option<seq<byte>>)
    ensures value.Some? <==> Writable(text)
    ensures value.Some? ==> value.value == PairValues(Words(text))
  {
    hide WordLength, HexNibble;
    var output := [];
    var at := 0;
    ghost var done := [];
    while at < |text|
      invariant at <= |text| && |output| <= WRITE_MAX
      invariant Words(text) == done + Words(text[at..])
      invariant AllPairs(done) && output == PairValues(done)
    {
      while at < |text| && text[at] == SP
        invariant at <= |text| && Words(text) == done + Words(text[at..])
        decreases |text| - at
      {
        assert text[at..][1..] == text[at + 1..];
        at := at + 1;
      }
      if at == |text| { break; }
      ghost var rest := text[at..];
      LeadingPair(rest);
      assert Words(text)[|done|] == Words(rest)[0];
      var high, low := HexNibble(text[at]), None;
      at := at + 1;
      if at < |text| { low := HexNibble(text[at]); at := at + 1; }
      if high.None? || low.None? || |output| == WRITE_MAX { return None; }
      if at < |text| && text[at] != SP { return None; }
      assert rest[2..] == text[at..];
      output := output + [high.value * 16 + low.value];
      done := done + [rest[..2]];
    }
    assert text[at..] == [];
    return if output == [] then None else Some(output);
  }

  lemma PrintedPair(b: byte, tail: seq<byte>)
    requires tail == [] || tail[0] == SP
    ensures var text := ByteData.HexPair(b) + tail;
      Words(text) == [ByteData.HexPair(b)] + Words(tail)
    ensures HexPair(ByteData.HexPair(b)) && PairValue(ByteData.HexPair(b)) == b
  {
    var pair := ByteData.HexPair(b);
    assert 16 * (b / 16) + b % 16 == b;
    LeadingPair(pair + tail);
    assert (pair + tail)[..2] == pair && (pair + tail)[2..] == tail;
  }

  lemma PairsJoin(word: seq<byte>, words: seq<seq<byte>>)
    requires HexPair(word) && AllPairs(words)
    ensures AllPairs([word] + words) && PairValues([word] + words) == [PairValue(word)] + PairValues(words)
  {
    hide PairValue, HexPair;
  }

  lemma SpaceSkipped(rest: seq<byte>)
    ensures Words([SP] + rest) == Words(rest)
  {
    assert ([SP] + rest)[1..] == rest;
  }

  /** The printed form of a byte and of those behind it. */
  lemma PrintedFirst(bytes: seq<byte>) returns (tail: seq<byte>)
    requires bytes != []
    ensures ByteData.HexText(bytes) == ByteData.HexPair(bytes[0]) + tail && (tail == [] || tail[0] == SP)
    ensures Words(tail) == Words(ByteData.HexText(bytes[1..]))
  {
    hide Words, ByteData.HexPair;
    var rest := ByteData.HexText(bytes[1..]);
    tail := if |bytes| == 1 then [] else [SP] + rest;
    if |bytes| > 1 { SpaceSkipped(rest); }
  }

  /** What the clipboard prints is taken byte for byte: pairs, high digit first, a space between them. */
  lemma {:induction false} PrintedWords(bytes: seq<byte>)
    ensures PrintedTaken(bytes)
    decreases |bytes|
  {
    if bytes != [] {
      hide HexPair, PairValue, AllPairs, PairValues, Words, ByteData.HexPair, ByteData.HexText;
      var b := bytes[0];
      var tail := PrintedFirst(bytes);
      PrintedPair(b, tail);
      PrintedWords(bytes[1..]);
      PairsJoin(ByteData.HexPair(b), Words(tail));
      assert bytes == [b] + bytes[1..];
    }
  }

  /** Any one to 64 bytes can be written from their printed form. */
  lemma PrintedIsWritable(bytes: seq<byte>)
    ensures Writable(ByteData.HexText(bytes)) <==> 1 <= |bytes| <= 64
    ensures PrintedTaken(bytes)
  {
    PrintedWords(bytes);
  }

  predicate PrintedTaken(bytes: seq<byte>) {
    AllPairs(Words(ByteData.HexText(bytes))) && PairValues(Words(ByteData.HexText(bytes))) == bytes
  }

  /** confirmation_valid. */
  predicate ConfirmationValid(armed: bool, armedHandle: nat, handle: nat, armedValue: seq<byte>, value: seq<byte>,
      armedAt: nat, now: nat) {
    armed && armedHandle == handle && armedValue == value && (now - armedAt) % TICKS <= CONFIRM_MS
  }

  // ---- What a run leaves behind ------------------------------------------------------------

  /** A write as handed to the stack; `epoch` counts the connections made so far. */
  datatype Write = Write(epoch: nat, connection: nat, handle: nat, value: seq<byte>)

  /** Disarmed: selection, back, copy, an accepted read, expiry, leaving or entering the screen, or a
      new connection. LinkDown: a disconnection, which disarms too. */
  datatype Mark =
    | Armed(epoch: nat, handle: nat, value: seq<byte>, at: nat)
    | Disarmed | LinkDown
    | Confirmed(write: Write, now: nat)
    | Issued(write: Write, up: bool)

  predicate OnlyLinkDown(trace: seq<Mark>, lo: nat, hi: nat)
    requires hi <= |trace|
  {
    forall k :: lo <= k < hi ==> trace[k].LinkDown?
  }

  /** Armed by the mark just before, with the same bytes for the same handle, at most 5 s earlier. */
  predicate WellConfirmed(trace: seq<Mark>, i: nat)
    requires i < |trace| && trace[i].Confirmed?
  {
    && i > 0 && trace[i - 1].Armed?
    && var w, tap := trace[i].write, trace[i - 1];
       && tap.epoch == w.epoch && tap.handle == w.handle && tap.value == w.value
       && (trace[i].now - tap.at) % TICKS <= CONFIRM_MS
  }

  predicate Decides(trace: seq<Mark>, i: nat, hi: nat, w: Write)
    requires hi <= |trace|
  {
    i < hi && trace[i].Confirmed? && trace[i].write == w && OnlyLinkDown(trace, i + 1, hi)
  }

  /** The decision whose write this is; the link was never down since exactly when it is up now. */
  predicate Settles(trace: seq<Mark>, i: nat, hi: nat, w: Write, up: bool)
    requires hi <= |trace|
  {
    Decides(trace, i, hi, w) && (up <==> i + 1 == hi)
  }

  ghost predicate WellIssued(trace: seq<Mark>, j: nat)
    requires j < |trace| && trace[j].Issued?
  {
    exists i :: Settles(trace, i, j, trace[j].write, trace[j].up)
  }

  lemma TapConfirms(trace: seq<Mark>, w: Write, now: nat)
    requires trace != [] && trace[|trace| - 1].Armed?
    requires var tap := trace[|trace| - 1];
      tap.epoch == w.epoch && tap.handle == w.handle && tap.value == w.value && (now - tap.at) % TICKS <= CONFIRM_MS
    ensures var after := trace + [Confirmed(w, now)];
      WellConfirmed(after, |trace|) && Settles(after, |trace|, |after|, w, true)
  {
  }

  ghost predicate Earned(trace: seq<Mark>) {
    && (forall i :: 0 <= i < |trace| && trace[i].Confirmed? ==> WellConfirmed(trace, i))
    && (forall j :: 0 <= j < |trace| && trace[j].Issued? ==> WellIssued(trace, j))
  }

  lemma EarnedAppend(trace: seq<Mark>, m: Mark)
    requires Earned(trace)
    requires m.Confirmed? ==> WellConfirmed(trace + [m], |trace|)
    requires m.Issued? ==> exists i :: Settles(trace, i, |trace|, m.write, m.up)
    ensures Earned(trace + [m])
  {
    var after := trace + [m];
    forall i | 0 <= i < |after| && after[i].Confirmed? ensures WellConfirmed(after, i) {
      if i < |trace| { assert WellConfirmed(trace, i); }
    }
    forall j | 0 <= j < |after| && after[j].Issued? ensures WellIssued(after, j) {
      if j < |trace| {
        assert WellIssued(trace, j);
        var i :| Settles(trace, i, j, trace[j].write, trace[j].up);
        assert Settles(after, i, j, after[j].write, after[j].up);
      } else {
        var i :| Settles(trace, i, |trace|, m.write, m.up);
        assert Settles(after, i, j, m.write, m.up);
      }
    }
  }

  /** Main result: every write issued goes back to a tap that armed the same bytes for the same handle
      on the same connection, at most five seconds before the tap that decided it. Nothing at all comes
      between the arming and the call but the decision exactly when the link is up at the call; if it is
      not, the link was lost after the decision, and nothing else happened. */
  lemma WritesAreArmed(trace: seq<Mark>, j: nat) returns (i: nat)
    requires Earned(trace) && j < |trace| && trace[j].Issued?
    ensures 0 < i < j && Decides(trace, i, j, trace[j].write)
    ensures trace[i - 1].Armed? && trace[i - 1].epoch == trace[j].write.epoch
    ensures trace[i - 1].handle == trace[j].write.handle && trace[i - 1].value == trace[j].write.value
    ensures (trace[i].now - trace[i - 1].at) % 0x1_0000_0000 <= 5000
    ensures trace[j].up <==> i == j - 1
    ensures trace[j].up <==> forall k :: i < k < j ==> !trace[k].LinkDown?
    ensures forall k :: i <= k < j ==> !trace[k].Disarmed? && !trace[k].Armed? && !trace[k].Issued?
  {
    assert WellIssued(trace, j);
    i :| Settles(trace, i, j, trace[j].write, trace[j].up);
    assert WellConfirmed(trace, i);
    if i + 1 < j { assert trace[i + 1].LinkDown?; }
  }

  /** Main result: one arming tap pays for one write; between two writes there is another. */
  lemma OneTapOneWrite(trace: seq<Mark>, j: nat, k: nat) returns (i: nat)
    requires Earned(trace) && j < k < |trace| && trace[j].Issued? && trace[k].Issued?
    ensures j < i < k && trace[i].Armed? && trace[i].value == trace[k].write.value &&
      trace[i].handle == trace[k].write.handle
  {
    var c := WritesAreArmed(trace, k);
    assert trace[j].Issued?;
    i := c - 1;
  }

  // ---- The explorer ------------------------------------------------------------------------

  datatype Characteristic = Characteristic(valHandle: nat, readable: bool, writable: bool)

  const NO_CONNECTION: nat := 0xffff

  /** Where the screen's task is inside a handler. `c`, `connection` and `epoch` are its snapshot. */
  datatype Handler =
    | Idle
    | Dialing
    | Tapped(c: Characteristic, connection: nat, epoch: nat)
    | Sending(write: Write, decided: nat)

  class Explorer {
    var available: bool
    var screenActive: bool
    var connecting: bool
    var connected: bool
    var stopping: bool
    var busy: bool
    var connection: nat
    var characteristics: seq<Characteristic>
    var selected: int
    var armed: bool
    var armedAt: nat
    var armedHandle: nat
    var armedLength: nat
    const armedValue: array<byte>

    ghost var attempt: bool      // the stack owes a CONNECT event
    ghost var epoch: nat
    ghost var handler: Handler
    ghost var trace: seq<Mark>

    ghost predicate Valid()
      reads this, armedValue
    {
      && armedValue.Length == WRITE_MAX && armedLength <= WRITE_MAX
      && (connected || handler.Tapped? || handler.Sending? ==> !attempt)
      && (handler.Tapped? ==> handler.epoch == epoch && (armed ==> connected))
      && (armed ==> trace != [] && trace[|trace| - 1] == Armed(epoch, armedHandle, armedValue[..armedLength], armedAt))
      && (handler.Sending? ==>
           !armed && handler.write.epoch == epoch && Settles(trace, handler.decided, |trace|, handler.write, connected))
      && Earned(trace)
    }

    constructor ()
      ensures Valid() && handler == Idle && trace == [] && !connected && !screenActive && fresh(armedValue)
      ensures !connecting && !stopping && !available && !attempt && !busy && epoch == 0 && characteristics == []
    {
      armedValue := new byte[WRITE_MAX](_ => 0);
      available, screenActive, connecting, connected, stopping, busy := false, false, false, false, false, false;
      connection, characteristics, selected := NO_CONNECTION, [], -1;
      armed, armedAt, armedHandle, armedLength := false, 0, 0, 0;
      attempt, epoch, handler, trace := false, 0, Idle, [];
    }

    // The screen's handlers; each starts when the one before has ended.

    method Show(available: bool)
      requires Valid() && handler.Idle?
      modifies this
      ensures Valid() && !armed && trace == old(trace) + [Disarmed] && handler == Idle
      ensures screenActive && this.available == available
      ensures unchanged(this`connecting, this`connected, this`stopping, this`connection, this`attempt, this`epoch,
        this`busy)
    {
      screenActive, this.available, armed := true, available, false;
      trace := Extended(trace, Disarmed);
    }

    /** Leaving the screen: what is connecting or connected is torn down. */
    method Leave() returns (cancel: bool, terminate: bool)
      requires Valid() && handler.Idle?
      modifies this
      ensures Valid() && !armed && trace == old(trace) + [Disarmed] && handler == Idle && !screenActive
      ensures cancel == connecting && terminate == (connected && !connecting) && stopping == (connecting || connected)
      ensures unchanged(this`connecting, this`connected, this`connection, this`attempt, this`epoch)
    {
      screenActive, armed := false, false;
      stopping := connecting || connected;
      trace := Extended(trace, Disarmed);
      return connecting, connected && !connecting;
    }

    method Dial(deviceChosen: bool)
      requires Valid() && handler.Idle?
      modifies this`connecting, this`handler
      ensures Valid() && (handler.Dialing? <==>
        available && deviceChosen && !old(connecting) && !connected && !stopping)
      ensures handler.Dialing? || handler.Idle?
      ensures connecting == (old(connecting) || handler.Dialing?)
    {
      if !available || !deviceChosen || connecting || connected || stopping { return; }
      connecting, handler := true, Dialing;
    }

    /** The stack takes one connect procedure at a time; `ok` is its answer. */
    method Dialed(ok: bool)
      requires Valid() && handler.Dialing? && (ok ==> !attempt && !connected)
      modifies this`connecting, this`attempt, this`handler
      ensures Valid() && handler == Idle && attempt == (old(attempt) || ok) && connecting == (old(connecting) && ok)
    {
      if ok { attempt := true; } else { connecting := false; }
      handler := Idle;
    }

    method HangUp() returns (terminate: bool)
      requires Valid() && handler.Idle?
      modifies this`stopping
      ensures Valid() && terminate == (connected && !old(stopping)) && stopping == (old(stopping) || connected)
    {
      terminate := connected && !stopping;
      if terminate { stopping := true; }
    }

    method SelectCharacteristic(index: int)
      requires Valid() && handler.Idle?
      modifies this`selected, this`armed, this`trace
      ensures Valid() && !armed && trace == old(trace) + [Disarmed]
      ensures selected == if 0 <= index < |characteristics| then index else old(selected)
    {
      if 0 <= index < |characteristics| { selected := index; }
      armed := false;
      trace := Extended(trace, Disarmed);
    }

    method Back()
      requires Valid() && handler.Idle?
      modifies this`selected, this`armed, this`trace
      ensures Valid() && !armed && trace == old(trace) + [Disarmed] && selected == -1
    {
      selected, armed := -1, false;
      trace := Extended(trace, Disarmed);
    }

    method CopyValue()
      requires Valid() && handler.Idle?
      modifies this`armed, this`trace
      ensures Valid() && !armed && trace == old(trace) + [Disarmed]
    {
      armed := false;
      trace := Extended(trace, Disarmed);
    }

    method Tick(now: nat)
      requires Valid() && handler.Idle?
      modifies this`armed, this`trace
      ensures Valid()
      ensures if old(armed) && (now - armedAt) % TICKS > CONFIRM_MS then !armed && trace == old(trace) + [Disarmed]
              else armed == old(armed) && trace == old(trace)
    {
      if armed && (now - armedAt) % TICKS > CONFIRM_MS {
        armed := false;
        trace := Extended(trace, Disarmed);
      }
    }

    /** selected_characteristic_snapshot, the first critical section of a read or write tap. */
    method Snapshot()
      requires Valid() && handler.Idle?
      modifies this`handler
      ensures Valid()
      ensures handler == if connected && !stopping && 0 <= selected < |characteristics|
                         then Tapped(characteristics[selected], connection, epoch) else Idle
    {
      if connected && !stopping && 0 <= selected < |characteristics| {
        handler := Tapped(characteristics[selected], connection, epoch);
      }
    }

    /** The rest of a read tap, up to the call. */
    method DecideRead(c: Characteristic) returns (start: bool)
      requires Valid() && handler.Tapped? && c == handler.c
      modifies this`handler, this`busy, this`armed, this`trace
      ensures Valid() && handler == Idle && start == (c.readable && !old(busy)) && busy == (old(busy) || start)
      ensures if start then !armed && trace == old(trace) + [Disarmed] else armed == old(armed) && trace == old(trace)
    {
      handler := Idle;
      start := c.readable && !busy;
      if start {
        busy, armed := true, false;
        trace := Extended(trace, Disarmed);
      }
    }

    /** Whether this tap repeats, in time, the tap that armed. */
    ghost predicate Confirms(c: Characteristic, text: seq<byte>, now: nat)
      reads this, armedValue
      requires armedLength <= armedValue.Length
    {
      && Writable(text) && c.writable
      && ConfirmationValid(armed, armedHandle, c.valHandle, armedValue[..armedLength], PairValues(Words(text)),
        armedAt, now)
    }

    method Arm(handle: nat, value: seq<byte>, now: nat)
      requires Valid() && handler.Idle? && |value| <= WRITE_MAX
      modifies this`armed, this`armedAt, this`armedHandle, this`armedLength, this`trace, armedValue
      ensures Valid() && armed && trace == old(trace) + [Armed(epoch, handle, value, now)]
      ensures armedHandle == handle && armedAt == now && armedValue[..armedLength] == value
    {
      hide Earned;
      trace := Extended(trace, Armed(epoch, handle, value, now));
      armed, armedAt, armedHandle, armedLength := true, now, handle, |value|;
      forall i | 0 <= i < |value| { armedValue[i] := value[i]; }
    }

    /** The second critical section of a write tap: send exactly when the tap confirms and nothing else
        is going on, arm exactly when it asks for a write it does not confirm, else change nothing. */
    method DecideWrite(c: Characteristic, conn: nat, text: seq<byte>, now: nat)
        returns (value: Option<seq<byte>>, send: bool)
      requires Valid() && handler == Tapped(c, conn, epoch) && now < TICKS
      modifies this, armedValue
      ensures Valid()
      ensures send <==> old(Confirms(c, text, now)) && !old(busy)
      ensures send ==>
        && value == Some(PairValues(Words(text))) && busy && !armed
        && handler == Sending(Write(epoch, conn, c.valHandle, value.value), |old(trace)|)
        && trace == old(trace) + [Confirmed(handler.write, now)]
      ensures !send ==> handler == Idle && busy == old(busy)
      ensures Writable(text) && c.writable && !old(Confirms(c, text, now)) ==>
        && value == Some(PairValues(Words(text))) && armed
        && armedHandle == c.valHandle && armedAt == now && armedValue[..armedLength] == value.value
        && trace == old(trace) + [Armed(epoch, c.valHandle, value.value, now)]
      ensures !send && (!Writable(text) || !c.writable || old(Confirms(c, text, now))) ==>
        value.None? && trace == old(trace) && armed == old(armed)
      ensures unchanged(this`connected, this`connecting, this`stopping, this`connection, this`epoch, this`attempt,
        this`selected, this`characteristics)
    {
      hide Earned, Words, AllPairs, Settles, WellConfirmed;
      send := false;
      value := ParseHex(text);
      handler := Idle;
      if value.None? || !c.writable { return None, false; }
      var bytes := value.value;
      if !ConfirmationValid(armed, armedHandle, c.valHandle, armedValue[..armedLength], bytes, armedAt, now) {
        Arm(c.valHandle, bytes, now);
        return;
      }
      if busy { return None, false; }
      ghost var w := Write(epoch, conn, c.valHandle, bytes);
      ghost var before := trace;
      TapConfirms(before, w, now);
      trace := Extended(before, Confirmed(w, now));
      armed, busy, send := false, true, true;
      handler := Sending(w, |before|);
    }

    /** The call itself, made outside the lock with the snapshot's connection and handle. */
    method CallStack(conn: nat, handle: nat, value: seq<byte>)
      requires Valid() && handler.Sending? && handler.write == Write(epoch, conn, handle, value)
      modifies this`trace, this`handler
      ensures Valid() && handler == Idle && trace == old(trace) + [Issued(Write(epoch, conn, handle, value), connected)]
      ensures |old(trace)| > 0 && (connected <==> old(trace)[|old(trace)| - 1].Confirmed?)
    {
      trace := Extended(trace, Issued(handler.write, connected));
      handler := Idle;
    }

    /** reset_connection_data_locked. */
    method ResetConnectionData(ghost m: Mark)
      requires Earned(trace) && (m.Disarmed? || m.LinkDown?)
      modifies this`characteristics, this`selected, this`armed, this`busy, this`trace
      ensures characteristics == [] && selected == -1 && !armed && !busy
      ensures Earned(trace) && trace == old(trace) + [m]
    {
      characteristics, selected, armed, busy := [], -1, false, false;
      trace := Extended(trace, m);
    }

    // The stack's callbacks, at any time.

    method ConnectEvent(ok: bool, conn: nat)
      requires Valid() && attempt
      modifies this
      ensures Valid() && !attempt && handler == old(handler) && !connecting
      ensures connected == (ok && old(screenActive && !stopping)) && stopping == (ok && !connected)
      ensures connection == (if ok then conn else NO_CONNECTION) && busy == (old(busy) && !ok)
      ensures if ok then epoch == old(epoch) + 1 && !armed && characteristics == [] && trace == old(trace) + [Disarmed]
              else epoch == old(epoch) && armed == old(armed) && trace == old(trace)
    {
      hide Earned, Settles;
      connecting, connected, attempt := false, screenActive && !stopping && ok, false;
      connection, stopping := if ok then conn else NO_CONNECTION, ok && !connected;
      if ok {
        ResetConnectionData(Disarmed);
        epoch := epoch + 1;
      }
    }

    method DisconnectEvent()
      requires Valid()
      modifies this
      ensures Valid() && !connected && !connecting && !stopping && !busy && !armed && connection == NO_CONNECTION
      ensures characteristics == [] && trace == old(trace) + [LinkDown]
      ensures handler == old(handler) && epoch == old(epoch) && attempt == old(attempt) &&
        screenActive == old(screenActive)
    {
      hide Earned;
      connecting, connected, stopping, connection := false, false, false, NO_CONNECTION;
      ResetConnectionData(LinkDown);
    }

    method CharacteristicFound(conn: nat, c: Characteristic)
      requires Valid()
      modifies this`characteristics
      ensures Valid()
      ensures characteristics == old(characteristics) +
        if connected && connection == conn && |old(characteristics)| < CHARACTERISTIC_MAX then [c] else []
    {
      if connected && connection == conn && |characteristics| < CHARACTERISTIC_MAX {
        characteristics := characteristics + [c];
      }
    }

    /** Any callback or failure that ends an operation; discovery can end one it did not start. */
    method OperationEnded()
      requires Valid()
      modifies this`busy
      ensures Valid() && !busy
    {
      busy := false;
    }
  }

  ghost function Extended(trace: seq<Mark>, m: Mark): (after: seq<Mark>)
    requires Earned(trace)
    requires m.Confirmed? ==> WellConfirmed(trace + [m], |trace|)
    requires m.Issued? ==> exists i :: Settles(trace, i, |trace|, m.write, m.up)
    ensures after == trace + [m] && Earned(after)
  {
    EarnedAppend(trace, m);
    trace + [m]
  }

  /** A connected explorer with its one characteristic selected. */
  method Connected(c: Characteristic) returns (e: Explorer)
    ensures fresh(e) && fresh(e.armedValue) && e.Valid() && e.handler == Idle && !e.busy && !e.armed
    ensures e.connected && !e.stopping && e.selected == 0 && e.characteristics == [c] && e.connection == 7
  {
    hide Earned, Settles;
    e := new Explorer();
    e.Show(true);
    e.Dial(true);
    e.Dialed(true);
    e.ConnectEvent(true, 7);
    e.CharacteristicFound(7, c);
    e.SelectCharacteristic(0);
  }

  /** The same, armed by a first tap. */
  method FirstTap(c: Characteristic, text: seq<byte>, now: nat) returns (e: Explorer)
    requires c.writable && Writable(text) && now < TICKS
    ensures fresh(e) && fresh(e.armedValue) && e.Valid() && e.handler == Idle && !e.busy && e.armed
    ensures e.armedAt == now && e.armedHandle == c.valHandle && e.armedValue[..e.armedLength] == PairValues(Words(text))
    ensures e.connected && !e.stopping && e.selected == 0 && e.characteristics == [c] && e.connection == 7
  {
    hide Earned, Settles, Words, AllPairs;
    e := Connected(c);
    e.Snapshot();
    var value, sent := e.DecideWrite(c, 7, text, now);
  }

  /** Two taps at most five seconds apart, the clock wrapping or not, on any bytes that can be written:
      the second one is accepted. */
  method SecondTap(c: Characteristic, text: seq<byte>, first: nat, second: nat)
      returns (e: Explorer, bytes: seq<byte>)
    requires c.writable && Writable(text) && first < 0x1_0000_0000 && second < 0x1_0000_0000
    requires (second - first) % 0x1_0000_0000 <= 5000
    ensures fresh(e) && fresh(e.armedValue) && e.Valid() && e.connected && e.trace != []
    ensures bytes == PairValues(Words(text))
    ensures e.handler == Sending(Write(e.epoch, 7, c.valHandle, bytes), |e.trace| - 1)
    ensures e.trace[|e.trace| - 1] == Confirmed(e.handler.write, second)
  {
    hide Earned, Settles, Words, AllPairs;
    e := FirstTap(c, text, first);
    e.Snapshot();
    var value, sent := e.DecideWrite(c, 7, text, second);
    bytes := value.value;
  }

  /** The usual run: the write is issued, once, with the link up. */
  method WriteIssued(c: Characteristic, text: seq<byte>, first: nat, second: nat) returns (e: Explorer)
    requires c.writable && Writable(text) && first < 0x1_0000_0000 && second < 0x1_0000_0000
    requires (second - first) % 0x1_0000_0000 <= 5000
    ensures e.Valid() && e.trace != [] && e.handler == Idle
    ensures e.trace[|e.trace| - 1] == Issued(Write(e.epoch, 7, c.valHandle, PairValues(Words(text))), true)
  {
    hide Earned, Settles, Words, AllPairs;
    var bytes;
    e, bytes := SecondTap(c, text, first, second);
    e.CallStack(7, c.valHandle, bytes);
  }

  /** The one thing that can come between the decision and the call, on a concrete run: the link drops
      after the second tap was accepted, and the stack is still called with the old connection. */
  method LinkLostBeforeTheCall(c: Characteristic, text: seq<byte>) returns (e: Explorer)
    requires c.writable && Writable(text)
    ensures e.Valid() && !e.connected && |e.trace| >= 3
    ensures e.trace[|e.trace| - 3].Confirmed? && e.trace[|e.trace| - 2] == LinkDown
    ensures e.trace[|e.trace| - 1] == Issued(e.trace[|e.trace| - 3].write, false)
  {
    hide Earned, Settles, Words, AllPairs;
    var bytes;
    e, bytes := SecondTap(c, text, 100, 200);
    e.DisconnectEvent();
    e.CallStack(7, c.valHandle, bytes);
  }
}
