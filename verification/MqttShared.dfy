/** The MQTT state three tasks share under one lock, and what each critical section does to it. */
module MqttShared {
  import opened Bytes
  import Circular

  const MESSAGE_LIMIT: nat := 8
  const UINT_MAX: nat := 0xffff_ffff

  /** A client handle: the how-manyth client ever made, so a freed address reused is another handle. */
  type Handle = nat

  datatype Message = Message(
    timestamp: int, received: bool, retained: bool, truncated: bool, topicPreview: bool, qos: nat,
    payloadBytes: nat, topic: seq<byte>, payload: seq<byte>)

  datatype Entry = Entry(
    timestamp: int, received: bool, retained: bool, truncated: bool, topicPreview: bool, qos: nat,
    payloadBytes: nat, topic: seq<byte>)

  /** Metadata only: a log entry never carries the payload. */
  function EntryOf(m: Message): (e: Entry)
    ensures e.timestamp == m.timestamp && e.received == m.received && e.retained == m.retained
    ensures e.truncated == m.truncated && e.topicPreview == m.topicPreview && e.qos == m.qos
    ensures e.payloadBytes == m.payloadBytes && e.topic == m.topic
  {
    Entry(m.timestamp, m.received, m.retained, m.truncated, m.topicPreview, m.qos, m.payloadBytes, m.topic)
  }

  // ---- The two bounded queues ---------------------------------------------------------------

  datatype Queues = Queues(messages: seq<Message>, messagesDropped: nat, log: seq<Entry>, logDropped: nat)

  predicate Full<T>(q: seq<T>) { |q| >= MESSAGE_LIMIT }

  /** Append, letting go of the oldest when there is no room. */
  function Newest<T>(q: seq<T>, x: T): (r: seq<T>)
    ensures |r| <= |q| + 1 && (|q| <= MESSAGE_LIMIT ==> |r| <= MESSAGE_LIMIT)
  {
    (if Full(q) then q[1..] else q) + [x]
  }

  function WithEntry(q: Queues, e: Entry): Queues {
    q.(log := Newest(q.log, e), logDropped := if Full(q.log) then Min(q.logDropped + 1, UINT_MAX) else q.logDropped)
  }

  /** push_message_locked, on allocated rings. */
  function Pushed(q: Queues, m: Message, writeLog: bool): Queues {
    var shown := q.(
      messages := Newest(q.messages, m),
      messagesDropped := if Full(q.messages) then (q.messagesDropped + 1) % (UINT_MAX + 1) else q.messagesDropped);
    if writeLog then WithEntry(shown, EntryOf(m)) else shown
  }

  /** Both queues after these messages, one after another on empty ones. */
  function PushedAll(ms: seq<Message>, writeLog: bool): Queues {
    if ms == [] then Queues([], 0, [], 0) else Pushed(PushedAll(ms[..|ms| - 1], writeLog), ms[|ms| - 1], writeLog)
  }

  function LastEight<T>(s: seq<T>): seq<T> { s[if |s| > 8 then |s| - 8 else 0..] }

  function EntriesOf(ms: seq<Message>): (r: seq<Entry>)
    ensures |r| == |ms| && forall i :: 0 <= i < |ms| ==> r[i] == EntryOf(ms[i])
  {
    seq(|ms|, i requires 0 <= i < |ms| => EntryOf(ms[i]))
  }

  lemma NewestIsLast<T>(s: seq<T>, x: T)
    ensures Newest(LastEight(s), x) == LastEight(s + [x]) && (Full(LastEight(s)) <==> |s| >= 8)
  {
  }

  /** Of any number of messages the newest eight stay, in order, and the others are counted: in 32 bits that
      wrap for the history, in 32 bits that stick for the log. */
  lemma {:induction false} NewestEightStay(ms: seq<Message>, writeLog: bool)
    ensures var q, over := PushedAll(ms, writeLog), if |ms| > 8 then |ms| - 8 else 0;
      && q.messages == LastEight(ms) && q.messagesDropped == over % 0x1_0000_0000
      && q.log == (if writeLog then LastEight(EntriesOf(ms)) else [])
      && q.logDropped == (if writeLog then Min(over, 0xffff_ffff) else 0)
    decreases |ms|
  {
    hide LastEight, Newest, Full, EntryOf, EntriesOf;
    if ms == [] {
      NothingKept();
    } else {
      var init, last := ms[..|ms| - 1], ms[|ms| - 1];
      NewestEightStay(init, writeLog);
      assert ms == init + [last] && EntriesOf(ms) == EntriesOf(init) + [EntryOf(last)];
      NewestIsLast(init, last);
      NewestIsLast(EntriesOf(init), EntryOf(last));
      Counted(|ms|);
    }
  }

  lemma NothingKept()
    ensures LastEight<Message>([]) == [] && EntriesOf([]) == [] && LastEight<Entry>([]) == []
  {
  }

  lemma Counted(n: nat)
    ensures n > 8 ==> ((n - 9) % 0x1_0000_0000 + 1) % 0x1_0000_0000 == (n - 8) % 0x1_0000_0000
  {
  }

  // ---- The critical sections ----------------------------------------------------------------

  datatype Action = Action(client: Handle, publish: bool, message: Message)

  datatype Work = Act(action: Action) | Write(entry: Entry) | CleanUp(handle: Handle, started: bool) | Nothing

  /** `buffers` says whether the rings are allocated. */
  datatype Shared = Shared(
    client: Option<Handle>, started: bool,
    running: bool, stopping: bool, connected: bool, busy: bool,
    pending: Option<Action>,
    cleanup: Option<Handle>, cleanupStarted: bool, cleanupLog: bool, cleanupSd: bool,
    logging: bool, sdPresent: bool, logError: int, logReported: bool,
    buffers: bool, q: Queues)
  {
    /** Where a message now received or published would also be logged. */
    predicate Logs() {
      (if stopping then cleanupLog && cleanupSd else logging && sdPresent) && logError == 0
    }

    function PushMessage(m: Message): Shared {
      if buffers then this.(q := Pushed(q, m, Logs())) else this
    }

    predicate PushQueuesLog() { buffers && Logs() }

    /** Whether an action is accepted, and the state when it is. */
    predicate AcceptsAction() { client.Some? && running && connected && !stopping && !busy }

    function QueueAction(publish: bool, m: Message): Shared
      requires AcceptsAction()
    {
      this.(pending := Some(Action(client.value, publish, m)), busy := true)
    }

    function Selected(): Work {
      if pending.Some? then Act(pending.value)
      else if cleanup.Some? then CleanUp(cleanup.value, cleanupStarted)
      else if q.log != [] then Write(q.log[0])
      else Nothing
    }

    function Select(): Shared {
      this.(pending := None, q := q.(log := if Selected().Write? then q.log[1..] else q.log))
    }

    /** What notify_pending_work looks at. */
    predicate HasWork() { pending.Some? || cleanup.Some? || q.log != [] }

    function RecordLogError(error: int): Shared {
      this.(logError := if logError == 0 then error else logError, logging := false, cleanupLog := false,
            q := q.(log := []))
    }

    function ResetLog(): Shared { this.(logError := 0, logReported := false, q := q.(logDropped := 0)) }

    function FreeBuffers(): Shared {
      this.(buffers := false, q := Queues([], 0, [], q.logDropped))
    }

    function HandOver(): Shared {
      this.(cleanup := client, cleanupStarted := started, cleanupLog := logging, cleanupSd := sdPresent,
            client := None, started := false, stopping := true, connected := false, logging := false)
    }

    /** What opening the screen resets; a running session keeps its log's failure and count. */
    function Shown(sd: bool): Shared {
      var m := this.(sdPresent := sd, logging := false);
      if running then m else m.ResetLog()
    }

    /** The log button: a failed log stays off until the session ends. */
    function ToggleLog(): Shared {
      this.(logging := if running && logError != 0 then logging else !logging)
    }

    function Announce(): Shared { this.(running := true, connected := false) }

    function Abandon(): Shared { this.(running := false, stopping := false, connected := false) }

    function NetworkUp(): Shared { this.(connected := connected || !stopping) }

    function NetworkDown(): Shared { this.(connected := false) }

    function NetworkFailed(): Shared { this.(connected := connected && stopping) }

    function ActionDone(): Shared { this.(busy := false) }

    /** Whether the worker reports a failed append at once, and whether it does so after a cleanup. */
    predicate ReportsNow() { !stopping && !logReported }

    predicate ReportsAtEnd(error: int) { error != 0 && !logReported }

    function Reported(report: bool): Shared { this.(logReported := logReported || report) }

    function Finish(): Shared {
      this.(cleanup := None, cleanupStarted := false, cleanupLog := false, cleanupSd := false,
            running := false, stopping := false, connected := false)
    }
  }

  // ---- The code, on the static variables ----------------------------------------------------

  const ZERO_MESSAGE: Message := Message(0, false, false, false, false, 0, 0, [], [])

  datatype Flags = Flags(running: bool, stopping: bool, connected: bool, busy: bool, logging: bool)

  datatype CleanupSlot = CleanupSlot(client: Option<Handle>, started: bool, log: bool, sd: bool)

  const NO_CLEANUP: CleanupSlot := CleanupSlot(None, false, false, false)

  /** The used part of a ring. */
  datatype Span = Span(head: nat, count: nat)

  function Popped(s: Span): Span
    requires s.count > 0
  {
    Span((s.head + 1) % MESSAGE_LIMIT, s.count - 1)
  }

  /** The program's static variables; those set together are kept together. */
  class Session {
    var client: Option<Handle>
    var started: bool
    var flags: Flags
    var pending: Option<Action>
    var cleanup: CleanupSlot
    var sdPresent: bool
    var logError: int
    var logReported: bool
    var messageRing: array?<Message>
    var logRing: array?<Entry>
    var messages: Span
    var messagesDropped: nat
    var log: Span
    var logDropped: nat

    predicate MessagesOk()
      reads this`messageRing, this`messages
    {
      && messages.head < MESSAGE_LIMIT && messages.count <= MESSAGE_LIMIT
      && (if messageRing == null then messages.count == 0 else messageRing.Length == MESSAGE_LIMIT)
    }

    predicate LogOk()
      reads this`logRing, this`log
    {
      && log.head < MESSAGE_LIMIT && log.count <= MESSAGE_LIMIT
      && (if logRing == null then log.count == 0 else logRing.Length == MESSAGE_LIMIT)
    }

    /** Both rings are allocated, or neither is and both are empty. */
    predicate Valid()
      reads this
    {
      && MessagesOk() && LogOk() && (messageRing == null <==> logRing == null)
      && messagesDropped <= UINT_MAX && logDropped <= UINT_MAX
    }

    ghost function Messages(): seq<Message>
      reads this`messageRing, this`messages, messageRing
      requires MessagesOk()
    {
      if messageRing == null then [] else Circular.Contents(messageRing[..], messages.head, messages.count)
    }

    ghost function LogEntries(): (entries: seq<Entry>)
      reads this`logRing, this`log, logRing
      requires LogOk()
      ensures |entries| == log.count
    {
      if logRing == null then [] else Circular.Contents(logRing[..], log.head, log.count)
    }

    ghost function View(): Shared
      reads this, messageRing, logRing
      requires Valid()
    {
      Shared(client, started, flags.running, flags.stopping, flags.connected, flags.busy, pending,
             cleanup.client, cleanup.started, cleanup.log, cleanup.sd, flags.logging, sdPresent,
             logError, logReported, messageRing != null,
             Queues(Messages(), messagesDropped, LogEntries(), logDropped))
    }

    constructor ()
      ensures Valid() && messageRing == null
      ensures View() == Shared(None, false, false, false, false, false, None, None, false, false, false,
                               false, false, 0, false, false, Queues([], 0, [], 0))
    {
      client, started, pending, cleanup := None, false, None, NO_CLEANUP;
      flags, sdPresent := Flags(false, false, false, false, false), false;
      logError, logReported, messageRing, logRing := 0, false, null, null;
      messages, log, messagesDropped, logDropped := Span(0, 0), Span(0, 0), 0, 0;
    }

    /** ensure_buffers, when memory is granted. */
    method EnsureBuffers()
      requires Valid()
      modifies this`messageRing, this`logRing
      ensures Valid() && View() == old(View()).(buffers := true)
      ensures messageRing == old(messageRing) || fresh(messageRing)
      ensures logRing == old(logRing) || fresh(logRing)
    {
      hide Circular.Contents;
      if messageRing == null {
        messageRing := new Message[MESSAGE_LIMIT](_ => ZERO_MESSAGE);
        logRing := new Entry[MESSAGE_LIMIT](_ => EntryOf(ZERO_MESSAGE));
      }
    }

    /** release_buffers, and the worker's first step after destroying a client. */
    method FreeBuffers()
      requires Valid()
      modifies this`messageRing, this`logRing, this`messages, this`messagesDropped, this`log
      ensures Valid() && View() == old(View()).FreeBuffers()
    {
      hide Circular.Contents;
      messageRing, logRing := null, null;
      messages, messagesDropped, log := Span(0, 0), 0, Span(0, 0);
    }

    method PushMessage(m: Message)
      requires Valid() && messageRing != null
      modifies this`messages, this`messagesDropped, messageRing
      ensures Valid() && Messages() == Newest(old(Messages()), m)
      ensures messagesDropped ==
        if Full(old(Messages())) then (old(messagesDropped) + 1) % (UINT_MAX + 1) else old(messagesDropped)
    {
      hide Circular.Contents;
      if messages.count == MESSAGE_LIMIT {
        Circular.Drop(messageRing[..], messages.head, messages.count, 1);
        messages := Popped(messages);
        messagesDropped := (messagesDropped + 1) % (UINT_MAX + 1);
      }
      Circular.Push(messageRing[..], messages.head, messages.count, m);
      messageRing[(messages.head + messages.count) % MESSAGE_LIMIT] := m;
      messages := messages.(count := messages.count + 1);
    }

    method PushLog(e: Entry)
      requires Valid() && logRing != null
      modifies this`log, this`logDropped, logRing
      ensures Valid() && LogEntries() == Newest(old(LogEntries()), e)
      ensures logDropped == if Full(old(LogEntries())) then Min(old(logDropped) + 1, UINT_MAX) else old(logDropped)
    {
      hide Circular.Contents;
      if log.count == MESSAGE_LIMIT {
        Circular.Drop(logRing[..], log.head, log.count, 1);
        log := Popped(log);
        if logDropped != UINT_MAX { logDropped := logDropped + 1; }
      }
      Circular.Push(logRing[..], log.head, log.count, e);
      logRing[(log.head + log.count) % MESSAGE_LIMIT] := e;
      log := log.(count := log.count + 1);
    }

    method PushPreview(m: Message)
      requires Valid() && messageRing != null
      modifies this`messages, this`messagesDropped, messageRing
      ensures Valid() && View() == old(View()).(q := Pushed(old(View()).q, m, false))
    {
      hide Circular.Contents, LogEntries, LogOk, Newest;
      PushMessage(m);
    }

    method PushEntry(e: Entry)
      requires Valid() && logRing != null
      modifies this`log, this`logDropped, logRing
      ensures Valid() && View() == old(View()).(q := WithEntry(old(View()).q, e))
    {
      hide Circular.Contents, Messages, MessagesOk, Newest;
      PushLog(e);
    }

    /** push_message_locked. */
    method PushMessageLocked(m: Message) returns (queued: bool)
      requires Valid()
      modifies this`messages, this`messagesDropped, this`log, this`logDropped
      modifies messageRing, logRing
      ensures Valid() && View() == old(View()).PushMessage(m) && queued == old(View()).PushQueuesLog()
    {
      hide Circular.Contents, Newest, Full, Messages, LogEntries, MessagesOk, LogOk;
      if messageRing == null { return false; }
      PushPreview(m);
      var writeLog := if flags.stopping then cleanup.log && cleanup.sd else flags.logging && sdPresent;
      if !writeLog || logError != 0 || logRing == null { return false; }
      PushEntry(EntryOf(m));
      return true;
    }

    /** One turn of drain_messages: the oldest message leaves the ring. */
    method TakeMessage() returns (m: Option<Message>)
      requires Valid()
      modifies this`messages
      ensures Valid()
      ensures match m
        case None => old(Messages()) == [] && View() == old(View())
        case Some(first) =>
          && old(Messages()) != [] && first == old(Messages())[0]
          && View() == old(View()).(q := old(View()).q.(messages := old(Messages())[1..]))
    {
      hide Circular.Contents, LogEntries, LogOk;
      if messages.count == 0 { return None; }
      Circular.Drop(messageRing[..], messages.head, messages.count, 1);
      Circular.At(messageRing[..], messages.head, messages.count, 0);
      m := Some(messageRing[messages.head]);
      messages := Popped(messages);
    }

    /** The critical section of queue_action. */
    method QueueAction(publish: bool, m: Message) returns (accepted: bool)
      requires Valid()
      modifies this`pending, this`flags
      ensures Valid() && accepted == old(View()).AcceptsAction()
      ensures View() == if accepted then old(View()).QueueAction(publish, m) else old(View())
    {
      hide Circular.Contents, Messages, LogEntries, MessagesOk, LogOk;
      accepted := client.Some? && flags.running && flags.connected && !flags.stopping && !flags.busy;
      if accepted { pending, flags := Some(Action(client.value, publish, m)), flags.(busy := true); }
    }

    method TakeLog() returns (e: Entry)
      requires LogOk() && log.count > 0
      modifies this`log
      ensures LogOk() && old(LogEntries()) == [e] + LogEntries()
    {
      Circular.Drop(logRing[..], log.head, log.count, 1);
      Circular.At(logRing[..], log.head, log.count, 0);
      e := logRing[log.head];
      log := Popped(log);
    }

    /** The worker's choice: an action first, then a cleanup, then a log entry. */
    method SelectWork() returns (work: Work)
      requires Valid()
      modifies this`pending, this`log
      ensures Valid() && work == old(View()).Selected() && View() == old(View()).Select()
    {
      hide Circular.Contents, Messages, LogEntries, MessagesOk;
      work := Nothing;
      if pending.Some? {
        work, pending := Act(pending.value), None;
      } else if cleanup.client.Some? {
        work := CleanUp(cleanup.client.value, cleanup.started);
      } else if log.count > 0 {
        var entry := TakeLog();
        assert ([entry] + LogEntries())[1..] == LogEntries();
        work := Write(entry);
      }
    }

    /** What notify_pending_work asks. */
    method MoreWork() returns (more: bool)
      requires Valid()
      ensures more == View().HasWork()
    {
      hide Circular.Contents, Messages;
      more := pending.Some? || cleanup.client.Some? || log.count > 0;
    }

    method ClearLog()
      requires LogOk()
      modifies this`log
      ensures LogOk() && LogEntries() == []
    {
      log := Span(0, 0);
    }

    method RecordLogError(error: int)
      requires Valid()
      modifies this`logError, this`flags, this`cleanup, this`log
      ensures Valid() && View() == old(View()).RecordLogError(error)
    {
      hide Circular.Contents, Messages, MessagesOk, LogEntries, LogOk;
      ClearLog();
      if logError == 0 { logError := error; }
      flags, cleanup := flags.(logging := false), cleanup.(log := false);
    }

    /** The handoff in begin_client_stop. */
    method HandOver()
      requires Valid()
      modifies this`cleanup, this`client, this`started, this`flags
      ensures Valid() && View() == old(View()).HandOver()
    {
      hide Circular.Contents, Messages, LogEntries, MessagesOk, LogOk;
      cleanup := CleanupSlot(client, started, flags.logging, sdPresent);
      client, started := None, false;
      flags := flags.(stopping := true, connected := false, logging := false);
    }

    /** The worker's last critical section of a cleanup. */
    method FinishCleanup()
      requires Valid()
      modifies this`cleanup, this`flags
      ensures Valid() && View() == old(View()).Finish()
    {
      hide Circular.Contents, Messages, LogEntries, MessagesOk, LogOk;
      cleanup := NO_CLEANUP;
      flags := flags.(running := false, stopping := false, connected := false);
    }

    /** The screen opens. */
    method Show(sd: bool)
      requires Valid()
      modifies this`sdPresent, this`flags, this`logError, this`logReported, this`logDropped
      ensures Valid() && View() == old(View()).Shown(sd)
    {
      hide Circular.Contents, Messages, LogEntries, MessagesOk, LogOk;
      sdPresent, flags := sd, flags.(logging := false);
      if !flags.running { ResetLog(); }
    }

    /** The log's part of what connecting and opening the screen reset. */
    method ResetLog()
      requires Valid()
      modifies this`logError, this`logReported, this`logDropped
      ensures Valid() && View() == old(View()).ResetLog()
    {
      hide Circular.Contents, Messages, LogEntries, MessagesOk, LogOk;
      logError, logReported, logDropped := 0, false, 0;
    }

    method ToggleLog() returns (failed: bool)
      requires Valid()
      modifies this`flags
      ensures Valid() && View() == old(View()).ToggleLog() && failed == (flags.running && logError != 0)
    {
      hide Circular.Contents, Messages, LogEntries, MessagesOk, LogOk;
      failed := flags.running && logError != 0;
      if !failed { flags := flags.(logging := !flags.logging); }
    }

    /** A client exists and is about to be started. */
    method Announce()
      requires Valid()
      modifies this`flags
      ensures Valid() && View() == old(View()).Announce()
    {
      hide Circular.Contents, Messages, LogEntries, MessagesOk, LogOk;
      flags := flags.(running := true, connected := false);
    }

    /** It could not be started. */
    method Abandon()
      requires Valid()
      modifies this`flags
      ensures Valid() && View() == old(View()).Abandon()
    {
      hide Circular.Contents, Messages, LogEntries, MessagesOk, LogOk;
      flags := flags.(running := false, stopping := false, connected := false);
    }

    /** The network task's connected, disconnected and error events. */
    method NetworkUp()
      requires Valid()
      modifies this`flags
      ensures Valid() && View() == old(View()).NetworkUp()
    {
      hide Circular.Contents, Messages, LogEntries, MessagesOk, LogOk;
      if !flags.stopping { flags := flags.(connected := true); }
    }

    method NetworkDown()
      requires Valid()
      modifies this`flags
      ensures Valid() && View() == old(View()).NetworkDown()
    {
      hide Circular.Contents, Messages, LogEntries, MessagesOk, LogOk;
      flags := flags.(connected := false);
    }

    method NetworkFailed()
      requires Valid()
      modifies this`flags
      ensures Valid() && View() == old(View()).NetworkFailed()
    {
      hide Circular.Contents, Messages, LogEntries, MessagesOk, LogOk;
      if !flags.stopping { flags := flags.(connected := false); }
    }

    /** What perform_action looks at before it calls the library, and what it clears at its end. */
    method StopSnapshot() returns (stopping: bool)
      requires Valid()
      ensures stopping == View().stopping
    {
      stopping := flags.stopping;
    }

    method ActionDone()
      requires Valid()
      modifies this`flags
      ensures Valid() && View() == old(View()).ActionDone()
    {
      hide Circular.Contents, Messages, LogEntries, MessagesOk, LogOk;
      flags := flags.(busy := false);
    }

    /** A failed append is reported once, at once or, while stopping, when the cleanup is done. */
    method ReportLogError() returns (report: bool)
      requires Valid()
      modifies this`logReported
      ensures Valid() && report == old(View()).ReportsNow() && View() == old(View()).Reported(report)
    {
      hide Circular.Contents, Messages, LogEntries, MessagesOk, LogOk;
      report := !flags.stopping && !logReported;
      if report { logReported := true; }
    }

    method ReportAtEnd(error: int) returns (report: bool)
      requires Valid()
      modifies this`logReported
      ensures Valid() && report == old(View()).ReportsAtEnd(error) && View() == old(View()).Reported(report)
    {
      hide Circular.Contents, Messages, LogEntries, MessagesOk, LogOk;
      report := error != 0 && !logReported;
      if report { logReported := true; }
    }
  }
}
