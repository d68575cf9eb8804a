/** One MQTT session after another: the screen, the client library's network task and one worker,
    interleaved a critical section, a library call or a notification at a time. */
module MqttSession {
  import opened Bytes
  import opened MqttShared

  // ---- State -------------------------------------------------------------------------------

  /** Where the screen's task is inside a handler; Idle between handlers. */
  datatype Ui =
    | Idle | Showing
    | Initing | Announcing | Starting | Abandoning(handle: Handle) | Destroying(handle: Handle)
    | HandingOver | MustNotify

  datatype Worker =
    | Blocked | Selecting
    | Deciding(action: Action) | Calling(action: Action) | Pushing(action: Action) | Announced | Freeing
    | Appending(entry: Entry, at: nat) | Recording(error: int) | Reporting
    | Checking | Giving
    | Stopping(handle: Handle) | Dismantling(handle: Handle) | Detaching
    | Draining(rest: seq<Entry>) | DrainRecording(error: int) | DrainReporting(error: int) | Finishing

  /** What became of a log entry once it left the ring. */
  datatype Fate = InHand | Appended | Dropped | Discarded
  datatype Settled = Settled(entry: Entry, fate: Fate)

  /** The history of this session's log: all entries pushed, those that left the ring, what reached
      the card, whether an append has failed, and how often that was reported. */
  datatype Book = Book(pushed: seq<Entry>, settled: seq<Settled>, sd: seq<Entry>, failed: bool, reports: nat)

  const BLANK: Book := Book([], [], [], false, 0)

  /** `sdk` is the client whose network task runs; `sdkNotify` says that it is about to notify. */
  datatype State = State(
    m: Shared, ui: Ui, sdk: Option<Handle>, sdkNotify: bool, worker: Worker, notified: nat,
    created: nat, destroyed: set<Handle>, book: Book)

  /** After the screen was first shown: the worker waits, nothing is allocated. */
  function Initial(sdPresent: bool): (s: State)
    ensures Inv(s)
  {
    State(Shared(None, false, false, false, false, false, None, None, false, false, false, false, sdPresent, 0, false,
                 false, Queues([], 0, [], 0)),
          Idle, None, false, Blocked, 0, 0, {}, BLANK)
  }

  // ---- Events ------------------------------------------------------------------------------

  datatype InitOutcome = NoMemory | NotRegistered | Ready

  datatype Event =
    // the screen
    | Show(sd: bool) | Shown(granted: bool) | Tick(granted: bool) | ToggleLog | ReadMessage | Release
    | Connect | Init(outcome: InitOutcome) | Announce | StartClient(ok: bool) | Abandon | DestroyUnstarted
    | Disconnect | HandOver | Queue(publish: bool, message: Message) | UiNotify
    // the network task
    | Connected | Disconnected | Failed | Data(message: Message) | SdkNotify
    // the worker
    | Take | Select | Decide | Call(id: int) | PushSent(timestamp: int) | WorkerNotify | Free
    | Append(error: int) | Record | Report | Check | Give
    | StopClient | DestroyClient | Detach | Drain(error: int) | DrainRecord | DrainReport | Finish

  predicate IsUi(e: Event) {
    e.Show? || e.Shown? || e.Tick? || e.ToggleLog? || e.ReadMessage? || e.Release? || e.Connect? || e.Init? ||
    e.Announce? || e.StartClient? || e.Abandon? || e.DestroyUnstarted? || e.Disconnect? || e.HandOver? ||
    e.Queue? || e.UiNotify?
  }

  predicate IsSdk(e: Event) { e.Connected? || e.Disconnected? || e.Failed? || e.Data? || e.SdkNotify? }

  predicate UiEnabled(s: State, e: Event)
    requires IsUi(e)
  {
    match e
    case Show(_) => s.ui.Idle?
    case Shown(_) => s.ui.Showing?
    case Tick(_) => s.ui.Idle? && !s.m.stopping
    case ToggleLog => s.ui.Idle? && !s.m.stopping && s.m.sdPresent
    case ReadMessage => s.ui.Idle? && s.m.q.messages != []
    case Release => s.ui.Idle? && !s.m.running
    case Connect => s.ui.Idle? && !s.m.stopping && !s.m.running
    case Init(_) => s.ui.Initing?
    case Announce => s.ui.Announcing?
    case StartClient(_) => s.ui.Starting?
    case Abandon => s.ui.Abandoning?
    case DestroyUnstarted => s.ui.Destroying?
    case Disconnect => s.ui.Idle? && s.m.running && !s.m.stopping
    case HandOver => s.ui.HandingOver?
    case Queue(_, _) => s.ui.Idle?
    case UiNotify => s.ui.MustNotify?
  }

  /** The library delivers events while its task runs, one at a time. */
  predicate SdkEnabled(s: State, e: Event)
    requires IsSdk(e)
  {
    s.sdk.Some? && (s.sdkNotify <==> e.SdkNotify?)
  }

  predicate WorkerEnabled(s: State, e: Event)
    requires !IsUi(e) && !IsSdk(e)
  {
    match e
    case Take => s.worker.Blocked? && s.notified > 0
    case Select => s.worker.Selecting?
    case Decide => s.worker.Deciding?
    case Call(_) => s.worker.Calling?
    case PushSent(_) => s.worker.Pushing?
    case WorkerNotify => s.worker.Announced?
    case Free => s.worker.Freeing?
    case Append(_) => s.worker.Appending?
    case Record => s.worker.Recording?
    case Report => s.worker.Reporting?
    case Check => s.worker.Checking?
    case Give => s.worker.Giving?
    case StopClient => s.worker.Stopping? && !s.sdkNotify  // waits for the network task to leave its handler
    case DestroyClient => s.worker.Dismantling?
    case Detach => s.worker.Detaching?
    case Drain(_) => s.worker.Draining?
    case DrainRecord => s.worker.DrainRecording?
    case DrainReport => s.worker.DrainReporting?
    case Finish => s.worker.Finishing?
  }

  predicate Enabled(s: State, e: Event) {
    if IsUi(e) then UiEnabled(s, e) else if IsSdk(e) then SdkEnabled(s, e) else WorkerEnabled(s, e)
  }

  // ---- Book keeping ------------------------------------------------------------------------

  function All(entries: seq<Entry>, fate: Fate): (r: seq<Settled>)
    ensures |r| == |entries|
  {
    seq(|entries|, i requires 0 <= i < |entries| => Settled(entries[i], fate))
  }

  function NotePush(b: Book, m: Shared, e: Entry): Book {
    b.(pushed := b.pushed + [e], settled := b.settled + if Full(m.q.log) then [Settled(m.q.log[0], Dropped)] else [])
  }

  /** A push and, if it is also logged, its record. */
  function PushMessage(s: State, m: Message): State {
    s.(m := s.m.PushMessage(m), book := if s.m.PushQueuesLog() then NotePush(s.book, s.m, EntryOf(m)) else s.book)
  }

  function NoteAppend(b: Book, at: nat, error: int): Book
    requires at < |b.settled|
  {
    var e := b.settled[at].entry;
    if error == 0 then b.(settled := b.settled[at := Settled(e, Appended)], sd := b.sd + [e])
    else b.(settled := b.settled[at := Settled(e, Discarded)], failed := true)
  }

  // ---- Steps -------------------------------------------------------------------------------

  function UiStep(s: State, e: Event): State
    requires IsUi(e) && UiEnabled(s, e)
    requires (s.ui.Starting? || s.ui.HandingOver?) ==> s.m.client.Some?
  {
    match e
    case Show(sd) =>
      s.(ui := Showing, m := s.m.Shown(sd), book := if s.m.running then s.book else BLANK)
    case Shown(granted) => s.(ui := Idle, m := s.m.(buffers := s.m.buffers || (granted && !s.m.stopping)))
    case Tick(granted) => s.(m := s.m.(buffers := s.m.buffers || granted))
    case ToggleLog => s.(m := s.m.ToggleLog())
    case ReadMessage => s.(m := s.m.(q := s.m.q.(messages := s.m.q.messages[1..])))
    case Release => s.(m := s.m.FreeBuffers().(logging := false))
    case Connect => s.(ui := Initing, m := s.m.ResetLog().(buffers := true), book := BLANK)
    case Init(outcome) =>
      (match outcome
       case NoMemory => s.(ui := Idle)
       case NotRegistered => s.(ui := Idle, created := s.created + 1, destroyed := s.destroyed + {s.created})
       case Ready => s.(ui := Announcing, created := s.created + 1, m := s.m.(client := Some(s.created))))
    case Announce => s.(ui := Starting, m := s.m.Announce())
    case StartClient(ok) =>
      if ok then s.(ui := Idle, sdk := s.m.client, m := s.m.(started := true))
      else s.(ui := Abandoning(s.m.client.value), m := s.m.(client := None, started := false))
    case Abandon => s.(ui := Destroying(s.ui.handle), m := s.m.Abandon())
    case DestroyUnstarted => s.(ui := Idle, destroyed := s.destroyed + {s.ui.handle})
    case Disconnect => s.(ui := HandingOver)
    case HandOver => s.(ui := MustNotify, m := s.m.HandOver())
    case Queue(publish, message) =>
      if s.m.AcceptsAction() then s.(ui := MustNotify, m := s.m.QueueAction(publish, message)) else s
    case UiNotify => s.(ui := Idle, notified := s.notified + 1)
  }

  function SdkStep(s: State, e: Event): State
    requires IsSdk(e) && SdkEnabled(s, e)
  {
    match e
    case Connected => s.(m := s.m.NetworkUp())
    case Disconnected => s.(m := s.m.NetworkDown())
    case Failed => s.(m := s.m.NetworkFailed())
    case Data(message) => PushMessage(s, message).(sdkNotify := s.m.PushQueuesLog())
    case SdkNotify => s.(sdkNotify := false, notified := s.notified + 1)
  }

  /** The entry in the worker's hands is in the book. */
  predicate Indexed(s: State) {
    match s.worker
    case Appending(_, at) => at < |s.book.settled|
    case Draining(rest) => |rest| <= |s.book.settled|
    case _ => true
  }

  function WorkerStep(s: State, e: Event): State
    requires !IsUi(e) && !IsSdk(e) && WorkerEnabled(s, e)
    requires Indexed(s)
  {
    match e
    case Take => s.(worker := Selecting, notified := 0)
    case Select =>
      (match s.m.Selected()
       case Act(action) => s.(worker := Deciding(action), m := s.m.Select())
       case CleanUp(handle, started) => s.(worker := if started then Stopping(handle) else Dismantling(handle))
       case Write(entry) =>
         s.(worker := Appending(entry, |s.book.settled|), m := s.m.Select(),
            book := s.book.(settled := s.book.settled + [Settled(entry, InHand)]))
       case Nothing => s.(worker := Blocked))
    case Decide => s.(worker := if s.m.stopping then Freeing else Calling(s.worker.action))
    case Call(id) => s.(worker := if s.worker.action.publish && id >= 0 then Pushing(s.worker.action) else Freeing)
    case PushSent(timestamp) =>
      PushMessage(s, s.worker.action.message.(timestamp := timestamp))
        .(worker := if s.m.PushQueuesLog() then Announced else Freeing)
    case WorkerNotify => s.(worker := Freeing, notified := s.notified + 1)
    case Free => s.(worker := Checking, m := s.m.ActionDone())
    case Append(error) =>
      s.(worker := if error == 0 then Checking else Recording(error), book := NoteAppend(s.book, s.worker.at, error))
    case Record =>
      s.(worker := Reporting, m := s.m.RecordLogError(s.worker.error),
         book := s.book.(settled := s.book.settled + All(s.m.q.log, Discarded)))
    case Report =>
      var report := s.m.ReportsNow();
      s.(worker := Checking, m := s.m.Reported(report),
         book := s.book.(reports := s.book.reports + if report then 1 else 0))
    case Check => s.(worker := if s.m.HasWork() then Giving else Blocked)
    case Give => s.(worker := Blocked, notified := s.notified + 1)
    case StopClient => s.(worker := Dismantling(s.worker.handle), sdk := None)
    case DestroyClient => s.(worker := Detaching, destroyed := s.destroyed + {s.worker.handle})
    case Detach =>
      s.(m := s.m.FreeBuffers(),
         worker := if s.m.logError == 0 then Draining(s.m.q.log) else DrainReporting(s.m.logError),
         book := s.book.(settled := s.book.settled + All(s.m.q.log, if s.m.logError == 0 then InHand else Discarded)))
    case Drain(error) =>
      var rest, from := s.worker.rest, |s.book.settled| - |s.worker.rest|;
      if rest == [] then s.(worker := DrainReporting(0))
      else if error == 0 then s.(worker := Draining(rest[1..]), book := NoteAppend(s.book, from, 0))
      else s.(worker := DrainRecording(error),
              book := s.book.(settled := s.book.settled[..from] + All(rest, Discarded), failed := true))
    case DrainRecord =>
      s.(worker := DrainReporting(s.worker.error), m := s.m.RecordLogError(s.worker.error),
         book := s.book.(settled := s.book.settled + All(s.m.q.log, Discarded)))
    case DrainReport =>
      var report := s.m.ReportsAtEnd(s.worker.error);
      s.(worker := Finishing, m := s.m.Reported(report),
         book := s.book.(reports := s.book.reports + if report then 1 else 0))
    case Finish => s.(worker := Blocked, m := s.m.Finish())
  }

  // ---- Invariants --------------------------------------------------------------------------

  predicate Live(s: State, h: Handle) { h < s.created && h !in s.destroyed }

  predicate AllMade(destroyed: set<Handle>, created: nat) { forall h :: h in destroyed ==> h < created }

  predicate InUse(s: State, h: Handle) { s.m.client == Some(h) || s.m.cleanup == Some(h) }

  /** The worker has an action in its hands. */
  predicate Acting(w: Worker) { w.Deciding? || w.Calling? || w.Pushing? || w.Announced? || w.Freeing? }

  predicate Dead(w: Worker) { w.Detaching? || w.Draining? || w.DrainRecording? || w.DrainReporting? || w.Finishing? }

  predicate Cleaning(w: Worker) { w.Stopping? || w.Dismantling? || Dead(w) }

  /** No client is running, or it is still only being started. */
  predicate BetweenSessions(s: State) { !s.m.running || s.ui.Starting? || s.ui.Abandoning? }

  predicate Resting(s: State) { (s.worker.Blocked? || s.worker.Selecting?) && !s.m.HasWork() }

  predicate UiLife(s: State) {
    match s.ui
    case Initing => s.m.client.None? && !s.m.running && s.m.buffers
    case Announcing => s.m.client.Some? && !s.m.running && s.sdk.None?
    case Starting => s.m.client.Some? && s.m.running && s.sdk.None?
    case Abandoning(h) => s.m.client.None? && s.m.running && Live(s, h) && s.sdk.None?
    case Destroying(h) => s.m.client.None? && !s.m.running && Live(s, h) && s.sdk.None?
    case HandingOver => s.m.client.Some? && s.m.running && s.m.started
    case _ => (s.m.running <==> s.m.client.Some? || s.m.stopping) && (s.m.client.Some? ==> s.m.started)
  }

  /** Who may use which client, and when buffers exist. */
  predicate Life(s: State) {
    && UiLife(s)
    && AllMade(s.destroyed, s.created)
    && (s.m.client.Some? ==> Live(s, s.m.client.value) && !s.m.stopping && s.m.buffers)
    && (s.m.stopping <==> s.m.cleanup.Some?)
    && (s.m.stopping ==> s.m.running && s.m.client.None? && (s.ui.Idle? || s.ui.MustNotify? || s.ui.Showing?))
    && (s.m.stopping ==> s.m.cleanup.value < s.created && (s.m.cleanup.value in s.destroyed <==> Dead(s.worker)))
    && (s.m.stopping && (!Dead(s.worker) || s.worker.Detaching?) ==> s.m.buffers)
    && (s.m.pending.Some? ==> InUse(s, s.m.pending.value.client) && !Acting(s.worker))
    && ((s.worker.Deciding? || s.worker.Calling? || s.worker.Pushing?) ==> InUse(s, s.worker.action.client))
    && (s.m.busy <==> s.m.pending.Some? || Acting(s.worker))
    && (Cleaning(s.worker) ==> s.m.stopping && !s.m.busy)
    && ((s.worker.Stopping? || s.worker.Dismantling?) ==> s.m.cleanup == Some(s.worker.handle))
    && (s.sdk.Some? ==>
         s.m.running && s.m.buffers && InUse(s, s.sdk.value) && !s.worker.Dismantling? && !Dead(s.worker))
    && (s.sdk.Some? && s.m.stopping ==> s.m.cleanupStarted)
    && (s.sdkNotify ==> s.sdk.Some?)
    && (s.m.q.log != [] ==> s.m.running && s.m.buffers)
    && (BetweenSessions(s) ==> Resting(s))
    && (Dead(s.worker) && !s.worker.Detaching? ==> s.m.q.log == [])
  }

  /** No work is stranded: while the worker waits with something to do, a notification is on its way. */
  predicate Awake(s: State) {
    s.worker.Blocked? && s.m.HasWork() ==> s.notified > 0 || s.ui.MustNotify? || s.sdkNotify
  }

  function Entries(settled: seq<Settled>): (r: seq<Entry>)
    ensures |r| == |settled|
  {
    seq(|settled|, i requires 0 <= i < |settled| => settled[i].entry)
  }

  /** The appended ones, in push order. */
  function OnCard(settled: seq<Settled>): seq<Entry> {
    if settled == [] then []
    else
      var last := settled[|settled| - 1];
      OnCard(settled[..|settled| - 1]) + if last.fate.Appended? then [last.entry] else []
  }

  function CountDropped(settled: seq<Settled>): nat {
    if settled == [] then 0
    else CountDropped(settled[..|settled| - 1]) + if settled[|settled| - 1].fate.Dropped? then 1 else 0
  }

  predicate NoneIs(settled: seq<Settled>, fate: Fate) { forall i :: 0 <= i < |settled| ==> settled[i].fate != fate }

  predicate AllAre(settled: seq<Settled>, fate: Fate) { forall i :: 0 <= i < |settled| ==> settled[i].fate == fate }

  /** Which entries the worker has taken and not yet dealt with. */
  predicate Hands(worker: Worker, b: Book) {
    match worker
    case Appending(e, at) =>
      && at < |b.settled| && b.settled[at] == Settled(e, InHand) && !b.failed
      && NoneIs(b.settled[..at], InHand) && AllAre(b.settled[at + 1..], Dropped)
    case Draining(rest) =>
      && |rest| <= |b.settled| && b.settled[|b.settled| - |rest|..] == All(rest, InHand)
      && NoneIs(b.settled[..|b.settled| - |rest|], InHand) && !b.failed
    case _ => NoneIs(b.settled, InHand)
  }

  /** Every entry ever pushed is settled or still queued, in push order; what is on the card are the
      appended ones; the counter says how many were dropped, as far as it goes. */
  predicate Accounts(b: Book, q: Queues) {
    && b.pushed == Entries(b.settled) + q.log
    && b.sd == OnCard(b.settled)
    && q.logDropped == Min(CountDropped(b.settled), UINT_MAX)
    && |q.log| <= MESSAGE_LIMIT
    && (!b.failed ==> NoneIs(b.settled, Discarded))
  }

  /** After the first failed append the log stays empty, and the failure is reported once. */
  predicate Failing(s: State) {
    && (s.m.logError != 0 ==> s.book.failed && s.m.q.log == [])
    && (s.book.failed ==> s.m.logError != 0 || s.worker.Recording? || s.worker.DrainRecording?)
    && (s.worker.Recording? || s.worker.DrainRecording? ==> s.worker.error != 0 && s.book.failed)
    && s.book.reports == (if s.m.logReported then 1 else 0)
    && (s.m.logReported || s.worker.Reporting? ==> s.book.failed)
    && (s.worker.DrainReporting? ==> (s.worker.error != 0 <==> s.book.failed))
    && (s.worker.Finishing? || BetweenSessions(s) ==> (s.m.logReported <==> s.book.failed))
  }

  predicate Log(s: State) { Accounts(s.book, s.m.q) && Hands(s.worker, s.book) && Failing(s) }

  predicate Inv(s: State) { Indexed(s) && Life(s) && Awake(s) && Log(s) }

  function Step(s: State, e: Event): State
    requires Inv(s) && Enabled(s, e)
  {
    if IsUi(e) then UiStep(s, e) else if IsSdk(e) then SdkStep(s, e) else WorkerStep(s, e)
  }

  lemma FreshHandle(destroyed: set<Handle>, created: nat)
    requires AllMade(destroyed, created)
    ensures created !in destroyed && AllMade(destroyed, created + 1) && AllMade(destroyed + {created}, created + 1)
    ensures forall h: Handle :: h < created ==> AllMade(destroyed + {h}, created)
  {
  }

  lemma InitKeepsLife(s: State, e: Event)
    requires Inv(s) && e.Init? && UiEnabled(s, e)
    ensures Life(UiStep(s, e)) && Awake(UiStep(s, e))
  {
    hide Log, AllMade, Indexed;
    FreshHandle(s.destroyed, s.created);
  }

  predicate Connects(e: Event) { e.Connect? || e.Announce? || e.StartClient? || e.Abandon? || e.DestroyUnstarted? }

  lemma ConnectKeepsLife(s: State, e: Event)
    requires Inv(s) && Connects(e) && UiEnabled(s, e)
    ensures Life(UiStep(s, e)) && Awake(UiStep(s, e))
  {
    hide Log, AllMade, Indexed;
    FreshHandle(s.destroyed, s.created);
    match e
    case Connect =>
    case Announce =>
    case StartClient(_) =>
    case Abandon =>
    case DestroyUnstarted =>
  }

  lemma UiKeepsLife(s: State, e: Event)
    requires Inv(s) && IsUi(e) && !e.Init? && !Connects(e) && UiEnabled(s, e)
    ensures Life(UiStep(s, e)) && Awake(UiStep(s, e))
  {
    hide Log, AllMade, Indexed;
  }

  lemma SdkKeepsLife(s: State, e: Event)
    requires Inv(s) && IsSdk(e) && SdkEnabled(s, e)
    ensures Life(SdkStep(s, e)) && Awake(SdkStep(s, e))
  {
    hide Log, AllMade, Indexed;
  }

  predicate Logging(e: Event) { e.PushSent? || e.Append? || e.Record? || e.Report? }

  lemma SentKeepsLife(s: State, e: Event)
    requires Inv(s) && e.PushSent? && WorkerEnabled(s, e)
    ensures Life(WorkerStep(s, e)) && Awake(WorkerStep(s, e))
  {
    hide Log, AllMade, NotePush;
  }

  lemma LoggingKeepsLife(s: State, e: Event)
    requires Inv(s) && Logging(e) && WorkerEnabled(s, e)
    ensures Life(WorkerStep(s, e)) && Awake(WorkerStep(s, e))
  {
    hide Log, AllMade;
    match e
    case PushSent(_) => SentKeepsLife(s, e);
    case Append(_) =>
    case Record =>
    case Report =>
  }

  lemma ActingKeepsLife(s: State, e: Event)
    requires Inv(s) && !IsUi(e) && !IsSdk(e) && WorkerEnabled(s, e) && !Cleaning(s.worker) && !e.Select? && !Logging(e)
    ensures Life(WorkerStep(s, e)) && Awake(WorkerStep(s, e))
  {
    hide Log, AllMade, Indexed;
    match e
    case Take =>
    case Decide =>
    case Call(_) =>
    case WorkerNotify =>
    case Free =>
    case Check =>
    case Give =>
  }

  lemma SelectKeepsLife(s: State)
    requires Inv(s) && s.worker.Selecting?
    ensures Life(WorkerStep(s, Select)) && Awake(WorkerStep(s, Select))
  {
    hide Log, AllMade, Indexed;
    match s.m.Selected()
    case Act(_) =>
    case CleanUp(_, _) =>
    case Write(_) =>
    case Nothing =>
  }

  lemma CleaningKeepsLife(s: State, e: Event)
    requires Inv(s) && !IsUi(e) && !IsSdk(e) && WorkerEnabled(s, e) && Cleaning(s.worker)
    ensures Life(WorkerStep(s, e)) && Awake(WorkerStep(s, e))
  {
    hide Accounts, Failing, Hands, AllMade;
    FreshHandle(s.destroyed, s.created);
  }

  // ---- The log book ------------------------------------------------------------------------

  lemma Snoc(settled: seq<Settled>, x: Settled)
    ensures Entries(settled + [x]) == Entries(settled) + [x.entry]
    ensures OnCard(settled + [x]) == OnCard(settled) + if x.fate.Appended? then [x.entry] else []
    ensures CountDropped(settled + [x]) == CountDropped(settled) + if x.fate.Dropped? then 1 else 0
  {
    assert (settled + [x])[..|settled|] == settled;
  }

  lemma SnocNone(settled: seq<Settled>, x: Settled)
    ensures forall fate :: NoneIs(settled + [x], fate) <==> NoneIs(settled, fate) && x.fate != fate
  {
    forall fate ensures NoneIs(settled + [x], fate) <==> NoneIs(settled, fate) && x.fate != fate {
      if NoneIs(settled + [x], fate) {
        assert (settled + [x])[|settled|] == x;
        forall i | 0 <= i < |settled| ensures settled[i].fate != fate { assert (settled + [x])[i] == settled[i]; }
      }
    }
  }

  lemma {:induction false} SettleAll(settled: seq<Settled>, entries: seq<Entry>, fate: Fate)
    requires fate.InHand? || fate.Discarded?
    ensures Entries(settled + All(entries, fate)) == Entries(settled) + entries
    ensures OnCard(settled + All(entries, fate)) == OnCard(settled)
    ensures CountDropped(settled + All(entries, fate)) == CountDropped(settled)
  {
    hide Entries, OnCard, CountDropped;
    if entries == [] {
      assert settled + All(entries, fate) == settled;
    } else {
      var n := |entries| - 1;
      SettleAll(settled, entries[..n], fate);
      Snoc(settled + All(entries[..n], fate), Settled(entries[n], fate));
      assert settled + All(entries, fate) == settled + All(entries[..n], fate) + [Settled(entries[n], fate)];
    }
  }

  /** Dealing with an entry in hand, when nothing taken after it has reached the card. */
  lemma {:induction false} SettleOne(settled: seq<Settled>, at: nat, fate: Fate)
    requires at < |settled| && settled[at].fate.InHand? && fate != Dropped && NoneIs(settled[at..], Appended)
    ensures var after := settled[at := Settled(settled[at].entry, fate)];
      && Entries(after) == Entries(settled)
      && OnCard(after) == OnCard(settled) + (if fate.Appended? then [settled[at].entry] else [])
      && CountDropped(after) == CountDropped(settled)
    decreases |settled|
  {
    hide Entries, OnCard, CountDropped;
    var n := |settled| - 1;
    var x := Settled(settled[at].entry, fate);
    var after := settled[at := x];
    if at == n {
      assert after == settled[..n] + [x] && settled == settled[..n] + [settled[n]];
      Snoc(settled[..n], x);
      Snoc(settled[..n], settled[n]);
    } else {
      assert settled[..n][at..] == settled[at..][..n - at];
      SettleOne(settled[..n], at, fate);
      assert settled[at..][n - at] == settled[n];
      assert after == settled[..n][at := x] + [settled[n]] && settled == settled[..n] + [settled[n]];
      Snoc(settled[..n][at := x], settled[n]);
      Snoc(settled[..n], settled[n]);
    }
  }

  /** A push into a full ring settles the oldest entry as dropped. */
  lemma PushAccounts(b: Book, m: Shared, message: Message)
    requires Accounts(b, m.q)
    ensures Accounts(NotePush(b, m, EntryOf(message)), Pushed(m.q, message, true))
  {
    hide Entries, OnCard, CountDropped, NoneIs;
    if Full(m.q.log) {
      var x := Settled(m.q.log[0], Dropped);
      Snoc(b.settled, x);
      SnocNone(b.settled, x);
      assert [x.entry] + m.q.log[1..] == m.q.log;
    } else {
      assert b.settled + [] == b.settled;
    }
  }

  lemma PushHands(worker: Worker, b: Book, m: Shared, e: Entry)
    requires Hands(worker, b) && !worker.Draining?
    ensures Hands(worker, NotePush(b, m, e))
  {
    hide NoneIs;
    if Full(m.q.log) {
      var x := Settled(m.q.log[0], Dropped);
      Snoc(b.settled, x);
      SnocNone(b.settled, x);
      if worker.Appending? {
        assert (b.settled + [x])[..worker.at] == b.settled[..worker.at];
        assert (b.settled + [x])[worker.at + 1..] == b.settled[worker.at + 1..] + [x];
      }
    } else {
      assert b.settled + [] == b.settled;
    }
  }

  lemma PushKeepsLog(s: State, m: Message)
    requires Log(s) && !s.worker.Draining?
    ensures Log(PushMessage(s, m))
  {
    hide Accounts, Hands;
    if s.m.PushQueuesLog() {
      PushAccounts(s.book, s.m, m);
      PushHands(s.worker, s.book, s.m, EntryOf(m));
    } else if s.m.buffers {
      SameLog(s.book, s.m.q, Pushed(s.m.q, m, false));
    }
  }

  lemma SameLog(b: Book, q: Queues, r: Queues)
    requires Accounts(b, q) && q.log == r.log && q.logDropped == r.logDropped
    ensures Accounts(b, r)
  {
  }

  lemma RestsBetweenSessions(s: State)
    requires Life(s)
    ensures BetweenSessions(s) ==> Resting(s)
  {
    hide UiLife, AllMade;
  }

  predicate StartsBook(s: State, e: Event) { e.Connect? || (e.Show? && !s.m.running) }

  lemma ResetKeepsLog(s: State, e: Event)
    requires Inv(s) && StartsBook(s, e) && UiEnabled(s, e)
    ensures Log(UiStep(s, e))
  {
    hide Life, Indexed, Hands, Awake, Accounts;
    RestsBetweenSessions(s);
    BlankLog(UiStep(s, e).m.q);
  }

  lemma UiKeepsLog(s: State, e: Event)
    requires Inv(s) && IsUi(e) && UiEnabled(s, e) && !StartsBook(s, e) &&
      (s.ui.Starting? || s.ui.HandingOver? ==> s.m.client.Some?)
    requires s.ui.Announcing? ==> !s.m.running
    ensures Log(UiStep(s, e))
  {
    hide Life, Indexed, Hands, Awake, Accounts, UiStep, Failing;
    if e.Release? { RestsBetweenSessions(s); }
    UiLeavesLog(s, e);
    SameLog(s.book, s.m.q, UiStep(s, e).m.q);
    SameFailing(s, UiStep(s, e));
  }

  lemma UiLeavesLog(s: State, e: Event)
    requires IsUi(e) && UiEnabled(s, e) && !StartsBook(s, e) &&
      (s.ui.Starting? || s.ui.HandingOver? ==> s.m.client.Some?)
    requires (e.Release? ==> s.m.q.log == []) && (s.ui.Announcing? ==> !s.m.running)
    ensures var next := UiStep(s, e);
      && next.worker == s.worker && next.book == s.book
      && next.m.logError == s.m.logError && next.m.logReported == s.m.logReported
      && next.m.q.log == s.m.q.log && next.m.q.logDropped == s.m.q.logDropped
      && (BetweenSessions(next) ==> BetweenSessions(s))
  {
    match e
    case Show(_) =>
    case Shown(_) =>
    case Tick(_) =>
    case ToggleLog =>
    case ReadMessage =>
    case Release =>
    case Init(_) =>
    case Announce =>
    case StartClient(_) =>
    case Abandon =>
    case DestroyUnstarted =>
    case Disconnect =>
    case HandOver =>
    case Queue(_, _) =>
    case UiNotify =>
  }

  lemma SameFailing(s: State, next: State)
    requires Failing(s) && next.worker == s.worker && next.book == s.book
    requires next.m.logError == s.m.logError && next.m.logReported == s.m.logReported && next.m.q.log == s.m.q.log
    requires BetweenSessions(next) ==> BetweenSessions(s)
    ensures Failing(next)
  {
  }

  lemma BlankLog(q: Queues)
    requires q.log == [] && q.logDropped == 0
    ensures Accounts(BLANK, q) && Hands(Blocked, BLANK) && Hands(Selecting, BLANK)
  {
  }

  lemma SdkKeepsLog(s: State, e: Event)
    requires Inv(s) && IsSdk(e) && SdkEnabled(s, e)
    ensures Log(SdkStep(s, e))
  {
    hide AllMade, Hands, Accounts, Awake, Indexed;
    if e.Data? { PushKeepsLog(s, e.message); }
  }

  lemma TakeAccounts(b: Book, q: Queues)
    requires Accounts(b, q) && NoneIs(b.settled, InHand) && q.log != [] && !b.failed
    ensures var after := b.(settled := b.settled + [Settled(q.log[0], InHand)]);
      Accounts(after, q.(log := q.log[1..])) && Hands(Appending(q.log[0], |b.settled|), after)
  {
    hide Entries, OnCard, CountDropped;
    var x := Settled(q.log[0], InHand);
    Snoc(b.settled, x);
    SnocNone(b.settled, x);
    assert [x.entry] + q.log[1..] == q.log;
    assert (b.settled + [x])[..|b.settled|] == b.settled;
  }

  lemma EmptyHands(worker: Worker, b: Book)
    requires !worker.Appending? && !worker.Draining?
    ensures Hands(worker, b) <==> NoneIs(b.settled, InHand)
  {
  }

  lemma SelectKeepsLog(s: State)
    requires Inv(s) && s.worker.Selecting?
    ensures Log(WorkerStep(s, Select))
  {
    hide Accounts, Hands, Life, Awake;
    var next := WorkerStep(s, Select);
    EmptyHands(s.worker, s.book);
    if s.m.Selected().Write? {
      TakeAccounts(s.book, s.m.q);
    } else {
      EmptyHands(next.worker, s.book);
    }
  }

  lemma AppendKeepsLog(s: State, error: int)
    requires Inv(s) && s.worker.Appending?
    ensures Log(WorkerStep(s, Append(error)))
  {
    hide Entries, OnCard, CountDropped, Life;
    RestsBetweenSessions(s);
    var b, at := s.book, s.worker.at;
    forall i | 0 <= i < |b.settled[at..]| ensures b.settled[at..][i].fate != Appended {
      if i > 0 { assert b.settled[at..][i] == b.settled[at + 1..][i - 1]; }
    }
    SettleOne(b.settled, at, if error == 0 then Appended else Discarded);
    var after := NoteAppend(b, at, error);
    forall i | 0 <= i < |after.settled| ensures after.settled[i].fate != InHand {
      if i < at { assert b.settled[..at][i] == after.settled[i]; }
      if i > at { assert b.settled[at + 1..][i - at - 1] == after.settled[i]; }
    }
  }

  lemma RecordKeepsLog(s: State, e: Event)
    requires Inv(s) && (e.Record? || e.DrainRecord?) && WorkerEnabled(s, e)
    ensures Log(WorkerStep(s, e))
  {
    hide Entries, OnCard, CountDropped, Life;
    RestsBetweenSessions(s);
    SettleAll(s.book.settled, s.m.q.log, Discarded);
  }

  lemma DetachKeepsLog(s: State)
    requires Inv(s) && s.worker.Detaching?
    ensures Log(WorkerStep(s, Detach))
  {
    hide Entries, OnCard, CountDropped, Life;
    RestsBetweenSessions(s);
    SettleAll(s.book.settled, s.m.q.log, if s.m.logError == 0 then InHand else Discarded);
    var after := WorkerStep(s, Detach).book.settled;
    assert after[..|after| - |s.m.q.log|] == s.book.settled;
  }

  lemma DrainAppends(b: Book, rest: seq<Entry>)
    requires Hands(Draining(rest), b) && rest != []
    ensures var after := NoteAppend(b, |b.settled| - |rest|, 0);
      && Hands(Draining(rest[1..]), after)
      && Entries(after.settled) == Entries(b.settled) && CountDropped(after.settled) == CountDropped(b.settled)
      && OnCard(after.settled) == OnCard(b.settled) + [rest[0]] && after.sd == b.sd + [rest[0]]
      && (NoneIs(b.settled, Discarded) ==> NoneIs(after.settled, Discarded))
  {
    hide Entries, OnCard, CountDropped;
    var from := |b.settled| - |rest|;
    var done := b.settled[..from];
    assert b.settled[from..][0] == b.settled[from];
    SettleOne(b.settled, from, Appended);
    var after := NoteAppend(b, from, 0).settled;
    assert after[from + 1..] == All(rest[1..], InHand) by { assert after[from + 1..] == b.settled[from..][1..]; }
    assert after[..from + 1] == done + [Settled(rest[0], Appended)];
    SnocNone(done, Settled(rest[0], Appended));
  }

  lemma DrainFails(b: Book, rest: seq<Entry>)
    requires Hands(Draining(rest), b)
    ensures var done := b.settled[..|b.settled| - |rest|];
      var after := done + All(rest, Discarded);
      && NoneIs(after, InHand) && Entries(after) == Entries(b.settled)
      && OnCard(after) == OnCard(b.settled) && CountDropped(after) == CountDropped(b.settled)
  {
    hide Entries, OnCard, CountDropped;
    var done := b.settled[..|b.settled| - |rest|];
    assert b.settled == done + All(rest, InHand);
    SettleAll(done, rest, InHand);
    SettleAll(done, rest, Discarded);
  }

  lemma DrainKeepsLog(s: State, error: int)
    requires Inv(s) && s.worker.Draining?
    ensures Log(WorkerStep(s, Drain(error)))
  {
    hide Entries, OnCard, CountDropped, NoteAppend, UiLife, AllMade;
    var b, rest := s.book, s.worker.rest;
    if rest == [] {
      assert b.settled[..|b.settled|] == b.settled;
    } else if error == 0 {
      NoteAppendKeeps(b, |b.settled| - |rest|, 0);
      DrainAppends(b, rest);
    } else {
      DrainFails(b, rest);
    }
  }

  lemma NoteAppendKeeps(b: Book, at: nat, error: int)
    requires at < |b.settled|
    ensures var after := NoteAppend(b, at, error);
      after.pushed == b.pushed && after.reports == b.reports && (error == 0 ==> after.failed == b.failed)
  {
  }

  /** The worker's steps that do not touch the log. */
  lemma OtherKeepsLog(s: State, e: Event)
    requires Inv(s) && !IsUi(e) && !IsSdk(e) && WorkerEnabled(s, e)
    requires !e.Select? && !e.Append? && !e.Record? && !e.DrainRecord? && !e.Detach? && !e.Drain?
    ensures Log(WorkerStep(s, e))
  {
    hide AllMade, Accounts, NoneIs, Awake, UiLife;
    if e.PushSent? { PushKeepsLog(s, s.worker.action.message.(timestamp := e.timestamp)); }
    else if e.Report? || e.DrainReport? { SameBook(s.book, WorkerStep(s, e).book, s.m.q); }
  }

  lemma SameBook(b: Book, c: Book, q: Queues)
    requires Accounts(b, q) && c == b.(reports := c.reports)
    ensures Accounts(c, q)
  {
  }

  lemma LogIndexed(s: State)
    requires Log(s)
    ensures Indexed(s)
  {
  }

  lemma ScreenKeeps(s: State, e: Event)
    requires Inv(s) && IsUi(e) && UiEnabled(s, e)
    ensures Life(UiStep(s, e)) && Awake(UiStep(s, e)) && Log(UiStep(s, e))
  {
    hide Awake, Log, UiStep, Indexed, AllMade;
    if e.Init? { InitKeepsLife(s, e); } else if Connects(e) { ConnectKeepsLife(s, e); } else { UiKeepsLife(s, e); }
    if StartsBook(s, e) { ResetKeepsLog(s, e); } else { UiKeepsLog(s, e); }
  }

  lemma WorkerKeepsLife(s: State, e: Event)
    requires Inv(s) && !IsUi(e) && !IsSdk(e) && WorkerEnabled(s, e)
    ensures Life(WorkerStep(s, e)) && Awake(WorkerStep(s, e))
  {
    hide Awake, Life, Log, WorkerStep;
    if e.Select? {
      SelectKeepsLife(s);
    } else if Cleaning(s.worker) {
      CleaningKeepsLife(s, e);
    } else if Logging(e) {
      LoggingKeepsLife(s, e);
    } else {
      ActingKeepsLife(s, e);
    }
  }

  lemma WorkerKeepsLog(s: State, e: Event)
    requires Inv(s) && !IsUi(e) && !IsSdk(e) && WorkerEnabled(s, e)
    ensures Log(WorkerStep(s, e))
  {
    hide Awake, Life, Log, WorkerStep;
    match e
    case Select => SelectKeepsLog(s);
    case Append(error) => AppendKeepsLog(s, error);
    case Record => RecordKeepsLog(s, e);
    case DrainRecord => RecordKeepsLog(s, e);
    case Detach => DetachKeepsLog(s);
    case Drain(error) => DrainKeepsLog(s, error);
    case _ => OtherKeepsLog(s, e);
  }

  lemma StepKeepsInv(s: State, e: Event)
    requires Inv(s) && Enabled(s, e)
    ensures Inv(Step(s, e))
  {
    hide Life, Awake, Log, Indexed, UiStep, SdkStep, WorkerStep;
    if IsUi(e) {
      ScreenKeeps(s, e);
    } else if IsSdk(e) {
      SdkKeepsLife(s, e);
      SdkKeepsLog(s, e);
    } else {
      WorkerKeepsLife(s, e);
      WorkerKeepsLog(s, e);
    }
    LogIndexed(Step(s, e));
  }

  // ---- Runs --------------------------------------------------------------------------------

  ghost predicate CanRun(s: State, events: seq<Event>)
    requires Inv(s)
    decreases |events|
  {
    events == [] || (Enabled(s, events[0]) && (StepKeepsInv(s, events[0]); CanRun(Step(s, events[0]), events[1..])))
  }

  ghost function Run(s: State, events: seq<Event>): (end: State)
    requires Inv(s) && CanRun(s, events)
    ensures Inv(end)
    decreases |events|
  {
    if events == [] then s else (StepKeepsInv(s, events[0]); Run(Step(s, events[0]), events[1..]))
  }

  // ---- No use of a destroyed client --------------------------------------------------------

  /** The client a step hands to the library, if it makes a library call. */
  function CalledOn(s: State, e: Event): Option<Handle>
    requires Enabled(s, e)
  {
    match e
    case StartClient(_) => s.m.client
    case DestroyUnstarted => Some(s.ui.handle)
    case Disconnect => s.m.client
    case Call(_) => Some(s.worker.action.client)
    case StopClient => Some(s.worker.handle)
    case DestroyClient => Some(s.worker.handle)
    case _ => None
  }

  predicate Calls(e: Event) {
    e.StartClient? || e.DestroyUnstarted? || e.Disconnect? || e.Call? || e.StopClient? || e.DestroyClient?
  }

  lemma CallIsSafe(s: State, e: Event)
    requires Inv(s) && Enabled(s, e)
    ensures Calls(e) ==> CalledOn(s, e).Some? && Live(s, CalledOn(s, e).value)
  {
    hide Awake, Log, AllMade, Indexed;
    if Calls(e) {
      match e
      case StartClient(_) =>
      case DestroyUnstarted =>
      case Disconnect =>
      case Call(_) =>
      case StopClient =>
      case DestroyClient =>
    }
  }

  /** Main result, for every reachable state: every library call is made on a client that exists, and
      a pending or running action is for the live client or the one to be cleaned up. */
  lemma CallsAreSafe(sdPresent: bool, events: seq<Event>, e: Event)
    requires CanRun(Initial(sdPresent), events) && Enabled(Run(Initial(sdPresent), events), e)
    ensures var s := Run(Initial(sdPresent), events);
      && (Calls(e) ==> CalledOn(s, e).Some? && Live(s, CalledOn(s, e).value))
      && (s.m.pending.Some? ==> InUse(s, s.m.pending.value.client) && Live(s, s.m.pending.value.client))
      && (s.worker.Calling? ==> InUse(s, s.worker.action.client))
  {
    hide Awake, Log, AllMade, Indexed, Enabled, UiLife, Run, CanRun, CalledOn, Initial;
    CallIsSafe(Run(Initial(sdPresent), events), e);
  }

  /** Main result: a client is destroyed only when no action is pending or running and its network
      task has ended, and only once; nothing else destroys. */
  lemma DestroyedOnce(s: State, e: Event, h: Handle)
    requires Inv(s) && Enabled(s, e) && h !in s.destroyed && h in Step(s, e).destroyed
    ensures s.sdk != Some(h)
    ensures e == DestroyClient || e == DestroyUnstarted ==> CalledOn(s, e) == Some(h) && Live(s, h)
    ensures e == DestroyClient || e == DestroyUnstarted || (e == Init(NotRegistered) && h == s.created)
    ensures !s.m.busy && s.m.pending.None? && !Acting(s.worker)
  {
    hide Awake, Accounts, Failing, NoneIs, AllAre, AllMade;
    if !IsUi(e) && !IsSdk(e) { WorkerDestroys(s, e); }
  }

  lemma WorkerDestroys(s: State, e: Event)
    requires !IsUi(e) && !IsSdk(e) && WorkerEnabled(s, e)
    requires Indexed(s)
    ensures WorkerStep(s, e).destroyed == s.destroyed + if e.DestroyClient? then {s.worker.handle} else {}
  {
    match e
    case Take =>
    case Select =>
    case Decide =>
    case Call(_) =>
    case PushSent(_) =>
    case WorkerNotify =>
    case Free =>
    case Append(_) =>
    case Record =>
    case Report =>
    case Check =>
    case Give =>
    case StopClient =>
    case DestroyClient =>
    case Detach =>
    case Drain(_) =>
    case DrainRecord =>
    case DrainReport =>
    case Finish =>
  }

  /** A destroyed client stays destroyed, whatever follows. */
  lemma {:induction false} StaysDestroyed(s: State, events: seq<Event>, h: Handle)
    requires Inv(s) && CanRun(s, events) && h in s.destroyed
    ensures h in Run(s, events).destroyed && !Live(Run(s, events), h)
    decreases |events|
  {
    hide Life, Awake, Log;
    if events != [] {
      StepKeepsInv(s, events[0]);
      StaysDestroyed(Step(s, events[0]), events[1..], h);
    }
  }

  // ---- No stranded work --------------------------------------------------------------------

  /** Main result, for every reachable state: a waiting worker with an action, a cleanup or a log entry
      to deal with has a notification pending, or the task that queued it is about to give one. */
  lemma NothingStranded(sdPresent: bool, events: seq<Event>)
    requires CanRun(Initial(sdPresent), events)
    ensures var s := Run(Initial(sdPresent), events);
      s.worker.Blocked? && (s.m.pending.Some? || s.m.cleanup.Some? || s.m.q.log != []) ==>
        s.notified > 0 || s.ui.MustNotify? || s.sdkNotify
  {
    hide Life, Log, Run, CanRun, Initial;
  }

  /** Steps that add no work: the worker's own, and giving a promised notification. */
  predicate Internal(e: Event) { e.UiNotify? || e.SdkNotify? || (!IsUi(e) && !IsSdk(e)) }

  ghost predicate Still(s: State) { forall e :: Internal(e) ==> !Enabled(s, e) }

  function WorkerRank(w: Worker): nat {
    match w
    case Blocked => 0
    case Selecting => 1
    case Deciding(_) => 23
    case Calling(_) => 22
    case Pushing(_) => 21
    case Announced => 8
    case Freeing => 5
    case Appending(_, _) => 7
    case Recording(_) => 6
    case Reporting => 5
    case Checking => 4
    case Giving => 3
    case Stopping(_) => 7
    case Dismantling(_) => 6
    case Detaching => 5
    case Draining(rest) => 4 + |rest|
    case DrainRecording(_) => 3
    case DrainReporting(_) => 2
    case Finishing => 1
  }

  /** An upper bound on the internal steps still to come. */
  function Rank(s: State): nat {
    WorkerRank(s.worker) + 12 * |s.m.q.log|
    + (if s.m.pending.Some? then 23 else 0)
    + (if s.m.cleanup.Some? && !Cleaning(s.worker) then 7 else 0)
    + (if s.notified > 0 then 2 else 0) + (if s.sdkNotify then 3 else 0) + (if s.ui.MustNotify? then 3 else 0)
  }

  lemma SelectDescends(s: State)
    requires s.worker.Selecting?
    ensures Rank(WorkerStep(s, Select)) < Rank(s)
  {
  }

  lemma ActingDescends(s: State, e: Event)
    requires !IsUi(e) && !IsSdk(e) && WorkerEnabled(s, e) && !e.Select? && !Cleaning(s.worker)
    requires Indexed(s)
    ensures Rank(WorkerStep(s, e)) < Rank(s)
  {
    match e
    case Take =>
    case Decide =>
    case Call(_) =>
    case PushSent(_) =>
    case WorkerNotify =>
    case Free =>
    case Append(_) =>
    case Record =>
    case Report =>
    case Check =>
    case Give =>
  }

  lemma DetachingDescends(s: State, e: Event)
    requires (e.StopClient? || e.DestroyClient? || e.Detach?) && WorkerEnabled(s, e) && Indexed(s)
    ensures Rank(WorkerStep(s, e)) < Rank(s)
  {
    match e
    case StopClient =>
    case DestroyClient =>
    case Detach =>
  }

  lemma DrainingDescends(s: State, e: Event)
    requires e.Drain? && WorkerEnabled(s, e) && Indexed(s)
    ensures Rank(WorkerStep(s, e)) < Rank(s)
  {
  }

  lemma EndingDescends(s: State, e: Event)
    requires (e.DrainRecord? || e.DrainReport? || e.Finish?) && WorkerEnabled(s, e) && Indexed(s)
    ensures Rank(WorkerStep(s, e)) < Rank(s)
  {
    match e
    case DrainRecord =>
    case DrainReport =>
    case Finish =>
  }

  lemma CleaningDescends(s: State, e: Event)
    requires !IsUi(e) && !IsSdk(e) && WorkerEnabled(s, e) && Cleaning(s.worker) && Indexed(s)
    ensures Rank(WorkerStep(s, e)) < Rank(s)
  {
    hide Rank, WorkerStep;
    match e
    case Drain(_) => DrainingDescends(s, e);
    case StopClient => DetachingDescends(s, e);
    case DestroyClient => DetachingDescends(s, e);
    case Detach => DetachingDescends(s, e);
    case _ => EndingDescends(s, e);
  }

  lemma InternalStepsDescend(s: State, e: Event)
    requires Inv(s) && Enabled(s, e) && Internal(e)
    ensures Rank(Step(s, e)) < Rank(s)
  {
    hide Life, Awake, Accounts, Failing, NoneIs, AllAre, WorkerStep;
    if !IsUi(e) && !IsSdk(e) {
      if e.Select? {
        SelectDescends(s);
      } else if Cleaning(s.worker) {
        CleaningDescends(s, e);
      } else {
        ActingDescends(s, e);
      }
    }
  }

  /** The worker's next step, whatever the library or the card answers. */
  function NextStep(w: Worker): Event {
    match w
    case Blocked => Take
    case Selecting => Select
    case Deciding(_) => Decide
    case Calling(_) => Call(0)
    case Pushing(_) => PushSent(0)
    case Announced => WorkerNotify
    case Freeing => Free
    case Appending(_, _) => Append(0)
    case Recording(_) => Record
    case Reporting => Report
    case Checking => Check
    case Giving => Give
    case Stopping(_) => StopClient
    case Dismantling(_) => DestroyClient
    case Detaching => Detach
    case Draining(_) => Drain(0)
    case DrainRecording(_) => DrainRecord
    case DrainReporting(_) => DrainReport
    case Finishing => Finish
  }

  /** The worker is never stuck in the middle of its work, and any promised notification can be given. */
  lemma SomethingCanHappen(s: State)
    requires Life(s) && (!s.worker.Blocked? || s.notified > 0 || s.sdkNotify || s.ui.MustNotify?)
    ensures !Still(s)
  {
    hide UiLife, AllMade;
    if s.sdkNotify {
      assert Enabled(s, SdkNotify);
    } else if s.ui.MustNotify? {
      assert Enabled(s, UiNotify);
    } else {
      assert Enabled(s, NextStep(s.worker));
    }
  }

  /** When nothing internal can happen, nothing is left to do: no work queued, no session stopping. */
  lemma StillMeansDone(s: State)
    requires Inv(s) && Still(s)
    ensures s.worker.Blocked? && !s.m.HasWork() && !s.m.busy && !s.m.stopping
  {
    hide Log, AllMade, UiLife, Still;
    if !s.worker.Blocked? || s.notified > 0 || s.sdkNotify || s.ui.MustNotify? { SomethingCanHappen(s); }
  }

  predicate Ending(s: State) { s.m.client.None? && (s.ui.Idle? || s.ui.MustNotify? || s.ui.Showing?) }

  lemma EndingStays(s: State, e: Event)
    requires Inv(s) && Enabled(s, e) && Internal(e) && Ending(s)
    ensures Ending(Step(s, e))
  {
    hide Life, Awake, Accounts, Failing, NoneIs, AllAre, WorkerStep;
    if !IsUi(e) && !IsSdk(e) { WorkerLeavesScreen(s, e); }
  }

  lemma WorkerLeavesScreen(s: State, e: Event)
    requires !IsUi(e) && !IsSdk(e) && WorkerEnabled(s, e)
    requires Indexed(s)
    ensures WorkerStep(s, e).ui == s.ui && WorkerStep(s, e).m.client == s.m.client
  {
    match e
    case Take =>
    case Select =>
    case Decide =>
    case Call(_) =>
    case PushSent(_) =>
    case WorkerNotify =>
    case Free =>
    case Append(_) =>
    case Record =>
    case Report =>
    case Check =>
    case Give =>
    case StopClient =>
    case DestroyClient =>
    case Detach =>
    case Drain(_) =>
    case DrainRecord =>
    case DrainReport =>
    case Finish =>
  }

  /** Main result: without new work every run stops within `Rank` steps, and when it can go no further
      nothing is queued; a session that was stopping is then fully stopped. */
  lemma {:induction false} RunsDrain(s: State, events: seq<Event>)
    requires Inv(s) && CanRun(s, events) && forall e :: e in events ==> Internal(e)
    ensures |events| + Rank(Run(s, events)) <= Rank(s)
    ensures Still(Run(s, events)) ==>
      !Run(s, events).m.HasWork() && !Run(s, events).m.busy && !Run(s, events).m.stopping
    ensures Still(Run(s, events)) && Ending(s) ==> !Run(s, events).m.running && Ending(Run(s, events))
    decreases |events|
  {
    hide Awake, Log, AllMade, Rank, Step;
    if events != [] {
      var next := Step(s, events[0]);
      StepKeepsInv(s, events[0]);
      InternalStepsDescend(s, events[0]);
      if Ending(s) { EndingStays(s, events[0]); }
      RunsDrain(next, events[1..]);
    } else if Still(s) {
      StillMeansDone(s);
    }
  }

  // ---- The session's log -------------------------------------------------------------------

  /** Entries only ever join at the end, and a fate once decided is final. */
  predicate Extends(before: seq<Settled>, after: seq<Settled>) {
    && |before| <= |after|
    && forall i :: 0 <= i < |before| ==>
         after[i].entry == before[i].entry && (before[i].fate.InHand? || after[i].fate == before[i].fate)
  }

  /** Main result: until the next session opens a new book, a step only adds to what was pushed,
      settles entries for good, writes at most one entry to the card after all the others, and writes
      nothing once an append has failed. */
  lemma LogOnlyGrows(s: State, e: Event)
    requires Inv(s) && Enabled(s, e) && !StartsBook(s, e)
    ensures Grows(s.book, Step(s, e).book)
  {
    hide Awake, UiLife, AllMade, Accounts, NoneIs, AllAre, Failing, UiStep, WorkerStep;
    if IsUi(e) {
      UiLeavesBook(s, e);
    } else if !IsSdk(e) {
      WorkerLogGrows(s, e);
    }
  }

  predicate Grows(before: Book, after: Book) {
    && before.pushed <= after.pushed && Extends(before.settled, after.settled)
    && before.sd <= after.sd && |after.sd| <= |before.sd| + 1
    && (before.failed ==> after.failed && after.sd == before.sd)
  }

  lemma WorkerLogGrows(s: State, e: Event)
    requires Indexed(s) && Hands(s.worker, s.book) && !IsUi(e) && !IsSdk(e) && WorkerEnabled(s, e)
    ensures Grows(s.book, WorkerStep(s, e).book)
  {
    hide NoneIs, AllAre, Shared.Select;
    if e.Drain? && s.worker.rest != [] {
      var from := |s.book.settled| - |s.worker.rest|;
      forall i | from <= i < |s.book.settled| ensures s.book.settled[i] == Settled(s.worker.rest[i - from], InHand) {
        assert s.book.settled[from..][i - from] == s.book.settled[i];
      }
    }
  }

  lemma UiLeavesBook(s: State, e: Event)
    requires Life(s) && IsUi(e) && UiEnabled(s, e) && !StartsBook(s, e)
    ensures UiStep(s, e).book == s.book
  {
    hide AllMade;
    if e.Release? { RestsBetweenSessions(s); }
    UiLeavesLog(s, e);
  }

  /** Main result, for every reachable state between sessions: every entry pushed in the session has
      its final fate, in push order; the card has exactly the appended ones; without a failed append
      every other one was dropped, and the counter says how many as far as it goes; a failed append
      was reported once. */
  lemma SessionIsAccountedFor(sdPresent: bool, events: seq<Event>)
    requires CanRun(Initial(sdPresent), events)
    ensures var s := Run(Initial(sdPresent), events);
      !s.m.running ==>
        && s.book.pushed == Entries(s.book.settled) && NoneIs(s.book.settled, InHand)
        && s.book.sd == OnCard(s.book.settled)
        && (!s.book.failed ==>
             NoneIs(s.book.settled, Discarded) && |s.book.pushed| == |s.book.sd| + CountDropped(s.book.settled))
        && s.m.q.logDropped == Min(CountDropped(s.book.settled), UINT_MAX)
        && s.book.reports == if s.book.failed then 1 else 0
  {
    hide UiLife, AllMade, Run, CanRun, Initial;
    var s := Run(Initial(sdPresent), events);
    if !s.m.running {
      RestsBetweenSessions(s);
      assert s.book.pushed == Entries(s.book.settled);
      if !s.book.failed { AppendedOrDropped(s.book.settled); }
    }
  }

  lemma {:induction false} AppendedOrDropped(settled: seq<Settled>)
    requires NoneIs(settled, InHand) && NoneIs(settled, Discarded)
    ensures |OnCard(settled)| + CountDropped(settled) == |settled|
  {
    if settled != [] { AppendedOrDropped(settled[..|settled| - 1]); }
  }
}
