/** What the events of a run say by themselves about logging and about being online, without a look at the
    shared variables; then the proof that entries are logged and actions accepted exactly accordingly. */
module MqttHistory {
  import opened Bytes
  import opened MqttShared
  import opened MqttSession

  datatype Setting = Setting(on: bool, card: bool)

  /** The log button and the card, what the button and the card were when a stopping session was handed
      over, whether a session runs, has lost its log, is connected, and whether an action is under way. */
  datatype Story = Story(
    button: Setting, held: Option<Setting>, running: bool, failed: bool, online: bool, acting: bool)
  {
    /** The setting that counts now. */
    function Counts(): Setting { if held.Some? then held.value else button }

    predicate LogOn() { Counts().on && Counts().card && !failed }

    predicate Accepts() { running && online && held.None? && !acting }

    function Told(e: Event): Story {
      match e
      case Show(sd) => this.(button := Setting(false, sd), failed := failed && running)
      case ToggleLog => if running && failed then this else this.(button := button.(on := !button.on))
      case Release => this.(button := button.(on := false))
      case Connect => this.(failed := false)
      case Announce => this.(running := true, online := false)
      case Abandon => this.(running := false, online := false)
      case HandOver => this.(held := Some(button), button := button.(on := false), online := false)
      case Queue(_, _) => this.(acting := acting || Accepts())
      case Connected => this.(online := online || held.None?)
      case Disconnected => this.(online := false)
      case Failed => this.(online := online && held.Some?)
      case Free => this.(acting := false)
      case Record => this.(failed := true, button := button.(on := false), held := Silenced())
      case DrainRecord => this.(failed := true, button := button.(on := false), held := Silenced())
      case Finish => this.(held := None, running := false, online := false)
      case _ => this
    }

    function Silenced(): Option<Setting> { if held.Some? then Some(held.value.(on := false)) else None }
  }

  /** Before the first event: the button is off. */
  function Opening(sdPresent: bool): Story { Story(Setting(false, sdPresent), None, false, false, false, false) }

  function Tale(k: Story, events: seq<Event>): Story
    decreases |events|
  {
    if events == [] then k else Tale(k.Told(events[0]), events[1..])
  }

  /** The story the shared variables tell. */
  function Seen(m: Shared): Story {
    Story(Setting(m.logging, m.sdPresent), if m.stopping then Some(Setting(m.cleanupLog, m.cleanupSd)) else None,
          m.running, m.logError != 0, m.connected, m.busy)
  }

  predicate Agrees(k: Story, m: Shared) { k == Seen(m) }

  lemma PushAgrees(k: Story, m: Shared, message: Message)
    requires Agrees(k, m)
    ensures Agrees(k, m.PushMessage(message))
  {
    hide Pushed;
  }

  lemma SelectAgrees(m: Shared)
    ensures Seen(m.Select()) == Seen(m)
  {
  }

  lemma ClientAgrees(k: Story, s: State, e: Event)
    requires (e.Init? || e.StartClient? || e.DestroyUnstarted?) && UiEnabled(s, e) && Agrees(k, s.m)
    requires s.ui.Starting? ==> s.m.client.Some?
    ensures Agrees(k.Told(e), UiStep(s, e).m)
  {
    match e
    case Init(_) =>
    case StartClient(_) =>
    case DestroyUnstarted =>
  }

  lemma ScreenAgrees(k: Story, s: State, e: Event)
    requires (e.Shown? || e.Tick? || e.Disconnect? || e.UiNotify?) && UiEnabled(s, e) && Agrees(k, s.m)
    ensures Agrees(k.Told(e), UiStep(s, e).m)
  {
    match e
    case Shown(_) =>
    case Tick(_) =>
    case Disconnect =>
    case UiNotify =>
  }

  lemma SessionAgrees(k: Story, s: State, e: Event)
    requires (e.Connect? || e.Announce? || e.Abandon? || e.HandOver? || e.Queue?) && UiEnabled(s, e) && Agrees(k, s.m)
    requires (s.ui.Starting? || s.ui.HandingOver? ==> s.m.client.Some?) && (s.ui.Abandoning? ==> !s.m.stopping)
    requires s.ui.Idle? && s.m.running && !s.m.stopping ==> s.m.client.Some?
    ensures Agrees(k.Told(e), UiStep(s, e).m)
  {
    match e
    case Connect =>
    case Announce =>
    case Abandon =>
    case HandOver =>
    case Queue(_, _) =>
  }

  lemma ButtonAgrees(k: Story, s: State, e: Event)
    requires (e.Show? || e.ToggleLog? || e.Release? || e.ReadMessage?) && UiEnabled(s, e) && Agrees(k, s.m)
    ensures Agrees(k.Told(e), UiStep(s, e).m)
  {
    match e
    case Show(_) =>
    case ToggleLog =>
    case Release =>
    case ReadMessage =>
  }

  lemma UiAgrees(k: Story, s: State, e: Event)
    requires Inv(s) && IsUi(e) && UiEnabled(s, e) && Agrees(k, s.m)
    ensures Agrees(k.Told(e), UiStep(s, e).m)
  {
    hide Awake, Log, AllMade, Indexed, Agrees, UiStep;
    if e.Init? || e.StartClient? || e.DestroyUnstarted? {
      ClientAgrees(k, s, e);
    } else if e.Shown? || e.Tick? || e.Disconnect? || e.UiNotify? {
      ScreenAgrees(k, s, e);
    } else if e.Show? || e.ToggleLog? || e.Release? || e.ReadMessage? {
      ButtonAgrees(k, s, e);
    } else {
      SessionAgrees(k, s, e);
    }
  }

  lemma SdkAgrees(k: Story, s: State, e: Event)
    requires Inv(s) && IsSdk(e) && SdkEnabled(s, e) && Agrees(k, s.m)
    ensures Agrees(k.Told(e), SdkStep(s, e).m)
  {
    hide Inv;
  }

  predicate ErrorsShow(w: Worker) { (w.Recording? || w.DrainRecording?) ==> w.error != 0 }

  lemma CleaningAgrees(k: Story, s: State, e: Event)
    requires !IsUi(e) && !IsSdk(e) && WorkerEnabled(s, e) && Indexed(s) && Cleaning(s.worker)
    requires ErrorsShow(s.worker) && Agrees(k, s.m)
    ensures Agrees(k.Told(e), WorkerStep(s, e).m)
  {
    match e
    case StopClient =>
    case DestroyClient =>
    case Detach =>
    case Drain(_) =>
    case DrainRecord =>
    case DrainReport =>
    case Finish =>
  }

  lemma LoggingAgrees(k: Story, s: State, e: Event)
    requires (e.Append? || e.Record? || e.Report?) && WorkerEnabled(s, e) && Indexed(s)
    requires ErrorsShow(s.worker) && Agrees(k, s.m)
    ensures Agrees(k.Told(e), WorkerStep(s, e).m)
  {
    match e
    case Append(_) =>
    case Record =>
    case Report =>
  }

  lemma ActingAgrees(k: Story, s: State, e: Event)
    requires !IsUi(e) && !IsSdk(e) && WorkerEnabled(s, e) && !Cleaning(s.worker)
    requires !(e.Append? || e.Record? || e.Report?) && Indexed(s) && Agrees(k, s.m)
    ensures Agrees(k.Told(e), WorkerStep(s, e).m)
  {
    hide Shared.Select, Shared.PushMessage;
    match e
    case Take =>
    case Select => SelectAgrees(s.m);
    case Decide =>
    case Call(_) =>
    case PushSent(timestamp) => PushAgrees(k, s.m, s.worker.action.message.(timestamp := timestamp));
    case WorkerNotify =>
    case Free =>
    case Check =>
    case Give =>
  }

  lemma StepAgrees(k: Story, s: State, e: Event)
    requires Inv(s) && Enabled(s, e) && Agrees(k, s.m)
    ensures Agrees(k.Told(e), Step(s, e).m)
  {
    hide Agrees, Awake, Accounts, Hands, AllMade, UiStep, SdkStep, WorkerStep;
    if IsUi(e) {
      UiAgrees(k, s, e);
    } else if IsSdk(e) {
      SdkAgrees(k, s, e);
    } else if Cleaning(s.worker) {
      CleaningAgrees(k, s, e);
    } else if e.Append? || e.Record? || e.Report? {
      LoggingAgrees(k, s, e);
    } else {
      ActingAgrees(k, s, e);
    }
  }

  lemma {:induction false} RunAgrees(k: Story, s: State, events: seq<Event>)
    requires Inv(s) && CanRun(s, events) && Agrees(k, s.m)
    ensures Agrees(Tale(k, events), Run(s, events).m)
    decreases |events|
  {
    hide Agrees, Inv, Step, Enabled;
    if events != [] {
      StepKeepsInv(s, events[0]);
      StepAgrees(k, s, events[0]);
      RunAgrees(k.Told(events[0]), Step(s, events[0]), events[1..]);
    }
  }

  /** The message a step takes in or has just sent. */
  function Handled(s: State, e: Event): Option<Message>
    requires Enabled(s, e)
  {
    match e
    case Data(message) => Some(message)
    case PushSent(timestamp) => Some(s.worker.action.message.(timestamp := timestamp))
    case _ => None
  }

  /** What joins the log when this message comes or goes. */
  function Entered(s: State, k: Story, message: Option<Message>): seq<Entry> {
    if message.Some? && s.m.buffers && k.LogOn() then [EntryOf(message.value)] else []
  }

  lemma WorkerPushes(k: Story, s: State, e: Event)
    requires Inv(s) && !IsUi(e) && !IsSdk(e) && WorkerEnabled(s, e) && Agrees(k, s.m)
    ensures WorkerStep(s, e).book.pushed ==
            s.book.pushed +
            Entered(s, k, if e.PushSent? then Some(s.worker.action.message.(timestamp := e.timestamp)) else None)
  {
    hide Life, Awake, Log;
    match e
    case Take =>
    case Select =>
    case Decide =>
    case Call(_) =>
    case PushSent(_) =>
    case WorkerNotify =>
    case Free =>
    case Append(_) =>
    case Record =>
    case Report =>
    case Check =>
    case Give =>
    case StopClient =>
    case DestroyClient =>
    case Detach =>
    case Drain(_) =>
    case DrainRecord =>
    case DrainReport =>
    case Finish =>
  }

  lemma StepLogs(k: Story, s: State, e: Event)
    requires Inv(s) && Enabled(s, e) && !StartsBook(s, e) && Agrees(k, s.m)
    ensures Step(s, e).book.pushed ==
            s.book.pushed + Entered(s, k, Handled(s, e))
  {
    hide Life, Awake, Log, UiStep;
    if IsUi(e) {
      UiLeavesBook(s, e);
    } else if !IsSdk(e) {
      WorkerPushes(k, s, e);
    }
  }

  /** Main result, for every reachable state and every next step within a session's book: an entry is
      logged exactly when the step takes in or has sent a message, the rings exist, and the events so
      far left the log on: the button on and a card there, at the hand-over if the session is stopping,
      and no append failed. The entry is that message's, behind all others. */
  lemma LoggedExactlyWhenOn(sdPresent: bool, events: seq<Event>, e: Event)
    requires CanRun(Initial(sdPresent), events) && Enabled(Run(Initial(sdPresent), events), e)
    requires !StartsBook(Run(Initial(sdPresent), events), e)
    ensures var s, k := Run(Initial(sdPresent), events), Tale(Opening(sdPresent), events);
      Step(s, e).book.pushed ==
        s.book.pushed + if Handled(s, e).Some? && s.m.buffers && k.LogOn() then [EntryOf(Handled(s, e).value)] else []
  {
    hide Run, CanRun, Tale, Inv, Step, Enabled, StartsBook, Handled, Agrees;
    OpeningAgrees(sdPresent);
    RunAgrees(Opening(sdPresent), Initial(sdPresent), events);
    StepLogs(Tale(Opening(sdPresent), events), Run(Initial(sdPresent), events), e);
  }

  lemma OpeningAgrees(sdPresent: bool)
    ensures Agrees(Opening(sdPresent), Initial(sdPresent).m)
  {
  }

  /** A button that is off stays off until it is tapped, also for a session handed over meanwhile. */
  lemma {:induction false} OffUntilTapped(k: Story, events: seq<Event>)
    requires !k.button.on && (k.held.Some? ==> !k.held.value.on) && ToggleLog !in events
    ensures !Tale(k, events).LogOn()
    decreases |events|
  {
    if events != [] {
      assert events[0] in events;
      OffUntilTapped(k.Told(events[0]), events[1..]);
    }
  }

  lemma {:induction false} TaleAppends(k: Story, s: seq<Event>, t: seq<Event>)
    ensures Tale(k, s + t) == Tale(Tale(k, s), t)
    decreases |s|
  {
    if s == [] {
      assert s + t == t;
    } else {
      assert (s + t)[1..] == s[1..] + t;
      TaleAppends(k.Told(s[0]), s[1..], t);
    }
  }

  /** Nothing is logged after the screen was shown, no session stopping, until the button is tapped. */
  lemma NothingLoggedUntapped(sdPresent: bool, before: seq<Event>, sd: bool, after: seq<Event>, e: Event)
    requires CanRun(Initial(sdPresent), before + [Show(sd)] + after)
    requires Enabled(Run(Initial(sdPresent), before + [Show(sd)] + after), e)
    requires !StartsBook(Run(Initial(sdPresent), before + [Show(sd)] + after), e)
    requires Tale(Opening(sdPresent), before).held.None? && ToggleLog !in after
    ensures var s := Run(Initial(sdPresent), before + [Show(sd)] + after);
      Step(s, e).book.pushed == s.book.pushed
  {
    hide Run, CanRun, Tale, Inv, Step, Enabled, StartsBook, Handled, Agrees;
    var k := Tale(Opening(sdPresent), before);
    LoggedExactlyWhenOn(sdPresent, before + [Show(sd)] + after, e);
    TaleAppends(Opening(sdPresent), before + [Show(sd)], after);
    TaleAppends(Opening(sdPresent), before, [Show(sd)]);
    OneEvent(k, Show(sd));
    OffUntilTapped(k.Told(Show(sd)), after);
  }

  lemma OneEvent(k: Story, e: Event)
    ensures Tale(k, [e]) == k.Told(e)
  {
    assert [e][1..] == [];
  }

  /** Main result, for every reachable state: an action is accepted exactly when, by the events so far, a
      session runs, is connected and not stopping, and no action is under way; it then waits for the
      worker on behalf of the live client, and a refused one changes nothing. */
  lemma ActionsAccepted(sdPresent: bool, events: seq<Event>, publish: bool, message: Message)
    requires CanRun(Initial(sdPresent), events)
    requires Enabled(Run(Initial(sdPresent), events), Queue(publish, message))
    ensures var s, k := Run(Initial(sdPresent), events), Tale(Opening(sdPresent), events);
      var next := Step(s, Queue(publish, message));
      if k.Accepts() then
        s.m.client.Some? && Live(s, s.m.client.value) && s.m.pending.None? &&
        next.m.pending == Some(Action(s.m.client.value, publish, message))
      else next == s
  {
    hide Run, CanRun, Tale, Awake, Log, AllMade, Indexed;
    OpeningAgrees(sdPresent);
    RunAgrees(Opening(sdPresent), Initial(sdPresent), events);
  }

  // ---- A stopping session keeps its settings -----------------------------------------------

  lemma {:induction false} OneMore(s: State, events: seq<Event>, e: Event)
    requires Inv(s) && CanRun(s, events) && Enabled(Run(s, events), e)
    ensures CanRun(s, events + [e]) && Run(s, events + [e]) == Step(Run(s, events), e)
    decreases |events|
  {
    hide Inv, Enabled, Step;
    if events == [] {
      assert [] + [e] == [e] && [e][1..] == [];
      StepKeepsInv(s, e);
    } else {
      assert (events + [e])[1..] == events[1..] + [e] && (events + [e])[0] == events[0];
      StepKeepsInv(s, events[0]);
      OneMore(Step(s, events[0]), events[1..], e);
    }
  }

  /** What the shared variables and the tasks are in the run below. */
  function Logging(ui: Ui, client: Option<Handle>, started: bool, running: bool, buffers: bool, created: nat): State {
    State(Shared(client, started, running, false, false, false, None, None, false, false, false, true, true, 0, false,
                 buffers, Queues([], 0, [], 0)),
          ui, if started then client else None, false, Blocked, 0, created, {}, BLANK)
  }

  lemma Connecting() returns (events: seq<Event>)
    ensures CanRun(Initial(true), events)
    ensures Run(Initial(true), events) == Logging(Initing, None, false, false, true, 0)
  {
    var s := Initial(true);
    assert CanRun(s, []) && Run(s, []) == s;
    hide Inv, CanRun, Run;
    events := [];
    OneMore(s, events, ToggleLog);
    events := events + [ToggleLog];
    assert Run(s, events) == Logging(Ui.Idle, None, false, false, false, 0);
    OneMore(s, events, Connect);
    events := events + [Connect];
  }

  lemma Started() returns (events: seq<Event>)
    ensures CanRun(Initial(true), events)
    ensures Run(Initial(true), events) == Logging(Ui.Idle, Some(0), true, true, true, 1)
  {
    hide Inv, CanRun, Run, Initial;
    var s := Initial(true);
    events := Connecting();
    OneMore(s, events, Init(Ready));
    events := events + [Init(Ready)];
    assert Run(s, events) == Logging(Announcing, Some(0), false, false, true, 1);
    OneMore(s, events, Announce);
    events := events + [Announce];
    assert Run(s, events) == Logging(Starting, Some(0), false, true, true, 1);
    OneMore(s, events, StartClient(true));
    events := events + [StartClient(true)];
  }

  function StoppingSession(ui: Ui, notified: nat): State {
    State(Shared(None, false, true, true, false, false, None, Some(0), true, true, true, false, true, 0, false,
                 true, Queues([], 0, [], 0)),
          ui, Some(0), false, Blocked, notified, 1, {}, BLANK)
  }

  lemma HandedOver() returns (events: seq<Event>)
    ensures CanRun(Initial(true), events) && Run(Initial(true), events) == StoppingSession(Ui.Idle, 1)
  {
    hide Inv, CanRun, Run, Initial;
    var s := Initial(true);
    events := Started();
    OneMore(s, events, Disconnect);
    events := events + [Disconnect];
    assert Run(s, events) == Logging(Ui.Idle, Some(0), true, true, true, 1).(ui := HandingOver);
    OneMore(s, events, HandOver);
    events := events + [HandOver];
    assert Run(s, events) == StoppingSession(MustNotify, 0);
    OneMore(s, events, UiNotify);
    events := events + [UiNotify];
  }

  /** A run in which a message is logged although the button was not tapped since the screen was shown:
      the screen was left and shown again while the session it had logged was stopping. */
  lemma LoggedThoughUntapped(message: Message) returns (events: seq<Event>)
    ensures |events| > 0 && events[|events| - 1] == Shown(false)
    ensures |events| > 1 && events[|events| - 2] == Show(true)
    ensures CanRun(Initial(true), events) && Enabled(Run(Initial(true), events), Data(message))
    ensures Step(Run(Initial(true), events), Data(message)).book.pushed == [EntryOf(message)]
  {
    hide Inv, CanRun, Run, Initial;
    var s := Initial(true);
    events := HandedOver();
    OneMore(s, events, Show(true));
    events := events + [Show(true)];
    assert Run(s, events) == StoppingSession(Showing, 1);
    OneMore(s, events, Shown(false));
    events := events + [Shown(false)];
    assert Run(s, events) == StoppingSession(Ui.Idle, 1);
  }
}
