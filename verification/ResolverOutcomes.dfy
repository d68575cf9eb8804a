/** Why a name lookup fails: every error a caller is given has its cause among the events of the run. */
module ResolverOutcomes {
  import opened Bytes
  import opened Resolver
  import opened ResolverRuns

  /** Which event, on the k-th lookup itself, calls for this error. */
  predicate Explains(e: Event, k: nat, deadline: int, error: Errno) {
    match error
    case Success => false
    case TimedOut =>
      && ((e.Check? && !e.cancelled) || e.Dispatch?)
      && e.k == k && e.now >= deadline
    case Canceled => e.Check? && e.k == k && e.cancelled
    case NoMemory =>
      || (e.Post? && e.k == k && !e.accepted)
      || (e.Query? && e.k == k && e.reply.OutOfMemory?)
    case Unreachable =>
      || (e.Query? && e.k == k && e.reply.Refused?)
      || (e.Callback? && e.k == k && e.addresses.None?)
  }

  ghost predicate Caused(past: seq<Event>, k: nat, deadline: int, error: Errno) {
    exists i :: 0 <= i < |past| && Explains(past[i], k, deadline, error)
  }

  /** The errors a call has met so far: on its way out, in its finished lookup, or still to be delivered. */
  ghost predicate Told(s: State, past: seq<Event>, k: nat)
    requires k < |s.calls| == |s.table.lookups|
  {
    var l, c := s.table.lookups[k], s.calls[k];
    && (c.phase.Leaving? || c.phase.Returned? ==> c.phase.error == Success || Caused(past, k, l.deadline, c.phase.error))
    && (l.done ==> l.error == Success || Caused(past, k, l.deadline, l.error))
    && (k in s.pending && s.pending[k].stage.Answering? ==>
          s.pending[k].stage.error == Success || Caused(past, k, l.deadline, s.pending[k].stage.error))
    && (k in s.pending && s.pending[k].stage.Querying? ==> s.pending[k].stage.host == l.host)
  }

  ghost predicate AllTold(s: State, past: seq<Event>)
    requires |s.calls| == |s.table.lookups|
  {
    forall k :: 0 <= k < |s.calls| ==> Told(s, past, k)
  }

  lemma CausedLater(past: seq<Event>, e: Event, k: nat, deadline: int, error: Errno)
    ensures Caused(past, k, deadline, error) ==> Caused(past + [e], k, deadline, error)
    ensures Explains(e, k, deadline, error) ==> Caused(past + [e], k, deadline, error)
  {
    hide Explains;
    var after := past + [e];
    if Caused(past, k, deadline, error) {
      var i :| 0 <= i < |past| && Explains(past[i], k, deadline, error);
      assert after[i] == past[i];
    }
    if Explains(e, k, deadline, error) { assert after[|past|] == e; }
  }

  /** A call whose own part of the state a step leaves alone. */
  lemma Untouched(s: State, next: State, past: seq<Event>, e: Event, k: nat)
    requires k < |s.calls| == |s.table.lookups| && k < |next.calls| == |next.table.lookups|
    requires Told(s, past, k) && next.table.lookups[k] == s.table.lookups[k] && next.calls[k].phase == s.calls[k].phase
    requires Owed(next, k) == Owed(s, k) || k !in next.pending
    ensures Told(next, past + [e], k)
  {
    hide Caused, Explains;
    forall error: Errno ensures
      Caused(past, k, s.table.lookups[k].deadline, error) ==> Caused(past + [e], k, s.table.lookups[k].deadline, error) {
      CausedLater(past, e, k, s.table.lookups[k].deadline, error);
    }
  }

  lemma CallerTold(s: State, past: seq<Event>, e: Event)
    requires Inv(s) && Enabled(s, e) && (e.Post? || e.Check? || e.Read? || e.Detach?) && Told(s, past, e.k)
    ensures |Step(s, e).calls| == |Step(s, e).table.lookups| == |s.calls| && Told(Step(s, e), past + [e], e.k)
  {
    hide IdOf, SlotsHold, Room, Caused, Kept;
    var l := s.table.lookups[e.k];
    assert SoundAt(s, e.k);
    forall error: Errno ensures Caused(past, e.k, l.deadline, error) ==> Caused(past + [e], e.k, l.deadline, error) {
      CausedLater(past, e, e.k, l.deadline, error);
    }
    forall error: Errno ensures Explains(e, e.k, l.deadline, error) ==> Caused(past + [e], e.k, l.deadline, error) {
      CausedLater(past, e, e.k, l.deadline, error);
    }
    match e
    case Post(_, _) =>
    case Check(_, _, _) =>
    case Read(_) =>
    case Detach(_) =>
  }

  lemma NetworkTold(s: State, past: seq<Event>, e: Event)
    requires Inv(s) && Enabled(s, e) && (e.Dispatch? || e.Query? || e.Deliver? || e.Callback?) && Told(s, past, e.k)
    ensures |Step(s, e).calls| == |Step(s, e).table.lookups| == |s.calls| && Told(Step(s, e), past + [e], e.k)
  {
    hide IdOf, SlotsHold, Room, Caused, Kept;
    var l := s.table.lookups[e.k];
    assert SoundAt(s, e.k);
    FindsItsOwn(s, e.k);
    forall error: Errno ensures Caused(past, e.k, l.deadline, error) ==> Caused(past + [e], e.k, l.deadline, error) {
      CausedLater(past, e, e.k, l.deadline, error);
    }
    forall error: Errno ensures Explains(e, e.k, l.deadline, error) ==> Caused(past + [e], e.k, l.deadline, error) {
      CausedLater(past, e, e.k, l.deadline, error);
    }
    match e
    case Dispatch(_, _) =>
    case Query(_, _) =>
    case Deliver(_) =>
    case Callback(_, _) =>
  }

  lemma StepTold(s: State, past: seq<Event>, e: Event)
    requires Inv(s) && Enabled(s, e) && AllTold(s, past)
    ensures |Step(s, e).calls| == |Step(s, e).table.lookups| && AllTold(Step(s, e), past + [e])
  {
    hide Told, Sound, IdOf, SlotsHold, Room, Step;
    var next := Step(s, e);
    StepKeeps(s, e);
    if e.Start? {
      StartTold(s, past, e);
    } else {
      TouchesOne(s, e);
      assert Told(s, past, e.k);
      if e.Post? || e.Check? || e.Read? || e.Detach? { CallerTold(s, past, e); } else { NetworkTold(s, past, e); }
      forall j | 0 <= j < |next.calls| ensures Told(next, past + [e], j) {
        assert Told(s, past, j);
        if j != e.k { Untouched(s, next, past, e, j); }
      }
    }
  }

  lemma TouchesOne(s: State, e: Event)
    requires Inv(s) && Enabled(s, e) && !e.Start?
    ensures e.k < |s.calls| && OnlyTouches(s, Step(s, e), e.k)
  {
    hide Sound, IdOf, SlotsHold, Room, Step;
    match e
    case Detach(k) => DetachStep(s, k);
    case Dispatch(k, now) => DispatchStep(s, k, now);
    case Query(k, reply) => QueryStep(s, k, reply);
    case Deliver(_) => ReportStep(s, e);
    case Callback(_, _) => ReportStep(s, e);
    case _ => CallerStep(s, e);
  }

  lemma StartTold(s: State, past: seq<Event>, e: Event)
    requires Inv(s) && Enabled(s, e) && e.Start? && AllTold(s, past)
    ensures |Step(s, e).calls| == |Step(s, e).table.lookups| && AllTold(Step(s, e), past + [e])
  {
    hide Told, Sound, IdOf, SlotsHold, Room;
    var next := Step(s, e);
    forall j | 0 <= j < |next.calls| ensures Told(next, past + [e], j) {
      if j < |s.calls| {
        assert Told(s, past, j);
        Untouched(s, next, past, e, j);
      } else {
        FreshTold(s, past, e);
      }
    }
  }

  lemma FreshTold(s: State, past: seq<Event>, e: Event)
    requires Inv(s) && Enabled(s, e) && e.Start? && |Step(s, e).calls| > |s.calls|
    ensures |Step(s, e).calls| == |Step(s, e).table.lookups| && Told(Step(s, e), past + [e], |s.calls|)
  {
    hide Sound, IdOf, SlotsHold, Room, Caused;
  }

  lemma {:induction false} RunTold(s: State, past: seq<Event>, events: seq<Event>)
    requires Inv(s) && CanRun(s, events) && AllTold(s, past)
    ensures AllTold(Run(s, events), past + events)
    decreases |events|
  {
    hide AllTold, Sound, IdOf, SlotsHold, Room, Step;
    if events == [] {
      assert past + events == past;
    } else {
      StepKeeps(s, events[0]);
      StepTold(s, past, events[0]);
      RunTold(Step(s, events[0]), past + [events[0]], events[1..]);
      assert past + events == past + [events[0]] + events[1..];
    }
  }

  /** Main result: in every run a call that came back with an error met its cause: its own deadline had
      passed at one of its own looks or when it was taken up, it was cancelled, there was no memory to
      post or to send its query, or the stack refused it or answered that nothing was found. */
  lemma FailuresHaveCauses(events: seq<Event>, k: nat)
    requires CanRun(Initial(), events) && k < |Run(Initial(), events).calls|
    ensures var end := Run(Initial(), events);
      end.calls[k].phase.Returned? && end.calls[k].phase.error != Success ==>
        Caused(events, k, end.table.lookups[k].deadline, end.calls[k].phase.error)
  {
    hide Caused, Run, CanRun, Sound, IdOf, SlotsHold, Room;
    RunTold(Initial(), [], events);
    assert [] + events == events;
    assert Told(Run(Initial(), events), events, k);
  }

  /** A lookup is queried, by its own name, exactly when its call is still waiting and its deadline has not
      come; when it has, the lookup is finished with that error. */
  lemma QueriedInTime(s: State, k: nat, now: int)
    requires Inv(s) && Enabled(s, Dispatch(k, now))
    ensures var next, l := Step(s, Dispatch(k, now)), s.table.lookups[k];
      && (k in next.pending <==> InFlight(s, k) && now < l.deadline)
      && (k in next.pending ==> next.pending[k].stage == Querying(l.host))
      && (InFlight(s, k) && now >= l.deadline ==>
            next.table.lookups[k].done && next.table.lookups[k].error == TimedOut)
  {
    hide IdOf, SlotsHold, Room, Sound;
    FindsItsOwn(s, k);
    PendingId(s, k);
  }
}
