/** Every interleaving of callers, the network task and its callbacks, one critical section a step. */
module ResolverRuns {
  import opened Bytes
  import opened Resolver

  datatype Phase = Posting | Polling | Reading | Leaving(error: Errno) | Returned(error: Errno)

  /** A call that took a slot; `answer` is what the stack found for its own query, once it did. */
  datatype Call = Call(slot: nat, capacity: nat, phase: Phase, out: seq<Address>, answer: Option<seq<Address>>)

  /** What the network task still owes a lookup; all it knows of the lookup is the ID. */
  datatype Stage = Queued | Querying(host: string) | Waiting | Answering(found: Option<seq<Address>>, error: Errno)
  datatype Token = Token(id: nat, stage: Stage)

  datatype State = State(table: Table, calls: seq<Call>, pending: map<nat, Token>)

  function Initial(): (s: State)
    ensures Inv(s)
  {
    State(Table([], [None, None], 0), [], map[])
  }

  datatype Reply = Cached(addresses: seq<Address>) | InProgress | OutOfMemory | Refused

  datatype Event =
    | Start(host: string, deadline: int, capacity: nat)
    | Post(k: nat, accepted: bool)
    | Check(k: nat, cancelled: bool, now: int)
    | Read(k: nat)
    | Detach(k: nat)
    | Dispatch(k: nat, now: int)
    | Query(k: nat, reply: Reply)
    | Deliver(k: nat)
    | Callback(k: nat, addresses: Option<seq<Address>>)

  predicate InFlight(s: State, k: nat)
    requires k < |s.calls|
  {
    !s.calls[k].phase.Returned?
  }

  /** Fewer than 2^32 - 1 lookups start while a lookup is attached or owed a callback. */
  predicate Room(s: State, starts: nat) {
    && (forall k :: 0 <= k < |s.calls| && InFlight(s, k) ==> starts - k <= ID_PERIOD)
    && (forall k :: k in s.pending ==> starts - k <= ID_PERIOD)
  }

  predicate InPhase(s: State, k: nat, phase: Phase) { k < |s.calls| && s.calls[k].phase == phase }

  predicate Enabled(s: State, e: Event) {
    match e
    case Start(_, _, capacity) => 1 <= capacity <= MAX_ADDRESSES && Room(s, |s.calls| + 1)
    case Post(k, _) => InPhase(s, k, Posting)
    case Check(k, _, _) => InPhase(s, k, Polling)
    case Read(k) => InPhase(s, k, Reading)
    case Detach(k) => k < |s.calls| && s.calls[k].phase.Leaving?
    case Dispatch(k, _) => k in s.pending && s.pending[k].stage.Queued?
    case Query(k, reply) => k in s.pending && s.pending[k].stage.Querying? && (reply.Cached? ==> reply.addresses != [])
    case Deliver(k) => k in s.pending && s.pending[k].stage.Answering?
    case Callback(k, addresses) =>
      k in s.pending && s.pending[k].stage.Waiting? && (addresses.Some? ==> addresses.value != [])
  }

  /** What one call, its lookup and the token owed to it have to do with each other. */
  predicate Sound(l: Lookup, c: Call, owed: Option<Token>, id: nat) {
    && 1 <= c.capacity <= MAX_ADDRESSES && c.slot < SLOTS && l.count <= |l.addresses| == MAX_ADDRESSES
    && (c.phase.Posting? ==> owed.None? && !l.done && c.answer.None?)
    && (owed.Some? ==> owed.value.id == id && !l.done)
    && (owed.Some? && owed.value.stage.Answering? ==> Reported(owed.value.stage, c.answer))
    && (owed.Some? && !owed.value.stage.Answering? ==> c.answer.None?)
    && (l.done && l.error == Success ==>
         c.answer.Some? && c.answer.value != [] && l.addresses[..l.count] == Kept(c.answer.value))
    && (if c.phase in {Leaving(Success), Returned(Success)} then l.done && l.error == Success &&
         c.out == Taken(l, c.capacity)
        else c.out == [])
  }

  predicate Reported(stage: Stage, answer: Option<seq<Address>>)
    requires stage.Answering?
  {
    && (stage.found.Some? ==> stage.found.value != [] && answer == stage.found && stage.error == Success)
    && (stage.found.None? ==> stage.error != Success)
  }

  function Owed(s: State, k: nat): Option<Token> { if k in s.pending then Some(s.pending[k]) else None }

  predicate SoundAt(s: State, k: nat)
    requires k < |s.calls| == |s.table.lookups|
  {
    Sound(s.table.lookups[k], s.calls[k], Owed(s, k), IdOf(k))
  }

  /** The slots point to exactly the calls in flight. */
  predicate SlotsHold(s: State)
    requires |s.table.active| == SLOTS
  {
    && (forall i :: 0 <= i < SLOTS && s.table.active[i].Some? ==> HoldsCall(s, i, s.table.active[i].value))
    && (forall k :: 0 <= k < |s.calls| && InFlight(s, k) ==>
         s.calls[k].slot < SLOTS && s.table.active[s.calls[k].slot] == Some(k))
  }

  predicate HoldsCall(s: State, i: nat, k: nat) { k < |s.calls| && InFlight(s, k) && s.calls[k].slot == i }

  predicate Inv(s: State) {
    && s.table.Ok() && |s.calls| == |s.table.lookups|
    && SlotsHold(s)
    && (forall k :: k in s.pending ==> k < |s.calls|)
    && (forall k :: 0 <= k < |s.calls| ==> SoundAt(s, k))
    && Room(s, |s.calls|)
  }

  /** An ID still finds the lookup it was given for while that is attached, and nothing afterwards. */
  lemma FindsItsOwn(s: State, k: nat)
    requires Inv(s) && k in s.pending
    ensures s.table.Find(IdOf(k)) == if InFlight(s, k) then Some(k) else None
  {
    hide IdOf, Sound;
    forall i | 0 <= i < SLOTS && s.table.active[i].Some?
      ensures s.table.Holds(i, IdOf(k)) <==> s.table.active[i] == Some(k)
    {
      SharedIds(s.table.active[i].value, k);
    }
  }

  function Move(s: State, k: nat, phase: Phase): State
    requires k < |s.calls|
  {
    s.(calls := s.calls[k := s.calls[k].(phase := phase)])
  }

  function Tell(s: State, k: nat, stage: Stage): State
    requires k in s.pending
  {
    s.(pending := s.pending[k := s.pending[k].(stage := stage)])
  }

  /** The network task reports on a lookup and owes it nothing more. */
  function Report(s: State, k: nat, found: Option<seq<Address>>, error: Errno): State
    requires s.table.Ok() && k in s.pending && (found.Some? ==> found.value != [])
  {
    s.(table := s.table.Result(s.pending[k].id, found, error), pending := s.pending - {k})
  }

  function StopError(cancelled: bool, now: int, deadline: int): Option<Errno> {
    if cancelled then Some(Canceled) else if now >= deadline then Some(TimedOut) else None
  }

  function Step(s: State, e: Event): State
    requires Inv(s) && Enabled(s, e)
  {
    match e
    case Start(host, deadline, capacity) =>
      var slot := s.table.FreeSlot();
      if slot == SLOTS then s
      else s.(table := s.table.Attach(host, deadline), calls := s.calls + [Call(slot, capacity, Posting, [], None)])
    case Post(k, accepted) =>
      if accepted then Move(s, k, Polling).(pending := s.pending[k := Token(s.table.lookups[k].id, Queued)])
      else Move(s, k, Leaving(NoMemory))
    case Check(k, cancelled, now) =>
      var stop := StopError(cancelled, now, s.table.lookups[k].deadline);
      Move(s, k, if stop.Some? then Leaving(stop.value) else Reading)
    case Read(k) =>
      var l := s.table.lookups[k];
      assert SoundAt(s, k);
      if !l.done then Move(s, k, Polling)
      else
        var out := if l.error == Success then Taken(l, s.calls[k].capacity) else [];
        s.(calls := s.calls[k := s.calls[k].(phase := Leaving(l.error), out := out)])
    case Detach(k) =>
      assert SoundAt(s, k);
      Move(s, k, Returned(s.calls[k].phase.error)).(table := s.table.Detach(s.calls[k].slot))
    case Dispatch(k, now) =>
      var host := s.table.Wanted(s.pending[k].id, now);
      var next := s.(table := s.table.Dispatch(s.pending[k].id, now));
      if host.None? then next.(pending := s.pending - {k}) else Tell(next, k, Querying(host.value))
    case Query(k, reply) =>
      (match reply
       case Cached(addresses) =>
         Tell(s, k, Answering(Some(addresses), Success)).(calls := s.calls[k := s.calls[k].(answer := Some(addresses))])
       case InProgress => Tell(s, k, Waiting)
       case OutOfMemory => Tell(s, k, Answering(None, NoMemory))
       case Refused => Tell(s, k, Answering(None, Unreachable)))
    case Deliver(k) =>
      assert SoundAt(s, k);
      Report(s, k, s.pending[k].stage.found, s.pending[k].stage.error)
    case Callback(k, addresses) =>
      Report(s, k, addresses, if addresses.Some? then Success else Unreachable)
        .(calls := s.calls[k := s.calls[k].(answer := addresses)])
  }

  // ---- What every step keeps ---------------------------------------------------------------

  /** How one step may change a call: its result is written at most once, by what was owed to it and
      while it is in flight; once the call has returned nothing reaches its lookup or its output. */
  predicate Evolves(s: State, next: State, k: nat)
    requires k < |s.calls| == |s.table.lookups| <= |next.calls| == |next.table.lookups|
  {
    var before, after := s.table.lookups[k], next.table.lookups[k];
    && (after != before ==> k in s.pending && InFlight(s, k) && !before.done && after.done)
    && (!InFlight(s, k) ==>
         !InFlight(next, k) && next.calls[k].phase == s.calls[k].phase && next.calls[k].out == s.calls[k].out)
    && (s.calls[k].answer.Some? ==> next.calls[k].answer == s.calls[k].answer)
  }

  /** Everything but the calls and lookups other than the k-th stays. */
  predicate OnlyTouches(s: State, next: State, k: nat)
    requires |s.calls| == |s.table.lookups|
  {
    && |next.calls| == |next.table.lookups| == |s.calls|
    && forall j :: 0 <= j < |s.calls| && j != k ==>
         next.calls[j] == s.calls[j] && next.table.lookups[j] == s.table.lookups[j] && Owed(next, j) == Owed(s, j)
  }

  /** A step that leaves the slots alone keeps the invariant if it leaves its own call sound. */
  lemma QuietStep(s: State, next: State, k: nat)
    requires Inv(s) && OnlyTouches(s, next, k) && k < |s.calls| && SoundAt(next, k)
    requires next.table.Ok() && next.table.active == s.table.active
    requires next.calls[k].slot == s.calls[k].slot && InFlight(next, k) == InFlight(s, k)
    requires forall j :: j in next.pending ==> j in s.pending || (j == k && InFlight(s, k))
    ensures Inv(next)
  {
    hide Sound, IdOf;
    forall j | 0 <= j < |next.calls|
      ensures SoundAt(next, j) && InFlight(next, j) == InFlight(s, j) && next.calls[j].slot == s.calls[j].slot {
      assert SoundAt(s, j);
    }
  }

  lemma CallerStep(s: State, e: Event)
    requires Inv(s) && Enabled(s, e) && (e.Post? || e.Check? || e.Read?)
    ensures Inv(Step(s, e)) && OnlyTouches(s, Step(s, e), e.k) && Evolves(s, Step(s, e), e.k)
  {
    hide IdOf, SlotsHold, Room;
    var next := Step(s, e);
    assert SoundAt(s, e.k) && s.table.lookups[e.k].id == IdOf(e.k);
    QuietStep(s, next, e.k);
  }

  lemma DetachStep(s: State, k: nat)
    requires Inv(s) && Enabled(s, Detach(k))
    ensures Inv(Step(s, Detach(k))) && OnlyTouches(s, Step(s, Detach(k)), k) && Evolves(s, Step(s, Detach(k)), k)
  {
    hide IdOf;
    var next := Step(s, Detach(k));
    assert SoundAt(s, k);
    forall j | 0 <= j < |next.calls| ensures SoundAt(next, j) {
      assert SoundAt(s, j);
    }
  }

  lemma DispatchStep(s: State, k: nat, now: int)
    requires Inv(s) && Enabled(s, Dispatch(k, now))
    ensures var next := Step(s, Dispatch(k, now)); Inv(next) && OnlyTouches(s, next, k) && Evolves(s, next, k)
  {
    hide IdOf, SlotsHold, Room;
    assert SoundAt(s, k);
    FindsItsOwn(s, k);
    QuietStep(s, Step(s, Dispatch(k, now)), k);
  }

  lemma QueryStep(s: State, k: nat, reply: Reply)
    requires Inv(s) && Enabled(s, Query(k, reply))
    ensures var next := Step(s, Query(k, reply)); Inv(next) && OnlyTouches(s, next, k) && Evolves(s, next, k)
  {
    hide IdOf, SlotsHold, Room;
    assert SoundAt(s, k);
    QuietStep(s, Step(s, Query(k, reply)), k);
  }

  /** Deliver and Callback: the answer reaches the lookup it is for, if that is still attached. */
  lemma ReportStep(s: State, e: Event)
    requires Inv(s) && Enabled(s, e) && (e.Deliver? || e.Callback?)
    ensures var next := Step(s, e); Inv(next) && OnlyTouches(s, next, e.k) && Evolves(s, next, e.k)
    ensures var next := Step(s, e); if InFlight(s, e.k) then next.table.lookups[e.k].done else next.table == s.table
  {
    hide IdOf, SlotsHold, Room, Kept;
    assert SoundAt(s, e.k);
    FindsItsOwn(s, e.k);
    QuietStep(s, Step(s, e), e.k);
  }

  lemma StartStep(s: State, e: Event)
    requires Inv(s) && Enabled(s, e) && e.Start?
    ensures Inv(Step(s, e)) && |Step(s, e).calls| >= |s.calls|
    ensures forall k :: 0 <= k < |s.calls| ==> Evolves(s, Step(s, e), k)
  {
    hide IdOf;
    var next := Step(s, e);
    forall j | 0 <= j < |s.calls| ensures SoundAt(next, j) && Evolves(s, next, j) {
      assert SoundAt(s, j);
    }
    if |next.calls| > |s.calls| {
      assert SoundAt(next, |s.calls|);
      assert forall j :: 0 <= j < |s.calls| ==> next.calls[j] == s.calls[j];
      assert SlotsHold(next);
    }
  }

  /** Every step keeps the invariant, and every call evolves as it may. */
  lemma StepKeeps(s: State, e: Event)
    requires Inv(s) && Enabled(s, e)
    ensures Inv(Step(s, e)) && |s.calls| <= |Step(s, e).calls|
    ensures forall k :: 0 <= k < |s.calls| ==> Evolves(s, Step(s, e), k)
  {
    hide Sound, IdOf, Room, SlotsHold, Step;
    match e
    case Start(_, _, _) => StartStep(s, e);
    case Detach(k) => DetachStep(s, k);
    case Dispatch(k, now) => DispatchStep(s, k, now);
    case Query(k, reply) => QueryStep(s, k, reply);
    case Deliver(_) => ReportStep(s, e);
    case Callback(_, _) => ReportStep(s, e);
    case _ => CallerStep(s, e);
  }

  // ---- Whole runs --------------------------------------------------------------------------

  ghost predicate CanRun(s: State, events: seq<Event>)
    requires Inv(s)
    decreases |events|
  {
    events == [] || (Enabled(s, events[0]) && (StepKeeps(s, events[0]); CanRun(Step(s, events[0]), events[1..])))
  }

  ghost function Run(s: State, events: seq<Event>): (end: State)
    requires Inv(s) && CanRun(s, events)
    ensures Inv(end)
    decreases |events|
  {
    if events == [] then s else (StepKeeps(s, events[0]); Run(Step(s, events[0]), events[1..]))
  }

  /** What a finished call gave its caller: a name lookup succeeds only with addresses the stack found
      for its own query, the first four without trailing any-addresses, at least one and at most `capacity`. */
  ghost predicate Honest(c: Call) {
    c.phase == Returned(Success) ==>
      && c.answer.Some? && c.answer.value != []
      && 1 <= |c.out| <= c.capacity
      && exists n :: WithoutTrailingAny(c.answer.value, n) && c.out == c.answer.value[..Min(n, c.capacity)]
  }

  predicate Silent(c: Call) { c.phase.Returned? && c.phase.error != Success ==> c.out == [] }

  /** Main result: whatever the interleaving. */
  lemma EveryRunIsHonest(events: seq<Event>, k: nat)
    requires CanRun(Initial(), events) && k < |Run(Initial(), events).calls|
    ensures Honest(Run(Initial(), events).calls[k]) && Silent(Run(Initial(), events).calls[k])
  {
    hide Kept, IdOf, Run, CanRun;
    var end := Run(Initial(), events);
    assert SoundAt(end, k);
    var l, c := end.table.lookups[k], end.calls[k];
    if c.phase == Returned(Success) {
      var kept := Kept(c.answer.value);
      assert l.addresses[..l.count] == kept && kept != [];
      assert c.out == l.addresses[..l.count][..Min(l.count, c.capacity)];
      KeptIs(c.answer.value);
      assert c.out == c.answer.value[..Min(|kept|, c.capacity)];
    }
  }

  /** Main result: after a call returns, no callback, however late, reaches its stack frame: its
      lookup and its output are the same at the end of every continuation. A result, once written,
      is never written again, whoever is still polling. */
  lemma {:induction false} ReturnedStaysReturned(s: State, events: seq<Event>, k: nat)
    requires Inv(s) && CanRun(s, events) && k < |s.calls|
    ensures var end := Run(s, events);
      && k < |end.calls|
      && (s.table.lookups[k].done || !InFlight(s, k) ==> end.table.lookups[k] == s.table.lookups[k])
      && (!InFlight(s, k) ==>
           !InFlight(end, k) && end.calls[k].out == s.calls[k].out && end.calls[k].phase == s.calls[k].phase)
    decreases |events|
  {
    hide Sound, IdOf, Room, SlotsHold, Step;
    if events != [] {
      StepKeeps(s, events[0]);
      assert Evolves(s, Step(s, events[0]), k);
      ReturnedStaysReturned(Step(s, events[0]), events[1..], k);
    }
  }

  /** Main result: a dispatch or a callback writes to no lookup but the one whose ID it carries, and
      to that only while it is attached and has no result yet. */
  lemma WritesOnlyItsOwn(s: State, e: Event, j: nat)
    requires Inv(s) && Enabled(s, e) && j < |s.calls|
    requires Step(s, e).table.lookups[j] != s.table.lookups[j]
    ensures (e.Dispatch? || e.Deliver? || e.Callback?) && e.k == j && s.pending[j].id == s.table.lookups[j].id
    ensures InFlight(s, j) && s.table.active[s.calls[j].slot] == Some(j) && !s.table.lookups[j].done
  {
    hide Sound, IdOf, Room;
    StepKeeps(s, e);
    assert Evolves(s, Step(s, e), j) && SoundAt(s, j);
    match e
    case Start(_, _, _) =>
    case Detach(k) =>
    case Query(k, reply) =>
    case Dispatch(k, now) => DispatchStep(s, k, now); PendingId(s, k);
    case Deliver(k) => ReportStep(s, e); PendingId(s, k);
    case Callback(k, _) => ReportStep(s, e); PendingId(s, k);
    case _ =>
  }

  lemma PendingId(s: State, k: nat)
    requires Inv(s) && k in s.pending
    ensures s.pending[k].id == IdOf(k) == s.table.lookups[k].id
  {
    assert SoundAt(s, k);
  }

  /** Main result: a new lookup is refused exactly when two calls are still in flight, so no
      interleaving leaks a slot. */
  lemma BusyMeansTwoInFlight(s: State)
    requires Inv(s)
    ensures s.table.FreeSlot() == SLOTS <==> exists j, k :: 0 <= j < k < |s.calls| && InFlight(s, j) && InFlight(s, k)
  {
    hide Sound, IdOf, Room;
    if s.table.FreeSlot() == SLOTS {
      var a, b := s.table.active[0].value, s.table.active[1].value;
      assert HoldsCall(s, 0, a) && HoldsCall(s, 1, b);
      assert InFlight(s, if a < b then a else b) && InFlight(s, if a < b then b else a);
    }
  }
}
