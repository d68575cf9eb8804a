/** Name lookups whose callers may return before the network stack answers: requests live on the
    caller's stack and are matched to late callbacks by number, under one lock. */
module Resolver {
  import opened Bytes

  const MAX_ADDRESSES: nat := 4
  const SLOTS: nat := 2

  /** How many lookups start before an ID comes back: 2^32 values, of which zero is skipped. */
  const ID_PERIOD: nat := 0xffff_ffff

  datatype Address = V4(bits: nat) | V6(bits: nat)

  predicate IsAny(a: Address) { a.bits == 0 }

  datatype Errno = Success | TimedOut | Canceled | NoMemory | Unreachable

  datatype Lookup = Lookup(
    id: nat, deadline: int, host: string, done: bool, error: Errno, count: nat, addresses: seq<Address>)

  function Zeroed(host: string, deadline: int): (l: Lookup)
    ensures |l.addresses| == MAX_ADDRESSES
  {
    Lookup(0, deadline, host, false, Success, 0, seq(MAX_ADDRESSES, _ => V4(0)))
  }

  // ---- What each critical section does to the shared state ---------------------------------

  /** The ID of the k-th lookup ever started. */
  function IdOf(k: nat): (id: nat) { k % ID_PERIOD + 1 }

  function NextId(id: nat): (next: nat) {
    var up := (id + 1) % 0x1_0000_0000;
    if up == 0 then 1 else up
  }

  lemma NextIdIsNext(k: nat)
    ensures NextId(0) == IdOf(0) && NextId(IdOf(k)) == IdOf(k + 1)
  {
    if k % ID_PERIOD == ID_PERIOD - 1 {
      assert (k + 1) % ID_PERIOD == 0 by { assert k + 1 == ID_PERIOD * (k / ID_PERIOD + 1); }
    } else {
      assert k + 1 == ID_PERIOD * (k / ID_PERIOD) + (k % ID_PERIOD + 1);
    }
  }

  /** The entries left when trailing any-addresses, but not the first entry, are dropped. */
  function Trimmed(addresses: seq<Address>, count: nat): (kept: nat)
    requires count <= |addresses|
    ensures kept <= count && (count >= 1 ==> kept >= 1)
  {
    if count > 1 && IsAny(addresses[count - 1]) then Trimmed(addresses, count - 1) else count
  }

  lemma {:induction false} TrimmedPrefix(a: seq<Address>, b: seq<Address>, count: nat)
    requires count <= |a| && count <= |b| && a[..count] == b[..count]
    ensures Trimmed(a, count) == Trimmed(b, count)
  {
    if count > 1 {
      assert a[count - 1] == a[..count][count - 1] == b[..count][count - 1] == b[count - 1];
      assert a[..count - 1] == a[..count][..count - 1] == b[..count - 1];
      TrimmedPrefix(a, b, count - 1);
    }
  }

  /** What a caller may see of an answer. */
  function Kept(answer: seq<Address>): (kept: seq<Address>)
    ensures |kept| <= MAX_ADDRESSES && kept <= answer && (answer != [] ==> kept != [])
  {
    answer[..Trimmed(answer, Min(|answer|, MAX_ADDRESSES))]
  }

  /** The first n of at most four addresses: all but the any-addresses behind the last one that is not,
      and never none. */
  predicate WithoutTrailingAny(answer: seq<Address>, n: nat) {
    && 1 <= n <= Min(|answer|, 4) && (n >= 2 ==> answer[n - 1].bits != 0)
    && forall i :: n <= i < Min(|answer|, 4) ==> answer[i].bits == 0
  }

  lemma {:induction false} TrimmedDrops(addresses: seq<Address>, count: nat)
    requires 1 <= count <= |addresses|
    ensures var n := Trimmed(addresses, count);
      && 1 <= n <= count && (n >= 2 ==> addresses[n - 1].bits != 0)
      && forall i :: n <= i < count ==> addresses[i].bits == 0
  {
    if count > 1 && IsAny(addresses[count - 1]) { TrimmedDrops(addresses, count - 1); }
  }

  lemma KeptIs(answer: seq<Address>)
    requires answer != []
    ensures WithoutTrailingAny(answer, |Kept(answer)|)
  {
    TrimmedDrops(answer, Min(|answer|, MAX_ADDRESSES));
  }

  function Taken(l: Lookup, capacity: nat): (taken: seq<Address>)
    requires l.count <= |l.addresses|
    ensures |taken| <= capacity && taken <= l.addresses
  {
    l.addresses[..Min(l.count, capacity)]
  }

  function Answered(l: Lookup, answer: Option<seq<Address>>, error: Errno): (after: Lookup)
    requires |l.addresses| == MAX_ADDRESSES && (answer.Some? ==> answer.value != [])
    ensures after.id == l.id && after.done && |after.addresses| == MAX_ADDRESSES
  {
    var filled :=
      if answer.None? then l
      else
        var copied := Min(|answer.value|, MAX_ADDRESSES);
        l.(addresses := answer.value[..copied] + l.addresses[copied..], count := |Kept(answer.value)|);
    filled.(error := error, done := true)
  }

  /** All lookups ever started, in order, and which of them the two slots point to. */
  datatype Table = Table(lookups: seq<Lookup>, active: seq<Option<nat>>, nextId: nat) {
    predicate Ok() {
      && |active| == SLOTS
      && (forall k :: 0 <= k < |lookups| ==> lookups[k].id == IdOf(k) && |lookups[k].addresses| == MAX_ADDRESSES)
      && (forall i :: 0 <= i < SLOTS && active[i].Some? ==> active[i].value < |lookups|)
      && nextId == (if |lookups| == 0 then 0 else IdOf(|lookups| - 1))
    }

    predicate Holds(i: nat, id: nat)
      requires Ok() && i < SLOTS
    {
      active[i].Some? && lookups[active[i].value].id == id
    }

    /** find_lookup. */
    function Find(id: nat): (found: Option<nat>)
      requires Ok()
      ensures found.Some? ==> found.value < |lookups|
    {
      if Holds(0, id) then active[0] else if Holds(1, id) then active[1] else None
    }

    function FreeSlot(): (slot: nat)
      requires Ok()
      ensures slot <= SLOTS && (slot < SLOTS ==> active[slot].None?)
    {
      if active[0].None? then 0 else if active[1].None? then 1 else SLOTS
    }

    /** Number the lookup and put it in the first free slot. */
    function Attach(host: string, deadline: int): (after: Table)
      requires Ok()
      ensures after.Ok()
    {
      NextIdIsNext(if |lookups| == 0 then 0 else |lookups| - 1);
      var slot := FreeSlot();
      if slot == SLOTS then this
      else
        var id := NextId(nextId);
        Table(lookups + [Zeroed(host, deadline).(id := id)], active[slot := Some(|lookups|)], id)
    }

    /** lookup_result, on the lookup that carries the ID now. */
    function Result(id: nat, answer: Option<seq<Address>>, error: Errno): (after: Table)
      requires Ok() && (answer.Some? ==> answer.value != [])
      ensures after.Ok()
    {
      var found := Find(id);
      if found.None? || lookups[found.value].done then this
      else this.(lookups := lookups[found.value := Answered(lookups[found.value], answer, error)])
    }

    /** The critical section of lookup_dispatch. */
    function Dispatch(id: nat, now: int): (after: Table)
      requires Ok()
      ensures after.Ok()
    {
      var found := Find(id);
      if found.Some? && now >= lookups[found.value].deadline
      then this.(lookups := lookups[found.value := lookups[found.value].(error := TimedOut, done := true)])
      else this
    }

    /** The name to query, if the lookup is attached and still in time. */
    function Wanted(id: nat, now: int): (host: Option<string>)
      requires Ok()
    {
      var found := Find(id);
      if found.None? || now >= lookups[found.value].deadline then None else Some(lookups[found.value].host)
    }

    function Detach(slot: nat): (after: Table)
      requires Ok() && slot < SLOTS
      ensures after.Ok()
    {
      this.(active := active[slot := None])
    }
  }

  /** Two lookups share an ID exactly when a multiple of 2^32 - 1 starts separates them. */
  lemma SharedIds(j: nat, k: nat)
    ensures IdOf(j) == IdOf(k) <==> (j - k) % 0xffff_ffff == 0
    ensures j != k && IdOf(j) == IdOf(k) ==> j >= k + 0xffff_ffff || k >= j + 0xffff_ffff
  {
    assert j - k == ID_PERIOD * (j / ID_PERIOD - k / ID_PERIOD) + (j % ID_PERIOD - k % ID_PERIOD);
    if (j - k) % ID_PERIOD == 0 {
      assert j - k == ID_PERIOD * ((j - k) / ID_PERIOD);
      var q := (j - k) / ID_PERIOD - (j / ID_PERIOD - k / ID_PERIOD);
      assert j % ID_PERIOD - k % ID_PERIOD == ID_PERIOD * q;
    }
  }

  /** Exactly when a callback that comes after its own lookup was detached changes nothing: no
      attached lookup started a multiple of 2^32 - 1 starts away from it. */
  lemma LateCallback(t: Table, k: nat)
    requires t.Ok() && Some(k) !in t.active
    ensures t.Find(IdOf(k)).None? <==>
      forall i :: 0 <= i < SLOTS && t.active[i].Some? ==> (t.active[i].value - k) % ID_PERIOD != 0
  {
    forall i | 0 <= i < SLOTS && t.active[i].Some?
      ensures t.Holds(i, IdOf(k)) <==> (t.active[i].value - k) % ID_PERIOD == 0
    {
      SharedIds(t.active[i].value, k);
    }
  }

  // ---- The code, on the shared objects -----------------------------------------------------

  /** A lookup as it lies on its caller's stack. */
  class Request {
    var id: nat
    const deadline: int
    const host: string
    var done: bool
    var error: Errno
    var count: nat
    var addresses: seq<Address>

    constructor (host: string, deadline: int)
      ensures Value() == Zeroed(host, deadline)
    {
      this.host, this.deadline := host, deadline;
      id, done, error, count := 0, false, Success, 0;
      addresses := seq(MAX_ADDRESSES, _ => V4(0));
    }

    function Value(): Lookup
      reads this
    {
      Lookup(id, deadline, host, done, error, count, addresses)
    }

    /** One look by the polling caller. */
    method Read(capacity: nat) returns (finished: bool, result: Errno, taken: seq<Address>)
      requires |addresses| == MAX_ADDRESSES && count <= MAX_ADDRESSES
      ensures finished == done && result == error
      ensures taken == if done && error == Success then Taken(Value(), capacity) else []
    {
      finished, result, taken := done, error, [];
      if finished && result == Success {
        var n := if count < capacity then count else capacity;
        taken := addresses[..n];
      }
    }

    /** The body of lookup_result, once the lookup is found and not done. */
    method Answer(answer: Option<seq<Address>>, error: Errno)
      requires |addresses| == MAX_ADDRESSES && (answer.Some? ==> answer.value != [])
      modifies this
      ensures Value() == Answered(old(Value()), answer, error)
    {
      if answer.Some? {
        var count := if |answer.value| < MAX_ADDRESSES then |answer.value| else MAX_ADDRESSES;
        addresses := answer.value[..count] + addresses[count..];
        TrimmedPrefix(answer.value, addresses, count);
        ghost var whole := count;
        while count > 1 && IsAny(addresses[count - 1])
          invariant 1 <= count <= whole
          invariant Trimmed(addresses, count) == Trimmed(addresses, whole)
        {
          count := count - 1;
        }
        this.count := count;
      }
      this.error := error;
      done := true;
    }
  }

  function Values(requests: seq<Request>): (values: seq<Lookup>)
    reads requests
    ensures |values| == |requests|
  {
    seq(|requests|, k requires 0 <= k < |requests| reads requests => requests[k].Value())
  }

  lemma OnlyOneChanged(requests: seq<Request>, before: seq<Lookup>, k: nat)
    requires k < |requests| == |before|
    requires forall j :: 0 <= j < |requests| && j != k ==> requests[j].Value() == before[j]
    ensures Values(requests) == before[k := requests[k].Value()]
  {
  }

  class Shared {
    const active: array<Request?>
    var nextId: nat
    ghost var requests: seq<Request>
    ghost var slots: seq<Option<nat>>

    ghost predicate Valid()
      reads this, active, requests
    {
      && active.Length == SLOTS && |slots| == SLOTS
      && (forall j, k :: 0 <= j < k < |requests| ==> requests[j] != requests[k])
      && (forall i :: 0 <= i < SLOTS ==>
            if slots[i].None? then active[i] == null
            else slots[i].value < |requests| && active[i] == requests[slots[i].value])
      && View().Ok()
    }

    ghost function View(): Table
      reads this, requests
    {
      Table(Values(requests), slots, nextId)
    }

    constructor ()
      ensures Valid() && fresh(active) && View() == Table([], [None, None], 0)
    {
      active := new Request?[SLOTS](_ => null);
      nextId, requests, slots := 0, [], [None, None];
    }

    method FindLookup(id: nat) returns (found: Request?)
      requires Valid()
      ensures match View().Find(id) case None => found == null case Some(k) => found == requests[k]
    {
      for i := 0 to SLOTS
        invariant forall j :: 0 <= j < i ==> !View().Holds(j, id)
      {
        if active[i] != null && active[i].id == id {
          return active[i];
        }
      }
      return null;
    }

    lemma FixedSize(k: nat)
      requires Valid() && k < |requests|
      ensures |requests[k].addresses| == MAX_ADDRESSES
    {
      assert View().lookups[k] == requests[k].Value();
    }

    method LookupResult(id: nat, answer: Option<seq<Address>>, error: Errno)
      requires Valid() && (answer.Some? ==> answer.value != [])
      modifies requests
      ensures Valid() && View() == old(View()).Result(id, answer, error)
    {
      hide IdOf, Answered, Table.Ok;
      var lookup := FindLookup(id);
      if lookup != null && !lookup.done {
        FixedSize(old(View()).Find(id).value);
        lookup.Answer(answer, error);
        OnlyOneChanged(requests, old(Values(requests)), old(View()).Find(id).value);
        assert View() == old(View()).Result(id, answer, error);
      }
    }

    method Dispatch(id: nat, now: int) returns (host: Option<string>)
      requires Valid()
      modifies requests
      ensures Valid() && View() == old(View()).Dispatch(id, now) && host == old(View()).Wanted(id, now)
    {
      hide IdOf;
      var lookup := FindLookup(id);
      if lookup != null && now >= lookup.deadline {
        lookup.error := TimedOut;
        lookup.done := true;
        OnlyOneChanged(requests, old(Values(requests)), old(View()).Find(id).value);
        lookup := null;
      }
      host := if lookup != null then Some(lookup.host) else None;
    }

    method TakeId()
      modifies this`nextId
      ensures nextId == NextId(old(nextId))
    {
      nextId := (nextId + 1) % 0x1_0000_0000;
      if nextId == 0 { nextId := (nextId + 1) % 0x1_0000_0000; }
    }

    method FirstFree() returns (slot: nat)
      requires Valid()
      ensures slot == View().FreeSlot()
    {
      slot := 0;
      while slot < SLOTS && active[slot] != null
        invariant slot <= SLOTS && forall j :: 0 <= j < slot ==> slots[j].Some?
      {
        slot := slot + 1;
      }
    }

    method Attach(lookup: Request) returns (slot: nat)
      requires Valid() && lookup !in requests && lookup.Value() == Zeroed(lookup.host, lookup.deadline)
      modifies this, active, lookup
      ensures Valid() && View() == old(View()).Attach(lookup.host, lookup.deadline)
      ensures slot == old(View()).FreeSlot() && requests == old(requests) + (if slot < SLOTS then [lookup] else [])
    {
      hide Table.Ok, NextId, Zeroed;
      slot := FirstFree();
      if slot == SLOTS { return; }
      ghost var before := Values(requests);
      TakeId();
      lookup.id := nextId;
      active[slot] := lookup;
      slots := slots[slot := Some(|requests|)];
      requests := requests + [lookup];
      assert Values(requests) == before + [lookup.Value()];
      assert View() == old(View()).Attach(lookup.host, lookup.deadline);
    }

    method Detach(slot: nat)
      requires Valid() && slot < SLOTS
      modifies this`slots, active
      ensures Valid() && View() == old(View()).Detach(slot)
    {
      active[slot] := null;
      slots := slots[slot := None];
    }
  }
}
