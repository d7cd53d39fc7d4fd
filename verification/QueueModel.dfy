/** The event queue as a value: what one push and one poll do to the three deques. */
module QueueModel {
  import opened Events
  import opened Options

  datatype Limits = Limits(capacity: nat, byteCapacity: nat)

  /** `main` is the deque that polls read, `deferred` the readiness records waiting for room, and
      `parked` the watch overflows waiting for room. */
  datatype Queue = Queue(main: seq<Event>, deferred: seq<Event>, parked: seq<Event>)

  const EMPTY := Queue([], [], [])

  function PayloadBytes(s: seq<Event>): nat {
    if s == [] then 0 else |s[0].data| + PayloadBytes(s[1..])
  }

  function TotalBytes(q: Queue): nat {
    PayloadBytes(q.main) + PayloadBytes(q.deferred) + PayloadBytes(q.parked)
  }

  // ----- searches -----

  /** The last event `e` may replace, or -1. */
  function LastSameTarget(s: seq<Event>, e: Event): (r: int)
    ensures -1 <= r < |s|
    ensures r >= 0 ==> SameTarget(s[r], e)
    ensures forall i :: r < i < |s| ==> !SameTarget(s[i], e)
  {
    if s == [] then -1
    else if SameTarget(s[|s| - 1], e) then |s| - 1
    else LastSameTarget(s[..|s| - 1], e)
  }

  /** The position whose event `e` overwrites, or -1: any position for the interleaved kinds, only the
      back of the queue for the others. */
  function CoalesceIndex(s: seq<Event>, e: Event): (r: int)
    ensures -1 <= r < |s|
    ensures r >= 0 ==> IsCoalescible(e) && SameTarget(s[r], e)
    ensures r >= 0 ==> forall i :: r < i < |s| ==> IsInterleaved(e) && !SameTarget(s[i], e)
  {
    if !IsCoalescible(e) || s == [] then -1
    else if IsInterleaved(e) then LastSameTarget(s, e)
    else if SameTarget(s[|s| - 1], e) then |s| - 1
    else -1
  }

  function FirstCoalescible(s: seq<Event>): (r: nat)
    ensures r <= |s|
    ensures r < |s| ==> IsCoalescible(s[r])
    ensures forall i :: 0 <= i < r ==> !IsCoalescible(s[i])
  {
    if s == [] || IsCoalescible(s[0]) then 0 else 1 + FirstCoalescible(s[1..])
  }

  function FirstDisposable(s: seq<Event>): (r: nat)
    ensures r <= |s|
    ensures r < |s| ==> !IsMandatory(s[r])
    ensures forall i :: 0 <= i < r ==> IsMandatory(s[i])
  {
    if s == [] || !IsMandatory(s[0]) then 0 else 1 + FirstDisposable(s[1..])
  }

  /** The queued event an overflow displaces from a full queue; the length when there is none. */
  function Victim(s: seq<Event>): (r: nat)
    ensures r <= |s|
    ensures r < |s| ==> !IsMandatory(s[r])
    ensures r == |s| ==> forall i :: 0 <= i < |s| ==> IsMandatory(s[i])
  {
    var c := FirstCoalescible(s);
    if c < |s| then (ClassesAreDisjoint(s[c]); c) else FirstDisposable(s)
  }

  function ParkedAt(s: seq<Event>, source: nat): (r: nat)
    ensures r <= |s|
    ensures r < |s| ==> s[r].source == source
    ensures forall i :: 0 <= i < r ==> s[i].source != source
  {
    if s == [] || s[0].source == source then 0 else 1 + ParkedAt(s[1..], source)
  }

  predicate HoldsReadiness(s: seq<Event>, e: Event) {
    exists i :: 0 <= i < |s| && SameReadinessTarget(s[i], e)
  }

  predicate InRequest(x: Event, source: nat, request: nat) {
    x.source == source && x.requestId == request
  }

  function OfRequest(s: seq<Event>, source: nat, request: nat): seq<Event> {
    if s == [] then []
    else if InRequest(s[0], source, request) then [s[0]] + OfRequest(s[1..], source, request)
    else OfRequest(s[1..], source, request)
  }

  function NotOfRequest(s: seq<Event>, source: nat, request: nat): seq<Event> {
    if s == [] then []
    else if InRequest(s[0], source, request) then NotOfRequest(s[1..], source, request)
    else [s[0]] + NotOfRequest(s[1..], source, request)
  }

  // ----- push -----

  /** What a push does; the positions are those the queue had before it. */
  datatype Effect =
    | Refused | Duplicate
    | Coalesced(at: nat) | Evicted(at: nat) | Reparked(at: nat)
    | Parked | Deferred | Appended

  function KeepOldestStamp(replaced: Event, replacement: Event): Event {
    if replaced.osTime != 0 && (replacement.osTime == 0 || replaced.osTime < replacement.osTime)
    then replacement.(osTime := replaced.osTime)
    else replacement
  }

  predicate OverBudget(lim: Limits, q: Queue, e: Event) {
    IsOrdinary(e) && (|e.data| > lim.byteCapacity || TotalBytes(q) > lim.byteCapacity - |e.data|)
  }

  function EffectOf(lim: Limits, q: Queue, e: Event): (r: Effect)
    ensures ValidEffect(q, r)
  {
    if OverBudget(lim, q, e) then Refused
    else if CoalesceIndex(q.main, e) >= 0 then Coalesced(CoalesceIndex(q.main, e))
    else if |q.main| >= lim.capacity && !IsTerminal(e) then
      if IsOverflow(e) then
        if Victim(q.main) < |q.main| then Evicted(Victim(q.main))
        else if ParkedAt(q.parked, e.source) < |q.parked| then Reparked(ParkedAt(q.parked, e.source))
        else Parked
      else if !IsReadiness(e) then Refused
      else if HoldsReadiness(q.main, e) || HoldsReadiness(q.deferred, e) then Duplicate
      else Deferred
    else Appended
  }

  predicate ValidEffect(q: Queue, effect: Effect) {
    && (effect.Coalesced? || effect.Evicted? ==> effect.at < |q.main|)
    && (effect.Reparked? ==> effect.at < |q.parked|)
  }

  function Apply(q: Queue, e: Event, effect: Effect): Queue
    requires ValidEffect(q, effect)
  {
    match effect
    case Refused | Duplicate => q
    case Coalesced(i) => q.(main := q.main[i := KeepOldestStamp(q.main[i], e)])
    case Evicted(i) => q.(main := q.main[..i] + q.main[i + 1..] + [e])
    case Reparked(i) => q.(parked := q.parked[i := e])
    case Parked => q.(parked := q.parked + [e])
    case Deferred => q.(deferred := q.deferred + [e])
    case Appended =>
      if IsTerminal(e) then
        q.(main := q.main + OfRequest(q.deferred, e.source, e.requestId) + [e],
           deferred := NotOfRequest(q.deferred, e.source, e.requestId))
      else q.(main := q.main + [e])
  }

  function Push(lim: Limits, q: Queue, e: Event): Queue {
    Apply(q, e, EffectOf(lim, q, e))
  }

  // ----- poll -----

  /** How many deferred records fit: up to the capacity, and one into an empty queue whatever the
      capacity is. */
  function Room(capacity: nat, q: Queue): (n: nat)
    ensures n <= |q.deferred|
  {
    var room := if |q.main| < capacity then capacity - |q.main| else if q.main == [] then 1 else 0;
    if room <= |q.deferred| then room else |q.deferred|
  }

  function PromoteDeferred(capacity: nat, q: Queue): Queue {
    var n := Room(capacity, q);
    q.(main := q.main + q.deferred[..n], deferred := q.deferred[n..])
  }

  function PromoteParked(capacity: nat, q: Queue): Queue {
    if q.parked == [] || (q.main != [] && |q.main| >= capacity) then q
    else q.(main := q.main + [q.parked[0]], parked := q.parked[1..])
  }

  function Refill(capacity: nat, q: Queue): Queue {
    PromoteParked(capacity, PromoteDeferred(capacity, q))
  }

  function Poll(capacity: nat, q: Queue): (Queue, Option<Event>) {
    var r := Refill(capacity, q);
    if r.main == [] then (r, None)
    else (Refill(capacity, r.(main := r.main[1..])), Some(r.main[0]))
  }

  predicate IsEmpty(q: Queue) {
    q.main == [] && q.deferred == [] && q.parked == []
  }

  function Size(q: Queue): nat {
    |q.main| + |q.deferred| + |q.parked|
  }

  // ----- the structural invariant -----

  /** Side deques wait only behind a full main deque, and hold only what belongs in them. */
  ghost predicate Sound(lim: Limits, q: Queue) {
    && (lim.capacity >= 1 && (q.deferred != [] || q.parked != []) ==> |q.main| >= lim.capacity)
    && (forall i :: 0 <= i < |q.deferred| ==> IsReadiness(q.deferred[i]))
    && (forall i :: 0 <= i < |q.parked| ==> IsOverflow(q.parked[i]))
  }

  lemma OfRequestElements(s: seq<Event>, source: nat, request: nat)
    ensures forall x :: x in OfRequest(s, source, request) ==> x in s && InRequest(x, source, request)
    ensures forall x :: x in NotOfRequest(s, source, request) ==> x in s && !InRequest(x, source, request)
    ensures |OfRequest(s, source, request)| + |NotOfRequest(s, source, request)| == |s|
  {
  }

  lemma PushKeepsSound(lim: Limits, q: Queue, e: Event)
    requires Sound(lim, q)
    ensures Sound(lim, Push(lim, q, e))
  {
    OfRequestElements(q.deferred, e.source, e.requestId);
    var effect := EffectOf(lim, q, e);
    if effect.Appended? && IsTerminal(e) {
      var rest := NotOfRequest(q.deferred, e.source, e.requestId);
      forall i | 0 <= i < |rest| ensures IsReadiness(rest[i]) {
        assert rest[i] in rest;
      }
      if rest != [] { assert rest[0] in rest; }
    }
  }

  /** `Sound` with room for one more event in the main deque, as a poll leaves it before refilling. */
  ghost predicate NearlySound(lim: Limits, q: Queue) {
    && (lim.capacity >= 1 && (q.deferred != [] || q.parked != []) ==> |q.main| + 1 >= lim.capacity)
    && (forall i :: 0 <= i < |q.deferred| ==> IsReadiness(q.deferred[i]))
    && (forall i :: 0 <= i < |q.parked| ==> IsOverflow(q.parked[i]))
  }

  lemma RefillSettles(lim: Limits, q: Queue)
    requires NearlySound(lim, q)
    ensures Sound(lim, Refill(lim.capacity, q))
  {
    var d := PromoteDeferred(lim.capacity, q);
    assert NearlySound(lim, d);
    assert lim.capacity >= 1 && d.deferred != [] ==> |d.main| >= lim.capacity;
  }

  lemma PollKeepsSound(lim: Limits, q: Queue)
    requires Sound(lim, q)
    ensures Sound(lim, Refill(lim.capacity, q))
    ensures Sound(lim, Poll(lim.capacity, q).0)
  {
    RefillSettles(lim, q);
    var r := Refill(lim.capacity, q);
    if r.main != [] {
      RefillSettles(lim, r.(main := r.main[1..]));
    }
  }

  /** What a refill appends to the main deque. */
  function Moved(capacity: nat, q: Queue): seq<Event> {
    var d := PromoteDeferred(capacity, q);
    q.deferred[..Room(capacity, q)]
    + if PromoteParked(capacity, d) == d then [] else [d.parked[0]]
  }

  lemma RefillAppends(capacity: nat, q: Queue)
    ensures Refill(capacity, q).main == q.main + Moved(capacity, q)
  {
    var d := PromoteDeferred(capacity, q);
    if d.parked == [] || (d.main != [] && |d.main| >= capacity) {
      assert PromoteParked(capacity, d) == d;
    } else {
      assert |PromoteParked(capacity, d).parked| == |d.parked| - 1;
    }
  }

  /** A refill takes deferred records, and after the last of them at most one parked overflow, in order, as long as
      the main deque is below the capacity, or empty. */
  lemma RefillExactly(capacity: nat, q: Queue) returns (n: nat, k: nat)
    ensures n <= |q.deferred| && k <= 1 && k <= |q.parked|
    ensures Refill(capacity, q) == Queue(q.main + q.deferred[..n] + q.parked[..k], q.deferred[n..], q.parked[k..])
    ensures var size, room := |q.main| + n + k, if capacity == 0 then 1 else capacity;
            && (n + k > 0 ==> size <= room)
            && (n < |q.deferred| ==> k == 0 && size >= room)
            && (k == 0 && q.parked != [] ==> size >= room)
  {
    var d := PromoteDeferred(capacity, q);
    n, k := Room(capacity, q), |d.parked| - |PromoteParked(capacity, d).parked|;
    if k == 1 {
      assert q.parked == [q.parked[0]] + q.parked[1..];
    }
  }

  /** A refill never leaves the main deque empty while anything waits behind it. */
  lemma RefillIsEmptyOnlyIfAllIs(capacity: nat, q: Queue)
    ensures Refill(capacity, q).main == [] ==> IsEmpty(q)
    ensures Size(Refill(capacity, q)) == Size(q)
  {
  }
}
