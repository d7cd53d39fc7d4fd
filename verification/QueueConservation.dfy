/** Nothing pushed disappears unaccounted for, nothing mandatory is ever refused, and polling drains. */
module QueueConservation {
  import opened Events
  import opened QueueModel
  import opened QueueRuns
  import QueueMeaning
  import QueuePush
  import opened Options

  // ----- refusals and duplicates -----

  /** Only an ordinary event is ever refused: over the byte budget, or into a full queue that has
      no event of the same target to give way to it. */
  lemma RefusedExactlyWhen(lim: Limits, q: Queue, e: Event)
    ensures EffectOf(lim, q, e).Refused? <==>
            && IsOrdinary(e)
            && (|| TotalBytes(q) + |e.data| > lim.byteCapacity
                || (|q.main| >= lim.capacity && !QueuePush.Replaceable(q.main, e)))
  {
    ClassesAreDisjoint(e);
    QueuePush.CoalesceIndexExactly(q.main, e);
  }

  /** A readiness record is dropped exactly when the full queue still holds one of the same kind for
      the same request, and nothing else is ever dropped so. */
  lemma DuplicateExactlyWhen(lim: Limits, q: Queue, e: Event)
    ensures EffectOf(lim, q, e).Duplicate? <==>
            && IsReadiness(e) && |q.main| >= lim.capacity
            && exists x :: (x in q.main || x in q.deferred) && SameReadinessTarget(x, e)
  {
    ClassesAreDisjoint(e);
    if HoldsReadiness(q.main, e) {
      var i :| 0 <= i < |q.main| && SameReadinessTarget(q.main[i], e);
      assert q.main[i] in q.main;
    } else if HoldsReadiness(q.deferred, e) {
      var i :| 0 <= i < |q.deferred| && SameReadinessTarget(q.deferred[i], e);
      assert q.deferred[i] in q.deferred;
    } else {
      forall x | x in q.main || x in q.deferred ensures !SameReadinessTarget(x, e) {
        if x in q.main {
          var i :| 0 <= i < |q.main| && q.main[i] == x;
        } else {
          var i :| 0 <= i < |q.deferred| && q.deferred[i] == x;
        }
      }
    }
  }

  // ----- multisets of pushed events -----

  function Members(groups: seq<seq<Event>>): multiset<Event> {
    if groups == [] then multiset{} else multiset(groups[0]) + Members(groups[1..])
  }

  lemma {:induction false} MembersConcat(a: seq<seq<Event>>, b: seq<seq<Event>>)
    ensures Members(a + b) == Members(a) + Members(b)
  {
    if a == [] {
      assert a + b == b;
    } else {
      assert (a + b)[1..] == a[1..] + b;
      MembersConcat(a[1..], b);
    }
  }

  lemma {:induction false} MembersOfSingles(s: seq<Event>)
    ensures Members(Singles(s)) == multiset(s)
  {
    if s != [] {
      assert Singles(s)[1..] == Singles(s[1..]);
      assert s == [s[0]] + s[1..];
      MembersOfSingles(s[1..]);
    }
  }

  lemma {:induction false} MembersWithout(groups: seq<seq<Event>>, i: nat, x: Event)
    requires i < |groups|
    ensures Members(groups)[x] == Members(groups[..i] + groups[i + 1..])[x] + multiset(groups[i])[x]
  {
    if i == 0 {
      assert groups[..0] + groups[1..] == groups[1..];
    } else {
      MembersWithout(groups[1..], i - 1, x);
      var rest := groups[..i] + groups[i + 1..];
      assert rest[1..] == groups[1..][..i - 1] + groups[1..][i..];
    }
  }

  lemma MembersGrownAt(groups: seq<seq<Event>>, i: nat, e: Event, x: Event)
    requires i < |groups|
    ensures Members(groups[i := groups[i] + [e]])[x] == Members(groups)[x] + multiset([e])[x]
  {
    var after := groups[i := groups[i] + [e]];
    MembersWithout(groups, i, x);
    MembersWithout(after, i, x);
    assert after[..i] + after[i + 1..] == groups[..i] + groups[i + 1..];
  }

  lemma MembersGrown(groups: seq<seq<Event>>, main: seq<Event>, extra: seq<Event>, x: Event)
    requires |groups| == |main|
    ensures Members(Grown(groups, main + extra))[x] == Members(groups)[x] + multiset(extra)[x]
  {
    assert (main + extra)[|groups|..] == extra;
    MembersConcat(groups, Singles(extra));
    MembersOfSingles(extra);
  }

  /** How often `x` has been pushed and not yet been delivered or given up. */
  function Held(t: Trace, x: Event): nat {
    Members(t.groups)[x] + multiset(t.q.deferred)[x] + multiset(t.q.parked)[x]
  }

  ghost predicate Conserved(t: Trace, x: Event) {
    multiset(t.pushed)[x] == Members(t.deliveredGroups)[x] + Held(t, x) + multiset(t.lost)[x]
  }

  lemma {:induction false} SplitIsWhole(d: seq<Event>, source: nat, request: nat)
    ensures multiset(d) == multiset(OfRequest(d, source, request)) + multiset(NotOfRequest(d, source, request))
  {
    if d != [] {
      assert d == [d[0]] + d[1..];
      SplitIsWhole(d[1..], source, request);
    }
  }

  lemma EvictedMembers(groups: seq<seq<Event>>, i: nat, e: Event, x: Event)
    requires i < |groups|
    ensures Members(groups[..i] + groups[i + 1..] + [[e]])[x] + multiset(groups[i])[x]
         == Members(groups)[x] + multiset([e])[x]
  {
    MembersWithout(groups, i, x);
    MembersConcat(groups[..i] + groups[i + 1..], [[e]]);
    assert Members([[e]]) == multiset([e]);
  }

  lemma ReplacedMembers(s: seq<Event>, i: nat, e: Event, x: Event)
    requires i < |s|
    ensures multiset(s[i := e])[x] + multiset([s[i]])[x] == multiset(s)[x] + multiset([e])[x]
  {
  }

  /** The trace once the queue part of a push is done. */
  function Pushed(t: Trace, e: Event, effect: Effect): Trace
    requires ValidEffect(t.q, effect)
  {
    var q := Apply(t.q, e, effect);
    t.(q := q, groups := GroupsAfter(t.groups, e, effect, q.main))
  }

  /** The balance of one push, whichever effect it has. */
  ghost predicate Balanced(t: Trace, e: Event, effect: Effect, x: Event)
    requires ValidEffect(t.q, effect)
  {
    Held(t, x) + multiset([e])[x] == Held(Pushed(t, e, effect), x) + multiset(LostBy(t, e, effect))[x]
  }

  lemma AppendBalances(t: Trace, e: Event, x: Event)
    requires |t.groups| == |t.q.main|
    ensures Balanced(t, e, Appended, x)
  {
    if IsTerminal(e) {
      AppendTerminalBalances(t, e, x);
    } else {
      MembersGrown(t.groups, t.q.main, [e], x);
    }
  }

  lemma AppendTerminalBalances(t: Trace, e: Event, x: Event)
    requires |t.groups| == |t.q.main| && IsTerminal(e)
    ensures Balanced(t, e, Appended, x)
  {
    hide Members, OfRequest, NotOfRequest, Grown, IsTerminal;
    var own, rest := OfRequest(t.q.deferred, e.source, e.requestId), NotOfRequest(t.q.deferred, e.source, e.requestId);
    var after := Pushed(t, e, Appended);
    SplitIsWhole(t.q.deferred, e.source, e.requestId);
    MembersGrown(t.groups, t.q.main, own + [e], x);
    assert t.q.main + own + [e] == t.q.main + (own + [e]);
    assert after.q.main == t.q.main + (own + [e]) && after.q.deferred == rest;
    assert after.groups == Grown(t.groups, after.q.main);
    assert multiset(t.q.deferred)[x] == multiset(own)[x] + multiset(rest)[x];
    assert multiset(own + [e])[x] == multiset(own)[x] + multiset([e])[x];
  }

  lemma SideEffectBalances(t: Trace, e: Event, effect: Effect, x: Event)
    requires ValidEffect(t.q, effect) && |t.groups| == |t.q.main|
    requires effect.Refused? || effect.Duplicate? || effect.Reparked? || effect.Parked? || effect.Deferred?
    ensures Balanced(t, e, effect, x)
  {
    assert t.q.main == t.q.main + [];
    MembersGrown(t.groups, t.q.main, [], x);
    assert Members(Pushed(t, e, effect).groups)[x] == Members(t.groups)[x];
    match effect
    case Reparked(i) => ReplacedMembers(t.q.parked, i, e, x);
    case Parked => assert multiset(t.q.parked + [e])[x] == multiset(t.q.parked)[x] + multiset([e])[x];
    case Deferred => assert multiset(t.q.deferred + [e])[x] == multiset(t.q.deferred)[x] + multiset([e])[x];
    case _ =>
  }

  lemma CoalescedBalances(t: Trace, e: Event, i: nat, x: Event)
    requires i < |t.q.main| && |t.groups| == |t.q.main|
    ensures Balanced(t, e, Coalesced(i), x)
  {
    MembersGrownAt(t.groups, i, e, x);
  }

  lemma EvictedBalances(t: Trace, e: Event, i: nat, x: Event)
    requires i < |t.q.main| && |t.groups| == |t.q.main|
    ensures Balanced(t, e, Evicted(i), x)
  {
    EvictedMembers(t.groups, i, e, x);
  }

  lemma EffectBalances(t: Trace, e: Event, effect: Effect, x: Event)
    requires ValidEffect(t.q, effect) && |t.groups| == |t.q.main|
    ensures Balanced(t, e, effect, x)
  {
    if effect.Coalesced? {
      CoalescedBalances(t, e, effect.at, x);
    } else if effect.Evicted? {
      EvictedBalances(t, e, effect.at, x);
    } else if effect.Appended? {
      AppendBalances(t, e, x);
    } else {
      SideEffectBalances(t, e, effect, x);
    }
  }

  lemma PushConserves(lim: Limits, t: Trace, e: Event, x: Event)
    requires Conserved(t, x) && |t.groups| == |t.q.main|
    ensures Conserved(StepPush(lim, t, e), x)
  {
    EffectBalances(t, e, EffectOf(lim, t.q, e), x);
  }

  lemma MovedWasWaiting(capacity: nat, q: Queue, x: Event)
    ensures var r := Refill(capacity, q);
            multiset(Moved(capacity, q))[x] + multiset(r.deferred)[x] + multiset(r.parked)[x]
            == multiset(q.deferred)[x] + multiset(q.parked)[x]
  {
    var n := Room(capacity, q);
    var d := PromoteDeferred(capacity, q);
    assert q.deferred == q.deferred[..n] + q.deferred[n..];
    if PromoteParked(capacity, d) != d {
      assert d.parked == [d.parked[0]] + d.parked[1..];
    }
  }

  lemma RefillHolds(lim: Limits, t: Trace, x: Event)
    requires |t.groups| == |t.q.main|
    ensures Held(StepRefill(lim, t), x) == Held(t, x)
  {
    RefillAppends(lim.capacity, t.q);
    MembersGrown(t.groups, t.q.main, Moved(lim.capacity, t.q), x);
    MovedWasWaiting(lim.capacity, t.q, x);
  }

  lemma TakeConserves(t: Trace, x: Event)
    requires |t.groups| == |t.q.main| && Conserved(t, x)
    ensures Conserved(StepTake(t), x)
  {
    if t.groups != [] {
      MembersConcat(t.deliveredGroups, [t.groups[0]]);
      assert Members([t.groups[0]]) == multiset(t.groups[0]);
    }
  }

  lemma PollConserves(lim: Limits, t: Trace, x: Event)
    requires Steady(lim, t) && Conserved(t, x)
    ensures Conserved(StepPoll(lim, t), x)
  {
    RefillHolds(lim, t, x);
    RefillIsSteady(lim, t);
    var r := StepRefill(lim, t);
    TakeConserves(r, x);
    RefillHolds(lim, StepTake(r), x);
  }

  /** In every run, every pushed event is delivered or stands behind a delivered event, or is still held
      (itself or behind a queued event), or is on the list of events given up: counted with
      multiplicity. */
  lemma {:induction false} RunConserves(lim: Limits, ops: seq<Op>, x: Event)
    ensures Conserved(Run(lim, ops), x)
  {
    if ops != [] {
      var t, op := Run(lim, ops[..|ops| - 1]), ops[|ops| - 1];
      RunConserves(lim, ops[..|ops| - 1], x);
      RunIsSteady(lim, ops[..|ops| - 1]);
      match op {
        case PushOp(e) => PushConserves(lim, t, e, x);
        case PollOutOfMemory => RefillHolds(lim, t, x);
        case PollOp => PollConserves(lim, t, x);
      }
    }
  }

  // ----- who may be given up -----

  /** The groups of completions and readiness records are those events alone. */
  ghost predicate MandatoryStandAlone(t: Trace) {
    && |t.groups| == |t.q.main|
    && forall i :: 0 <= i < |t.groups| ==>
         forall x :: x in t.groups[i] && IsMandatory(x) ==> IsMandatory(t.q.main[i])
  }

  /** No completion is ever given up, and a readiness record only when one of the same kind for the
      same request had been stored. */
  ghost predicate LossesAreDisposable(t: Trace) {
    forall x :: x in t.lost ==>
      !IsTerminal(x) && (IsReadiness(x) ==> exists y :: y in t.stored && SameReadinessTarget(y, x))
  }

  ghost predicate HeldAreStored(t: Trace) {
    forall y :: (y in t.q.main || y in t.q.deferred) && IsMandatory(y) ==> y in t.stored
  }

  lemma PushStoresHeld(lim: Limits, t: Trace, e: Event)
    requires HeldAreStored(t) && Sound(lim, t.q)
    ensures HeldAreStored(StepPush(lim, t, e))
  {
    OfRequestElements(t.q.deferred, e.source, e.requestId);
    ClassesAreDisjoint(e);
  }

  lemma RefillStoresHeld(lim: Limits, t: Trace)
    requires HeldAreStored(t) && NearlySound(lim, t.q)
    ensures HeldAreStored(StepRefill(lim, t))
  {
    var d := PromoteDeferred(lim.capacity, t.q);
    if d.parked != [] {
      ClassesAreDisjoint(d.parked[0]);
    }
  }

  /** The effects a push can have where completions and readiness records are concerned. */
  ghost predicate SparesMandatory(q: Queue, e: Event, effect: Effect) {
    && ValidEffect(q, effect)
    && (effect.Refused? || effect.Coalesced? || effect.Evicted? || effect.Reparked? ==> !IsMandatory(e))
    && (effect.Duplicate? ==> !IsTerminal(e))
    && (effect.Evicted? || effect.Coalesced? ==> !IsMandatory(q.main[effect.at]))
    && (effect.Reparked? ==> IsOverflow(q.parked[effect.at]))
  }

  lemma PushSparesMandatory(lim: Limits, q: Queue, e: Event)
    requires Sound(lim, q)
    ensures SparesMandatory(q, e, EffectOf(lim, q, e))
  {
    ClassesAreDisjoint(e);
  }

  lemma EvictionStandsAlone(t: Trace, e: Event, i: nat)
    requires MandatoryStandAlone(t) && i < |t.q.main|
    ensures MandatoryStandAlone(Pushed(t, e, Evicted(i)))
  {
    var after := Pushed(t, e, Evicted(i));
    forall j, x | 0 <= j < |after.groups| && x in after.groups[j] && IsMandatory(x)
      ensures IsMandatory(after.q.main[j])
    {
      if j < i {
        assert after.groups[j] == t.groups[j];
      } else if j < |after.groups| - 1 {
        assert after.groups[j] == t.groups[j + 1];
      }
    }
  }

  lemma EffectStandsAlone(t: Trace, e: Event, effect: Effect)
    requires MandatoryStandAlone(t) && SparesMandatory(t.q, e, effect)
    ensures MandatoryStandAlone(Pushed(t, e, effect))
  {
    if effect.Evicted? {
      EvictionStandsAlone(t, e, effect.at);
    }
  }

  lemma EffectLosesDisposable(t: Trace, e: Event, effect: Effect)
    requires MandatoryStandAlone(t) && SparesMandatory(t.q, e, effect)
    ensures forall x :: x in LostBy(t, e, effect) && IsMandatory(x) ==> effect.Duplicate? && x == e && !IsTerminal(e)
  {
    if effect.Reparked? {
      ClassesAreDisjoint(t.q.parked[effect.at]);
    }
  }

  lemma RefillStandsAlone(lim: Limits, t: Trace)
    requires MandatoryStandAlone(t)
    ensures MandatoryStandAlone(StepRefill(lim, t))
  {
    RefillAppends(lim.capacity, t.q);
  }

  lemma PushLosesNoCompletion(lim: Limits, t: Trace, e: Event)
    requires Steady(lim, t) && MandatoryStandAlone(t) && HeldAreStored(t) && LossesAreDisposable(t)
    ensures MandatoryStandAlone(StepPush(lim, t, e)) && LossesAreDisposable(StepPush(lim, t, e))
  {
    var effect := EffectOf(lim, t.q, e);
    var after := StepPush(lim, t, e);
    PushSparesMandatory(lim, t.q, e);
    EffectStandsAlone(t, e, effect);
    EffectLosesDisposable(t, e, effect);
    if effect.Duplicate? {
      StoredEquivalent(lim, t, e);
    }
    forall x | x in after.lost
      ensures !IsTerminal(x) && (IsReadiness(x) ==> exists y :: y in after.stored && SameReadinessTarget(y, x))
    {
      if x in t.lost {
        if IsReadiness(x) {
          var y :| y in t.stored && SameReadinessTarget(y, x);
          assert y in after.stored;
        }
      } else {
        assert x in LostBy(t, e, effect);
      }
    }
  }

  lemma StoredEquivalent(lim: Limits, t: Trace, e: Event)
    requires HeldAreStored(t) && EffectOf(lim, t.q, e).Duplicate?
    ensures exists y :: y in t.stored && SameReadinessTarget(y, e)
  {
    DuplicateExactlyWhen(lim, t.q, e);
    var y :| (y in t.q.main || y in t.q.deferred) && SameReadinessTarget(y, e);
    assert IsReadiness(y) && y in t.stored;
  }

  /** No completion or readiness record shares a group, queued or delivered, with another event: none has ever
      replaced an event or been replaced. */
  ghost predicate NoneAbsorbed(t: Trace) {
    forall group, x :: group in t.groups + t.deliveredGroups && |group| > 1 && x in group ==> !IsMandatory(x)
  }

  lemma RunAbsorbsNone(lim: Limits, ops: seq<Op>)
    ensures NoneAbsorbed(Run(lim, ops))
  {
    var t := Run(lim, ops);
    QueueMeaning.RunRepresents(lim, ops);
    forall group, x | group in t.groups + t.deliveredGroups && |group| > 1 && x in group ensures !IsMandatory(x) {
      if group in t.groups {
        var i :| 0 <= i < |t.groups| && t.groups[i] == group;
        assert QueueMeaning.Represents(t.q.main[i], group);
      } else {
        var i :| 0 <= i < |t.deliveredGroups| && t.deliveredGroups[i] == group;
        assert QueueMeaning.Represents(t.delivered[i], group);
      }
      ClassesAreDisjoint(x);
    }
  }

  /** In every run, no completion is given up, and a readiness record only for a stored equivalent; neither is
      ever absorbed. */
  lemma {:induction false} RunLosesNoCompletion(lim: Limits, ops: seq<Op>)
    ensures MandatoryStandAlone(Run(lim, ops)) && HeldAreStored(Run(lim, ops))
    ensures LossesAreDisposable(Run(lim, ops)) && NoneAbsorbed(Run(lim, ops))
  {
    RunAbsorbsNone(lim, ops);
    if ops != [] {
      var t, op := Run(lim, ops[..|ops| - 1]), ops[|ops| - 1];
      RunLosesNoCompletion(lim, ops[..|ops| - 1]);
      RunIsSteady(lim, ops[..|ops| - 1]);
      match op {
        case PushOp(e) =>
          PushLosesNoCompletion(lim, t, e);
          PushStoresHeld(lim, t, e);
        case PollOutOfMemory =>
          RefillStandsAlone(lim, t);
          RefillStoresHeld(lim, t);
        case PollOp => PollLosesNothing(lim, t);
      }
    }
  }

  lemma TakeLosesNothing(t: Trace)
    requires MandatoryStandAlone(t) && HeldAreStored(t)
    ensures MandatoryStandAlone(StepTake(t)) && HeldAreStored(StepTake(t))
  {
  }

  lemma PollLosesNothing(lim: Limits, t: Trace)
    requires Steady(lim, t) && MandatoryStandAlone(t) && HeldAreStored(t)
    ensures MandatoryStandAlone(StepPoll(lim, t)) && HeldAreStored(StepPoll(lim, t))
    ensures StepPoll(lim, t).lost == t.lost && StepPoll(lim, t).stored == t.stored
  {
    var r := StepRefill(lim, t);
    RefillStandsAlone(lim, t);
    RefillStoresHeld(lim, t);
    RefillIsSteady(lim, t);
    TakeKeepsNearlySound(lim, r);
    TakeLosesNothing(r);
    RefillStandsAlone(lim, StepTake(r));
    RefillStoresHeld(lim, StepTake(r));
  }

  // ----- draining -----

  /** A poll yields an event exactly when any of the three deques holds one, and then removes one. */
  lemma PollYieldsOne(capacity: nat, q: Queue)
    ensures Poll(capacity, q).1.Some? <==> !IsEmpty(q)
    ensures Size(Poll(capacity, q).0) == if IsEmpty(q) then 0 else Size(q) - 1
  {
    RefillIsEmptyOnlyIfAllIs(capacity, q);
    var r := Refill(capacity, q);
    if r.main == [] {
      assert Size(r) == 0;
    } else {
      var taken := r.(main := r.main[1..]);
      assert Size(taken) == Size(r) - 1;
      RefillIsEmptyOnlyIfAllIs(capacity, taken);
      assert !IsEmpty(q);
    }
  }

  function Yielded(x: Option<Event>): seq<Event> {
    match x case Some(e) => [e] case None => []
  }

  function PollTimes(capacity: nat, q: Queue, n: nat): (Queue, seq<Event>)
    decreases n
  {
    if n == 0 then (q, [])
    else
      var (q', x) := Poll(capacity, q);
      var (q'', xs) := PollTimes(capacity, q', n - 1);
      (q'', Yielded(x) + xs)
  }

  /** Everything the three deques hold. */
  function Contents(q: Queue): multiset<Event> {
    multiset(q.main) + multiset(q.deferred) + multiset(q.parked)
  }

  lemma RefillKeepsContents(capacity: nat, q: Queue)
    ensures Contents(Refill(capacity, q)) == Contents(q)
  {
    var n := Room(capacity, q);
    var d := PromoteDeferred(capacity, q);
    assert q.deferred == q.deferred[..n] + q.deferred[n..];
    assert Contents(d) == Contents(q);
    if d.parked != [] {
      assert d.parked == [d.parked[0]] + d.parked[1..];
    }
  }

  lemma TakeMovesOne(q: Queue)
    requires q.main != []
    ensures Contents(q) == multiset{q.main[0]} + Contents(q.(main := q.main[1..]))
  {
    assert q.main == [q.main[0]] + q.main[1..];
  }

  lemma PollMovesOne(capacity: nat, q: Queue)
    ensures Contents(q) == multiset(Yielded(Poll(capacity, q).1)) + Contents(Poll(capacity, q).0)
  {
    hide Refill, Contents;
    RefillKeepsContents(capacity, q);
    var r := Refill(capacity, q);
    if r.main != [] {
      TakeMovesOne(r);
      RefillKeepsContents(capacity, r.(main := r.main[1..]));
    }
  }

  /** As many polls as there are events empty the queue and yield exactly what it held, whatever the capacity. */
  lemma {:induction false} PollsDrain(capacity: nat, q: Queue)
    ensures IsEmpty(PollTimes(capacity, q, Size(q)).0)
    ensures multiset(PollTimes(capacity, q, Size(q)).1) == Contents(q)
    ensures |PollTimes(capacity, q, Size(q)).1| == Size(q)
    decreases Size(q)
  {
    if Size(q) == 0 {
      assert q.main == [] && q.deferred == [] && q.parked == [];
    } else {
      hide Poll, Contents;
      PollYieldsOne(capacity, q);
      PollMovesOne(capacity, q);
      PollsDrain(capacity, Poll(capacity, q).0);
    }
  }
}
