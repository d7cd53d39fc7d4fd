/** One push in full, stated on what the events are and not on the searches of the queue. */
module QueuePush {
  import opened Events
  import opened QueueModel

  /** `e` may replace a queued event: the newest one has its target, or any one has if producers interleave. */
  predicate Replaceable(main: seq<Event>, e: Event) {
    && TargetOf(e) != NoTarget && main != []
    && (|| TargetOf(main[|main| - 1]) == TargetOf(e)
        || (IsInterleaved(e) && exists i :: 0 <= i < |main| && TargetOf(main[i]) == TargetOf(e)))
  }

  predicate FitsBudget(lim: Limits, q: Queue, e: Event) {
    TotalBytes(q) + |e.data| <= lim.byteCapacity
  }

  /** The smaller of two stamps, 0 being none. */
  function OlderStamp(a: nat, b: nat): nat {
    if a == 0 then b else if b == 0 then a else if a <= b then a else b
  }

  /** `at` is the last queued event of this target. */
  predicate IsLastOf(main: seq<Event>, target: Target, at: nat) {
    at < |main| && TargetOf(main[at]) == target && forall i :: at < i < |main| ==> TargetOf(main[i]) != target
  }

  lemma TargetsMatch(a: Event, e: Event)
    requires IsCoalescible(e)
    ensures SameTarget(a, e) <==> TargetOf(a) == TargetOf(e) != NoTarget
  {
    if IsCoalescible(a) {
      SameTargetIsTargetEquality(a, e);
    } else {
      assert a.kind != e.kind;
    }
  }

  lemma TargetsAreOfOneKind(e: Event)
    ensures TargetOf(e) != NoTarget ==> IsCoalescible(e) && IsOrdinary(e)
  {
    ClassesAreDisjoint(e);
  }

  lemma {:induction false} LastSameTargetMisses(main: seq<Event>, e: Event)
    ensures LastSameTarget(main, e) < 0 <==> forall i :: 0 <= i < |main| ==> !SameTarget(main[i], e)
  {
    if main != [] && !SameTarget(main[|main| - 1], e) {
      LastSameTargetMisses(main[..|main| - 1], e);
    }
  }

  /** The search finds the last event of the target exactly when `e` may replace one. */
  lemma CoalesceIndexExactly(main: seq<Event>, e: Event)
    ensures CoalesceIndex(main, e) >= 0 <==> Replaceable(main, e)
    ensures CoalesceIndex(main, e) >= 0 ==> IsLastOf(main, TargetOf(e), CoalesceIndex(main, e))
  {
    forall i | 0 <= i < |main| && IsCoalescible(e)
      ensures SameTarget(main[i], e) <==> TargetOf(main[i]) == TargetOf(e) != NoTarget
    {
      TargetsMatch(main[i], e);
    }
    TargetsAreOfOneKind(e);
    if IsCoalescible(e) && main != [] && IsInterleaved(e) {
      LastSameTargetMisses(main, e);
    }
  }

  /** An ordinary event within the budget that may replace a queued one does: only the position of the last one of
      its target changes, to the event with the older of the two stamps. */
  lemma CoalescingPush(lim: Limits, q: Queue, e: Event) returns (at: nat)
    requires FitsBudget(lim, q, e) && Replaceable(q.main, e)
    ensures IsLastOf(q.main, TargetOf(e), at)
    ensures !EffectOf(lim, q, e).Refused?
    ensures Push(lim, q, e) ==
            q.(main := q.main[at := e.(osTime := OlderStamp(q.main[at].osTime, e.osTime))])
  {
    CoalesceIndexExactly(q.main, e);
    at := CoalesceIndex(q.main, e);
  }

  /** Any other ordinary event is appended if budget and capacity allow it, and refused otherwise; no queued event
      changes. */
  lemma OrdinaryPush(lim: Limits, q: Queue, e: Event)
    requires IsOrdinary(e) && !(FitsBudget(lim, q, e) && Replaceable(q.main, e))
    ensures var accepted := FitsBudget(lim, q, e) && |q.main| < lim.capacity;
            && (EffectOf(lim, q, e).Refused? <==> !accepted)
            && Push(lim, q, e) == if accepted then q.(main := q.main + [e]) else q
  {
    CoalesceIndexExactly(q.main, e);
  }

  /** A completion always goes to the end, behind the deferred records of its request. */
  lemma CompletionPush(lim: Limits, q: Queue, e: Event)
    requires IsTerminal(e)
    ensures var own := OfRequest(q.deferred, e.source, e.requestId);
            var others := NotOfRequest(q.deferred, e.source, e.requestId);
            Push(lim, q, e) == q.(main := q.main + own + [e], deferred := others)
  {
    ClassesAreDisjoint(e);
  }

  /** A readiness record is appended to a queue with room; a full one drops it for an equal one or defers it. */
  lemma ReadinessPush(lim: Limits, q: Queue, e: Event)
    requires IsReadiness(e)
    ensures Push(lim, q, e) ==
            if |q.main| < lim.capacity then q.(main := q.main + [e])
            else if exists x :: (x in q.main || x in q.deferred) && SameReadinessTarget(x, e) then q
            else q.(deferred := q.deferred + [e])
  {
    ClassesAreDisjoint(e);
    HeldIsMember(q.main, e);
    HeldIsMember(q.deferred, e);
  }

  lemma HeldIsMember(s: seq<Event>, e: Event)
    ensures HoldsReadiness(s, e) <==> exists x :: x in s && SameReadinessTarget(x, e)
  {
    if i :| 0 <= i < |s| && SameReadinessTarget(s[i], e) {
      assert s[i] in s;
    }
    if x :| x in s && SameReadinessTarget(x, e) {
      var i :| 0 <= i < |s| && s[i] == x;
    }
  }

  /** The event that has to make room: the first coalescible one if there is any, else the first that is neither
      completion nor readiness record. */
  predicate MakesRoom(main: seq<Event>, at: nat) {
    && at < |main|
    && if exists x :: x in main && IsCoalescible(x)
       then IsCoalescible(main[at]) && forall i :: 0 <= i < at ==> !IsCoalescible(main[i])
       else !IsMandatory(main[at]) && forall i :: 0 <= i < at ==> IsMandatory(main[i])
  }

  lemma VictimExactly(main: seq<Event>)
    ensures Victim(main) < |main| <==> exists x :: x in main && !IsMandatory(x)
    ensures Victim(main) < |main| ==> MakesRoom(main, Victim(main))
  {
    var c := FirstCoalescible(main);
    if c < |main| {
      assert main[c] in main;
      ClassesAreDisjoint(main[c]);
    }
    if Victim(main) < |main| {
      assert main[Victim(main)] in main;
    }
  }

  /** A watch overflow is appended to a queue with room; a full one gives up the event that has to make room. */
  lemma OverflowPush(lim: Limits, q: Queue, e: Event) returns (at: nat)
    requires IsOverflow(e) && (|q.main| < lim.capacity || exists x :: x in q.main && !IsMandatory(x))
    ensures |q.main| >= lim.capacity ==> MakesRoom(q.main, at)
    ensures Push(lim, q, e) ==
            q.(main := (if |q.main| < lim.capacity then q.main else q.main[..at] + q.main[at + 1..]) + [e])
  {
    ClassesAreDisjoint(e);
    VictimExactly(q.main);
    at := Victim(q.main);
  }

  /** Where none may make room, the overflow waits aside, in place of an earlier one of its source. */
  lemma OverflowWaits(lim: Limits, q: Queue, e: Event) returns (at: nat)
    requires IsOverflow(e) && |q.main| >= lim.capacity && forall x :: x in q.main ==> IsMandatory(x)
    ensures at < |q.parked| ==> q.parked[at].source == e.source && Push(lim, q, e) == q.(parked := q.parked[at := e])
    ensures at >= |q.parked| ==>
              && (forall x :: x in q.parked ==> x.source != e.source)
              && Push(lim, q, e) == q.(parked := q.parked + [e])
  {
    ClassesAreDisjoint(e);
    VictimExactly(q.main);
    at := ParkedAt(q.parked, e.source);
  }
}
