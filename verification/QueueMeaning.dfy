/** Coalescing changes nothing that a consumer of latest values can see, and no stamp is lost. */
module QueueMeaning {
  import opened Events
  import opened QueueModel
  import opened QueueRuns

  // ----- consumers -----

  /** A consumer folds events, oldest first, into a state. */
  function Fold<S>(f: (S, Event) -> S, s: S, events: seq<Event>): S {
    if events == [] then s else f(Fold(f, s, events[..|events| - 1]), events[|events| - 1])
  }

  /** The kinds that side deques hold back from a full queue. */
  predicate MayWait(e: Event) {
    IsReadiness(e) || IsOverflow(e)
  }

  /** A consumer the queue may coalesce for: it does not look at stamps, a value overwrites an earlier
      one of the same target, the interleaved kinds are kept apart from everything else, and readiness
      records and watch overflows, which may wait aside, are handled elsewhere. */
  ghost predicate KeepsLatest<S(!new)>(f: (S, Event) -> S) {
    && (forall s, e: Event, stamp: nat :: f(s, e.(osTime := stamp)) == f(s, e))
    && (forall s, a, b :: IsCoalescible(b) && SameTarget(a, b) ==> f(f(s, a), b) == f(s, b))
    && (forall s, a, b :: IsInterleaved(b) && !SameTarget(a, b) ==> f(f(s, a), b) == f(f(s, b), a))
    && (forall s, e :: MayWait(e) ==> f(s, e) == s)
  }

  lemma {:induction false} FoldConcat<S>(f: (S, Event) -> S, s: S, a: seq<Event>, b: seq<Event>)
    ensures Fold(f, s, a + b) == Fold(f, Fold(f, s, a), b)
  {
    if b == [] {
      assert a + b == a;
    } else {
      assert (a + b)[..|a + b| - 1] == a + b[..|b| - 1];
      FoldConcat(f, s, a, b[..|b| - 1]);
    }
  }

  /** An event pushed behind `later`, none of which it may replace, may as well come before it. */
  lemma {:induction false} MoveForward<S(!new)>(f: (S, Event) -> S, s: S, later: seq<Event>, e: Event)
    requires KeepsLatest(f)
    requires forall i :: 0 <= i < |later| ==> IsInterleaved(e) && !SameTarget(later[i], e)
    ensures f(Fold(f, s, later), e) == Fold(f, f(s, e), later)
  {
    if later != [] {
      var init, y := later[..|later| - 1], later[|later| - 1];
      MoveForward(f, s, init, e);
      assert !SameTarget(later[|later| - 1], e);
    }
  }

  /** Overwriting position `i` is worth as much as appending. */
  lemma CoalescedMeansAppended<S(!new)>(f: (S, Event) -> S, s: S, main: seq<Event>, e: Event, i: nat)
    requires KeepsLatest(f) && CoalesceIndex(main, e) == i
    ensures Fold(f, s, main[i := KeepOldestStamp(main[i], e)]) == f(Fold(f, s, main), e)
  {
    var e' := KeepOldestStamp(main[i], e);
    var before, later := main[..i], main[i + 1..];
    var at := Fold(f, s, before);
    assert main == (before + [main[i]]) + later;
    assert main[i := e'] == (before + [e']) + later;
    FoldConcat(f, s, before + [main[i]], later);
    FoldConcat(f, s, before + [e'], later);
    assert (before + [main[i]])[..i] == before && (before + [e'])[..i] == before;
    assert e' == e.(osTime := e'.osTime);
    assert f(at, e') == f(at, e);
    MoveForward(f, f(at, main[i]), later, e);
  }

  lemma {:induction false} FoldIgnores<S(!new)>(f: (S, Event) -> S, s: S, events: seq<Event>)
    requires KeepsLatest(f) && forall i :: 0 <= i < |events| ==> MayWait(events[i])
    ensures Fold(f, s, events) == s
  {
    if events != [] {
      FoldIgnores(f, s, events[..|events| - 1]);
    }
  }

  /** No push of the run was refused, and none displaced a queued event. */
  predicate NothingGivenUp(lim: Limits, ops: seq<Op>) {
    forall i :: 0 <= i < |ops| && ops[i].PushOp? ==>
      var effect := EffectOf(lim, Run(lim, ops[..i]).q, ops[i].event);
      !effect.Refused? && !effect.Evicted?
  }

  /** What the consumer has seen and will see in the main deque is what it would have made of every
      push. */
  ghost predicate Faithful<S>(f: (S, Event) -> S, s: S, t: Trace) {
    Fold(f, s, t.delivered + t.q.main) == Fold(f, s, t.pushed)
  }

  lemma EffectsWithoutLoss(lim: Limits, q: Queue, e: Event)
    ensures var effect := EffectOf(lim, q, e);
            || effect.Refused? || effect.Evicted? || effect.Appended?
            || (effect.Coalesced? && CoalesceIndex(q.main, e) == effect.at)
            || (Apply(q, e, effect).main == q.main && MayWait(e))
  {
  }

  lemma PushIsFaithful<S(!new)>(lim: Limits, f: (S, Event) -> S, s: S, t: Trace, e: Event)
    requires KeepsLatest(f) && Faithful(f, s, t) && Sound(lim, t.q)
    requires !EffectOf(lim, t.q, e).Refused? && !EffectOf(lim, t.q, e).Evicted?
    ensures Faithful(f, s, StepPush(lim, t, e))
  {
    var effect := EffectOf(lim, t.q, e);
    var main := Apply(t.q, e, effect).main;
    var seen := Fold(f, s, t.delivered);
    FoldConcat(f, s, t.delivered, t.q.main);
    FoldConcat(f, s, t.delivered, main);
    assert (t.pushed + [e])[..|t.pushed|] == t.pushed;
    PushFolds(lim, f, seen, t.q, e);
  }

  lemma PushFolds<S(!new)>(lim: Limits, f: (S, Event) -> S, s: S, q: Queue, e: Event)
    requires KeepsLatest(f) && Sound(lim, q)
    requires !EffectOf(lim, q, e).Refused? && !EffectOf(lim, q, e).Evicted?
    ensures Fold(f, s, Push(lim, q, e).main) == f(Fold(f, s, q.main), e)
  {
    var effect := EffectOf(lim, q, e);
    EffectsWithoutLoss(lim, q, e);
    if effect.Coalesced? {
      CoalescedMeansAppended(f, s, q.main, e, effect.at);
    } else if effect.Appended? {
      AppendedMeans(lim, f, s, q, e);
    }
  }

  lemma AppendedMeans<S(!new)>(lim: Limits, f: (S, Event) -> S, s: S, q: Queue, e: Event)
    requires KeepsLatest(f) && Sound(lim, q)
    ensures Fold(f, s, Apply(q, e, Appended).main) == f(Fold(f, s, q.main), e)
  {
    if IsTerminal(e) {
      var own := OfRequest(q.deferred, e.source, e.requestId);
      OfRequestElements(q.deferred, e.source, e.requestId);
      forall i | 0 <= i < |own| ensures MayWait(own[i]) {
        assert own[i] in own;
      }
      assert (q.main + own + [e])[..|q.main + own|] == q.main + own;
      FoldConcat(f, s, q.main, own);
      FoldIgnores(f, Fold(f, s, q.main), own);
    } else {
      assert (q.main + [e])[..|q.main|] == q.main;
    }
  }

  lemma MovedIsIgnored(lim: Limits, q: Queue)
    requires NearlySound(lim, q)
    ensures forall i :: 0 <= i < |Moved(lim.capacity, q)| ==> MayWait(Moved(lim.capacity, q)[i])
  {
  }

  lemma RefillIsFaithful<S(!new)>(lim: Limits, f: (S, Event) -> S, s: S, t: Trace)
    requires KeepsLatest(f) && Faithful(f, s, t) && NearlySound(lim, t.q)
    ensures Faithful(f, s, StepRefill(lim, t))
  {
    hide KeepsLatest, Moved, Refill, NearlySound;
    var moved := Moved(lim.capacity, t.q);
    RefillAppends(lim.capacity, t.q);
    MovedIsIgnored(lim, t.q);
    assert t.delivered + (t.q.main + moved) == (t.delivered + t.q.main) + moved;
    FoldConcat(f, s, t.delivered + t.q.main, moved);
    FoldIgnores(f, Fold(f, s, t.delivered + t.q.main), moved);
  }

  lemma TakeIsFaithful<S>(f: (S, Event) -> S, s: S, t: Trace)
    requires Faithful(f, s, t)
    ensures Faithful(f, s, StepTake(t))
  {
    if t.q.main != [] {
      assert t.delivered + t.q.main == (t.delivered + [t.q.main[0]]) + t.q.main[1..];
    }
  }

  lemma PollIsFaithful<S(!new)>(lim: Limits, f: (S, Event) -> S, s: S, t: Trace)
    requires KeepsLatest(f) && Faithful(f, s, t) && Steady(lim, t)
    ensures Faithful(f, s, StepPoll(lim, t))
  {
    RefillIsFaithful(lim, f, s, t);
    RefillIsSteady(lim, t);
    var r := StepRefill(lim, t);
    TakeIsFaithful(f, s, r);
    TakeKeepsNearlySound(lim, r);
    RefillIsFaithful(lim, f, s, StepTake(r));
  }

  /** The initial part of a run satisfies what the run does. */
  lemma PrefixRun(lim: Limits, ops: seq<Op>)
    requires ops != [] && NothingGivenUp(lim, ops)
    ensures NothingGivenUp(lim, ops[..|ops| - 1])
    ensures ops[|ops| - 1].PushOp? ==>
              var effect := EffectOf(lim, Run(lim, ops[..|ops| - 1]).q, ops[|ops| - 1].event);
              !effect.Refused? && !effect.Evicted?
  {
    var before := ops[..|ops| - 1];
    forall i | 0 <= i < |before| && before[i].PushOp?
      ensures var effect := EffectOf(lim, Run(lim, before[..i]).q, before[i].event);
              !effect.Refused? && !effect.Evicted?
    {
      assert before[..i] == ops[..i];
    }
  }

  lemma {:induction false} RunIsFaithful<S(!new)>(lim: Limits, f: (S, Event) -> S, s: S, ops: seq<Op>)
    requires KeepsLatest(f) && NothingGivenUp(lim, ops)
    ensures Faithful(f, s, Run(lim, ops))
  {
    if ops != [] {
      var before, op := ops[..|ops| - 1], ops[|ops| - 1];
      var t := Run(lim, before);
      PrefixRun(lim, ops);
      RunIsFaithful(lim, f, s, before);
      RunIsSteady(lim, before);
      match op {
        case PushOp(e) => PushIsFaithful(lim, f, s, t, e);
        case PollOutOfMemory => RefillIsFaithful(lim, f, s, t);
        case PollOp => PollIsFaithful(lim, f, s, t);
      }
    }
  }

  /** In a run without refusals and displacements that ends with an empty queue, every consumer of
      latest values ends in the state it would have reached on the uncoalesced pushes. */
  lemma DrainedMeansPushed<S(!new)>(lim: Limits, f: (S, Event) -> S, s: S, ops: seq<Op>)
    requires KeepsLatest(f) && NothingGivenUp(lim, ops)
    requires IsEmpty(Run(lim, ops).q)
    ensures Fold(f, s, Run(lim, ops).delivered) == Fold(f, s, Run(lim, ops).pushed)
  {
    RunIsFaithful(lim, f, s, ops);
    var t := Run(lim, ops);
    assert t.delivered + t.q.main == t.delivered;
  }

  // ----- a consumer: the latest value of every target, and every other event in context -----

  /** `latest` holds the last value of each target, `log` every discrete event with the values of the
      non-interleaved targets at that moment. */
  datatype View = View(latest: map<Target, Event>, log: seq<(Event, map<Target, Event>)>)

  function Unstamped(e: Event): Event {
    e.(osTime := 0)
  }

  predicate InterleavedTarget(t: Target) {
    t.OfSource? && (t.kind == SENSOR_UPDATE || t.kind == TASK_PROGRESS)
  }

  function InContext(latest: map<Target, Event>): map<Target, Event> {
    map t | t in latest && !InterleavedTarget(t) :: latest[t]
  }

  function Observe(v: View, e: Event): View {
    if MayWait(e) then v
    else if TargetOf(e) != NoTarget then v.(latest := v.latest[TargetOf(e) := Unstamped(e)])
    else v.(log := v.log + [(Unstamped(e), InContext(v.latest))])
  }

  lemma ObserveOverwrites(v: View, a: Event, b: Event)
    requires IsCoalescible(b) && SameTarget(a, b)
    ensures Observe(Observe(v, a), b) == Observe(v, b)
  {
    ClassesAreDisjoint(a);
    ClassesAreDisjoint(b);
    assert IsCoalescible(a);
    SameTargetIsTargetEquality(a, b);
    var k := TargetOf(b);
    assert v.latest[k := Unstamped(a)][k := Unstamped(b)] == v.latest[k := Unstamped(b)];
  }

  lemma ObserveCommutes(v: View, a: Event, b: Event)
    requires IsInterleaved(b) && !SameTarget(a, b)
    ensures Observe(Observe(v, a), b) == Observe(Observe(v, b), a)
  {
    ClassesAreDisjoint(b);
    var k := TargetOf(b);
    if !MayWait(a) {
      if TargetOf(a) != NoTarget {
        SameTargetIsTargetEquality(a, b);
        assert v.latest[TargetOf(a) := Unstamped(a)][k := Unstamped(b)]
            == v.latest[k := Unstamped(b)][TargetOf(a) := Unstamped(a)];
      } else {
        assert InContext(v.latest[k := Unstamped(b)]) == InContext(v.latest);
      }
    }
  }

  /** The view above is such a consumer, so pushes of every kind keep their place among the discrete
      events: a button press is logged with the pointer position it was pushed after. */
  lemma ObserveKeepsLatest()
    ensures KeepsLatest(Observe)
  {
    forall v: View, e: Event, stamp: nat ensures Observe(v, e.(osTime := stamp)) == Observe(v, e) {
      assert TargetOf(e.(osTime := stamp)) == TargetOf(e);
    }
    forall v: View, a: Event, b: Event | IsCoalescible(b) && SameTarget(a, b)
      ensures Observe(Observe(v, a), b) == Observe(v, b)
    {
      ObserveOverwrites(v, a, b);
    }
    forall v: View, a: Event, b: Event | IsInterleaved(b) && !SameTarget(a, b)
      ensures Observe(Observe(v, a), b) == Observe(Observe(v, b), a)
    {
      ObserveCommutes(v, a, b);
    }
  }

  // ----- stamps -----

  /** The least stamp of the inputs that have one; 0 when none has. */
  function OldestStamp(group: seq<Event>): nat {
    if group == [] then 0
    else
      var rest := OldestStamp(group[..|group| - 1]);
      var last := group[|group| - 1].osTime;
      if rest == 0 || (last != 0 && last < rest) then last else rest
  }

  /** `OldestStamp` is the least non-zero stamp, and 0 only when there is none. */
  lemma {:induction false} OldestStampIsLeast(group: seq<Event>)
    ensures OldestStamp(group) != 0 ==> exists x :: x in group && x.osTime == OldestStamp(group)
    ensures forall x :: x in group && x.osTime != 0 ==> OldestStamp(group) != 0 && OldestStamp(group) <= x.osTime
  {
    if group != [] {
      var init, last := group[..|group| - 1], group[|group| - 1];
      OldestStampIsLeast(init);
      assert group == init + [last];
      if OldestStamp(group) != 0 {
        if OldestStamp(group) == last.osTime {
          assert last in group;
        } else {
          var x :| x in init && x.osTime == OldestStamp(init);
          assert x in group;
        }
      }
    }
  }

  /** `e` is the newest event of its group, carrying the oldest stamp; all of the group had the same
      target. */
  ghost predicate Represents(e: Event, group: seq<Event>) {
    && group != []
    && Unstamped(e) == Unstamped(group[|group| - 1])
    && e.osTime == OldestStamp(group)
    && forall x :: x in group && |group| > 1 ==> IsCoalescible(x) && TargetOf(x) == TargetOf(e) != NoTarget
  }

  ghost predicate AllRepresent(events: seq<Event>, groups: seq<seq<Event>>) {
    |events| == |groups| && forall i :: 0 <= i < |events| ==> Represents(events[i], groups[i])
  }

  lemma SingleRepresents(e: Event)
    ensures Represents(e, [e])
  {
    assert [e][..0] == [];
    assert OldestStamp([e]) == e.osTime;
  }

  lemma CoalescedRepresents(replaced: Event, group: seq<Event>, e: Event)
    requires Represents(replaced, group) && IsCoalescible(e) && SameTarget(replaced, e)
    ensures Represents(KeepOldestStamp(replaced, e), group + [e])
  {
    assert (group + [e])[..|group|] == group;
    SameTargetIsTargetEquality(replaced, e);
    if |group| == 1 {
      assert group == [group[0]];
      assert TargetOf(group[0]) == TargetOf(Unstamped(group[0])) == TargetOf(replaced);
    }
    assert TargetOf(KeepOldestStamp(replaced, e)) == TargetOf(e);
  }

  lemma GrownRepresents(main: seq<Event>, groups: seq<seq<Event>>, after: seq<Event>)
    requires AllRepresent(main, groups) && main <= after
    ensures AllRepresent(after, Grown(groups, after))
  {
    forall i | |main| <= i < |after| ensures Represents(after[i], Grown(groups, after)[i]) {
      SingleRepresents(after[i]);
    }
  }

  lemma EffectRepresents(q: Queue, groups: seq<seq<Event>>, e: Event, effect: Effect)
    requires ValidEffect(q, effect) && AllRepresent(q.main, groups)
    requires effect.Coalesced? ==> IsCoalescible(e) && SameTarget(q.main[effect.at], e)
    ensures var main := Apply(q, e, effect).main;
            AllRepresent(main, GroupsAfter(groups, e, effect, main))
  {
    var main := Apply(q, e, effect).main;
    match effect
    case Coalesced(i) => CoalescedRepresents(q.main[i], groups[i], e);
    case Evicted(i) => SingleRepresents(e);
    case _ => GrownRepresents(q.main, groups, main);
  }

  ghost predicate TraceRepresents(t: Trace) {
    AllRepresent(t.q.main, t.groups) && AllRepresent(t.delivered, t.deliveredGroups)
  }

  lemma RefillRepresents(lim: Limits, t: Trace)
    requires TraceRepresents(t)
    ensures TraceRepresents(StepRefill(lim, t))
  {
    RefillAppends(lim.capacity, t.q);
    GrownRepresents(t.q.main, t.groups, StepRefill(lim, t).q.main);
  }

  lemma TakeRepresents(t: Trace)
    requires TraceRepresents(t)
    ensures TraceRepresents(StepTake(t))
  {
  }

  /** In every run, each delivered event is the newest of the inputs it absorbed, all of one target,
      and carries the least stamp any of them had. */
  lemma {:induction false} RunRepresents(lim: Limits, ops: seq<Op>)
    ensures TraceRepresents(Run(lim, ops))
  {
    if ops != [] {
      var t, op := Run(lim, ops[..|ops| - 1]), ops[|ops| - 1];
      RunRepresents(lim, ops[..|ops| - 1]);
      match op {
        case PushOp(e) => EffectRepresents(t.q, t.groups, e, EffectOf(lim, t.q, e));
        case PollOutOfMemory => RefillRepresents(lim, t);
        case PollOp =>
          RefillRepresents(lim, t);
          TakeRepresents(StepRefill(lim, t));
          RefillRepresents(lim, StepTake(StepRefill(lim, t)));
      }
    }
  }
}
