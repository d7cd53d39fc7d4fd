/** Discrete events, those that neither coalesce nor may wait aside, leave the queue in the order of their pushes,
    in every run, refusals and displacements included. */
module QueueDiscrete {
  import opened Events
  import opened QueueModel
  import opened QueueRuns
  import opened QueueMeaning

  predicate IsDiscrete(e: Event) {
    !IsCoalescible(e) && !MayWait(e)
  }

  function DiscreteOf(s: seq<Event>): seq<Event> {
    if s == [] then []
    else if IsDiscrete(s[|s| - 1]) then DiscreteOf(s[..|s| - 1]) + [s[|s| - 1]]
    else DiscreteOf(s[..|s| - 1])
  }

  lemma {:induction false} DiscreteConcat(a: seq<Event>, b: seq<Event>)
    ensures DiscreteOf(a + b) == DiscreteOf(a) + DiscreteOf(b)
  {
    if b == [] {
      assert a + b == a;
    } else {
      assert (a + b)[..|a + b| - 1] == a + b[..|b| - 1];
      DiscreteConcat(a, b[..|b| - 1]);
    }
  }

  lemma {:induction false} NoneDiscrete(s: seq<Event>)
    requires forall i :: 0 <= i < |s| ==> !IsDiscrete(s[i])
    ensures DiscreteOf(s) == []
  {
    if s != [] {
      NoneDiscrete(s[..|s| - 1]);
    }
  }

  lemma AroundOne<T>(s: seq<T>, i: nat)
    requires i < |s|
    ensures s[..i] + [s[i]] + s[i + 1..] == s
  {
  }

  lemma DiscreteThree(a: seq<Event>, b: seq<Event>, c: seq<Event>)
    ensures DiscreteOf(a + b + c) == DiscreteOf(a) + DiscreteOf(b) + DiscreteOf(c)
  {
    hide DiscreteOf;
    DiscreteConcat(a + b, c);
    DiscreteConcat(a, b);
  }

  lemma DiscreteSplit(s: seq<Event>, i: nat)
    requires i < |s|
    ensures DiscreteOf(s) == DiscreteOf(s[..i]) + DiscreteOf([s[i]]) + DiscreteOf(s[i + 1..])
  {
    hide DiscreteOf;
    AroundOne(s, i);
    DiscreteThree(s[..i], [s[i]], s[i + 1..]);
  }

  // ----- subsequences -----

  /** `a` is `b` with some events left out. */
  predicate IsSubsequence(a: seq<Event>, b: seq<Event>) {
    || a == []
    || (&& b != []
        && (|| IsSubsequence(a, b[..|b| - 1])
            || (a[|a| - 1] == b[|b| - 1] && IsSubsequence(a[..|a| - 1], b[..|b| - 1]))))
  }

  lemma {:induction false} ShorterUnlessEqual(a: seq<Event>, b: seq<Event>)
    requires IsSubsequence(a, b)
    ensures |a| < |b| || a == b
  {
    if a != [] {
      if IsSubsequence(a, b[..|b| - 1]) {
        ShorterUnlessEqual(a, b[..|b| - 1]);
      } else {
        ShorterUnlessEqual(a[..|a| - 1], b[..|b| - 1]);
        assert a == a[..|a| - 1] + [a[|a| - 1]] && b == b[..|b| - 1] + [b[|b| - 1]];
      }
    }
  }

  lemma BothGrow(a: seq<Event>, b: seq<Event>, e: Event)
    requires IsSubsequence(a, b)
    ensures IsSubsequence(a + [e], b + [e])
  {
    assert (a + [e])[..|a|] == a && (b + [e])[..|b|] == b;
  }

  lemma {:induction false} OneLess(a: seq<Event>, c: seq<Event>, x: Event, b: seq<Event>)
    requires IsSubsequence(a + [x] + c, b)
    ensures IsSubsequence(a + c, b)
    decreases |b|
  {
    var whole, shorter := a + [x] + c, b[..|b| - 1];
    if IsSubsequence(whole, shorter) {
      OneLess(a, c, x, shorter);
    } else if c == [] {
      assert whole[..|whole| - 1] == a == a + c;
    } else {
      var init := c[..|c| - 1];
      assert whole[..|whole| - 1] == a + [x] + init;
      OneLess(a, init, x, shorter);
      assert (a + c)[..|a + c| - 1] == a + init && (a + c)[|a + c| - 1] == c[|c| - 1];
    }
  }

  // ----- what is left of the discrete events -----

  /** The queued events that the overflows of a run displaced. */
  function Displaced(lim: Limits, ops: seq<Op>): seq<Event> {
    if ops == [] then []
    else
      var before, op := ops[..|ops| - 1], ops[|ops| - 1];
      Displaced(lim, before) + DisplacedBy(lim, Run(lim, before).q, op)
  }

  function DisplacedBy(lim: Limits, q: Queue, op: Op): seq<Event> {
    if op.PushOp? && EffectOf(lim, q, op.event).Evicted? then [q.main[EffectOf(lim, q, op.event).at]] else []
  }

  function Seen(t: Trace): seq<Event> {
    DiscreteOf(t.delivered + t.q.main)
  }

  /** Delivered and waiting discrete events are the stored ones without the displaced ones, in push order. */
  ghost predicate KeepsDiscrete(t: Trace, displaced: seq<Event>) {
    && IsSubsequence(Seen(t), DiscreteOf(t.stored))
    && multiset(DiscreteOf(t.stored)) == multiset(Seen(t)) + multiset(DiscreteOf(displaced))
  }

  lemma OfOne(e: Event)
    ensures DiscreteOf([e]) == if IsDiscrete(e) then [e] else []
  {
    assert [e][..0] == [];
  }

  lemma CoalescedKeeps(s: seq<Event>, i: nat, e: Event)
    requires i < |s| && IsCoalescible(e) && SameTarget(s[i], e)
    ensures DiscreteOf(s[i := KeepOldestStamp(s[i], e)]) == DiscreteOf(s)
  {
    var e' := KeepOldestStamp(s[i], e);
    var after := s[i := e'];
    assert !IsDiscrete(s[i]) && !IsDiscrete(e');
    DiscreteSplit(s, i);
    DiscreteSplit(after, i);
    assert after[..i] == s[..i] && after[i + 1..] == s[i + 1..];
    OfOne(s[i]);
    OfOne(e');
  }

  lemma AppendedKeeps(lim: Limits, q: Queue, e: Event)
    requires Sound(lim, q)
    ensures DiscreteOf(Apply(q, e, Appended).main) == DiscreteOf(q.main) + DiscreteOf([e])
  {
    if IsTerminal(e) {
      var own := OfRequest(q.deferred, e.source, e.requestId);
      OfRequestElements(q.deferred, e.source, e.requestId);
      forall i | 0 <= i < |own| ensures !IsDiscrete(own[i]) {
        assert own[i] in own;
      }
      NoneDiscrete(own);
      DiscreteConcat(q.main + own, [e]);
      DiscreteConcat(q.main, own);
    } else {
      DiscreteConcat(q.main, [e]);
    }
  }

  /** A push without displacement shows the consumer the discrete event it stores, last, and changes no other. */
  lemma PushShows(lim: Limits, q: Queue, e: Event)
    requires Sound(lim, q) && !EffectOf(lim, q, e).Evicted?
    ensures var effect := EffectOf(lim, q, e);
            DiscreteOf(Push(lim, q, e).main) ==
            DiscreteOf(q.main) + if effect.Refused? || effect.Duplicate? then [] else DiscreteOf([e])
  {
    var effect := EffectOf(lim, q, e);
    OfOne(e);
    if effect.Coalesced? {
      CoalescedKeeps(q.main, effect.at, e);
    } else if effect.Appended? {
      AppendedKeeps(lim, q, e);
    }
  }

  /** Shown and stored grow by the same, at most one, discrete event. */
  lemma GrowTogether(t: Trace, u: Trace, e: Event, displaced: seq<Event>)
    requires KeepsDiscrete(t, displaced)
    requires Seen(u) == Seen(t) + DiscreteOf([e]) && DiscreteOf(u.stored) == DiscreteOf(t.stored) + DiscreteOf([e])
    ensures KeepsDiscrete(u, displaced)
  {
    hide DiscreteOf, Seen, IsDiscrete, IsSubsequence;
    OfOne(e);
    if IsDiscrete(e) {
      BothGrow(Seen(t), DiscreteOf(t.stored), e);
    } else {
      assert Seen(u) == Seen(t) && DiscreteOf(u.stored) == DiscreteOf(t.stored);
    }
  }

  lemma PushKeepsDiscrete(lim: Limits, t: Trace, e: Event, displaced: seq<Event>)
    requires KeepsDiscrete(t, displaced) && Sound(lim, t.q) && !EffectOf(lim, t.q, e).Evicted?
    ensures KeepsDiscrete(StepPush(lim, t, e), displaced)
  {
    hide EffectOf, DiscreteOf, KeepsDiscrete, Apply;
    var u := StepPush(lim, t, e);
    DiscreteConcat(t.delivered, t.q.main);
    DiscreteConcat(t.delivered, u.q.main);
    PushShows(lim, t.q, e);
    if u.stored == t.stored {
      SameAsBefore(t, u, displaced);
    } else {
      DiscreteConcat(t.stored, [e]);
      assert Seen(u) == Seen(t) + DiscreteOf([e]);
      GrowTogether(t, u, e, displaced);
    }
  }

  lemma SameAsBefore(t: Trace, u: Trace, displaced: seq<Event>)
    requires KeepsDiscrete(t, displaced) && Seen(u) == Seen(t) && u.stored == t.stored
    ensures KeepsDiscrete(u, displaced)
  {
  }

  lemma EvictionIs(lim: Limits, t: Trace, e: Event)
    requires EffectOf(lim, t.q, e).Evicted?
    ensures var u, i := StepPush(lim, t, e), EffectOf(lim, t.q, e).at;
            && u.q.main == t.q.main[..i] + t.q.main[i + 1..] + [e]
            && u.delivered == t.delivered && u.stored == t.stored + [e] && !IsDiscrete(e)
  {
  }

  lemma EvictionKeepsDiscrete(lim: Limits, t: Trace, e: Event, displaced: seq<Event>)
    requires KeepsDiscrete(t, displaced) && EffectOf(lim, t.q, e).Evicted?
    ensures KeepsDiscrete(StepPush(lim, t, e), displaced + DisplacedBy(lim, t.q, PushOp(e)))
  {
    hide StepPush, EffectOf, DiscreteOf, IsSubsequence, IsDiscrete;
    var main, i := t.q.main, EffectOf(lim, t.q, e).at;
    var u := StepPush(lim, t, e);
    EvictionIs(lim, t, e);
    EvictionLeaves(t, i, e);
    DiscreteConcat(t.stored, [e]);
    OfOne(e);
    assert DiscreteOf(u.stored) == DiscreteOf(t.stored);
    DiscreteConcat(displaced, [main[i]]);
    OneGone(DiscreteOf(t.delivered + main[..i]), main[i], DiscreteOf(main[i + 1..]), DiscreteOf(t.stored),
            DiscreteOf(displaced));
  }

  lemma OneGone(a: seq<Event>, x: Event, c: seq<Event>, b: seq<Event>, displaced: seq<Event>)
    requires IsSubsequence(a + DiscreteOf([x]) + c, b)
    requires multiset(b) == multiset(a + DiscreteOf([x]) + c) + multiset(displaced)
    ensures IsSubsequence(a + c, b) && multiset(b) == multiset(a + c) + multiset(displaced + DiscreteOf([x]))
  {
    hide IsSubsequence, DiscreteOf, IsDiscrete;
    OfOne(x);
    if IsDiscrete(x) {
      OneLess(a, c, x, b);
    } else {
      assert a + [] + c == a + c && displaced + [] == displaced;
    }
  }

  lemma EvictionLeaves(t: Trace, i: nat, e: Event)
    requires i < |t.q.main| && !IsDiscrete(e)
    ensures var main, a := t.q.main, DiscreteOf(t.delivered + t.q.main[..i]);
            && Seen(t) == a + DiscreteOf([main[i]]) + DiscreteOf(main[i + 1..])
            && DiscreteOf(t.delivered + (main[..i] + main[i + 1..] + [e])) == a + DiscreteOf(main[i + 1..])
  {
    hide DiscreteOf, IsDiscrete;
    var all, main, k := t.delivered + t.q.main, t.q.main, |t.delivered| + i;
    DiscreteSplit(all, k);
    assert all[..k] == t.delivered + main[..i] && all[k + 1..] == main[i + 1..];
    assert t.delivered + (main[..i] + main[i + 1..] + [e]) == (t.delivered + main[..i]) + main[i + 1..] + [e];
    DiscreteConcat((t.delivered + main[..i]) + main[i + 1..], [e]);
    DiscreteConcat(t.delivered + main[..i], main[i + 1..]);
    OfOne(e);
  }

  lemma RefillShows(lim: Limits, t: Trace)
    requires NearlySound(lim, t.q)
    ensures Seen(StepRefill(lim, t)) == Seen(t) && StepRefill(lim, t).stored == t.stored
  {
    hide Moved, Refill, NearlySound;
    var moved := Moved(lim.capacity, t.q);
    RefillAppends(lim.capacity, t.q);
    MovedIsIgnored(lim, t.q);
    assert t.delivered + (t.q.main + moved) == (t.delivered + t.q.main) + moved;
    DiscreteConcat(t.delivered + t.q.main, moved);
    NoneDiscrete(moved);
  }

  lemma TakeShows(t: Trace)
    ensures Seen(StepTake(t)) == Seen(t) && StepTake(t).stored == t.stored
  {
    if t.q.main != [] {
      assert t.delivered + t.q.main == (t.delivered + [t.q.main[0]]) + t.q.main[1..];
    }
  }

  lemma SoundIsNearlySound(lim: Limits, q: Queue)
    requires Sound(lim, q)
    ensures NearlySound(lim, q)
  {
  }

  lemma PollShows(lim: Limits, t: Trace)
    requires Steady(lim, t)
    ensures Seen(StepPoll(lim, t)) == Seen(t) && StepPoll(lim, t).stored == t.stored
  {
    hide Seen, StepRefill, StepTake, Sound, NearlySound;
    SoundIsNearlySound(lim, t.q);
    RefillShows(lim, t);
    RefillIsSteady(lim, t);
    var r := StepRefill(lim, t);
    TakeShows(r);
    TakeKeepsNearlySound(lim, r);
    RefillShows(lim, StepTake(r));
  }

  lemma StepKeepsDiscrete(lim: Limits, t: Trace, op: Op, displaced: seq<Event>)
    requires KeepsDiscrete(t, displaced) && Steady(lim, t)
    ensures KeepsDiscrete(Step(lim, t, op), displaced + DisplacedBy(lim, t.q, op))
  {
    hide StepPush, StepPoll, StepRefill, EffectOf, KeepsDiscrete, NearlySound;
    assert displaced + [] == displaced;
    match op
    case PushOp(e) =>
      if EffectOf(lim, t.q, e).Evicted? {
        EvictionKeepsDiscrete(lim, t, e, displaced);
      } else {
        PushKeepsDiscrete(lim, t, e, displaced);
      }
    case PollOutOfMemory =>
      SoundIsNearlySound(lim, t.q);
      RefillShows(lim, t);
      SameAsBefore(t, StepRefill(lim, t), displaced);
    case PollOp =>
      PollShows(lim, t);
      SameAsBefore(t, StepPoll(lim, t), displaced);
  }

  lemma SameSizeSameEvents(t: Trace, displaced: seq<Event>)
    requires KeepsDiscrete(t, displaced)
    ensures DiscreteOf(displaced) == [] ==> Seen(t) == DiscreteOf(t.stored)
  {
    ShorterUnlessEqual(Seen(t), DiscreteOf(t.stored));
    assert |DiscreteOf(t.stored)| == |multiset(DiscreteOf(t.stored))|;
    assert |Seen(t)| == |multiset(Seen(t))|;
  }

  /** In every run the discrete events delivered or waiting are the stored ones, less those displaced by a watch
      overflow, in the order of their pushes; with none displaced they are exactly the stored ones. */
  lemma {:induction false} RunKeepsDiscrete(lim: Limits, ops: seq<Op>)
    ensures KeepsDiscrete(Run(lim, ops), Displaced(lim, ops))
    ensures DiscreteOf(Displaced(lim, ops)) == [] ==> Seen(Run(lim, ops)) == DiscreteOf(Run(lim, ops).stored)
  {
    if ops != [] {
      hide Step, Steady, KeepsDiscrete, DisplacedBy;
      var before, op := ops[..|ops| - 1], ops[|ops| - 1];
      RunKeepsDiscrete(lim, before);
      RunIsSteady(lim, before);
      StepKeepsDiscrete(lim, Run(lim, before), op, Displaced(lim, before));
    }
    SameSizeSameEvents(Run(lim, ops), Displaced(lim, ops));
  }

  /** What a run has stored it was pushed, in that order. */
  lemma {:induction false} StoredInPushOrder(lim: Limits, ops: seq<Op>)
    ensures IsSubsequence(Run(lim, ops).stored, Run(lim, ops).pushed)
  {
    if ops != [] {
      hide IsSubsequence, EffectOf, Apply, GroupsAfter, LostBy, Refill;
      var before, op := ops[..|ops| - 1], ops[|ops| - 1];
      var t := Run(lim, before);
      StoredInPushOrder(lim, before);
      if op.PushOp? {
        BothGrow(t.stored, t.pushed, op.event);
        OneMoreToLeaveOut(t.stored, t.pushed, op.event);
      }
    }
  }

  lemma OneMoreToLeaveOut(a: seq<Event>, b: seq<Event>, e: Event)
    requires IsSubsequence(a, b)
    ensures IsSubsequence(a, b + [e])
  {
    assert (b + [e])[..|b|] == b;
  }
}
