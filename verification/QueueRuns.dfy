/** Whole histories of one queue: any sequence of pushes and polls from the empty queue, with a record
    of what was pushed, stored, delivered and given up. */
module QueueRuns {
  import opened Events
  import opened QueueModel

  /** `PollOutOfMemory` is a poll whose payload copy could not be allocated: it refills and gives up. */
  datatype Op = PushOp(event: Event) | PollOp | PollOutOfMemory

  /** `groups[i]` lists the pushed events that `q.main[i]` stands for, oldest first, and
      `deliveredGroups` does the same for `delivered`. `stored` is the pushes the queue kept, and
      `lost` every pushed event that will never be delivered, not even through its replacement. */
  datatype Trace = Trace(
    q: Queue, groups: seq<seq<Event>>,
    pushed: seq<Event>, stored: seq<Event>, lost: seq<Event>,
    delivered: seq<Event>, deliveredGroups: seq<seq<Event>>)

  const START := Trace(EMPTY, [], [], [], [], [], [])

  function Singles(s: seq<Event>): (r: seq<seq<Event>>)
    ensures |r| == |s| && forall i :: 0 <= i < |r| ==> r[i] == [s[i]]
  {
    seq(|s|, i requires 0 <= i < |s| => [s[i]])
  }

  /** The groups after `main` grew from `oldLength` to `main`. */
  function Grown(groups: seq<seq<Event>>, main: seq<Event>): (r: seq<seq<Event>>)
    ensures |groups| <= |main| ==> |r| == |main|
  {
    if |groups| <= |main| then groups + Singles(main[|groups|..]) else groups
  }

  /** The groups once `e` has been pushed with the given effect, `after` being the new main deque. */
  function GroupsAfter(groups: seq<seq<Event>>, e: Event, effect: Effect, after: seq<Event>): seq<seq<Event>> {
    match effect
    case Coalesced(i) => if i < |groups| then groups[i := groups[i] + [e]] else groups
    case Evicted(i) => if i < |groups| then groups[..i] + groups[i + 1..] + [[e]] else groups
    case _ => Grown(groups, after)
  }

  function LostBy(t: Trace, e: Event, effect: Effect): seq<Event>
    requires ValidEffect(t.q, effect)
  {
    match effect
    case Refused | Duplicate => [e]
    case Evicted(i) => if i < |t.groups| then t.groups[i] else []
    case Reparked(i) => [t.q.parked[i]]
    case _ => []
  }

  function StepPush(lim: Limits, t: Trace, e: Event): Trace {
    var effect := EffectOf(lim, t.q, e);
    var q := Apply(t.q, e, effect);
    t.(q := q,
       groups := GroupsAfter(t.groups, e, effect, q.main),
       pushed := t.pushed + [e],
       stored := if effect.Refused? || effect.Duplicate? then t.stored else t.stored + [e],
       lost := t.lost + LostBy(t, e, effect))
  }

  function StepRefill(lim: Limits, t: Trace): Trace {
    var q := Refill(lim.capacity, t.q);
    t.(q := q, groups := Grown(t.groups, q.main))
  }

  function StepTake(t: Trace): Trace {
    if t.q.main == [] || t.groups == [] then t
    else t.(q := t.q.(main := t.q.main[1..]), groups := t.groups[1..],
            delivered := t.delivered + [t.q.main[0]],
            deliveredGroups := t.deliveredGroups + [t.groups[0]])
  }

  function StepPoll(lim: Limits, t: Trace): Trace {
    StepRefill(lim, StepTake(StepRefill(lim, t)))
  }

  function Step(lim: Limits, t: Trace, op: Op): Trace {
    match op
    case PushOp(e) => StepPush(lim, t, e)
    case PollOp => StepPoll(lim, t)
    case PollOutOfMemory => StepRefill(lim, t)
  }

  function Run(lim: Limits, ops: seq<Op>): Trace {
    if ops == [] then START
    else Step(lim, Run(lim, ops[..|ops| - 1]), ops[|ops| - 1])
  }

  // ----- every run stays sound -----

  lemma TakeKeepsNearlySound(lim: Limits, t: Trace)
    requires Sound(lim, t.q)
    ensures NearlySound(lim, StepTake(t).q)
  {
  }

  ghost predicate Steady(lim: Limits, t: Trace) {
    Sound(lim, t.q) && |t.groups| == |t.q.main|
  }

  lemma RefillIsSteady(lim: Limits, t: Trace)
    requires NearlySound(lim, t.q) && |t.groups| == |t.q.main|
    ensures Steady(lim, StepRefill(lim, t))
  {
    RefillSettles(lim, t.q);
  }

  lemma StepIsSteady(lim: Limits, t: Trace, op: Op)
    requires Steady(lim, t)
    ensures Steady(lim, Step(lim, t, op))
  {
    match op
    case PushOp(e) => PushKeepsSound(lim, t.q, e);
    case PollOutOfMemory => RefillIsSteady(lim, t);
    case PollOp =>
      RefillIsSteady(lim, t);
      var r := StepRefill(lim, t);
      TakeKeepsNearlySound(lim, r);
      RefillIsSteady(lim, StepTake(r));
  }

  lemma {:induction false} RunIsSteady(lim: Limits, ops: seq<Op>)
    ensures Steady(lim, Run(lim, ops))
  {
    if ops != [] {
      RunIsSteady(lim, ops[..|ops| - 1]);
      StepIsSteady(lim, Run(lim, ops[..|ops| - 1]), ops[|ops| - 1]);
    }
  }

  lemma RefillOfEmpty(capacity: nat, q: Queue)
    requires IsEmpty(q)
    ensures Refill(capacity, q) == q
  {
    assert Room(capacity, q) == 0;
    assert PromoteDeferred(capacity, q) == q;
  }

  /** The poll step of a run is the queue's own `Poll`, and records exactly what it yields. (`StepPush`
      applies `Push` by definition.) */
  lemma StepPollIsPoll(lim: Limits, t: Trace)
    requires |t.groups| == |t.q.main|
    ensures StepPoll(lim, t).q == Poll(lim.capacity, t.q).0
    ensures StepPoll(lim, t).delivered
         == t.delivered + (match Poll(lim.capacity, t.q).1 case Some(x) => [x] case None => [])
  {
    var q := Refill(lim.capacity, t.q);
    RefillAppends(lim.capacity, t.q);
    assert |Grown(t.groups, q.main)| == |q.main|;
    if q.main == [] {
      RefillIsEmptyOnlyIfAllIs(lim.capacity, t.q);
      RefillOfEmpty(lim.capacity, q);
      assert StepTake(StepRefill(lim, t)) == StepRefill(lim, t);
    }
  }
}
