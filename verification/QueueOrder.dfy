/** Completions and readiness records of one request leave the queue in the order they were stored. */
module QueueOrder {
  import opened Events
  import opened QueueModel
  import opened QueueRuns

  /** The completions and readiness records of one request, in sequence order. */
  function RequestEvents(s: seq<Event>, source: nat, request: nat): seq<Event> {
    if s == [] then []
    else if IsMandatory(s[0]) && InRequest(s[0], source, request) then
      [s[0]] + RequestEvents(s[1..], source, request)
    else RequestEvents(s[1..], source, request)
  }

  lemma {:induction false} RequestEventsConcat(a: seq<Event>, b: seq<Event>, source: nat, request: nat)
    ensures RequestEvents(a + b, source, request)
         == RequestEvents(a, source, request) + RequestEvents(b, source, request)
  {
    if a == [] {
      assert a + b == b;
    } else {
      assert (a + b)[1..] == a[1..] + b;
      RequestEventsConcat(a[1..], b, source, request);
    }
  }

  /** Replacing or removing an event that is no completion and no readiness record changes nothing. */
  lemma SkipReplaced(s: seq<Event>, i: nat, with: seq<Event>, source: nat, request: nat)
    requires i < |s| && !IsMandatory(s[i])
    requires forall x :: x in with ==> !IsMandatory(x)
    ensures RequestEvents(s[..i] + with + s[i + 1..], source, request) == RequestEvents(s, source, request)
  {
    assert s == s[..i] + [s[i]] + s[i + 1..];
    RequestEventsConcat(s[..i] + [s[i]], s[i + 1..], source, request);
    RequestEventsConcat(s[..i], [s[i]], source, request);
    RequestEventsConcat(s[..i] + with, s[i + 1..], source, request);
    RequestEventsConcat(s[..i], with, source, request);
    NoneMandatory(with, source, request);
    NoneMandatory([s[i]], source, request);
  }

  lemma {:induction false} NoneMandatory(s: seq<Event>, source: nat, request: nat)
    requires forall x :: x in s ==> !IsMandatory(x)
    ensures RequestEvents(s, source, request) == []
  {
    if s != [] {
      NoneMandatory(s[1..], source, request);
    }
  }

  /** Pulling the records of one request to the front of the deferred ones reorders no request: its own
      records all come along, in order ... */
  lemma {:induction false} OwnPulledForward(d: seq<Event>, source: nat, request: nat)
    ensures RequestEvents(OfRequest(d, source, request), source, request) == RequestEvents(d, source, request)
    ensures RequestEvents(NotOfRequest(d, source, request), source, request) == []
  {
    if d != [] {
      OwnPulledForward(d[1..], source, request);
      var rest := d[1..];
      if InRequest(d[0], source, request) {
        assert ([d[0]] + OfRequest(rest, source, request))[1..] == OfRequest(rest, source, request);
      } else {
        assert ([d[0]] + NotOfRequest(rest, source, request))[1..] == NotOfRequest(rest, source, request);
      }
    }
  }

  /** ... and those of every other request stay behind, in order. */
  lemma {:induction false} OthersPulledForward(d: seq<Event>, s: nat, r: nat, source: nat, request: nat)
    requires !(s == source && r == request)
    ensures RequestEvents(OfRequest(d, s, r), source, request) == []
    ensures RequestEvents(NotOfRequest(d, s, r), source, request) == RequestEvents(d, source, request)
  {
    if d != [] {
      OthersPulledForward(d[1..], s, r, source, request);
      var rest := d[1..];
      if InRequest(d[0], s, r) {
        assert ([d[0]] + OfRequest(rest, s, r))[1..] == OfRequest(rest, s, r);
      } else {
        assert ([d[0]] + NotOfRequest(rest, s, r))[1..] == NotOfRequest(rest, s, r);
      }
    }
  }

  /** What a request still has waiting, in delivery order. */
  function Waiting(q: Queue, source: nat, request: nat): seq<Event> {
    RequestEvents(q.main, source, request) + RequestEvents(q.deferred, source, request)
  }

  lemma CoalescedKeepsWaiting(q: Queue, e: Event, i: nat, source: nat, request: nat)
    requires i < |q.main| && IsCoalescible(e) && q.main[i].kind == e.kind
    ensures Waiting(Apply(q, e, Coalesced(i)), source, request) == Waiting(q, source, request)
  {
    var e' := KeepOldestStamp(q.main[i], e);
    ReplacedIsDisposable(q.main[i], e);
    ReplacedIsDisposable(e', e);
    assert q.main[i := e'] == q.main[..i] + [e'] + q.main[i + 1..];
    SkipReplaced(q.main, i, [e'], source, request);
  }

  lemma EvictedKeepsWaiting(q: Queue, e: Event, i: nat, source: nat, request: nat)
    requires i < |q.main| && !IsMandatory(q.main[i]) && !IsMandatory(e)
    ensures Waiting(Apply(q, e, Evicted(i)), source, request) == Waiting(q, source, request)
  {
    SkipReplaced(q.main, i, [], source, request);
    assert q.main[..i] + [] + q.main[i + 1..] == q.main[..i] + q.main[i + 1..];
    RequestEventsConcat(q.main[..i] + q.main[i + 1..], [e], source, request);
    NoneMandatory([e], source, request);
  }

  /** One push adds the event, if it is stored and belongs to the request, behind everything the
      request has waiting, and touches nothing else of the request. */
  lemma PushAppendsToRequest(lim: Limits, q: Queue, e: Event, source: nat, request: nat)
    requires Sound(lim, q)
    ensures var effect := EffectOf(lim, q, e);
            var stored := if effect.Refused? || effect.Duplicate? then [] else [e];
            Waiting(Push(lim, q, e), source, request)
            == Waiting(q, source, request) + RequestEvents(stored, source, request)
  {
    var effect := EffectOf(lim, q, e);
    ClassesAreDisjoint(e);
    match effect
    case Refused | Duplicate =>
    case Coalesced(i) =>
      CoalescedKeepsWaiting(q, e, i, source, request);
      NoneMandatory([e], source, request);
    case Evicted(i) =>
      EvictedKeepsWaiting(q, e, i, source, request);
      NoneMandatory([e], source, request);
    case Reparked(_) | Parked => NoneMandatory([e], source, request);
    case Deferred => RequestEventsConcat(q.deferred, [e], source, request);
    case Appended => AppendedToRequest(lim, q, e, source, request);
  }

  lemma ReplacedIsDisposable(replaced: Event, e: Event)
    requires IsCoalescible(e) && replaced.kind == e.kind
    ensures !IsMandatory(replaced)
  {
    ClassesAreDisjoint(replaced);
  }

  lemma AppendedToRequest(lim: Limits, q: Queue, e: Event, source: nat, request: nat)
    requires Sound(lim, q) && EffectOf(lim, q, e) == Appended
    ensures Waiting(Push(lim, q, e), source, request)
         == Waiting(q, source, request) + RequestEvents([e], source, request)
  {
    if IsTerminal(e) {
      var own := OfRequest(q.deferred, e.source, e.requestId);
      if e.source == source && e.requestId == request {
        OwnPulledForward(q.deferred, source, request);
      } else {
        OthersPulledForward(q.deferred, e.source, e.requestId, source, request);
      }
      RequestEventsConcat(q.main + own, [e], source, request);
      RequestEventsConcat(q.main, own, source, request);
    } else {
      assert q.deferred == [];
      RequestEventsConcat(q.main, [e], source, request);
    }
  }

  lemma PromotionKeepsWaiting(capacity: nat, q: Queue, source: nat, request: nat)
    ensures Waiting(PromoteDeferred(capacity, q), source, request) == Waiting(q, source, request)
  {
    var n := Room(capacity, q);
    assert q.deferred == q.deferred[..n] + q.deferred[n..];
    RequestEventsConcat(q.deferred[..n], q.deferred[n..], source, request);
    RequestEventsConcat(q.main, q.deferred[..n], source, request);
  }

  lemma UnparkingKeepsWaiting(capacity: nat, q: Queue, source: nat, request: nat)
    requires q.parked != [] ==> IsOverflow(q.parked[0])
    ensures Waiting(PromoteParked(capacity, q), source, request) == Waiting(q, source, request)
  {
    if q.parked != [] {
      ClassesAreDisjoint(q.parked[0]);
      RequestEventsConcat(q.main, [q.parked[0]], source, request);
    }
  }

  lemma RefillKeepsWaiting(lim: Limits, q: Queue, source: nat, request: nat)
    requires NearlySound(lim, q)
    ensures Waiting(Refill(lim.capacity, q), source, request) == Waiting(q, source, request)
  {
    PromotionKeepsWaiting(lim.capacity, q, source, request);
    UnparkingKeepsWaiting(lim.capacity, PromoteDeferred(lim.capacity, q), source, request);
  }

  /** What of a request has been delivered, followed by what is waiting, is what was stored. */
  ghost predicate InOrder(t: Trace, source: nat, request: nat) {
    RequestEvents(t.delivered, source, request) + Waiting(t.q, source, request)
    == RequestEvents(t.stored, source, request)
  }

  lemma TakeKeepsOrder(t: Trace, source: nat, request: nat)
    requires InOrder(t, source, request) && |t.groups| == |t.q.main|
    ensures InOrder(StepTake(t), source, request)
  {
    if t.q.main != [] {
      assert t.q.main == [t.q.main[0]] + t.q.main[1..];
      RequestEventsConcat([t.q.main[0]], t.q.main[1..], source, request);
      RequestEventsConcat(t.delivered, [t.q.main[0]], source, request);
    }
  }

  lemma {:induction false} RunIsInOrder(lim: Limits, ops: seq<Op>, source: nat, request: nat)
    ensures InOrder(Run(lim, ops), source, request)
  {
    if ops != [] {
      var before, op := ops[..|ops| - 1], ops[|ops| - 1];
      var t := Run(lim, before);
      RunIsInOrder(lim, before, source, request);
      RunIsSteady(lim, before);
      match op {
        case PushOp(e) =>
          PushAppendsToRequest(lim, t.q, e, source, request);
          RequestEventsConcat(t.stored, [e], source, request);
        case PollOutOfMemory => RefillKeepsWaiting(lim, t.q, source, request);
        case PollOp => PollKeepsOrder(lim, t, source, request);
      }
    }
  }

  lemma PollKeepsOrder(lim: Limits, t: Trace, source: nat, request: nat)
    requires InOrder(t, source, request) && Steady(lim, t)
    ensures InOrder(StepPoll(lim, t), source, request)
  {
    var r := StepRefill(lim, t);
    RefillKeepsWaiting(lim, t.q, source, request);
    RefillIsSteady(lim, t);
    TakeKeepsOrder(r, source, request);
    TakeKeepsNearlySound(lim, r);
    RefillKeepsWaiting(lim, StepTake(r).q, source, request);
  }

  /** In every run, what has been delivered of a request is a prefix of what was stored of it, and all
      of it once the queue is empty. */
  lemma DeliveredInStoredOrder(lim: Limits, ops: seq<Op>, source: nat, request: nat)
    ensures var t := Run(lim, ops);
            && RequestEvents(t.delivered, source, request) <= RequestEvents(t.stored, source, request)
            && (IsEmpty(t.q) ==>
                  RequestEvents(t.delivered, source, request) == RequestEvents(t.stored, source, request))
  {
    RunIsInOrder(lim, ops, source, request);
  }
}
