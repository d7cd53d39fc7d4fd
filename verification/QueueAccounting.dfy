/** Byte and count limits, and what happens to watch overflows. */
module QueueAccounting {
  import opened Events
  import opened QueueModel
  import FileWatch

  function CountOrdinary(s: seq<Event>): nat {
    if s == [] then 0 else (if IsOrdinary(s[0]) then 1 else 0) + CountOrdinary(s[1..])
  }

  function CountOverflows(s: seq<Event>): nat {
    if s == [] then 0 else (if IsOverflow(s[0]) then 1 else 0) + CountOverflows(s[1..])
  }

  lemma {:induction false} Concat(a: seq<Event>, b: seq<Event>)
    ensures PayloadBytes(a + b) == PayloadBytes(a) + PayloadBytes(b)
    ensures CountOrdinary(a + b) == CountOrdinary(a) + CountOrdinary(b)
    ensures CountOverflows(a + b) == CountOverflows(a) + CountOverflows(b)
  {
    if a == [] {
      assert a + b == b;
    } else {
      assert (a + b)[1..] == a[1..] + b;
      Concat(a[1..], b);
    }
  }

  lemma Without(s: seq<Event>, i: nat)
    requires i < |s|
    ensures PayloadBytes(s[..i] + s[i + 1..]) + |s[i].data| == PayloadBytes(s)
    ensures CountOrdinary(s[..i] + s[i + 1..]) + (if IsOrdinary(s[i]) then 1 else 0) == CountOrdinary(s)
    ensures CountOverflows(s[..i] + s[i + 1..]) + (if IsOverflow(s[i]) then 1 else 0) == CountOverflows(s)
  {
    assert s == s[..i] + ([s[i]] + s[i + 1..]);
    Concat(s[..i], [s[i]] + s[i + 1..]);
    Concat([s[i]], s[i + 1..]);
    Concat(s[..i], s[i + 1..]);
  }

  lemma Replaced(s: seq<Event>, i: nat, e: Event)
    requires i < |s|
    ensures PayloadBytes(s[i := e]) + |s[i].data| == PayloadBytes(s) + |e.data|
    ensures CountOrdinary(s[i := e]) + (if IsOrdinary(s[i]) then 1 else 0)
         == CountOrdinary(s) + (if IsOrdinary(e) then 1 else 0)
    ensures CountOverflows(s[i := e]) + (if IsOverflow(s[i]) then 1 else 0)
         == CountOverflows(s) + (if IsOverflow(e) then 1 else 0)
  {
    Without(s, i);
    Without(s[i := e], i);
    assert s[i := e][..i] + s[i := e][i + 1..] == s[..i] + s[i + 1..];
  }

  lemma {:induction false} SplitSums(d: seq<Event>, source: nat, request: nat)
    ensures PayloadBytes(OfRequest(d, source, request)) + PayloadBytes(NotOfRequest(d, source, request))
         == PayloadBytes(d)
  {
    if d != [] {
      SplitSums(d[1..], source, request);
    }
  }

  lemma {:induction false} NoneCounted(s: seq<Event>)
    ensures (forall i :: 0 <= i < |s| ==> !IsOrdinary(s[i])) ==> CountOrdinary(s) == 0
    ensures (forall i :: 0 <= i < |s| ==> !IsOverflow(s[i])) ==> CountOverflows(s) == 0
    ensures (forall i :: 0 <= i < |s| ==> IsOverflow(s[i])) ==> CountOverflows(s) == |s|
    ensures CountOrdinary(s) <= |s|
  {
    if s != [] {
      NoneCounted(s[1..]);
    }
  }

  // ----- bytes -----

  /** The payload bytes an effect releases, besides storing `e`. */
  function Released(q: Queue, effect: Effect): nat
    requires ValidEffect(q, effect)
  {
    match effect
    case Coalesced(i) => |q.main[i].data|
    case Evicted(i) => |q.main[i].data|
    case Reparked(i) => |q.parked[i].data|
    case _ => 0
  }

  /** The byte counter never underflows: what an effect releases was counted. */
  lemma ReleasedWasHeld(q: Queue, effect: Effect)
    requires ValidEffect(q, effect)
    ensures Released(q, effect) <= TotalBytes(q)
  {
    match effect
    case Coalesced(i) => Without(q.main, i);
    case Evicted(i) => Without(q.main, i);
    case Reparked(i) => Without(q.parked, i);
    case _ =>
  }

  lemma BytesAfterEffect(q: Queue, e: Event, effect: Effect)
    requires ValidEffect(q, effect)
    ensures TotalBytes(Apply(q, e, effect)) + Released(q, effect)
         == TotalBytes(q) + (if effect.Refused? || effect.Duplicate? then 0 else |e.data|)
  {
    match effect
    case Refused | Duplicate =>
    case Coalesced(i) => Replaced(q.main, i, KeepOldestStamp(q.main[i], e));
    case Evicted(i) =>
      Without(q.main, i);
      Concat(q.main[..i] + q.main[i + 1..], [e]);
    case Reparked(i) => Replaced(q.parked, i, e);
    case Parked => Concat(q.parked, [e]);
    case Deferred => Concat(q.deferred, [e]);
    case Appended => BytesAfterAppend(q, e);
  }

  lemma BytesAfterAppend(q: Queue, e: Event)
    ensures TotalBytes(Apply(q, e, Appended)) == TotalBytes(q) + |e.data|
  {
    if IsTerminal(e) {
      var own := OfRequest(q.deferred, e.source, e.requestId);
      SplitSums(q.deferred, e.source, e.requestId);
      Concat(q.main + own, [e]);
      Concat(q.main, own);
    } else {
      Concat(q.main, [e]);
    }
  }

  lemma RefillKeepsBytes(capacity: nat, q: Queue)
    ensures TotalBytes(Refill(capacity, q)) == TotalBytes(q)
  {
    var n := Room(capacity, q);
    assert q.deferred == q.deferred[..n] + q.deferred[n..];
    Concat(q.deferred[..n], q.deferred[n..]);
    Concat(q.main, q.deferred[..n]);
    var d := PromoteDeferred(capacity, q);
    assert TotalBytes(d) == TotalBytes(q);
    if d.parked != [] {
      Concat(d.main, [d.parked[0]]);
    }
  }

  lemma PollReleasesBytes(capacity: nat, q: Queue)
    ensures match Poll(capacity, q).1
            case Some(e) => TotalBytes(Poll(capacity, q).0) + |e.data| == TotalBytes(q)
            case None => TotalBytes(Poll(capacity, q).0) == TotalBytes(q)
  {
    RefillKeepsBytes(capacity, q);
    var r := Refill(capacity, q);
    if r.main != [] {
      RefillKeepsBytes(capacity, r.(main := r.main[1..]));
    }
  }

  /** An accepted ordinary event leaves the queue within its byte budget. */
  lemma AcceptedOrdinaryFitsBudget(lim: Limits, q: Queue, e: Event)
    requires IsOrdinary(e) && !EffectOf(lim, q, e).Refused?
    ensures TotalBytes(Push(lim, q, e)) <= lim.byteCapacity
  {
    var effect := EffectOf(lim, q, e);
    BytesAfterEffect(q, e, effect);
  }

  // ----- counts -----

  ghost predicate WithinLimits(lim: Limits, q: Queue) {
    && CountOrdinary(q.main) <= lim.capacity
    && forall i, j :: 0 <= i < j < |q.parked| ==> q.parked[i].source != q.parked[j].source
  }

  lemma PushKeepsLimits(lim: Limits, q: Queue, e: Event)
    requires WithinLimits(lim, q) && Sound(lim, q)
    ensures WithinLimits(lim, Push(lim, q, e))
  {
    var effect := EffectOf(lim, q, e);
    ClassesAreDisjoint(e);
    match effect
    case Coalesced(i) =>
      ClassesAreDisjoint(q.main[i]);
      assert IsCoalescible(q.main[i]);
      var e' := KeepOldestStamp(q.main[i], e);
      assert IsOrdinary(e') == IsOrdinary(e);
      Replaced(q.main, i, e');
    case Evicted(i) =>
      Without(q.main, i);
      Concat(q.main[..i] + q.main[i + 1..], [e]);
    case Appended => AppendKeepsLimits(lim, q, e);
    case _ =>
  }

  lemma AppendKeepsLimits(lim: Limits, q: Queue, e: Event)
    requires CountOrdinary(q.main) <= lim.capacity && Sound(lim, q) && EffectOf(lim, q, e).Appended?
    ensures CountOrdinary(Push(lim, q, e).main) <= lim.capacity
  {
    NoneCounted(q.main);
    if IsTerminal(e) {
      var own := OfRequest(q.deferred, e.source, e.requestId);
      OfRequestElements(q.deferred, e.source, e.requestId);
      forall i | 0 <= i < |own| ensures !IsOrdinary(own[i]) {
        assert own[i] in own;
      }
      NoneCounted(own);
      Concat(q.main + own, [e]);
      Concat(q.main, own);
    } else {
      Concat(q.main, [e]);
    }
  }

  lemma RefillKeepsLimits(lim: Limits, q: Queue)
    requires WithinLimits(lim, q) && NearlySound(lim, q)
    ensures WithinLimits(lim, Refill(lim.capacity, q))
  {
    var d := PromoteDeferred(lim.capacity, q);
    var moved := q.deferred[..Room(lim.capacity, q)];
    NoneCounted(moved);
    Concat(q.main, moved);
    if d.parked != [] {
      Concat(d.main, [d.parked[0]]);
    }
  }

  lemma PollKeepsLimits(lim: Limits, q: Queue)
    requires WithinLimits(lim, q) && Sound(lim, q)
    ensures WithinLimits(lim, Poll(lim.capacity, q).0)
  {
    RefillKeepsLimits(lim, q);
    RefillSettles(lim, q);
    var r := Refill(lim.capacity, q);
    if r.main != [] {
      var taken := r.(main := r.main[1..]);
      assert CountOrdinary(taken.main) <= CountOrdinary(r.main);
      RefillKeepsLimits(lim, taken);
    }
  }

  // ----- overflows -----

  function OverflowsHeld(q: Queue): nat {
    CountOverflows(q.main) + CountOverflows(q.parked)
  }

  /** No push lowers the number of overflow records held. */
  lemma PushKeepsOverflows(lim: Limits, q: Queue, e: Event)
    requires Sound(lim, q)
    ensures OverflowsHeld(Push(lim, q, e)) >= OverflowsHeld(q)
  {
    var effect := EffectOf(lim, q, e);
    match effect
    case Coalesced(i) =>
      assert !IsOverflow(q.main[i]);
      Replaced(q.main, i, KeepOldestStamp(q.main[i], e));
    case Evicted(i) =>
      Without(q.main, i);
      Concat(q.main[..i] + q.main[i + 1..], [e]);
    case Reparked(i) => Replaced(q.parked, i, e);
    case Parked => Concat(q.parked, [e]);
    case Appended =>
      if IsTerminal(e) {
        var own := OfRequest(q.deferred, e.source, e.requestId);
        Concat(q.main + own, [e]);
        Concat(q.main, own);
      } else {
        Concat(q.main, [e]);
      }
    case _ =>
  }

  /** A refill only moves overflow records about, and so does a poll whose payload cannot be copied. */
  lemma RefillKeepsOverflows(lim: Limits, q: Queue)
    requires NearlySound(lim, q)
    ensures OverflowsHeld(Refill(lim.capacity, q)) == OverflowsHeld(q)
  {
    var n := Room(lim.capacity, q);
    var d := PromoteDeferred(lim.capacity, q);
    forall i | 0 <= i < n ensures !IsOverflow(q.deferred[..n][i]) {
      ClassesAreDisjoint(q.deferred[i]);
    }
    NoneCounted(q.deferred[..n]);
    Concat(q.main, q.deferred[..n]);
    if d.parked != [] {
      Concat(d.main, [d.parked[0]]);
      Concat([d.parked[0]], d.parked[1..]);
      assert d.parked == [d.parked[0]] + d.parked[1..];
    }
  }

  /** A poll lowers the number of overflow records held by the overflow it yields, and by nothing else. */
  lemma PollReleasesOverflows(lim: Limits, q: Queue)
    requires Sound(lim, q)
    ensures match Poll(lim.capacity, q).1
            case Some(e) =>
              OverflowsHeld(Poll(lim.capacity, q).0) + (if IsOverflow(e) then 1 else 0) == OverflowsHeld(q)
            case None => OverflowsHeld(Poll(lim.capacity, q).0) == OverflowsHeld(q)
  {
    RefillKeepsOverflows(lim, q);
    RefillSettles(lim, q);
    var r := Refill(lim.capacity, q);
    if r.main != [] {
      Concat([r.main[0]], r.main[1..]);
      assert r.main == [r.main[0]] + r.main[1..];
      RefillKeepsOverflows(lim, r.(main := r.main[1..]));
    }
  }

  /** Some overflow of the watcher `source` is waiting to be polled. */
  ghost predicate HoldsOverflow(q: Queue, source: nat) {
    exists x :: (x in q.main || x in q.parked) && IsOverflow(x) && x.source == source
  }

  /** The push of `e` would displace the last waiting overflow of another watcher. */
  ghost predicate DisplacesOverflow(lim: Limits, q: Queue, e: Event, source: nat) {
    && IsOverflow(e) && e.source != source && |q.main| >= lim.capacity
    && var v := Victim(q.main);
       && v < |q.main| && IsOverflow(q.main[v]) && q.main[v].source == source
       && (forall i :: 0 <= i < |q.main| && i != v ==> !(IsOverflow(q.main[i]) && q.main[i].source == source))
       && (forall i :: 0 <= i < |q.parked| ==> !(IsOverflow(q.parked[i]) && q.parked[i].source == source))
  }

  /** The queue keeps one overflow per watcher, except exactly when another watcher's overflow displaces
      it from a full queue that holds nothing coalescible. */
  lemma OverflowSurvivesExactlyUnless(lim: Limits, q: Queue, e: Event, source: nat)
    requires HoldsOverflow(q, source)
    ensures HoldsOverflow(Push(lim, q, e), source) <==> !DisplacesOverflow(lim, q, e, source)
  {
    var effect := EffectOf(lim, q, e);
    var after := Push(lim, q, e);
    if DisplacesOverflow(lim, q, e, source) {
      DisplacedOverflowIsGone(lim, q, e, source);
    } else {
      var x :| (x in q.main || x in q.parked) && IsOverflow(x) && x.source == source;
      if x in q.main {
        var k :| 0 <= k < |q.main| && q.main[k] == x;
        QueuedOverflowSurvives(lim, q, e, source, k);
      } else {
        var k :| 0 <= k < |q.parked| && q.parked[k] == x;
        ParkedOverflowSurvives(lim, q, e, source, k);
      }
    }
  }

  lemma DisplacedOverflowIsGone(lim: Limits, q: Queue, e: Event, source: nat)
    requires DisplacesOverflow(lim, q, e, source)
    ensures !HoldsOverflow(Push(lim, q, e), source)
  {
    ClassesAreDisjoint(e);
    var v := Victim(q.main);
    assert EffectOf(lim, q, e) == Evicted(v);
    var after := Push(lim, q, e);
    forall x | x in after.main || x in after.parked ensures !(IsOverflow(x) && x.source == source) {
      if x in after.main {
        var i :| 0 <= i < |after.main| && after.main[i] == x;
        assert i < v ==> x == q.main[i];
        assert v <= i < |q.main| - 1 ==> x == q.main[i + 1];
      } else {
        var i :| 0 <= i < |after.parked| && after.parked[i] == x;
      }
    }
  }

  lemma ParkedOverflowSurvives(lim: Limits, q: Queue, e: Event, source: nat, k: nat)
    requires k < |q.parked| && IsOverflow(q.parked[k]) && q.parked[k].source == source
    ensures HoldsOverflow(Push(lim, q, e), source)
  {
    var after := Push(lim, q, e);
    assert |after.parked| >= |q.parked| && after.parked[k] in after.parked;
  }

  lemma QueuedOverflowSurvives(lim: Limits, q: Queue, e: Event, source: nat, k: nat)
    requires k < |q.main| && IsOverflow(q.main[k]) && q.main[k].source == source
    requires !DisplacesOverflow(lim, q, e, source)
    ensures HoldsOverflow(Push(lim, q, e), source)
  {
    var effect := EffectOf(lim, q, e);
    var after := Push(lim, q, e);
    if effect.Evicted? {
      var v := effect.at;
      assert after.main[|after.main| - 1] == e && e in after.main;
      if k != v {
        assert after.main[if k < v then k else k - 1] == q.main[k];
        assert q.main[k] in after.main;
      } else if e.source != source {
        AnotherOverflow(lim, q, e, source, v);
      }
    } else {
      assert !(effect.Coalesced? && effect.at == k);
      assert after.main[k] == q.main[k];
      assert after.main[k] in after.main;
    }
  }

  lemma AnotherOverflow(lim: Limits, q: Queue, e: Event, source: nat, v: nat)
    requires EffectOf(lim, q, e) == Evicted(v) && v < |q.main|
    requires IsOverflow(q.main[v]) && q.main[v].source == source && e.source != source
    requires !DisplacesOverflow(lim, q, e, source)
    ensures HoldsOverflow(Push(lim, q, e), source)
  {
    var after := Push(lim, q, e);
    if i :| 0 <= i < |q.main| && i != v && IsOverflow(q.main[i]) && q.main[i].source == source {
      assert after.main[if i < v then i else i - 1] == q.main[i];
      assert q.main[i] in after.main;
    } else {
      var i :| 0 <= i < |q.parked| && IsOverflow(q.parked[i]) && q.parked[i].source == source;
      assert after.parked == q.parked && q.parked[i] in after.parked;
    }
  }

  /** A history of any two watchers in which the first one's overflow is lost: capacity one, nothing else queued,
      whatever the byte budget. */
  lemma OneOverflowPerWatcherFails(byteCapacity: nat, source: nat, other: nat)
    requires source != other
    ensures var lim := Limits(1, byteCapacity);
            var q := Push(lim, EMPTY, FileWatch.OverflowEvent(source));
            HoldsOverflow(q, source) && !HoldsOverflow(Push(lim, q, FileWatch.OverflowEvent(other)), source)
  {
    var lim := Limits(1, byteCapacity);
    var first, second := FileWatch.OverflowEvent(source), FileWatch.OverflowEvent(other);
    var q := Push(lim, EMPTY, first);
    ClassesAreDisjoint(first);
    assert EffectOf(lim, EMPTY, first).Appended?;
    assert q.main == [first];
    assert first in q.main;
    assert FirstCoalescible(q.main) == 1 && FirstDisposable(q.main) == 0;
    DisplacedOverflowIsGone(lim, q, second, source);
  }
}
