/** The queue object itself: three deques and a byte counter, changed in place. */
module EventQueues {
  import opened Events
  import M = QueueModel
  import A = QueueAccounting
  import P = QueuePush
  import opened Options

  datatype Result = Ok | QueueFull | OutOfMemory

  class EventQueue {
    const limits: M.Limits
    var queue: seq<Event>
    var deferredReadiness: seq<Event>
    var pendingOverflows: seq<Event>
    var queuedBytes: nat

    ghost function State(): M.Queue
      reads this
    {
      M.Queue(queue, deferredReadiness, pendingOverflows)
    }

    /** The byte counter is exact, side deques wait only behind a full queue, and the count limits hold. */
    ghost predicate Valid()
      reads this
    {
      && queuedBytes == M.TotalBytes(State())
      && M.Sound(limits, State())
      && A.WithinLimits(limits, State())
    }

    constructor (capacity: nat, byteCapacity: nat)
      ensures Valid() && State() == M.EMPTY && limits == M.Limits(capacity, byteCapacity)
    {
      limits := M.Limits(capacity, byteCapacity);
      queue, deferredReadiness, pendingOverflows, queuedBytes := [], [], [], 0;
    }

    /** The position whose event `event` may overwrite, searching from the back, or -1. */
    method FindReplaceable(event: Event) returns (at: int)
      requires IsCoalescible(event)
      ensures at == M.CoalesceIndex(queue, event)
      ensures at >= 0 <==> P.Replaceable(queue, event)
      ensures at >= 0 ==> P.IsLastOf(queue, TargetOf(event), at)
    {
      P.CoalesceIndexExactly(queue, event);
      at := -1;
      if queue == [] {
        return;
      }
      if IsInterleaved(event) {
        var i := |queue|;
        while i > 0
          invariant 0 <= i <= |queue|
          invariant forall j :: i <= j < |queue| ==> !SameTarget(queue[j], event)
        {
          i := i - 1;
          if SameTarget(queue[i], event) {
            return i;
          }
        }
      } else if SameTarget(queue[|queue| - 1], event) {
        return |queue| - 1;
      }
    }

    method FindVictim() returns (victim: nat)
      ensures victim == M.Victim(queue)
      ensures victim < |queue| <==> exists x :: x in queue && !IsMandatory(x)
      ensures victim < |queue| ==> P.MakesRoom(queue, victim)
    {
      P.VictimExactly(queue);
      victim := 0;
      while victim < |queue| && !IsCoalescible(queue[victim])
        invariant victim <= |queue|
        invariant forall j :: 0 <= j < victim ==> !IsCoalescible(queue[j])
      {
        victim := victim + 1;
      }
      if victim == |queue| {
        assert M.FirstCoalescible(queue) == |queue|;
        victim := 0;
        while victim < |queue| && (IsTerminal(queue[victim]) || IsReadiness(queue[victim]))
          invariant victim <= |queue|
          invariant forall j :: 0 <= j < victim ==> IsMandatory(queue[j])
        {
          victim := victim + 1;
        }
      }
    }

    method HoldsReadiness(event: Event) returns (held: bool)
      ensures held == (M.HoldsReadiness(queue, event) || M.HoldsReadiness(deferredReadiness, event))
    {
      for i := 0 to |queue|
        invariant forall j :: 0 <= j < i ==> !SameReadinessTarget(queue[j], event)
      {
        if SameReadinessTarget(queue[i], event) {
          return true;
        }
      }
      for i := 0 to |deferredReadiness|
        invariant forall j :: 0 <= j < i ==> !SameReadinessTarget(deferredReadiness[j], event)
      {
        if SameReadinessTarget(deferredReadiness[i], event) {
          return true;
        }
      }
      return false;
    }

    /** Moves the deferred readiness records of the ending request into the queue, in order. */
    method PromoteForRequest(terminal: Event)
      modifies this`queue, this`deferredReadiness
      ensures queue == old(queue) + M.OfRequest(old(deferredReadiness), terminal.source, terminal.requestId)
      ensures deferredReadiness == M.NotOfRequest(old(deferredReadiness), terminal.source, terminal.requestId)
    {
      var i := 0;
      ghost var source, request := terminal.source, terminal.requestId;
      while i < |deferredReadiness|
        invariant i <= |deferredReadiness|
        invariant queue + M.OfRequest(deferredReadiness[i..], source, request)
               == old(queue) + M.OfRequest(old(deferredReadiness), source, request)
        invariant deferredReadiness[..i] + M.NotOfRequest(deferredReadiness[i..], source, request)
               == M.NotOfRequest(old(deferredReadiness), source, request)
        decreases |deferredReadiness| - i
      {
        var record := deferredReadiness[i];
        assert deferredReadiness[i..][1..] == deferredReadiness[i + 1..];
        if record.requestId != terminal.requestId || record.source != terminal.source {
          i := i + 1;
        } else {
          ghost var rest := deferredReadiness[i + 1..];
          queue := queue + [record];
          deferredReadiness := deferredReadiness[..i] + deferredReadiness[i + 1..];
          assert deferredReadiness[i..] == rest;
        }
      }
    }

    /** Coalesces, parks or displaces an overflow that meets a full queue. */
    method PushOverflow(event: Event)
      requires IsOverflow(event) && |queue| >= limits.capacity
      requires queuedBytes == M.TotalBytes(State())
      modifies this
      ensures State() == M.Push(limits, old(State()), event)
      ensures queuedBytes == M.TotalBytes(State())
    {
      ghost var before := State();
      ClassesAreDisjoint(event);
      A.ReleasedWasHeld(before, M.EffectOf(limits, before, event));
      A.BytesAfterEffect(before, event, M.EffectOf(limits, before, event));
      var victim := FindVictim();
      if victim < |queue| {
        queuedBytes := queuedBytes - |queue[victim].data|;
        queue := queue[..victim] + queue[victim + 1..];
        queue := queue + [event];
        queuedBytes := queuedBytes + |event.data|;
        return;
      }
      for i := 0 to |pendingOverflows|
        invariant State() == before && queuedBytes == M.TotalBytes(before)
        invariant forall j :: 0 <= j < i ==> pendingOverflows[j].source != event.source
      {
        if pendingOverflows[i].source == event.source {
          assert M.ParkedAt(pendingOverflows, event.source) == i;
          queuedBytes := queuedBytes - |pendingOverflows[i].data|;
          pendingOverflows := pendingOverflows[i := event];
          queuedBytes := queuedBytes + |event.data|;
          return;
        }
      }
      pendingOverflows := pendingOverflows + [event];
      queuedBytes := queuedBytes + |event.data|;
    }

    method Push(event: Event) returns (result: Result)
      requires Valid()
      modifies this
      ensures Valid()
      ensures State() == M.Push(limits, old(State()), event)
      ensures result == if M.EffectOf(limits, old(State()), event).Refused? then QueueFull else Ok
      ensures result == QueueFull <==>
              && IsOrdinary(event)
              && (|| old(queuedBytes) + |event.data| > limits.byteCapacity
                  || (|old(queue)| >= limits.capacity && !P.Replaceable(old(queue), event)))
    {
      P.CoalesceIndexExactly(queue, event);
      ghost var before := State();
      ghost var effect := M.EffectOf(limits, before, event);
      M.PushKeepsSound(limits, before, event);
      A.PushKeepsLimits(limits, before, event);
      A.ReleasedWasHeld(before, effect);
      A.BytesAfterEffect(before, event, effect);
      ClassesAreDisjoint(event);
      var eventBytes := |event.data|;
      var terminal, readiness, overflow := IsTerminal(event), IsReadiness(event), IsOverflow(event);
      if !terminal && !readiness && !overflow
         && (eventBytes > limits.byteCapacity || queuedBytes > limits.byteCapacity - eventBytes) {
        return QueueFull;
      }
      if IsCoalescible(event) && queue != [] {
        var at := FindReplaceable(event);
        if at >= 0 {
          queuedBytes := queuedBytes - |queue[at].data|;
          queue := queue[at := M.KeepOldestStamp(queue[at], event)];
          queuedBytes := queuedBytes + eventBytes;
          return Ok;
        }
      }
      if |queue| >= limits.capacity && !terminal {
        if overflow {
          PushOverflow(event);
          return Ok;
        } else if !readiness {
          return QueueFull;
        } else {
          var held := HoldsReadiness(event);
          if held {
            return Ok;
          }
          deferredReadiness := deferredReadiness + [event];
          queuedBytes := queuedBytes + eventBytes;
          return Ok;
        }
      }
      if terminal {
        PromoteForRequest(event);
      }
      queue := queue + [event];
      queuedBytes := queuedBytes + eventBytes;
      return Ok;
    }

    method PromoteDeferred()
      modifies this`queue, this`deferredReadiness
      ensures State() == M.PromoteDeferred(limits.capacity, old(State()))
    {
      ghost var moved := 0;
      while (|queue| < limits.capacity || queue == []) && deferredReadiness != []
        invariant 0 <= moved <= |old(deferredReadiness)|
        invariant queue == old(queue) + old(deferredReadiness)[..moved]
        invariant deferredReadiness == old(deferredReadiness)[moved..]
        invariant moved <= M.Room(limits.capacity, old(State()))
        decreases |deferredReadiness|
      {
        queue := queue + [deferredReadiness[0]];
        deferredReadiness := deferredReadiness[1..];
        moved := moved + 1;
      }
    }

    method PromotePending()
      modifies this`queue, this`pendingOverflows
      ensures State() == M.PromoteParked(limits.capacity, old(State()))
    {
      if pendingOverflows == [] || (queue != [] && |queue| >= limits.capacity) {
        return;
      }
      queue := queue + [pendingOverflows[0]];
      pendingOverflows := pendingOverflows[1..];
    }

    /** The two promotions, always called together. */
    method Promote()
      modifies this`queue, this`deferredReadiness, this`pendingOverflows
      ensures State() == M.Refill(limits.capacity, old(State()))
    {
      PromoteDeferred();
      PromotePending();
    }

    /** `memoryFails` says whether copying a non-empty payload fails; the event then stays queued. */
    method Poll(memoryFails: bool) returns (result: Result, output: Option<Event>)
      requires Valid()
      modifies this
      ensures Valid()
      ensures result == OutOfMemory ==>
                State() == M.Refill(limits.capacity, old(State())) && queue != [] && output == None
      ensures result != OutOfMemory ==>
                result == Ok && (State(), output) == M.Poll(limits.capacity, old(State()))
      ensures result == OutOfMemory <==>
                var r := M.Refill(limits.capacity, old(State()));
                memoryFails && r.main != [] && r.main[0].data != []
    {
      ghost var before := State();
      M.PollKeepsSound(limits, before);
      A.PollKeepsLimits(limits, before);
      A.RefillKeepsLimits(limits, before);
      A.RefillKeepsBytes(limits.capacity, before);
      A.PollReleasesBytes(limits.capacity, before);
      hide M.Sound, M.Refill, M.TotalBytes, A.WithinLimits;
      Promote();
      if queue == [] {
        return Ok, None;
      }
      if queue[0].data != [] && memoryFails {
        return OutOfMemory, None;
      }
      output := Some(queue[0]);
      queuedBytes := queuedBytes - |queue[0].data|;
      queue := queue[1..];
      Promote();
      result := Ok;
    }

    method Empty() returns (empty: bool)
      ensures empty <==> M.Size(State()) == 0
    {
      return queue == [] && deferredReadiness == [] && pendingOverflows == [];
    }

    method Clear()
      modifies this
      ensures Valid() && State() == M.EMPTY
    {
      queue := [];
      queuedBytes := 0;
      deferredReadiness := [];
      pendingOverflows := [];
    }
  }
}
