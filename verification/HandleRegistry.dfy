/** Generation-checked handles: 20 index bits and 12 generation bits in one 32-bit word. */
module HandleRegistry {
  import opened Options

  const INDEX_SPAN := 0x10_0000
  const INDEX_MASK := 0xf_ffff
  const MAX_GENERATION := 0xfff
  const INVALID := 0
  const HANDLE_SPAN := 0x1_0000_0000

  type Handle = nat

  /** `kind` 0 is the resource type "none". */
  const NO_KIND := 0

  datatype Slot<R> = Slot(generation: nat, kind: nat, resource: Option<R>, retired: bool)

  function Fresh<R>(): Slot<R> {
    Slot(1, NO_KIND, None, false)
  }

  /** The shift and the or of the source, as arithmetic: the index part never reaches bit 20. */
  function Encode(index: nat, generation: nat): Handle {
    generation * INDEX_SPAN + index + 1
  }

  function IndexPart(h: Handle): nat {
    h % INDEX_SPAN
  }

  function GenerationPart(h: Handle): nat {
    h / INDEX_SPAN
  }

  lemma DecodeEncoded(index: nat, generation: nat)
    requires index < INDEX_MASK
    ensures IndexPart(Encode(index, generation)) == index + 1
    ensures GenerationPart(Encode(index, generation)) == generation
    ensures 1 <= generation <= MAX_GENERATION ==> INVALID < Encode(index, generation) < HANDLE_SPAN
  {
  }

  lemma EncodeDecoded(h: Handle)
    requires IndexPart(h) > 0
    ensures Encode(IndexPart(h) - 1, GenerationPart(h)) == h
  {
  }

  predicate SlotOk<R>(s: Slot<R>) {
    && 1 <= s.generation <= MAX_GENERATION
    && (s.retired ==> s.resource.None? && s.generation == MAX_GENERATION)
    && (s.resource.Some? <==> s.kind != NO_KIND)
  }

  /** A handle an insert can have returned: the slot has since reached its generation, and is past it
      unless the resource is live or the slot retired. */
  predicate WasIssued<R>(slots: seq<Slot<R>>, issued: set<Handle>, index: nat, generation: nat)
    requires index < |slots|
  {
    Encode(index, generation) in issued ==>
      || generation < slots[index].generation
      || (generation == slots[index].generation && (slots[index].resource.Some? || slots[index].retired))
  }

  /** How often a slot has been released; a retired one has been through all its generations. */
  function Age<R>(s: Slot<R>): int {
    if s.retired then MAX_GENERATION else s.generation - 1
  }

  class Registry<R> {
    var slots: seq<Slot<R>>
    /** Every handle ever returned. */
    ghost var issued: set<Handle>

    ghost predicate Valid()
      reads this
    {
      && |slots| <= INDEX_MASK
      && (forall i :: 0 <= i < |slots| ==> SlotOk(slots[i]))
      && (forall h :: h in issued ==>
            1 <= IndexPart(h) <= |slots| && 1 <= GenerationPart(h) <= MAX_GENERATION)
      && (forall i, g {:trigger WasIssued(slots, issued, i, g)} :: 0 <= i < |slots| ==> WasIssued(slots, issued, i, g))
      && (forall i :: 0 <= i < |slots| && slots[i].resource.Some? ==> Encode(i, slots[i].generation) in issued)
    }

    /** The registry as callers see it: the live handles with their type and resource. */
    ghost function Live(): map<Handle, (nat, R)>
      reads this
    {
      LiveOf(slots)
    }

    constructor ()
      ensures Valid() && slots == [] && Live() == map[] && issued == {}
    {
      slots, issued := [], {};
    }

    lemma LiveIsIssued()
      requires Valid()
      ensures forall h :: h in Live() ==> h in issued
    {
      forall h | h in Live() ensures h in issued {
        EncodeDecoded(h);
      }
    }

    /** A new handle that has never been returned before; 0 for a bad argument, or when every possible
        slot is live or retired. */
    method Insert(kind: nat, resource: Option<R>) returns (handle: Handle)
      requires Valid()
      modifies this
      ensures Valid()
      ensures handle == INVALID ==> slots == old(slots) && issued == old(issued)
      ensures handle != INVALID ==>
                && handle !in old(issued) && issued == old(issued) + {handle}
                && kind != NO_KIND && resource.Some?
                && Live() == old(Live())[handle := (kind, resource.value)]
      ensures |slots| == |old(slots)| || (|slots| == |old(slots)| + 1 && handle == Encode(|old(slots)|, 1))
      ensures forall i :: 0 <= i < |slots| ==> Age(slots[i]) == if i < |old(slots)| then Age(old(slots)[i]) else 0
      ensures handle == INVALID <==>
                || kind == NO_KIND || resource.None?
                || (|old(slots)| == INDEX_MASK
                    && forall i :: 0 <= i < INDEX_MASK ==> old(slots)[i].resource.Some? || old(slots)[i].retired)
    {
      if kind == NO_KIND || resource.None? {
        return INVALID;
      }
      var index := 0;
      while index < |slots|
        invariant index <= |slots|
        invariant forall i :: 0 <= i < index ==> slots[i].resource.Some? || slots[i].retired
      {
        if slots[index].resource.None? && !slots[index].retired {
          handle := Fill(index, kind, resource);
          return;
        }
        index := index + 1;
      }
      if |slots| >= INDEX_MASK {
        return INVALID;
      }
      ghost var before := slots;
      slots := slots + [Fresh()];
      assert Valid() by {
        forall g ensures WasIssued(slots, issued, |before|, g) {
          DecodeEncoded(|before|, g);
        }
        forall i, g | 0 <= i < |before| ensures WasIssued(slots, issued, i, g) {
          assert WasIssued(before, issued, i, g);
        }
      }
      AddedIsNotLive(before, slots);
      handle := Fill(|slots| - 1, kind, resource);
    }

    /** Puts a resource into a slot that is neither live nor retired. */
    method Fill(index: nat, kind: nat, resource: Option<R>) returns (handle: Handle)
      requires Valid() && index < |slots|
      requires slots[index].resource.None? && !slots[index].retired
      requires kind != NO_KIND && resource.Some?
      modifies this
      ensures Valid() && handle != INVALID && |slots| == |old(slots)|
      ensures forall i :: 0 <= i < |slots| ==> Age(slots[i]) == Age(old(slots)[i])
      ensures handle == Encode(index, old(slots)[index].generation)
      ensures handle !in old(issued) && issued == old(issued) + {handle}
      ensures Live() == old(Live())[handle := (kind, resource.value)]
    {
      ghost var before, earlier := slots, issued;
      handle := Encode(index, slots[index].generation);
      assert WasIssued(slots, issued, index, slots[index].generation);
      slots := slots[index := slots[index].(kind := kind, resource := resource)];
      issued := issued + {handle};
      DecodeEncoded(index, slots[index].generation);
      forall i, g | 0 <= i < |slots| ensures WasIssued(slots, issued, i, g) {
        assert WasIssued(before, earlier, i, g);
        DecodeEncoded(i, g);
      }
      FilledIsLive(before, slots, index);
    }

    method Get(handle: Handle, kind: nat) returns (resource: Option<R>)
      requires Valid()
      ensures resource == if handle in Live() && Live()[handle].0 == kind then Some(Live()[handle].1) else None
    {
      if handle == INVALID || IndexPart(handle) == 0 {
        return None;
      }
      var index := IndexPart(handle) - 1;
      if index >= |slots| {
        return None;
      }
      var slot := slots[index];
      if slot.generation != GenerationPart(handle) || slot.kind != kind {
        return None;
      }
      return slot.resource;
    }

    method HandlesOfKind(kind: nat) returns (handles: seq<Handle>)
      requires Valid()
      ensures forall h :: h in handles <==> h in Live() && Live()[h].0 == kind
      ensures forall i, j :: 0 <= i < j < |handles| ==> handles[i] != handles[j]
    {
      handles := [];
      for index := 0 to |slots|
        invariant forall h ::
                    h in handles <==> h in LiveOf(slots) && LiveOf(slots)[h].0 == kind && IndexPart(h) <= index
        invariant forall i, j :: 0 <= i < j < |handles| ==> handles[i] != handles[j]
      {
        var slot := slots[index];
        DecodeEncoded(index, slot.generation);
        forall h | h in LiveOf(slots) && IndexPart(h) == index + 1 ensures h == Encode(index, slot.generation) {
          EncodeDecoded(h);
        }
        if slot.resource.Some? && slot.kind == kind {
          handles := handles + [Encode(index, slot.generation)];
        }
      }
    }

    method Erase(handle: Handle, kind: nat) returns (erased: bool)
      requires Valid()
      modifies this
      ensures Valid() && issued == old(issued) && |slots| == |old(slots)|
      ensures erased <==> handle in old(Live()) && old(Live())[handle].0 == kind
      ensures Live() == if erased then old(Live()) - {handle} else old(Live())
      ensures forall i :: 0 <= i < |slots| ==>
                Age(slots[i]) == Age(old(slots)[i]) + if erased && IndexPart(handle) == i + 1 then 1 else 0
    {
      hide LiveOf, Encode, GenerationPart, Age;
      LiveExactly(slots, handle);
      if handle == INVALID || IndexPart(handle) == 0 {
        return false;
      }
      var index := IndexPart(handle) - 1;
      if index >= |slots| {
        return false;
      }
      var slot := slots[index];
      if slot.resource.None? || slot.generation != GenerationPart(handle) || slot.kind != kind {
        return false;
      }
      Vacate(index);
      EncodeDecoded(handle);
      return true;
    }

    /** Releases the resource of a live slot. */
    method Vacate(index: nat)
      requires Valid() && index < |slots| && slots[index].resource.Some?
      modifies this`slots
      ensures Valid() && |slots| == |old(slots)|
      ensures Live() == old(Live()) - {Encode(index, old(slots)[index].generation)}
      ensures forall i :: 0 <= i < |slots| ==> Age(slots[i]) == Age(old(slots)[i]) + if i == index then 1 else 0
    {
      ghost var before := slots;
      slots := slots[index := Vacated(slots[index])];
      forall i, g | 0 <= i < |slots| ensures WasIssued(slots, issued, i, g) {
        assert WasIssued(before, issued, i, g);
      }
      VacatedIsNotLive(before, slots, index);
    }

    method Clear()
      requires Valid()
      modifies this
      ensures Valid() && issued == old(issued) && |slots| == |old(slots)| && Live() == map[]
      ensures forall i :: 0 <= i < |slots| ==> Age(slots[i]) <= Age(old(slots)[i]) + 1
    {
      ghost var before := slots;
      for index := 0 to |slots|
        invariant |slots| == |before|
        invariant forall i :: 0 <= i < index ==>
                    slots[i] == (if before[i].retired then before[i] else Vacated(before[i]))
        invariant forall i :: index <= i < |slots| ==> slots[i] == before[i]
        invariant issued == old(issued)
      {
        if slots[index].retired {
          slots := slots[index := slots[index].(kind := NO_KIND)];
        } else {
          slots := slots[index := Vacated(slots[index])];
        }
      }
      forall i, g | 0 <= i < |slots| ensures WasIssued(slots, issued, i, g) {
        assert WasIssued(before, issued, i, g);
      }
      assert forall i :: 0 <= i < |slots| ==> slots[i].resource.None?;
    }
  }

  // ----- whole histories -----

  datatype Op<R> =
    | InsertOp(kind: nat, resource: Option<R>)
    | EraseOp(handle: Handle, kind: nat)
    | GetOp(handle: Handle, kind: nat)
    | ClearOp

  /** What one operation returns. */
  datatype Answer<R> = Issued(handle: Handle) | Erased(done: bool) | Found(resource: Option<R>) | Cleared

  function Resolved<R>(live: map<Handle, (nat, R)>, handle: Handle, kind: nat): Option<R> {
    if handle in live && live[handle].0 == kind then Some(live[handle].1) else None
  }

  /** The live handles after one more operation, going by what it returned. */
  function LiveAfterOp<R>(live: map<Handle, (nat, R)>, op: Op<R>, answer: Answer<R>): map<Handle, (nat, R)> {
    match op
    case InsertOp(kind, resource) =>
      if answer.Issued? && answer.handle != INVALID && resource.Some?
      then live[answer.handle := (kind, resource.value)] else live
    case EraseOp(handle, kind) => if Resolved(live, handle, kind).Some? then live - {handle} else live
    case GetOp(_, _) => live
    case ClearOp => map[]
  }

  function LiveAfter<R>(ops: seq<Op<R>>, answers: seq<Answer<R>>): map<Handle, (nat, R)>
    requires |ops| == |answers|
  {
    if ops == [] then map[]
    else
      var n := |ops| - 1;
      LiveAfterOp(LiveAfter(ops[..n], answers[..n]), ops[n], answers[n])
  }

  /** The answer a plain map of live handles would give; which new handle an insert picks is open. */
  predicate Answers<R(==)>(live: map<Handle, (nat, R)>, op: Op<R>, answer: Answer<R>) {
    match op
    case InsertOp(kind, resource) => answer.Issued? && (kind == NO_KIND || resource.None? ==> answer.handle == INVALID)
    case EraseOp(handle, kind) => answer == Erased(Resolved(live, handle, kind).Some?)
    case GetOp(handle, kind) => answer == Found(Resolved(live, handle, kind))
    case ClearOp => answer.Cleared?
  }

  ghost predicate AnsweredByMap<R>(ops: seq<Op<R>>, answers: seq<Answer<R>>)
    requires |ops| == |answers|
  {
    forall i :: 0 <= i < |ops| ==> Answers(LiveAfter(ops[..i], answers[..i]), ops[i], answers[i])
  }

  predicate IssuedOnce<R(==)>(answers: seq<Answer<R>>) {
    forall i, j :: 0 <= i < j < |answers| && answers[i].Issued? && answers[i].handle != INVALID ==>
      answers[i] != answers[j]
  }

  /** An insert of a resource is refused only when no slot is left. */
  ghost predicate RefusedOnlyWhenFull<R>(ops: seq<Op<R>>, answers: seq<Answer<R>>)
    requires |ops| == |answers|
  {
    forall i :: 0 <= i < |ops| && Refused(ops[i], answers[i]) ==> IsFull(ops[..i], answers[..i])
  }

  predicate Refused<R(==)>(op: Op<R>, answer: Answer<R>) {
    op.InsertOp? && op.kind != NO_KIND && op.resource.Some? && answer == Issued(INVALID)
  }

  predicate AllSlotsIssued<R(==)>(answers: seq<Answer<R>>) {
    forall slot {:trigger Encode(slot, 1)} :: 0 <= slot < INDEX_MASK ==> Issued(Encode(slot, 1)) in answers
  }

  /** How many operations have released slot `slot`: erasures of one of its handles, and clears. */
  function Releases<R(==)>(ops: seq<Op<R>>, answers: seq<Answer<R>>, slot: nat): nat
    requires |ops| == |answers|
  {
    if ops == [] then 0
    else
      var n := |ops| - 1;
      Releases(ops[..n], answers[..n], slot) + if ReleasedBy(ops[n], answers[n], slot) then 1 else 0
  }

  predicate ReleasedBy<R(==)>(op: Op<R>, answer: Answer<R>, slot: nat) {
    op.ClearOp? || (op.EraseOp? && answer == Erased(true) && IndexPart(op.handle) == slot + 1)
  }

  /** The slot holds a live resource, or has been released as often as it has generations. */
  ghost predicate UsedUp<R>(ops: seq<Op<R>>, answers: seq<Answer<R>>, slot: nat)
    requires |ops| == |answers|
  {
    || Releases(ops, answers, slot) >= MAX_GENERATION
    || exists h :: h in LiveAfter(ops, answers) && IndexPart(h) == slot + 1
  }

  /** Every possible slot has been issued, and is live or used up. */
  ghost predicate IsFull<R>(ops: seq<Op<R>>, answers: seq<Answer<R>>)
    requires |ops| == |answers|
  {
    && AllSlotsIssued(answers)
    && forall slot {:trigger UsedUp(ops, answers, slot)} :: 0 <= slot < INDEX_MASK ==> UsedUp(ops, answers, slot)
  }

  /** One answer for each operation, as a map of live handles gives it; no handle is issued twice. */
  ghost predicate Lawful<R>(ops: seq<Op<R>>, answers: seq<Answer<R>>) {
    && |answers| == |ops|
    && AnsweredByMap(ops, answers) && IssuedOnce(answers) && RefusedOnlyWhenFull(ops, answers)
  }

  /** Any run of operations on one registry answers lawfully. */
  method Replay<R(==)>(ops: seq<Op<R>>) returns (answers: seq<Answer<R>>)
    ensures Lawful(ops, answers)
  {
    hide Lawful, History, LiveAfterOp, Answers, IsFull, Refused;
    var r := new Registry<R>();
    answers := [];
    NothingIsLawful(r.slots, r.issued);
    for n := 0 to |ops|
      invariant fresh(r) && r.Valid() && |answers| == n
      invariant Lawful(ops[..n], answers) && r.Live() == LiveAfter(ops[..n], answers)
      invariant History(r.slots, r.issued, ops[..n], answers)
    {
      var answer := Perform(r, ops[n], ops[..n], answers);
      ghost var before := answers;
      answers := answers + [answer];
      assert ops[..n] + [ops[n]] == ops[..n + 1];
      OneMoreIsLawful(ops, n, before, answer);
    }
    assert ops[..|ops|] == ops;
  }

  lemma NothingIsLawful<R>(slots: seq<Slot<R>>, issued: set<Handle>)
    requires slots == [] && issued == {}
    ensures Lawful<R>([], []) && History<R>(slots, issued, [], []) && LiveAfter<R>([], []) == map[]
  {
  }

  /** The registry has issued what the answers say it has, the first handle of every slot among them, and no slot is
      older than its releases make it. */
  ghost predicate History<R>(slots: seq<Slot<R>>, issued: set<Handle>, ops: seq<Op<R>>, answers: seq<Answer<R>>) {
    && |ops| == |answers|
    && (forall h :: h in issued <==> h != INVALID && Issued(h) in answers)
    && (forall i :: 0 <= i < |slots| ==> Issued(Encode(i, 1)) in answers)
    && (forall i :: 0 <= i < |slots| ==> Age(slots[i]) <= Releases(ops, answers, i))
  }

  lemma OneMoreRelease<R>(ops: seq<Op<R>>, answers: seq<Answer<R>>, op: Op<R>, answer: Answer<R>, slot: nat)
    requires |ops| == |answers|
    ensures Releases(ops + [op], answers + [answer], slot) ==
            Releases(ops, answers, slot) + if ReleasedBy(op, answer, slot) then 1 else 0
  {
    assert (ops + [op])[..|ops|] == ops && (answers + [answer])[..|answers|] == answers;
  }

  /** A registry that has no slot for a resource is full. */
  lemma NoSlotLeft<R>(slots: seq<Slot<R>>, issued: set<Handle>, ops: seq<Op<R>>, answers: seq<Answer<R>>)
    requires History(slots, issued, ops, answers) && LiveOf(slots) == LiveAfter(ops, answers)
    requires |slots| == INDEX_MASK && forall i :: 0 <= i < |slots| ==> SlotOk(slots[i])
    requires forall i :: 0 <= i < INDEX_MASK ==> slots[i].resource.Some? || slots[i].retired
    ensures IsFull(ops, answers)
  {
    forall slot | 0 <= slot < INDEX_MASK ensures UsedUp(ops, answers, slot) {
      if slots[slot].resource.Some? {
        DecodeEncoded(slot, slots[slot].generation);
        assert Encode(slot, slots[slot].generation) in LiveOf(slots);
      }
    }
  }

  method Perform<R(==)>(r: Registry<R>, op: Op<R>, ghost ops: seq<Op<R>>, ghost answers: seq<Answer<R>>)
      returns (answer: Answer<R>)
    requires r.Valid() && History(r.slots, r.issued, ops, answers) && r.Live() == LiveAfter(ops, answers)
    modifies r
    ensures r.Valid() && History(r.slots, r.issued, ops + [op], answers + [answer])
    ensures r.Live() == LiveAfterOp(old(r.Live()), op, answer) && Answers(old(r.Live()), op, answer)
    ensures answer.Issued? && answer.handle != INVALID ==> answer !in answers
    ensures Refused(op, answer) ==> IsFull(ops, answers)
  {
    hide IsFull, LiveOf, Releases;
    match op {
      case InsertOp(kind, resource) =>
        var handle := r.Insert(kind, resource);
        answer := Issued(handle);
        if Refused(op, answer) {
          NoSlotLeft(r.slots, r.issued, ops, answers);
        }
      case EraseOp(handle, kind) =>
        var done := r.Erase(handle, kind);
        answer := Erased(done);
      case GetOp(handle, kind) =>
        var resource := r.Get(handle, kind);
        answer := Found(resource);
      case ClearOp =>
        r.Clear();
        answer := Cleared;
    }
    forall i | 0 <= i < |r.slots| ensures Age(r.slots[i]) <= Releases(ops + [op], answers + [answer], i) {
      OneMoreRelease(ops, answers, op, answer, i);
    }
  }

  lemma OneMoreIsLawful<R>(ops: seq<Op<R>>, n: nat, answers: seq<Answer<R>>, answer: Answer<R>)
    requires n < |ops| && |answers| == n && Lawful(ops[..n], answers)
    requires Answers(LiveAfter(ops[..n], answers), ops[n], answer)
    requires answer.Issued? && answer.handle != INVALID ==> answer !in answers
    requires Refused(ops[n], answer) ==> IsFull(ops[..n], answers)
    ensures Lawful(ops[..n + 1], answers + [answer])
    ensures LiveAfter(ops[..n + 1], answers + [answer])
            == LiveAfterOp(LiveAfter(ops[..n], answers), ops[n], answer)
  {
    hide Answers, LiveAfterOp, IsFull, Refused, Lawful;
    var ops', answers' := ops[..n + 1], answers + [answer];
    assert ops'[..n] == ops[..n] && answers'[..n] == answers;
    EarlierStaysLawful(ops[..n], answers, ops', answers');
  }

  /** What a run said about its operations stays true of them in a longer run. */
  lemma EarlierStaysLawful<R>(ops: seq<Op<R>>, answers: seq<Answer<R>>, ops': seq<Op<R>>, answers': seq<Answer<R>>)
    requires |ops'| == |answers'| == |ops| + 1 && ops'[..|ops|] == ops && answers'[..|ops|] == answers
    requires Lawful(ops, answers)
    requires Answers(LiveAfter(ops, answers), ops'[|ops|], answers'[|ops|])
    requires answers'[|ops|].Issued? && answers'[|ops|].handle != INVALID ==> answers'[|ops|] !in answers
    requires Refused(ops'[|ops|], answers'[|ops|]) ==> IsFull(ops, answers)
    ensures Lawful(ops', answers')
  {
    hide Answers, LiveAfter, IsFull, Refused;
    var n := |ops|;
    forall i | 0 <= i < n ensures ops'[..i] == ops[..i] && answers'[..i] == answers[..i]
                                  && ops'[i] == ops[i] && answers'[i] == answers[i] {
      assert ops'[..n][..i] == ops'[..i] && answers'[..n][..i] == answers'[..i];
      assert ops'[..n][i] == ops'[i] && answers'[..n][i] == answers'[i];
    }
    forall i | 0 <= i < |ops'| ensures Answers(LiveAfter(ops'[..i], answers'[..i]), ops'[i], answers'[i]) {
      if i < n { assert Answers(LiveAfter(ops[..i], answers[..i]), ops[i], answers[i]); }
    }
    forall i, j | 0 <= i < j < |answers'| && answers'[i].Issued? && answers'[i].handle != INVALID
      ensures answers'[i] != answers'[j] {
      if j == n { assert answers[i] in answers; }
    }
    forall i | 0 <= i < |ops'| && Refused(ops'[i], answers'[i]) ensures IsFull(ops'[..i], answers'[..i]) {
      if i < n { assert Refused(ops[i], answers[i]); }
    }
  }

  /** Operation `i` of the run made `h` stale: it erased it, or it was a clear while `h` was live. */
  predicate MadeStale<R(==)>(ops: seq<Op<R>>, answers: seq<Answer<R>>, i: nat, h: Handle)
    requires i < |ops| == |answers|
  {
    || (ops[i].EraseOp? && ops[i].handle == h && answers[i] == Erased(true))
    || (ops[i].ClearOp? && h in LiveAfter(ops[..i], answers[..i]))
  }

  lemma {:induction false} LiveWasIssued<R>(ops: seq<Op<R>>, answers: seq<Answer<R>>, h: Handle)
    requires |ops| == |answers| && h in LiveAfter(ops, answers)
    ensures h != INVALID && Issued(h) in answers
  {
    var n := |ops| - 1;
    if h in LiveAfter(ops[..n], answers[..n]) {
      LiveWasIssued(ops[..n], answers[..n], h);
      var j :| 0 <= j < n && answers[..n][j] == Issued(h);
      assert answers[j] == Issued(h);
    }
  }

  lemma StaleWasIssued<R>(ops: seq<Op<R>>, answers: seq<Answer<R>>, i: nat, h: Handle) returns (j: nat)
    requires Lawful(ops, answers) && i < |ops| && MadeStale(ops, answers, i, h)
    ensures j < i && answers[j] == Issued(h) && h != INVALID
    ensures h !in LiveAfter(ops[..i + 1], answers[..i + 1])
  {
    assert ops[..i + 1][..i] == ops[..i] && answers[..i + 1][..i] == answers[..i];
    assert Answers(LiveAfter(ops[..i], answers[..i]), ops[i], answers[i]);
    LiveWasIssued(ops[..i], answers[..i], h);
    j :| 0 <= j < i && answers[..i][j] == Issued(h);
  }

  /** A handle issued at `j` and no longer live before operation `k` is not live after it. */
  lemma StaysStale<R>(ops: seq<Op<R>>, answers: seq<Answer<R>>, j: nat, k: nat, h: Handle)
    requires |ops| == |answers| && IssuedOnce(answers) && j < k < |ops| && answers[j] == Issued(h) && h != INVALID
    requires h !in LiveAfter(ops[..k], answers[..k])
    ensures h !in LiveAfter(ops[..k + 1], answers[..k + 1])
  {
    assert ops[..k + 1][..k] == ops[..k] && answers[..k + 1][..k] == answers[..k];
    assert answers[j] != answers[k];
  }

  /** From then on it is never live again, so every lookup of it finds nothing and every erasure fails, under
      any kind, whatever else is inserted, erased or cleared. */
  lemma {:induction false} StaleNeverResolves<R>(ops: seq<Op<R>>, answers: seq<Answer<R>>, i: nat, m: nat, h: Handle)
    requires Lawful(ops, answers) && i < m <= |ops| && MadeStale(ops, answers, i, h)
    ensures h !in LiveAfter(ops[..m], answers[..m])
    ensures m < |ops| && ops[m].GetOp? && ops[m].handle == h ==> answers[m] == Found(None)
    ensures m < |ops| && ops[m].EraseOp? && ops[m].handle == h ==> answers[m] == Erased(false)
    decreases m
  {
    hide LiveAfter, MadeStale, IssuedOnce;
    var j := StaleWasIssued(ops, answers, i, h);
    if m > i + 1 {
      StaleNeverResolves(ops, answers, i, m - 1, h);
      StaysStale(ops, answers, j, m - 1, h);
    }
    if m < |ops| {
      assert Answers(LiveAfter(ops[..m], answers[..m]), ops[m], answers[m]);
    }
  }

  /** A slot whose resource has been released: the next generation, or retirement after the last one. */
  function Vacated<R>(s: Slot<R>): Slot<R> {
    if s.generation == MAX_GENERATION then s.(kind := NO_KIND, resource := None, retired := true)
    else s.(kind := NO_KIND, resource := None, generation := s.generation + 1)
  }

  // ----- the live handles -----

  predicate IsLive<R>(slots: seq<Slot<R>>, h: Handle) {
    && 1 <= IndexPart(h) <= |slots|
    && slots[IndexPart(h) - 1].resource.Some?
    && slots[IndexPart(h) - 1].generation == GenerationPart(h)
  }

  ghost function LiveOf<R>(slots: seq<Slot<R>>): map<Handle, (nat, R)> {
    map h: Handle | 0 <= h < HANDLE_SPAN && IsLive(slots, h) ::
      (slots[IndexPart(h) - 1].kind, slots[IndexPart(h) - 1].resource.value)
  }

  lemma LiveExactly<R>(slots: seq<Slot<R>>, h: Handle)
    requires forall i :: 0 <= i < |slots| ==> SlotOk(slots[i])
    ensures h in LiveOf(slots) <==> IsLive(slots, h)
    ensures IsLive(slots, h) ==>
              LiveOf(slots)[h] == (slots[IndexPart(h) - 1].kind, slots[IndexPart(h) - 1].resource.value)
  {
    if IsLive(slots, h) {
      assert SlotOk(slots[IndexPart(h) - 1]);
    }
  }

  lemma AddedIsNotLive<R>(before: seq<Slot<R>>, after: seq<Slot<R>>)
    requires after == before + [Fresh()]
    ensures LiveOf(after) == LiveOf(before)
  {
    forall h: Handle ensures IsLive(after, h) <==> IsLive(before, h) {
      if 1 <= IndexPart(h) <= |before| { assert after[IndexPart(h) - 1] == before[IndexPart(h) - 1]; }
    }
  }

  /** Filling a vacant slot adds exactly the handle of its generation. */
  lemma FilledIsLive<R>(before: seq<Slot<R>>, after: seq<Slot<R>>, index: nat)
    requires index < |before| <= INDEX_MASK && before[index].resource.None? && SlotOk(before[index])
    requires |after| == |before| && after == before[index := after[index]] && after[index].resource.Some?
    requires after[index].generation == before[index].generation
    ensures LiveOf(after)
         == LiveOf(before)[Encode(index, before[index].generation) := (after[index].kind, after[index].resource.value)]
  {
    var handle := Encode(index, before[index].generation);
    DecodeEncoded(index, before[index].generation);
    forall h: Handle ensures IsLive(after, h) <==> IsLive(before, h) || h == handle {
      if IndexPart(h) == index + 1 { EncodeDecoded(h); }
    }
  }

  /** Releasing a slot removes exactly its handle. */
  lemma VacatedIsNotLive<R>(before: seq<Slot<R>>, after: seq<Slot<R>>, index: nat)
    requires index < |before| <= INDEX_MASK
    requires |after| == |before| && after == before[index := after[index]] && after[index].resource.None?
    ensures LiveOf(after) == LiveOf(before) - {Encode(index, before[index].generation)}
  {
    var handle := Encode(index, before[index].generation);
    DecodeEncoded(index, before[index].generation);
    forall h: Handle ensures IsLive(after, h) <==> IsLive(before, h) && h != handle {
      if IndexPart(h) == index + 1 { EncodeDecoded(h); }
    }
  }
}
