/** Gamepad button and axis events: emitted as snapshot differences, folded back into snapshots. */
module GamepadEvents {
  import opened Bytes
  import opened Events
  import QueueModel
  import R = QueueRuns
  import opened QueueMeaning

  const BUTTON_COUNT := 15
  const AXIS_COUNT := 6

  /** A snapshot: button bytes, and axes as the bits of 32-bit floats. */
  datatype Pad = Pad(buttons: seq<byte>, axes: seq<uint32>)

  predicate IsPad(p: Pad) {
    |p.buttons| == BUTTON_COUNT && |p.axes| == AXIS_COUNT
  }

  // ----- float comparison on bit patterns (IEEE 754 binary32) -----

  predicate IsNan(bits: uint32) {
    bits / 0x80_0000 % 256 == 255 && bits % 0x80_0000 != 0
  }

  predicate IsZero(bits: uint32) {
    bits == 0 || bits == 0x8000_0000
  }

  /** The `==` of the diff: NaN differs from everything, the two zeros are equal. */
  predicate FloatEqual(a: uint32, b: uint32) {
    !IsNan(a) && !IsNan(b) && (a == b || (IsZero(a) && IsZero(b)))
  }

  /** The same value to a reader: identical bits, or both zeros. */
  predicate SameValue(a: uint32, b: uint32) {
    a == b || (IsZero(a) && IsZero(b))
  }

  predicate Agrees(a: Pad, b: Pad) {
    && IsPad(a) && IsPad(b) && a.buttons == b.buttons
    && forall i :: 0 <= i < AXIS_COUNT ==> SameValue(a.axes[i], b.axes[i])
  }

  // ----- emission -----

  function StateEvent(kind: nat, joystick: nat, index: uint32, value: uint32): Event {
    Event(kind, joystick, 0, INVALID_REQUEST, 0, 0, EncodeWord(index) + EncodeWord(value), 0)
  }

  /** The button events for positions before `n` that differ. */
  function ButtonDiff(joystick: nat, before: Pad, after: Pad, n: nat): seq<Event>
    requires IsPad(before) && IsPad(after) && n <= BUTTON_COUNT
  {
    if n == 0 then []
    else
      ButtonDiff(joystick, before, after, n - 1)
      + if before.buttons[n - 1] == after.buttons[n - 1] then []
        else [StateEvent(GAMEPAD_BUTTON, joystick, n - 1, after.buttons[n - 1])]
  }

  function AxisDiff(joystick: nat, before: Pad, after: Pad, n: nat): seq<Event>
    requires IsPad(before) && IsPad(after) && n <= AXIS_COUNT
  {
    if n == 0 then []
    else
      AxisDiff(joystick, before, after, n - 1)
      + if FloatEqual(before.axes[n - 1], after.axes[n - 1]) then []
        else [StateEvent(GAMEPAD_AXIS, joystick, n - 1, after.axes[n - 1])]
  }

  function Diff(joystick: nat, before: Pad, after: Pad): seq<Event>
    requires IsPad(before) && IsPad(after)
  {
    ButtonDiff(joystick, before, after, BUTTON_COUNT) + AxisDiff(joystick, before, after, AXIS_COUNT)
  }

  function ChangedButtons(before: Pad, after: Pad, n: nat): set<nat>
    requires IsPad(before) && IsPad(after) && n <= BUTTON_COUNT
  {
    set i: nat | i < n && before.buttons[i] != after.buttons[i]
  }

  function ChangedAxes(before: Pad, after: Pad, n: nat): set<nat>
    requires IsPad(before) && IsPad(after) && n <= AXIS_COUNT
  {
    set i: nat | i < n && !FloatEqual(before.axes[i], after.axes[i])
  }

  lemma {:induction false} ButtonDiffExactly(joystick: nat, before: Pad, after: Pad, n: nat)
    requires IsPad(before) && IsPad(after) && n <= BUTTON_COUNT
    ensures |ButtonDiff(joystick, before, after, n)| == |ChangedButtons(before, after, n)|
    ensures forall i :: i in ChangedButtons(before, after, n) ==>
              StateEvent(GAMEPAD_BUTTON, joystick, i, after.buttons[i]) in ButtonDiff(joystick, before, after, n)
  {
    hide StateEvent;
    if n == 0 {
      assert ChangedButtons(before, after, 0) == {};
    } else {
      ButtonDiffExactly(joystick, before, after, n - 1);
      OneMoreButton(before, after, n);
    }
  }

  lemma OneMoreButton(before: Pad, after: Pad, n: nat)
    requires IsPad(before) && IsPad(after) && 0 < n <= BUTTON_COUNT
    ensures ChangedButtons(before, after, n) ==
            ChangedButtons(before, after, n - 1)
            + if before.buttons[n - 1] == after.buttons[n - 1] then {} else {n - 1}
    ensures n - 1 !in ChangedButtons(before, after, n - 1)
  {
  }

  lemma {:induction false} AxisDiffExactly(joystick: nat, before: Pad, after: Pad, n: nat)
    requires IsPad(before) && IsPad(after) && n <= AXIS_COUNT
    ensures |AxisDiff(joystick, before, after, n)| == |ChangedAxes(before, after, n)|
    ensures forall i :: i in ChangedAxes(before, after, n) ==>
              StateEvent(GAMEPAD_AXIS, joystick, i, after.axes[i]) in AxisDiff(joystick, before, after, n)
  {
    hide StateEvent, FloatEqual;
    if n == 0 {
      assert ChangedAxes(before, after, 0) == {};
    } else {
      AxisDiffExactly(joystick, before, after, n - 1);
      OneMoreAxis(before, after, n);
    }
  }

  lemma OneMoreAxis(before: Pad, after: Pad, n: nat)
    requires IsPad(before) && IsPad(after) && 0 < n <= AXIS_COUNT
    ensures ChangedAxes(before, after, n) ==
            ChangedAxes(before, after, n - 1)
            + if FloatEqual(before.axes[n - 1], after.axes[n - 1]) then {} else {n - 1}
    ensures n - 1 !in ChangedAxes(before, after, n - 1)
  {
    hide FloatEqual;
  }

  /** A diff tells every changed button and axis with its new value, and has no further event. */
  lemma DiffExactly(joystick: nat, before: Pad, after: Pad)
    requires IsPad(before) && IsPad(after)
    ensures var events := Diff(joystick, before, after);
            var buttons := ChangedButtons(before, after, BUTTON_COUNT);
            var axes := ChangedAxes(before, after, AXIS_COUNT);
            && (forall i :: i in buttons ==> StateEvent(GAMEPAD_BUTTON, joystick, i, after.buttons[i]) in events)
            && (forall i :: i in axes ==> StateEvent(GAMEPAD_AXIS, joystick, i, after.axes[i]) in events)
            && |events| == |buttons| + |axes|
  {
    ButtonDiffExactly(joystick, before, after, BUTTON_COUNT);
    AxisDiffExactly(joystick, before, after, AXIS_COUNT);
  }

  datatype Reading = Unavailable | Reading(pad: Pad)

  predicate ValidReading(r: Reading) {
    r.Reading? ==> IsPad(r.pad)
  }

  /** `event_states` and the two operations that maintain it. */
  class Tracker {
    var states: map<nat, Pad>

    ghost predicate Valid()
      reads this
    {
      forall j :: j in states ==> IsPad(states[j])
    }

    constructor ()
      ensures Valid() && states == map[]
    {
      states := map[];
    }

    /** `gamepad_events::update`: `reading` is what `nk_gamepad_get_state` answered; the result lists the
        events pushed, in order. */
    method Update(joystick: nat, reading: Reading, emitChanges: bool) returns (events: seq<Event>)
      requires Valid() && ValidReading(reading)
      modifies this
      ensures Valid()
      ensures (states, events) == UpdateStates(old(states), joystick, reading, emitChanges)
    {
      events := [];
      if reading.Unavailable? {
        states := states - {joystick};
        return;
      }
      var current := reading.pad;
      if joystick !in states {
        states := states[joystick := current];
        return;
      }
      var before := states[joystick];
      if emitChanges {
        for index := 0 to BUTTON_COUNT
          invariant events == ButtonDiff(joystick, before, current, index)
        {
          if before.buttons[index] != current.buttons[index] {
            events := events + [StateEvent(GAMEPAD_BUTTON, joystick, index, current.buttons[index])];
          }
        }
        ghost var buttons := events;
        for index := 0 to AXIS_COUNT
          invariant events == buttons + AxisDiff(joystick, before, current, index)
        {
          if !FloatEqual(before.axes[index], current.axes[index]) {
            events := events + [StateEvent(GAMEPAD_AXIS, joystick, index, current.axes[index])];
          }
        }
      }
      states := states[joystick := current];
    }

    method Disconnect(joystick: nat)
      requires Valid()
      modifies this
      ensures Valid() && states == old(states) - {joystick}
    {
      states := states - {joystick};
    }

    method Reset()
      modifies this
      ensures Valid() && states == map[]
    {
      states := map[];
    }
  }

  function UpdateStates(states: map<nat, Pad>, joystick: nat, reading: Reading, emit: bool)
    : (map<nat, Pad>, seq<Event>)
    requires ValidReading(reading) && forall j :: j in states ==> IsPad(states[j])
  {
    match reading
    case Unavailable => (states - {joystick}, [])
    case Reading(pad) =>
      (states[joystick := pad],
       if joystick in states && emit then Diff(joystick, states[joystick], pad) else [])
  }

  // ----- folding -----

  /** What a listener to one joystick makes of an event. A payload cut before its value reads as 0. */
  function Play(joystick: nat, p: Pad, e: Event): Pad {
    if e.source != joystick || |e.data| < WORD_SIZE then p
    else
      var index := DecodeWord(e.data, 0);
      var value := if |e.data| < 2 * WORD_SIZE then 0 else DecodeWord(e.data, WORD_SIZE);
      if e.kind == GAMEPAD_BUTTON && index < |p.buttons| && value < 256 then p.(buttons := p.buttons[index := value])
      else if e.kind == GAMEPAD_AXIS && index < |p.axes| then p.(axes := p.axes[index := value])
      else p
  }

  function Listener(joystick: nat): (Pad, Event) -> Pad {
    (p: Pad, e: Event) => Play(joystick, p, e)
  }

  function Folded(joystick: nat, p: Pad, events: seq<Event>): Pad {
    Fold(Listener(joystick), p, events)
  }

  lemma PlayOverwrites(joystick: nat, p: Pad, a: Event, b: Event)
    requires IsCoalescible(b) && SameTarget(a, b)
    ensures Play(joystick, Play(joystick, p, a), b) == Play(joystick, p, b)
  {
    if b.kind == GAMEPAD_AXIS && b.source == joystick {
      var index := DecodeWord(b.data, 0);
      if index < |p.axes| {
        var va, vb := Play(joystick, p, a).axes[index], Play(joystick, p, b).axes[index];
        assert p.axes[index := va][index := vb] == p.axes[index := vb];
      }
    }
  }

  lemma PlayIgnores(joystick: nat, p: Pad, e: Event)
    ensures IsInterleaved(e) || MayWait(e) ==> Play(joystick, p, e) == p
  {
  }

  /** A listener is a consumer the queue may coalesce for. */
  lemma ListenerKeepsLatest(joystick: nat)
    ensures KeepsLatest(Listener(joystick))
  {
    var f := Listener(joystick);
    forall p: Pad, a: Event, b: Event | IsCoalescible(b) && SameTarget(a, b)
      ensures f(f(p, a), b) == f(p, b)
    {
      PlayOverwrites(joystick, p, a, b);
    }
    forall p: Pad, e: Event | IsInterleaved(e) || MayWait(e) ensures f(p, e) == p {
      PlayIgnores(joystick, p, e);
    }
  }

  /** A listener applies a state event by writing its value at its index. */
  lemma PlayStateEvent(joystick: nat, p: Pad, index: uint32, value: uint32)
    requires IsPad(p)
    ensures index < BUTTON_COUNT && value < 256 ==>
              Play(joystick, p, StateEvent(GAMEPAD_BUTTON, joystick, index, value))
              == p.(buttons := p.buttons[index := value])
    ensures index < AXIS_COUNT ==>
              Play(joystick, p, StateEvent(GAMEPAD_AXIS, joystick, index, value))
              == p.(axes := p.axes[index := value])
  {
    var data := EncodeWord(index) + EncodeWord(value);
    assert data[0..4] == EncodeWord(index) && data[4..8] == EncodeWord(value);
    DecodeEncodedWord(data, 0, index);
    DecodeEncodedWord(data, 4, value);
  }

  lemma FoldOne(joystick: nat, p: Pad, events: seq<Event>, e: Event)
    ensures Folded(joystick, p, events + [e]) == Play(joystick, Folded(joystick, p, events), e)
  {
    assert (events + [e])[..|events|] == events;
  }

  /** The first `n` buttons are the new ones, the others still the old ones. */
  ghost predicate ButtonsUpTo(r: Pad, before: Pad, after: Pad, n: nat)
    requires IsPad(before) && IsPad(after)
  {
    && IsPad(r)
    && (forall i :: 0 <= i < n && i < BUTTON_COUNT ==> r.buttons[i] == after.buttons[i])
    && (forall i :: n <= i < BUTTON_COUNT ==> r.buttons[i] == before.buttons[i])
  }

  lemma PlayButton(joystick: nat, r: Pad, before: Pad, after: Pad, n: nat)
    requires IsPad(before) && IsPad(after) && n < BUTTON_COUNT && ButtonsUpTo(r, before, after, n)
    ensures var r' := Play(joystick, r, StateEvent(GAMEPAD_BUTTON, joystick, n, after.buttons[n]));
            ButtonsUpTo(r', before, after, n + 1) && r'.axes == r.axes
  {
    PlayStateEvent(joystick, r, n, after.buttons[n]);
  }

  lemma {:induction false} FoldButtons(joystick: nat, p: Pad, before: Pad, after: Pad, n: nat)
    requires Agrees(p, before) && IsPad(after) && n <= BUTTON_COUNT
    ensures var r := Folded(joystick, p, ButtonDiff(joystick, before, after, n));
            ButtonsUpTo(r, before, after, n) && r.axes == p.axes
  {
    hide Play, StateEvent;
    if n > 0 {
      FoldButtons(joystick, p, before, after, n - 1);
      var init := ButtonDiff(joystick, before, after, n - 1);
      if before.buttons[n - 1] == after.buttons[n - 1] {
        assert init + [] == init;
      } else {
        FoldOne(joystick, p, init, StateEvent(GAMEPAD_BUTTON, joystick, n - 1, after.buttons[n - 1]));
        PlayButton(joystick, Folded(joystick, p, init), before, after, n - 1);
      }
    }
  }

  /** The first `n` axes have the new values, the others still the old ones. */
  ghost predicate AxesUpTo(r: Pad, before: Pad, after: Pad, n: nat)
    requires IsPad(before) && IsPad(after)
  {
    && IsPad(r)
    && (forall i :: 0 <= i < n && i < AXIS_COUNT ==> SameValue(r.axes[i], after.axes[i]))
    && (forall i :: n <= i < AXIS_COUNT ==> SameValue(r.axes[i], before.axes[i]))
  }

  lemma PlayAxis(joystick: nat, r: Pad, before: Pad, after: Pad, n: nat)
    requires IsPad(before) && IsPad(after) && n < AXIS_COUNT && AxesUpTo(r, before, after, n)
    ensures var r' := Play(joystick, r, StateEvent(GAMEPAD_AXIS, joystick, n, after.axes[n]));
            AxesUpTo(r', before, after, n + 1) && r'.buttons == r.buttons
  {
    PlayStateEvent(joystick, r, n, after.axes[n]);
  }

  lemma SkipAxis(r: Pad, before: Pad, after: Pad, n: nat)
    requires IsPad(before) && IsPad(after) && n < AXIS_COUNT && AxesUpTo(r, before, after, n)
    requires FloatEqual(before.axes[n], after.axes[n])
    ensures AxesUpTo(r, before, after, n + 1)
  {
  }

  lemma {:induction false} FoldAxes(joystick: nat, p: Pad, before: Pad, after: Pad, n: nat)
    requires IsPad(before) && IsPad(after) && AxesUpTo(p, before, after, 0) && n <= AXIS_COUNT
    ensures var r := Folded(joystick, p, AxisDiff(joystick, before, after, n));
            AxesUpTo(r, before, after, n) && r.buttons == p.buttons
  {
    hide Play, StateEvent;
    if n > 0 {
      FoldAxes(joystick, p, before, after, n - 1);
      var init := AxisDiff(joystick, before, after, n - 1);
      var r := Folded(joystick, p, init);
      if FloatEqual(before.axes[n - 1], after.axes[n - 1]) {
        assert init + [] == init;
        SkipAxis(r, before, after, n - 1);
      } else {
        FoldOne(joystick, p, init, StateEvent(GAMEPAD_AXIS, joystick, n - 1, after.axes[n - 1]));
        PlayAxis(joystick, r, before, after, n - 1);
      }
    }
  }

  /** Replaying one diff over anything that agrees with the old snapshot gives the new one. */
  lemma FoldDiff(joystick: nat, p: Pad, before: Pad, after: Pad)
    requires Agrees(p, before) && IsPad(after)
    ensures Agrees(Folded(joystick, p, Diff(joystick, before, after)), after)
  {
    var buttons := ButtonDiff(joystick, before, after, BUTTON_COUNT);
    var axes := AxisDiff(joystick, before, after, AXIS_COUNT);
    FoldConcat(Listener(joystick), p, buttons, axes);
    FoldButtons(joystick, p, before, after, BUTTON_COUNT);
    assert Folded(joystick, p, buttons).buttons == after.buttons;
    FoldAxes(joystick, Folded(joystick, p, buttons), before, after, AXIS_COUNT);
  }

  // ----- histories -----

  datatype PadOp = UpdateOp(joystick: nat, reading: Reading, emit: bool) | DisconnectOp(joystick: nat) | ResetOp

  /** The tracker's states, and for one joystick its first snapshot since the last baseline reset and
      every event emitted since. */
  datatype History = History(states: map<nat, Pad>, base: Reading, log: seq<Event>)

  function StepHistory(h: History, joystick: nat, op: PadOp): History
    requires forall j :: j in h.states ==> IsPad(h.states[j])
    requires op.UpdateOp? ==> ValidReading(op.reading)
  {
    match op
    case ResetOp => History(map[], Unavailable, [])
    case DisconnectOp(j) =>
      if j == joystick then History(h.states - {j}, Unavailable, []) else h.(states := h.states - {j})
    case UpdateOp(j, reading, emit) =>
      var (states, events) := UpdateStates(h.states, j, reading, emit);
      if j != joystick then History(states, h.base, h.log + events)
      else if j in h.states && emit && reading.Reading? then History(states, h.base, h.log + events)
      else History(states, reading, [])
  }

  predicate ValidOps(ops: seq<PadOp>) {
    forall i :: 0 <= i < |ops| && ops[i].UpdateOp? ==> ValidReading(ops[i].reading)
  }

  ghost predicate Tracked(h: History, joystick: nat) {
    && (forall j :: j in h.states ==> IsPad(h.states[j]))
    && (joystick in h.states <==> h.base.Reading?)
    && (h.base.Reading? ==> Agrees(Folded(joystick, h.base.pad, h.log), h.states[joystick]))
  }

  function RunPad(joystick: nat, ops: seq<PadOp>): (h: History)
    requires ValidOps(ops)
    ensures forall j :: j in h.states ==> IsPad(h.states[j])
  {
    if ops == [] then History(map[], Unavailable, [])
    else StepHistory(RunPad(joystick, ops[..|ops| - 1]), joystick, ops[|ops| - 1])
  }

  lemma {:induction false} OthersButtonsAreIgnored(joystick: nat, other: nat, p: Pad, before: Pad, after: Pad, n: nat)
    requires IsPad(before) && IsPad(after) && other != joystick && n <= BUTTON_COUNT
    ensures Folded(joystick, p, ButtonDiff(other, before, after, n)) == p
  {
    if n > 0 {
      OthersButtonsAreIgnored(joystick, other, p, before, after, n - 1);
      var init := ButtonDiff(other, before, after, n - 1);
      if before.buttons[n - 1] != after.buttons[n - 1] {
        FoldOne(joystick, p, init, StateEvent(GAMEPAD_BUTTON, other, n - 1, after.buttons[n - 1]));
      } else {
        assert init + [] == init;
      }
    }
  }

  lemma {:induction false} OthersAxesAreIgnored(joystick: nat, other: nat, p: Pad, before: Pad, after: Pad, n: nat)
    requires IsPad(before) && IsPad(after) && other != joystick && n <= AXIS_COUNT
    ensures Folded(joystick, p, AxisDiff(other, before, after, n)) == p
  {
    if n > 0 {
      OthersAxesAreIgnored(joystick, other, p, before, after, n - 1);
      var init := AxisDiff(other, before, after, n - 1);
      if FloatEqual(before.axes[n - 1], after.axes[n - 1]) {
        assert init + [] == init;
      } else {
        FoldOne(joystick, p, init, StateEvent(GAMEPAD_AXIS, other, n - 1, after.axes[n - 1]));
      }
    }
  }

  lemma OthersAreIgnored(joystick: nat, other: nat, p: Pad, before: Pad, after: Pad)
    requires IsPad(before) && IsPad(after) && other != joystick
    ensures Folded(joystick, p, Diff(other, before, after)) == p
  {
    FoldConcat(Listener(joystick), p, ButtonDiff(other, before, after, BUTTON_COUNT),
               AxisDiff(other, before, after, AXIS_COUNT));
    OthersButtonsAreIgnored(joystick, other, p, before, after, BUTTON_COUNT);
    OthersAxesAreIgnored(joystick, other, p, before, after, AXIS_COUNT);
  }

  /** In every history of updates, disconnections and resets over any number of joysticks, folding the
      emitted events over the first snapshot since the baseline gives the latest snapshot. */
  lemma {:induction false} EmittedEventsTrackState(joystick: nat, ops: seq<PadOp>)
    requires ValidOps(ops)
    ensures Tracked(RunPad(joystick, ops), joystick)
  {
    if ops != [] {
      var h, op := RunPad(joystick, ops[..|ops| - 1]), ops[|ops| - 1];
      EmittedEventsTrackState(joystick, ops[..|ops| - 1]);
      if op.UpdateOp? && op.reading.Reading? && op.joystick in h.states && op.emit {
        var before, after := h.states[op.joystick], op.reading.pad;
        var events := Diff(op.joystick, before, after);
        if h.base.Reading? {
          FoldConcat(Listener(joystick), h.base.pad, h.log, events);
          var p := Folded(joystick, h.base.pad, h.log);
          if op.joystick == joystick {
            FoldDiff(joystick, p, before, after);
          } else {
            OthersAreIgnored(joystick, op.joystick, p, before, after);
          }
        }
      } else if op.UpdateOp? && op.joystick != joystick {
        assert h.log + [] == h.log;
      }
    }
  }

  // ----- through the queue -----

  /** The events a listener to `joystick` reacts to. */
  function Heard(joystick: nat, events: seq<Event>): seq<Event> {
    if events == [] then []
    else
      var init, e := Heard(joystick, events[..|events| - 1]), events[|events| - 1];
      if e.source == joystick && (e.kind == GAMEPAD_BUTTON || e.kind == GAMEPAD_AXIS) then init + [e] else init
  }

  lemma {:induction false} OnlyHeardMatters(joystick: nat, p: Pad, events: seq<Event>)
    ensures Folded(joystick, p, Heard(joystick, events)) == Folded(joystick, p, events)
  {
    if events != [] {
      var init, e := events[..|events| - 1], events[|events| - 1];
      OnlyHeardMatters(joystick, p, init);
      FoldOne(joystick, p, Heard(joystick, init), e);
    }
  }

  /** If the emitted events reach the queue in order, among any others, and the run gives nothing up and
      drains the queue, then folding the polled events gives the latest snapshot: coalescing axis
      movements loses no state. */
  lemma PolledEventsTrackState(joystick: nat, padOps: seq<PadOp>, lim: QueueModel.Limits, ops: seq<R.Op>)
    requires ValidOps(padOps) && NothingGivenUp(lim, ops)
    requires QueueModel.IsEmpty(R.Run(lim, ops).q)
    requires Heard(joystick, R.Run(lim, ops).pushed) == Heard(joystick, RunPad(joystick, padOps).log)
    requires joystick in RunPad(joystick, padOps).states
    ensures var h := RunPad(joystick, padOps);
            && h.base.Reading?
            && Agrees(Folded(joystick, h.base.pad, R.Run(lim, ops).delivered), h.states[joystick])
  {
    var h := RunPad(joystick, padOps);
    EmittedEventsTrackState(joystick, padOps);
    ListenerKeepsLatest(joystick);
    DrainedMeansPushed(lim, Listener(joystick), h.base.pad, ops);
    OnlyHeardMatters(joystick, h.base.pad, R.Run(lim, ops).pushed);
    OnlyHeardMatters(joystick, h.base.pad, h.log);
  }
}
