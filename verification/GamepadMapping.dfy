/** Mappings applied to a joystick's raw inputs, and the table that keeps them. */
module GamepadMapping {
  import opened MappingText
  import opened Options

  /** What a joystick reports: axis positions, buttons (non-zero when down), and hats as direction bits. */
  datatype Inputs = Inputs(axes: seq<real>, buttons: seq<nat>, hats: seq<nat>)

  // ----- one binding -----

  function Clamp(x: real): real {
    if x < -1.0 then -1.0 else if x > 1.0 then 1.0 else x
  }

  /** `a & b` is not zero. */
  predicate AnyBit(a: nat, b: nat) {
    a != 0 && b != 0 && ((a % 2 == 1 && b % 2 == 1) || AnyBit(a / 2, b / 2))
  }

  predicate Available(b: Binding, inputs: Inputs) {
    match b.input
    case Unbound => true
    case Axis => b.index < |inputs.axes|
    case Button => b.index < |inputs.buttons|
    case Hat => b.index < |inputs.hats|
  }

  /** `binding_value`; None stands for a false `valid`. */
  function BindingValue(b: Binding, inputs: Inputs): (r: Option<real>)
    ensures r.Some? <==> Available(b, inputs) && !b.input.Unbound?
    ensures r.Some? ==> -1.0 <= r.value <= 1.0
  {
    if b.input.Unbound? || !Available(b, inputs) then None
    else match b.input
      case Axis => Some(Clamp(inputs.axes[b.index] * b.scale + b.offset))
      case Button => Some(if inputs.buttons[b.index] != 0 then 1.0 else -1.0)
      case Hat => Some(if AnyBit(inputs.hats[b.index], b.mask) then 1.0 else -1.0)
  }

  /** Whether a bound button is down. */
  predicate Pressed(b: Binding, inputs: Inputs)
    requires Available(b, inputs) && !b.input.Unbound?
  {
    var value := BindingValue(b, inputs).value;
    if b.input.Axis? then
      if b.offset < 0.0 || (b.offset == 0.0 && b.scale > 0.0) then value >= 0.0 else value <= 0.0
    else value > 0.0
  }

  /** A button bound to an axis is down when the axis is past the middle of the part that the binding reads,
      away from rest, and turning the axis around does not change that. */
  lemma AxisButtonMeaning(b: Binding, inputs: Inputs)
    requires Canonical(b) && b.input.Axis? && Available(b, inputs)
    ensures var x := inputs.axes[b.index];
            Pressed(b, inputs) <==> match HalfOf(b)
                                    case Whole => x >= 0.0
                                    case Upper => x >= 0.5
                                    case Lower => x <= -0.5
  {
    AxisBindingReads(HalfOf(b), Inverted(b), b.index);
  }

  /** An axis binding stretches the part it reads to [-1, 1], the end farthest from rest becoming 1 for `a` and
      `+a` and -1 for `-a`; `~` mirrors the result. Positions outside the part end at its bounds. */
  lemma AxisMeaning(half: Half, index: nat, inputs: Inputs)
    requires index < |inputs.axes|
    ensures var x := inputs.axes[index];
            var value := BindingValue(AxisBinding(half, false, index), inputs).value;
            && BindingValue(AxisBinding(half, true, index), inputs) == Some(-value)
            && match half
               case Whole => value == Clamp(x)
               case Upper =>
                 && (0.0 <= x <= 1.0 ==> (value + 1.0) / 2.0 == x)
                 && (x < 0.0 ==> value == -1.0) && (x > 1.0 ==> value == 1.0)
               case Lower =>
                 && (-1.0 <= x <= 0.0 ==> (value - 1.0) / 2.0 == x)
                 && (x > 0.0 ==> value == 1.0) && (x < -1.0 ==> value == -1.0)
  {
    AxisBindingReads(half, false, index);
    AxisBindingReads(half, true, index);
    var x, plain, turned := inputs.axes[index], AxisBinding(half, false, index), AxisBinding(half, true, index);
    var stretched := if half.Whole? then x else if half.Upper? then x * 2.0 - 1.0 else x * 2.0 + 1.0;
    assert x * plain.scale + plain.offset == stretched by {
      assert x * plain.scale == if half.Whole? then x else x * 2.0;
    }
    assert x * turned.scale + turned.offset == -stretched by {
      assert x * turned.scale == if half.Whole? then -x else -(x * 2.0);
    }
    assert BindingValue(plain, inputs) == Some(Clamp(stretched));
    assert BindingValue(turned, inputs) == Some(Clamp(-stretched));
  }

  /** Bit `k` of a direction or mask word. */
  predicate BitSet(a: nat, k: nat) {
    if k == 0 then a % 2 == 1 else BitSet(a / 2, k - 1)
  }

  /** The two words have a bit in common. */
  ghost predicate Meets(a: nat, b: nat) {
    exists k: nat :: BitSet(a, k) && BitSet(b, k)
  }

  lemma {:induction false} AnyBitMeaning(a: nat, b: nat)
    ensures AnyBit(a, b) <==> Meets(a, b)
    decreases a
  {
    if a == 0 || b == 0 {
      forall k: nat ensures !(BitSet(a, k) && BitSet(b, k)) {
        NoBitOfZero(k);
      }
    } else {
      AnyBitMeaning(a / 2, b / 2);
      MeetsHalved(a, b);
    }
  }

  lemma MeetsHalved(a: nat, b: nat)
    ensures Meets(a, b) <==> (a % 2 == 1 && b % 2 == 1) || Meets(a / 2, b / 2)
  {
    if Meets(a, b) {
      var k: nat :| BitSet(a, k) && BitSet(b, k);
      assert k > 0 ==> BitSet(a / 2, k - 1) && BitSet(b / 2, k - 1);
    }
    if a % 2 == 1 && b % 2 == 1 {
      assert BitSet(a, 0) && BitSet(b, 0);
    } else if Meets(a / 2, b / 2) {
      var k: nat :| BitSet(a / 2, k) && BitSet(b / 2, k);
      assert BitSet(a, k + 1) && BitSet(b, k + 1);
    }
  }

  lemma {:induction false} NoBitOfZero(k: nat)
    ensures !BitSet(0, k)
  {
    if k > 0 {
      NoBitOfZero(k - 1);
    }
  }

  /** A button bound to a button is down when that one is, one bound to a hat when the hat points in a direction of
      the mask; as an axis the same input reads 1 when down and -1 when not. An unbound axis reads 0. */
  lemma DigitalMeaning(b: Binding, inputs: Inputs, before: bool)
    requires !b.input.Axis? && Available(b, inputs)
    ensures b.input.Unbound? ==> ButtonState(b, inputs, before) == before && AxisState(b, inputs) == 0.0
    ensures b.input.Button? || b.input.Hat? ==>
              var down := if b.input.Button? then inputs.buttons[b.index] != 0
                          else Meets(inputs.hats[b.index], b.mask);
              ButtonState(b, inputs, before) == down && AxisState(b, inputs) == if down then 1.0 else -1.0
  {
    hide Meets;
    if b.input.Hat? {
      AnyBitMeaning(inputs.hats[b.index], b.mask);
    }
  }

  // ----- a whole mapping -----

  predicate AllAvailable(m: Mapping, inputs: Inputs) {
    && (forall i :: 0 <= i < |m.buttons| ==> Available(m.buttons[i], inputs))
    && (forall i :: 0 <= i < |m.axes| ==> Available(m.axes[i], inputs))
  }

  /** A bound button's new state; an unbound one keeps the state it had. */
  function ButtonState(b: Binding, inputs: Inputs, before: bool): bool {
    if b.input.Unbound? || !Available(b, inputs) then before else Pressed(b, inputs)
  }

  function AxisState(b: Binding, inputs: Inputs): real {
    var value := BindingValue(b, inputs);
    if value.Some? then value.value else 0.0
  }

  /** `apply_mapping`: it fails exactly when a bound input does not exist, having then written the entries
      before that binding. */
  method ApplyMapping(m: Mapping, inputs: Inputs, buttons: array<bool>, axes: array<real>) returns (ok: bool)
    requires Shaped(m) && buttons.Length == BUTTON_COUNT && axes.Length == AXIS_COUNT
    modifies buttons, axes
    ensures ok <==> AllAvailable(m, inputs)
    ensures ok ==> forall i :: 0 <= i < BUTTON_COUNT ==>
              buttons[i] == ButtonState(m.buttons[i], inputs, old(buttons[i]))
    ensures ok ==> forall i :: 0 <= i < AXIS_COUNT ==> axes[i] == AxisState(m.axes[i], inputs) && -1.0 <= axes[i] <= 1.0
    ensures !ok ==> exists k :: WrittenUpTo(m, inputs, old(buttons[..]), old(axes[..]), buttons[..], axes[..], k)
  {
    ghost var buttons0, axes0 := buttons[..], axes[..];
    for i := 0 to BUTTON_COUNT
      invariant forall j :: 0 <= j < i ==> Available(m.buttons[j], inputs)
      invariant forall j :: 0 <= j < BUTTON_COUNT ==>
                  buttons[j] == if j < i then ButtonState(m.buttons[j], inputs, buttons0[j]) else buttons0[j]
      invariant axes[..] == axes0
    {
      var b := m.buttons[i];
      var value := BindingValue(b, inputs);
      if value.None? && !b.input.Unbound? {
        assert WrittenUpTo(m, inputs, buttons0, axes0, buttons[..], axes[..], i);
        return false;
      }
      if b.input.Axis? {
        var upward := b.offset < 0.0 || (b.offset == 0.0 && b.scale > 0.0);
        buttons[i] := if upward then value.value >= 0.0 else value.value <= 0.0;
      } else if value.Some? {
        buttons[i] := value.value > 0.0;
      }
    }
    assert forall j :: 0 <= j < AXIS_COUNT ==> axes[j] == axes0[j];
    for i := 0 to AXIS_COUNT
      invariant forall j :: 0 <= j < BUTTON_COUNT ==> buttons[j] == ButtonState(m.buttons[j], inputs, buttons0[j])
      invariant forall j :: 0 <= j < i ==> Available(m.axes[j], inputs)
      invariant forall j :: 0 <= j < AXIS_COUNT ==> axes[j] == if j < i then AxisState(m.axes[j], inputs) else axes0[j]
    {
      var value := BindingValue(m.axes[i], inputs);
      if value.None? && !m.axes[i].input.Unbound? {
        assert WrittenUpTo(m, inputs, buttons0, axes0, buttons[..], axes[..], BUTTON_COUNT + i);
        return false;
      }
      axes[i] := if value.Some? then value.value else 0.0;
    }
    return true;
  }

  /** The first unavailable binding is number `k` of the buttons followed by the axes, and exactly the entries
      before it have been written. */
  ghost predicate WrittenUpTo(m: Mapping, inputs: Inputs, buttons0: seq<bool>, axes0: seq<real>,
                              buttons: seq<bool>, axes: seq<real>, k: int) {
    && Shaped(m) && 0 <= k < BUTTON_COUNT + AXIS_COUNT
    && !Available(At(m, k), inputs) && (forall j :: 0 <= j < k ==> Available(At(m, j), inputs))
    && |buttons| == |buttons0| == BUTTON_COUNT && |axes| == |axes0| == AXIS_COUNT
    && (forall j :: 0 <= j < BUTTON_COUNT ==>
          buttons[j] == if j < k then ButtonState(m.buttons[j], inputs, buttons0[j]) else buttons0[j])
    && (forall j :: 0 <= j < AXIS_COUNT ==>
          axes[j] == if BUTTON_COUNT + j < k then AxisState(m.axes[j], inputs) else axes0[j])
  }

  // ----- the table of mappings -----

  datatype Source = BuiltIn | Application

  datatype Stored = Stored(mapping: Mapping, source: Source)

  datatype Result = Ok | InvalidArgument | Unsupported

  /** The last entry for a GUID wins. */
  function Lookup(table: seq<Stored>, guid: string): (r: Option<Stored>)
    ensures r.Some? ==> r.value in table && r.value.mapping.guid == guid
    ensures r.None? ==> forall s :: s in table ==> s.mapping.guid != guid
  {
    if table == [] then None
    else if table[|table| - 1].mapping.guid == guid then Some(table[|table| - 1])
    else Lookup(table[..|table| - 1], guid)
  }

  lemma {:induction false} LookupIs(table: seq<Stored>, at: nat)
    requires at < |table| && forall j :: at < j < |table| ==> table[j].mapping.guid != table[at].mapping.guid
    ensures Lookup(table, table[at].mapping.guid) == Some(table[at])
  {
    if at < |table| - 1 {
      LookupIs(table[..|table| - 1], at);
    }
  }

  lemma {:induction false} LookupIgnores(table: seq<Stored>, at: nat, s: Stored, guid: string)
    requires at < |table| && table[at].mapping.guid != guid && s.mapping.guid != guid
    ensures Lookup(table[at := s], guid) == Lookup(table, guid)
  {
    var front := table[..|table| - 1];
    if at < |table| - 1 {
      assert table[at := s][..|table| - 1] == front[at := s];
      LookupIgnores(front, at, s, guid);
    } else {
      assert table[at := s][..|table| - 1] == front;
    }
  }

  /** The last of the mappings with a GUID. */
  function LastOf(ms: seq<Mapping>, guid: string): Option<Mapping> {
    if ms == [] then None
    else if ms[|ms| - 1].guid == guid then Some(ms[|ms| - 1])
    else LastOf(ms[..|ms| - 1], guid)
  }

  /** What a lookup finds once `ms` have been stored over `before`, in order. */
  function Overlaid(before: seq<Stored>, ms: seq<Mapping>, guid: string): Option<Stored> {
    var last := LastOf(ms, guid);
    if last.Some? then Some(Stored(last.value, Application)) else Lookup(before, guid)
  }

  predicate Applicable(m: Mapping, platform: string) {
    m.platform == "" || m.platform == platform
  }

  /** The mapping on one line, or none for an empty line, a line that starts with `#` or a mapping for another
      platform; None when the line is no mapping. */
  function LineOf(line: string, platform: string): Option<seq<Mapping>> {
    if line == "" || line[0] == '#' then Some([])
    else
      var m := MappingOf(line);
      if m.None? then None else if Applicable(m.value, platform) then Some([m.value]) else Some([])
  }

  function Both(a: Option<seq<Mapping>>, b: Option<seq<Mapping>>): Option<seq<Mapping>> {
    if a.None? || b.None? then None else Some(a.value + b.value)
  }

  /** Lines end with LF or CR LF. None when one of them is no mapping. */
  function DatabaseOf(text: string, platform: string): Option<seq<Mapping>>
    decreases |text|
  {
    if text == "" then Some([])
    else
      var end := Find(text, '\n');
      Both(LineOf(WithoutReturn(text[..end]), platform),
           DatabaseOf(Rest(text, end + 1), platform))
  }

  function WithoutReturn(line: string): string {
    if line != "" && line[|line| - 1] == '\r' then line[..|line| - 1] else line
  }

  method ParseLine(line: string, platform: string) returns (r: Option<seq<Mapping>>)
    ensures r == LineOf(line, platform)
  {
    if line == "" || line[0] == '#' {
      return Some([]);
    }
    var m := ParseMapping(line);
    if m.None? {
      return None;
    }
    return if Applicable(m.value, platform) then Some([m.value]) else Some([]);
  }

  /** The first half of `nk_gamepad_add_mappings`. */
  method ParseDatabase(database: string, platform: string) returns (r: Option<seq<Mapping>>)
    ensures r == DatabaseOf(database, platform)
  {
    hide Find, LineOf, Both, WithoutReturn, Rest;
    var parsed: seq<Mapping> := [];
    var position := 0;
    BothWithNothing(DatabaseOf(database, platform));
    RestEnds(database, 0);
    while position < |database|
      invariant 0 <= position <= |database| + 1
      invariant DatabaseOf(database, platform) == Both(Some(parsed), DatabaseOf(Rest(database, position), platform))
    {
      var end := position + Find(database[position..], '\n');
      RestSteps(database, position, end - position);
      var line := ParseLine(WithoutReturn(database[position..end]), platform);
      BothAssociates(parsed, line, DatabaseOf(Rest(database, end + 1), platform));
      if line.None? {
        return None;
      }
      parsed := parsed + line.value;
      position := end + 1;
    }
    RestEnds(database, position);
    BothWithNothing(Some(parsed));
    return Some(parsed);
  }

  class MappingTable {
    var stored: seq<Stored>

    constructor (builtIns: seq<Mapping>)
      ensures stored == seq(|builtIns|, i requires 0 <= i < |builtIns| => Stored(builtIns[i], BuiltIn))
    {
      stored := seq(|builtIns|, i requires 0 <= i < |builtIns| => Stored(builtIns[i], BuiltIn));
    }

    /** `store_application_mapping`. */
    method Store(m: Mapping)
      modifies this
      ensures forall guid :: Lookup(stored, guid) ==
                if guid == m.guid then Some(Stored(m, Application)) else Lookup(old(stored), guid)
      ensures |stored| == |old(stored)| + if Lookup(old(stored), m.guid).None? then 1 else 0
    {
      var at: nat := |stored|;
      while at > 0 && stored[at - 1].mapping.guid != m.guid
        invariant at <= |stored|
        invariant forall j :: at <= j < |stored| ==> stored[j].mapping.guid != m.guid
      {
        at := at - 1;
      }
      if at == 0 {
        stored := stored + [Stored(m, Application)];
        assert stored[..|stored| - 1] == old(stored);
      } else {
        LookupIs(stored, at - 1);
        stored := stored[at - 1 := Stored(m, Application)];
        LookupIs(stored, at - 1);
        forall guid | guid != m.guid ensures Lookup(stored, guid) == Lookup(old(stored), guid) {
          LookupIgnores(old(stored), at - 1, Stored(m, Application), guid);
        }
      }
    }

    /** `nk_gamepad_add_mapping`. */
    method AddMapping(text: string, platform: string) returns (result: Result)
      modifies this
      ensures result == match MappingOf(text)
                        case None => InvalidArgument
                        case Some(m) => if Applicable(m, platform) then Ok else Unsupported
      ensures forall guid :: Lookup(stored, guid) ==
                if result.Ok? then Overlaid(old(stored), [MappingOf(text).value], guid) else Lookup(old(stored), guid)
    {
      var parsed := ParseMapping(text);
      if parsed.None? {
        return InvalidArgument;
      }
      if !Applicable(parsed.value, platform) {
        return Unsupported;
      }
      forall guid
        ensures LastOf([parsed.value], guid) == if guid == parsed.value.guid then Some(parsed.value) else None {
        assert [parsed.value][..0] == [];
      }
      Store(parsed.value);
      return Ok;
    }

    /** `nk_gamepad_add_mappings`: every line is parsed before the first mapping is stored. */
    method AddMappings(database: string, platform: string) returns (result: Result, added: nat)
      modifies this
      ensures result == if DatabaseOf(database, platform).Some? then Ok else InvalidArgument
      ensures !result.Ok? ==> stored == old(stored)
      ensures result.Ok? ==> added == |DatabaseOf(database, platform).value|
      ensures result.Ok? ==> forall guid ::
                Lookup(stored, guid) == Overlaid(old(stored), DatabaseOf(database, platform).value, guid)
    {
      var parsed := ParseDatabase(database, platform);
      if parsed.None? {
        return InvalidArgument, 0;
      }
      var ms := parsed.value;
      for i := 0 to |ms|
        invariant forall guid :: Lookup(stored, guid) == Overlaid(old(stored), ms[..i], guid)
      {
        assert ms[..i + 1][..i] == ms[..i];
        Store(ms[i]);
      }
      assert ms[..|ms|] == ms;
      return Ok, |ms|;
    }
  }

  lemma BothWithNothing(a: Option<seq<Mapping>>)
    ensures Both(Some([]), a) == a && Both(a, Some([])) == a
  {
    assert a.Some? ==> [] + a.value == a.value && a.value + [] == a.value;
  }

  lemma BothAssociates(ms: seq<Mapping>, line: Option<seq<Mapping>>, rest: Option<seq<Mapping>>)
    ensures Both(Some(ms), Both(line, rest)) ==
            if line.None? then None else Both(Some(ms + line.value), rest)
  {
    if line.Some? && rest.Some? {
      assert ms + (line.value + rest.value) == (ms + line.value) + rest.value;
    }
  }
}
