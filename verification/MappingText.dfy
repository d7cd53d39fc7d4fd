/** Gamepad mapping lines: parsed, printed, and what the parser accepts. */
module MappingText {
  import opened Options

  const MAX_NUMBER := 0xffff
  const MAX_MASK := 0xff
  const BUTTON_COUNT := 15
  const AXIS_COUNT := 6

  datatype Input = Unbound | Axis | Button | Hat

  /** The real scale and offset stand for the source's floats, all of which are exact. */
  datatype Binding = Binding(input: Input, index: nat, mask: nat, scale: real, offset: real)

  const UNBOUND := Binding(Unbound, 0, 0, 1.0, 0.0)

  datatype Mapping = Mapping(guid: string, name: string, platform: string, buttons: seq<Binding>, axes: seq<Binding>)

  /** Which part of an axis a binding reads: `a`, `+a` or `-a`. */
  datatype Half = Whole | Upper | Lower

  // ----- numbers -----

  predicate IsDigit(c: char) { '0' <= c <= '9' }

  predicate AllDigits(s: string) { forall i :: 0 <= i < |s| ==> IsDigit(s[i]) }

  function Digit(c: char): nat
    requires IsDigit(c)
  {
    c as int - '0' as int
  }

  function Value(s: string): nat
    requires AllDigits(s)
  {
    if s == "" then 0 else Value(s[..|s| - 1]) * 10 + Digit(s[|s| - 1])
  }

  /** Where the digits that start at `from` end. */
  function RunEnd(s: string, from: nat): (end: nat)
    requires from <= |s|
    ensures from <= end <= |s| && AllDigits(s[from..end])
    ensures end < |s| ==> !IsDigit(s[end])
    decreases |s| - from
  {
    if from < |s| && IsDigit(s[from]) then
      var end := RunEnd(s, from + 1);
      assert s[from..end] == [s[from]] + s[from + 1..end];
      end
    else from
  }

  predicate IsNumber(s: string, max: nat) {
    s != "" && AllDigits(s) && Value(s) <= max
  }

  lemma {:induction false} ValueGrows(s: string, i: nat)
    requires AllDigits(s) && i <= |s|
    ensures Value(s[..i]) <= Value(s)
  {
    if i == |s| {
      assert s[..i] == s;
    } else {
      ValueGrows(s[..|s| - 1], i);
      assert s[..|s| - 1][..i] == s[..i];
    }
  }

  /** `parse_number`: the digits at `position`, refused when there are none or they exceed 16 bits. */
  method ParseNumber(text: string, position: nat) returns (value: Option<nat>, next: nat)
    requires position <= |text|
    ensures var digits := text[position..RunEnd(text, position)];
            && (value.Some? <==> IsNumber(digits, MAX_NUMBER))
            && (value.Some? ==> value.value == Value(digits) && next == RunEnd(text, position))
  {
    next := position;
    if position >= |text| || !IsDigit(text[position]) {
      return None, next;
    }
    ghost var end := RunEnd(text, position);
    ghost var digits := text[position..end];
    var result := 0;
    while next < |text| && IsDigit(text[next])
      invariant position <= next <= end && RunEnd(text, next) == end
      invariant result == Value(digits[..next - position]) <= MAX_NUMBER
    {
      result := result * 10 + Digit(text[next]);
      next := next + 1;
      assert digits[..next - position][..next - 1 - position] == digits[..next - 1 - position];
      if result > MAX_NUMBER {
        ValueGrows(digits, next - position);
        return None, next;
      }
    }
    assert digits[..next - position] == digits;
    return Some(result), next;
  }

  function PrintNumber(n: nat): (s: string)
    ensures s != "" && AllDigits(s) && Value(s) == n
  {
    var last := [(n % 10 + '0' as int) as char];
    if n < 10 then last
    else
      var s := PrintNumber(n / 10) + last;
      assert s[..|s| - 1] == PrintNumber(n / 10);
      s
  }

  lemma {:induction false} RunEndIs(s: string, from: nat, digits: string, rest: string)
    requires from <= |s| && s[from..] == digits + rest && AllDigits(digits)
    requires rest == "" || !IsDigit(rest[0])
    ensures RunEnd(s, from) == from + |digits|
    decreases |digits|
  {
    if digits == "" {
      assert from < |s| ==> s[from] == s[from..][0];
    } else {
      assert s[from] == s[from..][0] == digits[0];
      assert s[from + 1..] == s[from..][1..] == digits[1..] + rest;
      RunEndIs(s, from + 1, digits[1..], rest);
    }
  }

  // ----- one binding -----

  /** An axis half is stretched to [-1, 1] by `x * scale + offset`; `~` turns it around. */
  function AxisBinding(half: Half, inverted: bool, index: nat): Binding {
    var minimum, maximum := if half.Upper? then 0 else -1, if half.Lower? then 0 else 1;
    var scale, offset := 2.0 / (maximum - minimum) as real, (-(maximum + minimum)) as real;
    if inverted then Binding(Axis, index, 0, -scale, -offset) else Binding(Axis, index, 0, scale, offset)
  }

  function ButtonBinding(index: nat): Binding {
    UNBOUND.(input := Button, index := index)
  }

  function HatBinding(index: nat, mask: nat): Binding {
    UNBOUND.(input := Hat, index := index, mask := mask)
  }

  /** A binding without its sign: a letter, a number, and for axes `~`, for hats `.` and a mask. */
  function Unsigned(half: Half, kind: char, index: nat, rest: string): Option<Binding> {
    if kind == 'a' then
      if rest == "" then Some(AxisBinding(half, false, index))
      else if rest == "~" then Some(AxisBinding(half, true, index))
      else None
    else if kind == 'b' then
      if rest == "" then Some(ButtonBinding(index)) else None
    else if kind == 'h' then
      if rest != "" && rest[0] == '.' && IsNumber(rest[1..], MAX_MASK) then Some(HatBinding(index, Value(rest[1..])))
      else None
    else None
  }

  function HalfOfText(text: string): Half {
    if text != "" && text[0] == '+' then Upper else if text != "" && text[0] == '-' then Lower else Whole
  }

  function BindingOf(text: string): Option<Binding> {
    var half := HalfOfText(text);
    var body := if half.Whole? then text else text[1..];
    if body == "" then None
    else
      var end := RunEnd(body, 1);
      if IsNumber(body[1..end], MAX_NUMBER) then Unsigned(half, body[0], Value(body[1..end]), body[end..]) else None
  }

  lemma {:induction false} RunEndShifts(s: string, shift: nat, from: nat)
    requires shift <= |s| && from <= |s| - shift
    ensures RunEnd(s, shift + from) == shift + RunEnd(s[shift..], from)
    decreases |s| - from
  {
    if from < |s| - shift {
      assert s[shift + from] == s[shift..][from];
      RunEndShifts(s, shift, from + 1);
    }
  }

  /** The digits after the first character of `s[shift..]`, read in `s`. */
  lemma SameRun(s: string, shift: nat)
    requires shift < |s|
    ensures var body := s[shift..]; var end := RunEnd(body, 1);
            && RunEnd(s, shift + 1) == shift + end
            && s[shift + 1..shift + end] == body[1..end] && s[shift + end..] == body[end..]
  {
    RunEndShifts(s, shift, 1);
  }

  /** `parse_binding`. */
  method ParseBinding(text: string) returns (r: Option<Binding>)
    ensures r == BindingOf(text)
  {
    hide RunEnd, Value, AllDigits, IsNumber;
    var position, minimum, maximum := 0, -1, 1;
    if position < |text| && text[position] == '+' {
      minimum := 0;
      position := position + 1;
    } else if position < |text| && text[position] == '-' {
      maximum := 0;
      position := position + 1;
    }
    if position >= |text| {
      return None;
    }
    ghost var body := text[position..];
    var start := position;
    var kind := text[position];
    position := position + 1;
    SameRun(text, start);
    var index;
    index, position := ParseNumber(text, position);
    if index.None? {
      return None;
    }
    assert text[position..] == body[RunEnd(body, 1)..];
    r := ParseSuffix(text, position, kind, index.value, minimum, maximum);
  }

  /** What follows a binding's number, up to the end of the text. */
  method ParseSuffix(text: string, from: nat, kind: char, index: nat, minimum: int, maximum: int)
      returns (r: Option<Binding>)
    requires from <= |text| && (minimum, maximum) in {(-1, 1), (0, 1), (-1, 0)}
    ensures r == Unsigned(if minimum == 0 then Upper else if maximum == 0 then Lower else Whole,
                          kind, index, text[from..])
  {
    hide RunEnd, Value, AllDigits, IsNumber;
    var position := from;
    if kind == 'a' {
      var scale, offset := 2.0 / (maximum - minimum) as real, (-(maximum + minimum)) as real;
      if position < |text| && text[position] == '~' {
        scale, offset := -scale, -offset;
        position := position + 1;
      }
      return if position == |text| then Some(Binding(Axis, index, 0, scale, offset)) else None;
    } else if kind == 'b' {
      return if position == |text| then Some(ButtonBinding(index)) else None;
    } else if kind == 'h' {
      if position >= |text| || text[position] != '.' {
        return None;
      }
      position := position + 1;
      assert text[from + 1..] == text[from..][1..];
      var mask;
      mask, position := ParseNumber(text, position);
      RunToEnd(text, from + 1);
      if mask.None? || mask.value > MAX_MASK {
        return None;
      }
      return if position == |text| then Some(HatBinding(index, mask.value)) else None;
    }
    return None;
  }

  /** A mask reaches the end of the text exactly when the whole rest is one number. */
  lemma RunToEnd(s: string, from: nat)
    requires from <= |s|
    ensures var end := RunEnd(s, from);
            && (IsNumber(s[from..], MAX_MASK) <==>
                  end == |s| && IsNumber(s[from..end], MAX_NUMBER) && Value(s[from..end]) <= MAX_MASK)
            && (end == |s| ==> s[from..end] == s[from..])
  {
    if AllDigits(s[from..]) {
      RunEndIs(s, from, s[from..], "");
      assert s[from..] == s[from..] + "";
    }
    if RunEnd(s, from) == |s| {
      assert s[from..|s|] == s[from..];
    }
  }

  // ----- printing a binding -----

  function Inverted(b: Binding): bool {
    b.scale < 0.0
  }

  function HalfOf(b: Binding): Half {
    if b.scale == 1.0 || b.scale == -1.0 then Whole
    else if (b.offset < 0.0) != Inverted(b) then Upper
    else Lower
  }

  /** The bindings the parser can produce, and the unbound one. */
  predicate Canonical(b: Binding) {
    && b.index <= MAX_NUMBER && b.mask <= MAX_MASK
    && match b.input
       case Unbound => b == UNBOUND
       case Axis => b == AxisBinding(HalfOf(b), Inverted(b), b.index)
       case Button => b == ButtonBinding(b.index)
       case Hat => b == HatBinding(b.index, b.mask)
  }

  function Sign(half: Half): string {
    match half
    case Whole => ""
    case Upper => "+"
    case Lower => "-"
  }

  function Suffix(b: Binding): string {
    match b.input
    case Axis => if Inverted(b) then "~" else ""
    case Hat => "." + PrintNumber(b.mask)
    case _ => ""
  }

  function Letter(b: Binding): char {
    match b.input
    case Axis => 'a'
    case Hat => 'h'
    case _ => 'b'
  }

  function PrintBinding(b: Binding): string {
    (if b.input.Axis? then Sign(HalfOf(b)) else "") + [Letter(b)] + PrintNumber(b.index) + Suffix(b)
  }

  lemma AxisBindingReads(half: Half, inverted: bool, index: nat)
    ensures var b := AxisBinding(half, inverted, index);
            && Inverted(b) == inverted && HalfOf(b) == half
            && (half.Whole? ==> b.scale == (if inverted then -1.0 else 1.0) && b.offset == 0.0)
            && (!half.Whole? ==> b.scale == (if inverted then -2.0 else 2.0))
            && (half.Upper? ==> b.offset == (if inverted then 1.0 else -1.0))
            && (half.Lower? ==> b.offset == (if inverted then -1.0 else 1.0))
  {
  }

  lemma SignedText(half: Half, kind: char, digits: string, rest: string)
    requires kind != '+' && kind != '-'
    ensures var text := Sign(half) + [kind] + digits + rest;
            && HalfOfText(text) == half
            && [kind] + digits + rest == if half.Whole? then text else text[1..]
  {
    var text := Sign(half) + [kind] + digits + rest;
    assert half.Whole? ==> text == [kind] + digits + rest;
    assert !half.Whole? ==> text[1..] == [kind] + digits + rest;
  }

  lemma BodyReads(kind: char, index: nat, rest: string)
    requires index <= MAX_NUMBER && (rest == "" || !IsDigit(rest[0]))
    ensures var body := [kind] + PrintNumber(index) + rest;
            var end := RunEnd(body, 1);
            && IsNumber(body[1..end], MAX_NUMBER) && Value(body[1..end]) == index && body[end..] == rest
  {
    hide PrintNumber, Value, RunEnd;
    var digits := PrintNumber(index);
    var body := [kind] + digits + rest;
    assert body[1..] == digits + rest;
    RunEndIs(body, 1, digits, rest);
    assert body[1..1 + |digits|] == digits && body[1 + |digits|..] == rest;
  }

  lemma UnsignedText(half: Half, kind: char, index: nat, rest: string)
    requires index <= MAX_NUMBER && kind != '+' && kind != '-' && (rest == "" || !IsDigit(rest[0]))
    ensures BindingOf(Sign(half) + [kind] + PrintNumber(index) + rest) == Unsigned(half, kind, index, rest)
  {
    hide PrintNumber, Unsigned, Value, RunEnd, AllDigits, IsNumber;
    var digits := PrintNumber(index);
    var body := [kind] + digits + rest;
    SignedText(half, kind, digits, rest);
    BodyReads(kind, index, rest);
  }

  /** The parser reads back every printed binding. */
  lemma BindingRoundTrips(b: Binding)
    requires Canonical(b) && !b.input.Unbound?
    ensures BindingOf(PrintBinding(b)) == Some(b)
  {
    hide PrintNumber, BindingOf, AxisBinding, HalfOf, AllDigits, Value;
    var half := if b.input.Axis? then HalfOf(b) else Whole;
    UnsignedText(half, Letter(b), b.index, Suffix(b));
    if b.input.Hat? {
      assert Suffix(b)[1..] == PrintNumber(b.mask);
    }
  }

  lemma UnsignedIsCanonical(half: Half, kind: char, index: nat, rest: string)
    requires Unsigned(half, kind, index, rest).Some? && index <= MAX_NUMBER
    ensures var b := Unsigned(half, kind, index, rest).value; Canonical(b) && !b.input.Unbound?
  {
    AxisBindingReads(half, false, index);
    AxisBindingReads(half, true, index);
  }

  /** What the parser reads can be printed. */
  lemma ParsedBindingIsCanonical(text: string)
    requires BindingOf(text).Some?
    ensures Canonical(BindingOf(text).value) && !BindingOf(text).value.input.Unbound?
  {
    hide Canonical, Unsigned;
    var half := HalfOfText(text);
    var body := if half.Whole? then text else text[1..];
    var end := RunEnd(body, 1);
    UnsignedIsCanonical(half, body[0], Value(body[1..end]), body[end..]);
  }

  // ----- one mapping line -----

  const BUTTON_NAMES: seq<string> := [
    "a", "b", "x", "y", "leftshoulder", "rightshoulder", "back", "start", "guide", "leftstick", "rightstick",
    "dpup", "dpright", "dpdown", "dpleft"]

  const AXIS_NAMES: seq<string> := ["leftx", "lefty", "rightx", "righty", "lefttrigger", "righttrigger"]

  const RESERVED: seq<string> := ["platform", "type", "crc"]

  function IndexOf(names: seq<string>, key: string): (i: nat)
    ensures i <= |names| && (i < |names| ==> names[i] == key)
    ensures forall j :: 0 <= j < i ==> names[j] != key
  {
    if names == [] || names[0] == key then 0 else 1 + IndexOf(names[1..], key)
  }

  /** `find`: the first `c`, or the length. */
  function Find(text: string, c: char): (i: nat)
    ensures i <= |text| && (i < |text| ==> text[i] == c)
    ensures c !in text[..i]
  {
    if text == "" || text[0] == c then 0
    else
      var i := 1 + Find(text[1..], c);
      assert text[..i] == [text[0]] + text[1..][..i - 1];
      i
  }

  /** What is left of a text from a position on; nothing past its end. */
  function Rest(text: string, position: nat): string {
    if position <= |text| then text[position..] else ""
  }

  lemma RestEnds(text: string, position: nat)
    ensures position == 0 ==> Rest(text, position) == text
    ensures position >= |text| ==> Rest(text, position) == ""
  {
  }

  /** Reading on after the separator that ends a piece. */
  lemma RestSteps(text: string, position: nat, length: nat)
    requires position < |text| && length <= |text| - position
    ensures text[position..] == Rest(text, position) && |Rest(text, position)| == |text| - position
    ensures text[position..position + length] == Rest(text, position)[..length]
    ensures Rest(text, position + length + 1) == Rest(Rest(text, position), length + 1)
  {
  }

  predicate IsHex(c: char) { IsDigit(c) || 'a' <= c <= 'f' || 'A' <= c <= 'F' }

  predicate IsGuid(s: string) { |s| == 32 && forall i :: 0 <= i < 32 ==> IsHex(s[i]) }

  function Lower1(c: char): char { if 'A' <= c <= 'Z' then (c as int + 32) as char else c }

  function LowerCase(s: string): (r: string)
    ensures |r| == |s|
  {
    seq(|s|, i requires 0 <= i < |s| => Lower1(s[i]))
  }

  /** Lower-casing turns each capital of the alphabet into the small letter at its place, and nothing else. */
  lemma LowerCaseMeaning(s: string, i: nat)
    requires i < |s|
    ensures var r := LowerCase(s)[i];
            if exists k: nat :: k < 26 && s[i] == CAPITALS[k]
            then exists k: nat :: k < 26 && s[i] == CAPITALS[k] && r == SMALL[k] else r == s[i]
  {
    if 'A' <= s[i] <= 'Z' {
      var k := s[i] as int - 'A' as int;
      assert CAPITALS[k] == s[i] && SMALL[k] == LowerCase(s)[i];
    }
  }

  const CAPITALS := "ABCDEFGHIJKLMNOPQRSTUVWXYZ"
  const SMALL := "abcdefghijklmnopqrstuvwxyz"

  predicate Shaped(m: Mapping) { |m.buttons| == BUTTON_COUNT && |m.axes| == AXIS_COUNT }

  function Blank(guid: string, name: string): (m: Mapping)
    ensures Shaped(m)
  {
    Mapping(guid, name, "", seq(BUTTON_COUNT, _ => UNBOUND), seq(AXIS_COUNT, _ => UNBOUND))
  }

  function WithBinding(m: Mapping, key: string, b: Binding): (r: Option<Mapping>)
    requires Shaped(m)
    ensures r.Some? ==> Shaped(r.value)
  {
    var i, j := IndexOf(BUTTON_NAMES, key), IndexOf(AXIS_NAMES, key);
    if i < BUTTON_COUNT then Some(m.(buttons := m.buttons[i := b]))
    else if j < AXIS_COUNT then Some(m.(axes := m.axes[j := b]))
    else None
  }

  /** What one `key:value` field does to a mapping; None when the field is refused. */
  function WithField(m: Mapping, field: string): (r: Option<Mapping>)
    requires Shaped(m)
    ensures r.Some? ==> Shaped(r.value)
  {
    var colon := Find(field, ':');
    if colon == |field| then None
    else
      var key, value := field[..colon], field[colon + 1..];
      if key == "platform" then Some(m.(platform := value))
      else if key == "type" || key == "crc" then Some(m)
      else if BindingOf(value).None? then None
      else WithBinding(m, key, BindingOf(value).value)
  }

  /** The fields of `text`, separated by commas; a comma at the end adds none. */
  function WithFields(m: Mapping, text: string): (r: Option<Mapping>)
    requires Shaped(m)
    ensures r.Some? ==> Shaped(r.value)
    decreases |text|
  {
    if text == "" then Some(m)
    else
      var end := Find(text, ',');
      var next := WithField(m, text[..end]);
      if next.None? then None
      else WithFields(next.value, Rest(text, end + 1))
  }

  function MappingOf(text: string): (r: Option<Mapping>)
    ensures r.Some? ==> Shaped(r.value)
  {
    var first := Find(text, ',');
    if first == |text| || !IsGuid(text[..first]) then None
    else
      var rest := text[first + 1..];
      var second := Find(rest, ',');
      if second == |rest| || second == 0 then None
      else WithFields(Blank(LowerCase(text[..first]), rest[..second]), rest[second + 1..])
  }

  method ParseField(m: Mapping, field: string) returns (r: Option<Mapping>)
    requires Shaped(m)
    ensures r == WithField(m, field)
  {
    hide Find, BindingOf, WithBinding;
    var colon := Find(field, ':');
    if colon == |field| {
      return None;
    }
    var key, value := field[..colon], field[colon + 1..];
    if key == "platform" {
      return Some(m.(platform := value));
    }
    if key == "type" || key == "crc" {
      return Some(m);
    }
    var binding := ParseBinding(value);
    if binding.None? {
      return None;
    }
    r := PutBinding(m, key, binding.value);
  }

  method PutBinding(m: Mapping, key: string, b: Binding) returns (r: Option<Mapping>)
    requires Shaped(m)
    ensures r == WithBinding(m, key, b)
  {
    hide IndexOf;
    var button := IndexOf(BUTTON_NAMES, key);
    if button < |BUTTON_NAMES| {
      return Some(m.(buttons := m.buttons[button := b]));
    }
    var axis := IndexOf(AXIS_NAMES, key);
    if axis < |AXIS_NAMES| {
      return Some(m.(axes := m.axes[axis := b]));
    }
    return None;
  }

  method ParseFields(m: Mapping, text: string, from: nat) returns (r: Option<Mapping>)
    requires Shaped(m)
    ensures r == WithFields(m, Rest(text, from))
  {
    hide Find, WithField, Rest, Shaped;
    var parsed, position := m, from;
    while position < |text|
      invariant Shaped(parsed) && WithFields(m, Rest(text, from)) == WithFields(parsed, Rest(text, position))
    {
      var end := position + Find(text[position..], ',');
      RestSteps(text, position, end - position);
      var next := ParseField(parsed, text[position..end]);
      if next.None? {
        return None;
      }
      parsed := next.value;
      position := end + 1;
    }
    RestEnds(text, position);
    return Some(parsed);
  }

  /** `parse_mapping`. */
  method ParseMapping(text: string) returns (r: Option<Mapping>)
    ensures r == MappingOf(text)
  {
    hide Find, IsGuid, LowerCase, Blank, WithFields, Shaped;
    var first := Find(text, ',');
    if first == |text| || !IsGuid(text[..first]) {
      return None;
    }
    var second := first + 1 + Find(text[first + 1..], ',');
    if second == |text| || second == first + 1 {
      return None;
    }
    assert text[first + 1..second] == text[first + 1..][..second - first - 1];
    assert Rest(text, second + 1) == text[first + 1..][second - first..];
    r := ParseFields(Blank(LowerCase(text[..first]), text[first + 1..second]), text, second + 1);
  }

  // ----- printing a mapping line -----

  predicate Plain(s: string) { ',' !in s }

  /** Exactly the mappings that lines can describe: a lower-case GUID, a name, and canonical bindings. */
  predicate Printable(m: Mapping) {
    && IsGuid(m.guid) && LowerCase(m.guid) == m.guid
    && m.name != "" && Plain(m.name) && Plain(m.platform)
    && Shaped(m)
    && (forall i :: 0 <= i < BUTTON_COUNT ==> Canonical(m.buttons[i]))
    && (forall i :: 0 <= i < AXIS_COUNT ==> Canonical(m.axes[i]))
  }

  function PrintField(name: string, b: Binding): string {
    if b.input.Unbound? then "" else name + ":" + PrintBinding(b) + ","
  }

  /** Binding `i` of the buttons followed by the axes. */
  function At(m: Mapping, i: nat): Binding
    requires Shaped(m) && i < BUTTON_COUNT + AXIS_COUNT
  {
    if i < BUTTON_COUNT then m.buttons[i] else m.axes[i - BUTTON_COUNT]
  }

  /** The fields of the bindings from `i` on. */
  function PrintFields(m: Mapping, i: nat): string
    requires Shaped(m) && i <= BUTTON_COUNT + AXIS_COUNT
    decreases BUTTON_COUNT + AXIS_COUNT - i
  {
    if i == BUTTON_COUNT + AXIS_COUNT then "" else PrintField(NameAt(i), At(m, i)) + PrintFields(m, i + 1)
  }

  function PrintMapping(m: Mapping): string
    requires Shaped(m)
  {
    m.guid + "," + (m.name + "," + (PrintFields(m, 0) + ("platform:" + m.platform + ",")))
  }

  lemma FindIs(text: string, c: char, at: nat)
    requires at < |text| && text[at] == c && c !in text[..at]
    ensures Find(text, c) == at
  {
    var i := Find(text, c);
    assert forall j :: 0 <= j < at ==> text[j] == text[..at][j];
    assert forall j :: 0 <= j < i ==> text[j] == text[..i][j];
  }

  lemma FindAfter(left: string, c: char, right: string)
    requires c !in left
    ensures Find(left + [c] + right, c) == |left|
  {
    var text := left + [c] + right;
    assert text[..|left|] == left;
    FindIs(text, c, |left|);
  }

  /** A printed binding holds neither a comma nor a colon. */
  lemma PrintedBindingIsPlain(b: Binding)
    ensures Plain(PrintBinding(b))
  {
    forall n { DigitsArePlain(PrintNumber(n)); }
  }

  lemma DigitsArePlain(s: string)
    requires AllDigits(s)
    ensures Plain(s)
  {
  }

  /** Reading on after one printed field. */
  lemma FieldStep(m: Mapping, field: string, rest: string)
    requires Shaped(m) && Plain(field)
    ensures WithFields(m, field + "," + rest) ==
            (var next := WithField(m, field); if next.None? then None else WithFields(next.value, rest))
  {
    hide Find, WithField;
    var text := field + "," + rest;
    FindAfter(field, ',', rest);
    assert text[..|field|] == field && text[|field| + 1..] == rest;
  }

  /** The name of field `i` of the buttons followed by the axes. */
  function NameAt(i: nat): string
    requires i < BUTTON_COUNT + AXIS_COUNT
  {
    if i < BUTTON_COUNT then BUTTON_NAMES[i] else AXIS_NAMES[i - BUTTON_COUNT]
  }

  /** Length, first and last letter tell the field names apart: a button's rank is its index, the axes and the
      reserved names follow. */
  function Rank(name: string): int {
    if name == "" then -1
    else
      var first, last := name[0], name[|name| - 1];
      match |name|
      case 1 => if first == 'a' then 0 else if first == 'b' then 1 else if first == 'x' then 2 else 3
      case 3 => 23
      case 4 => if first == 'b' then 6 else if first == 'd' then 11 else 22
      case 5 => if first == 's' then 7 else if first == 'g' then 8 else if last == 'x' then 15 else 16
      case 6 => if last == 'n' then 13 else if last == 't' then 14 else if last == 'x' then 17 else 18
      case 7 => 12
      case 8 => 21
      case 9 => 9
      case 10 => 10
      case 11 => 19
      case 12 => if first == 'l' then 4 else 20
      case 13 => 5
      case _ => -1
  }

  lemma ButtonRank(i: nat)
    requires i < BUTTON_COUNT
    ensures Rank(BUTTON_NAMES[i]) == i
  {
  }

  lemma AxisRank(i: nat)
    requires i < AXIS_COUNT
    ensures Rank(AXIS_NAMES[i]) == BUTTON_COUNT + i
  {
  }

  lemma ReservedRank(i: nat)
    requires i < |RESERVED|
    ensures Rank(RESERVED[i]) == BUTTON_COUNT + AXIS_COUNT + i
  {
  }

  lemma NameHasNoSeparators(i: nat)
    requires i < BUTTON_COUNT + AXIS_COUNT
    ensures Plain(NameAt(i)) && ':' !in NameAt(i)
  {
    var name := NameAt(i);
    forall j | 0 <= j < |name| ensures 'a' <= name[j] <= 'z' {
    }
  }

  lemma IndexOfIs(names: seq<string>, i: nat)
    requires i < |names| && forall j :: 0 <= j < i ==> names[j] != names[i]
    ensures IndexOf(names, names[i]) == i
  {
  }

  /** A field's name leads the parser to its own entry and no other. */
  lemma NameLookup(i: nat)
    requires i < BUTTON_COUNT + AXIS_COUNT
    ensures NameAt(i) !in RESERVED
    ensures i < BUTTON_COUNT ==> IndexOf(BUTTON_NAMES, NameAt(i)) == i
    ensures i >= BUTTON_COUNT ==>
              IndexOf(BUTTON_NAMES, NameAt(i)) == BUTTON_COUNT && IndexOf(AXIS_NAMES, NameAt(i)) == i - BUTTON_COUNT
  {
    hide Rank;
    var name := NameAt(i);
    if i < BUTTON_COUNT { ButtonRank(i); } else { AxisRank(i - BUTTON_COUNT); }
    forall j | 0 <= j < BUTTON_COUNT && j != i ensures BUTTON_NAMES[j] != name { ButtonRank(j); }
    forall j | 0 <= j < AXIS_COUNT && BUTTON_COUNT + j != i ensures AXIS_NAMES[j] != name { AxisRank(j); }
    forall j | 0 <= j < |RESERVED| ensures RESERVED[j] != name { ReservedRank(j); }
    if i < BUTTON_COUNT {
      IndexOfIs(BUTTON_NAMES, i);
    } else {
      IndexOfIs(AXIS_NAMES, i - BUTTON_COUNT);
    }
  }

  /** Field `i` of the buttons followed by the axes. */
  function Put(m: Mapping, i: nat, b: Binding): Mapping
    requires Shaped(m) && i < BUTTON_COUNT + AXIS_COUNT
  {
    if i < BUTTON_COUNT then m.(buttons := m.buttons[i := b]) else m.(axes := m.axes[i - BUTTON_COUNT := b])
  }

  lemma PrintedFieldReads(m: Mapping, i: nat, b: Binding)
    requires Shaped(m) && i < BUTTON_COUNT + AXIS_COUNT && Canonical(b) && !b.input.Unbound?
    ensures var field := NameAt(i) + ":" + PrintBinding(b);
            Plain(field) && WithField(m, field) == Some(Put(m, i, b))
  {
    hide BindingOf, Canonical, Find, IndexOf, PrintBinding;
    var name, value := NameAt(i), PrintBinding(b);
    var field := name + ":" + value;
    NameHasNoSeparators(i);
    NameLookup(i);
    BindingRoundTrips(b);
    PrintedBindingIsPlain(b);
    FindAfter(name, ':', value);
    assert field[..|name|] == name && field[|name| + 1..] == value;
    assert "platform" == RESERVED[0] && "type" == RESERVED[1] && "crc" == RESERVED[2];
  }

  /** `done` holds the first `i` bindings of `m` and is otherwise unbound. */
  predicate UpTo(m: Mapping, done: Mapping, i: nat)
    requires Shaped(m) && Shaped(done)
  {
    forall j {:trigger At(done, j)} :: 0 <= j < BUTTON_COUNT + AXIS_COUNT ==>
      At(done, j) == if j < i then At(m, j) else UNBOUND
  }

  lemma PutMoves(m: Mapping, done: Mapping, i: nat)
    requires Shaped(m) && Shaped(done) && i < BUTTON_COUNT + AXIS_COUNT && UpTo(m, done, i)
    ensures UpTo(m, Put(done, i, At(m, i)), i + 1)
    ensures At(m, i) == UNBOUND ==> UpTo(m, done, i + 1)
  {
    forall j | 0 <= j < BUTTON_COUNT + AXIS_COUNT
      ensures At(Put(done, i, At(m, i)), j) == if j < i + 1 then At(m, j) else UNBOUND {
      assert At(done, j) == if j < i then At(m, j) else UNBOUND;
    }
  }

  lemma {:induction false} FieldsReadBack(m: Mapping, done: Mapping, i: nat, rest: string)
    requires Printable(m) && Shaped(done) && i <= BUTTON_COUNT + AXIS_COUNT && UpTo(m, done, i)
    ensures WithFields(done, PrintFields(m, i) + rest)
            == WithFields(done.(buttons := m.buttons, axes := m.axes), rest)
    decreases BUTTON_COUNT + AXIS_COUNT - i
  {
    hide WithFields, WithField, PrintBinding, PrintField, Canonical, UpTo, Put;
    if i == BUTTON_COUNT + AXIS_COUNT {
      UpToAll(m, done);
      assert "" + rest == rest;
    } else {
      hide At;
      var b, after := At(m, i), PrintFields(m, i + 1);
      var next := if b.input.Unbound? then done else Put(done, i, b);
      PutMoves(m, done, i);
      OneFieldReads(m, done, i, after + rest);
      PrintedFrom(m, i, rest);
      FieldsReadBack(m, next, i + 1, rest);
      PutThenAll(m, done, i);
    }
  }

  lemma PrintedFrom(m: Mapping, i: nat, rest: string)
    requires Shaped(m) && i < BUTTON_COUNT + AXIS_COUNT
    ensures PrintFields(m, i) + rest == PrintField(NameAt(i), At(m, i)) + (PrintFields(m, i + 1) + rest)
  {
    hide PrintField, NameAt, At;
    var field, after := PrintField(NameAt(i), At(m, i)), PrintFields(m, i + 1);
    assert field + after + rest == field + (after + rest);
  }

  lemma PutThenAll(m: Mapping, done: Mapping, i: nat)
    requires Shaped(m) && Shaped(done) && i < BUTTON_COUNT + AXIS_COUNT
    ensures Put(done, i, At(m, i)).(buttons := m.buttons, axes := m.axes) == done.(buttons := m.buttons, axes := m.axes)
  {
  }

  lemma UpToAll(m: Mapping, done: Mapping)
    requires Shaped(m) && Shaped(done) && UpTo(m, done, BUTTON_COUNT + AXIS_COUNT)
    ensures done.buttons == m.buttons && done.axes == m.axes
  {
    forall j | 0 <= j < BUTTON_COUNT ensures done.buttons[j] == m.buttons[j] { assert At(done, j) == At(m, j); }
    forall j | 0 <= j < AXIS_COUNT ensures done.axes[j] == m.axes[j] {
      assert At(done, BUTTON_COUNT + j) == At(m, BUTTON_COUNT + j);
    }
  }

  lemma OneFieldReads(m: Mapping, done: Mapping, i: nat, rest: string)
    requires Printable(m) && Shaped(done) && i < BUTTON_COUNT + AXIS_COUNT
    ensures var b := At(m, i);
            && Shaped(Put(done, i, b)) && (b.input.Unbound? ==> b == UNBOUND)
            && WithFields(done, PrintField(NameAt(i), b) + rest)
               == WithFields(if b.input.Unbound? then done else Put(done, i, b), rest)
  {
    hide WithFields, WithField, PrintBinding, Canonical;
    var b := At(m, i);
    assert Canonical(b);
    if b.input.Unbound? {
      UnboundIs(b);
      assert "" + rest == rest;
    } else {
      var field := NameAt(i) + ":" + PrintBinding(b);
      PrintedFieldReads(done, i, b);
      assert PrintField(NameAt(i), b) + rest == field + "," + rest;
      FieldStep(done, field, rest);
    }
  }

  lemma UnboundIs(b: Binding)
    requires Canonical(b) && b.input.Unbound?
    ensures b == UNBOUND
  {
  }

  lemma PlatformReads(m: Mapping, platform: string)
    requires Shaped(m) && Plain(platform)
    ensures WithFields(m, "platform:" + platform + ",") == Some(m.(platform := platform))
  {
    var field := "platform:" + platform;
    FindAfter("platform", ':', platform);
    assert field == "platform" + ":" + platform;
    assert field[..8] == "platform" && field[9..] == platform;
    FieldStep(m, field, "");
    assert field + "," + "" == field + ",";
  }

  lemma BlankIsUpTo(m: Mapping, guid: string, name: string)
    requires Shaped(m)
    ensures UpTo(m, Blank(guid, name), 0)
  {
  }

  lemma GuidIsPlain(guid: string)
    requires IsGuid(guid)
    ensures Plain(guid)
  {
  }

  /** Parsing inverts printing, for every mapping a line can describe. */
  lemma MappingRoundTrips(m: Mapping)
    requires Printable(m)
    ensures MappingOf(PrintMapping(m)) == Some(m)
  {
    hide WithFields, PrintFields, Blank, Find, LowerCase, IsGuid, Canonical;
    var tail := "platform:" + m.platform + ",";
    var fields := PrintFields(m, 0) + tail;
    var rest := m.name + "," + fields;
    var text := PrintMapping(m);
    GuidIsPlain(m.guid);
    FindAfter(m.guid, ',', rest);
    FindAfter(m.name, ',', fields);
    assert text == m.guid + "," + rest;
    assert text[..|m.guid|] == m.guid && text[|m.guid| + 1..] == rest;
    assert rest[..|m.name|] == m.name && rest[|m.name| + 1..] == fields;
    var blank := Blank(m.guid, m.name);
    BlankIsUpTo(m, m.guid, m.name);
    FieldsReadBack(m, blank, 0, tail);
    PlatformReads(blank.(buttons := m.buttons, axes := m.axes), m.platform);
    BlankHeads(m.guid, m.name);
  }

  lemma BlankHeads(guid: string, name: string)
    ensures Blank(guid, name).guid == guid && Blank(guid, name).name == name && Blank(guid, name).platform == ""
  {
  }

  // ----- what the parser accepts -----

  lemma LowerCaseGuid(guid: string)
    requires IsGuid(guid)
    ensures IsGuid(LowerCase(guid)) && LowerCase(LowerCase(guid)) == LowerCase(guid)
  {
  }

  lemma FieldKeepsPrintable(m: Mapping, field: string)
    requires Printable(m) && Plain(field) && WithField(m, field).Some?
    ensures Printable(WithField(m, field).value)
  {
    hide Canonical, BindingOf, IsGuid, LowerCase;
    var colon := Find(field, ':');
    var value := field[colon + 1..];
    if BindingOf(value).Some? {
      ParsedBindingIsCanonical(value);
    }
  }

  lemma {:induction false} FieldsKeepPrintable(m: Mapping, text: string)
    requires Shaped(m) && Printable(m) && WithFields(m, text).Some?
    ensures Printable(WithFields(m, text).value)
    decreases |text|
  {
    hide Printable, WithField;
    if text != "" {
      var end := Find(text, ',');
      FieldKeepsPrintable(m, text[..end]);
      FieldsKeepPrintable(WithField(m, text[..end]).value, Rest(text, end + 1));
    }
  }

  lemma BlankIsPrintable(guid: string, name: string)
    requires IsGuid(guid) && LowerCase(guid) == guid && name != "" && Plain(name)
    ensures Printable(Blank(guid, name))
  {
  }

  lemma ParsedIsPrintable(text: string)
    requires MappingOf(text).Some?
    ensures Printable(MappingOf(text).value)
  {
    hide WithFields, Printable, IsGuid, LowerCase, Blank;
    var first := Find(text, ',');
    var rest := text[first + 1..];
    var second := Find(rest, ',');
    LowerCaseGuid(text[..first]);
    BlankIsPrintable(LowerCase(text[..first]), rest[..second]);
    FieldsKeepPrintable(Blank(LowerCase(text[..first]), rest[..second]), rest[second + 1..]);
  }

  /** The mappings that some line describes are exactly the printable ones, and printing what was parsed gives a
      line that describes the same mapping. */
  lemma LinesDescribeExactlyPrintable(m: Mapping)
    ensures (exists text :: MappingOf(text) == Some(m)) <==> Printable(m)
    ensures Printable(m) ==> MappingOf(PrintMapping(m)) == Some(m)
  {
    hide MappingOf, Printable, PrintMapping;
    if text :| MappingOf(text) == Some(m) {
      ParsedIsPrintable(text);
    }
    if Printable(m) {
      MappingRoundTrips(m);
    }
  }
}
