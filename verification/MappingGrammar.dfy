/** Which bindings, fields, lines and databases the mapping parser accepts, and what it makes of them. */
module MappingGrammar {
  import opened MappingText
  import opened GamepadMapping
  import opened Options

  // ----- bindings -----

  /** How a binding is written: digits may have leading zeros, and any kind may carry a sign. */
  datatype Spelling =
    | SpelledAxis(half: Half, digits: string, inverted: bool)
    | SpelledButton(half: Half, digits: string)
    | SpelledHat(half: Half, digits: string, mask: string)

  function TextOf(s: Spelling): string {
    match s
    case SpelledAxis(half, digits, inverted) => Sign(half) + "a" + digits + if inverted then "~" else ""
    case SpelledButton(half, digits) => Sign(half) + "b" + digits + ""
    case SpelledHat(half, digits, mask) => Sign(half) + "h" + digits + ("." + mask)
  }

  predicate SpellingOk(s: Spelling) {
    && s.digits != "" && AllDigits(s.digits) && Value(s.digits) <= 65535
    && (s.SpelledHat? ==> s.mask != "" && AllDigits(s.mask) && Value(s.mask) <= 255)
  }

  /** What it binds: only an axis looks at its sign. */
  function MeaningOf(s: Spelling): Binding
    requires SpellingOk(s)
  {
    match s
    case SpelledAxis(half, digits, inverted) => AxisBinding(half, inverted, Value(digits))
    case SpelledButton(_, digits) => Binding(Button, Value(digits), 0, 1.0, 0.0)
    case SpelledHat(_, digits, mask) => Binding(Hat, Value(digits), Value(mask), 1.0, 0.0)
  }

  lemma NumberedText(half: Half, kind: char, digits: string, rest: string)
    requires kind != '+' && kind != '-' && digits != "" && AllDigits(digits) && Value(digits) <= 65535
    requires rest == "" || !IsDigit(rest[0])
    ensures BindingOf(Sign(half) + [kind] + digits + rest) == Unsigned(half, kind, Value(digits), rest)
  {
    hide Unsigned, Value, RunEnd, AllDigits;
    SignedText(half, kind, digits, rest);
    var body := [kind] + digits + rest;
    assert body[1..] == digits + rest;
    RunEndIs(body, 1, digits, rest);
    assert body[1..1 + |digits|] == digits && body[1 + |digits|..] == rest;
  }

  lemma SpellingReads(s: Spelling)
    requires SpellingOk(s)
    ensures BindingOf(TextOf(s)) == Some(MeaningOf(s))
  {
    hide BindingOf, AxisBinding, Value, AllDigits;
    match s
    case SpelledAxis(half, digits, inverted) => NumberedText(half, 'a', digits, if inverted then "~" else "");
    case SpelledButton(half, digits) => NumberedText(half, 'b', digits, "");
    case SpelledHat(half, digits, mask) =>
      NumberedText(half, 'h', digits, "." + mask);
      assert ("." + mask)[1..] == mask;
  }

  /** The parts the parser takes a binding for. */
  lemma Parts(text: string) returns (half: Half, kind: char, digits: string, rest: string)
    requires BindingOf(text).Some?
    ensures text == Sign(half) + ([kind] + digits + rest)
    ensures digits != "" && AllDigits(digits) && Value(digits) <= 65535
    ensures Unsigned(half, kind, Value(digits), rest).Some?
  {
    hide Value, AllDigits, RunEnd, Unsigned;
    half := HalfOfText(text);
    var body := if half.Whole? then text else text[1..];
    var end := RunEnd(body, 1);
    kind, digits, rest := body[0], body[1..end], body[end..];
    CutInThree(body, end);
    SignIsCut(text);
  }

  lemma CutInThree(s: string, at: nat)
    requires 1 <= at <= |s|
    ensures [s[0]] + s[1..at] + s[at..] == s
  {
  }

  lemma SignIsCut(text: string)
    ensures var half := HalfOfText(text);
            text == Sign(half) + if half.Whole? then text else text[1..]
  {
  }

  lemma TextIsSpelled(text: string) returns (s: Spelling)
    requires BindingOf(text).Some?
    ensures SpellingOk(s) && TextOf(s) == text
  {
    hide Value, AllDigits, BindingOf, AxisBinding, Sign;
    var half, kind, digits, rest := Parts(text);
    if kind == 'a' {
      s := SpelledAxis(half, digits, rest == "~");
    } else if kind == 'b' {
      s := SpelledButton(half, digits);
    } else {
      s := SpelledHat(half, digits, rest[1..]);
      assert rest == "." + rest[1..];
    }
    Regrouped(Sign(half), [kind], digits, rest);
  }

  lemma Regrouped(a: string, b: string, c: string, d: string)
    ensures a + (b + c + d) == a + b + c + d
  {
  }

  /** A text is a binding if and only if it is one of these spellings, and then it has that meaning. */
  lemma BindingsExactly(text: string)
    ensures BindingOf(text).Some? <==> exists s :: SpellingOk(s) && TextOf(s) == text
    ensures forall s :: SpellingOk(s) && TextOf(s) == text ==> BindingOf(text) == Some(MeaningOf(s))
  {
    hide BindingOf, SpellingOk, TextOf, MeaningOf;
    if BindingOf(text).Some? {
      var s := TextIsSpelled(text);
    }
    forall s | SpellingOk(s) && TextOf(s) == text ensures BindingOf(text) == Some(MeaningOf(s)) {
      SpellingReads(s);
    }
  }

  // ----- fields -----

  datatype Field = Field(key: string, value: string)

  /** Fields as they stand in a line. */
  predicate FieldOk(f: Field) {
    Plain(f.key) && ':' !in f.key && Plain(f.value)
  }

  function FieldText(f: Field): string {
    f.key + ":" + f.value
  }

  function FieldsText(fields: seq<Field>): string {
    if fields == [] then "" else FieldText(fields[0]) + "," + FieldsText(fields[1..])
  }

  predicate IsName(key: string) {
    exists i :: 0 <= i < BUTTON_COUNT + AXIS_COUNT && NameAt(i) == key
  }

  /** `platform`, `type` and `crc` take any value, a button or an axis takes a binding, anything else is refused. */
  predicate FieldAccepted(f: Field) {
    f.key in ["platform", "type", "crc"] || (IsName(f.key) && BindingOf(f.value).Some?)
  }

  /** The value of the last field with this key, or `before`. */
  function LastValue(fields: seq<Field>, key: string, before: string): string {
    if fields == [] then before
    else LastValue(fields[1..], key, if fields[0].key == key then fields[0].value else before)
  }

  function LastBinding(fields: seq<Field>, key: string, before: Binding): Binding {
    if fields == [] then before
    else LastBinding(fields[1..], key, if fields[0].key == key then Bound(fields[0].value, before) else before)
  }

  function Bound(value: string, before: Binding): Binding {
    if BindingOf(value).Some? then BindingOf(value).value else before
  }

  /** `r` is `m` with these fields: the last value of each key counts, and nothing else changes. */
  ghost predicate Holds(m: Mapping, fields: seq<Field>, r: Mapping) {
    && Shaped(m) && Shaped(r) && r.guid == m.guid && r.name == m.name
    && r.platform == LastValue(fields, "platform", m.platform)
    && forall i {:trigger At(r, i)} :: 0 <= i < BUTTON_COUNT + AXIS_COUNT ==>
         At(r, i) == LastBinding(fields, NameAt(i), At(m, i))
  }

  lemma NamesDiffer(i: nat, j: nat)
    requires i < BUTTON_COUNT + AXIS_COUNT && j < BUTTON_COUNT + AXIS_COUNT && NameAt(i) == NameAt(j)
    ensures i == j
  {
    hide IndexOf, NameAt;
    NameLookup(i);
    NameLookup(j);
  }

  /** A key that names nothing is found in neither list. */
  lemma UnknownName(key: string)
    requires !IsName(key)
    ensures IndexOf(BUTTON_NAMES, key) == BUTTON_COUNT && IndexOf(AXIS_NAMES, key) == AXIS_COUNT
  {
    forall i | 0 <= i < BUTTON_COUNT ensures BUTTON_NAMES[i] != key {
      assert NameAt(i) == BUTTON_NAMES[i];
    }
    forall j | 0 <= j < AXIS_COUNT ensures AXIS_NAMES[j] != key {
      assert NameAt(BUTTON_COUNT + j) == AXIS_NAMES[j];
    }
  }

  lemma FieldReads(m: Mapping, f: Field)
    requires Shaped(m) && FieldOk(f)
    ensures WithField(m, FieldText(f)).Some? <==> FieldAccepted(f)
    ensures f.key == "platform" ==> WithField(m, FieldText(f)) == Some(m.(platform := f.value))
    ensures f.key == "type" || f.key == "crc" ==> WithField(m, FieldText(f)) == Some(m)
    ensures forall i :: 0 <= i < BUTTON_COUNT + AXIS_COUNT && NameAt(i) == f.key && BindingOf(f.value).Some? ==>
              WithField(m, FieldText(f)) == Some(Put(m, i, BindingOf(f.value).value))
  {
    hide BindingOf, Find, IndexOf, NameAt;
    FindAfter(f.key, ':', f.value);
    assert FieldText(f)[..|f.key|] == f.key && FieldText(f)[|f.key| + 1..] == f.value;
    assert RESERVED == ["platform", "type", "crc"];
    if IsName(f.key) {
      var i :| 0 <= i < BUTTON_COUNT + AXIS_COUNT && NameAt(i) == f.key;
      NameLookup(i);
      forall j | 0 <= j < BUTTON_COUNT + AXIS_COUNT && NameAt(j) == f.key ensures i == j {
        NamesDiffer(i, j);
      }
    } else {
      UnknownName(f.key);
    }
  }

  lemma PutAt(m: Mapping, k: nat, b: Binding, i: nat)
    requires Shaped(m) && k < BUTTON_COUNT + AXIS_COUNT && i < BUTTON_COUNT + AXIS_COUNT
    ensures var n := Put(m, k, b);
            && Shaped(n) && n.guid == m.guid && n.name == m.name && n.platform == m.platform
            && At(n, i) == if i == k then b else At(m, i)
  {
  }

  lemma ReservedHolds(m: Mapping, f: Field, fields: seq<Field>, r: Mapping)
    requires Shaped(m) && f.key in ["platform", "type", "crc"]
    requires Holds(if f.key == "platform" then m.(platform := f.value) else m, fields, r)
    ensures Holds(m, [f] + fields, r)
  {
    hide BindingOf, NameAt, LastBinding, LastValue, IndexOf;
    FirstField(f, fields, "platform", m.platform, UNBOUND);
    assert RESERVED == ["platform", "type", "crc"];
    forall i | 0 <= i < BUTTON_COUNT + AXIS_COUNT
      ensures At(r, i) == LastBinding([f] + fields, NameAt(i), At(m, i))
    {
      NameLookup(i);
      FirstField(f, fields, NameAt(i), "", At(m, i));
    }
  }

  lemma NamedHolds(m: Mapping, k: nat, f: Field, fields: seq<Field>, r: Mapping)
    requires Shaped(m) && k < BUTTON_COUNT + AXIS_COUNT && NameAt(k) == f.key && BindingOf(f.value).Some?
    requires Holds(Put(m, k, BindingOf(f.value).value), fields, r)
    ensures Holds(m, [f] + fields, r)
  {
    hide BindingOf, NameAt, LastBinding, LastValue, IndexOf, Put, At;
    var b := BindingOf(f.value).value;
    NameLookup(k);
    assert RESERVED == ["platform", "type", "crc"];
    PutAt(m, k, b, k);
    FirstField(f, fields, "platform", m.platform, UNBOUND);
    forall i | 0 <= i < BUTTON_COUNT + AXIS_COUNT
      ensures At(r, i) == LastBinding([f] + fields, NameAt(i), At(m, i))
    {
      if NameAt(i) == f.key { NamesDiffer(i, k); }
      FirstField(f, fields, NameAt(i), "", At(m, i));
      PutAt(m, k, b, i);
      assert At(r, i) == LastBinding(fields, NameAt(i), At(Put(m, k, b), i));
    }
  }

  lemma FieldHolds(m: Mapping, f: Field, fields: seq<Field>, r: Mapping)
    requires Shaped(m) && FieldOk(f) && FieldAccepted(f)
    requires WithField(m, FieldText(f)).Some? && Holds(WithField(m, FieldText(f)).value, fields, r)
    ensures Holds(m, [f] + fields, r)
  {
    hide BindingOf, WithField, NameAt, Holds, Put;
    FieldReads(m, f);
    if f.key in ["platform", "type", "crc"] {
      ReservedHolds(m, f, fields, r);
    } else {
      var k :| 0 <= k < BUTTON_COUNT + AXIS_COUNT && NameAt(k) == f.key;
      NamedHolds(m, k, f, fields, r);
    }
  }

  lemma FirstField(f: Field, fields: seq<Field>, key: string, platform: string, b: Binding)
    ensures LastValue([f] + fields, key, platform) ==
            LastValue(fields, key, if f.key == key then f.value else platform)
    ensures LastBinding([f] + fields, key, b) ==
            LastBinding(fields, key, if f.key == key then Bound(f.value, b) else b)
  {
    hide Bound;
    assert ([f] + fields)[1..] == fields;
  }

  predicate AllAccepted(fields: seq<Field>) {
    forall k :: 0 <= k < |fields| ==> FieldAccepted(fields[k])
  }

  lemma AcceptedOneByOne(fields: seq<Field>)
    requires fields != []
    ensures AllAccepted(fields) <==> FieldAccepted(fields[0]) && AllAccepted(fields[1..])
  {
    hide FieldAccepted;
    assert forall k :: 0 < k < |fields| ==> fields[k] == fields[1..][k - 1];
  }

  /** Fields are read exactly if each is accepted; the last one with a name decides its binding. */
  lemma {:induction false} FieldsExactly(m: Mapping, fields: seq<Field>)
    requires Shaped(m) && forall k :: 0 <= k < |fields| ==> FieldOk(fields[k])
    ensures WithFields(m, FieldsText(fields)).Some? <==> AllAccepted(fields)
    ensures WithFields(m, FieldsText(fields)).Some? ==> Holds(m, fields, WithFields(m, FieldsText(fields)).value)
    decreases |fields|
  {
    if fields == [] {
      NoFields(m);
    } else {
      hide WithFields, WithField, FieldAccepted, AllAccepted, Holds, FieldText, Shaped, FieldOk;
      var f, rest := fields[0], fields[1..];
      FieldIsPlain(f);
      FieldStep(m, FieldText(f), FieldsText(rest));
      FieldReads(m, f);
      AcceptedOneByOne(fields);
      if FieldAccepted(f) {
        FieldsExactly(WithField(m, FieldText(f)).value, rest);
        if WithFields(m, FieldsText(fields)).Some? {
          FieldHolds(m, f, rest, WithFields(m, FieldsText(fields)).value);
          assert fields == [f] + rest;
        }
      }
    }
  }

  lemma NoFields(m: Mapping)
    requires Shaped(m)
    ensures WithFields(m, "") == Some(m) && Holds(m, [], m)
  {
  }

  lemma FieldIsPlain(f: Field)
    requires FieldOk(f)
    ensures Plain(FieldText(f))
  {
  }

  lemma FindBeforeEnd(text: string, c: char)
    ensures Find(text + [c], c) == Find(text, c)
  {
    var i := Find(text, c);
    assert (text + [c])[..i] == text[..i];
    FindIs(text + [c], c, i);
  }

  /** A text with one more character, cut at a place before it. */
  lemma CutLonger(text: string, c: char, at: nat)
    ensures at <= |text| ==> (text + [c])[..at] == text[..at]
    ensures at < |text| ==> Rest(text + [c], at + 1) == Rest(text, at + 1) + [c]
    ensures at == |text| ==> Rest(text + [c], at + 1) == Rest(text, at + 1) == ""
  {
  }

  lemma FieldsUnfold(m: Mapping, text: string)
    requires Shaped(m) && text != ""
    ensures var end := Find(text, ',');
            WithFields(m, text) ==
            var next := WithField(m, text[..end]);
            if next.None? then None else WithFields(next.value, Rest(text, end + 1))
  {
    hide Find, WithField, Rest;
  }

  lemma TailEnds(text: string, at: nat)
    requires at < |text| - 1
    ensures Rest(text, at + 1) != "" && Rest(text, at + 1)[|Rest(text, at + 1)| - 1] == text[|text| - 1]
    ensures |Rest(text, at + 1)| < |text|
  {
  }

  /** The comma behind the last field may be missing. */
  lemma {:induction false} LastCommaIsOptional(m: Mapping, text: string)
    requires Shaped(m) && text != "" && text[|text| - 1] != ','
    ensures WithFields(m, text) == WithFields(m, text + ",")
    decreases |text|
  {
    hide Find, WithField, WithFields, Shaped, Rest;
    var end := Find(text, ',');
    FindBeforeEnd(text, ',');
    CutLonger(text, ',', end);
    FieldsUnfold(m, text);
    FieldsUnfold(m, text + ",");
    if end < |text| && WithField(m, text[..end]).Some? {
      TailEnds(text, end);
      LastCommaIsOptional(WithField(m, text[..end]).value, Rest(text, end + 1));
    }
  }

  // ----- lines -----

  /** A line of this GUID, name and fields is a mapping exactly if GUID, name and fields are in order. */
  lemma LineExactly(guid: string, name: string, fields: seq<Field>)
    requires Plain(guid) && Plain(name) && forall k :: 0 <= k < |fields| ==> FieldOk(fields[k])
    ensures var r := MappingOf(guid + "," + (name + "," + FieldsText(fields)));
            && (r.Some? <==> IsGuid(guid) && name != "" && AllAccepted(fields))
            && (r.Some? ==> Holds(Blank(LowerCase(guid), name), fields, r.value))
  {
    hide WithFields, Blank, Find, LowerCase, IsGuid, AllAccepted, Holds, FieldsText;
    var rest := name + "," + FieldsText(fields);
    var text := guid + "," + rest;
    FindAfter(guid, ',', rest);
    FindAfter(name, ',', FieldsText(fields));
    assert text[..|guid|] == guid && text[|guid| + 1..] == rest;
    assert rest[..|name|] == name && rest[|name| + 1..] == FieldsText(fields);
    FieldsExactly(Blank(LowerCase(guid), name), fields);
  }

  // ----- databases -----

  /** A line with its end: CR LF or LF. */
  datatype Line = Line(text: string, crlf: bool)

  predicate LineOk(line: Line) {
    '\n' !in line.text && (line.text != "" ==> line.text[|line.text| - 1] != '\r')
  }

  function LineText(line: Line): string {
    line.text + if line.crlf then "\r" else ""
  }

  function DatabaseText(lines: seq<Line>): string {
    if lines == [] then "" else LineText(lines[0]) + "\n" + DatabaseText(lines[1..])
  }

  predicate IsComment(line: string) {
    line == "" || line[0] == '#'
  }

  predicate LineAccepted(line: string) {
    IsComment(line) || MappingOf(line).Some?
  }

  /** The mapping of an accepted line, if it is one and names no platform or this one. */
  function MappingsIn(line: string, platform: string): seq<Mapping> {
    if IsComment(line) || MappingOf(line).None? then []
    else if MappingOf(line).value.platform in ["", platform] then [MappingOf(line).value]
    else []
  }

  function MappingsOf(lines: seq<Line>, platform: string): seq<Mapping> {
    if lines == [] then [] else MappingsIn(lines[0].text, platform) + MappingsOf(lines[1..], platform)
  }

  lemma LineReads(line: string, platform: string)
    ensures LineOf(line, platform) == if LineAccepted(line) then Some(MappingsIn(line, platform)) else None
  {
    hide MappingOf;
  }

  lemma OneLine(line: Line, rest: string, platform: string)
    requires LineOk(line)
    ensures DatabaseOf(LineText(line) + "\n" + rest, platform) ==
            Both(LineOf(line.text, platform), DatabaseOf(rest, platform))
  {
    hide Find, LineOf, Both;
    var text := LineText(line) + "\n" + rest;
    assert '\n' !in LineText(line);
    FindAfter(LineText(line), '\n', rest);
    assert text[..|LineText(line)|] == LineText(line) && text[|LineText(line)| + 1..] == rest;
    assert WithoutReturn(LineText(line)) == line.text;
  }

  /** A database is accepted exactly if every line is empty, a comment or a mapping, and then yields the mappings that
      name no platform or this one, in order. */
  lemma {:induction false} DatabaseExactly(lines: seq<Line>, platform: string)
    requires forall k :: 0 <= k < |lines| ==> LineOk(lines[k])
    ensures DatabaseOf(DatabaseText(lines), platform) ==
            if forall k :: 0 <= k < |lines| ==> LineAccepted(lines[k].text)
            then Some(MappingsOf(lines, platform)) else None
    decreases |lines|
  {
    if lines != [] {
      hide DatabaseOf, LineAccepted, MappingsIn, LineOf;
      var rest := lines[1..];
      DatabaseExactly(rest, platform);
      OneLine(lines[0], DatabaseText(rest), platform);
      LineReads(lines[0].text, platform);
      AcceptedLineByLine(lines);
    }
  }

  lemma AcceptedLineByLine(lines: seq<Line>)
    requires lines != []
    ensures (forall k :: 0 <= k < |lines| ==> LineAccepted(lines[k].text)) <==>
            && LineAccepted(lines[0].text)
            && forall k :: 0 <= k < |lines[1..]| ==> LineAccepted(lines[1..][k].text)
  {
    hide LineAccepted;
    assert forall k :: 0 < k < |lines| ==> lines[k] == lines[1..][k - 1];
  }

  /** The newline behind the last line may be missing. */
  lemma {:induction false} LastNewlineIsOptional(text: string, platform: string)
    ensures DatabaseOf(text, platform) == DatabaseOf(text + "\n", platform)
    decreases |text|
  {
    hide Find, LineOf, WithoutReturn;
    var end := Find(text, '\n');
    FindBeforeEnd(text, '\n');
    CutLonger(text, '\n', end);
    if text == "" {
      EmptyLine(platform);
    } else if end < |text| {
      LastNewlineIsOptional(Rest(text, end + 1), platform);
    }
  }

  lemma EmptyLine(platform: string)
    ensures DatabaseOf("\n", platform) == DatabaseOf("", platform) && "" + "\n" == "\n"
  {
    assert Find("\n", '\n') == 0;
    assert Rest("\n", 1) == "" && "\n"[..0] == "";
    BothWithNothing(Some([]));
  }
}
