/** Masking passes over source text: parts of it become spaces, every newline stays where it is. */
module SourceMask {
  import opened Options

  function Blank1(c: char): char { if c == '\n' then '\n' else ' ' }

  function Blanked(s: string): (r: string)
    ensures |r| == |s| && forall k :: 0 <= k < |s| ==> r[k] == Blank1(s[k])
  {
    seq(|s|, k requires 0 <= k < |s| => Blank1(s[k]))
  }

  /** `out` is `source` with some characters, but no newline, turned into spaces. */
  predicate Masks(out: string, source: string) {
    |out| == |source| && forall k :: 0 <= k < |source| ==> out[k] == source[k] || out[k] == Blank1(source[k])
  }

  function Newlines(s: string): nat {
    if s == "" then 0 else (if s[0] == '\n' then 1 else 0) + Newlines(s[1..])
  }

  /** Line numbers read off a masked text are those of the source. */
  lemma {:induction false} MaskKeepsLineNumbers(out: string, source: string, at: nat)
    requires Masks(out, source) && at <= |source|
    ensures Newlines(out[..at]) == Newlines(source[..at])
    decreases at
  {
    if at > 0 {
      assert out[..at][0] == out[0] && source[..at][0] == source[0];
      assert Masks(out[1..], source[1..]);
      MaskKeepsLineNumbers(out[1..], source[1..], at - 1);
      assert out[..at][1..] == out[1..][..at - 1] && source[..at][1..] == source[1..][..at - 1];
    }
  }

  lemma MasksCompose(a: string, b: string, c: string)
    requires Masks(a, b) && Masks(b, c)
    ensures Masks(a, c)
  {
  }

  // ----- branches that a build without exceptions never compiles -----

  /** What the scan sees of a line: for `if` and `elif`, `known` is the condition when it is decided by the
      option alone. */
  datatype Line =
    | Text(text: string)
    | If(text: string, known: Option<bool>)
    | Elif(text: string, known: Option<bool>)
    | Else(text: string)
    | Endif(text: string)

  datatype Frame = Frame(parentActive: bool, branchTaken: Option<bool>)

  datatype Scan = Scan(active: bool, stack: seq<Frame>)

  function ScanLine(s: Scan, line: Line): Scan {
    match line
    case Text(_) => s
    case If(_, known) => Scan(s.active && known != Some(false), s.stack + [Frame(s.active, known)])
    case _ =>
      if s.stack == [] then s
      else
        var top := |s.stack| - 1;
        var f := s.stack[top];
        match line
        case Elif(_, known) =>
          if f.branchTaken == Some(true) then s.(active := false)
          else if f.branchTaken == None then s.(active := f.parentActive)
          else Scan(f.parentActive && known != Some(false), s.stack[top := f.(branchTaken := known)])
        case Else(_) =>
          Scan(f.parentActive && f.branchTaken != Some(true), s.stack[top := f.(branchTaken := Some(true))])
        case _ => Scan(f.parentActive, s.stack[..top])
  }

  function ScanAll(lines: seq<Line>): Scan {
    if lines == [] then Scan(true, []) else ScanLine(ScanAll(lines[..|lines| - 1]), lines[|lines| - 1])
  }

  // ----- the preprocessor -----

  /** What the preprocessor itself takes a line for. */
  datatype Directive = NoDirective | Opens | Continues | Alternative | Closes

  /** What the scan takes it for. */
  function DirectiveOf(line: Line): Directive {
    match line
    case Text(_) => NoDirective
    case If(_, _) => Opens
    case Elif(_, _) => Continues
    case Else(_) => Alternative
    case Endif(_) => Closes
  }

  /** `taken` says whether a group of this conditional has been selected, `closed` that its `else` has passed. */
  datatype Group = Group(parentActive: bool, taken: bool, closed: bool)

  datatype Real = Real(active: bool, groups: seq<Group>)

  /** A build fixes what every condition is worth: `truth[i]` for line `i`. The result is None once a directive
      has no conditional to belong to. */
  function RealLine(r: Real, directive: Directive, truth: bool): Option<Real> {
    if directive.NoDirective? then Some(r)
    else if directive.Opens? then Some(Real(r.active && truth, r.groups + [Group(r.active, truth, false)]))
    else if r.groups == [] then None
    else
      var top := |r.groups| - 1;
      var g := r.groups[top];
      if directive.Closes? then Some(Real(g.parentActive, r.groups[..top]))
      else if g.closed then None
      else if directive.Alternative? then
        Some(Real(g.parentActive && !g.taken, r.groups[top := g.(taken := true, closed := true)]))
      else Some(Real(g.parentActive && !g.taken && truth, r.groups[top := g.(taken := g.taken || truth)]))
  }

  function RealAll(directives: seq<Directive>, truth: seq<bool>): Option<Real>
    requires |truth| >= |directives|
  {
    if directives == [] then Some(Real(true, []))
    else
      var r := RealAll(directives[..|directives| - 1], truth);
      if r.None? then None else RealLine(r.value, directives[|directives| - 1], truth[|directives| - 1])
  }

  /** The preprocessor evaluates this line's condition. */
  predicate Evaluates(r: Real, directive: Directive) {
    || (directive.Opens? && r.active)
    || (directive.Continues? && r.groups != [] && var g := r.groups[|r.groups| - 1]; g.parentActive && !g.taken)
  }

  /** One source text for one build: what the scan sees, what the preprocessor sees, and what the conditions are
      worth. */
  datatype Build = Build(lines: seq<Line>, directives: seq<Directive>, truth: seq<bool>)

  predicate Complete(b: Build) {
    |b.lines| == |b.directives| == |b.truth|
  }

  function RealBefore(b: Build, i: nat): Option<Real>
    requires Complete(b) && i <= |b.lines|
  {
    RealAll(b.directives[..i], b.truth)
  }

  /** The preprocessor compiles line `i`: no directive, in a group that is kept, all before it properly nested. */
  predicate Compiles(b: Build, i: nat)
    requires Complete(b) && i < |b.lines|
  {
    b.directives[i].NoDirective? && RealBefore(b, i).Some? && RealBefore(b, i).value.active
  }

  /** Up to line `i` the scan's regular expression tells directives as the preprocessor does. */
  predicate AgreesUpTo(b: Build, i: nat)
    requires Complete(b) && i < |b.lines|
  {
    forall k :: 0 <= k <= i ==> DirectiveOf(b.lines[k]) == b.directives[k]
  }

  /** Conditions the option decides are worth what the scan says, wherever the preprocessor evaluates them. */
  predicate RightAt(b: Build, k: nat)
    requires Complete(b) && k < |b.lines|
  {
    (&& RealBefore(b, k).Some? && Evaluates(RealBefore(b, k).value, b.directives[k])
     && (b.lines[k].If? || b.lines[k].Elif?) && b.lines[k].known.Some?)
    ==> b.lines[k].known.value == b.truth[k]
  }

  ghost predicate RightUpTo(b: Build, i: nat)
    requires Complete(b) && i <= |b.lines|
  {
    forall k :: 0 <= k < i ==> RightAt(b, k)
  }

  // ----- soundness -----

  predicate FrameSound(f: Frame, g: Group) {
    g.parentActive ==> f.parentActive && (f.branchTaken.Some? ==> f.branchTaken.value == g.taken)
  }

  /** What the preprocessor keeps the scan keeps, and what the scan knows of a conditional is so. */
  predicate Sound(s: Scan, r: Real) {
    && (r.active ==> s.active)
    && |s.stack| == |r.groups|
    && forall k :: 0 <= k < |s.stack| ==> FrameSound(s.stack[k], r.groups[k])
  }

  lemma ScanLineIsSound(s: Scan, r: Real, line: Line, truth: bool)
    requires Sound(s, r) && RealLine(r, DirectiveOf(line), truth).Some?
    requires Evaluates(r, DirectiveOf(line)) && line.known.Some? ==> line.known.value == truth
    ensures Sound(ScanLine(s, line), RealLine(r, DirectiveOf(line), truth).value)
  {
    if s.stack != [] {
      assert FrameSound(s.stack[|s.stack| - 1], r.groups[|s.stack| - 1]);
    }
  }

  lemma {:induction false} ScanIsSound(b: Build, i: nat)
    requires Complete(b) && i <= |b.lines| && (i > 0 ==> AgreesUpTo(b, i - 1)) && RightUpTo(b, i)
    requires RealBefore(b, i).Some?
    ensures Sound(ScanAll(b.lines[..i]), RealBefore(b, i).value)
  {
    if i > 0 {
      assert b.lines[..i][..i - 1] == b.lines[..i - 1] && b.directives[..i][..i - 1] == b.directives[..i - 1];
      ScanIsSound(b, i - 1);
      assert RightAt(b, i - 1);
      ScanLineIsSound(ScanAll(b.lines[..i - 1]), RealBefore(b, i - 1).value, b.lines[i - 1], b.truth[i - 1]);
    }
  }

  /** No line that some build compiles is blanked, whatever the conditions that the option does not decide are
      worth, provided scan and preprocessor agree on what is a directive up to there. */
  lemma NoCompiledLineIsBlanked(b: Build, i: nat)
    requires Complete(b) && i < |b.lines| && AgreesUpTo(b, i) && RightUpTo(b, i)
    requires Compiles(b, i)
    ensures MaskedLine(b.lines, i) == b.lines[i].text
  {
    ScanIsSound(b, i);
  }

  lemma {:induction false} PlainLinesCompile(directives: seq<Directive>, truth: seq<bool>)
    requires |truth| >= |directives| && forall k :: 0 <= k < |directives| ==> directives[k].NoDirective?
    ensures RealAll(directives, truth) == Some(Real(true, []))
  {
    if directives != [] {
      PlainLinesCompile(directives[..|directives| - 1], truth);
    }
  }

  predicate FrameExact(f: Frame, g: Group) {
    f.parentActive == g.parentActive && (g.parentActive ==> f.branchTaken == Some(g.taken))
  }

  predicate Exact(s: Scan, r: Real) {
    && s.active == r.active && |s.stack| == |r.groups|
    && forall k :: 0 <= k < |s.stack| ==> FrameExact(s.stack[k], r.groups[k])
  }

  predicate DecidedAt(b: Build, k: nat)
    requires Complete(b) && k < |b.lines|
  {
    RealBefore(b, k).Some? && Evaluates(RealBefore(b, k).value, b.directives[k]) ==>
      (b.lines[k].If? || b.lines[k].Elif?) && b.lines[k].known == Some(b.truth[k])
  }

  lemma ScanLineIsExact(s: Scan, r: Real, line: Line, truth: bool)
    requires Exact(s, r) && RealLine(r, DirectiveOf(line), truth).Some?
    requires Evaluates(r, DirectiveOf(line)) ==> line.known == Some(truth)
    ensures Exact(ScanLine(s, line), RealLine(r, DirectiveOf(line), truth).value)
  {
    if s.stack != [] {
      assert FrameExact(s.stack[|s.stack| - 1], r.groups[|s.stack| - 1]);
    }
  }

  /** When the option decides every condition that is evaluated, the lines kept are exactly those compiled. */
  lemma {:induction false} MaskIsExactWhenDecided(b: Build, i: nat)
    requires Complete(b) && i <= |b.lines| && (i > 0 ==> AgreesUpTo(b, i - 1)) && RealBefore(b, i).Some?
    requires forall k :: 0 <= k < i ==> DecidedAt(b, k)
    ensures Exact(ScanAll(b.lines[..i]), RealBefore(b, i).value)
  {
    if i > 0 {
      assert b.lines[..i][..i - 1] == b.lines[..i - 1] && b.directives[..i][..i - 1] == b.directives[..i - 1];
      MaskIsExactWhenDecided(b, i - 1);
      assert DecidedAt(b, i - 1);
      ScanLineIsExact(ScanAll(b.lines[..i - 1]), RealBefore(b, i - 1).value, b.lines[i - 1], b.truth[i - 1]);
    }
  }

  // ----- the branch pass -----

  function MaskedLine(lines: seq<Line>, i: nat): (r: string)
    requires i < |lines|
    ensures Masks(r, lines[i].text)
  {
    if lines[i].Text? && ScanAll(lines[..i]).active then lines[i].text else Blanked(lines[i].text)
  }

  function MaskedLines(lines: seq<Line>): (r: seq<string>)
    ensures |r| == |lines| && forall i :: 0 <= i < |lines| ==> r[i] == MaskedLine(lines, i)
  {
    seq(|lines|, i requires 0 <= i < |lines| => MaskedLine(lines, i))
  }

  function Joined(parts: seq<string>): string {
    if parts == [] then "" else Joined(parts[..|parts| - 1]) + parts[|parts| - 1]
  }

  function Source(lines: seq<Line>): string {
    if lines == [] then "" else Source(lines[..|lines| - 1]) + lines[|lines| - 1].text
  }

  lemma {:induction false} JoinedMasks(parts: seq<string>, lines: seq<Line>)
    requires |parts| == |lines| && forall i :: 0 <= i < |lines| ==> Masks(parts[i], lines[i].text)
    ensures Masks(Joined(parts), Source(lines))
  {
    if parts != [] {
      var n := |parts| - 1;
      JoinedMasks(parts[..n], lines[..n]);
      assert Masks(parts[n], lines[n].text);
    }
  }

  /** `mask_disabled_no_exception_branches`. */
  method MaskBranches(lines: seq<Line>) returns (output: seq<string>)
    ensures |output| == |lines| && forall i :: 0 <= i < |lines| ==> output[i] == MaskedLine(lines, i)
    ensures Masks(Joined(output), Source(lines))
  {
    hide Blanked, Masks;
    output := [];
    var active, stack := true, [];
    for i := 0 to |lines|
      invariant Scan(active, stack) == ScanAll(lines[..i])
      invariant |output| == i && forall j :: 0 <= j < i ==> output[j] == MaskedLine(lines, j)
    {
      var line := lines[i];
      assert lines[..i + 1][..i] == lines[..i];
      var top := |stack| - 1;
      match line {
        case Text(text) =>
          output := output + [if active then text else Blanked(text)];
          continue;
        case If(_, known) =>
          stack := stack + [Frame(active, known)];
          active := active && known != Some(false);
        case Elif(_, known) =>
          if stack != [] {
            if stack[top].branchTaken == Some(true) {
              active := false;
            } else if stack[top].branchTaken == None {
              active := stack[top].parentActive;
            } else {
              active := stack[top].parentActive && known != Some(false);
              stack := stack[top := stack[top].(branchTaken := known)];
            }
          }
        case Else(_) =>
          if stack != [] {
            active := stack[top].parentActive && stack[top].branchTaken != Some(true);
            stack := stack[top := stack[top].(branchTaken := Some(true))];
          }
        case Endif(_) =>
          if stack != [] {
            active := stack[top].parentActive;
            stack := stack[..top];
          }
      }
      output := output + [Blanked(line.text)];
    }
    forall i | 0 <= i < |lines| ensures Masks(output[i], lines[i].text) {
      assert output[i] == MaskedLine(lines, i);
    }
    JoinedMasks(output, lines);
  }
}
