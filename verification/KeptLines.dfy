/** Exactly which lines the branch scan keeps, read off the text without running the scan. */
module KeptLines {
  import opened Options
  import opened SourceMask

  /** How many conditionals are open before line `i`; a closing line with nothing to close counts for nothing. */
  function Depth(lines: seq<Line>, i: nat): nat
    requires i <= |lines|
  {
    if i == 0 then 0
    else
      var d := Depth(lines, i - 1);
      if lines[i - 1].If? then d + 1 else if lines[i - 1].Endif? && d > 0 then d - 1 else d
  }

  /** The `if` in line `k` has not been closed before line `i`. */
  predicate Open(lines: seq<Line>, k: nat, i: nat)
    requires i <= |lines|
  {
    k < i && lines[k].If? && forall j :: k < j <= i ==> Depth(lines, j) > Depth(lines, k)
  }

  /** Line `j` starts another branch of the `if` in line `k`. */
  predicate IsHead(lines: seq<Line>, k: nat, j: nat)
    requires k < j < |lines|
  {
    Depth(lines, j) == Depth(lines, k) + 1 && (lines[j].Elif? || lines[j].Else?)
  }

  /** The lines before `i` that start the branches of the `if` in line `k`, itself first. */
  function Heads(lines: seq<Line>, k: nat, i: nat): (heads: seq<Line>)
    requires k < i <= |lines|
    ensures heads != [] && heads[0] == lines[k]
    decreases i
  {
    if i == k + 1 then [lines[k]]
    else Heads(lines, k, i - 1) + if IsHead(lines, k, i - 1) then [lines[i - 1]] else []
  }

  predicate DecidedAs(head: Line, value: bool) {
    (head.If? || head.Elif?) && head.known == Some(value)
  }

  predicate AllFalse(heads: seq<Line>) {
    forall j :: 0 <= j < |heads| ==> DecidedAs(heads[j], false)
  }

  /** One of these branches is certain to be taken: an `else`, or one decided true after others decided false. */
  predicate SurelyTaken(heads: seq<Line>) {
    exists j :: 0 <= j < |heads| && (heads[j].Else? || (DecidedAs(heads[j], true) && AllFalse(heads[..j])))
  }

  /** The last of these branches is never compiled: no condition so far can hold, or an earlier one surely does. */
  predicate RuledOut(heads: seq<Line>)
    requires heads != []
  {
    AllFalse(heads) || SurelyTaken(heads[..|heads| - 1])
  }

  /** No open `if` has its current branch ruled out. */
  predicate Kept(lines: seq<Line>, i: nat)
    requires i < |lines|
  {
    lines[i].Text? && forall k :: 0 <= k < i && Open(lines, k, i) ==> !RuledOut(Heads(lines, k, i))
  }

  // ----- what the scan remembers of a conditional -----

  lemma AllFalseGrows(heads: seq<Line>, head: Line)
    ensures AllFalse(heads + [head]) <==> AllFalse(heads) && DecidedAs(head, false)
  {
    var grown := heads + [head];
    assert grown[|heads|] == head && forall j :: 0 <= j < |heads| ==> grown[j] == heads[j];
  }

  lemma SurelyTakenGrows(heads: seq<Line>, head: Line)
    ensures SurelyTaken(heads + [head]) <==>
            SurelyTaken(heads) || head.Else? || (DecidedAs(head, true) && AllFalse(heads))
  {
    hide AllFalse, DecidedAs;
    var grown := heads + [head];
    assert grown[|heads|] == head && grown[..|heads|] == heads;
    assert forall j :: 0 <= j < |heads| ==> grown[j] == heads[j] && grown[..j] == heads[..j];
  }

  lemma NotBoth(heads: seq<Line>)
    requires heads != [] && AllFalse(heads)
    ensures !SurelyTaken(heads)
  {
  }

  function Verdict(heads: seq<Line>): Option<bool> {
    if SurelyTaken(heads) then Some(true) else if AllFalse(heads) then Some(false) else None
  }

  lemma Decided(head: Line)
    requires head.If? || head.Elif?
    ensures head.known == None || DecidedAs(head, true) || DecidedAs(head, false)
  {
    match head.known
    case None =>
    case Some(_) =>
  }

  lemma FirstHead(head: Line)
    requires head.If?
    ensures Verdict([head]) == head.known && (RuledOut([head]) <==> head.known == Some(false))
  {
    assert [head] == [] + [head] && [head][..0] == [];
    SurelyTakenGrows([], head);
    AllFalseGrows([], head);
    assert !SurelyTaken([]) && AllFalse([]);
    Decided(head);
  }

  lemma NextHead(heads: seq<Line>, head: Line)
    requires heads != []
    ensures Verdict(heads + [head]) ==
            if head.Else? then Some(true) else if Verdict(heads) != Some(false) then Verdict(heads)
            else if head.Elif? || head.If? then head.known else None
    ensures RuledOut(heads + [head]) <==>
            Verdict(heads) == Some(true) || (Verdict(heads) == Some(false) && DecidedAs(head, false))
  {
    hide AllFalse, SurelyTaken;
    SurelyTakenGrows(heads, head);
    AllFalseGrows(heads, head);
    assert (heads + [head])[..|heads + [head]| - 1] == heads;
    if AllFalse(heads) {
      NotBoth(heads);
    }
    if head.If? || head.Elif? {
      Decided(head);
    }
  }

  // ----- the open conditionals, outermost first -----

  function Opened(lines: seq<Line>, i: nat): (ks: seq<nat>)
    requires i <= |lines|
    ensures |ks| == Depth(lines, i) && forall d :: 0 <= d < |ks| ==> ks[d] < i
  {
    if i == 0 then []
    else
      var ks := Opened(lines, i - 1);
      if lines[i - 1].If? then ks + [i - 1] else if lines[i - 1].Endif? && ks != [] then ks[..|ks| - 1] else ks
  }

  lemma OpenStep(lines: seq<Line>, k: nat, i: nat)
    requires 0 < i <= |lines|
    ensures Open(lines, k, i) <==>
            if k == i - 1 then lines[k].If? else Open(lines, k, i - 1) && Depth(lines, i) > Depth(lines, k)
  {
  }

  ghost predicate ListsOpen(lines: seq<Line>, i: nat, ks: seq<nat>)
    requires i <= |lines|
  {
    && (forall d :: 0 <= d < |ks| ==> Open(lines, ks[d], i) && Depth(lines, ks[d]) == d)
    && (forall k :: 0 <= k < i && Open(lines, k, i) ==> Depth(lines, k) < |ks| && ks[Depth(lines, k)] == k)
  }

  lemma DepthStep(lines: seq<Line>, i: nat)
    requires 0 < i <= |lines|
    ensures var d := Depth(lines, i - 1);
            Depth(lines, i) ==
            if lines[i - 1].If? then d + 1 else if lines[i - 1].Endif? && d > 0 then d - 1 else d
  {
  }

  lemma ListedAreOpen(lines: seq<Line>, i: nat, d: nat)
    requires 0 < i <= |lines| && ListsOpen(lines, i - 1, Opened(lines, i - 1)) && d < Depth(lines, i)
    ensures Open(lines, Opened(lines, i)[d], i) && Depth(lines, Opened(lines, i)[d]) == d
  {
    hide Open, Depth;
    DepthStep(lines, i);
    OpenStep(lines, Opened(lines, i)[d], i);
  }

  lemma OpenAreListed(lines: seq<Line>, i: nat, k: nat)
    requires 0 < i <= |lines| && ListsOpen(lines, i - 1, Opened(lines, i - 1)) && k < i && Open(lines, k, i)
    ensures Depth(lines, k) < Depth(lines, i) && Opened(lines, i)[Depth(lines, k)] == k
  {
    hide Open, Depth;
    DepthStep(lines, i);
    OpenStep(lines, k, i);
  }

  lemma {:induction false} OpenedListsOpen(lines: seq<Line>, i: nat)
    requires i <= |lines|
    ensures ListsOpen(lines, i, Opened(lines, i))
  {
    if i > 0 {
      hide Open, Depth, Opened;
      OpenedListsOpen(lines, i - 1);
      forall d | 0 <= d < Depth(lines, i)
        ensures Open(lines, Opened(lines, i)[d], i) && Depth(lines, Opened(lines, i)[d]) == d
      {
        ListedAreOpen(lines, i, d);
      }
      forall k | 0 <= k < i && Open(lines, k, i)
        ensures Depth(lines, k) < Depth(lines, i) && Opened(lines, i)[Depth(lines, k)] == k
      {
        OpenAreListed(lines, i, k);
      }
    }
  }

  // ----- the scan's stack describes them -----

  ghost predicate Clear(lines: seq<Line>, i: nat, ks: seq<nat>)
    requires i <= |lines| && forall d :: 0 <= d < |ks| ==> ks[d] < i
  {
    forall d :: 0 <= d < |ks| ==> !RuledOut(Heads(lines, ks[d], i))
  }

  ghost predicate Describes(s: Scan, lines: seq<Line>, i: nat, ks: seq<nat>)
    requires i <= |lines| && forall d :: 0 <= d < |ks| ==> ks[d] < i
  {
    && |s.stack| == |ks| && s.active == Clear(lines, i, ks)
    && forall d :: 0 <= d < |ks| ==>
         && s.stack[d].parentActive == Clear(lines, i, ks[..d])
         && s.stack[d].branchTaken == Verdict(Heads(lines, ks[d], i))
  }

  lemma OpenIsEarlier(lines: seq<Line>, k: nat, i: nat)
    requires i <= |lines| && Open(lines, k, i)
    ensures k < i
  {
  }

  lemma HeadsStep(lines: seq<Line>, i: nat, ks: seq<nat>, d: nat)
    requires 0 < i <= |lines| && |ks| == Depth(lines, i - 1) && ListsOpen(lines, i - 1, ks) && d < |ks|
    ensures Heads(lines, ks[d], i) ==
            var before := Heads(lines, ks[d], i - 1);
            if d == |ks| - 1 && (lines[i - 1].Elif? || lines[i - 1].Else?) then before + [lines[i - 1]] else before
  {
    hide Open;
    assert Open(lines, ks[d], i - 1);
    OpenIsEarlier(lines, ks[d], i - 1);
  }

  lemma ClearGrows(lines: seq<Line>, i: nat, ks: seq<nat>, k: nat)
    requires i <= |lines| && k < i && forall d :: 0 <= d < |ks| ==> ks[d] < i
    ensures Clear(lines, i, ks + [k]) == (Clear(lines, i, ks) && !RuledOut(Heads(lines, k, i)))
  {
    hide RuledOut, Heads;
    var grown := ks + [k];
    assert grown[|ks|] == k && forall d :: 0 <= d < |ks| ==> grown[d] == ks[d];
  }

  /** The outer conditionals, `n` of them, are as clear as one line before. */
  lemma ClearStep(lines: seq<Line>, i: nat, ks: seq<nat>, n: nat)
    requires 0 < i <= |lines| && |ks| == Depth(lines, i - 1) && ListsOpen(lines, i - 1, ks) && n <= |ks|
    requires forall d :: 0 <= d < |ks| ==> ks[d] < i - 1
    requires n < |ks| || !(lines[i - 1].Elif? || lines[i - 1].Else?)
    ensures Clear(lines, i, ks[..n]) == Clear(lines, i - 1, ks[..n])
  {
    hide RuledOut, Heads, ListsOpen;
    forall d | 0 <= d < n ensures Heads(lines, ks[..n][d], i) == Heads(lines, ks[..n][d], i - 1) {
      HeadsStep(lines, i, ks, d);
    }
  }

  /** Frames below the top, all of them unless the line starts a branch, still describe their conditionals. */
  lemma FramesStep(s: Scan, lines: seq<Line>, i: nat, ks: seq<nat>, n: nat)
    requires 0 < i <= |lines| && |ks| == Depth(lines, i - 1) && ListsOpen(lines, i - 1, ks) && n <= |ks|
    requires forall d :: 0 <= d < |ks| ==> ks[d] < i - 1
    requires Describes(s, lines, i - 1, ks)
    requires n < |ks| || !(lines[i - 1].Elif? || lines[i - 1].Else?)
    ensures forall d :: 0 <= d < n ==>
              && s.stack[d].parentActive == Clear(lines, i, ks[..d])
              && s.stack[d].branchTaken == Verdict(Heads(lines, ks[d], i))
  {
    hide Heads, ListsOpen, Clear, Verdict;
    forall d | 0 <= d < n
      ensures s.stack[d].parentActive == Clear(lines, i, ks[..d])
      ensures s.stack[d].branchTaken == Verdict(Heads(lines, ks[d], i))
    {
      ClearStep(lines, i, ks, d);
      HeadsStep(lines, i, ks, d);
    }
  }

  lemma StepOpens(s: Scan, lines: seq<Line>, i: nat, ks: seq<nat>)
    requires 0 < i <= |lines| && |ks| == Depth(lines, i - 1) && ListsOpen(lines, i - 1, ks)
    requires forall d :: 0 <= d < |ks| ==> ks[d] < i - 1
    requires Describes(s, lines, i - 1, ks) && lines[i - 1].If?
    ensures Describes(ScanLine(s, lines[i - 1]), lines, i, ks + [i - 1])
  {
    hide ListsOpen, Clear, Verdict, RuledOut;
    var now := ks + [i - 1];
    FramesStep(s, lines, i, ks, |ks|);
    ClearStep(lines, i, ks, |ks|);
    assert ks[..|ks|] == ks == now[..|ks|];
    ClearGrows(lines, i, ks, i - 1);
    FirstHead(lines[i - 1]);
    assert Heads(lines, i - 1, i) == [lines[i - 1]];
    assert forall d :: 0 <= d < |ks| ==> now[..d] == ks[..d];
  }

  /** What `elif` and `else` do to the scan, in the terms of `NextHead`. */
  lemma BranchLine(s: Scan, line: Line)
    requires s.stack != [] && (line.Elif? || line.Else?)
    ensures var n, top := ScanLine(s, line), |s.stack| - 1;
            var f := s.stack[top];
            && |n.stack| == |s.stack| && (forall d :: 0 <= d < top ==> n.stack[d] == s.stack[d])
            && n.stack[top].parentActive == f.parentActive
            && n.stack[top].branchTaken ==
               (if line.Else? then Some(true) else if f.branchTaken != Some(false) then f.branchTaken else line.known)
            && n.active == (&& f.parentActive && f.branchTaken != Some(true)
                            && !(f.branchTaken == Some(false) && DecidedAs(line, false)))
  {
    match s.stack[|s.stack| - 1].branchTaken
    case None =>
    case Some(_) =>
  }

  lemma StepBranches(s: Scan, lines: seq<Line>, i: nat, ks: seq<nat>)
    requires 0 < i <= |lines| && |ks| == Depth(lines, i - 1) && ListsOpen(lines, i - 1, ks) && ks != []
    requires forall d :: 0 <= d < |ks| ==> ks[d] < i - 1
    requires Describes(s, lines, i - 1, ks) && (lines[i - 1].Elif? || lines[i - 1].Else?)
    ensures Describes(ScanLine(s, lines[i - 1]), lines, i, ks)
  {
    hide ListsOpen, Clear, Verdict, RuledOut, Heads, ScanLine, DecidedAs, Depth;
    var top := |ks| - 1;
    FramesStep(s, lines, i, ks, top);
    ClearStep(lines, i, ks, top);
    HeadsStep(lines, i, ks, top);
    NextHead(Heads(lines, ks[top], i - 1), lines[i - 1]);
    BranchLine(s, lines[i - 1]);
    assert ks[..top] + [ks[top]] == ks;
    ClearGrows(lines, i, ks[..top], ks[top]);
  }

  lemma StepCloses(s: Scan, lines: seq<Line>, i: nat, ks: seq<nat>)
    requires 0 < i <= |lines| && |ks| == Depth(lines, i - 1) && ListsOpen(lines, i - 1, ks) && ks != []
    requires forall d :: 0 <= d < |ks| ==> ks[d] < i - 1
    requires Describes(s, lines, i - 1, ks) && lines[i - 1].Endif?
    ensures Describes(ScanLine(s, lines[i - 1]), lines, i, ks[..|ks| - 1])
  {
    hide ListsOpen, Clear, Verdict, RuledOut, Heads;
    var top := |ks| - 1;
    FramesStep(s, lines, i, ks, top);
    ClearStep(lines, i, ks, top);
    assert forall d :: 0 <= d < top ==> ks[..top][..d] == ks[..d];
  }

  lemma StepKeeps(s: Scan, lines: seq<Line>, i: nat, ks: seq<nat>)
    requires 0 < i <= |lines| && |ks| == Depth(lines, i - 1) && ListsOpen(lines, i - 1, ks)
    requires forall d :: 0 <= d < |ks| ==> ks[d] < i - 1
    requires Describes(s, lines, i - 1, ks) && (lines[i - 1].Text? || (ks == [] && !lines[i - 1].If?))
    ensures Describes(ScanLine(s, lines[i - 1]), lines, i, ks)
  {
    hide ListsOpen, Clear, Verdict, RuledOut, Heads;
    if lines[i - 1].Text? {
      FramesStep(s, lines, i, ks, |ks|);
      ClearStep(lines, i, ks, |ks|);
      assert ks[..|ks|] == ks;
    } else {
      NothingIsClear(lines, i);
      NothingIsClear(lines, i - 1);
    }
  }

  lemma NothingIsClear(lines: seq<Line>, i: nat)
    requires i <= |lines|
    ensures Clear(lines, i, [])
  {
  }

  /** The scan's stack is the open conditionals, each with what its branches so far decide. */
  lemma {:induction false} ScanDescribes(lines: seq<Line>, i: nat)
    requires i <= |lines|
    ensures Describes(ScanAll(lines[..i]), lines, i, Opened(lines, i))
  {
    if i > 0 {
      hide ListsOpen, Describes, ScanLine;
      ScanDescribes(lines, i - 1);
      assert lines[..i][..i - 1] == lines[..i - 1];
      var s, ks, line := ScanAll(lines[..i - 1]), Opened(lines, i - 1), lines[i - 1];
      OpenedListsOpen(lines, i - 1);
      if line.If? {
        StepOpens(s, lines, i, ks);
      } else if line.Text? || ks == [] {
        StepKeeps(s, lines, i, ks);
      } else if line.Endif? {
        StepCloses(s, lines, i, ks);
      } else {
        StepBranches(s, lines, i, ks);
      }
    }
  }

  lemma {:induction false} ClearMeansNoneRuledOut(lines: seq<Line>, i: nat)
    requires i <= |lines|
    ensures Clear(lines, i, Opened(lines, i)) <==>
            forall k :: 0 <= k < i && Open(lines, k, i) ==> !RuledOut(Heads(lines, k, i))
  {
    hide RuledOut, Heads, Open, Depth;
    OpenedListsOpen(lines, i);
    var ks := Opened(lines, i);
    if forall k :: 0 <= k < i && Open(lines, k, i) ==> !RuledOut(Heads(lines, k, i)) {
      forall d | 0 <= d < |ks| ensures !RuledOut(Heads(lines, ks[d], i)) {
        assert Open(lines, ks[d], i);
      }
    }
  }

  // ----- main results -----

  /** A line with something to blank is kept if and only if no open `if` has its current branch ruled out. */
  lemma KeptExactly(lines: seq<Line>, i: nat)
    requires i < |lines| && lines[i].text != Blanked(lines[i].text)
    ensures MaskedLine(lines, i) == lines[i].text <==> Kept(lines, i)
  {
    hide RuledOut, Heads, Open, Clear, Blanked;
    ScanDescribes(lines, i);
    ClearMeansNoneRuledOut(lines, i);
  }

  /** Agreement on the directives, with the decided conditions right, is enough for every compiled line. */
  lemma AgreementKeeps(b: Build, i: nat)
    requires Complete(b) && i < |b.lines| && AgreesUpTo(b, i) && RightUpTo(b, i) && Compiles(b, i)
    ensures Kept(b.lines, i)
  {
    hide RuledOut, Heads, Open, Clear;
    ScanIsSound(b, i);
    ScanDescribes(b.lines, i);
    ClearMeansNoneRuledOut(b.lines, i);
  }

  lemma {:induction false} PlainLinesStayInside(lines: seq<Line>, k: nat, i: nat)
    requires k < i <= |lines| && lines[k].If? && forall j :: k < j < i ==> lines[j].Text?
    ensures Open(lines, k, i) && Heads(lines, k, i) == [lines[k]]
    decreases i
  {
    if i > k + 1 {
      PlainLinesStayInside(lines, k, i - 1);
    }
  }

  /** Whatever the preprocessor makes of it: a line the scan takes for an `if` that is decided false costs every
      line up to the next directive. */
  lemma FalseIfBlanks(lines: seq<Line>, k: nat, i: nat)
    requires k < i < |lines| && lines[k].If? && lines[k].known == Some(false)
    requires forall j :: k < j <= i ==> lines[j].Text?
    ensures !Kept(lines, i) && MaskedLine(lines, i) == Blanked(lines[i].text)
  {
    PlainLinesStayInside(lines, k, i);
    FirstHead(lines[k]);
    assert Open(lines, k, i) && RuledOut(Heads(lines, k, i));
    ScanDescribes(lines, i);
    ClearMeansNoneRuledOut(lines, i);
  }

  /** Code is lost this way: the scan takes a directive inside a block comment for one. Here the preprocessor, for
      which all three lines are a comment, compiles what follows, and the scan blanks it. */
  lemma CommentedDirectiveBlanksCode(code: string)
    ensures var open, close := Text("/*\n"), Text("*/\n");
            var inside := If("#ifndef NK_ENABLE_NO_EXCEPTIONS\n", Some(false));
            var b := Build([open, inside, close, Text(code)], seq(4, _ => NoDirective), seq(4, _ => true));
            Complete(b) && RightUpTo(b, 3) && Compiles(b, 3) && MaskedLine(b.lines, 3) == Blanked(code)
  {
    var open, close := Text("/*\n"), Text("*/\n");
    var inside := If("#ifndef NK_ENABLE_NO_EXCEPTIONS\n", Some(false));
    var lines := [open, inside, close, Text(code)];
    var b := Build(lines, seq(4, _ => NoDirective), seq(4, _ => true));
    PlainLinesCompile(b.directives[..3], b.truth);
    FalseIfBlanks(lines, 1, 3);
  }
}
