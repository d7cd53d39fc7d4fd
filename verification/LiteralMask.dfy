/** The passes that blank comments and literals, and the JavaScript bodies of EM_JS macros. */
module LiteralMask {
  import opened SourceMask
  import opened Options

  // ----- comments and literals, character by character -----

  datatype Lexer = Code | LineComment | BlockComment | Literal(quote: char, escaped: bool)

  /** The characters `a` and `b` stand at `i`. */
  predicate PairAt(s: string, i: nat, a: char, b: char) {
    i + 1 < |s| && s[i] == a && s[i + 1] == b
  }

  /** How many characters the lexer takes at `i`, and its state after them. */
  function Step(state: Lexer, s: string, i: nat): (r: (nat, Lexer))
    requires i < |s|
    ensures 1 <= r.0 <= |s| - i
  {
    var c := s[i];
    match state
    case Code =>
      if PairAt(s, i, '/', '/') then (1, LineComment)
      else if PairAt(s, i, '/', '*') then (2, BlockComment)
      else if c == '\'' || c == '"' then (1, Literal(c, false))
      else (1, Code)
    case LineComment => (1, if c == '\n' then Code else LineComment)
    case BlockComment => if PairAt(s, i, '*', '/') then (2, Code) else (1, BlockComment)
    case Literal(quote, escaped) =>
      (1, if escaped then Literal(quote, false)
          else if c == '\\' then Literal(quote, true)
          else if c == quote then Code
          else state)
  }

  /** Code stays, everything else is blanked. */
  function CodeFrom(state: Lexer, s: string, i: nat): string
    requires i <= |s|
    decreases |s| - i
  {
    if i == |s| then ""
    else
      var (n, next) := Step(state, s, i);
      Piece(state, s, i) + CodeFrom(next, s, i + n)
  }

  lemma MaskedParts(s: string)
    ensures Masks(s, s) && Masks(Blanked(s), s)
  {
  }

  lemma MasksJoin(a: string, x: string, b: string, y: string)
    requires Masks(a, x) && Masks(b, y)
    ensures Masks(a + b, x + y)
  {
  }

  function Piece(state: Lexer, s: string, i: nat): string
    requires i < |s|
  {
    var (n, next) := Step(state, s, i);
    if state.Code? && next.Code? then s[i..i + n] else Blanked(s[i..i + n])
  }

  lemma {:induction false} CodeMasks(state: Lexer, s: string, i: nat)
    requires i <= |s|
    ensures Masks(CodeFrom(state, s, i), s[i..])
    decreases |s| - i
  {
    hide *;
    if i == |s| {
      EndMasks(state, s);
    } else {
      var n, next := Step(state, s, i).0, Step(state, s, i).1;
      CodeMasks(next, s, i + n);
      Unfolded(state, s, i);
      PieceMasks(state, s, i);
      MasksJoin(Piece(state, s, i), s[i..i + n], CodeFrom(next, s, i + n), s[i + n..]);
      assert s[i..] == s[i..i + n] + s[i + n..];
    }
  }

  lemma EndMasks(state: Lexer, s: string)
    ensures Masks(CodeFrom(state, s, |s|), s[|s|..])
  {
  }

  lemma Unfolded(state: Lexer, s: string, i: nat)
    requires i < |s|
    ensures CodeFrom(state, s, i) == Piece(state, s, i) + CodeFrom(Step(state, s, i).1, s, i + Step(state, s, i).0)
  {
    hide Piece, Step;
  }

  lemma PieceMasks(state: Lexer, s: string, i: nat)
    requires i < |s|
    ensures Masks(Piece(state, s, i), s[i..i + Step(state, s, i).0])
  {
    hide Step;
    MaskedParts(s[i..i + Step(state, s, i).0]);
  }

  lemma BlankedSplits(s: string, i: nat, j: nat, k: nat)
    requires i <= j <= k <= |s|
    ensures Blanked(s[i..k]) == Blanked(s[i..j]) + Blanked(s[j..k])
  {
  }

  /** The lexer stays in one state from `i` to `j`. */
  ghost predicate Stays(state: Lexer, s: string, i: nat, j: nat) {
    j <= |s| && forall k {:trigger Step(state, s, k)} :: i <= k < j ==> Step(state, s, k) == (1, state)
  }

  /** A stretch inside a comment is blanked as one. */
  lemma {:induction false} Skips(state: Lexer, s: string, i: nat, j: nat)
    requires i <= j && !state.Code? && Stays(state, s, i, j)
    ensures CodeFrom(state, s, i) == Blanked(s[i..j]) + CodeFrom(state, s, j)
    decreases j - i
  {
    hide Blanked;
    if i < j {
      assert Step(state, s, i) == (1, state);
      Skips(state, s, i + 1, j);
      BlankedSplits(s, i, i + 1, j);
      Associates(Blanked(s[i..i + 1]), Blanked(s[i + 1..j]), CodeFrom(state, s, j));
    } else {
      BlankedNothing(s, i);
      Associates([], [], CodeFrom(state, s, i));
    }
  }

  lemma BlankedNothing(s: string, i: nat)
    requires i <= |s|
    ensures Blanked(s[i..i]) == ""
  {
  }

  lemma Associates(a: string, b: string, c: string)
    ensures (a + b) + c == a + (b + c)
    ensures a == "" ==> a + c == c
  {
  }

  /** `find` of two characters: the first place they stand, or the length. */
  function FindPair(s: string, a: char, b: char, from: nat): (i: nat)
    requires from <= |s|
    ensures from <= i <= |s| && (i < |s| ==> PairAt(s, i, a, b))
    ensures forall k :: from <= k < i ==> !PairAt(s, k, a, b)
    decreases |s| - from
  {
    if from == |s| || PairAt(s, from, a, b) then from else FindPair(s, a, b, from + 1)
  }

  function FindOne(s: string, c: char, from: nat): (i: nat)
    requires from <= |s|
    ensures from <= i <= |s| && (i < |s| ==> s[i] == c)
    ensures forall k :: from <= k < i ==> s[k] != c
    decreases |s| - from
  {
    if from == |s| || s[from] == c then from else FindOne(s, c, from + 1)
  }

  /** A comment or a literal starts at `i` and ends at `j`, which is code again. */
  predicate BlankedTo(s: string, i: nat, j: nat) {
    i < j <= |s| && CodeFrom(Code, s, i) == Blanked(s[i..j]) + CodeFrom(Code, s, j)
  }

  lemma LineCommentOpens(s: string, i: nat)
    requires i < |s| && PairAt(s, i, '/', '/')
    ensures CodeFrom(Code, s, i) == Blanked(s[i..i + 1]) + CodeFrom(LineComment, s, i + 1)
  {
    hide Blanked;
  }

  lemma StaysInLine(s: string, i: nat, j: nat)
    requires j <= |s| && forall k :: i <= k < j ==> s[k] != '\n'
    ensures Stays(LineComment, s, i, j)
  {
  }

  lemma LineCommentBlanked(s: string, i: nat)
    requires i < |s| && PairAt(s, i, '/', '/')
    ensures BlankedTo(s, i, FindOne(s, '\n', i))
  {
    hide Blanked, CodeFrom, Step, Stays;
    var end := FindOne(s, '\n', i);
    LineCommentOpens(s, i);
    StaysInLine(s, i + 1, end);
    Skips(LineComment, s, i + 1, end);
    BlankedSplits(s, i, i + 1, end);
    Associates(Blanked(s[i..i + 1]), Blanked(s[i + 1..end]), CodeFrom(LineComment, s, end));
    if end < |s| {
      NewlineIsItself(s, end);
    } else {
      LineEnds(s);
    }
  }

  lemma LineEnds(s: string)
    ensures CodeFrom(LineComment, s, |s|) == CodeFrom(Code, s, |s|) == ""
  {
  }

  lemma NewlinePieces(s: string, at: nat)
    requires at < |s| && s[at] == '\n'
    ensures Step(LineComment, s, at) == (1, Code) && Step(Code, s, at) == (1, Code)
    ensures Piece(LineComment, s, at) == Piece(Code, s, at)
  {
    assert s[at..at + 1] == Blanked(s[at..at + 1]);
  }

  /** The newline that ends a line comment is the same character kept or blanked. */
  lemma NewlineIsItself(s: string, at: nat)
    requires at < |s| && s[at] == '\n'
    ensures CodeFrom(LineComment, s, at) == CodeFrom(Code, s, at)
  {
    hide CodeFrom, Piece, Step;
    NewlinePieces(s, at);
    Unfolded(LineComment, s, at);
    Unfolded(Code, s, at);
  }

  lemma BlockCommentEdges(s: string, i: nat)
    requires i < |s|
    ensures PairAt(s, i, '/', '*') ==> CodeFrom(Code, s, i) == Blanked(s[i..i + 2]) + CodeFrom(BlockComment, s, i + 2)
    ensures PairAt(s, i, '*', '/') ==> CodeFrom(BlockComment, s, i) == Blanked(s[i..i + 2]) + CodeFrom(Code, s, i + 2)
  {
    hide Blanked;
  }

  lemma StaysInBlock(s: string, i: nat, j: nat)
    requires j <= |s| && forall k :: i <= k < j ==> !PairAt(s, k, '*', '/')
    ensures Stays(BlockComment, s, i, j)
  {
  }

  lemma BlockBody(s: string, i: nat, at: nat)
    requires i + 2 <= at <= |s| && PairAt(s, i, '/', '*') && Stays(BlockComment, s, i + 2, at)
    ensures CodeFrom(Code, s, i) == Blanked(s[i..at]) + CodeFrom(BlockComment, s, at)
  {
    hide Blanked, CodeFrom, Step, Stays, Masks;
    Skips(BlockComment, s, i + 2, at);
    BlockCommentEdges(s, i);
    BlankedSplits(s, i, i + 2, at);
    Associates(Blanked(s[i..i + 2]), Blanked(s[i + 2..at]), CodeFrom(BlockComment, s, at));
  }

  lemma BlockEnd(s: string, i: nat, at: nat)
    requires i <= at < |s| && PairAt(s, at, '*', '/')
    requires CodeFrom(Code, s, i) == Blanked(s[i..at]) + CodeFrom(BlockComment, s, at)
    ensures BlankedTo(s, i, at + 2)
  {
    hide Blanked, CodeFrom, Step, Masks;
    BlockCommentEdges(s, at);
    BlankedSplits(s, i, at, at + 2);
    Associates(Blanked(s[i..at]), Blanked(s[at..at + 2]), CodeFrom(Code, s, at + 2));
  }

  lemma BlockCommentBlanked(s: string, i: nat)
    requires i < |s| && PairAt(s, i, '/', '*')
    ensures var at := FindPair(s, '*', '/', i + 2); BlankedTo(s, i, if at == |s| then at else at + 2)
  {
    hide Blanked, CodeFrom, Step, Stays, Masks;
    var at := FindPair(s, '*', '/', i + 2);
    StaysInBlock(s, i + 2, at);
    BlockBody(s, i, at);
    if at < |s| {
      BlockEnd(s, i, at);
    } else {
      CodeEnds(s);
    }
  }

  lemma CodeEnds(s: string)
    ensures CodeFrom(BlockComment, s, |s|) == CodeFrom(Code, s, |s|) == ""
    ensures forall quote, escaped :: CodeFrom(Literal(quote, escaped), s, |s|) == ""
  {
  }

  lemma LiteralStepIsOne(state: Lexer, s: string, j: nat)
    requires j < |s| && (state.Literal? || (state.Code? && Step(state, s, j).1.Literal?))
    ensures Step(state, s, j).0 == 1
  {
  }

  lemma LiteralUnfolds(state: Lexer, s: string, j: nat)
    requires j < |s| && (state.Literal? || (state.Code? && Step(state, s, j).1.Literal?))
    ensures CodeFrom(state, s, j) == Blanked(s[j..j + 1]) + CodeFrom(Step(state, s, j).1, s, j + 1)
  {
    hide Blanked, Step;
    LiteralStepIsOne(state, s, j);
  }

  /** One more character of a literal, or its first. */
  lemma LiteralStep(state: Lexer, s: string, i: nat, j: nat)
    requires i <= j < |s| && (state.Literal? || (state.Code? && Step(state, s, j).1.Literal?))
    requires CodeFrom(Code, s, i) == Blanked(s[i..j]) + CodeFrom(state, s, j)
    ensures CodeFrom(Code, s, i) == Blanked(s[i..j + 1]) + CodeFrom(Step(state, s, j).1, s, j + 1)
  {
    hide Blanked, CodeFrom, Step;
    LiteralUnfolds(state, s, j);
    BlankedSplits(s, i, j, j + 1);
    Associates(Blanked(s[i..j]), Blanked(s[j..j + 1]), CodeFrom(Step(state, s, j).1, s, j + 1));
  }

  // ----- the pass over comments and literals -----

  /** Where the literal that starts at `cursor` ends. */
  method LiteralEnd(source: string, cursor: nat) returns (end: nat)
    requires cursor < |source| && Step(Code, source, cursor).1.Literal?
    ensures BlankedTo(source, cursor, end)
  {
    hide CodeFrom, Blanked, PairAt;
    var quote := source[cursor];
    end := cursor + 1;
    var escaped := false;
    BlankedNothing(source, cursor);
    Associates([], [], CodeFrom(Code, source, cursor));
    LiteralStep(Code, source, cursor, cursor);
    while end < |source|
      invariant cursor < end <= |source|
      invariant CodeFrom(Code, source, cursor)
                == Blanked(source[cursor..end]) + CodeFrom(Literal(quote, escaped), source, end)
    {
      LiteralStep(Literal(quote, escaped), source, cursor, end);
      var current := source[end];
      if escaped {
        escaped := false;
      } else if current == '\\' {
        escaped := true;
      } else if current == quote {
        end := end + 1;
        return;
      }
      end := end + 1;
    }
    CodeEnds(source);
  }

  method Characters(source: string) returns (output: array<char>)
    ensures fresh(output) && output[..] == source
  {
    output := new char[|source|](i requires 0 <= i < |source| => source[i]);
  }

  /** Blanks `out[from..to]`, a part of `source` not touched before. */
  method Fill(out: array<char>, source: string, from: nat, to: nat)
    requires out.Length == |source| && from <= to <= |source| && out[from..to] == source[from..to]
    modifies out
    ensures out[..] == old(out[..])[..from] + Blanked(source[from..to]) + old(out[..])[to..]
  {
    assert forall k :: from <= k < to ==> out[k] == out[from..to][k - from] == source[from..to][k - from];
    for i := from to to
      invariant forall k :: 0 <= k < out.Length ==>
                  out[k] == if from <= k < i then Blank1(source[k]) else old(out[k])
    {
      if source[i] != '\n' {
        out[i] := ' ';
      }
    }
  }

  /** `mask_comments_and_literals`. */
  method MaskCommentsAndLiterals(source: string) returns (masked: string)
    ensures masked == CodeFrom(Code, source, 0)
    ensures Masks(masked, source)
  {
    hide CodeFrom, Blanked, Masks;
    var output := Characters(source);
    var cursor := 0;
    Associates("", CodeFrom(Code, source, 0), "");
    while cursor < |source|
      invariant cursor <= |source| && output[cursor..] == source[cursor..]
      invariant output[..cursor] + CodeFrom(Code, source, cursor) == CodeFrom(Code, source, 0)
    {
      var end := cursor;
      if PairAt(source, cursor, '/', '/') {
        end := FindOne(source, '\n', cursor);
        LineCommentBlanked(source, cursor);
      } else if PairAt(source, cursor, '/', '*') {
        end := FindPair(source, '*', '/', cursor + 2);
        end := if end == |source| then end else end + 2;
        BlockCommentBlanked(source, cursor);
      } else if source[cursor] == '\'' || source[cursor] == '"' {
        end := LiteralEnd(source, cursor);
      }
      if end > cursor {
        BlankPart(output, source, cursor, end);
        cursor := end;
      } else {
        Keeping(output[..], source, cursor);
        cursor := cursor + 1;
      }
    }
    masked := output[..];
    CodeEnds(source);
    assert output[..|source|] + "" == masked;
    CodeMasks(Code, source, 0);
    assert source[0..] == source;
  }

  method BlankPart(output: array<char>, source: string, cursor: nat, end: nat)
    requires output.Length == |source| && BlankedTo(source, cursor, end) && output[cursor..] == source[cursor..]
    modifies output
    ensures output[end..] == source[end..]
    ensures output[..end] + CodeFrom(Code, source, end) == old(output[..cursor]) + CodeFrom(Code, source, cursor)
  {
    hide CodeFrom, Blanked;
    ghost var before := output[..];
    assert output[cursor..end] == source[cursor..end] by {
      assert output[cursor..end] == output[cursor..][..end - cursor];
    }
    Fill(output, source, cursor, end);
    Blanking(before, output[..], source, cursor, end);
    assert output[..][..end] == output[..end] && output[..][end..] == output[end..];
    assert before[..cursor] == old(output[..cursor]);
  }

  lemma Blanking(before: string, after: string, s: string, i: nat, j: nat)
    requires |before| == |s| && BlankedTo(s, i, j) && before[i..] == s[i..]
    requires after == before[..i] + Blanked(s[i..j]) + before[j..]
    ensures after[j..] == s[j..] && after[..j] + CodeFrom(Code, s, j) == before[..i] + CodeFrom(Code, s, i)
  {
    hide Blanked, CodeFrom;
    TailsAgree(before, s, i, j);
    CutBehind(before[..i], Blanked(s[i..j]), before[j..]);
    Associates(before[..i], Blanked(s[i..j]), CodeFrom(Code, s, j));
  }

  lemma TailsAgree(a: string, b: string, i: nat, j: nat)
    requires i <= j <= |a| == |b| && a[i..] == b[i..]
    ensures a[j..] == b[j..]
  {
    assert a[j..] == a[i..][j - i..] && b[j..] == b[i..][j - i..];
  }

  lemma CutBehind(a: string, b: string, c: string)
    ensures (a + b + c)[..|a| + |b|] == a + b && (a + b + c)[|a| + |b|..] == c
  {
  }

  lemma Keeping(out: string, s: string, i: nat)
    requires i < |s| == |out| && out[i..] == s[i..] && Step(Code, s, i) == (1, Code)
    ensures out[i + 1..] == s[i + 1..] && out[..i + 1] + CodeFrom(Code, s, i + 1) == out[..i] + CodeFrom(Code, s, i)
  {
    hide CodeFrom;
    assert out[i] == out[i..][0] == s[i];
    assert out[i + 1..] == out[i..][1..];
    assert out[..i + 1] == out[..i] + s[i..i + 1];
    CodeUnfolds(s, i);
    Associates(out[..i], s[i..i + 1], CodeFrom(Code, s, i + 1));
  }

  lemma CodeUnfolds(s: string, i: nat)
    requires i < |s| && Step(Code, s, i) == (1, Code)
    ensures CodeFrom(Code, s, i) == s[i..i + 1] + CodeFrom(Code, s, i + 1)
  {
  }

  // ----- what the pass leaves -----

  /** No comment and no literal starts anywhere. */
  predicate Clean(s: string) {
    forall k :: 0 <= k < |s| ==>
      s[k] != '\'' && s[k] != '"' && !PairAt(s, k, '/', '/') && !PairAt(s, k, '/', '*')
  }

  lemma FirstOfCode(state: Lexer, s: string, i: nat)
    requires i <= |s|
    ensures var rest := CodeFrom(state, s, i);
            rest != "" ==> i < |s| && (rest[0] == s[i] || rest[0] == Blank1(s[i]))
  {
    hide CodeFrom;
    CodeMasks(state, s, i);
    if i < |s| {
      assert s[i..][0] == s[i];
    }
  }

  lemma {:induction false} CodeIsClean(state: Lexer, s: string, i: nat)
    requires i <= |s|
    ensures Clean(CodeFrom(state, s, i))
    decreases |s| - i
  {
    hide *;
    if i == |s| {
      EndOfCode(state, s);
    } else {
      var next := Step(state, s, i);
      CodeIsClean(next.1, s, i + next.0);
      Unfolded(state, s, i);
      OnePieceIsClean(state, s, i);
    }
  }

  lemma EndOfCode(state: Lexer, s: string)
    ensures CodeFrom(state, s, |s|) == "" && Clean("")
  {
  }

  lemma OnePieceIsClean(state: Lexer, s: string, i: nat)
    requires i < |s|
    requires var (n, next) := Step(state, s, i); Clean(CodeFrom(next, s, i + n))
    ensures var (n, next) := Step(state, s, i);
            Clean(Piece(state, s, i) + CodeFrom(next, s, i + n))
  {
    hide CodeFrom, Clean;
    var (n, next) := Step(state, s, i);
    var rest := CodeFrom(next, s, i + n);
    if state.Code? && next.Code? {
      FirstOfCode(next, s, i + n);
      ConsIsClean(s[i..i + 1], rest);
    } else {
      BlanksAreClean(Blanked(s[i..i + n]), rest);
    }
  }

  lemma ConsIsClean(one: string, rest: string)
    requires |one| == 1 && Clean(rest) && one[0] != '\'' && one[0] != '"'
    requires one[0] == '/' && rest != "" ==> rest[0] != '/' && rest[0] != '*'
    ensures Clean(one + rest)
  {
    var s := one + rest;
    forall k | 0 <= k < |s|
      ensures s[k] != '\'' && s[k] != '"' && !PairAt(s, k, '/', '/') && !PairAt(s, k, '/', '*') {
      if k > 0 {
        assert s[k] == rest[k - 1] && !PairAt(rest, k - 1, '/', '/') && !PairAt(rest, k - 1, '/', '*');
      }
    }
  }

  lemma BlanksAreClean(blanks: string, rest: string)
    requires Clean(rest) && forall k :: 0 <= k < |blanks| ==> blanks[k] == ' ' || blanks[k] == '\n'
    ensures Clean(blanks + rest)
  {
    var s := blanks + rest;
    forall k | 0 <= k < |s|
      ensures s[k] != '\'' && s[k] != '"' && !PairAt(s, k, '/', '/') && !PairAt(s, k, '/', '*') {
      if k >= |blanks| {
        var j := k - |blanks|;
        assert s[k] == rest[j] && !PairAt(rest, j, '/', '/') && !PairAt(rest, j, '/', '*');
      }
    }
  }

  lemma {:induction false} CleanStays(s: string, i: nat)
    requires Clean(s) && i <= |s|
    ensures CodeFrom(Code, s, i) == s[i..]
    decreases |s| - i
  {
    if i < |s| {
      CleanStays(s, i + 1);
      assert s[i..] == s[i..i + 1] + s[i + 1..];
    }
  }

  /** Masked text holds no comment and no literal, and masking it again changes nothing. */
  lemma MaskingIsComplete(source: string)
    ensures var masked := CodeFrom(Code, source, 0); Clean(masked) && CodeFrom(Code, masked, 0) == masked
  {
    var masked := CodeFrom(Code, source, 0);
    CodeIsClean(Code, source, 0);
    CleanStays(masked, 0);
    assert masked[0..] == masked;
  }

  // ----- EM_JS bodies -----

  /** One match of the macro's name and opening parenthesis: `start` is where it begins, `end` is just past the
      parenthesis. */
  datatype Match = Match(start: nat, end: nat)

  /** The search of the regular expression: for every position the first match from there on. */
  ghost predicate IsSearch(source: string, find: nat -> Option<Match>) {
    forall p: nat {:trigger find(p)} :: p <= |source| && find(p).Some? ==>
      p <= find(p).value.start < find(p).value.end <= |source| && source[find(p).value.end - 1] == '('
  }

  /** Inside a body: how many parentheses are open, and what the scan is inside of. */
  datatype Js = Js(depth: int, quote: Option<char>, escaped: bool, lineComment: bool, blockComment: bool)

  const OUTSIDE := Js(0, None, false, false, false)

  function JsStep(st: Js, s: string, i: nat): (r: (nat, Js))
    requires i < |s|
    ensures 1 <= r.0 <= |s| - i
  {
    var c := s[i];
    if st.lineComment then (1, st.(lineComment := c != '\n'))
    else if st.blockComment then if PairAt(s, i, '*', '/') then (2, st.(blockComment := false)) else (1, st)
    else if st.quote.Some? then
      (1, if st.escaped then st.(escaped := false)
          else if c == '\\' then st.(escaped := true)
          else if c == st.quote.value then st.(quote := None)
          else st)
    else if c == '\'' || c == '"' || c == '`' then (1, st.(quote := Some(c)))
    else if PairAt(s, i, '/', '/') then (2, st.(lineComment := true))
    else if PairAt(s, i, '/', '*') then (2, st.(blockComment := true))
    else if c == '(' then (1, st.(depth := st.depth + 1))
    else if c == ')' then (1, st.(depth := st.depth - 1))
    else (1, st)
  }

  /** The step closes the outermost parenthesis. */
  predicate Closes(st: Js, s: string, i: nat)
    requires i < |s|
  {
    s[i] == ')' && JsStep(st, s, i).1.depth == 0 && st.depth != 0
  }

  /** Just past the parenthesis that closes the body, or the end of the text. */
  function BodyEnd(st: Js, s: string, i: nat): (end: nat)
    requires i <= |s|
    ensures i <= end <= |s| && (i < |s| ==> i < end)
    decreases |s| - i
  {
    if i == |s| then i
    else if Closes(st, s, i) then i + 1
    else
      var (n, next) := JsStep(st, s, i);
      BodyEnd(next, s, i + n)
  }

  method ScanBody(source: string, opening: nat) returns (end: nat)
    requires opening < |source| && source[opening] == '('
    ensures end == BodyEnd(OUTSIDE, source, opening)
  {
    var depth, quote, escaped, lineComment, blockComment := 0, None, false, false, false;
    var cursor := opening;
    while cursor < |source|
      invariant opening <= cursor <= |source|
      invariant cursor == opening ==> depth == 0 && quote == None && !lineComment && !blockComment
      invariant cursor > opening ==> depth > 0
      invariant BodyEnd(Js(depth, quote, escaped, lineComment, blockComment), source, cursor)
                == BodyEnd(OUTSIDE, source, opening)
    {
      var c := source[cursor];
      if lineComment {
        if c == '\n' {
          lineComment := false;
        }
      } else if blockComment {
        if PairAt(source, cursor, '*', '/') {
          blockComment := false;
          cursor := cursor + 1;
        }
      } else if quote.Some? {
        if escaped {
          escaped := false;
        } else if c == '\\' {
          escaped := true;
        } else if c == quote.value {
          quote := None;
        }
      } else if c == '\'' || c == '"' || c == '`' {
        quote := Some(c);
      } else if PairAt(source, cursor, '/', '/') {
        lineComment := true;
        cursor := cursor + 1;
      } else if PairAt(source, cursor, '/', '*') {
        blockComment := true;
        cursor := cursor + 1;
      } else if c == '(' {
        depth := depth + 1;
      } else if c == ')' {
        depth := depth - 1;
        if depth == 0 {
          return cursor + 1;
        }
      }
      cursor := cursor + 1;
    }
    return cursor;
  }

  /** What the lexer alone is inside of: `JsStep` never looks at the depth to move on. */
  function Lexed(st: Js): Js {
    st.(depth := 0)
  }

  /** Neither inside a quote or a comment nor opening one. */
  predicate IsCode(st: Js, s: string, i: nat)
    requires i < |s|
  {
    Plain(st) && Plain(JsStep(st, s, i).1)
  }

  predicate Plain(st: Js) {
    st.quote.None? && !st.lineComment && !st.blockComment
  }

  /** The text from `i` on with every quoted and commented character blanked, by the lexer alone. */
  function CodeOnly(lexer: Js, s: string, i: nat): (r: string)
    requires i <= |s|
    ensures |r| == |s| - i
    decreases |s| - i
  {
    if i == |s| then ""
    else
      var (n, next) := JsStep(lexer, s, i);
      (if IsCode(lexer, s, i) then s[i..i + n] else Blanked(s[i..i + n])) + CodeOnly(Lexed(next), s, i + n)
  }

  function Weight(c: char): int {
    if c == '(' then 1 else if c == ')' then -1 else 0
  }

  /** Open minus closed parentheses. */
  function Net(s: string): int {
    if s == "" then 0 else Weight(s[0]) + Net(s[1..])
  }

  lemma {:induction false} NetConcat(a: string, b: string)
    ensures Net(a + b) == Net(a) + Net(b)
  {
    if a == "" {
      assert a + b == b;
    } else {
      assert (a + b)[1..] == a[1..] + b;
      NetConcat(a[1..], b);
    }
  }

  lemma NetOfShort(s: string)
    ensures s == "" ==> Net(s) == 0
    ensures |s| == 1 ==> Net(s) == Weight(s[0])
    ensures |s| == 2 ==> Net(s) == Weight(s[0]) + Weight(s[1]) && Net(s[..1]) == Weight(s[0])
  {
    if |s| == 2 {
      assert s[1..][1..] == "" && s[..1][1..] == "";
    }
  }

  /** One step of the scan changes the depth by the net parentheses of what the lexer leaves of it, and a step
      of two characters leaves none. */
  lemma StepIsNet(st: Js, s: string, i: nat)
    requires i < |s|
    ensures var (n, next) := JsStep(st, s, i);
            var piece := CodeOnly(Lexed(st), s, i)[..n];
            && CodeOnly(Lexed(st), s, i) == piece + CodeOnly(Lexed(next), s, i + n)
            && next.depth == st.depth + Net(piece)
            && (n == 1 || (n == 2 && Net(piece[..1]) == 0))
  {
    hide JsStep, CodeOnly, CodePiece, Net, Blanked, IsCode;
    StepIgnoresDepth(st, s, i);
    BodyCodeUnfolds(Lexed(st), s, i);
    PieceWeight(Lexed(st), s, i);
    var piece := CodePiece(Lexed(st), s, i);
    assert CodeOnly(Lexed(st), s, i)[..|piece|] == piece;
  }

  /** What a step leaves of the characters it takes. */
  function CodePiece(lexer: Js, s: string, i: nat): (r: string)
    requires i < |s|
    ensures |r| == JsStep(lexer, s, i).0
  {
    var n := JsStep(lexer, s, i).0;
    if IsCode(lexer, s, i) then s[i..i + n] else Blanked(s[i..i + n])
  }

  lemma BodyCodeUnfolds(lexer: Js, s: string, i: nat)
    requires i < |s|
    ensures CodeOnly(lexer, s, i) ==
            CodePiece(lexer, s, i) + CodeOnly(Lexed(JsStep(lexer, s, i).1), s, i + JsStep(lexer, s, i).0)
  {
    hide JsStep, Blanked, IsCode;
  }

  lemma PieceWeight(lexer: Js, s: string, i: nat)
    requires i < |s| && 1 <= JsStep(lexer, s, i).0 <= 2 && (JsStep(lexer, s, i).0 == 2 ==> !IsCode(lexer, s, i))
    ensures var piece := CodePiece(lexer, s, i);
            && Net(piece) == (if IsCode(lexer, s, i) then Weight(s[i]) else 0)
            && (|piece| == 2 ==> Net(piece[..1]) == 0)
  {
    hide JsStep, IsCode, Net;
    NetOfShort(CodePiece(lexer, s, i));
  }

  lemma StepIgnoresDepth(st: Js, s: string, i: nat)
    requires i < |s|
    ensures var (n, next) := JsStep(st, s, i);
            && JsStep(Lexed(st), s, i).0 == n && Lexed(JsStep(Lexed(st), s, i).1) == Lexed(next)
            && 1 <= n <= 2 && (n == 2 ==> !IsCode(Lexed(st), s, i))
            && next.depth == st.depth + if IsCode(Lexed(st), s, i) then Weight(s[i]) else 0
  {
  }

  /** The first `n` prefixes leave a parenthesis open. */
  ghost predicate OpenUntil(depth: int, code: string, n: nat)
    requires n <= |code| + 1
  {
    forall k {:trigger code[..k]} :: 0 <= k < n ==> depth + Net(code[..k]) > 0
  }

  lemma NetTail(piece: string, rest: string, k: nat)
    requires |piece| <= k <= |piece + rest|
    ensures Net((piece + rest)[..k]) == Net(piece) + Net(rest[..k - |piece|])
  {
    assert (piece + rest)[..k] == piece + rest[..k - |piece|];
    NetConcat(piece, rest[..k - |piece|]);
  }

  lemma ClosesOrStaysOpen(st: Js, s: string, i: nat)
    requires i < |s| && st.depth > 0
    ensures var (n, next) := JsStep(st, s, i); if Closes(st, s, i) then n == 1 && next.depth == 0 else next.depth > 0
  {
  }

  lemma OpenLater(depth: int, piece: string, rest: string, n: nat)
    requires depth > 0 && n <= |rest| + 1 && OpenUntil(depth + Net(piece), rest, n)
    requires |piece| == 1 || (|piece| == 2 && Net(piece[..1]) == 0)
    ensures OpenUntil(depth, piece + rest, |piece| + n)
  {
    var code := piece + rest;
    forall k | 0 <= k < |piece| + n ensures depth + Net(code[..k]) > 0 {
      if k >= |piece| {
        NetTail(piece, rest, k);
        assert depth + Net(piece) + Net(rest[..k - |piece|]) > 0;
      } else {
        assert code[..k] == piece[..k];
        NetOfShort("");
      }
    }
  }

  /** Somewhere inside a body, `st.depth` parentheses being open: with quotes and comments set aside, the number
      of open parentheses stays positive up to the end of the body, and is zero there unless the text ends
      first. So the end is the matching parenthesis, whatever is quoted or commented out on the way. */
  lemma {:induction false} BodyEndMatches(st: Js, s: string, i: nat)
    requires i <= |s| && st.depth > 0
    ensures var code, length := CodeOnly(Lexed(st), s, i), BodyEnd(st, s, i) - i;
            && OpenUntil(st.depth, code, length)
            && (st.depth + Net(code[..length]) == 0 || (length == |code| && st.depth + Net(code) > 0))
    decreases |s| - i
  {
    hide Closes, JsStep, CodeOnly, Lexed, Net, OpenUntil;
    var code := CodeOnly(Lexed(st), s, i);
    if i == |s| {
      TextHasEnded(st, s);
    } else {
      var (n, next) := JsStep(st, s, i);
      var piece, rest := code[..n], CodeOnly(Lexed(next), s, i + n);
      StepIsNet(st, s, i);
      ClosesOrStaysOpen(st, s, i);
      if Closes(st, s, i) {
        NothingToCheck(st.depth + Net(piece), rest);
        OpenLater(st.depth, piece, rest, 0);
      } else {
        BodyEndMatches(next, s, i + n);
        var length := BodyEnd(next, s, i + n) - i - n;
        OpenLater(st.depth, piece, rest, length);
        NetTail(piece, rest, n + length);
        NetConcat(piece, rest);
      }
    }
  }

  lemma TextHasEnded(st: Js, s: string)
    requires st.depth > 0
    ensures CodeOnly(Lexed(st), s, |s|) == "" && Net("") == 0 && OpenUntil(st.depth, "", 0)
  {
  }

  lemma NothingToCheck(depth: int, code: string)
    ensures OpenUntil(depth, code, 0)
  {
  }

  /** From the opening parenthesis of a macro on: its body ends at the parenthesis that closes it. */
  lemma BodyIsBalanced(s: string, opening: nat)
    requires opening < |s| && s[opening] == '('
    ensures var code, length := CodeOnly(OUTSIDE, s, opening), BodyEnd(OUTSIDE, s, opening) - opening;
            && (forall k {:trigger code[..k]} :: 0 < k < length ==> Net(code[..k]) > 0)
            && (Net(code[..length]) == 0 || (length == |code| && Net(code) > 0))
  {
    hide CodeOnly, Net;
    var next := OUTSIDE.(depth := 1);
    assert JsStep(OUTSIDE, s, opening) == (1, next);
    StepIsNet(OUTSIDE, s, opening);
    BodyEndMatches(next, s, opening + 1);
    var code, rest := CodeOnly(OUTSIDE, s, opening), CodeOnly(Lexed(next), s, opening + 1);
    var piece, length := code[..1], BodyEnd(next, s, opening + 1) - opening - 1;
    assert code == piece + rest && Net(piece) == 1;
    forall k | 0 < k < length + 1 ensures Net(code[..k]) > 0 {
      NetTail(piece, rest, k);
      assert 1 + Net(rest[..k - 1]) > 0;
    }
    NetTail(piece, rest, length + 1);
    NetConcat(piece, rest);
  }

  /** The text from `position` on, every body after a match blanked with its macro name. */
  function WithoutBodies(source: string, find: nat -> Option<Match>, position: nat): string
    requires IsSearch(source, find) && position <= |source|
    decreases |source| - position
  {
    var m := find(position);
    if m.None? then source[position..]
    else
      var end := BodyEnd(OUTSIDE, source, m.value.end - 1);
      source[position..m.value.start] + Blanked(source[m.value.start..end]) + WithoutBodies(source, find, end)
  }

  lemma {:induction false} WithoutBodiesMasks(source: string, find: nat -> Option<Match>, position: nat)
    requires IsSearch(source, find) && position <= |source|
    ensures Masks(WithoutBodies(source, find, position), source[position..])
    decreases |source| - position
  {
    hide BodyEnd, Masks, Blanked;
    var m := find(position);
    if m.None? {
      MaskedParts(source[position..]);
    } else {
      var end := BodyEnd(OUTSIDE, source, m.value.end - 1);
      var before, body := source[position..m.value.start], source[m.value.start..end];
      WithoutBodiesMasks(source, find, end);
      MaskedParts(before);
      MaskedParts(body);
      MasksJoin(before, before, Blanked(body), body);
      MasksJoin(before + Blanked(body), before + body, WithoutBodies(source, find, end), source[end..]);
      assert source[position..] == before + body + source[end..];
    }
  }

  /** `mask_emscripten_body`. */
  method MaskEmscriptenBodies(source: string, find: nat -> Option<Match>) returns (masked: string)
    requires IsSearch(source, find)
    ensures masked == WithoutBodies(source, find, 0)
    ensures Masks(masked, source)
  {
    hide Blanked, BodyEnd, WithoutBodies, Masks, IsSearch;
    var output := Characters(source);
    var position := 0;
    ghost var done := "";
    assert source[0..] == source;
    Associates("", WithoutBodies(source, find, 0), "");
    Associates("", source, "");
    while find(position).Some?
      invariant position == |done| <= |source| && output[..] == done + source[position..]
      invariant done + WithoutBodies(source, find, position) == WithoutBodies(source, find, 0)
      decreases |source| - position
    {
      position, done := BlankBody(output, source, find, position, done);
    }
    masked := output[..];
    NoMoreBodies(source, find, position);
    WithoutBodiesMasks(source, find, 0);
  }

  /** Blanks the next match with its body; `done` is what the text before it has become. */
  method BlankBody(output: array<char>, source: string, find: nat -> Option<Match>, position: nat, ghost done: string)
      returns (end: nat, ghost after: string)
    requires IsSearch(source, find) && position <= |source| && find(position).Some?
    requires |done| == position && output[..] == done + source[position..]
    modifies output
    ensures position < end == |after| <= |source| && output[..] == after + source[end..]
    ensures after + WithoutBodies(source, find, end) == done + WithoutBodies(source, find, position)
  {
    hide Blanked, BodyEnd, WithoutBodies, Closes, JsStep;
    var m := find(position).value;
    end := ScanBody(source, m.end - 1);
    ghost var body := Blanked(source[m.start..end]);
    after := done + source[position..m.start] + body;
    BodyUnfolds(source, find, position);
    Parts(done, source, position, m.start, end);
    assert output[m.start..end] == output[..][m.start..end];
    Fill(output, source, m.start, end);
    Regroup(done, source[position..m.start], body, WithoutBodies(source, find, end));
  }

  lemma Parts(done: string, source: string, position: nat, start: nat, end: nat)
    requires |done| == position <= start <= end <= |source|
    ensures var all := done + source[position..];
            && |all| == |source| && all[start..end] == source[start..end]
            && all[..start] == done + source[position..start] && all[end..] == source[end..]
  {
  }

  lemma Regroup(a: string, b: string, c: string, d: string)
    ensures a + b + c + d == a + (b + c + d)
  {
  }

  lemma NoMoreBodies(source: string, find: nat -> Option<Match>, position: nat)
    requires IsSearch(source, find) && position <= |source| && find(position).None?
    ensures WithoutBodies(source, find, position) == source[position..]
  {
  }

  lemma BodyUnfolds(source: string, find: nat -> Option<Match>, position: nat)
    requires IsSearch(source, find) && position <= |source| && find(position).Some?
    ensures var m := find(position).value; var end := BodyEnd(OUTSIDE, source, m.end - 1);
            && m.end <= end
            && WithoutBodies(source, find, position)
               == source[position..m.start] + Blanked(source[m.start..end]) + WithoutBodies(source, find, end)
  {
    hide BodyEnd, Blanked;
  }

  /** One blanked stretch: a macro with its body. */
  datatype Span = Span(start: nat, end: nat)

  /** From `position` on: each span runs from the next match to the end of its body, and after the last one there is no
      further match. */
  ghost predicate AreBodies(source: string, find: nat -> Option<Match>, position: nat, spans: seq<Span>)
    requires IsSearch(source, find) && position <= |source|
    decreases |spans|
  {
    if spans == [] then find(position).None?
    else
      && find(position).Some?
      && spans[0] == Span(find(position).value.start, BodyEnd(OUTSIDE, source, find(position).value.end - 1))
      && AreBodies(source, find, spans[0].end, spans[1..])
  }

  predicate Covered(spans: seq<Span>, k: nat) {
    exists i :: 0 <= i < |spans| && spans[i].start <= k < spans[i].end
  }

  /** `r` is the text from `position` on with the spans, and nothing else, blanked. */
  predicate BlankedIn(source: string, position: nat, r: string, spans: seq<Span>)
    requires position <= |source|
  {
    && |r| == |source| - position
    && forall k :: position <= k < |source| ==>
         r[k - position] == if Covered(spans, k) then Blank1(source[k]) else source[k]
  }

  lemma BlankedJoins(source: string, position: nat, first: Span, r: string, rest: seq<Span>)
    requires position <= first.start <= first.end <= |source| && BlankedIn(source, first.end, r, rest)
    requires forall k: nat :: Covered(rest, k) ==> first.end <= k
    ensures BlankedIn(source, position,
                      source[position..first.start] + Blanked(source[first.start..first.end]) + r, [first] + rest)
  {
    hide Covered;
    forall k: nat ensures Covered([first] + rest, k) <==> first.start <= k < first.end || Covered(rest, k) {
      OneMoreSpan(first, rest, k);
    }
  }

  /** Exactly the characters of the matched macros and their bodies are blanked, from the first match to the last. */
  lemma {:induction false} BodiesExactly(source: string, find: nat -> Option<Match>, position: nat)
      returns (spans: seq<Span>)
    requires IsSearch(source, find) && position <= |source|
    ensures AreBodies(source, find, position, spans)
    ensures BlankedIn(source, position, WithoutBodies(source, find, position), spans)
    decreases |source| - position
  {
    hide BodyEnd, BlankedIn, Blanked, WithoutBodies;
    var m := find(position);
    if m.None? {
      spans := [];
      NoMoreBodies(source, find, position);
      NothingBlanked(source, position);
    } else {
      BodyUnfolds(source, find, position);
      var first := Span(m.value.start, BodyEnd(OUTSIDE, source, m.value.end - 1));
      var rest := BodiesExactly(source, find, first.end);
      spans := [first] + rest;
      SpansFollow(source, find, first.end, rest);
      assert spans[1..] == rest;
      BlankedJoins(source, position, first, WithoutBodies(source, find, first.end), rest);
    }
  }

  lemma NothingBlanked(source: string, position: nat)
    requires position <= |source|
    ensures BlankedIn(source, position, source[position..], [])
  {
  }

  lemma OneMoreSpan(first: Span, rest: seq<Span>, k: nat)
    ensures Covered([first] + rest, k) <==> first.start <= k < first.end || Covered(rest, k)
  {
    var spans := [first] + rest;
    assert spans[0] == first && forall i :: 0 <= i < |rest| ==> spans[i + 1] == rest[i];
    if i :| 0 <= i < |spans| && spans[i].start <= k < spans[i].end {
      assert i > 0 ==> spans[i] == rest[i - 1];
    }
  }

  lemma {:induction false} SpansFollow(source: string, find: nat -> Option<Match>, position: nat, spans: seq<Span>)
    requires IsSearch(source, find) && position <= |source| && AreBodies(source, find, position, spans)
    ensures forall k: nat :: Covered(spans, k) ==> position <= k
    decreases |spans|
  {
    hide BodyEnd;
    if spans != [] {
      BodyUnfolds(source, find, position);
      SpansFollow(source, find, spans[0].end, spans[1..]);
      forall k: nat | Covered(spans, k) ensures position <= k {
        assert spans == [spans[0]] + spans[1..];
        OneMoreSpan(spans[0], spans[1..], k);
      }
    }
  }

  /** The three passes in the order they are run; `split` divides a text into lines and classifies them. The result
      has the newlines of the source, so that line numbers read off it are the source's. */
  method MaskSource(source: string, find: nat -> Option<Match>, split: string -> seq<Line>) returns (masked: string)
    requires IsSearch(source, find) && forall text :: Source(split(text)) == text
    ensures masked == CodeFrom(Code, Joined(MaskedLines(split(WithoutBodies(source, find, 0)))), 0)
    ensures Masks(masked, source)
    ensures forall at :: 0 <= at <= |source| ==> Newlines(masked[..at]) == Newlines(source[..at])
  {
    hide Masks, WithoutBodies, CodeFrom, Joined;
    var first := MaskEmscriptenBodies(source, find);
    var lines := split(first);
    var parts := MaskBranches(lines);
    assert parts == MaskedLines(lines);
    var second := Joined(parts);
    masked := MaskCommentsAndLiterals(second);
    MasksCompose(masked, second, first);
    MasksCompose(masked, first, source);
    SameLength(masked, source);
    forall at | 0 <= at <= |source| ensures Newlines(masked[..at]) == Newlines(source[..at]) {
      MaskKeepsLineNumbers(masked, source, at);
    }
  }

  lemma SameLength(out: string, source: string)
    requires Masks(out, source)
    ensures |out| == |source|
  {
  }
}
