/** The two lexers of the masking passes against a grammar of tokens: code, comments and quoted literals. */
module TokenMask {
  import opened SourceMask
  import opened LiteralMask
  import opened Options

  /** A character of a literal: itself, or behind a backslash. */
  datatype Mark = Raw(c: char) | Escaped(c: char)

  datatype Token =
    | Single(c: char)
    | LineNote(text: string) | BlockNote(text: string)
    | Quoted(quote: char, marks: seq<Mark>)

  function MarkText(m: Mark): string {
    if m.Raw? then [m.c] else ['\\', m.c]
  }

  function MarksText(marks: seq<Mark>): string {
    if marks == [] then "" else MarkText(marks[0]) + MarksText(marks[1..])
  }

  function TokenText(t: Token): (r: string)
    ensures r != ""
  {
    match t
    case Single(c) => [c]
    case LineNote(text) => "//" + text
    case BlockNote(text) => "/*" + text + "*/"
    case Quoted(quote, marks) => [quote] + MarksText(marks) + [quote]
  }

  function TextOf(tokens: seq<Token>): string {
    if tokens == [] then "" else TokenText(tokens[0]) + TextOf(tokens[1..])
  }

  /** The code of the tokens stays, comments and literals are blanked. */
  function KeptOf(tokens: seq<Token>): string {
    if tokens == [] then ""
    else (if tokens[0].Single? then [tokens[0].c] else Blanked(TokenText(tokens[0]))) + KeptOf(tokens[1..])
  }

  /** The token is what it seems to be in front of `rest`: code starts no comment and no literal, a line comment runs
      up to the newline, a block comment holds no end of one, and a literal only escaped quotes and backslashes. */
  predicate TokenOk(t: Token, quotes: set<char>, rest: string) {
    match t
    case Single(c) => c !in quotes && (c == '/' && rest != "" ==> rest[0] != '/' && rest[0] != '*')
    case LineNote(text) => '\n' !in text && (rest != "" ==> rest[0] == '\n')
    case BlockNote(text) => forall k :: 0 <= k < |text| ==> !PairAt(text, k, '*', '/')
    case Quoted(quote, marks) =>
      quote in quotes && forall k :: 0 <= k < |marks| && marks[k].Raw? ==> marks[k].c != quote && marks[k].c != '\\'
  }

  predicate TokensOk(tokens: seq<Token>, quotes: set<char>) {
    tokens != [] ==> TokenOk(tokens[0], quotes, TextOf(tokens[1..])) && TokensOk(tokens[1..], quotes)
  }

  const NATIVE_QUOTES := {'\'', '"'}
  const SCRIPT_QUOTES := {'\'', '"', '`'}

  // ----- texts at a position -----

  /** `part` stands in `s` from `i` on. */
  predicate StandsAt(s: string, i: nat, part: string) {
    i + |part| <= |s| && s[i..i + |part|] == part
  }

  lemma StandsInParts(s: string, i: nat, a: string, b: string)
    requires StandsAt(s, i, a + b)
    ensures StandsAt(s, i, a) && StandsAt(s, i + |a|, b)
  {
    assert (a + b)[..|a|] == a && (a + b)[|a|..] == b;
    assert s[i..i + |a|] == s[i..i + |a + b|][..|a|];
    assert s[i + |a|..i + |a| + |b|] == s[i..i + |a + b|][|a|..];
  }

  lemma CharacterAt(s: string, i: nat, part: string, k: nat)
    requires StandsAt(s, i, part) && k < |part|
    ensures s[i + k] == part[k]
  {
    assert s[i..i + |part|][k] == part[k];
  }

  // ----- the lexer of the native languages -----

  /** From `i` to `j` everything is blanked, and the lexer goes on in `to`. */
  predicate Blanks(from: Lexer, s: string, i: nat, to: Lexer, j: nat) {
    i <= j <= |s| && CodeFrom(from, s, i) == Blanked(s[i..j]) + CodeFrom(to, s, j)
  }

  lemma BlanksJoin(a: Lexer, s: string, i: nat, b: Lexer, j: nat, c: Lexer, k: nat)
    requires Blanks(a, s, i, b, j) && Blanks(b, s, j, c, k)
    ensures Blanks(a, s, i, c, k)
  {
    hide CodeFrom, Blanked;
    BlankedSplits(s, i, j, k);
    Associates(Blanked(s[i..j]), Blanked(s[j..k]), CodeFrom(c, s, k));
  }

  lemma MarkBlanks(s: string, i: nat, quote: char, m: Mark)
    requires StandsAt(s, i, MarkText(m)) && (m.Raw? ==> m.c != quote && m.c != '\\') && quote != '\\'
    ensures Blanks(Literal(quote, false), s, i, Literal(quote, false), i + |MarkText(m)|)
  {
    hide CodeFrom, Blanked;
    CharacterAt(s, i, MarkText(m), 0);
    LiteralUnfolds(Literal(quote, false), s, i);
    if m.Escaped? {
      LiteralUnfolds(Literal(quote, true), s, i + 1);
      assert Blanks(Literal(quote, false), s, i, Literal(quote, true), i + 1);
      assert Blanks(Literal(quote, true), s, i + 1, Literal(quote, false), i + 2);
      BlanksJoin(Literal(quote, false), s, i, Literal(quote, true), i + 1, Literal(quote, false), i + 2);
    }
  }

  lemma {:induction false} MarksBlank(s: string, i: nat, quote: char, marks: seq<Mark>)
    requires StandsAt(s, i, MarksText(marks) + [quote]) && quote != '\\'
    requires forall k :: 0 <= k < |marks| && marks[k].Raw? ==> marks[k].c != quote && marks[k].c != '\\'
    ensures Blanks(Literal(quote, false), s, i, Code, i + |MarksText(marks)| + 1)
    decreases |marks|
  {
    hide CodeFrom, Blanked, StandsAt, Blanks, Step;
    if marks == [] {
      ClosingQuote(s, i, quote);
    } else {
      var head, tail := MarkText(marks[0]), MarksText(marks[1..]);
      assert MarksText(marks) + [quote] == head + (tail + [quote]);
      StandsInParts(s, i, head, tail + [quote]);
      MarkBlanks(s, i, quote, marks[0]);
      MarksBlank(s, i + |head|, quote, marks[1..]);
      BlanksJoin(Literal(quote, false), s, i, Literal(quote, false), i + |head|, Code, i + |head| + |tail| + 1);
    }
  }

  lemma ClosingQuote(s: string, i: nat, quote: char)
    requires StandsAt(s, i, "" + [quote]) && quote != '\\'
    ensures Blanks(Literal(quote, false), s, i, Code, i + 1)
  {
    hide CodeFrom, Blanked;
    CharacterAt(s, i, "" + [quote], 0);
    LiteralUnfolds(Literal(quote, false), s, i);
  }

  lemma OpeningQuote(s: string, i: nat, quote: char)
    requires StandsAt(s, i, [quote]) && quote in NATIVE_QUOTES
    ensures Blanks(Code, s, i, Literal(quote, false), i + 1)
  {
    hide CodeFrom, Blanked;
    CharacterAt(s, i, [quote], 0);
    LiteralUnfolds(Code, s, i);
  }

  lemma QuotedBlanks(s: string, i: nat, quote: char, marks: seq<Mark>)
    requires StandsAt(s, i, TokenText(Quoted(quote, marks))) && TokenOk(Quoted(quote, marks), NATIVE_QUOTES, "")
    ensures Blanks(Code, s, i, Code, i + |TokenText(Quoted(quote, marks))|)
  {
    hide CodeFrom, Blanked, StandsAt, Blanks;
    var body := MarksText(marks) + [quote];
    Associates([quote], MarksText(marks), [quote]);
    StandsInParts(s, i, [quote], body);
    OpeningQuote(s, i, quote);
    MarksBlank(s, i + 1, quote, marks);
    BlanksJoin(Code, s, i, Literal(quote, false), i + 1, Code, i + 1 + |body|);
  }

  lemma LineNoteBlanks(s: string, i: nat, text: string)
    requires StandsAt(s, i, "//" + text) && '\n' !in text
    requires var j := i + 2 + |text|; j == |s| || s[j] == '\n'
    ensures Blanks(Code, s, i, Code, i + 2 + |text|)
  {
    hide CodeFrom, Blanked;
    NoteHasNoNewline(s, i, text);
    LineCommentBlanked(s, i);
  }

  lemma NoteHasNoNewline(s: string, i: nat, text: string)
    requires StandsAt(s, i, "//" + text) && '\n' !in text
    ensures PairAt(s, i, '/', '/') && forall k :: i <= k < i + 2 + |text| ==> s[k] != '\n'
  {
    forall k | i <= k < i + 2 + |text| ensures s[k] == ("//" + text)[k - i] {
      CharacterAt(s, i, "//" + text, k - i);
    }
  }

  /** The places between the marks of a block comment do not end it; its last two characters do. */
  lemma BlockNoteEnds(s: string, i: nat, text: string)
    requires StandsAt(s, i, TokenText(BlockNote(text))) && forall k :: 0 <= k < |text| ==> !PairAt(text, k, '*', '/')
    ensures PairAt(s, i, '/', '*') && PairAt(s, i + 2 + |text|, '*', '/')
    ensures forall k :: i + 2 <= k < i + 2 + |text| ==> !PairAt(s, k, '*', '/')
  {
    var whole := TokenText(BlockNote(text));
    assert whole == "/*" + text + "*/";
    forall k | i <= k < i + |whole| ensures s[k] == whole[k - i] {
      CharacterAt(s, i, whole, k - i);
    }
    forall k | i + 2 <= k < i + 2 + |text| ensures !PairAt(s, k, '*', '/') {
      assert !PairAt(text, k - i - 2, '*', '/');
    }
  }

  lemma BlockNoteBlanks(s: string, i: nat, text: string)
    requires StandsAt(s, i, TokenText(BlockNote(text))) && forall k :: 0 <= k < |text| ==> !PairAt(text, k, '*', '/')
    ensures Blanks(Code, s, i, Code, i + |text| + 4)
  {
    hide CodeFrom, Blanked, PairAt;
    BlockNoteEnds(s, i, text);
    BlockCommentBlanked(s, i);
  }

  lemma SingleStays(s: string, i: nat, c: char)
    requires i < |s| && s[i] == c && c !in NATIVE_QUOTES
    requires c == '/' && i + 1 < |s| ==> s[i + 1] != '/' && s[i + 1] != '*'
    ensures CodeFrom(Code, s, i) == [c] + CodeFrom(Code, s, i + 1)
  {
    assert Step(Code, s, i) == (1, Code);
    assert s[i..i + 1] == [c];
  }

  /** A token that is no code is blanked, and code follows. */
  lemma TokenBlanks(s: string, i: nat, t: Token)
    requires StandsAt(s, i, TokenText(t)) && !t.Single? && TokenOk(t, NATIVE_QUOTES, s[i + |TokenText(t)|..])
    ensures Blanks(Code, s, i, Code, i + |TokenText(t)|)
  {
    hide CodeFrom, Blanked, Blanks;
    match t
    case LineNote(text) => LineNoteBlanks(s, i, text);
    case BlockNote(text) => BlockNoteBlanks(s, i, text);
    case Quoted(quote, marks) => QuotedBlanks(s, i, quote, marks);
  }

  lemma SplitTokens(s: string, i: nat, tokens: seq<Token>)
    requires i <= |s| && tokens != [] && s[i..] == TextOf(tokens)
    ensures var j := i + |TokenText(tokens[0])|;
            StandsAt(s, i, TokenText(tokens[0])) && j <= |s| && s[j..] == TextOf(tokens[1..])
  {
    var head, tail := TokenText(tokens[0]), TextOf(tokens[1..]);
    assert s[i..] == head + tail;
    assert s[i..i + |head|] == s[i..][..|head|] && s[i + |head|..] == s[i..][|head|..];
  }

  /** Whatever tokens a text is made of, the lexer keeps its code and blanks its comments and literals. */
  lemma {:induction false} TokensAreMasked(s: string, i: nat, tokens: seq<Token>)
    requires i <= |s| && s[i..] == TextOf(tokens) && TokensOk(tokens, NATIVE_QUOTES)
    ensures CodeFrom(Code, s, i) == KeptOf(tokens)
    decreases |tokens|
  {
    if tokens == [] {
      assert i == |s|;
    } else {
      hide CodeFrom, Blanked, StandsAt, TokenOk;
      SplitTokens(s, i, tokens);
      var t, j := tokens[0], i + |TokenText(tokens[0])|;
      TokensAreMasked(s, j, tokens[1..]);
      if t.Single? {
        SingleToken(s, i, t);
      } else {
        TokenBlanks(s, i, t);
        StandsAsText(s, i, TokenText(t));
      }
    }
  }

  lemma StandsAsText(s: string, i: nat, part: string)
    requires StandsAt(s, i, part)
    ensures i + |part| <= |s| && s[i..i + |part|] == part
  {
  }

  lemma SingleToken(s: string, i: nat, t: Token)
    requires t.Single? && StandsAt(s, i, TokenText(t)) && TokenOk(t, NATIVE_QUOTES, s[i + 1..])
    ensures CodeFrom(Code, s, i) == [t.c] + CodeFrom(Code, s, i + 1)
  {
    hide CodeFrom;
    CharacterAt(s, i, TokenText(t), 0);
    SingleStays(s, i, t.c);
  }

  // ----- the lexer of the script bodies -----

  const IN_LINE := Js(0, None, false, true, false)
  const IN_BLOCK := Js(0, None, false, false, true)

  function InQuote(quote: char, escaped: bool): Js {
    Js(0, Some(quote), escaped, false, false)
  }

  predicate JsBlanks(from: Js, s: string, i: nat, to: Js, j: nat) {
    i <= j <= |s| && CodeOnly(from, s, i) == Blanked(s[i..j]) + CodeOnly(to, s, j)
  }

  lemma JsBlanksJoin(a: Js, s: string, i: nat, b: Js, j: nat, c: Js, k: nat)
    requires JsBlanks(a, s, i, b, j) && JsBlanks(b, s, j, c, k)
    ensures JsBlanks(a, s, i, c, k)
  {
    hide CodeOnly, Blanked;
    BlankedSplits(s, i, j, k);
    Associates(Blanked(s[i..j]), Blanked(s[j..k]), CodeOnly(c, s, k));
  }

  /** A step that is not code is blanked. */
  lemma JsStepBlanks(from: Js, s: string, i: nat)
    requires i < |s| && !IsCode(from, s, i)
    ensures JsBlanks(from, s, i, Lexed(JsStep(from, s, i).1), i + JsStep(from, s, i).0)
  {
    hide Blanked, JsStep;
  }

  lemma JsStaysBlank(from: Js, s: string, i: nat)
    requires i <= |s|
    ensures JsBlanks(from, s, i, from, i)
  {
    hide CodeOnly, Blanked;
    BlankedNothing(s, i);
  }

  lemma JsMarkBlanks(s: string, i: nat, quote: char, m: Mark)
    requires StandsAt(s, i, MarkText(m)) && (m.Raw? ==> m.c != quote && m.c != '\\') && quote != '\\'
    ensures JsBlanks(InQuote(quote, false), s, i, InQuote(quote, false), i + |MarkText(m)|)
  {
    hide CodeOnly, Blanked, JsBlanks;
    CharacterAt(s, i, MarkText(m), 0);
    JsStepBlanks(InQuote(quote, false), s, i);
    if m.Escaped? {
      JsStepBlanks(InQuote(quote, true), s, i + 1);
      JsBlanksJoin(InQuote(quote, false), s, i, InQuote(quote, true), i + 1, InQuote(quote, false), i + 2);
    }
  }

  lemma {:induction false} JsMarksBlank(s: string, i: nat, quote: char, marks: seq<Mark>)
    requires StandsAt(s, i, MarksText(marks) + [quote]) && quote != '\\'
    requires forall k :: 0 <= k < |marks| && marks[k].Raw? ==> marks[k].c != quote && marks[k].c != '\\'
    ensures JsBlanks(InQuote(quote, false), s, i, OUTSIDE, i + |MarksText(marks)| + 1)
    decreases |marks|
  {
    hide CodeOnly, Blanked, StandsAt, JsBlanks, JsStep;
    if marks == [] {
      JsClosingQuote(s, i, quote);
    } else {
      var head, tail := MarkText(marks[0]), MarksText(marks[1..]);
      assert MarksText(marks) + [quote] == head + (tail + [quote]);
      StandsInParts(s, i, head, tail + [quote]);
      JsMarkBlanks(s, i, quote, marks[0]);
      JsMarksBlank(s, i + |head|, quote, marks[1..]);
      JsBlanksJoin(InQuote(quote, false), s, i, InQuote(quote, false), i + |head|, OUTSIDE, i + |head| + |tail| + 1);
    }
  }

  lemma JsClosingQuote(s: string, i: nat, quote: char)
    requires StandsAt(s, i, "" + [quote]) && quote != '\\'
    ensures JsBlanks(InQuote(quote, false), s, i, OUTSIDE, i + 1)
  {
    hide CodeOnly, Blanked, JsBlanks;
    CharacterAt(s, i, "" + [quote], 0);
    JsStepBlanks(InQuote(quote, false), s, i);
  }

  lemma JsQuotedBlanks(s: string, i: nat, quote: char, marks: seq<Mark>)
    requires StandsAt(s, i, TokenText(Quoted(quote, marks))) && TokenOk(Quoted(quote, marks), SCRIPT_QUOTES, "")
    ensures JsBlanks(OUTSIDE, s, i, OUTSIDE, i + |TokenText(Quoted(quote, marks))|)
  {
    hide CodeOnly, Blanked, JsBlanks;
    var body := MarksText(marks) + [quote];
    Associates([quote], MarksText(marks), [quote]);
    StandsInParts(s, i, [quote], body);
    CharacterAt(s, i, [quote], 0);
    JsStepBlanks(OUTSIDE, s, i);
    JsMarksBlank(s, i + 1, quote, marks);
    JsBlanksJoin(OUTSIDE, s, i, InQuote(quote, false), i + 1, OUTSIDE, i + 1 + |body|);
  }

  /** A stretch of a comment that does not end it. */
  lemma {:induction false} JsSkips(state: Js, s: string, i: nat, j: nat)
    requires i <= j <= |s| && (state == IN_LINE || state == IN_BLOCK)
    requires forall k :: i <= k < j ==> if state == IN_LINE then s[k] != '\n' else !PairAt(s, k, '*', '/')
    ensures JsBlanks(state, s, i, state, j)
    decreases j - i
  {
    hide CodeOnly, Blanked, JsBlanks, PairAt;
    if i == j {
      JsStaysBlank(state, s, i);
    } else {
      JsStepBlanks(state, s, i);
      JsSkips(state, s, i + 1, j);
      JsBlanksJoin(state, s, i, state, i + 1, state, j);
    }
  }

  lemma JsSingleToken(s: string, i: nat, t: Token)
    requires t.Single? && StandsAt(s, i, TokenText(t)) && TokenOk(t, SCRIPT_QUOTES, s[i + 1..])
    ensures CodeOnly(OUTSIDE, s, i) == [t.c] + CodeOnly(OUTSIDE, s, i + 1)
  {
    CharacterAt(s, i, TokenText(t), 0);
    assert JsStep(OUTSIDE, s, i).0 == 1 && Lexed(JsStep(OUTSIDE, s, i).1) == OUTSIDE;
    assert s[i..i + 1] == [t.c];
  }

  lemma JsEnds(s: string)
    ensures CodeOnly(IN_LINE, s, |s|) == CodeOnly(OUTSIDE, s, |s|)
  {
  }

  lemma JsNewlineIsItself(s: string, at: nat)
    requires at == |s| || (at < |s| && s[at] == '\n')
    ensures CodeOnly(IN_LINE, s, at) == CodeOnly(OUTSIDE, s, at)
  {
    hide CodeOnly;
    if at == |s| {
      JsEnds(s);
    } else {
      JsStepBlanks(IN_LINE, s, at);
      assert s[at..at + 1] == ['\n'] == Blanked(s[at..at + 1]);
      JsSingleToken(s, at, Single('\n'));
    }
  }

  lemma JsLineNoteBlanks(s: string, i: nat, text: string)
    requires StandsAt(s, i, "//" + text) && '\n' !in text
    requires var j := i + 2 + |text|; j == |s| || s[j] == '\n'
    ensures JsBlanks(OUTSIDE, s, i, OUTSIDE, i + 2 + |text|)
  {
    hide CodeOnly, Blanked;
    NoteHasNoNewline(s, i, text);
    JsStepBlanks(OUTSIDE, s, i);
    JsSkips(IN_LINE, s, i + 2, i + 2 + |text|);
    JsBlanksJoin(OUTSIDE, s, i, IN_LINE, i + 2, IN_LINE, i + 2 + |text|);
    JsNewlineIsItself(s, i + 2 + |text|);
  }

  lemma JsBlockEdges(s: string, i: nat)
    ensures PairAt(s, i, '/', '*') ==> JsBlanks(OUTSIDE, s, i, IN_BLOCK, i + 2)
    ensures PairAt(s, i, '*', '/') ==> JsBlanks(IN_BLOCK, s, i, OUTSIDE, i + 2)
  {
    hide CodeOnly, Blanked, JsBlanks;
    if PairAt(s, i, '/', '*') {
      JsStepBlanks(OUTSIDE, s, i);
    } else if PairAt(s, i, '*', '/') {
      JsStepBlanks(IN_BLOCK, s, i);
    }
  }

  lemma JsBlockNoteBlanks(s: string, i: nat, text: string)
    requires StandsAt(s, i, TokenText(BlockNote(text))) && forall k :: 0 <= k < |text| ==> !PairAt(text, k, '*', '/')
    ensures JsBlanks(OUTSIDE, s, i, OUTSIDE, i + |text| + 4)
  {
    hide CodeOnly, Blanked, JsBlanks, JsStep;
    var end := i + 2 + |text|;
    BlockNoteEnds(s, i, text);
    JsBlockEdges(s, i);
    JsSkips(IN_BLOCK, s, i + 2, end);
    JsBlockEdges(s, end);
    JsBlanksJoin(OUTSIDE, s, i, IN_BLOCK, i + 2, IN_BLOCK, end);
    JsBlanksJoin(OUTSIDE, s, i, IN_BLOCK, end, OUTSIDE, end + 2);
  }

  lemma JsTokenBlanks(s: string, i: nat, t: Token)
    requires StandsAt(s, i, TokenText(t)) && !t.Single? && TokenOk(t, SCRIPT_QUOTES, s[i + |TokenText(t)|..])
    ensures JsBlanks(OUTSIDE, s, i, OUTSIDE, i + |TokenText(t)|)
  {
    hide CodeOnly, Blanked, JsBlanks;
    match t
    case LineNote(text) => JsLineNoteBlanks(s, i, text);
    case BlockNote(text) => JsBlockNoteBlanks(s, i, text);
    case Quoted(quote, marks) => JsQuotedBlanks(s, i, quote, marks);
  }

  /** The same for a script body: of whatever tokens it is made, its code alone is what the scan counts parentheses
      in. */
  lemma {:induction false} TokensAreCode(s: string, i: nat, tokens: seq<Token>)
    requires i <= |s| && s[i..] == TextOf(tokens) && TokensOk(tokens, SCRIPT_QUOTES)
    ensures CodeOnly(OUTSIDE, s, i) == KeptOf(tokens)
    decreases |tokens|
  {
    if tokens == [] {
      assert i == |s|;
    } else {
      hide CodeOnly, Blanked, StandsAt, TokenOk;
      SplitTokens(s, i, tokens);
      var t, j := tokens[0], i + |TokenText(tokens[0])|;
      TokensAreCode(s, j, tokens[1..]);
      if t.Single? {
        JsSingleToken(s, i, t);
      } else {
        JsTokenBlanks(s, i, t);
        StandsAsText(s, i, TokenText(t));
      }
    }
  }
}
