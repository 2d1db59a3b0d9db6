/**
 Syntax highlighting: where a line leaves the block-comment state, and the cache that recolours only
 what an edit changed.
 */
module HighlightCache {
  import opened Machine
  import opened TextDoc

  datatype Language = LangNone | LangC

  // ----- the scanner -----

  const SLASH: Word8 := 47
  const STAR: Word8 := 42
  const QUOTE: Word8 := 34
  const APOSTROPHE: Word8 := 39
  const BACKSLASH: Word8 := 92

  predicate PairAt(line: Row, i: nat, a: Word8, b: Word8) {
    i + 1 < |line| && line[i] == a && line[i + 1] == b
  }

  predicate IsQuote(c: Word8) {
    c == QUOTE || c == APOSTROPHE
  }

  predicate IsAlnum(c: Word8) {
    97 <= c <= 122 || 65 <= c <= 90 || c == 95 || 48 <= c <= 57
  }

  predicate IsDigit(c: Word8) {
    48 <= c <= 57
  }

  predicate IsAlpha(c: Word8) {
    IsAlnum(c) && !IsDigit(c)
  }

  /** The position after the literal whose inside is at `i`; an unclosed one ends with the line. */
  function AfterLiteral(line: Row, i: nat, quote: Word8): (j: nat)
    requires i <= |line|
    ensures i <= j <= |line|
    decreases |line| - i
  {
    if i == |line| then i
    else if line[i] == BACKSLASH && i + 1 < |line| then AfterLiteral(line, i + 2, quote)
    else if line[i] == quote then i + 1
    else AfterLiteral(line, i + 1, quote)
  }

  /** Whether a block comment is open at the end of the line, scanning from `i` byte by byte. */
  function ScanC(line: Row, i: nat, inComment: bool): bool
    requires i <= |line|
    decreases |line| - i
  {
    if i == |line| then inComment
    else if inComment then
      if PairAt(line, i, STAR, SLASH) then ScanC(line, i + 2, false) else ScanC(line, i + 1, true)
    else if PairAt(line, i, SLASH, SLASH) then false
    else if PairAt(line, i, SLASH, STAR) then ScanC(line, i + 2, true)
    else if IsQuote(line[i]) then ScanC(line, AfterLiteral(line, i + 1, line[i]), false)
    else ScanC(line, i + 1, false)
  }

  function Exit(lang: Language, line: Row, entered: bool): bool {
    if lang == LangC then ScanC(line, 0, entered) else entered
  }

  /** Names and numbers hold nothing that matters to comments: they are skipped whole. */
  method SkipWord(line: Row, start: nat, dots: bool) returns (i: nat)
    requires start < |line| && IsAlnum(line[start])
    ensures start < i <= |line| && ScanC(line, i, false) == ScanC(line, start, false)
  {
    i := start;
    while i < |line| && (IsAlnum(line[i]) || (dots && line[i] == 46))
      invariant start <= i <= |line| && (i == start ==> IsAlnum(line[start]))
      invariant ScanC(line, i, false) == ScanC(line, start, false)
    {
      i := i + 1;
    }
  }

  method SkipLiteral(line: Row, start: nat) returns (i: nat)
    requires start < |line| && IsQuote(line[start])
    ensures start < i <= |line| && i == AfterLiteral(line, start + 1, line[start])
  {
    i := start + 1;
    while i < |line|
      invariant start < i <= |line|
      invariant AfterLiteral(line, i, line[start]) == AfterLiteral(line, start + 1, line[start])
      decreases |line| - i
    {
      if line[i] == BACKSLASH && i + 1 < |line| {
        i := i + 2;
      } else if line[i] == line[start] {
        i := i + 1;
        return;
      } else {
        i := i + 1;
      }
    }
  }

  /** The scan of `syntax_highlight_line`, token by token; a directive's letters are taken one at a time. */
  method HighlightLine(lang: Language, line: Row, entered: bool, isPreproc: bool) returns (outComment: bool)
    ensures outComment == Exit(lang, line, entered)
    ensures outComment == if lang == LangC then InBlock(LexLine(line, entered)) else entered
  {
    if lang != LangC {
      return entered;
    }
    ExitIsAutomaton(line, entered);
    outComment := entered;
    var i := 0;
    while i < |line|
      invariant i <= |line| && ScanC(line, i, outComment) == ScanC(line, 0, entered)
      decreases |line| - i
    {
      if outComment {
        if PairAt(line, i, STAR, SLASH) {
          i, outComment := i + 2, false;
        } else {
          i := i + 1;
        }
      } else if PairAt(line, i, SLASH, SLASH) {
        return;
      } else if PairAt(line, i, SLASH, STAR) {
        i, outComment := i + 2, true;
      } else if IsQuote(line[i]) {
        i := SkipLiteral(line, i);
      } else if IsDigit(line[i]) {
        i := SkipWord(line, i, true);
      } else if line[i] == 46 && i + 1 < |line| && IsAlpha(line[i + 1]) {
        i := SkipWord(line, i + 1, false);
      } else if PairAt(line, i, 45, 62) && i + 2 < |line| && IsAlpha(line[i + 2]) {
        i := SkipWord(line, i + 2, false);
      } else if IsAlpha(line[i]) && !isPreproc {
        i := SkipWord(line, i, false);
      } else {
        i := i + 1;
      }
    }
  }

  // ----- the scan as an automaton -----

  /** Where a byte-at-a-time reader of C is: in code, at a slash in code, in a comment, or in a literal. */
  datatype Lexer =
    | Code
    | CodeSlash
    | LineComment
    | BlockComment
    | BlockStar
    | Literal(quote: Word8)
    | LiteralEscape(quote: Word8)

  predicate InBlock(x: Lexer) {
    x.BlockComment? || x.BlockStar?
  }

  function Lex(x: Lexer, c: Word8): Lexer {
    match x
    case Code => if c == 47 then CodeSlash else if c == 34 || c == 39 then Literal(c) else Code
    case CodeSlash =>
      if c == 47 then LineComment
      else if c == 42 then BlockComment
      else if c == 34 || c == 39 then Literal(c)
      else Code
    case LineComment => LineComment
    case BlockComment => if c == 42 then BlockStar else BlockComment
    case BlockStar => if c == 47 then Code else if c == 42 then BlockStar else BlockComment
    case Literal(q) => if c == 92 then LiteralEscape(q) else if c == q then Code else Literal(q)
    case LiteralEscape(q) => Literal(q)
  }

  function LexFrom(x: Lexer, line: Row, i: nat): Lexer
    requires i <= |line|
    decreases |line| - i
  {
    if i == |line| then x else LexFrom(Lex(x, line[i]), line, i + 1)
  }

  /** The bytes of a line, one at a time, from where the line is entered. */
  function LexLine(line: Row, entered: bool): Lexer {
    LexFrom(if entered then BlockComment else Code, line, 0)
  }

  /** The scan with its two-byte steps leaves a line in a block comment exactly when the automaton does. */
  lemma ExitIsAutomaton(line: Row, entered: bool)
    ensures Exit(LangC, line, entered) == InBlock(LexLine(line, entered))
  {
    ScanIsLex(line, 0, entered);
  }

  lemma {:induction false} ScanIsLex(line: Row, i: nat, inComment: bool)
    requires i <= |line|
    ensures ScanC(line, i, inComment) == InBlock(LexFrom(if inComment then BlockComment else Code, line, i))
    decreases |line| - i
  {
    if i < |line| {
      var x := if inComment then BlockComment else Code;
      assert LexFrom(x, line, i) == LexFrom(Lex(x, line[i]), line, i + 1);
      if i + 1 < |line| {
        assert LexFrom(Lex(x, line[i]), line, i + 1) == LexFrom(Lex(Lex(x, line[i]), line[i + 1]), line, i + 2);
      }
      if inComment {
        if PairAt(line, i, STAR, SLASH) {
          ScanIsLex(line, i + 2, false);
        } else {
          ScanIsLex(line, i + 1, true);
          if line[i] == STAR {
            StarAlone(line, i + 1);
          }
        }
      } else if PairAt(line, i, SLASH, SLASH) {
        LineCommentStays(line, i + 2);
      } else if PairAt(line, i, SLASH, STAR) {
        ScanIsLex(line, i + 2, true);
      } else if IsQuote(line[i]) {
        LiteralIsLex(line, i + 1, line[i]);
        ScanIsLex(line, AfterLiteral(line, i + 1, line[i]), false);
      } else {
        ScanIsLex(line, i + 1, false);
        if line[i] == SLASH {
          SlashAlone(line, i + 1);
        }
      }
    }
  }

  /** A star not followed by a slash, and a slash not followed by a slash or a star, decide nothing. */
  lemma StarAlone(line: Row, i: nat)
    requires i <= |line| && (i < |line| ==> line[i] != SLASH)
    ensures InBlock(LexFrom(BlockStar, line, i)) == InBlock(LexFrom(BlockComment, line, i))
  {
  }

  lemma SlashAlone(line: Row, i: nat)
    requires i <= |line| && (i < |line| ==> line[i] != SLASH && line[i] != STAR)
    ensures InBlock(LexFrom(CodeSlash, line, i)) == InBlock(LexFrom(Code, line, i))
  {
  }

  lemma {:induction false} LineCommentStays(line: Row, i: nat)
    requires i <= |line|
    ensures LexFrom(LineComment, line, i) == LineComment
    decreases |line| - i
  {
    if i < |line| {
      LineCommentStays(line, i + 1);
    }
  }

  lemma {:induction false} LiteralIsLex(line: Row, i: nat, q: Word8)
    requires i <= |line| && IsQuote(q)
    ensures InBlock(LexFrom(Literal(q), line, i)) == InBlock(LexFrom(Code, line, AfterLiteral(line, i, q)))
    decreases |line| - i
  {
    if i < |line| {
      assert LexFrom(Literal(q), line, i) == LexFrom(Lex(Literal(q), line[i]), line, i + 1);
      if line[i] == BACKSLASH && i + 1 < |line| {
        assert LexFrom(LiteralEscape(q), line, i + 1) == LexFrom(Literal(q), line, i + 2);
        LiteralIsLex(line, i + 2, q);
      } else if line[i] != q {
        LiteralIsLex(line, i + 1, q);
      }
    }
  }

  // ----- the scan construct by construct -----

  lemma {:induction false} LexShift(x: Lexer, line: Row, i: nat, j: nat)
    requires i <= j <= |line|
    ensures LexFrom(x, line, j) == LexFrom(x, line[i..], j - i)
    decreases |line| - j
  {
    if j < |line| {
      LexShift(Lex(x, line[j]), line, i, j + 1);
    }
  }

  /** Text the automaton reads without changing state. */
  lemma {:induction false} LexStays(x: Lexer, line: Row, n: nat)
    requires n <= |line| && forall k :: 0 <= k < n ==> Lex(x, line[k]) == x
    ensures LexFrom(x, line, 0) == LexFrom(x, line, n)
    decreases n
  {
    if n > 0 {
      LexStays(x, line, n - 1);
    }
  }

  lemma LexConcat(x: Lexer, a: Row, b: Row)
    ensures LexFrom(x, a + b, 0) == LexFrom(LexFrom(x, a, 0), b, 0)
  {
    LexPrefix(x, a, b, 0);
  }

  lemma {:induction false} LexPrefix(x: Lexer, a: Row, b: Row, i: nat)
    requires i <= |a|
    ensures LexFrom(x, a + b, i) == LexFrom(LexFrom(x, a, i), b, 0)
    decreases |a| - i
  {
    if i == |a| {
      LexShift(x, a + b, i, i);
      assert (a + b)[i..] == b;
    } else {
      LexPrefix(Lex(x, a[i]), a, b, i + 1);
    }
  }

  /** A quote opens a literal, and bytes that are neither a backslash nor the quote keep it open. */
  lemma LiteralOpens(q: Word8, body: Row)
    requires (q == 34 || q == 39) && q !in body && 92 !in body
    ensures LexFrom(Code, [q] + body, 0) == Literal(q)
  {
    LexConcat(Code, [q], body);
    LexOne(Code, q);
    LexStays(Literal(q), body, |body|);
  }

  lemma LexOne(x: Lexer, c: Word8)
    ensures LexFrom(x, [c], 0) == Lex(x, c)
  {
    assert LexFrom(x, [c], 0) == LexFrom(Lex(x, c), [c], 1);
  }

  lemma LexTwo(x: Lexer, c: Word8, d: Word8)
    ensures LexFrom(x, [c, d], 0) == Lex(Lex(x, c), d)
  {
    assert LexFrom(x, [c, d], 0) == LexFrom(Lex(x, c), [c, d], 1) == LexFrom(Lex(Lex(x, c), d), [c, d], 2);
  }

  /** A literal whose body has no backslash and no quote of its kind leaves the state of what follows it. */
  lemma LiteralCloses(q: Word8, body: Row, rest: Row)
    requires (q == 34 || q == 39) && q !in body && 92 !in body
    ensures Exit(LangC, [q] + body + [q] + rest, false) == Exit(LangC, rest, false)
  {
    hide Exit, LexFrom;
    ExitIsAutomaton([q] + body + [q] + rest, false);
    ExitIsAutomaton(rest, false);
    LiteralOpens(q, body);
    LexConcat(Code, [q] + body, [q]);
    LexOne(Literal(q), q);
    LexConcat(Code, [q] + body + [q], rest);
  }

  /** Inside a literal a backslash and the byte after it, whatever it is, are passed over. */
  lemma EscapeIsSkipped(q: Word8, body: Row, c: Word8, rest: Row)
    requires (q == 34 || q == 39) && q !in body && 92 !in body
    ensures Exit(LangC, [q] + body + [92, c] + rest, false) == Exit(LangC, [q] + rest, false)
  {
    hide Exit, LexFrom;
    ExitIsAutomaton([q] + body + [92, c] + rest, false);
    ExitIsAutomaton([q] + rest, false);
    LiteralOpens(q, body);
    LexConcat(Code, [q] + body, [92, c]);
    LexTwo(Literal(q), 92, c);
    LexConcat(Code, [q] + body + [92, c], rest);
    LexOne(Code, q);
    LexConcat(Code, [q], rest);
  }

  /** A literal the line does not close hides the rest of the line. */
  lemma OpenLiteralHidesTheRest(q: Word8, body: Row)
    requires (q == 34 || q == 39) && q !in body && 92 !in body
    ensures !Exit(LangC, [q] + body, false)
  {
    ExitIsAutomaton([q] + body, false);
    LiteralOpens(q, body);
  }

  /** A block comment runs to the first star and slash, and the line goes on in code behind them. */
  lemma CommentCloses(body: Row, rest: Row)
    requires 42 !in body
    ensures Exit(LangC, body + [42, 47] + rest, true) == Exit(LangC, rest, false) && Exit(LangC, body, true)
  {
    hide Exit, LexFrom;
    ExitIsAutomaton(body + [42, 47] + rest, true);
    ExitIsAutomaton(body, true);
    ExitIsAutomaton(rest, false);
    CommentStays(body);
    LexConcat(BlockComment, body, [42, 47]);
    LexTwo(BlockComment, 42, 47);
    LexConcat(BlockComment, body + [42, 47], rest);
  }

  lemma CommentStays(body: Row)
    requires 42 !in body
    ensures LexFrom(BlockComment, body, 0) == BlockComment
  {
    LexStays(BlockComment, body, |body|);
  }

  /** In code: a slash and a star open a comment, two slashes hide the rest, other bytes change nothing. */
  lemma CodeGoesOn(rest: Row, c: Word8)
    ensures Exit(LangC, [47, 42] + rest, false) == Exit(LangC, rest, true)
    ensures !Exit(LangC, [47, 47] + rest, false)
    ensures c !in {34, 39, 47} ==> Exit(LangC, [c] + rest, false) == Exit(LangC, rest, false)
  {
    hide Exit, LexFrom;
    ExitIsAutomaton([47, 42] + rest, false);
    ExitIsAutomaton([47, 47] + rest, false);
    ExitIsAutomaton([c] + rest, false);
    ExitIsAutomaton(rest, false);
    ExitIsAutomaton(rest, true);
    LexTwo(Code, 47, 42);
    LexConcat(Code, [47, 42], rest);
    LexTwo(Code, 47, 47);
    LexConcat(Code, [47, 47], rest);
    LineCommentStays(rest, 0);
    LexOne(Code, c);
    LexConcat(Code, [c], rest);
  }

  // ----- the state every row is entered in -----

  function StateAt(lang: Language, rows: seq<Row>, r: nat): bool
    requires r <= |rows|
  {
    if r == 0 then false else Exit(lang, rows[r - 1], StateAt(lang, rows, r - 1))
  }

  lemma {:induction false} StateDependsOnRowsAbove(lang: Language, a: seq<Row>, b: seq<Row>, r: nat)
    requires r <= |a| && r <= |b| && a[..r] == b[..r]
    ensures StateAt(lang, a, r) == StateAt(lang, b, r)
  {
    if r > 0 {
      assert a[..r][..r - 1] == a[..r - 1] && b[..r][..r - 1] == b[..r - 1];
      assert a[..r][r - 1] == b[..r][r - 1];
      StateDependsOnRowsAbove(lang, a, b, r - 1);
    }
  }

  // ----- rows against the whole text -----

  /** At a newline literals and line comments end; only a block comment goes on. */
  function LexByte(x: Lexer, c: Word8): Lexer {
    if c == 10 then if InBlock(x) then BlockComment else Code else Lex(x, c)
  }

  function LexText(x: Lexer, t: seq<Word8>): Lexer {
    if t == [] then x else LexByte(LexText(x, t[..|t| - 1]), t[|t| - 1])
  }

  lemma {:induction false} LexTextAppend(x: Lexer, a: seq<Word8>, b: seq<Word8>)
    ensures LexText(x, a + b) == LexText(LexText(x, a), b)
    decreases |b|
  {
    if b == [] {
      assert a + b == a;
    } else {
      var n := |b| - 1;
      assert (a + b)[..|a + b| - 1] == a + b[..n];
      LexTextAppend(x, a, b[..n]);
    }
  }

  lemma {:induction false} LexRow(x: Lexer, line: Row, i: nat)
    requires i <= |line| && 10 !in line
    ensures LexText(x, line[i..]) == LexFrom(x, line, i)
    decreases |line| - i
  {
    if i < |line| {
      assert line[i..] == [line[i]] + line[i + 1..] && line[i] != 10;
      LexTextAppend(x, [line[i]], line[i + 1..]);
      LexRow(Lex(x, line[i]), line, i + 1);
      assert LexText(x, [line[i]]) == LexByte(LexText(x, []), line[i]);
    }
  }

  /** Scanning row by row is reading the whole text up to the row, newlines and all, byte by byte. */
  lemma {:induction false} StateIsOfTheText(rows: seq<Row>, r: nat)
    requires IsDoc(rows) && r < |rows|
    ensures Offset(rows, r, 0) <= |Text(rows)|
    ensures LexText(Code, Text(rows)[..Offset(rows, r, 0)]) == if StateAt(LangC, rows, r) then BlockComment else Code
    decreases r
  {
    TextAtPosition(rows, r, 0);
    if r > 0 {
      StateIsOfTheText(rows, r - 1);
      TextAtPosition(rows, r - 1, 0);
      var x := LexText(Code, Text(rows)[..Offset(rows, r - 1, 0)]);
      var above, line := Text(Before(rows, r - 1, 0)), rows[r - 1];
      assert 10 !in line;
      RowStarts(rows, r);
      LexTextAppend(Code, above, line + [10]);
      LexTextAppend(x, line, [10]);
      assert line[0..] == line;
      LexRow(x, line, 0);
      ExitIsAutomaton(line, StateAt(LangC, rows, r - 1));
      assert LexText(LexText(x, line), [10]) == LexByte(LexText(x, line), 10);
    }
  }

  lemma RowStarts(rows: seq<Row>, r: nat)
    requires 1 <= r < |rows|
    ensures Text(Before(rows, r, 0)) == Text(Before(rows, r - 1, 0)) + (rows[r - 1] + [10])
  {
    assert Before(rows, r, 0) == rows[..r] + [[]] && Before(rows, r - 1, 0) == rows[..r - 1] + [[]];
    TextSnoc(rows[..r], []);
    assert [] + rows[r - 1] == rows[r - 1] && rows[..r] == rows[..r - 1] + [rows[r - 1]];
    assert Glue(rows[..r - 1] + [[]], [rows[r - 1]]) == rows[..r];
    TextOfGlue(Before(rows, r - 1, 0), [rows[r - 1]]);
  }

  /** The colours of a row are determined by its text and the state it is entered in. */
  datatype Colors = Colors(text: Row, entered: bool, lang: Language)

  /** The recorded state of a row; rows past the end of the record count as outside a comment. */
  function OpenAt(open: seq<bool>, r: int): bool {
    if 0 <= r < |open| then open[r] else false
  }

  /** The rows above `n` have the states a scan from the top gives. */
  ghost predicate StatesRightTo(lang: Language, open: seq<bool>, rows: seq<Row>, n: nat)
    requires n <= |rows|
  {
    forall r :: 0 <= r < n ==> OpenAt(open, r) == StateAt(lang, rows, r)
  }

  /** From row `r` down, every recorded state follows from the row above it. */
  ghost predicate LinkedFrom(lang: Language, open: seq<bool>, rows: seq<Row>, r: nat) {
    forall q :: r <= q < |rows| - 1 ==> OpenAt(open, q + 1) == Exit(lang, rows[q], OpenAt(open, q))
  }

  lemma LinkedStatesAreRight(lang: Language, open: seq<bool>, rows: seq<Row>, r: nat)
    requires r < |rows| && LinkedFrom(lang, open, rows, r) && StatesRightTo(lang, open, rows, r + 1)
    ensures StatesRightTo(lang, open, rows, |rows|)
    decreases |rows| - r
  {
    if r + 1 < |rows| {
      assert OpenAt(open, r + 1) == Exit(lang, rows[r], OpenAt(open, r)) == StateAt(lang, rows, r + 1);
      LinkedStatesAreRight(lang, open, rows, r + 1);
    }
  }

  /** After one row changed, the states down to it are still right and the rows below it still linked. */
  lemma EditLeavesStates(lang: Language, open: seq<bool>, was: seq<Row>, rows: seq<Row>, row: nat)
    requires row < |rows| == |was| && rows == was[row := rows[row]] && StatesRightTo(lang, open, was, |was|)
    ensures StatesRightTo(lang, open, rows, row + 1) && LinkedFrom(lang, open, rows, row + 1)
  {
    forall q | 0 <= q <= row
      ensures OpenAt(open, q) == StateAt(lang, rows, q)
    {
      assert rows[..q] == was[..q];
      StateDependsOnRowsAbove(lang, was, rows, q);
    }
    forall q | row + 1 <= q < |rows| - 1
      ensures OpenAt(open, q + 1) == Exit(lang, rows[q], OpenAt(open, q))
    {
      assert rows[q] == was[q] && StateAt(lang, was, q + 1) == Exit(lang, was[q], StateAt(lang, was, q));
    }
  }

  predicate ColorsRightAt(lang: Language, open: seq<bool>, colors: seq<Option<Colors>>, rows: seq<Row>, r: nat)
    requires r < |rows|
  {
    r < |colors| && colors[r].Some? && rows[r] != [] ==> colors[r].value == Colors(rows[r], OpenAt(open, r), lang)
  }

  /** What is cached is right, row `except` aside; an empty row has no colours to be wrong. */
  ghost predicate ColorsRightBut(
      lang: Language, open: seq<bool>, colors: seq<Option<Colors>>, rows: seq<Row>, except: int)
  {
    forall r :: 0 <= r < |rows| && r != except ==> ColorsRightAt(lang, open, colors, rows, r)
  }

  /** `now` is `was`, possibly longer, with row `r` coloured; an empty row is left alone. */
  ghost predicate Recolored(was: seq<Option<Colors>>, now: seq<Option<Colors>>, r: nat, c: Colors) {
    |now| >= |was| &&
    (forall q :: 0 <= q < |now| && q != r ==> now[q] == if q < |was| then was[q] else None) &&
    if c.text == [] then now == was else r < |now| && now[r] == Some(c)
  }

  lemma RecoloredIsRight(
      lang: Language, open: seq<bool>, was: seq<Option<Colors>>, now: seq<Option<Colors>>, rows: seq<Row>, r: nat)
    requires r < |rows| && (ColorsRightBut(lang, open, was, rows, r) || ColorsRightBut(lang, open, was, rows, -1))
    requires Recolored(was, now, r, Colors(rows[r], OpenAt(open, r), lang))
    ensures ColorsRightBut(lang, open, now, rows, -1)
  {
    forall q | 0 <= q < |rows|
      ensures ColorsRightAt(lang, open, now, rows, q)
    {
      assert q != r ==> ColorsRightAt(lang, open, was, rows, q);
    }
  }

  /** Recording a new state for a row makes only that row's colours wrong. */
  lemma NewStateSpoilsOneRow(
      lang: Language, open: seq<bool>, colors: seq<Option<Colors>>, rows: seq<Row>, r: nat, state: bool)
    requires r < |open| && ColorsRightBut(lang, open, colors, rows, -1)
    ensures ColorsRightBut(lang, open[r := state], colors, rows, r)
  {
    var now := open[r := state];
    forall q | 0 <= q < |rows| && q != r
      ensures ColorsRightAt(lang, now, colors, rows, q)
    {
      assert ColorsRightAt(lang, open, colors, rows, q);
    }
  }

  /** Colours freed, or slots added for more, leave what remains right. */
  lemma FewerColorsStayRight(
      lang: Language, open: seq<bool>, was: seq<Option<Colors>>, now: seq<Option<Colors>>, rows: seq<Row>, except: int)
    requires ColorsRightBut(lang, open, was, rows, except)
    requires forall q :: 0 <= q < |now| ==> now[q] == None || (q < |was| && now[q] == was[q])
    ensures ColorsRightBut(lang, open, now, rows, except)
  {
    forall q | 0 <= q < |rows| && q != except
      ensures ColorsRightAt(lang, open, now, rows, q)
    {
      assert ColorsRightAt(lang, open, was, rows, q);
    }
  }

  lemma NewStateMovesOn(lang: Language, open: seq<bool>, rows: seq<Row>, r: nat, state: bool)
    requires r < |rows| && r + 1 < |open|
    requires StatesRightTo(lang, open, rows, r + 1) && LinkedFrom(lang, open, rows, r + 1)
    requires state == Exit(lang, rows[r], open[r])
    ensures r + 1 < |rows| ==> StatesRightTo(lang, open[r + 1 := state], rows, r + 2)
    ensures r + 1 == |rows| ==> StatesRightTo(lang, open[r + 1 := state], rows, r + 1)
    ensures LinkedFrom(lang, open[r + 1 := state], rows, r + 2)
  {
    var now := open[r + 1 := state];
    forall q | 0 <= q < |rows| && q <= r + 1
      ensures OpenAt(now, q) == StateAt(lang, rows, q)
    {
      assert q <= r ==> OpenAt(now, q) == OpenAt(open, q);
    }
    forall q | r + 2 <= q < |rows| - 1
      ensures OpenAt(now, q + 1) == Exit(lang, rows[q], OpenAt(now, q))
    {
      assert OpenAt(open, q + 1) == Exit(lang, rows[q], OpenAt(open, q));
    }
  }

  function CachedAt(colors: seq<Option<Colors>>, r: int): Option<Colors> {
    if 0 <= r < |colors| then colors[r] else None
  }

  /** Every cached row of colours belongs to the text now in that row. */
  ghost predicate TextsRight(colors: seq<Option<Colors>>, rows: seq<Row>) {
    forall r :: 0 <= r < |rows| ==>
      CachedAt(colors, r).Some? && rows[r] != [] ==> CachedAt(colors, r).value.text == rows[r]
  }

  /** One row more: row `r - 1` was broken in two. */
  ghost predicate RowBroken(was: seq<Row>, now: seq<Row>, r: int) {
    1 <= r <= |was| && |now| == |was| + 1 &&
    (forall q :: 0 <= q < r - 1 ==> now[q] == was[q]) && (forall q :: r < q < |now| ==> now[q] == was[q - 1])
  }

  /** One row fewer: rows `r` and `r + 1` were joined. */
  ghost predicate RowsJoined(was: seq<Row>, now: seq<Row>, r: int) {
    0 <= r < |was| - 1 && |now| == |was| - 1 &&
    (forall q :: 0 <= q < r ==> now[q] == was[q]) && (forall q :: r < q < |now| ==> now[q] == was[q + 1])
  }

  /** The cached rows of `n` rows after row `r - 1` was broken: rows below move down, both halves are uncoloured. */
  ghost predicate ColorsOpened(was: seq<Option<Colors>>, now: seq<Option<Colors>>, r: int, n: nat) {
    (forall q :: 0 <= q < r - 1 ==> CachedAt(now, q) == CachedAt(was, q)) &&
    CachedAt(now, r - 1) == None && CachedAt(now, r) == None &&
    (forall q :: r < q <= n ==> CachedAt(now, q) == CachedAt(was, q - 1))
  }

  /** ... and after rows `r` and `r + 1` were joined. */
  ghost predicate ColorsClosed(was: seq<Option<Colors>>, now: seq<Option<Colors>>, r: int, n: nat) {
    (forall q :: 0 <= q < r ==> CachedAt(now, q) == CachedAt(was, q)) && CachedAt(now, r) == None &&
    (forall q :: r < q < n - 1 ==> CachedAt(now, q) == CachedAt(was, q + 1))
  }

  /** The `memmove` and the two cleared slots of a row break. */
  lemma OpenedByMove(was: seq<Option<Colors>>, grown: seq<Option<Colors>>, now: seq<Option<Colors>>, r: nat, n: nat)
    requires 1 <= r <= n < |grown| && forall q :: CachedAt(grown, q) == CachedAt(was, q)
    requires now == (if n > r then MemMove(grown, r + 1, r, n - r) else grown)[r - 1 := None][r := None]
    ensures ColorsOpened(was, now, r, n)
  {
    forall q | 0 <= q < r - 1
      ensures CachedAt(now, q) == CachedAt(was, q)
    {
      assert now[q] == grown[q] == CachedAt(grown, q);
    }
    forall q | r < q <= n
      ensures CachedAt(now, q) == CachedAt(was, q - 1)
    {
      assert now[q] == grown[q - 1] == CachedAt(grown, q - 1);
    }
  }

  /** The two cleared slots, the `memmove` and the vacated slot of a row join; `n` rows are cached at most. */
  lemma ClosedByMove(was: seq<Option<Colors>>, now: seq<Option<Colors>>, r: nat, n: nat, count: nat)
    requires r < n <= |was| && n == if count < |was| then count else |was|
    requires var freed := if r + 1 < |was| then was[r := None][r + 1 := None] else was[r := None];
      now == (if n > r + 2 then MemMove(freed, r + 1, r + 2, n - r - 2) else freed)[n - 1 := None]
    ensures r < count - 1 ==> ColorsClosed(was, now, r, count)
  {
    forall q | 0 <= q < r
      ensures CachedAt(now, q) == CachedAt(was, q)
    {
      assert now[q] == was[q];
    }
    forall q | r < q < count - 1
      ensures CachedAt(now, q) == CachedAt(was, q + 1)
    {
      if q < n - 1 {
        assert now[q] == was[q + 1];
      } else {
        assert CachedAt(was, q + 1) == None;
      }
    }
  }

  lemma OpenedTextsAreRight(
      cached: seq<Option<Colors>>, moved: seq<Option<Colors>>, was: seq<Row>, now: seq<Row>, r: int)
    requires RowBroken(was, now, r) && ColorsOpened(cached, moved, r, |was|) && TextsRight(cached, was)
    ensures TextsRight(moved, now)
  {
    forall q | 0 <= q < |now| && CachedAt(moved, q).Some? && now[q] != []
      ensures CachedAt(moved, q).value.text == now[q]
    {
      if q < r - 1 {
        assert now[q] == was[q] && CachedAt(moved, q) == CachedAt(cached, q);
      } else if q > r {
        assert now[q] == was[q - 1] && CachedAt(moved, q) == CachedAt(cached, q - 1);
      }
    }
  }

  lemma ClosedTextsAreRight(
      cached: seq<Option<Colors>>, moved: seq<Option<Colors>>, was: seq<Row>, now: seq<Row>, r: int)
    requires RowsJoined(was, now, r) && ColorsClosed(cached, moved, r, |was|) && TextsRight(cached, was)
    ensures TextsRight(moved, now)
  {
    forall q | 0 <= q < |now| && CachedAt(moved, q).Some? && now[q] != []
      ensures CachedAt(moved, q).value.text == now[q]
    {
      if q < r {
        assert now[q] == was[q] && CachedAt(moved, q) == CachedAt(cached, q);
      } else if q > r {
        assert now[q] == was[q + 1] && CachedAt(moved, q) == CachedAt(cached, q + 1);
      }
    }
  }

  // More rows came or went at once than one line break or one join accounts for.
  predicate ManyRowsMoved(oldCount: nat, newCount: nat) {
    oldCount > 0 && (newCount > oldCount + 1 || newCount < oldCount - 1)
  }

  class Cache {
    var lang: Language
    var blockCommentOpen: seq<bool>
    var lineColors: seq<Option<Colors>>
    var lastRowCount: nat

    constructor ()
      ensures lang == LangNone && blockCommentOpen == [] && lineColors == [] && lastRowCount == 0
    {
      lang, blockCommentOpen, lineColors, lastRowCount := LangNone, [], [], 0;
    }

    /** As good as a cache built from scratch for these rows. */
    ghost predicate Right(rows: seq<Row>)
      reads this
    {
      StatesRightTo(lang, blockCommentOpen, rows, |rows|) &&
      ColorsRightBut(lang, blockCommentOpen, lineColors, rows, -1)
    }

    method GrowStates(needed: nat)
      modifies this`blockCommentOpen
      ensures |blockCommentOpen| >= needed
      ensures forall r :: OpenAt(blockCommentOpen, r) == OpenAt(old(blockCommentOpen), r)
    {
      if |blockCommentOpen| >= needed {
        return;
      }
      var newCap := if |blockCommentOpen| > 0 then |blockCommentOpen| * 2 else 64;
      while newCap < needed
        invariant newCap >= |blockCommentOpen| && newCap > 0
        decreases needed - newCap
      {
        newCap := newCap * 2;
      }
      blockCommentOpen := blockCommentOpen + seq(newCap - |blockCommentOpen|, _ => false);
    }

    method GrowColors(needed: nat)
      modifies this`lineColors
      ensures |lineColors| >= needed && |lineColors| >= |old(lineColors)|
      ensures forall r :: 0 <= r < |lineColors| ==>
        lineColors[r] == if r < |old(lineColors)| then old(lineColors)[r] else None
      ensures forall r :: CachedAt(lineColors, r) == CachedAt(old(lineColors), r)
    {
      if |lineColors| >= needed {
        return;
      }
      var newCount := if |lineColors| > 0 then |lineColors| * 2 else 64;
      while newCount < needed
        invariant newCount >= |lineColors| && newCount > 0
        decreases needed - newCount
      {
        newCount := newCount * 2;
      }
      lineColors := lineColors + seq(newCount - |lineColors|, _ => None);
    }

    method FreeRow(row: int)
      modifies this`lineColors
      ensures lineColors == if 0 <= row < |old(lineColors)| then old(lineColors)[row := None] else old(lineColors)
    {
      if row < 0 || row >= |lineColors| {
        return;
      }
      lineColors := lineColors[row := None];
    }

    /** Scans every row from the top. */
    method RebuildFull(rows: seq<Row>)
      modifies this`blockCommentOpen
      ensures StatesRightTo(lang, blockCommentOpen, rows, |rows|)
    {
      GrowStates(|rows| + 1);
      var inComment := false;
      for r := 0 to |rows|
        invariant |blockCommentOpen| >= |rows| + 1 && inComment == StateAt(lang, rows, r)
        invariant StatesRightTo(lang, blockCommentOpen, rows, r)
      {
        blockCommentOpen := blockCommentOpen[r := inComment];
        inComment := Exit(lang, rows[r], inComment);
      }
    }

    method SetLanguage(newLang: Language, rows: seq<Row>)
      modifies this
      ensures lang == newLang && Right(rows)
    {
      lang := newLang;
      lineColors := seq(|lineColors|, _ => None);
      lastRowCount := 0;
      RebuildFull(rows);
    }

    /** Colours a row; an empty one has no buffer to colour. */
    method Recolor(rows: seq<Row>, r: nat, entered: bool)
      requires r < |rows|
      modifies this`lineColors
      ensures Recolored(old(lineColors), lineColors, r, Colors(rows[r], entered, lang))
    {
      if rows[r] == [] {
        return;
      }
      GrowColors(r + 1);
      lineColors := lineColors[r := Some(Colors(rows[r], entered, lang))];
    }

    /**
     Rescans from an edited row and stops as soon as the recorded state agrees again: the result is
     what a scan from the top would give, and what is cached is right again.
     */
    method RebuildFrom(row: int, rows: seq<Row>)
      requires 0 <= row < |rows| ==>
        StatesRightTo(lang, blockCommentOpen, rows, row + 1) && LinkedFrom(lang, blockCommentOpen, rows, row + 1) &&
        ColorsRightBut(lang, blockCommentOpen, lineColors, rows, row)
      modifies this`blockCommentOpen, this`lineColors
      ensures if 0 <= row < |rows| then Right(rows)
              else blockCommentOpen == old(blockCommentOpen) && lineColors == old(lineColors)
    {
      if row < 0 || row >= |rows| {
        return;
      }
      ghost var was := blockCommentOpen;
      GrowStates(|rows| + 1);
      GrownIsTheSame(lang, was, blockCommentOpen, lineColors, rows, row);
      var r, inComment := row, blockCommentOpen[row];
      while r < |rows|
        invariant row <= r <= |rows| < |blockCommentOpen|
        invariant StatesRightTo(lang, blockCommentOpen, rows, if r < |rows| then r + 1 else r)
        invariant LinkedFrom(lang, blockCommentOpen, rows, r + 1)
        invariant ColorsRightBut(lang, blockCommentOpen, lineColors, rows, r)
        invariant inComment == blockCommentOpen[r]
      {
        ghost var colors := lineColors;
        Recolor(rows, r, inComment);
        RecoloredIsRight(lang, blockCommentOpen, colors, lineColors, rows, r);
        var out := Exit(lang, rows[r], inComment);
        if blockCommentOpen[r + 1] == out {
          LinkedStatesAreRight(lang, blockCommentOpen, rows, r);
          return;
        }
        NewStateMovesOn(lang, blockCommentOpen, rows, r, out);
        NewStateSpoilsOneRow(lang, blockCommentOpen, lineColors, rows, r + 1, out);
        colors := lineColors;
        FreeRow(r + 1);
        FewerColorsStayRight(lang, blockCommentOpen[r + 1 := out], colors, lineColors, rows, r + 1);
        blockCommentOpen := blockCommentOpen[r + 1 := out];
        inComment := out;
        r := r + 1;
      }
    }

    /** Before a full redraw: cached rows move with the rows below a line break or join at the cursor. */
    method Sync(newCount: nat, cursorRow: int)
      requires newCount == lastRowCount + 1 ==> cursorRow < newCount
      modifies this`lineColors, this`lastRowCount
      ensures lastRowCount == newCount
      ensures newCount == old(lastRowCount) || old(lastRowCount) == 0 ==> lineColors == old(lineColors)
      ensures 0 < old(lastRowCount) == newCount - 1 && 0 < cursorRow ==>
        ColorsOpened(old(lineColors), lineColors, cursorRow, old(lastRowCount))
      ensures old(lastRowCount) == newCount + 1 && 0 <= cursorRow < newCount ==>
        ColorsClosed(old(lineColors), lineColors, cursorRow, old(lastRowCount))
      ensures ManyRowsMoved(old(lastRowCount), newCount) ==> forall r :: CachedAt(lineColors, r) == None
    {
      var oldCount := lastRowCount;
      lastRowCount := newCount;
      if newCount == oldCount || oldCount == 0 {
        return;
      }
      if newCount == oldCount + 1 {
        OpenRow(oldCount, cursorRow);
      } else if newCount == oldCount - 1 {
        CloseRow(oldCount, cursorRow);
      } else {
        lineColors := seq(|lineColors|, _ => None);
      }
    }

    /** The cursor is at the start of the new row. */
    method OpenRow(oldCount: nat, cursorRow: int)
      requires cursorRow <= oldCount
      modifies this`lineColors
      ensures if cursorRow > 0 then ColorsOpened(old(lineColors), lineColors, cursorRow, oldCount)
              else lineColors == old(lineColors)
    {
      hide MemMove, ColorsOpened;
      var split := cursorRow - 1;
      if split >= 0 {
        GrowColors(oldCount + 1);
        ghost var grown := lineColors;
        var shift := oldCount - split - 1;
        if shift > 0 {
          lineColors := MemMove(lineColors, split + 2, split + 1, shift);
        }
        FreeRow(split);
        lineColors := lineColors[split + 1 := None];
        OpenedByMove(old(lineColors), grown, lineColors, cursorRow, oldCount);
      }
    }

    /** The cursor is on the joined row. */
    method CloseRow(oldCount: nat, cursorRow: int)
      modifies this`lineColors
      ensures 0 <= cursorRow < oldCount - 1 ==> ColorsClosed(old(lineColors), lineColors, cursorRow, oldCount)
    {
      var effOld := if oldCount < |lineColors| then oldCount else |lineColors|;
      if 0 <= cursorRow < effOld {
        hide MemMove, ColorsClosed;
        FreeRow(cursorRow);
        FreeRow(cursorRow + 1);
        var shift := effOld - cursorRow - 2;
        if shift > 0 {
          lineColors := MemMove(lineColors, cursorRow + 1, cursorRow + 2, shift);
        }
        lineColors := lineColors[effOld - 1 := None];
        ClosedByMove(old(lineColors), lineColors, cursorRow, effOld, oldCount);
      }
    }

    /**
     The colours drawn for a row: the cached ones, or those of the recorded state, which are then
     cached. In a cache that is right they are the colours of the row's true state.
     */
    method GetLine(rows: seq<Row>, row: nat) returns (c: Option<Colors>)
      requires row < |rows|
      modifies this`lineColors
      ensures c == if CachedAt(old(lineColors), row).Some? then CachedAt(old(lineColors), row)
                   else if rows[row] == [] then None
                   else Some(Colors(rows[row], OpenAt(blockCommentOpen, row), lang))
      ensures forall q :: CachedAt(lineColors, q) == if q == row then c else CachedAt(old(lineColors), q)
      ensures old(Right(rows)) ==> Right(rows)
      ensures old(Right(rows)) && rows[row] != [] ==> c == Some(Colors(rows[row], StateAt(lang, rows, row), lang))
    {
      ghost var was := lineColors;
      GrowColors(row + 1);
      if old(Right(rows)) {
        FewerColorsStayRight(lang, blockCommentOpen, was, lineColors, rows, -1);
        assert ColorsRightAt(lang, blockCommentOpen, lineColors, rows, row);
      }
      if lineColors[row].Some? {
        return lineColors[row];
      }
      if rows[row] == [] {
        return None;
      }
      ghost var grown := lineColors;
      Recolor(rows, row, OpenAt(blockCommentOpen, row));
      if old(Right(rows)) {
        RecoloredIsRight(lang, blockCommentOpen, grown, lineColors, rows, row);
      }
      return lineColors[row];
    }

    /** Redrawing an edited row: after any one row changes, the cache is as good as one built from scratch. */
    method RenderLine(row: nat, ghost was: seq<Row>, rows: seq<Row>)
      requires row < |rows| == |was| && rows == was[row := rows[row]]
      requires Right(was)
      modifies this`blockCommentOpen, this`lineColors
      ensures Right(rows)
    {
      forall q | 0 <= q < |rows| && q != row
        ensures ColorsRightAt(lang, blockCommentOpen, lineColors, rows, q)
      {
        assert ColorsRightAt(lang, blockCommentOpen, lineColors, was, q);
      }
      ghost var colors := lineColors;
      FreeRow(row);
      FewerColorsStayRight(lang, blockCommentOpen, colors, lineColors, rows, row);
      EditLeavesStates(lang, blockCommentOpen, was, rows, row);
      RebuildFrom(row, rows);
    }
  }

  lemma GrownIsTheSame(
      lang: Language, was: seq<bool>, now: seq<bool>, colors: seq<Option<Colors>>, rows: seq<Row>, row: nat)
    requires forall r :: OpenAt(now, r) == OpenAt(was, r)
    requires row < |rows| && StatesRightTo(lang, was, rows, row + 1) && LinkedFrom(lang, was, rows, row + 1)
    requires ColorsRightBut(lang, was, colors, rows, row)
    ensures StatesRightTo(lang, now, rows, row + 1) && LinkedFrom(lang, now, rows, row + 1)
    ensures ColorsRightBut(lang, now, colors, rows, row)
  {
    forall q | row + 1 <= q < |rows| - 1
      ensures OpenAt(now, q + 1) == Exit(lang, rows[q], OpenAt(now, q))
    {
      assert OpenAt(was, q + 1) == Exit(lang, rows[q], OpenAt(was, q));
    }
    forall q | 0 <= q < |rows| && q != row
      ensures ColorsRightAt(lang, now, colors, rows, q)
    {
      assert ColorsRightAt(lang, was, colors, rows, q);
    }
  }

  // ----- what a full redraw does not bring up to date -----

  /** `d` rows of `was` from row `a` on were replaced by `k` others; the rows below moved. */
  ghost predicate RowsReplaced(was: seq<Row>, now: seq<Row>, a: nat, d: nat, k: nat) {
    1 <= d && 1 <= k && a + d <= |was| && |now| == |was| - d + k &&
    (forall q :: 0 <= q < a ==> now[q] == was[q]) &&
    (forall q :: a + k <= q < |now| ==> now[q] == was[q - k + d])
  }

  /** The state `q` rows below `from` when row `from` is entered in state `x`. */
  function StateFrom(lang: Language, rows: seq<Row>, from: nat, x: bool, q: nat): bool
    requires from + q <= |rows|
  {
    if q == 0 then x else Exit(lang, rows[from + q - 1], StateFrom(lang, rows, from, x, q - 1))
  }

  lemma {:induction false} StateFromIsState(lang: Language, rows: seq<Row>, from: nat, q: nat)
    requires from + q <= |rows|
    ensures StateFrom(lang, rows, from, StateAt(lang, rows, from), q) == StateAt(lang, rows, from + q)
  {
    if q > 0 {
      StateFromIsState(lang, rows, from, q - 1);
    }
  }

  /** Below the replaced rows the new document is the old one, entered in another state. */
  lemma {:induction false} StateBelow(lang: Language, was: seq<Row>, now: seq<Row>, a: nat, d: nat, k: nat, q: nat)
    requires RowsReplaced(was, now, a, d, k) && a + d + q <= |was|
    ensures StateAt(lang, now, a + k + q) == StateFrom(lang, was, a + d, StateAt(lang, now, a + k), q)
  {
    if q > 0 {
      StateBelow(lang, was, now, a, d, k, q - 1);
      assert now[a + k + q - 1] == was[a + d + q - 1];
    }
  }

  lemma StateAbove(lang: Language, was: seq<Row>, now: seq<Row>, a: nat, d: nat, k: nat, q: nat)
    requires RowsReplaced(was, now, a, d, k) && q <= a
    ensures StateAt(lang, now, q) == StateAt(lang, was, q)
  {
    assert now[..q] == was[..q];
    StateDependsOnRowsAbove(lang, was, now, q);
  }

  /** The record has the states of the new rows after the first, as a scan of the new rows finds them. */
  ghost predicate BlockStatesRecorded(lang: Language, open: seq<bool>, now: seq<Row>, a: nat, k: nat)
    requires a + k <= |now|
  {
    forall q :: a < q < a + k ==> OpenAt(open, q) == StateAt(lang, now, q)
  }

  predicate BelowStateRecorded(
      lang: Language, open: seq<bool>, was: seq<Row>, a: nat, d: nat, k: nat, x: bool, q: nat)
    requires a + d + q <= |was|
  {
    OpenAt(open, a + k + q) == StateFrom(lang, was, a + d, x, q)
  }

  /** The record, left as it was, has the states of the rows below when row `a + d` is entered in state `x`. */
  ghost predicate BelowStatesRecorded(lang: Language, open: seq<bool>, was: seq<Row>, a: nat, d: nat, k: nat, x: bool)
    requires a + d <= |was|
  {
    forall q :: 0 <= q < |was| - a - d ==> BelowStateRecorded(lang, open, was, a, d, k, x, q)
  }

  /**
   An edit of whole rows with the record left as it was: the record is right for the new document
   exactly when it has the new rows' states and, below them, the states a scan of the old rows gives
   when it enters them as the new rows leave off.
   */
  lemma ReplacedStatesRightIff(lang: Language, open: seq<bool>, was: seq<Row>, now: seq<Row>, a: nat, d: nat, k: nat)
    requires RowsReplaced(was, now, a, d, k) && StatesRightTo(lang, open, was, |was|)
    ensures StatesRightTo(lang, open, now, |now|) <==>
      BlockStatesRecorded(lang, open, now, a, k) &&
      BelowStatesRecorded(lang, open, was, a, d, k, StateAt(lang, now, a + k))
  {
    var x := StateAt(lang, now, a + k);
    if StatesRightTo(lang, open, now, |now|) {
      forall q | 0 <= q < |was| - a - d
        ensures BelowStateRecorded(lang, open, was, a, d, k, x, q)
      {
        StateBelow(lang, was, now, a, d, k, q);
      }
    }
    if BlockStatesRecorded(lang, open, now, a, k) && BelowStatesRecorded(lang, open, was, a, d, k, x) {
      forall p | 0 <= p < |now|
        ensures OpenAt(open, p) == StateAt(lang, now, p)
      {
        if p <= a {
          StateAbove(lang, was, now, a, d, k, p);
        } else if p >= a + k {
          StateBelow(lang, was, now, a, d, k, p - a - k);
          assert BelowStateRecorded(lang, open, was, a, d, k, x, p - a - k);
        }
      }
    }
  }

  /** Row `p` of the old document was entered in the state recorded `shift` rows further down. */
  predicate StateMoved(lang: Language, open: seq<bool>, was: seq<Row>, p: nat, shift: int)
    requires p <= |was|
  {
    StateAt(lang, was, p) == OpenAt(open, p + shift)
  }

  ghost predicate StatesMoved(lang: Language, open: seq<bool>, was: seq<Row>, from: nat, shift: int) {
    forall p :: from <= p < |was| ==> StateMoved(lang, open, was, p, shift)
  }

  /**
   When the new rows leave the state the old ones left, that is: when every row of the old document
   below them was entered in the state recorded where that row now stands.
   */
  lemma MovedStatesRightIff(lang: Language, open: seq<bool>, was: seq<Row>, now: seq<Row>, a: nat, d: nat, k: nat)
    requires RowsReplaced(was, now, a, d, k) && StatesRightTo(lang, open, was, |was|)
    requires StateAt(lang, now, a + k) == StateAt(lang, was, a + d)
    ensures StatesRightTo(lang, open, now, |now|) <==>
      BlockStatesRecorded(lang, open, now, a, k) && StatesMoved(lang, open, was, a + d, k - d)
  {
    ReplacedStatesRightIff(lang, open, was, now, a, d, k);
    var x, shift := StateAt(lang, was, a + d), k - d;
    forall q | 0 <= q < |was| - a - d
      ensures BelowStateRecorded(lang, open, was, a, d, k, x, q) == StateMoved(lang, open, was, a + d + q, shift)
    {
      StateFromIsState(lang, was, a + d, q);
    }
    if BelowStatesRecorded(lang, open, was, a, d, k, x) {
      forall p | a + d <= p < |was|
        ensures StateMoved(lang, open, was, p, shift)
      {
        assert BelowStateRecorded(lang, open, was, a, d, k, x, p - a - d);
      }
    }
  }

  /** All rows of `rows` from `from` on are entered in state `x`. */
  ghost predicate EnteredAlike(lang: Language, rows: seq<Row>, from: nat, x: bool) {
    forall p :: from <= p < |rows| ==> StateAt(lang, rows, p) == x
  }

  /**
   A row break whose halves leave the state the row left: the record stays right exactly when the
   left half leaves the state recorded below it and all rows below, with the record's next entry,
   are in that one state.
   */
  lemma BreakKeepsStatesIff(lang: Language, open: seq<bool>, was: seq<Row>, now: seq<Row>, r: nat)
    requires RowBroken(was, now, r) && StatesRightTo(lang, open, was, |was|)
    requires StateAt(lang, now, r + 1) == StateAt(lang, was, r)
    ensures var x := StateAt(lang, was, r);
      StatesRightTo(lang, open, now, |now|) <==>
        Exit(lang, now[r - 1], StateAt(lang, was, r - 1)) == OpenAt(open, r) &&
        (r < |was| ==> EnteredAlike(lang, was, r, x) && OpenAt(open, |was|) == x)
  {
    MovedStatesRightIff(lang, open, was, now, r - 1, 1, 2);
    StateAbove(lang, was, now, r - 1, 1, 2, r - 1);
    assert BlockStatesRecorded(lang, open, now, r - 1, 2) <==> OpenAt(open, r) == StateAt(lang, now, r);
    ConstantBelowIff(lang, open, was, r);
  }

  lemma ConstantBelowIff(lang: Language, open: seq<bool>, was: seq<Row>, r: nat)
    requires r <= |was| && StatesRightTo(lang, open, was, |was|)
    ensures StatesMoved(lang, open, was, r, 1) <==>
      (r < |was| ==> EnteredAlike(lang, was, r, StateAt(lang, was, r)) && OpenAt(open, |was|) == StateAt(lang, was, r))
  {
    hide StateAt, OpenAt;
    var x := StateAt(lang, was, r);
    if StatesMoved(lang, open, was, r, 1) {
      for q := r to |was|
        invariant forall p :: r <= p <= q && p < |was| ==> StateAt(lang, was, p) == x
        invariant r < q ==> OpenAt(open, q) == x
      {
        assert StateMoved(lang, open, was, q, 1);
      }
    } else {
      var p :| r <= p < |was| && StateAt(lang, was, p) != OpenAt(open, p + 1);
    }
  }

  /**
   A row join that leaves the state the two rows left: the record stays right exactly when all rows
   below are entered in the state the lower of the two was entered in.
   */
  lemma JoinKeepsStatesIff(lang: Language, open: seq<bool>, was: seq<Row>, now: seq<Row>, r: nat)
    requires RowsJoined(was, now, r) && StatesRightTo(lang, open, was, |was|)
    requires StateAt(lang, now, r + 1) == StateAt(lang, was, r + 2)
    ensures StatesRightTo(lang, open, now, |now|) <==> EnteredAlike(lang, was, r + 1, StateAt(lang, was, r + 1))
  {
    MovedStatesRightIff(lang, open, was, now, r, 2, 1);
    var x := StateAt(lang, was, r + 1);
    if StatesMoved(lang, open, was, r + 2, -1) {
      for q := r + 1 to |was|
        invariant forall p :: r + 1 <= p < q ==> StateAt(lang, was, p) == x
      {
        assert q >= r + 2 ==> StateMoved(lang, open, was, q, -1);
      }
    } else {
      var p :| r + 2 <= p < |was| && StateAt(lang, was, p) != StateAt(lang, was, p - 1);
    }
  }

  // ----- when a cut leaves the state alone -----

  /** The state in which the scan stands at column `c`, if a token does not reach across it. */
  function StateAtColumn(line: Row, i: nat, inComment: bool, c: nat): Option<bool>
    requires i <= |line| && c <= |line|
    decreases |line| - i
  {
    if i == c then Some(inComment)
    else if i > c then None
    else if inComment then
      if PairAt(line, i, STAR, SLASH) then StateAtColumn(line, i + 2, false, c) else StateAtColumn(line, i + 1, true, c)
    else if PairAt(line, i, SLASH, SLASH) then None
    else if PairAt(line, i, SLASH, STAR) then StateAtColumn(line, i + 2, true, c)
    else if IsQuote(line[i]) then StateAtColumn(line, AfterLiteral(line, i + 1, line[i]), false, c)
    else StateAtColumn(line, i + 1, false, c)
  }

  lemma {:induction false} LiteralInPrefix(line: Row, i: nat, quote: Word8, c: nat)
    requires i <= c <= |line| && AfterLiteral(line, i, quote) <= c
    ensures AfterLiteral(line[..c], i, quote) == AfterLiteral(line, i, quote)
    decreases |line| - i
  {
    if i < c {
      if line[i] == BACKSLASH && i + 1 < |line| {
        LiteralInPrefix(line, i + 2, quote, c);
      } else if line[i] != quote {
        LiteralInPrefix(line, i + 1, quote, c);
      }
    }
  }

  lemma {:induction false} LiteralInSuffix(line: Row, i: nat, quote: Word8, c: nat)
    requires c <= i <= |line|
    ensures AfterLiteral(line[c..], i - c, quote) == AfterLiteral(line, i, quote) - c
    decreases |line| - i
  {
    if i < |line| {
      if line[i] == BACKSLASH && i + 1 < |line| {
        LiteralInSuffix(line, i + 2, quote, c);
      } else if line[i] != quote {
        LiteralInSuffix(line, i + 1, quote, c);
      }
    }
  }

  lemma {:induction false} ScanOfSuffix(line: Row, i: nat, inComment: bool, c: nat)
    requires c <= i <= |line|
    ensures ScanC(line[c..], i - c, inComment) == ScanC(line, i, inComment)
    decreases |line| - i
  {
    if i < |line| {
      var b := line[c..];
      assert b[i - c] == line[i] && (i + 1 < |line| ==> b[i - c + 1] == line[i + 1]);
      if inComment {
        if PairAt(line, i, STAR, SLASH) {
          ScanOfSuffix(line, i + 2, false, c);
        } else {
          ScanOfSuffix(line, i + 1, true, c);
        }
      } else if PairAt(line, i, SLASH, SLASH) {
      } else if PairAt(line, i, SLASH, STAR) {
        ScanOfSuffix(line, i + 2, true, c);
      } else if IsQuote(line[i]) {
        LiteralInSuffix(line, i + 1, line[i], c);
        ScanOfSuffix(line, AfterLiteral(line, i + 1, line[i]), false, c);
      } else {
        ScanOfSuffix(line, i + 1, false, c);
      }
    }
  }

  lemma {:induction false} ScanThroughColumn(line: Row, i: nat, inComment: bool, c: nat)
    requires i <= c <= |line| && StateAtColumn(line, i, inComment, c).Some?
    ensures var x := StateAtColumn(line, i, inComment, c).value;
      ScanC(line[..c], i, inComment) == x && ScanC(line, i, inComment) == ScanC(line, c, x)
    decreases |line| - i
  {
    if i < c {
      var a := line[..c];
      if inComment {
        if PairAt(line, i, STAR, SLASH) {
          ScanThroughColumn(line, i + 2, false, c);
        } else {
          ScanThroughColumn(line, i + 1, true, c);
        }
      } else if PairAt(line, i, SLASH, STAR) {
        ScanThroughColumn(line, i + 2, true, c);
      } else if IsQuote(line[i]) {
        var j := AfterLiteral(line, i + 1, line[i]);
        LiteralInPrefix(line, i + 1, line[i], c);
        ScanThroughColumn(line, j, false, c);
      } else {
        ScanThroughColumn(line, i + 1, false, c);
      }
    }
  }

  /** A row cut between two tokens: the left part leaves the state at the cut, and the right part goes on from it. */
  lemma CutBetweenTokens(line: Row, entered: bool, c: nat)
    requires c <= |line| && StateAtColumn(line, 0, entered, c).Some?
    ensures var x := StateAtColumn(line, 0, entered, c).value;
      Exit(LangC, line[..c], entered) == x && Exit(LangC, line[c..], x) == Exit(LangC, line, entered)
  {
    ScanThroughColumn(line, 0, entered, c);
    ScanOfSuffix(line, c, StateAtColumn(line, 0, entered, c).value, c);
  }

  /** A row broken between two tokens, in terms of the old document alone. */
  lemma BreakBetweenTokensIff(open: seq<bool>, was: seq<Row>, now: seq<Row>, r: nat, c: nat)
    requires RowBroken(was, now, r) && StatesRightTo(LangC, open, was, |was|) && c <= |was[r - 1]|
    requires now[r - 1] == was[r - 1][..c] && now[r] == was[r - 1][c..]
    requires StateAtColumn(was[r - 1], 0, StateAt(LangC, was, r - 1), c).Some?
    ensures var y, x := StateAtColumn(was[r - 1], 0, StateAt(LangC, was, r - 1), c).value, StateAt(LangC, was, r);
      StatesRightTo(LangC, open, now, |now|) <==>
        y == OpenAt(open, r) && (r < |was| ==> EnteredAlike(LangC, was, r, x) && OpenAt(open, |was|) == x)
  {
    var s := StateAt(LangC, was, r - 1);
    CutBetweenTokens(was[r - 1], s, c);
    StateAbove(LangC, was, now, r - 1, 1, 2, r - 1);
    assert StateAt(LangC, now, r) == Exit(LangC, now[r - 1], s);
    assert StateAt(LangC, now, r + 1) == Exit(LangC, now[r], StateAt(LangC, now, r));
    BreakKeepsStatesIff(LangC, open, was, now, r);
  }

  /** Two rows joined where the joined row has no token across the seam. */
  lemma JoinBetweenTokensIff(open: seq<bool>, was: seq<Row>, now: seq<Row>, r: nat)
    requires RowsJoined(was, now, r) && StatesRightTo(LangC, open, was, |was|) && now[r] == was[r] + was[r + 1]
    requires StateAtColumn(now[r], 0, StateAt(LangC, was, r), |was[r]|).Some?
    ensures StatesRightTo(LangC, open, now, |now|) <==> EnteredAlike(LangC, was, r + 1, StateAt(LangC, was, r + 1))
  {
    var s := StateAt(LangC, was, r);
    CutBetweenTokens(now[r], s, |was[r]|);
    assert now[r][..|was[r]|] == was[r] && now[r][|was[r]|..] == was[r + 1];
    StateAbove(LangC, was, now, r, 2, 1, r);
    assert StateAt(LangC, now, r + 1) == Exit(LangC, now[r], s);
    assert StateAt(LangC, was, r + 2) == Exit(LangC, was[r + 1], StateAt(LangC, was, r + 1));
    JoinKeepsStatesIff(LangC, open, was, now, r);
  }

  /** A line break above a comment leaves the comment's closing row's state on its opening row. */
  lemma BreakAboveCommentSpoilsStates()
    ensures var x: Row, opening: Row, closing: Row := [120], [SLASH, STAR], [STAR, SLASH];
      var was, now, open := [x, opening, closing], [x, [], opening, closing], [false, false, true];
      RowBroken(was, now, 1) && StatesRightTo(LangC, open, was, 3) && !StatesRightTo(LangC, open, now, 4)
  {
    var x: Row, opening: Row, closing: Row := [120], [SLASH, STAR], [STAR, SLASH];
    var was, now, open := [x, opening, closing], [x, [], opening, closing], [false, false, true];
    assert Exit(LangC, x, false) == ScanC(x, 1, false) == false;
    assert Exit(LangC, opening, false) == ScanC(opening, 2, true) == true;
    assert StateAt(LangC, was, 0) == StateAt(LangC, now, 0) == false;
    assert StateAt(LangC, was, 1) == Exit(LangC, was[0], false) == false;
    assert StateAt(LangC, was, 2) == Exit(LangC, was[1], false) == true;
    assert StateAt(LangC, now, 1) == Exit(LangC, now[0], false) == false;
    assert StateAt(LangC, now, 2) == Exit(LangC, now[1], false) == false;
    assert OpenAt(open, 2) != StateAt(LangC, now, 2);
  }
}
