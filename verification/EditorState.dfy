/** The editor as a value: its rows, cursors, selection and clipboard, and what each operation does to them. */
module EditorState {
  import opened Machine
  import opened TextDoc

  /** `anchor` is present while a selection is active; `clip` holds the clipboard string. */
  datatype State = State(
    rows: seq<Row>, row: int, col: int, remoteRow: int, remoteCol: int,
    anchor: Option<(int, int)>, clip: Option<seq<Word8>>)

  /** The cursor, and the anchor of an active selection, are positions of the document. */
  predicate Wf(s: State) {
    IsDoc(s.rows) && InDoc(s.rows, s.row, s.col) &&
    (s.anchor.Some? ==> InDoc(s.rows, s.anchor.value.0, s.anchor.value.1))
  }

  /** The part of a C string before its terminator. */
  function UpToNul(t: seq<Word8>): seq<Word8> {
    if t == [] || t[0] == NUL then [] else [t[0]] + UpToNul(t[1..])
  }

  function Inserted(c: Word8): (ins: seq<Row>)
    ensures IsDoc(ins)
  {
    if c == NEWLINE then [[], []] else [[c]]
  }

  // ----- starting over and loading -----

  /** `editor_init`: one empty row; the remote cursor is left as it was. */
  function Cleared(s: State): State {
    s.(rows := [[]], row := 0, col := 0, anchor := None, clip := None)
  }

  /** The empty row that loading leaves at the end is dropped. */
  function FinalizeLoad(rows: seq<Row>): seq<Row> {
    if |rows| > 1 && rows[|rows| - 1] == [] then rows[..|rows| - 1] else rows
  }

  // ----- local edits -----

  function InsertChar(s: State, c: Word8): State
    requires InDoc(s.rows, s.row, s.col)
  {
    s.(rows := Splice(s.rows, s.row, s.col, s.row, s.col, Inserted(c)),
       row := EndRow(s.row, Inserted(c)), col := EndCol(s.col, Inserted(c)))
  }

  /** Where a backspace at (r, c) starts: one column back, or the end of the row above. */
  function BackRow(rows: seq<Row>, r: nat, c: nat): nat
    requires InDoc(rows, r, c)
  {
    if c == 0 && r > 0 then r - 1 else r
  }

  function BackCol(rows: seq<Row>, r: nat, c: nat): nat
    requires InDoc(rows, r, c)
  {
    if c > 0 then c - 1 else if r > 0 then |rows[r - 1]| else 0
  }

  function DeleteBack(rows: seq<Row>, r: nat, c: nat): seq<Row>
    requires InDoc(rows, r, c)
  {
    if r == 0 && c == 0 then rows
    else Splice(rows, BackRow(rows, r, c), BackCol(rows, r, c), r, c, [[]])
  }

  function DeleteChar(s: State): State
    requires InDoc(s.rows, s.row, s.col)
  {
    s.(rows := DeleteBack(s.rows, s.row, s.col),
       row := BackRow(s.rows, s.row, s.col), col := BackCol(s.rows, s.row, s.col))
  }

  /** The column reached by skipping spaces and then a word, to the left. */
  function SkipSpacesLeft(line: Row, c: nat): (c': nat)
    requires c <= |line|
    ensures c' <= c
  {
    if c > 0 && line[c - 1] == SPACE then SkipSpacesLeft(line, c - 1) else c
  }

  function SkipWordLeft(line: Row, c: nat): (c': nat)
    requires c <= |line|
    ensures c' <= c
  {
    if c > 0 && line[c - 1] != SPACE then SkipWordLeft(line, c - 1) else c
  }

  function WordLeft(line: Row, c: nat): (c': nat)
    requires c <= |line|
    ensures c' <= c
  {
    SkipWordLeft(line, SkipSpacesLeft(line, c))
  }

  function DeleteWord(s: State): State
    requires InDoc(s.rows, s.row, s.col)
  {
    var c := WordLeft(s.rows[s.row], s.col);
    if s.col == 0 then s else s.(rows := Splice(s.rows, s.row, c, s.row, s.col, [[]]), col := c)
  }

  /** The two ends of the active selection, in order. */
  function SelStart(s: State): (int, int)
    requires s.anchor.Some?
  {
    if NotAfter(s.anchor.value.0, s.anchor.value.1, s.row, s.col) then s.anchor.value else (s.row, s.col)
  }

  function SelEnd(s: State): (int, int)
    requires s.anchor.Some?
  {
    if NotAfter(s.anchor.value.0, s.anchor.value.1, s.row, s.col) then (s.row, s.col) else s.anchor.value
  }

  function DeleteSelection(s: State): State
    requires Wf(s)
  {
    if s.anchor.None? then s
    else
      var a, b := SelStart(s), SelEnd(s);
      s.(rows := Splice(s.rows, a.0, a.1, b.0, b.1, [[]]), row := a.0, col := a.1, anchor := None)
  }

  function CopySelection(s: State): State
    requires Wf(s)
  {
    if s.anchor.None? then s
    else
      var a, b := SelStart(s), SelEnd(s);
      s.(clip := Some(Text(Between(s.rows, a.0, a.1, b.0, b.1))))
  }

  function Paste(s: State): State
    requires InDoc(s.rows, s.row, s.col) && s.clip.Some?
  {
    var ins := Rows(UpToNul(s.clip.value));
    s.(rows := Splice(s.rows, s.row, s.col, s.row, s.col, ins), row := EndRow(s.row, ins), col := EndCol(s.col, ins))
  }

  // ----- local moves -----

  function MoveLeft(s: State): State
    requires InDoc(s.rows, s.row, s.col)
  {
    if s.col > 0 then s.(col := s.col - 1)
    else if s.row > 0 then s.(row := s.row - 1, col := |s.rows[s.row - 1]|)
    else s
  }

  function MoveRight(s: State): State
    requires InDoc(s.rows, s.row, s.col)
  {
    if s.col < |s.rows[s.row]| then s.(col := s.col + 1)
    else if s.row < |s.rows| - 1 then s.(row := s.row + 1, col := 0)
    else s
  }

  /** Up, down and clicks refuse to enter the row the remote cursor is on. */
  function MoveUp(s: State): State
    requires InDoc(s.rows, s.row, s.col)
  {
    if s.row == 0 || s.row - 1 == s.remoteRow then s
    else s.(row := s.row - 1, col := Min(s.col, |s.rows[s.row - 1]|))
  }

  function MoveDown(s: State): State
    requires InDoc(s.rows, s.row, s.col)
  {
    if s.row == |s.rows| - 1 || s.row + 1 == s.remoteRow then s
    else s.(row := s.row + 1, col := Min(s.col, |s.rows[s.row + 1]|))
  }

  function Min(a: int, b: int): int {
    if a < b then a else b
  }

  function MoveWordLeft(s: State): State
    requires InDoc(s.rows, s.row, s.col)
  {
    s.(col := WordLeft(s.rows[s.row], s.col))
  }

  function SkipWordRight(line: Row, c: nat): (c': nat)
    requires c <= |line|
    ensures c <= c' <= |line|
    decreases |line| - c
  {
    if c < |line| && line[c] != SPACE then SkipWordRight(line, c + 1) else c
  }

  function SkipSpacesRight(line: Row, c: nat): (c': nat)
    requires c <= |line|
    ensures c <= c' <= |line|
    decreases |line| - c
  {
    if c < |line| && line[c] == SPACE then SkipSpacesRight(line, c + 1) else c
  }

  function MoveWordRight(s: State): State
    requires InDoc(s.rows, s.row, s.col)
  {
    s.(col := SkipSpacesRight(s.rows[s.row], SkipWordRight(s.rows[s.row], s.col)))
  }

  function MoveHome(s: State): State {
    s.(col := 0)
  }

  function MoveEnd(s: State): State
    requires InDoc(s.rows, s.row, s.col)
  {
    s.(col := |s.rows[s.row]|)
  }

  function Clamp(x: int, lo: int, hi: int): int {
    if x < lo then lo else if x > hi then hi else x
  }

  function SetCursor(s: State, row: int, col: int): State
    requires |s.rows| >= 1
  {
    if s.remoteRow == row then s
    else
      var r := Clamp(row, 0, |s.rows| - 1);
      s.(row := r, col := Clamp(col, 0, |s.rows[r]|))
  }

  // ----- edits made on behalf of the peer, at the remote cursor -----

  function SetRemoteCursor(s: State, row: int, col: int): State {
    if row == s.row then s else s.(remoteRow := row, remoteCol := col)
  }

  function RemoteInsertChar(s: State, c: Word8): State
    requires InDoc(s.rows, s.remoteRow, s.remoteCol)
  {
    var r, k := s.remoteRow, s.remoteCol;
    s.(rows := Splice(s.rows, r, k, r, k, Inserted(c)),
       remoteRow := EndRow(r, Inserted(c)), remoteCol := EndCol(k, Inserted(c)),
       row := if c == NEWLINE && s.row > r then s.row + 1 else s.row)
  }

  function RemoteDeleteChar(s: State): State
    requires InDoc(s.rows, s.remoteRow, s.remoteCol)
  {
    var r, k := s.remoteRow, s.remoteCol;
    s.(rows := DeleteBack(s.rows, r, k),
       remoteRow := BackRow(s.rows, r, k), remoteCol := BackCol(s.rows, r, k),
       row := if k == 0 && r > 0 && s.row > r then s.row - 1 else s.row)
  }

  function Blank(n: nat): (rows: seq<Row>)
    ensures |rows| == n && forall i :: 0 <= i < n ==> rows[i] == []
  {
    seq(n, i => [])
  }

  /** How many rows a block of `deleted` rows at `start` really has. */
  function Gone(n: nat, start: int, deleted: nat): int {
    if start + deleted > n then n - start else deleted
  }

  function RowsAfterBlock(rows: seq<Row>, start: int, deleted: nat, inserted: nat): seq<Row> {
    if start < 0 || start > |rows| then rows
    else rows[..start] + Blank(inserted) + rows[start + Gone(|rows|, start, deleted)..]
  }

  function RemoteReplaceBlock(s: State, start: int, deleted: nat, inserted: nat): State {
    if start < 0 || start > |s.rows| then s
    else
      var gone := Gone(|s.rows|, start, deleted);
      s.(rows := RowsAfterBlock(s.rows, start, deleted, inserted),
         row := if s.row >= start + gone then s.row + inserted - gone else s.row)
  }

  function RemoteUpdateLine(s: State, row: int, text: Row): State {
    if row < 0 || row >= |s.rows| then s else s.(rows := s.rows[row := text])
  }

  /** Which rows have their buffers once a block was replaced: its new rows have none yet. */
  function FlagsAfterBlock(flags: seq<bool>, start: int, deleted: nat, inserted: nat): seq<bool> {
    if start < 0 || start > |flags| then flags
    else flags[..start] + Repeat(false, inserted) + flags[start + Gone(|flags|, start, deleted)..]
  }

  lemma BlockOutOfRange(rows: seq<Row>, flags: seq<bool>, start: int, deleted: nat, inserted: nat)
    requires |rows| == |flags|
    ensures start < 0 || start > |rows| ==>
      RowsAfterBlock(rows, start, deleted, inserted) == rows &&
      FlagsAfterBlock(flags, start, deleted, inserted) == flags
  {
  }

  /** ... and once the text of a row arrived. */
  function FlagsAfterLine(flags: seq<bool>, row: int): seq<bool> {
    if row < 0 || row >= |flags| then flags else flags[row := true]
  }

  function Repeat(b: bool, n: nat): (bs: seq<bool>)
    ensures |bs| == n && forall i :: 0 <= i < n ==> bs[i] == b
  {
    seq(n, _ => b)
  }

  // ----- what every operation keeps -----

  predicate CursorInDoc(s: State) {
    InDoc(s.rows, s.row, s.col)
  }

  lemma InsertCharStaysInDoc(s: State, c: Word8)
    requires CursorInDoc(s)
    ensures CursorInDoc(InsertChar(s, c))
  {
    SpliceEnd(s.rows, s.row, s.col, s.row, s.col, Inserted(c));
  }

  lemma DeleteCharStaysInDoc(s: State)
    requires CursorInDoc(s)
    ensures CursorInDoc(DeleteChar(s))
  {
    SpliceEnd(s.rows, BackRow(s.rows, s.row, s.col), BackCol(s.rows, s.row, s.col), s.row, s.col, [[]]);
  }

  lemma DeleteWordStaysInDoc(s: State)
    requires CursorInDoc(s)
    ensures CursorInDoc(DeleteWord(s))
  {
    SpliceEnd(s.rows, s.row, WordLeft(s.rows[s.row], s.col), s.row, s.col, [[]]);
  }

  lemma DeleteSelectionStaysInDoc(s: State)
    requires Wf(s)
    ensures CursorInDoc(DeleteSelection(s))
  {
    if s.anchor.Some? {
      SpliceEnd(s.rows, SelStart(s).0, SelStart(s).1, SelEnd(s).0, SelEnd(s).1, [[]]);
    }
  }

  lemma PasteStaysInDoc(s: State)
    requires CursorInDoc(s) && s.clip.Some?
    ensures CursorInDoc(Paste(s))
  {
    SpliceEnd(s.rows, s.row, s.col, s.row, s.col, Rows(UpToNul(s.clip.value)));
  }

  /** A paste adds a row for each newline of the clipboard string. */
  lemma PasteGrows(s: State)
    requires CursorInDoc(s) && s.clip.Some?
    ensures |Paste(s).rows| == |s.rows| + |Rows(UpToNul(s.clip.value))| - 1
  {
  }

  /** Every local edit keeps the document a document and the cursor inside it. */
  lemma EditsKeepDocument(s: State, c: Word8)
    requires IsDoc(s.rows) && CursorInDoc(s)
    ensures IsDoc(InsertChar(s, c).rows) && CursorInDoc(InsertChar(s, c))
    ensures IsDoc(DeleteChar(s).rows) && CursorInDoc(DeleteChar(s))
    ensures IsDoc(DeleteWord(s).rows) && CursorInDoc(DeleteWord(s))
    ensures s.clip.Some? ==> IsDoc(Paste(s).rows) && CursorInDoc(Paste(s))
  {
    InsertCharStaysInDoc(s, c);
    DeleteCharStaysInDoc(s);
    DeleteWordStaysInDoc(s);
    SpliceIsDoc(s.rows, s.row, s.col, s.row, s.col, Inserted(c));
    SpliceIsDoc(s.rows, BackRow(s.rows, s.row, s.col), BackCol(s.rows, s.row, s.col), s.row, s.col, [[]]);
    SpliceIsDoc(s.rows, s.row, WordLeft(s.rows[s.row], s.col), s.row, s.col, [[]]);
    if s.clip.Some? {
      PasteStaysInDoc(s);
      TextOfRows(UpToNul(s.clip.value));
      SpliceIsDoc(s.rows, s.row, s.col, s.row, s.col, Rows(UpToNul(s.clip.value)));
    }
  }

  lemma DeleteSelectionIsWf(s: State)
    requires Wf(s)
    ensures Wf(DeleteSelection(s))
  {
    if s.anchor.Some? {
      var a, b := SelStart(s), SelEnd(s);
      SpliceIsDoc(s.rows, a.0, a.1, b.0, b.1, [[]]);
      DeleteSelectionStaysInDoc(s);
    }
  }

  /** Deleting ends the selection and keeps the clipboard; copying keeps everything else. */
  lemma SelectionAndClipboard(s: State)
    requires Wf(s)
    ensures DeleteSelection(s).anchor == None && DeleteSelection(s).clip == s.clip
    ensures s.anchor.None? ==> DeleteSelection(s) == s && CopySelection(s) == s
    ensures Wf(s.(clip := None))
    ensures var c := CopySelection(s);
      Wf(c) && c.anchor == s.anchor && (c.row, c.col) == (s.row, s.col) &&
      (s.anchor.Some? ==> SelStart(c) == SelStart(s) && SelEnd(c) == SelEnd(s))
  {
  }

  // ----- what the moves mean -----

  /** Left is one byte back in the text, newlines included, until its start ... */
  lemma MoveLeftText(s: State)
    requires CursorInDoc(s)
    ensures var o, t := Offset(s.rows, s.row, s.col), MoveLeft(s);
      CursorInDoc(t) && if o == 0 then t == s else Offset(t.rows, t.row, t.col) == o - 1
  {
    if s.row > 0 || s.col > 0 {
      BackIsOneLess(s.rows, s.row, s.col);
    }
  }

  /** ... right is one byte forward, until its end ... */
  lemma MoveRightText(s: State)
    requires CursorInDoc(s)
    ensures var o, t := Offset(s.rows, s.row, s.col), MoveRight(s);
      CursorInDoc(t) && if o == |Text(s.rows)| then t == s else Offset(t.rows, t.row, t.col) == o + 1
  {
    var t := MoveRight(s);
    if t == s {
      TextAtPosition(s.rows, s.row, s.col);
      assert After(s.rows, s.row, s.col) == [[]];
    } else {
      BackIsOneLess(s.rows, t.row, t.col);
      TextAtPosition(s.rows, t.row, t.col);
    }
  }

  /** ... and each undoes the other. */
  lemma LeftAndRightUndo(s: State)
    requires CursorInDoc(s)
    ensures CursorInDoc(MoveLeft(s)) && (MoveLeft(s) != s ==> MoveRight(MoveLeft(s)) == s)
    ensures CursorInDoc(MoveRight(s)) && (MoveRight(s) != s ==> MoveLeft(MoveRight(s)) == s)
  {
  }

  /** Up and down come back to the same place exactly when the row visited is long enough. */
  lemma UpAndDownUndoIff(s: State)
    requires CursorInDoc(s) && s.row != s.remoteRow
    ensures CursorInDoc(MoveUp(s)) && CursorInDoc(MoveDown(s))
    ensures MoveUp(s) != s <==> s.row > 0 && s.row - 1 != s.remoteRow
    ensures MoveUp(s) != s ==> (MoveDown(MoveUp(s)) == s <==> s.col <= |s.rows[s.row - 1]|)
    ensures MoveDown(s) != s <==> s.row < |s.rows| - 1 && s.row + 1 != s.remoteRow
    ensures MoveDown(s) != s ==> (MoveUp(MoveDown(s)) == s <==> s.col <= |s.rows[s.row + 1]|)
  {
  }

  /**
   The two cursors are meant to be on different rows. Up and down and the peer's own messages keep
   them apart; left and right may wrap onto the other's row, and so may a click outside the document.
   */
  lemma CursorsStayApartIff(s: State, row: int, col: int)
    requires CursorInDoc(s) && s.row != s.remoteRow
    ensures MoveUp(s).row != s.remoteRow && MoveDown(s).row != s.remoteRow
    ensures SetRemoteCursor(s, row, col).remoteRow != s.row
    ensures MoveLeft(s).row == s.remoteRow <==> s.col == 0 && s.row > 0 && s.row - 1 == s.remoteRow
    ensures MoveRight(s).row == s.remoteRow <==>
      s.col == |s.rows[s.row]| && s.row < |s.rows| - 1 && s.row + 1 == s.remoteRow
    ensures CursorInDoc(SetCursor(s, row, col))
    ensures SetCursor(s, row, col).row == s.remoteRow <==>
      (row < 0 && s.remoteRow == 0) || (row >= |s.rows| && row != s.remoteRow && s.remoteRow == |s.rows| - 1)
  {
  }

  predicate AllSpaces(line: Row, from: nat, to: nat) {
    forall i :: from <= i < to && i < |line| ==> line[i] == SPACE
  }

  predicate NoSpaces(line: Row, from: nat, to: nat) {
    forall i :: from <= i < to && i < |line| ==> line[i] != SPACE
  }

  /** A word move to the left passes spaces and then the whole word before them. */
  lemma {:induction false} WordLeftSkips(line: Row, c: nat)
    requires c <= |line|
    ensures var m, w := SkipSpacesLeft(line, c), WordLeft(line, c);
      w <= m <= c && AllSpaces(line, m, c) && NoSpaces(line, w, m) &&
      (m > 0 ==> line[m - 1] != SPACE) && (w > 0 ==> line[w - 1] == SPACE) && (m > 0 ==> w < m)
  {
    SpacesLeft(line, c);
    WordBefore(line, SkipSpacesLeft(line, c));
  }

  lemma {:induction false} SpacesLeft(line: Row, c: nat)
    requires c <= |line|
    ensures var m := SkipSpacesLeft(line, c); AllSpaces(line, m, c) && (m > 0 ==> line[m - 1] != SPACE)
  {
    if c > 0 && line[c - 1] == SPACE {
      SpacesLeft(line, c - 1);
    }
  }

  lemma {:induction false} WordBefore(line: Row, c: nat)
    requires c <= |line|
    ensures var w := SkipWordLeft(line, c); NoSpaces(line, w, c) && (w > 0 ==> line[w - 1] == SPACE)
  {
    if c > 0 && line[c - 1] != SPACE {
      WordBefore(line, c - 1);
    }
  }

  /** A word move to the right passes the rest of the word and then all spaces after it. */
  lemma {:induction false} WordRightSkips(line: Row, c: nat)
    requires c <= |line|
    ensures var m := SkipWordRight(line, c);
      var w := SkipSpacesRight(line, m);
      c <= m <= w <= |line| && NoSpaces(line, c, m) && AllSpaces(line, m, w) &&
      (m < |line| ==> line[m] == SPACE) && (w < |line| ==> line[w] != SPACE)
  {
    WordAfter(line, c);
    SpacesRight(line, SkipWordRight(line, c));
  }

  lemma {:induction false} WordAfter(line: Row, c: nat)
    requires c <= |line|
    ensures var m := SkipWordRight(line, c); NoSpaces(line, c, m) && (m < |line| ==> line[m] == SPACE)
    decreases |line| - c
  {
    if c < |line| && line[c] != SPACE {
      WordAfter(line, c + 1);
    }
  }

  lemma {:induction false} SpacesRight(line: Row, c: nat)
    requires c <= |line|
    ensures var w := SkipSpacesRight(line, c); AllSpaces(line, c, w) && (w < |line| ==> line[w] != SPACE)
    decreases |line| - c
  {
    if c < |line| && line[c] == SPACE {
      SpacesRight(line, c + 1);
    }
  }

  // ----- what the operations mean on the text -----

  /** Typing a character inserts that one byte, newline included, and leaves the cursor after it. */
  lemma InsertCharText(s: State, c: Word8)
    requires IsDoc(s.rows) && InDoc(s.rows, s.row, s.col)
    ensures var o, t := Offset(s.rows, s.row, s.col), InsertChar(s, c);
      o <= |Text(s.rows)| && Text(t.rows) == Text(s.rows)[..o] + [c] + Text(s.rows)[o..] &&
      InDoc(t.rows, t.row, t.col) && Offset(t.rows, t.row, t.col) == o + 1
  {
    SpliceText(s.rows, s.row, s.col, s.row, s.col, Inserted(c));
    assert Text(Inserted(c)) == [c];
  }

  /** Backspace removes exactly the byte before the cursor; at the start of the text it does nothing. */
  lemma DeleteCharText(s: State)
    requires IsDoc(s.rows) && InDoc(s.rows, s.row, s.col)
    ensures var o, t := Offset(s.rows, s.row, s.col), DeleteChar(s);
      o <= |Text(s.rows)| && InDoc(t.rows, t.row, t.col) &&
      if o == 0 then t == s
      else Text(t.rows) == Text(s.rows)[..o - 1] + Text(s.rows)[o..] && Offset(t.rows, t.row, t.col) == o - 1
  {
    var r, k := BackRow(s.rows, s.row, s.col), BackCol(s.rows, s.row, s.col);
    SpliceText(s.rows, r, k, s.row, s.col, [[]]);
    if s.row > 0 || s.col > 0 {
      BackIsOneLess(s.rows, s.row, s.col);
    }
  }

  lemma {:induction false} BackIsOneLess(rows: seq<Row>, r: nat, c: nat)
    requires InDoc(rows, r, c) && (r > 0 || c > 0)
    ensures Offset(rows, r, c) == Offset(rows, BackRow(rows, r, c), BackCol(rows, r, c)) + 1
    decreases r
  {
    if r > 1 || (r == 1 && c > 0) {
      BackIsOneLess(rows[1..], r - 1, c);
    }
  }

  /** Backspace undoes typing: document and cursor are as before. */
  lemma BackspaceUndoesTyping(s: State, c: Word8)
    requires IsDoc(s.rows) && InDoc(s.rows, s.row, s.col)
    ensures var t := InsertChar(s, c); InDoc(t.rows, t.row, t.col) && DeleteChar(t) == s
  {
    hide Splice;
    InsertionIsUndone(s.rows, s.row, s.col, Inserted(c));
  }

  /** Deleting a selection removes exactly the text between its ends. */
  lemma DeleteSelectionText(s: State)
    requires Wf(s) && s.anchor.Some?
    ensures var a, b := SelStart(s), SelEnd(s);
      var i, j := Offset(s.rows, a.0, a.1), Offset(s.rows, b.0, b.1);
      i <= j <= |Text(s.rows)| && Text(DeleteSelection(s).rows) == Text(s.rows)[..i] + Text(s.rows)[j..]
  {
    var a, b := SelStart(s), SelEnd(s);
    SpliceText(s.rows, a.0, a.1, b.0, b.1, [[]]);
    BetweenText(s.rows, a.0, a.1, b.0, b.1);
  }

  /** Copying takes exactly the selected text. */
  lemma CopySelectionText(s: State)
    requires Wf(s) && s.anchor.Some?
    ensures var a, b := SelStart(s), SelEnd(s);
      var i, j := Offset(s.rows, a.0, a.1), Offset(s.rows, b.0, b.1);
      i <= j <= |Text(s.rows)| && CopySelection(s).clip == Some(Text(s.rows)[i..j])
  {
    var a, b := SelStart(s), SelEnd(s);
    BetweenText(s.rows, a.0, a.1, b.0, b.1);
  }

  lemma {:induction false} UpToNulIsWhole(t: seq<Word8>)
    requires NUL !in t
    ensures UpToNul(t) == t
  {
    if t != [] {
      UpToNulIsWhole(t[1..]);
    }
  }

  /** A string with a terminator inside is shorter up to it. */
  lemma {:induction false} UpToNulIsShorter(t: seq<Word8>)
    ensures |UpToNul(t)| <= |t| && (NUL in t ==> |UpToNul(t)| < |t|)
  {
    if t != [] && t[0] != NUL {
      UpToNulIsShorter(t[1..]);
      assert t == [t[0]] + t[1..];
    }
  }

  /**
   Copy, cut and paste back: the document is as it was exactly when no terminator byte was selected,
   and then the cursor is at the end of the selection.
   */
  lemma CutThenPasteRestoresIff(s: State)
    requires Wf(s) && s.anchor.Some?
    ensures var t, a, b := DeleteSelection(CopySelection(s)), SelStart(s), SelEnd(s);
      InDoc(t.rows, t.row, t.col) && t.clip.Some? &&
      (Paste(t).rows == s.rows <==> NUL !in Text(Between(s.rows, a.0, a.1, b.0, b.1))) &&
      (Paste(t).rows == s.rows ==> (Paste(t).row, Paste(t).col) == SelEnd(s))
  {
    var a, b := SelStart(s), SelEnd(s);
    CutIsUndone(s.rows, a.0, a.1, b.0, b.1);
    if NUL !in Text(Between(s.rows, a.0, a.1, b.0, b.1)) {
      ClipboardRows(s.rows, a.0, a.1, b.0, b.1);
    } else {
      ShortPasteIsShorter(s);
    }
  }

  lemma ShortPasteIsShorter(s: State)
    requires Wf(s) && s.anchor.Some?
    requires var a, b := SelStart(s), SelEnd(s); NUL in Text(Between(s.rows, a.0, a.1, b.0, b.1))
    ensures var t := DeleteSelection(CopySelection(s));
      InDoc(t.rows, t.row, t.col) && t.clip.Some? && Paste(t).rows != s.rows
  {
    hide Splice, Glue, Text, Between, Rows;
    var a, b := SelStart(s), SelEnd(s);
    var t := DeleteSelection(CopySelection(s));
    var clip := Text(Between(s.rows, a.0, a.1, b.0, b.1));
    SelectionAndClipboard(s);
    DeleteSelectionStaysInDoc(CopySelection(s));
    DeleteSelectionText(CopySelection(s));
    BetweenText(s.rows, a.0, a.1, b.0, b.1);
    UpToNulIsShorter(clip);
    SpliceText(t.rows, t.row, t.col, t.row, t.col, Rows(UpToNul(clip)));
    TextOfRows(UpToNul(clip));
    assert |Text(Paste(t).rows)| == |Text(t.rows)| + |UpToNul(clip)| < |Text(s.rows)|;
  }

  /** Pasting reads the copied rows back out of the clipboard string. */
  lemma ClipboardRows(rows: seq<Row>, r1: nat, c1: nat, r2: nat, c2: nat)
    requires IsDoc(rows) && InDoc(rows, r1, c1) && InDoc(rows, r2, c2) && NotAfter(r1, c1, r2, c2)
    requires NUL !in Text(Between(rows, r1, c1, r2, c2))
    ensures var cut := Between(rows, r1, c1, r2, c2); Rows(UpToNul(Text(cut))) == cut
  {
    var cut := Between(rows, r1, c1, r2, c2);
    UpToNulIsWhole(Text(cut));
    BetweenIsDoc(rows, r1, c1, r2, c2);
    RowsOfText(cut);
  }

  lemma BetweenIsDoc(rows: seq<Row>, r1: nat, c1: nat, r2: nat, c2: nat)
    requires IsDoc(rows) && InDoc(rows, r1, c1) && InDoc(rows, r2, c2) && NotAfter(r1, c1, r2, c2)
    ensures IsDoc(Between(rows, r1, c1, r2, c2))
  {
    var b := Between(rows, r1, c1, r2, c2);
    forall i | 0 <= i < |b|
      ensures NEWLINE !in b[i]
    {
      assert NEWLINE !in rows[r1 + i];
    }
  }
}
