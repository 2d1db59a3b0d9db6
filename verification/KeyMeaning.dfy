/** What each key means for the one text of the document, the cursor, the selection and the clipboard. */
module KeyMeaning {
  import opened Machine
  import opened TextDoc
  import opened EditorState
  import opened DeltaSync
  import opened CoEditing

  /** Where the cursor is in the text. */
  function At(s: State): nat
    requires Wf(s)
  {
    Offset(s.rows, s.row, s.col)
  }

  function AnchorAt(s: State): nat
    requires Wf(s) && s.anchor.Some?
  {
    Offset(s.rows, s.anchor.value.0, s.anchor.value.1)
  }

  /** The selected part of the text: from `Lo` up to `Hi`, both at the cursor when nothing is selected. */
  function Lo(s: State): nat
    requires Wf(s)
  {
    if s.anchor.Some? && AnchorAt(s) < At(s) then AnchorAt(s) else At(s)
  }

  function Hi(s: State): nat
    requires Wf(s)
  {
    if s.anchor.Some? && AnchorAt(s) > At(s) then AnchorAt(s) else At(s)
  }

  /** The text of `s` with `ins` for the selected part, the cursor behind it and nothing selected. */
  ghost predicate Replaces(s: State, t: State, ins: seq<Word8>)
    requires Wf(s)
  {
    Wf(t) && Lo(s) <= Hi(s) <= |Text(s.rows)| &&
    Text(t.rows) == Text(s.rows)[..Lo(s)] + ins + Text(s.rows)[Hi(s)..] &&
    At(t) == Lo(s) + |ins| && t.anchor == None &&
    (t.remoteRow, t.remoteCol) == (s.remoteRow, s.remoteCol)
  }

  lemma SelectedPart(s: State)
    requires Wf(s)
    ensures Lo(s) <= Hi(s) <= |Text(s.rows)|
    ensures s.anchor.Some? ==>
      Offset(s.rows, SelStart(s).0, SelStart(s).1) == Lo(s) && Offset(s.rows, SelEnd(s).0, SelEnd(s).1) == Hi(s)
  {
    TextAtPosition(s.rows, s.row, s.col);
    if s.anchor.Some? {
      BetweenText(s.rows, SelStart(s).0, SelStart(s).1, SelEnd(s).0, SelEnd(s).1);
    }
  }

  lemma DeletingMeans(s: State)
    requires Wf(s)
    ensures Replaces(s, DeleteSelection(s), []) && DeleteSelection(s).clip == s.clip
  {
    SelectedPart(s);
    DeleteSelectionIsWf(s);
    var text := Text(s.rows);
    if s.anchor.Some? {
      SpliceText(s.rows, SelStart(s).0, SelStart(s).1, SelEnd(s).0, SelEnd(s).1, [[]]);
      assert text[..Lo(s)] + [] == text[..Lo(s)];
    } else {
      assert text[..Lo(s)] + [] + text[Hi(s)..] == text;
    }
  }

  /** Rows inserted where the selection was deleted. */
  lemma InsertingMeans(s: State, ins: seq<Row>, t: State)
    requires Wf(s) && IsDoc(ins) && CursorInDoc(DeleteSelection(s))
    requires var d := DeleteSelection(s);
      t == d.(rows := Splice(d.rows, d.row, d.col, d.row, d.col, ins),
              row := EndRow(d.row, ins), col := EndCol(d.col, ins))
    ensures Replaces(s, t, Text(ins)) && t.clip == s.clip
  {
    hide Splice;
    var d := DeleteSelection(s);
    DeletingMeans(s);
    SpliceText(d.rows, d.row, d.col, d.row, d.col, ins);
    SpliceIsDoc(d.rows, d.row, d.col, d.row, d.col, ins);
    var text, left, right := Text(s.rows), Text(s.rows)[..Lo(s)], Text(s.rows)[Hi(s)..];
    assert Text(d.rows) == left + right && |left| == At(d);
    assert Text(d.rows)[..At(d)] == left && Text(d.rows)[At(d)..] == right;
  }

  // ----- keys that insert -----

  lemma CharMeans(s: State, c: Typed)
    requires Wf(s)
    ensures var t := Local(s, CharKey(c));
      if c == 58 then t == s else Replaces(s, t, [c]) && t.clip == s.clip
  {
    DeleteSelectionIsWf(s);
    InsertingMeans(s, Inserted(c), InsertChar(DeleteSelection(s), c));
  }

  lemma EnterMeans(s: State)
    requires Wf(s)
    ensures Replaces(s, Local(s, EnterKey), [10]) && Local(s, EnterKey).clip == s.clip
  {
    DeleteSelectionIsWf(s);
    assert Text([[], []]) == [10];
    InsertingMeans(s, Inserted(NEWLINE), InsertChar(DeleteSelection(s), NEWLINE));
  }

  /** `u` is `t` up to its first zero byte, or all of it. */
  predicate IsCString(u: seq<Word8>, t: seq<Word8>) {
    u <= t && 0 !in u && (|u| < |t| ==> t[|u|] == 0)
  }

  lemma {:induction false} UpToNulIsCString(t: seq<Word8>)
    ensures IsCString(UpToNul(t), t)
  {
    if t != [] && t[0] != NUL {
      UpToNulIsCString(t[1..]);
      assert t == [t[0]] + t[1..];
    }
  }

  /** Paste puts the clipboard, up to its first zero byte, in the place of the selection. */
  lemma PasteMeans(s: State) returns (ins: seq<Word8>)
    requires Wf(s)
    ensures if s.clip.Some? then IsCString(ins, s.clip.value) else ins == []
    ensures Replaces(s, Local(s, PasteKey), ins) && Local(s, PasteKey).clip == s.clip
  {
    DeleteSelectionIsWf(s);
    DeletingMeans(s);
    if s.clip.None? {
      ins := [];
    } else {
      ins := UpToNul(s.clip.value);
      UpToNulIsCString(s.clip.value);
      TextOfRows(ins);
      InsertingMeans(s, Rows(ins), Paste(DeleteSelection(s)));
    }
  }

  // ----- the clipboard -----

  /** Copying takes the selected part of the text and changes nothing else. */
  lemma CopyMeans(s: State)
    requires Wf(s)
    ensures Lo(s) <= Hi(s) <= |Text(s.rows)|
    ensures Local(s, CopyKey) == if s.anchor.None? then s else s.(clip := Some(Text(s.rows)[Lo(s)..Hi(s)]))
  {
    SelectedPart(s);
    if s.anchor.Some? {
      CopySelectionText(s);
    }
  }

  /** Cutting takes the selected part of the text into the clipboard and out of the document. */
  lemma CutMeans(s: State)
    requires Wf(s)
    ensures var t := Local(s, CutKey);
      if s.anchor.None? then t == s
      else Replaces(s, t, []) && t.clip == Some(Text(s.rows)[Lo(s)..Hi(s)])
  {
    CopyMeans(s);
    SelectionAndClipboard(s);
    if s.anchor.Some? {
      DeletingMeans(CopySelection(s));
    }
  }

  /** On keys alone: cut and paste restore the document exactly when no zero byte was selected. */
  lemma CutThenPasteKeysRestoreIff(s: State) returns (t: State, u: State)
    requires Wf(s) && s.anchor.Some?
    ensures t == Local(s, CutKey) && Wf(t) && u == Local(t, PasteKey) && Wf(u)
    ensures Lo(s) <= Hi(s) <= |Text(s.rows)|
    ensures u.rows == s.rows <==> 0 !in Text(s.rows)[Lo(s)..Hi(s)]
    ensures u.rows == s.rows ==> At(u) == Hi(s)
  {
    hide Local, Offset, Text, At, IsCString;
    CutMeans(s);
    t := Local(s, CutKey);
    var ins := PasteMeans(t);
    u := Local(t, PasteKey);
    var text, cut := Text(s.rows), Text(s.rows)[Lo(s)..Hi(s)];
    var left, right := text[..Lo(s)], text[Hi(s)..];
    CStringIsWholeIff(ins, cut);
    assert Text(t.rows) == left + [] + right == left + right && Lo(t) == Hi(t) == |left|;
    assert Text(t.rows)[..|left|] == left && Text(t.rows)[|left|..] == right;
    assert text == left + cut + right && Text(u.rows) == left + ins + right;
    if ins == cut {
      WfIsDoc(u);
      WfIsDoc(s);
      TextIsInjective(u.rows, s.rows);
    } else {
      assert |Text(u.rows)| < |text|;
    }
  }

  lemma CStringIsWholeIff(u: seq<Word8>, t: seq<Word8>)
    requires IsCString(u, t)
    ensures u == t <==> 0 !in t
    ensures u == t || |u| < |t|
  {
  }

  lemma WfIsDoc(s: State)
    requires Wf(s)
    ensures IsDoc(s.rows)
  {
  }

  // ----- keys that delete -----

  /** Going left from `col`: spaces back to `m`, then a word without spaces back to `c`, and no further. */
  predicate IsWordLeft(line: Row, c: nat, m: nat, col: nat) {
    c <= m <= col <= |line| && (forall i :: m <= i < col ==> line[i] == 32) &&
    (forall i :: c <= i < m ==> line[i] != 32) &&
    (m > 0 ==> c < m && line[m - 1] != 32) && (c > 0 ==> line[c - 1] == 32)
  }

  predicate IsWordRight(line: Row, col: nat, m: nat, c: nat) {
    col <= m <= c <= |line| && (forall i :: col <= i < m ==> line[i] != 32) &&
    (forall i :: m <= i < c ==> line[i] == 32) &&
    (m < |line| ==> line[m] == 32) && (c < |line| ==> line[c] != 32)
  }

  lemma WordLeftIsWord(line: Row, col: nat)
    requires col <= |line|
    ensures IsWordLeft(line, WordLeft(line, col), SkipSpacesLeft(line, col), col)
  {
    WordLeftSkips(line, col);
  }

  lemma WordRightIsWord(line: Row, col: nat)
    requires col <= |line|
    ensures var m := SkipWordRight(line, col); IsWordRight(line, col, m, SkipSpacesRight(line, m))
  {
    WordRightSkips(line, col);
  }

  /** `n` bytes before the cursor are removed. */
  ghost predicate RemovesBefore(s: State, t: State, n: nat)
    requires Wf(s)
  {
    Wf(t) && n <= At(s) <= |Text(s.rows)| &&
    Text(t.rows) == Text(s.rows)[..At(s) - n] + Text(s.rows)[At(s)..] && At(t) == At(s) - n &&
    t.anchor == None && t.clip == s.clip && (t.remoteRow, t.remoteCol) == (s.remoteRow, s.remoteCol)
  }

  /**
   Backspace removes the selection if there is one; with Ctrl, away from the start of a row, the
   spaces and the word before the cursor; else the one byte before it; and at the start of the text
   nothing.
   */
  lemma BackspaceMeans(s: State, ctrl: bool) returns (c: nat, m: nat)
    requires Wf(s)
    ensures var t := Local(s, Backspace(ctrl));
      if s.anchor.Some? then Replaces(s, t, []) && t.clip == s.clip
      else if ctrl && s.col > 0 then IsWordLeft(s.rows[s.row], c, m, s.col) && RemovesBefore(s, t, s.col - c)
      else if At(s) == 0 then t == s
      else RemovesBefore(s, t, 1)
  {
    hide Splice, Text, Offset, WordLeft, SkipSpacesLeft, IsWordLeft, IsDoc, DeleteSelection, DeleteWord, DeleteChar;
    hide Replaces, RemovesBefore;
    c, m := 0, 0;
    if s.anchor.Some? {
      DeletingMeans(s);
    } else if ctrl && s.col > 0 {
      c, m := WordLeft(s.rows[s.row], s.col), SkipSpacesLeft(s.rows[s.row], s.col);
      WordLeftIsWord(s.rows[s.row], s.col);
      DeleteWordMeans(s);
    } else {
      DeleteCharMeans(s);
    }
  }

  lemma DeleteWordMeans(s: State)
    requires Wf(s) && s.anchor.None? && s.col > 0
    ensures RemovesBefore(s, DeleteWord(s), s.col - WordLeft(s.rows[s.row], s.col))
  {
    hide Splice, WordLeft;
    var c := WordLeft(s.rows[s.row], s.col);
    EditsKeepDocument(s, SPACE);
    SpliceText(s.rows, s.row, c, s.row, s.col, [[]]);
    SameRowOffsets(s.rows, s.row, c, s.col);
    assert Text(s.rows)[..At(s) - (s.col - c)] + [] == Text(s.rows)[..At(s) - (s.col - c)];
  }

  lemma DeleteCharMeans(s: State)
    requires Wf(s) && s.anchor.None?
    ensures if At(s) == 0 then DeleteChar(s) == s else RemovesBefore(s, DeleteChar(s), 1)
  {
    DeleteCharText(s);
    EditsKeepDocument(s, SPACE);
    var t := DeleteChar(s);
    assert t.anchor == s.anchor && t.clip == s.clip && (t.remoteRow, t.remoteCol) == (s.remoteRow, s.remoteCol);
    hide DeleteChar;
  }

  lemma {:induction false} SameRowOffsets(rows: seq<Row>, r: nat, a: nat, b: nat)
    requires InDoc(rows, r, a) && InDoc(rows, r, b)
    ensures Offset(rows, r, a) - a == Offset(rows, r, b) - b
    decreases r
  {
    if r > 0 {
      SameRowOffsets(rows[1..], r - 1, a, b);
    }
  }

  // ----- moves -----

  /** Where a move ends up, direction by direction; a word move passes `m` on its way. */
  ghost predicate Moved(s: State, dir: Dir, ctrl: bool, m: nat, t: State)
    requires Wf(s)
  {
    Wf(t) && t.rows == s.rows &&
    match dir
    case DirLeft =>
      if ctrl then t.row == s.row && IsWordLeft(s.rows[s.row], t.col, m, s.col)
      else At(t) == if At(s) == 0 then 0 else At(s) - 1
    case DirRight =>
      if ctrl then t.row == s.row && IsWordRight(s.rows[s.row], s.col, m, t.col)
      else At(t) == if At(s) == |Text(s.rows)| then At(s) else At(s) + 1
    case DirUp =>
      if s.row == 0 || s.row - 1 == s.remoteRow then (t.row, t.col) == (s.row, s.col)
      else t.row == s.row - 1 && t.col == if s.col < |s.rows[t.row]| then s.col else |s.rows[t.row]|
    case DirDown =>
      if s.row + 1 == |s.rows| || s.row + 1 == s.remoteRow then (t.row, t.col) == (s.row, s.col)
      else t.row == s.row + 1 && t.col == if s.col < |s.rows[t.row]| then s.col else |s.rows[t.row]|
    case DirHome => (t.row, t.col) == (s.row, 0)
    case DirEnd => (t.row, t.col) == (s.row, |s.rows[s.row]|)
  }

  lemma MoveMeans(s: State, dir: Dir, ctrl: bool) returns (m: nat)
    requires Wf(s)
    ensures Moved(s, dir, ctrl, m, Move(s, dir, ctrl))
  {
    hide Text, Offset, WordLeft, SkipSpacesLeft, SkipWordRight, SkipSpacesRight, IsWordLeft, IsWordRight, IsDoc;
    m := 0;
    MoveIsWf(s, dir, ctrl);
    match dir
    case DirLeft =>
      WordLeftIsWord(s.rows[s.row], s.col);
      MoveLeftText(s);
      m := SkipSpacesLeft(s.rows[s.row], s.col);
    case DirRight =>
      WordRightIsWord(s.rows[s.row], s.col);
      MoveRightText(s);
      m := SkipWordRight(s.rows[s.row], s.col);
    case _ =>
  }

  /**
   An arrow key leaves document and clipboard alone. With shift the anchor stays, or is dropped where
   the cursor was; without, the selection ends. The cursor moves as the key says.
   */
  lemma ArrowMeans(s: State, dir: Dir, ctrl: bool, shift: bool) returns (m: nat)
    requires Wf(s)
    ensures var t := Local(s, Arrow(dir, ctrl, shift));
      t.clip == s.clip && (t.remoteRow, t.remoteCol) == (s.remoteRow, s.remoteCol) &&
      t.anchor == (if !shift then None else if s.anchor.Some? then s.anchor else Some((s.row, s.col))) &&
      Moved(s, dir, ctrl, m, t)
  {
    var x := if !shift then None else if s.anchor.Some? then s.anchor else Some((s.row, s.col));
    var from := s.(anchor := x);
    m := MoveMeans(from, dir, ctrl);
    assert Local(s, Arrow(dir, ctrl, shift)) == Move(from, dir, ctrl);
    MoveKeepsTheRest(from, dir, ctrl);
    hide Move, IsWordLeft, IsWordRight, Text, Offset, IsDoc;
  }

  lemma MoveKeepsTheRest(s: State, dir: Dir, ctrl: bool)
    requires Wf(s)
    ensures var t := Move(s, dir, ctrl); t == s.(row := t.row, col := t.col)
  {
    hide WordLeft, SkipWordRight, SkipSpacesRight, IsDoc;
  }

  /**
   A click on the remote cursor's row leaves the cursor where it was; any other goes to the nearest
   row and column of the document. A selection starts there, empty.
   */
  lemma ClickMeans(s: State, row: int, col: int)
    requires Wf(s)
    ensures var t := Local(s, Click(row, col));
      Wf(t) && t.rows == s.rows && t.clip == s.clip && (t.remoteRow, t.remoteCol) == (s.remoteRow, s.remoteCol) &&
      t.anchor == Some((t.row, t.col)) &&
      if row == s.remoteRow then (t.row, t.col) == (s.row, s.col)
      else t.row == (if row < 0 then 0 else if row < |s.rows| then row else |s.rows| - 1) &&
           t.col == if col < 0 then 0 else if col <= |s.rows[t.row]| then col else |s.rows[t.row]|
  {
    LocalIsWf(s, Click(row, col));
  }
}
