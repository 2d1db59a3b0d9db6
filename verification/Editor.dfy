/** The editor's module state and operations: the text store, the two cursors, the selection and the clipboard. */
module Editor {
  import opened Machine
  import opened TextDoc
  import opened TextStore
  import S = EditorState

  class TextEditor {
    const buf: Buffer
    var cursorRow: int
    var cursorCol: int
    var selActive: bool
    var selAnchorRow: int
    var selAnchorCol: int
    var remoteCursorRow: int
    var remoteCursorCol: int
    var clipboard: Option<seq<Word8>>

    constructor (buf: Buffer)
      ensures this.buf == buf && remoteCursorRow == -1 && remoteCursorCol == -1 && !selActive && clipboard == None
    {
      this.buf := buf;
      cursorRow, cursorCol := 0, 0;
      selActive, selAnchorRow, selAnchorCol := false, 0, 0;
      remoteCursorRow, remoteCursorCol := -1, -1;
      clipboard := None;
    }

    /** The abstract editor this object stands for. */
    function St(): S.State
      requires buf.Shaped()
      reads this, buf
    {
      S.State(buf.Doc(), cursorRow, cursorCol, remoteCursorRow, remoteCursorCol,
              if selActive then Some((selAnchorRow, selAnchorCol)) else None, clipboard)
    }

    /** Every row has its buffer, and the local cursor is in the document. */
    ghost predicate Valid()
      reads this, buf
    {
      buf.Shaped() && buf.Clean() && InDoc(buf.Doc(), cursorRow, cursorCol)
    }

    /** Starts over with one empty row; the remote cursor stays. */
    method Init() returns (ok: bool)
      modifies this, buf
      ensures buf.Reports(ok, old(buf.allocs))
      ensures ok ==> Valid() && St() == S.State([[]], 0, 0, old(remoteCursorRow), old(remoteCursorCol), None, None)
    {
      clipboard := None;
      ok := buf.Init();
      if ok {
        cursorRow, cursorCol, selActive := 0, 0, false;
      }
    }

    // ----- local edits -----

    /** A failed allocation reports an error and, newline apart, leaves the text alone. */
    method InsertChar(c: Word8) returns (res: Result)
      requires Valid()
      modifies this, buf
      ensures buf.Shaped() && (res == Ok || res == AllocFailed) && buf.Reports(res == Ok, old(buf.allocs))
      ensures res == Ok ==> Valid() && St() == S.InsertChar(old(St()), c)
      ensures res == AllocFailed && c != NEWLINE ==> St() == old(St())
    {
      hide Splice, Glue, RowsOf, AllShaped, AllClean;
      S.InsertCharStaysInDoc(St(), c);
      buf.CleanRowsAreAllocated();
      res := buf.InsertAt(cursorRow, cursorCol, c);
      if res != Ok {
        return;
      }
      if c == NEWLINE {
        cursorRow, cursorCol := cursorRow + 1, 0;
      } else {
        cursorCol := cursorCol + 1;
      }
    }

    method DeleteChar() returns (res: Result)
      requires Valid()
      modifies this, buf
      ensures Valid() && (res == Ok || res == AllocFailed) && buf.Reports(res == Ok, old(buf.allocs))
      ensures old(cursorCol > 0 || cursorRow == 0) ==> res == Ok
      ensures St() == if res == Ok then S.DeleteChar(old(St())) else old(St())
    {
      hide Splice, Glue, RowsOf, AllShaped, AllClean, S.DeleteBack;
      buf.CleanRowsAreAllocated();
      var r, c := S.BackRow(buf.Doc(), cursorRow, cursorCol), S.BackCol(buf.Doc(), cursorRow, cursorCol);
      S.DeleteCharStaysInDoc(St());
      res := buf.DeleteBackAt(cursorRow, cursorCol);
      if res == Ok {
        cursorRow, cursorCol := r, c;
      }
    }

    method DeleteWord() returns (res: Result)
      requires Valid()
      modifies this, buf
      ensures Valid() && res == Ok && buf.allocs == old(buf.allocs) && St() == S.DeleteWord(old(St()))
    {
      if cursorCol == 0 {
        return Ok;
      }
      S.DeleteWordStaysInDoc(St());
      var end := cursorCol;
      MoveWordLeft();
      buf.DeleteInRow(cursorRow, cursorCol, end);
      return Ok;
    }

    /** The two ends of the selection, in order. */
    method SelGetRange() returns (startRow: int, startCol: int, endRow: int, endCol: int)
      requires buf.Shaped() && selActive
      ensures (startRow, startCol) == S.SelStart(St()) && (endRow, endCol) == S.SelEnd(St())
    {
      var cursorAfter := cursorRow > selAnchorRow || (cursorRow == selAnchorRow && cursorCol >= selAnchorCol);
      if cursorAfter {
        return selAnchorRow, selAnchorCol, cursorRow, cursorCol;
      }
      return cursorRow, cursorCol, selAnchorRow, selAnchorCol;
    }

    method SelSetAnchor()
      requires buf.Shaped()
      modifies this`selActive, this`selAnchorRow, this`selAnchorCol
      ensures St() == old(St()).(anchor := Some((cursorRow, cursorCol)))
    {
      selActive, selAnchorRow, selAnchorCol := true, cursorRow, cursorCol;
    }

    method SelClear()
      requires buf.Shaped()
      modifies this`selActive
      ensures St() == old(St()).(anchor := None)
    {
      selActive := false;
    }

    method DeleteSelection() returns (res: Result)
      requires Valid() && S.Wf(St())
      modifies this, buf
      ensures Valid() && (res == Ok || res == AllocFailed) && buf.Reports(res == Ok, old(buf.allocs))
      ensures old(!selActive || cursorRow == selAnchorRow) ==> res == Ok
      ensures St() == if res == Ok then S.DeleteSelection(old(St())) else old(St())
    {
      hide Splice, Glue, RowsOf, AllShaped, IsDoc;
      if !selActive {
        return Ok;
      }
      var sr, sc, er, ec := SelGetRange();
      S.DeleteSelectionStaysInDoc(St());
      res := buf.DeleteRange(sr, sc, er, ec);
      if res == Ok {
        cursorRow, cursorCol, selActive := sr, sc, false;
      }
    }

    /** When the clipboard cannot be allocated it is left absent. */
    method CopySelection()
      requires Valid() && S.Wf(St())
      modifies this, buf
      ensures Valid() && buf.allocs == old(buf.allocs) + if selActive then 1 else 0
      ensures St() ==
        if selActive && !buf.Granted(old(buf.allocs)) then old(St()).(clip := None) else S.CopySelection(old(St()))
    {
      if !selActive {
        return;
      }
      var sr, sc, er, ec := SelGetRange();
      clipboard := buf.CopyRange(sr, sc, er, ec);
    }

    method Paste() returns (res: Result)
      requires Valid()
      modifies this, buf
      ensures buf.Shaped() && buf.Reports(res != AllocFailed, old(buf.allocs))
      ensures res == NoClipboard <==> old(clipboard).None?
      ensures res == NoClipboard ==> Valid() && St() == old(St())
      ensures res == Ok ==> Valid() && old(clipboard).Some? && St() == S.Paste(old(St()))
    {
      if clipboard.None? {
        return NoClipboard;
      }
      S.PasteStaysInDoc(St());
      var r, c;
      res, r, c := buf.PasteAt(cursorRow, cursorCol, clipboard.value);
      if res == Ok {
        cursorRow, cursorCol := r, c;
      }
    }

    // ----- local moves -----

    method MoveLeft()
      requires Valid()
      modifies this
      ensures Valid() && St() == S.MoveLeft(old(St()))
    {
      if cursorCol > 0 {
        cursorCol := cursorCol - 1;
      } else if cursorRow > 0 {
        cursorRow := cursorRow - 1;
        cursorCol := |buf.Doc()[cursorRow]|;
      }
    }

    method MoveRight()
      requires Valid()
      modifies this
      ensures Valid() && St() == S.MoveRight(old(St()))
    {
      if cursorCol < |buf.Doc()[cursorRow]| {
        cursorCol := cursorCol + 1;
      } else if cursorRow < buf.rowCount - 1 {
        cursorRow, cursorCol := cursorRow + 1, 0;
      }
    }

    method MoveUp()
      requires Valid()
      modifies this
      ensures Valid() && St() == S.MoveUp(old(St()))
    {
      hide RowsOf, AllShaped, AllClean;
      if cursorRow > 0 {
        if cursorRow - 1 == remoteCursorRow {
          return;
        }
        cursorRow := cursorRow - 1;
        if cursorCol > |buf.Doc()[cursorRow]| {
          cursorCol := |buf.Doc()[cursorRow]|;
        }
      }
    }

    method MoveDown()
      requires Valid()
      modifies this
      ensures Valid() && St() == S.MoveDown(old(St()))
    {
      hide RowsOf, AllShaped, AllClean;
      if cursorRow < buf.rowCount - 1 {
        if cursorRow + 1 == remoteCursorRow {
          return;
        }
        cursorRow := cursorRow + 1;
        if cursorCol > |buf.Doc()[cursorRow]| {
          cursorCol := |buf.Doc()[cursorRow]|;
        }
      }
    }

    method MoveWordLeft()
      requires Valid()
      modifies this`cursorCol
      ensures Valid() && St() == S.MoveWordLeft(old(St())) && cursorCol <= old(cursorCol)
    {
      ghost var line, c0 := buf.Doc()[cursorRow], cursorCol;
      while cursorCol > 0 && buf.Doc()[cursorRow][cursorCol - 1] == SPACE
        invariant 0 <= cursorCol <= c0 <= |line|
        invariant S.SkipSpacesLeft(line, cursorCol) == S.SkipSpacesLeft(line, c0)
      {
        cursorCol := cursorCol - 1;
      }
      ghost var c1 := cursorCol;
      while cursorCol > 0 && buf.Doc()[cursorRow][cursorCol - 1] != SPACE
        invariant 0 <= cursorCol <= c1
        invariant S.SkipWordLeft(line, cursorCol) == S.SkipWordLeft(line, c1)
      {
        cursorCol := cursorCol - 1;
      }
    }

    method MoveWordRight()
      requires Valid()
      modifies this`cursorCol
      ensures Valid() && St() == S.MoveWordRight(old(St()))
    {
      ghost var line, c0 := buf.Doc()[cursorRow], cursorCol;
      while cursorCol < |buf.Doc()[cursorRow]| && buf.Doc()[cursorRow][cursorCol] != SPACE
        invariant c0 <= cursorCol <= |line|
        invariant S.SkipWordRight(line, cursorCol) == S.SkipWordRight(line, c0)
        decreases |line| - cursorCol
      {
        cursorCol := cursorCol + 1;
      }
      ghost var c1 := cursorCol;
      while cursorCol < |buf.Doc()[cursorRow]| && buf.Doc()[cursorRow][cursorCol] == SPACE
        invariant c1 <= cursorCol <= |line|
        invariant S.SkipSpacesRight(line, cursorCol) == S.SkipSpacesRight(line, c1)
        decreases |line| - cursorCol
      {
        cursorCol := cursorCol + 1;
      }
    }

    method MoveHome()
      requires Valid()
      modifies this
      ensures Valid() && St() == S.MoveHome(old(St()))
    {
      cursorCol := 0;
    }

    method MoveEnd()
      requires Valid()
      modifies this
      ensures Valid() && St() == S.MoveEnd(old(St()))
    {
      cursorCol := |buf.Doc()[cursorRow]|;
    }

    method SetCursor(row: int, col: int)
      requires Valid()
      modifies this
      ensures Valid() && St() == S.SetCursor(old(St()), row, col)
    {
      if remoteCursorRow == row {
        return;
      }
      var r := if row < 0 then 0 else row;
      r := if r >= buf.rowCount then buf.rowCount - 1 else r;
      var c := if col < 0 then 0 else col;
      c := if c > |buf.Doc()[r]| then |buf.Doc()[r]| else c;
      cursorRow, cursorCol := r, c;
    }

    // ----- edits made on behalf of the peer -----

    method SetRemoteCursor(row: int, col: int)
      requires buf.Shaped()
      modifies this
      ensures St() == S.SetRemoteCursor(old(St()), row, col)
    {
      if row == cursorRow {
        return;
      }
      remoteCursorRow, remoteCursorCol := row, col;
    }

    /** Needs the remote cursor inside the document, as its header says; the local cursor may be anywhere. */
    method RemoteInsertChar(c: Word8) returns (res: Result)
      requires buf.Shaped() && InDoc(buf.Doc(), remoteCursorRow, remoteCursorCol)
      requires buf.lines[remoteCursorRow].Allocated()
      modifies this, buf
      ensures buf.Shaped() && (res == Ok || res == AllocFailed) && buf.Reports(res == Ok, old(buf.allocs))
      ensures old(buf.Clean()) && res == Ok ==> buf.Clean()
      ensures res == Ok ==> St() == S.RemoteInsertChar(old(St()), c)
    {
      hide Splice, Glue, RowsOf, AllShaped, AllClean;
      res := buf.InsertAt(remoteCursorRow, remoteCursorCol, c);
      if res != Ok {
        return;
      }
      if c == NEWLINE {
        var oldRemoteRow := remoteCursorRow;
        remoteCursorRow, remoteCursorCol := remoteCursorRow + 1, 0;
        if cursorRow > oldRemoteRow {
          cursorRow := cursorRow + 1;
        }
      } else {
        remoteCursorCol := remoteCursorCol + 1;
      }
    }

    method RemoteDeleteChar() returns (res: Result)
      requires buf.Shaped() && buf.Clean() && InDoc(buf.Doc(), remoteCursorRow, remoteCursorCol)
      modifies this, buf
      ensures buf.Shaped() && buf.Clean()
      ensures (res == Ok || res == AllocFailed) && buf.Reports(res == Ok, old(buf.allocs))
      ensures old(remoteCursorCol > 0 || remoteCursorRow == 0) ==> res == Ok
      ensures St() == if res == Ok then S.RemoteDeleteChar(old(St())) else old(St())
    {
      hide Splice, Glue, RowsOf, AllShaped, AllClean, S.DeleteBack;
      var r := S.BackRow(buf.Doc(), remoteCursorRow, remoteCursorCol);
      var c := S.BackCol(buf.Doc(), remoteCursorRow, remoteCursorCol);
      buf.CleanRowsAreAllocated();
      res := buf.DeleteBackAt(remoteCursorRow, remoteCursorCol);
      if res != Ok {
        return;
      }
      if remoteCursorCol == 0 && remoteCursorRow > 0 && cursorRow > remoteCursorRow {
        cursorRow := cursorRow - 1;
      }
      remoteCursorRow, remoteCursorCol := r, c;
    }

    method RemoteReplaceBlock(startRow: int, deletedCount: nat, insertedCount: nat) returns (res: Result)
      requires buf.Shaped()
      modifies this, buf
      ensures buf.Shaped() && (res == Ok || res == AllocFailed) && buf.Reports(res == Ok, old(buf.allocs))
      ensures res == Ok ==>
        buf.CleanRows() == S.FlagsAfterBlock(old(buf.CleanRows()), startRow, deletedCount, insertedCount)
      ensures startRow < 0 || startRow > old(buf.rowCount) ==> res == Ok
      ensures St() ==
        if res == Ok then S.RemoteReplaceBlock(old(St()), startRow, deletedCount, insertedCount) else old(St())
    {
      hide RowsOf, AllShaped, AllClean, Flags, S.RowsAfterBlock, S.FlagsAfterBlock;
      S.BlockOutOfRange(St().rows, buf.CleanRows(), startRow, deletedCount, insertedCount);
      if startRow < 0 || startRow > buf.rowCount {
        return Ok;
      }
      var gone;
      res, gone := buf.ReplaceBlock(startRow, deletedCount, insertedCount);
      if res == Ok && cursorRow >= startRow + gone {
        cursorRow := cursorRow + insertedCount - gone;
      }
    }

    method RemoteUpdateLine(row: int, text: seq<Word8>) returns (res: Result)
      requires buf.Shaped()
      modifies this, buf
      ensures buf.Shaped() && (res == Ok || res == AllocFailed) && buf.Reports(res == Ok, old(buf.allocs))
      ensures res == Ok ==> buf.CleanRows() == S.FlagsAfterLine(old(buf.CleanRows()), row)
      ensures row < 0 || row >= old(buf.rowCount) ==> res == Ok
      ensures St() == if res == Ok then S.RemoteUpdateLine(old(St()), row, text) else old(St())
    {
      hide RowsOf, AllShaped, AllClean, Flags;
      if row < 0 || row >= buf.rowCount {
        return Ok;
      }
      res := buf.UpdateLine(row, text);
    }
  }
}
