/** The command dispatcher: input events and received packets applied to the editor, and packets sent. */
module Session {
  import opened Machine
  import opened TextDoc
  import opened SerialLink
  import opened TextStore
  import opened Editor
  import S = EditorState
  import D = DeltaSync
  import C = CoEditing
  import F = FileShare
  import B = PeerBuffers
  import P = PeerEditor

  class Dispatcher {
    const ed: TextEditor
    var remote: bool
    var fileNumLines: Word16
    var linesContador: nat
    /** Every message sent so far. */
    var outbox: seq<Message>

    constructor (ed: TextEditor)
      ensures this.ed == ed && !remote && fileNumLines == 0 && linesContador == 0 && outbox == []
    {
      this.ed := ed;
      remote := false;
      fileNumLines, linesContador := 0, 0;
      outbox := [];
    }

    ghost predicate Valid()
      reads this, ed, ed.buf
    {
      ed.Valid() && S.Wf(ed.St())
    }

    /** The abstract replica this side is, as seen by the other. */
    function Rep(): D.Replica
      requires ed.buf.Shaped()
      reads this, ed, ed.buf
    {
      D.Replica(ed.St(), fileNumLines, linesContador)
    }

    method Send(m: Message)
      modifies this`outbox
      ensures outbox == old(outbox) + [m]
    {
      outbox := outbox + [m];
    }

    method SendCursor()
      modifies this`outbox
      ensures outbox == old(outbox) + [MoveCursorMsg(ed.cursorRow, ed.cursorCol)]
    {
      Send(MoveCursorMsg(ed.cursorRow, ed.cursorCol));
    }

    method SyncBlock(start: int, deleted: int, inserted: nat)
      requires ed.buf.Shaped()
      modifies this`outbox
      ensures outbox == old(outbox) + (if remote then D.SyncBlock(ed.St(), start, deleted, inserted) else [])
    {
      hide RowsOf, AllShaped;
      if !remote {
        return;
      }
      ghost var sent, rows := outbox, ed.buf.Doc();
      if deleted == 1 && inserted == 1 {
        Send(UpdateLineMsg(start, D.LineAt(ed.buf.Doc(), start)));
      } else {
        Send(ReplaceBlockMsg(start, deleted, inserted));
        for i := 0 to inserted
          invariant ed.buf.Doc() == rows
          invariant outbox == sent + [ReplaceBlockMsg(start, deleted, inserted)] + D.LineMessages(rows, start, i)
        {
          Send(UpdateLineMsg(start + i, D.LineAt(ed.buf.Doc(), start + i)));
        }
      }
      assert outbox == sent + D.BlockMessages(rows, start, deleted, inserted);
      SendCursor();
    }

    // ----- input events; `ok` says that no allocation failed on the way -----

    method OnBackspace(ctrl: bool) returns (ok: bool)
      requires Valid()
      modifies this`outbox, ed, ed.buf
      ensures ed.buf.Reports(ok, old(ed.buf.allocs))
      ensures ok ==> Valid() && ed.St() == D.Local(old(ed.St()), D.Backspace(ctrl))
      ensures ok ==> outbox == old(outbox) + (if remote then D.Sent(old(ed.St()), D.Backspace(ctrl)) else [])
      ensures !ok && !old(ed.selActive) ==> outbox == old(outbox)
    {
      hide Splice, Glue, RowsOf, AllShaped, AllClean;
      hide S.Wf, S.SelStart, S.SelEnd, S.DeleteSelection, S.CopySelection, D.SyncBlock, S.DeleteChar, S.DeleteWord;
      C.LocalIsWf(ed.St(), D.Backspace(ctrl));
      if ed.selActive {
        var sr, _, er, _ := ed.SelGetRange();
        var res := ed.DeleteSelection();
        if res == AllocFailed {
          return false;
        }
        SyncBlock(sr, er - sr + 1, 1);
      } else if ctrl && ed.cursorCol == 0 {
        var sr := ed.cursorRow - 1;
        var res := ed.DeleteChar();
        if res == AllocFailed {
          return false;
        }
        SyncBlock(sr, 2, 1);
      } else if ctrl {
        var sr := ed.cursorRow;
        var res := ed.DeleteWord();
        if res == AllocFailed {
          return false;
        }
        SyncBlock(sr, 1, 1);
      } else {
        var res := ed.DeleteChar();
        if res == AllocFailed {
          return false;
        }
        if remote {
          Send(DeleteCharMsg);
        }
      }
      return true;
    }

    method MoveCursor(dir: D.Dir, ctrl: bool)
      requires ed.Valid()
      modifies ed
      ensures ed.Valid() && ed.St() == D.Move(old(ed.St()), dir, ctrl)
    {
      hide RowsOf, AllShaped, AllClean, S.MoveUp, S.MoveDown, S.MoveLeft, S.MoveRight, S.MoveWordLeft, S.MoveWordRight;
      match dir
      case DirLeft => if ctrl { ed.MoveWordLeft(); } else { ed.MoveLeft(); }
      case DirRight => if ctrl { ed.MoveWordRight(); } else { ed.MoveRight(); }
      case DirUp => ed.MoveUp();
      case DirDown => ed.MoveDown();
      case DirHome => ed.MoveHome();
      case DirEnd => ed.MoveEnd();
    }

    method OnArrow(dir: D.Dir, ctrl: bool, shift: bool) returns (ok: bool)
      requires Valid()
      modifies this`outbox, ed, ed.buf
      ensures ed.buf.Reports(ok, old(ed.buf.allocs))
      ensures ok ==> Valid() && ed.St() == D.Local(old(ed.St()), D.Arrow(dir, ctrl, shift))
      ensures ok ==> outbox == old(outbox) + (if remote then D.Sent(old(ed.St()), D.Arrow(dir, ctrl, shift)) else [])
      ensures ok
    {
      hide RowsOf, AllShaped, AllClean, S.Wf, D.Move;
      C.LocalIsWf(ed.St(), D.Arrow(dir, ctrl, shift));
      if !shift {
        ed.SelClear();
      } else if !ed.selActive {
        ed.SelSetAnchor();
      }
      MoveCursor(dir, ctrl);
      if remote {
        SendCursor();
      }
      return true;
    }

    method OnCopy() returns (ok: bool)
      requires Valid()
      modifies this`outbox, ed, ed.buf
      ensures ed.buf.Reports(ok, old(ed.buf.allocs))
      ensures ok ==> Valid() && ed.St() == D.Local(old(ed.St()), D.CopyKey)
      ensures ok ==> outbox == old(outbox) + (if remote then D.Sent(old(ed.St()), D.CopyKey) else [])
      ensures outbox == old(outbox)
    {
      C.LocalIsWf(ed.St(), D.CopyKey);
      ed.CopySelection();
      return !ed.selActive || ed.clipboard.Some?;
    }

    method OnCut() returns (ok: bool)
      requires Valid()
      modifies this`outbox, ed, ed.buf
      ensures ed.buf.Reports(ok, old(ed.buf.allocs))
      ensures ok ==> Valid() && ed.St() == D.Local(old(ed.St()), D.CutKey)
      ensures ok ==> outbox == old(outbox) + (if remote then D.Sent(old(ed.St()), D.CutKey) else [])
      ensures !ok && !old(ed.selActive) ==> outbox == old(outbox)
    {
      hide Splice, Glue, RowsOf, AllShaped, AllClean, S.Wf, S.SelStart, S.SelEnd, S.DeleteSelection, D.SyncBlock;
      C.LocalIsWf(ed.St(), D.CutKey);
      S.SelectionAndClipboard(ed.St());
      ed.CopySelection();
      if !ed.selActive {
        return true;
      }
      var copied := ed.clipboard.Some?;
      var sr, _, er, _ := ed.SelGetRange();
      var res := ed.DeleteSelection();
      if res == AllocFailed {
        return false;
      }
      SyncBlock(sr, er - sr + 1, 1);
      return copied;
    }

    method OnPaste() returns (ok: bool)
      requires Valid()
      modifies this`outbox, ed, ed.buf
      ensures ed.buf.Reports(ok, old(ed.buf.allocs))
      ensures ok ==> Valid() && ed.St() == D.Local(old(ed.St()), D.PasteKey)
      ensures ok ==> outbox == old(outbox) + (if remote then D.Sent(old(ed.St()), D.PasteKey) else [])
      ensures !ok && !old(ed.selActive) ==> outbox == old(outbox)
    {
      hide Splice, Glue, RowsOf, AllShaped, AllClean;
      hide S.Wf, S.SelStart, S.SelEnd, S.DeleteSelection, S.CopySelection, D.SyncBlock, S.UpToNul, S.Paste;
      ghost var s := ed.St();
      C.LocalIsWf(s, D.PasteKey);
      S.SelectionAndClipboard(s);
      var startRow, deleted, removed := ed.cursorRow, 1, Ok;
      if ed.selActive {
        var sr, _, er, _ := ed.SelGetRange();
        startRow, deleted := sr, er - sr + 1;
        removed := ed.DeleteSelection();
      }
      ghost var t := ed.St();
      var oldRows := ed.buf.rowCount;
      var res := ed.Paste();
      if res == Ok {
        S.PasteGrows(t);
        var inserted := ed.buf.rowCount - oldRows + 1;
        SyncBlock(startRow, deleted, inserted);
      }
      return removed == Ok && res != AllocFailed;
    }

    method OnEnter() returns (ok: bool)
      requires Valid()
      modifies this`outbox, ed, ed.buf
      ensures ed.buf.Reports(ok, old(ed.buf.allocs))
      ensures ok ==> Valid() && ed.St() == D.Local(old(ed.St()), D.EnterKey)
      ensures ok ==> outbox == old(outbox) + (if remote then D.Sent(old(ed.St()), D.EnterKey) else [])
      ensures !ok && !old(ed.selActive) ==> outbox == old(outbox)
    {
      hide Splice, Glue, RowsOf, AllShaped, AllClean;
      hide S.Wf, S.SelStart, S.SelEnd, S.DeleteSelection, S.CopySelection, D.SyncBlock, S.InsertChar;
      C.LocalIsWf(ed.St(), D.EnterKey);
      S.SelectionAndClipboard(ed.St());
      if ed.selActive {
        var sr, _, er, _ := ed.SelGetRange();
        var removed := ed.DeleteSelection();
        var res := ed.InsertChar(NEWLINE);
        if res == Ok {
          SyncBlock(sr, er - sr + 1, 2);
        }
        return removed == Ok && res == Ok;
      }
      var res := ed.InsertChar(NEWLINE);
      if res == Ok && remote {
        Send(InsertCharMsg(NEWLINE));
      }
      return res == Ok;
    }

    method OnChar(c: D.Typed) returns (ok: bool)
      requires Valid()
      modifies this`outbox, ed, ed.buf
      ensures ed.buf.Reports(ok, old(ed.buf.allocs))
      ensures ok ==> Valid() && ed.St() == D.Local(old(ed.St()), D.CharKey(c))
      ensures ok ==> outbox == old(outbox) + (if remote then D.Sent(old(ed.St()), D.CharKey(c)) else [])
      ensures !ok && !old(ed.selActive) ==> outbox == old(outbox)
    {
      hide Splice, Glue, RowsOf, AllShaped, AllClean;
      hide S.Wf, S.SelStart, S.SelEnd, S.DeleteSelection, S.CopySelection, D.SyncBlock, S.InsertChar;
      C.LocalIsWf(ed.St(), D.CharKey(c));
      S.SelectionAndClipboard(ed.St());
      if c == D.COLON {
        return true;
      }
      if ed.selActive {
        var sr, _, er, _ := ed.SelGetRange();
        var removed := ed.DeleteSelection();
        var res := ed.InsertChar(c);
        if res == Ok {
          SyncBlock(sr, er - sr + 1, 1);
        }
        return removed == Ok && res == Ok;
      }
      var res := ed.InsertChar(c);
      if res == Ok && remote {
        Send(InsertCharMsg(c));
      }
      return res == Ok;
    }

    method OnClick(row: int, col: int) returns (ok: bool)
      requires Valid()
      modifies this`outbox, ed, ed.buf
      ensures ed.buf.Reports(ok, old(ed.buf.allocs))
      ensures ok ==> Valid() && ed.St() == D.Local(old(ed.St()), D.Click(row, col))
      ensures ok ==> outbox == old(outbox) + (if remote then D.Sent(old(ed.St()), D.Click(row, col)) else [])
      ensures ok
    {
      C.LocalIsWf(ed.St(), D.Click(row, col));
      ed.SelClear();
      ed.SetCursor(row, col);
      if remote {
        Send(MoveCursorMsg(row, col));
      }
      ed.SelSetAnchor();
      return true;
    }

    method Dispatch(key: D.Key) returns (ok: bool)
      requires Valid()
      modifies this`outbox, ed, ed.buf
      ensures ed.buf.Reports(ok, old(ed.buf.allocs))
      ensures ok ==> Valid() && ed.St() == D.Local(old(ed.St()), key)
      ensures ok ==> outbox == old(outbox) + (if remote then D.Sent(old(ed.St()), key) else [])
      ensures !ok && !old(ed.selActive) ==> outbox == old(outbox)
    {
      hide *;
      match key
      case Backspace(ctrl) => ok := OnBackspace(ctrl);
      case Arrow(dir, ctrl, shift) => ok := OnArrow(dir, ctrl, shift);
      case CopyKey => ok := OnCopy();
      case CutKey => ok := OnCut();
      case PasteKey => ok := OnPaste();
      case EnterKey => ok := OnEnter();
      case CharKey(c) => ok := OnChar(c);
      case Click(row, col) => ok := OnClick(row, col);
    }

    /** The `:sync` command: switches synchronisation on and sends the whole file. */
    method ExecuteSync(filename: Row)
      requires ed.buf.Shaped()
      modifies this`remote, this`outbox
      ensures remote && outbox == old(outbox) + F.Shared(ed.St(), filename)
    {
      hide RowsOf, AllShaped;
      remote := true;
      ghost var sent, rows := outbox, ed.buf.Doc();
      var totalLines := ed.buf.rowCount;
      Send(FileStartMsg(totalLines, filename));
      for i := 0 to totalLines
        invariant remote && ed.buf.Doc() == rows && |rows| == totalLines
        invariant outbox == sent + [FileStartMsg(totalLines, filename)] + F.FileMessages(rows, i)
      {
        Send(FileLineMsg(ed.buf.Doc()[i]));
      }
      SendCursor();
      ghost var start, lines := FileStartMsg(|rows|, filename), F.FileMessages(rows, |rows|);
      ghost var last := MoveCursorMsg(ed.cursorRow, ed.cursorCol);
      assert outbox == sent + [start] + lines + [last] == sent + ([start] + (lines + [last]));
    }

    // ----- received packets -----

    /** This side as a peer: its replica, and which of its rows have their buffers. */
    function Store(): B.Store
      requires ed.buf.Shaped()
      reads this, ed, ed.buf
    {
      B.Store(Rep(), ed.buf.CleanRows())
    }

    /**
     One packet; `ok` says that no allocation failed. A character edit needs the rows it works on to
     have their buffers. `beyond` is the byte after the payload: a file line's terminator is copied
     from there.
     */
    method DispatchSerial(e: Event, beyond: Word8) returns (ok: bool)
      requires ed.buf.Shaped() && D.Accepts(Rep(), e)
      requires e.cmd == CMD_INSERT_CHAR && !D.Dropped(e) ==> ed.buf.lines[ed.remoteCursorRow].Allocated()
      requires e.cmd == CMD_DELETE_CHAR ==> ed.buf.Clean()
      modifies this`remote, this`fileNumLines, this`linesContador, ed, ed.buf
      ensures ed.buf.Reports(ok, old(ed.buf.allocs))
      ensures ok ==> ed.buf.Shaped() && Rep() == D.Receive(old(Rep()), e)
      ensures ok && old(B.Ready(Store(), e)) ==> Store() == B.Apply(old(Store()), e, beyond)
      ensures remote == (old(remote) || (e.cmd == CMD_FILE_START && !D.Dropped(e)))
    {
      hide Splice, Glue, RowsOf, AllShaped, AllClean, Flags, S.Repeat;
      hide S.RemoteInsertChar, S.RemoteDeleteChar, S.RemoteReplaceBlock, S.FlagsAfterBlock, S.FlagsAfterLine;
      var p := e.payload;
      ed.buf.CleanRowsTellClean();
      if |p| == 0 && e.cmd != CMD_DELETE_CHAR && e.cmd != CMD_FILE_LINE {
        return true;
      }
      if e.cmd == CMD_INSERT_CHAR {
        var res := ed.RemoteInsertChar(p[0]);
        ed.buf.CleanRowsTellClean();
        return res == Ok;
      } else if e.cmd == CMD_DELETE_CHAR {
        var res := ed.RemoteDeleteChar();
        ed.buf.CleanRowsTellClean();
        return res == Ok;
      } else if e.cmd == CMD_MOVE_CURSOR {
        ed.SetRemoteCursor(Unword(p, 0), Unword(p, 2));
        return true;
      } else if e.cmd == CMD_REPLACE_BLOCK {
        var res := ed.RemoteReplaceBlock(Unword(p, 0), Unword(p, 2), Unword(p, 4));
        return res == Ok;
      } else if e.cmd == CMD_UPDATE_LINE {
        var res := ed.RemoteUpdateLine(Unword(p, 0), p[2..]);
        return res == Ok;
      } else if e.cmd == CMD_FILE_START {
        ok := ed.Init();
        if ok {
          ed.buf.CleanRowsTellClean();
          assert ed.buf.CleanRows() == [true];
        }
        fileNumLines := Unword(p, 0);
        linesContador := 0;
        remote := true;
      } else if e.cmd == CMD_FILE_LINE {
        ok := FileLine(p, beyond);
      } else {
        return true;
      }
    }

    /** A line of a shared file; the one that completes the count also drops the row left open. */
    method FileLine(p: seq<Word8>, beyond: Word8) returns (ok: bool)
      requires ed.buf.Shaped() && D.Accepts(Rep(), Event(CMD_FILE_LINE, p))
      modifies this`fileNumLines, this`linesContador, ed.buf
      ensures ed.buf.Shaped() && ed.buf.Reports(ok, old(ed.buf.allocs))
      ensures ok ==> Store() == B.Apply(old(Store()), Event(CMD_FILE_LINE, p), beyond)
    {
      hide RowsOf, AllShaped, AllClean, Flags, S.FinalizeLoad;
      if fileNumLines == 0 {
        return true;
      }
      linesContador := linesContador + 1;
      var text := p + [beyond];
      assert text[..|p|] == p;
      var res := ed.buf.LoadLine(text, |p|);
      if linesContador >= fileNumLines {
        ed.buf.LoadFinalize();
        fileNumLines := 0;
      }
      return res == Ok;
    }

    /** A run of packets, up to the first whose allocations are not all granted. */
    method DispatchAll(es: seq<Event>, beyond: seq<Word8>) returns (ok: bool)
      requires ed.buf.Shaped() && |beyond| == |es| && B.ReadyAll(Store(), es, beyond)
      modifies this`remote, this`fileNumLines, this`linesContador, ed, ed.buf
      ensures ed.buf.Reports(ok, old(ed.buf.allocs))
      ensures ok ==> ed.buf.Shaped() && Store() == B.ApplyAll(old(Store()), es, beyond)
    {
      hide RowsOf, AllShaped, AllClean, Flags, B.Apply;
      ghost var was := Store();
      var i := 0;
      while i < |es|
        invariant i <= |es| && ed.buf.Shaped() && ed.buf.Reports(true, old(ed.buf.allocs))
        invariant B.ReadyAll(Store(), es[i..], beyond[i..])
        invariant B.ApplyAll(Store(), es[i..], beyond[i..]) == B.ApplyAll(was, es, beyond)
      {
        assert es[i..][1..] == es[i + 1..] && beyond[i..][1..] == beyond[i + 1..];
        ReadyMeansAllocated(es[i]);
        var one := DispatchSerial(es[i], beyond[i]);
        if !one {
          return false;
        }
        i := i + 1;
      }
      return true;
    }

    lemma ReadyMeansAllocated(e: Event)
      requires ed.buf.Shaped() && B.Ready(Store(), e)
      ensures e.cmd == CMD_INSERT_CHAR && !D.Dropped(e) ==> ed.buf.lines[ed.remoteCursorRow].Allocated()
      ensures e.cmd == CMD_DELETE_CHAR ==> ed.buf.Clean()
    {
      hide RowsOf, Flags;
      ed.buf.CleanRowsTellClean();
      if ed.buf.Clean() {
        ed.buf.CleanRowsAreAllocated();
      }
    }

    lemma ShapedIfValid()
      requires Valid()
      ensures ed.buf.Shaped()
    {
    }

    lemma StoreOfValid()
      requires ed.buf.Shaped()
      ensures Store().r == Rep() && Rep().ed == ed.St()
      ensures B.AllBuffers(Store()) <==> ed.buf.Clean()
      ensures Valid() <==> ed.buf.Clean() && S.Wf(ed.St())
    {
      hide RowsOf, Flags, AllClean;
      ed.buf.CleanRowsTellClean();
    }

    /**
     All packets of one key of the sender, received by an editor that mirrors it: no packet finds a
     row without its buffer, the editor becomes the replica the session theorems speak of, and it is
     ready for its own next key exactly when the sender's key left its cursor and selection room.
     */
    method DeliverKey(ghost s: S.State, ghost key: D.Key, es: seq<Event>, beyond: seq<Word8>) returns (ok: bool)
      requires Valid() && S.Wf(s) && C.Small(s) && C.Small(D.Local(s, key)) && C.Mirrors(s, Rep())
      requires es == Packets(D.Sent(s, key)) && |beyond| == |es|
      modifies this`remote, this`fileNumLines, this`linesContador, ed, ed.buf
      ensures ed.buf.Reports(ok, old(ed.buf.allocs))
      ensures ok ==> ed.buf.Shaped() && ed.buf.Clean()
      ensures ok ==> D.AcceptsAll(old(Rep()), es) && Rep() == D.ReceiveAll(old(Rep()), es)
      ensures ok ==> (Valid() <==> P.KeepsPeer(s, old(ed.St()), key))
    {
      hide *;
      ShapedIfValid();
      ghost var was := Store();
      StoreOfValid();
      B.KeyEndsWithBuffers(s, was, key, beyond);
      EndsReady(was, es, beyond);
      ok := DispatchAll(es, beyond);
      if ok {
        B.ReplicaOfApplyAll(was, es, beyond);
        P.PeerStaysWfIff(s, was.r, key);
        DeliveredIs(s, was.r, key);
        StoreOfValid();
      }
    }

    /** The same for a whole run of the sender's keys. */
    method DeliverSession(ghost s: S.State, ghost keys: seq<D.Key>, es: seq<Event>, beyond: seq<Word8>)
        returns (ok: bool)
      requires Valid() && S.Wf(s) && C.Mirrors(s, Rep()) && C.Followable(s, Rep(), keys)
      requires es == Packets(C.SentAll(s, keys)) && |beyond| == |es|
      modifies this`remote, this`fileNumLines, this`linesContador, ed, ed.buf
      ensures ed.buf.Reports(ok, old(ed.buf.allocs))
      ensures ok ==> ed.buf.Shaped() && ed.buf.Clean() && C.Mirrors(C.LocalAll(s, keys), Rep())
      ensures ok && P.AlwaysKeepsPeer(s, old(Rep()), keys) ==> Valid()
    {
      hide *;
      ShapedIfValid();
      ghost var was := Store();
      StoreOfValid();
      B.SessionEndsWithBuffers(s, was, keys, beyond);
      EndsReady(was, es, beyond);
      ok := DispatchAll(es, beyond);
      if ok {
        B.ReplicaOfApplyAll(was, es, beyond);
        C.SessionFollows(s, was.r, keys);
        P.SessionKeepsPeerIff(s, was.r, keys);
        if P.AlwaysKeepsPeer(s, was.r, keys) {
          P.AlwaysWfEndsWf(s, was.r, keys);
        }
        StoreOfValid();
      }
    }
  }

  lemma EndsReady(st: B.Store, es: seq<Event>, beyond: seq<Word8>)
    requires B.EndsWithBuffers(st, es, beyond)
    ensures |beyond| == |es| && B.ReadyAll(st, es, beyond) && B.AllBuffers(B.ApplyAll(st, es, beyond))
  {
  }

  lemma DeliveredIs(s: S.State, r: D.Replica, key: D.Key)
    requires S.Wf(s) && D.AcceptsAll(r, Packets(D.Sent(s, key)))
    ensures C.Delivered(s, r, key) == D.ReceiveAll(r, Packets(D.Sent(s, key)))
  {
  }
}
