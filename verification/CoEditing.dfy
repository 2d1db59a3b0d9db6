/** Two editors joined by the serial link: when the peer's document and cursor follow the local ones. */
module CoEditing {
  import opened Machine
  import opened TextDoc
  import opened EditorState
  import opened SerialLink
  import opened DeltaSync

  /** The peer has the sender's rows and shows its cursor. */
  predicate Mirrors(s: State, r: Replica) {
    r.ed.rows == s.rows && CursorShown(s, r)
  }

  predicate CursorShown(s: State, r: Replica) {
    r.ed.remoteRow == s.row && r.ed.remoteCol == s.col
  }

  /** Row numbers and columns fit the 16 bits a packet gives them. */
  predicate Small(s: State) {
    |s.rows| < 0xFFFF && forall i :: 0 <= i < |s.rows| ==> |s.rows[i]| < 0x1_0000
  }

  // ----- the local editor over any run of keys -----

  lemma MoveIsWf(s: State, dir: Dir, ctrl: bool)
    requires Wf(s)
    ensures Wf(Move(s, dir, ctrl)) && Move(s, dir, ctrl).rows == s.rows
  {
  }

  /** Whatever is typed, the document stays one and the cursor and the selection stay inside it. */
  lemma LocalIsWf(s: State, key: Key)
    requires Wf(s)
    ensures Wf(Local(s, key))
  {
    hide Splice, Rows, UpToNul, SelStart, SelEnd, NotAfter, WordLeft, DeleteSelection;
    DeleteSelectionIsWf(s);
    SelectionAndClipboard(s);
    match key
    case Backspace(_) => EditsKeepDocument(s, SPACE);
    case Arrow(dir, ctrl, shift) =>
      var t := if !shift then s.(anchor := None) else if s.anchor.None? then s.(anchor := Some((s.row, s.col))) else s;
      MoveIsWf(t, dir, ctrl);
    case CutKey => DeleteSelectionIsWf(CopySelection(s));
    case PasteKey => EditsKeepDocument(DeleteSelection(s), SPACE);
    case EnterKey => EditsKeepDocument(DeleteSelection(s), NEWLINE);
    case CharKey(c) => EditsKeepDocument(DeleteSelection(s), c);
    case _ =>
  }

  // ----- the blocks announced are the blocks changed -----

  lemma SelectionIsBlock(s: State)
    requires Wf(s) && s.anchor.Some?
    ensures var b := SelBlock(s, 1).value; BlockEdit(s.rows, DeleteSelection(s).rows, b.start, b.deleted, 1)
  {
    SpliceIsBlockEdit(s.rows, SelStart(s).0, SelStart(s).1, SelEnd(s).0, SelEnd(s).1, [[]]);
  }

  lemma InsertionIsBlock(s: State, ins: seq<Row>)
    requires Wf(s) && |ins| >= 1
    ensures CursorInDoc(DeleteSelection(s))
    ensures var t := DeleteSelection(s);
      var b := if s.anchor.Some? then SelBlock(s, |ins|).value else Block(s.row, 1, |ins|);
      BlockEdit(s.rows, Splice(t.rows, t.row, t.col, t.row, t.col, ins), b.start, b.deleted, b.inserted)
  {
    DeleteSelectionIsWf(s);
    var t := DeleteSelection(s);
    SpliceIsBlockEdit(t.rows, t.row, t.col, t.row, t.col, ins);
    if s.anchor.Some? {
      SelectionIsBlock(s);
      BlockEditsCompose(s.rows, t.rows, Splice(t.rows, t.row, t.col, t.row, t.col, ins),
                        SelStart(s).0, SelEnd(s).0 - SelStart(s).0 + 1, |ins|);
    }
  }

  /** The rows a key changes are the rows of the block it announces. */
  lemma KeyIsBlockEdit(s: State, key: Key)
    requires Wf(s) && SentBlock(s, key).Some? && SentBlock(s, key).value.start >= 0
    ensures var b := SentBlock(s, key).value;
      BlockEdit(s.rows, Local(s, key).rows, b.start, b.deleted, b.inserted)
  {
    hide Splice, BlockEdit;
    if s.anchor.Some? {
      SelectionIsBlock(s);
    }
    match key
    case Backspace(_) =>
      if s.anchor.None? {
        if s.col == 0 {
          SpliceIsBlockEdit(s.rows, s.row - 1, |s.rows[s.row - 1]|, s.row, 0, [[]]);
        } else {
          SpliceIsBlockEdit(s.rows, s.row, WordLeft(s.rows[s.row], s.col), s.row, s.col, [[]]);
        }
      }
    case CutKey => assert CopySelection(s).rows == s.rows;
    case PasteKey => InsertionIsBlock(s, Rows(UpToNul(s.clip.value)));
    case EnterKey => InsertionIsBlock(s, Inserted(NEWLINE));
    case CharKey(c) => InsertionIsBlock(s, Inserted(c));
    case _ =>
  }

  // ----- one key, delivered -----

  /** The peer after the packets of one key. */
  function Delivered(s: State, r: Replica, key: Key): Replica
    requires Wf(s) && AcceptsAll(r, Packets(Sent(s, key)))
  {
    ReceiveAll(r, Packets(Sent(s, key)))
  }

  /** The changed rows fit their packets, and a paste has something to paste. */
  predicate RowsCarried(s: State, key: Key)
    requires Wf(s)
  {
    var t, block := Local(s, key), SentBlock(s, key);
    if block.Some? && block.value.start >= 0 then
      BlockFits(t.rows, block.value.start, block.value.inserted)
    else key.PasteKey? && s.anchor.Some? ==> SelStart(s) == SelEnd(s)
  }

  /** The cursor position the peer takes up: none on its own row. */
  predicate CursorHeard(s: State, r: Replica, key: Key)
    requires Wf(s)
  {
    var t, block := Local(s, key), SentBlock(s, key);
    if block.Some? then
      (s.row, s.col) == (t.row, t.col) ||
      t.row != OwnRowAfter(r.ed.row, block.value.start, block.value.deleted, block.value.inserted)
    else
      match key
      case Arrow(_, _, _) => (s.row, s.col) == (t.row, t.col) || t.row != r.ed.row
      case Click(row, col) =>
        (t.row, t.col) == if U16(row) == r.ed.row then (s.row, s.col) else (U16(row), U16(col))
      case PasteKey => (s.row, s.col) == (t.row, t.col)
      case _ => true
  }

  lemma BlockFollows(s: State, r: Replica, key: Key)
    requires Wf(s) && Small(s) && Small(Local(s, key)) && Mirrors(s, r)
    requires SentBlock(s, key).Some? && SentBlock(s, key).value.start >= 0
    ensures AcceptsAll(r, Packets(Sent(s, key)))
    ensures Delivered(s, r, key).ed.rows == Local(s, key).rows <==> RowsCarried(s, key)
    ensures CursorShown(Local(s, key), Delivered(s, r, key)) <==> CursorHeard(s, r, key)
  {
    hide ReceiveAll, AcceptsAll, Packets, Local, SentBlock, SyncBlock;
    var t, b := Local(s, key), SentBlock(s, key).value;
    LocalIsWf(s, key);
    KeyIsBlockEdit(s, key);
    BlockArrives(r, t, b.start, b.deleted, b.inserted);
    TrimmedIsExactIffFits(t.rows, b.start, b.inserted);
  }

  /** Each message of a block announced at row -1 is past the end for the peer. */
  lemma EarlyMessagesAreIgnored(r: Replica)
    requires 1 <= |r.ed.rows| < 0xFFFF && r.ed.remoteRow == r.ed.remoteCol == 0
    ensures Accepts(r, Packet(ReplaceBlockMsg(-1, 2, 1))) && Receive(r, Packet(ReplaceBlockMsg(-1, 2, 1))) == r
    ensures Accepts(r, Packet(UpdateLineMsg(-1, []))) && Receive(r, Packet(UpdateLineMsg(-1, []))) == r
    ensures Accepts(r, Packet(MoveCursorMsg(0, 0))) && Receive(r, Packet(MoveCursorMsg(0, 0))) == r
  {
    hide Receive, Accepts, Packet;
    ReplaceBlockArrives(r, -1, 2, 1);
    UpdateLineArrives(r, -1, []);
    MoveCursorArrives(r, 0, 0);
  }

  lemma EarlyBlockIsIgnored(r: Replica)
    requires 1 <= |r.ed.rows| < 0xFFFF && r.ed.remoteRow == r.ed.remoteCol == 0
    ensures var ms := [ReplaceBlockMsg(-1, 2, 1), UpdateLineMsg(-1, []), MoveCursorMsg(0, 0)];
      AcceptsAll(r, Packets(ms)) && ReceiveAll(r, Packets(ms)) == r
  {
    hide Receive, Accepts, Packet, AcceptsAll, ReceiveAll;
    var m1, m2, m3 := ReplaceBlockMsg(-1, 2, 1), UpdateLineMsg(-1, []), MoveCursorMsg(0, 0);
    EarlyMessagesAreIgnored(r);
    ReceiveAllOfNone(r);
    ReceiveFirst(r, m3, []);
    ReceiveFirst(r, m2, [m3]);
    ReceiveFirst(r, m1, [m2, m3]);
    assert [m1, m2, m3] == [m1] + [m2, m3] && [m2, m3] == [m2] + [m3] && [m3] == [m3] + [];
  }

  lemma EarlyBlockSends(s: State, key: Key)
    requires Wf(s) && SentBlock(s, key).Some? && SentBlock(s, key).value.start < 0
    ensures s.row == s.col == 0 && Local(s, key) == s
    ensures Sent(s, key) == [ReplaceBlockMsg(-1, 2, 1), UpdateLineMsg(-1, []), MoveCursorMsg(0, 0)]
  {
    hide Splice;
    assert key == Backspace(true) && s.anchor.None? && s.row == 0 && s.col == 0;
    assert Local(s, key) == s;
    assert LineMessages(s.rows, -1, 1) == [UpdateLineMsg(-1, [])];
  }

  /** Backspacing a word at the very start announces row -1; nothing changes on either side. */
  lemma NothingBeforeTheStart(s: State, r: Replica, key: Key)
    requires Wf(s) && Small(s) && Mirrors(s, r)
    requires SentBlock(s, key).Some? && SentBlock(s, key).value.start < 0
    ensures Local(s, key) == s && AcceptsAll(r, Packets(Sent(s, key))) && Delivered(s, r, key) == r
  {
    hide AcceptsAll, ReceiveAll, Packets, SentBlock, Local, Sent;
    EarlyBlockSends(s, key);
    EarlyBlockIsIgnored(r);
  }

  lemma MovesKeepRows(s: State, key: Key)
    requires Wf(s) && (key.Arrow? || key.Click?)
    ensures Local(s, key).rows == s.rows
  {
  }

  lemma MoveFollows(s: State, r: Replica, key: Key)
    requires Wf(s) && Small(s) && Mirrors(s, r) && (key.Arrow? || key.Click?)
    ensures AcceptsAll(r, Packets(Sent(s, key)))
    ensures Delivered(s, r, key).ed.rows == Local(s, key).rows
    ensures CursorShown(Local(s, key), Delivered(s, r, key)) <==> CursorHeard(s, r, key)
  {
    hide Receive, Accepts, Packet, Delivered, Local;
    var t := Local(s, key);
    LocalIsWf(s, key);
    MovesKeepRows(s, key);
    var row, col := if key.Click? then key.row else t.row, if key.Click? then key.col else t.col;
    MoveCursorArrives(r, row, col);
    DeliversOne(s, r, key, MoveCursorMsg(row, col));
  }

  /** Typing and backspacing at the remote cursor is what typing and backspacing is at the cursor. */
  lemma CharacterFollows(s: State, r: Replica, key: Key, m: Message)
    requires Wf(s) && Mirrors(s, r) && SentBlock(s, key).None?
    requires Sent(s, key) == [m] && (m.InsertCharMsg? || m.DeleteCharMsg?)
    ensures AcceptsAll(r, Packets(Sent(s, key))) && Mirrors(Local(s, key), Delivered(s, r, key))
  {
    hide Splice, Receive, Accepts, Packet, Delivered;
    CharacterEditsArrive(r, if m.InsertCharMsg? then m.c else SPACE);
    DeliversOne(s, r, key, m);
  }

  lemma PlainKeyFollows(s: State, r: Replica, key: Key)
    requires Wf(s) && Small(s) && Small(Local(s, key)) && Mirrors(s, r) && SentBlock(s, key).None?
    ensures AcceptsAll(r, Packets(Sent(s, key)))
    ensures Delivered(s, r, key).ed.rows == Local(s, key).rows <==> RowsCarried(s, key)
    ensures CursorShown(Local(s, key), Delivered(s, r, key)) <==> CursorHeard(s, r, key)
  {
    if key.Arrow? || key.Click? {
      MoveFollows(s, r, key);
    } else if Sent(s, key) != [] {
      CharacterFollows(s, r, key, Sent(s, key)[0]);
    } else {
      ReceiveAllOfNone(r);
      if key.PasteKey? && s.anchor.Some? {
        DeletesNothingIffEmpty(s);
      }
    }
  }

  lemma DeliversOne(s: State, r: Replica, key: Key, m: Message)
    requires Wf(s) && Sent(s, key) == [m] && Accepts(r, Packet(m))
    ensures AcceptsAll(r, Packets(Sent(s, key))) && Delivered(s, r, key) == Receive(r, Packet(m))
  {
    hide Receive, Accepts, Packet, Sent;
    ReceiveAllOfNone(Receive(r, Packet(m)));
    ReceiveFirst(r, m, []);
    assert [m] + [] == [m];
  }

  /** Deleting a selection leaves the rows alone only when nothing is selected. */
  lemma DeletesNothingIffEmpty(s: State)
    requires Wf(s) && s.anchor.Some?
    ensures DeleteSelection(s).rows == s.rows <==> SelStart(s) == SelEnd(s)
  {
    var a, b := SelStart(s), SelEnd(s);
    SpliceText(s.rows, a.0, a.1, b.0, b.1, [[]]);
    BetweenText(s.rows, a.0, a.1, b.0, b.1);
    if a == b {
      CutInThree(s.rows, a.0, a.1, b.0, b.1);
      assert Between(s.rows, a.0, a.1, b.0, b.1) == [[]];
    } else {
      assert |Text(Between(s.rows, a.0, a.1, b.0, b.1))| > 0;
    }
  }

  /**
   One key and its packets: the peer's rows become the sender's exactly when the changed rows fit
   their packets, and it shows the sender's cursor exactly when that is not kept off the peer's row.
   */
  lemma KeyFollows(s: State, r: Replica, key: Key)
    requires Wf(s) && Small(s) && Small(Local(s, key)) && Mirrors(s, r)
    ensures AcceptsAll(r, Packets(Sent(s, key)))
    ensures Delivered(s, r, key).ed.rows == Local(s, key).rows <==> RowsCarried(s, key)
    ensures CursorShown(Local(s, key), Delivered(s, r, key)) <==> CursorHeard(s, r, key)
  {
    if SentBlock(s, key).None? {
      PlainKeyFollows(s, r, key);
    } else if SentBlock(s, key).value.start >= 0 {
      BlockFollows(s, r, key);
    } else {
      NothingBeforeTheStart(s, r, key);
    }
  }

  // ----- whole sessions -----

  function LocalAll(s: State, keys: seq<Key>): State
    requires Wf(s)
    decreases |keys|
  {
    if keys == [] then s
    else
      LocalIsWf(s, keys[0]);
      LocalAll(Local(s, keys[0]), keys[1..])
  }

  /** ... so a run of any length never leaves the document or strands the cursor or the selection. */
  lemma {:induction false} LocalAllIsWf(s: State, keys: seq<Key>)
    requires Wf(s)
    ensures Wf(LocalAll(s, keys))
    decreases |keys|
  {
    hide Local, Wf;
    if keys != [] {
      LocalIsWf(s, keys[0]);
      LocalAllIsWf(Local(s, keys[0]), keys[1..]);
    }
  }

  function SentAll(s: State, keys: seq<Key>): seq<Message>
    requires Wf(s)
    decreases |keys|
  {
    if keys == [] then []
    else
      LocalIsWf(s, keys[0]);
      Sent(s, keys[0]) + SentAll(Local(s, keys[0]), keys[1..])
  }

  /** At every key the rows fit, and the cursor is not kept off the peer's row. */
  ghost predicate Followable(s: State, r: Replica, keys: seq<Key>)
    requires Wf(s)
    decreases |keys|
  {
    Small(s) &&
    (keys != [] ==>
      var key := keys[0];
      RowsCarried(s, key) && CursorHeard(s, r, key) && AcceptsAll(r, Packets(Sent(s, key))) &&
      (LocalIsWf(s, key); Followable(Local(s, key), Delivered(s, r, key), keys[1..])))
  }

  lemma {:induction false} PacketsAppend(a: seq<Message>, b: seq<Message>)
    ensures Packets(a + b) == Packets(a) + Packets(b)
  {
  }

  /** Over any run of keys, the peer ends with the sender's rows and shows its cursor. */
  lemma {:induction false} SessionFollows(s: State, r: Replica, keys: seq<Key>)
    requires Wf(s) && Mirrors(s, r) && Followable(s, r, keys)
    ensures AcceptsAll(r, Packets(SentAll(s, keys)))
    ensures Mirrors(LocalAll(s, keys), ReceiveAll(r, Packets(SentAll(s, keys))))
    decreases |keys|
  {
    hide Local, Sent, Packets, Receive, Accepts, Wf, RowsCarried, CursorHeard;
    if keys == [] {
      ReceiveNothing(r);
    } else {
      var key := keys[0];
      LocalIsWf(s, key);
      var t, q, rest := Local(s, key), Delivered(s, r, key), SentAll(Local(s, key), keys[1..]);
      assert Small(t);
      KeyFollows(s, r, key);
      SessionFollows(t, q, keys[1..]);
      ReceiveAppend(r, Packets(Sent(s, key)), Packets(rest));
      PacketsAppend(Sent(s, key), rest);
    }
  }

  /** The same through the wire: the bytes sent, read back by the peer's receiver. */
  lemma SessionFollowsOverTheWire(s: State, r: Replica, keys: seq<Key>)
    requires Wf(s) && Mirrors(s, r) && Followable(s, r, keys)
    ensures var es := Packets(SentAll(s, keys));
      (forall e :: e in es ==> e.Fits()) && AcceptsAll(r, Events(WaitStart, EncodeAll(es))) &&
      Mirrors(LocalAll(s, keys), ReceiveAll(r, Events(WaitStart, EncodeAll(es))))
  {
    MessagesArrive(SentAll(s, keys));
    SessionFollows(s, r, keys);
  }

  // ----- the peer's own cursor -----

  /** A block edit elsewhere leaves the peer's own cursor on the row it was on. */
  lemma OwnRowStays(was: seq<Row>, now: seq<Row>, own: nat, start: nat, deleted: nat, inserted: nat)
    requires BlockEdit(was, now, start, deleted, inserted) && own < |was|
    requires own < start || own >= start + deleted
    ensures var after := OwnRowAfter(own, start, deleted, inserted);
      0 <= after < |now| && now[after] == was[own]
  {
    if own < start {
      assert now[..start][own] == was[..start][own];
    } else {
      assert now[start + inserted..][own - start - deleted] == was[start + deleted..][own - start - deleted];
    }
  }

  /** The rows of the sender's document a key rewrites, removes or joins. */
  predicate Touches(s: State, key: Key, row: int)
    requires Wf(s)
  {
    var block := SentBlock(s, key);
    if block.Some? then block.value.start <= row < block.value.start + block.value.deleted
    else
      match key
      case Backspace(_) => row == s.row || (s.col == 0 && row == s.row - 1)
      case EnterKey => row == s.row
      case CharKey(_) => row == s.row
      case _ => false
  }

  lemma BlockKeepsOwnRow(s: State, r: Replica, key: Key)
    requires Wf(s) && Small(s) && Small(Local(s, key)) && Mirrors(s, r) && RowsCarried(s, key)
    requires SentBlock(s, key).Some? && SentBlock(s, key).value.start >= 0
    requires 0 <= r.ed.row < |s.rows| && !Touches(s, key, r.ed.row)
    ensures AcceptsAll(r, Packets(Sent(s, key)))
    ensures var q := Delivered(s, r, key); 0 <= q.ed.row < |q.ed.rows| && q.ed.rows[q.ed.row] == r.ed.rows[r.ed.row]
  {
    hide ReceiveAll, AcceptsAll, Packets, Local, SentBlock, SyncBlock;
    var t, b := Local(s, key), SentBlock(s, key).value;
    LocalIsWf(s, key);
    KeyIsBlockEdit(s, key);
    BlockArrives(r, t, b.start, b.deleted, b.inserted);
    TrimmedIsExactIffFits(t.rows, b.start, b.inserted);
    OwnRowStays(s.rows, t.rows, r.ed.row, b.start, b.deleted, b.inserted);
  }

  lemma RemoteInsertKeepsOwnRow(r: State, c: Word8)
    requires InDoc(r.rows, r.remoteRow, r.remoteCol) && 0 <= r.row < |r.rows| && r.row != r.remoteRow
    ensures var q := RemoteInsertChar(r, c); 0 <= q.row < |q.rows| && q.rows[q.row] == r.rows[r.row]
  {
    hide Splice, BlockEdit;
    var now := Splice(r.rows, r.remoteRow, r.remoteCol, r.remoteRow, r.remoteCol, Inserted(c));
    SpliceIsBlockEdit(r.rows, r.remoteRow, r.remoteCol, r.remoteRow, r.remoteCol, Inserted(c));
    OwnRowStays(r.rows, now, r.row, r.remoteRow, 1, |Inserted(c)|);
  }

  lemma RemoteDeleteKeepsOwnRow(r: State)
    requires InDoc(r.rows, r.remoteRow, r.remoteCol) && 0 <= r.row < |r.rows| && r.row != r.remoteRow
    requires r.remoteCol == 0 ==> r.row != r.remoteRow - 1
    ensures var q := RemoteDeleteChar(r); 0 <= q.row < |q.rows| && q.rows[q.row] == r.rows[r.row]
  {
    hide Splice, BlockEdit;
    if r.remoteRow > 0 || r.remoteCol > 0 {
      var br, bc := BackRow(r.rows, r.remoteRow, r.remoteCol), BackCol(r.rows, r.remoteRow, r.remoteCol);
      SpliceIsBlockEdit(r.rows, br, bc, r.remoteRow, r.remoteCol, [[]]);
      OwnRowStays(r.rows, Splice(r.rows, br, bc, r.remoteRow, r.remoteCol, [[]]), r.row, br, r.remoteRow - br + 1, 1);
    }
  }

  lemma CharacterKeepsOwnRow(s: State, r: Replica, key: Key, m: Message)
    requires Wf(s) && Mirrors(s, r) && SentBlock(s, key).None?
    requires Sent(s, key) == [m] && (m.InsertCharMsg? || m.DeleteCharMsg?)
    requires 0 <= r.ed.row < |s.rows| && !Touches(s, key, r.ed.row)
    ensures AcceptsAll(r, Packets(Sent(s, key)))
    ensures var q := Delivered(s, r, key); 0 <= q.ed.row < |q.ed.rows| && q.ed.rows[q.ed.row] == r.ed.rows[r.ed.row]
  {
    hide Receive, Accepts, Packet, Delivered, RemoteInsertChar, RemoteDeleteChar, Splice;
    CharacterEditsArrive(r, if m.InsertCharMsg? then m.c else SPACE);
    DeliversOne(s, r, key, m);
    if m.InsertCharMsg? {
      RemoteInsertKeepsOwnRow(r.ed, m.c);
    } else {
      RemoteDeleteKeepsOwnRow(r.ed);
    }
  }

  /** Rows come and go above it, and the peer's own cursor stays on the row it was on. */
  lemma OwnCursorKeepsItsRow(s: State, r: Replica, key: Key)
    requires Wf(s) && Small(s) && Small(Local(s, key)) && Mirrors(s, r) && RowsCarried(s, key)
    requires 0 <= r.ed.row < |s.rows| && !Touches(s, key, r.ed.row)
    ensures AcceptsAll(r, Packets(Sent(s, key)))
    ensures var q := Delivered(s, r, key); 0 <= q.ed.row < |q.ed.rows| && q.ed.rows[q.ed.row] == r.ed.rows[r.ed.row]
  {
    if SentBlock(s, key).None? {
      if key.Arrow? || key.Click? {
        var t := Local(s, key);
        var row, col := if key.Click? then key.row else t.row, if key.Click? then key.col else t.col;
        MoveCursorArrives(r, row, col);
        DeliversOne(s, r, key, MoveCursorMsg(row, col));
      } else if Sent(s, key) != [] {
        CharacterKeepsOwnRow(s, r, key, Sent(s, key)[0]);
      } else {
        ReceiveAllOfNone(r);
      }
    } else if SentBlock(s, key).value.start >= 0 {
      BlockKeepsOwnRow(s, r, key);
    } else {
      NothingBeforeTheStart(s, r, key);
    }
  }

  // ----- both sides typing -----

  /** The first row below what a key changes. */
  function RowBelow(s: State, key: Key): int
    requires Wf(s)
  {
    var block := SentBlock(s, key);
    if block.Some? then block.value.start + block.value.deleted else s.row + 1
  }

  /** Local keys never move the remote cursor. */
  lemma LocalKeepsRemoteCursor(s: State, key: Key)
    requires Wf(s)
    ensures Local(s, key).remoteRow == s.remoteRow && Local(s, key).remoteCol == s.remoteCol
  {
    hide Splice;
  }

  lemma BlockMovesOwnRow(s: State, r: Replica, key: Key)
    requires Wf(s) && Small(s) && Small(Local(s, key)) && Mirrors(s, r)
    requires SentBlock(s, key).Some? && SentBlock(s, key).value.start >= 0
    ensures AcceptsAll(r, Packets(Sent(s, key)))
    ensures Delivered(s, r, key).ed.col == r.ed.col
    ensures Delivered(s, r, key).ed.row == r.ed.row <==>
      |Local(s, key).rows| == |s.rows| || r.ed.row < RowBelow(s, key)
  {
    hide ReceiveAll, AcceptsAll, Packets, Local, SentBlock, SyncBlock;
    var t, b := Local(s, key), SentBlock(s, key).value;
    LocalIsWf(s, key);
    KeyIsBlockEdit(s, key);
    BlockArrives(r, t, b.start, b.deleted, b.inserted);
  }

  lemma CharacterMovesOwnRow(s: State, r: Replica, key: Key, m: Message)
    requires Wf(s) && Mirrors(s, r) && SentBlock(s, key).None?
    requires Sent(s, key) == [m] && (m.InsertCharMsg? || m.DeleteCharMsg?)
    ensures AcceptsAll(r, Packets(Sent(s, key)))
    ensures Delivered(s, r, key).ed.col == r.ed.col
    ensures Delivered(s, r, key).ed.row == r.ed.row <==>
      |Local(s, key).rows| == |s.rows| || r.ed.row < RowBelow(s, key)
  {
    hide Receive, Accepts, Packet, Delivered, Splice;
    CharacterEditsArrive(r, if m.InsertCharMsg? then m.c else SPACE);
    DeliversOne(s, r, key, m);
    if m.InsertCharMsg? {
      SpliceIsBlockEdit(s.rows, s.row, s.col, s.row, s.col, Inserted(m.c));
    } else if s.row > 0 || s.col > 0 {
      SpliceIsBlockEdit(s.rows, BackRow(s.rows, s.row, s.col), BackCol(s.rows, s.row, s.col), s.row, s.col, [[]]);
    }
  }

  /**
   The sender still knows where the peer's own cursor is exactly when the key did not change the
   number of rows above it: the peer moves its cursor with its row, and does not say so.
   */
  lemma PeerCursorStaysKnown(s: State, r: Replica, key: Key)
    requires Wf(s) && Small(s) && Small(Local(s, key)) && Mirrors(s, r) && RowsCarried(s, key)
    requires s.remoteRow == r.ed.row && s.remoteCol == r.ed.col
    ensures AcceptsAll(r, Packets(Sent(s, key)))
    ensures var t, q := Local(s, key), Delivered(s, r, key).ed;
      (t.remoteRow == q.row && t.remoteCol == q.col) <==> (|t.rows| == |s.rows| || r.ed.row < RowBelow(s, key))
  {
    hide Splice;
    LocalKeepsRemoteCursor(s, key);
    if SentBlock(s, key).None? {
      if key.Arrow? || key.Click? {
        var t := Local(s, key);
        var row, col := if key.Click? then key.row else t.row, if key.Click? then key.col else t.col;
        MoveCursorArrives(r, row, col);
        DeliversOne(s, r, key, MoveCursorMsg(row, col));
      } else if Sent(s, key) != [] {
        CharacterMovesOwnRow(s, r, key, Sent(s, key)[0]);
      } else {
        ReceiveAllOfNone(r);
        if key.PasteKey? && s.anchor.Some? {
          DeletesNothingIffEmpty(s);
        }
      }
    } else if SentBlock(s, key).value.start >= 0 {
      BlockMovesOwnRow(s, r, key);
    } else {
      NothingBeforeTheStart(s, r, key);
    }
  }

  /** ... and once it does not know, the next character the peer types splits the two documents. */
  lemma StaleCursorSplitsDocuments(s: State, r: State, c: Word8)
    requires Wf(r) && r.rows == s.rows && InDoc(s.rows, s.remoteRow, s.remoteCol)
    requires s.remoteRow != r.row && c != NEWLINE
    ensures InsertChar(r, c).rows != RemoteInsertChar(s, c).rows
  {
    SpliceOneRow(r.rows, r.row, r.col, r.col, [c]);
    SpliceOneRow(s.rows, s.remoteRow, s.remoteCol, s.remoteCol, [c]);
    assert |InsertChar(r, c).rows[r.row]| == |r.rows[r.row]| + 1;
    assert RemoteInsertChar(s, c).rows[r.row] == r.rows[r.row];
  }

  // ----- where it goes wrong -----

  /** Pasting over a selection with an empty clipboard deletes the selection and says nothing. */
  lemma PasteOfNothingSplitsDocuments(r: Replica)
    requires r.ed.rows == [[97]] && r.ed.remoteRow == 0 && r.ed.remoteCol == 1
    ensures var s := State([[97]], 0, 1, 5, 0, Some((0, 0)), None);
      Wf(s) && Mirrors(s, r) && AcceptsAll(r, Packets(Sent(s, PasteKey))) &&
      Delivered(s, r, PasteKey).ed.rows != Local(s, PasteKey).rows
  {
    var s := State([[97]], 0, 1, 5, 0, Some((0, 0)), None);
    assert Mirrors(s, r);
    NothingPasted(s);
    hide *;
    KeyFollows(s, r, PasteKey);
  }

  lemma NothingPasted(s: State)
    requires s == State([[97]], 0, 1, 5, 0, Some((0, 0)), None)
    ensures Wf(s) && Small(s) && Small(Local(s, PasteKey)) && !RowsCarried(s, PasteKey)
  {
    OneLetterDeleted(s);
    PasteWithoutClipboard(s);
    hide Local, DeleteSelection;
    assert Small(DeleteSelection(s));
  }

  lemma OneLetterDeleted(s: State)
    requires s == State([[97]], 0, 1, 5, 0, Some((0, 0)), None)
    ensures Wf(s) && Small(s) && SelStart(s) == (0, 0) && SelEnd(s) == (0, 1) && DeleteSelection(s).rows == [[]]
  {
    SpliceJoins(s.rows, 0, 0, 0, 1);
    hide Splice;
    assert s.rows[0][..0] + s.rows[0][1..] == [];
  }

  lemma PasteWithoutClipboard(s: State)
    requires Wf(s) && s.clip.None?
    ensures Local(s, PasteKey) == DeleteSelection(s) && SentBlock(s, PasteKey).None?
  {
    hide DeleteSelection;
    SelectionAndClipboard(s);
  }

  /** A row of more than 250 bytes does not survive a paste on its row. */
  lemma PasteIntoLongRowSplitsDocuments(long: Row, r: Replica)
    requires MAX_LINE <= |long| < 0xFFFF && NEWLINE !in long
    requires r.ed.rows == [long] && r.ed.remoteRow == r.ed.remoteCol == 0
    ensures var s := State([long], 0, 0, 5, 0, None, Some([97]));
      Wf(s) && Mirrors(s, r) && AcceptsAll(r, Packets(Sent(s, PasteKey))) &&
      Delivered(s, r, PasteKey).ed.rows != Local(s, PasteKey).rows
  {
    var s := State([long], 0, 0, 5, 0, None, Some([97]));
    var a: seq<Word8> := [97];
    assert UpToNul(a) == [97] && Rows([97]) == [[97]] by {
      assert a[1..] == [];
    }
    SpliceOneRow(s.rows, 0, 0, 0, a);
    var t := Local(s, PasteKey);
    assert t.rows == [[] + a + long] && |LineAt(t.rows, 0)| > MAX_LINE;
    KeyFollows(s, r, PasteKey);
  }

  /** Enter above the peer's cursor, and the sender no longer knows where that cursor is. */
  lemma EnterAboveLosesThePeersCursor(s: State, r: Replica)
    requires Wf(s) && Mirrors(s, r) && s.anchor.None? && s.row < r.ed.row == s.remoteRow
    ensures AcceptsAll(r, Packets(Sent(s, EnterKey)))
    ensures Local(s, EnterKey).remoteRow != Delivered(s, r, EnterKey).ed.row
  {
    hide Receive, Accepts, Packet, Packets, AcceptsAll, ReceiveAll, Delivered, Splice;
    SpliceBreaks(s.rows, s.row, s.col);
    CharacterMovesOwnRow(s, r, EnterKey, InsertCharMsg(NEWLINE));
  }
}
