/** What remote edits do to the peer's own cursor and selection: exactly when they stay in its document. */
module PeerEditor {
  import opened Machine
  import opened TextDoc
  import opened EditorState
  import opened SerialLink
  import opened DeltaSync
  import opened CoEditing

  /** The text between two positions replaced by `ins`. */
  datatype Edit = Edit(r1: int, c1: int, r2: int, c2: int, ins: seq<Row>)

  predicate IsEdit(rows: seq<Row>, e: Edit) {
    InDoc(rows, e.r1, e.c1) && InDoc(rows, e.r2, e.c2) && NotAfter(e.r1, e.c1, e.r2, e.c2) && IsDoc(e.ins)
  }

  /** What is selected, or nothing at the cursor, replaced by `ins`. */
  function Overtype(s: State, ins: seq<Row>): Edit
    requires Wf(s)
  {
    if s.anchor.None? then Edit(s.row, s.col, s.row, s.col, ins)
    else Edit(SelStart(s).0, SelStart(s).1, SelEnd(s).0, SelEnd(s).1, ins)
  }

  /** The edit a key makes and the peer is told of. */
  function EditOf(s: State, key: Key): Option<Edit>
    requires Wf(s)
  {
    match key
    case Backspace(ctrl) =>
      if s.anchor.Some? then Some(Overtype(s, [[]]))
      else if ctrl && s.col > 0 then Some(Edit(s.row, WordLeft(s.rows[s.row], s.col), s.row, s.col, [[]]))
      else Some(Edit(BackRow(s.rows, s.row, s.col), BackCol(s.rows, s.row, s.col), s.row, s.col, [[]]))
    case CutKey => if s.anchor.Some? then Some(Overtype(s, [[]])) else None
    case PasteKey => if s.clip.Some? then Some(Overtype(s, Rows(UpToNul(s.clip.value)))) else None
    case EnterKey => Some(Overtype(s, Inserted(NEWLINE)))
    case CharKey(c) => if c == COLON then None else Some(Overtype(s, Inserted(c)))
    case _ => None
  }

  lemma EditOfIsEdit(s: State, key: Key)
    requires Wf(s) && EditOf(s, key).Some?
    ensures IsEdit(s.rows, EditOf(s, key).value)
  {
    if key.PasteKey? {
      TextOfRows(UpToNul(s.clip.value));
    }
  }

  /** Deleting a selection and inserting in its place is one edit. */
  lemma OvertypeIsOneEdit(s: State, ins: seq<Row>)
    requires Wf(s) && |ins| >= 1
    ensures CursorInDoc(DeleteSelection(s))
    ensures var t, e := DeleteSelection(s), Overtype(s, ins);
      Splice(t.rows, t.row, t.col, t.row, t.col, ins) == Splice(s.rows, e.r1, e.c1, e.r2, e.c2, ins)
  {
    DeleteSelectionStaysInDoc(s);
    if s.anchor.Some? {
      var a, b := SelStart(s), SelEnd(s);
      var none: seq<Row> := [[]];
      SpliceEnd(s.rows, a.0, a.1, b.0, b.1, none);
      assert EndRow(a.0, none) == a.0 && EndCol(a.1, none) == a.1;
      GlueNothing(Before(s.rows, a.0, a.1));
    }
  }

  lemma GlueNothing(a: seq<Row>)
    requires |a| >= 1
    ensures Glue(a, [[]]) == a
  {
  }

  lemma LocalIsEdit(s: State, key: Key)
    requires Wf(s) && EditOf(s, key).Some?
    ensures IsEdit(s.rows, EditOf(s, key).value)
    ensures var e := EditOf(s, key).value; Local(s, key).rows == Splice(s.rows, e.r1, e.c1, e.r2, e.c2, e.ins)
  {
    hide Splice, Glue;
    EditOfIsEdit(s, key);
    match key
    case PasteKey => OvertypeIsOneEdit(s, Rows(UpToNul(s.clip.value)));
    case EnterKey => OvertypeIsOneEdit(s, Inserted(NEWLINE));
    case CharKey(c) => OvertypeIsOneEdit(s, Inserted(c));
    case Backspace(ctrl) =>
      if s.anchor.None? && s.row == 0 && s.col == 0 {
        InsertionOfNothing(s.rows);
      }
    case _ =>
  }

  lemma InsertionOfNothing(rows: seq<Row>)
    requires |rows| >= 1
    ensures Splice(rows, 0, 0, 0, 0, [[]]) == rows
  {
    SpliceOneRow(rows, 0, 0, 0, []);
    assert rows[0][..0] + [] + rows[0][0..] == rows[0];
  }

  // ----- lengths -----

  function Height(e: Edit): int {
    e.r2 - e.r1 + 1
  }

  /** How many rows there are after the edit. */
  function CountAfter(rows: seq<Row>, e: Edit): int {
    |rows| - Height(e) + |e.ins|
  }

  /** How long row `i` is after the edit, from the lengths before. */
  function LengthAfter(rows: seq<Row>, e: Edit, i: int): int
    requires IsEdit(rows, e) && 0 <= i < CountAfter(rows, e)
  {
    if i < e.r1 then |rows[i]|
    else if i < e.r1 + |e.ins| then
      (if i == e.r1 then e.c1 else 0) + |e.ins[i - e.r1]|
      + if i == e.r1 + |e.ins| - 1 then |rows[e.r2]| - e.c2 else 0
    else |rows[i - |e.ins| + Height(e)]|
  }

  lemma SpliceLengths(rows: seq<Row>, e: Edit, i: int)
    requires IsEdit(rows, e)
    ensures var out := Splice(rows, e.r1, e.c1, e.r2, e.c2, e.ins);
      |out| == CountAfter(rows, e) && (0 <= i < |out| ==> |out[i]| == LengthAfter(rows, e, i))
  {
    hide Glue;
    var head, tail := Glue(Before(rows, e.r1, e.c1), e.ins), After(rows, e.r2, e.c2);
    var out := Glue(head, tail);
    assert out == Splice(rows, e.r1, e.c1, e.r2, e.c2, e.ins);
    var k := e.r1 + |e.ins| - 1;
    if k < i < |out| {
      assert out[k + (i - k)] == tail[i - k];
    }
    if e.r1 < i <= k {
      assert head[e.r1 + (i - e.r1)] == e.ins[i - e.r1];
    }
  }

  // ----- the condition -----

  /** Rows of an announced block arrive cut to what a packet carries. */
  predicate Announced(s: State, key: Key)
    requires Wf(s)
  {
    SentBlock(s, key).Some? && SentBlock(s, key).value.start >= 0
  }

  /** After the edit the peer has a row `i` that reaches column `c`. */
  predicate Room(s: State, key: Key, e: Edit, i: int, c: int)
    requires Wf(s) && IsEdit(s.rows, e)
  {
    0 <= i < CountAfter(s.rows, e) && 0 <= c <= LengthAfter(s.rows, e, i) &&
    (Announced(s, key) && e.r1 <= i < e.r1 + |e.ins| ==> c <= MAX_LINE)
  }

  /**
   The peer's own cursor is outside the rows the key changes or still has room in the row that takes
   its place; and its selection's anchor, which nothing moves, is above them or still has room.
   */
  predicate KeepsPeer(s: State, p: State, key: Key)
    requires Wf(s)
  {
    EditOf(s, key).Some? ==>
      var e := EditOf(s, key).value;
      IsEdit(s.rows, e) &&
      (p.row < e.r1 || p.row > e.r2 || Room(s, key, e, p.row, p.col)) &&
      (p.anchor.Some? ==> p.anchor.value.0 < e.r1 || Room(s, key, e, p.anchor.value.0, p.anchor.value.1))
  }

  /** A position in the received document, read from the document before. */
  lemma PositionInReceived(s: State, key: Key, rows: seq<Row>, i: int, c: int)
    requires Wf(s) && EditOf(s, key).Some? && IsEdit(s.rows, EditOf(s, key).value)
    requires var e, t := EditOf(s, key).value, Local(s, key).rows;
      |rows| == |t| && forall j :: 0 <= j < |t| ==>
        rows[j] == if Announced(s, key) && e.r1 <= j < e.r1 + |e.ins| then Cut(t[j], MAX_LINE) else t[j]
    ensures InDoc(rows, i, c) <==> Room(s, key, EditOf(s, key).value, i, c)
  {
    hide Splice, EditOf, Local, SentBlock;
    LocalIsEdit(s, key);
    SpliceLengths(s.rows, EditOf(s, key).value, i);
  }

  // ----- the peer after one key -----

  /** How the peer looks once the packets of an edit are in. */
  predicate Edited(s: State, key: Key, was: State, now: State)
    requires Wf(s) && EditOf(s, key).Some?
  {
    var e, t := EditOf(s, key).value, Local(s, key).rows;
    now.col == was.col && now.anchor == was.anchor &&
    now.row == OwnRowAfter(was.row, e.r1, Height(e), |e.ins|) &&
    |now.rows| == |t| && forall j :: 0 <= j < |t| ==>
      now.rows[j] == if Announced(s, key) && e.r1 <= j < e.r1 + |e.ins| then Cut(t[j], MAX_LINE) else t[j]
  }

  lemma AnnouncedIsEdit(s: State, key: Key)
    requires Wf(s) && Announced(s, key)
    ensures EditOf(s, key).Some?
    ensures var e := EditOf(s, key).value; SentBlock(s, key) == Some(Block(e.r1, Height(e), |e.ins|))
  {
  }

  lemma BlockEdits(s: State, r: Replica, key: Key)
    requires Wf(s) && Small(s) && Small(Local(s, key)) && Mirrors(s, r) && Announced(s, key)
    ensures AcceptsAll(r, Packets(Sent(s, key))) && EditOf(s, key).Some?
    ensures Edited(s, key, r.ed, Delivered(s, r, key).ed)
  {
    hide ReceiveAll, AcceptsAll, Packets, Local, SentBlock, SyncBlock, EditOf;
    var t, b := Local(s, key), SentBlock(s, key).value;
    AnnouncedIsEdit(s, key);
    LocalIsWf(s, key);
    KeyIsBlockEdit(s, key);
    BlockArrives(r, t, b.start, b.deleted, b.inserted);
  }

  lemma CharacterEdits(s: State, r: Replica, key: Key, m: Message)
    requires Wf(s) && Mirrors(s, r) && SentBlock(s, key).None?
    requires Sent(s, key) == [m] && (m.InsertCharMsg? || m.DeleteCharMsg?)
    ensures AcceptsAll(r, Packets(Sent(s, key))) && EditOf(s, key).Some?
    ensures Edited(s, key, r.ed, Delivered(s, r, key).ed)
  {
    hide Receive, Accepts, Packet, Delivered, Splice;
    CharacterEditsArrive(r, if m.InsertCharMsg? then m.c else SPACE);
    DeliversOne(s, r, key, m);
    CharacterFollows(s, r, key, m);
  }

  lemma EarlyEdits(s: State, r: Replica, key: Key)
    requires Wf(s) && Small(s) && Mirrors(s, r)
    requires SentBlock(s, key).Some? && SentBlock(s, key).value.start < 0
    ensures AcceptsAll(r, Packets(Sent(s, key))) && EditOf(s, key).Some?
    ensures Edited(s, key, r.ed, Delivered(s, r, key).ed)
  {
    hide ReceiveAll, AcceptsAll, Packets, Delivered;
    NothingBeforeTheStart(s, r, key);
  }

  /** A key that announces no edit leaves everything but the remote cursor alone. */
  lemma OtherKeysLeavePeer(s: State, r: Replica, key: Key)
    requires Wf(s) && Small(s) && Mirrors(s, r) && EditOf(s, key).None?
    ensures AcceptsAll(r, Packets(Sent(s, key)))
    ensures var q := Delivered(s, r, key).ed;
      q.rows == r.ed.rows && (q.row, q.col) == (r.ed.row, r.ed.col) && q.anchor == r.ed.anchor
  {
    if key.Arrow? || key.Click? {
      var t := Local(s, key);
      var row, col := if key.Click? then key.row else t.row, if key.Click? then key.col else t.col;
      hide Receive, Accepts, Packet, Delivered, Local;
      MoveCursorArrives(r, row, col);
      DeliversOne(s, r, key, MoveCursorMsg(row, col));
    } else {
      ReceiveAllOfNone(r);
    }
  }

  lemma CutsKeepDocument(was: seq<Row>, now: seq<Row>)
    requires IsDoc(was) && |now| == |was|
    requires forall j :: 0 <= j < |was| ==> now[j] == was[j] || now[j] == Cut(was[j], MAX_LINE)
    ensures IsDoc(now)
  {
    forall j | 0 <= j < |now|
      ensures NEWLINE !in now[j]
    {
      assert NEWLINE !in was[j];
    }
  }

  lemma CursorKept(s: State, key: Key, was: State, now: State)
    requires Wf(s) && EditOf(s, key).Some? && InDoc(s.rows, was.row, was.col) && Edited(s, key, was, now)
    ensures var e := EditOf(s, key).value;
      IsEdit(s.rows, e) &&
      (InDoc(now.rows, now.row, now.col) <==> was.row < e.r1 || was.row > e.r2 || Room(s, key, e, was.row, was.col))
  {
    hide EditOf, Local, SentBlock, LengthAfter, OwnRowAfter, Room, InDoc, IsEdit, IsDoc;
    EditOfIsEdit(s, key);
    PositionInReceived(s, key, now.rows, now.row, now.col);
    OwnRoom(s, key, EditOf(s, key).value, was.row, was.col);
  }

  lemma AnchorKept(s: State, key: Key, was: State, now: State, i: int, c: int)
    requires Wf(s) && EditOf(s, key).Some? && InDoc(s.rows, i, c) && Edited(s, key, was, now)
    ensures var e := EditOf(s, key).value;
      IsEdit(s.rows, e) && (InDoc(now.rows, i, c) <==> i < e.r1 || Room(s, key, e, i, c))
  {
    hide EditOf, Local, SentBlock, LengthAfter, OwnRowAfter, Room, IsDoc;
    EditOfIsEdit(s, key);
    PositionInReceived(s, key, now.rows, i, c);
    if i < EditOf(s, key).value.r1 {
      AboveHasRoom(s, key, EditOf(s, key).value, i, c);
    }
  }

  lemma EditedIsWfIff(s: State, key: Key, was: State, now: State)
    requires Wf(s) && EditOf(s, key).Some? && Wf(was) && was.rows == s.rows && Edited(s, key, was, now)
    ensures Wf(now) <==> KeepsPeer(s, was, key)
  {
    hide EditOf, Local, SentBlock, Room, InDoc, IsEdit;
    LocalIsWf(s, key);
    CutsKeepDocument(Local(s, key).rows, now.rows);
    CursorKept(s, key, was, now);
    if was.anchor.Some? {
      AnchorKept(s, key, was, now, was.anchor.value.0, was.anchor.value.1);
    }
  }

  /** A cursor outside the edited rows moves with its row, and so has room. */
  lemma OwnRoom(s: State, key: Key, e: Edit, i: int, c: int)
    requires Wf(s) && IsEdit(s.rows, e) && InDoc(s.rows, i, c)
    ensures Room(s, key, e, OwnRowAfter(i, e.r1, Height(e), |e.ins|), c)
       <==> i < e.r1 || i > e.r2 || Room(s, key, e, i, c)
  {
  }

  lemma AboveHasRoom(s: State, key: Key, e: Edit, i: int, c: int)
    requires Wf(s) && IsEdit(s.rows, e) && InDoc(s.rows, i, c) && i < e.r1
    ensures Room(s, key, e, i, c)
  {
  }

  /** The peer's own cursor and selection stay in its document exactly when the key leaves them room. */
  lemma PeerStaysWfIff(s: State, r: Replica, key: Key)
    requires Wf(s) && Small(s) && Small(Local(s, key)) && Mirrors(s, r) && Wf(r.ed)
    ensures AcceptsAll(r, Packets(Sent(s, key)))
    ensures Wf(Delivered(s, r, key).ed) <==> KeepsPeer(s, r.ed, key)
  {
    hide Local, Sent, Delivered, AcceptsAll, ReceiveAll, Packets;
    KeyFollows(s, r, key);
    if EditOf(s, key).None? {
      OtherKeysLeavePeer(s, r, key);
    } else {
      if Announced(s, key) {
        BlockEdits(s, r, key);
      } else if SentBlock(s, key).Some? {
        EarlyEdits(s, r, key);
      } else {
        EditIsOneMessage(s, key);
        CharacterEdits(s, r, key, Sent(s, key)[0]);
      }
      EditedIsWfIff(s, key, r.ed, Delivered(s, r, key).ed);
    }
  }

  lemma EditIsOneMessage(s: State, key: Key)
    requires Wf(s) && EditOf(s, key).Some? && SentBlock(s, key).None?
    ensures |Sent(s, key)| == 1 && (Sent(s, key)[0].InsertCharMsg? || Sent(s, key)[0].DeleteCharMsg?)
  {
  }

  // ----- whole sessions -----

  /** After every key of the run the peer's cursor and selection are in its document. */
  ghost predicate PeerAlwaysWf(s: State, r: Replica, keys: seq<Key>)
    requires Wf(s) && Followable(s, r, keys)
    decreases |keys|
  {
    keys != [] ==> (
      LocalIsWf(s, keys[0]);
      var q := Delivered(s, r, keys[0]);
      Wf(q.ed) && PeerAlwaysWf(Local(s, keys[0]), q, keys[1..]))
  }

  /** Every key of the run leaves the peer room. */
  ghost predicate AlwaysKeepsPeer(s: State, r: Replica, keys: seq<Key>)
    requires Wf(s) && Followable(s, r, keys)
    decreases |keys|
  {
    keys != [] ==> (
      LocalIsWf(s, keys[0]);
      KeepsPeer(s, r.ed, keys[0]) && AlwaysKeepsPeer(Local(s, keys[0]), Delivered(s, r, keys[0]), keys[1..]))
  }

  lemma {:induction false} SessionKeepsPeerIff(s: State, r: Replica, keys: seq<Key>)
    requires Wf(s) && Mirrors(s, r) && Followable(s, r, keys) && Wf(r.ed)
    ensures PeerAlwaysWf(s, r, keys) <==> AlwaysKeepsPeer(s, r, keys)
    decreases |keys|
  {
    hide Local, Sent, Packets, Wf, RowsCarried, CursorHeard, KeepsPeer, Delivered;
    if keys != [] {
      var key := keys[0];
      LocalIsWf(s, key);
      assert Small(Local(s, key));
      KeyFollows(s, r, key);
      PeerStaysWfIff(s, r, key);
      if KeepsPeer(s, r.ed, key) {
        SessionKeepsPeerIff(Local(s, key), Delivered(s, r, key), keys[1..]);
      }
    }
  }

  lemma {:induction false} AlwaysWfEndsWf(s: State, r: Replica, keys: seq<Key>)
    requires Wf(s) && Mirrors(s, r) && Followable(s, r, keys) && Wf(r.ed) && PeerAlwaysWf(s, r, keys)
    ensures AcceptsAll(r, Packets(SentAll(s, keys))) && Wf(ReceiveAll(r, Packets(SentAll(s, keys))).ed)
    decreases |keys|
  {
    hide Local, Sent, Packets, Receive, Accepts, Wf, RowsCarried, CursorHeard;
    if keys == [] {
      ReceiveNothing(r);
    } else {
      var key := keys[0];
      LocalIsWf(s, key);
      var t, q, rest := Local(s, key), Delivered(s, r, key), SentAll(Local(s, key), keys[1..]);
      assert Small(t);
      KeyFollows(s, r, key);
      AlwaysWfEndsWf(t, q, keys[1..]);
      ReceiveAppend(r, Packets(Sent(s, key)), Packets(rest));
      PacketsAppend(Sent(s, key), rest);
    }
  }

  // ----- where it goes wrong -----

  const ONE_LETTER: Row := [97]

  lemma OneKeyThenTheRest(s: State, r: Replica, key: Key, rest: seq<Key>)
    requires Wf(s) && Small(s) && RowsCarried(s, key) && CursorHeard(s, r, key) && AcceptsAll(r, Packets(Sent(s, key)))
    requires Wf(Local(s, key)) && Followable(Local(s, key), Delivered(s, r, key), rest)
    ensures Followable(s, r, [key] + rest)
    ensures PeerAlwaysWf(s, r, [key] + rest) ==>
      Wf(Delivered(s, r, key).ed) && PeerAlwaysWf(Local(s, key), Delivered(s, r, key), rest)
  {
    hide Local, Sent, Delivered, Wf, Small, RowsCarried, CursorHeard, AcceptsAll, Packets;
    assert ([key] + rest)[0] == key && ([key] + rest)[1..] == rest;
  }

  /** A backspace just before the peer's cursor leaves that cursor past the end of its row. */
  lemma BackspaceStrandsThePeer(r: Replica)
    requires r.ed.rows == [ONE_LETTER] && (r.ed.row, r.ed.col) == (0, 1) && r.ed.anchor == None
    requires r.ed.remoteRow == 0 && r.ed.remoteCol == 1
    ensures var s, keys := State([ONE_LETTER], 0, 1, 5, 0, None, None), [Backspace(false)];
      Wf(s) && Wf(r.ed) && Mirrors(s, r) && Followable(s, r, keys) && !PeerAlwaysWf(s, r, keys)
  {
    var s, key := State([ONE_LETTER], 0, 1, 5, 0, None, None), Backspace(false);
    assert Wf(s) && Wf(r.ed) && Mirrors(s, r) && Small(s);
    hide *;
    LetterBackspaced(s);
    OneBackspace(s, r, key);
    RemoteDeletesSame(r.ed);
    NothingMoreToFollow(Local(s, key), Delivered(s, r, key));
    PastTheEnd(Delivered(s, r, key).ed);
    OneKeyThenTheRest(s, r, key, []);
    assert [key] + [] == [key];
  }

  lemma LetterBackspaced(s: State)
    requires s.rows == [ONE_LETTER] && (s.row, s.col) == (0, 1) && s.anchor == None
    ensures Wf(s) && DeleteBack(s.rows, 0, 1) == Local(s, Backspace(false)).rows == [[]]
    ensures Wf(Local(s, Backspace(false))) && Small(Local(s, Backspace(false)))
  {
    SpliceJoins(s.rows, 0, 0, 0, 1);
    hide Splice;
    LocalIsWf(s, Backspace(false));
  }

  lemma RemoteDeletesSame(s: State)
    requires s.rows == [ONE_LETTER] && (s.row, s.col) == (0, 1) && (s.remoteRow, s.remoteCol) == (0, 1)
    ensures var t := RemoteDeleteChar(s); t.rows == DeleteBack(s.rows, 0, 1) && (t.row, t.col) == (0, 1)
  {
    hide DeleteBack;
  }

  lemma PastTheEnd(s: State)
    requires s.rows == [[]] && (s.row, s.col) == (0, 1)
    ensures !Wf(s)
  {
  }

  lemma NothingMoreToFollow(s: State, r: Replica)
    requires Wf(s) && Small(s)
    ensures Followable(s, r, [])
  {
  }

  /** The peer was not on the sender's row, and still two backspaces strand it: the first joins the two rows. */
  lemma TwoBackspacesStrandThePeer(r: Replica)
    requires r.ed.rows == [ONE_LETTER, []] && (r.ed.row, r.ed.col) == (0, 1) && r.ed.anchor == None
    requires r.ed.remoteRow == 1 && r.ed.remoteCol == 0
    ensures var s, keys := State([ONE_LETTER, []], 1, 0, 5, 0, None, None), [Backspace(false), Backspace(false)];
      Wf(s) && Wf(r.ed) && Mirrors(s, r) && Followable(s, r, keys) && !PeerAlwaysWf(s, r, keys)
  {
    var s, key := State([ONE_LETTER, []], 1, 0, 5, 0, None, None), Backspace(false);
    assert Wf(s) && Wf(r.ed) && Mirrors(s, r) && Small(s);
    hide *;
    RowsBackspaced(s, r.ed);
    OneBackspace(s, r, key);
    LocalIsWf(s, key);
    BackspaceStrandsThePeer(Delivered(s, r, key));
    OneKeyThenTheRest(s, r, key, [key]);
    assert [key] + [key] == [key, key];
  }

  lemma RowsBackspaced(s: State, p: State)
    requires s == State([ONE_LETTER, []], 1, 0, 5, 0, None, None)
    requires p.rows == s.rows && (p.row, p.col) == (0, 1) && (p.remoteRow, p.remoteCol) == (1, 0)
    ensures Wf(s) && Local(s, Backspace(false)) == State([ONE_LETTER], 0, 1, 5, 0, None, None)
    ensures RemoteDeleteChar(p) == p.(rows := [ONE_LETTER], remoteRow := 0, remoteCol := 1)
  {
    SpliceJoins(s.rows, 0, 1, 1, 0);
    assert s.rows[0][..1] + s.rows[1][0..] == ONE_LETTER;
    assert DeleteBack(s.rows, 1, 0) == [ONE_LETTER];
    hide Splice, DeleteBack;
  }

  lemma OneBackspace(s: State, r: Replica, key: Key)
    requires Wf(s) && Mirrors(s, r) && key == Backspace(false) && s.anchor.None?
    ensures RowsCarried(s, key) && CursorHeard(s, r, key) && AcceptsAll(r, Packets(Sent(s, key)))
    ensures Delivered(s, r, key) == r.(ed := RemoteDeleteChar(r.ed))
  {
    CharacterEditsArrive(r, SPACE);
    DeliversOne(s, r, key, DeleteCharMsg);
  }

  /** A selection deleted over the peer's row leaves the peer on a row that is gone. */
  lemma DeletedSelectionStrandsThePeer(r: Replica)
    requires r.ed.rows == [ONE_LETTER, ONE_LETTER] && (r.ed.row, r.ed.col) == (1, 0) && r.ed.anchor == None
    requires r.ed.remoteRow == 0 && r.ed.remoteCol == 1
    ensures var s, key := State([ONE_LETTER, ONE_LETTER], 0, 1, 5, 0, Some((1, 1)), None), Backspace(false);
      Wf(s) && Wf(r.ed) && Mirrors(s, r) && AcceptsAll(r, Packets(Sent(s, key))) && !Wf(Delivered(s, r, key).ed)
  {
    var s, key := State([ONE_LETTER, ONE_LETTER], 0, 1, 5, 0, Some((1, 1)), None), Backspace(false);
    TwoRowsSelected(s, r);
    hide *;
    PeerStaysWfIff(s, r, key);
  }

  lemma TwoRowsSelected(s: State, r: Replica)
    requires s == State([ONE_LETTER, ONE_LETTER], 0, 1, 5, 0, Some((1, 1)), None)
    requires r.ed.rows == s.rows && (r.ed.row, r.ed.col) == (1, 0) && r.ed.anchor == None
    requires r.ed.remoteRow == 0 && r.ed.remoteCol == 1
    ensures Wf(s) && Wf(r.ed) && Small(s) && Small(Local(s, Backspace(false))) && Mirrors(s, r)
    ensures !KeepsPeer(s, r.ed, Backspace(false))
  {
    SpliceJoins(s.rows, 0, 1, 1, 1);
    assert ONE_LETTER[..1] + ONE_LETTER[1..] == ONE_LETTER;
    assert EditOf(s, Backspace(false)) == Some(Edit(0, 1, 1, 1, [[]]));
    hide Splice;
    assert Local(s, Backspace(false)).rows == [ONE_LETTER];
  }
}
