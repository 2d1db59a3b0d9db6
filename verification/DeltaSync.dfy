/**
 Collaborative editing: what a key does locally and sends, what the peer does with the packets, and
 when the peer's document ends up the same.
 */
module DeltaSync {
  import opened Machine
  import opened TextDoc
  import opened EditorState
  import opened SerialLink

  // ----- the sending side -----

  datatype Dir = DirLeft | DirRight | DirUp | DirDown | DirHome | DirEnd

  /** The bytes the key tables produce: never a terminator, and Enter is an event of its own. */
  type Typed = c: Word8 | c != NUL && c != NEWLINE witness SPACE

  /** The input events that reach the text while neither the command bar nor the file tree is focused. */
  datatype Key =
    | Backspace(ctrl: bool)
    | Arrow(dir: Dir, ctrl: bool, shift: bool)
    | CopyKey
    | CutKey
    | PasteKey
    | EnterKey
    | CharKey(c: Typed)
    | Click(row: int, col: int)

  const COLON: Word8 := 58

  function Move(s: State, dir: Dir, ctrl: bool): State
    requires CursorInDoc(s)
  {
    match dir
    case DirLeft => if ctrl then MoveWordLeft(s) else MoveLeft(s)
    case DirRight => if ctrl then MoveWordRight(s) else MoveRight(s)
    case DirUp => MoveUp(s)
    case DirDown => MoveDown(s)
    case DirHome => MoveHome(s)
    case DirEnd => MoveEnd(s)
  }

  /** A row as `editor_get_line` gives it: empty outside the document. */
  function LineAt(rows: seq<Row>, r: int): Row {
    if 0 <= r < |rows| then rows[r] else []
  }

  function LineMessages(rows: seq<Row>, start: int, n: nat): (ms: seq<Message>)
    ensures |ms| == n && forall i :: 0 <= i < n ==> ms[i] == UpdateLineMsg(start + i, LineAt(rows, start + i))
  {
    if n == 0 then []
    else LineMessages(rows, start, n - 1) + [UpdateLineMsg(start + n - 1, LineAt(rows, start + n - 1))]
  }

  /** A block edit: one line, or a replacement followed by its lines; then the cursor. */
  function SyncBlock(s: State, start: int, deleted: int, inserted: nat): seq<Message> {
    BlockMessages(s.rows, start, deleted, inserted) + [MoveCursorMsg(s.row, s.col)]
  }

  function BlockMessages(rows: seq<Row>, start: int, deleted: int, inserted: nat): seq<Message> {
    if deleted == 1 && inserted == 1 then [UpdateLineMsg(start, LineAt(rows, start))]
    else [ReplaceBlockMsg(start, deleted, inserted)] + LineMessages(rows, start, inserted)
  }

  /** What one event does to the local editor, with every allocation succeeding. */
  function Local(s: State, key: Key): State
    requires Wf(s)
  {
    match key
    case Backspace(ctrl) =>
      if s.anchor.Some? then DeleteSelection(s)
      else if ctrl && s.col > 0 then DeleteWord(s)
      else DeleteChar(s)
    case Arrow(dir, ctrl, shift) =>
      var t := if !shift then s.(anchor := None) else if s.anchor.None? then s.(anchor := Some((s.row, s.col))) else s;
      Move(t, dir, ctrl)
    case CopyKey => CopySelection(s)
    case CutKey => DeleteSelection(CopySelection(s))
    case PasteKey =>
      var t := DeleteSelection(s);
      DeleteSelectionIsWf(s);
      if t.clip.None? then t else Paste(t)
    case EnterKey =>
      DeleteSelectionIsWf(s);
      InsertChar(DeleteSelection(s), NEWLINE)
    case CharKey(c) =>
      DeleteSelectionIsWf(s);
      if c == COLON then s else InsertChar(DeleteSelection(s), c)
    case Click(r, c) =>
      var t := SetCursor(s.(anchor := None), r, c);
      t.(anchor := Some((t.row, t.col)))
  }

  /** A changed block of rows: where it starts, how many rows it had and how many it has. */
  datatype Block = Block(start: int, deleted: nat, inserted: nat)

  /** The block of the active selection, if there is one, replaced by `inserted` rows. */
  function SelBlock(s: State, inserted: nat): Option<Block>
    requires Wf(s)
  {
    if s.anchor.Some? then Some(Block(SelStart(s).0, SelEnd(s).0 - SelStart(s).0 + 1, inserted)) else None
  }

  /** The block a key announces, if it announces one. */
  function SentBlock(s: State, key: Key): Option<Block>
    requires Wf(s)
  {
    match key
    case Backspace(ctrl) =>
      if s.anchor.Some? then SelBlock(s, 1)
      else if ctrl then Some(if s.col == 0 then Block(s.row - 1, 2, 1) else Block(s.row, 1, 1))
      else None
    case CutKey => SelBlock(s, 1)
    case PasteKey =>
      if s.clip.None? then None
      else
        var inserted := |Rows(UpToNul(s.clip.value))|;
        if s.anchor.Some? then SelBlock(s, inserted) else Some(Block(s.row, 1, inserted))
    case EnterKey => SelBlock(s, 2)
    case CharKey(c) => if c == COLON then None else SelBlock(s, 1)
    case _ => None
  }

  /** What a key sends, once synchronisation is on. */
  function Sent(s: State, key: Key): seq<Message>
    requires Wf(s)
  {
    var t, block := Local(s, key), SentBlock(s, key);
    if block.Some? then SyncBlock(t, block.value.start, block.value.deleted, block.value.inserted)
    else
      match key
      case Backspace(_) => [DeleteCharMsg]
      case Arrow(_, _, _) => [MoveCursorMsg(t.row, t.col)]
      case EnterKey => [InsertCharMsg(NEWLINE)]
      case CharKey(c) => if c == COLON then [] else [InsertCharMsg(c)]
      case Click(r, c) => [MoveCursorMsg(r, c)]
      case _ => []
  }

  // ----- the receiving side -----

  /** The peer's editor, and its progress in receiving a file. */
  datatype Replica = Replica(ed: State, fileLines: nat, linesRead: nat)

  function PayloadNeeded(cmd: Word8): nat {
    if cmd == CMD_INSERT_CHAR then 1
    else if cmd == CMD_MOVE_CURSOR then 4
    else if cmd == CMD_REPLACE_BLOCK then 6
    else if cmd == CMD_UPDATE_LINE || cmd == CMD_FILE_START then 2
    else 0
  }

  /** Packets without a payload are dropped, two commands apart. */
  predicate Dropped(e: Event) {
    e.payload == [] && e.cmd != CMD_DELETE_CHAR && e.cmd != CMD_FILE_LINE
  }

  /** The receiver can act on this packet: the payload is all there, and a character edit has a place to go. */
  predicate Accepts(r: Replica, e: Event) {
    |r.ed.rows| >= 1 &&
    (!Dropped(e) ==>
      |e.payload| >= PayloadNeeded(e.cmd) &&
      (e.cmd == CMD_INSERT_CHAR || e.cmd == CMD_DELETE_CHAR ==> InDoc(r.ed.rows, r.ed.remoteRow, r.ed.remoteCol)))
  }

  /** What one packet does to the peer. */
  function Receive(r: Replica, e: Event): Replica
    requires Accepts(r, e)
  {
    var p := e.payload;
    if Dropped(e) then r
    else if e.cmd == CMD_INSERT_CHAR then r.(ed := RemoteInsertChar(r.ed, p[0]))
    else if e.cmd == CMD_DELETE_CHAR then r.(ed := RemoteDeleteChar(r.ed))
    else if e.cmd == CMD_MOVE_CURSOR then r.(ed := SetRemoteCursor(r.ed, Unword(p, 0), Unword(p, 2)))
    else if e.cmd == CMD_REPLACE_BLOCK then r.(ed := RemoteReplaceBlock(r.ed, Unword(p, 0), Unword(p, 2), Unword(p, 4)))
    else if e.cmd == CMD_UPDATE_LINE then r.(ed := RemoteUpdateLine(r.ed, Unword(p, 0), p[2..]))
    else if e.cmd == CMD_FILE_START then Replica(Cleared(r.ed), Unword(p, 0), 0)
    else if e.cmd == CMD_FILE_LINE then
      if r.fileLines == 0 then r
      else
        var rows := r.ed.rows[..|r.ed.rows| - 1] + [p, []];
        if r.linesRead + 1 >= r.fileLines then Replica(r.ed.(rows := FinalizeLoad(rows)), 0, r.linesRead + 1)
        else Replica(r.ed.(rows := rows), r.fileLines, r.linesRead + 1)
    else r
  }

  predicate AcceptsAll(r: Replica, es: seq<Event>)
    decreases |es|
  {
    es == [] || (Accepts(r, es[0]) && AcceptsAll(Receive(r, es[0]), es[1..]))
  }

  function ReceiveAll(r: Replica, es: seq<Event>): Replica
    requires AcceptsAll(r, es)
    decreases |es|
  {
    if es == [] then r else ReceiveAll(Receive(r, es[0]), es[1..])
  }

  lemma {:induction false} ReceiveAppend(r: Replica, a: seq<Event>, b: seq<Event>)
    requires AcceptsAll(r, a) && AcceptsAll(ReceiveAll(r, a), b)
    ensures AcceptsAll(r, a + b) && ReceiveAll(r, a + b) == ReceiveAll(ReceiveAll(r, a), b)
    decreases |a|
  {
    if a == [] {
      assert a + b == b;
    } else {
      assert (a + b)[1..] == a[1..] + b;
      ReceiveAppend(Receive(r, a[0]), a[1..], b);
    }
  }

  lemma ReceiveNothing(r: Replica)
    ensures AcceptsAll(r, Packets([])) && ReceiveAll(r, Packets([])) == r
  {
  }

  lemma ReceiveAllOfNone(r: Replica)
    ensures AcceptsAll(r, []) && ReceiveAll(r, []) == r
  {
  }

  /** One message more, last or first. */
  lemma ReceiveLast(r: Replica, ms: seq<Message>, m: Message)
    requires AcceptsAll(r, Packets(ms)) && Accepts(ReceiveAll(r, Packets(ms)), Packet(m))
    ensures AcceptsAll(r, Packets(ms + [m]))
    ensures ReceiveAll(r, Packets(ms + [m])) == Receive(ReceiveAll(r, Packets(ms)), Packet(m))
  {
    hide Receive, Accepts, Packet;
    var mid, e := ReceiveAll(r, Packets(ms)), Packet(m);
    assert [e][1..] == [] && AcceptsAll(Receive(mid, e), []);
    ReceiveAppend(r, Packets(ms), [e]);
    assert Packets(ms + [m]) == Packets(ms) + [e];
  }

  lemma ReceiveFirst(r: Replica, m: Message, ms: seq<Message>)
    requires Accepts(r, Packet(m)) && AcceptsAll(Receive(r, Packet(m)), Packets(ms))
    ensures AcceptsAll(r, Packets([m] + ms))
    ensures ReceiveAll(r, Packets([m] + ms)) == ReceiveAll(Receive(r, Packet(m)), Packets(ms))
  {
    hide Receive, Accepts, Packet;
    assert ([m] + ms)[1..] == ms;
    assert Packets([m] + ms)[1..] == Packets(ms);
  }

  // ----- what single packets do -----

  lemma MoveCursorArrives(r: Replica, row: int, col: int)
    requires |r.ed.rows| >= 1
    ensures Accepts(r, Packet(MoveCursorMsg(row, col)))
    ensures Receive(r, Packet(MoveCursorMsg(row, col))) == r.(ed := SetRemoteCursor(r.ed, U16(row), U16(col)))
  {
    var p := Word(row) + Word(col);
    WordRoundTrip(row, [], Word(col));
    WordRoundTrip(col, Word(row), []);
    assert [] + Word(row) + Word(col) == p && Word(row) + Word(col) + [] == p;
  }

  lemma ReplaceBlockArrives(r: Replica, start: int, deleted: int, inserted: int)
    requires |r.ed.rows| >= 1
    ensures Accepts(r, Packet(ReplaceBlockMsg(start, deleted, inserted)))
    ensures Receive(r, Packet(ReplaceBlockMsg(start, deleted, inserted)))
         == r.(ed := RemoteReplaceBlock(r.ed, U16(start), U16(deleted), U16(inserted)))
  {
    var p := Word(start) + Word(deleted) + Word(inserted);
    WordRoundTrip(start, [], Word(deleted) + Word(inserted));
    WordRoundTrip(deleted, Word(start), Word(inserted));
    WordRoundTrip(inserted, Word(start) + Word(deleted), []);
    assert [] + Word(start) + (Word(deleted) + Word(inserted)) == p;
    assert p + [] == p;
  }

  lemma UpdateLineArrives(r: Replica, row: int, t: Row)
    requires |r.ed.rows| >= 1
    ensures Accepts(r, Packet(UpdateLineMsg(row, t)))
    ensures Receive(r, Packet(UpdateLineMsg(row, t))) == r.(ed := RemoteUpdateLine(r.ed, U16(row), Cut(t, MAX_LINE)))
  {
    var p := Word(row) + Cut(t, MAX_LINE);
    WordRoundTrip(row, [], Cut(t, MAX_LINE));
    assert [] + Word(row) + Cut(t, MAX_LINE) == p && p[2..] == Cut(t, MAX_LINE);
  }

  lemma CharacterEditsArrive(r: Replica, c: Word8)
    requires InDoc(r.ed.rows, r.ed.remoteRow, r.ed.remoteCol)
    ensures Accepts(r, Packet(InsertCharMsg(c))) && Accepts(r, Packet(DeleteCharMsg))
    ensures Receive(r, Packet(InsertCharMsg(c))) == r.(ed := RemoteInsertChar(r.ed, c))
    ensures Receive(r, Packet(DeleteCharMsg)) == r.(ed := RemoteDeleteChar(r.ed))
  {
  }

  // ----- block edits -----

  /** `now` is `was` with the `deleted` rows at `start` replaced by `inserted` others. */
  predicate BlockEdit(was: seq<Row>, now: seq<Row>, start: int, deleted: int, inserted: int) {
    0 <= start && 0 <= deleted && 1 <= inserted && start + deleted <= |was| &&
    |now| == |was| - deleted + inserted &&
    now[..start] == was[..start] && now[start + inserted..] == was[start + deleted..]
  }

  lemma SpliceIsBlockEdit(rows: seq<Row>, r1: nat, c1: nat, r2: nat, c2: nat, ins: seq<Row>)
    requires InDoc(rows, r1, c1) && InDoc(rows, r2, c2) && r1 <= r2 && |ins| >= 1
    ensures BlockEdit(rows, Splice(rows, r1, c1, r2, c2, ins), r1, r2 - r1 + 1, |ins|)
  {
    var out := Splice(rows, r1, c1, r2, c2, ins);
    var head := Glue(Before(rows, r1, c1), ins);
    var tail := After(rows, r2, c2);
    assert out[..r1] == head[..r1] == rows[..r1];
    assert out[r1 + |ins|..] == tail[1..] == rows[r2 + 1..];
  }

  lemma BlockEditsCompose(a: seq<Row>, b: seq<Row>, c: seq<Row>, start: int, deleted: int, inserted: int)
    requires BlockEdit(a, b, start, deleted, 1) && BlockEdit(b, c, start, 1, inserted)
    ensures BlockEdit(a, c, start, deleted, inserted)
  {
  }

  /** Each row of the block fits one packet. */
  predicate BlockFits(now: seq<Row>, start: int, inserted: int) {
    forall i :: start <= i < start + inserted ==> |LineAt(now, i)| <= MAX_LINE
  }

  /** `now` with the rows of the block cut to what one packet carries. */
  function Trimmed(now: seq<Row>, start: nat, inserted: nat): (out: seq<Row>)
    requires start + inserted <= |now|
    ensures |out| == |now|
  {
    seq(|now|, i requires 0 <= i < |now| => if start <= i < start + inserted then Cut(now[i], MAX_LINE) else now[i])
  }

  lemma TrimmedIsExactIffFits(now: seq<Row>, start: nat, inserted: nat)
    requires start + inserted <= |now|
    ensures Trimmed(now, start, inserted) == now <==> BlockFits(now, start, inserted)
  {
    if BlockFits(now, start, inserted) {
      forall i | 0 <= i < |now|
        ensures Trimmed(now, start, inserted)[i] == now[i]
      {
        assert now[i] == LineAt(now, i);
      }
    } else {
      var i :| start <= i < start + inserted && |LineAt(now, i)| > MAX_LINE;
      assert Trimmed(now, start, inserted)[i] != now[i];
    }
  }

  /** `rows` with `n` rows from `start` taken from `now`, as packets carry them. */
  function Filled(rows: seq<Row>, now: seq<Row>, start: nat, n: nat): (out: seq<Row>)
    requires start + n <= |now| == |rows|
    ensures |out| == |rows|
  {
    seq(|rows|, i requires 0 <= i < |rows| => if start <= i < start + n then Cut(now[i], MAX_LINE) else rows[i])
  }

  lemma FilledStep(rows: seq<Row>, now: seq<Row>, start: nat, n: nat)
    requires 0 < n && start + n <= |now| == |rows|
    ensures var row := start + n - 1;
      Filled(rows, now, start, n - 1)[row := Cut(now[row], MAX_LINE)] == Filled(rows, now, start, n)
  {
  }

  lemma FilledNone(rows: seq<Row>, now: seq<Row>, start: nat)
    requires start <= |now| == |rows|
    ensures Filled(rows, now, start, 0) == rows
  {
  }

  /** Filling the block line by line. */
  lemma {:induction false} LinesArrive(r: Replica, now: seq<Row>, start: nat, n: nat)
    requires start + n <= |now| == |r.ed.rows| < 0xFFFF && |now| >= 1
    ensures var es := Packets(LineMessages(now, start, n));
      AcceptsAll(r, es) && ReceiveAll(r, es) == r.(ed := r.ed.(rows := Filled(r.ed.rows, now, start, n)))
    decreases n
  {
    hide Receive, Accepts, Packet, ReceiveAll, AcceptsAll, Packets, Cut, Filled;
    if n == 0 {
      FilledNone(r.ed.rows, now, start);
      ReceiveNothing(r);
    } else {
      var row := start + n - 1;
      var ms, m := LineMessages(now, start, n - 1), UpdateLineMsg(row, now[row]);
      assert LineMessages(now, start, n) == ms + [m];
      LinesArrive(r, now, start, n - 1);
      UpdateLineArrives(ReceiveAll(r, Packets(ms)), row, now[row]);
      ReceiveLast(r, ms, m);
      FilledStep(r.ed.rows, now, start, n);
    }
  }

  /** Where the peer's own cursor row goes when a block is replaced above it. */
  function OwnRowAfter(row: int, start: int, deleted: int, inserted: int): int {
    if deleted == 1 && inserted == 1 then row
    else if row >= start + deleted then row + inserted - deleted
    else row
  }

  /** The peer after a block edit: its rows, its own row, and the remote cursor unless it is on the peer's row. */
  function AfterBlock(r: State, now: State, start: nat, deleted: nat, inserted: nat): State
    requires start + inserted <= |now.rows|
  {
    var own := OwnRowAfter(r.row, start, deleted, inserted);
    SetRemoteCursor(r.(rows := Trimmed(now.rows, start, inserted), row := own), now.row, now.col)
  }

  /** The block's rows opened up as blanks. */
  function Gapped(was: seq<Row>, start: nat, deleted: nat, inserted: nat): (out: seq<Row>)
    requires start + deleted <= |was|
    ensures |out| == |was| - deleted + inserted
  {
    was[..start] + Blank(inserted) + was[start + deleted..]
  }

  lemma GapOpens(s: State, start: nat, deleted: nat, inserted: nat)
    requires start + deleted <= |s.rows| < 0x1_0000 && inserted < 0x1_0000 && !(deleted == inserted == 1)
    ensures RemoteReplaceBlock(s, U16(start), U16(deleted), U16(inserted))
         == s.(rows := Gapped(s.rows, start, deleted, inserted), row := OwnRowAfter(s.row, start, deleted, inserted))
  {
  }

  /** Opening a gap for the block and filling it gives the new document's rows. */
  lemma BlockRows(was: seq<Row>, now: seq<Row>, start: nat, deleted: nat, inserted: nat)
    requires BlockEdit(was, now, start, deleted, inserted)
    ensures Filled(Gapped(was, start, deleted, inserted), now, start, inserted) == Trimmed(now, start, inserted)
    ensures deleted == inserted == 1 ==> was[start := Cut(now[start], MAX_LINE)] == Trimmed(now, start, inserted)
  {
    var gapped := Gapped(was, start, deleted, inserted);
    forall i | 0 <= i < |now| && !(start <= i < start + inserted)
      ensures gapped[i] == now[i] && (deleted == inserted ==> was[i] == now[i])
    {
      if i < start {
        assert now[..start][i] == was[..start][i];
      } else {
        assert now[start + inserted..][i - start - inserted] == was[start + deleted..][i - start - inserted];
      }
    }
  }

  lemma BlockBodyArrives(r: Replica, now: State, start: nat, deleted: nat, inserted: nat)
    requires BlockEdit(r.ed.rows, now.rows, start, deleted, inserted)
    requires 1 <= |r.ed.rows| < 0xFFFF && |now.rows| < 0xFFFF
    ensures var es := Packets(BlockMessages(now.rows, start, deleted, inserted));
      AcceptsAll(r, es) &&
      ReceiveAll(r, es)
      == r.(ed := r.ed.(rows := Trimmed(now.rows, start, inserted),
                        row := OwnRowAfter(r.ed.row, start, deleted, inserted)))
  {
    hide Receive, Accepts, Packet, Filled, Trimmed, Gapped, ReceiveAll, AcceptsAll, LineMessages, Cut;
    BlockRows(r.ed.rows, now.rows, start, deleted, inserted);
    if deleted == 1 && inserted == 1 {
      var m := UpdateLineMsg(start, now.rows[start]);
      UpdateLineArrives(r, start, now.rows[start]);
      ReceiveAllOfNone(Receive(r, Packet(m)));
      ReceiveFirst(r, m, []);
      assert [m] + [] == [m];
    } else {
      var m, ms := ReplaceBlockMsg(start, deleted, inserted), LineMessages(now.rows, start, inserted);
      ReplaceBlockArrives(r, start, deleted, inserted);
      GapOpens(r.ed, start, deleted, inserted);
      hide RemoteReplaceBlock, Packets;
      LinesArrive(Receive(r, Packet(m)), now.rows, start, inserted);
      ReceiveFirst(r, m, ms);
    }
  }

  lemma BlockArrives(r: Replica, now: State, start: nat, deleted: nat, inserted: nat)
    requires BlockEdit(r.ed.rows, now.rows, start, deleted, inserted)
    requires 1 <= |r.ed.rows| < 0xFFFF && |now.rows| < 0xFFFF
    requires 0 <= now.row < 0x1_0000 && 0 <= now.col < 0x1_0000
    ensures var es := Packets(SyncBlock(now, start, deleted, inserted));
      AcceptsAll(r, es) && ReceiveAll(r, es) == r.(ed := AfterBlock(r.ed, now, start, deleted, inserted))
  {
    hide Receive, Accepts, Packet, BlockMessages, Trimmed, ReceiveAll, AcceptsAll, Packets;
    var body, m := BlockMessages(now.rows, start, deleted, inserted), MoveCursorMsg(now.row, now.col);
    BlockBodyArrives(r, now, start, deleted, inserted);
    MoveCursorArrives(ReceiveAll(r, Packets(body)), now.row, now.col);
    ReceiveLast(r, body, m);
  }
}
