/** What each packet means for the peer that receives it: its text, its cursors and its progress in a file. */
module PacketMeaning {
  import opened Machine
  import opened TextDoc
  import opened EditorState
  import opened SerialLink
  import opened DeltaSync

  /** The number two bytes spell, high byte first. */
  function Number(p: seq<Word8>, i: nat): nat
    requires i + 1 < |p|
  {
    var high: nat, low: nat := p[i], p[i + 1];
    256 * high + low
  }

  /** Where the remote cursor is in the text. */
  function RemoteAt(s: State): nat
    requires InDoc(s.rows, s.remoteRow, s.remoteCol)
  {
    Offset(s.rows, s.remoteRow, s.remoteCol)
  }

  /** The peer's selection, clipboard and own column, which no edit from outside moves. */
  predicate KeepsOwn(s: State, t: State) {
    t.col == s.col && t.anchor == s.anchor && t.clip == s.clip
  }

  /** 0x01: the byte goes in at the remote cursor; a newline moves the peer's own cursor if it is on a lower row. */
  lemma InsertCharMeans(r: Replica, p: seq<Word8>)
    requires Accepts(r, Event(0x01, p)) && p != [] && IsDoc(r.ed.rows)
    ensures var s, q := r.ed, Receive(r, Event(0x01, p));
      var o, t := RemoteAt(s), q.ed;
      IsDoc(t.rows) && o <= |Text(s.rows)| && Text(t.rows) == Text(s.rows)[..o] + [p[0]] + Text(s.rows)[o..] &&
      InDoc(t.rows, t.remoteRow, t.remoteCol) && RemoteAt(t) == o + 1 && KeepsOwn(s, t) &&
      t.row == s.row + (if p[0] == 10 && s.row > s.remoteRow then 1 else 0) && q == r.(ed := t)
  {
    var s, ins := r.ed, Inserted(p[0]);
    SpliceText(s.rows, s.remoteRow, s.remoteCol, s.remoteRow, s.remoteCol, ins);
    SpliceIsDoc(s.rows, s.remoteRow, s.remoteCol, s.remoteRow, s.remoteCol, ins);
    assert Text(ins) == [p[0]];
  }

  /** 0x02: the byte before the remote cursor goes; when that joins two rows, an own cursor below them moves up. */
  lemma DeleteCharMeans(r: Replica, p: seq<Word8>)
    requires Accepts(r, Event(0x02, p)) && IsDoc(r.ed.rows)
    ensures var s, q := r.ed, Receive(r, Event(0x02, p));
      var o, t := RemoteAt(s), q.ed;
      q == r.(ed := t) && o <= |Text(s.rows)| &&
      if o == 0 then t == s
      else IsDoc(t.rows) && Text(t.rows) == Text(s.rows)[..o - 1] + Text(s.rows)[o..] &&
           InDoc(t.rows, t.remoteRow, t.remoteCol) && RemoteAt(t) == o - 1 && KeepsOwn(s, t) &&
           t.row == s.row - if s.remoteCol == 0 && s.row > s.remoteRow then 1 else 0
  {
    var s := r.ed;
    var here := s.(row := s.remoteRow, col := s.remoteCol);
    DeleteCharText(here);
    EditsKeepDocument(here, SPACE);
  }

  /** 0x03: the remote cursor moves, unless that would put it on the peer's own row. */
  lemma MoveCursorMeans(r: Replica, p: seq<Word8>)
    requires Accepts(r, Event(0x03, p)) && p != []
    ensures Receive(r, Event(0x03, p)) ==
      if Number(p, 0) == r.ed.row then r
      else r.(ed := r.ed.(remoteRow := Number(p, 0), remoteCol := Number(p, 2)))
  {
  }

  /**
   0x05: the rows from `start` on, `deleted` of them or as many as there are, become `inserted` empty
   ones; an own cursor below them moves with its row. A start past the end is ignored.
   */
  lemma ReplaceBlockMeans(r: Replica, p: seq<Word8>)
    requires Accepts(r, Event(0x05, p)) && p != []
    ensures var s, q := r.ed, Receive(r, Event(0x05, p));
      var start, inserted := Number(p, 0), Number(p, 4);
      var end := if start + Number(p, 2) < |s.rows| then start + Number(p, 2) else |s.rows|;
      if start > |s.rows| then q == r
      else
        var t := q.ed;
        q == r.(ed := t) && |t.rows| == start + inserted + |s.rows| - end &&
        t.rows[..start] == s.rows[..start] && t.rows[start + inserted..] == s.rows[end..] &&
        (forall i :: start <= i < start + inserted ==> t.rows[i] == []) &&
        (t.remoteRow, t.remoteCol) == (s.remoteRow, s.remoteCol) && KeepsOwn(s, t) &&
        t.row == if s.row >= end then s.row + start + inserted - end else s.row
  {
  }

  /** 0x06: one row becomes the rest of the payload; a row past the end is ignored. */
  lemma UpdateLineMeans(r: Replica, p: seq<Word8>)
    requires Accepts(r, Event(0x06, p)) && p != []
    ensures Receive(r, Event(0x06, p)) ==
      if Number(p, 0) < |r.ed.rows| then r.(ed := r.ed.(rows := r.ed.rows[Number(p, 0) := p[2..]])) else r
  {
  }

  /** 0x10: the editor starts over, all but the remote cursor, and expects that many lines. */
  lemma FileStartMeans(r: Replica, p: seq<Word8>)
    requires Accepts(r, Event(0x10, p)) && p != []
    ensures var q := Receive(r, Event(0x10, p));
      q.ed == State([[]], 0, 0, r.ed.remoteRow, r.ed.remoteCol, None, None) &&
      q.fileLines == Number(p, 0) && q.linesRead == 0
  {
  }

  /** 0x11: a line goes in the last row and an empty row below it, except after the line that completes the file. */
  lemma FileLineMeans(r: Replica, p: seq<Word8>)
    requires Accepts(r, Event(0x11, p))
    ensures var n, q := |r.ed.rows|, Receive(r, Event(0x11, p));
      if r.fileLines == 0 then q == r
      else
        var last := r.linesRead + 1 >= r.fileLines;
        q == Replica(r.ed.(rows := r.ed.rows[..n - 1] + if last then [p] else [p, []]),
                     if last then 0 else r.fileLines, r.linesRead + 1)
  {
    var rows := r.ed.rows[..|r.ed.rows| - 1] + [p, []];
    assert rows[..|rows| - 1] == r.ed.rows[..|r.ed.rows| - 1] + [p];
  }

  /** Anything else, and any of 0x01, 0x03, 0x05, 0x06 and 0x10 without a payload, is ignored. */
  lemma OthersAreIgnored(r: Replica, e: Event)
    requires Accepts(r, e)
    requires e.cmd !in {0x01, 0x02, 0x03, 0x05, 0x06, 0x10, 0x11} || (e.payload == [] && e.cmd != 0x02 && e.cmd != 0x11)
    ensures Receive(r, e) == r
  {
  }
}
