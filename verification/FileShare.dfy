/** Sharing the whole file over the serial link. */
module FileShare {
  import opened Machine
  import opened TextDoc
  import opened EditorState
  import opened SerialLink
  import opened DeltaSync
  import opened CoEditing
  import opened PeerBuffers

  function FileMessages(rows: seq<Row>, n: nat): (ms: seq<Message>)
    requires n <= |rows|
    ensures |ms| == n && forall i :: 0 <= i < n ==> ms[i] == FileLineMsg(rows[i])
  {
    if n == 0 then [] else FileMessages(rows, n - 1) + [FileLineMsg(rows[n - 1])]
  }

  /** What the `:sync` command sends: the file's name and length, its rows, then the cursor. */
  function Shared(s: State, name: Row): seq<Message> {
    [FileStartMsg(|s.rows|, name)] + (FileMessages(s.rows, |s.rows|) + [MoveCursorMsg(s.row, s.col)])
  }

  function CutRows(rows: seq<Row>, n: nat): (out: seq<Row>)
    requires n <= |rows|
    ensures |out| == n
  {
    seq(n, i requires 0 <= i < n => Cut(rows[i], MAX_FILE_LINE))
  }

  /** The peer after `n` lines of a file announced with `count`: it stops listening at `count`. */
  function Midway(ed: State, rows: seq<Row>, count: nat, n: nat): Replica
    requires n <= |rows|
  {
    if n < count then Replica(ed.(rows := CutRows(rows, n) + [[]]), count, n)
    else if count == 0 then Replica(ed.(rows := [[]]), 0, 0)
    else Replica(ed.(rows := CutRows(rows, count)), 0, count)
  }

  lemma FileStartArrives(r: Replica, count: int, name: Row)
    requires |r.ed.rows| >= 1
    ensures Accepts(r, Packet(FileStartMsg(count, name)))
    ensures Receive(r, Packet(FileStartMsg(count, name))) == Replica(Cleared(r.ed), U16(count), 0)
  {
    WordRoundTrip(count, [], Cut(name, MAX_LINE));
    assert [] + Word(count) + Cut(name, MAX_LINE) == Word(count) + Cut(name, MAX_LINE);
  }

  lemma FileLineArrives(ed: State, rows: seq<Row>, count: nat, n: nat)
    requires n < |rows|
    ensures Accepts(Midway(ed, rows, count, n), Packet(FileLineMsg(rows[n])))
    ensures Receive(Midway(ed, rows, count, n), Packet(FileLineMsg(rows[n]))) == Midway(ed, rows, count, n + 1)
  {
    if n < count {
      var was := CutRows(rows, n) + [[]];
      var now := was[..|was| - 1] + [Cut(rows[n], MAX_FILE_LINE), []];
      assert now == CutRows(rows, n + 1) + [[]];
      assert n + 1 == count ==> FinalizeLoad(now) == CutRows(rows, n + 1);
    }
  }

  lemma {:induction false} FileLinesArrive(ed: State, rows: seq<Row>, count: nat, n: nat)
    requires n <= |rows|
    ensures var r, es := Midway(ed, rows, count, 0), Packets(FileMessages(rows, n));
      AcceptsAll(r, es) && ReceiveAll(r, es) == Midway(ed, rows, count, n)
    decreases n
  {
    hide Receive, Accepts, Packet, Midway;
    if n == 0 {
      ReceiveNothing(Midway(ed, rows, count, 0));
    } else {
      FileLinesArrive(ed, rows, count, n - 1);
      FileLineArrives(ed, rows, count, n - 1);
      ReceiveLast(Midway(ed, rows, count, 0), FileMessages(rows, n - 1), FileLineMsg(rows[n - 1]));
    }
  }

  /** The row count fits its 16 bits and every row fits one packet. */
  predicate Shareable(rows: seq<Row>) {
    |rows| < 0x1_0000 && forall i :: 0 <= i < |rows| ==> |rows[i]| <= MAX_FILE_LINE
  }

  lemma CutRowsIsExactIffShareable(ed: State, rows: seq<Row>)
    requires |rows| >= 1
    ensures Midway(ed, rows, U16(|rows|), |rows|).ed.rows == rows <==> Shareable(rows)
  {
    if |rows| < 0x1_0000 {
      if i :| 0 <= i < |rows| && |rows[i]| > MAX_FILE_LINE {
        assert CutRows(rows, |rows|)[i] != rows[i];
      } else {
        assert CutRows(rows, |rows|) == rows;
      }
    } else {
      assert |Midway(ed, rows, U16(|rows|), |rows|).ed.rows| < |rows|;
    }
  }

  /** What a shared file leaves on the peer. */
  lemma ShareArrives(s: State, r: Replica, name: Row)
    requires Wf(s) && |r.ed.rows| >= 1
    ensures var es, ed := Packets(Shared(s, name)), Cleared(r.ed);
      AcceptsAll(r, es) &&
      var q := Midway(ed, s.rows, U16(|s.rows|), |s.rows|);
      ReceiveAll(r, es) == q.(ed := SetRemoteCursor(q.ed, U16(s.row), U16(s.col)))
  {
    hide Receive, Accepts, Packet, SetRemoteCursor, AcceptsAll, ReceiveAll, Packets, Wf;
    var n := |s.rows|;
    var start, lines, last := FileStartMsg(n, name), FileMessages(s.rows, n), MoveCursorMsg(s.row, s.col);
    var r1, q := Midway(Cleared(r.ed), s.rows, U16(n), 0), Midway(Cleared(r.ed), s.rows, U16(n), n);
    FileStartArrives(r, n, name);
    assert CutRows(s.rows, 0) + [[]] == [[]];
    assert Receive(r, Packet(start)) == r1;
    FileLinesArrive(Cleared(r.ed), s.rows, U16(n), n);
    MoveCursorArrives(q, s.row, s.col);
    ReceiveLast(r1, lines, last);
    ReceiveFirst(r, start, lines + [last]);
  }

  /**
   After sharing, the peer has the file exactly when it is shareable, and also shows the cursor
   exactly when that is off the first row or was already shown there.
   */
  lemma ShareMirrors(s: State, r: Replica, name: Row)
    requires Wf(s) && |r.ed.rows| >= 1
    ensures AcceptsAll(r, Packets(Shared(s, name)))
    ensures ReceiveAll(r, Packets(Shared(s, name))).ed.rows == s.rows <==> Shareable(s.rows)
    ensures Mirrors(s, ReceiveAll(r, Packets(Shared(s, name)))) <==>
      Shareable(s.rows) && (s.row > 0 || CursorShown(s, r))
  {
    hide AcceptsAll, ReceiveAll, Packets, Shared;
    ShareArrives(s, r, name);
    CutRowsIsExactIffShareable(Cleared(r.ed), s.rows);
    if Shareable(s.rows) {
      assert |s.rows[s.row]| <= MAX_FILE_LINE;
    }
  }

  /** A file shared with the cursor where it can be shown, then any run of keys, all over the wire. */
  lemma ShareThenTypeOverTheWire(s: State, r: Replica, name: Row, keys: seq<Key>)
    requires Wf(s) && |r.ed.rows| >= 1 && Shareable(s.rows) && (s.row > 0 || CursorShown(s, r))
    requires AcceptsAll(r, Packets(Shared(s, name))) && Followable(s, ReceiveAll(r, Packets(Shared(s, name))), keys)
    ensures var es := Packets(Shared(s, name) + SentAll(s, keys));
      (forall e :: e in es ==> e.Fits()) && AcceptsAll(r, Events(WaitStart, EncodeAll(es))) &&
      Mirrors(LocalAll(s, keys), ReceiveAll(r, Events(WaitStart, EncodeAll(es))))
  {
    hide AcceptsAll, ReceiveAll, Packets, Shared, SentAll, LocalAll, Followable, EncodeAll, Events;
    ShareMirrors(s, r, name);
    SessionFollows(s, ReceiveAll(r, Packets(Shared(s, name))), keys);
    ReceiveAppend(r, Packets(Shared(s, name)), Packets(SentAll(s, keys)));
    PacketsAppend(Shared(s, name), SentAll(s, keys));
    MessagesArrive(Shared(s, name) + SentAll(s, keys));
  }

  // ----- the buffers of the loaded rows -----

  /** Which rows have terminated buffers after `n` lines: those whose packet was followed by a terminator byte. */
  function LoadedFlags(beyond: seq<Word8>, count: nat, n: nat): (flags: seq<bool>)
    requires n <= |beyond|
    ensures |flags| == if n < count then n + 1 else if count == 0 then 1 else count
  {
    if n < count then seq(n, i requires 0 <= i < n => beyond[i] == NUL) + [n == 0]
    else if count == 0 then [true]
    else seq(count, i requires 0 <= i < count => beyond[i] == NUL)
  }

  function MidStore(ed: State, rows: seq<Row>, beyond: seq<Word8>, count: nat, n: nat): Store
    requires n <= |rows| == |beyond|
  {
    Store(Midway(ed, rows, count, n), LoadedFlags(beyond, count, n))
  }

  lemma FileStartStores(st: Store, count: int, name: Row, rows: seq<Row>, beyond: seq<Word8>, y: Word8)
    requires |st.flags| == |st.r.ed.rows| >= 1 && |rows| == |beyond|
    ensures Ready(st, Packet(FileStartMsg(count, name)))
    ensures Apply(st, Packet(FileStartMsg(count, name)), y) == MidStore(Cleared(st.r.ed), rows, beyond, U16(count), 0)
  {
    FileStartArrives(st.r, count, name);
    assert CutRows(rows, 0) + [[]] == [[]];
  }

  lemma FileLineStores(ed: State, rows: seq<Row>, beyond: seq<Word8>, count: nat, n: nat)
    requires n < |rows| == |beyond|
    ensures var st, e := MidStore(ed, rows, beyond, count, n), Packet(FileLineMsg(rows[n]));
      Ready(st, e) && Apply(st, e, beyond[n]) == MidStore(ed, rows, beyond, count, n + 1)
  {
    FileLineArrives(ed, rows, count, n);
    var st, e := MidStore(ed, rows, beyond, count, n), Packet(FileLineMsg(rows[n]));
    hide Receive, Accepts;
    assert FlagsAfter(st, e, beyond[n]) == LoadedFlags(beyond, count, n + 1);
  }

  lemma {:induction false} FileLinesStore(ed: State, rows: seq<Row>, beyond: seq<Word8>, count: nat, n: nat)
    requires n <= |rows| == |beyond|
    ensures var st, es := MidStore(ed, rows, beyond, count, 0), Packets(FileMessages(rows, n));
      ReadyAll(st, es, beyond[..n]) && ApplyAll(st, es, beyond[..n]) == MidStore(ed, rows, beyond, count, n)
    decreases n
  {
    hide Ready, Apply, Packet, MidStore, ReadyAll, ApplyAll, Packets;
    if n == 0 {
      ApplyNone(MidStore(ed, rows, beyond, count, 0));
      assert FileMessages(rows, 0) == [] && beyond[..0] == [];
    } else {
      FileLinesStore(ed, rows, beyond, count, n - 1);
      FileLineStores(ed, rows, beyond, count, n - 1);
      ApplyLast(MidStore(ed, rows, beyond, count, 0), FileMessages(rows, n - 1), beyond[..n - 1],
                FileLineMsg(rows[n - 1]), beyond[n - 1]);
      assert beyond[..n] == beyond[..n - 1] + [beyond[n - 1]];
    }
  }

  /** All packets of a shared file can be acted on in turn, and which rows have terminated buffers at the end. */
  lemma ShareStores(s: State, st: Store, name: Row, beyond: seq<Word8>)
    requires |s.rows| >= 1 && |st.flags| == |st.r.ed.rows| >= 1 && |beyond| == |Shared(s, name)|
    ensures var es, n := Packets(Shared(s, name)), |s.rows|;
      ReadyAll(st, es, beyond) && ApplyAll(st, es, beyond).flags == LoadedFlags(beyond[1..n + 1], U16(n), n) &&
      |ApplyAll(st, es, beyond).r.ed.rows| == |ApplyAll(st, es, beyond).flags|
  {
    hide Ready, Apply, Packet, ReadyAll, ApplyAll, Packets, LoadedFlags;
    var n, ed := |s.rows|, Cleared(st.r.ed);
    var bs := beyond[1..n + 1];
    var start, lines, last := FileStartMsg(n, name), FileMessages(s.rows, n), MoveCursorMsg(s.row, s.col);
    FileStartStores(st, n, name, s.rows, bs, beyond[0]);
    FileLinesStore(ed, s.rows, bs, U16(n), n);
    assert bs[..n] == bs;
    var first, loaded := MidStore(ed, s.rows, bs, U16(n), 0), MidStore(ed, s.rows, bs, U16(n), n);
    MoveKeepsFlags(loaded, s.row, s.col, beyond[n + 1]);
    ApplyLast(first, lines, bs, last, beyond[n + 1]);
    ApplyFirst(st, start, beyond[0], lines + [last], bs + [beyond[n + 1]]);
    assert beyond == [beyond[0]] + (bs + [beyond[n + 1]]);
  }

  /**
   A received line's terminator is whatever byte follows its payload in the receive buffer: the
   shared file ends up in terminated rows exactly when every one of those bytes is zero.
   */
  lemma ShareTerminatesIff(s: State, st: Store, name: Row, beyond: seq<Word8>)
    requires Wf(s) && Shareable(s.rows) && |st.flags| == |st.r.ed.rows| >= 1 && |beyond| == |Shared(s, name)|
    ensures ReadyAll(st, Packets(Shared(s, name)), beyond)
    ensures AllBuffers(ApplyAll(st, Packets(Shared(s, name)), beyond)) <==>
      forall i :: 1 <= i <= |s.rows| ==> beyond[i] == NUL
  {
    hide Packets, ReadyAll, ApplyAll;
    var n := |s.rows|;
    ShareStores(s, st, name, beyond);
    var flags := LoadedFlags(beyond[1..n + 1], n, n);
    assert forall i :: 0 <= i < n ==> flags[i] == (beyond[i + 1] == NUL);
    if i :| 1 <= i <= n && beyond[i] != NUL {
      assert flags[i - 1] == false;
    } else {
      assert flags == Repeat(true, n);
    }
  }
}
