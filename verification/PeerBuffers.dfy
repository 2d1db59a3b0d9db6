/** Which rows of the peer have their buffers while packets come in, and when a packet may be acted on. */
module PeerBuffers {
  import opened Machine
  import opened TextDoc
  import opened EditorState
  import opened SerialLink
  import opened DeltaSync
  import opened CoEditing

  /** The peer's replica and, for each row, whether it has its terminated buffer. */
  datatype Store = Store(r: Replica, flags: seq<bool>)

  predicate AllBuffers(st: Store) {
    st.flags == Repeat(true, |st.r.ed.rows|)
  }

  predicate IsCharacterEdit(e: Event) {
    !Dropped(e) && (e.cmd == CMD_INSERT_CHAR || e.cmd == CMD_DELETE_CHAR)
  }

  /** The peer can act on the packet, and a character edit finds buffers in the rows it works on. */
  predicate Ready(st: Store, e: Event) {
    |st.flags| == |st.r.ed.rows| && Accepts(st.r, e) && (IsCharacterEdit(e) ==> AllBuffers(st))
  }

  /** `beyond` is the byte after the payload: a file line takes its terminator from there. */
  function FlagsAfter(st: Store, e: Event, beyond: Word8): (flags: seq<bool>)
    requires Ready(st, e)
    ensures |flags| == |Receive(st.r, e).ed.rows|
  {
    var p, n := e.payload, |st.flags|;
    if IsCharacterEdit(e) then Repeat(true, |Receive(st.r, e).ed.rows|)
    else if Dropped(e) then st.flags
    else if e.cmd == CMD_REPLACE_BLOCK then FlagsAfterBlock(st.flags, Unword(p, 0), Unword(p, 2), Unword(p, 4))
    else if e.cmd == CMD_UPDATE_LINE then FlagsAfterLine(st.flags, Unword(p, 0))
    else if e.cmd == CMD_FILE_START then [true]
    else if e.cmd == CMD_FILE_LINE && st.r.fileLines > 0 then
      st.flags[..n - 1] + [beyond == NUL] + if st.r.linesRead + 1 >= st.r.fileLines then [] else [false]
    else st.flags
  }

  function Apply(st: Store, e: Event, beyond: Word8): Store
    requires Ready(st, e)
  {
    Store(Receive(st.r, e), FlagsAfter(st, e, beyond))
  }

  predicate ReadyAll(st: Store, es: seq<Event>, beyond: seq<Word8>)
    requires |beyond| == |es|
    decreases |es|
  {
    es == [] || (Ready(st, es[0]) && ReadyAll(Apply(st, es[0], beyond[0]), es[1..], beyond[1..]))
  }

  function ApplyAll(st: Store, es: seq<Event>, beyond: seq<Word8>): Store
    requires |beyond| == |es| && ReadyAll(st, es, beyond)
    decreases |es|
  {
    if es == [] then st else ApplyAll(Apply(st, es[0], beyond[0]), es[1..], beyond[1..])
  }

  lemma {:induction false} ReplicaOfApplyAll(st: Store, es: seq<Event>, beyond: seq<Word8>)
    requires |beyond| == |es| && ReadyAll(st, es, beyond)
    ensures AcceptsAll(st.r, es) && ApplyAll(st, es, beyond).r == ReceiveAll(st.r, es)
    decreases |es|
  {
    hide Receive, Accepts, FlagsAfter;
    if es != [] {
      ReplicaOfApplyAll(Apply(st, es[0], beyond[0]), es[1..], beyond[1..]);
    }
  }

  lemma {:induction false} ApplyAppend(st: Store, a: seq<Event>, x: seq<Word8>, b: seq<Event>, y: seq<Word8>)
    requires |x| == |a| && |y| == |b| && ReadyAll(st, a, x) && ReadyAll(ApplyAll(st, a, x), b, y)
    ensures ReadyAll(st, a + b, x + y) && ApplyAll(st, a + b, x + y) == ApplyAll(ApplyAll(st, a, x), b, y)
    decreases |a|
  {
    hide Ready, Apply;
    if a == [] {
      assert a + b == b && x + y == y;
    } else {
      assert (a + b)[1..] == a[1..] + b && (x + y)[1..] == x[1..] + y;
      ApplyAppend(Apply(st, a[0], x[0]), a[1..], x[1..], b, y);
    }
  }

  /** One message more, last or first. */
  lemma ApplyLast(st: Store, ms: seq<Message>, x: seq<Word8>, m: Message, y: Word8)
    requires |x| == |ms| && ReadyAll(st, Packets(ms), x) && Ready(ApplyAll(st, Packets(ms), x), Packet(m))
    ensures ReadyAll(st, Packets(ms + [m]), x + [y])
    ensures ApplyAll(st, Packets(ms + [m]), x + [y]) == Apply(ApplyAll(st, Packets(ms), x), Packet(m), y)
  {
    hide Ready, Apply, Packet;
    var mid, e := ApplyAll(st, Packets(ms), x), Packet(m);
    assert [e][1..] == [] && [y][1..] == [] && ReadyAll(Apply(mid, e, y), [], []);
    ApplyAppend(st, Packets(ms), x, [e], [y]);
    assert Packets(ms + [m]) == Packets(ms) + [e];
  }

  lemma ApplyFirst(st: Store, m: Message, y: Word8, ms: seq<Message>, x: seq<Word8>)
    requires |x| == |ms| && Ready(st, Packet(m)) && ReadyAll(Apply(st, Packet(m), y), Packets(ms), x)
    ensures ReadyAll(st, Packets([m] + ms), [y] + x)
    ensures ApplyAll(st, Packets([m] + ms), [y] + x) == ApplyAll(Apply(st, Packet(m), y), Packets(ms), x)
  {
    hide Ready, Apply, Packet;
    assert ([m] + ms)[1..] == ms && ([y] + x)[1..] == x;
    assert Packets([m] + ms)[1..] == Packets(ms);
  }

  lemma ApplyNone(st: Store)
    ensures ReadyAll(st, Packets([]), []) && ApplyAll(st, Packets([]), []) == st
  {
  }

  // ----- single messages -----

  lemma MoveKeepsFlags(st: Store, row: int, col: int, beyond: Word8)
    requires |st.flags| == |st.r.ed.rows| >= 1
    ensures Ready(st, Packet(MoveCursorMsg(row, col)))
    ensures var now := Apply(st, Packet(MoveCursorMsg(row, col)), beyond);
      now.flags == st.flags && |now.r.ed.rows| == |st.r.ed.rows|
  {
    MoveCursorArrives(st.r, row, col);
  }

  lemma LineSetsFlag(st: Store, row: int, t: Row, beyond: Word8)
    requires |st.flags| == |st.r.ed.rows| >= 1
    ensures Ready(st, Packet(UpdateLineMsg(row, t)))
    ensures var now := Apply(st, Packet(UpdateLineMsg(row, t)), beyond);
      now.flags == FlagsAfterLine(st.flags, U16(row)) && |now.r.ed.rows| == |st.r.ed.rows|
  {
    UpdateLineArrives(st.r, row, t);
    WordRoundTrip(row, [], Cut(t, MAX_LINE));
    assert [] + Word(row) + Cut(t, MAX_LINE) == Word(row) + Cut(t, MAX_LINE);
  }

  lemma BlockOpensFlags(st: Store, start: int, deleted: int, inserted: int, beyond: Word8)
    requires |st.flags| == |st.r.ed.rows| >= 1
    ensures Ready(st, Packet(ReplaceBlockMsg(start, deleted, inserted)))
    ensures Apply(st, Packet(ReplaceBlockMsg(start, deleted, inserted)), beyond).flags
         == FlagsAfterBlock(st.flags, U16(start), U16(deleted), U16(inserted))
  {
    ReplaceBlockArrives(st.r, start, deleted, inserted);
    var p := Word(start) + Word(deleted) + Word(inserted);
    WordRoundTrip(start, [], Word(deleted) + Word(inserted));
    WordRoundTrip(deleted, Word(start), Word(inserted));
    WordRoundTrip(inserted, Word(start) + Word(deleted), []);
    assert [] + Word(start) + (Word(deleted) + Word(inserted)) == p && p + [] == p;
  }

  /** `flags` with `n` of them from `start` set. */
  function Set(flags: seq<bool>, start: nat, n: nat): (out: seq<bool>)
    requires start + n <= |flags|
    ensures |out| == |flags|
  {
    flags[..start] + Repeat(true, n) + flags[start + n..]
  }

  lemma SetStep(flags: seq<bool>, start: nat, n: nat)
    requires 0 < n && start + n <= |flags|
    ensures Set(flags, start, n - 1)[start + n - 1 := true] == Set(flags, start, n)
  {
  }

  /** The lines of a block give its rows their buffers one by one. */
  lemma {:induction false} LinesSetFlags(st: Store, now: seq<Row>, start: nat, n: nat, beyond: seq<Word8>)
    requires start + n <= |now| == |st.flags| == |st.r.ed.rows| < 0xFFFF && |now| >= 1 && |beyond| == n
    ensures var es := Packets(LineMessages(now, start, n));
      ReadyAll(st, es, beyond) && ApplyAll(st, es, beyond).flags == Set(st.flags, start, n) &&
      |ApplyAll(st, es, beyond).r.ed.rows| == |now|
    decreases n
  {
    hide Ready, Apply, Packet, Set;
    if n == 0 {
      ApplyNone(st);
      NoneSet(st.flags, start);
    } else {
      var row, x, y := start + n - 1, beyond[..n - 1], beyond[n - 1];
      var ms, m := LineMessages(now, start, n - 1), UpdateLineMsg(row, now[row]);
      assert LineMessages(now, start, n) == ms + [m] && x + [y] == beyond;
      hide ReadyAll, ApplyAll, Packets, LineMessages;
      LinesSetFlags(st, now, start, n - 1, x);
      LineSetsFlag(ApplyAll(st, Packets(ms), x), row, now[row], y);
      ApplyLast(st, ms, x, m, y);
      SetStep(st.flags, start, n);
    }
  }

  lemma NoneSet(flags: seq<bool>, start: nat)
    requires start <= |flags|
    ensures Set(flags, start, 0) == flags
  {
  }

  // ----- the packets of one key -----

  /** Every packet of the sequence can be acted on in turn, and at the end every row has its buffer. */
  predicate EndsWithBuffers(st: Store, es: seq<Event>, beyond: seq<Word8>) {
    |beyond| == |es| && ReadyAll(st, es, beyond) &&
    AllBuffers(ApplyAll(st, es, beyond)) && |ApplyAll(st, es, beyond).r.ed.rows| >= 1
  }

  lemma BlockBodyEndsWithBuffers(st: Store, now: seq<Row>, start: nat, deleted: nat, inserted: nat, beyond: seq<Word8>)
    requires AllBuffers(st) && BlockEdit(st.r.ed.rows, now, start, deleted, inserted)
    requires 1 <= |st.r.ed.rows| < 0xFFFF && |now| < 0xFFFF
    requires |beyond| == |BlockMessages(now, start, deleted, inserted)|
    ensures EndsWithBuffers(st, Packets(BlockMessages(now, start, deleted, inserted)), beyond)
  {
    hide Ready, Apply, Packet, Set, ReadyAll, ApplyAll, Packets, LineMessages, Receive, FlagsAfterLine, FlagsAfterBlock;
    if deleted == 1 && inserted == 1 {
      var m := UpdateLineMsg(start, now[start]);
      LineSetsFlag(st, start, now[start], beyond[0]);
      SetAgain(|st.flags|, start);
      ApplyNone(Apply(st, Packet(m), beyond[0]));
      ApplyFirst(st, m, beyond[0], [], []);
      assert [m] + [] == [m] && [beyond[0]] + [] == beyond;
    } else {
      OpenedBlockEndsWithBuffers(st, now, start, deleted, inserted, beyond);
    }
  }

  /** The blank rows of an opened block, then their texts. */
  lemma OpenedBlockEndsWithBuffers(
      st: Store, now: seq<Row>, start: nat, deleted: nat, inserted: nat, beyond: seq<Word8>)
    requires AllBuffers(st) && BlockEdit(st.r.ed.rows, now, start, deleted, inserted) && !(deleted == inserted == 1)
    requires 1 <= |st.r.ed.rows| < 0xFFFF && |now| < 0xFFFF && |beyond| == 1 + inserted
    ensures var m, ms := ReplaceBlockMsg(start, deleted, inserted), LineMessages(now, start, inserted);
      EndsWithBuffers(st, Packets([m] + ms), beyond)
  {
    hide *;
    var m, ms := ReplaceBlockMsg(start, deleted, inserted), LineMessages(now, start, inserted);
    OpenedFlags(st, now, start, deleted, inserted, beyond[0]);
    LinesEndWithBuffers(Apply(st, Packet(m), beyond[0]), now, start, inserted, beyond[1..]);
    EndsIfTheRestEnds(st, m, beyond[0], ms, beyond[1..]);
    assert [beyond[0]] + beyond[1..] == beyond;
  }

  lemma OpenedFlags(st: Store, now: seq<Row>, start: nat, deleted: nat, inserted: nat, beyond: Word8)
    requires AllBuffers(st) && BlockEdit(st.r.ed.rows, now, start, deleted, inserted) && !(deleted == inserted == 1)
    requires 1 <= |st.r.ed.rows| < 0xFFFF && |now| < 0xFFFF
    ensures Ready(st, Packet(ReplaceBlockMsg(start, deleted, inserted))) && 1 <= |now| && start + inserted <= |now|
    ensures var after := Apply(st, Packet(ReplaceBlockMsg(start, deleted, inserted)), beyond);
      |after.r.ed.rows| == |after.flags| == |now| && Set(after.flags, start, inserted) == Repeat(true, |now|)
  {
    assert |now| == |st.r.ed.rows| - deleted + inserted && start + deleted <= |st.r.ed.rows|;
    hide Ready, Apply, Packet, Set, Receive, FlagsAfterBlock, BlockEdit, U16;
    BlockOpensFlags(st, start, deleted, inserted, beyond);
    BlockKeepsCount(st, now, start, deleted, inserted, beyond);
    OpenedThenSet(|st.flags|, start, deleted, inserted);
    FitsU16(start);
    FitsU16(deleted);
    FitsU16(inserted);
  }

  lemma FitsU16(x: nat)
    requires x < 0x1_0000
    ensures U16(x) == x
  {
  }

  lemma LinesEndWithBuffers(st: Store, now: seq<Row>, start: nat, n: nat, beyond: seq<Word8>)
    requires start + n <= |now| == |st.flags| == |st.r.ed.rows| < 0xFFFF && |now| >= 1 && |beyond| == n
    requires Set(st.flags, start, n) == Repeat(true, |now|)
    ensures EndsWithBuffers(st, Packets(LineMessages(now, start, n)), beyond)
  {
    hide Set, Packets, LineMessages, ReadyAll, ApplyAll;
    LinesSetFlags(st, now, start, n, beyond);
  }

  lemma EndsIfTheRestEnds(st: Store, m: Message, y: Word8, ms: seq<Message>, x: seq<Word8>)
    requires Ready(st, Packet(m)) && EndsWithBuffers(Apply(st, Packet(m), y), Packets(ms), x)
    ensures EndsWithBuffers(st, Packets([m] + ms), [y] + x)
  {
    hide Ready, Apply, Packet, ReadyAll, ApplyAll;
    ApplyFirst(st, m, y, ms, x);
  }

  lemma BlockKeepsCount(st: Store, now: seq<Row>, start: nat, deleted: nat, inserted: nat, beyond: Word8)
    requires Ready(st, Packet(ReplaceBlockMsg(start, deleted, inserted)))
    requires BlockEdit(st.r.ed.rows, now, start, deleted, inserted) && !(deleted == inserted == 1)
    requires 1 <= |st.r.ed.rows| < 0xFFFF && |now| < 0xFFFF
    ensures |Apply(st, Packet(ReplaceBlockMsg(start, deleted, inserted)), beyond).r.ed.rows| == |now|
  {
    ReplaceBlockArrives(st.r, start, deleted, inserted);
    GapOpens(st.r.ed, start, deleted, inserted);
  }

  lemma SetAgain(n: nat, row: int)
    ensures FlagsAfterLine(Repeat(true, n), row) == Repeat(true, n)
  {
  }

  lemma OpenedThenSet(n: nat, start: nat, deleted: nat, inserted: nat)
    requires start + deleted <= n
    ensures var gapped := FlagsAfterBlock(Repeat(true, n), start, deleted, inserted);
      |gapped| == n - deleted + inserted && Set(gapped, start, inserted) == Repeat(true, n - deleted + inserted)
  {
  }

  lemma BlockEndsWithBuffers(st: Store, now: State, start: nat, deleted: nat, inserted: nat, beyond: seq<Word8>)
    requires AllBuffers(st) && BlockEdit(st.r.ed.rows, now.rows, start, deleted, inserted)
    requires 1 <= |st.r.ed.rows| < 0xFFFF && |now.rows| < 0xFFFF
    requires |beyond| == |SyncBlock(now, start, deleted, inserted)|
    ensures EndsWithBuffers(st, Packets(SyncBlock(now, start, deleted, inserted)), beyond)
  {
    hide Ready, Apply, Packet, BlockMessages;
    var body, m := BlockMessages(now.rows, start, deleted, inserted), MoveCursorMsg(now.row, now.col);
    var x, y := beyond[..|body|], beyond[|body|];
    BlockBodyEndsWithBuffers(st, now.rows, start, deleted, inserted, x);
    MoveEndsWithBuffers(st, body, m, x, y);
    assert x + [y] == beyond;
  }

  lemma MoveEndsWithBuffers(st: Store, ms: seq<Message>, m: Message, x: seq<Word8>, y: Word8)
    requires EndsWithBuffers(st, Packets(ms), x) && m.MoveCursorMsg?
    ensures EndsWithBuffers(st, Packets(ms + [m]), x + [y])
  {
    hide Ready, Apply, Packet, ReadyAll, ApplyAll, Packets;
    MoveKeepsFlags(ApplyAll(st, Packets(ms), x), m.row, m.col, y);
    ApplyLast(st, ms, x, m, y);
  }

  /** One message that needs no buffers, or finds them all, and leaves them all. */
  lemma OneEndsWithBuffers(st: Store, m: Message, y: Word8)
    requires AllBuffers(st) && Ready(st, Packet(m)) && |Receive(st.r, Packet(m)).ed.rows| >= 1
    requires m.InsertCharMsg? || m.DeleteCharMsg? || m.MoveCursorMsg?
    ensures EndsWithBuffers(st, Packets([m]), [y])
  {
    if m.MoveCursorMsg? {
      MoveKeepsFlags(st, m.row, m.col, y);
    }
    hide Ready, Packet, Packets, Receive, FlagsAfter;
    ApplyNone(Apply(st, Packet(m), y));
    ApplyFirst(st, m, y, [], []);
    assert [m] + [] == [m] && [y] + [] == [y];
    CharacterEditLeavesBuffers(st, m, y);
  }

  lemma CharacterEditLeavesBuffers(st: Store, m: Message, y: Word8)
    requires Ready(st, Packet(m))
    ensures m.InsertCharMsg? || m.DeleteCharMsg? ==>
      FlagsAfter(st, Packet(m), y) == Repeat(true, |Receive(st.r, Packet(m)).ed.rows|)
  {
  }

  lemma PlainEndsWithBuffers(s: State, st: Store, key: Key, beyond: seq<Word8>)
    requires Wf(s) && Small(s) && Small(Local(s, key)) && Mirrors(s, st.r) && AllBuffers(st) && SentBlock(s, key).None?
    requires |beyond| == |Sent(s, key)|
    ensures EndsWithBuffers(st, Packets(Sent(s, key)), beyond)
  {
    if Sent(s, key) == [] {
      ApplyNone(st);
    } else {
      var m := Sent(s, key)[0];
      PlainMessageIsReady(s, st, key, m);
      hide *;
      OneEndsWithBuffers(st, m, beyond[0]);
      assert [beyond[0]] == beyond;
    }
  }

  lemma PlainMessageIsReady(s: State, st: Store, key: Key, m: Message)
    requires Wf(s) && Small(s) && Small(Local(s, key)) && Mirrors(s, st.r) && AllBuffers(st) && SentBlock(s, key).None?
    requires |Sent(s, key)| > 0 && m == Sent(s, key)[0]
    ensures Sent(s, key) == [m] && (m.InsertCharMsg? || m.DeleteCharMsg? || m.MoveCursorMsg?)
    ensures Ready(st, Packet(m)) && |Receive(st.r, Packet(m)).ed.rows| >= 1
  {
    KeyFollows(s, st.r, key);
    LocalIsWf(s, key);
    if m.MoveCursorMsg? {
      MoveCursorArrives(st.r, m.row, m.col);
    } else {
      CharacterEditsArrive(st.r, if m.InsertCharMsg? then m.c else SPACE);
      CharacterFollows(s, st.r, key, m);
      DeliversOne(s, st.r, key, m);
    }
  }

  lemma EarlyEndsWithBuffers(s: State, st: Store, key: Key, beyond: seq<Word8>)
    requires Wf(s) && Small(s) && Mirrors(s, st.r) && AllBuffers(st)
    requires SentBlock(s, key).Some? && SentBlock(s, key).value.start < 0 && |beyond| == |Sent(s, key)|
    ensures EndsWithBuffers(st, Packets(Sent(s, key)), beyond)
  {
    assert 1 <= |s.rows| < 0xFFFF && |st.flags| == |s.rows|;
    hide ReadyAll, ApplyAll, Packets, Sent, Local, SentBlock;
    EarlyBlockSends(s, key);
    assert beyond == [beyond[0], beyond[1], beyond[2]];
    EarlyRun(st, beyond[0], beyond[1], beyond[2]);
    EndsAsItBegan(st, Sent(s, key), beyond);
  }

  lemma EarlyRun(st: Store, a: Word8, b: Word8, c: Word8)
    requires 1 <= |st.r.ed.rows| < 0xFFFF && |st.flags| == |st.r.ed.rows|
    requires st.r.ed.remoteRow == st.r.ed.remoteCol == 0
    ensures var ms := [ReplaceBlockMsg(-1, 2, 1), UpdateLineMsg(-1, []), MoveCursorMsg(0, 0)];
      ReadyAll(st, Packets(ms), [a, b, c]) && ApplyAll(st, Packets(ms), [a, b, c]) == st
  {
    hide *;
    var m1, m2, m3 := ReplaceBlockMsg(-1, 2, 1), UpdateLineMsg(-1, []), MoveCursorMsg(0, 0);
    EarlyMessagesKeepFlags(st, a, b, c);
    assert [m1, m2, m3] == [m1] + [m2, m3] && [m2, m3] == [m2] + [m3] && [m3] == [m3] + [];
    assert [a, b, c] == [a] + [b, c] && [b, c] == [b] + [c] && [c] == [c] + [];
    ApplyNone(st);
    ApplyFirst(st, m3, c, [], []);
    ApplyFirst(st, m2, b, [m3], [c]);
    ApplyFirst(st, m1, a, [m2, m3], [b, c]);
  }

  lemma EndsAsItBegan(st: Store, ms: seq<Message>, beyond: seq<Word8>)
    requires AllBuffers(st) && |st.r.ed.rows| >= 1 && |beyond| == |ms|
    requires ReadyAll(st, Packets(ms), beyond) && ApplyAll(st, Packets(ms), beyond) == st
    ensures EndsWithBuffers(st, Packets(ms), beyond)
  {
  }

  lemma NoFlagsBeforeTheStart(flags: seq<bool>)
    requires |flags| < 0xFFFF
    ensures FlagsAfterBlock(flags, U16(-1), 2, 1) == flags && FlagsAfterLine(flags, U16(-1)) == flags
  {
  }

  lemma EarlyMessagesKeepFlags(st: Store, a: Word8, b: Word8, c: Word8)
    requires 1 <= |st.r.ed.rows| < 0xFFFF && |st.flags| == |st.r.ed.rows|
    requires st.r.ed.remoteRow == st.r.ed.remoteCol == 0
    ensures Ready(st, Packet(ReplaceBlockMsg(-1, 2, 1))) && Apply(st, Packet(ReplaceBlockMsg(-1, 2, 1)), a) == st
    ensures Ready(st, Packet(UpdateLineMsg(-1, []))) && Apply(st, Packet(UpdateLineMsg(-1, [])), b) == st
    ensures Ready(st, Packet(MoveCursorMsg(0, 0))) && Apply(st, Packet(MoveCursorMsg(0, 0)), c) == st
  {
    EarlyMessagesAreIgnored(st.r);
    hide Ready, Receive, Accepts, Packet, FlagsAfter, FlagsAfterLine, FlagsAfterBlock;
    NoFlagsBeforeTheStart(st.flags);
    BlockOpensFlags(st, -1, 2, 1, a);
    LineSetsFlag(st, -1, [], b);
    MoveKeepsFlags(st, 0, 0, c);
  }

  /**
   The packets of any key can be acted on one after the other by a peer whose rows all have their
   buffers, and at the end they all have them again.
   */
  lemma KeyEndsWithBuffers(s: State, st: Store, key: Key, beyond: seq<Word8>)
    requires Wf(s) && Small(s) && Small(Local(s, key)) && Mirrors(s, st.r) && AllBuffers(st)
    requires |beyond| == |Sent(s, key)|
    ensures EndsWithBuffers(st, Packets(Sent(s, key)), beyond)
  {
    if SentBlock(s, key).None? {
      PlainEndsWithBuffers(s, st, key, beyond);
    } else if SentBlock(s, key).value.start < 0 {
      EarlyEndsWithBuffers(s, st, key, beyond);
    } else {
      var b := SentBlock(s, key).value;
      KeyIsBlockEdit(s, key);
      BlockEndsWithBuffers(st, Local(s, key), b.start, b.deleted, b.inserted, beyond);
    }
  }

  /** One run of packets after the other. */
  lemma EndsOneAfterTheOther(st: Store, es: seq<Event>, x: seq<Word8>, fs: seq<Event>, y: seq<Word8>)
    requires EndsWithBuffers(st, es, x) && EndsWithBuffers(ApplyAll(st, es, x), fs, y)
    ensures EndsWithBuffers(st, es + fs, x + y)
  {
    hide ReadyAll, ApplyAll, AllBuffers;
    ApplyAppend(st, es, x, fs, y);
  }

  lemma KeyLeavesFollowable(s: State, st: Store, keys: seq<Key>, beyond: seq<Word8>)
    requires Wf(s) && Mirrors(s, st.r) && keys != [] && Followable(s, st.r, keys) && AllBuffers(st)
    requires |beyond| == |Sent(s, keys[0])|
    ensures var es := Packets(Sent(s, keys[0]));
      EndsWithBuffers(st, es, beyond) && Wf(Local(s, keys[0])) &&
      Mirrors(Local(s, keys[0]), ApplyAll(st, es, beyond).r) &&
      Followable(Local(s, keys[0]), ApplyAll(st, es, beyond).r, keys[1..])
  {
    hide Local, Sent, Ready, Apply, RowsCarried, CursorHeard, Packets, ReadyAll, ApplyAll, Small, AllBuffers;
    LocalIsWf(s, keys[0]);
    SmallAfter(s, st.r, keys);
    KeyEndsWithBuffers(s, st, keys[0], beyond);
    KeyFollows(s, st.r, keys[0]);
    ReplicaOfApplyAll(st, Packets(Sent(s, keys[0])), beyond);
  }

  /** The same over any followable run of keys. */
  lemma {:induction false} SessionEndsWithBuffers(s: State, st: Store, keys: seq<Key>, beyond: seq<Word8>)
    requires Wf(s) && Mirrors(s, st.r) && Followable(s, st.r, keys) && AllBuffers(st) && |beyond| == |SentAll(s, keys)|
    ensures EndsWithBuffers(st, Packets(SentAll(s, keys)), beyond)
    decreases |keys|
  {
    hide Local, Sent, Ready, Apply, Packets, ReadyAll, ApplyAll, Followable, Mirrors, Wf;
    if keys == [] {
      NoneEndsWithBuffers(s, st);
    } else {
      LocalIsWf(s, keys[0]);
      var ms, rest := Sent(s, keys[0]), SentAll(Local(s, keys[0]), keys[1..]);
      var x, y := beyond[..|ms|], beyond[|ms|..];
      KeyLeavesFollowable(s, st, keys, x);
      SessionEndsWithBuffers(Local(s, keys[0]), ApplyAll(st, Packets(ms), x), keys[1..], y);
      EndsOneAfterTheOther(st, Packets(ms), x, Packets(rest), y);
      PacketsAppend(ms, rest);
      assert x + y == beyond;
    }
  }

  lemma NoneEndsWithBuffers(s: State, st: Store)
    requires Wf(s) && Mirrors(s, st.r) && AllBuffers(st)
    ensures EndsWithBuffers(st, [], [])
  {
    ApplyNone(st);
  }

  lemma SmallAfter(s: State, r: Replica, keys: seq<Key>)
    requires Wf(s) && Followable(s, r, keys)
    ensures Small(s) && (keys != [] ==> Small(Local(s, keys[0])))
  {
    if keys != [] {
      LocalIsWf(s, keys[0]);
      assert Followable(Local(s, keys[0]), Delivered(s, r, keys[0]), keys[1..]);
    }
  }
}
