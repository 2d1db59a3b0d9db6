/** The editor's text store: an array of lines with growable buffers, and the edits made to it. */
module TextStore {
  import opened Machine
  import opened TextDoc
  import EditorState

  const LINE_BUF_INIT_CAP := 32
  const LINES_INIT_CAP := 16

  datatype Result = Ok | NoClipboard | AllocFailed

  /** A line: its buffer (the capacity is the buffer's length; an absent buffer is empty) and its text length. */
  datatype Line = Line(buf: seq<Word8>, len: nat)
  {
    /** A line with a buffer always has room for its terminator. */
    predicate Allocated() {
      len < |buf|
    }

    predicate Shaped() {
      Allocated() || this == Line([], 0)
    }

    predicate Clean() {
      Allocated() && buf[len] == NUL
    }

    function Row(): Row
      requires Shaped()
    {
      buf[..len]
    }
  }

  predicate AllShaped(ls: seq<Line>) {
    forall i :: 0 <= i < |ls| ==> ls[i].Shaped()
  }

  predicate AllClean(ls: seq<Line>) {
    forall i :: 0 <= i < |ls| ==> ls[i].Clean()
  }

  /** Which lines have their terminated buffers. */
  function Flags(ls: seq<Line>): (fs: seq<bool>)
    ensures |fs| == |ls| && forall i :: 0 <= i < |ls| ==> fs[i] == ls[i].Clean()
  {
    seq(|ls|, i requires 0 <= i < |ls| => ls[i].Clean())
  }

  lemma FlagsTellClean(ls: seq<Line>)
    ensures AllClean(ls) <==> Flags(ls) == EditorState.Repeat(true, |ls|)
  {
  }

  lemma FlagsReplaced(ls: seq<Line>, start: nat, end: nat, n: nat)
    requires start <= end <= |ls|
    ensures Flags(ls[..start] + NoLines(n) + ls[end..])
         == Flags(ls)[..start] + EditorState.Repeat(false, n) + Flags(ls)[end..]
  {
    var out := ls[..start] + NoLines(n) + ls[end..];
    var x := Flags(ls)[..start] + EditorState.Repeat(false, n) + Flags(ls)[end..];
    forall i | 0 <= i < |out|
      ensures Flags(out)[i] == x[i]
    {
      if i >= start + n {
        assert out[i] == ls[end + (i - start - n)];
      }
    }
  }

  /** The lines of a file being loaded: the last one is empty and may lack a buffer, the others are complete. */
  predicate LoadingLines(ls: seq<Line>) {
    |ls| >= 1 && AllShaped(ls) && ls[|ls| - 1].len == 0 && AllClean(ls[..|ls| - 1])
  }

  function RowsOf(ls: seq<Line>): (rows: seq<Row>)
    requires AllShaped(ls)
    ensures |rows| == |ls|
    ensures forall i :: 0 <= i < |ls| ==> rows[i] == ls[i].Row()
  {
    if ls == [] then [] else [ls[0].Row()] + RowsOf(ls[1..])
  }

  /** `memcpy` or `memmove` of `s` into a buffer. */
  function Patch(buf: seq<Word8>, at: nat, s: seq<Word8>): (out: seq<Word8>)
    requires at + |s| <= |buf|
    ensures |out| == |buf|
  {
    buf[..at] + s + buf[at + |s|..]
  }

  lemma RowsOfAppend(a: seq<Line>, b: seq<Line>)
    requires AllShaped(a) && AllShaped(b)
    ensures AllShaped(a + b) && RowsOf(a + b) == RowsOf(a) + RowsOf(b)
  {
  }

  lemma RowsOfSlice(ls: seq<Line>, a: nat, b: nat)
    requires a <= b <= |ls| && AllShaped(ls)
    ensures AllShaped(ls[a..b]) && RowsOf(ls[a..b]) == RowsOf(ls)[a..b]
  {
    var x, y := RowsOf(ls[a..b]), RowsOf(ls)[a..b];
    forall i | 0 <= i < b - a
      ensures x[i] == y[i]
    {
      assert ls[a..b][i] == ls[a + i];
    }
  }

  /** Rows `r` to `q` of `ls` replaced by the lines `mid`. */
  lemma RowsOfReplaced(ls: seq<Line>, r: nat, q: nat, mid: seq<Line>)
    requires r <= q <= |ls| && AllShaped(ls) && AllShaped(mid)
    ensures AllShaped(ls[..r] + mid + ls[q..])
    ensures RowsOf(ls[..r] + mid + ls[q..]) == RowsOf(ls)[..r] + RowsOf(mid) + RowsOf(ls)[q..]
  {
    RowsOfSlice(ls, 0, r);
    RowsOfSlice(ls, q, |ls|);
    RowsOfAppend(ls[..r], mid);
    RowsOfAppend(ls[..r] + mid, ls[q..]);
  }

  /** `now` is `was` with a slot opened below row `r`. */
  ghost predicate SlotOpened(was: seq<Line>, now: seq<Line>, r: nat) {
    |now| == |was| + 1 && r < |was| &&
    (forall i :: 0 <= i <= r ==> now[i] == was[i]) &&
    (forall i :: r + 2 <= i < |now| ==> now[i] == was[i - 1])
  }

  /** The rows shown when a slot was opened below `r` but the row count did not grow. */
  ghost predicate IsLostRow(before: seq<Row>, after: seq<Row>, r: nat) {
    |after| == |before| && r + 1 < |before| &&
    (forall i :: 0 <= i <= r ==> after[i] == before[i]) && after[r + 1] == [] &&
    (forall i :: r + 2 <= i < |after| ==> after[i] == before[i - 1])
  }

  lemma LostRow(was: seq<Line>, now: seq<Line>, r: nat)
    requires AllShaped(was) && SlotOpened(was, now, r)
    ensures var shown := now[r + 1 := Line([], 0)][..|was|];
      AllShaped(shown) && (RowsOf(shown) == RowsOf(was) || IsLostRow(RowsOf(was), RowsOf(shown), r))
  {
    hide RowsOf;
    var shown := now[r + 1 := Line([], 0)][..|was|];
    ShownIsShaped(was, now, shown, r);
    if r + 1 == |was| {
      assert shown == was;
    }
  }

  lemma ShownIsShaped(was: seq<Line>, now: seq<Line>, shown: seq<Line>, r: nat)
    requires AllShaped(was) && SlotOpened(was, now, r) && |shown| == |was|
    requires forall i :: 0 <= i < |shown| ==> shown[i] == if i == r + 1 then Line([], 0) else now[i]
    ensures AllShaped(shown)
  {
  }

  /** `out` is `was` with row `r` replaced by two lines. */
  ghost predicate RowSplit(was: seq<Line>, out: seq<Line>, r: nat, left: Line, right: Line) {
    |out| == |was| + 1 && r < |was| && out[r] == left && out[r + 1] == right &&
    (forall i :: 0 <= i < r ==> out[i] == was[i]) &&
    (forall i :: r + 2 <= i < |out| ==> out[i] == was[i - 1])
  }

  lemma SplitIsShaped(was: seq<Line>, out: seq<Line>, r: nat, left: Line, right: Line)
    requires RowSplit(was, out, r, left, right) && AllShaped(was) && left.Clean() && right.Clean()
    ensures AllShaped(out) && (AllClean(was) ==> AllClean(out))
  {
  }

  /** Row `r` replaced by its two halves is the row broken at `c`. */
  lemma BrokenRow(was: seq<Line>, out: seq<Line>, r: nat, c: nat, left: Line, right: Line)
    requires AllShaped(was) && AllShaped(out) && InDoc(RowsOf(was), r, c) && RowSplit(was, out, r, left, right)
    requires left.Row() == was[r].Row()[..c] && right.Row() == was[r].Row()[c..]
    ensures RowsOf(out) == Splice(RowsOf(was), r, c, r, c, [[], []])
  {
    BrokenRowByRow(RowsOf(was), RowsOf(out), r, c);
  }

  lemma PatchAt(buf: seq<Word8>, at: nat, s: seq<Word8>, k: nat)
    requires at + |s| <= |buf| && k < |buf|
    ensures Patch(buf, at, s)[k] == if at <= k < at + |s| then s[k - at] else buf[k]
  {
  }

  lemma PatchedPrefix(buf: seq<Word8>, s: seq<Word8>)
    requires |s| <= |buf|
    ensures Patch(buf, 0, s)[..|s|] == s && (forall k :: 0 <= k < |s| ==> Patch(buf, 0, s)[..k] == s[..k])
    ensures forall k :: 0 <= k < |s| ==> Patch(buf, 0, s)[k] == s[k]
  {
  }

  /** A buffer patched from `src`, up to the first `n` bytes of the patch. */
  lemma PatchedTo(buf: seq<Word8>, at: nat, src: seq<Word8>, from: nat, to: nat, n: nat)
    requires from <= to <= |src| && at + (to - from) <= |buf| && n <= to - from
    ensures Patch(buf, at, src[from..to])[..at + n] == buf[..at] + src[from..from + n]
  {
    hide Patch;
    var x, y := Patch(buf, at, src[from..to])[..at + n], buf[..at] + src[from..from + n];
    forall k | 0 <= k < at + n
      ensures x[k] == y[k]
    {
      PatchAt(buf, at, src[from..to], k);
    }
  }

  lemma GapForByte(buf: seq<Word8>, c: nat, len: nat, ch: Word8)
    requires c <= len && len + 1 < |buf|
    ensures Patch(buf, c + 1, buf[c..len + 1])[c := ch][..len + 1] == buf[..c] + [ch] + buf[c..len]
  {
    hide Patch;
    var x, y := Patch(buf, c + 1, buf[c..len + 1])[c := ch][..len + 1], buf[..c] + [ch] + buf[c..len];
    forall k | 0 <= k < len + 1
      ensures x[k] == y[k]
    {
      PatchAt(buf, c + 1, buf[c..len + 1], k);
    }
  }

  /** A line after `memmove` has opened a gap at `c` for one byte. */
  function WithByte(ln: Line, c: nat, ch: Word8): (out: Line)
    requires ln.Allocated() && c <= ln.len && ln.len + 1 < |ln.buf|
    ensures out.Allocated() && out.Row() == ln.Row()[..c] + [ch] + ln.Row()[c..]
    ensures ln.Clean() ==> out.Clean()
  {
    var out := Line(Patch(ln.buf, c + 1, ln.buf[c..ln.len + 1])[c := ch], ln.len + 1);
    GapForByte(ln.buf, c, ln.len, ch);
    out
  }

  /** A line cut off at `c`. */
  function CutAt(ln: Line, c: nat): (out: Line)
    requires ln.Allocated() && c <= ln.len
    ensures out.Clean() && out.Row() == ln.Row()[..c]
  {
    Line(ln.buf[c := NUL], c)
  }

  /** A line with columns `c1` to `c2` closed up by `memmove`, terminator included. */
  function Without(ln: Line, c1: nat, c2: nat): (out: Line)
    requires ln.Allocated() && c1 <= c2 <= ln.len
    ensures out.Allocated() && out.Row() == ln.Row()[..c1] + ln.Row()[c2..]
    ensures ln.Clean() ==> out.Clean()
  {
    var out := Line(Patch(ln.buf, c1, ln.buf[c2..ln.len + 1]), ln.len - (c2 - c1));
    PatchedTo(ln.buf, c1, ln.buf, c2, ln.len + 1, ln.len - c2);
    out
  }

  /** The tail of `src` from column `from`, terminator included, copied over `ln` from column `c` on. */
  function WithTail(ln: Line, c: nat, src: Line, from: nat): (out: Line)
    requires ln.Allocated() && c <= ln.len && src.Allocated() && from <= src.len
    requires c + (src.len - from) + 1 < |ln.buf|
    ensures out.Allocated() && out.Row() == ln.Row()[..c] + src.Row()[from..]
    ensures src.Clean() ==> out.Clean()
  {
    var out := Line(Patch(ln.buf, c, src.buf[from..src.len + 1]), c + (src.len - from));
    PatchedTo(ln.buf, c, src.buf, from, src.len + 1, src.len - from);
    out
  }

  /** A line with `t` written after its text. */
  function Extended(ln: Line, t: seq<Word8>): (out: Line)
    requires ln.Allocated() && ln.len + |t| < |ln.buf|
    ensures out.Clean() && out.Row() == ln.Row() + t
  {
    var out := Line(Patch(ln.buf, ln.len, t)[ln.len + |t| := NUL], ln.len + |t|);
    PatchedTo(ln.buf, ln.len, t, 0, |t|, |t|);
    assert t[0..|t|] == t;
    assert out.buf[..out.len] == Patch(ln.buf, ln.len, t)[..ln.len + |t|];
    out
  }

  /** A buffer filled with `t` and a terminator. */
  function Holding(ln: Line, t: seq<Word8>): (out: Line)
    requires |t| < |ln.buf|
    ensures out.Clean() && out.Row() == t
  {
    Line(Patch(ln.buf, 0, t)[|t| := NUL], |t|)
  }

  /** `t` copied into a buffer right after its first `at` bytes. */
  function Written(buf: seq<Word8>, at: nat, t: seq<Word8>): (out: seq<Word8>)
    requires at + |t| <= |buf|
    ensures |out| == |buf| && out[..at + |t|] == buf[..at] + t
  {
    Patch(buf, at, t)
  }

  class Buffer {
    /** The line array; its length is the row capacity. */
    var lines: seq<Line>
    var rowCount: nat
    /** The outcomes of the calls of `malloc`, and how many calls were made; past the end they fail. */
    const heap: seq<bool>
    var allocs: nat

    ghost predicate Shaped()
      reads this
    {
      rowCount < |lines| && AllShaped(lines[..rowCount])
    }

    /** Every row has a terminated buffer. */
    ghost predicate Clean()
      reads this
    {
      rowCount < |lines| && AllClean(lines[..rowCount])
    }

    function Doc(): seq<Row>
      requires Shaped()
      reads this
    {
      RowsOf(lines[..rowCount])
    }

    /** Which rows have their terminated buffers. */
    function CleanRows(): seq<bool>
      requires rowCount <= |lines|
      reads this
    {
      Flags(lines[..rowCount])
    }

    lemma CleanRowsTellClean()
      requires rowCount < |lines|
      ensures Clean() <==> CleanRows() == EditorState.Repeat(true, rowCount)
    {
      FlagsTellClean(lines[..rowCount]);
    }

    /** A store with no slots yet; `Init` gives it its first row. */
    constructor (heap: seq<bool>)
      ensures this.heap == heap && allocs == 0 && rowCount == 0 && lines == []
    {
      lines := [];
      rowCount := 0;
      this.heap := heap;
      allocs := 0;
    }

    lemma CleanRowsAreAllocated()
      requires Clean()
      ensures forall r :: 0 <= r < rowCount ==> lines[r].Allocated()
    {
      forall r | 0 <= r < rowCount
        ensures lines[r].Allocated()
      {
        assert lines[..rowCount][r].Clean();
      }
    }

    predicate Granted(t: nat) {
      t < |heap| && heap[t]
    }

    predicate AllGranted(from: nat, to: nat) {
      forall t :: from <= t < to ==> Granted(t)
    }

    /** What `ok` reports of a call that began after `from` allocations: that all of its own were granted. */
    predicate Reports(ok: bool, from: nat)
      reads this`allocs
    {
      from <= allocs && (ok <==> AllGranted(from, allocs))
    }

    lemma GrantedThrough(a: nat, b: nat, c: nat)
      requires a <= b <= c
      ensures AllGranted(a, c) == (AllGranted(a, b) && AllGranted(b, c))
      ensures c == b + 1 ==> AllGranted(b, c) == Granted(b)
    {
    }

    method Malloc() returns (ok: bool)
      modifies this`allocs
      ensures allocs == old(allocs) + 1 && ok == Granted(old(allocs))
    {
      ok := allocs < |heap| && heap[allocs];
      allocs := allocs + 1;
    }

    /** Grows a line's buffer to hold more than `needed` bytes, keeping its text and terminator. */
    method LineEnsureCap(ln: Line, needed: nat) returns (ok: bool, ln': Line)
      requires ln.Shaped()
      modifies this`allocs
      ensures Reports(ok, old(allocs)) && allocs == old(allocs) + if |ln.buf| > needed then 0 else 1
      ensures !ok ==> ln' == ln
      ensures ln'.len == ln.len && (ok ==> |ln'.buf| > needed)
      ensures ok && ln.Allocated() ==> ln'.Allocated() && ln'.Row() == ln.Row() && (ln.Clean() ==> ln'.Clean())
      ensures ok && !ln.Allocated() ==> ln'.Clean()
    {
      if |ln.buf| > needed {
        return true, ln;
      }
      var newCap := if |ln.buf| > 0 then |ln.buf| * 2 else LINE_BUF_INIT_CAP;
      while newCap <= needed
        invariant newCap > 0 && newCap >= |ln.buf| * 2
        decreases needed - newCap
      {
        newCap := newCap * 2;
      }
      var m := Malloc();
      if !m {
        return false, ln;
      }
      var newBuf := seq(newCap, _ => 0);
      if |ln.buf| > 0 {
        newBuf := Patch(newBuf, 0, ln.buf[..ln.len + 1]);
        assert newBuf[..ln.len + 1] == ln.buf[..ln.len + 1];
        assert newBuf[..ln.len] == ln.buf[..ln.len + 1][..ln.len] == ln.buf[..ln.len];
      } else {
        newBuf := newBuf[0 := NUL];
      }
      return true, Line(newBuf, ln.len);
    }

    /** Grows the line array to more than `needed` slots; only the first `rowCount` are carried over. */
    method LinesEnsureCap(needed: nat) returns (ok: bool)
      requires rowCount <= |lines| && rowCount <= needed
      modifies this`allocs, this`lines
      ensures Reports(ok, old(allocs)) && allocs == old(allocs) + if |old(lines)| > needed then 0 else 1
      ensures if ok then |lines| > needed else lines == old(lines)
      ensures ok && old(lines) == [] ==> |lines| >= LINES_INIT_CAP
      ensures rowCount <= |lines| && lines[..rowCount] == old(lines[..rowCount])
    {
      if |lines| > needed {
        return true;
      }
      var newCap := if |lines| > 0 then |lines| * 2 else LINES_INIT_CAP;
      while newCap <= needed
        invariant newCap > 0 && (|lines| == 0 ==> newCap >= LINES_INIT_CAP) && newCap >= 2 * |lines|
        decreases needed - newCap
      {
        newCap := newCap * 2;
      }
      var m := Malloc();
      if !m {
        return false;
      }
      lines := lines[..rowCount] + seq(newCap - rowCount, _ => Line([], 0));
      return true;
    }

    /** Starts over with one empty row. */
    method Init() returns (ok: bool)
      modifies this
      ensures Reports(ok, old(allocs))
      ensures ok ==> Shaped() && Clean() && Doc() == [[]]
    {
      lines, rowCount := [], 0;
      ok := LinesEnsureCap(0);
      if !ok {
        return;
      }
      rowCount := 1;
      var ln;
      ok, ln := LineEnsureCap(Line([], 0), 0);
      lines := lines[0 := ln];
      assert ok ==> lines[..rowCount] == [ln];
    }

    // ----- edits at a position -----

    /** Opens a slot for a new row below `r`: one `memmove` of all rows further down. */
    method OpenSlot(r: nat) returns (ok: bool)
      requires Shaped() && r < rowCount
      modifies this`allocs, this`lines
      ensures Reports(ok, old(allocs))
      ensures if ok then rowCount + 1 < |lines| && SlotOpened(old(lines[..rowCount]), lines[..rowCount + 1], r)
              else lines == old(lines)
    {
      ghost var was := lines[..rowCount];
      ok := LinesEnsureCap(rowCount + 1);
      if ok {
        assert forall i :: 0 <= i < rowCount ==> lines[i] == was[i];
        lines := MemMove(lines, r + 2, r + 1, rowCount - r - 1);
      }
    }

    /**
     Breaks row `r` at column `c`. If the new row's buffer cannot be allocated the rows below have
     already moved down, so an empty row shows below `r` and the last row is no longer counted.
     */
    method BreakRow(r: nat, c: nat) returns (ok: bool)
      requires Shaped() && InDoc(Doc(), r, c) && lines[r].Allocated()
      modifies this
      ensures Reports(ok, old(allocs))
      ensures Shaped() && (old(Clean()) && ok ==> Clean())
      ensures ok ==> Doc() == Splice(old(Doc()), r, c, r, c, [[], []])
      ensures !ok ==> Doc() == old(Doc()) || IsLostRow(old(Doc()), Doc(), r)
    {
      hide RowsOf, Splice, Glue;
      ghost var was := lines[..rowCount];
      ok := OpenSlot(r);
      if !ok {
        return;
      }
      ghost var gap := lines[..rowCount + 1];
      assert lines[r] == gap[r] == was[r];
      var tailLen := lines[r].len - c;
      var newLine;
      ok, newLine := LineEnsureCap(Line([], 0), tailLen);
      if !ok {
        lines := lines[r + 1 := Line([], 0)];
        assert lines[..rowCount] == gap[r + 1 := Line([], 0)][..rowCount];
        LostRow(was, gap, r);
        return;
      }
      var right := Holding(newLine, lines[r].buf[c..c + tailLen]);
      var left := CutAt(lines[r], c);
      lines := lines[r + 1 := right][r := left];
      rowCount := rowCount + 1;
      ghost var out := gap[r + 1 := right][r := left];
      assert lines[..rowCount] == out;
      assert RowSplit(was, out, r, left, right);
      SplitIsShaped(was, out, r, left, right);
      BrokenRow(was, out, r, c, left, right);
    }

    /** Inserts one byte into row `r`. */
    method InsertByte(r: nat, c: nat, ch: Word8) returns (ok: bool)
      requires Shaped() && InDoc(Doc(), r, c) && lines[r].Allocated()
      modifies this`allocs, this`lines
      ensures Reports(ok, old(allocs))
      ensures Shaped() && (old(Clean()) ==> Clean())
      ensures Doc() == if ok then Splice(old(Doc()), r, c, r, c, [[ch]]) else old(Doc())
    {
      ghost var was := lines[..rowCount];
      var ln;
      ok, ln := LineEnsureCap(lines[r], lines[r].len + 2);
      if !ok {
        return;
      }
      var out := WithByte(ln, c, ch);
      lines := lines[r := out];
      assert lines[..rowCount] == was[r := out];
      OneRowChanged(was, r, out);
      SpliceOneRow(RowsOf(was), r, c, c, [ch]);
    }

    /**
     Inserts one character; a newline breaks the row. When an allocation fails a plain character
     changes nothing, but a newline may already have shifted the rows below, and then the last row is lost.
     */
    method InsertAt(r: nat, c: nat, ch: Word8) returns (res: Result)
      requires Shaped() && InDoc(Doc(), r, c) && lines[r].Allocated()
      modifies this
      ensures Shaped() && (res == Ok || res == AllocFailed) && Reports(res == Ok, old(allocs))
      ensures old(Clean()) && res == Ok ==> Clean()
      ensures res == Ok ==> Doc() == Splice(old(Doc()), r, c, r, c, EditorState.Inserted(ch))
      ensures res == AllocFailed ==>
        Doc() == old(Doc()) || (ch == NEWLINE && IsLostRow(old(Doc()), Doc(), r))
    {
      var ok;
      if ch == NEWLINE {
        ok := BreakRow(r, c);
      } else {
        ok := InsertByte(r, c, ch);
      }
      return if ok then Ok else AllocFailed;
    }

    /** Removes part of one row. */
    method DeleteInRow(r: nat, c1: nat, c2: nat)
      requires Shaped() && InDoc(Doc(), r, c1) && InDoc(Doc(), r, c2) && c1 <= c2 && lines[r].Allocated()
      modifies this`lines
      ensures Shaped() && (old(Clean()) ==> Clean())
      ensures Doc() == Splice(old(Doc()), r, c1, r, c2, [[]])
    {
      ghost var was := lines[..rowCount];
      var out := Without(lines[r], c1, c2);
      lines := lines[r := out];
      assert lines[..rowCount] == was[r := out];
      OneRowChanged(was, r, out);
      SpliceOneRow(RowsOf(was), r, c1, c2, []);
      assert RowsOf(was)[r][..c1] + [] == RowsOf(was)[r][..c1];
    }

    /**
     Joins what row `r1` has before `c1` with what row `r2` has from `c2` on, and drops the rows
     between. Backspace at the start of a row and a selection over several rows both do this.
     */
    method JoinRows(r1: nat, c1: nat, r2: nat, c2: nat) returns (ok: bool)
      requires Shaped() && InDoc(Doc(), r1, c1) && InDoc(Doc(), r2, c2) && r1 < r2
      requires lines[r1].Allocated() && lines[r2].Allocated()
      modifies this
      ensures Reports(ok, old(allocs))
      ensures Shaped() && (old(Clean()) ==> Clean())
      ensures Doc() == if ok then Splice(old(Doc()), r1, c1, r2, c2, [[]]) else old(Doc())
    {
      ghost var was := lines[..rowCount];
      var tailLen := lines[r2].len - c2;
      var ln;
      ok, ln := LineEnsureCap(lines[r1], c1 + tailLen + 1);
      if !ok {
        return;
      }
      var joined := WithTail(ln, c1, lines[r2], c2);
      lines := lines[r1 := joined];
      DropRows(r1, r2);
      assert Collapsed(was, lines[..rowCount], r1, r2, joined);
      CollapsedIsShaped(was, lines[..rowCount], r1, r2, joined);
      CollapsedRows(was, lines[..rowCount], r1, c1, r2, c2, joined);
      if old(Clean()) {
        CollapsedIsClean(was, lines[..rowCount], r1, r2, joined);
      }
    }

    /** Drops the rows after `r1` up to `r2`: one `memmove`, and the slots left over are zeroed. */
    method DropRows(r1: nat, r2: nat)
      requires r1 < r2 < rowCount < |lines|
      modifies this`rowCount, this`lines
      ensures rowCount < |lines| && Collapsed(old(lines[..rowCount]), lines[..rowCount], r1, r2, old(lines[r1]))
    {
      ghost var was := lines[..rowCount];
      var removed := r2 - r1;
      lines := MemMove(lines, r1 + 1, r2 + 1, rowCount - r2 - 1);
      lines := lines[..rowCount - removed] + seq(removed, _ => Line([], 0)) + lines[rowCount..];
      rowCount := rowCount - removed;
    }

    /** Removes the text between two positions. */
    method DeleteRange(r1: nat, c1: nat, r2: nat, c2: nat) returns (res: Result)
      requires Shaped() && InDoc(Doc(), r1, c1) && InDoc(Doc(), r2, c2) && NotAfter(r1, c1, r2, c2)
      requires lines[r1].Allocated() && lines[r2].Allocated()
      modifies this
      ensures Shaped() && (old(Clean()) ==> Clean())
      ensures (res == Ok || res == AllocFailed) && Reports(res == Ok, old(allocs)) && (r1 == r2 ==> res == Ok)
      ensures Doc() == if res == Ok then Splice(old(Doc()), r1, c1, r2, c2, [[]]) else old(Doc())
    {
      if r1 == r2 {
        DeleteInRow(r1, c1, c2);
        return Ok;
      }
      var ok := JoinRows(r1, c1, r2, c2);
      return if ok then Ok else AllocFailed;
    }

    /** Backspace at (r, c). */
    method DeleteBackAt(r: nat, c: nat) returns (res: Result)
      requires Shaped() && InDoc(Doc(), r, c) && lines[r].Allocated() && (c == 0 && r > 0 ==> lines[r - 1].Allocated())
      modifies this
      ensures Shaped() && (old(Clean()) ==> Clean())
      ensures (res == Ok || res == AllocFailed) && Reports(res == Ok, old(allocs)) && (c > 0 || r == 0 ==> res == Ok)
      ensures Doc() == if res == Ok then EditorState.DeleteBack(old(Doc()), r, c) else old(Doc())
    {
      hide Splice, Glue, AllShaped, AllClean;
      if c > 0 {
        DeleteInRow(r, c - 1, c);
      } else if r > 0 {
        var ok := JoinRows(r - 1, lines[r - 1].len, r, 0);
        return if ok then Ok else AllocFailed;
      }
      return Ok;
    }

    // ----- paste and copy -----

    /**
     Pastes a C string at (r, c): cuts the row, writes the string segment by segment, opening a row at
     each newline, and puts the tail back. `p` walks the string up to its terminator.
     */
    method PasteAt(r: nat, c: nat, clip: seq<Word8>) returns (res: Result, destRow: nat, destCol: nat)
      requires Shaped() && Clean() && InDoc(Doc(), r, c)
      modifies this
      ensures Shaped() && (res == Ok || res == AllocFailed) && Reports(res == Ok, old(allocs))
      ensures res == Ok ==>
        var ins := Rows(EditorState.UpToNul(clip));
        Clean() && Doc() == Splice(old(Doc()), r, c, r, c, ins) &&
        destRow == EndRow(r, ins) && destCol == EndCol(c, ins)
    {
      hide Splice, Glue, Rows, RowsOf, AllShaped, AllClean, AllGranted;
      ghost var rows, t, from := Doc(), EditorState.UpToNul(clip), allocs;
      CleanRowsAreAllocated();
      destRow, destCol := r, c;
      var m := Malloc();
      ghost var made := allocs;
      GrantedThrough(from, from, made);
      if !m {
        return AllocFailed, destRow, destCol;
      }
      var tail := lines[r].Row()[c..];
      SetRow(r, CutAt(lines[r], c));
      UpToNulPrefix(clip);
      PasteStarts(rows, r, c, t);
      var ok;
      ok, destRow, destCol := WriteString(r, c, clip, rows, t);
      GrantedThrough(from, made, allocs);
      ghost var written := allocs;
      if !ok {
        return AllocFailed, destRow, destCol;
      }
      PasteFinishes(rows, r, c, t, Doc(), destRow, destCol);
      ok := AppendToRow(destRow, tail);
      GrantedThrough(from, written, allocs);
      return if ok then Ok else AllocFailed, destRow, destCol;
    }

    /** The loop of a paste, over a row already cut at the cursor. */
    method WriteString(r: nat, c: nat, clip: seq<Word8>, ghost rows: seq<Row>, ghost t: seq<Word8>)
        returns (ok: bool, destRow: nat, destCol: nat)
      requires Shaped() && Clean() && InDoc(rows, r, c) && IsCString(clip, t)
      requires PasteUnderway(rows, r, c, t, 0, Doc(), r, c)
      modifies this
      ensures Shaped() && Reports(ok, old(allocs))
      ensures ok ==> Clean() && PasteUnderway(rows, r, c, t, |t|, Doc(), destRow, destCol)
    {
      destRow, destCol := r, c;
      var p := 0;
      while p < |clip| && clip[p] != NUL
        invariant p <= |t| && Shaped() && Clean() && Reports(true, old(allocs))
        invariant PasteUnderway(rows, r, c, t, p, Doc(), destRow, destCol)
        decreases |clip| - p
      {
        if clip[p] == NEWLINE {
          PasteNewlineStep(rows, r, c, t, p, Doc(), destRow, destCol);
          ok := AppendRow(destRow);
          if !ok {
            return;
          }
          destRow, destCol := destRow + 1, 0;
          p := p + 1;
        } else {
          var end := SegmentEnd(clip, p, t);
          PasteSegmentStep(rows, r, c, t, p, end, Doc(), destRow, destCol);
          ok := AppendToRow(destRow, clip[p..end]);
          if !ok {
            return;
          }
          destCol := destCol + (end - p);
          p := end;
        }
      }
      ok := true;
    }

    /** The end of the segment at `p`: the next newline, or the end of the string. */
    method SegmentEnd(clip: seq<Word8>, p: nat, ghost t: seq<Word8>) returns (end: nat)
      requires p < |t| && IsCString(clip, t) && clip[p] != NEWLINE
      ensures p < end <= |t| && NEWLINE !in t[p..end] && clip[p..end] == t[p..end]
    {
      end := p;
      while end < |clip| && clip[end] != NUL && clip[end] != NEWLINE
        invariant p <= end <= |t| && NEWLINE !in t[p..end]
      {
        assert t[p..end + 1] == t[p..end] + [t[end]];
        end := end + 1;
      }
      SliceOfPrefix(clip, |t|, p, end);
    }

    method SetRow(r: nat, ln: Line)
      requires Shaped() && Clean() && r < rowCount && ln.Clean()
      modifies this`lines
      ensures Shaped() && Clean() && Doc() == old(Doc())[r := ln.Row()]
      ensures lines[r] == ln
    {
      ghost var was := lines[..rowCount];
      lines := lines[r := ln];
      assert lines[..rowCount] == was[r := ln];
      OneRowChanged(was, r, ln);
    }

    /** Adds an empty row below `r`. */
    method AppendRow(r: nat) returns (ok: bool)
      requires Shaped() && Clean() && r < rowCount
      modifies this
      ensures Shaped() && Reports(ok, old(allocs))
      ensures ok ==> Clean() && Doc() == old(Doc())[..r + 1] + [[]] + old(Doc())[r + 1..]
    {
      ghost var was := lines[..rowCount];
      ok := OpenSlot(r);
      if !ok {
        return;
      }
      ghost var gap := lines[..rowCount + 1];
      var ln;
      ok, ln := LineEnsureCap(Line([], 0), 0);
      lines := lines[r + 1 := ln];
      if !ok {
        assert lines[..rowCount] == gap[r + 1 := Line([], 0)][..rowCount];
        LostRow(was, gap, r);
        return;
      }
      rowCount := rowCount + 1;
      assert lines[..rowCount] == gap[r + 1 := ln];
      SlotFilled(was, gap, r, ln);
    }

    /** Writes `t` after the text of row `r`. */
    method AppendToRow(r: nat, t: seq<Word8>) returns (ok: bool)
      requires Shaped() && Clean() && r < rowCount
      modifies this`allocs, this`lines
      ensures Shaped() && Clean() && Reports(ok, old(allocs))
      ensures Doc() == if ok then old(Doc())[r := old(Doc())[r] + t] else old(Doc())
    {
      var ln;
      ok, ln := LineEnsureCap(lines[r], lines[r].len + |t| + 1);
      if !ok {
        return;
      }
      SetRow(r, Extended(ln, t));
    }

    /**
     Copies the text between two positions into a string of exactly the size measured beforehand.
     `None` when the string cannot be allocated.
     */
    method CopyRange(r1: nat, c1: nat, r2: nat, c2: nat) returns (clip: Option<seq<Word8>>)
      requires Shaped() && InDoc(Doc(), r1, c1) && InDoc(Doc(), r2, c2) && NotAfter(r1, c1, r2, c2)
      modifies this`allocs
      ensures allocs == old(allocs) + 1 && clip.Some? == Granted(old(allocs))
      ensures clip.Some? ==> clip.value == Text(Between(Doc(), r1, c1, r2, c2))
    {
      var size := MeasureRange(r1, c1, r2, c2);
      var m := Malloc();
      if !m {
        return None;
      }
      var text := FillRange(r1, c1, r2, c2, size);
      return Some(text);
    }

    /** The number of bytes the copied string needs, terminator included. */
    method MeasureRange(r1: nat, c1: nat, r2: nat, c2: nat) returns (size: nat)
      requires Shaped() && InDoc(Doc(), r1, c1) && InDoc(Doc(), r2, c2) && NotAfter(r1, c1, r2, c2)
      ensures size == |Text(Between(Doc(), r1, c1, r2, c2))| + 1
    {
      hide Between, RowsOf, Text;
      ghost var b := Between(Doc(), r1, c1, r2, c2);
      size := 0;
      for r := r1 to r2 + 1
        invariant size == |Joined(b, r - r1)|
      {
        var colStart := if r == r1 then c1 else 0;
        var colEnd := if r == r2 then c2 else lines[r].len;
        BetweenRow(Doc(), r1, c1, r2, c2, r);
        JoinedNext(b, r - r1);
        size := size + (colEnd - colStart) + if r < r2 then 1 else 0;
      }
      size := size + 1;
    }

    /** Fills a buffer of the measured size; every write stays inside it. */
    method FillRange(r1: nat, c1: nat, r2: nat, c2: nat, size: nat) returns (text: seq<Word8>)
      requires Shaped() && InDoc(Doc(), r1, c1) && InDoc(Doc(), r2, c2) && NotAfter(r1, c1, r2, c2)
      requires size == |Text(Between(Doc(), r1, c1, r2, c2))| + 1
      ensures text == Text(Between(Doc(), r1, c1, r2, c2))
    {
      hide Between, RowsOf, Text, Written;
      ghost var b := Between(Doc(), r1, c1, r2, c2);
      var clipboard: seq<Word8> := seq(size, _ => 0);
      var idx := 0;
      for r := r1 to r2 + 1
        invariant |clipboard| == size
        invariant idx == |Joined(b, r - r1)| <= |Text(b)| && clipboard[..idx] == Joined(b, r - r1)
      {
        var colStart := if r == r1 then c1 else 0;
        var colEnd := if r == r2 then c2 else lines[r].len;
        BetweenRow(Doc(), r1, c1, r2, c2, r);
        JoinedNext(b, r - r1);
        JoinedIsPrefix(b, r - r1 + 1);
        var piece := lines[r].Row()[colStart..colEnd] + if r < r2 then [NEWLINE] else [];
        Assoc(Joined(b, r - r1), b[r - r1], if r < r2 then [NEWLINE] else []);
        clipboard, idx := Written(clipboard, idx, piece), idx + |piece|;
      }
      clipboard := clipboard[idx := NUL];
      text := clipboard[..idx];
    }

    // ----- loading a file -----

    /** While a file is loading, the last row is a fresh empty one; all others are complete. */
    ghost predicate Loading()
      reads this
    {
      rowCount < |lines| && LoadingLines(lines[..rowCount])
    }

    lemma OneEmptyRowIsLoading()
      requires Shaped() && Clean() && Doc() == [[]]
      ensures Loading()
    {
      var ls := lines[..rowCount];
      assert ls[..|ls| - 1] == [] && ls[0].Row() == [];
    }

    /** Stores `len` bytes in the last row and opens a new one. One byte past the text is copied as its terminator. */
    method LoadLine(text: seq<Word8>, len: nat) returns (res: Result)
      requires Shaped() && rowCount >= 1 && len < |text|
      modifies this
      ensures (res == Ok || res == AllocFailed) && Reports(res == Ok, old(allocs)) && Shaped() && rowCount >= 1
      ensures res == Ok ==> Doc() == old(Doc())[..|old(Doc())| - 1] + [text[..len], []]
      ensures old(Loading()) && res == Ok && text[len] == NUL ==> Loading()
      ensures res == Ok ==> CleanRows() == old(CleanRows())[..|old(CleanRows())| - 1] + [text[len] == NUL, false]
    {
      hide RowsOf, Patch;
      ghost var was := lines[..rowCount];
      var ok, ln := LineEnsureCap(lines[rowCount - 1], len);
      if !ok {
        return AllocFailed;
      }
      var out := Line(Patch(ln.buf, 0, text[..len + 1]), len);
      PatchedPrefix(ln.buf, text[..len + 1]);
      assert out.Row() == text[..len + 1][..len] == text[..len] && out.buf[len] == text[..len + 1][len];
      lines := lines[rowCount - 1 := out];
      ok := OpenLastRow(was, out);
      if !ok {
        return AllocFailed;
      }
      LastRowStored(was, out);
      LastFlags(was, out);
      return Ok;
    }

    /** Opens a row without a buffer at the end. */
    method OpenLastRow(ghost was: seq<Line>, ghost out: Line) returns (ok: bool)
      requires |was| == rowCount < |lines| && rowCount >= 1 && lines[..rowCount] == was[rowCount - 1 := out]
      modifies this
      ensures Reports(ok, old(allocs))
      ensures !ok ==> lines == old(lines) && rowCount == old(rowCount)
      ensures ok ==> rowCount == |was| + 1 < |lines| && lines[..rowCount] == was[..|was| - 1] + [out, Line([], 0)]
    {
      ok := LinesEnsureCap(rowCount + 1);
      if ok {
        ghost var filled := was[rowCount - 1 := out];
        assert filled == was[..|was| - 1] + [out];
        assert lines[..rowCount] == filled;
        lines := lines[rowCount := Line([], 0)];
        rowCount := rowCount + 1;
        assert lines[..rowCount - 1] == filled;
        assert lines[..rowCount] == filled + [Line([], 0)];
      }
    }

    /** Drops the empty row the last `LoadLine` opened. */
    method LoadFinalize()
      requires Shaped() && rowCount >= 1
      modifies this`rowCount
      ensures Shaped() && (old(Loading() && (rowCount == 1 ==> Clean())) ==> Clean())
      ensures Doc() == EditorState.FinalizeLoad(old(Doc()))
      ensures CleanRows() == old(CleanRows())[..|Doc()|]
    {
      if rowCount > 1 && lines[rowCount - 1].len == 0 {
        ghost var was := lines[..rowCount];
        rowCount := rowCount - 1;
        assert lines[..rowCount] == was[0..rowCount];
        RowsOfSlice(was, 0, rowCount);
      }
    }

    // ----- block replacement on behalf of the peer -----

    /** Removes up to `deleted` rows at `start` and opens `inserted` rows without buffers there. */
    method ReplaceBlock(start: nat, deleted: nat, inserted: nat) returns (res: Result, gone: nat)
      requires Shaped() && start <= rowCount
      modifies this
      ensures Shaped() && (res == Ok || res == AllocFailed) && Reports(res == Ok, old(allocs))
      ensures gone == EditorState.Gone(|old(Doc())|, start, deleted)
      ensures inserted <= gone ==> res == Ok
      ensures CleanRows() ==
        if res == Ok then EditorState.FlagsAfterBlock(old(CleanRows()), start, deleted, inserted) else old(CleanRows())
      ensures Doc() ==
        if res == Ok then EditorState.RowsAfterBlock(old(Doc()), start, deleted, inserted) else old(Doc())
    {
      hide RowsOf, AllShaped, Flags, EditorState.RowsAfterBlock, EditorState.FlagsAfterBlock;
      gone := EditorState.Gone(rowCount, start, deleted);
      var shift := inserted - gone;
      if shift > 0 {
        ghost var was := lines[..rowCount];
        var ok := LinesEnsureCap(rowCount + shift);
        assert lines[..rowCount] == was;
        if !ok {
          return AllocFailed, gone;
        }
      }
      OpenBlock(start, deleted, gone, inserted);
      return Ok, gone;
    }

    /** The `memmove` of a block replacement, and the rows it opens. */
    method OpenBlock(start: nat, ghost deleted: nat, gone: nat, inserted: nat)
      requires Shaped() && start <= rowCount && gone == EditorState.Gone(rowCount, start, deleted)
      requires rowCount - gone + inserted < |lines|
      modifies this`lines, this`rowCount
      ensures Shaped()
      ensures Doc() == EditorState.RowsAfterBlock(old(Doc()), start, deleted, inserted)
      ensures CleanRows() == EditorState.FlagsAfterBlock(old(CleanRows()), start, deleted, inserted)
    {
      hide RowsOf, AllShaped, Flags, BlockMoved, EditorState.RowsAfterBlock, EditorState.FlagsAfterBlock;
      BlockReplaced(lines, rowCount, start, gone, inserted);
      RowsOfBlock(lines[..rowCount], start, deleted, inserted);
      lines := BlockMoved(lines, rowCount, start, gone, inserted);
      rowCount := rowCount + inserted - gone;
    }

    /** Overwrites row `r`. */
    method UpdateLine(r: nat, text: seq<Word8>) returns (res: Result)
      requires Shaped() && r < rowCount
      modifies this`allocs, this`lines
      ensures Shaped() && (res == Ok || res == AllocFailed) && Reports(res == Ok, old(allocs))
      ensures Doc() == if res == Ok then old(Doc())[r := text] else old(Doc())
      ensures rowCount < |lines| == |old(lines)|
      ensures res == Ok ==> lines[r].Clean() && lines == old(lines)[r := lines[r]]
      ensures CleanRows() == if res == Ok then old(CleanRows())[r := true] else old(CleanRows())
    {
      ghost var was := lines[..rowCount];
      var ok, ln := LineEnsureCap(lines[r], |text|);
      if !ok {
        return AllocFailed;
      }
      var out := Holding(ln, text);
      lines := lines[r := out];
      assert lines[..rowCount] == was[r := out];
      OneRowChanged(was, r, out);
      return Ok;
    }
  }

  // ----- the string a copy builds -----

  /** The first `k` of the rows `b`, each but the last of all followed by a newline. */
  ghost function Joined(b: seq<Row>, k: nat): seq<Word8>
    requires k <= |b|
  {
    if k == 0 then [] else if k < |b| then Text(b[..k]) + [NEWLINE] else Text(b)
  }

  lemma JoinedNext(b: seq<Row>, k: nat)
    requires k < |b|
    ensures Joined(b, k + 1) == Joined(b, k) + b[k] + if k + 1 < |b| then [NEWLINE] else []
  {
    if k > 0 {
      assert b[..k + 1] == b[..k] + [b[k]];
      TextSnoc(b[..k], b[k]);
    } else {
      assert b[..1] == [b[0]];
    }
    assert b[..|b|] == b;
  }

  lemma {:induction false} JoinedIsPrefix(b: seq<Row>, k: nat)
    requires 1 <= k <= |b|
    ensures |Joined(b, k)| <= |Text(b)|
    decreases |b| - k
  {
    if k < |b| {
      JoinedNext(b, k);
      JoinedIsPrefix(b, k + 1);
    }
  }

  lemma BetweenRow(rows: seq<Row>, r1: nat, c1: nat, r2: nat, c2: nat, r: nat)
    requires InDoc(rows, r1, c1) && InDoc(rows, r2, c2) && NotAfter(r1, c1, r2, c2) && r1 <= r <= r2
    ensures var from, to := if r == r1 then c1 else 0, if r == r2 then c2 else |rows[r]|;
      from <= to && Between(rows, r1, c1, r2, c2)[r - r1] == rows[r][from..to]
  {
  }

  /** The last row filled, and a new one without a buffer below it. */
  lemma LastRowStored(was: seq<Line>, out: Line)
    requires |was| >= 1 && AllShaped(was) && out.Allocated()
    ensures var now := was[..|was| - 1] + [out, Line([], 0)];
      AllShaped(now) && RowsOf(now) == RowsOf(was)[..|was| - 1] + [out.Row(), []] &&
      (AllClean(was[..|was| - 1]) && out.Clean() ==> LoadingLines(now))
  {
    var now := was[..|was| - 1] + [out, Line([], 0)];
    var x := RowsOf(was)[..|was| - 1] + [out.Row(), []];
    forall i | 0 <= i < |now|
      ensures now[i].Shaped() && now[i].Row() == x[i]
    {
      if i < |was| - 1 {
        assert now[i] == was[i];
      }
    }
    assert RowsOf(now) == x;
    assert now[..|now| - 1] == was[..|was| - 1] + [out];
  }

  lemma LastFlags(was: seq<Line>, out: Line)
    requires |was| >= 1 && out.Allocated()
    ensures Flags(was[..|was| - 1] + [out, Line([], 0)]) == Flags(was)[..|was| - 1] + [out.buf[out.len] == NUL, false]
  {
  }

  /** Lines without buffers. */
  function NoLines(n: nat): (ls: seq<Line>)
    ensures |ls| == n && forall i :: 0 <= i < n ==> ls[i] == Line([], 0)
  {
    seq(n, _ => Line([], 0))
  }

  lemma NoLinesAreBlank(n: nat)
    ensures AllShaped(NoLines(n)) && RowsOf(NoLines(n)) == EditorState.Blank(n)
  {
  }

  /** The rows and the buffers of a replaced block. */
  lemma RowsOfBlock(was: seq<Line>, start: nat, deleted: nat, inserted: nat)
    requires AllShaped(was) && start <= |was|
    ensures var out := was[..start] + NoLines(inserted) + was[start + EditorState.Gone(|was|, start, deleted)..];
      AllShaped(out) &&
      RowsOf(out) == EditorState.RowsAfterBlock(RowsOf(was), start, deleted, inserted) &&
      Flags(out) == EditorState.FlagsAfterBlock(Flags(was), start, deleted, inserted)
  {
    hide RowsOf, Flags, AllShaped;
    var end := start + EditorState.Gone(|was|, start, deleted);
    NoLinesAreBlank(inserted);
    RowsOfReplaced(was, start, end, NoLines(inserted));
    FlagsReplaced(was, start, end, inserted);
  }

  /** The array once the rows below a block moved and the block's rows were opened. */
  function BlockMoved(ls: seq<Line>, n: nat, start: nat, gone: nat, inserted: nat): seq<Line>
    requires start + gone <= n <= |ls| && n - gone + inserted <= |ls|
  {
    var moved := MemMove(ls, start + inserted, start + gone, n - (start + gone));
    moved[..start] + NoLines(inserted) + moved[start + inserted..]
  }

  lemma BlockReplaced(ls: seq<Line>, n: nat, start: nat, gone: nat, inserted: nat)
    requires start + gone <= n <= |ls| && n - gone + inserted <= |ls|
    ensures var out := BlockMoved(ls, n, start, gone, inserted);
      |out| == |ls| &&
      out[..n - gone + inserted] == ls[..n][..start] + NoLines(inserted) + ls[..n][start + gone..]
  {
    var out, x := BlockMoved(ls, n, start, gone, inserted),
      ls[..n][..start] + NoLines(inserted) + ls[..n][start + gone..];
    assert |x| == n - gone + inserted;
    forall i | 0 <= i < |x|
      ensures out[i] == x[i]
    {
      if i >= start + inserted {
        assert out[i] == ls[i - inserted + gone];
        assert x[i] == ls[..n][i - inserted + gone];
      } else if i < start {
        assert out[i] == ls[i];
      }
    }
    assert out[..|x|] == x;
  }

  lemma SlotFilled(was: seq<Line>, now: seq<Line>, r: nat, ln: Line)
    requires AllShaped(was) && AllClean(was) && SlotOpened(was, now, r) && ln.Clean() && ln.len == 0
    ensures var out := now[r + 1 := ln];
      AllShaped(out) && AllClean(out) && RowsOf(out) == RowsOf(was)[..r + 1] + [[]] + RowsOf(was)[r + 1..]
  {
    var out, rows := now[r + 1 := ln], RowsOf(was);
    var x := rows[..r + 1] + [[]] + rows[r + 1..];
    forall i | 0 <= i < |out|
      ensures out[i].Clean() && out[i].Row() == x[i]
    {
      if i > r + 1 {
        assert out[i] == was[i - 1] && x[i] == rows[i - 1];
      }
    }
    assert RowsOf(out) == x;
  }

  // ----- the document in the middle of a paste -----

  /** `t` is the part of `clip` before its terminator. */
  ghost predicate IsCString(clip: seq<Word8>, t: seq<Word8>) {
    |t| <= |clip| && t == clip[..|t|] && NUL !in t && (|t| < |clip| ==> clip[|t|] == NUL)
  }

  lemma {:induction false} UpToNulPrefix(clip: seq<Word8>)
    ensures IsCString(clip, EditorState.UpToNul(clip))
  {
    if clip != [] && clip[0] != NUL {
      UpToNulPrefix(clip[1..]);
    }
  }

  /** Row `r` cut to `head`, with the rows of `done` written after it. */
  ghost function Pasting(rows: seq<Row>, r: nat, head: Row, done: seq<Word8>): (out: seq<Row>)
    requires r < |rows|
    ensures |out| == |rows| + |Rows(done)| - 1
  {
    rows[..r] + Glue([head], Rows(done)) + rows[r + 1..]
  }

  /** Where the next byte goes. */
  lemma PastingEnd(rows: seq<Row>, r: nat, head: Row, done: seq<Word8>)
    requires r < |rows|
    ensures EndRow(r, Rows(done)) < |Pasting(rows, r, head, done)|
    ensures |Pasting(rows, r, head, done)[EndRow(r, Rows(done))]| == EndCol(|head|, Rows(done))
  {
    hide Rows;
    var ins := Rows(done);
    var glued := Glue([head], ins);
    hide Glue;
    assert Pasting(rows, r, head, done)[EndRow(r, ins)] == glued[|ins| - 1];
    assert |ins| > 1 ==> glued[|ins| - 1] == ins[|ins| - 1];
  }

  lemma PastingStart(rows: seq<Row>, r: nat, head: Row)
    requires r < |rows|
    ensures Pasting(rows, r, head, []) == rows[r := head]
  {
    assert Rows([]) == [[]] && head + [] == head;
  }

  lemma RowsNewline(done: seq<Word8>)
    ensures Rows(done + [NEWLINE]) == Rows(done) + [[]]
  {
    RowsOfConcat(done, [NEWLINE]);
    assert [NEWLINE][1..] == [];
    assert Rows([NEWLINE]) == [[]] + Rows([]);
    GlueNewline(Rows(done));
  }

  lemma PastingNewline(rows: seq<Row>, r: nat, head: Row, done: seq<Word8>)
    requires r < |rows|
    ensures var out, d := Pasting(rows, r, head, done), EndRow(r, Rows(done));
      d < |out| && out[..d + 1] + [[]] + out[d + 1..] == Pasting(rows, r, head, done + [NEWLINE])
    ensures Rows(done + [NEWLINE]) == Rows(done) + [[]]
  {
    RowsNewline(done);
    var g := Glue([head], Rows(done));
    PastingGrows(rows, r, g, [[]]);
    GlueMore(head, Rows(done));
  }

  lemma GlueMore(head: Row, a: seq<Row>)
    requires |a| >= 1
    ensures Glue([head], a + [[]]) == Glue([head], a) + [[]]
  {
  }

  lemma GlueNewline(a: seq<Row>)
    requires |a| >= 1
    ensures Glue(a, [[], []]) == a + [[]]
  {
    assert a[|a| - 1] + [] == a[|a| - 1];
  }

  lemma PastingGrows(rows: seq<Row>, r: nat, mid: seq<Row>, more: seq<Row>)
    requires r < |rows| && |mid| >= 1
    ensures var out, d := rows[..r] + mid + rows[r + 1..], r + |mid| - 1;
      out[..d + 1] + more + out[d + 1..] == rows[..r] + (mid + more) + rows[r + 1..]
  {
    var out, d := rows[..r] + mid + rows[r + 1..], r + |mid| - 1;
    assert out[..d + 1] == rows[..r] + mid && out[d + 1..] == rows[r + 1..];
  }

  lemma PastingSegment(rows: seq<Row>, r: nat, head: Row, done: seq<Word8>, t: seq<Word8>)
    requires r < |rows| && NEWLINE !in t
    ensures var out, d := Pasting(rows, r, head, done), EndRow(r, Rows(done));
      d < |out| && out[d := out[d] + t] == Pasting(rows, r, head, done + t)
    ensures Rows(done + t) == Rows(done)[|Rows(done)| - 1 := Rows(done)[|Rows(done)| - 1] + t]
  {
    RowsOfConcat(done, t);
    RowsOfSegment(t);
    GlueSegment(Rows(done), t);
    var g := Glue([head], Rows(done));
    GlueSegment(g, t);
    GlueAssoc([head], Rows(done), [t]);
    LastOfMiddle(rows[..r], g, rows[r + 1..], g[|g| - 1] + t);
  }

  lemma GlueSegment(a: seq<Row>, t: Row)
    requires |a| >= 1
    ensures Glue(a, [t]) == a[|a| - 1 := a[|a| - 1] + t]
  {
  }

  lemma LastOfMiddle(a: seq<Row>, mid: seq<Row>, b: seq<Row>, x: Row)
    requires |mid| >= 1
    ensures (a + mid + b)[|a| + |mid| - 1] == mid[|mid| - 1]
    ensures (a + mid + b)[|a| + |mid| - 1 := x] == a + mid[|mid| - 1 := x] + b
  {
  }

  /** The first `p` bytes are pasted, and the next one goes to (destRow, destCol). */
  ghost predicate PasteUnderway(
      rows: seq<Row>, r: nat, c: nat, t: seq<Word8>, p: nat, doc: seq<Row>, destRow: nat, destCol: nat)
    requires InDoc(rows, r, c) && p <= |t|
  {
    doc == Pasting(rows, r, rows[r][..c], t[..p]) &&
    destRow == EndRow(r, Rows(t[..p])) && destCol == EndCol(c, Rows(t[..p]))
  }

  lemma PasteStarts(rows: seq<Row>, r: nat, c: nat, t: seq<Word8>)
    requires InDoc(rows, r, c)
    ensures PasteUnderway(rows, r, c, t, 0, rows[r := rows[r][..c]], r, c)
  {
    assert t[..0] == [] && Rows([]) == [[]];
    PastingStart(rows, r, rows[r][..c]);
  }

  lemma PasteNewlineStep(
      rows: seq<Row>, r: nat, c: nat, t: seq<Word8>, p: nat, doc: seq<Row>, destRow: nat, destCol: nat)
    requires InDoc(rows, r, c) && p < |t| && t[p] == NEWLINE
    requires PasteUnderway(rows, r, c, t, p, doc, destRow, destCol)
    ensures destRow < |doc|
    ensures PasteUnderway(rows, r, c, t, p + 1, doc[..destRow + 1] + [[]] + doc[destRow + 1..], destRow + 1, 0)
  {
    assert t[..p] + [NEWLINE] == t[..p + 1];
    PastingNewline(rows, r, rows[r][..c], t[..p]);
  }

  lemma PasteSegmentStep(
      rows: seq<Row>, r: nat, c: nat, t: seq<Word8>, p: nat, end: nat, doc: seq<Row>, destRow: nat, destCol: nat)
    requires InDoc(rows, r, c) && p <= end <= |t| && NEWLINE !in t[p..end]
    requires PasteUnderway(rows, r, c, t, p, doc, destRow, destCol)
    ensures destRow < |doc| && |doc[destRow]| == destCol
    ensures PasteUnderway(rows, r, c, t, end, doc[destRow := doc[destRow] + t[p..end]], destRow, destCol + (end - p))
  {
    assert t[..p] + t[p..end] == t[..end];
    PastingEnd(rows, r, rows[r][..c], t[..p]);
    PastingSegment(rows, r, rows[r][..c], t[..p], t[p..end]);
  }

  lemma PasteFinishes(
      rows: seq<Row>, r: nat, c: nat, t: seq<Word8>, doc: seq<Row>, destRow: nat, destCol: nat)
    requires InDoc(rows, r, c) && PasteUnderway(rows, r, c, t, |t|, doc, destRow, destCol)
    ensures destRow < |doc| && doc[destRow := doc[destRow] + rows[r][c..]] == Splice(rows, r, c, r, c, Rows(t))
    ensures destRow == EndRow(r, Rows(t)) && destCol == EndCol(c, Rows(t))
  {
    assert t[..|t|] == t;
    PastingDone(rows, r, c, t);
  }

  lemma PastingDone(rows: seq<Row>, r: nat, c: nat, t: seq<Word8>)
    requires InDoc(rows, r, c)
    ensures var out, d := Pasting(rows, r, rows[r][..c], t), EndRow(r, Rows(t));
      d < |out| && out[d := out[d] + rows[r][c..]] == Splice(rows, r, c, r, c, Rows(t))
  {
    var g := Glue([rows[r][..c]], Rows(t));
    SpliceInserts(rows, r, c, Rows(t));
    GlueSegment(g, rows[r][c..]);
    LastOfMiddle(rows[..r], g, rows[r + 1..], g[|g| - 1] + rows[r][c..]);
  }

  lemma OneRowChanged(was: seq<Line>, r: nat, out: Line)
    requires AllShaped(was) && r < |was| && out.Allocated()
    ensures AllShaped(was[r := out]) && RowsOf(was[r := out]) == RowsOf(was)[r := out.Row()]
    ensures AllClean(was) && out.Clean() ==> AllClean(was[r := out])
  {
  }

  /** `now` is `was` with rows `r1` to `r2` replaced by `joined`. */
  ghost predicate Collapsed(was: seq<Line>, now: seq<Line>, r1: nat, r2: nat, joined: Line) {
    r1 < r2 < |was| && |now| == |was| - (r2 - r1) && now[r1] == joined &&
    (forall i :: 0 <= i < r1 ==> now[i] == was[i]) &&
    (forall i :: r1 < i < |now| ==> now[i] == was[i + (r2 - r1)])
  }

  lemma CollapsedIsClean(was: seq<Line>, now: seq<Line>, r1: nat, r2: nat, joined: Line)
    requires Collapsed(was, now, r1, r2, joined) && AllClean(was) && joined.Clean()
    ensures AllClean(now)
  {
  }

  lemma CollapsedIsShaped(was: seq<Line>, now: seq<Line>, r1: nat, r2: nat, joined: Line)
    requires Collapsed(was, now, r1, r2, joined) && AllShaped(was) && joined.Shaped()
    ensures AllShaped(now)
  {
  }

  lemma CollapsedRows(was: seq<Line>, now: seq<Line>, r1: nat, c1: nat, r2: nat, c2: nat, joined: Line)
    requires AllShaped(was) && AllShaped(now) && InDoc(RowsOf(was), r1, c1) && InDoc(RowsOf(was), r2, c2)
    requires Collapsed(was, now, r1, r2, joined)
    requires joined.Row() == was[r1].Row()[..c1] + was[r2].Row()[c2..]
    ensures RowsOf(now) == Splice(RowsOf(was), r1, c1, r2, c2, [[]])
  {
    JoinedRowByRow(RowsOf(was), RowsOf(now), r1, c1, r2, c2);
  }
}
