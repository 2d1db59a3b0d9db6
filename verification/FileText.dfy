/** Saving a document to a file and opening it again. */
module FileText {
  import opened Machine
  import opened TextDoc
  import opened TextStore
  import opened Editor
  import S = EditorState

  const FILE_READ_BUF := 4096
  /** The longest row one read takes whole, newline included. */
  const MAX_READ := FILE_READ_BUF - 1

  // ----- saving -----

  /** Each row as a C string, and a newline. */
  function Saved(rows: seq<Row>): seq<Word8> {
    if rows == [] then [] else S.UpToNul(rows[0]) + [NEWLINE] + Saved(rows[1..])
  }

  lemma {:induction false} SavedSnoc(rows: seq<Row>, last: Row)
    ensures Saved(rows + [last]) == Saved(rows) + (S.UpToNul(last) + [NEWLINE])
  {
    if rows == [] {
      assert Saved([last]) == S.UpToNul(last) + [NEWLINE] + Saved([]);
    } else {
      assert (rows + [last])[1..] == rows[1..] + [last];
      SavedSnoc(rows[1..], last);
      Assoc(S.UpToNul(rows[0]) + [NEWLINE], Saved(rows[1..]), S.UpToNul(last) + [NEWLINE]);
    }
  }

  /** A terminated buffer is, as a C string, its row as one. */
  lemma {:induction false} BufferAsString(buf: seq<Word8>, len: nat)
    requires len < |buf| && buf[len] == NUL
    ensures S.UpToNul(buf) == S.UpToNul(buf[..len])
    decreases len
  {
    if len > 0 && buf[0] != NUL {
      BufferAsString(buf[1..], len - 1);
      assert buf[..len][1..] == buf[1..][..len - 1];
    }
  }

  method ExecuteSave(ed: TextEditor) returns (file: seq<Word8>)
    requires ed.buf.Shaped() && ed.buf.Clean()
    ensures file == Saved(ed.buf.Doc())
  {
    file := [];
    var rows := ed.buf.Doc();
    for r := 0 to ed.buf.rowCount
      invariant file == Saved(rows[..r])
    {
      var line := ed.buf.lines[..ed.buf.rowCount][r];
      BufferAsString(line.buf, line.len);
      file := file + (S.UpToNul(line.buf) + [NEWLINE]);
      SavedSnoc(rows[..r], rows[r]);
      assert rows[..r + 1] == rows[..r] + [rows[r]];
    }
    assert rows[..ed.buf.rowCount] == rows;
  }

  // ----- opening -----

  /** How many bytes one `fgets` takes: up to the newline, no more than the buffer holds. */
  function ReadLen(f: seq<Word8>): (n: nat)
    requires f != []
    ensures 0 < n <= |f| && n <= MAX_READ
  {
    var upToNewline := |Rows(f)[0]| + 1;
    S.Min(MAX_READ, S.Min(|f|, upToNewline))
  }

  /** The row one read makes: a C string without its newline. */
  function ReadRow(chunk: seq<Word8>): Row {
    var t := S.UpToNul(chunk);
    if t != [] && t[|t| - 1] == NEWLINE then t[..|t| - 1] else t
  }

  function Loaded(f: seq<Word8>): seq<Row>
    decreases |f|
  {
    if f == [] then [] else [ReadRow(f[..ReadLen(f)])] + Loaded(f[ReadLen(f)..])
  }

  /** The document opening a file gives. */
  function Opened(f: seq<Word8>): seq<Row> {
    if f == [] then [[]] else Loaded(f)
  }

  /** Reads the file row by row into a fresh store; `ok` says that no allocation failed. */
  method LoadRows(buf: Buffer, file: seq<Word8>) returns (ok: bool)
    requires buf.Shaped() && buf.Clean() && buf.Loading() && buf.Doc() == [[]]
    modifies buf
    ensures buf.Reports(ok, old(buf.allocs))
    ensures ok ==> buf.Shaped() && buf.Clean() && buf.Doc() == Opened(file)
  {
    hide RowsOf, AllShaped, AllClean, LoadingLines, ReadRow, ReadLen;
    var rest := file;
    ghost var done: seq<Row> := [];
    while rest != []
      invariant buf.Shaped() && buf.Loading() && buf.Doc() == done + [[]]
      invariant done + Loaded(rest) == Loaded(file) && buf.Reports(true, old(buf.allocs))
      invariant if done == [] then rest == file && buf.Clean() else file != []
      decreases |rest|
    {
      var chunk := rest[..ReadLen(rest)];
      var row := ReadRow(chunk);
      var res := buf.LoadLine(row + [NUL], |row|);
      if res != Ok {
        return false;
      }
      assert (row + [NUL])[..|row|] == row;
      done := done + [row];
      rest := rest[ReadLen(rest)..];
    }
    buf.LoadFinalize();
    return true;
  }

  method ExecuteOpen(ed: TextEditor, file: seq<Word8>) returns (ok: bool)
    modifies ed, ed.buf
    ensures ed.buf.Reports(ok, old(ed.buf.allocs))
    ensures ok ==> ed.Valid()
    ensures ok ==> ed.St() == S.State(Opened(file), 0, 0, old(ed.remoteCursorRow), old(ed.remoteCursorCol), None, None)
  {
    hide RowsOf, AllShaped, AllClean, LoadingLines, Loaded, S.Cleared;
    ok := ed.Init();
    if ok {
      ed.buf.OneEmptyRowIsLoading();
      ok := LoadRows(ed.buf, file);
      OpenedHasRows(file);
    }
  }

  lemma OpenedHasRows(f: seq<Word8>)
    ensures |Opened(f)| >= 1
  {
  }

  // ----- the round trip -----

  /** The rows a row becomes when it is read back: pieces as long as one read takes. */
  function Pieces(row: Row): (ps: seq<Row>)
    ensures |ps| >= 1 && (|ps| == 1 <==> |row| < MAX_READ)
    ensures |row| < MAX_READ ==> ps == [row]
    ensures NUL !in row ==> NUL !in ps[0]
  {
    if |row| < MAX_READ then [row] else [row[..MAX_READ]] + Pieces(row[MAX_READ..])
  }

  function AllPieces(rows: seq<Row>): seq<Row> {
    if rows == [] then [] else Pieces(S.UpToNul(rows[0])) + AllPieces(rows[1..])
  }

  /** The row holds no terminator and, with its newline, fits one read. */
  predicate ReadsBack(row: Row) {
    NUL !in row && |row| < MAX_READ
  }

  predicate AllReadBack(rows: seq<Row>) {
    forall i :: 0 <= i < |rows| ==> ReadsBack(rows[i])
  }

  lemma {:induction false} UpToNulHasNone(t: seq<Word8>)
    ensures NUL !in S.UpToNul(t) && (NEWLINE !in t ==> NEWLINE !in S.UpToNul(t))
    ensures S.UpToNul(t) <= t
  {
    if t != [] && t[0] != NUL {
      UpToNulHasNone(t[1..]);
      assert t == [t[0]] + t[1..];
      assert NEWLINE !in t ==> NEWLINE !in t[1..];
    }
  }

  lemma ReadRowOf(row: Row)
    requires NUL !in row && NEWLINE !in row
    ensures ReadRow(row + [NEWLINE]) == row && ReadRow(row) == row
  {
    S.UpToNulIsWhole(row + [NEWLINE]);
    S.UpToNulIsWhole(row);
    assert row != [] ==> row[|row| - 1] in row;
  }

  lemma FirstRow(row: Row, rest: seq<Word8>)
    requires NEWLINE !in row
    ensures Rows(row + ([NEWLINE] + rest))[0] == row
  {
    RowsOfConcat(row, [NEWLINE] + rest);
    RowsOfSegment(row);
    assert ([NEWLINE] + rest)[1..] == rest;
    assert Rows([NEWLINE] + rest)[0] == [];
  }

  /** Reading a row and its newline gives the pieces of the row. */
  lemma {:induction false} RowReadsAsPieces(row: Row, rest: seq<Word8>)
    requires NUL !in row && NEWLINE !in row
    ensures Loaded(row + [NEWLINE] + rest) == Pieces(row) + Loaded(rest)
    decreases |row|
  {
    var f := row + [NEWLINE] + rest;
    Assoc(row, [NEWLINE], rest);
    FirstRow(row, rest);
    assert ReadLen(f) == S.Min(MAX_READ, |row| + 1);
    if |row| < MAX_READ {
      assert f[..ReadLen(f)] == row + [NEWLINE] && f[ReadLen(f)..] == rest;
      ReadRowOf(row);
    } else {
      var head, tail := row[..MAX_READ], row[MAX_READ..];
      assert f[..ReadLen(f)] == head && f[ReadLen(f)..] == tail + [NEWLINE] + rest;
      ReadRowOf(head);
      RowReadsAsPieces(tail, rest);
      Assoc([head], Pieces(tail), Loaded(rest));
    }
  }

  lemma {:induction false} SavedReadsAsPieces(rows: seq<Row>)
    requires forall i :: 0 <= i < |rows| ==> NEWLINE !in rows[i]
    ensures Loaded(Saved(rows)) == AllPieces(rows)
    decreases |rows|
  {
    if rows != [] {
      UpToNulHasNone(rows[0]);
      RowReadsAsPieces(S.UpToNul(rows[0]), Saved(rows[1..]));
      SavedReadsAsPieces(rows[1..]);
    }
  }

  /** The pieces are the rows exactly when every row reads back. */
  lemma {:induction false} PiecesAreRowsIffAllReadBack(rows: seq<Row>)
    ensures |AllPieces(rows)| >= |rows|
    ensures AllPieces(rows) == rows <==> AllReadBack(rows)
    decreases |rows|
  {
    if rows != [] {
      var first, rest := rows[0], rows[1..];
      PiecesAreRowsIffAllReadBack(rest);
      UpToNulHasNone(first);
      var all, ps, tail := AllPieces(rows), Pieces(S.UpToNul(first)), AllPieces(rest);
      assert rows == [first] + rest;
      if ReadsBack(first) {
        S.UpToNulIsWhole(first);
        assert all == [first] + tail && all[1..] == tail;
        assert forall i :: 0 <= i < |rest| ==> rest[i] == rows[i + 1];
      } else if NUL !in first {
        S.UpToNulIsWhole(first);
        assert |all| > |rows|;
      } else {
        assert NUL !in ps[0] && all[0] == ps[0];
      }
    }
  }

  /** A document comes back from its file exactly when every row is short enough and holds no terminator. */
  lemma OpenedSavedIffReadsBack(rows: seq<Row>)
    requires IsDoc(rows)
    ensures Opened(Saved(rows)) == rows <==> AllReadBack(rows)
  {
    SavedReadsAsPieces(rows);
    PiecesAreRowsIffAllReadBack(rows);
  }

  // ----- the other way round -----

  /** A file that opening and saving leaves alone. */
  predicate Regular(f: seq<Word8>) {
    f != [] && f[|f| - 1] == NEWLINE && AllReadBack(Rows(f[..|f| - 1]))
  }

  lemma {:induction false} SavedIsText(rows: seq<Row>)
    requires |rows| >= 1 && forall i :: 0 <= i < |rows| ==> NUL !in rows[i]
    ensures Saved(rows) == Text(rows) + [NEWLINE]
    decreases |rows|
  {
    S.UpToNulIsWhole(rows[0]);
    if |rows| == 1 {
      assert Saved(rows[1..]) == [];
    } else {
      SavedIsText(rows[1..]);
    }
  }

  lemma ReadRowIsClean(chunk: seq<Word8>)
    requires forall i :: 0 <= i < |chunk| - 1 ==> chunk[i] != NEWLINE
    ensures NUL !in ReadRow(chunk) && NEWLINE !in ReadRow(chunk)
  {
    UpToNulHasNone(chunk);
    var t, row := S.UpToNul(chunk), ReadRow(chunk);
    forall i | 0 <= i < |row|
      ensures row[i] != NUL && row[i] != NEWLINE
    {
      assert row[i] == t[i] == chunk[i] && t[i] in t;
    }
  }

  lemma ChunkHasOneNewline(f: seq<Word8>)
    requires f != []
    ensures forall i :: 0 <= i < ReadLen(f) - 1 ==> f[i] != NEWLINE
  {
    TextOfRows(f);
    var first := Rows(f)[0];
    assert first <= f by {
      assert Text(Rows(f)) == f;
    }
    forall i | 0 <= i < ReadLen(f) - 1
      ensures f[i] != NEWLINE
    {
      assert f[i] == first[i];
    }
  }

  lemma {:induction false} LoadedRowsAreClean(f: seq<Word8>)
    ensures forall i :: 0 <= i < |Loaded(f)| ==> NUL !in Loaded(f)[i] && NEWLINE !in Loaded(f)[i]
    decreases |f|
  {
    if f != [] {
      ChunkHasOneNewline(f);
      ReadRowIsClean(f[..ReadLen(f)]);
      LoadedRowsAreClean(f[ReadLen(f)..]);
    }
  }

  /** A file survives being opened and saved exactly when it is regular. */
  lemma SavedOpenedIffRegular(f: seq<Word8>)
    ensures Saved(Opened(f)) == f <==> Regular(f)
  {
    if Regular(f) {
      var text := f[..|f| - 1];
      var rows := Rows(text);
      TextOfRows(text);
      SavedIsText(rows);
      assert Saved(rows) == f;
      OpenedSavedIffReadsBack(rows);
    } else if Saved(Opened(f)) == f {
      var rows := Opened(f);
      LoadedRowsAreClean(f);
      assert f != [];
      SavedIsText(rows);
      assert f[..|f| - 1] == Text(rows);
      RowsOfText(rows);
      OpenedSavedIffReadsBack(rows);
    }
  }

  // ----- what opening and saving mean, for any bytes -----

  /**
   The rows one line of a file gives: a read takes at most 4095 bytes, and what it took ends at its
   first zero byte. `ended` says that a newline follows the line.
   */
  function RowsOfLine(line: Row, ended: bool): seq<Row> {
    if |line| >= 4095 then [S.UpToNul(line[..4095])] + RowsOfLine(line[4095..], ended)
    else if line == [] && !ended then []
    else [S.UpToNul(line)]
  }

  function RowsOfLines(lines: seq<Row>): seq<Row>
    requires |lines| >= 1
  {
    if |lines| == 1 then RowsOfLine(lines[0], false) else RowsOfLine(lines[0], true) + RowsOfLines(lines[1..])
  }

  lemma ReadRowIsCString(chunk: seq<Word8>)
    requires NEWLINE !in chunk
    ensures ReadRow(chunk) == S.UpToNul(chunk)
    ensures ReadRow(chunk + [NEWLINE]) == S.UpToNul(chunk)
  {
    UpToNulHasNone(chunk);
    var t := S.UpToNul(chunk);
    assert t != [] ==> t[|t| - 1] in t;
    UpToNulOfLine(chunk);
  }

  lemma {:induction false} UpToNulOfLine(chunk: seq<Word8>)
    ensures S.UpToNul(chunk + [NEWLINE])
         == if NUL in chunk then S.UpToNul(chunk) else S.UpToNul(chunk) + [NEWLINE]
  {
    if chunk == [] {
      assert S.UpToNul([NEWLINE]) == [NEWLINE] + S.UpToNul([NEWLINE][1..]);
    } else {
      assert (chunk + [NEWLINE])[1..] == chunk[1..] + [NEWLINE];
      UpToNulOfLine(chunk[1..]);
      assert chunk == [chunk[0]] + chunk[1..];
    }
  }

  /** Opening any file gives the rows of its lines; the last line needs no newline. */
  lemma {:induction false} LoadedAreRowsOfLines(f: seq<Word8>)
    ensures Loaded(f) == RowsOfLines(Rows(f))
    decreases |f|
  {
    if f != [] {
      var lines, n := Rows(f), ReadLen(f);
      TextOfRows(f);
      var first := lines[0];
      assert NEWLINE !in first;
      FirstLine(f);
      if |first| >= 4095 {
        assert f[..n] == first[..4095];
        ReadRowIsCString(first[..4095]);
        RowsOfRest(f, 4095);
      } else if |lines| == 1 {
        assert f[..n] == f && f[n..] == [];
        ReadRowIsCString(f);
      } else {
        assert f[..n] == first + [NEWLINE];
        ReadRowIsCString(first);
        RowsOfTail(f);
      }
      LoadedAreRowsOfLines(f[n..]);
    }
  }

  lemma FirstLine(f: seq<Word8>)
    ensures var first := Rows(f)[0];
      first <= f && (|Rows(f)| == 1 ==> f == first) && (|Rows(f)| > 1 ==> |first| < |f| && f[|first|] == NEWLINE)
  {
    TextOfRows(f);
    var lines := Rows(f);
    assert f == if |lines| == 1 then lines[0] else lines[0] + [NEWLINE] + Text(lines[1..]);
  }

  /** What is left of a text after part of its first line, and after all of it. */
  lemma RowsOfRest(f: seq<Word8>, n: nat)
    requires n <= |Rows(f)[0]| && n <= |f|
    ensures Rows(f[n..]) == [Rows(f)[0][n..]] + Rows(f)[1..]
  {
    TextOfRows(f);
    FirstLine(f);
    var lines, rest := Rows(f), [Rows(f)[0][n..]] + Rows(f)[1..];
    hide Rows;
    var after := if |lines| == 1 then [] else [NEWLINE] + Text(lines[1..]);
    assert rest[1..] == lines[1..];
    assert f == lines[0] + after && Text(rest) == lines[0][n..] + after;
    assert (lines[0] + after)[n..] == lines[0][n..] + after;
    forall i | 0 <= i < |rest|
      ensures NEWLINE !in rest[i]
    {
      assert NEWLINE !in lines[i];
    }
    RowsOfText(rest);
  }

  lemma RowsOfTail(f: seq<Word8>)
    requires |Rows(f)| > 1
    ensures var n := |Rows(f)[0]| + 1; n <= |f| && Rows(f[n..]) == Rows(f)[1..]
  {
    TextOfRows(f);
    FirstLine(f);
    var lines := Rows(f);
    assert f[|lines[0]| + 1..] == Text(lines[1..]);
    assert IsDoc(lines[1..]);
    RowsOfText(lines[1..]);
  }

  function CStrings(rows: seq<Row>): (out: seq<Row>)
    ensures |out| == |rows| && forall i :: 0 <= i < |rows| ==> out[i] == S.UpToNul(rows[i])
  {
    seq(|rows|, i requires 0 <= i < |rows| => S.UpToNul(rows[i]))
  }

  /** Saving writes the text of the rows, each up to its first zero byte, and one newline more. */
  lemma {:induction false} SavedIsTextOfCStrings(rows: seq<Row>)
    requires |rows| >= 1
    ensures Saved(rows) == Text(CStrings(rows)) + [NEWLINE]
    decreases |rows|
  {
    assert CStrings(rows)[1..] == CStrings(rows[1..]);
    if |rows| == 1 {
      assert Saved(rows[1..]) == [];
    } else {
      SavedIsTextOfCStrings(rows[1..]);
    }
  }
}
