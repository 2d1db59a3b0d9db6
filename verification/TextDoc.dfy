/**
 Documents as rows of bytes, and as the one text those rows spell. Every edit of the editor is a
 splice of rows; this module shows what a splice does to the text.
 */
module TextDoc {
  import opened Machine

  type Row = seq<Word8>

  const NEWLINE: Word8 := 10
  const NUL: Word8 := 0
  const SPACE: Word8 := 32

  /** At least one row, and no row contains a newline. */
  predicate IsDoc(rows: seq<Row>) {
    |rows| >= 1 && forall i :: 0 <= i < |rows| ==> NEWLINE !in rows[i]
  }

  /** The rows joined by newlines. */
  function Text(rows: seq<Row>): seq<Word8>
    requires |rows| >= 1
  {
    if |rows| == 1 then rows[0] else rows[0] + [NEWLINE] + Text(rows[1..])
  }

  /** A text cut at its newlines. */
  function Rows(t: seq<Word8>): (rows: seq<Row>)
    ensures |rows| >= 1
  {
    if t == [] then [[]]
    else if t[0] == NEWLINE then [[]] + Rows(t[1..])
    else
      var rest := Rows(t[1..]);
      [[t[0]] + rest[0]] + rest[1..]
  }

  predicate InDoc(rows: seq<Row>, r: int, c: int) {
    0 <= r < |rows| && 0 <= c <= |rows[r]|
  }

  /** (r1, c1) is not after (r2, c2). */
  predicate NotAfter(r1: int, c1: int, r2: int, c2: int) {
    r1 < r2 || (r1 == r2 && c1 <= c2)
  }

  /** The position in the text of column `c` of row `r`. */
  function Offset(rows: seq<Row>, r: nat, c: nat): nat
    requires InDoc(rows, r, c)
  {
    if r == 0 then c else |rows[0]| + 1 + Offset(rows[1..], r - 1, c)
  }

  /** Two row lists run together: the last row of one continues into the first row of the other. */
  function Glue(a: seq<Row>, b: seq<Row>): (rows: seq<Row>)
    requires |a| >= 1 && |b| >= 1
    ensures |rows| == |a| + |b| - 1
    ensures forall i :: 0 <= i < |a| - 1 ==> rows[i] == a[i]
    ensures rows[|a| - 1] == a[|a| - 1] + b[0]
    ensures forall i :: 1 <= i < |b| ==> rows[|a| - 1 + i] == b[i]
  {
    a[..|a| - 1] + [a[|a| - 1] + b[0]] + b[1..]
  }

  /** The rows up to a position, and the rows from it on. */
  function Before(rows: seq<Row>, r: nat, c: nat): (b: seq<Row>)
    requires InDoc(rows, r, c)
    ensures |b| == r + 1
  {
    rows[..r] + [rows[r][..c]]
  }

  function After(rows: seq<Row>, r: nat, c: nat): (a: seq<Row>)
    requires InDoc(rows, r, c)
    ensures |a| == |rows| - r
  {
    [rows[r][c..]] + rows[r + 1..]
  }

  /** The rows between two positions. */
  function Between(rows: seq<Row>, r1: nat, c1: nat, r2: nat, c2: nat): (b: seq<Row>)
    requires InDoc(rows, r1, c1) && InDoc(rows, r2, c2) && NotAfter(r1, c1, r2, c2)
    ensures |b| == r2 - r1 + 1
  {
    if r1 == r2 then [rows[r1][c1..c2]]
    else [rows[r1][c1..]] + rows[r1 + 1..r2] + [rows[r2][..c2]]
  }

  /** `rows` with everything between two positions replaced by `ins`. */
  function Splice(rows: seq<Row>, r1: nat, c1: nat, r2: nat, c2: nat, ins: seq<Row>): (out: seq<Row>)
    requires InDoc(rows, r1, c1) && InDoc(rows, r2, c2) && |ins| >= 1
    ensures |out| >= 1
  {
    Glue(Glue(Before(rows, r1, c1), ins), After(rows, r2, c2))
  }

  /** Where the inserted rows end. */
  function EndRow(r: nat, ins: seq<Row>): nat
    requires |ins| >= 1
  {
    r + |ins| - 1
  }

  function EndCol(c: nat, ins: seq<Row>): nat
    requires |ins| >= 1
  {
    if |ins| == 1 then c + |ins[0]| else |ins[|ins| - 1]|
  }

  // ----- rows and text determine each other -----

  lemma {:induction false} RowsOfText(rows: seq<Row>)
    requires IsDoc(rows)
    ensures Rows(Text(rows)) == rows
    decreases |Text(rows)|
  {
    var t := Text(rows);
    if rows[0] == [] {
      if |rows| > 1 {
        assert t[0] == NEWLINE && t[1..] == Text(rows[1..]);
        RowsOfText(rows[1..]);
      }
    } else {
      var shorter := [rows[0][1..]] + rows[1..];
      assert t[0] == rows[0][0] != NEWLINE by {
        assert rows[0][0] in rows[0];
      }
      TextTail(rows);
      RowsOfText(shorter);
      assert [rows[0][0]] + rows[0][1..] == rows[0];
    }
  }

  lemma TextTail(rows: seq<Row>)
    requires |rows| >= 1 && rows[0] != []
    ensures Text(rows)[1..] == Text([rows[0][1..]] + rows[1..])
  {
    var shorter := [rows[0][1..]] + rows[1..];
    assert shorter[1..] == rows[1..];
  }

  lemma {:induction false} TextOfRows(t: seq<Word8>)
    ensures IsDoc(Rows(t)) && Text(Rows(t)) == t
  {
    if t != [] {
      TextOfRows(t[1..]);
      var rest := Rows(t[1..]);
      if t[0] == NEWLINE {
        assert Rows(t)[1..] == rest;
      } else {
        assert Rows(t)[1..] == rest[1..];
        assert forall i :: 0 <= i < |Rows(t)| ==> NEWLINE !in Rows(t)[i] by {
          forall i | 0 <= i < |Rows(t)|
            ensures NEWLINE !in Rows(t)[i]
          {
            assert NEWLINE !in rest[i];
          }
        }
      }
    }
  }

  /** Two documents spelling the same text are the same document. */
  lemma TextIsInjective(a: seq<Row>, b: seq<Row>)
    requires IsDoc(a) && IsDoc(b) && Text(a) == Text(b)
    ensures a == b
  {
    RowsOfText(a);
    RowsOfText(b);
  }

  // ----- what gluing and cutting do to the text -----

  lemma {:induction false} TextOfGlue(a: seq<Row>, b: seq<Row>)
    requires |a| >= 1 && |b| >= 1
    ensures Text(Glue(a, b)) == Text(a) + Text(b)
    decreases |a|
  {
    var glued := Glue(a, b);
    if |a| == 1 {
      assert glued[0] == a[0] + b[0] && glued[1..] == b[1..];
      if |b| > 1 {
        Assoc(a[0], b[0], [NEWLINE]);
        Assoc(a[0], b[0] + [NEWLINE], Text(b[1..]));
      }
    } else {
      assert glued[0] == a[0] && glued[1..] == Glue(a[1..], b);
      TextOfGlue(a[1..], b);
      Assoc(a[0] + [NEWLINE], Text(a[1..]), Text(b));
    }
  }

  lemma CutAndGlue(rows: seq<Row>, r: nat, c: nat)
    requires InDoc(rows, r, c)
    ensures Glue(Before(rows, r, c), After(rows, r, c)) == rows
  {
    assert rows[r][..c] + rows[r][c..] == rows[r];
  }

  lemma {:induction false} OffsetIsPrefixLength(rows: seq<Row>, r: nat, c: nat)
    requires InDoc(rows, r, c)
    ensures Offset(rows, r, c) == |Text(Before(rows, r, c))|
    decreases r
  {
    if r > 0 {
      assert Before(rows, r, c)[1..] == Before(rows[1..], r - 1, c);
      OffsetIsPrefixLength(rows[1..], r - 1, c);
    }
  }

  /** A position cuts the text where it cuts the rows. */
  lemma TextAtPosition(rows: seq<Row>, r: nat, c: nat)
    requires InDoc(rows, r, c)
    ensures Offset(rows, r, c) <= |Text(rows)|
    ensures Text(rows)[..Offset(rows, r, c)] == Text(Before(rows, r, c))
    ensures Text(rows)[Offset(rows, r, c)..] == Text(After(rows, r, c))
  {
    CutAndGlue(rows, r, c);
    TextOfGlue(Before(rows, r, c), After(rows, r, c));
    OffsetIsPrefixLength(rows, r, c);
  }

  /**
   What every edit means: the text loses what lay between the two positions and gains the text of
   the inserted rows, and the end of the insertion is at the matching position.
   */
  lemma SpliceText(rows: seq<Row>, r1: nat, c1: nat, r2: nat, c2: nat, ins: seq<Row>)
    requires InDoc(rows, r1, c1) && InDoc(rows, r2, c2) && |ins| >= 1
    ensures Offset(rows, r1, c1) <= |Text(rows)| && Offset(rows, r2, c2) <= |Text(rows)|
    ensures Text(Splice(rows, r1, c1, r2, c2, ins))
         == Text(rows)[..Offset(rows, r1, c1)] + Text(ins) + Text(rows)[Offset(rows, r2, c2)..]
    ensures var out := Splice(rows, r1, c1, r2, c2, ins);
      InDoc(out, EndRow(r1, ins), EndCol(c1, ins)) &&
      Offset(out, EndRow(r1, ins), EndCol(c1, ins)) == Offset(rows, r1, c1) + |Text(ins)|
  {
    TextAtPosition(rows, r1, c1);
    TextAtPosition(rows, r2, c2);
    var head := Glue(Before(rows, r1, c1), ins);
    TextOfGlue(Before(rows, r1, c1), ins);
    TextOfGlue(head, After(rows, r2, c2));
    SpliceEnd(rows, r1, c1, r2, c2, ins);
    OffsetIsPrefixLength(Splice(rows, r1, c1, r2, c2, ins), EndRow(r1, ins), EndCol(c1, ins));
    OffsetIsPrefixLength(rows, r1, c1);
  }

  /** The parts of a spliced document before and after what was inserted. */
  lemma SpliceEnd(rows: seq<Row>, r1: nat, c1: nat, r2: nat, c2: nat, ins: seq<Row>)
    requires InDoc(rows, r1, c1) && InDoc(rows, r2, c2) && |ins| >= 1
    ensures var out := Splice(rows, r1, c1, r2, c2, ins);
      InDoc(out, EndRow(r1, ins), EndCol(c1, ins)) &&
      Before(out, EndRow(r1, ins), EndCol(c1, ins)) == Glue(Before(rows, r1, c1), ins) &&
      After(out, EndRow(r1, ins), EndCol(c1, ins)) == After(rows, r2, c2)
  {
    GlueCuts(Glue(Before(rows, r1, c1), ins), After(rows, r2, c2));
    assert |Glue(Before(rows, r1, c1), ins)[EndRow(r1, ins)]| == EndCol(c1, ins);
  }

  lemma GlueCuts(a: seq<Row>, b: seq<Row>)
    requires |a| >= 1 && |b| >= 1
    ensures var r, c := |a| - 1, |a[|a| - 1]|;
      InDoc(Glue(a, b), r, c) && Before(Glue(a, b), r, c) == a && After(Glue(a, b), r, c) == b
  {
  }

  lemma GlueAssoc(a: seq<Row>, b: seq<Row>, c: seq<Row>)
    requires |a| >= 1 && |b| >= 1 && |c| >= 1
    ensures Glue(Glue(a, b), c) == Glue(a, Glue(b, c))
  {
    hide Glue;
    var l, m := a[|a| - 1], b[|b| - 1];
    var left, right := Glue(Glue(a, b), c), Glue(a, Glue(b, c));
    Assoc(l, m, c[0]);
    forall i | 0 <= i < |left|
      ensures left[i] == right[i]
    {
      var n, k := |a| - 1, |a| + |b| - 2;
      if i > k {
        assert left[k + (i - k)] == c[i - k] && Glue(b, c)[|b| - 1 + (i - k)] == c[i - k];
      } else if i > n {
        assert Glue(a, b)[n + (i - n)] == b[i - n];
      }
      if i > n {
        assert right[n + (i - n)] == Glue(b, c)[i - n];
      }
    }
  }

  /** Cutting at two positions: the rows before, between and after make up the document. */
  lemma CutInThree(rows: seq<Row>, r1: nat, c1: nat, r2: nat, c2: nat)
    requires InDoc(rows, r1, c1) && InDoc(rows, r2, c2) && NotAfter(r1, c1, r2, c2)
    ensures Glue(Before(rows, r1, c1), Between(rows, r1, c1, r2, c2)) == Before(rows, r2, c2)
    ensures Splice(rows, r1, c1, r2, c2, Between(rows, r1, c1, r2, c2)) == rows
  {
    GlueBetween(rows, r1, c1, r2, c2);
    CutAndGlue(rows, r2, c2);
  }

  lemma GlueBetween(rows: seq<Row>, r1: nat, c1: nat, r2: nat, c2: nat)
    requires InDoc(rows, r1, c1) && InDoc(rows, r2, c2) && NotAfter(r1, c1, r2, c2)
    ensures Glue(Before(rows, r1, c1), Between(rows, r1, c1, r2, c2)) == Before(rows, r2, c2)
  {
    hide Glue;
    var a, b := Before(rows, r1, c1), Between(rows, r1, c1, r2, c2);
    if r1 == r2 {
      assert rows[r1][..c1] + rows[r1][c1..c2] == rows[r1][..c2];
    } else {
      assert rows[r1][..c1] + rows[r1][c1..] == rows[r1];
      forall i | r1 < i < r2
        ensures Glue(a, b)[i] == rows[i]
      {
        assert Glue(a, b)[|a| - 1 + (i - r1)] == b[i - r1];
      }
      assert Glue(a, b)[|a| - 1 + (r2 - r1)] == b[r2 - r1];
    }
  }

  /** The rows between two positions spell the text between their offsets. */
  lemma BetweenText(rows: seq<Row>, r1: nat, c1: nat, r2: nat, c2: nat)
    requires InDoc(rows, r1, c1) && InDoc(rows, r2, c2) && NotAfter(r1, c1, r2, c2)
    ensures Offset(rows, r1, c1) <= Offset(rows, r2, c2) <= |Text(rows)|
    ensures Text(Between(rows, r1, c1, r2, c2)) == Text(rows)[Offset(rows, r1, c1)..Offset(rows, r2, c2)]
  {
    CutInThree(rows, r1, c1, r2, c2);
    TextAtPosition(rows, r1, c1);
    TextAtPosition(rows, r2, c2);
    TextOfGlue(Before(rows, r1, c1), Between(rows, r1, c1, r2, c2));
    OffsetIsPrefixLength(rows, r1, c1);
    OffsetIsPrefixLength(rows, r2, c2);
  }

  /** Every edit is undone by splicing back the rows it removed. */
  lemma SpliceIsUndone(rows: seq<Row>, r1: nat, c1: nat, r2: nat, c2: nat, ins: seq<Row>)
    requires InDoc(rows, r1, c1) && InDoc(rows, r2, c2) && NotAfter(r1, c1, r2, c2) && |ins| >= 1
    ensures var out := Splice(rows, r1, c1, r2, c2, ins);
      InDoc(out, r1, c1) && InDoc(out, EndRow(r1, ins), EndCol(c1, ins)) &&
      Splice(out, r1, c1, EndRow(r1, ins), EndCol(c1, ins), Between(rows, r1, c1, r2, c2)) == rows
  {
    var out := Splice(rows, r1, c1, r2, c2, ins);
    SpliceEnd(rows, r1, c1, r2, c2, ins);
    GlueAssoc(Before(rows, r1, c1), ins, After(rows, r2, c2));
    GlueCuts(Before(rows, r1, c1), Glue(ins, After(rows, r2, c2)));
    assert Before(out, r1, c1) == Before(rows, r1, c1);
    CutInThree(rows, r1, c1, r2, c2);
  }

  /** Text cut out is put back by splicing it in at the same place. */
  lemma CutIsUndone(rows: seq<Row>, r1: nat, c1: nat, r2: nat, c2: nat)
    requires InDoc(rows, r1, c1) && InDoc(rows, r2, c2) && NotAfter(r1, c1, r2, c2)
    ensures var out, cut := Splice(rows, r1, c1, r2, c2, [[]]), Between(rows, r1, c1, r2, c2);
      InDoc(out, r1, c1) && Splice(out, r1, c1, r1, c1, cut) == rows &&
      EndRow(r1, cut) == r2 && EndCol(c1, cut) == c2
  {
    var none: seq<Row> := [[]];
    SpliceIsUndone(rows, r1, c1, r2, c2, none);
    assert EndRow(r1, none) == r1 && EndCol(c1, none) == c1;
  }

  /** ... and text put in is taken out again. */
  lemma InsertionIsUndone(rows: seq<Row>, r: nat, c: nat, ins: seq<Row>)
    requires InDoc(rows, r, c) && |ins| >= 1
    ensures var out := Splice(rows, r, c, r, c, ins);
      InDoc(out, r, c) && |out[r]| == c + |ins[0]| + (if |ins| == 1 then |rows[r]| - c else 0) &&
      InDoc(out, EndRow(r, ins), EndCol(c, ins)) &&
      Splice(out, r, c, EndRow(r, ins), EndCol(c, ins), [[]]) == rows
  {
    SpliceIsUndone(rows, r, c, r, c, ins);
    assert Between(rows, r, c, r, c) == [[]];
  }

  /** Splices of newline-free rows keep a document a document. */
  lemma SpliceIsDoc(rows: seq<Row>, r1: nat, c1: nat, r2: nat, c2: nat, ins: seq<Row>)
    requires IsDoc(rows) && InDoc(rows, r1, c1) && InDoc(rows, r2, c2) && IsDoc(ins)
    ensures IsDoc(Splice(rows, r1, c1, r2, c2, ins))
  {
    GlueIsDoc(Before(rows, r1, c1), ins);
    GlueIsDoc(Glue(Before(rows, r1, c1), ins), After(rows, r2, c2));
  }

  lemma GlueIsDoc(a: seq<Row>, b: seq<Row>)
    requires IsDoc(a) && IsDoc(b)
    ensures IsDoc(Glue(a, b))
  {
    forall i | 0 <= i < |Glue(a, b)|
      ensures NEWLINE !in Glue(a, b)[i]
    {
      if i > |a| - 1 {
        assert Glue(a, b)[i] == b[i - (|a| - 1)];
      }
    }
  }

  // ----- splices row by row -----

  /** Replacing part of the text by nothing joins what is left of the two rows. */
  lemma SpliceJoins(rows: seq<Row>, r1: nat, c1: nat, r2: nat, c2: nat)
    requires InDoc(rows, r1, c1) && InDoc(rows, r2, c2)
    ensures Splice(rows, r1, c1, r2, c2, [[]]) == rows[..r1] + [rows[r1][..c1] + rows[r2][c2..]] + rows[r2 + 1..]
  {
    assert rows[r1][..c1] + [] == rows[r1][..c1];
  }

  lemma SpliceOneRow(rows: seq<Row>, r: nat, c1: nat, c2: nat, t: Row)
    requires InDoc(rows, r, c1) && InDoc(rows, r, c2)
    ensures Splice(rows, r, c1, r, c2, [t]) == rows[r := rows[r][..c1] + t + rows[r][c2..]]
  {
  }

  lemma SpliceBreaks(rows: seq<Row>, r: nat, c: nat)
    requires InDoc(rows, r, c)
    ensures Splice(rows, r, c, r, c, [[], []]) == rows[..r] + [rows[r][..c], rows[r][c..]] + rows[r + 1..]
  {
    assert rows[r][..c] + [] == rows[r][..c];
    assert [] + rows[r][c..] == rows[r][c..];
  }

  /** Inserting rows at a position, with the first and the last row written out. */
  lemma SpliceInserts(rows: seq<Row>, r: nat, c: nat, ins: seq<Row>)
    requires InDoc(rows, r, c) && |ins| >= 1
    ensures Splice(rows, r, c, r, c, ins)
         == rows[..r] + Glue(Glue([rows[r][..c]], ins), [rows[r][c..]]) + rows[r + 1..]
  {
  }

  /** The rows of a concatenation are the rows of its parts, glued. */
  lemma RowsOfConcat(a: seq<Word8>, b: seq<Word8>)
    ensures Rows(a + b) == Glue(Rows(a), Rows(b))
  {
    TextOfRows(a);
    TextOfRows(b);
    TextOfGlue(Rows(a), Rows(b));
    GlueIsDoc(Rows(a), Rows(b));
    RowsOfText(Glue(Rows(a), Rows(b)));
  }

  lemma {:induction false} RowsOfSegment(t: seq<Word8>)
    requires NEWLINE !in t
    ensures Rows(t) == [t]
  {
    if t != [] {
      RowsOfSegment(t[1..]);
      assert t[0] in t && [t[0]] + t[1..] == t;
    }
  }

  lemma {:induction false} TextSnoc(rows: seq<Row>, last: Row)
    requires |rows| >= 1
    ensures Text(rows + [last]) == Text(rows) + [NEWLINE] + last
    decreases |rows|
  {
    if |rows| == 1 {
      assert (rows + [last])[1..] == [last];
    } else {
      assert (rows + [last])[1..] == rows[1..] + [last];
      TextSnoc(rows[1..], last);
      Assoc(rows[0] + [NEWLINE], Text(rows[1..]) + [NEWLINE], last);
    }
  }

  /** The joined and the broken document, described row by row. */
  lemma JoinedRowByRow(rows: seq<Row>, out: seq<Row>, r1: nat, c1: nat, r2: nat, c2: nat)
    requires InDoc(rows, r1, c1) && InDoc(rows, r2, c2) && r1 < r2
    requires |out| == |rows| - (r2 - r1) && out[r1] == rows[r1][..c1] + rows[r2][c2..]
    requires forall i :: 0 <= i < r1 ==> out[i] == rows[i]
    requires forall i :: r1 < i < |out| ==> out[i] == rows[i + (r2 - r1)]
    ensures out == Splice(rows, r1, c1, r2, c2, [[]])
  {
    hide Splice, Glue;
    SpliceJoins(rows, r1, c1, r2, c2);
    var x := rows[..r1] + [rows[r1][..c1] + rows[r2][c2..]] + rows[r2 + 1..];
    forall i | 0 <= i < |out|
      ensures out[i] == x[i]
    {
      if i > r1 {
        assert x[i] == rows[r2 + 1..][i - r1 - 1] == rows[i + (r2 - r1)];
      }
    }
    assert out == x;
  }

  lemma BrokenRowByRow(rows: seq<Row>, out: seq<Row>, r: nat, c: nat)
    requires InDoc(rows, r, c)
    requires |out| == |rows| + 1 && out[r] == rows[r][..c] && out[r + 1] == rows[r][c..]
    requires forall i :: 0 <= i < r ==> out[i] == rows[i]
    requires forall i :: r + 1 < i < |out| ==> out[i] == rows[i - 1]
    ensures out == Splice(rows, r, c, r, c, [[], []])
  {
    hide Splice, Glue;
    SpliceBreaks(rows, r, c);
    var x := rows[..r] + [rows[r][..c], rows[r][c..]] + rows[r + 1..];
    forall i | 0 <= i < |out|
      ensures out[i] == x[i]
    {
      if i > r + 1 {
        assert x[i] == rows[r + 1..][i - r - 2] == rows[i - 1];
      }
    }
    assert out == x;
  }
}
