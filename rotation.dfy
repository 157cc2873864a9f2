/** Shape matrices of a falling piece and their quarter turns.
    A shape lists its rows top-down; a cell holds 0 (empty) or a colour code.
    The two turns are written as the game writes them: clockwise is
    zip(*reversed(shape)), counter-clockwise is reversed(zip(*shape)). */
module Rotation {

  type Shape = seq<seq<int>>

  /** Python's reversed(): the items from last to first. */
  function Reverse<T>(s: seq<T>): (r: seq<T>)
    ensures |r| == |s|
    ensures forall k :: 0 <= k < |s| ==> r[k] == s[|s| - 1 - k]
  {
    if s == [] then [] else [s[|s| - 1]] + Reverse(s[..|s| - 1])
  }

  /** The number of tuples zip(*rows) yields: the length of the shortest row
      (zip stops at the shortest argument), and 0 when there are no rows. */
  function MinWidth(rows: Shape): (w: nat)
    ensures |rows| == 0 ==> w == 0
    ensures forall b :: 0 <= b < |rows| ==> w <= |rows[b]|
    ensures |rows| > 0 ==> exists b :: 0 <= b < |rows| && w == |rows[b]|
  {
    if |rows| == 0 then 0
    else if |rows| == 1 then |rows[0]|
    else
      var rest := MinWidth(rows[1..]);
      assert forall b :: 1 <= b < |rows| ==> rows[b] == rows[1..][b - 1];
      if |rows[0]| <= rest then |rows[0]| else rest
  }

  /** zip(*rows): tuple a collects cell a of every row, in row order. */
  function Zip(rows: Shape): (t: Shape)
    ensures |t| == MinWidth(rows)
    ensures forall a :: 0 <= a < |t| ==> |t[a]| == |rows|
    ensures forall a, b :: 0 <= a < |t| && 0 <= b < |rows| ==> t[a][b] == rows[b][a]
  {
    var w := MinWidth(rows);
    seq(w, a requires 0 <= a < w => seq(|rows|, b requires 0 <= b < |rows| => rows[b][a]))
  }

  /** Reversing the rows does not change the shortest row. */
  lemma MinWidthReverse(s: Shape)
    ensures MinWidth(Reverse(s)) == MinWidth(s)
  {
    var r := Reverse(s);
    if |s| > 0 {
      var b1 :| 0 <= b1 < |r| && MinWidth(r) == |r[b1]|;
      var b2 :| 0 <= b2 < |s| && MinWidth(s) == |s[b2]|;
      assert r[|s| - 1 - b2] == s[b2];
      assert MinWidth(r) <= MinWidth(s);
      assert MinWidth(s) <= MinWidth(r);
    }
  }

  /** rotate_clockwise's shape: tuple a of zip(*reversed(s)) collects
      cell a of every row, from the bottom row up (see ClockwiseIsZipReversed). */
  function Clockwise(s: Shape): Shape {
    var w := MinWidth(s);
    seq(w, a requires 0 <= a < w => seq(|s|, b requires 0 <= b < |s| => s[|s| - 1 - b][a]))
  }

  /** rotate_counter_clockwise's shape: reversed(zip(*s)), the tuples of
      zip(*s) from the last column to the first (see
      CounterClockwiseIsReversedZip). */
  function CounterClockwise(s: Shape): Shape {
    var w := MinWidth(s);
    seq(w, a requires 0 <= a < w => seq(|s|, b requires 0 <= b < |s| => s[b][w - 1 - a]))
  }

  /** Rows that all have length c make zip yield c tuples. */
  lemma MinWidthUniform(rows: Shape, c: nat)
    requires |rows| > 0
    requires forall i :: 0 <= i < |rows| ==> |rows[i]| == c
    ensures MinWidth(rows) == c
  {
  }

  /** Two shapes with the same rows, cell by cell, are equal. */
  lemma SameShape(u: Shape, s: Shape)
    requires |u| == |s|
    requires forall a :: 0 <= a < |u| ==> |u[a]| == |s[a]|
    requires forall a, b :: 0 <= a < |u| && 0 <= b < |u[a]| ==> u[a][b] == s[a][b]
    ensures u == s
  {
    forall a | 0 <= a < |u| ensures u[a] == s[a] {
    }
  }

  /** One cell of the clockwise turn. */
  lemma ClockwiseCell(s: Shape, a: nat, b: nat)
    requires a < MinWidth(s) && b < |s|
    ensures |Clockwise(s)[a]| == |s| && Clockwise(s)[a][b] == s[|s| - 1 - b][a]
  {
  }

  /** One cell of the counter-clockwise turn. */
  lemma CounterClockwiseCell(s: Shape, a: nat, b: nat)
    requires a < MinWidth(s) && b < |s|
    ensures |CounterClockwise(s)[a]| == |s| && CounterClockwise(s)[a][b] == s[b][MinWidth(s) - 1 - a]
  {
  }

  /** Zipping the rows of s taken bottom-up gives the clockwise turn. */
  lemma ZipOfUpsideDown(r: Shape, s: Shape)
    requires |r| == |s| && MinWidth(r) == MinWidth(s)
    requires forall b :: 0 <= b < |s| ==> r[b] == s[|s| - 1 - b]
    ensures Zip(r) == Clockwise(s)
  {
    var z, c := Zip(r), Clockwise(s);
    assert |z| == |c|;
    forall a | 0 <= a < |z| ensures |z[a]| == |c[a]| {
    }
    forall a, b | 0 <= a < |z| && 0 <= b < |z[a]| ensures z[a][b] == c[a][b] {
      ClockwiseCell(s, a, b);
      assert z[a][b] == r[b][a];
    }
    SameShape(z, c);
  }

  /** The clockwise turn is zip(*reversed(s)): as many rows as the shortest
      row of s has cells, each as long as s has rows, with cell [a][b] taken
      from row |s| - 1 - b, column a. */
  lemma ClockwiseIsZipReversed(s: Shape)
    ensures Zip(Reverse(s)) == Clockwise(s)
    ensures |Clockwise(s)| == MinWidth(s)
    ensures forall a :: 0 <= a < MinWidth(s) ==> |Clockwise(s)[a]| == |s|
    ensures forall a, b :: 0 <= a < MinWidth(s) && 0 <= b < |s| ==> Clockwise(s)[a][b] == s[|s| - 1 - b][a]
  {
    MinWidthReverse(s);
    ZipOfUpsideDown(Reverse(s), s);
  }

  /** The counter-clockwise turn is reversed(zip(*s)): cell [a][b] comes
      from row b, column MinWidth(s) - 1 - a. */
  lemma CounterClockwiseIsReversedZip(s: Shape)
    ensures Reverse(Zip(s)) == CounterClockwise(s)
    ensures |CounterClockwise(s)| == MinWidth(s)
    ensures forall a :: 0 <= a < MinWidth(s) ==> |CounterClockwise(s)[a]| == |s|
    ensures forall a, b :: 0 <= a < MinWidth(s) && 0 <= b < |s| ==>
      CounterClockwise(s)[a][b] == s[b][MinWidth(s) - 1 - a]
  {
    var t := Zip(s);
    var z, c := Reverse(t), CounterClockwise(s);
    forall a | 0 <= a < |c| ensures z[a] == c[a] {
      assert z[a] == t[|t| - 1 - a];
      forall b | 0 <= b < |s| ensures z[a][b] == c[a][b] {
        assert t[|t| - 1 - a][b] == s[b][|t| - 1 - a];
      }
    }
  }

  /** A proper matrix: at least one row and one column, all rows equally long. */
  predicate IsMatrix(s: Shape) {
    |s| > 0 && |s[0]| > 0 && forall i :: 0 <= i < |s| ==> |s[i]| == |s[0]|
  }

  /** Every cell of a piece is empty (0) or carries the piece's colour. */
  predicate PieceCells(s: Shape, color: int) {
    forall i, j :: 0 <= i < |s| && 0 <= j < |s[i]| ==> s[i][j] == 0 || s[i][j] == color
  }

  /** A clockwise turn of an r x c matrix is a c x r matrix. */
  lemma ClockwiseDims(s: Shape)
    requires IsMatrix(s)
    ensures IsMatrix(Clockwise(s))
    ensures |Clockwise(s)| == |s[0]| && |Clockwise(s)[0]| == |s|
  {
    assert MinWidth(s) == |s[0]|;
  }

  /** A counter-clockwise turn of an r x c matrix is a c x r matrix. */
  lemma CounterClockwiseDims(s: Shape)
    requires IsMatrix(s)
    ensures IsMatrix(CounterClockwise(s))
    ensures |CounterClockwise(s)| == |s[0]| && |CounterClockwise(s)[0]| == |s|
  {
    assert MinWidth(s) == |s[0]|;
  }

  /** A counter-clockwise turn undoes a clockwise one. */
  lemma CounterClockwiseUndoesClockwise(s: Shape)
    requires IsMatrix(s)
    ensures CounterClockwise(Clockwise(s)) == s
  {
    var n, w := |s|, |s[0]|;
    var t := Clockwise(s);
    assert |t| == w && forall a :: 0 <= a < |t| ==> |t[a]| == n by {
      ClockwiseDims(s);
    }
    assert MinWidth(t) == n by {
      MinWidthUniform(t, n);
    }
    var u := CounterClockwise(t);
    forall a, b | 0 <= a < n && 0 <= b < w ensures u[a][b] == s[a][b] {
      CounterClockwiseCell(t, a, b);
      ClockwiseCell(s, b, n - 1 - a);
    }
    SameShape(u, s);
  }

  /** A clockwise turn undoes a counter-clockwise one. */
  lemma ClockwiseUndoesCounterClockwise(s: Shape)
    requires IsMatrix(s)
    ensures Clockwise(CounterClockwise(s)) == s
  {
    var n, w := |s|, |s[0]|;
    assert MinWidth(s) == w by {
      MinWidthUniform(s, w);
    }
    var t := CounterClockwise(s);
    assert |t| == w && forall a :: 0 <= a < |t| ==> |t[a]| == n by {
      forall a | 0 <= a < w ensures |t[a]| == n {
        CounterClockwiseCell(s, a, 0);
      }
    }
    assert MinWidth(t) == n by {
      MinWidthUniform(t, n);
    }
    var u := Clockwise(t);
    forall a, b | 0 <= a < n && 0 <= b < w ensures u[a][b] == s[a][b] {
      ClockwiseCell(t, a, b);
      CounterClockwiseCell(s, w - 1 - b, a);
    }
    SameShape(u, s);
  }

  /** Two clockwise turns turn the matrix upside down and mirror it. */
  lemma HalfTurn(s: Shape)
    requires IsMatrix(s)
    ensures IsMatrix(Clockwise(Clockwise(s)))
    ensures |Clockwise(Clockwise(s))| == |s| && |Clockwise(Clockwise(s))[0]| == |s[0]|
    ensures forall a, b :: 0 <= a < |s| && 0 <= b < |s[0]| ==>
      Clockwise(Clockwise(s))[a][b] == s[|s| - 1 - a][|s[0]| - 1 - b]
  {
    ClockwiseDims(s);
    ClockwiseDims(Clockwise(s));
  }

  /** Four clockwise turns give back the original matrix. */
  lemma FourTurns(s: Shape)
    requires IsMatrix(s)
    ensures Clockwise(Clockwise(Clockwise(Clockwise(s)))) == s
  {
    var n, w := |s|, |s[0]|;
    var h := Clockwise(Clockwise(s));
    assert IsMatrix(h) && |h| == n && |h[0]| == w &&
      forall a, b :: 0 <= a < n && 0 <= b < w ==> h[a][b] == s[n - 1 - a][w - 1 - b] by {
      HalfTurn(s);
    }
    var f := Clockwise(Clockwise(h));
    assert IsMatrix(f) && |f| == n && |f[0]| == w &&
      forall a, b :: 0 <= a < n && 0 <= b < w ==> f[a][b] == h[n - 1 - a][w - 1 - b] by {
      HalfTurn(h);
    }
    forall a, b | 0 <= a < n && 0 <= b < w ensures f[a][b] == s[a][b] {
      assert f[a][b] == h[n - 1 - a][w - 1 - b];
      assert h[n - 1 - a][w - 1 - b] == s[a][b];
    }
    SameShape(f, s);
  }

  /** Turning keeps a piece's cells empty or of its colour. */
  lemma TurnsKeepPieceCells(s: Shape, color: int)
    requires PieceCells(s, color)
    ensures PieceCells(Clockwise(s), color)
    ensures PieceCells(CounterClockwise(s), color)
  {
    var r := Clockwise(s);
    forall a, b | 0 <= a < |r| && 0 <= b < |r[a]| ensures r[a][b] == 0 || r[a][b] == color {
      assert r[a][b] == s[|s| - 1 - b][a];
    }
    var q := CounterClockwise(s);
    forall a, b | 0 <= a < |q| && 0 <= b < |q[a]| ensures q[a][b] == 0 || q[a][b] == color {
      assert q[a][b] == s[b][MinWidth(s) - 1 - a];
    }
  }

  // ---------------------------------------------------------------------
  // The cells of a shape as a multiset

  /** The cells row after row, top-down. */
  function Flatten(s: Shape): (f: seq<int>)
  {
    if s == [] then [] else s[0] + Flatten(s[1..])
  }

  /** The multiset of cell values of a shape. */
  function Cells(s: Shape): multiset<int> {
    multiset(Flatten(s))
  }

  lemma {:induction false} FlattenConcat(p: Shape, q: Shape)
    ensures Flatten(p + q) == Flatten(p) + Flatten(q)
  {
    if p == [] {
      assert p + q == q;
    } else {
      assert (p + q)[0] == p[0];
      assert (p + q)[1..] == p[1..] + q;
      FlattenConcat(p[1..], q);
    }
  }

  lemma {:induction false} ReverseKeepsCells(s: Shape)
    ensures Cells(Reverse(s)) == Cells(s)
  {
    if s != [] {
      var init, last := s[..|s| - 1], s[|s| - 1];
      ReverseKeepsCells(init);
      assert Reverse(s) == [last] + Reverse(init);
      assert s == init + [last];
      FlattenConcat(init, [last]);
      assert Flatten([last]) == last + Flatten([]);
    }
  }

  /** Column v appended to the rows of m, one cell per row. */
  function AppendColumn(m: Shape, v: seq<int>): Shape
    requires |v| == |m|
  {
    seq(|m|, a requires 0 <= a < |m| => m[a] + [v[a]])
  }

  lemma {:induction false} AppendColumnCells(m: Shape, v: seq<int>)
    requires |v| == |m|
    ensures Cells(AppendColumn(m, v)) == Cells(m) + multiset(v)
  {
    if m != [] {
      var t := AppendColumn(m, v);
      assert t[1..] == AppendColumn(m[1..], v[1..]);
      AppendColumnCells(m[1..], v[1..]);
      assert Flatten(t) == (m[0] + [v[0]]) + Flatten(t[1..]);
      assert v == [v[0]] + v[1..];
    }
  }

  /** w empty rows have no cells. */
  lemma {:induction false} EmptyRowsCells(w: nat)
    ensures Cells(seq(w, _ => [])) == multiset{}
  {
    if w > 0 {
      var e: Shape := seq(w, _ => []);
      assert e[1..] == seq(w - 1, _ => []);
      EmptyRowsCells(w - 1);
    }
  }

  /** The transpose of a matrix whose rows all have length w. */
  function Transposed(s: Shape, w: nat): Shape
    requires forall b :: 0 <= b < |s| ==> |s[b]| == w
  {
    seq(w, a requires 0 <= a < w => seq(|s|, b requires 0 <= b < |s| => s[b][a]))
  }

  /** Transposing adds the last row of s as a new last column. */
  lemma TransposedSnoc(s: Shape, w: nat)
    requires |s| > 0 && forall b :: 0 <= b < |s| ==> |s[b]| == w
    ensures Transposed(s, w) == AppendColumn(Transposed(s[..|s| - 1], w), s[|s| - 1])
  {
    var init, last := s[..|s| - 1], s[|s| - 1];
    var ti := Transposed(init, w);
    var t := Transposed(s, w);
    var ta := AppendColumn(ti, last);
    assert |t| == |ta| == w;
    forall a | 0 <= a < w ensures |t[a]| == |ta[a]| {
    }
    forall a, b | 0 <= a < w && 0 <= b < |t[a]| ensures t[a][b] == ta[a][b] {
      if b < |s| - 1 {
        assert ta[a][b] == ti[a][b] == init[b][a];
      }
    }
    SameShape(t, ta);
  }

  lemma {:induction false} TransposedCells(s: Shape, w: nat)
    requires forall b :: 0 <= b < |s| ==> |s[b]| == w
    ensures Cells(Transposed(s, w)) == Cells(s)
  {
    if s == [] {
      assert Transposed(s, w) == seq(w, _ => []);
      EmptyRowsCells(w);
    } else {
      var init, last := s[..|s| - 1], s[|s| - 1];
      TransposedCells(init, w);
      var ti := Transposed(init, w);
      TransposedSnoc(s, w);
      AppendColumnCells(ti, last);
      assert s == init + [last];
      FlattenConcat(init, [last]);
      assert Flatten([last]) == last + Flatten([]);
    }
  }

  lemma ZipKeepsCells(s: Shape)
    requires IsMatrix(s)
    ensures Cells(Zip(s)) == Cells(s)
  {
    assert MinWidth(s) == |s[0]|;
    assert Zip(s) == Transposed(s, |s[0]|);
    TransposedCells(s, |s[0]|);
  }

  /** Turning a matrix keeps its multiset of cell values, and with it the
      number of filled (non-zero) cells. */
  lemma TurnsKeepCells(s: Shape)
    requires IsMatrix(s)
    ensures Cells(Clockwise(s)) == Cells(s)
    ensures Cells(CounterClockwise(s)) == Cells(s)
  {
    var r := Reverse(s);
    assert IsMatrix(r) by {
      assert r[0] == s[|s| - 1];
    }
    ClockwiseIsZipReversed(s);
    CounterClockwiseIsReversedZip(s);
    ReverseKeepsCells(s);
    ZipKeepsCells(r);
    ZipKeepsCells(s);
    ReverseKeepsCells(Zip(s));
  }
}
