/** Piece shape matrices and the two 90-degree rotation transforms.
    A shape is indexed [x][y]: the outer sequence holds the columns, so its length is
    the width and the common length of the columns is the height. */
module Matrix {

  type Shape = seq<seq<int>>

  /** A non-empty rectangular matrix. */
  predicate Rect(d: Shape)
  {
    && |d| > 0
    && |d[0]| > 0
    && forall i :: 0 <= i < |d| ==> |d[i]| == |d[0]|
  }

  /** Every column has length h (the columns of a possibly empty matrix). */
  predicate Columns(d: Shape, h: nat)
  {
    forall i :: 0 <= i < |d| ==> |d[i]| == h
  }

  /** Transposition of a matrix whose columns all have length h. */
  function TransposeH(d: Shape, h: nat): (t: Shape)
    requires Columns(d, h)
    ensures |t| == h && Columns(t, |d|)
  {
    seq(h, i requires 0 <= i < h => seq(|d|, j requires 0 <= j < |d| => d[j][i]))
  }

  function Transpose(d: Shape): (t: Shape)
    requires Rect(d)
    ensures Rect(t) && |t| == |d[0]| && |t[0]| == |d|
  {
    TransposeH(d, |d[0]|)
  }

  function Reverse(s: seq<int>): (r: seq<int>)
    ensures |r| == |s|
  {
    seq(|s|, k requires 0 <= k < |s| => s[|s| - 1 - k])
  }

  /** The swap loop that exchanges column x with column |d|-1-x ("reverse each row"). */
  function ReverseColumns(d: Shape): (r: Shape)
    ensures |r| == |d|
  {
    seq(|d|, i requires 0 <= i < |d| => d[|d| - 1 - i])
  }

  /** The swap loop that reverses every column in place ("reverse each column"). */
  function ReverseEachColumn(d: Shape): (r: Shape)
    ensures |r| == |d|
  {
    seq(|d|, i requires 0 <= i < |d| => Reverse(d[i]))
  }

  /** The clockwise transform: transpose, then reverse the order of the columns. */
  function Clockwise(d: Shape): Shape
    requires Rect(d)
  {
    ReverseColumns(Transpose(d))
  }

  /** The counter-clockwise transform: transpose, then reverse every column. */
  function CounterClockwise(d: Shape): Shape
    requires Rect(d)
  {
    ReverseEachColumn(Transpose(d))
  }

  /** Cell (i, j) of the clockwise candidate is cell (j, h-1-i) of the original,
      and the candidate's width and height are the original's height and width. */
  lemma ClockwiseCells(d: Shape)
    requires Rect(d)
    ensures Rect(Clockwise(d))
    ensures |Clockwise(d)| == |d[0]| && |Clockwise(d)[0]| == |d|
    ensures forall i, j :: 0 <= i < |d[0]| && 0 <= j < |d| ==>
              Clockwise(d)[i][j] == d[j][|d[0]| - 1 - i]
  {
  }

  /** Cell (i, j) of the counter-clockwise candidate is cell (w-1-j, i) of the original. */
  lemma CounterClockwiseCells(d: Shape)
    requires Rect(d)
    ensures Rect(CounterClockwise(d))
    ensures |CounterClockwise(d)| == |d[0]| && |CounterClockwise(d)[0]| == |d|
    ensures forall i, j :: 0 <= i < |d[0]| && 0 <= j < |d| ==>
              CounterClockwise(d)[i][j] == d[|d| - 1 - j][i]
  {
  }

  /** Two rectangular matrices of the same dimensions and cells are equal. */
  lemma Extensionality(a: Shape, b: Shape)
    requires Rect(a) && Rect(b) && |a| == |b| && |a[0]| == |b[0]|
    requires forall i, j :: 0 <= i < |a| && 0 <= j < |a[0]| ==> a[i][j] == b[i][j]
    ensures a == b
  {
    forall i | 0 <= i < |a|
      ensures a[i] == b[i]
    {
      assert |a[i]| == |b[i]|;
      forall j | 0 <= j < |a[i]|
        ensures a[i][j] == b[i][j]
      {
      }
    }
  }

  /** The counter-clockwise transform undoes the clockwise one, and vice versa. */
  lemma {:induction false} RotationsAreInverse(d: Shape)
    requires Rect(d)
    ensures CounterClockwise(Clockwise(d)) == d
    ensures Clockwise(CounterClockwise(d)) == d
  {
    CounterClockwiseUndoesClockwise(d);
    ClockwiseUndoesCounterClockwise(d);
  }

  lemma {:induction false} CounterClockwiseUndoesClockwise(d: Shape)
    requires Rect(d)
    ensures CounterClockwise(Clockwise(d)) == d
  {
    ClockwiseCells(d);
    var c := Clockwise(d);
    CounterClockwiseCells(c);
    Extensionality(CounterClockwise(c), d);
  }

  lemma {:induction false} ClockwiseUndoesCounterClockwise(d: Shape)
    requires Rect(d)
    ensures Clockwise(CounterClockwise(d)) == d
  {
    CounterClockwiseCells(d);
    var cc := CounterClockwise(d);
    ClockwiseCells(cc);
    Extensionality(Clockwise(cc), d);
  }

  /** Two clockwise transforms turn the matrix half-way round. */
  lemma {:induction false} HalfTurn(d: Shape)
    requires Rect(d)
    ensures Rect(Clockwise(Clockwise(d)))
    ensures |Clockwise(Clockwise(d))| == |d| && |Clockwise(Clockwise(d))[0]| == |d[0]|
    ensures forall i, j :: 0 <= i < |d| && 0 <= j < |d[0]| ==>
              Clockwise(Clockwise(d))[i][j] == d[|d| - 1 - i][|d[0]| - 1 - j]
  {
    ClockwiseCells(d);
    ClockwiseCells(Clockwise(d));
  }

  /** Four clockwise transforms restore the original matrix. */
  lemma {:induction false} FourClockwiseIsIdentity(d: Shape)
    requires Rect(d)
    ensures Clockwise(Clockwise(Clockwise(Clockwise(d)))) == d
  {
    HalfTurn(d);
    var h := Clockwise(Clockwise(d));
    HalfTurn(h);
    Extensionality(Clockwise(Clockwise(h)), d);
  }

  // ---------------------------------------------------------------------------
  // The multiset of cell tags of a matrix.

  /** The multiset of every cell of the matrix. */
  function CellBag(d: Shape): multiset<int>
  {
    if |d| == 0 then multiset{} else CellBag(d[..|d| - 1]) + multiset(d[|d| - 1])
  }

  /** The number of non-empty (non-zero) cells. */
  function NonZeroCount(d: Shape): int
  {
    |CellBag(d)| - CellBag(d)[0]
  }

  lemma {:induction false} CellBagCons(a: seq<int>, rest: Shape)
    ensures CellBag([a] + rest) == multiset(a) + CellBag(rest)
    decreases |rest|
  {
    if |rest| == 0 {
      assert [a] + rest == [a];
      assert [a][..0] == [];
    } else {
      var n := |rest|;
      assert ([a] + rest)[..n] == [a] + rest[..n - 1];
      CellBagCons(a, rest[..n - 1]);
    }
  }

  lemma {:induction false} CellBagReverseColumns(d: Shape)
    ensures CellBag(ReverseColumns(d)) == CellBag(d)
    decreases |d|
  {
    if |d| > 0 {
      var n := |d|;
      var front := d[..n - 1];
      assert ReverseColumns(d) == [d[n - 1]] + ReverseColumns(front);
      CellBagCons(d[n - 1], ReverseColumns(front));
      CellBagReverseColumns(front);
    }
  }

  lemma {:induction false} ReversePreservesMultiset(s: seq<int>)
    ensures multiset(Reverse(s)) == multiset(s)
    decreases |s|
  {
    if |s| > 0 {
      var n := |s|;
      assert Reverse(s) == [s[n - 1]] + Reverse(s[..n - 1]);
      ReversePreservesMultiset(s[..n - 1]);
      assert s == s[..n - 1] + [s[n - 1]];
    }
  }

  lemma {:induction false} CellBagReverseEachColumn(d: Shape)
    ensures CellBag(ReverseEachColumn(d)) == CellBag(d)
    decreases |d|
  {
    if |d| > 0 {
      var n := |d|;
      assert ReverseEachColumn(d)[..n - 1] == ReverseEachColumn(d[..n - 1]);
      CellBagReverseEachColumn(d[..n - 1]);
      ReversePreservesMultiset(d[n - 1]);
    }
  }

  /** Appending one cell to each of h columns adds those cells to the bag. */
  lemma {:induction false} CellBagAppendRow(a: Shape, c: seq<int>)
    requires |a| == |c|
    ensures CellBag(seq(|a|, i requires 0 <= i < |a| => a[i] + [c[i]])) == CellBag(a) + multiset(c)
    decreases |a|
  {
    var e := seq(|a|, i requires 0 <= i < |a| => a[i] + [c[i]]);
    if |a| == 0 {
      assert c == [];
    } else {
      var n := |a|;
      var a' := a[..n - 1];
      var c' := c[..n - 1];
      assert e[..n - 1] == seq(|a'|, i requires 0 <= i < |a'| => a'[i] + [c'[i]]);
      CellBagAppendRow(a', c');
      assert c == c' + [c[n - 1]];
    }
  }

  function EmptyColumns(h: nat): Shape
  {
    seq(h, i => [])
  }

  lemma {:induction false} CellBagEmptyColumns(h: nat)
    ensures CellBag(EmptyColumns(h)) == multiset{}
  {
    if h > 0 {
      assert EmptyColumns(h)[..h - 1] == EmptyColumns(h - 1);
      CellBagEmptyColumns(h - 1);
    }
  }

  lemma {:induction false} CellBagTransposeH(d: Shape, h: nat)
    requires Columns(d, h)
    ensures CellBag(TransposeH(d, h)) == CellBag(d)
    decreases |d|
  {
    if |d| == 0 {
      assert TransposeH(d, h) == EmptyColumns(h);
      CellBagEmptyColumns(h);
    } else {
      var n := |d|;
      var front := d[..n - 1];
      var t := TransposeH(front, h);
      var c := d[n - 1];
      forall i | 0 <= i < h
        ensures TransposeH(d, h)[i] == t[i] + [c[i]]
      {
        assert |TransposeH(d, h)[i]| == |t[i] + [c[i]]|;
      }
      assert TransposeH(d, h) == seq(|t|, i requires 0 <= i < |t| => t[i] + [c[i]]);
      CellBagAppendRow(t, c);
      CellBagTransposeH(front, h);
    }
  }

  /** Both rotation transforms permute the cells: the multiset of tags is unchanged,
      and so is the number of non-empty cells. */
  lemma RotationsPreserveCells(d: Shape)
    requires Rect(d)
    ensures CellBag(Clockwise(d)) == CellBag(d)
    ensures CellBag(CounterClockwise(d)) == CellBag(d)
    ensures NonZeroCount(Clockwise(d)) == NonZeroCount(d)
    ensures NonZeroCount(CounterClockwise(d)) == NonZeroCount(d)
  {
    CellBagTransposeH(d, |d[0]|);
    CellBagReverseColumns(Transpose(d));
    CellBagReverseEachColumn(Transpose(d));
  }
}
