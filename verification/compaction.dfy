/** What the clear pass does to the grid, stated without the shift loop: seen column by
    column, clearing row r removes entry r and puts an empty cell on top, and clearing a
    strictly ascending list of k rows leaves k empty rows followed by the rows that were
    not matched, in their original order. */
module RowCompaction {
  import opened TetrisBoard

  /** One column after row r is cleared. */
  function RemoveAndPad(c: seq<int>, r: int): seq<int>
    requires 0 <= r < |c|
  {
    [EMPTY] + c[..r] + c[r + 1..]
  }

  /** The shift loop followed by emptying row 0 removes row r from every column and
      pads the column with an empty cell on top. */
  lemma ClearRowRemovesRow(g: Grid, r: int)
    requires WellShaped(g) && 0 <= r < GRID_HEIGHT
    ensures forall x :: 0 <= x < GRID_WIDTH ==> ClearRow(g, r)[x] == RemoveAndPad(g[x], r)
  {
    forall x | 0 <= x < GRID_WIDTH
      ensures ClearRow(g, r)[x] == RemoveAndPad(g[x], r)
    {
      var a, b := ClearRow(g, r)[x], RemoveAndPad(g[x], r);
      assert |a| == |b|;
      forall z | 0 <= z < GRID_HEIGHT
        ensures a[z] == b[z]
      {
      }
    }
  }

  /** k empty cells. */
  function Zeros(k: nat): seq<int>
  {
    seq(k, _ => EMPTY)
  }

  /** The entries of c whose indices are not in S, in their original order. */
  function Keep(c: seq<int>, S: set<int>): seq<int>
    decreases |c|
  {
    if |c| == 0 then []
    else Keep(c[..|c| - 1], S) + (if |c| - 1 in S then [] else [c[|c| - 1]])
  }

  function Members(ms: seq<int>): set<int>
  {
    set z | z in ms
  }

  /** The clear pass on a single column. */
  function FoldColumn(c: seq<int>, ms: seq<int>): (r: seq<int>)
    requires forall i :: 0 <= i < |ms| ==> 0 <= ms[i] < |c|
    decreases |ms|
    ensures |r| == |c|
  {
    if |ms| == 0 then c else FoldColumn(RemoveAndPad(c, ms[0]), ms[1..])
  }

  lemma {:induction false} ClearAllByColumns(g: Grid, ms: seq<int>)
    requires WellShaped(g) && MatchesInRange(ms)
    ensures forall x :: 0 <= x < GRID_WIDTH ==> ClearAll(g, ms)[x] == FoldColumn(g[x], ms)
    decreases |ms|
  {
    if |ms| > 0 {
      var g1 := ClearRow(g, ms[0]);
      ClearRowRemovesRow(g, ms[0]);
      ClearAllByColumns(g1, ms[1..]);
    }
  }

  /** A prefix containing no removed index is kept whole. */
  lemma {:induction false} KeepUntouched(c: seq<int>, S: set<int>, n: nat)
    requires n <= |c|
    requires forall i :: 0 <= i < n ==> i !in S
    ensures Keep(c[..n], S) == c[..n]
  {
    if n > 0 {
      assert c[..n][..n - 1] == c[..n - 1];
      KeepUntouched(c, S, n - 1);
      assert c[..n] == c[..n - 1] + [c[n - 1]];
    }
  }

  /** Keeping the rows of a cleared column: the padded cell comes first, then the
      original column with row r removed as well. */
  lemma {:induction false} KeepAfterRemove(c: seq<int>, r: int, S: set<int>, n: nat)
    requires 0 <= r < n <= |c|
    requires forall i :: i in S ==> r < i
    ensures Keep(RemoveAndPad(c, r)[..n], S) == [EMPTY] + Keep(c[..n], S + {r})
    decreases n
  {
    if n == r + 1 {
      KeepAfterRemoveUpTo(c, r, S);
    } else {
      KeepAfterRemove(c, r, S, n - 1);
      KeepAfterRemoveStep(c, r, S, n);
    }
  }

  /** The base case: up to and including row r. */
  lemma KeepAfterRemoveUpTo(c: seq<int>, r: int, S: set<int>)
    requires 0 <= r < |c|
    requires forall i :: i in S ==> r < i
    ensures Keep(RemoveAndPad(c, r)[..r + 1], S) == [EMPTY] + Keep(c[..r + 1], S + {r})
  {
    var c' := RemoveAndPad(c, r);
    assert Keep(c'[..r + 1], S) == [EMPTY] + c[..r] by {
      assert c'[..r + 1] == [EMPTY] + c[..r];
      KeepUntouched(c', S, r + 1);
    }
    assert Keep(c[..r + 1], S + {r}) == c[..r] by {
      assert c[..r + 1][..r] == c[..r];
      KeepUntouched(c, S + {r}, r);
    }
  }

  /** The step: a row n - 1 below r is kept or dropped alike in both columns. */
  lemma KeepAfterRemoveStep(c: seq<int>, r: int, S: set<int>, n: nat)
    requires 0 <= r < n - 1 && n <= |c|
    requires Keep(RemoveAndPad(c, r)[..n - 1], S) == [EMPTY] + Keep(c[..n - 1], S + {r})
    ensures Keep(RemoveAndPad(c, r)[..n], S) == [EMPTY] + Keep(c[..n], S + {r})
  {
    var c' := RemoveAndPad(c, r);
    var head := [EMPTY] + c[..r];
    assert c' == head + c[r + 1..];
    assert c'[n - 1] == c[r + 1..][n - 1 - |head|] == c[n - 1];
    var last := if n - 1 in S then [] else [c[n - 1]];
    var kept := Keep(c[..n - 1], S + {r});
    assert Keep(c'[..n], S) == ([EMPTY] + kept) + last by {
      assert c'[..n][..n - 1] == c'[..n - 1];
    }
    assert Keep(c[..n], S + {r}) == kept + last by {
      assert c[..n][..n - 1] == c[..n - 1];
    }
    assert ([EMPTY] + kept) + last == [EMPTY] + (kept + last);
  }

  /** The first pending row and the rest: the rest lie strictly below the first. */
  lemma MembersSplit(ms: seq<int>)
    requires |ms| > 0 && StrictlyAscending(ms)
    ensures Members(ms) == Members(ms[1..]) + {ms[0]}
    ensures forall i :: i in Members(ms[1..]) ==> ms[0] < i
  {
    forall i | i in Members(ms[1..])
      ensures ms[0] < i
    {
      var k :| 0 <= k < |ms| - 1 && ms[1..][k] == i;
      assert ms[k + 1] == i;
    }
  }

  lemma ZerosSnoc(k: nat)
    ensures Zeros(k) + [EMPTY] == Zeros(k + 1)
  {
  }

  /** The clear pass on one column with a strictly ascending list of rows. */
  lemma {:induction false} FoldColumnCompacts(c: seq<int>, ms: seq<int>)
    requires forall i :: 0 <= i < |ms| ==> 0 <= ms[i] < |c|
    requires StrictlyAscending(ms)
    ensures FoldColumn(c, ms) == Zeros(|ms|) + Keep(c, Members(ms))
    decreases |ms|
  {
    if |ms| == 0 {
      assert Members(ms) == {};
      KeepUntouched(c, {}, |c|);
      assert c[..|c|] == c;
    } else {
      var r := ms[0];
      var rest := ms[1..];
      var c' := RemoveAndPad(c, r);
      var kept := Keep(c, Members(ms));
      MembersSplit(ms);
      assert Members(rest) + {r} == Members(ms);
      FoldColumnCompacts(c', rest);
      assert Keep(c', Members(rest)) == [EMPTY] + kept by {
        KeepAfterRemove(c, r, Members(rest), |c|);
        assert c'[..|c|] == c';
        assert c[..|c|] == c;
      }
      assert FoldColumn(c, ms) == Zeros(|rest|) + ([EMPTY] + kept);
      ZerosSnoc(|rest|);
      assert Zeros(|rest|) + ([EMPTY] + kept) == (Zeros(|rest|) + [EMPTY]) + kept;
    }
  }

  /** The clear pass with k distinct pending rows recorded in ascending order: every
      column becomes k empty cells followed by the cells of the unmatched rows in their
      original order, i.e. the matched rows are dropped and k empty rows are put on
      top. The pending list is empty afterwards, and with nothing pending the grid is
      unchanged. */
  lemma ClearMatchedRowsCompacts(b: Board)
    requires WellShaped(b.grid) && MatchesInRange(b.matches) && StrictlyAscending(b.matches)
    ensures ClearMatchedRows(b).matches == []
    ensures forall x :: 0 <= x < GRID_WIDTH ==>
              ClearMatchedRows(b).grid[x] == Zeros(|b.matches|) + Keep(b.grid[x], Members(b.matches))
    ensures b.matches == [] ==> ClearMatchedRows(b).grid == b.grid
  {
    ClearAllByColumns(b.grid, b.matches);
    forall x | 0 <= x < GRID_WIDTH
      ensures ClearMatchedRows(b).grid[x] == Zeros(|b.matches|) + Keep(b.grid[x], Members(b.matches))
    {
      FoldColumnCompacts(b.grid[x], b.matches);
    }
  }

  /** Clearing rows of an empty grid leaves it empty (the pending rows that survive a
      restart are harmless). */
  lemma {:induction false} ClearKeepsEmptyGridEmpty(g: Grid, ms: seq<int>)
    requires WellShaped(g) && MatchesInRange(ms)
    requires forall x, y :: 0 <= x < GRID_WIDTH && 0 <= y < GRID_HEIGHT ==> g[x][y] == EMPTY
    ensures forall x, y :: 0 <= x < GRID_WIDTH && 0 <= y < GRID_HEIGHT ==> ClearAll(g, ms)[x][y] == EMPTY
    decreases |ms|
  {
    if |ms| > 0 {
      ClearKeepsEmptyGridEmpty(ClearRow(g, ms[0]), ms[1..]);
    }
  }
}
