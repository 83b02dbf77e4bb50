/**
  The minimax leaf score: ten points per empty cell, one point off per row
  and per column that is not non-decreasing, five points per pair of equal
  horizontal or vertical neighbours (empty pairs included), and the total
  negated.
 */
module Heuristics {
  import opened Lines
  import opened Grid

  /** How many `j < n` satisfy `p`. */
  function Count(p: nat -> bool, n: nat): nat
  {
    |set j: nat | j < n && p(j)|
  }

  lemma CountStep(p: nat -> bool, n: nat)
    ensures Count(p, n + 1) == Count(p, n) + (if p(n) then 1 else 0)
  {
    var a := set j: nat | j < n && p(j);
    var b := set j: nat | j < n + 1 && p(j);
    if p(n) {
      assert b == a + {n};
    } else {
      assert b == a;
    }
  }

  lemma {:induction false} CountAtMost(p: nat -> bool, n: nat)
    ensures Count(p, n) <= n
  {
    if n > 0 {
      CountAtMost(p, n - 1);
      CountStep(p, n - 1);
    }
  }

  /** `np.any(np.diff(line) < 0)`: some neighbour is smaller than the cell
      before it. */
  predicate Descends(l: Line)
  {
    exists j :: 0 <= j < |l| - 1 && l[j + 1] < l[j]
  }

  function Column(b: Board, c: nat): (l: Line)
    requires c < 4
    ensures |l| == 4
  {
    LineOf(b, Up, c)
  }

  function IsEmpty(b: Board): nat -> bool
  {
    (i: nat) => i < 16 && b[i] == 0
  }

  function RowDescends(b: Board): nat -> bool
  {
    (r: nat) => r < 4 && Descends(Row(b, r))
  }

  function ColumnDescends(b: Board): nat -> bool
  {
    (c: nat) => c < 4 && Descends(Column(b, c))
  }

  /** Cell `i` equals the cell below it. */
  function VerticalPair(b: Board): nat -> bool
  {
    (i: nat) => i < 12 && b[i] == b[i + 4]
  }

  /** Cell `i` equals the cell to its right. */
  function HorizontalPair(b: Board): nat -> bool
  {
    (i: nat) => i < 16 && i % 4 < 3 && b[i] == b[i + 1]
  }

  /** The score `heuristic` returns, in closed form. */
  function Heuristic(b: Board): int
  {
    var empty := Count(IsEmpty(b), 16);
    var rows := Count(RowDescends(b), 4);
    var cols := Count(ColumnDescends(b), 4);
    var pairs := Count(VerticalPair(b), 16) + Count(HorizontalPair(b), 16);
    -(10 * empty - rows - cols + 5 * pairs)
  }

  /** The score lies between -280 (an empty board) and 8. */
  lemma HeuristicRange(b: Board)
    ensures -280 <= Heuristic(b) <= 8
  {
    CountAtMost(IsEmpty(b), 16);
    CountAtMost(RowDescends(b), 4);
    CountAtMost(ColumnDescends(b), 4);
    CountVertical(b);
    CountHorizontal(b);
  }

  lemma CountVertical(b: Board)
    ensures Count(VerticalPair(b), 16) <= 12
  {
    CountAtMost(VerticalPair(b), 12);
    var k := 12;
    while k < 16
      invariant 12 <= k <= 16
      invariant Count(VerticalPair(b), k) == Count(VerticalPair(b), 12)
    {
      CountStep(VerticalPair(b), k);
      k := k + 1;
    }
  }

  lemma CountHorizontal(b: Board)
    ensures Count(HorizontalPair(b), 16) <= 12
  {
    var k := 0;
    while k < 16
      invariant 0 <= k <= 16
      invariant Count(HorizontalPair(b), k) <= k - k / 4
    {
      CountStep(HorizontalPair(b), k);
      k := k + 1;
    }
  }

  /** `heuristic` with its loops: the same score as the closed form. */
  method ComputeHeuristic(b: Board) returns (score: int)
    ensures score == Heuristic(b)
  {
    score := 0;
    var empty := 0;
    var i := 0;
    while i < 16
      invariant 0 <= i <= 16
      invariant empty == Count(IsEmpty(b), i)
    {
      CountStep(IsEmpty(b), i);
      if b[i] == 0 {
        empty := empty + 1;
      }
      i := i + 1;
    }
    score := score + empty * 10;

    var r := 0;
    while r < 4
      invariant 0 <= r <= 4
      invariant score == 10 * empty - Count(RowDescends(b), r)
    {
      CountStep(RowDescends(b), r);
      if Descends(Row(b, r)) {
        score := score - 1;
      }
      r := r + 1;
    }

    var c := 0;
    while c < 4
      invariant 0 <= c <= 4
      invariant score == 10 * empty - Count(RowDescends(b), 4) - Count(ColumnDescends(b), c)
    {
      CountStep(ColumnDescends(b), c);
      if Descends(Column(b, c)) {
        score := score - 1;
      }
      c := c + 1;
    }

    var pairs := 0;
    var cell := 0;
    while cell < 16
      invariant 0 <= cell <= 16
      invariant pairs == Count(VerticalPair(b), cell) + Count(HorizontalPair(b), cell)
    {
      CountStep(VerticalPair(b), cell);
      CountStep(HorizontalPair(b), cell);
      var row, col := cell / 4, cell % 4;
      if row < 3 && b[cell] == b[cell + 4] {
        pairs := pairs + 1;
      }
      if col < 3 && b[cell] == b[cell + 1] {
        pairs := pairs + 1;
      }
      cell := cell + 1;
    }
    score := score + pairs * 5;
    score := -score;
  }
}
