/**
  The 4x4 board, stored row-major as 16 cells, and the sliding half of
  `move`: right, up and down are the left slide conjugated by a horizontal
  flip, a transposition, or both. The "line view" below is the independent
  description: in every direction, the k-th line read from the edge the tiles
  slide towards is processed by `SlideLine` on its own.
 */
module Grid {
  import opened Lines

  /** Row-major cells; cell `4 * r + c` is row `r`, column `c`. */
  type Board = b: seq<int> | |b| == 16 witness seq(16, _ => 0)

  /** The direction names `move` recognises, plus any other name. */
  datatype Direction = Up | Down | Left | Right | Unrecognised

  /** The order in which the engine and the searches try directions. */
  const Directions: seq<Direction> := [Up, Down, Left, Right]

  function Row(b: Board, r: nat): (l: Line)
    requires r < 4
    ensures |l| == 4
  {
    b[4 * r .. 4 * r + 4]
  }

  /** `np.fliplr`: every row read right to left. */
  function Reverse(b: Board): Board
  {
    [b[3], b[2], b[1], b[0], b[7], b[6], b[5], b[4],
     b[11], b[10], b[9], b[8], b[15], b[14], b[13], b[12]]
  }

  /** `np.transpose`: rows become columns. */
  function Transpose(b: Board): Board
  {
    [b[0], b[4], b[8], b[12], b[1], b[5], b[9], b[13],
     b[2], b[6], b[10], b[14], b[3], b[7], b[11], b[15]]
  }

  /** Sum of all tile values on the board. */
  function Total(b: Board): int
  {
    b[0] + b[1] + b[2] + b[3] + b[4] + b[5] + b[6] + b[7]
    + b[8] + b[9] + b[10] + b[11] + b[12] + b[13] + b[14] + b[15]
  }

  /** `compress` followed by `merge` on the whole board: each row slides left
      on its own, and the flag is raised when any row's flag is. */
  function SlideLeft(b: Board): (Board, bool)
  {
    var r0, r1, r2, r3 := SlideLine(Row(b, 0)), SlideLine(Row(b, 1)), SlideLine(Row(b, 2)), SlideLine(Row(b, 3));
    (r0.0 + r1.0 + r2.0 + r3.0, r0.1 || r1.1 || r2.1 || r3.1)
  }

  /** Board index of the `j`-th cell of the `k`-th line, counted from the
      edge that direction `d` pushes tiles towards. */
  function Cell(d: Direction, k: nat, j: nat): (i: nat)
    requires d != Unrecognised && k < 4 && j < 4
    ensures i < 16
  {
    match d
    case Left => 4 * k + j
    case Right => 4 * k + 3 - j
    case Up => 4 * j + k
    case Down => 4 * (3 - j) + k
  }

  /** The line a cell belongs to, and its position in that line. */
  function LineIndex(d: Direction, i: nat): (k: nat)
    requires d != Unrecognised && i < 16
    ensures k < 4
  {
    if d == Left || d == Right then i / 4 else i % 4
  }

  function LinePosition(d: Direction, i: nat): (j: nat)
    requires d != Unrecognised && i < 16
    ensures j < 4
  {
    match d
    case Left => i % 4
    case Right => 3 - i % 4
    case Up => i / 4
    case Down => 3 - i / 4
  }

  /** Every cell sits on exactly one line of each direction. */
  lemma CellCovers(d: Direction, i: nat)
    requires d != Unrecognised && i < 16
    ensures Cell(d, LineIndex(d, i), LinePosition(d, i)) == i
  {
  }

  /** The k-th line of the board as direction `d` sees it. */
  function LineOf(b: Board, d: Direction, k: nat): (l: Line)
    requires d != Unrecognised && k < 4
    ensures |l| == 4
  {
    [b[Cell(d, k, 0)], b[Cell(d, k, 1)], b[Cell(d, k, 2)], b[Cell(d, k, 3)]]
  }

  /** The sliding part of `move`, before any tile is spawned. A name other
      than the four directions leaves the board as it is. */
  function Slide(b: Board, d: Direction): (Board, bool)
  {
    match d
    case Left => SlideLeft(b)
    case Right =>
      var (s, moved) := SlideLeft(Reverse(b));
      (Reverse(s), moved)
    case Up =>
      var (s, moved) := SlideLeft(Transpose(b));
      (Transpose(s), moved)
    case Down =>
      var (s, moved) := SlideLeft(Reverse(Transpose(b)));
      (Transpose(Reverse(s)), moved)
    case Unrecognised => (b, false)
  }

  // ---------------------------------------------------------------------
  // The line view

  lemma ConcatAt(r0: Line, r1: Line, r2: Line, r3: Line, k: nat, j: nat)
    requires |r0| == 4 && |r1| == 4 && |r2| == 4 && |r3| == 4 && k < 4 && j < 4
    ensures (r0 + r1 + r2 + r3)[4 * k + j] == (if k == 0 then r0 else if k == 1 then r1 else if k == 2 then r2 else r3)[j]
  {
  }

  lemma SlideLeftAt(b: Board, k: nat, j: nat)
    requires k < 4 && j < 4
    ensures SlideLeft(b).0[4 * k + j] == SlideLine(Row(b, k)).0[j]
  {
    ConcatAt(SlideLine(Row(b, 0)).0, SlideLine(Row(b, 1)).0, SlideLine(Row(b, 2)).0, SlideLine(Row(b, 3)).0, k, j);
  }

  lemma SlideLeftFlag(b: Board)
    ensures SlideLeft(b).1 <==> exists k :: 0 <= k < 4 && SlideLine(Row(b, k)).1
  {
  }

  /** The board that direction `d` hands to the left slide, and the rows of
      that board are exactly the lines of `d`. */
  function Oriented(b: Board, d: Direction): Board
  {
    match d
    case Right => Reverse(b)
    case Up => Transpose(b)
    case Down => Reverse(Transpose(b))
    case _ => b
  }

  lemma OrientedRows(b: Board, d: Direction, k: nat)
    requires d != Unrecognised && k < 4
    ensures Row(Oriented(b, d), k) == LineOf(b, d, k)
  {
  }

  /** Undoing the orientation puts line cell `(k, j)` back where `Cell` says. */
  lemma RestoreAt(s: Board, d: Direction, k: nat, j: nat)
    requires d != Unrecognised && k < 4 && j < 4
    ensures (match d
             case Left => s
             case Right => Reverse(s)
             case Up => Transpose(s)
             case Down => Transpose(Reverse(s))
             case Unrecognised => s)[Cell(d, k, j)] == s[4 * k + j]
  {
    match d
    case Left =>
    case Right => ReverseAt(s, k, 3 - j);
    case Up => TransposeAt(s, j, k);
    case Down =>
      TransposeAt(Reverse(s), 3 - j, k);
      ReverseAt(s, k, 3 - j);
  }

  lemma ReverseAt(s: Board, r: nat, c: nat)
    requires r < 4 && c < 4
    ensures Reverse(s)[4 * r + c] == s[4 * r + 3 - c]
  {
  }

  lemma TransposeAt(s: Board, r: nat, c: nat)
    requires r < 4 && c < 4
    ensures Transpose(s)[4 * r + c] == s[4 * c + r]
  {
  }

  /** Sliding in direction `d` slides each of `d`'s lines with `SlideLine`
      independently, and the move flag is raised exactly when some line's
      flag is. */
  lemma SlideByLines(b: Board, d: Direction)
    requires d != Unrecognised
    ensures forall k, j :: 0 <= k < 4 && 0 <= j < 4 ==>
      Slide(b, d).0[Cell(d, k, j)] == SlideLine(LineOf(b, d, k)).0[j]
    ensures Slide(b, d).1 <==> exists k :: 0 <= k < 4 && SlideLine(LineOf(b, d, k)).1
  {
    forall k, j | 0 <= k < 4 && 0 <= j < 4
      ensures Slide(b, d).0[Cell(d, k, j)] == SlideLine(LineOf(b, d, k)).0[j]
    {
      SlideAt(b, d, k, j);
    }
    SlideFlagByLines(b, d);
  }

  /** The flag half of the line view. */
  lemma SlideFlagByLines(b: Board, d: Direction)
    requires d != Unrecognised
    ensures Slide(b, d).1 <==> exists k :: 0 <= k < 4 && SlideLine(LineOf(b, d, k)).1
  {
    var o := Oriented(b, d);
    assert Slide(b, d).1 == SlideLeft(o).1;
    forall k | 0 <= k < 4 ensures Row(o, k) == LineOf(b, d, k) {
      OrientedRows(b, d, k);
    }
    SlideLeftFlag(o);
  }

  /** One cell of the line view. */
  lemma SlideAt(b: Board, d: Direction, k: nat, j: nat)
    requires d != Unrecognised && k < 4 && j < 4
    ensures Slide(b, d).0[Cell(d, k, j)] == SlideLine(LineOf(b, d, k)).0[j]
  {
    var o := Oriented(b, d);
    var s := SlideLeft(o);
    assert Slide(b, d).0 == (match d
             case Left => s.0
             case Right => Reverse(s.0)
             case Up => Transpose(s.0)
             case Down => Transpose(Reverse(s.0))
             case Unrecognised => s.0);
    RestoreAt(s.0, d, k, j);
    SlideLeftAt(o, k, j);
    OrientedRows(b, d, k);
  }

  // ---------------------------------------------------------------------
  // What a slide does to the whole board

  lemma Sum4(l: Line)
    requires |l| == 4
    ensures Sum(l) == l[0] + l[1] + l[2] + l[3]
  {
    var t1 := l[1..];
    var t2 := t1[1..];
    var t3 := t2[1..];
    assert t3[1..] == [];
    assert Sum(t3) == l[3];
    assert Sum(t2) == l[2] + l[3];
    assert Sum(t1) == l[1] + l[2] + l[3];
  }

  /** The board total is the sum of its four lines, in any direction. */
  lemma TotalByLines(b: Board, d: Direction)
    requires d != Unrecognised
    ensures Total(b) == Sum(LineOf(b, d, 0)) + Sum(LineOf(b, d, 1)) + Sum(LineOf(b, d, 2)) + Sum(LineOf(b, d, 3))
  {
    Sum4(LineOf(b, d, 0));
    Sum4(LineOf(b, d, 1));
    Sum4(LineOf(b, d, 2));
    Sum4(LineOf(b, d, 3));
  }

  /** Read along direction `d`, the slid board's lines are the slid lines. */
  lemma SlidLines(b: Board, d: Direction, k: nat)
    requires d != Unrecognised && k < 4
    ensures LineOf(Slide(b, d).0, d, k) == SlideLine(LineOf(b, d, k)).0
  {
    SlideAt(b, d, k, 0);
    SlideAt(b, d, k, 1);
    SlideAt(b, d, k, 2);
    SlideAt(b, d, k, 3);
  }

  /** The slide keeps the board total. */
  lemma SlideKeepsTotal(b: Board, d: Direction)
    ensures Total(Slide(b, d).0) == Total(b)
  {
    if d != Unrecognised {
      var r := Slide(b, d).0;
      forall k | 0 <= k < 4 ensures Sum(LineOf(r, d, k)) == Sum(LineOf(b, d, k)) {
        SlidLines(b, d, k);
        SlideLineEffect(LineOf(b, d, k));
      }
      TotalByLines(b, d);
      TotalByLines(r, d);
    }
  }

  /** The slide's flag is raised exactly when the board changed, and a
      raised flag leaves an empty cell for the new tile. */
  lemma SlideFlag(b: Board, d: Direction)
    ensures Slide(b, d).1 <==> Slide(b, d).0 != b
    ensures Slide(b, d).1 ==> exists i :: 0 <= i < 16 && Slide(b, d).0[i] == 0
  {
    if Slide(b, d).1 {
      MovedSlide(b, d);
    } else {
      UnmovedSlide(b, d);
    }
  }

  lemma MovedSlide(b: Board, d: Direction)
    requires Slide(b, d).1
    ensures Slide(b, d).0 != b
    ensures exists i :: 0 <= i < 16 && Slide(b, d).0[i] == 0
  {
    var r := Slide(b, d).0;
    SlideFlagByLines(b, d);
    var k :| 0 <= k < 4 && SlideLine(LineOf(b, d, k)).1;
    var l := LineOf(b, d, k);
    SlideLineEffect(l);
    SlidLines(b, d, k);
    assert LineOf(r, d, k) != l;
    var z :| 0 <= z < 4 && SlideLine(l).0[z] == 0;
    SlideAt(b, d, k, z);
  }

  lemma UnmovedSlide(b: Board, d: Direction)
    requires !Slide(b, d).1
    ensures Slide(b, d).0 == b
  {
    if d != Unrecognised {
      var r := Slide(b, d).0;
      SlideFlagByLines(b, d);
      forall i | 0 <= i < 16 ensures r[i] == b[i] {
        CellCovers(d, i);
        var k, j := LineIndex(d, i), LinePosition(d, i);
        var l := LineOf(b, d, k);
        SlideLineEffect(l);
        SlideAt(b, d, k, j);
        assert l[j] == b[Cell(d, k, j)];
      }
    }
  }
}
