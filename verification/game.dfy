/**
  The rest of the board engine: tile spawning, `move`, the move counter,
  the goal test and the sequential successor enumeration.

  The random draws of `spawn_new_tile` (which empty cell, and 2 or 4) are an
  explicit `SpawnChoice`; the searches receive a `Chooser` that fixes that
  choice for every (board, direction) pair.
 */
module Game {
  import opened Lines
  import opened Grid

  /** The two random draws of a spawn: the empty cell is the `pick`-th entry
      (taken modulo their number) of the row-major list of empty cells, and
      the new tile is 4 when `four` holds and 2 otherwise. */
  datatype SpawnChoice = SpawnChoice(pick: nat, four: bool)

  /** Stands in for the random source during a search. */
  type Chooser = (Board, Direction) -> SpawnChoice

  function NewTile(c: SpawnChoice): int
  {
    if c.four then 4 else 2
  }

  /** Empty cells at index `i` or later, in row-major order. */
  function EmptyFrom(b: Board, i: nat): (cells: seq<nat>)
    requires i <= 16
    ensures forall k :: 0 <= k < |cells| ==> i <= cells[k] < 16 && b[cells[k]] == 0
    ensures forall c :: i <= c < 16 && b[c] == 0 ==> c in cells
    ensures forall k, m :: 0 <= k < m < |cells| ==> cells[k] < cells[m]
    decreases 16 - i
  {
    if i == 16 then []
    else if b[i] == 0 then [i] + EmptyFrom(b, i + 1)
    else EmptyFrom(b, i + 1)
  }

  /** The list of empty cells `spawn_new_tile` chooses from. */
  function EmptyCells(b: Board): seq<nat>
  {
    EmptyFrom(b, 0)
  }

  /** `spawn_new_tile`: with no empty cell the board is unchanged; otherwise
      exactly one cell that was empty now holds a 2 or a 4 and every other
      cell keeps its value. */
  function Spawn(b: Board, c: SpawnChoice): (r: Board)
    ensures |EmptyCells(b)| == 0 ==> r == b && forall i :: 0 <= i < 16 ==> b[i] != 0
    ensures |EmptyCells(b)| > 0 ==>
      exists i :: 0 <= i < 16 && b[i] == 0 && r == b[i := NewTile(c)] && r[i] in {2, 4}
  {
    var empty := EmptyCells(b);
    if |empty| == 0 then b
    else
      var i := empty[c.pick % |empty|];
      assert b[i] == 0;
      b[i := NewTile(c)]
  }

  datatype MoveResult = MoveResult(board: Board, moved: bool)

  /** `move`: slide in direction `d`, then, only when something moved, spawn
      one tile. When nothing moved (including for an unrecognised direction)
      the board is returned unchanged. When something moved the result is the
      slid board plus exactly one new 2 or 4 in a cell the slide left empty,
      and the board total rises by exactly that tile. */
  function Move(b: Board, d: Direction, c: SpawnChoice): MoveResult
  {
    var (s, moved) := Slide(b, d);
    if moved then MoveResult(Spawn(s, c), true)
    else MoveResult(s, false)
  }

  /** What `move` returns, cell by cell. */
  lemma MoveEffect(b: Board, d: Direction, c: SpawnChoice)
    ensures var r := Move(b, d, c);
      && (!r.moved ==> r.board == b)
      && (d == Unrecognised ==> !r.moved)
      && (r.moved <==> Slide(b, d).0 != b)
      && (r.moved ==>
            exists i :: 0 <= i < 16 && Slide(b, d).0[i] == 0 && r.board == Slide(b, d).0[i := NewTile(c)])
  {
    var (s, moved) := Slide(b, d);
    SlideFlag(b, d);
    if moved {
      SpawnInto(s, c);
    }
  }

  /** `move` raises the board total by exactly the spawned tile, and only
      when it moved. */
  lemma MoveTotal(b: Board, d: Direction, c: SpawnChoice)
    ensures var r := Move(b, d, c);
      Total(r.board) == Total(b) + (if r.moved then NewTile(c) else 0)
  {
    var (s, moved) := Slide(b, d);
    SlideFlag(b, d);
    SlideKeepsTotal(b, d);
    if moved {
      SpawnInto(s, c);
    }
  }

  /** Changing one cell changes the total by the difference. */
  lemma TotalUpdate(b: Board, i: nat, v: int)
    requires i < 16
    ensures Total(b[i := v]) == Total(b) - b[i] + v
  {
  }

  /** A board with an empty cell receives its new tile in an empty cell. */
  lemma SpawnInto(b: Board, c: SpawnChoice)
    requires exists i :: 0 <= i < 16 && b[i] == 0
    ensures exists i :: 0 <= i < 16 && b[i] == 0 && Spawn(b, c) == b[i := NewTile(c)]
    ensures Total(Spawn(b, c)) == Total(b) + NewTile(c)
  {
    var z :| 0 <= z < 16 && b[z] == 0;
    assert z in EmptyCells(b);
    var i :| 0 <= i < 16 && b[i] == 0 && Spawn(b, c) == b[i := NewTile(c)];
    TotalUpdate(b, i, NewTile(c));
  }

  /** `BOARD_COUNTER` after one call of `move`: one more exactly when it moved. */
  function CountMove(counter: nat, r: MoveResult): nat
  {
    if r.moved then counter + 1 else counter
  }

  /** The successor `move` produces when the chooser fixes the spawn. */
  function Step(b: Board, d: Direction, ch: Chooser): MoveResult
  {
    Move(b, d, ch(b, d))
  }

  datatype Successors = Successors(boards: seq<Board>, counter: nat)

  /** A successor function in the shape of `move`. The searches are stated
      over any such function; `Mover` is the engine's own. */
  type Transition = (Board, Direction) -> MoveResult

  function Mover(ch: Chooser): Transition
  {
    (b: Board, d: Direction) => Step(b, d, ch)
  }

  /** One call of `next` per direction, in the order up, down, left, right. */
  function Attempts(b: Board, next: Transition): (ms: seq<MoveResult>)
    ensures |ms| == 4
    ensures forall k :: 0 <= k < 4 ==> ms[k] == next(b, Directions[k])
  {
    [next(b, Up), next(b, Down), next(b, Left), next(b, Right)]
  }

  /** The loop of sequential `get_possible_moves`: keep the board of every
      attempt that moved, counting each such move. */
  function Gather(ms: seq<MoveResult>, counter: nat): Successors
  {
    if ms == [] then Successors([], counter)
    else
      var rest := Gather(ms[1..], CountMove(counter, ms[0]));
      if ms[0].moved then Successors([ms[0].board] + rest.boards, rest.counter) else rest
  }

  /** Sequential `get_possible_moves`. */
  function GetPossibleMoves(b: Board, ch: Chooser, counter: nat): Successors
  {
    Gather(Attempts(b, Mover(ch)), counter)
  }

  /** The boards sequential `get_possible_moves` returns when `move` is `next`. */
  function Children(b: Board, next: Transition): seq<Board>
  {
    Gather(Attempts(b, next), 0).boards
  }

  /** The largest cell value, `np.max`. */
  function MaxTile(b: Board): int
  {
    MaxTileFrom(b, 0)
  }

  /** The largest of the cells `i` to 15. */
  function MaxTileFrom(b: Board, i: nat): int
    requires i < 16
    decreases 16 - i
  {
    if i == 15 then b[15]
    else
      var rest := MaxTileFrom(b, i + 1);
      if b[i] > rest then b[i] else rest
  }

  /** `MaxTileFrom` bounds the cells from `i` on and is one of them. */
  lemma {:induction false} MaxTileFromBounds(b: Board, i: nat)
    requires i < 16
    ensures forall k :: i <= k < 16 ==> b[k] <= MaxTileFrom(b, i)
    ensures exists k :: i <= k < 16 && b[k] == MaxTileFrom(b, i)
    decreases 16 - i
  {
    if i < 15 {
      MaxTileFromBounds(b, i + 1);
      var k :| i + 1 <= k < 16 && b[k] == MaxTileFrom(b, i + 1);
      if b[i] <= MaxTileFrom(b, i + 1) {
        assert b[k] == MaxTileFrom(b, i);
      }
    } else {
      assert b[15] == MaxTileFrom(b, 15);
    }
  }

  /** `is_goal` on a plain board: the largest tile is exactly the target. */
  function IsGoal(b: Board, target: int): bool
  {
    MaxTile(b) == target
  }

  /** A board is a goal exactly when some tile equals the target and none
      exceeds it, so a board whose tiles overshoot the target is not one. */
  lemma IsGoalMeaning(b: Board, target: int)
    ensures IsGoal(b, target) <==>
      (exists i :: 0 <= i < 16 && b[i] == target) && (forall i :: 0 <= i < 16 ==> b[i] <= target)
  {
    MaxTileFromBounds(b, 0);
  }

  // ---------------------------------------------------------------------
  // Properties of the successor enumeration

  /** Indices from `i` on of the attempts that moved, in increasing order. */
  function MovedFrom(ms: seq<MoveResult>, i: nat): (idx: seq<nat>)
    requires i <= |ms|
    ensures forall k :: 0 <= k < |idx| ==> i <= idx[k] < |ms| && ms[idx[k]].moved
    ensures forall c :: i <= c < |ms| && ms[c].moved ==> c in idx
    ensures forall k, m :: 0 <= k < m < |idx| ==> idx[k] < idx[m]
    decreases |ms| - i
  {
    if i == |ms| then []
    else if ms[i].moved then [i] + MovedFrom(ms, i + 1)
    else MovedFrom(ms, i + 1)
  }

  /** Indices of the attempts that moved, in increasing order. */
  function MovedIndices(ms: seq<MoveResult>): seq<nat>
  {
    MovedFrom(ms, 0)
  }

  /** The loop of `get_possible_moves` from attempt `i` on. */
  lemma {:induction false} GatherShape(ms: seq<MoveResult>, i: nat, counter: nat)
    requires i <= |ms|
    ensures var r := Gather(ms[i..], counter);
      var idx := MovedFrom(ms, i);
      && |r.boards| == |idx|
      && (forall k :: 0 <= k < |idx| ==> r.boards[k] == ms[idx[k]].board)
      && r.counter == counter + |r.boards|
    decreases |ms| - i
  {
    if i < |ms| {
      assert ms[i..][1..] == ms[i + 1..];
      var rest := Gather(ms[i + 1..], CountMove(counter, ms[i]));
      var tail := MovedFrom(ms, i + 1);
      GatherShape(ms, i + 1, CountMove(counter, ms[i]));
      if ms[i].moved {
        var r := Gather(ms[i..], counter);
        assert r == Successors([ms[i].board] + rest.boards, rest.counter);
        var idx := MovedFrom(ms, i);
        assert idx == [i] + tail;
        forall k | 0 <= k < |idx| ensures r.boards[k] == ms[idx[k]].board {
          if k > 0 {
            assert r.boards[k] == rest.boards[k - 1] && idx[k] == tail[k - 1];
          }
        }
      }
    }
  }

  /** `get_possible_moves` returns the boards of exactly the directions whose
      move reported success, in the order up, down, left, right: `idx` lists
      the positions in that order of the directions that moved, increasing,
      and the i-th successor is the board of direction `idx[i]`. There are
      at most four, and the counter rises once per successor. */
  lemma PossibleMoves(b: Board, ch: Chooser, counter: nat)
    ensures var r := GetPossibleMoves(b, ch, counter);
      var idx := MovedIndices(Attempts(b, Mover(ch)));
      && |r.boards| <= 4
      && r.counter == counter + |r.boards|
      && |r.boards| == |idx|
      && (forall i :: 0 <= i < |idx| ==> idx[i] < 4 && Step(b, Directions[idx[i]], ch).moved)
      && (forall k :: 0 <= k < 4 && Step(b, Directions[k], ch).moved ==> k in idx)
      && (forall i, j :: 0 <= i < j < |idx| ==> idx[i] < idx[j])
      && (forall i :: 0 <= i < |idx| ==> r.boards[i] == Step(b, Directions[idx[i]], ch).board)
  {
    GatherFacts(Attempts(b, Mover(ch)), counter);
    MoverAttempts(b, ch);
  }

  /** The attempts `get_possible_moves` makes are the engine's moves. */
  lemma MoverAttempts(b: Board, ch: Chooser)
    ensures forall k :: 0 <= k < 4 ==> Attempts(b, Mover(ch))[k] == Step(b, Directions[k], ch)
  {
  }

  /** The same facts for any list of attempts. */
  lemma GatherFacts(ms: seq<MoveResult>, counter: nat)
    ensures var r := Gather(ms, counter);
      var idx := MovedIndices(ms);
      && |r.boards| <= |ms|
      && r.counter == counter + |r.boards|
      && |r.boards| == |idx|
      && (forall i :: 0 <= i < |idx| ==> idx[i] < |ms| && ms[idx[i]].moved)
      && (forall k :: 0 <= k < |ms| && ms[k].moved ==> k in idx)
      && (forall i, j :: 0 <= i < j < |idx| ==> idx[i] < idx[j])
      && (forall i :: 0 <= i < |idx| ==> r.boards[i] == ms[idx[i]].board)
  {
    GatherShape(ms, 0, counter);
    assert ms[0..] == ms;
    StrictlyIncreasingBound(MovedIndices(ms), |ms|);
  }

  lemma {:induction false} StrictlyIncreasingBound(idx: seq<nat>, n: nat)
    requires forall i :: 0 <= i < |idx| ==> idx[i] < n
    requires forall i, j :: 0 <= i < j < |idx| ==> idx[i] < idx[j]
    ensures |idx| <= n
  {
    if |idx| > 0 {
      var last := idx[|idx| - 1];
      var front := idx[..|idx| - 1];
      assert forall i :: 0 <= i < |front| ==> front[i] < last;
      StrictlyIncreasingBound(front, last);
    }
  }

  /** Position of a direction in the order up, down, left, right. */
  function DirectionRank(d: Direction): nat
  {
    match d
    case Up => 0
    case Down => 1
    case Left => 2
    case Right => 3
    case Unrecognised => 4
  }

  lemma DirectionRankIndex(d: Direction)
    requires d in Directions
    ensures DirectionRank(d) < 4 && Directions[DirectionRank(d)] == d
  {
  }

  /** A full board with no equal neighbours in any row or column has no
      legal move: `get_possible_moves` returns nothing. */
  lemma StuckBoard(b: Board, ch: Chooser, counter: nat)
    requires forall i :: 0 <= i < 16 ==> b[i] != 0
    requires forall i :: 0 <= i < 16 && i % 4 < 3 ==> b[i] != b[i + 1]
    requires forall i :: 0 <= i < 12 ==> b[i] != b[i + 4]
    ensures GetPossibleMoves(b, ch, counter).boards == []
  {
    var ms := Attempts(b, Mover(ch));
    forall k | 0 <= k < 4 ensures !ms[k].moved {
      SlideLineSettledWhenStuck(b, Directions[k]);
      SlideFlag(b, Directions[k]);
    }
    GatherNone(ms, counter);
  }

  lemma {:induction false} GatherNone(ms: seq<MoveResult>, counter: nat)
    requires forall k :: 0 <= k < |ms| ==> !ms[k].moved
    ensures Gather(ms, counter).boards == []
  {
    if ms != [] {
      assert forall k :: 0 <= k < |ms[1..]| ==> ms[1..][k] == ms[k + 1];
      GatherNone(ms[1..], counter);
    }
  }

  lemma SlideLineSettledWhenStuck(b: Board, d: Direction)
    requires d in Directions
    requires forall i :: 0 <= i < 16 ==> b[i] != 0
    requires forall i :: 0 <= i < 16 && i % 4 < 3 ==> b[i] != b[i + 1]
    requires forall i :: 0 <= i < 12 ==> b[i] != b[i + 4]
    ensures !Slide(b, d).1
  {
    forall k | 0 <= k < 4 ensures !SlideLine(LineOf(b, d, k)).1 {
      StuckLine(b, d, k);
    }
    SlideByLines(b, d);
  }

  /** One line of a stuck board is full and has no equal neighbours. */
  lemma StuckLine(b: Board, d: Direction, k: nat)
    requires d in Directions && k < 4
    requires forall i :: 0 <= i < 16 ==> b[i] != 0
    requires forall i :: 0 <= i < 16 && i % 4 < 3 ==> b[i] != b[i + 1]
    requires forall i :: 0 <= i < 12 ==> b[i] != b[i + 4]
    ensures !SlideLine(LineOf(b, d, k)).1
  {
    var l := LineOf(b, d, k);
    assert Packed(l);
    assert !Mergeable(l);
    PackedIsPackedForm(l);
    CompressEffect(l);
    SettledRounds(l, 3);
    SlideLineEffect(l);
  }
}
