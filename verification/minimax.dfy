/**
  Depth-limited minimax with alpha-beta pruning over the moves of the game,
  and the driver that plays the chosen move until the goal, the move budget
  or a dead end. The spawn is fixed by the successor function `next` (the
  engine's `move` under a chooser, `Mover`), so every layer sees the same
  children for the same board.

  `PlainValue` is the unpruned minimax value, written independently of the
  loops; the main theorem is that pruning never changes the answer inside
  the search window.
 */
module Minimax {
  import opened Options
  import opened Lines
  import opened Grid
  import opened Game
  import opened ExtInt
  import opened Heuristics

  // ---------------------------------------------------------------------
  // The search as written

  /** `minimax(board, depth, is_maximizing_player, alpha, beta, to_reach)`. */
  function Search(b: Board, depth: nat, maximizing: bool, alpha: EInt, beta: EInt, target: int, next: Transition)
    : (EInt, Option<Direction>)
    decreases depth, 1, 0
  {
    if IsGoal(b, target) || depth == 0 then (Fin(Heuristic(b)), None)
    else if maximizing then MaxLoop(b, depth, 0, alpha, beta, NegInf, None, target, next)
    else (MinLoop(Children(b, next), depth, 0, alpha, beta, PosInf, target, next), None)
  }

  /** The running best after a child worth `value`: replaced only by a
      strictly larger value. */
  function Better(best: EInt, value: EInt): (r: EInt)
    ensures r == Max(best, value)
  {
    if Less(best, value) then value else best
  }

  /** The maximizing layer's loop over the directions, from the `i`-th on. */
  function MaxLoop(b: Board, depth: nat, i: nat, alpha: EInt, beta: EInt, best: EInt, bestMove: Option<Direction>,
                   target: int, next: Transition): (EInt, Option<Direction>)
    requires 1 <= depth && i <= 4
    decreases depth, 0, 4 - i
  {
    if i == 4 then (best, bestMove)
    else
      var r := next(b, Directions[i]);
      if !r.moved then MaxLoop(b, depth, i + 1, alpha, beta, best, bestMove, target, next)
      else
        var value := Search(r.board, depth - 1, false, alpha, beta, target, next).0;
        var best', bestMove' := Better(best, value), if Less(best, value) then Some(Directions[i]) else bestMove;
        var alpha' := Max(alpha, value);
        if LessEq(beta, alpha') then (best', bestMove')
        else MaxLoop(b, depth, i + 1, alpha', beta, best', bestMove', target, next)
  }

  /** The minimizing layer's loop over the successors, from the `k`-th on. */
  function MinLoop(boards: seq<Board>, depth: nat, k: nat, alpha: EInt, beta: EInt, best: EInt,
                   target: int, next: Transition): EInt
    requires 1 <= depth && k <= |boards|
    decreases depth, 0, |boards| - k
  {
    if k == |boards| then best
    else
      var value := Search(boards[k], depth - 1, true, alpha, beta, target, next).0;
      var best' := Min(best, value);
      var beta' := Min(beta, value);
      if LessEq(beta', alpha) then best'
      else MinLoop(boards, depth, k + 1, alpha, beta', best', target, next)
  }

  // ---------------------------------------------------------------------
  // The unpruned reference

  /** The minimax value without pruning: the heuristic at the depth limit or
      on a goal, otherwise the largest (maximizing) or smallest (minimizing)
      value among the children, minus or plus infinity when there are none. */
  function PlainValue(b: Board, depth: nat, maximizing: bool, target: int, next: Transition): EInt
    decreases depth, 2, 0
  {
    if IsGoal(b, target) || depth == 0 then Fin(Heuristic(b))
    else if maximizing then MaxFrom(ChildValues(b, depth, target, next), 0)
    else PlainMin(Children(b, next), depth, 0, target, next)
  }

  /** For each direction in order, the value of its child, or minus infinity
      when that direction does not move. */
  function ChildValues(b: Board, depth: nat, target: int, next: Transition): (vs: seq<EInt>)
    requires 1 <= depth
    ensures |vs| == 4
    decreases depth, 1, 0
  {
    [ChildValue(b, depth, 0, target, next), ChildValue(b, depth, 1, target, next),
     ChildValue(b, depth, 2, target, next), ChildValue(b, depth, 3, target, next)]
  }

  function ChildValue(b: Board, depth: nat, i: nat, target: int, next: Transition): EInt
    requires 1 <= depth && i < 4
    decreases depth, 0, 0
  {
    var r := next(b, Directions[i]);
    if r.moved then PlainValue(r.board, depth - 1, false, target, next) else NegInf
  }

  /** The smallest value among the successors `k` and later. */
  function PlainMin(boards: seq<Board>, depth: nat, k: nat, target: int, next: Transition): EInt
    requires 1 <= depth && k <= |boards|
    decreases depth, 0, |boards| - k
  {
    if k == |boards| then PosInf
    else Min(PlainValue(boards[k], depth - 1, true, target, next), PlainMin(boards, depth, k + 1, target, next))
  }

  /** The largest of `vs[i..]`, minus infinity for none. */
  function MaxFrom(vs: seq<EInt>, i: nat): EInt
    requires i <= |vs|
    decreases |vs| - i
  {
    if i == |vs| then NegInf else Max(vs[i], MaxFrom(vs, i + 1))
  }

  /** `MaxFrom` is an upper bound of `vs[i..]` and, unless minus infinity,
      one of its entries. */
  lemma {:induction false} MaxFromBounds(vs: seq<EInt>, i: nat)
    requires i <= |vs|
    ensures forall j :: i <= j < |vs| ==> LessEq(vs[j], MaxFrom(vs, i))
    ensures MaxFrom(vs, i) == NegInf || exists j :: i <= j < |vs| && vs[j] == MaxFrom(vs, i)
    decreases |vs| - i
  {
    if i < |vs| {
      MaxFromBounds(vs, i + 1);
      forall j | i < j < |vs| ensures LessEq(vs[j], MaxFrom(vs, i)) {
        TotalOrder(vs[j], MaxFrom(vs, i + 1), MaxFrom(vs, i));
      }
    }
  }

  /** The index the maximizing loop settles on from `i` on, given the best
      value and index so far: it moves to a later index only when that
      index's value is strictly larger than everything before it. */
  function FirstBest(vs: seq<EInt>, i: nat, best: EInt, bestIndex: Option<nat>): Option<nat>
    requires i <= |vs|
    decreases |vs| - i
  {
    if i == |vs| then bestIndex
    else if Less(best, vs[i]) then FirstBest(vs, i + 1, vs[i], Some(i))
    else FirstBest(vs, i + 1, best, bestIndex)
  }

  /** The direction at a position of the order up, down, left, right. */
  function DirectionAt(j: Option<nat>): Option<Direction>
  {
    match j
    case None => None
    case Some(k) => if k < 4 then Some(Directions[k]) else None
  }

  /** The move the maximizing layer picks, by the unpruned values. */
  function PlainChoice(b: Board, depth: nat, target: int, next: Transition): Option<Direction>
  {
    if IsGoal(b, target) || depth == 0 then None
    else DirectionAt(FirstBest(ChildValues(b, depth, target, next), 0, NegInf, None))
  }

  /** `FirstBest` keeps its starting index unless a later value beats the
      starting best, and then it lands on the first index holding the
      maximum of the later values. */
  lemma {:induction false} FirstBestMeaning(vs: seq<EInt>, i: nat, best: EInt, bestIndex: Option<nat>)
    requires i <= |vs|
    ensures var c := FirstBest(vs, i, best, bestIndex);
      var m := MaxFrom(vs, i);
      && (LessEq(m, best) ==> c == bestIndex)
      && (Less(best, m) ==> (c.Some? && i <= c.value < |vs| && vs[c.value] == m
            && forall k :: i <= k < c.value ==> Less(vs[k], m)))
    decreases |vs| - i
  {
    if i < |vs| {
      var m' := MaxFrom(vs, i + 1);
      TotalOrder(vs[i], m', best);
      TotalOrder(best, vs[i], m');
      if Less(best, vs[i]) {
        FirstBestMeaning(vs, i + 1, vs[i], Some(i));
      } else {
        FirstBestMeaning(vs, i + 1, best, bestIndex);
      }
    }
  }

  // ---------------------------------------------------------------------
  // Pruning does not change the answer

  /** Alpha-beta with the window `[alpha, beta]` agrees with the unpruned
      value once both are clamped to the window: inside the window the value
      is exact, and a value at or beyond an edge is on the same side as the
      true value. */
  lemma SearchClamp(b: Board, depth: nat, maximizing: bool, alpha: EInt, beta: EInt, target: int, next: Transition)
    ensures Clamp(Search(b, depth, maximizing, alpha, beta, target, next).0, alpha, beta)
         == Clamp(PlainValue(b, depth, maximizing, target, next), alpha, beta)
  {
    ClampAll(depth, target, next);
  }

  /** The agreement at one depth and layer, for every board and window. */
  ghost predicate ClampAt(depth: nat, maximizing: bool, target: int, next: Transition)
  {
    forall c: Board, alpha: EInt, beta: EInt ::
      Clamp(Search(c, depth, maximizing, alpha, beta, target, next).0, alpha, beta)
      == Clamp(PlainValue(c, depth, maximizing, target, next), alpha, beta)
  }

  /** The agreement by induction on the depth: each layer's loop relies on
      the agreement one level down. */
  lemma {:induction false} ClampAll(depth: nat, target: int, next: Transition)
    ensures ClampAt(depth, true, target, next) && ClampAt(depth, false, target, next)
    decreases depth
  {
    if depth > 0 {
      ClampAll(depth - 1, target, next);
    }
    MaxLayerClamp(depth, target, next);
    MinLayerClamp(depth, target, next);
  }

  /** The agreement one level below the root, for the minimizing layer
      the root's children belong to. */
  lemma ClampBelow(depth: nat, target: int, next: Transition)
    ensures depth > 0 ==> ClampAt(depth - 1, false, target, next)
  {
    if depth > 0 {
      ClampAll(depth - 1, target, next);
    }
  }

  lemma MaxLayerClamp(depth: nat, target: int, next: Transition)
    requires depth > 0 ==> ClampAt(depth - 1, false, target, next)
    ensures ClampAt(depth, true, target, next)
  {
    forall c: Board, alpha: EInt, beta: EInt
      ensures Clamp(Search(c, depth, true, alpha, beta, target, next).0, alpha, beta)
           == Clamp(PlainValue(c, depth, true, target, next), alpha, beta)
    {
      if !(IsGoal(c, target) || depth == 0) {
        MaxLoopClamp(c, depth, 0, alpha, beta, NegInf, None, target, next);
      }
    }
  }

  lemma MinLayerClamp(depth: nat, target: int, next: Transition)
    requires depth > 0 ==> ClampAt(depth - 1, true, target, next)
    ensures ClampAt(depth, false, target, next)
  {
    forall c: Board, alpha: EInt, beta: EInt
      ensures Clamp(Search(c, depth, false, alpha, beta, target, next).0, alpha, beta)
           == Clamp(PlainValue(c, depth, false, target, next), alpha, beta)
    {
      if !(IsGoal(c, target) || depth == 0) {
        MinLoopClamp(Children(c, next), depth, 0, alpha, beta, PosInf, target, next);
      }
    }
  }

  /** The maximizing loop from direction `i` on, with the running best at
      or below alpha: its result is at least that best, and, clamped, the
      larger of that best and the true values of the remaining children. */
  lemma {:induction false} MaxLoopClamp(b: Board, depth: nat, i: nat, alpha: EInt, beta: EInt, best: EInt,
                                        bestMove: Option<Direction>, target: int, next: Transition)
    requires 1 <= depth && i <= 4 && ClampAt(depth - 1, false, target, next)
    requires LessEq(best, alpha)
    ensures var r := MaxLoop(b, depth, i, alpha, beta, best, bestMove, target, next).0;
      && LessEq(best, r)
      && Clamp(r, alpha, beta) == Clamp(Max(best, MaxFrom(ChildValues(b, depth, target, next), i)), alpha, beta)
    decreases 4 - i, 1
  {
    if i < 4 {
      if !next(b, Directions[i]).moved {
        MaxLoopClamp(b, depth, i + 1, alpha, beta, best, bestMove, target, next);
        assert ChildValues(b, depth, target, next)[i] == NegInf;
      } else {
        MaxLoopMoved(b, depth, i, alpha, beta, best, bestMove, target, next);
      }
    }
  }

  /** The step of `MaxLoopClamp` for a direction that moves. */
  lemma {:induction false} MaxLoopMoved(b: Board, depth: nat, i: nat, alpha: EInt, beta: EInt, best: EInt,
                                        bestMove: Option<Direction>, target: int, next: Transition)
    requires 1 <= depth && i < 4 && ClampAt(depth - 1, false, target, next) && next(b, Directions[i]).moved
    requires LessEq(best, alpha)
    ensures var r := MaxLoop(b, depth, i, alpha, beta, best, bestMove, target, next).0;
      && LessEq(best, r)
      && Clamp(r, alpha, beta) == Clamp(Max(best, MaxFrom(ChildValues(b, depth, target, next), i)), alpha, beta)
    decreases 4 - i, 0
  {
    var child := next(b, Directions[i]).board;
    var value := Search(child, depth - 1, false, alpha, beta, target, next).0;
    ChildValueMoved(b, depth, i, target, next);
    MaxLoopStep(b, depth, i, alpha, beta, best, bestMove, target, next, value);
    var bestMove' := if Less(best, value) then Some(Directions[i]) else bestMove;
    var alpha' := Max(alpha, value);
    if !LessEq(beta, alpha') {
      MaxLoopClamp(b, depth, i + 1, alpha', beta, Better(best, value), bestMove', target, next);
    }
    MaxStep(alpha, beta, best, value, PlainValue(child, depth - 1, false, target, next),
            MaxFrom(ChildValues(b, depth, target, next), i + 1),
            MaxLoop(b, depth, i + 1, alpha', beta, Better(best, value), bestMove', target, next).0);
  }

  /** One turn of the maximizing loop for a direction that moves, given the
      child's searched value. */
  lemma MaxLoopStep(b: Board, depth: nat, i: nat, alpha: EInt, beta: EInt, best: EInt,
                    bestMove: Option<Direction>, target: int, next: Transition, value: EInt)
    requires 1 <= depth && i < 4 && next(b, Directions[i]).moved
    requires value == Search(next(b, Directions[i]).board, depth - 1, false, alpha, beta, target, next).0
    ensures var bestMove' := if Less(best, value) then Some(Directions[i]) else bestMove;
      MaxLoop(b, depth, i, alpha, beta, best, bestMove, target, next)
      == if LessEq(beta, Max(alpha, value)) then (Better(best, value), bestMove')
         else MaxLoop(b, depth, i + 1, Max(alpha, value), beta, Better(best, value), bestMove', target, next)
  {
  }

  /** The entry of `ChildValues` for a direction that moves, and the maximum
      from that entry on. */
  lemma ChildValueMoved(b: Board, depth: nat, i: nat, target: int, next: Transition)
    requires 1 <= depth && i < 4 && next(b, Directions[i]).moved
    ensures var vs := ChildValues(b, depth, target, next);
      var p := PlainValue(next(b, Directions[i]).board, depth - 1, false, target, next);
      && vs[i] == p
      && MaxFrom(vs, i) == Max(p, MaxFrom(vs, i + 1))
  {
    assert ChildValues(b, depth, target, next)[i] == ChildValue(b, depth, i, target, next);
  }

  /** The window algebra of one maximizing step: whether the loop cuts off
      or goes on to the rest (whose result `res` is then clamped to the
      narrowed window), the result is the true maximum clamped to the window. */
  lemma MaxStep(alpha: EInt, beta: EInt, best: EInt, value: EInt, p: EInt, rest: EInt, res: EInt)
    requires LessEq(best, alpha)
    requires Clamp(value, alpha, beta) == Clamp(p, alpha, beta)
    requires !LessEq(beta, Max(alpha, value)) ==>
      && LessEq(Better(best, value), res)
      && Clamp(res, Max(alpha, value), beta) == Clamp(Max(Better(best, value), rest), Max(alpha, value), beta)
    ensures var r := if LessEq(beta, Max(alpha, value)) then Better(best, value) else res;
      && LessEq(best, r)
      && Clamp(r, alpha, beta) == Clamp(Max(best, Max(p, rest)), alpha, beta)
  {
  }

  /** The minimizing loop from successor `k` on, with the running best at
      or above beta: its result is at most that best, and, clamped, the
      smaller of that best and the true values of the remaining successors. */
  lemma {:induction false} MinLoopClamp(boards: seq<Board>, depth: nat, k: nat, alpha: EInt, beta: EInt, best: EInt,
                                        target: int, next: Transition)
    requires 1 <= depth && k <= |boards| && ClampAt(depth - 1, true, target, next)
    requires LessEq(beta, best)
    ensures var r := MinLoop(boards, depth, k, alpha, beta, best, target, next);
      && LessEq(r, best)
      && Clamp(r, alpha, beta) == Clamp(Min(best, PlainMin(boards, depth, k, target, next)), alpha, beta)
    decreases |boards| - k
  {
    if k < |boards| {
      var value := Search(boards[k], depth - 1, true, alpha, beta, target, next).0;
      var beta' := Min(beta, value);
      MinLoopStep(boards, depth, k, alpha, beta, best, target, next, value);
      if !LessEq(beta', alpha) {
        MinLoopClamp(boards, depth, k + 1, alpha, beta', Min(best, value), target, next);
      }
      MinStep(alpha, beta, best, value, PlainValue(boards[k], depth - 1, true, target, next),
              PlainMin(boards, depth, k + 1, target, next),
              MinLoop(boards, depth, k + 1, alpha, beta', Min(best, value), target, next));
    }
  }

  /** One turn of the minimizing loop, given the successor's searched value. */
  lemma MinLoopStep(boards: seq<Board>, depth: nat, k: nat, alpha: EInt, beta: EInt, best: EInt,
                    target: int, next: Transition, value: EInt)
    requires 1 <= depth && k < |boards|
    requires value == Search(boards[k], depth - 1, true, alpha, beta, target, next).0
    ensures MinLoop(boards, depth, k, alpha, beta, best, target, next)
      == if LessEq(Min(beta, value), alpha) then Min(best, value)
         else MinLoop(boards, depth, k + 1, alpha, Min(beta, value), Min(best, value), target, next)
    ensures PlainMin(boards, depth, k, target, next)
      == Min(PlainValue(boards[k], depth - 1, true, target, next), PlainMin(boards, depth, k + 1, target, next))
  {
  }

  /** The window algebra of one minimizing step, the mirror image of
      `MaxStep`. */
  lemma MinStep(alpha: EInt, beta: EInt, best: EInt, value: EInt, p: EInt, rest: EInt, res: EInt)
    requires LessEq(beta, best)
    requires Clamp(value, alpha, beta) == Clamp(p, alpha, beta)
    requires !LessEq(Min(beta, value), alpha) ==>
      && LessEq(res, Min(best, value))
      && Clamp(res, alpha, Min(beta, value)) == Clamp(Min(Min(best, value), rest), alpha, Min(beta, value))
    ensures var r := if LessEq(Min(beta, value), alpha) then Min(best, value) else res;
      && LessEq(r, best)
      && Clamp(r, alpha, beta) == Clamp(Min(best, Min(p, rest)), alpha, beta)
  {
  }

  /** With the root window (minus infinity, plus infinity) alpha-beta returns
      exactly the unpruned value. */
  lemma SearchExact(b: Board, depth: nat, maximizing: bool, target: int, next: Transition)
    ensures Search(b, depth, maximizing, NegInf, PosInf, target, next).0 == PlainValue(b, depth, maximizing, target, next)
  {
    SearchClamp(b, depth, maximizing, NegInf, PosInf, target, next);
  }

  // ---------------------------------------------------------------------
  // The move chosen at the root

  /** At the root the running best value is also alpha, so a child beats it
      under pruning exactly when its true value does; after a child worth
      plus infinity the loop stops, and no later child could have beaten it. */
  lemma {:induction false} RootLoop(b: Board, depth: nat, i: nat, best: EInt, bestIndex: Option<nat>,
                                    target: int, next: Transition)
    requires 1 <= depth && i <= 4 && ClampAt(depth - 1, false, target, next)
    ensures var vs := ChildValues(b, depth, target, next);
      MaxLoop(b, depth, i, best, PosInf, best, DirectionAt(bestIndex), target, next)
      == (Max(best, MaxFrom(vs, i)), DirectionAt(FirstBest(vs, i, best, bestIndex)))
    decreases 4 - i, 1
  {
    if i < 4 {
      if !next(b, Directions[i]).moved {
        RootLoop(b, depth, i + 1, best, bestIndex, target, next);
        assert ChildValues(b, depth, target, next)[i] == NegInf;
      } else {
        RootMoved(b, depth, i, best, bestIndex, target, next);
      }
    }
  }

  /** The step of `RootLoop` for a direction that moves. */
  lemma {:induction false} RootMoved(b: Board, depth: nat, i: nat, best: EInt, bestIndex: Option<nat>,
                                     target: int, next: Transition)
    requires 1 <= depth && i < 4 && ClampAt(depth - 1, false, target, next) && next(b, Directions[i]).moved
    ensures var vs := ChildValues(b, depth, target, next);
      MaxLoop(b, depth, i, best, PosInf, best, DirectionAt(bestIndex), target, next)
      == (Max(best, MaxFrom(vs, i)), DirectionAt(FirstBest(vs, i, best, bestIndex)))
    decreases 4 - i, 0
  {
    var vs := ChildValues(b, depth, target, next);
    var child := next(b, Directions[i]).board;
    var value := Search(child, depth - 1, false, best, PosInf, target, next).0;
    var p := PlainValue(child, depth - 1, false, target, next);
    ChildValueMoved(b, depth, i, target, next);
    MaxLoopStep(b, depth, i, best, PosInf, best, DirectionAt(bestIndex), target, next, value);
    RootStep(best, value, p, MaxFrom(vs, i + 1));
    FirstBestStep(vs, i, best, bestIndex);
    var m := Max(best, p);
    var bestIndex' := if Less(best, p) then Some(i) else bestIndex;
    if m == PosInf {
      FirstBestAfterTop(vs, i + 1, bestIndex');
    } else {
      RootLoop(b, depth, i + 1, m, bestIndex', target, next);
    }
  }

  /** The comparison algebra of one root step: with the window starting at
      the running best, the pruned and the true child value agree on whether
      they beat it and on the new best, which then absorbs the rest. */
  lemma RootStep(best: EInt, value: EInt, p: EInt, rest: EInt)
    requires Clamp(value, best, PosInf) == Clamp(p, best, PosInf)
    ensures Less(best, value) <==> Less(best, p)
    ensures Better(best, value) == Max(best, value) == Max(best, p)
    ensures Max(best, Max(p, rest)) == Max(Max(best, p), rest)
    ensures LessEq(PosInf, Max(best, p)) <==> Max(best, p) == PosInf
  {
  }

  /** One step of `FirstBest`: the running best becomes the larger value,
      and the index moves only on a strict improvement. */
  lemma FirstBestStep(vs: seq<EInt>, i: nat, best: EInt, bestIndex: Option<nat>)
    requires i < |vs|
    ensures FirstBest(vs, i, best, bestIndex)
         == FirstBest(vs, i + 1, Max(best, vs[i]), if Less(best, vs[i]) then Some(i) else bestIndex)
  {
  }

  /** Once the best value is plus infinity nothing later replaces it. */
  lemma {:induction false} FirstBestAfterTop(vs: seq<EInt>, i: nat, bestIndex: Option<nat>)
    requires i <= |vs|
    ensures FirstBest(vs, i, PosInf, bestIndex) == bestIndex
    decreases |vs| - i
  {
    if i < |vs| {
      FirstBestAfterTop(vs, i + 1, bestIndex);
    }
  }

  /** The root call the driver makes returns the unpruned value together
      with the unpruned choice of move. */
  lemma RootSearch(b: Board, depth: nat, target: int, next: Transition)
    ensures Search(b, depth, true, NegInf, PosInf, target, next)
         == (PlainValue(b, depth, true, target, next), PlainChoice(b, depth, target, next))
  {
    if !(IsGoal(b, target) || depth == 0) {
      ClampBelow(depth, target, next);
      RootLoop(b, depth, 0, NegInf, None, target, next);
      RootUnfold(b, depth, target, next);
    }
  }

  /** The root call, the unpruned value and the unpruned choice, one level
      unfolded. */
  lemma RootUnfold(b: Board, depth: nat, target: int, next: Transition)
    requires 1 <= depth && !IsGoal(b, target)
    ensures Search(b, depth, true, NegInf, PosInf, target, next)
         == MaxLoop(b, depth, 0, NegInf, PosInf, NegInf, DirectionAt(None), target, next)
    ensures PlainValue(b, depth, true, target, next) == Max(NegInf, MaxFrom(ChildValues(b, depth, target, next), 0))
    ensures PlainChoice(b, depth, target, next) == DirectionAt(FirstBest(ChildValues(b, depth, target, next), 0, NegInf, None))
  {
  }

  /** What the chosen move means: there is one exactly when some direction's
      child is worth more than minus infinity; then the move is the first
      direction, in the order up, down, left, right, whose child attains the
      best value, and that direction moves. */
  lemma ChoiceMeaning(b: Board, depth: nat, target: int, next: Transition)
    requires 1 <= depth && !IsGoal(b, target)
    ensures var c := PlainChoice(b, depth, target, next);
      var v := PlainValue(b, depth, true, target, next);
      var vs := ChildValues(b, depth, target, next);
      && (c.None? <==> v == NegInf)
      && (c.Some? ==> exists i :: (0 <= i < 4 && Directions[i] == c.value && vs[i] == v
            && next(b, c.value).moved
            && forall j :: 0 <= j < i ==> Less(vs[j], v)))
  {
    var vs := ChildValues(b, depth, target, next);
    FirstBestMeaning(vs, 0, NegInf, None);
    var c := FirstBest(vs, 0, NegInf, None);
    if c.Some? {
      var i := c.value;
      assert vs[i] == ChildValue(b, depth, i, target, next) != NegInf;
    }
  }

  // ---------------------------------------------------------------------
  // The move a layer returns

  /** The maximizing loop only ever records a direction that moves. */
  lemma {:induction false} MaxLoopMove(b: Board, depth: nat, i: nat, alpha: EInt, beta: EInt, best: EInt,
                                       bestMove: Option<Direction>, target: int, next: Transition)
    requires 1 <= depth && i <= 4
    requires bestMove.Some? ==> next(b, bestMove.value).moved
    ensures var m := MaxLoop(b, depth, i, alpha, beta, best, bestMove, target, next).1;
      m.Some? ==> next(b, m.value).moved
    decreases 4 - i
  {
    if i < 4 {
      var r := next(b, Directions[i]);
      if !r.moved {
        MaxLoopMove(b, depth, i + 1, alpha, beta, best, bestMove, target, next);
      } else {
        var value := Search(r.board, depth - 1, false, alpha, beta, target, next).0;
        var bestMove' := if Less(best, value) then Some(Directions[i]) else bestMove;
        MaxLoopMove(b, depth, i + 1, Max(alpha, value), beta, Better(best, value), bestMove', target, next);
      }
    }
  }

  /** For any window: a leaf (goal or depth 0) and the minimizing layer
      return no move, and a move the maximizing layer returns is a
      direction that moves the board. */
  lemma SearchMove(b: Board, depth: nat, maximizing: bool, alpha: EInt, beta: EInt, target: int, next: Transition)
    ensures var m := Search(b, depth, maximizing, alpha, beta, target, next).1;
      && (IsGoal(b, target) || depth == 0 ==> m.None?)
      && (!maximizing ==> m.None?)
      && (m.Some? ==> next(b, m.value).moved)
  {
    if !(IsGoal(b, target) || depth == 0) && maximizing {
      MaxLoopMove(b, depth, 0, alpha, beta, NegInf, None, target, next);
    }
  }

  /** The maximizing layer can return no move although a direction moves:
      here `Up` moves the empty board to a board whose only successor is a
      dead end. The dead end is worth minus infinity to the maximizing
      layer, so the minimizing layer above it is too, and minus infinity
      never beats the starting best value. The successor function is the
      artificial `DeadEndAfterUp`. */
  lemma NoMoveDespiteMoving()
    ensures DeadEndAfterUp()(EmptyBoard, Up).moved
    ensures Search(EmptyBoard, 3, true, NegInf, PosInf, 2048, DeadEndAfterUp()) == (NegInf, None)
  {
    var next := DeadEndAfterUp();
    DeadEndMin();
    SmallTiles(EmptyBoard, 2048);
    assert next(EmptyBoard, Up) == MoveResult(LoneTwo, true);
    assert MaxLoop(EmptyBoard, 3, 0, NegInf, PosInf, NegInf, None, 2048, next)
        == MaxLoop(EmptyBoard, 3, 1, NegInf, PosInf, NegInf, None, 2048, next);
    assert MaxLoop(EmptyBoard, 3, 1, NegInf, PosInf, NegInf, None, 2048, next) == (NegInf, None);
  }

  /** The lone 2 has the lone 4 as its only successor, which is worth
      minus infinity. */
  lemma DeadEndMin()
    ensures Search(LoneTwo, 2, false, NegInf, PosInf, 2048, DeadEndAfterUp()).0 == NegInf
  {
    var next := DeadEndAfterUp();
    SmallTiles(LoneTwo, 2048);
    DeadEndMax();
    assert Attempts(LoneTwo, next) == [MoveResult(LoneFour, true), MoveResult(LoneTwo, false),
                                       MoveResult(LoneTwo, false), MoveResult(LoneTwo, false)];
    assert Children(LoneTwo, next) == [LoneFour];
  }

  /** No direction moves the lone 4, so the maximizing layer finds nothing. */
  lemma DeadEndMax()
    ensures Search(LoneFour, 1, true, NegInf, PosInf, 2048, DeadEndAfterUp()) == (NegInf, None)
  {
    var next := DeadEndAfterUp();
    SmallTiles(LoneFour, 2048);
    assert MaxLoop(LoneFour, 1, 0, NegInf, PosInf, NegInf, None, 2048, next) == (NegInf, None);
  }

  /** A board whose tiles are all below the target is not a goal. */
  lemma SmallTiles(b: Board, target: int)
    requires forall i :: 0 <= i < 16 ==> b[i] < target
    ensures !IsGoal(b, target)
  {
    IsGoalMeaning(b, target);
  }

  /** The board holding `v` in its first cell and nothing else. */
  function Lone(v: int): (b: Board)
    ensures b[0] == v && forall i :: 1 <= i < 16 ==> b[i] == 0
  {
    [v] + Zeros(15)
  }

  const EmptyBoard: Board := Lone(0)
  const LoneTwo: Board := Lone(2)
  const LoneFour: Board := Lone(4)

  /** An artificial successor function, not the game's `move`. Only `Up`
      moves, and only a board whose first cell is empty (to a lone 2) or
      holds a 2 (to a lone 4). */
  function DeadEndAfterUp(): Transition
  {
    (b: Board, d: Direction) =>
      if d != Up then MoveResult(b, false)
      else if b[0] == 0 then MoveResult(LoneTwo, true)
      else if b[0] == 2 then MoveResult(LoneFour, true)
      else MoveResult(b, false)
  }

  // ---------------------------------------------------------------------
  // The driver

  /** The move the driver gets back from the root search is the unpruned
      choice, and it is a direction that moves. */
  lemma DriverStep(b: Board, depth: nat, target: int, next: Transition)
    requires 1 <= depth && !IsGoal(b, target)
    ensures Search(b, depth, true, NegInf, PosInf, target, next).1 == PlainChoice(b, depth, target, next)
    ensures PlainChoice(b, depth, target, next).Some? ==> next(b, PlainChoice(b, depth, target, next).value).moved
  {
    RootSearch(b, depth, target, next);
    ChoiceMeaning(b, depth, target, next);
  }

  /** The record the driver keeps: `path` lists the boards moved from, in
      order, each with the move played on it. The empty record leaves the
      board at `initial`; a longer one is a record up to the last listed
      board `b`, which is not the goal, followed by the unpruned choice `d`
      for the budget left at `b`, which moves `b` to `final`. */
  ghost predicate IsPlay(initial: Board, maxDepth: int, target: int, next: Transition,
                         path: seq<(Board, Direction)>, final: Board)
    decreases |path|
  {
    if path == [] then final == initial
    else
      var n := |path| - 1;
      var (b, d) := path[n];
      && IsPlay(initial, maxDepth, target, next, path[..n], b)
      && n < maxDepth && !IsGoal(b, target)
      && PlainChoice(b, maxDepth - n, target, next) == Some(d)
      && next(b, d).moved && next(b, d).board == final
  }

  /** A record starts at `initial` and has at most `maxDepth` entries. */
  lemma {:induction false} PlayStart(initial: Board, maxDepth: int, target: int, next: Transition,
                                     path: seq<(Board, Direction)>, final: Board)
    requires IsPlay(initial, maxDepth, target, next, path, final)
    ensures |path| <= (if maxDepth > 0 then maxDepth else 0)
    ensures path != [] ==> path[0].0 == initial
    decreases |path|
  {
    if |path| > 1 {
      var n := |path| - 1;
      PlayStart(initial, maxDepth, target, next, path[..n], path[n].0);
    }
  }

  /** Every entry of a record is the unpruned choice for the budget left at
      it, played on a board that is not the goal. */
  lemma {:induction false} PlayChoices(initial: Board, maxDepth: int, target: int, next: Transition,
                                       path: seq<(Board, Direction)>, final: Board, i: nat)
    requires IsPlay(initial, maxDepth, target, next, path, final) && i < |path|
    ensures maxDepth - i > 0 && !IsGoal(path[i].0, target)
    ensures PlainChoice(path[i].0, maxDepth - i, target, next) == Some(path[i].1)
    decreases |path|
  {
    var n := |path| - 1;
    if i < n {
      PlayChoices(initial, maxDepth, target, next, path[..n], path[n].0, i);
    }
  }

  /** Every entry's move moves its board to the next entry's board, or to
      `final` for the last entry. */
  lemma {:induction false} PlayMoves(initial: Board, maxDepth: int, target: int, next: Transition,
                                     path: seq<(Board, Direction)>, final: Board, i: nat)
    requires IsPlay(initial, maxDepth, target, next, path, final) && i < |path|
    ensures next(path[i].0, path[i].1).moved
    ensures next(path[i].0, path[i].1).board == (if i + 1 < |path| then path[i + 1].0 else final)
    decreases |path|
  {
    var n := |path| - 1;
    if i < n {
      PlayMoves(initial, maxDepth, target, next, path[..n], path[n].0, i);
    }
  }

  /** Playing the unpruned choice from the last board extends the record. */
  lemma PlayExtend(initial: Board, maxDepth: int, target: int, next: Transition,
                   path: seq<(Board, Direction)>, board: Board, d: Direction)
    requires IsPlay(initial, maxDepth, target, next, path, board)
    requires |path| < maxDepth && !IsGoal(board, target) && next(board, d).moved
    requires PlainChoice(board, maxDepth - |path|, target, next) == Some(d)
    ensures IsPlay(initial, maxDepth, target, next, path + [(board, d)], next(board, d).board)
  {
    assert (path + [(board, d)])[..|path|] == path;
  }

  /** `minimax_search`: while the board is not a goal and the budget is
      positive, search to the remaining budget, play the chosen move and
      record the board it was played from. The record holds on return, and
      the driver stops only at a goal, with the budget spent, or when the
      search offers no move. */
  method MinimaxSearch(initial: Board, target: int, maxDepth: int, next: Transition)
      returns (path: seq<(Board, Direction)>, final: Board)
    ensures IsPlay(initial, maxDepth, target, next, path, final)
    ensures IsGoal(final, target) || maxDepth - |path| <= 0
         || PlainChoice(final, maxDepth - |path|, target, next).None?
  {
    path := [];
    var board := initial;
    var depth := maxDepth;
    while !IsGoal(board, target) && depth > 0
      invariant depth == maxDepth - |path|
      invariant IsPlay(initial, maxDepth, target, next, path, board)
      decreases depth
    {
      var result := Search(board, depth, true, NegInf, PosInf, target, next);
      DriverStep(board, depth, target, next);
      if result.1.None? {
        break;
      }
      var d := result.1.value;
      var r := next(board, d);
      if !r.moved {
        break;
      }
      PlayExtend(initial, maxDepth, target, next, path, board, d);
      path := path + [(board, d)];
      board := r.board;
      depth := depth - 1;
    }
    final := board;
  }
}
