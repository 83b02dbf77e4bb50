/**
  `dijkstra_search`: uniform-cost search from the initial board, every move
  costing one. The open set is a priority queue of `(cost, state)` entries;
  `came_from`, `cost_so_far` and `visited_states` record every state the
  first time it is reached, and a state is checked against the goal when it
  is taken off the queue. States are compared as Python compares tuples:
  the cost first, then the cells in row-major order.

  The successor function `next` stands for `move` with its random spawn
  fixed. Because every recorded state is expanded at most once, each
  (board, direction) pair is tried at most once by the search, so fixing
  the spawn per pair loses no behaviour of a single run.
 */
module Dijkstra {
  import opened Options
  import opened Grid
  import opened Game
  import opened Paths

  /** A queue entry: the cost it was pushed with, and the state. */
  type Entry = (nat, Board)

  // ---------------------------------------------------------------------
  // The queue order

  /** Python's order on tuples: the first differing place decides, and a
      proper prefix comes first. */
  predicate LexLess(a: seq<int>, b: seq<int>)
    decreases |a|
  {
    if a == [] then b != []
    else b != [] && (a[0] < b[0] || (a[0] == b[0] && LexLess(a[1..], b[1..])))
  }

  /** `LexLess` is a strict total order. */
  lemma {:induction false} LexOrder(a: seq<int>, b: seq<int>, c: seq<int>)
    ensures !LexLess(a, a)
    ensures LexLess(a, b) && LexLess(b, c) ==> LexLess(a, c)
    ensures a != b ==> LexLess(a, b) || LexLess(b, a)
    decreases |a|
  {
    if a != [] && b != [] && c != [] {
      LexOrder(a[1..], b[1..], c[1..]);
      if a[0] == b[0] && a[1..] == b[1..] {
        assert a == [a[0]] + a[1..] && b == [b[0]] + b[1..];
      }
    } else if a != [] && b != [] {
      LexOrder(a[1..], b[1..], b[1..]);
      if a[0] == b[0] && a[1..] == b[1..] {
        assert a == [a[0]] + a[1..] && b == [b[0]] + b[1..];
      }
    } else if a != [] {
      LexOrder(a[1..], a[1..], a[1..]);
    }
  }

  /** The order `heapq` keeps its entries in. */
  predicate EntryLess(x: Entry, y: Entry)
  {
    x.0 < y.0 || (x.0 == y.0 && LexLess(x.1, y.1))
  }

  lemma EntryOrder(x: Entry, y: Entry, z: Entry)
    ensures !EntryLess(x, x)
    ensures EntryLess(x, y) && EntryLess(y, z) ==> EntryLess(x, z)
    ensures x != y ==> EntryLess(x, y) || EntryLess(y, x)
  {
    LexOrder(x.1, y.1, z.1);
  }

  /** The scan for the smallest entry: `best` is the smallest so far among
      the entries before `k`. */
  function MinFrom(open: seq<Entry>, k: nat, best: nat): (i: nat)
    requires best < |open| && k <= |open|
    ensures i < |open|
    decreases |open| - k
  {
    if k == |open| then best
    else MinFrom(open, k + 1, if EntryLess(open[k], open[best]) then k else best)
  }

  /** The entry `heappop` takes: the position of the smallest entry. */
  function PopIndex(open: seq<Entry>): (i: nat)
    requires open != []
    ensures i < |open|
  {
    MinFrom(open, 1, 0)
  }

  lemma {:induction false} MinFromIsMin(open: seq<Entry>, k: nat, best: nat)
    requires best < |open| && k <= |open|
    requires forall j :: 0 <= j < k ==> !EntryLess(open[j], open[best])
    ensures forall j :: 0 <= j < |open| ==> !EntryLess(open[j], open[MinFrom(open, k, best)])
    decreases |open| - k
  {
    if k < |open| {
      var best' := if EntryLess(open[k], open[best]) then k else best;
      forall j | 0 <= j < k + 1 ensures !EntryLess(open[j], open[best']) {
        EntryOrder(open[j], open[k], open[best]);
      }
      MinFromIsMin(open, k + 1, best');
    }
  }

  /** `heappop` takes the smallest entry: nothing in the queue is smaller,
      and every other entry is larger. */
  lemma PopIndexIsMin(open: seq<Entry>)
    requires open != []
    ensures forall j :: 0 <= j < |open| ==> !EntryLess(open[j], open[PopIndex(open)])
    ensures forall j :: 0 <= j < |open| && open[j] != open[PopIndex(open)] ==>
      EntryLess(open[PopIndex(open)], open[j])
  {
    EntryOrder(open[0], open[0], open[0]);
    MinFromIsMin(open, 1, 0);
    forall j | 0 <= j < |open| && open[j] != open[PopIndex(open)]
      ensures EntryLess(open[PopIndex(open)], open[j])
    {
      EntryOrder(open[j], open[PopIndex(open)], open[j]);
    }
  }

  /** The queue after the entry at `i` is taken out. */
  function RemoveAt(open: seq<Entry>, i: nat): (r: seq<Entry>)
    requires i < |open|
    ensures |r| == |open| - 1
  {
    open[..i] + open[i + 1..]
  }

  lemma RemoveAtIndex(open: seq<Entry>, i: nat, k: nat)
    requires i < |open| && k < |open| - 1
    ensures RemoveAt(open, i)[k] == if k < i then open[k] else open[k + 1]
  {
  }

  // ---------------------------------------------------------------------
  // The search

  /** The search's bookkeeping: `open_set`, `came_from`, `cost_so_far` and
      `visited_states`. */
  datatype Frontier = Frontier(
    open: seq<Entry>,
    cameFrom: map<Board, Link<Board>>,
    cost: map<Board, nat>,
    visited: set<Board>)

  /** The start state is queued with cost 0 and recorded with no
      predecessor. */
  function Start(initial: Board): Frontier
  {
    Frontier([(0, initial)], map[initial := Root], map[initial := 0], {initial})
  }

  /** One pass of the direction loop: the move in direction `d` from
      `current`, if it moved to a state not yet visited, records that state
      one step costlier than `current` and queues it. */
  function RelaxOne(f: Frontier, current: Board, d: Direction, next: Transition): (g: Frontier)
    requires current in f.cost
    ensures current in g.cost && g.cost[current] == f.cost[current]
  {
    var m := next(current, d);
    if !m.moved || m.board in f.visited then f
    else
      var newCost := f.cost[current] + 1;
      if m.board !in f.cost || newCost < f.cost[m.board] then
        Frontier(f.open + [(newCost, m.board)], f.cameFrom[m.board := Edge(current, d)],
                 f.cost[m.board := newCost], f.visited + {m.board})
      else f
  }

  /** The direction loop from the `k`-th direction on. */
  function Relax(f: Frontier, current: Board, k: nat, next: Transition): (g: Frontier)
    requires current in f.cost && k <= 4
    ensures current in g.cost && g.cost[current] == f.cost[current]
    decreases 4 - k
  {
    if k == 4 then f
    else Relax(RelaxOne(f, current, Directions[k], next), current, k + 1, next)
  }

  datatype Outcome = Running(frontier: Frontier) | Found(path: Option<seq<(Board, Direction)>>)

  /** Every queued state has a recorded cost. */
  ghost predicate OpenRecorded(f: Frontier)
  {
    forall k :: 0 <= k < |f.open| ==> f.open[k].1 in f.cost
  }

  /** One pass of the `while open_set` loop: take the smallest entry; stop
      with its path when it is a goal; expand it only when its cost is below
      `maxDepth`. */
  function Iterate(f: Frontier, initial: Board, target: int, maxDepth: int, next: Transition): Outcome
    requires f.open != [] && OpenRecorded(f)
  {
    var i := PopIndex(f.open);
    var current := f.open[i].1;
    var rest := f.(open := RemoveAt(f.open, i));
    if IsGoal(current, target) then Found(ReconstructPath(f.cameFrom, initial, current))
    else if f.cost[current] >= maxDepth then Running(rest)
    else Running(Relax(rest, current, 0, next))
  }

  // ---------------------------------------------------------------------
  // Runs of moves

  /** The board a path of moves ends on. */
  function End(start: Board, path: seq<(Board, Direction)>): Board
  {
    if path == [] then start else path[|path| - 1].0
  }

  /** `path` is a sequence of successful moves from `start`, each in one of
      the four directions, each entry holding the board its move produced. */
  ghost predicate IsRun(next: Transition, start: Board, path: seq<(Board, Direction)>)
    decreases |path|
  {
    if path == [] then true
    else
      var n := |path| - 1;
      && IsRun(next, start, path[..n])
      && path[n].1 in Directions
      && next(End(start, path[..n]), path[n].1) == MoveResult(path[n].0, true)
  }

  /** A run from the initial board that ends on a goal. */
  ghost predicate GoalRun(next: Transition, initial: Board, target: int, path: seq<(Board, Direction)>)
  {
    IsRun(next, initial, path) && IsGoal(End(initial, path), target)
  }

  /** `path` is no longer than any run that reaches a goal. */
  ghost predicate Shortest(next: Transition, initial: Board, target: int, path: seq<(Board, Direction)>)
  {
    forall run :: GoalRun(next, initial, target, run) ==> |path| <= |run|
  }

  /** No run of at most `n` moves reaches a goal. */
  ghost predicate NoGoalWithin(next: Transition, initial: Board, target: int, n: int)
  {
    forall run :: IsRun(next, initial, run) && |run| <= n ==> !IsGoal(End(initial, run), target)
  }

  /** The largest cost a state can be recorded with. */
  function Budget(maxDepth: int): nat
  {
    if maxDepth > 0 then maxDepth else 0
  }

  // ---------------------------------------------------------------------
  // The loop invariant, one concern per predicate. `closed` holds the
  // states already taken off the queue; `level` is the cost of the last
  // one taken.

  /** The start is recorded with cost 0 and no predecessor, every other
      recorded state one step costlier than its recorded predecessor, and
      the visited set is the set of recorded states. */
  ghost predicate Bookkeeping(f: Frontier, initial: Board)
  {
    CostLinked(f.cameFrom, f.cost, initial) && f.visited == f.cameFrom.Keys
  }

  /** Every recorded link is a successful move in one of the four
      directions. */
  ghost predicate LinksMove(cameFrom: map<Board, Link<Board>>, next: Transition)
  {
    forall s :: s in cameFrom && cameFrom[s].Edge? ==>
      cameFrom[s].dir in Directions && next(cameFrom[s].prev, cameFrom[s].dir) == MoveResult(s, true)
  }

  /** Each queued entry carries its state's recorded cost, and no state is
      queued twice. */
  ghost predicate OpenExact(f: Frontier)
  {
    && (forall k :: 0 <= k < |f.open| ==> f.open[k].1 in f.cost && f.cost[f.open[k].1] == f.open[k].0)
    && (forall k, m :: 0 <= k < m < |f.open| ==> f.open[k].1 != f.open[m].1)
  }

  /** Every recorded state is either closed or queued, never both. */
  ghost predicate Partition(f: Frontier, closed: set<Board>)
  {
    && closed <= f.cost.Keys
    && (forall k :: 0 <= k < |f.open| ==> f.open[k].1 !in closed)
    && (forall s :: s in f.cost ==> s in closed || (f.cost[s], s) in f.open)
  }

  /** The queue is taken off in cost order: closed states cost at most
      `level`, recorded ones at most one more, queued ones at least
      `level`. */
  ghost predicate Levels(f: Frontier, closed: set<Board>, level: nat)
  {
    && (forall s :: s in closed && s in f.cost ==> f.cost[s] <= level)
    && (forall s :: s in f.cost ==> f.cost[s] <= level + 1)
    && (forall k :: 0 <= k < |f.open| ==> level <= f.open[k].0)
  }

  /** No closed state is a goal. */
  ghost predicate NoGoalClosed(closed: set<Board>, target: int)
  {
    forall s :: s in closed ==> !IsGoal(s, target)
  }

  /** How many directions of a closed state `p` have been tried: all four,
      except for `current`, the state being expanded, which has had `k`. */
  function Tried(p: Board, current: Board, k: nat): nat
  {
    if p == current then k else 4
  }

  /** Every closed state below the depth limit has had its tried
      directions expanded: each successful move leads to a recorded state
      at most one step costlier. */
  ghost predicate Expanded(f: Frontier, closed: set<Board>, maxDepth: int, next: Transition, current: Board, k: nat)
  {
    forall p, j ::
      (p in closed && p in f.cost && f.cost[p] < maxDepth && 0 <= j < Tried(p, current, k)
       && j < 4 && next(p, Directions[j]).moved) ==>
        next(p, Directions[j]).board in f.cost && f.cost[next(p, Directions[j]).board] <= f.cost[p] + 1
  }

  /** No recorded cost exceeds the depth limit. */
  ghost predicate WithinBudget(f: Frontier, maxDepth: int)
  {
    forall s :: s in f.cost ==> f.cost[s] <= Budget(maxDepth)
  }

  /** Everything the loop keeps except the expansion record. */
  ghost predicate Core(f: Frontier, closed: set<Board>, level: nat, initial: Board, target: int, maxDepth: int, next: Transition)
  {
    && Bookkeeping(f, initial)
    && LinksMove(f.cameFrom, next)
    && OpenExact(f)
    && Partition(f, closed)
    && Levels(f, closed, level)
    && NoGoalClosed(closed, target)
    && WithinBudget(f, maxDepth)
  }

  /** The invariant of the `while open_set` loop. */
  ghost predicate Invariant(f: Frontier, closed: set<Board>, level: nat, initial: Board, target: int, maxDepth: int, next: Transition)
  {
    Core(f, closed, level, initial, target, maxDepth, next) && Expanded(f, closed, maxDepth, next, initial, 4)
  }

  /** The invariant while `current` is being expanded, `k` directions in. */
  ghost predicate During(f: Frontier, closed: set<Board>, level: nat, initial: Board, target: int, maxDepth: int, next: Transition, current: Board, k: nat)
  {
    && Core(f, closed, level, initial, target, maxDepth, next)
    && Expanded(f, closed, maxDepth, next, current, k)
    && current in closed && current in f.cost && f.cost[current] == level && level < maxDepth
  }

  /** With all four directions tried, which state was last expanded no
      longer matters. */
  lemma ExpandedAll(f: Frontier, closed: set<Board>, maxDepth: int, next: Transition, x: Board, y: Board)
    requires Expanded(f, closed, maxDepth, next, x, 4)
    ensures Expanded(f, closed, maxDepth, next, y, 4)
  {
    forall p, j |
      (p in closed && p in f.cost && f.cost[p] < maxDepth && 0 <= j < Tried(p, y, 4)
       && j < 4 && next(p, Directions[j]).moved)
      ensures next(p, Directions[j]).board in f.cost && f.cost[next(p, Directions[j]).board] <= f.cost[p] + 1
    {
      assert j < Tried(p, x, 4);
    }
  }

  // ---------------------------------------------------------------------
  // Termination: every queued entry weighs one more than four entries one
  // step costlier, so taking an entry off and queueing at most four
  // successors lowers the total weight.

  function Weight(c: nat, maxDepth: int): (w: nat)
    ensures w >= 1
    decreases if c < maxDepth then maxDepth - c else 0
  {
    if c >= maxDepth then 1 else 1 + 4 * Weight(c + 1, maxDepth)
  }

  function Potential(open: seq<Entry>, maxDepth: int): nat
  {
    if open == [] then 0
    else Potential(open[..|open| - 1], maxDepth) + Weight(open[|open| - 1].0, maxDepth)
  }

  lemma {:induction false} PotentialAppend(a: seq<Entry>, b: seq<Entry>, maxDepth: int)
    ensures Potential(a + b, maxDepth) == Potential(a, maxDepth) + Potential(b, maxDepth)
    decreases |b|
  {
    if b == [] {
      assert a + b == a;
    } else {
      var n := |b| - 1;
      assert (a + b)[..|a + b| - 1] == a + b[..n];
      PotentialAppend(a, b[..n], maxDepth);
    }
  }

  /** Taking the entry at `i` out lowers the weight by that entry's. */
  lemma PotentialRemove(open: seq<Entry>, i: nat, maxDepth: int)
    requires i < |open|
    ensures Potential(RemoveAt(open, i), maxDepth) + Weight(open[i].0, maxDepth) == Potential(open, maxDepth)
  {
    assert open == open[..i] + [open[i]] + open[i + 1..];
    PotentialAppend(open[..i] + [open[i]], open[i + 1..], maxDepth);
    PotentialAppend(open[..i], [open[i]], maxDepth);
    PotentialAppend(open[..i], open[i + 1..], maxDepth);
    assert Potential([open[i]], maxDepth) == Weight(open[i].0, maxDepth) by {
      var single: seq<Entry> := [open[i]];
      assert single[..0] == [];
    }
  }

  /** `n` copies of `w`, added up. */
  function Copies(n: nat, w: nat): nat
  {
    if n == 0 then 0 else w + Copies(n - 1, w)
  }

  /** Expanding a state of cost `c` queues at most one entry of cost
      `c + 1` per remaining direction. */
  lemma {:induction false} RelaxPotential(f: Frontier, current: Board, c: nat, k: nat, maxDepth: int, next: Transition)
    requires current in f.cost && f.cost[current] == c && k <= 4
    ensures Potential(Relax(f, current, k, next).open, maxDepth)
         <= Potential(f.open, maxDepth) + Copies(4 - k, Weight(c + 1, maxDepth))
    decreases 4 - k
  {
    if k < 4 {
      var g := RelaxOne(f, current, Directions[k], next);
      RelaxOnePotential(f, current, Directions[k], maxDepth, next);
      RelaxPotential(g, current, c, k + 1, maxDepth, next);
    }
  }

  lemma RelaxOnePotential(f: Frontier, current: Board, d: Direction, maxDepth: int, next: Transition)
    requires current in f.cost
    ensures Potential(RelaxOne(f, current, d, next).open, maxDepth)
         <= Potential(f.open, maxDepth) + Weight(f.cost[current] + 1, maxDepth)
  {
    var m := next(current, d);
    var c := f.cost[current] + 1;
    if m.moved && m.board !in f.visited && (m.board !in f.cost || c < f.cost[m.board]) {
      var e := (c, m.board);
      assert RelaxOne(f, current, d, next).open == f.open + [e];
      assert (f.open + [e])[..|f.open|] == f.open;
    }
  }

  // ---------------------------------------------------------------------
  // The invariant holds at the start

  lemma StartInvariant(initial: Board, target: int, maxDepth: int, next: Transition)
    ensures Invariant(Start(initial), {}, 0, initial, target, maxDepth, next)
  {
    var f := Start(initial);
    assert (f.cost[initial], initial) == f.open[0];
  }

  // ---------------------------------------------------------------------
  // Taking the smallest entry off the queue

  /** The queue after the pop keeps exact costs and distinct states, and the
      popped state moves from the queue to the closed set. */
  lemma PopOpen(f: Frontier, closed: set<Board>)
    requires f.open != [] && OpenExact(f) && Partition(f, closed)
    ensures var i := PopIndex(f.open);
      var rest := f.(open := RemoveAt(f.open, i));
      OpenExact(rest) && Partition(rest, closed + {f.open[i].1})
  {
    var i := PopIndex(f.open);
    var current := f.open[i].1;
    var rest := f.(open := RemoveAt(f.open, i));
    forall k | 0 <= k < |rest.open|
      ensures rest.open[k].1 in rest.cost && rest.cost[rest.open[k].1] == rest.open[k].0
      ensures rest.open[k].1 !in closed + {current}
    {
      RemoveAtIndex(f.open, i, k);
    }
    forall k, m | 0 <= k < m < |rest.open| ensures rest.open[k].1 != rest.open[m].1 {
      RemoveAtIndex(f.open, i, k);
      RemoveAtIndex(f.open, i, m);
    }
    forall s | s in rest.cost ensures s in closed + {current} || (rest.cost[s], s) in rest.open {
      if s !in closed && s != current {
        var m :| 0 <= m < |f.open| && f.open[m] == (f.cost[s], s);
        if m < i {
          RemoveAtIndex(f.open, i, m);
        } else {
          RemoveAtIndex(f.open, i, m - 1);
        }
      }
    }
  }

  /** After the pop the closed states cost at most the popped cost, which
      is the new level. */
  lemma PopLevels(f: Frontier, closed: set<Board>, level: nat)
    requires f.open != [] && OpenExact(f) && Levels(f, closed, level)
    ensures var i := PopIndex(f.open);
      var rest := f.(open := RemoveAt(f.open, i));
      Levels(rest, closed + {f.open[i].1}, f.open[i].0)
  {
    var i := PopIndex(f.open);
    var rest := f.(open := RemoveAt(f.open, i));
    PopIndexIsMin(f.open);
    forall k | 0 <= k < |rest.open| ensures f.open[i].0 <= rest.open[k].0 {
      RemoveAtIndex(f.open, i, k);
      assert !EntryLess(f.open[if k < i then k else k + 1], f.open[i]);
    }
  }

  /** The popped state's expansion starts with no direction tried, and when
      it is not expanded at all nothing is owed for it. */
  lemma PopExpanded(f: Frontier, closed: set<Board>, initial: Board, maxDepth: int, next: Transition)
    requires f.open != [] && Partition(f, closed) && Expanded(f, closed, maxDepth, next, initial, 4)
    requires f.open[PopIndex(f.open)].1 in f.cost
    ensures var i := PopIndex(f.open);
      var current := f.open[i].1;
      var rest := f.(open := RemoveAt(f.open, i));
      && Expanded(rest, closed + {current}, maxDepth, next, current, 0)
      && (f.cost[current] >= maxDepth ==> Expanded(rest, closed + {current}, maxDepth, next, initial, 4))
  {
    var i := PopIndex(f.open);
    assert f.open[i].1 !in closed;
  }

  // ---------------------------------------------------------------------
  // Trying one direction

  /** The maps only grow: nothing recorded is changed. */
  lemma RelaxOneExtends(f: Frontier, current: Board, d: Direction, next: Transition)
    requires current in f.cost && f.visited == f.cost.Keys && f.cameFrom.Keys == f.cost.Keys
    ensures var g := RelaxOne(f, current, d, next);
      && f.cost.Keys <= g.cost.Keys && f.cameFrom.Keys <= g.cameFrom.Keys
      && (forall s :: s in f.cost ==> g.cost[s] == f.cost[s])
      && (forall s :: s in f.cameFrom ==> g.cameFrom[s] == f.cameFrom[s])
  {
  }

  lemma RelaxOneLinks(f: Frontier, initial: Board, current: Board, k: nat, next: Transition)
    requires k < 4 && current in f.cost && f.cost.Keys == f.cameFrom.Keys
    requires Bookkeeping(f, initial) && LinksMove(f.cameFrom, next)
    ensures var g := RelaxOne(f, current, Directions[k], next);
      Bookkeeping(g, initial) && LinksMove(g.cameFrom, next)
  {
    var d := Directions[k];
    var m := next(current, d);
    var g := RelaxOne(f, current, d, next);
    if g != f {
      assert m == MoveResult(m.board, true);
    }
  }

  lemma RelaxOneOpen(f: Frontier, closed: set<Board>, current: Board, k: nat, next: Transition)
    requires k < 4 && current in f.cost && f.visited == f.cost.Keys
    requires OpenExact(f) && Partition(f, closed)
    ensures var g := RelaxOne(f, current, Directions[k], next);
      OpenExact(g) && Partition(g, closed)
  {
    var g := RelaxOne(f, current, Directions[k], next);
    if g != f {
      var t := next(current, Directions[k]).board;
      var e := (f.cost[current] + 1, t);
      assert g.open == f.open + [e];
      forall s | s in g.cost ensures s in closed || (g.cost[s], s) in g.open {
        if s != t && s !in closed {
          assert (f.cost[s], s) in f.open;
        }
      }
    }
  }

  lemma RelaxOneLevels(f: Frontier, closed: set<Board>, level: nat, current: Board, k: nat, maxDepth: int, next: Transition)
    requires k < 4 && current in f.cost && f.visited == f.cost.Keys
    requires f.cost[current] == level && level < maxDepth && closed <= f.cost.Keys
    requires Levels(f, closed, level) && WithinBudget(f, maxDepth)
    ensures var g := RelaxOne(f, current, Directions[k], next);
      Levels(g, closed, level) && WithinBudget(g, maxDepth)
  {
    var g := RelaxOne(f, current, Directions[k], next);
    if g != f {
      var t := next(current, Directions[k]).board;
      assert g.open == f.open + [(level + 1, t)];
      assert t !in closed by {
        assert t !in f.cost;
      }
    }
  }

  lemma RelaxOneExpanded(f: Frontier, closed: set<Board>, level: nat, current: Board, k: nat, maxDepth: int, next: Transition)
    requires k < 4 && current in f.cost && f.visited == f.cost.Keys
    requires f.cost[current] == level && current in closed && closed <= f.cost.Keys
    requires f.cameFrom.Keys == f.cost.Keys
    requires forall s :: s in f.cost ==> f.cost[s] <= level + 1
    requires Expanded(f, closed, maxDepth, next, current, k)
    ensures Expanded(RelaxOne(f, current, Directions[k], next), closed, maxDepth, next, current, k + 1)
  {
    var g := RelaxOne(f, current, Directions[k], next);
    RelaxOneExtends(f, current, Directions[k], next);
    forall p, j | p in closed && p in g.cost && g.cost[p] < maxDepth && 0 <= j < Tried(p, current, k + 1)
      && j < 4 && next(p, Directions[j]).moved
      ensures next(p, Directions[j]).board in g.cost && g.cost[next(p, Directions[j]).board] <= g.cost[p] + 1
    {
      assert p in f.cost;
      if !(p == current && j == k) {
        assert j < Tried(p, current, k);
      }
    }
  }

  /** One direction keeps the invariant of the expansion. */
  lemma RelaxOneDuring(f: Frontier, closed: set<Board>, level: nat, initial: Board, target: int, maxDepth: int, next: Transition, current: Board, k: nat)
    requires k < 4 && During(f, closed, level, initial, target, maxDepth, next, current, k)
    ensures During(RelaxOne(f, current, Directions[k], next), closed, level, initial, target, maxDepth, next, current, k + 1)
  {
    RelaxOneLinks(f, initial, current, k, next);
    RelaxOneOpen(f, closed, current, k, next);
    RelaxOneLevels(f, closed, level, current, k, maxDepth, next);
    RelaxOneExpanded(f, closed, level, current, k, maxDepth, next);
    RelaxOneExtends(f, current, Directions[k], next);
  }

  /** The whole direction loop leaves every direction of `current` tried. */
  lemma {:induction false} RelaxDuring(f: Frontier, closed: set<Board>, level: nat, initial: Board, target: int, maxDepth: int, next: Transition, current: Board, k: nat)
    requires k <= 4 && During(f, closed, level, initial, target, maxDepth, next, current, k)
    ensures During(Relax(f, current, k, next), closed, level, initial, target, maxDepth, next, current, 4)
    decreases 4 - k
  {
    if k < 4 {
      RelaxOneDuring(f, closed, level, initial, target, maxDepth, next, current, k);
      RelaxDuring(RelaxOne(f, current, Directions[k], next), closed, level, initial, target, maxDepth, next, current, k + 1);
    }
  }

  /** With every direction of `current` tried, the loop invariant is back. */
  lemma DuringDone(f: Frontier, closed: set<Board>, level: nat, initial: Board, target: int, maxDepth: int, next: Transition, current: Board)
    requires During(f, closed, level, initial, target, maxDepth, next, current, 4)
    ensures Invariant(f, closed, level, initial, target, maxDepth, next)
  {
    ExpandedAll(f, closed, maxDepth, next, current, initial);
  }

  // ---------------------------------------------------------------------
  // What one pass records

  /** The direction loop never rewrites a record: every state recorded
      before keeps its cost and its predecessor, and every state recorded by
      the loop costs one more than `current` and has `current` as its
      predecessor. */
  lemma {:induction false} RelaxRecords(f: Frontier, current: Board, k: nat, next: Transition)
    requires current in f.cost && k <= 4
    requires f.visited == f.cost.Keys && f.cameFrom.Keys == f.cost.Keys
    ensures var g := Relax(f, current, k, next);
      && g.visited == g.cost.Keys && g.cameFrom.Keys == g.cost.Keys
      && (forall s :: s in f.cost ==> s in g.cost && g.cost[s] == f.cost[s] && g.cameFrom[s] == f.cameFrom[s])
      && (forall s :: s in g.cost && s !in f.cost ==>
            g.cost[s] == f.cost[current] + 1 && g.cameFrom[s].Edge? && g.cameFrom[s].prev == current)
    decreases 4 - k
  {
    if k < 4 {
      var h := RelaxOne(f, current, Directions[k], next);
      RelaxOneExtends(f, current, Directions[k], next);
      RelaxRecords(h, current, k + 1, next);
    }
  }

  /** One pass of the search loop never rewrites a record; a state at or
      over the depth limit is not expanded, so nothing is recorded for it;
      and each state recorded while expanding costs one more than the
      expanded state and has it as its predecessor. */
  lemma IterateRecords(f: Frontier, initial: Board, target: int, maxDepth: int, next: Transition)
    requires f.open != [] && OpenRecorded(f)
    requires f.visited == f.cost.Keys && f.cameFrom.Keys == f.cost.Keys
    ensures var current := f.open[PopIndex(f.open)].1;
      var o := Iterate(f, initial, target, maxDepth, next);
      o.Running? ==>
        && (forall s :: s in f.cost ==>
              s in o.frontier.cost && o.frontier.cost[s] == f.cost[s] && o.frontier.cameFrom[s] == f.cameFrom[s])
        && (f.cost[current] >= maxDepth ==> o.frontier.cost == f.cost && o.frontier.cameFrom == f.cameFrom)
        && (forall s :: s in o.frontier.cost && s !in f.cost ==>
              o.frontier.cost[s] == f.cost[current] + 1 && o.frontier.cameFrom[s] == Edge(current, o.frontier.cameFrom[s].dir))
  {
    var i := PopIndex(f.open);
    var current := f.open[i].1;
    assert current in f.cost;
    var rest := f.(open := RemoveAt(f.open, i));
    if !IsGoal(current, target) {
      if f.cost[current] >= maxDepth {
        assert Iterate(f, initial, target, maxDepth, next) == Running(rest);
      } else {
        assert Iterate(f, initial, target, maxDepth, next) == Running(Relax(rest, current, 0, next));
        RelaxRecords(rest, current, 0, next);
      }
    }
  }

  // ---------------------------------------------------------------------
  // The answers

  /** A path that follows the recorded links is a run of moves to its goal. */
  lemma {:induction false} LinksAreRun(cameFrom: map<Board, Link<Board>>, start: Board, goal: Board, path: seq<(Board, Direction)>, next: Transition)
    requires FollowsLinks(cameFrom, start, goal, path) && LinksMove(cameFrom, next)
    ensures IsRun(next, start, path) && End(start, path) == goal
    decreases |path|
  {
    if path != [] {
      var n := |path| - 1;
      LinksAreRun(cameFrom, start, Before(start, path, n), path[..n], next);
    }
  }

  /** Every state along a run of at most `maxDepth` moves is recorded with
      a cost no larger than its position, and is closed, as long as the
      states cheaper than `bound` are all closed and expanded. */
  lemma {:induction false} RunCovered(f: Frontier, closed: set<Board>, bound: nat, initial: Board, maxDepth: int, next: Transition, run: seq<(Board, Direction)>)
    requires initial in f.cost && f.cost[initial] == 0
    requires Expanded(f, closed, maxDepth, next, initial, 4)
    requires forall s :: s in f.cost && f.cost[s] < bound ==> s in closed
    requires IsRun(next, initial, run) && |run| < bound && |run| <= maxDepth
    ensures End(initial, run) in closed && End(initial, run) in f.cost && f.cost[End(initial, run)] <= |run|
    decreases |run|
  {
    if run != [] {
      var n := |run| - 1;
      var p := End(initial, run[..n]);
      RunCovered(f, closed, bound, initial, maxDepth, next, run[..n]);
      var d := run[n].1;
      DirectionRankIndex(d);
      var j := DirectionRank(d);
      assert next(p, Directions[j]) == MoveResult(run[n].0, true);
      assert j < Tried(p, initial, 4);
    }
  }

  /** When the popped state is a goal, the reconstructed path is a shortest
      run to a goal and stays within the depth limit. */
  lemma FoundShortest(f: Frontier, closed: set<Board>, level: nat, initial: Board, target: int, maxDepth: int, next: Transition)
    requires f.open != [] && Invariant(f, closed, level, initial, target, maxDepth, next)
    requires IsGoal(f.open[PopIndex(f.open)].1, target)
    ensures var r := ReconstructPath(f.cameFrom, initial, f.open[PopIndex(f.open)].1);
      && r.Some?
      && GoalRun(next, initial, target, r.value)
      && |r.value| <= Budget(maxDepth)
      && Shortest(next, initial, target, r.value)
  {
    var i := PopIndex(f.open);
    var (c, goal) := f.open[i];
    ReconstructRecorded(f.cameFrom, f.cost, initial, goal);
    Reconstruct(f.cameFrom, initial, goal);
    var path := ReconstructPath(f.cameFrom, initial, goal).value;
    LinksAreRun(f.cameFrom, initial, goal, path, next);
    PopIndexIsMin(f.open);
    forall s | s in f.cost && f.cost[s] < c ensures s in closed {
    }
    forall run | GoalRun(next, initial, target, run) ensures |path| <= |run| {
      if |run| < c {
        RunCovered(f, closed, c, initial, maxDepth, next, run);
      }
    }
  }

  /** When the queue runs dry, no run within the depth limit reaches a goal. */
  lemma Exhausted(f: Frontier, closed: set<Board>, level: nat, initial: Board, target: int, maxDepth: int, next: Transition)
    requires f.open == [] && Invariant(f, closed, level, initial, target, maxDepth, next)
    ensures NoGoalWithin(next, initial, target, maxDepth)
  {
    forall run | IsRun(next, initial, run) && |run| <= maxDepth ensures !IsGoal(End(initial, run), target) {
      RunCovered(f, closed, |run| + 1, initial, maxDepth, next, run);
    }
  }

  /** Taking a non-goal entry off the queue keeps the invariant: as it is
      when the state is not expanded, or as the expansion's starting point
      when it is. The queue loses that entry's weight. */
  lemma PopKeeps(f: Frontier, closed: set<Board>, level: nat, initial: Board, target: int, maxDepth: int, next: Transition)
    requires f.open != [] && Invariant(f, closed, level, initial, target, maxDepth, next)
    requires !IsGoal(f.open[PopIndex(f.open)].1, target)
    ensures var (c, current) := f.open[PopIndex(f.open)];
      var rest := f.(open := RemoveAt(f.open, PopIndex(f.open)));
      && current in f.cost && f.cost[current] == c
      && (c >= maxDepth ==> Invariant(rest, closed + {current}, c, initial, target, maxDepth, next))
      && (c < maxDepth ==> During(rest, closed + {current}, c, initial, target, maxDepth, next, current, 0))
      && Potential(rest.open, maxDepth) + Weight(c, maxDepth) == Potential(f.open, maxDepth)
  {
    var i := PopIndex(f.open);
    PopOpen(f, closed);
    PopLevels(f, closed, level);
    PopExpanded(f, closed, initial, maxDepth, next);
    PotentialRemove(f.open, i, maxDepth);
  }

  /** Expanding a state below the depth limit keeps the invariant and
      lowers the weight of the queue. */
  lemma ExpandKeeps(rest: Frontier, closed: set<Board>, c: nat, initial: Board, target: int, maxDepth: int, next: Transition, current: Board)
    requires During(rest, closed, c, initial, target, maxDepth, next, current, 0)
    ensures Invariant(Relax(rest, current, 0, next), closed, c, initial, target, maxDepth, next)
    ensures Potential(Relax(rest, current, 0, next).open, maxDepth) < Potential(rest.open, maxDepth) + Weight(c, maxDepth)
  {
    RelaxDuring(rest, closed, c, initial, target, maxDepth, next, current, 0);
    DuringDone(Relax(rest, current, 0, next), closed, c, initial, target, maxDepth, next, current);
    ExpandPotential(rest, current, c, maxDepth, next);
  }

  /** Expanding a state below the depth limit lowers the weight of the
      queue by more than the four entries it may add. */
  lemma ExpandPotential(rest: Frontier, current: Board, c: nat, maxDepth: int, next: Transition)
    requires current in rest.cost && rest.cost[current] == c && c < maxDepth
    ensures Potential(Relax(rest, current, 0, next).open, maxDepth) < Potential(rest.open, maxDepth) + Weight(c, maxDepth)
  {
    RelaxPotential(rest, current, c, 0, maxDepth, next);
    var w := Weight(c + 1, maxDepth);
    assert Copies(4, w) == 4 * w by {
      assert Copies(1, w) == w;
      assert Copies(2, w) == w + w;
      assert Copies(3, w) == w + w + w;
    }
  }

  /** One pass of the search loop: either it stops with a shortest path to
      a goal, or it keeps the invariant and lowers the weight of the queue. */
  lemma IterateStep(f: Frontier, closed: set<Board>, level: nat, initial: Board, target: int, maxDepth: int, next: Transition)
      returns (closed': set<Board>, level': nat)
    requires f.open != [] && Invariant(f, closed, level, initial, target, maxDepth, next)
    ensures OpenRecorded(f)
    ensures var o := Iterate(f, initial, target, maxDepth, next);
      && (o.Found? ==>
            && o.path.Some?
            && GoalRun(next, initial, target, o.path.value)
            && |o.path.value| <= Budget(maxDepth)
            && Shortest(next, initial, target, o.path.value))
      && (o.Running? ==>
            && Invariant(o.frontier, closed', level', initial, target, maxDepth, next)
            && Potential(o.frontier.open, maxDepth) < Potential(f.open, maxDepth))
  {
    var i := PopIndex(f.open);
    var (c, current) := f.open[i];
    var rest := f.(open := RemoveAt(f.open, i));
    closed', level' := closed + {current}, c;
    assert OpenRecorded(f);
    if IsGoal(current, target) {
      FoundShortest(f, closed, level, initial, target, maxDepth, next);
    } else {
      PopKeeps(f, closed, level, initial, target, maxDepth, next);
      if c < maxDepth {
        assert Iterate(f, initial, target, maxDepth, next) == Running(Relax(rest, current, 0, next));
        ExpandKeeps(rest, closed', c, initial, target, maxDepth, next, current);
      } else {
        assert Iterate(f, initial, target, maxDepth, next) == Running(rest);
      }
    }
  }

  /** `dijkstra_search`: the path to the first goal taken off the queue, or
      `None` once the queue is empty. A returned path is a run of successful
      moves from the initial board that ends on a goal, is as short as any
      such run, and is no longer than `maxDepth`; `None` means no run of at
      most `maxDepth` moves reaches a goal. */
  method DijkstraSearch(initial: Board, target: int, maxDepth: int, next: Transition)
      returns (r: Option<seq<(Board, Direction)>>)
    ensures r.Some? ==> GoalRun(next, initial, target, r.value)
    ensures r.Some? ==> |r.value| <= Budget(maxDepth)
    ensures r.Some? ==> Shortest(next, initial, target, r.value)
    ensures r.None? ==> NoGoalWithin(next, initial, target, maxDepth)
  {
    var f := Start(initial);
    ghost var closed: set<Board> := {};
    ghost var level: nat := 0;
    StartInvariant(initial, target, maxDepth, next);
    while f.open != []
      invariant Invariant(f, closed, level, initial, target, maxDepth, next)
      decreases Potential(f.open, maxDepth)
    {
      ghost var closed', level' := IterateStep(f, closed, level, initial, target, maxDepth, next);
      match Iterate(f, initial, target, maxDepth, next)
      case Found(path) =>
        return path;
      case Running(g) =>
        f, closed, level := g, closed', level';
    }
    Exhausted(f, closed, level, initial, target, maxDepth, next);
    return None;
  }
}
