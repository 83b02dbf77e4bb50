/**
  `reconstruct_path`: follow the predecessor map from the goal back to the
  start and list, in start-to-goal order, every state reached together with
  the direction that reached it. The engine's version and the Dijkstra
  search's own version walk the map the same way; they differ only in how
  they print states, which is not modelled. The engine's version can first
  decode each state (`decompress_boards`); that is `ReconstructDecoded`.
 */
module Paths {
  import opened Options
  import opened Grid
  import opened Encoding

  /** A value of `came_from`: the start's `None`, or a predecessor and the
      direction that led from it. */
  datatype Link<S> = Root | Edge(prev: S, dir: Direction)

  /** The walk from `current` towards `start`, following at most `fuel`
      links. `None` stands for the three ways the source's loop fails: a
      state missing from the map (`KeyError`), a `None` entry before the
      start is reached (unpacking `None`), and running out of links, which
      for a map with `fuel` or fewer entries means the chain cycles and the
      source never returns. */
  function Walk<S(==)>(cameFrom: map<S, Link<S>>, start: S, current: S, fuel: nat): Option<seq<(S, Direction)>>
    decreases fuel
  {
    if current == start then Some([])
    else if fuel == 0 || current !in cameFrom then None
    else match cameFrom[current]
      case Root => None
      case Edge(p, d) =>
        match Walk(cameFrom, start, p, fuel - 1)
        case None => None
        case Some(path) => Some(path + [(current, d)])
  }

  /** `reconstruct_path(came_from, start, goal)`. */
  function ReconstructPath<S(==)>(cameFrom: map<S, Link<S>>, start: S, goal: S): Option<seq<(S, Direction)>>
  {
    Walk(cameFrom, start, goal, |cameFrom|)
  }

  /** The state an entry's move starts from: the start for the first entry,
      the previous entry's state after that. */
  function Before<S>(start: S, path: seq<(S, Direction)>, i: nat): S
    requires i < |path|
  {
    if i == 0 then start else path[i - 1].0
  }

  /** `path` lists, from the start to `goal`, states each of which the map
      links to the state before it with the entry's direction, and none of
      which is the start itself: the empty path stays at the start, and a
      longer one is a path to the state before its last entry followed by
      that entry. */
  ghost predicate FollowsLinks<S>(cameFrom: map<S, Link<S>>, start: S, goal: S, path: seq<(S, Direction)>)
    decreases |path|
  {
    if path == [] then goal == start
    else
      var n := |path| - 1;
      && path[n].0 == goal && goal != start && goal in cameFrom
      && cameFrom[goal] == Edge(Before(start, path, n), path[n].1)
      && FollowsLinks(cameFrom, start, Before(start, path, n), path[..n])
  }

  /** Entry by entry: every listed state is recorded, is not the start, and
      is linked to the state before it with its direction. */
  lemma {:induction false} LinkAt<S>(cameFrom: map<S, Link<S>>, start: S, goal: S, path: seq<(S, Direction)>, i: nat)
    requires FollowsLinks(cameFrom, start, goal, path) && i < |path|
    ensures path[i].0 != start && path[i].0 in cameFrom
    ensures cameFrom[path[i].0] == Edge(Before(start, path, i), path[i].1)
    decreases |path|
  {
    var n := |path| - 1;
    if i < n {
      LinkAt(cameFrom, start, Before(start, path, n), path[..n], i);
    }
  }

  /** Whatever the walk returns follows the links. */
  lemma {:induction false} WalkSound<S>(cameFrom: map<S, Link<S>>, start: S, current: S, fuel: nat)
    requires Walk(cameFrom, start, current, fuel).Some?
    ensures FollowsLinks(cameFrom, start, current, Walk(cameFrom, start, current, fuel).value)
    ensures |Walk(cameFrom, start, current, fuel).value| <= fuel
    decreases fuel
  {
    if current != start {
      var Edge(p, d) := cameFrom[current];
      WalkSound(cameFrom, start, p, fuel - 1);
      var front := Walk(cameFrom, start, p, fuel - 1).value;
      var path := front + [(current, d)];
      assert path[..|front|] == front;
      assert Before(start, path, |front|) == p;
    }
  }

  /** A path that follows the links is found by a walk with enough fuel. */
  lemma {:induction false} WalkComplete<S>(cameFrom: map<S, Link<S>>, start: S, goal: S, path: seq<(S, Direction)>, fuel: nat)
    requires FollowsLinks(cameFrom, start, goal, path) && |path| <= fuel
    ensures Walk(cameFrom, start, goal, fuel) == Some(path)
    decreases |path|
  {
    if path != [] {
      var n := |path| - 1;
      var prev := Before(start, path, n);
      WalkComplete(cameFrom, start, prev, path[..n], fuel - 1);
      WalkStep(cameFrom, start, goal, fuel, prev, path[n].1);
      assert path == path[..n] + [(goal, path[n].1)];
    }
  }

  /** One link of the walk. */
  lemma WalkStep<S>(cameFrom: map<S, Link<S>>, start: S, current: S, fuel: nat, prev: S, d: Direction)
    requires current != start && current in cameFrom && cameFrom[current] == Edge(prev, d) && fuel > 0
    ensures Walk(cameFrom, start, current, fuel)
         == match Walk(cameFrom, start, prev, fuel - 1)
            case None => None
            case Some(path) => Some(path + [(current, d)])
  {
  }

  /** The states of a path that follows the links are pairwise distinct:
      the links determine each state's predecessor, so a repeat would bring
      the start back into the path. */
  lemma DistinctStates<S>(cameFrom: map<S, Link<S>>, start: S, goal: S, path: seq<(S, Direction)>)
    requires FollowsLinks(cameFrom, start, goal, path)
    ensures forall i, j :: 0 <= i < j < |path| ==> path[i].0 != path[j].0
  {
    forall i, j | 0 <= i < j < |path| ensures path[i].0 != path[j].0 {
      NoRepeat(cameFrom, start, goal, path, i, j);
    }
  }

  lemma {:induction false} NoRepeat<S>(cameFrom: map<S, Link<S>>, start: S, goal: S, path: seq<(S, Direction)>, i: nat, j: nat)
    requires FollowsLinks(cameFrom, start, goal, path)
    requires i < j < |path|
    ensures path[i].0 != path[j].0
    decreases i
  {
    LinkAt(cameFrom, start, goal, path, i);
    LinkAt(cameFrom, start, goal, path, j);
    if i > 0 {
      NoRepeat(cameFrom, start, goal, path, i - 1, j - 1);
    } else {
      LinkAt(cameFrom, start, goal, path, j - 1);
    }
  }

  /** A sequence without repeats has as many distinct elements as entries. */
  lemma {:induction false} DistinctCount<S>(xs: seq<S>)
    requires forall i, j :: 0 <= i < j < |xs| ==> xs[i] != xs[j]
    ensures |set i | 0 <= i < |xs| :: xs[i]| == |xs|
  {
    if xs != [] {
      var front := xs[..|xs| - 1];
      DistinctCount(front);
      var s := set i | 0 <= i < |xs| :: xs[i];
      var t := set i | 0 <= i < |front| :: front[i];
      assert s == t + {xs[|xs| - 1]};
      assert xs[|xs| - 1] !in t;
    }
  }

  lemma {:induction false} SubsetCount<S>(a: set<S>, b: set<S>)
    requires a <= b
    ensures |a| <= |b|
    decreases |b|
  {
    if a != {} {
      var x :| x in a;
      SubsetCount(a - {x}, b - {x});
    }
  }

  /** A path that follows the links is never longer than the map. */
  lemma PathFitsMap<S>(cameFrom: map<S, Link<S>>, start: S, goal: S, path: seq<(S, Direction)>)
    requires FollowsLinks(cameFrom, start, goal, path)
    ensures |path| <= |cameFrom|
  {
    DistinctStates(cameFrom, start, goal, path);
    var states := seq(|path|, i requires 0 <= i < |path| => path[i].0);
    DistinctCount(states);
    forall i | 0 <= i < |states| ensures states[i] in cameFrom {
      LinkAt(cameFrom, start, goal, path, i);
    }
    SubsetCount(set i | 0 <= i < |states| :: states[i], cameFrom.Keys);
  }

  /** `reconstruct_path` returns a path exactly when one follows the links
      from the start to the goal, and then it returns that path; with
      `goal == start` it is empty. */
  lemma Reconstruct<S>(cameFrom: map<S, Link<S>>, start: S, goal: S)
    ensures ReconstructPath(cameFrom, start, goal).Some? ==>
      FollowsLinks(cameFrom, start, goal, ReconstructPath(cameFrom, start, goal).value)
    ensures forall path :: FollowsLinks(cameFrom, start, goal, path) ==>
      ReconstructPath(cameFrom, start, goal) == Some(path)
    ensures goal == start ==> ReconstructPath(cameFrom, start, goal) == Some([])
  {
    if ReconstructPath(cameFrom, start, goal).Some? {
      WalkSound(cameFrom, start, goal, |cameFrom|);
    }
    forall path | FollowsLinks(cameFrom, start, goal, path)
      ensures ReconstructPath(cameFrom, start, goal) == Some(path)
    {
      PathFitsMap(cameFrom, start, goal, path);
      WalkComplete(cameFrom, start, goal, path, |cameFrom|);
    }
  }

  /** The bookkeeping of a search that records, for every state it reaches,
      a cost one above its predecessor's: the start alone has cost 0 and no
      predecessor. */
  ghost predicate CostLinked<S(!new)>(cameFrom: map<S, Link<S>>, cost: map<S, nat>, start: S)
  {
    && start in cameFrom && cameFrom[start] == Root
    && cameFrom.Keys == cost.Keys && cost[start] == 0
    && (forall s :: s in cameFrom && cameFrom[s].Root? ==> s == start)
    && (forall s :: s in cameFrom && cameFrom[s].Edge? ==>
          cameFrom[s].prev in cameFrom && cost[s] == cost[cameFrom[s].prev] + 1)
  }

  /** Under that bookkeeping every recorded state has a path back to the
      start, with one entry per unit of cost. */
  lemma {:induction false} CostLinkedPath<S(!new)>(cameFrom: map<S, Link<S>>, cost: map<S, nat>, start: S, goal: S)
      returns (path: seq<(S, Direction)>)
    requires CostLinked(cameFrom, cost, start) && goal in cameFrom
    ensures FollowsLinks(cameFrom, start, goal, path) && |path| == cost[goal]
    decreases cost[goal]
  {
    if goal == start {
      path := [];
    } else {
      var Edge(p, d) := cameFrom[goal];
      var front := CostLinkedPath(cameFrom, cost, start, p);
      path := front + [(goal, d)];
      assert path[..|front|] == front;
      assert Before(start, path, |front|) == p;
    }
  }

  /** Hence `reconstruct_path` succeeds on every recorded state. */
  lemma ReconstructRecorded<S(!new)>(cameFrom: map<S, Link<S>>, cost: map<S, nat>, start: S, goal: S)
    requires CostLinked(cameFrom, cost, start) && goal in cameFrom
    ensures ReconstructPath(cameFrom, start, goal).Some?
    ensures |ReconstructPath(cameFrom, start, goal).value| == cost[goal]
  {
    var path := CostLinkedPath(cameFrom, cost, start, goal);
    Reconstruct(cameFrom, start, goal);
  }

  /** `reconstruct_path(..., decompress_boards=True)` on encoded states: the
      same walk, with every listed state decoded to its board. */
  function ReconstructDecoded(cameFrom: map<Word, Link<Word>>, start: Word, goal: Word): (r: Option<seq<(Board, Direction)>>)
    ensures var raw := ReconstructPath(cameFrom, start, goal);
      && (r.Some? <==> raw.Some?)
      && (r.Some? ==> |r.value| == |raw.value|)
      && (r.Some? ==> forall i :: 0 <= i < |r.value| ==>
            Encode(r.value[i].0) == Some(raw.value[i].0) && r.value[i].1 == raw.value[i].1)
  {
    match ReconstructPath(cameFrom, start, goal)
    case None => None
    case Some(path) =>
      var boards := seq(|path|, i requires 0 <= i < |path| => (Decode(path[i].0), path[i].1));
      assert forall i :: 0 <= i < |path| ==> Encode(boards[i].0) == Some(path[i].0) by {
        forall i | 0 <= i < |path| ensures Encode(boards[i].0) == Some(path[i].0) {
          EncodeDecode(path[i].0);
        }
      }
      Some(boards)
  }
}
