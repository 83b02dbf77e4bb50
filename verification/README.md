# A verified model of a 2048 solver's engine and two of its searches

This project models, in Dafny, the deterministic core of a Python program
that searches the state space of the sliding-tile game 2048 for a board
holding a target tile. It covers three parts.

- **The board engine** (`src/game_2048.py`):
  - `move` with its inner `compress`, three-round `merge`, `reverse` and `transpose`;
  - `spawn_new_tile`;
  - the move counter `BOARD_COUNTER`;
  - both branches of `is_goal`;
  - the sequential `get_possible_moves`;
  - the 64-bit board word of `compress_board` and `decompress`;
  - the predecessor walk `reconstruct_path`.
- **Minimax with alpha-beta pruning** (`src/algorithms/minimax_search.py`): the leaf `heuristic`, the `minimax` recursion and the `minimax_search` driver.
- **Uniform-cost search** (`src/algorithms/dijkstra_search.py`): `dijkstra_search` and its own `reconstruct_path`.

A board is a row-major sequence of 16 integers. A move in any direction is
the left slide of one line (`Lines.SlideLine`: compress, then three rounds
of merge-and-compress), applied to each line of the board oriented by
reverse and transpose, as the source does it (`Grid.Slide`).

The random spawn is an explicit `Game.SpawnChoice`: which empty cell, and
whether the tile is 2 or 4. Both searches are stated over any successor
function `next: (Board, Direction) -> MoveResult`. `Game.Mover` is the
engine's own successor function: it fixes the spawn for every
(board, direction) pair through a `Game.Chooser`.

Float infinities in minimax are an extended-integer type (`ExtInt.EInt`).

Minimax has an independent reference:
- `Minimax.PlainValue` is the unpruned minimax value.
- `Minimax.PlainChoice` is the first direction whose child attains it.

The main theorem (`Minimax.SearchClamp`) says that alpha-beta, clamped to its
window, equals the unpruned value clamped to the same window.

The Dijkstra search is a step function (`Dijkstra.Iterate`) with a loop
invariant. Its answer is proved to be a shortest run of successful moves to
a goal. `None` means no goal is reachable within `max_depth` moves.

### Behaviour of the code worth knowing

- **Minimizing layer.** It ranges over what `get_possible_moves` returns:
  one successor per direction that moves, each with its own single spawn.
  It does not range over every possible spawn placement.
- **Path entries.** Entries returned by `reconstruct_path` (both versions)
  pair each *reached* state with the direction that reached it. They do not
  hold the board the move was made from.
- **Maximizing layer.** It returns no move exactly when no child is worth
  more than minus infinity (`Minimax.ChoiceMeaning`). That is not the same
  as "no direction moves". A moving direction whose child leads only to dead
  ends is worth minus infinity, and minus infinity never beats the starting
  best. The driver then stops although a move was available. This holds for
  every successor function (`Minimax.ChoiceMeaning`).
  `Minimax.NoMoveDespiteMoving` shows a concrete case. It uses a small
  artificial successor function, not the game's `move`: that keeps the
  example cheap to prove.
- **Dijkstra's visited set.** `visited_states` always equals the set of states
  with a recorded cost (`Dijkstra.Bookkeeping`). So a successor that passes
  the visited test has no cost recorded yet, and the "cheaper than the
  recorded cost" alternative at `dijkstra_search.py:42` never decides
  anything.

## Model

| member | source | states |
|---|---|---|
| Lines.CompressEffect | src/game_2048.py:76-89 | Compressing a line keeps its non-zero tiles in their original order, packed at the front and followed by zeros. The flag holds exactly when the line was not already packed, which is exactly when the line changes. Sum and tile count are kept. |
| Lines.CompressIdempotent | src/game_2048.py:80-89 | Compressing an already compressed line returns it unchanged, with the flag false. |
| Lines.MergeStep | src/game_2048.py:99-101 | Replacing an equal non-zero pair `v, v` by `2v, 0` keeps the line's sum and removes exactly one tile. |
| Lines.MergeScanEffect | src/game_2048.py:97-102 | One left-to-right merge scan keeps length and sum and never adds a tile. Its flag is set exactly when it merged (or was set before). It changes the line exactly when it removes a tile. An unchanged line has no equal non-zero neighbours from the scan start on. |
| Lines.MergeRoundsEffect | src/game_2048.py:91-104 | The scan-then-compress rounds on a packed line keep it packed and keep its sum. They report a merge exactly when the tile count fell, and otherwise return the line unchanged. If an equal non-zero pair is left, every round removed a tile. |
| Lines.SlideLineEffect | src/game_2048.py:121-124 | The left slide of one line gives a packed line with the same sum and no more tiles. It reports movement exactly when the line changed, and a line that moved ends with an empty cell. |
| Lines.SlideLineSettles | src/game_2048.py:96-103 | On a line of at most four cells, three rounds leave no equal non-zero neighbours. Sliding the result again changes nothing and reports no movement. |
| Lines.SlideFourTwos | src/game_2048.py:96-103 | `[2, 2, 2, 2]` slides left to `[8, 0, 0, 0]`, so the rounds cascade rather than merging each pair once. |
| Lines.SlideCascade | src/game_2048.py:96-103 | `[2, 2, 4, 8]` slides left to `[16, 0, 0, 0]`: each of the three rounds merges again. |
| Grid.SlideByLines | src/game_2048.py:121-144 | The reverse/transpose conjugations give the line view. For right, up and down, the result holds, in the cells of each line read in the direction of the move, the left slide of that line. The direction reports movement exactly when one of its lines does. |
| Grid.SlidLines | src/game_2048.py:121-144 | Reading line `k` of the slid board in the direction of the move gives the left slide of line `k` of the original board. |
| Grid.SlideKeepsTotal | src/game_2048.py:118-144 | Sliding in any direction keeps the board's tile sum. |
| Grid.SlideFlag | src/game_2048.py:118-144 | The slide's flag holds exactly when the board changed. A board that changed has an empty cell. |
| Grid.UnmovedSlide | src/game_2048.py:118-144 | A slide that reports no movement returns the board unchanged. |
| Game.Spawn | src/game_2048.py:150-158 | With no empty cell the board is unchanged. Otherwise exactly one cell that was empty now holds a 2 or a 4, and every other cell keeps its value. |
| Game.MoveEffect | src/game_2048.py:118-158 | When `move` reports no movement the board comes back unchanged, and an unrecognised direction never moves. It moves exactly when the slide changed the board. Then the result is the slid board with one new tile, a 2 or a 4, in a cell the slide left empty. |
| Game.MoveTotal | src/game_2048.py:118-158 | `move` keeps the board total when it does not move, and raises it by exactly the spawned tile when it does. |
| Game.PossibleMoves | src/game_2048.py:48-53 | Sequential `get_possible_moves` returns at most four boards. They are exactly the results of the directions that moved, in the order up, down, left, right. The move counter rises by one for each. |
| Game.StuckBoard | src/game_2048.py:48-53 | A full board with no equal horizontal or vertical neighbours has no successors. |
| Game.IsGoalMeaning | src/game_2048.py:67 | On a raw board the goal test holds exactly when the target tile is present and no tile is larger. |
| Encoding.Encode | src/game_2048.py:183-191 | `compress_board` fails (the table lookup raises) exactly when some cell holds a value that has no 4-bit code. |
| Encoding.DecodeEncode | src/game_2048.py:183-211 | Decoding the word of an encodable board gives the board back. |
| Encoding.EncodeDecode | src/game_2048.py:183-211 | Every 64-bit word is the encoding of the board it decodes to. |
| Encoding.UnpackPack | src/game_2048.py:187-211 | Reading the 4-bit groups of a packed word most significant first gives back the codes in row-major order. |
| Encoding.IsGoalEncodedMeansPresent | src/game_2048.py:59-66 | On an encoded board the goal test holds exactly when the target tile is present in some cell. |
| Encoding.BranchesDiffer | src/game_2048.py:55-67 | The two branches of `is_goal` disagree: the board `8, 16, 0, …` is a goal for 8 when encoded, but not when raw. |
| Paths.Reconstruct | src/game_2048.py:12-31 | A successful `reconstruct_path` follows the recorded links from the start to the goal. Any path that follows them is the one returned. When goal equals start the path is empty. |
| Paths.DistinctStates | src/game_2048.py:17-30 | A path that follows the links never lists a state twice. |
| Paths.ReconstructDecoded | src/game_2048.py:19-31 | With `decompress_boards`, it walks the same links and lists every state decoded, the decoded board encoding back to the recorded word. |
| Paths.ReconstructRecorded | src/algorithms/dijkstra_search.py:51-59 | If every recorded state costs one more than its predecessor and only the start has none, the walk succeeds on every recorded state. Its path has one entry per unit of cost. |
| Heuristics.ComputeHeuristic | src/algorithms/minimax_search.py:39-62 | The loops of `heuristic` compute the closed-form score: 10 per empty cell, minus 1 per row and per column that descends somewhere, plus 5 per equal horizontal or vertical neighbour pair, negated. |
| Heuristics.HeuristicRange | src/algorithms/minimax_search.py:39-62 | The score lies between -280 and 8. |
| Minimax.SearchClamp | src/algorithms/minimax_search.py:9-36 | For every board, depth and window, alpha-beta with pruning, clamped to the window, equals the unpruned minimax value clamped to the same window. |
| Minimax.SearchExact | src/algorithms/minimax_search.py:9-36 | With the window from minus to plus infinity, alpha-beta returns exactly the unpruned value. |
| Minimax.RootSearch | src/algorithms/minimax_search.py:9-26 | The root call returns the unpruned value together with the first direction whose child attains it. |
| Minimax.SearchMove | src/algorithms/minimax_search.py:10-36 | For any window: at depth 0 or on a goal no move is returned, and the minimizing layer never returns a move. A move the maximizing layer returns is a direction that moves the board. |
| Minimax.ChoiceMeaning | src/algorithms/minimax_search.py:13-26 | The maximizing layer returns a move exactly when its value is above minus infinity. The move is then the first direction, in the order up, down, left, right, whose child attains the value; every earlier direction's child is worth less, and the move moves the board. |
| Minimax.NoMoveDespiteMoving | src/algorithms/minimax_search.py:13-26 | On an artificial successor function (not the game's `move`) where `up` moves but leads only to a dead end, the maximizing layer returns minus infinity and no move. |
| Minimax.MinimaxSearch | src/algorithms/minimax_search.py:65-78 | The driver's record starts at the initial board. Each entry is the move the search recommends for the budget left, played on a non-goal board, and the move succeeds and leads to the next board. It stops only at a goal, with the budget spent, or when no move is recommended. |
| Minimax.PlayStart | src/algorithms/minimax_search.py:65-78 | The driver's record is no longer than the initial `max_depth` and starts at the initial board. |
| Minimax.PlayMoves | src/algorithms/minimax_search.py:72-76 | Every recorded direction is one for which the move succeeded, and it leads to the next recorded board (or the final one). |
| Dijkstra.PopIndexIsMin | src/algorithms/dijkstra_search.py:22 | `heappop` takes an entry no other entry is smaller than in Python's tuple order, and every other entry is larger. |
| Dijkstra.LexOrder | src/algorithms/dijkstra_search.py:22 | Python's tuple order on the states is a strict total order. |
| Dijkstra.StartInvariant | src/algorithms/dijkstra_search.py:10-19 | After initialisation the loop invariant holds. The start has cost 0 and no predecessor. Every recorded state is queued with exactly its cost, and the visited set is the set of recorded states. |
| Dijkstra.RelaxOneExtends | src/algorithms/dijkstra_search.py:37-46 | Trying one direction never changes a recorded cost or predecessor. A visited state is never recorded again. |
| Dijkstra.IterateRecords | src/algorithms/dijkstra_search.py:21-46 | One pass of the loop keeps every recorded cost and predecessor. A state at or over `max_depth` is not expanded, so nothing is recorded for it. Each newly recorded state costs one more than the expanded state and has it as its predecessor. |
| Dijkstra.IterateStep | src/algorithms/dijkstra_search.py:21-46 | One pass either stops with a shortest run of moves to a goal, within `max_depth`, or keeps the loop invariant and strictly lowers the weight of the queue. |
| Dijkstra.FoundShortest | src/algorithms/dijkstra_search.py:25-26 | When the popped state is a goal, the reconstructed path exists. It is a run of successful moves from the initial board ending on that goal, no longer than `max_depth` and no longer than any run to a goal. |
| Dijkstra.Exhausted | src/algorithms/dijkstra_search.py:21-48 | When the queue runs dry, no run of at most `max_depth` moves from the initial board reaches a goal. |
| Dijkstra.DijkstraSearch | src/algorithms/dijkstra_search.py:9-48 | A returned path is a run of successful moves from the initial board that ends on a goal. It is no longer than `max_depth` and as short as any run to a goal. `None` means no run of at most `max_depth` moves reaches a goal. |

## Left out

- Randomness: `sys_random.choice` and `sys_random.random() < 0.1` become the explicit `Game.SpawnChoice`. The probabilities (uniform cell, 10% fours) are not modelled. The model fixes one spawn per (board, direction) pair. The source draws afresh on every call of `move`, so one minimax tree that meets the same board and direction twice can see two different spawns. `Minimax.SearchClamp` and `Minimax.RootSearch` are stated over a fixed successor function and do not cover that case.
- Minimax.MinimaxSearch: the spawn is fixed per (board, direction) pair. The source draws a fresh spawn on every call of `move`, so the board the driver moves to may differ from the one the search looked at. The model gives the driver the same successor function as the search.
- Dijkstra.DijkstraSearch: it is stated over a successor function with the spawn fixed. Every recorded state is expanded at most once, so each (board, direction) pair is tried at most once per run, and nothing of a single run is lost. Shortest and unreachable are meant with respect to that function.
- Default depths: `dijkstra_search` defaults `max_depth` to 100000 (`dijkstra_search.py:9`) and `minimax_search` defaults it to 1000 (`minimax_search.py:65`). `main.py` relies on these defaults. `Dijkstra.DijkstraSearch` and `Minimax.MinimaxSearch` take the depth as a parameter, so the caller chooses it.
- Concurrency: the parallel branch of `get_possible_moves` (thread pool, results in completion order) is not modelled. Thread safety of the counter and the random source is not modelled either.
- `BOARD_COUNTER` is a process-wide global. It is modelled as `Game.CountMove` (one more exactly when `move` moved) and threaded through `get_possible_moves`. The two searches do not thread it, because it only counts boards for statistics.
- `get_board_count`, `reset_board_count` and `generate_new_board` are left out. They only read or reset the counter, or spawn twice on an empty board.
- The A* and Monte Carlo searches, `main.py` and `generate_graph.py` are left out. Their heuristics use floating point, and the rest is command-line handling, timing, printing and file output.
- `np.array2string` formatting of path entries is left out: path entries hold boards (or 64-bit words) instead of strings.
- The `utils` module, which defines `BIT_DICT` and `PLACE_DICT`, is not part of this model. The two tables are taken to be the base-2 exponent map for 0 and 2 to 32768, and its inverse. `PLACE_DICT` is keyed by the 4-bit code itself rather than its four-character binary spelling.
- Encoding.IsGoalEncoded: it takes only words below 2^64. The source formats any integer with at least 64 binary digits.
- Float `±inf` in alpha-beta is the extended-integer type `ExtInt.EInt`. Tile values and scores are unbounded integers: numpy's 64-bit overflow is not reachable from tiles up to 32768 and is not modelled.
- Paths.Reconstruct: the walk follows at most as many links as the map has entries. A predecessor chain that cycles, on which the source loops forever, gives `None`. So do a missing key and a `None` link before the start, on which the source raises.
- The `heapq` heap is a sequence from which the smallest entry in tuple order is taken. The heap's internal layout is not modelled.
- `move` is called with direction strings. Any string other than the four names is `Unrecognised`, which never moves.
