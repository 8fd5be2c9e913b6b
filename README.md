# A* on an occupancy grid, modelled in Dafny

This project models the search core of `rust-a-star` (`src/main.rs`):

- the grid `Map`: a row-major vector of blocked flags;
- the search node `PathNode`, with its equality and its heap order;
- `find_smallest_f`;
- `backtrace_path`;
- `a_star`.

`a_star` is modelled with the parts it is built from:

- the open set, a `BinaryHeap` paired with a `HashMap` from cell to node;
- the expanded list `came_from`;
- the two nested offset loops that generate a node's neighbours;
- the `while let` loop that admits candidates and stops at the goal;
- the terminal node appended when the goal is reached.

Modules:

- `Grid` (`grid.dfy`): positions, the tile vector, the 8-neighbourhood and walks.
- `PathNodes` (`path_nodes.dfy`): nodes, `eq`, and `cmp`, the reversed-`f`-then-cell order.
- `Frontier` (`frontier.dfy`): heap pop, `find_smallest_f`, the lookup in `came_from`, and candidate admission.
- `Backtrace` (`backtrace.dfy`): path reconstruction along parent links.
- `Search` (`search.dfy`): neighbour generation, the main loop, and the invariants that connect them.

State in the model:

- The heap is a `multiset`. Popping hands out some greatest element under `cmp`: least `f` first, and the later cell among equal `f`. Which of several nodes that compare `Equal` comes out is left open, as `BinaryHeap` leaves it open.
- Parent links are an inductive `Option<PathNode>`. Sharing through `Rc` is not observable, because nodes are never updated.
- The search loop is a `while` loop over `open`, `cameFrom` and the candidate list. It is proved against `SearchInvariant`, which has five parts:
  - the map only holds nodes that are in the heap;
  - every node in the heap and every expanded node has a parent chain of generated steps back to the start node;
  - the start cell is in the heap or expanded;
  - no expanded node has the goal as a neighbour;
  - every neighbour of an expanded node is in the heap or expanded.

The main results, both in the postcondition of `Search.AStar`:

- **Found**: the path starts with the start cell twice. The root is pushed once inside the backtrace loop and once after it. The path ends at the goal, and from its second element on every step goes to an in-bounds, unblocked, 8-adjacent cell.
- **NotFound**: the frontier ran empty, and then no walk of one or more steps leads from the start to the goal.

Where the documented behaviour and the code disagree, the model follows the code:

- **Start equals goal.** The goal is only recognised when it turns up as a neighbour of an expanded node. So when start equals goal the search does not stop at once.
  - On a 1x1 grid it returns `None`, not `Some([start])`: `Search.SingleCellHasNoWalk`, together with the postcondition of `Search.AStar`.
- **Start cost.** The start node has `f = 0.0`, not the heuristic value.
- **Heuristic weight.** The weight is the constant 2.
- **Repeated start.** The returned path repeats the start cell.

## Model

| member | source | states |
|---|---|---|
| `Grid.ComparePositions` | src/main.rs:38 | the derived tuple order on cells: `Less`/`Greater`/`Equal` exactly when the first cell is lexicographically before, after, or the same as the second |
| `Grid.CellIndexRoundTrip` | src/main.rs:266 | the index `x + y * width` of an in-bounds cell lies inside the tile vector and decodes back to the same cell |
| `Grid.CellAtRoundTrip` | src/main.rs:8-12 | every entry of the row-major tile vector describes exactly one in-bounds cell, whose index is that entry's |
| `PathNodes.Cmp` | src/main.rs:36-47 | a node is greater exactly when its `f` is smaller, or `f` is equal and its cell is later; `Equal` exactly when `f` and cell agree |
| `PathNodes.CmpIsTotalPreorder` | src/main.rs:36-40 | swapping the arguments flips the outcome, and "not greater" is transitive, so the heap order is a total preorder |
| `PathNodes.EqImpliesCmpEqual` | src/main.rs:24-30 | nodes equal under `eq` compare `Equal` |
| `PathNodes.CmpEqualWithoutEq` | src/main.rs:24-40 | two nodes with the same cell and `f` but different `g` compare `Equal` while `eq` says they differ |
| `PathNodes.EqByRank` | src/main.rs:24-30 | an equality on cell and `f` that holds exactly when `cmp` says `Equal`, and that is implied by `eq` |
| `Frontier.TopExists` | src/main.rs:242 | every non-empty heap has a greatest element under `cmp` |
| `Frontier.Pop` | src/main.rs:242 | the popped node was in the heap, exactly one copy of it leaves, its `f` is minimal, and among nodes of that `f` its cell is the latest |
| `Frontier.FindSmallestF` | src/main.rs:199-204 | no key exactly when the map is empty (the source panics there); otherwise a key of the map whose node has the least `f` |
| `Frontier.FirstAt` | src/main.rs:295 | nothing exactly when no expanded node is at the cell; otherwise the expanded node at the cell with no earlier one there |
| `Frontier.AdmissionKeepsOpenSet` | src/main.rs:281-305 | admitting candidates keeps every map entry keyed by its own cell and present in the heap, only adds to the heap and only adds candidates; when the goal is not among them, every candidate's cell ends up in the heap or expanded |
| `Frontier.AdmitCandidates` | src/main.rs:281-305 | the loop reports the goal exactly when some candidate is at the goal's cell, and leaves the frontier the back-to-front admission produces, stopping at the goal |
| `Backtrace.PathTo` | src/main.rs:206-225 | the cells of a node's parent chain in travel order: non-empty, starting at the root's cell and ending at the node's own cell |
| `Backtrace.LineageReversed` | src/main.rs:223 | reversing the chain read from the node back to the root gives the travel order |
| `Backtrace.RootTwice` | src/main.rs:218-223 | appending the root's cell once more and reversing puts the root's cell twice in front of the travel order |
| `Backtrace.BacktracePath` | src/main.rs:206-225 | empty input gives an empty path; otherwise the root's cell twice, then the chain in travel order, ending at the last node's cell |
| `Search.ChainIsWalk` | src/main.rs:270-278 | a node whose chain consists of generated steps has the start node as root, and its chain's cells form a walk |
| `Search.ExpandNeighbours` | src/main.rs:248-280 | at most eight candidates, each an in-bounds unblocked adjacent cell with `q` as parent, `g` extended by the step cost and `f = g + 2 * dist(cell, goal)`; every such neighbour is generated, once each, in increasing cell order |
| `Search.PopKeepsOpenSet` | src/main.rs:242-244 | popping a node and removing its cell's map entry keeps every remaining entry in the heap |
| `Search.ExpansionKeepsInvariant` | src/main.rs:237-316 | one pop, expansion and admission that does not meet the goal keeps the search invariant once the popped node is appended to `came_from` |
| `Search.ExhaustedMeansUnreachable` | src/main.rs:238-240 | when the heap is empty under the search invariant, no walk of one or more steps leads from the start to the goal |
| `Search.TerminalPath` | src/main.rs:306-313 | the terminal node appended at the goal has a chain that is a walk from the start to the goal |
| `Search.SingleCellHasNoWalk` | src/main.rs:249-268 | on a 1x1 grid no walk of one or more steps leaves the only cell, so `a_star` cannot return a path there |
| `Search.AStar` | src/main.rs:227-320 | a returned path starts with the start cell twice, ends at the goal and is a walk after its first element; `None` only when the goal cannot be reached in one or more steps |

## Left out

- `main`, `rand_map`, `visualize_map`, `visualize_path_on_map`, `save_path_on_map` and `sl_distance` are I/O, randomness, timing and rendering, and are not part of this model. `rand_map` also swaps the width and the height of the map it builds.
- The distance function is a parameter of the search: any total function from two cells to a cost. The Euclidean `sl_distance` is not modelled.
- Costs are exact reals, not `f32`. Rounding, `sqrt`, and the panic on a NaN comparison in `cmp` and in `find_smallest_f` are left out.
- The `u32`/`i32` casts in the neighbour loop and in the tile index are taken as exact. Dimensions and cells are assumed below 2^31, and the index `x + y * width` does not wrap.
- Callers must pass a map whose tile vector has exactly `width * height` entries. A shorter vector would make the source panic on indexing.
- `BinaryHeap` is a multiset and `HashMap` is a finite map. Their memory layout and iteration order are not modelled, so which of several equally ranked nodes is popped, and which minimal key `find_smallest_f` returns, are left open.
- Search.AStar: the source loop has no bound and can run forever, for example when every distance is zero and the goal is unreachable. The model counts expansions against a `fuel` argument and returns `OutOfFuel` when it runs out. That outcome carries no guarantee.
- Search.AStar: the postconditions give the shape of the returned path, not that it is short. With the heuristic weighted by 2 the path need not be the shortest, and the model states no bound on its cost.
- Backtrace.BacktracePath: `Vec::reverse` is the function `Reversed`, not an in-place reversal.

## Findings

| source | as written | input that shows it | evidently intended | confidence | as-written member | corrected member |
|---|---|---|---|---|---|---|
| src/main.rs:24-40 | `eq` compares cell, `f` and `g`, while `cmp` compares only `f` and cell, so `cmp` can say `Equal` for nodes `eq` calls different. This breaks the rule that `Ord` agree with `Eq`. | two nodes at `(0, 0)` with `f = 1.0`, one with `g = 0.0` and one with `g = 1.0` | an equality that agrees with the order: cell and `f` only (`a_star` itself never compares nodes with `eq`) | not executed | `PathNodes.CmpEqualWithoutEq` | `PathNodes.EqByRank` |
