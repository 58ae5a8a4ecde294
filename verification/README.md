# A* solver for the 8-puzzle, in Dafny

This project models the search engine of `script.js` (lines 1-264): the A*
solver behind a page that draws a random 8-puzzle, solves it and shows the
search tree. The page's drawing code is not modelled.

A board is a sequence of nine integers that forms a permutation of 0..8.
The value 0 is the blank, and the fixed goal is `[1, 2, 3, 4, 5, 6, 7, 8, 0]`.

- **Board** covers boards, the blank, legal moves and walks of moves.
  It also holds the `toString` key of a board, which the source uses to key
  `stateMap`, and `isGoalState`.
- **Solvability** covers the inversion-parity test `isSolvable`. It shows the
  test gives the same verdict on both sides of every blank move.
- **Generator** covers `shuffleState` and `generateSolvableState`. The numbers
  the source draws from `Math.random` come instead from a sequence of choices
  the caller supplies.
- **Heuristic** covers `calculateHn`, the Manhattan distance of every non-blank
  tile from its place in the goal. It proves the estimate is 0 exactly at the
  goal, changes by one per move, and never overestimates.
- **OpenList** covers the stable sort by `fn` that `insertIntoOpenList` runs
  after each push. It shows the result is a sorted permutation that keeps the
  order of equal keys, and that any two such sorts agree.
- **Nodes** covers `class Node` with `calculateGn/Hn/Fn`, and
  `generateSuccessors`.
- **Path** covers `constructOptimalPath`.
- **SearchLists** gathers the module-level globals (`nodeList`,
  `globalOpenList`, `globalCloseList`, `stateMap`) into one `SearchState`
  record, with the invariants the search keeps on it.
- **Expansion** covers one pass of the successor loop of `aStarSearch`: add a
  new board, or relax a known one.
- **Search** covers the root set-up, one pass of the main loop (`Step`), the
  loop itself run with fuel (`Run`), `aStarSearch`, and `minSteps`.

The main results are:

- **Search.Run / Search.AStarSearch.** A returned path starts at the root and
  ends at the goal. Each of its entries is the parent of the next, and its
  boards form a walk of legal moves. The walk is no shorter than the start
  board's estimate. Every entry carries its position, and no node off the path
  is marked.
- **Search.ExhaustedUnreachable.** The search reports no solution only when no
  walk of moves leads from the start board to the goal.
- **Search.GeneratedNeverUnsolvable.** On a board drawn by
  `generateSolvableState`, the search never reports that there is no solution.
  So `optList.length` on line 264 never reads a null result.

Two facts about the code shape the invariants:

- **g of a non-root node.** `g = parent.g + 1` holds only when a node is
  created or relaxed (lines 83 and 241-243). A relaxed node's descendants keep
  their old `g`, so it is not an invariant. The invariant the model proves
  instead is that a parent's `g` is strictly smaller than its child's
  (`SearchLists.TreeLinks`). That is enough to make the parent links acyclic.
- **Order of open.** Open is sorted only inside `insertIntoOpenList`.
  Lowering `fn` of a node still in open (lines 241-243) does not re-sort it.
  So the model states the order of open only right after an insertion
  (`Expansion.AddNode`, `Expansion.Relax`), and `Step` takes the head of open,
  as `shift` does.

## Model

| member | source | states |
|---|---|---|
| Board.GoalIsBoard | script.js:17 | The target board is a permutation of 0..8: cell i holds i + 1, and the last cell holds the blank. |
| Board.BlankTargets | script.js:134-145 | The legal destinations of the blank are exactly its orthogonal neighbours; the `% 3` and `/ 3` guards never let a move wrap across a row edge. There are 2 of them from a corner, 4 from the centre and 3 from an edge cell, and none is repeated. |
| Board.BoardHasEveryTile | script.js:131 | Every value 0..8 occurs on a board, so `indexOf(0)` always finds the blank. |
| Board.Blank | script.js:131 | The blank's cell holds 0, and no other cell does. |
| Board.SwapBoard | script.js:149 | Swapping two cells of a permutation gives a permutation. |
| Board.SwapBlank | script.js:148-149 | Swapping the blank with a legal neighbour gives a board whose blank stands at that neighbour, one move away. |
| Board.MoveReverse | script.js:148-149 | Every move can be undone by a move. |
| Board.MoveChanges | script.js:149 | A move always changes the board. |
| Board.Key | script.js:119 | The `toString` key of a digit sequence: one digit per entry with a comma between neighbours, so 2n - 1 characters for n entries. |
| Board.KeyInjective | script.js:119 | Two digit sequences with the same `Board.Key` are equal, so `stateMap` is in effect keyed by the board itself. |
| Board.IsGoalIff | script.js:122-124 | `Board.IsGoal`, the key comparison of `isGoalState`, holds exactly when the board equals the target. |
| Board.BlankTargetsOrder | script.js:134-145 | The blank's destinations from each of the nine cells, listed in the order they are tried: left, right, up, down. From the centre they are cells 3, 5, 1 and 7. |
| Board.NextBoards | script.js:131-149 | The successor boards are boards, each one move away. They are pairwise distinct, and every board one move away is among them. The k-th one has its blank at the k-th legal destination, so they follow the left, right, up, down order. |
| Solvability.NonBlank | script.js:22 | `filter(n => n !== 0)` keeps exactly the non-blank entries. Order is kept by `Solvability.NonBlankConcat` and `Solvability.NonBlankNoBlank`. |
| Solvability.NonBlankConcat | script.js:22 | Filtering a concatenation gives the two filtered parts in order. So the filter keeps the relative order of the tiles that the inversion count reads. |
| Solvability.NonBlankNoBlank | script.js:22 | A sequence without a blank passes through the filter unchanged. |
| Solvability.InversionsConcat | script.js:23-27 | Splitting a sequence in two splits its inversions into those inside each half plus those across the split. |
| Solvability.IsSolvable | script.js:20-29 | The nested loops return true exactly when the non-blank tiles, read in order, contain an even number of inversions. |
| Solvability.CountBelowFrom | script.js:24-26 | The inner loop counts exactly the later tiles that are smaller than tile i. |
| Solvability.MoveKeepsParity | script.js:50 | A blank move never changes the parity verdict. A sideways move keeps the tile order; a vertical move carries one tile over two others. |
| Solvability.WalkKeepsParity | script.js:34-51 | Every board along a walk of moves gets the same parity verdict. |
| Solvability.GoalSolvable | script.js:17-29 | The target has no inversions, so `isSolvable` accepts it. |
| Generator.ShuffleStep | script.js:35-50 | One shuffle pass moves the blank to the chosen legal neighbour, which is one move away. |
| Generator.Shuffle | script.js:32-53 | The shuffled board is a permutation of 0..8 and gets the same parity verdict as the input. |
| Generator.ShuffleTraceWalk | script.js:34-51 | The boards the shuffle passes through form a walk of legal moves. |
| Generator.ShuffleReachesBack | script.js:32-53 | The input board can be reached again from the shuffled board by legal moves. |
| Generator.GenerateSolvable | script.js:55-61 | A generated board is a permutation of 0..8 that `isSolvable` accepts. |
| Generator.GenerateFirstAttempt | script.js:57-59 | The do-while loop stops after its first shuffle, since a shuffle of the target is always solvable. |
| Heuristic.GoalPosIsIndexOf | script.js:94 | The goal cell of a tile is its `indexOf` in the target. |
| Heuristic.AdjacentDistance | script.js:95 | Stepping to a neighbouring cell changes the Manhattan distance to any cell by exactly one. |
| Heuristic.HFromZero | script.js:91-96 | The loop of `calculateHn` sums to 0 exactly when every tile it counts adds 0. |
| Heuristic.HZeroIffGoal | script.js:90-98 | The estimate `Heuristic.H` (`calculateHn`: the loop `Heuristic.HFrom` over the cells, with the blank adding nothing) is 0 exactly on the target board. |
| Heuristic.MoveChangesHByOne | script.js:90-98 | One move changes the estimate by exactly one, up or down. |
| Heuristic.Admissible | script.js:90-98 | The estimate never exceeds the number of moves of any walk from the board to the goal. |
| Nodes.NewNode | script.js:67-103 | A new node has the given board and parent, and no children. Its g, computed by `Nodes.CalculateGn`, is 0 without a parent and the parent's g + 1 with one. Its h is the estimate of its board, f = g + h, and it is not yet on the path. |
| Nodes.GenerateSuccessors | script.js:127-160 | Each successor has a board one move away and g one more than the current node's. There are 2, 3 or 4 of them as the blank is in a corner, on an edge or in the centre. Their boards are distinct and cover every move. The k-th successor's blank stands at the k-th legal destination, in the order left, right, up, down. |
| OpenList.InsertStable | script.js:14 | Inserting into a list gives the old elements plus the new one. |
| OpenList.InsertKeepsSorted | script.js:14 | Inserting into a list sorted by key keeps it sorted. |
| OpenList.InsertKeepsRuns | script.js:14 | The new element lands after every earlier element with its key, and the order among equal keys is kept. |
| OpenList.StableSort | script.js:14 | The sort gives a permutation of its input, sorted by key, that keeps the input order of equal keys. |
| OpenList.StableSortUnique | script.js:14 | Two lists sorted by key, with the same elements of each key in the same order, are equal. So any stable sort by `fn` gives the list the model computes. |
| SearchLists.InsertIntoOpen | script.js:12-15 | After the insertion, open holds exactly the old entries plus i, in ascending f, with equal f in their previous order and i last among its equals. |
| SearchLists.Without | script.js:240 | `filter(child => child !== x)` removes every copy of x and keeps every other entry. |
| Path.WalkUp | script.js:168-174 | The walk up the parent links starts at k and ends at a node without parent. Each entry is the child of the next, g falls strictly along it, and it has at most g(k) + 1 entries. |
| Path.OptimalPath | script.js:162-176 | The reversed walk is a chain from a parentless node to k, each entry the parent of the next, with g rising strictly. |
| Path.ChainUnique | script.js:168-176 | There is only one such chain to k. |
| Path.MarkFrom | script.js:179-181 | The `forEach` marks every listed node as on the path, with its position, and changes no other node. |
| Path.ConstructOptimalPath | script.js:162-184 | `constructOptimalPath(k)` returns the chain from the root to k. Every listed node is marked with its position, and no other node or field changes. |
| Expansion.AddNode | script.js:214-231 | A successor with a new board gets the next index and is registered under its board. It is appended to its parent's children. Open becomes exactly `SearchLists.InsertIntoOpen` of the old open and the new index: sorted by f, with ties in their previous order and the new node last among its equals. Nothing else changes. |
| Expansion.AddNodeKeepsCore | script.js:214-227 | Adding a successor with a new board keeps every invariant of the search state. |
| Expansion.Relax | script.js:237-252 | Relaxing e through cur does four things. It removes e from its old parent's children and gives it cur as parent, with the new g and f = g + h. It appends e to cur's children. If e was closed, it moves e from closed to open, and open becomes exactly `SearchLists.InsertIntoOpen` of the old open and e under the new f values: sorted by f, with ties in their previous order and e last among its equals. These node updates are made by `Expansion.Relink` in the source's order. |
| Expansion.RelaxKeepsCore | script.js:237-252 | A relaxation never reaches the root, because the root's g is 0 and the offered g is at least 1. It keeps every invariant of the search state. |
| Expansion.Visit | script.js:210-254 | One successor is handled in one of three ways. A new board is added. A known board offered a strictly smaller g is relaxed. Otherwise the state is unchanged. In every case the invariants hold and the successor's board is indexed. |
| Expansion.Expand | script.js:210-255 | After the successor loop, every successor's board is indexed, no board has moved, and the invariants hold. |
| Search.Init | script.js:106-119 | The root is node 0: g = 0, no parent, f equal to the estimate. Open holds only the root, closed is empty, and the index maps the start board to 0. The loop invariant holds. |
| Search.Close | script.js:190-205 | `shift` and `add` move the head of open into closed, and the two snapshots are recorded on that node only. |
| Search.CloseKeepsCore | script.js:190-205 | Closing a node that is not the goal keeps every invariant. Only that node still waits for expansion. |
| Search.Step | script.js:188-256 | One loop pass works as follows. It reports exhaustion exactly when open is empty. If the head of open holds the goal, it returns the marked chain to that node. Otherwise it closes and expands the head, and the loop invariant holds again. |
| Search.Finish | script.js:194-198 | On the goal node, the result is the marked root-to-node chain. |
| Search.Advance | script.js:200-255 | Closing and expanding a non-goal head keeps the loop invariant and leaves the head closed. |
| Search.FoundIsSolution | script.js:162-198 | A chain returned at a goal node starts at the root and its boards walk from the start board to the goal. It has at least as many moves as the start board's estimate. Exactly the nodes on it are marked (`ifOpt`, `optId`), every other node keeps the unmarked values it was built with (lines 74-75), and the node list is still the search tree. |
| Search.Run | script.js:187-260 | A path returned by the loop is a solution from the start board. Exactly its nodes are marked, and the returned nodes still form the search tree, with parent and children links intact. On exhaustion the invariant holds with open empty. |
| Search.ExhaustedUnreachable | script.js:258-259 | When open runs empty, no walk of moves leads from the start board to the goal. |
| Search.AStarSearch | script.js:187-260 | A returned path is a solution from the start board, on which exactly the path's nodes carry `ifOpt` and `optId` and the node list is still the search tree. `null` means the goal is unreachable from it. |
| Search.MinStepsBound | script.js:263-264 | `Search.MinSteps` (`minSteps = optList.length - 1`, None where the source would read `length` of `null`) has a value on every returned path. That value is the number of moves of the path: the path has `minSteps + 1` boards. It is at least the start board's estimate. |
| Search.Solve | script.js:263 | The page's board is a permutation of 0..8, and a path found on it is a solution from that board. |
| Search.GeneratedNeverUnsolvable | script.js:263-264 | With 100 choices supplied, a board is generated and the search on it never reports that there is no solution. |

## Left out

- Everything after line 264 is left out: the tree layout, the drawing, the DOM handlers and `console.log`. It is presentation only.
- `Math.random` (line 49) is left out. The caller supplies the choices as natural numbers, and each is reduced modulo the number of legal moves. That covers every value `Math.floor(Math.random() * n)` can take.
- Generator.GenerateSolvable: returns None when the supplied choices run out before an attempt completes. The source never runs out, and with 100 or more choices the first attempt always succeeds (`Generator.GenerateFirstAttempt`).
- Search.Run: the `while` loop runs for at most `fuel` passes and reports OutOfFuel after that. The model does not prove that the source's loop terminates, though the number of distinct boards bounds its additions.
- SearchLists.NodeOk: the loop invariant does not carry `h = estimate of the board` for every node. `Nodes.NewNode` states it when a node is built, and no later step writes h.
- The snapshot `closeList` is modelled as the set it copies, not as the array `Array.from` builds in insertion order. The snapshots are never read by the search.
- `constructOptimalPath`'s first numbering of `optId` (line 171) is not modelled. It counts from the goal end, and line 180 overwrites it for every listed node before the function returns. The model keeps only the final values.
- Expansion.Relax: requires that e has a parent other than itself and is not cur. `Expansion.RelaxKeepsCore` proves every relaxation the search performs meets this. The root, which has no parent, is never relaxed.
- Search.AStarSearch: the returned path is not shown to be a shortest one, although `constructOptimalPath`, `minSteps` and the log at line 265 present it as optimal. The open list is not re-sorted when an open node's f drops (lines 241-243), so the usual A* optimality argument does not apply to the code as written.
- Search.MinStepsBound: `minSteps` is bounded below by the start board's estimate only. It is not shown to equal the length of a shortest solution, for the reason given for Search.AStarSearch.
- The model does not prove the converse of the parity test, that every board with even parity can reach the goal. The search never uses it.
