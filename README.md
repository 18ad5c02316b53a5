# Puzzle15 A* core in Dafny

A model of the A* solver of the sliding-tile puzzle (8-puzzle, 15-puzzle and
other square boards), with proofs about it. The model has three parts, one
per source file.

- `puzzle.dfy`, module `Puzzle`: pure board arithmetic.
  - A board is a flat `seq<int>` with `-1` as the blank.
  - The grid side is the exact integer square root of the board length.
  - The two heuristics, misplaced tiles and Manhattan distance, are
    recursive specification functions.
  - The move rule has two definitions: `CanMove` uses the source's row and
    column arithmetic, and `Neighbour` is a reference by index arithmetic.
  - The successor boards are given in the order Up, Down, Left, Right.
- `state.dfy`, module `States`: the `State` class.
  - Its fields are `const`, because a state never changes after construction.
  - The heuristic scans are methods with loops, proved equal to the
    specification functions. They also record the blank's index.
  - There are two constructors, successor generation, and the key, equality
    and order operations.
  - `Valid()` is the consistency invariant: a well-formed board, the blank at
    `SpaceIndex`, `h` equal to the heuristic, `f = g + h`, `g` counting the
    parent links, and each board one blank move from its parent's.
- `priority_queue.dfy`, module `PriorityQueue`: the `MinPriorityQueue` class.
  - It is a binary min-heap ordered by `f`, stored from slot 1 of an
    `array<State?>` that triples when full.
  - `Sink` and `Swim` are the swap loops, `Find` is the linear search by key,
    and `Remove` evicts an arbitrary slot.
  - The contracts speak of the multiset of queued states (`Contents()`) and
    of heap order (`HeapOrdered()`).
- `astar.dfy`, module `AStar`: the search loop and the path walk.
  - The open list is the queue plus the `openStates` key set. The closed
    list is a `map` from boards to states.
  - The open-list invariant is:
    - the queue's array invariant holds;
    - every queued state was reached from the root;
    - no two queued states share a key;
    - `openStates` is exactly the set of queued keys. This is why `Find`
      always succeeds on an open key.
  - Heap order is not part of that invariant. A replaced open state is
    evicted with the source's `Remove`, which can leave the heap out of
    order (see Findings). So the state taken from the open list is one of
    least `f` only while the heap is still in order.
  - The search invariant (`Searching`) adds that open and closed keys are
    disjoint, and that the search is `Explored`: every closed board is
    unsolved and reachable from the root's board by blank moves, and each of
    its blank moves leads to an open or a closed board.
  - `Run` sets up the search and `Search` runs the loop.
  - One iteration of the loop is made of `TakeOpen`, then `ExpandState`.
    `ExpandState` calls `ProcessSuccessor` on each successor, and that uses
    `UpdateOpen`, `ReplaceOpen` and `OpenNew`.
  - The duplicate rule has two halves, both proved. First, no `g` stored
    under a key, queued or closed, ever rises. Second, after an expansion
    every successor board is held, in the queue or the closed list, by a
    state whose `g` is at most the expanded state's `g + 1`. So the `g`
    stored under a successor's key is at most the smaller of its old `g`
    and the successor's.
  - The main theorem is the postcondition of `Run`. A returned path starts
    at a root holding the input board and ends at the solved board. The
    k-th state has `g = k`, and each state is one blank move from the one
    before, which is its parent. An already solved input, with `fuel > 0`,
    yields the one-state path.
  - `Run` also says what the other two outcomes mean. `NoSolution` means
    no walk of blank moves from the input board reaches the solved board.
    `OutOfFuel` means that `fuel` distinct unsolved boards reachable from the
    input board exist.
- `puzzle.dfy` also defines that reachability: `Step` is one blank move,
  `Walk` a sequence of them, and `Reachable` the existence of a walk.

## Model

| member | source | states |
|---|---|---|
| Puzzle.GridSide | Puzzle15/AStar/State.cs:74 | the computed side `s` is the integer square root: `s*s <= n < (s+1)*(s+1)` |
| Puzzle.GridSideOfSquare | Puzzle15/AStar/State.cs:158 | on a board of `L*L` cells the side used for row/column arithmetic is exactly `L` |
| Puzzle.MisplacedTilesCost | Puzzle15/AStar/State.cs:53-70 | the misplaced-tiles cost is at most the number of cells |
| Puzzle.MisplacedCellIsApart | Puzzle15/AStar/State.cs:88-95 | a misplaced cell contributes at least 1 to the Manhattan cost |
| Puzzle.ManhattanDominatesMisplaced | Puzzle15/AStar/State.cs:53-100 | on any board in range the Manhattan cost is never below the misplaced-tiles cost |
| Puzzle.HeuristicZeroIffSolved | Puzzle15/AStar/State.cs:49-100 | under either heuristic the cost is 0 exactly when the board is `1, 2, ..., n-1, -1` |
| Puzzle.Neighbour | Puzzle15/AStar/State.cs:163-195 | reference move rule by index arithmetic (one row up or down, one column left or right): a move is legal iff the target is not -1, and a legal target lies on the board |
| Puzzle.CanMove | Puzzle15/AStar/State.cs:155-202 | the source's row/column computation agrees in every direction with the reference index rule `Neighbour`: the same legality and the same target cell, `(false, -1)` at the border |
| Puzzle.Swapped | Puzzle15/AStar/State.cs:149-153 | exchanging two cells keeps the length and the multiset of values |
| Puzzle.SwapKeepsWellFormed | Puzzle15/AStar/State.cs:139-141 | a board copied and swapped is still a well-formed board |
| Puzzle.SuccessorsInOrder | Puzzle15/AStar/State.cs:125-131 | the successor boards are the legal moves Up, Down, Left, Right, in that order |
| Puzzle.SuccessorCount | Puzzle15/AStar/State.cs:121-134 | the number of successors is 4 minus the number of grid sides the blank touches: 2 in a corner, 3 on an edge, 4 inside |
| Puzzle.StepIsSuccessor | Puzzle15/AStar/State.cs:121-147 | one blank move from a well-formed board leads exactly to the successor boards the state generates |
| Puzzle.WalkStaysIn | Puzzle15/AStar/State.cs:121-147 | a walk of blank moves that starts in a set of boards closed under moves never leaves it |
| Puzzle.MoveIsSuccessor | Puzzle15/AStar/State.cs:136-143 | the board of a legal move is among the successor boards |
| Puzzle.SuccessorBoardsWellFormed | Puzzle15/AStar/State.cs:136-147 | every successor board is well formed, has the same length, and differs from the parent's |
| States.BlankScannedFindsBlank | Puzzle15/AStar/State.cs:59-62 | on a well-formed board the heuristic scan leaves `SpaceIndex` at the blank |
| States.GetMisplacedTilesCost | Puzzle15/AStar/State.cs:53-70 | the counting loop computes the misplaced-tiles cost (blank counted as value n-1) and records the blank's index |
| States.GetManhattanDistanceCost | Puzzle15/AStar/State.cs:72-100 | the summing loop computes `Puzzle.ManhattanDistanceCost`, the Manhattan cost over misplaced cells, and records the blank's index |
| States.GetHeuristicCost | Puzzle15/AStar/State.cs:49-51 | the cost of the selected heuristic, `Puzzle.HeuristicCost`: the misplaced-tiles or the Manhattan cost |
| States.CalculateCost | Puzzle15/AStar/State.cs:37-47 | `g` is 0 at a root and the parent's `g + 1` below it, `h` is the heuristic, `f = g + h` |
| States.State.constructor | Puzzle15/AStar/State.cs:14-20 | the state holds the board, parent and heuristic given; a root is consistent (`Valid`) with `g = 0` |
| States.State.Derived | Puzzle15/AStar/State.cs:22-28 | a successor inherits the parent's heuristic, has `g = parent.g + 1`, and is consistent when its board is a successor of the parent's |
| States.State.Equals | Puzzle15/AStar/State.cs:207-209 | two states are equal exactly when their boards are, whatever their parents and costs; the board is the key `State.GetStateCode` returns |
| States.State.CompareTo | Puzzle15/AStar/State.cs:210-212 | the sign of the result orders the states by `f` |
| States.FinalStateIffSolved | Puzzle15/AStar/State.cs:113-115 | `State.IsFinalState` (`h = 0`) holds of a consistent state exactly when its board is solved, under either heuristic |
| States.State.GetState | Puzzle15/AStar/State.cs:106-111 | a fresh array holding the board |
| States.Swap | Puzzle15/AStar/State.cs:149-153 | the array afterwards is the old board with the two cells exchanged |
| States.State.GetNextState | Puzzle15/AStar/State.cs:136-147 | null exactly for an illegal move; otherwise a fresh consistent child (parent is this state, same heuristic, `g + 1`) whose board is that move's board |
| States.State.AddNextState | Puzzle15/AStar/State.cs:126-130 | one round of the successor loop appends exactly that direction's successor, if any |
| States.State.GetNextStates | Puzzle15/AStar/State.cs:121-134 | the boards of the returned states are the successor boards in order Up, Down, Left, Right, and each state is a fresh consistent child |
| States.PathTo | Puzzle15/AStar/State.cs:37-42 | the walk to the root has `g + 1` states and ends at the state |
| States.PathToIsChain | Puzzle15/AStar/State.cs:37-42 | along the walk the first state is a root, the k-th has `g = k`, and each state is one move from the one before, which is its parent |
| PriorityQueue.RootIsLeast | Puzzle15/AStar/MinPriorityQueue.cs:79-81 | in an ordered heap slot 1 holds a state of least `f` |
| PriorityQueue.SwimStep | Puzzle15/AStar/MinPriorityQueue.cs:54-63 | exchanging a slot with a larger parent moves the only order violation one level up |
| PriorityQueue.SinkStep | Puzzle15/AStar/MinPriorityQueue.cs:35-48 | exchanging a slot with its smaller child moves the only order violation one level down |
| PriorityQueue.RemoveSlot | Puzzle15/AStar/MinPriorityQueue.cs:111-112 | moving the last slot into slot p and clearing the last one loses exactly the state at p |
| PriorityQueue.MoveLastIntoReady | Puzzle15/AStar/MinPriorityQueue.cs:109-115 | the corrected half of the Findings row, not what the source does (its `Remove` only sinks): after that move in an ordered heap, one sift from p restores order, up if the moved state is smaller than p's parent, down otherwise |
| PriorityQueue.RemoveCanBreakOrder | Puzzle15/AStar/MinPriorityQueue.cs:109-115 | a concrete ordered heap (f = 1, 5, 2, 6, 7, 3) in which moving slot 6 into slot 4 breaks heap order at a slot with no children |
| PriorityQueue.MinPriorityQueue.constructor | Puzzle15/AStar/MinPriorityQueue.cs:7-10 | an empty queue with `capacity + 1` slots |
| PriorityQueue.MinPriorityQueue.Expand | Puzzle15/AStar/MinPriorityQueue.cs:12-21 | a fresh array of `capacity + 1` slots with the same queued states in the same slots, and heap order unchanged |
| PriorityQueue.MinPriorityQueue.Less | Puzzle15/AStar/MinPriorityQueue.cs:23-25 | slot i is less than slot j exactly when its `f` is smaller |
| PriorityQueue.MinPriorityQueue.Swap | Puzzle15/AStar/MinPriorityQueue.cs:27-31 | the two slots are exchanged and nothing else changes |
| PriorityQueue.MinPriorityQueue.Sink | Puzzle15/AStar/MinPriorityQueue.cs:33-49 | the queued states are permuted, heap order holds afterwards when only slot `index` was out of place, and nothing moves when `index` has no children |
| PriorityQueue.MinPriorityQueue.Swim | Puzzle15/AStar/MinPriorityQueue.cs:51-64 | the queued states are permuted, and heap order holds afterwards when only slot `index` was out of place |
| PriorityQueue.MinPriorityQueue.IsEmpty | Puzzle15/AStar/MinPriorityQueue.cs:66-68 | true exactly when no state is queued |
| PriorityQueue.MinPriorityQueue.Append | Puzzle15/AStar/MinPriorityQueue.cs:70-75 | when the array is full it is replaced by a fresh one of 3 × length + 1 slots, otherwise kept; the item is appended after the queued states; in an ordered heap only the new slot may be out of place |
| PriorityQueue.MinPriorityQueue.Enqueue | Puzzle15/AStar/MinPriorityQueue.cs:70-77 | the count grows by one, the multiset gains exactly the item, and heap order is kept |
| PriorityQueue.MinPriorityQueue.Dequeue | Puzzle15/AStar/MinPriorityQueue.cs:79-91 | empty: returns null and changes nothing; otherwise returns the old slot 1, the multiset loses exactly it, and in an ordered heap it has least `f` and order is restored |
| PriorityQueue.MinPriorityQueue.Find | Puzzle15/AStar/MinPriorityQueue.cs:93-107 | the lowest slot whose state has the item's key, with that state; -1 and null exactly when no queued state has the key |
| PriorityQueue.MinPriorityQueue.FillFromLast | Puzzle15/AStar/MinPriorityQueue.cs:111-112 | the last state moves into slot `index`, the count drops by one, and the multiset loses exactly the evicted state |
| PriorityQueue.MinPriorityQueue.Remove | Puzzle15/AStar/MinPriorityQueue.cs:109-115 | out of range: no change; otherwise the count drops by one and the multiset loses exactly the state at `index`; when `index` is left without children the moved state stays there unsifted |
| PriorityQueue.MinPriorityQueue.Resift | Puzzle15/AStar/MinPriorityQueue.cs:113 | the corrected counterpart of line 113 from the Findings row, used only by `RemoveOrdered` (the source only sinks): after the move, sifting up or down as the parent comparison says restores heap order |
| PriorityQueue.MinPriorityQueue.RemoveOrdered | Puzzle15/AStar/MinPriorityQueue.cs:109-115 | the same effect on the count and multiset as `Remove`, and heap order is kept |
| AStar.QueueAdd | Puzzle15/AStar/AstarAlgorithm.cs:61-62 | queuing a state adds its key, keeps every queued state reached from the root, and keeps keys unique when its key was new |
| AStar.QueueRemove | Puzzle15/AStar/AstarAlgorithm.cs:16-17 | taking a queued state out removes exactly its key when keys are unique, and keeps the rest reached and unique |
| AStar.ChildReached | Puzzle15/AStar/AstarAlgorithm.cs:25 | a consistent child of a state reached from the root is itself reached from the root |
| AStar.GetFinalPath | Puzzle15/AStar/AstarAlgorithm.cs:74-81 | the path read from the stack is the walk from the root to the state, root first |
| AStar.TakeOpen | Puzzle15/AStar/AstarAlgorithm.cs:16-17 | takes the first queued state and drops exactly it from the queue and its key from the open keys; the open-list invariant is kept; if the heap was in order, the state has least `f` among the queued states |
| AStar.UpdateOpen | Puzzle15/AStar/AstarAlgorithm.cs:37-46 | finds the queued state with the successor's key (always present); replaces it by the successor exactly when it `IsCostlierThan` the successor (its `g` is strictly larger), otherwise leaves the queue unchanged |
| AStar.DropOpen | Puzzle15/AStar/AstarAlgorithm.cs:43 | the source's `Remove` at an open slot loses exactly that state and its key, and keeps the rest reached and unique |
| AStar.ReplaceOpen | Puzzle15/AStar/AstarAlgorithm.cs:41-45 | `Remove` then `Enqueue`: the multiset loses the old state and gains the successor; the open keys are unchanged and the invariant is kept |
| AStar.OpenNew | Puzzle15/AStar/AstarAlgorithm.cs:60-63 | the successor is queued and its key added to the open keys |
| AStar.ReplaceRaisesNone | Puzzle15/AStar/AstarAlgorithm.cs:37-46 | replacing a queued duplicate only when `IsCostlierThan` holds raises no queued `g`: each queued state of an old key is no costlier than an old state of that key; afterwards the successor's key is held by a queued state no costlier than the successor |
| AStar.AddRaisesNone | Puzzle15/AStar/AstarAlgorithm.cs:60-63 | queuing a state of a new key raises no queued `g` of an old key, and holds the new key by that state |
| AStar.TakeRaisesNone | Puzzle15/AStar/AstarAlgorithm.cs:16-17 | taking a state out of the queue raises no queued `g` |
| AStar.OutcomeOfSuccessor | Puzzle15/AStar/AstarAlgorithm.cs:37-63 | whichever branch runs, open keys only grow, by the successor's key at most; closed keys stay; the successor's key ends open or closed; a closed entry is replaced only by a strictly cheaper successor, so no closed `g` rises |
| AStar.ProcessSuccessor | Puzzle15/AStar/AstarAlgorithm.cs:33-63 | open key: only the queued duplicate may be replaced, and only when `IsCostlierThan` says its `g` is larger. Closed-only key: the closed entry is replaced exactly when its `g` is larger, and the queue is untouched. New key: it is queued and opened. In every case no `g` stored under a key, queued or closed, rises; afterwards the successor's key is held, queued or closed, by a state no costlier than the successor; and open and closed keys stay disjoint |
| AStar.ProgressedStep | Puzzle15/AStar/AstarAlgorithm.cs:32-64 | one processed successor keeps the loop's account: open keys grow, closed keys stay, closed states are only lowered to children, keys stay disjoint |
| AStar.HeldKept | Puzzle15/AStar/AstarAlgorithm.cs:32-64 | a key held by a state no costlier than `g` stays so across a step that drops no queued key and raises no queued or closed `g` |
| AStar.HeldGrows | Puzzle15/AStar/AstarAlgorithm.cs:32-64 | processing one more successor keeps the earlier ones held and holds the new one |
| AStar.SuccessorProcessed | Puzzle15/AStar/AstarAlgorithm.cs:32-64 | what `ProcessSuccessor` promises for successor i carries the loop's account (`SuccessorsSoFar`) from the first i successors to the first i + 1 |
| AStar.ProcessSuccessors | Puzzle15/AStar/AstarAlgorithm.cs:32-64 | (`SuccessorsSoFar`) after the successor loop each successor's key is held, queued or closed, by a state no costlier than that successor; every successor's key is open or closed, no open key was dropped and every new open key is a successor's board, the closed keys are the same with states only lowered to cheaper children, the expanded key did not become open, and no queued `g` of an already queued key rose |
| AStar.SuccessorsCovered | Puzzle15/AStar/AstarAlgorithm.cs:25-64 | when every generated successor is covered, every successor board is open or closed |
| AStar.CloseKeepsLowered | Puzzle15/AStar/AstarAlgorithm.cs:66 | closing the expanded state adds exactly its key and keeps the other closed states as they were or lowered |
| AStar.ExpandState | Puzzle15/AStar/AstarAlgorithm.cs:25-67 | (`Expansion`, `SuccessorsHeld`) every successor board ends held, queued or closed, by a state with `g` at most the expanded state's `g + 1`; every successor board ends open or closed; no open key is dropped and every new open key is a successor board; no queued `g` of an already queued key rises; closed keys grow by exactly the expanded key, which maps to the expanded state; every other closed state is unchanged or replaced by a child with smaller `g`; open and closed keys stay disjoint |
| AStar.ReachedIsReachable | Puzzle15/AStar/AstarAlgorithm.cs:25-63 | the board of any state reached from the root is reachable from the root's board by blank moves |
| AStar.ExploredGrows | Puzzle15/AStar/AstarAlgorithm.cs:16-67 | closing a reachable, unsolved state whose successors are all open or closed keeps the search explored |
| AStar.ExploredKeysUnsolved | Puzzle15/AStar/AstarAlgorithm.cs:15-67 | an explored search has as many distinct unsolved reachable boards as closed keys |
| AStar.ExhaustedIsUnsolvable | Puzzle15/AStar/AstarAlgorithm.cs:15-70 | when nothing is open and the start board is closed, the closed boards are closed under moves, so no walk from the start reaches the solved board |
| AStar.ExhaustedSearch | Puzzle15/AStar/AstarAlgorithm.cs:15-70 | an explored search whose queue is empty has shown the root's board unsolvable |
| AStar.ExpandSuccessors | Puzzle15/AStar/AstarAlgorithm.cs:27-67 | the successor loop then the closing of the expanded state give the `Expansion` and `SuccessorsHeld` facts of `ExpandState`, and no queued `g` rises |
| AStar.ClosingHeld | Puzzle15/AStar/AstarAlgorithm.cs:27-67 | when every processed successor is held, closing the expanded state leaves every successor board held at the expanded state's `g + 1` |
| AStar.SuccessorBoardsHeld | Puzzle15/AStar/AstarAlgorithm.cs:25-64 | the processed successors are all the successor boards, each with `g` one more than the expanded state's, so each successor board is held at that `g` |
| AStar.NotOwnSuccessor | Puzzle15/AStar/State.cs:136-147 | a state's board is never one of its own successor boards |
| AStar.HeldElsewhere | Puzzle15/AStar/AstarAlgorithm.cs:66 | storing the expanded state under its own key leaves every other held key held |
| AStar.ClosingExpanded | Puzzle15/AStar/AstarAlgorithm.cs:66 | after the successor loop, closing the expanded state yields the `Expansion` facts: successors covered, new open keys are successor boards, closed keys grow by exactly the expanded key, other closed states only lowered, keys disjoint |
| AStar.SuccessorsBound | Puzzle15/AStar/AstarAlgorithm.cs:32-64 | every key the successor loop opened is the board of a successor |
| AStar.ExpandExplored | Puzzle15/AStar/AstarAlgorithm.cs:24-67 | expanding a taken, non-final state keeps the search invariant and closes exactly its key; every open key afterwards was open before or is one of its successor boards; no queued `g` of an already queued key rises; every successor board is held by a state with `g` at most its `g + 1` |
| AStar.SearchStep | Puzzle15/AStar/AstarAlgorithm.cs:16-67 | one iteration either returns the first queued state, reached and final, having taken exactly it out of the queue, or (`ExpandedInto`) keeps the search invariant, closes exactly that state's key, opens only its successor boards, raises no queued `g`, and leaves every successor board held by a state with `g` at most its `g + 1`; a non-null result exactly when that state is final |
| AStar.ReachedFromItself | Puzzle15/AStar/AstarAlgorithm.cs:10-22 | a state reached from itself is the root: its `g` is 0 and its path is itself alone |
| AStar.SolutionFrom | Puzzle15/AStar/AstarAlgorithm.cs:20-22 | the path returned for a reached final state is its walk from the root and a solution |
| AStar.FinalPathIsSolution | Puzzle15/AStar/AstarAlgorithm.cs:19-22 | the path to a final state reached from the root is a solution: a root-to-solved chain of single moves with `g = k` at position k |
| AStar.StartSearch | Puzzle15/AStar/AstarAlgorithm.cs:5-12 | the set-up queues and opens exactly a fresh consistent root holding the input board, closes nothing, and establishes the search invariant |
| AStar.Search | Puzzle15/AStar/AstarAlgorithm.cs:15-70 | a found path is a solution for the root's board; no solution only when the open list is empty, and then no walk of blank moves from the root's board reaches the solved board; out of fuel means that as many distinct unsolved boards reachable from the root's board exist as the closed keys at the start plus `fuel`; a solved root at the head of the queue is found at once when `fuel > 0` |
| AStar.Run | Puzzle15/AStar/AstarAlgorithm.cs:4-71 | a returned path is a solution for the input board; no solution is returned only when no walk of blank moves from the input board reaches the solved board; out of fuel means `fuel` distinct unsolved boards reachable from the input exist; a solved input with `fuel > 0` yields the one-state path |

## Left out

- `Puzzle15/Program.cs`, the console entry point, is not part of this model. It hard-codes a board, prints the path and waits for a key.
- `Math.Sqrt`: the floating-point square root is replaced by the exact integer square root `GridSide`. Boards are required to be perfect squares with side at least 2 (`IsSquareBoard`).
- Malformed boards are excluded by a precondition (`WellFormed`) rather than modelled. These are boards that are not square, or have duplicate tiles or no blank. The source does not define what happens on them.
- The string key: `GenerateStateCode`, `GetHashCode` and `ToString` are not modelled. The key is the board sequence itself. Joining integers with spaces is injective, so key equality is board equality.
- Run: the loop is bounded by a `fuel` count of expansions, and it returns `OutOfFuel` when the count runs out. The source loops until the open list is empty. Its termination rests on the reachable boards being finite, which is not proved.
- Run: the returned `Stack<State>` is modelled as a sequence in pop order, root first. `null` is modelled as `NoSolution`.
- Run: optimality of the returned path is not claimed, and neither is admissibility of the heuristics. Both heuristics count the blank as a misplaced cell. For example, the board `1,2,3,4,5,-1,7,8,6` is one move from solved but has `h = 2`, so the first path found need not be shortest.
- TakeOpen: least `f` is promised only while the heap is in order. The search evicts replaced open states with the source's `Remove`, which can break heap order (see Findings), so A*'s least-`f` choice is not promised for the whole run.
- Dequeue: least `f` and restored order are promised only when the heap was ordered before. The source's `Remove` can leave it unordered.
- RemoveOrdered: the corrected removal is proved but not used by the search, which keeps the source's `Remove`.
- GetNextStates: the caller's `ref List<State>` is not modelled. The source clears that list and refills it; the model returns the new sequence.
- State: the root's board aliases the caller's array in the source. The model keeps an immutable copy, and nothing in the core writes to that array after construction.
- State.constructor: consistency (`Valid`) is promised for a root and for a parent whose successor boards include the new board. These are the only two ways the source builds states.
- GetParent is not a separate method; the model reads the `Parent` field.
- Integer width: `g`, `h` and `f` are unbounded. The source's 32-bit `int` would overflow only beyond 2^31 moves.
- MinPriorityQueue is generic over `T : IComparable` in the source. The model specialises it to `State`, compared by `f`, with `default(T)` as `null`.

## Findings

| source | as written | input that shows it | evidently intended | confidence | as-written member | corrected member |
|---|---|---|---|---|---|---|
| Puzzle15/AStar/MinPriorityQueue.cs:109-115 | `Remove` moves the last state into the freed slot and only sinks it, never swims it | states with `f` = 1, 5, 2, 6, 7, 3 in slots 1..6, which are in heap order; `Remove(4)` puts `f` 3 in slot 4 under `f` 5 in slot 2, and slot 4 has no children, so `Sink(4)` stops at once | removing a slot keeps heap order, so `Dequeue` keeps returning a state of least `f` | not executed | PriorityQueue.RemoveCanBreakOrder | PriorityQueue.MinPriorityQueue.RemoveOrdered |
