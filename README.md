# Demo scripts of smart-life-assistant, modelled in Dafny

The repository is a collection of independent JavaScript demo scripts. This
project models the five that hold sequential logic:

- **Maze** (`complex_code_example.js`). A `Maze` holds two `height` × `width`
  boolean matrices: `grid` (true means wall) and `visited`. It also holds a
  start and an end cell.
  - `generate` carves a maze by randomized frontier expansion on the
    step-2 lattice, in the style of Prim's algorithm.
  - `solve` runs A* with the Manhattan distance as heuristic and rebuilds
    the path through the `cameFrom` predecessor table.
  - Modules: `Grid` (cells, distance, moves), `Carving` (the generator's
    loop invariant, on sets), `Search` (the solver's invariant, its
    relaxation step and the predecessor chains) and `Maze` (the class
    itself).
  - `generate` writes only `visited`. It returns `grid` unchanged, so the
    returned matrix is still all walls. `Maze.Maze.Generate` states exactly
    that, and `Solve` works over whatever cells are passable.
- **Graph and MinHeap** (`sophisticated_code.js`).
  - `Graph` keeps a map from each node to its out-edges and their weights.
    `dijkstraShortestPath` computes distances and predecessors from a
    start node, using a binary min-heap as its priority queue.
  - Modules: `Heap` (the array-backed `MinHeap`) and `Graph`.
- **Library** (`sophisticated_program.js`).
  - A `Book` is either available or borrowed.
  - A `Library` keeps an ordered shelf, with append, remove-first, and
    case-insensitive title and author searches.
  - Modules: `Library` and `Text` (ASCII lower-casing and substring
    search).
- **Social** (`complex_code.js`). Users follow each other, write posts and
  like posts. Module: `Social`.
- **Fibonacci** (`sophisticatedCode.js`). Memoized Fibonacci. Module:
  `Fibonacci`.
- **Shared modules.** `Lists` models `indexOf`, `splice` and `reverse` on
  sequences. `Sets` holds a cardinality lemma. `Wrappers` defines `Option`.

### How the source is represented

- **Objects updated in place are classes.** This covers `Maze`, `MinHeap`,
  `Graph`, `Book`, `Library`, `User` and `Post`. Their methods carry
  `modifies` clauses and state the whole new state.
- **Growing arrays are `seq` fields.** Arrays that are pushed, popped and
  spliced (the heap, the shelf, the follow list, the frontier, the open
  set) become `seq` fields or locals.
- **The maze matrices are `array2<bool>`.**
- **JavaScript `Map`s and plain objects are Dafny `map`s.**
- **Random draws are parameters.** Each `Math.random()` draw is injected.
  A draw `x` used as `Math.floor(Math.random() * n)` becomes `x % n`. The
  constructor takes its four draws as arguments. `generate` takes a
  function `choose` from the draw number to the draw. Every property is
  proved for every sequence of draws.
- **Timestamps are parameters.** The `new Date()` timestamp of a post is
  an opaque integer supplied by the caller.

### The two improvement tests of `solve`

`Maze.Maze.Solve(test)` runs the solver with one of two improvement tests:

- **`AsWritten`** is the source's test. A neighbour is skipped when its
  recorded predecessor's `g` is at most the new cost. The start cell can
  receive a predecessor under this test.
- **`Corrected`** compares the new cost with the neighbour's own best
  known cost, and never gives the start a predecessor.

Path reconstruction follows the chain for at most `|cameFrom| + 1` steps.
When the chain cycles, the source's `reconstructPath` never returns. The
model reports this as `Diverges`, and the lemmas show that this happens
exactly when the chain never ends. With `Corrected`, `Solve` never returns
`Diverges`.

## Model

| member | source | states |
|---|---|---|
| Grid.Distance | complex_code_example.js:63-65 | The Manhattan distance is a natural number and is zero exactly when the two cells coincide |
| Grid.DistanceSymmetric | complex_code_example.js:63-65 | The distance from a to b equals the distance from b to a |
| Grid.DistanceTriangle | complex_code_example.js:63-65 | The distance obeys the triangle inequality |
| Grid.HeuristicConsistent | complex_code_example.js:67-69 | The heuristic (distance to `end`) changes by at most one across a move to an adjacent cell |
| Grid.AdjacentIsUnitDistance | complex_code_example.js:99-110 | The four solver moves reach exactly the cells at distance one |
| Grid.MidpointOfJump | complex_code_example.js:48 | The midpoint the generator carves lies inside the maze and next to both ends of the jump |
| Grid.JumpWalkStaysIn | complex_code_example.js:29-40 | A set closed under in-bounds two-cell jumps contains every cell of a jump walk that starts in it |
| Grid.WalkStaysIn | complex_code_example.js:99-110 | A set closed under moves onto passable cells contains every cell of a walk that starts in it |
| Maze.Scale | complex_code_example.js:13-14 | A draw scaled to a positive length is an index below it |
| Maze.Maze.constructor | complex_code_example.js:8-15 | Every cell is a wall and unvisited; start and end come from the draws and lie inside the maze when it has at least one row and one column |
| Maze.Maze.UnvisitedJumps | complex_code_example.js:27-40 | The collected neighbours are exactly the in-bounds unvisited cells two steps away, at most four and all distinct |
| Maze.Maze.Mark | complex_code_example.js:47-48 | Marking a cell visited adds exactly that cell to the visited set and never clears a flag |
| Maze.Maze.Generate | complex_code_example.js:17-54 | Returns `grid` with no cell changed; visited flags only go from false to true; the start is visited; from an all-unvisited maze the visited cells form a carved maze: every midpoint flanked by two visited lattice cells, one more lattice cell than midpoints, every lattice cell joined to the start by a carved walk (a spanning tree), closed under jumps (see Carving.CarveDone) |
| Carving.CarveStart | complex_code_example.js:18-19 | The loop invariant holds once the start is visited and is the only frontier entry |
| Carving.CarveStep | complex_code_example.js:42-50 | Re-pushing the current cell, pushing a new unvisited jump target and visiting it and the midpoint keeps the frontier distinct and on reached cells, keeps jumps out of dropped cells on visited cells, keeps one more lattice cell than midpoints, and keeps every lattice cell joined to the start by a carved walk |
| Carving.DropStep | complex_code_example.js:21-24 | A frontier cell with no unvisited jump target is removed and the invariant holds |
| Carving.MidpointFlanked | complex_code_example.js:48 | A carved midpoint is off the lattice and flanked by two visited lattice cells |
| Carving.LatticeSplit | complex_code_example.js:29-49 | The visited cells split into reached lattice cells and midpoints, with exactly one more of the former |
| Carving.CarveDone | complex_code_example.js:21-51 | With the frontier empty: every visited off-lattice cell is the midpoint of two visited lattice cells; one more visited lattice cell than midpoints; every visited lattice cell is joined to the start by a walk of jumps over visited cells and midpoints, so the passages form a spanning tree; visited lattice cells closed under jumps, and every cell reachable from the start by jumps visited |
| Carving.FrontierStep | complex_code_example.js:42-49 | Moving the current cell to the back of the frontier and pushing a new lattice cell keeps the frontier distinct and on reached lattice cells |
| Carving.JoinedStep | complex_code_example.js:42-49 | Carving a jump out of a joined lattice cell keeps every lattice cell, and the new target, joined to the start |
| Carving.TallyStep | complex_code_example.js:42-49 | Carving a jump to an unvisited cell adds one lattice cell and one midpoint, so the count of lattice cells stays one above the count of midpoints |
| Maze.Maze.OpenNeighbours | complex_code_example.js:96-110 | The neighbour list holds exactly the adjacent in-bounds non-wall cells, at most four and all distinct |
| Maze.Maze.SelectMin | complex_code_example.js:81-86 | The chosen index holds a least `f`, and every earlier entry has a strictly greater `f` (the first minimum) |
| Maze.Maze.Upsert | complex_code_example.js:124-135 | The new entry replaces the first entry with its cell, or is appended when there is none |
| Search.UpsertedCells | complex_code_example.js:124-135 | After the update the open set still has no two entries for one cell, holds the new entry, and keeps every entry for other cells |
| Maze.Maze.Expand | complex_code_example.js:112-136 | Exactly the neighbours passing the improvement test (`Search.Improves`) get `current` as predecessor and an entry with `g = current.g + 1` and `f = g + h`; nothing else in the table changes |
| Search.RelaxSkip | complex_code_example.js:116-118 | A neighbour that fails the improvement test (`Search.Improves`) leaves table and open set as they were |
| Search.RelaxRecord | complex_code_example.js:120-135 | A neighbour that passes the improvement test (`Search.Improves`) is recorded in the table and upserted into the open set |
| Search.BudgetShrinks | complex_code_example.js:116-120 | Recording an already-recorded cell with a smaller `g` shrinks the finite budget that bounds the search loop |
| Maze.Maze.ReconstructPath | complex_code_example.js:71-78 | A returned path ends at `current`, its first cell has no predecessor, and each entry is the recorded predecessor of the next; `None` comes exactly when the predecessor chain never ends |
| Search.ChainCycles | complex_code_example.js:73-76 | A chain that stays in the table for more steps than the table has keys stays in it for ever |
| Search.DescendingEnds | complex_code_example.js:73-76 | When each predecessor has a smaller `g` than its successor, the chain leaves the table |
| Search.LinksDescend | complex_code_example.js:116-120 | Under the corrected test every recorded predecessor has a smaller `g` than the cell it is recorded for |
| Search.SolveStart | complex_code_example.js:57-61 | The search invariant holds for the open set holding only the start entry (`Search.StartNode`: `g` and `f` both 0) and an empty table |
| Search.SuccessorNoCheaper | complex_code_example.js:113-114 | The entry made for a neighbour (`Search.Successor`) costs one more move, its `f - g` is the neighbour's heuristic, and its `f` is never below the current cell's `g` plus heuristic |
| Search.ReachableStep | complex_code_example.js:116-120 | A move onto a passable cell from the start or from a cell reachable from the start gives a cell reachable from the start |
| Search.StepRooted | complex_code_example.js:116-120 | Relaxing the neighbours of an expanded cell keeps every cell with a recorded predecessor reachable from the start by a walk over passable cells |
| Search.SolveStep | complex_code_example.js:88-136 | Removing a non-end entry and relaxing its neighbours keeps the search invariant, with that cell expanded |
| Search.SolveExhausted | complex_code_example.js:80-139 | With the open set empty, no walk over passable cells leads from start to end |
| Search.SolveFound | complex_code_example.js:88-91 | A chained path that ends at the end entry and whose first cell has no predecessor begins at the start and is a walk over passable cells |
| Maze.Maze.Advance | complex_code_example.js:80-136 | One loop turn that does not reach the end keeps the invariant and lowers the loop's measure |
| Maze.Maze.Finish | complex_code_example.js:88-92 | Reaching the end gives a path from start to end, or a chain that never ends; in the latter case the end has a recorded predecessor, every recorded link is a move between passable cells that passed the test, and a walk from start to end exists; the corrected test never gives the latter |
| Maze.Maze.Solve | complex_code_example.js:56-140 | A returned path runs from start to end by moves onto adjacent passable cells; `NoPath` (the source's `null`) only when no such walk exists; `Diverges` only when reconstruction never ends, and then the end has a recorded predecessor, every recorded link is a move onto a passable cell, and a walk from start to end exists; never `Diverges` with the corrected test |
| Search.Route | complex_code_example.js:77 | The route lists the cells of the path's entries, in order |
| Lists.Reverse | complex_code_example.js:77 | The reversed sequence has the same length and holds element `i` from the end at position `i` |
| Search.CorridorCycles | complex_code_example.js:116-120 | In the corridor (0,0)-(0,1)-(0,2), the test as written records a predecessor for the start and for the end, and the chain from the end then never leaves the table; the corrected test refuses the start |
| Search.CoercedReconstruct | complex_code_example.js:71-78 | Over the table keyed by the coerced string, a returned path is non-empty, no longer than the fuel allows, ends at `current` and begins at a cell whose key has no predecessor |
| Search.CoercedNeverReturns | complex_code_example.js:73-74 | With all cells sharing one object key, once any predecessor is recorded the reconstruction never returns |
| Search.CoercedPair | complex_code_example.js:73-74 | In the maze (0,0)-(0,1), the reconstruction over the coerced key never returns, while the chain keyed by cell ends at the start after one step |
| Heap.MinHeap.constructor | sophisticated_code.js:55-57 | A new heap is empty and heap-ordered |
| Heap.MinHeap.LeftChildIndex | sophisticated_code.js:59-61 | The left child lies after its parent, and the parent of the left child is the parent |
| Heap.MinHeap.RightChildIndex | sophisticated_code.js:63-65 | The right child lies after the left child, and the parent of the right child is the parent |
| Heap.MinHeap.ParentIndex | sophisticated_code.js:67-69 | The parent index of 0 is -1; every other index is a child of its parent, which lies before it |
| Heap.MinHeap.HasLeftChild | sophisticated_code.js:71-73 | For a non-negative index: true exactly when some entry of the heap has that index as its parent |
| Heap.MinHeap.HasRightChild | sophisticated_code.js:75-77 | For a non-negative index: true exactly when some entry other than its left child has that index as its parent; a right child implies a left child; a left child without a right child is the last entry |
| Heap.MinHeap.LeftChild | sophisticated_code.js:83-85 | Returns an entry of the heap; in a heap-ordered list its priority is at least that of the entry at `index` |
| Heap.MinHeap.RightChild | sophisticated_code.js:87-89 | Returns an entry of the heap; in a heap-ordered list its priority is at least that of the entry at `index` |
| Heap.MinHeap.Parent | sophisticated_code.js:91-93 | Returns an entry of the heap; in a heap-ordered list its priority is at most that of the entry at `index` |
| Heap.MinHeap.HasParent | sophisticated_code.js:79-81 | A non-negative index has a parent exactly when it is not the root |
| Heap.MinHeap.IsEmpty | sophisticated_code.js:36 | True exactly for the empty heap |
| Heap.MinHeap.Swap | sophisticated_code.js:95-99 | Exchanges two entries; the multiset of entries is unchanged |
| Heap.MinHeap.Peek | sophisticated_code.js:101-107 | `None` exactly on an empty heap; otherwise the root, whose priority is least |
| Heap.RootIsMinimum | sophisticated_code.js:101-107 | In a heap-ordered list the root's priority is least |
| Heap.MinHeap.Enqueue | sophisticated_code.js:109-112 | Adds exactly the new entry (multiset and length) and keeps heap order |
| Heap.MinHeap.HeapifyUp | sophisticated_code.js:126-137 | Moving the last entry up restores heap order without changing the multiset of entries |
| Heap.SiftUpStep | sophisticated_code.js:126-137 | Swapping an entry with its greater parent moves the only order violation one level up |
| Heap.MinHeap.HeapifyDown | sophisticated_code.js:139-159 | Moving the root down restores heap order without changing the multiset of entries |
| Heap.SiftDownStep | sophisticated_code.js:139-159 | Swapping an entry with its smaller child moves the only order violation one level down |
| Heap.MinHeap.Dequeue | sophisticated_code.js:114-124 | As written: `None` on an empty heap; otherwise returns the root, of least priority; with two or more entries it removes exactly the root and keeps heap order; with one entry the heap is left unchanged |
| Heap.DequeueNeverEmpties | sophisticated_code.js:119-120 | Enqueueing one entry and dequeueing it with the source's `dequeue` leaves one entry |
| Heap.MinHeap.DequeueFixed | sophisticated_code.js:114-124 | Corrected: every dequeue from a non-empty heap removes exactly the least-priority root and keeps heap order |
| Heap.DequeueFixedEmpties | sophisticated_code.js:114-124 | Enqueueing one entry and dequeueing it with the corrected `dequeue` leaves the heap empty |
| Graph.Graph.constructor | sophisticated_code.js:6-8 | A new graph has no nodes |
| Graph.Graph.AddNode | sophisticated_code.js:10-12 | The node gets an empty adjacency, replacing any it had; all edges still end at known nodes |
| Graph.Graph.AddEdge | sophisticated_code.js:14-21 | With both ends known only the weight of source to destination is set; otherwise nothing changes |
| Graph.Graph.Unvisited | sophisticated_code.js:28-31 | Every node starts unreached and without a predecessor |
| Graph.Graph.RelaxNeighbors | sophisticated_code.js:39-47 | Exactly the neighbours whose distance improves (`Graph.Improves`) get the new distance and `current` as predecessor and are pushed on the heap; settled neighbours never improve |
| Graph.Graph.SettleNext | sophisticated_code.js:36-48 | One turn of the main loop keeps the search invariant, and either settles a new node or shrinks the heap |
| Graph.Graph.SettleAll | sophisticated_code.js:36-48 | The main loop ends with the heap empty and the search invariant kept |
| Graph.Graph.DijkstraShortestPath | sophisticated_code.js:23-51 | The start is at distance 0 with no predecessor; every edge out of a reached node is relaxed; every other node is reached exactly when it has a predecessor; each predecessor edge is tight; following predecessors from a reached node arrives at the start |
| Library.Book.constructor | sophisticated_program.js:27-32 | A new book holds its title, author and year, and is available (`Library.Book.IsAvailable` holds) |
| Library.Book.BorrowBook | sophisticated_program.js:55-61 | Succeeds exactly when the book was available (`Library.Book.IsAvailable`); afterwards the book is borrowed |
| Library.Book.ReturnBook | sophisticated_program.js:64-70 | Succeeds exactly when the book was borrowed; afterwards the book is available |
| Library.BorrowThenReturn | sophisticated_program.js:55-70 | Borrowing and then returning an available book both succeed and restore its state |
| Library.Library.constructor | sophisticated_program.js:75-78 | A new library has its name and an empty shelf |
| Library.Library.AddBook | sophisticated_program.js:81-83 | The book is appended at the end of the shelf |
| Library.Library.RemoveBook | sophisticated_program.js:86-91 | Only the first occurrence of the book is removed; an absent book leaves the shelf unchanged |
| Lists.IndexOf | sophisticated_program.js:87 | -1 exactly when the element is absent; otherwise the index of its first occurrence |
| Lists.RemoveAt | sophisticated_program.js:89 | Removes the element at the index and keeps the order of the others |
| Lists.RemoveFirst | sophisticated_program.js:86-91 | Unchanged when the element is absent; otherwise one element shorter, with one copy of it fewer |
| Lists.RemoveFirstSplit | sophisticated_program.js:86-91 | Removing the first occurrence from `p + [x] + q`, with `x` not in `p`, gives `p + q` |
| Library.Library.SearchByTitle | sophisticated_program.js:94-102 | The result is the shelf filtered by "lower-cased title contains lower-cased query", in shelf order |
| Library.Library.SearchByAuthor | sophisticated_program.js:105-113 | The result is the shelf filtered by "lower-cased author name contains lower-cased query", in shelf order |
| Lists.Filter | sophisticated_program.js:94-102 | Every kept element comes from the input and satisfies the query |
| Lists.FilterComplete | sophisticated_program.js:94-102 | Every element of the input that satisfies the query is kept |
| Lists.FilterAppend | sophisticated_program.js:96-100 | Filtering a concatenation concatenates the filtered parts, so the loop builds the filter shelf-prefix by shelf-prefix |
| Text.LowerChar | sophisticated_program.js:97 | ASCII upper-case letters map to their lower-case letter, every other character to itself |
| Text.ToLower | sophisticated_program.js:97 | Lower-cases each character and keeps the length |
| Text.Includes | sophisticated_program.js:97 | True exactly when the query occurs at some position of the text |
| Text.Matches | sophisticated_program.js:97 | True exactly when the lower-cased query occurs at some position of the lower-cased text |
| Text.MatchesAtStart | sophisticated_program.js:97 | A query that agrees with the start of the text up to ASCII case matches it |
| Text.NoMatchLonger | sophisticated_program.js:97 | A query longer than the text never matches it |
| Library.ExampleTitleSearch | sophisticated_program.js:136 | Filtering the example shelf "Book 1", "Book 2", "Book 3" by the title query "book" keeps all three, in order |
| Library.ExampleAuthorSearch | sophisticated_program.js:139 | Filtering the example shelf by the author query "john smith" keeps the two books by John Smith and drops the one by Jane Doe |
| Library.ShelfOfThree | sophisticated_program.js:96-100 | Filtering a shelf of three books keeps each matching book, in shelf order |
| Social.User.constructor | complex_code.js:11-17 | A new user holds the given name, email and password, with no posts and follows nobody |
| Social.CreateUser | complex_code.js:27-30 | Returns a fresh user with the given credentials and empty lists |
| Social.Post.constructor | complex_code.js:33-38 | A new post holds its author, content and timestamp, with no likes |
| Social.FollowUser | complex_code.js:48-51 | The target is appended at the end of the follow list, even when already followed |
| Social.UnfollowUser | complex_code.js:54-60 | Only the first occurrence of the target is removed; an absent target leaves the list unchanged |
| Social.FollowThenUnfollow | complex_code.js:48-60 | Following a user not yet followed and then unfollowing them restores the follow list |
| Lists.AppendThenRemoveFirst | complex_code.js:48-60 | Removing the first occurrence of an appended element that was absent gives back the list |
| Social.CreatePost | complex_code.js:63-68 | Returns a fresh post by the user with the content, the given timestamp and no likes, appended to the user's posts |
| Social.LikePost | complex_code.js:71-74 | Adds exactly one like |
| Fibonacci.Fibonacci | sophisticatedCode.js:12-18 | A memo hit returns the stored value and leaves the memo unchanged; for n at least 2 the result is stored under n; existing entries are never changed and new ones only for keys 2..n; with a correct memo the result is the n-th Fibonacci number and the memo stays correct |

## Left out

- Random draws: the distribution of `Math.random` is not modelled. Draws are injected values, and the properties hold for every choice.
- `cameFrom` keys: the object-to-string key coercion is not used by the solver. `Maze.Maze.Solve` keys `cameFrom` by cell. The coerced table is modelled separately (`Search.CoercedReconstruct`), see Findings.
- Maze.Maze.Generate: requires the start inside the maze, and so does `Maze.Maze.Solve`. The source would index outside the matrices otherwise; that case is not modelled.
- Maze.Maze.constructor: takes natural sizes; negative or fractional sizes are not modelled.
- Maze.Maze.Solve: the optimality the source's comments claim is not proved. With the test as written it does not hold in general.
- Maze.Maze.Expand: in the source, a recorded neighbour object is mutated by setting its `g` and `f`. The model builds a fresh entry with those values. No other reference to that object exists.
- Maze.Maze.Solve: the open-set order is fixed by `Maze.Maze.Upsert`. The search invariant speaks only about which entries the open set holds.
- Maze.Maze.Generate: the carved-maze result is stated only for a maze in which nothing was visited before the call.
- Graph.Graph.DijkstraShortestPath: requires the start to be a node of the graph. The source does not check this.
- Graph.Graph.DijkstraShortestPath: uses `Heap.MinHeap` with `DequeueFixed` as its queue. The source names an undefined `PriorityQueue`, and `MinHeap` has no `isEmpty`; here `isEmpty` means a zero-length heap. With the source's `dequeue` the main loop never ends (see Findings).
- Graph.Graph.DijkstraShortestPath: neighbours are relaxed in an arbitrary order, so the proof covers the insertion order of a JavaScript `Map` too.
- Graph.Graph.DijkstraShortestPath: the least-distance property (that the distances are shortest) is stated only as every edge being relaxed, with tight predecessor edges reaching the start.
- Edge weights: natural numbers; `Infinity` is the explicit value `Unreached`. Floating-point and negative weights are not modelled.
- Text.ToLower: ASCII only. Full Unicode case mapping is not modelled.
- The getters of `Author`, `Book` and `Library` are plain field reads and are not separate members. `Book.isAvailable` is `Library.Book.IsAvailable`.
- `authenticateUser` and `searchPosts` have no bodies in the source, so there is nothing to model.
- Post timestamps: `new Date()` becomes an integer parameter.
- Fibonacci.Fibonacci: takes a natural `n`. On a negative or fractional `n` the source recurses without reaching a base case until the call stack overflows with a `RangeError`; that case is not modelled.
- Fibonacci.Fibonacci: results are exact integers. JavaScript numbers are doubles, so from n = 79 on the source's results are rounded (fibonacci(79) is 14472334024676221, which the source gives as 14472334024676220). Call-stack depth is not modelled either: a large enough `n` on an empty memo ends in a `RangeError` in the source, while the model always returns.
- Fibonacci.Fibonacci: the memo is passed in and returned instead of shared by reference.
- The Mandelbrot drawing in `sophisticatedCode.js` is not modelled. It is floating-point iteration and canvas output.
- `AdvancedDataVisualization.js` and `complexCode.js` are not part of this model. They are DOM, HTTP, database and file I/O.
- Console output and the example-usage blocks are not modelled. Two of the library examples are stated as lemmas.

## Findings

| source | as written | input that shows it | evidently intended | confidence | as-written member | corrected member |
|---|---|---|---|---|---|---|
| sophisticated_code.js:119-120 | `dequeue` pops the last entry and writes it back at index 0 even when that pop emptied the heap | a heap holding one entry: after `dequeue` it still holds that entry, so Dijkstra's loop, with `MinHeap` as the queue, never sees an empty queue | a one-entry heap becomes empty | not executed | Heap.MinHeap.Dequeue, Heap.DequeueNeverEmpties | Heap.MinHeap.DequeueFixed, Heap.DequeueFixedEmpties |
| complex_code_example.js:73-74 | `cameFrom` is a plain object keyed by cell objects, which all convert to the same property name | the 1×2 maze (0,0)-(0,1) from (0,0) to (0,1): the first expansion stores a predecessor under the shared key and `reconstructPath` never returns | a table keyed by the cell's row and column | not executed | Search.CoercedNeverReturns, Search.CoercedPair | Maze.Maze.ReconstructPath |
| complex_code_example.js:116 | a neighbour is skipped only when its recorded predecessor's `g` is at most the new cost, so the start cell can get a predecessor | the open 1×3 corridor from (0,0) to (0,2), with `cameFrom` keyed by cell as `Maze.Maze.Solve` keys it: expanding (0,1) records it as predecessor of (0,0), and the chain from (0,2) cycles between (0,1) and (0,0). The program as written does not reach this on the corridor: with the key coercion of the row above every cell shares one key, so after the start's neighbour is recorded every later neighbour is skipped, (0,2) is never reached, and `solve` returns `null` | compare with the neighbour's own best cost and never re-record the start | not executed | Search.CorridorCycles | Search.LinksDescend, Maze.Maze.Solve |
