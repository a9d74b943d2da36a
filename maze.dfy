/**
 * The maze of `complex_code_example.js`: a `height` by `width` matrix of
 * wall flags (`grid`, true meaning wall) and a matrix of visited flags, a
 * start and an end cell; `Generate` carves by randomized frontier expansion
 * on the step-2 lattice (in the style of Prim's algorithm) and `Solve` runs
 * A* with the Manhattan heuristic.
 *
 * Every `Math.random()` draw is an injected choice: a draw `x` scaled to a
 * length `n` gives `x % n`, the index `Math.floor(Math.random() * n)` picks;
 * the properties hold for every sequence of draws.
 */
module Maze {
  import opened Grid
  import opened Wrappers
  import Lists
  import Carving
  import opened Search

  /** `Math.floor(Math.random() * n)` for the draw `x`: an index below `n`, or 0 when `n` is 0. */
  function Scale(x: nat, n: nat): (r: nat)
    ensures n > 0 ==> r < n
    ensures n == 0 ==> r == 0
  {
    if n == 0 then 0 else x % n
  }

  class Maze {
    const width: nat
    const height: nat
    /** Row-major wall flags: `grid[row, col]` is true for a wall. */
    const grid: array2<bool>
    /** Row-major flags of the cells the generator has reached. */
    const visited: array2<bool>
    var start: Cell
    var end: Cell

    /** The two matrices have the maze's dimensions and are distinct. */
    predicate Valid()
    {
      grid.Length0 == height && grid.Length1 == width &&
      visited.Length0 == height && visited.Length1 == width &&
      grid != visited
    }

    /** The cell is inside the maze and marked visited. */
    ghost predicate Visited(c: Cell)
      reads visited
    {
      0 <= c.row < visited.Length0 && 0 <= c.col < visited.Length1 && visited[c.row, c.col]
    }

    /** The set of visited cells. */
    ghost function VisitedCells(): set<Cell>
      reads visited
    {
      set r, c | 0 <= r < visited.Length0 && 0 <= c < visited.Length1 && visited[r, c] :: Cell(r, c)
    }

    /** The cells inside the maze that are not walls. */
    ghost function Passable(): iset<Cell>
      reads grid
    {
      iset c: Cell | 0 <= c.row < grid.Length0 && 0 <= c.col < grid.Length1 && !grid[c.row, c.col]
    }

    /**
     * `new Maze(width, height)`: every cell a wall and unvisited; the start
     * and the end are drawn from `startRow`, `startCol`, `endRow`, `endCol`,
     * and lie inside the maze when it has at least one row and one column.
     */
    constructor(width: nat, height: nat, startRow: nat, startCol: nat, endRow: nat, endCol: nat)
      ensures this.width == width && this.height == height && Valid()
      ensures fresh(grid) && fresh(visited)
      ensures forall r, c :: 0 <= r < height && 0 <= c < width ==> grid[r, c] && !visited[r, c]
      ensures start == Cell(Scale(startRow, height), Scale(startCol, width))
      ensures end == Cell(Scale(endRow, height), Scale(endCol, width))
      ensures height > 0 && width > 0 ==> InBounds(start, height, width) && InBounds(end, height, width)
    {
      this.width := width;
      this.height := height;
      grid := new bool[height, width]((r, c) => true);
      visited := new bool[height, width]((r, c) => false);
      start := Cell(Scale(startRow, height), Scale(startCol, width));
      end := Cell(Scale(endRow, height), Scale(endCol, width));
    }

    /** The set `cells` is exactly the set of visited cells. */
    ghost predicate Mirrors(cells: set<Cell>)
      reads visited
    {
      forall c :: Visited(c) <==> c in cells
    }

    lemma MirrorsVisitedCells(cells: set<Cell>)
      requires Mirrors(cells)
      ensures cells == VisitedCells()
    {
      forall c | c in cells
        ensures c in VisitedCells()
      {
        assert Visited(c);
      }
    }

    lemma VisitedCellsMirror()
      ensures Mirrors(VisitedCells())
    {
      forall c | c in VisitedCells()
        ensures Visited(c)
      {
      }
    }

    /**
     * The lattice neighbours two steps away from `current` that are inside
     * the maze and not yet visited, as `generate` collects them.
     */
    method UnvisitedJumps(current: Cell) returns (neighbors: seq<Cell>)
      requires Valid() && InBounds(current, height, width)
      ensures forall n :: n in neighbors <==> Jump(current, n, height, width) && !Visited(n)
      ensures |neighbors| <= 4 && Lists.Distinct(neighbors)
    {
      var row, col := current.row, current.col;
      neighbors := [];
      if row > 1 && !visited[row - 2, col] {
        neighbors := neighbors + [Cell(row - 2, col)];
      }
      if row < height - 2 && !visited[row + 2, col] {
        neighbors := neighbors + [Cell(row + 2, col)];
      }
      if col > 1 && !visited[row, col - 2] {
        neighbors := neighbors + [Cell(row, col - 2)];
      }
      if col < width - 2 && !visited[row, col + 2] {
        neighbors := neighbors + [Cell(row, col + 2)];
      }
    }

    /**
     * `generate()`: carves from `start` by frontier expansion, marking only
     * `visited`, and returns `grid`, which it never writes. `choose(k)` is the
     * k-th random draw. When nothing was visited before, the visited cells
     * afterwards are a carved maze from `start`: every midpoint flanked by
     * two visited lattice cells, one more lattice cell than midpoints, every
     * lattice cell joined to `start` by a carved walk, closed under jumps and
     * holding every cell reachable by jumps.
     */
    method Generate(choose: nat -> nat) returns (result: array2<bool>)
      requires Valid() && InBounds(start, height, width)
      modifies visited
      ensures result == grid
      ensures forall r, c :: 0 <= r < height && 0 <= c < width ==> grid[r, c] == old(grid[r, c])
      ensures forall r, c :: 0 <= r < height && 0 <= c < width && old(visited[r, c]) ==> visited[r, c]
      ensures Visited(start)
      ensures old(VisitedCells()) == {} ==> Carving.CarvedFrom(VisitedCells(), start, height, width)
    {
      ghost var clean := VisitedCells() == {};
      ghost var cells := VisitedCells();
      VisitedCellsMirror();
      var walls := [start];
      Mark(start, cells);
      cells := cells + {start};
      Carving.CarveStart(cells, start, height, width, clean);
      ghost var lattice: set<Cell> := {start};
      ghost var mids: set<Cell> := {};
      var draw := 0;
      while |walls| > 0
        invariant Mirrors(cells)
        invariant forall r, c :: 0 <= r < height && 0 <= c < width && old(visited[r, c]) ==> visited[r, c]
        invariant Carving.CarveInv(cells, lattice, mids, walls, start, height, width, clean)
        decreases AllCells() - cells, |walls|
      {
        var index := Scale(choose(draw), |walls|);
        draw := draw + 1;
        var current := walls[index];
        assert current in cells;
        var neighbors := UnvisitedJumps(current);
        ghost var before := walls;
        walls := Lists.RemoveAt(walls, index);
        if |neighbors| > 0 {
          walls := walls + [current];
          var next := neighbors[Scale(choose(draw), |neighbors|)];
          draw := draw + 1;
          var mid := Midpoint(current, next);
          MidpointOfJump(current, next, height, width);
          Mark(next, cells);
          Mark(mid, cells + {next});
          assert cells + {next} + {mid} == cells + {next, mid};
          walls := walls + [next];
          Carving.CarveStep(cells, lattice, mids, before, start, height, width, clean, index, next);
          AllCellsHolds(next);
          cells, lattice, mids := cells + {next, mid}, lattice + {next}, mids + {mid};
        } else {
          Carving.DropStep(cells, lattice, mids, before, start, height, width, clean, index);
        }
      }
      if clean {
        Carving.CarveDone(cells, lattice, mids, start, height, width);
      }
      MirrorsVisitedCells(cells);
      result := grid;
    }

    /** `visited[c.row][c.col] = true`, with `cells` the visited cells before. */
    method Mark(c: Cell, ghost cells: set<Cell>)
      requires Valid() && InBounds(c, height, width) && Mirrors(cells)
      modifies visited
      ensures Mirrors(cells + {c})
      ensures forall r, k :: 0 <= r < height && 0 <= k < width && old(visited[r, k]) ==> visited[r, k]
    {
      visited[c.row, c.col] := true;
    }

    /** Every cell of the maze. */
    ghost function AllCells(): set<Cell>
    {
      set r, c | 0 <= r < height && 0 <= c < width :: Cell(r, c)
    }

    lemma KeysInside(cameFrom: map<Cell, Node>)
      requires forall k :: k in cameFrom ==> InBounds(k, height, width)
      ensures cameFrom.Keys <= AllCells()
    {
      forall k | k in cameFrom
        ensures k in AllCells()
      {
        AllCellsHolds(k);
      }
    }

    lemma AllCellsHolds(c: Cell)
      requires InBounds(c, height, width)
      ensures c in AllCells()
    {
      assert c == Cell(c.row, c.col);
    }

    /** The passable cells lie inside the maze. */
    lemma PassableInBounds()
      requires Valid()
      ensures forall c :: c in Passable() ==> InBounds(c, height, width)
    {
    }

    /** The four moves out of `current` onto passable cells, collected in the order `solve` tries them. */
    method OpenNeighbours(current: Cell) returns (neighbors: seq<Cell>)
      requires Valid() && InBounds(current, height, width)
      ensures forall n :: n in neighbors <==> Step(Passable(), current, n)
      ensures |neighbors| <= 4 && Lists.Distinct(neighbors)
    {
      var row, col := current.row, current.col;
      neighbors := [];
      if row > 0 && !grid[row - 1, col] {
        neighbors := neighbors + [Cell(row - 1, col)];
      }
      if row < height - 1 && !grid[row + 1, col] {
        neighbors := neighbors + [Cell(row + 1, col)];
      }
      if col > 0 && !grid[row, col - 1] {
        neighbors := neighbors + [Cell(row, col - 1)];
      }
      if col < width - 1 && !grid[row, col + 1] {
        neighbors := neighbors + [Cell(row, col + 1)];
      }
    }

    /** The index of the first open-set entry of least `f`. */
    static method SelectMin(openSet: seq<Node>) returns (index: nat)
      requires |openSet| > 0
      ensures index < |openSet|
      ensures forall i :: 0 <= i < |openSet| ==> openSet[index].f <= openSet[i].f
      ensures forall i :: 0 <= i < index ==> openSet[index].f < openSet[i].f
    {
      index := 0;
      for i := 0 to |openSet|
        invariant index < |openSet| && index <= i
        invariant forall j :: 0 <= j < i ==> openSet[index].f <= openSet[j].f
        invariant forall j :: 0 <= j < index ==> openSet[index].f < openSet[j].f
      {
        if openSet[i].f < openSet[index].f {
          index := i;
        }
      }
    }

    /** No entry before index `i` has the cell `c`. */
    static predicate First(openSet: seq<Node>, c: Cell, i: int)
    {
      forall j :: 0 <= j < i && j < |openSet| ==> openSet[j].cell != c
    }

    /** `node` takes the place of the first entry with its cell, or is appended when there is none. */
    static method Upsert(openSet: seq<Node>, node: Node) returns (result: seq<Node>)
      ensures (forall i :: 0 <= i < |openSet| ==> openSet[i].cell != node.cell) ==> result == openSet + [node]
      ensures forall i :: 0 <= i < |openSet| && openSet[i].cell == node.cell && First(openSet, node.cell, i) ==>
                result == openSet[i := node]
    {
      var i := 0;
      while i < |openSet|
        invariant 0 <= i <= |openSet|
        invariant First(openSet, node.cell, i)
      {
        if openSet[i].cell == node.cell {
          return openSet[i := node];
        }
        i := i + 1;
      }
      return openSet + [node];
    }

    /**
     * The relaxation of the neighbours of `current`: a neighbour that passes
     * the improvement `test` gets `current` as its predecessor and a fresh
     * entry in the open set.
     */
    static method Expand(test: Test, current: Node, neighbors: seq<Cell>, start: Cell, end: Cell,
                         openSet: seq<Node>, cameFrom: map<Cell, Node>)
      returns (openSet': seq<Node>, cameFrom': map<Cell, Node>)
      requires Lists.Distinct(neighbors) && DistinctCells(openSet)
      ensures Relaxation(test, current, start, end, neighbors, openSet, cameFrom, openSet', cameFrom')
    {
      openSet', cameFrom' := openSet, cameFrom;
      RelaxNone(test, current, start, end, openSet, cameFrom);
      for j := 0 to |neighbors|
        invariant Relaxation(test, current, start, end, neighbors[..j], openSet, cameFrom, openSet', cameFrom')
      {
        var neighbor := neighbors[j];
        var gScore := current.g + 1;
        var fScore := gScore + Distance(neighbor, end);
        assert neighbors[..j + 1] == neighbors[..j] + [neighbor];
        var skip := match test
          case AsWritten => neighbor in cameFrom' && gScore >= cameFrom'[neighbor].g
          case Corrected => neighbor == start || (neighbor in cameFrom' && gScore >= cameFrom'[neighbor].g + 1);
        if skip {
          RelaxSkip(test, current, start, end, neighbors[..j], neighbor, openSet, cameFrom, openSet', cameFrom');
        } else {
          var openSet'' := Upsert(openSet', Node(neighbor, gScore, fScore));
          RelaxRecord(test, current, start, end, neighbors[..j], neighbor, openSet, cameFrom, openSet', cameFrom',
                      openSet'', cameFrom'[neighbor := current]);
          openSet', cameFrom' := openSet'', cameFrom'[neighbor := current];
        }
      }
      assert neighbors[..|neighbors|] == neighbors;
    }

    /**
     * `reconstructPath(current)`: follows the recorded predecessors from
     * `current` until a cell without one and returns the entries met in
     * reverse, so that the path ends at `current`. The source loops for ever
     * when the chain cycles; here the walk stops after `|cameFrom| + 1`
     * steps with `None`, which happens exactly when the chain never ends.
     */
    static method ReconstructPath(cameFrom: map<Cell, Node>, current: Node) returns (result: Option<seq<Node>>)
      ensures result.Some? ==>
                var path := result.value;
                |path| > 0 && path[|path| - 1] == current && path[0].cell !in cameFrom && Chained(cameFrom, path)
      ensures result.None? <==> forall n: nat :: Follow(cameFrom, current.cell, n) in cameFrom
    {
      var trail := [current];
      var node := current;
      while node.cell in cameFrom && |trail| <= |cameFrom|
        invariant 0 < |trail| <= |cameFrom| + 1 && trail[0] == current && trail[|trail| - 1] == node
        invariant forall i :: 0 <= i < |trail| - 1 ==> trail[i].cell in cameFrom && cameFrom[trail[i].cell] == trail[i + 1]
        invariant forall i :: 0 <= i < |trail| ==> trail[i].cell == Follow(cameFrom, current.cell, i)
        decreases |cameFrom| + 1 - |trail|
      {
        FollowAdd(cameFrom, current.cell, |trail| - 1, 1);
        node := cameFrom[node.cell];
        trail := trail + [node];
      }
      if node.cell in cameFrom {
        forall k | 0 <= k <= |cameFrom|
          ensures Follow(cameFrom, current.cell, k) in cameFrom
        {
          assert trail[k].cell == Follow(cameFrom, current.cell, k);
        }
        ChainCycles(cameFrom, current.cell);
        return None;
      }
      assert Follow(cameFrom, current.cell, |trail| - 1) !in cameFrom;
      var path := Lists.Reverse(trail);
      forall i | 1 <= i < |path|
        ensures path[i].cell in cameFrom && cameFrom[path[i].cell] == path[i - 1]
      {
        assert path[i] == trail[|trail| - 1 - i] && path[i - 1] == trail[|trail| - i];
      }
      return Some(path);
    }

    /**
     * One iteration of the search loop that does not reach `end`: the entry
     * at `currentIndex` leaves the open set and its passable neighbours are
     * relaxed. The loop invariant is kept, with the entry's cell expanded,
     * and the loop's measure falls.
     */
    method Advance(test: Test, openSet: seq<Node>, cameFrom: map<Cell, Node>, ghost expanded: set<Cell>, currentIndex: nat)
      returns (openSet': seq<Node>, cameFrom': map<Cell, Node>)
      requires Valid() && InBounds(start, height, width)
      requires SolveInv(test, Passable(), start, end, height, width, openSet, cameFrom, expanded)
      requires currentIndex < |openSet| && openSet[currentIndex].cell != end
      ensures SolveInv(test, Passable(), start, end, height, width, openSet', cameFrom', expanded + {openSet[currentIndex].cell})
      ensures cameFrom'.Keys <= AllCells()
      ensures || AllCells() - cameFrom'.Keys < AllCells() - cameFrom.Keys
              || (AllCells() - cameFrom'.Keys == AllCells() - cameFrom.Keys &&
                  (Budget(cameFrom') < Budget(cameFrom) || (Budget(cameFrom') == Budget(cameFrom) && |openSet'| < |openSet|)))
    {
      ghost var open := Passable();
      PassableInBounds();
      var current := openSet[currentIndex];
      var rest := Lists.RemoveAt(openSet, currentIndex);
      EntryInBounds(test, open, start, end, height, width, openSet, cameFrom, expanded, current);
      var neighbors := OpenNeighbours(current.cell);
      openSet', cameFrom' := Expand(test, current, neighbors, start, end, rest, cameFrom);
      SolveStep(test, open, start, end, height, width, openSet, cameFrom, expanded, currentIndex, neighbors, openSet', cameFrom');
      KeysInBounds(test, open, start, end, height, width, openSet', cameFrom', expanded + {current.cell});
      KeysInside(cameFrom');
      SolveDecreases(AllCells(), cameFrom, rest, cameFrom', openSet', |openSet|);
    }

    /**
     * The end of the search once the entry `current` for `end` is selected:
     * the reconstructed path, or the report that reconstruction never
     * returns, which the corrected test rules out.
     */
    method Finish(test: Test, openSet: seq<Node>, cameFrom: map<Cell, Node>, ghost expanded: set<Cell>, current: Node)
      returns (result: Outcome)
      requires SolveInv(test, Passable(), start, end, height, width, openSet, cameFrom, expanded)
      requires current in openSet && current.cell == end
      ensures result.Found? ==>
                var route := Route(result.path);
                |route| > 0 && route[0] == start && route[|route| - 1] == end && Walk(Passable(), route)
      ensures result.Diverges? ==> forall n: nat :: Follow(result.cameFrom, end, n) in result.cameFrom
      ensures result.Diverges? ==>
                && end in result.cameFrom
                && (forall k :: k in result.cameFrom ==> Link(test, Passable(), result.cameFrom, start, height, width, k))
                && (exists route :: Walk(Passable(), route) && route[0] == start && route[|route| - 1] == end)
      ensures result.Found? || result.Diverges?
      ensures test == Corrected ==> !result.Diverges?
    {
      ghost var open := Passable();
      var path := ReconstructPath(cameFrom, current);
      if test == Corrected {
        LinksDescend(open, cameFrom, start, height, width);
        var bound := if end in cameFrom then cameFrom[end].g + 1 else 0;
        DescendingEnds(cameFrom, end, bound);
      }
      match path
      case None =>
        assert Follow(cameFrom, end, 0) in cameFrom;
        assert Reachable(open, start, end);
        return Diverges(cameFrom);
      case Some(p) =>
        SolveFound(test, open, start, end, height, width, openSet, cameFrom, expanded, current, p);
        return Found(p);
    }

    /**
     * `solve()`: A* from `start` towards `end` over the passable cells, with
     * the Manhattan distance to `end` as heuristic and the improvement `test`
     * (`AsWritten` is the source's). A path found runs from `start` to `end`
     * by moves onto adjacent passable cells; `NoPath` (the source's `null`)
     * comes only when no such walk exists; `Diverges` reports a
     * `reconstructPath` that never returns, and only the test as written
     * can lead to it.
     */
    method Solve(test: Test) returns (result: Outcome)
      requires Valid() && InBounds(start, height, width)
      ensures result.Found? ==>
                var route := Route(result.path);
                |route| > 0 && route[0] == start && route[|route| - 1] == end && Walk(Passable(), route)
      ensures result.NoPath? ==>
                forall route :: Walk(Passable(), route) && route[0] == start ==> route[|route| - 1] != end
      ensures result.Diverges? ==> forall n: nat :: Follow(result.cameFrom, end, n) in result.cameFrom
      ensures result.Diverges? ==>
                && end in result.cameFrom
                && (forall k :: k in result.cameFrom ==> Link(test, Passable(), result.cameFrom, start, height, width, k))
                && (exists route :: Walk(Passable(), route) && route[0] == start && route[|route| - 1] == end)
      ensures test == Corrected ==> !result.Diverges?
    {
      ghost var open := Passable();
      var openSet := [StartNode(start)];
      var cameFrom: map<Cell, Node> := map[];
      ghost var expanded: set<Cell> := {};
      SolveStart(test, open, start, end, height, width);
      while |openSet| > 0
        invariant SolveInv(test, open, start, end, height, width, openSet, cameFrom, expanded)
        invariant cameFrom.Keys <= AllCells()
        decreases AllCells() - cameFrom.Keys, Budget(cameFrom), |openSet|
      {
        var currentIndex := SelectMin(openSet);
        var current := openSet[currentIndex];
        if current.cell == end {
          result := Finish(test, openSet, cameFrom, expanded, current);
          return;
        }
        openSet, cameFrom := Advance(test, openSet, cameFrom, expanded, currentIndex);
        expanded := expanded + {current.cell};
      }
      SolveExhausted(test, open, start, end, height, width, cameFrom, expanded);
      return NoPath;
    }
  }
}
