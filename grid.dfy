/**
 * Cells of the rectangular maze grid and the geometry the maze code uses:
 * the Manhattan distance that serves as the solver's heuristic, the
 * four-neighbour moves of the solver and the two-cell jumps on which the
 * generator carves.
 */
module Grid {

  /** A `{ row, col }` position; rows and columns are unbounded integers. */
  datatype Cell = Cell(row: int, col: int)

  function Abs(x: int): (r: nat)
    ensures r == x || r == -x
  {
    if x < 0 then -x else x
  }

  /** `calculateDistance`: the Manhattan distance between two cells. */
  function Distance(a: Cell, b: Cell): (r: nat)
    ensures r == 0 <==> a == b
  {
    Abs(a.row - b.row) + Abs(a.col - b.col)
  }

  /** The Manhattan distance is symmetric. */
  lemma DistanceSymmetric(a: Cell, b: Cell)
    ensures Distance(a, b) == Distance(b, a)
  {
  }

  /** The Manhattan distance obeys the triangle inequality. */
  lemma DistanceTriangle(a: Cell, b: Cell, c: Cell)
    ensures Distance(a, c) <= Distance(a, b) + Distance(b, c)
  {
  }

  /** The cell lies in a grid of `height` rows and `width` columns. */
  predicate InBounds(c: Cell, height: int, width: int)
  {
    0 <= c.row < height && 0 <= c.col < width
  }

  /** `b` is one of the four cells next to `a`. */
  predicate Adjacent(a: Cell, b: Cell)
  {
    b == Cell(a.row - 1, a.col) || b == Cell(a.row + 1, a.col) ||
    b == Cell(a.row, a.col - 1) || b == Cell(a.row, a.col + 1)
  }

  /** Adjacent cells are exactly the cells at distance one. */
  lemma AdjacentIsUnitDistance(a: Cell, b: Cell)
    ensures Adjacent(a, b) <==> Distance(a, b) == 1
  {
    if Distance(a, b) == 1 {
      if a.row == b.row {
        assert b.col == a.col - 1 || b.col == a.col + 1;
      } else {
        assert a.col == b.col;
      }
    }
  }

  /**
   * The heuristic `calculateDistance(a, end)` is consistent: one move
   * changes it by at most one.
   */
  lemma HeuristicConsistent(a: Cell, b: Cell, end: Cell)
    requires Adjacent(a, b)
    ensures Distance(a, end) <= 1 + Distance(b, end)
    ensures Distance(b, end) <= 1 + Distance(a, end)
  {
    AdjacentIsUnitDistance(a, b);
    DistanceTriangle(a, b, end);
    DistanceTriangle(b, a, end);
    DistanceSymmetric(a, b);
  }

  /** `b` is an in-bounds cell two rows or two columns away from `a`: a carving move. */
  predicate Jump(a: Cell, b: Cell, height: int, width: int)
  {
    InBounds(b, height, width) &&
    (b == Cell(a.row - 2, a.col) || b == Cell(a.row + 2, a.col) ||
     b == Cell(a.row, a.col - 2) || b == Cell(a.row, a.col + 2))
  }

  /** The cell half-way between `a` and `b`, computed as the generator does. */
  function Midpoint(a: Cell, b: Cell): Cell
  {
    Cell(a.row + (b.row - a.row) / 2, a.col + (b.col - a.col) / 2)
  }

  /** The midpoint of a jump lies in the grid, next to both ends. */
  lemma MidpointOfJump(a: Cell, b: Cell, height: int, width: int)
    requires InBounds(a, height, width) && Jump(a, b, height, width)
    ensures InBounds(Midpoint(a, b), height, width)
    ensures Adjacent(a, Midpoint(a, b)) && Adjacent(Midpoint(a, b), b)
  {
  }

  /** The cell has the parity of `origin` in both coordinates: it is on the carving lattice. */
  predicate OnLattice(c: Cell, origin: Cell)
  {
    (c.row - origin.row) % 2 == 0 && (c.col - origin.col) % 2 == 0
  }

  /** A sequence of jumps inside the grid. */
  predicate JumpWalk(path: seq<Cell>, height: int, width: int)
  {
    |path| > 0 && forall i :: 0 <= i < |path| - 1 ==> Jump(path[i], path[i + 1], height, width)
  }

  /** A set closed under jumps holds every cell of a jump walk that starts in it. */
  lemma {:induction false} JumpWalkStaysIn(s: set<Cell>, path: seq<Cell>, height: int, width: int)
    requires JumpWalk(path, height, width) && path[0] in s
    requires forall a, b :: a in s && Jump(a, b, height, width) ==> b in s
    ensures forall i :: 0 <= i < |path| ==> path[i] in s
  {
    if |path| > 1 {
      assert Jump(path[0], path[1], height, width);
      JumpWalkStaysIn(s, path[1..], height, width);
      forall i | 0 <= i < |path|
        ensures path[i] in s
      {
        if i > 0 {
          assert path[i] == path[1..][i - 1];
        }
      }
    }
  }

  /** A solver move: from `a` onto the adjacent cell `b`, which is in `open`. */
  predicate Step(open: iset<Cell>, a: Cell, b: Cell)
  {
    Adjacent(a, b) && b in open
  }

  /** A sequence of moves, each onto an adjacent cell of `open`. */
  predicate Walk(open: iset<Cell>, path: seq<Cell>)
  {
    |path| > 0 && forall i :: 0 <= i < |path| - 1 ==> Step(open, path[i], path[i + 1])
  }

  /** A set closed under moves onto `open` cells holds every cell of a walk that starts in it. */
  lemma {:induction false} WalkStaysIn(open: iset<Cell>, s: set<Cell>, path: seq<Cell>)
    requires Walk(open, path) && path[0] in s
    requires forall a, b :: a in s && Step(open, a, b) ==> b in s
    ensures forall i :: 0 <= i < |path| ==> path[i] in s
  {
    if |path| > 1 {
      assert Step(open, path[0], path[1]);
      WalkStaysIn(open, s, path[1..]);
      forall i | 0 <= i < |path|
        ensures path[i] in s
      {
        if i > 0 {
          assert path[i] == path[1..][i - 1];
        }
      }
    }
  }
}
