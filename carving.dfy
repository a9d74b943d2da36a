/**
 * The bookkeeping behind the maze generator's carving loop, on sets of
 * cells: the frontier of lattice cells still to be extended, the set of
 * visited cells, the lattice cells reached (the carve origin and every cell
 * a jump landed on) and the midpoints carved between them.
 */
module Carving {
  import opened Grid
  import Lists

  /** Every frontier entry is a reached lattice cell, and none occurs twice. */
  ghost predicate Frontier(walls: seq<Cell>, lattice: set<Cell>)
  {
    (forall i :: 0 <= i < |walls| ==> walls[i] in lattice) && Lists.Distinct(walls)
  }

  /** The reached lattice cells include the origin, are visited and have the origin's parity. */
  ghost predicate Reached(visited: set<Cell>, lattice: set<Cell>, origin: Cell)
  {
    origin in lattice && lattice <= visited && (forall x :: x in lattice ==> OnLattice(x, origin))
  }

  /** Every jump out of a reached lattice cell that has left the frontier lands on a visited cell. */
  ghost predicate ClosedExcept(visited: set<Cell>, lattice: set<Cell>, walls: seq<Cell>, height: int, width: int)
  {
    forall a, b :: a in lattice && a !in walls && Jump(a, b, height, width) ==> b in visited
  }

  /**
   * The cell `m` is off the lattice in exactly one coordinate, and both of
   * its lattice neighbours along that coordinate are visited: it is the
   * midpoint of a carved jump.
   */
  predicate Flanked(m: Cell, visited: set<Cell>, origin: Cell)
  {
    var rowOdd := (m.row - origin.row) % 2 != 0;
    var colOdd := (m.col - origin.col) % 2 != 0;
    rowOdd != colOdd &&
    (rowOdd ==> Cell(m.row - 1, m.col) in visited && Cell(m.row + 1, m.col) in visited) &&
    (colOdd ==> Cell(m.row, m.col - 1) in visited && Cell(m.row, m.col + 1) in visited)
  }

  /** Visited cells are the reached lattice cells and the carved midpoints, one midpoint fewer. */
  ghost predicate Tally(visited: set<Cell>, lattice: set<Cell>, mids: set<Cell>, origin: Cell)
  {
    visited == lattice + mids && |lattice| == |mids| + 1 &&
    forall m :: m in mids ==> Flanked(m, visited, origin)
  }

  /** A jump walk whose cells and the midpoints between consecutive cells are all visited. */
  ghost predicate CarvedWalk(visited: set<Cell>, path: seq<Cell>, height: int, width: int)
  {
    && JumpWalk(path, height, width)
    && (forall i :: 0 <= i < |path| ==> path[i] in visited)
    && (forall i :: 0 <= i < |path| - 1 ==> Midpoint(path[i], path[i + 1]) in visited)
  }

  /** `x` is joined to `origin` by a carved walk: a passage of visited cells. */
  ghost predicate Joined(visited: set<Cell>, origin: Cell, x: Cell, height: int, width: int)
  {
    exists path :: CarvedWalk(visited, path, height, width) && path[0] == origin && path[|path| - 1] == x
  }

  /**
   * The invariant of the carving loop. The tally is kept only when nothing
   * was visited before the run (`clean`).
   */
  ghost predicate CarveInv(visited: set<Cell>, lattice: set<Cell>, mids: set<Cell>, walls: seq<Cell>,
                           origin: Cell, height: int, width: int, clean: bool)
  {
    && Frontier(walls, lattice)
    && Reached(visited, lattice, origin)
    && ClosedExcept(visited, lattice, walls, height, width)
    && (forall x :: x in lattice ==> Joined(visited, origin, x, height, width))
    && (clean ==> Tally(visited, lattice, mids, origin))
  }

  /** Visiting more cells keeps every carved walk carved. */
  lemma JoinedGrows(visited: set<Cell>, visited': set<Cell>, origin: Cell, x: Cell, height: int, width: int)
    requires visited <= visited' && Joined(visited, origin, x, height, width)
    ensures Joined(visited', origin, x, height, width)
  {
    var path :| CarvedWalk(visited, path, height, width) && path[0] == origin && path[|path| - 1] == x;
    assert CarvedWalk(visited', path, height, width);
  }

  /** A jump out of a joined cell, with its target and midpoint visited, joins the target. */
  lemma JoinedExtends(visited: set<Cell>, origin: Cell, a: Cell, b: Cell, height: int, width: int)
    requires Joined(visited, origin, a, height, width)
    requires Jump(a, b, height, width) && b in visited && Midpoint(a, b) in visited
    ensures Joined(visited, origin, b, height, width)
  {
    var path :| CarvedWalk(visited, path, height, width) && path[0] == origin && path[|path| - 1] == a;
    var path' := path + [b];
    forall i | 0 <= i < |path'| - 1
      ensures Jump(path'[i], path'[i + 1], height, width) && Midpoint(path'[i], path'[i + 1]) in visited
    {
      if i < |path| - 1 {
        assert path'[i] == path[i] && path'[i + 1] == path[i + 1];
      }
    }
    assert CarvedWalk(visited, path', height, width);
  }

  /** A carving step keeps every reached lattice cell joined to the origin. */
  lemma JoinedStep(visited: set<Cell>, lattice: set<Cell>, origin: Cell, current: Cell, next: Cell, height: int, width: int)
    requires forall x :: x in lattice ==> Joined(visited, origin, x, height, width)
    requires current in lattice && Jump(current, next, height, width)
    ensures var visited' := visited + {next, Midpoint(current, next)};
      forall x :: x in lattice + {next} ==> Joined(visited', origin, x, height, width)
  {
    var visited' := visited + {next, Midpoint(current, next)};
    forall x | x in lattice
      ensures Joined(visited', origin, x, height, width)
    {
      JoinedGrows(visited, visited', origin, x, height, width);
    }
    JoinedExtends(visited', origin, current, next, height, width);
  }

  /** The loop starts with the origin visited and on the frontier. */
  lemma CarveStart(visited: set<Cell>, origin: Cell, height: int, width: int, clean: bool)
    requires origin in visited
    requires clean ==> visited == {origin}
    ensures CarveInv(visited, {origin}, {}, [origin], origin, height, width, clean)
  {
    assert OnLattice(origin, origin);
    assert CarvedWalk(visited, [origin], height, width);
    if clean {
      assert {origin} + {} == {origin};
    }
  }

  /** The midpoint of a jump from a lattice cell is off the lattice in exactly the jump's coordinate. */
  lemma MidpointFlanked(current: Cell, next: Cell, origin: Cell, visited: set<Cell>, height: int, width: int)
    requires OnLattice(current, origin) && Jump(current, next, height, width)
    requires current in visited && next in visited
    ensures Flanked(Midpoint(current, next), visited, origin)
    ensures OnLattice(next, origin) && !OnLattice(Midpoint(current, next), origin)
  {
  }

  /** A carved midpoint that is flanked by `current` could only have been carved towards `next` too. */
  lemma FreshMidpoint(current: Cell, next: Cell, origin: Cell, visited: set<Cell>, mids: set<Cell>, height: int, width: int)
    requires OnLattice(current, origin) && Jump(current, next, height, width)
    requires next !in visited
    requires forall m :: m in mids ==> Flanked(m, visited, origin)
    ensures Midpoint(current, next) !in mids
  {
    var m := Midpoint(current, next);
    if m in mids {
      assert false;
    }
  }

  /** The frontier after a carving step: `current` moved to the end, `next` after it. */
  lemma FrontierStep(walls: seq<Cell>, lattice: set<Cell>, index: nat, next: Cell)
    requires Frontier(walls, lattice) && index < |walls| && next !in lattice
    ensures Frontier(Lists.RemoveAt(walls, index) + [walls[index]] + [next], lattice + {next})
  {
    var current := walls[index];
    var rest := Lists.RemoveAt(walls, index);
    var walls' := rest + [current] + [next];
    forall i | 0 <= i < |rest|
      ensures rest[i] in lattice && rest[i] != current
    {
      if i < index {
        assert rest[i] == walls[i];
      } else {
        assert rest[i] == walls[i + 1];
      }
    }
    forall i, j | 0 <= i < j < |walls'|
      ensures walls'[i] != walls'[j]
    {
      if j < |rest| {
        var i0 := if i < index then i else i + 1;
        var j0 := if j < index then j else j + 1;
        assert rest[i] == walls[i0] && rest[j] == walls[j0];
      }
    }
  }

  /** The tally after a carving step: one more lattice cell and one more flanked midpoint. */
  lemma TallyStep(visited: set<Cell>, lattice: set<Cell>, mids: set<Cell>, origin: Cell, height: int, width: int,
                  current: Cell, next: Cell)
    requires Reached(visited, lattice, origin) && Tally(visited, lattice, mids, origin)
    requires current in lattice && Jump(current, next, height, width) && next !in visited
    ensures var mid := Midpoint(current, next);
      Tally(visited + {next, mid}, lattice + {next}, mids + {mid}, origin)
  {
    var mid := Midpoint(current, next);
    var visited', lattice', mids' := visited + {next, mid}, lattice + {next}, mids + {mid};
    MidpointFlanked(current, next, origin, visited', height, width);
    FreshMidpoint(current, next, origin, visited, mids, height, width);
    assert mid !in lattice && next !in lattice;
    assert visited' == lattice' + mids';
    assert |lattice'| == |lattice| + 1 && |mids'| == |mids| + 1;
    forall m | m in mids'
      ensures Flanked(m, visited', origin)
    {
      if m != mid {
        assert Flanked(m, visited, origin);
      }
    }
  }

  /**
   * One carving step: `current` is taken off the frontier at `index`, put
   * back at the end with the unvisited jump target `next` after it, and
   * `next` and the midpoint are visited.
   */
  lemma CarveStep(visited: set<Cell>, lattice: set<Cell>, mids: set<Cell>, walls: seq<Cell>,
                  origin: Cell, height: int, width: int, clean: bool,
                  index: nat, next: Cell)
    requires CarveInv(visited, lattice, mids, walls, origin, height, width, clean)
    requires index < |walls| && Jump(walls[index], next, height, width) && next !in visited
    ensures var current := walls[index];
      CarveInv(visited + {next, Midpoint(current, next)}, lattice + {next}, mids + {Midpoint(current, next)},
               Lists.RemoveAt(walls, index) + [current] + [next], origin, height, width, clean)
  {
    var current := walls[index];
    var mid := Midpoint(current, next);
    var visited', lattice' := visited + {next, mid}, lattice + {next};
    var walls' := Lists.RemoveAt(walls, index) + [current] + [next];
    assert current in lattice && OnLattice(current, origin);
    MidpointFlanked(current, next, origin, visited', height, width);
    FrontierStep(walls, lattice, index, next);
    assert Reached(visited', lattice', origin);
    forall a, b | a in lattice' && a !in walls' && Jump(a, b, height, width)
      ensures b in visited'
    {
      assert a != current && a != next;
      assert a in Lists.RemoveAt(walls, index) + [current] + [next] || a !in walls;
    }
    JoinedStep(visited, lattice, origin, current, next, height, width);
    if clean {
      TallyStep(visited, lattice, mids, origin, height, width, current, next);
    }
  }

  /** A frontier cell with no unvisited jump target is dropped from the frontier. */
  lemma DropStep(visited: set<Cell>, lattice: set<Cell>, mids: set<Cell>, walls: seq<Cell>,
                 origin: Cell, height: int, width: int, clean: bool, index: nat)
    requires CarveInv(visited, lattice, mids, walls, origin, height, width, clean)
    requires index < |walls|
    requires forall b :: Jump(walls[index], b, height, width) ==> b in visited
    ensures CarveInv(visited, lattice, mids, Lists.RemoveAt(walls, index), origin, height, width, clean)
  {
    var rest := Lists.RemoveAt(walls, index);
    forall i | 0 <= i < |rest|
      ensures rest[i] in lattice
    {
      if i < index {
        assert rest[i] == walls[i];
      } else {
        assert rest[i] == walls[i + 1];
      }
    }
    forall i, j | 0 <= i < j < |rest|
      ensures rest[i] != rest[j]
    {
      var i0 := if i < index then i else i + 1;
      var j0 := if j < index then j else j + 1;
      assert rest[i] == walls[i0] && rest[j] == walls[j0];
    }
    forall a, b | a in lattice && a !in rest && Jump(a, b, height, width)
      ensures b in visited
    {
    }
  }

  /** The visited cells on the lattice of `origin`. */
  ghost function LatticePart(visited: set<Cell>, origin: Cell): set<Cell>
  {
    set x | x in visited && OnLattice(x, origin)
  }

  /** The visited cells off the lattice of `origin`. */
  ghost function OffLatticePart(visited: set<Cell>, origin: Cell): set<Cell>
  {
    set x | x in visited && !OnLattice(x, origin)
  }

  /**
   * What a complete carving run from `origin` leaves behind: the origin is
   * visited; every visited off-lattice cell is the midpoint of two visited
   * lattice cells; there is exactly one more visited lattice cell than such
   * midpoints; every visited lattice cell is joined to the origin by a
   * carved walk (so, with the count, the passages form a spanning tree of
   * the visited lattice cells); every jump from a visited lattice cell
   * lands on a visited cell; so every cell reachable from the origin by
   * jumps is visited.
   */
  ghost predicate CarvedFrom(visited: set<Cell>, origin: Cell, height: int, width: int)
  {
    && origin in visited
    && (forall m :: m in OffLatticePart(visited, origin) ==> Flanked(m, visited, origin))
    && |LatticePart(visited, origin)| == |OffLatticePart(visited, origin)| + 1
    && (forall x :: x in LatticePart(visited, origin) ==> Joined(visited, origin, x, height, width))
    && (forall a, b :: a in visited && OnLattice(a, origin) && Jump(a, b, height, width) ==> b in visited)
    && (forall path :: JumpWalk(path, height, width) && path[0] == origin ==> path[|path| - 1] in visited)
  }

  /** An emptied frontier after a clean run gives a carved maze. */
  lemma CarveDone(visited: set<Cell>, lattice: set<Cell>, mids: set<Cell>,
                  origin: Cell, height: int, width: int)
    requires CarveInv(visited, lattice, mids, [], origin, height, width, true)
    ensures CarvedFrom(visited, origin, height, width)
  {
    LatticeSplit(visited, lattice, mids, origin);
    LatticeClosed(visited, lattice, origin, height, width);
    forall path | JumpWalk(path, height, width) && path[0] == origin
      ensures path[|path| - 1] in visited
    {
      JumpWalkStaysIn(lattice, path, height, width);
    }
  }

  /** With the frontier empty, jumps from reached lattice cells stay among them. */
  lemma LatticeClosed(visited: set<Cell>, lattice: set<Cell>, origin: Cell, height: int, width: int)
    requires Reached(visited, lattice, origin) && ClosedExcept(visited, lattice, [], height, width)
    requires lattice == LatticePart(visited, origin)
    ensures forall a, b :: a in lattice && Jump(a, b, height, width) ==> b in lattice
  {
    forall a, b | a in lattice && Jump(a, b, height, width)
      ensures b in lattice
    {
      assert b in visited && OnLattice(b, origin);
    }
  }

  /** Under the tally, the reached lattice cells and the midpoints are the two parts of the visited cells. */
  lemma LatticeSplit(visited: set<Cell>, lattice: set<Cell>, mids: set<Cell>, origin: Cell)
    requires Reached(visited, lattice, origin) && Tally(visited, lattice, mids, origin)
    ensures LatticePart(visited, origin) == lattice && OffLatticePart(visited, origin) == mids
    ensures |LatticePart(visited, origin)| == |OffLatticePart(visited, origin)| + 1
  {
    forall m | m in mids
      ensures !OnLattice(m, origin)
    {
      assert Flanked(m, visited, origin);
    }
    assert LatticePart(visited, origin) == lattice;
    assert OffLatticePart(visited, origin) == mids;
  }
}
