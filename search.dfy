/**
 * The bookkeeping of the maze solver's A* search, on values: the open-set
 * entries, the predecessor table `cameFrom`, the relaxation of the
 * neighbours of an expanded entry and the invariant of the search loop.
 *
 * `cameFrom` is keyed by cell. In the source the keys are the neighbour
 * objects themselves, which JavaScript turns into one and the same property
 * name; that behaviour, and the original improvement test, are modelled at
 * the end of this module.
 */
module Search {
  import opened Grid
  import opened Wrappers
  import Lists
  import Sets

  /** An open-set entry `{ row, col, g, f }`: a cell, the cost `g` of the path to it and the estimate `f`. */
  datatype Node = Node(cell: Cell, g: nat, f: nat)

  /**
   * What `solve` comes to: a path, `null` once the open set is empty, or a
   * `reconstructPath` that never returns because the predecessor chain
   * from `end` in the table `cameFrom` never ends.
   */
  datatype Outcome = Found(path: seq<Node>) | NoPath | Diverges(cameFrom: map<Cell, Node>)

  /** The entry the search starts from: `{ ...start, g: 0, f: 0 }`. */
  function StartNode(start: Cell): Node
  {
    Node(start, 0, 0)
  }

  /** The entry for the neighbour `k` of `current`: one move more, plus the Manhattan distance to `end`. */
  function Successor(current: Node, k: Cell, end: Cell): Node
  {
    Node(k, current.g + 1, current.g + 1 + Distance(k, end))
  }

  /**
   * The entry `solve` makes for a neighbour `k` of `current` one move away:
   * it costs one more than `current`, and with the Manhattan heuristic its
   * estimate `f` is never below `current.g` plus the heuristic of `current`,
   * so the estimates never fall along a move.
   */
  lemma SuccessorNoCheaper(current: Node, k: Cell, end: Cell)
    requires Adjacent(current.cell, k)
    ensures Successor(current, k, end).g == current.g + 1
    ensures Successor(current, k, end).f - Successor(current, k, end).g == Distance(k, end)
    ensures current.g + Distance(current.cell, end) <= Successor(current, k, end).f
  {
    HeuristicConsistent(current.cell, k, end);
  }

  /** The cells of the entries. */
  function Cells(nodes: seq<Node>): set<Cell>
  {
    set n | n in nodes :: n.cell
  }

  /** No cell has two entries. */
  predicate DistinctCells(nodes: seq<Node>)
  {
    forall i, j :: 0 <= i < j < |nodes| ==> nodes[i].cell != nodes[j].cell
  }

  /** The cells of an entry sequence, in order. */
  function Route(path: seq<Node>): (r: seq<Cell>)
    ensures |r| == |path| && forall i :: 0 <= i < |path| ==> r[i] == path[i].cell
  {
    seq(|path|, i requires 0 <= i < |path| => path[i].cell)
  }

  /**
   * The two improvement tests: the one written in `solve`, which compares
   * the neighbour's new cost with the `g` of its recorded predecessor and
   * lets the start be recorded, and the corrected one, which compares it
   * with the neighbour's own best known cost.
   */
  datatype Test = AsWritten | Corrected

  /**
   * The test under which expanding `current` records it as the predecessor
   * of the neighbour `k`. As written, `k` is skipped when it has a recorded
   * predecessor whose `g` is at most `current.g + 1`. Corrected, the cost
   * `current.g + 1` must beat the best known cost of `k`, which is 0 for the
   * start and one more than the `g` of its recorded predecessor otherwise.
   */
  predicate Improves(test: Test, cameFrom: map<Cell, Node>, start: Cell, current: Node, k: Cell)
  {
    match test
    case AsWritten => !(k in cameFrom && current.g + 1 >= cameFrom[k].g)
    case Corrected => k != start && (k !in cameFrom || current.g + 1 < cameFrom[k].g + 1)
  }

  /** `k` is one of the neighbours `ks` whose predecessor becomes `current`. */
  predicate Renewed(test: Test, cameFrom: map<Cell, Node>, start: Cell, current: Node, ks: seq<Cell>, k: Cell)
  {
    k in ks && Improves(test, cameFrom, start, current, k)
  }

  /**
   * The pairs `(k, i)` with `i` below the `g` of the predecessor of `k`:
   * a finite measure that shrinks whenever a recorded predecessor is
   * replaced by a cheaper one.
   */
  ghost function Budget(cameFrom: map<Cell, Node>): set<(Cell, nat)>
  {
    set k, i: nat | k in cameFrom && i < cameFrom[k].g :: (k, i)
  }

  /** Replacing a predecessor by one of smaller `g` shrinks the budget. */
  lemma BudgetShrinks(cameFrom: map<Cell, Node>, k: Cell, v: Node)
    requires k in cameFrom && v.g < cameFrom[k].g
    ensures Budget(cameFrom[k := v]) < Budget(cameFrom)
  {
    var cf := cameFrom[k := v];
    forall p | p in Budget(cf)
      ensures p in Budget(cameFrom)
    {
      var (k', i) := p;
      assert k' in cf && i < cf[k'].g;
    }
    assert (k, v.g) in Budget(cameFrom);
    assert (k, v.g) !in Budget(cf);
  }

  // ---------------------------------------------------------------------
  // Relaxing the neighbours of one expanded entry
  // ---------------------------------------------------------------------

  /** The table after relaxing toward `ks`: `current` for the renewed neighbours, unchanged elsewhere. */
  ghost predicate RelaxedMap(test: Test, cf0: map<Cell, Node>, start: Cell, current: Node, ks: seq<Cell>, cf: map<Cell, Node>)
  {
    && (forall k :: k in cf <==> k in cf0 || Renewed(test, cf0, start, current, ks, k))
    && (forall k :: k in cf ==> cf[k] == if Renewed(test, cf0, start, current, ks, k) then current else cf0[k])
  }

  /** An entry survives the relaxation unless its cell was renewed. */
  ghost predicate Survives(test: Test, cf0: map<Cell, Node>, start: Cell, current: Node, ks: seq<Cell>,
                           open0: seq<Node>, n: Node)
  {
    n in open0 && !Renewed(test, cf0, start, current, ks, n.cell)
  }

  /**
   * The open set after relaxing toward `ks`: still one entry per cell, the
   * surviving entries kept, and a fresh successor entry for every renewed
   * neighbour.
   */
  ghost predicate RelaxedOpen(test: Test, cf0: map<Cell, Node>, start: Cell, end: Cell, current: Node, ks: seq<Cell>,
                              open0: seq<Node>, open: seq<Node>)
  {
    && DistinctCells(open)
    && (forall n :: n in open ==>
          Survives(test, cf0, start, current, ks, open0, n) ||
          (Renewed(test, cf0, start, current, ks, n.cell) && n == Successor(current, n.cell, end)))
    && (forall k :: Renewed(test, cf0, start, current, ks, k) ==> Successor(current, k, end) in open)
    && (forall n :: Survives(test, cf0, start, current, ks, open0, n) ==> n in open)
  }

  /** Either nothing changed, or a new cell was recorded, or the budget shrank. */
  ghost predicate Progress(cf0: map<Cell, Node>, open0: seq<Node>, cf: map<Cell, Node>, open: seq<Node>)
  {
    (cf == cf0 && open == open0) || cf0.Keys < cf.Keys || (cf0.Keys == cf.Keys && Budget(cf) < Budget(cf0))
  }

  /** The effect of relaxing the neighbours `ks` of `current`, from `open0` and `cf0`. */
  ghost predicate Relaxation(test: Test, current: Node, start: Cell, end: Cell, ks: seq<Cell>,
                             open0: seq<Node>, cf0: map<Cell, Node>, open: seq<Node>, cf: map<Cell, Node>)
  {
    && RelaxedMap(test, cf0, start, current, ks, cf)
    && RelaxedOpen(test, cf0, start, end, current, ks, open0, open)
    && Progress(cf0, open0, cf, open)
  }

  lemma RelaxNone(test: Test, current: Node, start: Cell, end: Cell, open: seq<Node>, cf: map<Cell, Node>)
    requires DistinctCells(open)
    ensures Relaxation(test, current, start, end, [], open, cf, open, cf)
  {
  }

  /** What `Upsert` leaves: `node` replaces the entry of its cell, or is appended when there is none. */
  predicate Upserted(open: seq<Node>, node: Node, result: seq<Node>)
  {
    && ((forall i :: 0 <= i < |open| ==> open[i].cell != node.cell) ==> result == open + [node])
    && (forall i :: 0 <= i < |open| && open[i].cell == node.cell ==> result == open[i := node])
  }

  /** On an open set with one entry per cell, an upsert keeps one entry per cell and exchanges the entry of `node.cell`. */
  lemma UpsertedCells(open: seq<Node>, node: Node, result: seq<Node>)
    requires DistinctCells(open) && Upserted(open, node, result)
    ensures DistinctCells(result) && node in result
    ensures forall n :: n in result ==> n == node || (n in open && n.cell != node.cell)
    ensures forall n :: n in open && n.cell != node.cell ==> n in result
  {
    if i :| 0 <= i < |open| && open[i].cell == node.cell {
      assert result == open[i := node] && result[i] == node;
      forall n | n in open && n.cell != node.cell
        ensures n in result
      {
        var j :| 0 <= j < |open| && open[j] == n;
        assert result[j] == n;
      }
    } else {
      assert result == open + [node];
    }
  }

  /** Skipping a neighbour that the test does not renew. */
  lemma RelaxSkip(test: Test, current: Node, start: Cell, end: Cell, ks: seq<Cell>, k: Cell,
                  open0: seq<Node>, cf0: map<Cell, Node>, open: seq<Node>, cf: map<Cell, Node>)
    requires Relaxation(test, current, start, end, ks, open0, cf0, open, cf)
    requires k !in ks && !Improves(test, cf, start, current, k)
    ensures Relaxation(test, current, start, end, ks + [k], open0, cf0, open, cf)
  {
    assert !Improves(test, cf0, start, current, k) by {
      if k in cf0 {
        assert cf[k] == cf0[k];
      }
    }
    forall x
      ensures Renewed(test, cf0, start, current, ks + [k], x) <==> Renewed(test, cf0, start, current, ks, x)
    {
    }
  }

  /** Recording `current` as the predecessor of a renewed neighbour and upserting its entry. */
  lemma RelaxRecord(test: Test, current: Node, start: Cell, end: Cell, ks: seq<Cell>, k: Cell,
                    open0: seq<Node>, cf0: map<Cell, Node>, open: seq<Node>, cf: map<Cell, Node>,
                    open': seq<Node>, cf': map<Cell, Node>)
    requires Relaxation(test, current, start, end, ks, open0, cf0, open, cf)
    requires k !in ks && Improves(test, cf, start, current, k)
    requires cf' == cf[k := current] && Upserted(open, Successor(current, k, end), open')
    ensures Relaxation(test, current, start, end, ks + [k], open0, cf0, open', cf')
  {
    assert Improves(test, cf0, start, current, k) by {
      if k in cf0 {
        assert cf[k] == cf0[k];
      }
    }
    forall x
      ensures Renewed(test, cf0, start, current, ks + [k], x) <==> Renewed(test, cf0, start, current, ks, x) || x == k
    {
    }
    RelaxRecordMap(test, current, start, ks, k, cf0, cf, cf');
    RelaxRecordOpen(test, current, start, end, ks, k, open0, cf0, open, open');
    RelaxRecordProgress(test, current, start, end, ks, k, open0, cf0, open, cf, open', cf');
  }

  lemma RelaxRecordMap(test: Test, current: Node, start: Cell, ks: seq<Cell>, k: Cell,
                       cf0: map<Cell, Node>, cf: map<Cell, Node>, cf': map<Cell, Node>)
    requires RelaxedMap(test, cf0, start, current, ks, cf)
    requires k !in ks && Improves(test, cf0, start, current, k)
    requires cf' == cf[k := current]
    requires forall x :: Renewed(test, cf0, start, current, ks + [k], x) <==> Renewed(test, cf0, start, current, ks, x) || x == k
    ensures RelaxedMap(test, cf0, start, current, ks + [k], cf')
  {
  }

  lemma RelaxRecordOpen(test: Test, current: Node, start: Cell, end: Cell, ks: seq<Cell>, k: Cell,
                        open0: seq<Node>, cf0: map<Cell, Node>, open: seq<Node>, open': seq<Node>)
    requires RelaxedOpen(test, cf0, start, end, current, ks, open0, open)
    requires k !in ks && Improves(test, cf0, start, current, k)
    requires Upserted(open, Successor(current, k, end), open')
    requires forall x :: Renewed(test, cf0, start, current, ks + [k], x) <==> Renewed(test, cf0, start, current, ks, x) || x == k
    ensures RelaxedOpen(test, cf0, start, end, current, ks + [k], open0, open')
  {
    var node := Successor(current, k, end);
    UpsertedCells(open, node, open');
    forall n | n in open'
      ensures Survives(test, cf0, start, current, ks + [k], open0, n) ||
              (Renewed(test, cf0, start, current, ks + [k], n.cell) && n == Successor(current, n.cell, end))
    {
      if n != node {
        assert n in open && n.cell != k;
      }
    }
    forall x | Renewed(test, cf0, start, current, ks + [k], x)
      ensures Successor(current, x, end) in open'
    {
      if x != k {
        assert Successor(current, x, end) in open;
      }
    }
    forall n | Survives(test, cf0, start, current, ks + [k], open0, n)
      ensures n in open'
    {
      assert n in open;
    }
  }

  lemma RelaxRecordProgress(test: Test, current: Node, start: Cell, end: Cell, ks: seq<Cell>, k: Cell,
                            open0: seq<Node>, cf0: map<Cell, Node>, open: seq<Node>, cf: map<Cell, Node>,
                            open': seq<Node>, cf': map<Cell, Node>)
    requires Progress(cf0, open0, cf, open) && cf0.Keys <= cf.Keys
    requires Improves(test, cf, start, current, k) && cf' == cf[k := current]
    ensures Progress(cf0, open0, cf', open')
  {
    if k in cf {
      BudgetShrinks(cf, k, current);
      assert cf'.Keys == cf.Keys;
    } else {
      assert k in cf'.Keys - cf0.Keys;
    }
  }

  // ---------------------------------------------------------------------
  // The invariant of the search loop
  // ---------------------------------------------------------------------

  /** An open-set entry is the start entry or the successor entry of its recorded predecessor. */
  predicate Entry(cameFrom: map<Cell, Node>, start: Cell, end: Cell, n: Node)
  {
    n == StartNode(start) || (n.cell in cameFrom && n == Successor(cameFrom[n.cell], n.cell, end))
  }

  /**
   * The recorded predecessor of `k` is one move away, on a passable cell,
   * and is the start or a recorded cell. Under the corrected test the start
   * is never recorded and the predecessor's own predecessor has a smaller
   * `g`.
   */
  predicate Link(test: Test, open: iset<Cell>, cameFrom: map<Cell, Node>, start: Cell, height: int, width: int, k: Cell)
    requires k in cameFrom
  {
    var p := cameFrom[k].cell;
    InBounds(k, height, width) && Step(open, p, k) && (p == start || p in cameFrom) &&
    (test == Corrected ==> k != start && (p in cameFrom ==> cameFrom[p].g < cameFrom[k].g))
  }

  /** Following predecessors from any recorded cell the `g` values fall, so the chain ends. */
  predicate Descending(cameFrom: map<Cell, Node>)
  {
    forall k :: k in cameFrom && cameFrom[k].cell in cameFrom ==> cameFrom[cameFrom[k].cell].g < cameFrom[k].g
  }

  /** Each entry of `path` after the first is recorded, with the entry before it as its predecessor. */
  predicate Chained(cameFrom: map<Cell, Node>, path: seq<Node>)
  {
    forall i :: 1 <= i < |path| ==> path[i].cell in cameFrom && cameFrom[path[i].cell] == path[i - 1]
  }

  /** Every move out of an expanded cell reaches the start or a recorded cell. */
  ghost predicate Closed(open: iset<Cell>, cameFrom: map<Cell, Node>, start: Cell, expanded: set<Cell>)
  {
    forall a, b :: a in expanded && Step(open, a, b) ==> b in cameFrom || b == start
  }

  /** The start and every recorded cell have been expanded or wait in the open set. */
  ghost predicate Pending(cameFrom: map<Cell, Node>, start: Cell, expanded: set<Cell>, openSet: seq<Node>)
  {
    (start in expanded || start in Cells(openSet)) &&
    forall k :: k in cameFrom ==> k in expanded || k in Cells(openSet)
  }

  /** Some walk over `open` leads from `start` to `c`. */
  ghost predicate Reachable(open: iset<Cell>, start: Cell, c: Cell)
  {
    exists route :: Walk(open, route) && route[0] == start && route[|route| - 1] == c
  }

  /** Every recorded cell can be reached from the start. */
  ghost predicate Rooted(open: iset<Cell>, start: Cell, cameFrom: map<Cell, Node>)
  {
    forall k :: k in cameFrom ==> Reachable(open, start, k)
  }

  /** The invariant of the loop of `solve`. */
  ghost predicate SolveInv(test: Test, open: iset<Cell>, start: Cell, end: Cell, height: int, width: int,
                           openSet: seq<Node>, cameFrom: map<Cell, Node>, expanded: set<Cell>)
  {
    && DistinctCells(openSet)
    && (forall n :: n in openSet ==> Entry(cameFrom, start, end, n))
    && (forall k :: k in cameFrom ==> Link(test, open, cameFrom, start, height, width, k))
    && Closed(open, cameFrom, start, expanded)
    && Pending(cameFrom, start, expanded, openSet)
    && Rooted(open, start, cameFrom)
    && end !in expanded
  }

  lemma SolveStart(test: Test, open: iset<Cell>, start: Cell, end: Cell, height: int, width: int)
    ensures SolveInv(test, open, start, end, height, width, [StartNode(start)], map[], {})
  {
    assert start in Cells([StartNode(start)]);
  }

  /** A walk to `a` followed by a move from `a` to `b` is a walk to `b`. */
  lemma ReachableStep(open: iset<Cell>, start: Cell, a: Cell, b: Cell)
    requires (a == start || Reachable(open, start, a)) && Step(open, a, b)
    ensures Reachable(open, start, b)
  {
    var route: seq<Cell> := [start];
    if a != start {
      route :| Walk(open, route) && route[0] == start && route[|route| - 1] == a;
    }
    var route' := route + [b];
    forall i | 0 <= i < |route'| - 1
      ensures Step(open, route'[i], route'[i + 1])
    {
      if i < |route| - 1 {
        assert route'[i] == route[i] && route'[i + 1] == route[i + 1];
      }
    }
    assert Walk(open, route');
  }

  /** With the start inside the grid, so is every open-set entry. */
  lemma EntryInBounds(test: Test, open: iset<Cell>, start: Cell, end: Cell, height: int, width: int,
                      openSet: seq<Node>, cameFrom: map<Cell, Node>, expanded: set<Cell>, n: Node)
    requires SolveInv(test, open, start, end, height, width, openSet, cameFrom, expanded)
    requires InBounds(start, height, width) && n in openSet
    ensures InBounds(n.cell, height, width)
  {
    assert Entry(cameFrom, start, end, n);
    if n.cell != start {
      assert Link(test, open, cameFrom, start, height, width, n.cell);
    }
  }

  /**
   * An iteration that does not return makes the measure of the search loop
   * fall: fewer cells of `all` left unrecorded, or the same and a smaller
   * budget, or both the same and a shorter open set.
   */
  lemma SolveDecreases(all: set<Cell>, cameFrom: map<Cell, Node>, rest: seq<Node>,
                       cameFrom': map<Cell, Node>, openSet': seq<Node>, size: nat)
    requires Progress(cameFrom, rest, cameFrom', openSet') && cameFrom'.Keys <= all && |rest| < size
    ensures || all - cameFrom'.Keys < all - cameFrom.Keys
            || (all - cameFrom'.Keys == all - cameFrom.Keys &&
                (Budget(cameFrom') < Budget(cameFrom) || (Budget(cameFrom') == Budget(cameFrom) && |openSet'| < size)))
  {
    if cameFrom.Keys < cameFrom'.Keys {
      var k :| k in cameFrom'.Keys && k !in cameFrom.Keys;
      assert k in (all - cameFrom.Keys) - (all - cameFrom'.Keys);
    }
  }

  /** Every recorded cell lies inside the grid. */
  lemma KeysInBounds(test: Test, open: iset<Cell>, start: Cell, end: Cell, height: int, width: int,
                     openSet: seq<Node>, cameFrom: map<Cell, Node>, expanded: set<Cell>)
    requires SolveInv(test, open, start, end, height, width, openSet, cameFrom, expanded)
    ensures forall k :: k in cameFrom ==> InBounds(k, height, width)
  {
    forall k | k in cameFrom
      ensures InBounds(k, height, width)
    {
      assert Link(test, open, cameFrom, start, height, width, k);
    }
  }

  /** Under the corrected test the predecessor chains descend. */
  lemma LinksDescend(open: iset<Cell>, cameFrom: map<Cell, Node>, start: Cell, height: int, width: int)
    requires forall k :: k in cameFrom ==> Link(Corrected, open, cameFrom, start, height, width, k)
    ensures Descending(cameFrom)
  {
    forall k | k in cameFrom && cameFrom[k].cell in cameFrom
      ensures cameFrom[cameFrom[k].cell].g < cameFrom[k].g
    {
      assert Link(Corrected, open, cameFrom, start, height, width, k);
    }
  }

  /**
   * One iteration that does not reach `end`: the entry at `index` is taken
   * out, its cell is expanded, and its neighbours `ks` (the moves out of
   * it) are relaxed.
   */
  lemma SolveStep(test: Test, open: iset<Cell>, start: Cell, end: Cell, height: int, width: int,
                  openSet: seq<Node>, cameFrom: map<Cell, Node>, expanded: set<Cell>,
                  index: nat, ks: seq<Cell>, openSet': seq<Node>, cameFrom': map<Cell, Node>)
    requires SolveInv(test, open, start, end, height, width, openSet, cameFrom, expanded)
    requires forall c :: c in open ==> InBounds(c, height, width)
    requires index < |openSet| && openSet[index].cell != end
    requires forall b :: b in ks <==> Step(open, openSet[index].cell, b)
    requires Relaxation(test, openSet[index], start, end, ks, Lists.RemoveAt(openSet, index), cameFrom, openSet', cameFrom')
    ensures SolveInv(test, open, start, end, height, width, openSet', cameFrom', expanded + {openSet[index].cell})
  {
    var current := openSet[index];
    var rest := Lists.RemoveAt(openSet, index);
    RemoveAtParts(openSet, index);
    assert Entry(cameFrom, start, end, current);
    assert current.cell !in ks by {
      AdjacentIsUnitDistance(current.cell, current.cell);
    }
    StepEntries(test, start, end, current, ks, rest, cameFrom, openSet', cameFrom');
    StepLinks(test, open, start, end, height, width, current, ks, rest, cameFrom, openSet', cameFrom');
    StepClosed(test, open, start, end, current, ks, rest, cameFrom, expanded, openSet', cameFrom');
    StepPending(test, start, end, current, ks, openSet, index, cameFrom, expanded, openSet', cameFrom');
    StepRooted(test, open, start, end, current, ks, rest, cameFrom, openSet', cameFrom');
  }

  /** `splice(index, 1)` keeps one entry per cell and every entry but the one taken out. */
  lemma RemoveAtParts(openSet: seq<Node>, index: nat)
    requires index < |openSet| && DistinctCells(openSet)
    ensures DistinctCells(Lists.RemoveAt(openSet, index))
    ensures forall n :: n in Lists.RemoveAt(openSet, index) ==> n in openSet
    ensures forall n :: n in openSet && n != openSet[index] ==> n in Lists.RemoveAt(openSet, index)
  {
    var rest := Lists.RemoveAt(openSet, index);
    forall i, j | 0 <= i < j < |rest|
      ensures rest[i].cell != rest[j].cell
    {
      var i0 := if i < index then i else i + 1;
      var j0 := if j < index then j else j + 1;
      assert rest[i] == openSet[i0] && rest[j] == openSet[j0];
    }
    forall n | n in rest
      ensures n in openSet
    {
      var i :| 0 <= i < |rest| && rest[i] == n;
      if i >= index {
        assert rest[i] == openSet[i + 1];
      }
    }
    forall n | n in openSet && n != openSet[index]
      ensures n in rest
    {
      var i :| 0 <= i < |openSet| && openSet[i] == n;
      if i < index {
        assert rest[i] == n;
      } else {
        assert rest[i - 1] == n;
      }
    }
  }

  lemma StepEntries(test: Test, start: Cell, end: Cell, current: Node, ks: seq<Cell>,
                    rest: seq<Node>, cameFrom: map<Cell, Node>, openSet': seq<Node>, cameFrom': map<Cell, Node>)
    requires forall n :: n in rest ==> Entry(cameFrom, start, end, n)
    requires Relaxation(test, current, start, end, ks, rest, cameFrom, openSet', cameFrom')
    ensures forall n :: n in openSet' ==> Entry(cameFrom', start, end, n)
  {
    forall n | n in openSet'
      ensures Entry(cameFrom', start, end, n)
    {
      if Survives(test, cameFrom, start, current, ks, rest, n) {
        assert Entry(cameFrom, start, end, n);
        if n.cell in cameFrom {
          assert cameFrom'[n.cell] == cameFrom[n.cell];
        }
      }
    }
  }

  lemma StepLinks(test: Test, open: iset<Cell>, start: Cell, end: Cell, height: int, width: int, current: Node, ks: seq<Cell>,
                  rest: seq<Node>, cameFrom: map<Cell, Node>, openSet': seq<Node>, cameFrom': map<Cell, Node>)
    requires forall k :: k in cameFrom ==> Link(test, open, cameFrom, start, height, width, k)
    requires forall c :: c in open ==> InBounds(c, height, width)
    requires Entry(cameFrom, start, end, current) && current.cell !in ks
    requires forall b :: b in ks ==> Step(open, current.cell, b)
    requires Relaxation(test, current, start, end, ks, rest, cameFrom, openSet', cameFrom')
    ensures forall k :: k in cameFrom' ==> Link(test, open, cameFrom', start, height, width, k)
  {
    forall k | k in cameFrom'
      ensures Link(test, open, cameFrom', start, height, width, k)
    {
      if Renewed(test, cameFrom, start, current, ks, k) {
        assert cameFrom'[k] == current;
        var p := current.cell;
        if p != start {
          assert p in cameFrom && current == Successor(cameFrom[p], p, end);
          assert cameFrom'[p] == cameFrom[p];
        }
      } else {
        assert cameFrom'[k] == cameFrom[k];
        assert Link(test, open, cameFrom, start, height, width, k);
        var p := cameFrom[k].cell;
        if p != start && Renewed(test, cameFrom, start, current, ks, p) {
          assert cameFrom'[p] == current;
        }
      }
    }
  }

  lemma StepRooted(test: Test, open: iset<Cell>, start: Cell, end: Cell, current: Node, ks: seq<Cell>,
                   rest: seq<Node>, cameFrom: map<Cell, Node>, openSet': seq<Node>, cameFrom': map<Cell, Node>)
    requires Rooted(open, start, cameFrom)
    requires Entry(cameFrom, start, end, current)
    requires forall b :: b in ks ==> Step(open, current.cell, b)
    requires Relaxation(test, current, start, end, ks, rest, cameFrom, openSet', cameFrom')
    ensures Rooted(open, start, cameFrom')
  {
    forall k | k in cameFrom'
      ensures Reachable(open, start, k)
    {
      if Renewed(test, cameFrom, start, current, ks, k) {
        ReachableStep(open, start, current.cell, k);
      }
    }
  }

  lemma StepClosed(test: Test, open: iset<Cell>, start: Cell, end: Cell, current: Node, ks: seq<Cell>,
                   rest: seq<Node>, cameFrom: map<Cell, Node>, expanded: set<Cell>,
                   openSet': seq<Node>, cameFrom': map<Cell, Node>)
    requires Closed(open, cameFrom, start, expanded)
    requires forall b :: b in ks <==> Step(open, current.cell, b)
    requires Relaxation(test, current, start, end, ks, rest, cameFrom, openSet', cameFrom')
    ensures Closed(open, cameFrom', start, expanded + {current.cell})
  {
    forall a, b | a in expanded + {current.cell} && Step(open, a, b)
      ensures b in cameFrom' || b == start
    {
      if a == current.cell && b !in cameFrom && b != start {
        assert Renewed(test, cameFrom, start, current, ks, b);
      }
    }
  }

  lemma StepPending(test: Test, start: Cell, end: Cell, current: Node, ks: seq<Cell>,
                    openSet: seq<Node>, index: nat, cameFrom: map<Cell, Node>, expanded: set<Cell>,
                    openSet': seq<Node>, cameFrom': map<Cell, Node>)
    requires index < |openSet| && current == openSet[index]
    requires Pending(cameFrom, start, expanded, openSet)
    requires forall n :: n in openSet && n != openSet[index] ==> n in Lists.RemoveAt(openSet, index)
    requires Relaxation(test, current, start, end, ks, Lists.RemoveAt(openSet, index), cameFrom, openSet', cameFrom')
    ensures Pending(cameFrom', start, expanded + {current.cell}, openSet')
  {
    var rest := Lists.RemoveAt(openSet, index);
    var expanded' := expanded + {current.cell};
    forall k | k in cameFrom' || k == start
      ensures k in expanded' || k in Cells(openSet')
    {
      if Renewed(test, cameFrom, start, current, ks, k) {
        assert Successor(current, k, end) in openSet';
      } else if k !in expanded' {
        assert k in cameFrom || k == start;
        var n :| n in openSet && n.cell == k;
        assert n in rest && Survives(test, cameFrom, start, current, ks, rest, n);
        assert n in openSet';
      }
    }
  }

  /** An emptied open set: no walk from the start over passable cells reaches `end`. */
  lemma SolveExhausted(test: Test, open: iset<Cell>, start: Cell, end: Cell, height: int, width: int,
                       cameFrom: map<Cell, Node>, expanded: set<Cell>)
    requires SolveInv(test, open, start, end, height, width, [], cameFrom, expanded)
    ensures forall route :: Walk(open, route) && route[0] == start ==> route[|route| - 1] != end
  {
    assert start in expanded;
    forall a, b | a in expanded && Step(open, a, b)
      ensures b in expanded
    {
      assert b in cameFrom || b == start;
    }
    forall route | Walk(open, route) && route[0] == start
      ensures route[|route| - 1] != end
    {
      WalkStaysIn(open, expanded, route);
    }
  }

  /**
   * A reconstructed path ending at the entry that reached `end` starts at the
   * start, ends at `end` and moves between adjacent passable cells.
   */
  lemma SolveFound(test: Test, open: iset<Cell>, start: Cell, end: Cell, height: int, width: int,
                   openSet: seq<Node>, cameFrom: map<Cell, Node>, expanded: set<Cell>,
                   current: Node, path: seq<Node>)
    requires SolveInv(test, open, start, end, height, width, openSet, cameFrom, expanded)
    requires current in openSet && current.cell == end
    requires |path| > 0 && path[|path| - 1] == current && path[0].cell !in cameFrom
    requires Chained(cameFrom, path)
    ensures Route(path)[0] == start && Route(path)[|path| - 1] == end && Walk(open, Route(path))
  {
    if |path| == 1 {
      assert Entry(cameFrom, start, end, current);
    } else {
      assert Link(test, open, cameFrom, start, height, width, path[1].cell);
    }
    forall i | 0 <= i < |path| - 1
      ensures Step(open, Route(path)[i], Route(path)[i + 1])
    {
      assert Link(test, open, cameFrom, start, height, width, path[i + 1].cell);
    }
  }

  // ---------------------------------------------------------------------
  // The table and the test as written
  // ---------------------------------------------------------------------

  /** The cell reached by following `n` recorded predecessors from `c` (it stays put at an unrecorded cell). */
  function Follow(cameFrom: map<Cell, Node>, c: Cell, n: nat): Cell
    decreases n
  {
    if n == 0 || c !in cameFrom then c else Follow(cameFrom, cameFrom[c].cell, n - 1)
  }

  /**
   * In a one-row corridor (0,0)-(0,1)-(0,2) searched from (0,0) to (0,2),
   * expanding (0,1) records it as the predecessor of the start under the
   * test as written, and the predecessor chain from the end then cycles
   * through (0,1) and (0,0) for ever, so `reconstructPath` never returns.
   * The corrected test refuses the start.
   */
  lemma CorridorCycles()
    ensures var s, m, e := Cell(0, 0), Cell(0, 1), Cell(0, 2);
            var before := map[m := StartNode(s)];
            var current := Successor(StartNode(s), m, e);
            var after := before[s := current][e := current];
            && Improves(AsWritten, before, s, current, s) && Improves(AsWritten, before, s, current, e)
            && (forall n: nat :: Follow(after, e, n) in after)
            && !Improves(Corrected, before, s, current, s)
  {
    var s, m, e := Cell(0, 0), Cell(0, 1), Cell(0, 2);
    var current := Successor(StartNode(s), m, e);
    var after := map[m := StartNode(s)][s := current][e := current];
    forall n: nat
      ensures Follow(after, e, n) in after
    {
      CorridorCycle(after, s, m, e, n);
    }
  }

  lemma {:induction false} CorridorCycle(after: map<Cell, Node>, s: Cell, m: Cell, e: Cell, n: nat)
    requires after.Keys == {s, m, e} && after[e].cell == m && after[m].cell == s && after[s].cell == m
    ensures Follow(after, e, n) in after && Follow(after, m, n) in after && Follow(after, s, n) in after
  {
    if n > 0 {
      CorridorCycle(after, s, m, e, n - 1);
    }
  }

  /** Following `a` and then `b` predecessors is following `a + b`. */
  lemma {:induction false} FollowAdd(cameFrom: map<Cell, Node>, c: Cell, a: nat, b: nat)
    ensures Follow(cameFrom, c, a + b) == Follow(cameFrom, Follow(cameFrom, c, a), b)
    decreases a
  {
    if a > 0 && c in cameFrom {
      FollowAdd(cameFrom, cameFrom[c].cell, a - 1, b);
    }
  }

  /** The first `n` cells of a chain, when pairwise distinct and recorded, are at most as many as the table's keys. */
  lemma {:induction false} DistinctSteps(cameFrom: map<Cell, Node>, c: Cell, n: nat)
    requires forall i, j :: 0 <= i < j < n ==> Follow(cameFrom, c, i) != Follow(cameFrom, c, j)
    requires forall i :: 0 <= i < n ==> Follow(cameFrom, c, i) in cameFrom
    ensures n <= |cameFrom|
  {
    var cells := Steps(cameFrom, c, n);
    StepsCount(cameFrom, c, n);
    forall x | x in cells
      ensures x in cameFrom
    {
      var i :| 0 <= i < n && x == Follow(cameFrom, c, i);
    }
    Sets.SubsetCard(cells, cameFrom.Keys);
  }

  /** The cells of the first `n` steps of the chain from `c`. */
  ghost function Steps(cameFrom: map<Cell, Node>, c: Cell, n: nat): set<Cell>
  {
    set i | 0 <= i < n :: Follow(cameFrom, c, i)
  }

  lemma {:induction false} StepsCount(cameFrom: map<Cell, Node>, c: Cell, n: nat)
    requires forall i, j :: 0 <= i < j < n ==> Follow(cameFrom, c, i) != Follow(cameFrom, c, j)
    ensures |Steps(cameFrom, c, n)| == n
  {
    if n > 0 {
      StepsCount(cameFrom, c, n - 1);
      StepsGrow(cameFrom, c, n);
    }
  }

  /** One more step adds the next cell of the chain, new when the steps are pairwise distinct. */
  lemma StepsGrow(cameFrom: map<Cell, Node>, c: Cell, n: nat)
    requires n > 0
    requires forall i, j :: 0 <= i < j < n ==> Follow(cameFrom, c, i) != Follow(cameFrom, c, j)
    ensures |Steps(cameFrom, c, n)| == |Steps(cameFrom, c, n - 1)| + 1
  {
    var before, after := Steps(cameFrom, c, n - 1), Steps(cameFrom, c, n);
    var last := Follow(cameFrom, c, n - 1);
    forall x | x in after
      ensures x in before + {last}
    {
      var i :| 0 <= i < n && x == Follow(cameFrom, c, i);
      if i < n - 1 {
        assert x in before;
      }
    }
    forall x | x in before
      ensures x in after && x != last
    {
      var i :| 0 <= i < n - 1 && x == Follow(cameFrom, c, i);
    }
    assert after == before + {last};
  }

  /** A chain whose first `|cameFrom| + 1` cells are all recorded repeats a cell among them. */
  lemma ChainRepeats(cameFrom: map<Cell, Node>, c: Cell) returns (i: nat, j: nat)
    requires forall k :: 0 <= k <= |cameFrom| ==> Follow(cameFrom, c, k) in cameFrom
    ensures i < j <= |cameFrom| && Follow(cameFrom, c, i) == Follow(cameFrom, c, j)
  {
    if forall i, j :: 0 <= i < j < |cameFrom| + 1 ==> Follow(cameFrom, c, i) != Follow(cameFrom, c, j) {
      DistinctSteps(cameFrom, c, |cameFrom| + 1);
      assert false;
    }
    i, j :| 0 <= i < j < |cameFrom| + 1 && Follow(cameFrom, c, i) == Follow(cameFrom, c, j);
  }

  /** Once a chain has repeated a cell, every later cell is one met before the repeat. */
  lemma {:induction false} Periodic(cameFrom: map<Cell, Node>, c: Cell, i: nat, j: nat, n: nat)
    requires i < j && Follow(cameFrom, c, i) == Follow(cameFrom, c, j)
    requires forall k :: 0 <= k <= j ==> Follow(cameFrom, c, k) in cameFrom
    ensures Follow(cameFrom, c, n) in cameFrom
    decreases n
  {
    if n > j {
      FollowAdd(cameFrom, c, j, n - j);
      FollowAdd(cameFrom, c, i, n - j);
      Periodic(cameFrom, c, i, j, n - (j - i));
    }
  }

  /**
   * If the first `|cameFrom| + 1` cells of the chain from `c` are recorded,
   * all of them are: `reconstructPath` from `c` never returns.
   */
  lemma ChainCycles(cameFrom: map<Cell, Node>, c: Cell)
    requires forall k :: 0 <= k <= |cameFrom| ==> Follow(cameFrom, c, k) in cameFrom
    ensures forall n: nat :: Follow(cameFrom, c, n) in cameFrom
  {
    var i, j := ChainRepeats(cameFrom, c);
    forall n: nat
      ensures Follow(cameFrom, c, n) in cameFrom
    {
      Periodic(cameFrom, c, i, j, n);
    }
  }

  /** Under descending links the chain from `c` leaves the table after at most `cameFrom[c].g + 1` steps. */
  lemma {:induction false} DescendingEnds(cameFrom: map<Cell, Node>, c: Cell, m: nat)
    requires Descending(cameFrom)
    requires c in cameFrom ==> m > cameFrom[c].g
    ensures Follow(cameFrom, c, m) !in cameFrom
    decreases if c in cameFrom then cameFrom[c].g + 1 else 0
  {
    if c in cameFrom {
      var p := cameFrom[c].cell;
      if p in cameFrom {
        DescendingEnds(cameFrom, p, m - 1);
      }
    }
  }

  /** The property name a JavaScript object key becomes: every `{ row, col }` object turns into the same string. */
  function ObjectKey(c: Cell): string
  {
    "[object Object]"
  }

  /**
   * `reconstructPath` over the table as written, keyed by `ObjectKey`,
   * allowed `fuel` iterations; `None` when they run out.
   */
  function CoercedReconstruct(cameFrom: map<string, Node>, current: Node, fuel: nat): (r: Option<seq<Node>>)
    ensures r.Some? ==> 0 < |r.value| <= fuel + 1 && r.value[|r.value| - 1] == current
    ensures r.Some? ==> ObjectKey(r.value[0].cell) !in cameFrom
    decreases fuel
  {
    if ObjectKey(current.cell) !in cameFrom then Some([current])
    else if fuel == 0 then None
    else match CoercedReconstruct(cameFrom, cameFrom[ObjectKey(current.cell)], fuel - 1)
      case None => None
      case Some(rest) => Some(rest + [current])
  }

  /**
   * Once any predecessor is recorded under the coerced key, the
   * reconstruction never returns, whatever the fuel: every cell has that
   * same key.
   */
  lemma {:induction false} CoercedNeverReturns(cameFrom: map<string, Node>, current: Node, fuel: nat)
    requires ObjectKey(current.cell) in cameFrom
    ensures CoercedReconstruct(cameFrom, current, fuel) == None
    decreases fuel
  {
    if fuel > 0 {
      var previous := cameFrom[ObjectKey(current.cell)];
      assert ObjectKey(previous.cell) == ObjectKey(current.cell);
      CoercedNeverReturns(cameFrom, previous, fuel - 1);
    }
  }

  /**
   * In a one-row maze (0,0)-(0,1) searched from (0,0) to (0,1), the first
   * expansion records the start under the coerced key, and the
   * reconstruction from the end never returns; keyed by cell, the chain
   * ends after one step at the start.
   */
  lemma CoercedPair()
    ensures var s, e := Cell(0, 0), Cell(0, 1);
            var reached := Successor(StartNode(s), e, e);
            && (forall fuel: nat :: CoercedReconstruct(map[ObjectKey(e) := StartNode(s)], reached, fuel) == None)
            && Follow(map[e := StartNode(s)], e, 1) == s && s !in map[e := StartNode(s)]
  {
    var s, e := Cell(0, 0), Cell(0, 1);
    forall fuel: nat
      ensures CoercedReconstruct(map[ObjectKey(e) := StartNode(s)], Successor(StartNode(s), e, e), fuel) == None
    {
      CoercedNeverReturns(map[ObjectKey(e) := StartNode(s)], Successor(StartNode(s), e, e), fuel);
    }
  }
}
