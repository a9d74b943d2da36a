/**
 * The weighted directed graph and Dijkstra's single-source shortest paths,
 * driven by the binary min-heap with lazy deletion: a node is pushed again
 * each time its distance improves and stale entries are skipped by
 * re-relaxing, which changes nothing.
 */
module Graph {
  import opened Wrappers
  import Heap
  import Sets

  /** A node's tentative distance; `Unreached` stands for the source's `Infinity`. */
  datatype Distance = Unreached | Reached(d: nat)

  /** `alt < current` when an unreached node counts as infinitely far. */
  predicate Improves(alt: nat, current: Distance)
  {
    current.Unreached? || alt < current.d
  }

  /** Every edge ends at a known node. */
  ghost predicate Closed(nodes: map<string, map<string, nat>>)
  {
    forall u, v :: u in nodes && v in nodes[u] ==> v in nodes
  }

  /** Following predecessors from `v` arrives at `start` within `steps` steps. */
  ghost predicate ChainReaches(previous: map<string, Option<string>>, v: string, start: string, steps: nat)
    decreases steps
  {
    v == start ||
    (steps > 0 && v in previous && previous[v].Some? && ChainReaches(previous, previous[v].value, start, steps - 1))
  }

  lemma {:induction false} ChainReachesMore(previous: map<string, Option<string>>, v: string, start: string, steps: nat, more: nat)
    requires ChainReaches(previous, v, start, steps) && steps <= more
    ensures ChainReaches(previous, v, start, more)
    decreases steps
  {
    if v != start {
      ChainReachesMore(previous, previous[v].value, start, steps - 1, more - 1);
    }
  }

  /**
   * Predecessors point to settled nodes of smaller rank, so following them
   * from any settled node ends at the start after at most rank + 1 steps.
   */
  lemma {:induction false} ChainFromSettled(previous: map<string, Option<string>>, settled: set<string>,
                                            rank: map<string, nat>, start: string, v: string)
    requires v in settled && rank.Keys == settled
    requires forall x :: x in settled && x != start ==> x in previous && previous[x].Some?
    requires forall x :: x in settled && x in previous && previous[x].Some? ==>
               previous[x].value in settled && rank[previous[x].value] < rank[x]
    ensures ChainReaches(previous, v, start, rank[v] + 1)
    decreases rank[v]
  {
    if v != start {
      var u := previous[v].value;
      ChainFromSettled(previous, settled, rank, start, u);
      ChainReachesMore(previous, u, start, rank[u] + 1, rank[v]);
    }
  }

  /** `ChainFromSettled` for every settled node at once, with any bound above every rank. */
  lemma ChainsFromSettled(previous: map<string, Option<string>>, settled: set<string>,
                          rank: map<string, nat>, start: string, bound: nat)
    requires rank.Keys == settled && forall u :: u in settled ==> rank[u] < bound
    requires forall x :: x in settled && x != start ==> x in previous && previous[x].Some?
    requires forall x :: x in settled && x in previous && previous[x].Some? ==>
               previous[x].value in settled && rank[previous[x].value] < rank[x]
    ensures forall v :: v in settled ==> ChainReaches(previous, v, start, bound)
  {
    forall v | v in settled
      ensures ChainReaches(previous, v, start, bound)
    {
      ChainFromSettled(previous, settled, rank, start, v);
      ChainReachesMore(previous, v, start, rank[v] + 1, bound);
    }
  }

  /**
   * Node `v`, whose distance went from `before` to `after` with predecessor
   * `pred`, is an unsettled neighbour of the unsettled node `current` (at
   * distance `dx`) that improved through the edge from `current`.
   */
  ghost predicate ImprovedVia(adjacency: map<string, nat>, current: string, settled: set<string>, dx: nat,
                              v: string, before: Distance, after: Distance, pred: Option<string>)
  {
    current !in settled && v !in settled && v in adjacency && pred == Some(current) &&
    after == Reached(dx + adjacency[v]) && Improves(dx + adjacency[v], before)
  }

  /**
   * What the relaxation loop of one dequeued node `current` (at distance `dx`)
   * keeps, from the state `d0`, `p0`, `h0` it started in to the current state
   * `d`, `p`, `h`, with the neighbours in `todo` still to be relaxed.
   */
  ghost predicate RelaxInv(keys: set<string>, adjacency: map<string, nat>, current: string, settled: set<string>,
                           dx: nat, d0: map<string, Distance>, p0: map<string, Option<string>>, h0: seq<Heap.Entry>,
                           todo: set<string>,
                           d: map<string, Distance>, p: map<string, Option<string>>, h: seq<Heap.Entry>)
  {
    && RelaxInvMaps(keys, adjacency, current, settled, dx, d0, p0, todo, d, p)
    && RelaxInvQueue(keys, current, settled, dx, d0, h0, d, h)
  }

  /** The distances and predecessors part of `RelaxInv`. */
  ghost predicate RelaxInvMaps(keys: set<string>, adjacency: map<string, nat>, current: string, settled: set<string>,
                               dx: nat, d0: map<string, Distance>, p0: map<string, Option<string>>,
                               todo: set<string>, d: map<string, Distance>, p: map<string, Option<string>>)
  {
    && d.Keys == keys && p.Keys == keys && d0.Keys == keys && p0.Keys == keys
    && todo <= adjacency.Keys && adjacency.Keys <= keys && current in keys
    && d[current] == Reached(dx)
    && (forall v :: v in adjacency && (v in settled || current in settled) ==>
          d0[v].Reached? && d0[v].d <= dx + adjacency[v])
    && (forall v :: v in keys && (v !in adjacency || v in todo) ==> d[v] == d0[v] && p[v] == p0[v])
    && (forall v :: v in adjacency && v !in todo ==> d[v].Reached? && d[v].d <= dx + adjacency[v])
    && (forall v :: v in keys && d[v] != d0[v] ==> ImprovedVia(adjacency, current, settled, dx, v, d0[v], d[v], p[v]))
    && (forall v :: v in keys && d[v] == d0[v] ==> p[v] == p0[v])
  }

  /** The heap part of `RelaxInv`. */
  ghost predicate RelaxInvQueue(keys: set<string>, current: string, settled: set<string>, dx: nat,
                                d0: map<string, Distance>, h0: seq<Heap.Entry>,
                                d: map<string, Distance>, h: seq<Heap.Entry>)
  {
    && d.Keys == keys && d0.Keys == keys
    && (forall v :: v in keys && d[v] != d0[v] ==> d[v].Reached? && Heap.Entry(v, d[v].d) in h)
    && (forall e :: e in h0 ==> e in h)
    && (forall e :: e in h ==> e.element in keys && d[e.element].Reached? && d[e.element].d <= e.priority)
    && (forall e :: e in h && e !in h0 ==> dx <= e.priority)
    && (current in settled ==> h == h0)
  }

  /** With no neighbour left, the loop invariant is the relaxation's postcondition. */
  lemma RelaxDone(keys: set<string>, adjacency: map<string, nat>, current: string, settled: set<string>,
                  dx: nat, d0: map<string, Distance>, p0: map<string, Option<string>>, h0: seq<Heap.Entry>,
                  d: map<string, Distance>, p: map<string, Option<string>>, h: seq<Heap.Entry>)
    requires RelaxInv(keys, adjacency, current, settled, dx, d0, p0, h0, {}, d, p, h)
    requires d0[current] == Reached(dx)
    ensures RelaxResult(keys, adjacency, current, settled, d0, p0, h0, d, p, h)
  {
  }

  /** A neighbour whose distance does not improve is relaxed already; nothing changes. */
  lemma RelaxKept(keys: set<string>, adjacency: map<string, nat>, current: string, settled: set<string>,
                  dx: nat, d0: map<string, Distance>, p0: map<string, Option<string>>, h0: seq<Heap.Entry>,
                  todo: set<string>,
                  d: map<string, Distance>, p: map<string, Option<string>>, h: seq<Heap.Entry>,
                  neighbor: string)
    requires RelaxInv(keys, adjacency, current, settled, dx, d0, p0, h0, todo, d, p, h)
    requires neighbor in todo && !Improves(dx + adjacency[neighbor], d[neighbor])
    ensures RelaxInv(keys, adjacency, current, settled, dx, d0, p0, h0, todo - {neighbor}, d, p, h)
  {
  }

  /**
   * A neighbour whose distance improves through `current` gets the new
   * distance, `current` as predecessor and a new heap entry; the invariant
   * holds with it relaxed.
   */
  lemma RelaxImproved(keys: set<string>, adjacency: map<string, nat>, current: string, settled: set<string>,
                      dx: nat, d0: map<string, Distance>, p0: map<string, Option<string>>, h0: seq<Heap.Entry>,
                      todo: set<string>,
                      d: map<string, Distance>, p: map<string, Option<string>>, h: seq<Heap.Entry>,
                      neighbor: string,
                      d': map<string, Distance>, p': map<string, Option<string>>, h': seq<Heap.Entry>)
    requires RelaxInv(keys, adjacency, current, settled, dx, d0, p0, h0, todo, d, p, h)
    requires neighbor in todo && Improves(dx + adjacency[neighbor], d[neighbor])
    requires d' == d[neighbor := Reached(dx + adjacency[neighbor])] && p' == p[neighbor := Some(current)]
    requires forall e :: e in h' <==> e in h || e == Heap.Entry(neighbor, dx + adjacency[neighbor])
    requires current in settled ==> h' == h
    ensures RelaxInv(keys, adjacency, current, settled, dx, d0, p0, h0, todo - {neighbor}, d', p', h')
  {
    RelaxImprovedMaps(keys, adjacency, current, settled, dx, d0, p0, todo, d, p, neighbor);
    RelaxImprovedQueue(keys, adjacency, current, settled, dx, d0, h0, todo, d, h, neighbor, h');
  }

  lemma RelaxImprovedMaps(keys: set<string>, adjacency: map<string, nat>, current: string, settled: set<string>,
                          dx: nat, d0: map<string, Distance>, p0: map<string, Option<string>>,
                          todo: set<string>, d: map<string, Distance>, p: map<string, Option<string>>,
                          neighbor: string)
    requires RelaxInvMaps(keys, adjacency, current, settled, dx, d0, p0, todo, d, p)
    requires neighbor in todo && Improves(dx + adjacency[neighbor], d[neighbor])
    ensures current !in settled && neighbor !in settled
    ensures RelaxInvMaps(keys, adjacency, current, settled, dx, d0, p0, todo - {neighbor},
                         d[neighbor := Reached(dx + adjacency[neighbor])], p[neighbor := Some(current)])
  {
    var w := dx + adjacency[neighbor];
    var d', p' := d[neighbor := Reached(w)], p[neighbor := Some(current)];
    assert current !in settled && neighbor !in settled by {
      assert d[neighbor] == d0[neighbor];
    }
    forall v | v in keys && d'[v] != d0[v]
      ensures ImprovedVia(adjacency, current, settled, dx, v, d0[v], d'[v], p'[v])
    {
      if v == neighbor {
        assert d[v] == d0[v];
      } else {
        assert d'[v] == d[v] && p'[v] == p[v];
      }
    }
    forall v | v in keys && (v !in adjacency || v in todo - {neighbor})
      ensures d'[v] == d0[v] && p'[v] == p0[v]
    {
      assert v != neighbor;
    }
    forall v | v in adjacency && v !in todo - {neighbor}
      ensures d'[v].Reached? && d'[v].d <= dx + adjacency[v]
    {
      if v != neighbor {
        assert v !in todo && d'[v] == d[v];
      }
    }
    forall v | v in keys && d'[v] == d0[v]
      ensures p'[v] == p0[v]
    {
      assert v != neighbor;
    }
    assert d'[current] == Reached(dx);
  }

  lemma RelaxImprovedQueue(keys: set<string>, adjacency: map<string, nat>, current: string, settled: set<string>,
                           dx: nat, d0: map<string, Distance>, h0: seq<Heap.Entry>,
                           todo: set<string>, d: map<string, Distance>, h: seq<Heap.Entry>,
                           neighbor: string, h': seq<Heap.Entry>)
    requires RelaxInvQueue(keys, current, settled, dx, d0, h0, d, h)
    requires neighbor in keys && neighbor in adjacency && Improves(dx + adjacency[neighbor], d[neighbor])
    requires forall e :: e in h' <==> e in h || e == Heap.Entry(neighbor, dx + adjacency[neighbor])
    requires current !in settled
    ensures RelaxInvQueue(keys, current, settled, dx, d0, h0, d[neighbor := Reached(dx + adjacency[neighbor])], h')
  {
    var w := dx + adjacency[neighbor];
    var d' := d[neighbor := Reached(w)];
    forall v | v in keys && d'[v] != d0[v]
      ensures d'[v].Reached? && Heap.Entry(v, d'[v].d) in h'
    {
      if v != neighbor {
        assert d'[v] == d[v];
      }
    }
    forall e | e in h'
      ensures e.element in keys && d'[e.element].Reached? && d'[e.element].d <= e.priority
    {
      if e != Heap.Entry(neighbor, w) {
        assert e in h;
      }
    }
    forall e | e in h' && e !in h0
      ensures dx <= e.priority
    {
      if e != Heap.Entry(neighbor, w) {
        assert e in h;
      }
    }
  }

  /**
   * What relaxing every out-edge of `current` (adjacency `adjacency`) does to
   * the distances `d`, predecessors `p` and heap `h`, giving `d'`, `p'`, `h'`:
   * every neighbour ends within one edge of `current`; a node whose distance
   * changed is an unsettled neighbour that improved through `current`, has
   * `current` as its predecessor and is in the heap at its new distance;
   * nothing else changes; the heap only grows, by entries no smaller than
   * the distance of `current`, and not at all when `current` was settled.
   */
  ghost predicate RelaxResult(keys: set<string>, adjacency: map<string, nat>, current: string, settled: set<string>,
                              d: map<string, Distance>, p: map<string, Option<string>>, h: seq<Heap.Entry>,
                              d': map<string, Distance>, p': map<string, Option<string>>, h': seq<Heap.Entry>)
    requires d.Keys == keys && p.Keys == keys && current in keys && d[current].Reached?
  {
    && RelaxMaps(keys, adjacency, current, settled, d, p, d', p')
    && RelaxQueue(keys, current, settled, d, d', h, h')
  }

  /** What relaxing the edges `adjacency` of `current` does to distances and predecessors. */
  ghost predicate RelaxMaps(keys: set<string>, adjacency: map<string, nat>, current: string, settled: set<string>,
                            d: map<string, Distance>, p: map<string, Option<string>>,
                            d': map<string, Distance>, p': map<string, Option<string>>)
    requires d.Keys == keys && p.Keys == keys && current in keys && d[current].Reached?
  {
    && d'.Keys == keys && p'.Keys == keys
    && d'[current] == d[current]
    && (forall v :: v in adjacency ==> v in keys && d'[v].Reached? && d'[v].d <= d[current].d + adjacency[v])
    && (forall v :: v in keys && d'[v] != d[v] ==>
          ImprovedVia(adjacency, current, settled, d[current].d, v, d[v], d'[v], p'[v]))
    && (forall v :: v in keys && d'[v] == d[v] ==> p'[v] == p[v])
  }

  /** What relaxing the edges of `current` does to the queue `h`, given the new distances `d'`. */
  ghost predicate RelaxQueue(keys: set<string>, current: string, settled: set<string>,
                             d: map<string, Distance>, d': map<string, Distance>,
                             h: seq<Heap.Entry>, h': seq<Heap.Entry>)
    requires d.Keys == keys && d'.Keys == keys && current in keys && d[current].Reached?
  {
    && (forall v :: v in keys && d'[v] != d[v] ==> d'[v].Reached? && Heap.Entry(v, d'[v].d) in h')
    && (forall e :: e in h ==> e in h')
    && (forall e :: e in h' ==> e.element in keys && d'[e.element].Reached? && d'[e.element].d <= e.priority)
    && (forall e :: e in h' && e !in h ==> d[current].d <= e.priority)
    && (current in settled ==> h' == h)
  }

  /** The graph is closed under its edges, and `d`, `p` cover its nodes with the start at distance 0. */
  ghost predicate Shape(nodes: map<string, map<string, nat>>, start: string,
                        d: map<string, Distance>, p: map<string, Option<string>>)
  {
    && Closed(nodes)
    && d.Keys == nodes.Keys && p.Keys == nodes.Keys
    && start in nodes && d[start] == Reached(0) && p[start] == None
  }

  /** Every heap entry names a reached node no closer than its distance. */
  ghost predicate QueueSound(keys: set<string>, d: map<string, Distance>, h: seq<Heap.Entry>)
  {
    forall e :: e in h ==> e.element in keys && e.element in d && d[e.element].Reached? && d[e.element].d <= e.priority
  }

  /** Settled nodes are reached, and a reached node still to be settled is in the heap at its distance. */
  ghost predicate Pending(keys: set<string>, d: map<string, Distance>, h: seq<Heap.Entry>, settled: set<string>)
    requires d.Keys == keys
  {
    && settled <= keys
    && (forall u :: u in settled ==> d[u].Reached?)
    && (forall u :: u in keys && d[u].Reached? && u !in settled ==> Heap.Entry(u, d[u].d) in h)
  }

  /** Every edge out of a settled node is relaxed. */
  ghost predicate Relaxed(nodes: map<string, map<string, nat>>, d: map<string, Distance>, settled: set<string>)
    requires d.Keys == nodes.Keys && settled <= nodes.Keys
    requires Closed(nodes)
    requires forall u :: u in settled ==> d[u].Reached?
  {
    forall u, v :: u in settled && v in nodes[u] ==> d[v].Reached? && d[v].d <= d[u].d + nodes[u][v]
  }

  /** Settled nodes are no farther than anything still queued. */
  ghost predicate SettledFirst(d: map<string, Distance>, h: seq<Heap.Entry>, settled: set<string>)
    requires forall u :: u in settled ==> u in d && d[u].Reached?
  {
    forall u, e :: u in settled && e in h ==> d[u].d <= e.priority
  }

  /**
   * The predecessor tree: apart from the start, a node is reached exactly
   * when it has a predecessor; a predecessor is settled, its edge is tight,
   * and it was settled before the node (by `rank`, the settling order).
   */
  ghost predicate Tree(nodes: map<string, map<string, nat>>, start: string,
                       d: map<string, Distance>, p: map<string, Option<string>>,
                       settled: set<string>, rank: map<string, nat>)
    requires d.Keys == nodes.Keys && p.Keys == nodes.Keys && settled <= nodes.Keys
  {
    && Linked(nodes, start, d, p)
    && Ranked(settled, rank)
    && TreeEdges(nodes, d, p, settled, rank)
  }

  /** Apart from the start, a node is reached exactly when it has a predecessor. */
  ghost predicate Linked(nodes: map<string, map<string, nat>>, start: string,
                         d: map<string, Distance>, p: map<string, Option<string>>)
    requires d.Keys == nodes.Keys && p.Keys == nodes.Keys
  {
    forall v {:trigger p[v]} :: v in nodes && v != start ==> (d[v].Reached? <==> p[v].Some?)
  }

  /** `rank` numbers the settled nodes below their count. */
  ghost predicate Ranked(settled: set<string>, rank: map<string, nat>)
  {
    rank.Keys == settled && (forall u :: u in settled ==> rank[u] < |settled|)
  }

  /**
   * Each predecessor link is a settled node with an edge whose weight
   * accounts for the distance, settled before the node it leads to.
   */
  ghost predicate TreeEdges(nodes: map<string, map<string, nat>>,
                            d: map<string, Distance>, p: map<string, Option<string>>,
                            settled: set<string>, rank: map<string, nat>)
    requires d.Keys == nodes.Keys && p.Keys == nodes.Keys && settled <= nodes.Keys && rank.Keys == settled
  {
    forall v {:trigger p[v]} :: v in nodes && p[v].Some? ==> TreeEdge(nodes, d, p, settled, rank, v)
  }

  /**
   * The predecessor of `v` is a settled node with an edge to `v` whose
   * weight accounts for the distance, settled before `v` if `v` is.
   */
  ghost predicate TreeEdge(nodes: map<string, map<string, nat>>,
                           d: map<string, Distance>, p: map<string, Option<string>>,
                           settled: set<string>, rank: map<string, nat>, v: string)
    requires d.Keys == nodes.Keys && p.Keys == nodes.Keys && settled <= nodes.Keys && rank.Keys == settled
    requires v in nodes && p[v].Some?
  {
    var u := p[v].value;
    u in settled && v in nodes[u] && d[v].Reached? && d[u].Reached? && d[v].d == d[u].d + nodes[u][v] &&
    (v in settled ==> rank[u] < rank[v])
  }

  /**
   * The invariant of Dijkstra's main loop over distances `d`, predecessors
   * `p` and heap `h`, with the ghost set of `settled` nodes (those already
   * dequeued) and the order `rank` in which they were settled.
   */
  ghost predicate SearchInv(nodes: map<string, map<string, nat>>, start: string,
                            d: map<string, Distance>, p: map<string, Option<string>>, h: seq<Heap.Entry>,
                            settled: set<string>, rank: map<string, nat>)
  {
    && Shape(nodes, start, d, p)
    && QueueSound(nodes.Keys, d, h)
    && Pending(nodes.Keys, d, h, settled)
    && Relaxed(nodes, d, settled)
    && SettledFirst(d, h, settled)
    && Tree(nodes, start, d, p, settled, rank)
  }

  /**
   * Popping the minimum entry `top` from `hb`, leaving `ha`, meets what the
   * relaxation of its node needs: the node is known and reached, the rest of
   * the heap still names reached nodes, and every neighbour that is settled
   * (all of them, when the node itself was) is already within one edge.
   */
  lemma SearchPop(nodes: map<string, map<string, nat>>, start: string,
                  d: map<string, Distance>, p: map<string, Option<string>>, hb: seq<Heap.Entry>,
                  settled: set<string>, rank: map<string, nat>,
                  top: Heap.Entry, ha: seq<Heap.Entry>)
    requires SearchInv(nodes, start, d, p, hb, settled, rank)
    requires top in hb && forall e :: e in hb ==> top.priority <= e.priority
    requires forall e :: e in ha ==> e in hb
    ensures top.element in nodes && d[top.element].Reached?
    ensures top.element !in settled ==> d[top.element].d == top.priority
    ensures forall u :: u in settled ==> d[u].d <= top.priority
    ensures QueueSound(nodes.Keys, d, ha)
    ensures forall v :: v in nodes[top.element] && (v in settled || top.element in settled) ==>
              d[v].Reached? && d[v].d <= d[top.element].d + nodes[top.element][v]
  {
    if top.element !in settled {
      assert Heap.Entry(top.element, d[top.element].d) in hb;
    }
  }

  /** The settled set and ranks after handling `current`: unchanged if it was settled, else extended by it. */
  predicate SettleStep(current: string, settled: set<string>, rank: map<string, nat>,
                       settled': set<string>, rank': map<string, nat>)
  {
    if current in settled then settled' == settled && rank' == rank
    else settled' == settled + {current} && rank' == rank[current := |settled|]
  }

  lemma StepShape(nodes: map<string, map<string, nat>>, start: string, current: string, settled: set<string>,
                  d: map<string, Distance>, p: map<string, Option<string>>, ha: seq<Heap.Entry>,
                  d': map<string, Distance>, p': map<string, Option<string>>, h': seq<Heap.Entry>)
    requires Shape(nodes, start, d, p) && current in nodes && d[current].Reached?
    requires RelaxResult(nodes.Keys, nodes[current], current, settled, d, p, ha, d', p', h')
    ensures Shape(nodes, start, d', p')
  {
  }

  lemma StepPending(keys: set<string>, adjacency: map<string, nat>, current: string,
                    settled: set<string>, rank: map<string, nat>, settled': set<string>, rank': map<string, nat>,
                    d: map<string, Distance>, p: map<string, Option<string>>,
                    top: Heap.Entry, hb: seq<Heap.Entry>, ha: seq<Heap.Entry>,
                    d': map<string, Distance>, p': map<string, Option<string>>, h': seq<Heap.Entry>)
    requires d.Keys == keys && p.Keys == keys && current == top.element && current in keys && d[current].Reached?
    requires Pending(keys, d, hb, settled)
    requires forall e :: e in hb ==> e in ha || e == top
    requires RelaxResult(keys, adjacency, current, settled, d, p, ha, d', p', h')
    requires SettleStep(current, settled, rank, settled', rank')
    ensures Pending(keys, d', h', settled')
  {
    forall u | u in keys && d'[u].Reached? && u !in settled'
      ensures Heap.Entry(u, d'[u].d) in h'
    {
      if d'[u] == d[u] {
        assert Heap.Entry(u, d[u].d) in hb;
      }
    }
  }

  lemma StepRelaxed(nodes: map<string, map<string, nat>>, current: string,
                    settled: set<string>, rank: map<string, nat>, settled': set<string>, rank': map<string, nat>,
                    d: map<string, Distance>, p: map<string, Option<string>>,
                    d': map<string, Distance>, p': map<string, Option<string>>)
    requires d.Keys == nodes.Keys && p.Keys == nodes.Keys && settled <= nodes.Keys
    requires Closed(nodes)
    requires forall u :: u in settled ==> d[u].Reached?
    requires current in nodes && d[current].Reached?
    requires Relaxed(nodes, d, settled)
    requires RelaxMaps(nodes.Keys, nodes[current], current, settled, d, p, d', p')
    requires SettleStep(current, settled, rank, settled', rank')
    ensures forall u :: u in settled' ==> d'[u] == d[u]
    ensures Relaxed(nodes, d', settled')
  {
    forall u | u in settled'
      ensures d'[u] == d[u]
    {
      if u != current {
        assert u in settled;
      }
    }
    forall u, v | u in settled' && v in nodes[u]
      ensures d'[v].Reached? && d'[v].d <= d'[u].d + nodes[u][v]
    {
      if u == current {
        assert v in nodes[current] && d'[current] == d[current];
      } else {
        assert u in settled && d'[u] == d[u];
        assert d[v].Reached? && d[v].d <= d[u].d + nodes[u][v];
        if d'[v] != d[v] {
          assert Improves(d'[v].d, d[v]);
        }
      }
    }
  }

  lemma StepSettledFirst(current: string,
                         settled: set<string>, rank: map<string, nat>, settled': set<string>, rank': map<string, nat>,
                         d: map<string, Distance>, p: map<string, Option<string>>,
                         top: Heap.Entry, hb: seq<Heap.Entry>, ha: seq<Heap.Entry>,
                         d': map<string, Distance>, p': map<string, Option<string>>, h': seq<Heap.Entry>)
    requires d.Keys == p.Keys && current == top.element && current in d && d[current].Reached?
    requires forall u :: u in settled ==> u in d && d[u].Reached?
    requires SettledFirst(d, hb, settled)
    requires forall e :: e in hb ==> top.priority <= e.priority
    requires forall e :: e in ha ==> e in hb
    requires current !in settled ==> d[current].d == top.priority
    requires forall u :: u in settled ==> d[u].d <= top.priority
    requires current in settled ==> h' == ha
    requires forall e :: e in ha ==> e in h'
    requires forall e :: e in h' && e !in ha ==> d[current].d <= e.priority
    requires SettleStep(current, settled, rank, settled', rank')
    requires forall u :: u in settled' ==> u in d' && d'[u] == d[u]
    ensures forall u :: u in settled' ==> u in d' && d'[u].Reached?
    ensures SettledFirst(d', h', settled')
  {
    forall u, e | u in settled' && e in h'
      ensures d'[u].d <= e.priority
    {
      if e in ha {
        assert e in hb;
        assert d[u].d <= top.priority <= e.priority;
      } else {
        assert d[u].d <= top.priority;
      }
    }
  }

  lemma StepTree(nodes: map<string, map<string, nat>>, start: string, current: string,
                 settled: set<string>, rank: map<string, nat>, settled': set<string>, rank': map<string, nat>,
                 d: map<string, Distance>, p: map<string, Option<string>>,
                 d': map<string, Distance>, p': map<string, Option<string>>)
    requires d.Keys == nodes.Keys && p.Keys == nodes.Keys && settled <= nodes.Keys
    requires current in nodes && d[current].Reached?
    requires Tree(nodes, start, d, p, settled, rank)
    requires RelaxMaps(nodes.Keys, nodes[current], current, settled, d, p, d', p')
    requires SettleStep(current, settled, rank, settled', rank')
    requires forall u :: u in settled' ==> d'[u] == d[u]
    ensures settled' <= nodes.Keys
    ensures Tree(nodes, start, d', p', settled', rank')
  {
    StepLinked(nodes, start, current, settled, d, p, d', p');
    StepRanked(current, settled, rank, settled', rank');
    StepTreeEdges(nodes, current, settled, rank, settled', rank', d, p, d', p');
  }

  lemma StepLinked(nodes: map<string, map<string, nat>>, start: string, current: string, settled: set<string>,
                   d: map<string, Distance>, p: map<string, Option<string>>,
                   d': map<string, Distance>, p': map<string, Option<string>>)
    requires d.Keys == nodes.Keys && p.Keys == nodes.Keys
    requires current in nodes && d[current].Reached?
    requires Linked(nodes, start, d, p)
    requires RelaxMaps(nodes.Keys, nodes[current], current, settled, d, p, d', p')
    ensures Linked(nodes, start, d', p')
  {
    forall v {:trigger p'[v]} | v in nodes && v != start
      ensures d'[v].Reached? <==> p'[v].Some?
    {
      if d'[v] == d[v] {
        assert p'[v] == p[v];
      }
    }
  }

  lemma StepRanked(current: string, settled: set<string>, rank: map<string, nat>,
                   settled': set<string>, rank': map<string, nat>)
    requires Ranked(settled, rank)
    requires SettleStep(current, settled, rank, settled', rank')
    ensures Ranked(settled', rank')
  {
    forall u | u in settled'
      ensures rank'[u] < |settled'|
    {
      if current !in settled {
        assert |settled'| == |settled| + 1;
      }
    }
  }

  lemma StepTreeEdges(nodes: map<string, map<string, nat>>, current: string,
                      settled: set<string>, rank: map<string, nat>, settled': set<string>, rank': map<string, nat>,
                      d: map<string, Distance>, p: map<string, Option<string>>,
                      d': map<string, Distance>, p': map<string, Option<string>>)
    requires d.Keys == nodes.Keys && p.Keys == nodes.Keys && settled <= nodes.Keys && rank.Keys == settled
    requires current in nodes && d[current].Reached?
    requires TreeEdges(nodes, d, p, settled, rank)
    requires forall u :: u in settled ==> rank[u] < |settled|
    requires RelaxMaps(nodes.Keys, nodes[current], current, settled, d, p, d', p')
    requires SettleStep(current, settled, rank, settled', rank')
    requires forall u :: u in settled' ==> d'[u] == d[u]
    ensures settled' <= nodes.Keys && rank'.Keys == settled'
    ensures TreeEdges(nodes, d', p', settled', rank')
  {
    SettleKeys(current, settled, rank, settled', rank');
    forall v {:trigger p'[v]} | v in nodes && p'[v].Some?
      ensures TreeEdge(nodes, d', p', settled', rank', v)
    {
      if d'[v] != d[v] {
        StepChangedEdge(nodes, current, settled, rank, settled', rank', d, p, d', p', v);
      } else {
        StepKeptEdge(nodes, current, settled, rank, settled', rank', d, p, d', p', v);
      }
    }
  }

  /** A node whose distance relaxation improved now hangs off `current`, which is settled. */
  lemma StepChangedEdge(nodes: map<string, map<string, nat>>, current: string,
                        settled: set<string>, rank: map<string, nat>, settled': set<string>, rank': map<string, nat>,
                        d: map<string, Distance>, p: map<string, Option<string>>,
                        d': map<string, Distance>, p': map<string, Option<string>>, v: string)
    requires d.Keys == nodes.Keys && p.Keys == nodes.Keys && settled <= nodes.Keys && rank.Keys == settled
    requires current in nodes && d[current].Reached?
    requires RelaxMaps(nodes.Keys, nodes[current], current, settled, d, p, d', p')
    requires SettleStep(current, settled, rank, settled', rank')
    requires v in nodes && d'[v] != d[v]
    ensures settled' <= nodes.Keys && rank'.Keys == settled'
    ensures p'[v].Some? && TreeEdge(nodes, d', p', settled', rank', v)
  {
    SettleKeys(current, settled, rank, settled', rank');
    assert p'[v] == Some(current) && v in nodes[current];
    assert current !in settled && v !in settled && v != current;
  }

  /** A predecessor link that relaxation left alone still satisfies `TreeEdges` after `current` is settled. */
  lemma StepKeptEdge(nodes: map<string, map<string, nat>>, current: string,
                     settled: set<string>, rank: map<string, nat>, settled': set<string>, rank': map<string, nat>,
                     d: map<string, Distance>, p: map<string, Option<string>>,
                     d': map<string, Distance>, p': map<string, Option<string>>, v: string)
    requires d.Keys == nodes.Keys && p.Keys == nodes.Keys && settled <= nodes.Keys && rank.Keys == settled
    requires d'.Keys == nodes.Keys && p'.Keys == nodes.Keys && current in nodes
    requires TreeEdges(nodes, d, p, settled, rank)
    requires forall u :: u in settled ==> rank[u] < |settled|
    requires SettleStep(current, settled, rank, settled', rank')
    requires forall u :: u in settled' ==> d'[u] == d[u]
    requires v in nodes && d'[v] == d[v] && p'[v] == p[v] && p'[v].Some?
    ensures settled' <= nodes.Keys && rank'.Keys == settled'
    ensures TreeEdge(nodes, d', p', settled', rank', v)
  {
    SettleKeys(current, settled, rank, settled', rank');
    var u := p[v].value;
    assert TreeEdge(nodes, d, p, settled, rank, v);
    if v in settled' && v !in settled {
      assert v == current && rank'[v] == |settled| && rank[u] < |settled|;
    }
  }

  lemma SettleKeys(current: string, settled: set<string>, rank: map<string, nat>,
                   settled': set<string>, rank': map<string, nat>)
    requires rank.Keys == settled
    requires SettleStep(current, settled, rank, settled', rank')
    ensures rank'.Keys == settled' && settled <= settled' && settled' <= settled + {current}
  {
  }

  /**
   * One iteration of the main loop keeps `SearchInv`: the minimum entry `top`
   * is popped from `hb` leaving `ha`, its node's edges are relaxed giving
   * `d'`, `p'`, `h'`, and the node becomes settled unless it already was.
   */
  lemma SearchStep(nodes: map<string, map<string, nat>>, start: string,
                   d: map<string, Distance>, p: map<string, Option<string>>, hb: seq<Heap.Entry>,
                   settled: set<string>, rank: map<string, nat>,
                   top: Heap.Entry, ha: seq<Heap.Entry>,
                   d': map<string, Distance>, p': map<string, Option<string>>, h': seq<Heap.Entry>,
                   settled': set<string>, rank': map<string, nat>)
    requires SearchInv(nodes, start, d, p, hb, settled, rank)
    requires top in hb && forall e :: e in hb ==> top.priority <= e.priority
    requires forall e :: e in hb ==> e in ha || e == top
    requires forall e :: e in ha ==> e in hb
    requires top.element in nodes && d[top.element].Reached?
    requires RelaxResult(nodes.Keys, nodes[top.element], top.element, settled, d, p, ha, d', p', h')
    requires SettleStep(top.element, settled, rank, settled', rank')
    ensures SearchInv(nodes, start, d', p', h', settled', rank')
  {
    var current := top.element;
    SearchPop(nodes, start, d, p, hb, settled, rank, top, ha);
    StepShape(nodes, start, current, settled, d, p, ha, d', p', h');
    StepPending(nodes.Keys, nodes[current], current, settled, rank, settled', rank', d, p, top, hb, ha, d', p', h');
    StepRelaxed(nodes, current, settled, rank, settled', rank', d, p, d', p');
    StepSettledFirst(current, settled, rank, settled', rank', d, p, top, hb, ha, d', p', h');
    StepTree(nodes, start, current, settled, rank, settled', rank', d, p, d', p');
  }

  /** Adding one occurrence of `x` to `h` gives exactly the elements of `h` and `x`. */
  lemma AddOneMembership(h: seq<Heap.Entry>, h': seq<Heap.Entry>, x: Heap.Entry)
    requires multiset(h') == multiset(h) + multiset{x}
    ensures forall e :: e in h' <==> e in h || e == x
  {
    assert forall e :: e in h' <==> e in multiset(h');
  }

  /** Removing one occurrence of `x` from `hb` leaves the other elements, and only those of `hb`. */
  lemma RemoveOneMembership(hb: seq<Heap.Entry>, ha: seq<Heap.Entry>, x: Heap.Entry)
    requires multiset(ha) == multiset(hb) - multiset{x}
    ensures forall e :: e in hb ==> e in ha || e == x
    ensures forall e :: e in ha ==> e in hb
  {
    forall e | e in hb && e != x
      ensures e in ha
    {
      assert e in multiset(hb);
      assert multiset(ha)[e] == multiset(hb)[e];
    }
    forall e | e in ha
      ensures e in hb
    {
      assert e in multiset(ha);
    }
  }

  /** Before the main loop: every node unreached except the start at 0, and the heap holds just the start. */
  lemma SearchInit(nodes: map<string, map<string, nat>>, start: string,
                   d: map<string, Distance>, p: map<string, Option<string>>, h: seq<Heap.Entry>)
    requires Closed(nodes)
    requires start in nodes && d.Keys == nodes.Keys && p.Keys == nodes.Keys
    requires d[start] == Reached(0) && forall v :: v in nodes && v != start ==> d[v] == Unreached
    requires forall v :: v in nodes ==> p[v] == None
    requires multiset(h) == multiset{Heap.Entry(start, 0)}
    ensures SearchInv(nodes, start, d, p, h, {}, map[])
  {
    assert forall e :: e in h ==> e in multiset(h);
    assert Heap.Entry(start, 0) in multiset(h);
  }

  /**
   * When the heap is empty every reached node is settled, so every edge out
   * of a reached node is relaxed, and predecessor chains from reached nodes
   * arrive at the start within as many steps as there are nodes.
   */
  lemma SearchDone(nodes: map<string, map<string, nat>>, start: string,
                   d: map<string, Distance>, p: map<string, Option<string>>,
                   settled: set<string>, rank: map<string, nat>)
    requires SearchInv(nodes, start, d, p, [], settled, rank)
    ensures d.Keys == nodes.Keys && p.Keys == nodes.Keys
    ensures d[start] == Reached(0) && p[start] == None
    ensures forall v :: v in nodes && v != start ==> (d[v].Reached? <==> p[v].Some?)
    ensures forall u, v :: u in nodes && d[u].Reached? && v in nodes[u] ==>
              d[v].Reached? && d[v].d <= d[u].d + nodes[u][v]
    ensures forall v :: v in nodes && p[v].Some? ==>
              var u := p[v].value;
              u in nodes && v in nodes[u] && d[u].Reached? && d[v].Reached? && d[v].d == d[u].d + nodes[u][v]
    ensures forall v :: v in nodes && d[v].Reached? ==> ChainReaches(p, v, start, |nodes.Keys|)
  {
    Sets.SubsetCard(settled, nodes.Keys);
    ChainsFromSettled(p, settled, rank, start, |nodes.Keys|);
    assert forall v :: v in nodes && d[v].Reached? ==> v in settled;
  }

  class Graph {
    /** Adjacency: each node maps its out-neighbours to edge weights. */
    var nodes: map<string, map<string, nat>>

    /** Every edge ends at a known node. */
    ghost predicate Valid()
      reads this
    {
      Closed(nodes)
    }

    constructor ()
      ensures Valid() && nodes == map[]
    {
      nodes := map[];
    }

    /** Gives the node an empty adjacency, replacing any it had. */
    method AddNode(node: string)
      requires Valid()
      modifies this
      ensures Valid()
      ensures nodes == old(nodes)[node := map[]]
    {
      nodes := nodes[node := map[]];
    }

    /** Sets the weight of source -> destination when both are known; otherwise nothing changes. */
    method AddEdge(source: string, destination: string, weight: nat)
      requires Valid()
      modifies this
      ensures Valid()
      ensures source in old(nodes) && destination in old(nodes) ==>
                && nodes.Keys == old(nodes).Keys
                && nodes[source] == old(nodes)[source][destination := weight]
                && forall u :: u in nodes && u != source ==> nodes[u] == old(nodes)[u]
      ensures !(source in old(nodes) && destination in old(nodes)) ==> nodes == old(nodes)
    {
      if source !in nodes || destination !in nodes {
        return;
      }
      var adjacency: map<string, nat> := nodes[source][destination := weight];
      nodes := nodes[source := adjacency];
    }

    /**
     * The relaxation loop for one dequeued node: every out-edge of `current`
     * is relaxed; a neighbour whose distance improves gets `current` as its
     * predecessor and is pushed with its new distance. Neighbours already
     * settled never improve.
     */
    static method RelaxNeighbors(current: string, adjacency: map<string, nat>,
                                 distances: map<string, Distance>, previous: map<string, Option<string>>,
                                 queue: Heap.MinHeap, ghost settled: set<string>)
      returns (distances': map<string, Distance>, previous': map<string, Option<string>>)
      requires queue.Valid()
      requires adjacency.Keys <= distances.Keys && previous.Keys == distances.Keys
      requires current in distances && distances[current].Reached?
      requires QueueSound(distances.Keys, distances, queue.heap)
      requires forall v :: v in adjacency && (v in settled || current in settled) ==>
                 distances[v].Reached? && distances[v].d <= distances[current].d + adjacency[v]
      modifies queue
      ensures queue.Valid()
      ensures RelaxResult(distances.Keys, adjacency, current, settled, distances, previous, old(queue.heap),
                          distances', previous', queue.heap)
    {
      distances', previous' := distances, previous;
      ghost var keys := distances.Keys;
      ghost var dx := distances[current].d;
      ghost var heap0 := queue.heap;
      var todo := adjacency.Keys;
      while todo != {}
        invariant queue.Valid()
        invariant RelaxInv(keys, adjacency, current, settled, dx, distances, previous, heap0,
                           todo, distances', previous', queue.heap)
      {
        var neighbor :| neighbor in todo;
        var weight := adjacency[neighbor];
        var altDistance := distances'[current].d + weight;
        if Improves(altDistance, distances'[neighbor]) {
          ghost var d, p, h := distances', previous', queue.heap;
          distances' := distances'[neighbor := Reached(altDistance)];
          previous' := previous'[neighbor := Some(current)];
          queue.Enqueue(neighbor, altDistance);
          AddOneMembership(h, queue.heap, Heap.Entry(neighbor, altDistance));
          RelaxImproved(keys, adjacency, current, settled, dx, distances, previous, heap0,
                        todo, d, p, h, neighbor, distances', previous', queue.heap);
        } else {
          RelaxKept(keys, adjacency, current, settled, dx, distances, previous, heap0,
                    todo, distances', previous', queue.heap, neighbor);
        }
        todo := todo - {neighbor};
      }
      RelaxDone(keys, adjacency, current, settled, dx, distances, previous, heap0, distances', previous', queue.heap);
    }

    /** Every node starts unreached and without a predecessor. */
    method Unvisited() returns (distances: map<string, Distance>, previous: map<string, Option<string>>)
      ensures distances.Keys == nodes.Keys && previous.Keys == nodes.Keys
      ensures forall v :: v in nodes ==> distances[v] == Unreached && previous[v] == None
    {
      distances := map[];
      previous := map[];
      var keys := nodes.Keys;
      while keys != {}
        invariant keys <= nodes.Keys
        invariant distances.Keys == nodes.Keys - keys && previous.Keys == nodes.Keys - keys
        invariant forall v :: v in distances ==> distances[v] == Unreached && previous[v] == None
      {
        var node :| node in keys;
        distances := distances[node := Unreached];
        previous := previous[node := None];
        keys := keys - {node};
      }
    }

    /**
     * One turn of Dijkstra's main loop: pop the closest entry and relax the
     * edges of its node, which becomes settled unless it already was (a
     * stale entry). Either the settled set grows or the heap shrinks.
     */
    method SettleNext(ghost start: string, queue: Heap.MinHeap,
                      distances: map<string, Distance>, previous: map<string, Option<string>>,
                      ghost settled: set<string>, ghost rank: map<string, nat>)
      returns (distances': map<string, Distance>, previous': map<string, Option<string>>,
               ghost settled': set<string>, ghost rank': map<string, nat>)
      requires queue.Valid() && queue.heap != []
      requires SearchInv(nodes, start, distances, previous, queue.heap, settled, rank)
      modifies queue
      ensures queue.Valid()
      ensures SearchInv(nodes, start, distances', previous', queue.heap, settled', rank')
      ensures || nodes.Keys - settled' < nodes.Keys - settled
              || (settled' == settled && |queue.heap| < |old(queue.heap)|)
    {
      ghost var heapBefore := queue.heap;
      var popped := queue.DequeueFixed();
      var current := popped.value.element;
      ghost var heapAfterPop := queue.heap;
      RemoveOneMembership(heapBefore, heapAfterPop, popped.value);
      SearchPop(nodes, start, distances, previous, heapBefore, settled, rank, popped.value, heapAfterPop);
      distances', previous' := RelaxNeighbors(current, nodes[current], distances, previous, queue, settled);
      settled', rank' := settled, rank;
      if current !in settled {
        settled', rank' := settled + {current}, rank[current := |settled|];
        assert current in (nodes.Keys - settled) - (nodes.Keys - settled');
      }
      SearchStep(nodes, start, distances, previous, heapBefore, settled, rank, popped.value, heapAfterPop,
                 distances', previous', queue.heap, settled', rank');
    }

    /** Dijkstra's main loop: settle nodes until the heap is empty, keeping `SearchInv`. */
    method SettleAll(ghost start: string, queue: Heap.MinHeap,
                     distances: map<string, Distance>, previous: map<string, Option<string>>)
      returns (distances': map<string, Distance>, previous': map<string, Option<string>>,
               ghost settled: set<string>, ghost rank: map<string, nat>)
      requires queue.Valid() && SearchInv(nodes, start, distances, previous, queue.heap, {}, map[])
      modifies queue
      ensures SearchInv(nodes, start, distances', previous', [], settled, rank)
    {
      distances', previous' := distances, previous;
      settled, rank := {}, map[];
      while !queue.IsEmpty()
        invariant queue.Valid()
        invariant SearchInv(nodes, start, distances', previous', queue.heap, settled, rank)
        decreases nodes.Keys - settled, |queue.heap|
      {
        distances', previous', settled, rank := SettleNext(start, queue, distances', previous', settled, rank);
      }
    }

    /**
     * Distances and predecessors from `start`. On return every edge out of a
     * reached node is relaxed, the start is at distance 0 with no
     * predecessor, every other node is reached exactly when it has a
     * predecessor, that predecessor's edge is tight, and following
     * predecessors from any reached node arrives at the start.
     */
    method DijkstraShortestPath(start: string) returns (distances: map<string, Distance>, previous: map<string, Option<string>>)
      requires Valid() && start in nodes
      ensures distances.Keys == nodes.Keys && previous.Keys == nodes.Keys
      ensures distances[start] == Reached(0) && previous[start] == None
      ensures forall u, v :: u in nodes && distances[u].Reached? && v in nodes[u] ==>
                distances[v].Reached? && distances[v].d <= distances[u].d + nodes[u][v]
      ensures forall v :: v in nodes && v != start ==> (distances[v].Reached? <==> previous[v].Some?)
      ensures forall v :: v in nodes && previous[v].Some? ==>
                var u := previous[v].value;
                u in nodes && v in nodes[u] && distances[u].Reached? && distances[v].Reached? &&
                distances[v].d == distances[u].d + nodes[u][v]
      ensures forall v :: v in nodes && distances[v].Reached? ==> ChainReaches(previous, v, start, |nodes.Keys|)
    {
      distances, previous := Unvisited();
      distances := distances[start := Reached(0)];
      var queue := new Heap.MinHeap();
      queue.Enqueue(start, 0);
      SearchInit(nodes, start, distances, previous, queue.heap);
      ghost var settled, rank;
      distances, previous, settled, rank := SettleAll(start, queue, distances, previous);
      SearchDone(nodes, start, distances, previous, settled, rank);
    }
  }
}
