/** The canonical undirected edge pool of playground/python/src/structures/graph.py:
    PoolEdges stores each edge once, as the pair (min, max), and refuses
    self-loops and duplicates; Graph adds a running total of edge prices. */
module EdgePool {

  /** The two RuntimeErrors the pool raises. */
  datatype Error = SelfLoop | DuplicateEdge

  datatype Outcome = Pass | Fail(error: Error)

  /** The Edge dataclass. With order=True it compares as the tuple (price, src, dst). */
  datatype Edge = Edge(price: real, src: int, dst: int)

  predicate EdgeLess(x: Edge, y: Edge) {
    x.price < y.price
    || (x.price == y.price && (x.src < y.src || (x.src == y.src && x.dst < y.dst)))
  }

  /** The dataclass ordering is a strict total order on edges. */
  lemma EdgeOrderIsStrictTotal(x: Edge, y: Edge, z: Edge)
    ensures !EdgeLess(x, x)
    ensures EdgeLess(x, y) ==> !EdgeLess(y, x)
    ensures EdgeLess(x, y) && EdgeLess(y, z) ==> EdgeLess(x, z)
    ensures x != y ==> EdgeLess(x, y) || EdgeLess(y, x)
  {
  }

  type Pair = (int, int)

  /** The orientation the pool stores: the smaller endpoint first. */
  function Canonical(a: int, b: int): (e: Pair)
    ensures e.0 <= e.1
    ensures e == (a, b) || e == (b, a)
    ensures a != b ==> e.0 < e.1
  {
    if a < b then (a, b) else (b, a)
  }

  /** Canonical forgets the orientation of its argument. */
  lemma CanonicalIsSymmetric(a: int, b: int)
    ensures Canonical(a, b) == Canonical(b, a)
  {
  }

  class PoolEdges {
    var edges: set<Pair>

    /** Every stored pair is strictly ordered, so no self-loop is stored and
        no edge is stored in both orientations. */
    ghost predicate Valid()
      reads this
    {
      forall e | e in edges :: e.0 < e.1
    }

    constructor()
      ensures Valid() && edges == {}
    {
      edges := {};
    }

    /** PoolEdges.add: raises on a self-loop, raises when the edge is already
        stored in either orientation, and otherwise stores its canonical pair. */
    method Add(a: int, b: int) returns (r: Outcome)
      requires Valid()
      modifies this
      ensures Valid()
      ensures r == Fail(SelfLoop) <==> a == b
      ensures a != b && old(Contains(a, b)) ==> r == Fail(DuplicateEdge)
      ensures r == Pass <==> a != b && !old(Contains(a, b))
      ensures r.Fail? ==> edges == old(edges)
      ensures r == Pass ==> edges == old(edges) + {Canonical(a, b)}
    {
      if a == b {
        return Fail(SelfLoop);
      }
      var pair := Canonical(a, b);
      if pair in edges {
        return Fail(DuplicateEdge);
      }
      edges := edges + {pair};
      return Pass;
    }

    /** PoolEdges.search: the stored edges that have `node` as an endpoint. */
    method Search(node: int) returns (found: set<Pair>)
      ensures found <= edges
      ensures forall e | e in edges :: e in found <==> (e.0 == node || e.1 == node)
    {
      found := {};
      var rest := edges;
      while rest != {}
        invariant rest <= edges && found <= edges
        invariant found !! rest
        invariant forall e | e in edges && e !in rest :: e in found <==> (e.0 == node || e.1 == node)
        decreases rest
      {
        var e :| e in rest;
        if node == e.0 || node == e.1 {
          found := found + {e};
        }
        rest := rest - {e};
      }
    }

    /** PoolEdges.__contains__: membership that ignores orientation. */
    function Contains(a: int, b: int): (r: bool)
      reads this
      requires Valid()
      ensures r <==> (a, b) in edges || (b, a) in edges
      ensures r ==> a != b
    {
      Canonical(a, b) in edges
    }
  }

  function PairOf(e: Edge): (p: Pair) {
    (e.src, e.dst)
  }

  /** The pairs of a sequence of edges. */
  function Pairs(s: seq<Edge>): (ps: set<Pair>)
    ensures forall p | p in ps :: exists i | 0 <= i < |s| :: PairOf(s[i]) == p
  {
    if s == [] then {} else Pairs(s[..|s| - 1]) + {PairOf(s[|s| - 1])}
  }

  /** Sum of the prices of a sequence of edges. */
  function PriceSum(s: seq<Edge>): (total: real) {
    if s == [] then 0.0 else PriceSum(s[..|s| - 1]) + s[|s| - 1].price
  }

  lemma {:induction false} PairsHoldsEach(s: seq<Edge>, i: nat)
    requires i < |s|
    ensures PairOf(s[i]) in Pairs(s)
  {
    if i < |s| - 1 {
      PairsHoldsEach(s[..|s| - 1], i);
    }
  }

  lemma AppendEdge(s: seq<Edge>, e: Edge)
    ensures Pairs(s + [e]) == Pairs(s) + {PairOf(e)}
    ensures PriceSum(s + [e]) == PriceSum(s) + e.price
  {
    assert (s + [e])[..|s|] == s;
  }

  /** Graph: a PoolEdges (the `pool` it inherits) with a running total length.
      `accepted` records, in order, the canonical edge and price of every add
      that did not raise. */
  class Graph {
    const pool: PoolEdges
    var totalLength: real
    ghost var accepted: seq<Edge>

    /** totalLength is the sum of the prices of all accepted adds, and the
        pool holds exactly their pairs. */
    ghost predicate Valid()
      reads this, pool
    {
      pool.Valid() && pool.edges == Pairs(accepted) && totalLength == PriceSum(accepted)
    }

    /** No edge was accepted twice: totalLength then counts every stored edge
        exactly once. */
    ghost predicate CountsEachEdgeOnce()
      reads this
    {
      forall i, j | 0 <= i < j < |accepted| :: PairOf(accepted[i]) != PairOf(accepted[j])
    }

    /** Graph.__init__: an empty pool and total length 0. */
    constructor()
      ensures Valid() && fresh(pool)
      ensures pool.edges == {} && totalLength == 0.0 && accepted == []
      ensures CountsEachEdgeOnce()
    {
      pool := new PoolEdges();
      totalLength := 0.0;
      accepted := [];
    }

    /** Graph.add as written (price defaults to 0): the duplicate test looks up the pair as given,
        not its canonical form, so a stored edge offered in reverse order is
        accepted again and its price is added a second time. */
    method Add(a: int, b: int, price: real := 0.0) returns (r: Outcome)
      requires Valid()
      modifies this, pool
      ensures Valid()
      ensures r == Fail(SelfLoop) <==> a == b
      ensures r == Fail(DuplicateEdge) <==> a < b && old(pool.Contains(a, b))
      ensures r == Pass <==> a != b && (a, b) !in old(pool.edges)
      ensures a > b ==> r == Pass
      ensures r.Fail? ==> pool.edges == old(pool.edges) && totalLength == old(totalLength)
      ensures r.Fail? ==> accepted == old(accepted)
      ensures r == Pass ==> pool.edges == old(pool.edges) + {Canonical(a, b)}
      ensures r == Pass ==> totalLength == old(totalLength) + price
      ensures r == Pass ==> accepted == old(accepted) + [Edge(price, Canonical(a, b).0, Canonical(a, b).1)]
    {
      if a == b {
        return Fail(SelfLoop);
      }
      var pair := Canonical(a, b);
      if (a, b) in pool.edges {
        return Fail(DuplicateEdge);
      }
      pool.edges := pool.edges + {pair};
      totalLength := totalLength + price;
      var e := Edge(price, pair.0, pair.1);
      AppendEdge(accepted, e);
      accepted := accepted + [e];
      return Pass;
    }

    /** Graph.add with the duplicate test on the canonical pair, as PoolEdges.add
        does it: an edge is never accepted twice, so totalLength stays the sum
        of the prices of the distinct stored edges. */
    method AddCanonical(a: int, b: int, price: real := 0.0) returns (r: Outcome)
      requires Valid()
      modifies this, pool
      ensures Valid()
      ensures r == Fail(SelfLoop) <==> a == b
      ensures r == Fail(DuplicateEdge) <==> a != b && old(pool.Contains(a, b))
      ensures r == Pass <==> a != b && !old(pool.Contains(a, b))
      ensures r.Fail? ==> pool.edges == old(pool.edges) && totalLength == old(totalLength)
      ensures r.Fail? ==> accepted == old(accepted)
      ensures r == Pass ==> pool.edges == old(pool.edges) + {Canonical(a, b)}
      ensures r == Pass ==> totalLength == old(totalLength) + price
      ensures r == Pass ==> accepted == old(accepted) + [Edge(price, Canonical(a, b).0, Canonical(a, b).1)]
      ensures old(CountsEachEdgeOnce()) ==> CountsEachEdgeOnce()
    {
      if a == b {
        return Fail(SelfLoop);
      }
      var pair := Canonical(a, b);
      if pair in pool.edges {
        return Fail(DuplicateEdge);
      }
      forall i | 0 <= i < |accepted| ensures PairOf(accepted[i]) != pair {
        PairsHoldsEach(accepted, i);
      }
      pool.edges := pool.edges + {pair};
      totalLength := totalLength + price;
      var e := Edge(price, pair.0, pair.1);
      AppendEdge(accepted, e);
      accepted := accepted + [e];
      return Pass;
    }
  }

  /** Adding (1, 2) and then (2, 1) with Graph.add: both calls succeed, the
      pool still holds the one edge (1, 2), and its price is counted twice. */
  method ReversedReAdd() returns (g: Graph, first: Outcome, second: Outcome)
    ensures first == Pass && second == Pass
    ensures g.pool.edges == {(1, 2)} && g.totalLength == 10.0
    ensures !g.CountsEachEdgeOnce()
  {
    g := new Graph();
    first := g.Add(1, 2, 5.0);
    second := g.Add(2, 1, 5.0);
    assert PairOf(g.accepted[0]) == PairOf(g.accepted[1]);
  }

  /** The same two calls with the canonical duplicate test: the second one
      raises DuplicateEdge and the total stays at the one price. */
  method ReversedReAddCanonical() returns (g: Graph, first: Outcome, second: Outcome)
    ensures first == Pass && second == Fail(DuplicateEdge)
    ensures g.pool.edges == {(1, 2)} && g.totalLength == 5.0
    ensures g.CountsEachEdgeOnce()
  {
    g := new Graph();
    first := g.AddCanonical(1, 2, 5.0);
    second := g.AddCanonical(2, 1, 5.0);
  }
}
