/** The weighted undirected graph the clustering contracts in place: live
    node ids in insertion order, and a symmetric adjacency map from each
    live node to its neighbours and the weight of the edge to each. */
module Graphs {
  import opened Seqs

  type Adj = map<nat, map<nat, real>>

  datatype Graph = Graph(nodes: seq<nat>, adj: Adj)

  /** Weight of the edge x-y, where an absent edge counts as 0. */
  function W(adj: Adj, x: nat, y: nat): real
  {
    if x in adj && y in adj[x] then adj[x][y] else 0.0
  }

  /** Every edge is stored in both directions with one weight, that weight is
      positive, and the far endpoint is a node of the graph. */
  ghost predicate Symmetric(adj: Adj)
  {
    && (forall x, y :: W(adj, x, y) == W(adj, y, x))
    && (forall x, y {:trigger y in adj[x]} :: x in adj && y in adj[x] ==> y in adj && adj[x][y] > 0.0)
  }

  ghost predicate Valid(g: Graph)
  {
    && Distinct(g.nodes)
    && (forall x :: x in g.adj <==> x in g.nodes)
    && Symmetric(g.adj)
  }

  /** The adjacency with `a` and every edge incident to it dropped. */
  function RemoveAdj(adj: Adj, a: nat): Adj
  {
    map x | x in adj && x != a :: adj[x] - {a}
  }

  lemma RemoveAdjWeights(adj: Adj, a: nat)
    requires Symmetric(adj)
    ensures Symmetric(RemoveAdj(adj, a))
    ensures forall x, y :: x != a && y != a ==> W(RemoveAdj(adj, a), x, y) == W(adj, x, y)
    ensures forall y :: W(RemoveAdj(adj, a), a, y) == 0.0 && W(RemoveAdj(adj, a), y, a) == 0.0
  {
    var h := RemoveAdj(adj, a);
    forall x, y ensures W(h, x, y) == (if x == a || y == a then 0.0 else W(adj, x, y)) {
      if x in adj && x != a {
        assert h[x] == adj[x] - {a};
      }
    }
    forall x, y | x in h && y in h[x] ensures y in h && h[x][y] > 0.0 {
      assert h[x] == adj[x] - {a};
      assert y in adj[x];
    }
  }

  /** Drops `a` and every edge incident to it, the other nodes keeping
      their order. */
  function RemoveNode(g: Graph, a: nat): (h: Graph)
    ensures h.adj.Keys == g.adj.Keys - {a}
    ensures a !in h.nodes
  {
    Graph(Without(g.nodes, a), RemoveAdj(g.adj, a))
  }

  /** Removing a node keeps the graph valid, removes exactly that node, and
      leaves every edge between two other nodes as it was. */
  lemma RemoveNodeValid(g: Graph, a: nat)
    requires Valid(g)
    ensures var h := RemoveNode(g, a);
      && Valid(h)
      && (forall x :: x in h.nodes <==> x in g.nodes && x != a)
      && (a in g.nodes ==> |h.nodes| == |g.nodes| - 1)
      && multiset(h.nodes) == multiset(g.nodes) - multiset{a}
    ensures forall x, y :: x != a && y != a ==> W(RemoveNode(g, a).adj, x, y) == W(g.adj, x, y)
    ensures forall y :: W(RemoveNode(g, a).adj, a, y) == 0.0 && W(RemoveNode(g, a).adj, y, a) == 0.0
  {
    WithoutDistinct(g.nodes, a);
    RemoveAdjWeights(g.adj, a);
  }

  /** The neighbour row of the node that replaces `a` and `b`: to every
      other neighbour of either, the sum of the two edge weights. */
  function MergedRow(adj: Adj, a: nat, b: nat): map<nat, real>
    requires a in adj && b in adj
  {
    map y | y in (adj[a].Keys + adj[b].Keys) - {a, b} :: W(adj, a, y) + W(adj, b, y)
  }

  /** The adjacency after contracting `a` and `b` into `u`. */
  function ContractAdj(adj: Adj, a: nat, b: nat, u: nat): Adj
    requires a in adj && b in adj
  {
    var row := MergedRow(adj, a, b);
    var rest := map x | x in adj && x != a && x != b ::
      (adj[x] - {a, b}) + (if x in row then map[u := row[x]] else map[]);
    rest[u := row]
  }

  lemma ContractAdjWeights(adj: Adj, a: nat, b: nat, u: nat)
    requires Symmetric(adj) && a in adj && b in adj && a != b && u !in adj
    ensures forall y :: y != a && y != b && y != u ==>
      W(ContractAdj(adj, a, b, u), u, y) == W(adj, a, y) + W(adj, b, y)
    ensures forall x :: x != a && x != b && x != u ==>
      W(ContractAdj(adj, a, b, u), x, u) == W(adj, a, x) + W(adj, b, x)
    ensures W(ContractAdj(adj, a, b, u), u, u) == 0.0
    ensures forall x, y :: x != a && x != b && x != u && y != a && y != b && y != u ==>
      W(ContractAdj(adj, a, b, u), x, y) == W(adj, x, y)
    ensures forall y :: W(ContractAdj(adj, a, b, u), a, y) == 0.0 && W(ContractAdj(adj, a, b, u), y, a) == 0.0
    ensures forall y :: W(ContractAdj(adj, a, b, u), b, y) == 0.0 && W(ContractAdj(adj, a, b, u), y, b) == 0.0
  {
    ContractRowWeights(adj, a, b, u);
    ContractColumnWeights(adj, a, b, u);
    ContractOtherWeights(adj, a, b, u);
    ContractGoneWeights(adj, a, b, u);
  }

  /** The new node's row holds the summed weights. */
  lemma ContractRowWeights(adj: Adj, a: nat, b: nat, u: nat)
    requires Symmetric(adj) && a in adj && b in adj && u !in adj
    ensures forall y :: y != a && y != b && y != u ==>
      W(ContractAdj(adj, a, b, u), u, y) == W(adj, a, y) + W(adj, b, y)
    ensures W(ContractAdj(adj, a, b, u), u, u) == 0.0
  {
    var h := ContractAdj(adj, a, b, u);
    var row := MergedRow(adj, a, b);
    assert h[u] == row;
    assert u !in adj[a] && u !in adj[b];
    forall y | y != a && y != b && y != u
      ensures W(h, u, y) == W(adj, a, y) + W(adj, b, y)
    {
      if y !in row {
        assert y !in adj[a] && y !in adj[b];
      }
    }
  }

  /** Every other node's edge to the new node holds the summed weight. */
  lemma ContractColumnWeights(adj: Adj, a: nat, b: nat, u: nat)
    requires Symmetric(adj) && a in adj && b in adj && u !in adj
    ensures forall x :: x != a && x != b && x != u ==>
      W(ContractAdj(adj, a, b, u), x, u) == W(adj, a, x) + W(adj, b, x)
  {
    var h := ContractAdj(adj, a, b, u);
    var row := MergedRow(adj, a, b);
    forall x | x != a && x != b && x != u
      ensures W(h, x, u) == W(adj, a, x) + W(adj, b, x)
    {
      if x in adj {
        assert h[x] == (adj[x] - {a, b}) + (if x in row then map[u := row[x]] else map[]);
        if x !in row {
          assert x !in adj[a] && x !in adj[b];
        }
      } else {
        assert W(adj, x, a) == 0.0 && W(adj, x, b) == 0.0;
      }
    }
  }

  /** Edges between two untouched nodes keep their weight. */
  lemma ContractOtherWeights(adj: Adj, a: nat, b: nat, u: nat)
    requires a in adj && b in adj && u !in adj
    ensures forall x, y :: x != a && x != b && x != u && y != a && y != b && y != u ==>
      W(ContractAdj(adj, a, b, u), x, y) == W(adj, x, y)
  {
    var h := ContractAdj(adj, a, b, u);
    var row := MergedRow(adj, a, b);
    forall x, y | x != a && x != b && x != u && y != a && y != b && y != u
      ensures W(h, x, y) == W(adj, x, y)
    {
      if x in adj {
        assert h[x] == (adj[x] - {a, b}) + (if x in row then map[u := row[x]] else map[]);
      }
    }
  }

  /** The contracted nodes keep no edge. */
  lemma ContractGoneWeights(adj: Adj, a: nat, b: nat, u: nat)
    requires a in adj && b in adj && a != b && u !in adj
    ensures forall y :: W(ContractAdj(adj, a, b, u), a, y) == 0.0 && W(ContractAdj(adj, a, b, u), y, a) == 0.0
    ensures forall y :: W(ContractAdj(adj, a, b, u), b, y) == 0.0 && W(ContractAdj(adj, a, b, u), y, b) == 0.0
  {
    var h := ContractAdj(adj, a, b, u);
    var row := MergedRow(adj, a, b);
    assert a !in h && b !in h;
    forall y ensures W(h, y, a) == 0.0 && W(h, y, b) == 0.0 {
      if y in adj && y != a && y != b {
        assert h[y] == (adj[y] - {a, b}) + (if y in row then map[u := row[y]] else map[]);
      }
    }
  }

  lemma ContractAdjSymmetric(adj: Adj, a: nat, b: nat, u: nat)
    requires Symmetric(adj) && a in adj && b in adj && a != b && u !in adj
    ensures Symmetric(ContractAdj(adj, a, b, u))
  {
    var row := MergedRow(adj, a, b);
    var h := ContractAdj(adj, a, b, u);
    ContractAdjWeights(adj, a, b, u);
    forall x, y ensures W(h, x, y) == W(h, y, x) {
      if x == u && y != a && y != b && y != u {
        assert W(h, y, u) == W(adj, a, y) + W(adj, b, y);
      } else if y == u && x != a && x != b && x != u {
        assert W(h, u, x) == W(adj, a, x) + W(adj, b, x);
      }
    }
    forall x, y | x in h && y in h[x] ensures y in h && h[x][y] > 0.0 {
      if x == u {
        assert h[x] == row;
        assert y in adj[a] || y in adj[b];
        assert W(adj, a, y) >= 0.0 && W(adj, b, y) >= 0.0;
      } else {
        assert x in adj && x != a && x != b;
        assert h[x] == (adj[x] - {a, b}) + (if x in row then map[u := row[x]] else map[]);
        if y == u {
          assert x in row;
          assert W(adj, a, x) >= 0.0 && W(adj, b, x) >= 0.0;
        } else {
          assert y in adj[x];
        }
      }
    }
  }

  lemma ContractNodes(nodes: seq<nat>, a: nat, b: nat, u: nat)
    requires Distinct(nodes) && a in nodes && b in nodes && a != b && u !in nodes
    ensures Distinct(Without(Without(nodes, a), b) + [u])
    ensures |Without(Without(nodes, a), b) + [u]| == |nodes| - 1
    ensures multiset(Without(Without(nodes, a), b) + [u]) == multiset(nodes) - multiset{a, b} + multiset{u}
  {
    var rest := Without(Without(nodes, a), b);
    assert Distinct(rest) && |rest| == |nodes| - 2 && u !in rest
      && multiset(rest) == multiset(nodes) - multiset{a} - multiset{b} by {
      WithoutDistinct(nodes, a);
      WithoutDistinct(Without(nodes, a), b);
    }
    DistinctAppend(rest, u);
  }

  /** Contracts `a` and `b` into the fresh node `u`: `u` is appended to the
      node order, `a` and `b` are removed, and every edge from `u` carries
      the summed weight of the edges it replaces (see `ContractEdges`). */
  function Contract(g: Graph, a: nat, b: nat, u: nat): (h: Graph)
    requires a in g.adj && b in g.adj
    ensures h.adj.Keys == g.adj.Keys - {a, b} + {u}
    ensures h.nodes != [] && h.nodes[|h.nodes| - 1] == u
  {
    Graph(Without(Without(g.nodes, a), b) + [u], ContractAdj(g.adj, a, b, u))
  }

  /** Contracting two distinct nodes into a fresh one keeps the graph valid
      and replaces exactly those two nodes by the new one, which comes last. */
  lemma ContractValid(g: Graph, a: nat, b: nat, u: nat)
    requires Valid(g) && a in g.adj && b in g.adj && a != b && u !in g.adj
    ensures var h := Contract(g, a, b, u);
      && Valid(h)
      && (forall x :: x in h.nodes <==> (x in g.nodes && x != a && x != b) || x == u)
      && |h.nodes| == |g.nodes| - 1
      && multiset(h.nodes) == multiset(g.nodes) - multiset{a, b} + multiset{u}
      && h.nodes[|h.nodes| - 1] == u
  {
    ContractNodes(g.nodes, a, b, u);
    ContractAdjSymmetric(g.adj, a, b, u);
  }

  /** The edges of a contracted graph: the new node reaches every other
      neighbour of `a` or `b` with the summed weight (an absent edge counting
      as 0), has no self-loop, `a` and `b` keep no edge, and every edge not
      touching `a`, `b` or `u` is unchanged. */
  lemma ContractEdges(g: Graph, a: nat, b: nat, u: nat)
    requires Valid(g) && a in g.adj && b in g.adj && a != b && u !in g.adj
    ensures forall y :: y != a && y != b && y != u ==>
      W(Contract(g, a, b, u).adj, u, y) == W(g.adj, a, y) + W(g.adj, b, y)
    ensures W(Contract(g, a, b, u).adj, u, u) == 0.0
    ensures forall x, y :: x != a && x != b && x != u && y != a && y != b && y != u ==>
      W(Contract(g, a, b, u).adj, x, y) == W(g.adj, x, y)
    ensures forall y :: W(Contract(g, a, b, u).adj, a, y) == 0.0 && W(Contract(g, a, b, u).adj, b, y) == 0.0
  {
    ContractAdjWeights(g.adj, a, b, u);
  }

  lemma ContractAdjOrder(adj: Adj, a: nat, b: nat, u: nat)
    requires a in adj && b in adj
    ensures ContractAdj(adj, a, b, u) == ContractAdj(adj, b, a, u)
  {
    var row := MergedRow(adj, a, b);
    assert row == MergedRow(adj, b, a);
    var h1 := ContractAdj(adj, a, b, u);
    var h2 := ContractAdj(adj, b, a, u);
    assert {a, b} == {b, a};
    assert h1.Keys == h2.Keys;
  }

  /** Contracting `a` with `b` and contracting `b` with `a` give the same graph. */
  lemma ContractSymmetric(g: Graph, a: nat, b: nat, u: nat)
    requires a in g.adj && b in g.adj
    ensures Contract(g, a, b, u) == Contract(g, b, a, u)
  {
    WithoutCommutes(g.nodes, a, b);
    ContractAdjOrder(g.adj, a, b, u);
  }
}
