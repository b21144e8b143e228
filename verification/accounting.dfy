/** The single pass over the input edges that builds the weighted graph and
    the accounting the clustering starts from: weighted degrees and the
    total weight. */
module Accounting {
  import opened Outcomes
  import opened Seqs
  import opened Graphs

  /** An input edge as the graph enumerates it (each undirected edge once);
      its weight attribute may be missing. */
  datatype InEdge = InEdge(u: nat, v: nat, weight: Option<real>)

  /** A missing weight attribute is set to 1. */
  function EdgeWeight(e: InEdge): (wt: real)
    ensures e.weight.None? ==> wt == 1.0
    ensures e.weight.Some? ==> wt == e.weight.value
  {
    e.weight.GetOr(1.0)
  }

  predicate SamePair(e: InEdge, x: nat, y: nat)
  {
    (e.u == x && e.v == y) || (e.u == y && e.v == x)
  }

  /** Endpoints are nodes of 0..n-1, weights are positive, and no unordered
      pair carries two edges. */
  ghost predicate ValidEdges(n: nat, edges: seq<InEdge>)
  {
    && (forall i :: 0 <= i < |edges| ==> edges[i].u < n && edges[i].v < n && EdgeWeight(edges[i]) > 0.0)
    && (forall i, j :: 0 <= i < j < |edges| ==> !SamePair(edges[j], edges[i].u, edges[i].v))
  }

  /** No edge of `edges` joins x and y. */
  ghost predicate NoEdge(edges: seq<InEdge>, x: nat, y: nat)
  {
    forall i :: 0 <= i < |edges| ==> !SamePair(edges[i], x, y)
  }

  datatype Accounts = Accounts(adj: Adj, w: map<nat, real>, wtot: real)

  /** Stores the edge u-v with weight `wt` in both directions. */
  function Connect(adj: Adj, u: nat, v: nat, wt: real): (r: Adj)
    requires u in adj && v in adj
    ensures r.Keys == adj.Keys
    ensures forall x, y :: W(r, x, y) == if (x == u && y == v) || (x == v && y == u) then wt else W(adj, x, y)
  {
    var row: map<nat, real> := adj[u][v := wt];
    var adj1 := adj[u := row];
    var row': map<nat, real> := adj1[v][u := wt];
    adj1[v := row']
  }

  /** The state before the pass: every node of 0..n-1 present, without
      edges, with weighted degree 0, and a total weight of 0. */
  function Empty(n: nat): (acc: Accounts)
    ensures forall x: nat :: x in acc.w <==> x < n
    ensures forall x: nat :: x in acc.adj <==> x < n
    ensures forall x, y :: W(acc.adj, x, y) == 0.0
  {
    RangeDistinct(n);
    Accounts(map x | x in Range(n) :: map[], map x | x in Range(n) :: 0.0, 0.0)
  }

  /** One step of the pass: the edge's weight (1 when absent) is stored, added
      to the weighted degree of each endpoint (so twice to the endpoint of a
      self-loop), and added to the total twice, or once for a self-loop. */
  function AddEdge(acc: Accounts, e: InEdge): (r: Accounts)
    requires e.u in acc.adj && e.v in acc.adj && e.u in acc.w && e.v in acc.w
    ensures r.adj.Keys == acc.adj.Keys && r.w.Keys == acc.w.Keys
    ensures forall x :: x in acc.w ==>
      r.w[x] == acc.w[x] + (if x == e.u then EdgeWeight(e) else 0.0) + (if x == e.v then EdgeWeight(e) else 0.0)
  {
    var wt := EdgeWeight(e);
    var w1 := acc.w[e.u := acc.w[e.u] + wt];
    var w2 := w1[e.v := w1[e.v] + wt];
    Accounts(Connect(acc.adj, e.u, e.v, wt), w2, acc.wtot + wt + (if e.u != e.v then wt else 0.0))
  }

  /** The accounting pass over `edges` in order. */
  function Account(n: nat, edges: seq<InEdge>): (acc: Accounts)
    requires ValidEdges(n, edges)
    ensures forall x: nat :: x in acc.w <==> x < n
    ensures forall x: nat :: x in acc.adj <==> x < n
    ensures acc.wtot >= 0.0 && (edges != [] ==> acc.wtot > 0.0)
  {
    if edges == [] then Empty(n)
    else
      var init := edges[..|edges| - 1];
      assert ValidEdges(n, init);
      AddEdge(Account(n, init), edges[|edges| - 1])
  }

  /** Connecting a not yet connected pair with a positive weight keeps the
      adjacency symmetric and adds the weight at exactly the two entries of
      the pair. */
  lemma ConnectFresh(adj: Adj, e: InEdge)
    requires Symmetric(adj) && e.u in adj && e.v in adj && W(adj, e.u, e.v) == 0.0 && EdgeWeight(e) > 0.0
    ensures Symmetric(Connect(adj, e.u, e.v, EdgeWeight(e)))
    ensures forall x, y :: W(Connect(adj, e.u, e.v, EdgeWeight(e)), x, y)
                           == W(adj, x, y) + (if SamePair(e, x, y) then EdgeWeight(e) else 0.0)
  {
    var r := Connect(adj, e.u, e.v, EdgeWeight(e));
    forall x, y | x in r && y in r[x] ensures y in r && r[x][y] > 0.0 {
      assert W(r, x, y) == r[x][y];
      if !SamePair(e, x, y) {
        assert y in adj[x];
      }
    }
  }

  /** The graph the pass builds: symmetric with positive weights, every
      input edge stored with its weight (1 when absent), and no other edge. */
  lemma {:induction false} AccountGraph(n: nat, edges: seq<InEdge>)
    requires ValidEdges(n, edges)
    ensures Symmetric(Account(n, edges).adj)
    ensures forall i :: 0 <= i < |edges| ==> W(Account(n, edges).adj, edges[i].u, edges[i].v) == EdgeWeight(edges[i])
    ensures forall x, y :: NoEdge(edges, x, y) ==> W(Account(n, edges).adj, x, y) == 0.0
  {
    if edges != [] {
      var init := edges[..|edges| - 1];
      assert ValidEdges(n, init);
      AccountGraph(n, init);
      LastEdgeFresh(n, edges);
      var e := edges[|edges| - 1];
      assert edges == init + [e];
      AddEdgeGraph(Account(n, init), init, e);
    }
  }

  lemma AddEdgeGraph(prev: Accounts, init: seq<InEdge>, e: InEdge)
    requires Symmetric(prev.adj)
    requires e.u in prev.adj && e.v in prev.adj && e.u in prev.w && e.v in prev.w && EdgeWeight(e) > 0.0
    requires NoEdge(init, e.u, e.v)
    requires forall i :: 0 <= i < |init| ==> W(prev.adj, init[i].u, init[i].v) == EdgeWeight(init[i])
    requires forall x, y :: NoEdge(init, x, y) ==> W(prev.adj, x, y) == 0.0
    ensures Symmetric(AddEdge(prev, e).adj)
    ensures forall i :: 0 <= i < |init + [e]| ==>
      W(AddEdge(prev, e).adj, (init + [e])[i].u, (init + [e])[i].v) == EdgeWeight((init + [e])[i])
    ensures forall x, y :: NoEdge(init + [e], x, y) ==> W(AddEdge(prev, e).adj, x, y) == 0.0
  {
    ConnectFresh(prev.adj, e);
    var adj := AddEdge(prev, e).adj;
    var edges := init + [e];
    forall i | 0 <= i < |edges| ensures W(adj, edges[i].u, edges[i].v) == EdgeWeight(edges[i]) {
      if i < |init| {
        assert edges[i] == init[i];
        assert !SamePair(e, init[i].u, init[i].v);
      }
    }
    forall x, y | NoEdge(edges, x, y) ensures W(adj, x, y) == 0.0 {
      assert NoEdge(init, x, y) by {
        forall i | 0 <= i < |init| ensures !SamePair(init[i], x, y) { assert edges[i] == init[i]; }
      }
      assert !SamePair(edges[|init|], x, y);
    }
  }

  /** The last edge joins a pair no earlier edge joins. */
  lemma LastEdgeFresh(n: nat, edges: seq<InEdge>)
    requires ValidEdges(n, edges) && edges != []
    ensures NoEdge(edges[..|edges| - 1], edges[|edges| - 1].u, edges[|edges| - 1].v)
  {
    var init := edges[..|edges| - 1];
    var e := edges[|edges| - 1];
    forall i | 0 <= i < |init| ensures !SamePair(init[i], e.u, e.v) {
      assert init[i] == edges[i];
      assert !SamePair(edges[|edges| - 1], edges[i].u, edges[i].v);
    }
  }

  /** Sum of W(adj, x, y) over y in 0..k-1. */
  function RowSum(adj: Adj, x: nat, k: nat): real
  {
    if k == 0 then 0.0 else RowSum(adj, x, k - 1) + W(adj, x, k - 1)
  }

  /** Sum of RowSum(adj, x, n) over x in 0..k-1: every entry of the weight
      matrix, so a non-loop edge counts twice and a self-loop once. */
  function Total(adj: Adj, k: nat, n: nat): real
  {
    if k == 0 then 0.0 else Total(adj, k - 1, n) + RowSum(adj, k - 1, n)
  }

  /** Weighted degree of `x` read off the adjacency: the weights of its
      edges, with a self-loop counted twice. */
  function Degree(adj: Adj, x: nat, n: nat): real
  {
    RowSum(adj, x, n) + W(adj, x, x)
  }

  lemma {:induction false} RowSumShift(adj: Adj, adj': Adj, x: nat, k: nat, q: nat, c: real)
    requires forall y :: W(adj', x, y) == W(adj, x, y) + (if y == q then c else 0.0)
    ensures RowSum(adj', x, k) == RowSum(adj, x, k) + (if q < k then c else 0.0)
  {
    if k > 0 {
      RowSumShift(adj, adj', x, k - 1, q, c);
    }
  }

  lemma {:induction false} TotalShift(adj: Adj, adj': Adj, k: nat, n: nat, u: nat, v: nat, wt: real)
    requires forall x :: RowSum(adj', x, n) == RowSum(adj, x, n) + (if x == u || x == v then wt else 0.0)
    ensures Total(adj', k, n) == Total(adj, k, n) + (if u < k then wt else 0.0)
                                   + (if v < k && v != u then wt else 0.0)
  {
    if k > 0 {
      TotalShift(adj, adj', k - 1, n, u, v, wt);
    }
  }

  /** The accounting agrees with the graph it builds: w[x] is the weighted
      degree of x (self-loop counted twice) and wtot is the sum of all
      weighted degrees with each self-loop counted once. */
  lemma {:induction false} AccountDegrees(n: nat, edges: seq<InEdge>)
    requires ValidEdges(n, edges)
    ensures forall x: nat :: x < n ==> Account(n, edges).w[x] == Degree(Account(n, edges).adj, x, n)
    ensures Account(n, edges).wtot == Total(Account(n, edges).adj, n, n)
  {
    var acc := Account(n, edges);
    if edges == [] {
      forall x: nat | x < n ensures acc.w[x] == Degree(acc.adj, x, n) {
        ZeroRowSum(acc.adj, x, n);
      }
      ZeroTotal(acc.adj, n, n);
    } else {
      var init := edges[..|edges| - 1];
      assert ValidEdges(n, init);
      AccountDegrees(n, init);
      AccountGraph(n, init);
      LastEdgeFresh(n, edges);
      var prev := Account(n, init);
      var e := edges[|edges| - 1];
      assert acc == AddEdge(prev, e);
      AddEdgeDegrees(n, prev, e);
    }
  }

  /** One step of the pass keeps the degrees and the total in step with the
      weight matrix. */
  lemma AddEdgeDegrees(n: nat, prev: Accounts, e: InEdge)
    requires Symmetric(prev.adj)
    requires e.u < n && e.v < n && EdgeWeight(e) > 0.0
    requires forall x: nat :: x in prev.w <==> x < n
    requires forall x: nat :: x in prev.adj <==> x < n
    requires W(prev.adj, e.u, e.v) == 0.0
    requires forall x: nat :: x < n ==> prev.w[x] == Degree(prev.adj, x, n)
    requires prev.wtot == Total(prev.adj, n, n)
    ensures forall x: nat :: x < n ==> AddEdge(prev, e).w[x] == Degree(AddEdge(prev, e).adj, x, n)
    ensures AddEdge(prev, e).wtot == Total(AddEdge(prev, e).adj, n, n)
  {
    var acc := AddEdge(prev, e);
    var wt := EdgeWeight(e);
    AddEdgeRows(n, prev, e);
    TotalShift(prev.adj, acc.adj, n, n, e.u, e.v, wt);
  }

  /** Adding an edge adds its weight to the row sums of its endpoints, once
      for each endpoint, and to the diagonal entry of a self-loop. */
  lemma AddEdgeRows(n: nat, prev: Accounts, e: InEdge)
    requires Symmetric(prev.adj)
    requires e.u < n && e.v < n && EdgeWeight(e) > 0.0
    requires e.u in prev.adj && e.v in prev.adj && e.u in prev.w && e.v in prev.w
    requires W(prev.adj, e.u, e.v) == 0.0
    ensures forall x :: RowSum(AddEdge(prev, e).adj, x, n)
                        == RowSum(prev.adj, x, n) + (if x == e.u || x == e.v then EdgeWeight(e) else 0.0)
    ensures forall x :: W(AddEdge(prev, e).adj, x, x)
                        == W(prev.adj, x, x) + (if x == e.u && x == e.v then EdgeWeight(e) else 0.0)
  {
    var acc := AddEdge(prev, e);
    var wt := EdgeWeight(e);
    ConnectFresh(prev.adj, e);
    forall x
      ensures RowSum(acc.adj, x, n) == RowSum(prev.adj, x, n) + (if x == e.u || x == e.v then wt else 0.0)
    {
      if x == e.u {
        RowSumShift(prev.adj, acc.adj, x, n, e.v, wt);
      } else if x == e.v {
        RowSumShift(prev.adj, acc.adj, x, n, e.u, wt);
      } else {
        RowSumShift(prev.adj, acc.adj, x, n, 0, 0.0);
      }
    }
  }

  lemma {:induction false} ZeroRowSum(adj: Adj, x: nat, k: nat)
    requires forall y :: W(adj, x, y) == 0.0
    ensures RowSum(adj, x, k) == 0.0
  {
    if k > 0 {
      ZeroRowSum(adj, x, k - 1);
    }
  }

  lemma {:induction false} ZeroTotal(adj: Adj, k: nat, n: nat)
    requires forall x, y :: W(adj, x, y) == 0.0
    ensures Total(adj, k, n) == 0.0
  {
    if k > 0 {
      ZeroTotal(adj, k - 1, n);
      ZeroRowSum(adj, k - 1, n);
    }
  }
}
