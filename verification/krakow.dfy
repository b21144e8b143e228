/** The clustering end to end: the accounting pass, the chain loop, the
    finisher that joins the connected components, and the final reordering
    of the dendrogram. */
module Krakow {
  import opened Outcomes
  import opened Seqs
  import opened Graphs
  import opened Dendrograms
  import opened Accounting
  import opened Engine
  import opened Finisher
  import opened Reordering

  /** What a call demands: the nodes are 0..n-1, enumerated in insertion
      order; the edges join those nodes with positive weights, each pair at
      most once; and both exponents are at least 1. */
  ghost predicate Input(order: seq<nat>, edges: seq<InEdge>, alpha: nat, beta: nat)
  {
    && Distinct(order) && (forall x: nat :: x in order <==> x < |order|)
    && ValidEdges(|order|, edges)
    && alpha >= 1 && beta >= 1
  }

  /** A complete dendrogram over n leaves: n - 1 rows, each merging two
      nodes that exist before it and recording the sum of their sizes, the
      root n + |d| - 1 = 2n - 2 holding all n leaves, and every other node
      merged exactly once. */
  ghost predicate Tree(d: seq<Row>, n: nat)
  {
    && n >= 1 && |d| == n - 1
    && Ordered(d, n) && SizesAdd(d, n)
    && Size(d, n, n + |d| - 1) == n
    && Children(d) + multiset{n + |d| - 1} == multiset(Range(n + |d|))
  }

  /** A node used as a child by a row is older than the last row's node. */
  lemma {:induction false} ChildBound(d: seq<Row>, n: nat)
    requires Ordered(d, n)
    ensures forall y :: y in Children(d) ==> y < n + |d| - 1
  {
    if d != [] {
      var init := d[..|d| - 1];
      assert Ordered(init, n) by {
        forall i | 0 <= i < |init| ensures init[i].a < n + i && init[i].b < n + i {
          assert init[i] == d[i];
        }
      }
      ChildBound(init, n);
    }
  }

  /** In a dendrogram whose rows only merge older nodes, the one node that is
      nobody's child is the last one created. */
  lemma RootIsLast(d: seq<Row>, n: nat, x: nat)
    requires n + |d| >= 1 && Ordered(d, n)
    requires Children(d) + multiset{x} == multiset(Range(n + |d|))
    ensures x == n + |d| - 1
    ensures Children(d) + multiset{n + |d| - 1} == multiset(Range(n + |d|))
    ensures Size(d, n, x) == Size(d, n, n + |d| - 1)
  {
    assert Range(n + |d|)[n + |d| - 1] == n + |d| - 1;
    assert n + |d| - 1 in multiset(Range(n + |d|));
    ChildBound(d, n);
    assert n + |d| - 1 !in Children(d);
  }

  /** The accounting pass hands the chain loop what it needs: the nodes,
      a symmetric adjacency and degrees over them, and a positive total
      weight as soon as the graph has an edge. */
  lemma AccountReady(order: seq<nat>, edges: seq<InEdge>, alpha: nat, beta: nat)
    requires Input(order, edges, alpha, beta)
    ensures Accounted(order, Account(|order|, edges).adj, Account(|order|, edges).w, Account(|order|, edges).wtot)
  {
    AccountGraph(|order|, edges);
    AccountPositive(|order|, edges);
  }

  /** A graph with an edge has a positive total weight. */
  lemma AccountPositive(n: nat, edges: seq<InEdge>)
    requires ValidEdges(n, edges)
    ensures forall x, y :: x in Account(n, edges).adj && y in Account(n, edges).adj[x] ==> Account(n, edges).wtot > 0.0
  {
    var acc := Account(n, edges);
    if edges == [] {
      AccountGraph(n, edges);
      forall x, y | x in acc.adj ensures y !in acc.adj[x] {
        assert NoEdge(edges, x, y);
        assert W(acc.adj, x, y) == 0.0;
      }
    }
  }

  /** What the chain loop leaves behind once it is done: rows and at least
      one retired component, which together account for every id created
      and every leaf, with sizes that add up. */
  ghost predicate LoopDone(rows: seq<Row>, n: nat, cc: seq<Comp>)
  {
    && n >= 1 && cc != [] && |rows| + |cc| == n
    && Children(rows) + Reps(cc) == multiset(Range(n + |rows|))
    && Ordered(rows, n) && SizesAdd(rows, n)
    && Recorded(rows, n, cc) && CompSizes(cc) == n
  }

  /** With no live node left, every id is a child or a retired component. */
  lemma ShapeDone(n: nat, nodes: seq<nat>, rows: seq<Row>, cc: seq<Comp>, next: nat)
    requires Shape(n, nodes, rows, cc, next) && nodes == [] && n >= 1
    ensures cc != [] && |rows| + |cc| == n && next == n + |rows|
    ensures Children(rows) + Reps(cc) == multiset(Range(next))
  {
    assert multiset(nodes) == multiset{};
    DropEmpty(Children(rows), multiset(nodes), Reps(cc), multiset(Range(next)));
  }

  /** Rewrites the partition from the counter `next` to its value
      n + |rows|, so that it matches the term `Tree` uses. */
  lemma NextIds(rows: seq<Row>, n: nat, cc: seq<Comp>, next: nat)
    requires next == n + |rows| && Children(rows) + Reps(cc) == multiset(Range(next))
    ensures Children(rows) + Reps(cc) == multiset(Range(n + |rows|))
  {
    assert Range(next) == Range(n + |rows|);
  }

  /** With no live node left, the retired components hold every leaf. */
  lemma SizedDone(n: nat, nodes: seq<nat>, s: map<nat, nat>, rows: seq<Row>, cc: seq<Comp>)
    requires Sized(n, nodes, s, rows, cc) && nodes == []
    ensures Ordered(rows, n) && SizesAdd(rows, n)
    ensures Recorded(rows, n, cc) && CompSizes(cc) == n
  {
    assert SumSizes(nodes, s) == 0;
  }

  /** The finisher turns the loop's rows and components into a complete
      dendrogram. */
  lemma FinishTree(rows: seq<Row>, n: nat, cc: seq<Comp>)
    requires LoopDone(rows, n, cc)
    ensures cc != [] && Tree(rows + Finish(cc, n + |rows|), n)
  {
    FinishSized(rows, n, cc);
    FinishChildren(rows, n, cc);
    FinishRootLast(rows, n, cc);
  }

  /** Once the loop is done, the finisher completes the dendrogram. */
  lemma LoopTree(n: nat, nodes: seq<nat>, s: map<nat, nat>, rows: seq<Row>, cc: seq<Comp>, next: nat)
    requires Shape(n, nodes, rows, cc, next) && Sized(n, nodes, s, rows, cc)
    requires nodes == [] && n >= 1
    ensures Tree(rows + Finish(cc, n + |rows|), n)
  {
    ShapeDone(n, nodes, rows, cc, next);
    NextIds(rows, n, cc, next);
    SizedDone(n, nodes, s, rows, cc);
    FinishTree(rows, n, cc);
  }

  /** The finisher's root is the last node created, so what the finisher
      proves about its root holds for node n + |d| - 1. */
  lemma FinishRootLast(rows: seq<Row>, n: nat, cc: seq<Comp>)
    requires cc != [] && Ordered(rows + Finish(cc, n + |rows|), n)
    requires Children(rows + Finish(cc, n + |rows|)) + multiset{Root(cc, n + |rows|)}
             == multiset(Range(n + |rows + Finish(cc, n + |rows|)|))
    requires Size(rows + Finish(cc, n + |rows|), n, Root(cc, n + |rows|)) == CompSizes(cc)
    ensures Children(rows + Finish(cc, n + |rows|)) + multiset{n + |rows + Finish(cc, n + |rows|)| - 1}
            == multiset(Range(n + |rows + Finish(cc, n + |rows|)|))
    ensures Size(rows + Finish(cc, n + |rows|), n, n + |rows + Finish(cc, n + |rows|)| - 1) == CompSizes(cc)
  {
    var d := rows + Finish(cc, n + |rows|);
    RootIsLast(d, n, Root(cc, n + |rows|));
  }

  /** The clustering before the reordering: accounting, the chain loop with
      at most `fuel` steps, then the finisher. */
  method Cluster(order: seq<nat>, edges: seq<InEdge>, alpha: nat, beta: nat, fuel: nat)
    returns (r: Result<seq<Row>, Failure>)
    requires Input(order, edges, alpha, beta) && |order| >= 1
    ensures r.Ok? ==> Tree(r.value, |order|)
    ensures r.Err? && r.error.NodeNotInGraph? ==> r.error.node >= 0
  {
    var n := |order|;
    var acc := Account(n, edges);
    AccountReady(order, edges, alpha, beta);
    StartInv(order, acc.adj, acc.w, acc.wtot, alpha, beta);
    var st0 := Start(order, acc.adj, acc.w, acc.wtot, alpha, beta);
    assert MarkFree(st0);
    var run := RunChain(st0, n, fuel);
    if run.Err? {
      return Err(run.error);
    }
    var st := run.value;
    var rows, cc := st.rows, st.cc;
    LoopTree(n, st.g.nodes, st.s, rows, cc, st.next);
    return Ok(rows + Finish(cc, n + |rows|));
  }

  /** A complete dendrogram only names nodes that exist. */
  lemma TreeLabelled(d: seq<Row>, n: nat)
    requires Tree(d, n)
    ensures Labelled(d)
  {
  }

  /** The whole clustering: the dendrogram comes back sorted by distance
      (stably), with node ids renamed to match, the sizes still adding up,
      and it is the reordering of a complete dendrogram. */
  method Krakow(order: seq<nat>, edges: seq<InEdge>, alpha: nat, beta: nat, fuel: nat)
    returns (r: Result<seq<Row>, Failure>)
    requires Input(order, edges, alpha, beta) && |order| >= 2
    ensures r.Ok? ==> |r.value| == |order| - 1
    ensures r.Ok? ==> DistSorted(r.value) && SizesAdd(r.value, |order|) && Labelled(r.value)
    ensures r.Ok? ==> exists d :: Tree(d, |order|) && |d| >= 1 && Labelled(d) && r.value == Reorder(d)
    ensures r.Err? && r.error.NodeNotInGraph? ==> r.error.node >= 0
  {
    var raw := Cluster(order, edges, alpha, beta, fuel);
    if raw.Err? {
      return Err(raw.error);
    }
    var d := raw.value;
    TreeLabelled(d, |order|);
    ReorderSorted(d);
    ReorderSizes(d);
    ReorderIdempotent(d);
    return Ok(Reorder(d));
  }
}
