/** The nearest-neighbour-chain engine: the loop that grows a chain of
    nearest neighbours, merges a reciprocal pair by contracting it into a
    fresh node, and retires a node left without neighbours as a connected
    component. */
module Engine {
  import opened Outcomes
  import opened Seqs
  import opened Graphs
  import opened Dendrograms
  import opened Nearest

  /** Everything the loop reads and writes: the graph, the weighted degrees
      `w`, the cluster sizes `s`, the fixed total weight, the chain, the rows
      emitted so far, the retired components, and the next synthetic id. */
  datatype State = State(
    g: Graph, w: map<nat, real>, s: map<nat, nat>, wtot: real,
    alpha: nat, beta: nat,
    chain: seq<int>, rows: seq<Row>, cc: seq<Comp>, next: nat)

  /** Ways a run stops without a dendrogram: the chain hands the loop an id
      that is not a live node (networkx raises on it), or the fuel bound
      standing in for the chain loop's termination argument runs out. */
  datatype Failure = NodeNotInGraph(node: int) | OutOfFuel

  function MetricOf(st: State): Metric
  {
    Metric(st.g.adj, st.w, st.wtot, st.alpha, st.beta)
  }

  /** Total size of the clusters `ns` (a cluster without a recorded size
      counts as 0). */
  function SumSizes(ns: seq<nat>, s: map<nat, nat>): nat
  {
    if ns == [] then 0 else (if ns[0] in s then s[ns[0]] else 0) + SumSizes(ns[1..], s)
  }

  /** What one step needs to be well defined: a valid graph whose live
      nodes all carry a weight and a size and lie below the id counter, and
      a chain in which only the top entry may be the -1 "no neighbour" mark. */
  ghost predicate Wf(st: State)
  {
    && Valid(st.g)
    && Ready(MetricOf(st))
    && (forall x :: x in st.w <==> x in st.g.nodes)
    && (forall x :: x in st.s <==> x in st.g.nodes)
    && (forall x :: x in st.g.nodes ==> x < st.next)
    && (forall i :: 0 <= i < |st.chain| - 1 ==> st.chain[i] >= 0)
  }

  /** The invariant of the loop for an input of `n` nodes. */
  ghost predicate Inv(st: State, n: nat)
  {
    && Wf(st)
    && Shape(n, st.g.nodes, st.rows, st.cc, st.next)
    && Sized(n, st.g.nodes, st.s, st.rows, st.cc)
  }

  /** Every id created so far is accounted for exactly once. */
  ghost predicate Shape(n: nat, nodes: seq<nat>, rows: seq<Row>, cc: seq<Comp>, next: nat)
  {
    // the row at index i creates node n + i
    && next == n + |rows|
    // every merge and every retired component removes one live node
    && |nodes| + |rows| + |cc| == n
    // every id created so far is live, retired, or a child of exactly one row
    && Children(rows) + multiset(nodes) + Reps(cc) == multiset(Range(next))
    && (n > 0 ==> |nodes| > 0 || |cc| > 0)
  }

  /** The rows, the live sizes and the component sizes agree. */
  ghost predicate Sized(n: nat, nodes: seq<nat>, s: map<nat, nat>, rows: seq<Row>, cc: seq<Comp>)
  {
    && Ordered(rows, n) && SizesAdd(rows, n)
    && (forall i :: 0 <= i < |rows| ==> rows[i].dist.Finite?)
    && (forall x :: x in nodes ==> x in s && s[x] == Size(rows, n, x))
    && (forall k :: 0 <= k < |cc| ==> cc[k].rep < n + |rows|)
    && (forall k :: 0 <= k < |cc| ==> cc[k].size == Size(rows, n, cc[k].rep))
    // live sizes plus retired component sizes account for every leaf
    && SumSizes(nodes, s) + CompSizes(cc) == n
  }

  /** The loop has work left: a chain to continue, or a live node to seed one. */
  predicate Pending(st: State)
  {
    st.chain != [] || st.g.nodes != []
  }

  ghost predicate Steppable(st: State)
  {
    Wf(st) && Pending(st)
  }

  /** The chain the step works on: a fresh chain seeded with the first live
      node in insertion order when the previous one ran out. */
  function Seeded(st: State): (ch: seq<int>)
    requires Steppable(st)
    ensures ch != []
    ensures forall i :: 0 <= i < |ch| - 1 ==> ch[i] >= 0
    ensures st.chain == [] ==> st.g.nodes != [] && ch == [st.g.nodes[0] as int] && Live(st, st.g.nodes[0])
    ensures st.chain != [] ==> ch == st.chain
  {
    if st.chain == [] then [st.g.nodes[0] as int] else st.chain
  }

  /** Contracts `a` and `b` into the node `next`: emits the row
      (a, b, d, s[a] + s[b]), moves the weight and size accounting over to
      the new node and advances the id counter. */
  function Merge(st: State, a: nat, b: nat, d: Dist, chain: seq<int>): (r: State)
    requires Live(st, a) && Live(st, b)
    ensures r.rows == st.rows + [Row(a, b, d, st.s[a] + st.s[b])]
    ensures r.chain == chain && r.cc == st.cc && r.wtot == st.wtot && r.next == st.next + 1
    ensures st.next in r.w && r.w[st.next] == st.w[a] + st.w[b]
    ensures st.next in r.s && r.s[st.next] == st.s[a] + st.s[b]
  {
    var u := st.next;
    st.(g := Contract(st.g, a, b, u),
        w := (st.w - {a, b})[u := st.w[a] + st.w[b]],
        s := (st.s - {a, b})[u := st.s[a] + st.s[b]],
        chain := chain,
        rows := st.rows + [Row(a, b, d, st.s[a] + st.s[b])],
        next := u + 1)
  }

  /** Records `a` as a connected component with its size and drops it. */
  function Retire(st: State, a: nat): (r: State)
    requires Live(st, a)
    ensures r.cc == st.cc + [Comp(a, st.s[a])] && r.chain == []
    ensures r.rows == st.rows && r.next == st.next && r.wtot == st.wtot
  {
    st.(g := RemoveNode(st.g, a), w := st.w - {a}, s := st.s - {a},
        chain := [], cc := st.cc + [Comp(a, st.s[a])])
  }

  /** `a` is a node of the adjacency with a recorded weight and size. */
  predicate Live(st: State, a: nat)
  {
    a in st.g.adj && a in st.w && a in st.s
  }

  function Top(st: State): int
    requires Steppable(st)
  {
    Seeded(st)[|Seeded(st)| - 1]
  }

  function Below(st: State): seq<int>
    requires Steppable(st)
  {
    Seeded(st)[..|Seeded(st)| - 1]
  }

  /** One iteration of the chain loop: pop `a` and find its nearest
      neighbour `b`. When `b` is the entry `c` directly below `a`, pop `c` too
      and merge `a` and `b`; otherwise push back `c, a, b`. When `a` was
      alone, start the chain `a, b`, or retire `a` as a component when it has
      no neighbour. */
  function Step(st: State): (r: Result<State, Failure>)
    requires Steppable(st)
    ensures r.Err? <==> Top(st) < 0 || Top(st) as nat !in st.g.nodes
    ensures r.Ok? ==> r.value.wtot == st.wtot
  {
    var a := Top(st);
    var rest := Below(st);
    if a < 0 || a as nat !in st.g.adj then Err(NodeNotInGraph(a))
    else
      var p := NearestOf(MetricOf(st), st.g.nodes, a as nat);
      if rest != [] then
        if p.b == rest[|rest| - 1] then
          assert !NoCandidate(MetricOf(st), a as nat, st.g.nodes);
          Ok(Merge(st, a as nat, p.b as nat, p.d, rest[..|rest| - 1]))
        else
          Ok(st.(chain := rest + [a, p.b]))
      else if p.b >= 0 then
        Ok(st.(chain := [a, p.b]))
      else
        Ok(Retire(st, a as nat))
  }

  /** The neighbour the popped node would be merged with or pushed. */
  function NearestOfTop(st: State): Pick
    requires Steppable(st)
    requires Top(st) >= 0 && Top(st) as nat in st.g.nodes
  {
    NearestOf(MetricOf(st), st.g.nodes, Top(st) as nat)
  }

  /** The reciprocal merge rule: when the nearest neighbour `b` of the
      popped node `a` is the entry directly below it, both leave the chain
      and the step contracts them (see `Merge`). */
  lemma StepMerges(st: State, a: nat, p: Pick)
    requires Steppable(st)
    requires Top(st) == a as int && a in st.g.nodes && p == NearestOfTop(st)
    requires Below(st) != [] && p.b == Below(st)[|Below(st)| - 1]
    ensures p.b >= 0 && p.b as nat in st.g.adj[a] && p.b != a && p.d.Finite?
    ensures Step(st) == Ok(Merge(st, a, p.b as nat, p.d, Below(st)[..|Below(st)| - 1]))
  {
    TopMergeable(st, a, p);
  }

  /** The popped node and the entry below it, when they are reciprocal
      nearest neighbours, are two distinct adjacent live nodes. */
  lemma TopMergeable(st: State, a: nat, p: Pick)
    requires Steppable(st)
    requires Top(st) == a as int && a in st.g.nodes && p == NearestOfTop(st)
    requires Below(st) != [] && p.b == Below(st)[|Below(st)| - 1]
    ensures p.b >= 0 && p.b as nat in st.g.adj[a] && p.b != a && p.d.Finite?
    ensures Mergeable(st, a, p.b as nat, p.d, Below(st)[..|Below(st)| - 1])
  {
    assert !NoCandidate(MetricOf(st), a, st.g.nodes);
  }

  /** A node that is alone in the chain and has no neighbour but itself is
      retired as a component (see `Retire`). */
  lemma StepRetires(st: State, a: nat)
    requires Steppable(st)
    requires Top(st) == a as int && a in st.g.nodes
    requires Below(st) == [] && NearestOfTop(st).b < 0
    ensures NoCandidate(MetricOf(st), a, st.g.nodes)
    ensures Step(st) == Ok(Retire(st, a))
  {
  }

  /** Otherwise only the chain changes: the popped node goes back on top
      with its nearest neighbour above it. */
  lemma StepExtends(st: State)
    requires Steppable(st)
    requires Top(st) >= 0 && Top(st) as nat in st.g.nodes
    requires Below(st) == [] ==> NearestOfTop(st).b >= 0
    requires Below(st) != [] ==> NearestOfTop(st).b != Below(st)[|Below(st)| - 1]
    ensures var r := Step(st);
            && r.Ok?
            && r.value.chain == Below(st) + [Top(st), NearestOfTop(st).b]
            && r.value == st.(chain := r.value.chain)
  {
  }

  lemma MergeWf(st: State, a: nat, b: nat, d: Dist, chain: seq<int>)
    requires Wf(st) && a in st.g.adj && b in st.g.adj && a != b
    requires b in st.g.adj[a]
    requires forall i :: 0 <= i < |chain| ==> chain[i] >= 0
    ensures Wf(Merge(st, a, b, d, chain))
    ensures |Merge(st, a, b, d, chain).g.nodes| == |st.g.nodes| - 1
  {
    var st' := Merge(st, a, b, d, chain);
    assert Valid(st'.g) && |st'.g.nodes| == |st.g.nodes| - 1
        && forall x :: x in st'.g.nodes <==> (x in st.g.nodes && x != a && x != b) || x == st.next by {
      assert st.next !in st.g.adj;
      ContractValid(st.g, a, b, st.next);
    }
    MergeKeys(st, a, b, d, chain);
    MergeReady(st, a, b, d, chain);
  }

  /** The weights and sizes after a merge are recorded for exactly the live
      nodes, all below the advanced id counter. */
  lemma MergeKeys(st: State, a: nat, b: nat, d: Dist, chain: seq<int>)
    requires Wf(st) && a in st.g.adj && b in st.g.adj
    requires forall x :: x in Merge(st, a, b, d, chain).g.nodes <==> (x in st.g.nodes && x != a && x != b) || x == st.next
    ensures var st' := Merge(st, a, b, d, chain);
      && (forall x :: x in st'.w <==> x in st'.g.nodes)
      && (forall x :: x in st'.s <==> x in st'.g.nodes)
      && (forall x :: x in st'.g.nodes ==> x < st'.next)
  {
  }

  lemma MergeReady(st: State, a: nat, b: nat, d: Dist, chain: seq<int>)
    requires Wf(st) && a in st.g.adj && b in st.g.adj && b in st.g.adj[a]
    requires Valid(Merge(st, a, b, d, chain).g)
    requires forall x :: x in Merge(st, a, b, d, chain).g.nodes <==> (x in st.g.nodes && x != a && x != b) || x == st.next
    ensures Ready(MetricOf(Merge(st, a, b, d, chain)))
  {
    var st' := Merge(st, a, b, d, chain);
    assert st.wtot > 0.0;
    forall x | x in st'.g.adj ensures x in st'.w {
      assert x in st'.g.nodes;
    }
  }

  lemma RetireWf(st: State, a: nat)
    requires Wf(st) && a in st.g.adj
    ensures Wf(Retire(st, a))
    ensures |Retire(st, a).g.nodes| == |st.g.nodes| - 1
  {
    var st' := Retire(st, a);
    assert Valid(st'.g) && |st'.g.nodes| == |st.g.nodes| - 1
        && (forall x :: x in st'.g.nodes <==> x in st.g.nodes && x != a)
        && (forall x, y :: x in st'.g.adj && y in st'.g.adj[x] ==> W(st.g.adj, x, y) == st'.g.adj[x][y]) by {
      RemoveNodeValid(st.g, a);
      forall x, y | x in st'.g.adj && y in st'.g.adj[x] ensures W(st.g.adj, x, y) == st'.g.adj[x][y] {
        assert W(st'.g.adj, x, y) == st'.g.adj[x][y];
      }
    }
    forall x, y | x in st'.g.adj && y in st'.g.adj[x] ensures st'.wtot > 0.0 {
      assert W(st.g.adj, x, y) > 0.0;
    }
  }

  lemma {:induction false} SumSizesAgree(ns: seq<nat>, s: map<nat, nat>, t: map<nat, nat>)
    requires forall y :: y in ns ==> (y in s <==> y in t) && (y in s ==> s[y] == t[y])
    ensures SumSizes(ns, s) == SumSizes(ns, t)
  {
    if ns != [] {
      SumSizesAgree(ns[1..], s, t);
    }
  }

  lemma {:induction false} SumSizesAppend(ns: seq<nat>, u: nat, s: map<nat, nat>)
    requires u in s
    ensures SumSizes(ns + [u], s) == SumSizes(ns, s) + s[u]
  {
    if ns != [] {
      assert (ns + [u])[1..] == ns[1..] + [u];
      SumSizesAppend(ns[1..], u, s);
    } else {
      assert ([] + [u])[1..] == [];
    }
  }

  /** Removing one node of a distinct sequence removes its size from the total. */
  lemma {:induction false} SumSizesRemove(ns: seq<nat>, s: map<nat, nat>, x: nat)
    requires Distinct(ns) && x in ns && x in s
    ensures SumSizes(Without(ns, x), s) + s[x] == SumSizes(ns, s)
  {
    DistinctTail(ns);
    if ns[0] == x {
      WithoutDistinct(ns[1..], x);
    } else {
      SumSizesRemove(ns[1..], s, x);
      assert ([ns[0]] + Without(ns[1..], x))[1..] == Without(ns[1..], x);
    }
  }

  /** The parameters a merge needs: two distinct adjacent live nodes, a
      finite distance and a chain of ids. */
  ghost predicate Mergeable(st: State, a: nat, b: nat, d: Dist, chain: seq<int>)
  {
    && Wf(st) && a in st.g.adj && b in st.g.adj[a] && a != b && d.Finite?
    && (forall i :: 0 <= i < |chain| ==> chain[i] >= 0)
  }

  /** Moving the children of the new row from the live nodes to the
      children multiset and adding the fresh id `k` keeps the partition of
      0..k. */
  lemma MergePartition(rows: seq<Row>, nodes: seq<nat>, nodes': seq<nat>, cc: seq<Comp>, k: nat, r: Row)
    requires Children(rows) + multiset(nodes) + Reps(cc) == multiset(Range(k))
    requires r.a != r.b && multiset(nodes)[r.a] == 1 && multiset(nodes)[r.b] == 1
    requires multiset(nodes') == multiset(nodes) - multiset{r.a, r.b} + multiset{k}
    ensures Children(rows + [r]) + multiset(nodes') + Reps(cc) == multiset(Range(k + 1))
  {
    ChildrenAppend(rows, r);
    RangeAppend(k);
  }

  /** The merged node's size replaces the sizes of its two children in the
      total over the live nodes. */
  lemma MergeSum(nodes: seq<nat>, s: map<nat, nat>, a: nat, b: nat, k: nat, z: nat)
    requires Distinct(nodes) && a in nodes && b in nodes && a != b && k !in nodes
    requires a in s && b in s && z == s[a] + s[b]
    ensures SumSizes(Without(Without(nodes, a), b) + [k], (s - {a, b})[k := z]) == SumSizes(nodes, s)
  {
    var s' := (s - {a, b})[k := z];
    var wa := Without(nodes, a);
    var ww := Without(wa, b);
    WithoutDistinct(nodes, a);
    SumSizesRemove(nodes, s, a);
    assert b in wa;
    SumSizesRemove(wa, s, b);
    assert SumSizes(ww, s) + s[a] + s[b] == SumSizes(nodes, s);
    SumSizesAgree(ww, s, s');
    SumSizesAppend(ww, k, s');
  }

  /** How the fields of a state change when `a` and `b` merge at distance
      `d` into the node `st.next`. */
  ghost predicate Merged(st: State, st': State, a: nat, b: nat, d: Dist)
  {
    && a in st.s && b in st.s
    && st'.g.nodes == Without(Without(st.g.nodes, a), b) + [st.next]
    && st'.s == (st.s - {a, b})[st.next := st.s[a] + st.s[b]]
    && st'.rows == st.rows + [Row(a, b, d, st.s[a] + st.s[b])]
    && st'.cc == st.cc && st'.next == st.next + 1
  }

  /** Unfolds `Merge` into the fields the invariant proofs read. */
  lemma MergeFields(st: State, a: nat, b: nat, d: Dist, chain: seq<int>)
    requires Live(st, a) && Live(st, b)
    ensures Merged(st, Merge(st, a, b, d, chain), a, b, d)
  {
  }

  /** Two different live nodes of a duplicate-free node order whose ids
      all lie below the counter. */
  ghost predicate Fresh(st: State, a: nat, b: nat)
  {
    && Distinct(st.g.nodes) && a in st.g.nodes && b in st.g.nodes && a != b
    && forall x :: x in st.g.nodes ==> x < st.next
  }

  /** What the accounting half of the invariant needs to survive a merge. */
  ghost predicate MergeStep(st: State, st': State, n: nat, a: nat, b: nat, d: Dist)
  {
    && Shape(n, st.g.nodes, st.rows, st.cc, st.next) && Sized(n, st.g.nodes, st.s, st.rows, st.cc)
    && Fresh(st, a, b) && d.Finite? && Merged(st, st', a, b, d)
  }

  /** A merge keeps the loop invariant. */
  lemma MergeInv(st: State, n: nat, a: nat, b: nat, d: Dist, chain: seq<int>)
    requires Inv(st, n) && Mergeable(st, a, b, d, chain)
    ensures Inv(Merge(st, a, b, d, chain), n)
  {
    var st' := Merge(st, a, b, d, chain);
    MergeWf(st, a, b, d, chain);
    MergeFields(st, a, b, d, chain);
    ShapeStep(st, st', n, a, b, d);
    SizedStep(st, st', n, a, b, d);
  }

  lemma ShapeStep(st: State, st': State, n: nat, a: nat, b: nat, d: Dist)
    requires MergeStep(st, st', n, a, b, d)
    ensures Shape(n, st'.g.nodes, st'.rows, st'.cc, st'.next)
  {
    ShapeMerge(n, st.g.nodes, st.rows, st.cc, st.next, Row(a, b, d, st.s[a] + st.s[b]),
               st'.g.nodes, st'.rows, st'.next);
  }

  lemma SizedStep(st: State, st': State, n: nat, a: nat, b: nat, d: Dist)
    requires MergeStep(st, st', n, a, b, d)
    ensures Sized(n, st'.g.nodes, st'.s, st'.rows, st'.cc)
  {
    SizedMerge(n, st.g.nodes, st.s, st.rows, st.cc, Row(a, b, d, st.s[a] + st.s[b]), st.next,
               st'.g.nodes, st'.s, st'.rows);
  }

  /** Merging the two live nodes of row `r` into the fresh id `next` keeps
      every id accounted for. */
  lemma ShapeMerge(n: nat, nodes: seq<nat>, rows: seq<Row>, cc: seq<Comp>, next: nat, r: Row,
                   nodes': seq<nat>, rows': seq<Row>, next': nat)
    requires Shape(n, nodes, rows, cc, next)
    requires Distinct(nodes) && r.a in nodes && r.b in nodes && r.a != r.b
    requires forall x :: x in nodes ==> x < next
    requires nodes' == Without(Without(nodes, r.a), r.b) + [next]
    requires rows' == rows + [r] && next' == next + 1
    ensures Shape(n, nodes', rows', cc, next')
  {
    assert multiset(nodes)[r.a] == 1 && multiset(nodes)[r.b] == 1 by {
      DistinctCount(nodes, r.a);
      DistinctCount(nodes, r.b);
    }
    ContractNodes(nodes, r.a, r.b, next);
    MergePartition(rows, nodes, nodes', cc, next, r);
  }

  /** Emitting the row `r` of a merge keeps the sizes consistent: the new
      node `k` has the sum of its children's sizes, which leave the live total. */
  lemma SizedMerge(n: nat, nodes: seq<nat>, s: map<nat, nat>, rows: seq<Row>, cc: seq<Comp>, r: Row, k: nat,
                   nodes': seq<nat>, s': map<nat, nat>, rows': seq<Row>)
    requires Sized(n, nodes, s, rows, cc) && k == n + |rows|
    requires Distinct(nodes) && r.a in nodes && r.b in nodes && r.a != r.b
    requires forall x :: x in nodes ==> x < k
    requires r.a in s && r.b in s && r.size == s[r.a] + s[r.b] && r.dist.Finite?
    requires nodes' == Without(Without(nodes, r.a), r.b) + [k]
    requires s' == (s - {r.a, r.b})[k := r.size] && rows' == rows + [r]
    ensures Sized(n, nodes', s', rows', cc)
  {
    assert Ordered(rows', n) && SizesAdd(rows', n) by {
      OrderedAppend(rows, n, r);
    }
    forall x | x in nodes' ensures x in s' && s'[x] == Size(rows', n, x) {
      SizeAppend(rows, n, r);
      if x != k {
        assert x in nodes && x != r.a && x != r.b;
      }
    }
    assert forall i :: 0 <= i < |cc| ==> cc[i].size == Size(rows', n, cc[i].rep) by {
      SizeAppend(rows, n, r);
    }
    assert SumSizes(nodes', s') == SumSizes(nodes, s) by {
      MergeSum(nodes, s, r.a, r.b, k, r.size);
    }
  }

  /** How the fields of a state change when `a` is retired as a component. */
  ghost predicate Retired(st: State, st': State, a: nat)
  {
    && a in st.s
    && st'.g.nodes == Without(st.g.nodes, a)
    && st'.s == st.s - {a}
    && st'.cc == st.cc + [Comp(a, st.s[a])]
    && st'.rows == st.rows && st'.next == st.next
  }

  /** Unfolds `Retire` into the fields the invariant proofs read. */
  lemma RetireFields(st: State, a: nat)
    requires Live(st, a)
    ensures Retired(st, Retire(st, a), a)
  {
  }

  /** What the accounting half of the invariant needs to survive a retirement. */
  ghost predicate RetireStep(st: State, st': State, n: nat, a: nat)
  {
    && Shape(n, st.g.nodes, st.rows, st.cc, st.next) && Sized(n, st.g.nodes, st.s, st.rows, st.cc)
    && Distinct(st.g.nodes) && a in st.g.nodes && a < st.next && Retired(st, st', a)
  }

  /** Retiring a node keeps the loop invariant. */
  lemma RetireInv(st: State, n: nat, a: nat)
    requires Inv(st, n) && a in st.g.adj
    ensures Inv(Retire(st, a), n)
  {
    var st' := Retire(st, a);
    RetireWf(st, a);
    RetireFields(st, a);
    assert a in st.g.nodes;
    ShapeRetireStep(st, st', n, a);
    SizedRetireStep(st, st', n, a);
  }

  lemma ShapeRetireStep(st: State, st': State, n: nat, a: nat)
    requires RetireStep(st, st', n, a)
    ensures Shape(n, st'.g.nodes, st'.rows, st'.cc, st'.next)
  {
    ShapeRetire(n, st.g.nodes, st.rows, st.cc, st.next, Comp(a, st.s[a]), st'.g.nodes, st'.cc);
  }

  lemma SizedRetireStep(st: State, st': State, n: nat, a: nat)
    requires RetireStep(st, st', n, a)
    ensures Sized(n, st'.g.nodes, st'.s, st'.rows, st'.cc)
  {
    SizedRetire(n, st.g.nodes, st.s, st.rows, st.cc, Comp(a, st.s[a]), st'.g.nodes, st'.s, st'.cc);
  }

  /** Moving a live node over to the components keeps every id accounted for. */
  lemma ShapeRetire(n: nat, nodes: seq<nat>, rows: seq<Row>, cc: seq<Comp>, next: nat, c: Comp,
                    nodes': seq<nat>, cc': seq<Comp>)
    requires Shape(n, nodes, rows, cc, next)
    requires Distinct(nodes) && c.rep in nodes
    requires nodes' == Without(nodes, c.rep) && cc' == cc + [c]
    ensures Shape(n, nodes', rows, cc', next)
  {
    WithoutDistinct(nodes, c.rep);
    RepsAppend(cc, c);
  }

  /** A retired node takes its size along: the live total loses exactly
      what the component total gains. */
  lemma SizedRetire(n: nat, nodes: seq<nat>, s: map<nat, nat>, rows: seq<Row>, cc: seq<Comp>, c: Comp,
                    nodes': seq<nat>, s': map<nat, nat>, cc': seq<Comp>)
    requires Sized(n, nodes, s, rows, cc)
    requires Distinct(nodes) && c.rep in nodes && c.rep < n + |rows|
    requires c.rep in s && c.size == s[c.rep]
    requires nodes' == Without(nodes, c.rep) && s' == s - {c.rep} && cc' == cc + [c]
    ensures Sized(n, nodes', s', rows, cc')
  {
    RepsAppend(cc, c);
    assert SumSizes(nodes', s') + c.size == SumSizes(nodes, s) by {
      SumSizesRemove(nodes, s, c.rep);
      SumSizesAgree(nodes', s, s');
    }
  }

  /** One successful step keeps the loop invariant. */
  lemma StepInv(st: State, n: nat, r: State)
    requires Inv(st, n) && Pending(st)
    requires Step(st) == Ok(r)
    ensures Inv(r, n)
  {
    var a := Top(st);
    var rest := Below(st);
    assert a >= 0 && a as nat in st.g.nodes;
    var p := NearestOfTop(st);
    if rest != [] && p.b == rest[|rest| - 1] {
      StepMergeStep(st, n, r, a as nat, p);
    } else if rest == [] && p.b < 0 {
      StepRetireInv(st, n, r, a as nat);
    } else {
      StepExtendInv(st, n, r);
    }
  }

  lemma StepMergeStep(st: State, n: nat, r: State, a: nat, p: Pick)
    requires Inv(st, n) && Pending(st)
    requires Top(st) == a as int && a in st.g.nodes && p == NearestOfTop(st)
    requires Below(st) != [] && p.b == Below(st)[|Below(st)| - 1]
    requires Step(st) == Ok(r)
    ensures Inv(r, n)
  {
    StepMerges(st, a, p);
    StepMergeInv(st, n, a, p);
  }

  lemma StepRetireInv(st: State, n: nat, r: State, a: nat)
    requires Inv(st, n) && Pending(st)
    requires Top(st) == a as int && a in st.g.nodes
    requires Below(st) == [] && NearestOfTop(st).b < 0
    requires Step(st) == Ok(r)
    ensures Inv(r, n)
  {
    StepRetires(st, a);
    RetireInv(st, n, a);
  }

  lemma StepExtendInv(st: State, n: nat, r: State)
    requires Inv(st, n) && Pending(st)
    requires Top(st) >= 0 && Top(st) as nat in st.g.nodes
    requires Below(st) == [] ==> NearestOfTop(st).b >= 0
    requires Below(st) != [] ==> NearestOfTop(st).b != Below(st)[|Below(st)| - 1]
    requires Step(st) == Ok(r)
    ensures Inv(r, n)
  {
    StepExtends(st);
    ChainInv(st, n, Below(st), Top(st), NearestOfTop(st).b);
  }

  /** Pushing ids back onto the chain, with anything on top, keeps the loop
      invariant. */
  lemma ChainInv(st: State, n: nat, rest: seq<int>, a: int, b: int)
    requires Inv(st, n)
    requires (forall i :: 0 <= i < |rest| ==> rest[i] >= 0) && a >= 0
    ensures Inv(st.(chain := rest + [a, b]), n)
  {
    var chain := rest + [a, b];
    var st2 := st.(chain := chain);
    assert st2.g == st.g && MetricOf(st2) == MetricOf(st);
    assert forall i :: 0 <= i < |chain| - 1 ==> chain[i] >= 0 by {
      forall i | 0 <= i < |chain| - 1 ensures chain[i] >= 0 {
        if i < |rest| {
          assert chain[i] == rest[i];
        }
      }
    }
    assert Wf(st2);
  }

  /** Merging the reciprocal pair on top of the chain keeps the loop invariant. */
  lemma StepMergeInv(st: State, n: nat, a: nat, p: Pick)
    requires Inv(st, n) && Pending(st)
    requires Top(st) == a as int && a in st.g.nodes && p == NearestOfTop(st)
    requires Below(st) != [] && p.b == Below(st)[|Below(st)| - 1]
    ensures p.b >= 0 && Inv(Merge(st, a, p.b as nat, p.d, Below(st)[..|Below(st)| - 1]), n)
  {
    var c := Below(st)[..|Below(st)| - 1];
    TopMergeable(st, a, p);
    var b := p.b as nat;
    MergeInv(st, n, a, b, p.d, c);
  }

  /** The state before the first step for `n` nodes enumerated in `order`:
      every cluster has size 1, the chain, the rows and the components are
      empty, and the id counter starts at n. */
  function Start(order: seq<nat>, adj: Adj, w: map<nat, real>, wtot: real, alpha: nat, beta: nat): (st: State)
    ensures st.g.nodes == order && st.next == |order|
    ensures forall x: nat :: x in st.s <==> x < |order|
    ensures forall x :: x in st.s ==> st.s[x] == 1
    ensures st.chain == [] && st.rows == [] && st.cc == []
  {
    RangeDistinct(|order|);
    State(Graph(order, adj), w, map x | x in Range(|order|) :: 1, wtot, alpha, beta, [], [], [], |order|)
  }

  /** What the accounting pass hands the loop: a duplicate-free enumeration
      of 0..n-1, a symmetric adjacency and weighted degrees over exactly
      those nodes, and a positive total once any edge exists. */
  ghost predicate Accounted(order: seq<nat>, adj: Adj, w: map<nat, real>, wtot: real)
  {
    && Distinct(order) && (forall x: nat :: x in order <==> x < |order|)
    && Symmetric(adj) && (forall x: nat :: x in adj <==> x < |order|) && (forall x: nat :: x in w <==> x < |order|)
    && (forall x, y :: x in adj && y in adj[x] ==> wtot > 0.0)
  }

  /** The loop invariant holds before the first step. */
  lemma StartInv(order: seq<nat>, adj: Adj, w: map<nat, real>, wtot: real, alpha: nat, beta: nat)
    requires Accounted(order, adj, w, wtot)
    ensures Inv(Start(order, adj, w, wtot, alpha, beta), |order|)
  {
    var st := Start(order, adj, w, wtot, alpha, beta);
    StartWf(order, adj, w, wtot, alpha, beta);
    StartShape(order);
    StartSized(order, st.s);
  }

  lemma StartWf(order: seq<nat>, adj: Adj, w: map<nat, real>, wtot: real, alpha: nat, beta: nat)
    requires Accounted(order, adj, w, wtot)
    ensures Wf(Start(order, adj, w, wtot, alpha, beta))
  {
  }

  /** Before any merge the live nodes are exactly the ids 0..n-1. */
  lemma StartShape(order: seq<nat>)
    requires Distinct(order) && forall x: nat :: x in order <==> x < |order|
    ensures Shape(|order|, order, [], [], |order|)
  {
    RangeDistinct(|order|);
    SameMembersSameMultiset(order, Range(|order|));
  }

  /** Before any merge every live cluster is a single leaf. */
  lemma StartSized(order: seq<nat>, s: map<nat, nat>)
    requires forall x: nat :: x in order <==> x < |order|
    requires forall x: nat :: x in s <==> x < |order|
    requires forall x :: x in s ==> s[x] == 1
    ensures Sized(|order|, order, s, [], [])
  {
    SumSizesOnes(order, s);
  }

  lemma {:induction false} SumSizesOnes(ns: seq<nat>, s: map<nat, nat>)
    requires forall x :: x in ns ==> x in s && s[x] == 1
    ensures SumSizes(ns, s) == |ns|
  {
    if ns != [] {
      SumSizesOnes(ns[1..], s);
    }
  }

  /** `x` has an edge to some node other than itself. */
  ghost predicate HasNeighbour(adj: Adj, x: nat)
  {
    exists v :: Candidate(adj, x, v)
  }

  /** The chain never holds the -1 mark: every entry is an id already
      issued, and every live entry above the bottom still has a neighbour.
      An entry above the bottom was pushed as a neighbour of the entry below
      it, and a merge hands that edge on to the new node with a positive
      summed weight, so such an entry never runs out of neighbours. */
  ghost predicate MarkFree(st: State)
  {
    ChainMarkFree(st.chain, st.g.adj, st.next)
  }

  ghost predicate ChainMarkFree(ch: seq<int>, adj: Adj, next: nat)
  {
    && (forall i :: 0 <= i < |ch| ==> 0 <= ch[i] < next as int)
    && (forall i :: 0 < i < |ch| && ch[i] as nat in adj ==> HasNeighbour(adj, ch[i] as nat))
  }

  lemma SeededMarkFree(st: State)
    requires Steppable(st) && MarkFree(st)
    ensures ChainMarkFree(Seeded(st), st.g.adj, st.next)
  {
  }

  /** Pushing an issued id that has a neighbour on top of the popped entry
      keeps a chain free of the mark. */
  lemma PushChain(rest: seq<int>, a: int, b: nat, adj: Adj, next: nat)
    requires ChainMarkFree(rest + [a], adj, next) && b < next && HasNeighbour(adj, b)
    ensures ChainMarkFree(rest + [a, b as int], adj, next)
  {
    var ch, ch' := rest + [a], rest + [a, b as int];
    assert forall i :: 0 <= i <= |rest| ==> ch'[i] == ch[i];
    assert ch'[|rest| + 1] == b as int;
  }

  lemma SeededSplit(st: State)
    requires Steppable(st)
    ensures Seeded(st) == Below(st) + [Top(st)]
  {
  }

  /** Popping entries keeps a chain free of the mark. */
  lemma PopChain(ch: seq<int>, k: nat, adj: Adj, next: nat)
    requires ChainMarkFree(ch, adj, next) && k <= |ch|
    ensures ChainMarkFree(ch[..k], adj, next)
  {
  }

  /** A live node popped above a non-empty chain always has a candidate,
      so the scan never answers with the -1 mark there. */
  lemma MarkNeverPushed(st: State)
    requires Steppable(st) && MarkFree(st)
    requires Top(st) >= 0 && Top(st) as nat in st.g.nodes && Below(st) != []
    ensures NearestOfTop(st).b >= 0
  {
  }

  /** A merge keeps every other live node's neighbour: an edge to `a` or
      `b` becomes an edge to the new node. */
  lemma NeighbourKept(st: State, a: nat, b: nat, d: Dist, chain: seq<int>, x: nat)
    requires Wf(st) && Live(st, a) && Live(st, b) && a != b && st.next !in st.g.adj
    requires x in st.g.adj && x != a && x != b && HasNeighbour(st.g.adj, x)
    ensures HasNeighbour(Merge(st, a, b, d, chain).g.adj, x)
  {
    var v :| Candidate(st.g.adj, x, v);
    var v' := if v == a || v == b then st.next else v;
    ContractNeighbour(st.g, a, b, st.next, x, v);
    assert Merge(st, a, b, d, chain).g == Contract(st.g, a, b, st.next);
    assert Candidate(Merge(st, a, b, d, chain).g.adj, x, v');
  }

  lemma ContractNeighbour(g: Graph, a: nat, b: nat, u: nat, x: nat, v: nat)
    requires Valid(g) && a in g.adj && b in g.adj && a != b && u !in g.adj
    requires x != a && x != b && Candidate(g.adj, x, v)
    ensures Candidate(Contract(g, a, b, u).adj, x, if v == a || v == b then u else v)
  {
    var h := Contract(g, a, b, u).adj;
    ContractEdges(g, a, b, u);
    ContractValid(g, a, b, u);
    assert v in g.adj && x != u;
    if v == a || v == b {
      assert W(g.adj, a, x) >= 0.0 && W(g.adj, b, x) >= 0.0;
      assert W(g.adj, v, x) == W(g.adj, x, v) > 0.0;
      assert W(h, u, x) > 0.0;
      assert W(h, x, u) == W(h, u, x);
    } else {
      assert W(h, x, v) == W(g.adj, x, v) > 0.0;
    }
  }

  /** Every successful step keeps the chain free of the mark. */
  lemma StepMarkFree(st: State, r: State)
    requires Steppable(st) && MarkFree(st)
    requires Step(st) == Ok(r)
    ensures MarkFree(r)
  {
    var a := Top(st);
    var rest := Below(st);
    assert a >= 0 && a as nat in st.g.nodes;
    var p := NearestOfTop(st);
    if rest != [] && p.b == rest[|rest| - 1] {
      MergeMarkFree(st, r, a as nat, p);
    } else if rest == [] && p.b < 0 {
      StepRetires(st, a as nat);
    } else {
      PushMarkFree(st, r);
    }
  }

  lemma MergeMarkFree(st: State, r: State, a: nat, p: Pick)
    requires Steppable(st) && MarkFree(st)
    requires Top(st) == a as int && a in st.g.nodes && p == NearestOfTop(st)
    requires Below(st) != [] && p.b == Below(st)[|Below(st)| - 1]
    requires Step(st) == Ok(r)
    ensures MarkFree(r)
  {
    StepMerges(st, a, p);
    SeededMarkFree(st);
    var ch := Seeded(st);
    PopChain(ch, |ch| - 1, st.g.adj, st.next);
    var rest := Below(st);
    PopChain(rest, |rest| - 1, st.g.adj, st.next);
    MergeChainMarkFree(st, a, p.b as nat, p.d, rest[..|rest| - 1]);
  }

  /** A merge whose remaining chain is free of the mark leaves a chain free
      of the mark. */
  lemma MergeChainMarkFree(st: State, a: nat, b: nat, d: Dist, c: seq<int>)
    requires Wf(st) && Live(st, a) && Live(st, b) && a != b
    requires ChainMarkFree(c, st.g.adj, st.next)
    ensures MarkFree(Merge(st, a, b, d, c))
  {
    var r := Merge(st, a, b, d, c);
    assert st.next !in st.g.adj;
    assert r.g.adj.Keys == st.g.adj.Keys - {a, b} + {st.next};
    forall i | 0 < i < |c| && c[i] as nat in r.g.adj
      ensures HasNeighbour(r.g.adj, c[i] as nat)
    {
      NeighbourKept(st, a, b, d, c, c[i] as nat);
    }
  }

  lemma PushMarkFree(st: State, r: State)
    requires Steppable(st) && MarkFree(st)
    requires Top(st) >= 0 && Top(st) as nat in st.g.nodes
    requires Below(st) == [] ==> NearestOfTop(st).b >= 0
    requires Below(st) != [] ==> NearestOfTop(st).b != Below(st)[|Below(st)| - 1]
    requires Step(st) == Ok(r)
    ensures MarkFree(r)
  {
    StepExtends(st);
    SeededMarkFree(st);
    var a, p := Top(st) as nat, NearestOfTop(st);
    if Below(st) != [] {
      MarkNeverPushed(st);
    }
    var b := p.b as nat;
    assert Candidate(st.g.adj, a, b);
    assert W(st.g.adj, b, a) == W(st.g.adj, a, b) > 0.0;
    assert Candidate(st.g.adj, b, a);
    assert b < st.next;
    SeededSplit(st);
    PushChain(Below(st), Top(st), b, st.g.adj, st.next);
  }

  /** With the chain free of the mark, a step fails only when it pops a
      node that is no longer live, never on the -1 mark. */
  lemma StepFailsOnlyDead(st: State)
    requires Steppable(st) && MarkFree(st)
    ensures Step(st).Err? <==> Top(st) as nat !in st.g.nodes
    ensures Step(st).Err? ==> Step(st).error == NodeNotInGraph(Top(st)) && Top(st) >= 0
  {
  }

  /** The loop ran to completion: no live node and no chain are left. */
  ghost predicate Done(st: State, n: nat)
  {
    Inv(st, n) && st.g.nodes == [] && st.chain == []
  }

  /** The chain loop: steps until no live node is left. `fuel` bounds the
      number of steps; a run that needs more ends in `OutOfFuel`, and a step
      that pops an id that is not a live node ends the run with its error. */
  method RunChain(st0: State, n: nat, fuel: nat) returns (r: Result<State, Failure>)
    requires Inv(st0, n)
    ensures r.Ok? ==> Done(r.value, n)
    ensures r.Ok? ==> r.value.wtot == st0.wtot
    ensures MarkFree(st0) && r.Err? && r.error.NodeNotInGraph? ==> r.error.node >= 0
  {
    var st := st0;
    var k := fuel;
    while Pending(st)
      invariant Inv(st, n)
      invariant st.wtot == st0.wtot
      invariant MarkFree(st0) ==> MarkFree(st)
      decreases k
    {
      if k == 0 {
        return Err(OutOfFuel);
      }
      var step := Step(st);
      if step.Err? {
        if MarkFree(st0) {
          StepFailsOnlyDead(st);
        }
        return Err(step.error);
      }
      StepInv(st, n, step.value);
      if MarkFree(st0) {
        StepMarkFree(st, step.value);
      }
      st := step.value;
      k := k - 1;
    }
    return Ok(st);
  }
}
