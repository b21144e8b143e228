/** Dendrogram records: merge distances (finite or infinite), the rows the
    clustering emits and the component records the chain engine collects,
    with the structural facts the rest of the model states about them. */
module Dendrograms {

  /** A merge distance: finite, or the infinity used to join components. */
  datatype Dist = Finite(v: real) | Inf

  predicate DistLt(x: Dist, y: Dist)
  {
    x.Finite? && (y.Inf? || x.v < y.v)
  }

  predicate DistLe(x: Dist, y: Dist)
  {
    y.Inf? || (x.Finite? && x.v <= y.v)
  }

  /** One merge: children `a` and `b`, distance, and size of the new cluster.
      The row at index i creates node n + i. */
  datatype Row = Row(a: nat, b: nat, dist: Dist, size: nat)

  /** A connected component retired by the chain engine: its last cluster
      and that cluster's size. */
  datatype Comp = Comp(rep: nat, size: nat)

  /** The multiset of node ids the rows use as children. */
  function Children(d: seq<Row>): multiset<nat>
  {
    if d == [] then multiset{}
    else Children(d[..|d| - 1]) + multiset{d[|d| - 1].a, d[|d| - 1].b}
  }

  /** The multiset of component representatives. */
  function Reps(cc: seq<Comp>): multiset<nat>
  {
    if cc == [] then multiset{} else Reps(cc[..|cc| - 1]) + multiset{cc[|cc| - 1].rep}
  }

  /** Total size of the recorded components. */
  function CompSizes(cc: seq<Comp>): nat
  {
    if cc == [] then 0 else CompSizes(cc[..|cc| - 1]) + cc[|cc| - 1].size
  }

  lemma {:induction false} RepsCons(c: Comp, cc: seq<Comp>)
    ensures Reps([c] + cc) == multiset{c.rep} + Reps(cc)
    ensures CompSizes([c] + cc) == c.size + CompSizes(cc)
  {
    if cc != [] {
      var init := cc[..|cc| - 1];
      assert ([c] + cc)[..|cc|] == [c] + init;
      RepsCons(c, init);
    }
  }

  lemma ChildrenAppend(d: seq<Row>, r: Row)
    ensures Children(d + [r]) == Children(d) + multiset{r.a, r.b}
  {
    assert (d + [r])[..|d|] == d;
  }

  lemma RepsAppend(cc: seq<Comp>, c: Comp)
    ensures Reps(cc + [c]) == Reps(cc) + multiset{c.rep}
    ensures CompSizes(cc + [c]) == CompSizes(cc) + c.size
  {
    assert (cc + [c])[..|cc|] == cc;
  }

  /** Size of the cluster `x` as recorded in the rows: a leaf has size 1 and
      the node n + i has the size stored in row i. */
  function Size(d: seq<Row>, n: nat, x: nat): nat
  {
    if x < n then 1 else if x - n < |d| then d[x - n].size else 0
  }

  /** Every row only merges nodes that exist before it: leaves or nodes
      created by earlier rows. */
  ghost predicate Ordered(d: seq<Row>, n: nat)
  {
    forall i :: 0 <= i < |d| ==> d[i].a < n + i && d[i].b < n + i
  }

  /** Row i's size is the sum of its children's sizes. */
  predicate Joins(d: seq<Row>, n: nat, i: nat)
    requires i < |d|
  {
    d[i].size == Size(d, n, d[i].a) + Size(d, n, d[i].b)
  }

  /** Every row's size is the sum of its children's sizes. */
  ghost predicate SizesAdd(d: seq<Row>, n: nat)
  {
    forall i: nat :: i < |d| ==> Joins(d, n, i)
  }

  /** Appending a row does not change the size of any node that already existed. */
  lemma SizeAppend(d: seq<Row>, n: nat, r: Row)
    ensures forall x: nat :: x < n + |d| ==> Size(d + [r], n, x) == Size(d, n, x)
  {
  }

  lemma OrderedAppend(d: seq<Row>, n: nat, r: Row)
    requires Ordered(d, n) && SizesAdd(d, n)
    requires r.a < n + |d| && r.b < n + |d|
    requires r.size == Size(d, n, r.a) + Size(d, n, r.b)
    ensures Ordered(d + [r], n) && SizesAdd(d + [r], n)
    ensures Size(d + [r], n, n + |d|) == r.size
  {
    SizeAppend(d, n, r);
    var e := d + [r];
    forall i: nat | i < |e| ensures Joins(e, n, i) {
      if i < |d| {
        assert e[i] == d[i] && Joins(d, n, i);
      }
    }
  }
}
