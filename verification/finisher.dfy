/** The component finisher: once the chain loop has retired every node, the
    connected components are joined one by one at infinite distance, so the
    dendrogram has a single root. */
module Finisher {
  import opened Seqs
  import opened Dendrograms

  /** The joins as the loop performs them: the cluster `a` of size `s` is
      joined with each component of `rest` in order; every join creates the
      next synthetic id, starting at `u`, and that new cluster is the one the
      next component joins. */
  function Chain(a: nat, s: nat, rest: seq<Comp>, u: nat): (d: seq<Row>)
    ensures |d| == |rest|
    decreases |rest|
  {
    if rest == [] then []
    else [Row(a, rest[0].rep, Inf, s + rest[0].size)] + Chain(u, s + rest[0].size, rest[1..], u + 1)
  }

  /** The cluster that joins component i: the starting cluster for the first
      join, the node created by join i - 1 after that. */
  function Acc(a: nat, u: nat, i: nat): nat
  {
    if i == 0 then a else u + i - 1
  }

  /** Join i, read off directly: it merges `Acc(a, u, i)` with component i at
      infinite distance, and the result holds `s` plus the sizes of
      components 0..i. */
  function JoinRow(a: nat, s: nat, rest: seq<Comp>, u: nat, i: nat): Row
    requires i < |rest|
  {
    Row(Acc(a, u, i), rest[i].rep, Inf, s + CompSizes(rest[..i + 1]))
  }

  /** The loop's joins agree with the closed form. */
  lemma {:induction false} ChainClosed(a: nat, s: nat, rest: seq<Comp>, u: nat)
    ensures forall i :: 0 <= i < |rest| ==> Chain(a, s, rest, u)[i] == JoinRow(a, s, rest, u, i)
    decreases |rest|
  {
    if rest != [] {
      var c := rest[0];
      var rs := rest[1..];
      var tail := Chain(u, s + c.size, rs, u + 1);
      ChainClosed(u, s + c.size, rs, u + 1);
      forall i | 0 <= i < |rest| ensures Chain(a, s, rest, u)[i] == JoinRow(a, s, rest, u, i) {
        assert rest[..i + 1] == [c] + rs[..i];
        RepsCons(c, rs[..i]);
        if i > 0 {
          assert Chain(a, s, rest, u)[i] == tail[i - 1];
          assert rs[..i - 1 + 1] == rs[..i];
        }
      }
    }
  }

  /** The finisher: the accumulator starts from the last component found,
      then the others are joined in the order they were found; `u` is the
      next free synthetic id. */
  function Finish(cc: seq<Comp>, u: nat): (d: seq<Row>)
    requires cc != []
    ensures |d| == |cc| - 1
  {
    var last := cc[|cc| - 1];
    Chain(last.rep, last.size, cc[..|cc| - 1], u)
  }

  /** The node holding every leaf once the finisher is done. */
  function Root(cc: seq<Comp>, u: nat): nat
    requires cc != []
  {
    if |cc| == 1 then cc[0].rep else u + |cc| - 2
  }

  /** Each join of the finisher pairs the cluster built so far with the next
      component, at infinite distance, and records the running total size,
      which ends at the total size of all components. */
  lemma FinishRows(cc: seq<Comp>, u: nat)
    requires cc != []
    ensures var d := Finish(cc, u);
      var last := cc[|cc| - 1];
      && (forall i :: 0 <= i < |d| ==> d[i].dist == Inf && d[i].b == cc[i].rep)
      && (|d| > 0 ==> d[0].a == last.rep)
      && (forall i :: 0 < i < |d| ==> d[i].a == u + i - 1)
      && (|d| > 0 ==> d[|d| - 1].size == CompSizes(cc))
  {
    var last := cc[|cc| - 1];
    var rest := cc[..|cc| - 1];
    ChainClosed(last.rep, last.size, rest, u);
    if |rest| > 0 {
      assert rest[..|rest| - 1 + 1] == rest;
      assert cc[..|cc| - 1] == rest;
    }
  }

  /** The components as the engine leaves them: each representative is an
      existing node whose recorded size is the component's size. */
  ghost predicate Recorded(rows: seq<Row>, n: nat, cc: seq<Comp>)
  {
    forall k :: 0 <= k < |cc| ==> cc[k].rep < n + |rows| && cc[k].size == Size(rows, n, cc[k].rep)
  }

  /** Extending the rows keeps the size of every node that already existed. */
  lemma SizeExtend(rows: seq<Row>, f: seq<Row>, n: nat, x: nat)
    requires x < n + |rows|
    ensures Size(rows + f, n, x) == Size(rows, n, x)
  {
    if x >= n {
      assert (rows + f)[x - n] == rows[x - n];
    }
  }

  /** Join j of the finisher records the sum of its children's sizes. */
  lemma FinishJoin(rows: seq<Row>, n: nat, cc: seq<Comp>, j: nat)
    requires cc != [] && j < |cc| - 1 && Recorded(rows, n, cc)
    ensures Joins(rows + Finish(cc, n + |rows|), n, |rows| + j)
  {
    var u := n + |rows|;
    var f := Finish(cc, u);
    var d := rows + f;
    var last := cc[|cc| - 1];
    var rest := cc[..|cc| - 1];
    ChainClosed(last.rep, last.size, rest, u);
    assert d[|rows| + j] == f[j] == JoinRow(last.rep, last.size, rest, u, j);
    assert rest[j] == cc[j];
    SizeExtend(rows, f, n, cc[j].rep);
    assert CompSizes(rest[..j + 1]) == CompSizes(rest[..j]) + rest[j].size by {
      assert rest[..j + 1][..j] == rest[..j];
    }
    if j == 0 {
      SizeExtend(rows, f, n, last.rep);
      assert CompSizes(rest[..0]) == 0;
    } else {
      assert d[|rows| + j - 1] == f[j - 1] == JoinRow(last.rep, last.size, rest, u, j - 1);
    }
  }

  /** The finisher's joins only use existing nodes, record the sum of their
      children's sizes, and the root holds all the components' sizes. */
  lemma FinishSized(rows: seq<Row>, n: nat, cc: seq<Comp>)
    requires cc != [] && Ordered(rows, n) && SizesAdd(rows, n) && Recorded(rows, n, cc)
    ensures var d := rows + Finish(cc, n + |rows|);
      && Ordered(d, n) && SizesAdd(d, n)
      && Size(d, n, Root(cc, n + |rows|)) == CompSizes(cc)
  {
    var u := n + |rows|;
    var f := Finish(cc, u);
    var d := rows + f;
    assert Ordered(d, n) by {
      FinishRows(cc, u);
      forall i | 0 <= i < |d| ensures d[i].a < n + i && d[i].b < n + i {
        if i < |rows| {
          assert d[i] == rows[i];
        } else {
          assert d[i] == f[i - |rows|];
        }
      }
    }
    forall i: nat | i < |d| ensures Joins(d, n, i) {
      if i < |rows| {
        assert d[i] == rows[i] && Joins(rows, n, i);
        SizeExtend(rows, f, n, d[i].a);
        SizeExtend(rows, f, n, d[i].b);
      } else {
        FinishJoin(rows, n, cc, i - |rows|);
      }
    }
    FinishRootSize(rows, n, cc);
  }

  lemma FinishRootSize(rows: seq<Row>, n: nat, cc: seq<Comp>)
    requires cc != [] && Recorded(rows, n, cc)
    ensures Size(rows + Finish(cc, n + |rows|), n, Root(cc, n + |rows|)) == CompSizes(cc)
  {
    var u := n + |rows|;
    var f := Finish(cc, u);
    FinishRows(cc, u);
    if |cc| == 1 {
      SizeExtend(rows, f, n, cc[0].rep);
      assert cc == [] + [cc[0]];
    } else {
      assert (rows + f)[|rows| + |f| - 1] == f[|f| - 1];
    }
  }

  /** With `k` joins of the finisher done, every id below the counter `m`
      is a child of one row, the cluster built so far, or a component still
      to be joined. */
  ghost predicate Pool(rows: seq<Row>, n: nat, cc: seq<Comp>, k: nat, m: nat)
    requires cc != [] && k < |cc|
  {
    var u := n + |rows|;
    Children(rows + Finish(cc, u)[..k]) + multiset{Acc(cc[|cc| - 1].rep, u, k)} + Reps(cc[..|cc| - 1][k..]) == Ids(m)
  }

  lemma {:induction false} FinishPrefix(rows: seq<Row>, n: nat, cc: seq<Comp>, k: nat, m0: nat, m: nat)
    requires cc != [] && k < |cc| && m0 == n + |rows| && m == m0 + k
    requires Children(rows) + Reps(cc) == Ids(m0)
    ensures Pool(rows, n, cc, k, m)
  {
    if k == 0 {
      PoolStart(rows, n, cc, m0, m);
    } else {
      var k1, m1 := k - 1, m - 1;
      FinishPrefix(rows, n, cc, k1, m0, m1);
      PoolStep(rows, n, cc, k1, m1, k, m);
    }
  }

  lemma PoolStart(rows: seq<Row>, n: nat, cc: seq<Comp>, m0: nat, m: nat)
    requires cc != [] && m0 == n + |rows| && m == m0
    requires Children(rows) + Reps(cc) == Ids(m0)
    ensures Pool(rows, n, cc, 0, m)
  {
    assert rows + Finish(cc, n + |rows|)[..0] == rows;
    assert cc[..|cc| - 1][0..] == cc[..|cc| - 1];
    Shuffle(Children(rows), Reps(cc[..|cc| - 1]), cc[|cc| - 1].rep, Ids(m));
  }

  /** Join `k1` uses up the cluster built so far and component `k1`, and
      creates the id `m1`. */
  lemma PoolStep(rows: seq<Row>, n: nat, cc: seq<Comp>, k1: nat, m1: nat, k: nat, m: nat)
    requires cc != [] && k < |cc| && k == k1 + 1 && m == m1 + 1 && m == n + |rows| + k
    requires Pool(rows, n, cc, k1, m1)
    ensures Pool(rows, n, cc, k, m)
  {
    // The terms are spelled out as in `Pool`, so that the facts below match
    // its definition without arithmetic on the counter.
    FinishAt(cc, n + |rows|, k1);
    ChildrenStep(rows, Finish(cc, n + |rows|), k1, k, Acc(cc[|cc| - 1].rep, n + |rows|, k1), cc[..|cc| - 1][k1].rep);
    RepsStep(cc[..|cc| - 1], k1, k);
    IdsSnoc(m1, m, Acc(cc[|cc| - 1].rep, n + |rows|, k));
    PartitionStep(Children(rows + Finish(cc, n + |rows|)[..k1]), Children(rows + Finish(cc, n + |rows|)[..k]),
                  Acc(cc[|cc| - 1].rep, n + |rows|, k1), cc[..|cc| - 1][k1].rep,
                  Reps(cc[..|cc| - 1][k1..]), Reps(cc[..|cc| - 1][k..]), Ids(m1), Ids(m),
                  Acc(cc[|cc| - 1].rep, n + |rows|, k));
  }

  lemma ChildrenStep(rows: seq<Row>, f: seq<Row>, k1: nat, k: nat, a: nat, b: nat)
    requires k == k1 + 1 && k <= |f| && f[k1].a == a && f[k1].b == b
    ensures Children(rows + f[..k]) == Children(rows + f[..k1]) + multiset{a, b}
  {
    assert rows + f[..k] == (rows + f[..k1]) + [f[k1]];
    ChildrenAppend(rows + f[..k1], f[k1]);
  }

  lemma RepsStep(s: seq<Comp>, k1: nat, k: nat)
    requires k == k1 + 1 && k <= |s|
    ensures Reps(s[k1..]) == multiset{s[k1].rep} + Reps(s[k..])
  {
    assert s[k1..] == [s[k1]] + s[k..];
    RepsCons(s[k1], s[k..]);
  }

  /** Join i of the finisher pairs `Acc(last, u, i)` with component i. */
  lemma FinishAt(cc: seq<Comp>, u: nat, i: nat)
    requires i < |cc| - 1
    ensures Finish(cc, u)[i].a == Acc(cc[|cc| - 1].rep, u, i) && Finish(cc, u)[i].b == cc[..|cc| - 1][i].rep
  {
    var last := cc[|cc| - 1];
    ChainClosed(last.rep, last.size, cc[..|cc| - 1], u);
  }

  /** Joining `a` and `b` into the fresh id `x`. */
  lemma PartitionStep(c: multiset<nat>, c': multiset<nat>, a: nat, b: nat,
                      r: multiset<nat>, r': multiset<nat>, ids: multiset<nat>, ids': multiset<nat>, x: nat)
    requires c + multiset{a} + r == ids
    requires c' == c + multiset{a, b} && r == multiset{b} + r' && ids' == ids + multiset{x}
    ensures c' + multiset{x} + r' == ids'
  {
    assert c' + multiset{x} + r' == (c + multiset{a} + r) + multiset{x};
  }

  /** Once the finisher is done every id except the root is a child of
      exactly one row. */
  lemma FinishChildren(rows: seq<Row>, n: nat, cc: seq<Comp>)
    requires cc != []
    requires Children(rows) + Reps(cc) == multiset(Range(n + |rows|))
    ensures Children(rows + Finish(cc, n + |rows|)) + multiset{Root(cc, n + |rows|)}
            == multiset(Range(n + |rows + Finish(cc, n + |rows|)|))
  {
    forall m: nat | m == n + |rows| + |cc| - 1
      ensures Children(rows + Finish(cc, n + |rows|)) + multiset{Root(cc, n + |rows|)} == Ids(m)
    {
      var m0 := n + |rows|;
      StartIds(rows, n, cc, m0);
      FinishIds(rows, n, cc, m0, m);
    }
    IdsRangeAll();
  }

  lemma StartIds(rows: seq<Row>, n: nat, cc: seq<Comp>, m0: nat)
    requires m0 == n + |rows|
    requires Children(rows) + Reps(cc) == multiset(Range(n + |rows|))
    ensures Children(rows) + Reps(cc) == Ids(m0)
  {
    assert Range(n + |rows|) == Range(m0);
    IdsRange(m0);
    Trans(Children(rows) + Reps(cc), multiset(Range(m0)), Ids(m0));
  }

  lemma FinishIds(rows: seq<Row>, n: nat, cc: seq<Comp>, m0: nat, m: nat)
    requires cc != [] && m0 == n + |rows| && m == m0 + |cc| - 1
    requires Children(rows) + Reps(cc) == Ids(m0)
    ensures Children(rows + Finish(cc, n + |rows|)) + multiset{Root(cc, n + |rows|)} == Ids(m)
  {
    var k1 := |cc| - 1;
    FinishPrefix(rows, n, cc, k1, m0, m);
    FullTake(Finish(cc, n + |rows|), k1);
    assert Reps(cc[..|cc| - 1][k1..]) == multiset{};
    assert Acc(cc[|cc| - 1].rep, n + |rows|, k1) == Root(cc, n + |rows|);
    Drained(Children(rows + Finish(cc, n + |rows|)[..k1]), Children(rows + Finish(cc, n + |rows|)),
            Acc(cc[|cc| - 1].rep, n + |rows|, k1), Root(cc, n + |rows|), Reps(cc[..|cc| - 1][k1..]), Ids(m));
  }

}
