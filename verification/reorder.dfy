/** The final relabelling of the dendrogram: the rows are sorted by merge
    distance, rows at equal distance keep their relative order, and every
    synthetic id is renamed after the new position of the row that creates
    it, so that row t of the result again creates node n + t. */
module Reordering {
  import opened Seqs
  import opened Dendrograms

  /** Row i sorts before row j: its distance is smaller, or the distances
      are equal and i comes first. Infinity is larger than every finite
      distance. This is the order of a lexicographic sort whose primary key
      is the distance and whose secondary key is the row index. */
  predicate Before(D: seq<Row>, i: nat, j: nat)
    requires i < |D| && j < |D|
  {
    DistLt(D[i].dist, D[j].dist) || (D[i].dist == D[j].dist && i < j)
  }

  /** `Before` is a strict total order on the row indices. */
  lemma BeforeOrder(D: seq<Row>, i: nat, j: nat)
    requires i < |D| && j < |D|
    ensures !(Before(D, i, j) && Before(D, j, i))
    ensures i != j ==> Before(D, i, j) || Before(D, j, i)
  {
  }

  lemma BeforeTrans(D: seq<Row>, i: nat, j: nat, k: nat)
    requires i < |D| && j < |D| && k < |D|
    requires Before(D, i, j) && Before(D, j, k)
    ensures Before(D, i, k)
  {
  }

  /** The indices in `s` are rows of `D`, listed in `Before` order. */
  ghost predicate SortedBy(D: seq<Row>, s: seq<nat>)
  {
    && (forall k :: 0 <= k < |s| ==> s[k] < |D|)
    && (forall i, j :: 0 <= i < j < |s| ==> Before(D, s[i], s[j]))
  }

  /** Inserts row index `i` into `s` before the first index it sorts before. */
  function Insert(D: seq<Row>, i: nat, s: seq<nat>): (r: seq<nat>)
    requires i < |D| && forall k :: 0 <= k < |s| ==> s[k] < |D|
    ensures |r| == |s| + 1 && multiset(r) == multiset(s) + multiset{i}
    ensures forall x :: x in r <==> x == i || x in s
    ensures forall k :: 0 <= k < |r| ==> r[k] < |D|
  {
    if s == [] then [i]
    else if Before(D, i, s[0]) then [i] + s
    else
      assert s == [s[0]] + s[1..];
      [s[0]] + Insert(D, i, s[1..])
  }

  /** A row sorting before every element of a sorted list can head it. */
  lemma SortedCons(D: seq<Row>, x: nat, t: seq<nat>)
    requires x < |D| && SortedBy(D, t)
    requires forall k :: 0 <= k < |t| ==> Before(D, x, t[k])
    ensures SortedBy(D, [x] + t)
  {
    var e := [x] + t;
    forall a, b | 0 <= a < b < |e| ensures Before(D, e[a], e[b]) {
      if a == 0 {
        assert e[b] == t[b - 1];
      } else {
        assert e[a] == t[a - 1] && e[b] == t[b - 1];
      }
    }
  }

  lemma {:induction false} InsertSorted(D: seq<Row>, i: nat, s: seq<nat>)
    requires i < |D| && SortedBy(D, s) && i !in s
    ensures SortedBy(D, Insert(D, i, s))
  {
    if s == [] {
    } else if Before(D, i, s[0]) {
      forall k | 0 <= k < |s| ensures Before(D, i, s[k]) {
        if k > 0 {
          BeforeTrans(D, i, s[0], s[k]);
        }
      }
      SortedCons(D, i, s);
    } else {
      var t := s[1..];
      assert SortedBy(D, t) by {
        forall a, b | 0 <= a < b < |t| ensures Before(D, t[a], t[b]) {
          assert t[a] == s[a + 1] && t[b] == s[b + 1];
        }
      }
      InsertSorted(D, i, t);
      var r := Insert(D, i, t);
      assert Insert(D, i, s) == [s[0]] + r;
      BeforeOrder(D, i, s[0]);
      forall k | 0 <= k < |r| ensures Before(D, s[0], r[k]) {
        if r[k] != i {
          var j := IndexOf(t, r[k]);
          assert s[j + 1] == r[k];
        }
      }
      SortedCons(D, s[0], r);
    }
  }

  /** Insertion sort of the row indices `s` by `Before`. */
  function SortRows(D: seq<Row>, s: seq<nat>): (r: seq<nat>)
    requires forall k :: 0 <= k < |s| ==> s[k] < |D|
    ensures |r| == |s| && multiset(r) == multiset(s)
    ensures forall k :: 0 <= k < |r| ==> r[k] < |D|
  {
    if s == [] then []
    else
      assert s == [s[0]] + s[1..];
      Insert(D, s[0], SortRows(D, s[1..]))
  }

  /** Sorting indices that occur once each yields a sorted list. */
  lemma {:induction false} SortRowsSorted(D: seq<Row>, s: seq<nat>)
    requires forall k :: 0 <= k < |s| ==> s[k] < |D|
    requires Distinct(s)
    ensures SortedBy(D, SortRows(D, s))
  {
    if s != [] {
      var t := s[1..];
      SortRowsSorted(D, t);
      var r := SortRows(D, t);
      assert s[0] !in multiset(t);
      assert s[0] !in multiset(r);
      InsertSorted(D, s[0], r);
    }
  }

  /** Two lists of row indices sorted by `Before` with the same elements
      are equal: the sort has exactly one possible result. */
  lemma {:induction false} SortedUnique(D: seq<Row>, s: seq<nat>, t: seq<nat>)
    requires SortedBy(D, s) && SortedBy(D, t) && multiset(s) == multiset(t)
    ensures s == t
  {
    if s != [] {
      SortedHead(D, s, t);
      SortedTail(D, s);
      SortedTail(D, t);
      var s', t' := s[1..], t[1..];
      assert s == [s[0]] + s' && t == [t[0]] + t';
      assert multiset(s') == multiset(s) - multiset{s[0]};
      assert multiset(t') == multiset(t) - multiset{t[0]};
      SortedUnique(D, s', t');
    }
  }

  /** Sorted lists with the same elements start with the same element. */
  lemma SortedHead(D: seq<Row>, s: seq<nat>, t: seq<nat>)
    requires SortedBy(D, s) && SortedBy(D, t) && multiset(s) == multiset(t) && s != []
    ensures t != [] && s[0] == t[0]
  {
    assert s[0] in multiset(t);
    assert t[0] in multiset(s);
    var i :| 0 <= i < |s| && s[i] == t[0];
    var j :| 0 <= j < |t| && t[j] == s[0];
    assert t[0] == s[0] || Before(D, s[0], t[0]) by {
      if i > 0 {
        assert Before(D, s[0], s[i]);
      }
    }
    assert s[0] == t[0] || Before(D, t[0], s[0]) by {
      if j > 0 {
        assert Before(D, t[0], t[j]);
      }
    }
    BeforeOrder(D, s[0], t[0]);
  }

  lemma SortedTail(D: seq<Row>, s: seq<nat>)
    requires SortedBy(D, s) && s != []
    ensures SortedBy(D, s[1..])
  {
    var s' := s[1..];
    forall a, b | 0 <= a < b < |s'| ensures Before(D, s'[a], s'[b]) {
      assert s'[a] == s[a + 1] && s'[b] == s[b + 1];
    }
  }

  /** The order in which the rows are emitted: row `Index(D)[t]` of the
      input becomes row t of the output. */
  function Index(D: seq<Row>): (index: seq<nat>)
    ensures |index| == |D| && multiset(index) == multiset(Range(|D|))
    ensures forall t :: 0 <= t < |D| ==> index[t] < |D|
    ensures SortedBy(D, index)
  {
    RangeDistinct(|D|);
    SortRowsSorted(D, Range(|D|));
    SortRows(D, Range(|D|))
  }

  /** The number of leaves of a dendrogram with |D| rows. */
  function Leaves(D: seq<Row>): nat
  {
    |D| + 1
  }

  /** Every child is a leaf or a node some row creates, i.e. has an entry
      in the renaming. */
  ghost predicate Labelled(D: seq<Row>)
  {
    forall t :: 0 <= t < |D| ==> D[t].a < Leaves(D) + |D| && D[t].b < Leaves(D) + |D|
  }

  /** Every row is emitted. */
  lemma InIndex(D: seq<Row>, i: nat)
    requires i < |D|
    ensures i in Index(D)
  {
    assert Range(|D|)[i] == i;
    assert i in multiset(Range(|D|));
  }

  /** No row is emitted twice. */
  lemma IndexDistinct(D: seq<Row>, i: nat, j: nat)
    requires i < |D| && j < |D|
    ensures Index(D)[i] == Index(D)[j] ==> i == j
  {
    var index := Index(D);
    if i < j {
      assert Before(D, index[i], index[j]);
    } else if j < i {
      assert Before(D, index[j], index[i]);
    }
  }

  /** The renaming of ids: leaves keep their id, and the node created by
      row i is renamed after the position of row i in the sorted order. */
  function Relabel(D: seq<Row>, x: nat): (y: nat)
    requires x < Leaves(D) + |D|
    ensures y < Leaves(D) + |D|
    ensures y < Leaves(D) <==> x < Leaves(D)
  {
    if x < Leaves(D) then x
    else
      InIndex(D, x - Leaves(D));
      Leaves(D) + IndexOf(Index(D), x - Leaves(D))
  }

  /** The inverse renaming, read off the sorted order directly. */
  function Unlabel(D: seq<Row>, y: nat): (x: nat)
    requires y < Leaves(D) + |D|
    ensures x < Leaves(D) + |D|
  {
    if y < Leaves(D) then y else Leaves(D) + Index(D)[y - Leaves(D)]
  }

  lemma UnlabelRelabel(D: seq<Row>, x: nat)
    requires x < Leaves(D) + |D|
    ensures Unlabel(D, Relabel(D, x)) == x
  {
    if x >= Leaves(D) {
      InIndex(D, x - Leaves(D));
      var p := IndexOf(Index(D), x - Leaves(D));
      assert Relabel(D, x) == Leaves(D) + p;
      UnlabelNode(D, p);
    }
  }

  /** The node at position p of the sorted order was created by row Index(D)[p]. */
  lemma UnlabelNode(D: seq<Row>, p: nat)
    requires p < |D|
    ensures Unlabel(D, Leaves(D) + p) == Leaves(D) + Index(D)[p]
  {
  }

  lemma RelabelUnlabel(D: seq<Row>, y: nat)
    requires y < Leaves(D) + |D|
    ensures Relabel(D, Unlabel(D, y)) == y
  {
    if y >= Leaves(D) {
      var t := y - Leaves(D);
      var i := Index(D)[t];
      assert Unlabel(D, y) == Leaves(D) + i;
      RelabelNode(D, i);
      IndexDistinct(D, IndexOf(Index(D), i), t);
    }
  }

  /** The node created by row i is renamed after the position of row i. */
  lemma RelabelNode(D: seq<Row>, i: nat)
    requires i < |D|
    ensures i in Index(D)
    ensures Relabel(D, Leaves(D) + i) == Leaves(D) + IndexOf(Index(D), i)
  {
    InIndex(D, i);
  }

  /** The renaming is a bijection of the ids 0..2|D| that fixes the leaves:
      `Unlabel` undoes `Relabel` and the other way round. */
  lemma RelabelInverse(D: seq<Row>)
    ensures forall x: nat :: x < Leaves(D) ==> Relabel(D, x) == x
    ensures forall x: nat :: x < Leaves(D) + |D| ==> Unlabel(D, Relabel(D, x)) == x
    ensures forall y: nat :: y < Leaves(D) + |D| ==> Relabel(D, Unlabel(D, y)) == y
  {
    forall x: nat | x < Leaves(D) + |D| ensures Unlabel(D, Relabel(D, x)) == x {
      UnlabelRelabel(D, x);
    }
    forall y: nat | y < Leaves(D) + |D| ensures Relabel(D, Unlabel(D, y)) == y {
      RelabelUnlabel(D, y);
    }
  }

  /** A row with its children renamed. */
  function Rename(D: seq<Row>, r: Row): Row
    requires r.a < Leaves(D) + |D| && r.b < Leaves(D) + |D|
  {
    Row(Relabel(D, r.a), Relabel(D, r.b), r.dist, r.size)
  }

  /** The reordered dendrogram: the rows in sorted order, children renamed. */
  function Reorder(D: seq<Row>): (out: seq<Row>)
    requires |D| >= 1 && Labelled(D)
    ensures |out| == |D|
  {
    var index := Index(D);
    seq(|D|, t requires 0 <= t < |D| => Rename(D, D[index[t]]))
  }

  lemma ReorderAt(D: seq<Row>, t: nat)
    requires |D| >= 1 && Labelled(D) && t < |D|
    ensures Reorder(D)[t] == Rename(D, D[Index(D)[t]])
  {
  }

  /** The row that created node x is emitted at the position the new name
      of x says, with its children renamed. */
  lemma ReorderRow(D: seq<Row>, x: nat)
    requires |D| >= 1 && Labelled(D) && Leaves(D) <= x < Leaves(D) + |D|
    ensures Reorder(D)[Relabel(D, x) - Leaves(D)] == Rename(D, D[x - Leaves(D)])
  {
    InIndex(D, x - Leaves(D));
    ReorderAt(D, IndexOf(Index(D), x - Leaves(D)));
  }

  /** Row t of the result is the row that created the node now called
      n + t, with its children renamed; so the renaming is consistent: the
      node renamed y is created by the row emitted at position y - n. */
  lemma ReorderRows(D: seq<Row>)
    requires |D| >= 1 && Labelled(D)
    ensures forall x: nat :: Leaves(D) <= x < Leaves(D) + |D| ==>
      Reorder(D)[Relabel(D, x) - Leaves(D)] == Rename(D, D[x - Leaves(D)])
  {
    forall x: nat | Leaves(D) <= x < Leaves(D) + |D|
      ensures Reorder(D)[Relabel(D, x) - Leaves(D)] == Rename(D, D[x - Leaves(D)])
    {
      ReorderRow(D, x);
    }
  }

  /** The result lists the distances in non-decreasing order, and rows at
      the same distance keep the order they had. */
  lemma ReorderSorted(D: seq<Row>)
    requires |D| >= 1 && Labelled(D)
    ensures forall i, j :: 0 <= i < j < |D| ==> DistLe(Reorder(D)[i].dist, Reorder(D)[j].dist)
    ensures forall i, j :: 0 <= i < j < |D| && Reorder(D)[i].dist == Reorder(D)[j].dist ==>
      Index(D)[i] < Index(D)[j]
  {
    var index := Index(D);
    var out := Reorder(D);
    forall i, j | 0 <= i < j < |D|
      ensures DistLe(out[i].dist, out[j].dist)
      ensures out[i].dist == out[j].dist ==> index[i] < index[j]
    {
      ReorderAt(D, i);
      ReorderAt(D, j);
      assert Before(D, index[i], index[j]);
    }
  }

  /** The renamed node has the size the node had. */
  lemma SizeRelabel(D: seq<Row>, x: nat)
    requires |D| >= 1 && Labelled(D) && x < Leaves(D) + |D|
    ensures Size(Reorder(D), Leaves(D), Relabel(D, x)) == Size(D, Leaves(D), x)
  {
    if x >= Leaves(D) {
      ReorderRow(D, x);
    }
  }

  /** Renaming keeps sizes, so a dendrogram whose row sizes add up still
      does after reordering. */
  lemma ReorderSizes(D: seq<Row>)
    requires |D| >= 1 && Labelled(D)
    ensures forall x: nat :: x < Leaves(D) + |D| ==> Size(Reorder(D), Leaves(D), Relabel(D, x)) == Size(D, Leaves(D), x)
    ensures SizesAdd(D, Leaves(D)) ==> SizesAdd(Reorder(D), Leaves(D))
  {
    forall x: nat | x < Leaves(D) + |D|
      ensures Size(Reorder(D), Leaves(D), Relabel(D, x)) == Size(D, Leaves(D), x)
    {
      SizeRelabel(D, x);
    }
    if SizesAdd(D, Leaves(D)) {
      forall t: nat | t < |D| ensures Joins(Reorder(D), Leaves(D), t) {
        var i := Index(D)[t];
        ReorderAt(D, t);
        assert Joins(D, Leaves(D), i);
        SizeRelabel(D, D[i].a);
        SizeRelabel(D, D[i].b);
      }
    }
  }

  /** The distances are already in non-decreasing order. */
  ghost predicate DistSorted(D: seq<Row>)
  {
    forall i, j :: 0 <= i < j < |D| ==> DistLe(D[i].dist, D[j].dist)
  }

  /** A dendrogram whose distances are already sorted is left unchanged. */
  lemma ReorderSortedInput(D: seq<Row>)
    requires |D| >= 1 && Labelled(D) && DistSorted(D)
    ensures Index(D) == Range(|D|)
    ensures Reorder(D) == D
  {
    RangeSorted(D);
    SortedUnique(D, Index(D), Range(|D|));
    forall t | 0 <= t < |D| ensures Reorder(D)[t] == D[t] {
      ReorderAt(D, t);
      RelabelFixed(D, D[t].a);
      RelabelFixed(D, D[t].b);
    }
  }

  lemma RangeSorted(D: seq<Row>)
    requires DistSorted(D)
    ensures SortedBy(D, Range(|D|))
  {
    var r := Range(|D|);
    forall i, j | 0 <= i < j < |r| ensures Before(D, r[i], r[j]) {
      assert DistLe(D[i].dist, D[j].dist);
    }
  }

  lemma RelabelFixed(D: seq<Row>, x: nat)
    requires x < Leaves(D) + |D| && Index(D) == Range(|D|)
    ensures Relabel(D, x) == x
  {
  }

  /** Reordering twice is the same as reordering once. */
  lemma ReorderIdempotent(D: seq<Row>)
    requires |D| >= 1 && Labelled(D)
    ensures Labelled(Reorder(D)) && Reorder(Reorder(D)) == Reorder(D)
  {
    ReorderSorted(D);
    var out := Reorder(D);
    forall t | 0 <= t < |out| ensures out[t].a < Leaves(out) + |out| && out[t].b < Leaves(out) + |out| {
      ReorderAt(D, t);
    }
    ReorderSortedInput(out);
  }
}
