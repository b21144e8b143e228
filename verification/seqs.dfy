/** Sequence helpers shared by the graph, engine and dendrogram modules. */
module Seqs {

  /** No value occurs twice. */
  ghost predicate Distinct(s: seq<nat>)
  {
    s == [] || (s[0] !in s[1..] && Distinct(s[1..]))
  }

  /** Two positions of a duplicate-free sequence hold different values. */
  lemma {:induction false} DistinctIndex(s: seq<nat>, i: nat, j: nat)
    requires Distinct(s) && i < j < |s|
    ensures s[i] != s[j]
  {
    if i == 0 {
      assert s[j] == s[1..][j - 1];
    } else {
      DistinctIndex(s[1..], i - 1, j - 1);
    }
  }

  lemma {:induction false} DistinctAppend(s: seq<nat>, x: nat)
    requires Distinct(s) && x !in s
    ensures Distinct(s + [x])
  {
    if s != [] {
      assert (s + [x])[1..] == s[1..] + [x];
      DistinctAppend(s[1..], x);
    } else {
      assert ([] + [x])[1..] == [];
    }
  }

  /** The ids 0, 1, ..., k-1 in increasing order. */
  function Range(k: nat): (r: seq<nat>)
    ensures |r| == k
    ensures forall i :: 0 <= i < k ==> r[i] == i
  {
    if k == 0 then [] else Range(k - 1) + [k - 1]
  }

  /** `s` with every occurrence of `x` dropped, other elements kept in order. */
  function Without(s: seq<nat>, x: nat): (r: seq<nat>)
    ensures forall y :: y in r <==> y in s && y != x
    ensures |r| <= |s|
  {
    if s == [] then []
    else if s[0] == x then Without(s[1..], x)
    else [s[0]] + Without(s[1..], x)
  }

  lemma WithoutDistinct(s: seq<nat>, x: nat)
    requires Distinct(s)
    ensures Distinct(Without(s, x))
    ensures x in s ==> |Without(s, x)| == |s| - 1
    ensures x !in s ==> Without(s, x) == s
    ensures multiset(Without(s, x)) == multiset(s) - multiset{x}
  {
    WithoutKeeps(s, x);
    WithoutMultiset(s, x);
  }

  lemma {:induction false} WithoutKeeps(s: seq<nat>, x: nat)
    requires Distinct(s)
    ensures Distinct(Without(s, x))
    ensures x in s ==> |Without(s, x)| == |s| - 1
    ensures x !in s ==> Without(s, x) == s
  {
    if s != [] {
      WithoutKeeps(s[1..], x);
      if s[0] != x {
        var r := [s[0]] + Without(s[1..], x);
        assert r[1..] == Without(s[1..], x);
      }
    }
  }

  lemma {:induction false} WithoutMultiset(s: seq<nat>, x: nat)
    requires Distinct(s)
    ensures multiset(Without(s, x)) == multiset(s) - multiset{x}
  {
    if s != [] {
      WithoutMultiset(s[1..], x);
      assert s == [s[0]] + s[1..];
      if s[0] == x {
        DistinctCount(s, x);
      }
    }
  }

  lemma DistinctTail(s: seq<nat>)
    requires Distinct(s) && s != []
    ensures Distinct(s[1..]) && s[0] !in s[1..]
  {
  }

  lemma WithoutCommutes(s: seq<nat>, x: nat, y: nat)
    ensures Without(Without(s, x), y) == Without(Without(s, y), x)
  {
  }

  /** In a duplicate-free sequence every member occurs exactly once. */
  lemma {:induction false} DistinctCount(s: seq<nat>, x: nat)
    requires Distinct(s)
    ensures multiset(s)[x] == if x in s then 1 else 0
  {
    if s != [] {
      assert s == [s[0]] + s[1..];
      DistinctCount(s[1..], x);
    }
  }

  /** Two duplicate-free sequences with the same members are permutations of each other. */
  lemma SameMembersSameMultiset(s: seq<nat>, t: seq<nat>)
    requires Distinct(s) && Distinct(t)
    requires forall x :: x in s <==> x in t
    ensures multiset(s) == multiset(t)
    ensures |s| == |t|
  {
    forall x ensures multiset(s)[x] == multiset(t)[x] {
      DistinctCount(s, x);
      DistinctCount(t, x);
    }
    assert multiset(s) == multiset(t);
    assert |multiset(s)| == |multiset(t)|;
  }

  lemma {:induction false} RangeDistinct(k: nat)
    ensures Distinct(Range(k))
    ensures forall x: nat :: x in Range(k) <==> x < k
  {
    forall x: nat | x < k ensures x in Range(k) { assert Range(k)[x] == x; }
    if k > 0 {
      RangeDistinct(k - 1);
      DistinctAppend(Range(k - 1), k - 1);
    }
  }

  /** Position of `x` in `s`. */
  function IndexOf(s: seq<nat>, x: nat): (i: nat)
    requires x in s
    ensures i < |s| && s[i] == x
    ensures forall j :: 0 <= j < i ==> s[j] != x
  {
    if s[0] == x then 0 else 1 + IndexOf(s[1..], x)
  }


  lemma RangeAppend(k: nat)
    ensures multiset(Range(k + 1)) == multiset(Range(k)) + multiset{k}
  {
  }

  /** The ids 0, 1, ..., k-1 as a multiset. */
  function Ids(k: nat): multiset<nat>
  {
    if k == 0 then multiset{} else Ids(k - 1) + multiset{k - 1}
  }

  lemma {:induction false} IdsRange(k: nat)
    ensures multiset(Range(k)) == Ids(k)
  {
    if k > 0 {
      IdsRange(k - 1);
    }
  }

  lemma IdsRangeAll()
    ensures forall k: nat :: multiset(Range(k)) == Ids(k)
  {
    forall k: nat ensures multiset(Range(k)) == Ids(k) {
      IdsRange(k);
    }
  }

  lemma IdsSnoc(m1: nat, m: nat, x: nat)
    requires m == m1 + 1 && x == m1
    ensures Ids(m) == Ids(m1) + multiset{x}
  {
  }

  // Rearrangement steps over plain multiset and sequence parameters. Stating
  // them over variables lets a caller instantiate them with large terms
  // without the solver re-deriving the algebra in the caller's context.

  lemma Shuffle(c: multiset<nat>, r: multiset<nat>, x: nat, ids: multiset<nat>)
    requires c + (r + multiset{x}) == ids
    ensures c + multiset{x} + r == ids
  {
  }

  lemma Trans(a: multiset<nat>, b: multiset<nat>, c: multiset<nat>)
    requires a == b && b == c
    ensures a == c
  {
  }

  lemma FullTake<T>(s: seq<T>, k: nat)
    requires k == |s|
    ensures s[..k] == s
  {
  }

  lemma Drained(c: multiset<nat>, c': multiset<nat>, x: nat, x': nat, r: multiset<nat>, ids: multiset<nat>)
    requires c + multiset{x} + r == ids
    requires c' == c && x' == x && r == multiset{}
    ensures c' + multiset{x'} == ids
  {
    assert c + multiset{x} + r == c + multiset{x};
  }

  lemma DropEmpty(a: multiset<nat>, m: multiset<nat>, b: multiset<nat>, c: multiset<nat>)
    requires a + m + b == c && m == multiset{}
    ensures a + b == c
  {
  }
}
