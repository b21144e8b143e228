/** The dissimilarity between two adjacent clusters and the scan that picks a
    cluster's nearest neighbour. */
module Nearest {
  import opened Graphs
  import opened Dendrograms

  /** x raised to a natural exponent. */
  function Pow(x: real, k: nat): real
  {
    if k == 0 then 1.0 else x * Pow(x, k - 1)
  }

  function Min(x: real, y: real): real { if x <= y then x else y }

  function Max(x: real, y: real): real { if x <= y then y else x }

  /** min(wa, wv)^alpha * max(wa, wv)^beta / p / wtot, for the weighted
      degrees wa and wv of two clusters joined by an edge of weight p. It is
      never negative, and never zero, for clusters of positive degree. */
  function Dissim(wa: real, wv: real, p: real, wtot: real, alpha: nat, beta: nat): (d: real)
    requires p > 0.0 && wtot > 0.0
    ensures wa >= 0.0 && wv >= 0.0 ==> d >= 0.0
    ensures wa > 0.0 && wv > 0.0 ==> d > 0.0
  {
    var lo, hi := Min(wa, wv), Max(wa, wv);
    PowSign(lo, alpha);
    PowSign(hi, beta);
    Scaled(Mass(lo, hi, alpha, beta), p, wtot)
  }

  /** A power of a non-negative base is non-negative, and of a positive one
      positive. */
  lemma {:induction false} PowSign(x: real, k: nat)
    ensures x >= 0.0 ==> Pow(x, k) >= 0.0
    ensures x > 0.0 ==> Pow(x, k) > 0.0
  {
    if k > 0 {
      PowSign(x, k - 1);
    }
  }

  /** The numerator lo^alpha * hi^beta. */
  function Mass(lo: real, hi: real, alpha: nat, beta: nat): real
  {
    Pow(lo, alpha) * Pow(hi, beta)
  }

  function Scaled(x: real, p: real, wtot: real): real
    requires p > 0.0 && wtot > 0.0
  {
    x / p / wtot
  }

  /** The dissimilarity does not depend on which cluster is named first. */
  lemma DissimSymmetric(wa: real, wv: real, p: real, wtot: real, alpha: nat, beta: nat)
    requires p > 0.0 && wtot > 0.0
    ensures Dissim(wa, wv, p, wtot, alpha, beta) == Dissim(wv, wa, p, wtot, alpha, beta)
  {
    assert Min(wa, wv) == Min(wv, wa) && Max(wa, wv) == Max(wv, wa);
  }

  /** With both exponents 1 the dissimilarity is the Paris distance
      wa * wv / p / wtot. */
  lemma ParisBaseline(wa: real, wv: real, p: real, wtot: real)
    requires p > 0.0 && wtot > 0.0
    ensures Dissim(wa, wv, p, wtot, 1, 1) == wa * wv / p / wtot
  {
    var lo, hi := Min(wa, wv), Max(wa, wv);
    assert Pow(lo, 1) == lo && Pow(hi, 1) == hi;
    assert Mass(lo, hi, 1, 1) == wa * wv;
  }

  /** What the nearest-neighbour scan reads: the adjacency, the weighted
      degrees, the fixed total weight and the two exponents. */
  datatype Metric = Metric(adj: Adj, w: map<nat, real>, wtot: real, alpha: nat, beta: nat)

  /** Every node has a weighted degree, every edge has positive weight and
      the total weight is positive once any edge exists. */
  ghost predicate Ready(m: Metric)
  {
    && Symmetric(m.adj)
    && (forall x :: x in m.adj ==> x in m.w)
    && (forall x, y :: x in m.adj && y in m.adj[x] ==> m.wtot > 0.0)
  }

  /** `v` is a neighbour of `a` other than `a` itself (self-loops are skipped). */
  predicate Candidate(adj: Adj, a: nat, v: nat)
  {
    a in adj && v in adj[a] && v != a
  }

  function Cost(m: Metric, a: nat, v: nat): real
    requires Ready(m) && Candidate(m.adj, a, v)
  {
    Dissim(m.w[a], m.w[v], m.adj[a][v], m.wtot, m.alpha, m.beta)
  }

  /** The outcome of a scan: neighbour `b` at distance `d`, or `b == -1` at
      infinite distance when there is none. */
  datatype Pick = Pick(b: int, d: Dist)

  ghost predicate NoCandidate(m: Metric, a: nat, cands: seq<nat>)
  {
    forall v :: v in cands ==> !Candidate(m.adj, a, v)
  }

  /** `p` is the candidate among `cands` with the least dissimilarity to `a`,
      ties going to the smallest id, or `(-1, Inf)` when `cands` holds no
      candidate. */
  ghost predicate IsNearest(m: Metric, a: nat, cands: seq<nat>, p: Pick)
    requires Ready(m)
  {
    && (NoCandidate(m, a, cands) ==> p == Pick(-1, Inf))
    && (!NoCandidate(m, a, cands) ==>
          && p.b >= 0 && p.b as nat in cands && Candidate(m.adj, a, p.b as nat)
          && p.d == Finite(Cost(m, a, p.b as nat))
          && forall v :: v in cands && Candidate(m.adj, a, v) ==>
               Cost(m, a, p.b as nat) < Cost(m, a, v)
               || (Cost(m, a, p.b as nat) == Cost(m, a, v) && p.b <= v))
  }

  /** The scan over `cands` in order: a strictly smaller dissimilarity
      replaces the current pick, an equal one keeps the smaller id. */
  function Scan(m: Metric, a: nat, cands: seq<nat>): (p: Pick)
    requires Ready(m)
    ensures IsNearest(m, a, cands, p)
  {
    if cands == [] then Pick(-1, Inf)
    else
      var prev := Scan(m, a, cands[..|cands| - 1]);
      var v := cands[|cands| - 1];
      assert cands == cands[..|cands| - 1] + [v];
      if Candidate(m.adj, a, v) then
        var d := Cost(m, a, v);
        if DistLt(Finite(d), prev.d) then Pick(v, Finite(d))
        else if Finite(d) == prev.d then Pick(if prev.b <= v then prev.b else v, prev.d)
        else prev
      else prev
  }

  /** The pick depends only on which candidates the scan sees, not on the
      order in which they are enumerated. */
  lemma ScanOrderIndependent(m: Metric, a: nat, c1: seq<nat>, c2: seq<nat>)
    requires Ready(m)
    requires forall v :: Candidate(m.adj, a, v) ==> (v in c1 <==> v in c2)
    ensures Scan(m, a, c1) == Scan(m, a, c2)
  {
    var p1 := Scan(m, a, c1);
    var p2 := Scan(m, a, c2);
    if !NoCandidate(m, a, c1) {
      assert !NoCandidate(m, a, c2);
      assert p1.b as nat in c2 && p2.b as nat in c1;
      assert p1.b == p2.b;
    }
  }

  /** The nearest neighbour of `a` among the live nodes. */
  function NearestOf(m: Metric, nodes: seq<nat>, a: nat): (p: Pick)
    requires Ready(m)
    ensures IsNearest(m, a, nodes, p)
  {
    Scan(m, a, nodes)
  }
}
