/** Dijkstra_Paralel1/main.cpp: the edge key used by the graph generator
    (hash_edge) and Dial's bucket algorithm (dijkstra_openmp), run on one
    thread with every critical section taken as one atomic step. */
module DialBuckets {
  import opened Graphs
  import opened Distances

  /** Largest weight the generator draws; the bucket table spans
      0..MAX_WEIGHT * V. */
  const MAX_WEIGHT: nat := 100

  const UINT64_MODULUS: int := 0x1_0000_0000_0000_0000

  /** Largest value of a C++ int (the type of V). */
  const INT_MAX: int := 0x7fff_ffff

  function Min(a: int, b: int): (m: int) { if a < b then a else b }

  function Max(a: int, b: int): (m: int) { if a < b then b else a }

  // ---- hash_edge ----

  /** hash_edge(u, v, V) = (uint64_t)min(u, v) * V + max(u, v), evaluated in
      64-bit unsigned arithmetic. */
  function HashEdge(u: int, v: int, n: int): (h: int)
  {
    (Min(u, v) * n + Max(u, v)) % UINT64_MODULUS
  }

  /** The pair a key stands for, for vertices in 0..n-1. */
  function UnhashEdge(h: int, n: int): (pair: (int, int))
    requires n > 0
  {
    (h / n, h % n)
  }

  /** The key does not depend on the direction of the edge. */
  lemma HashEdgeSymmetric(u: int, v: int, n: int)
    ensures HashEdge(u, v, n) == HashEdge(v, u, n)
  {
  }

  /** For vertices of a graph whose size fits in an int, no wrap-around
      happens and the key gives back the unordered pair {u, v}, smaller end
      first. */
  lemma HashEdgeRoundTrip(u: int, v: int, n: int)
    requires 0 <= u < n && 0 <= v < n && n <= INT_MAX
    ensures 0 <= HashEdge(u, v, n) < n * n
    ensures UnhashEdge(HashEdge(u, v, n), n) == (Min(u, v), Max(u, v))
  {
    var a, b := Min(u, v), Max(u, v);
    var x := a * n + b;
    assert a * n <= (n - 1) * n by {
      MulMono(a, n - 1, n);
    }
    assert x < n * n;
    assert n * n <= INT_MAX * INT_MAX by {
      MulMono(n, INT_MAX, n);
      MulMono(n, INT_MAX, INT_MAX);
    }
    assert 0 <= x < UINT64_MODULUS;
    DivModUnique(x, n, a, b);
  }

  /** Division by n recovers the quotient and remainder it was built from. */
  lemma DivModUnique(x: int, n: int, q: int, r: int)
    requires n > 0 && 0 <= r < n && x == q * n + r
    ensures x / n == q && x % n == r
  {
    var q', r' := x / n, x % n;
    assert x == q' * n + r';
    if q' > q {
      assert (q' - q) * n == r - r';
      MulMono(1, q' - q, n);
      assert false;
    } else if q' < q {
      assert (q - q') * n == r' - r;
      MulMono(1, q - q', n);
      assert false;
    }
  }

  /** Distinct unordered pairs of vertices get distinct keys, so the
      generator's set of keys rejects exactly the repeated edges. */
  lemma HashEdgeInjective(u: int, v: int, u': int, v': int, n: int)
    requires 0 <= u < n && 0 <= v < n && 0 <= u' < n && 0 <= v' < n && n <= INT_MAX
    ensures HashEdge(u, v, n) == HashEdge(u', v', n) <==> (u == u' && v == v') || (u == v' && v == u')
  {
    HashEdgeRoundTrip(u, v, n);
    HashEdgeRoundTrip(u', v', n);
  }

  // ---- The bucket table ----

  /** Total number of entries over all buckets. */
  function TotalSize(b: seq<seq<int>>): (size: nat)
  {
    if b == [] then 0 else TotalSize(b[..|b| - 1]) + |b[|b| - 1]|
  }

  lemma {:induction false} TotalSizeUpdate(b: seq<seq<int>>, k: int, s: seq<int>)
    requires 0 <= k < |b|
    ensures TotalSize(b[k := s]) + |b[k]| == TotalSize(b) + |s|
    decreases |b|
  {
    var last := |b| - 1;
    if k < last {
      assert b[k := s][..last] == b[..last][k := s];
      TotalSizeUpdate(b[..last], k, s);
    } else {
      assert b[k := s][..last] == b[..last];
    }
  }

  /** Every vertex in bucket k is a vertex whose distance is finite and at most k. */
  ghost predicate BucketsSound(d: seq<Dist>, b: seq<seq<int>>)
  {
    forall k, t :: 0 <= k < |b| && 0 <= t < |b[k]| ==>
      0 <= b[k][t] < |d| && d[b[k][t]].Fin? && d[b[k][t]].value <= k
  }

  /** Every bucket below the cursor is empty. */
  ghost predicate EmptyBelow(b: seq<seq<int>>, curr: int)
  {
    forall k :: 0 <= k < curr && k < |b| ==> b[k] == []
  }

  /** Every vertex still pending in the snapshot has a finite distance at
      most the cursor. */
  ghost predicate PendingBounded(d: seq<Dist>, snap: seq<int>, curr: int)
  {
    forall t :: 0 <= t < |snap| ==> 0 <= snap[t] < |d| && d[snap[t]].Fin? && d[snap[t]].value <= curr
  }

  /** x has all its edges relaxed, or it waits in the bucket of its current
      distance, or it waits in the snapshot being processed at cursor curr. */
  ghost predicate Covered(g: Graph, d: seq<Dist>, b: seq<seq<int>>, x: int, snap: seq<int>, curr: int)
    requires WellFormed(g) && |d| == |g| && 0 <= x < |g| && d[x].Fin?
  {
    Relaxed(g, d, x) || (d[x].value < |b| && x in b[d[x].value]) || (d[x].value == curr && x in snap)
  }

  /** The invariant of the scan, with snap the part of the current bucket's
      snapshot not yet processed. */
  ghost predicate DialInv(g: Graph, src: int, d: seq<Dist>, b: seq<seq<int>>, maxDist: int, curr: int, snap: seq<int>)
  {
    TableOk(g, src, d) && |b| == maxDist + 1 && 0 <= curr <= maxDist + 1 &&
    BucketsSound(d, b) && EmptyBelow(b, curr) && PendingBounded(d, snap, curr) &&
    AllCovered(g, d, b, maxDist, curr, snap)
  }

  /** Every vertex with a finite distance up to maxDist is covered. */
  ghost predicate AllCovered(g: Graph, d: seq<Dist>, b: seq<seq<int>>, maxDist: int, curr: int, snap: seq<int>)
    requires WellFormed(g) && |d| == |g|
  {
    forall x :: 0 <= x < |g| && d[x].Fin? && d[x].value <= maxDist ==> Covered(g, d, b, x, snap, curr)
  }

  /** The invariant while the edges of u (taken from the snapshot, with rest
      still to come) are relaxed, after the first j of them. */
  ghost predicate ExpandInv(g: Graph, src: int, d: seq<Dist>, b: seq<seq<int>>, maxDist: int, curr: int,
                            rest: seq<int>, u: int, j: int)
  {
    TableOk(g, src, d) && |b| == maxDist + 1 && 0 <= curr <= maxDist &&
    BucketsSound(d, b) && EmptyBelow(b, curr) && PendingBounded(d, rest, curr) &&
    AtCursor(g, d, curr, u, j) && CoveredExcept(g, d, b, maxDist, curr, rest, u)
  }

  /** u is a vertex at distance at most the cursor whose first j edges are
      relaxed; below the cursor it is relaxed altogether. */
  ghost predicate AtCursor(g: Graph, d: seq<Dist>, curr: int, u: int, j: int)
    requires WellFormed(g) && |d| == |g|
  {
    0 <= u < |g| && 0 <= j <= |g[u]| && d[u].Fin? && d[u].value <= curr &&
    (d[u].value < curr ==> Relaxed(g, d, u)) && RelaxedUpTo(g, d, u, j)
  }

  /** Every vertex other than u with a finite distance up to maxDist is covered. */
  ghost predicate CoveredExcept(g: Graph, d: seq<Dist>, b: seq<seq<int>>, maxDist: int, curr: int, rest: seq<int>, u: int)
    requires WellFormed(g) && |d| == |g|
  {
    forall x :: 0 <= x < |g| && x != u && d[x].Fin? && d[x].value <= maxDist ==> Covered(g, d, b, x, rest, curr)
  }

  /** The table after one atomic relax-and-insert step (the critical section):
      a strictly smaller distance is written, and the vertex is appended to
      the bucket of its new distance when that is within the table. */
  function AfterRelax(d: seq<Dist>, b: seq<seq<int>>, v: int, newDist: nat, maxDist: int): (r: (seq<Dist>, seq<seq<int>>))
    requires 0 <= v < |d| && |b| == maxDist + 1
  {
    if Less(Fin(newDist), d[v]) then
      (d[v := Fin(newDist)], if newDist <= maxDist then b[newDist := b[newDist] + [v]] else b)
    else (d, b)
  }

  /** One critical step only lowers entries and only appends to buckets. */
  lemma AfterRelaxMonotone(d: seq<Dist>, b: seq<seq<int>>, v: int, newDist: nat, maxDist: int)
    requires 0 <= v < |d| && |b| == maxDist + 1
    ensures var r := AfterRelax(d, b, v, newDist, maxDist);
      |r.0| == |d| && |r.1| == |b| &&
      (forall x :: 0 <= x < |d| ==> Le(r.0[x], d[x])) &&
      (forall k :: 0 <= k < |b| ==> b[k] <= r.1[k])
  {
  }

  /** The edge loop of `dijkstra_openmp` for u from edge j on: each edge, in list
      order, re-reads dist[u] and is one critical step. */
  function RelaxEdges(g: Graph, d: seq<Dist>, b: seq<seq<int>>, maxDist: int, u: int, j: int): (r: (seq<Dist>, seq<seq<int>>))
    requires WellFormed(g) && |d| == |g| && |b| == maxDist + 1 && 0 <= u < |g| && 0 <= j <= |g[u]| && d[u].Fin?
    ensures |r.0| == |d| && |r.1| == |b|
    decreases |g[u]| - j
  {
    if j == |g[u]| then (d, b)
    else
      var v, newDist := g[u][j].0, d[u].value + g[u][j].1;
      var after := AfterRelax(d, b, v, newDist, maxDist);
      assert after.0[u].Fin?;
      RelaxEdges(g, after.0, after.1, maxDist, u, j + 1)
  }

  /** Relaxing u's edges only lowers entries and only appends to buckets. */
  lemma {:induction false} RelaxEdgesMonotone(g: Graph, d: seq<Dist>, b: seq<seq<int>>, maxDist: int, u: int, j: int)
    requires WellFormed(g) && |d| == |g| && |b| == maxDist + 1 && 0 <= u < |g| && 0 <= j <= |g[u]| && d[u].Fin?
    ensures var r := RelaxEdges(g, d, b, maxDist, u, j);
      (forall x :: 0 <= x < |d| ==> Le(r.0[x], d[x])) &&
      (forall k :: 0 <= k < |b| ==> b[k] <= r.1[k])
    decreases |g[u]| - j
  {
    if j < |g[u]| {
      var v, newDist := g[u][j].0, d[u].value + g[u][j].1;
      var after := AfterRelax(d, b, v, newDist, maxDist);
      AfterRelaxMonotone(d, b, v, newDist, maxDist);
      RelaxEdgesMonotone(g, after.0, after.1, maxDist, u, j + 1);
      var r := RelaxEdges(g, d, b, maxDist, u, j);
      forall k | 0 <= k < |b| ensures b[k] <= r.1[k] {
        assert b[k] <= after.1[k] <= r.1[k];
      }
    }
  }

  /** The `parallel for` of `dijkstra_openmp` over the snapshot from position i on,
      one vertex at a time. */
  function RelaxAll(g: Graph, d: seq<Dist>, b: seq<seq<int>>, maxDist: int, snap: seq<int>, i: int): (r: (seq<Dist>, seq<seq<int>>))
    requires WellFormed(g) && |d| == |g| && |b| == maxDist + 1 && 0 <= i <= |snap|
    requires forall t :: i <= t < |snap| ==> 0 <= snap[t] < |g| && d[snap[t]].Fin?
    ensures |r.0| == |d| && |r.1| == |b|
    decreases |snap| - i
  {
    if i == |snap| then (d, b)
    else
      RelaxEdgesMonotone(g, d, b, maxDist, snap[i], 0);
      var after := RelaxEdges(g, d, b, maxDist, snap[i], 0);
      RelaxAll(g, after.0, after.1, maxDist, snap, i + 1)
  }

  /** Relaxing the snapshot only lowers entries and only appends to buckets. */
  lemma {:induction false} RelaxAllMonotone(g: Graph, d: seq<Dist>, b: seq<seq<int>>, maxDist: int, snap: seq<int>, i: int)
    requires WellFormed(g) && |d| == |g| && |b| == maxDist + 1 && 0 <= i <= |snap|
    requires forall t :: i <= t < |snap| ==> 0 <= snap[t] < |g| && d[snap[t]].Fin?
    ensures var r := RelaxAll(g, d, b, maxDist, snap, i);
      (forall x :: 0 <= x < |d| ==> Le(r.0[x], d[x])) &&
      (forall k :: 0 <= k < |b| ==> b[k] <= r.1[k])
    decreases |snap| - i
  {
    if i < |snap| {
      RelaxEdgesMonotone(g, d, b, maxDist, snap[i], 0);
      var after := RelaxEdges(g, d, b, maxDist, snap[i], 0);
      RelaxAllMonotone(g, after.0, after.1, maxDist, snap, i + 1);
      var r := RelaxAll(g, d, b, maxDist, snap, i);
      forall k | 0 <= k < |b| ensures b[k] <= r.1[k] {
        assert b[k] <= after.1[k] <= r.1[k];
      }
    }
  }

  /** Starting the scan: d[src] = 0, all else unreachable, bucket 0 = [src]. */
  lemma InitInv(g: Graph, src: int, b: seq<seq<int>>, maxDist: nat)
    requires WellFormed(g) && 0 <= src < |g|
    requires |b| == maxDist + 1 && b[0] == [src] && forall k :: 0 < k < |b| ==> b[k] == []
    ensures DialInv(g, src, InitDist(|g|, src), b, maxDist, 0, [])
  {
    InitSound(g, src);
  }

  /** Moving the cursor past an empty bucket keeps the invariant. */
  lemma AdvanceInv(g: Graph, src: int, d: seq<Dist>, b: seq<seq<int>>, maxDist: int, curr: int)
    requires DialInv(g, src, d, b, maxDist, curr, []) && curr <= maxDist && b[curr] == []
    ensures DialInv(g, src, d, b, maxDist, curr + 1, [])
  {
  }

  /** Swapping a bucket out into a snapshot keeps the invariant, with the
      snapshot as the work still pending at the cursor. */
  lemma TakeInv(g: Graph, src: int, d: seq<Dist>, b: seq<seq<int>>, maxDist: int, curr: int)
    requires DialInv(g, src, d, b, maxDist, curr, []) && curr <= maxDist
    ensures DialInv(g, src, d, b[curr := []], maxDist, curr, b[curr])
    ensures TotalSize(b[curr := []]) + |b[curr]| == TotalSize(b)
  {
    var b' := b[curr := []];
    TotalSizeUpdate(b, curr, []);
    forall t | 0 <= t < |b[curr]|
      ensures 0 <= b[curr][t] < |d| && d[b[curr][t]].Fin? && d[b[curr][t]].value <= curr
    {
    }
    forall x | 0 <= x < |g| && d[x].Fin? && d[x].value <= maxDist
      ensures Covered(g, d, b', x, b[curr], curr)
    {
      assert Covered(g, d, b, x, [], curr);
    }
  }

  /** Taking u = snap[i] from the snapshot starts its expansion. A vertex
      whose distance has dropped below the cursor was already expanded at its
      own bucket, so it is relaxed. */
  lemma StartExpand(g: Graph, src: int, d: seq<Dist>, b: seq<seq<int>>, maxDist: int, curr: int,
                    snap: seq<int>, i: int)
    requires 0 <= i < |snap| && curr <= maxDist && DialInv(g, src, d, b, maxDist, curr, snap[i..])
    ensures ExpandInv(g, src, d, b, maxDist, curr, snap[i + 1..], snap[i], 0)
  {
    var u, pending, rest := snap[i], snap[i..], snap[i + 1..];
    assert pending == [u] + rest;
    forall t | 0 <= t < |rest|
      ensures 0 <= rest[t] < |d| && d[rest[t]].Fin? && d[rest[t]].value <= curr
    {
      assert rest[t] == pending[t + 1];
    }
    assert Covered(g, d, b, u, pending, curr);
  }

  /** Once all edges of u are relaxed, u is covered for good. */
  lemma EndExpand(g: Graph, src: int, d: seq<Dist>, b: seq<seq<int>>, maxDist: int, curr: int,
                  rest: seq<int>, u: int)
    requires 0 <= u < |g| && ExpandInv(g, src, d, b, maxDist, curr, rest, u, |g[u]|)
    ensures DialInv(g, src, d, b, maxDist, curr, rest)
  {
  }


  /** An improving step keeps every bucket entry's bound: old entries only see
      their distance drop, and the appended entry sits at its new distance. */
  lemma LowerKeepsBucketsSound(d: seq<Dist>, b: seq<seq<int>>, v: int, nd: nat, maxDist: int)
    requires BucketsSound(d, b) && 0 <= v < |d| && |b| == maxDist + 1 && Less(Fin(nd), d[v])
    ensures BucketsSound(AfterRelax(d, b, v, nd, maxDist).0, AfterRelax(d, b, v, nd, maxDist).1)
  {
    var d' := d[v := Fin(nd)];
    var b' := if nd <= maxDist then b[nd := b[nd] + [v]] else b;
    forall k, t | 0 <= k < |b'| && 0 <= t < |b'[k]|
      ensures 0 <= b'[k][t] < |d'| && d'[b'[k][t]].Fin? && d'[b'[k][t]].value <= k
    {
      if nd <= maxDist && k == nd && t == |b[nd]| {
        assert b'[k][t] == v;
      } else {
        assert b'[k][t] == b[k][t];
      }
    }
  }

  /** An improving step on edge (u -> v) keeps every vertex other than u
      covered: v waits in its new bucket (or is beyond the table), and the
      others keep their relaxed edges or their place in a bucket. */
  lemma LowerKeepsCovered(g: Graph, d: seq<Dist>, b: seq<seq<int>>, maxDist: int, curr: int, rest: seq<int>,
                          u: int, v: int, nd: nat)
    requires WellFormed(g) && |d| == |g| && |b| == maxDist + 1 && 0 <= u < |g| && 0 <= v < |g|
    requires Less(Fin(nd), d[v]) && u != v
    requires CoveredExcept(g, d, b, maxDist, curr, rest, u)
    ensures CoveredExcept(g, AfterRelax(d, b, v, nd, maxDist).0, AfterRelax(d, b, v, nd, maxDist).1, maxDist, curr, rest, u)
  {
    var d' := d[v := Fin(nd)];
    var b' := if nd <= maxDist then b[nd := b[nd] + [v]] else b;
    forall x | 0 <= x < |g| && x != u && d'[x].Fin? && d'[x].value <= maxDist
      ensures Covered(g, d', b', x, rest, curr)
    {
      if x == v {
        assert b'[nd] == b[nd] + [v];
      } else {
        assert Covered(g, d, b, x, rest, curr);
        if Relaxed(g, d, x) {
          LowerKeepsRelaxed(g, d, x, |g[x]|, v, nd);
        } else if d[x].value < |b| && x in b[d[x].value] {
          assert x in b'[d[x].value];
        }
      }
    }
  }

  /** A vertex whose edges are all relaxed cannot lower a neighbour. */
  lemma RelaxedCannotImprove(g: Graph, d: seq<Dist>, u: int, j: int)
    requires WellFormed(g) && |d| == |g| && 0 <= u < |g| && 0 <= j < |g[u]| && d[u].Fin?
    ensures Relaxed(g, d, u) ==> !Less(Fin(d[u].value + g[u][j].1), d[g[u][j].0])
  {
    if Relaxed(g, d, u) {
      assert EdgeRelaxed(g, d, u, j);
    }
  }

  /** An improving step on edge j of u: u is at the cursor, and the lowered
      entry and the grown bucket keep the expansion invariant. */
  lemma ImprovingStep(g: Graph, src: int, d: seq<Dist>, b: seq<seq<int>>, maxDist: int, curr: int,
                      rest: seq<int>, u: int, j: int)
    requires ExpandInv(g, src, d, b, maxDist, curr, rest, u, j) && j < |g[u]|
    requires Less(Fin(d[u].value + g[u][j].1), d[g[u][j].0])
    ensures var after := AfterRelax(d, b, g[u][j].0, d[u].value + g[u][j].1, maxDist);
      ExpandInv(g, src, after.0, after.1, maxDist, curr, rest, u, j + 1) &&
      Progress(d, after.0)
  {
    var v, nd := g[u][j].0, d[u].value + g[u][j].1;
    var d' := d[v := Fin(nd)];
    var b' := if nd <= maxDist then b[nd := b[nd] + [v]] else b;
    // A vertex below the cursor is already relaxed, so only a vertex at the
    // cursor can improve a neighbour.
    RelaxedCannotImprove(g, d, u, j);
    assert AfterRelax(d, b, v, nd, maxDist) == (d', b');
    ImprovingWrite(g, src, d, u, j);
    LowerKeepsBucketsSound(d, b, v, nd, maxDist);
    LowerKeepsCovered(g, d, b, maxDist, curr, rest, u, v, nd);
    assert EmptyBelow(b', curr);
    assert PendingBounded(d', rest, curr) by {
      assert forall t :: 0 <= t < |rest| ==> Le(d'[rest[t]], d[rest[t]]);
    }
    assert d'[u] == d[u] && d[u].value >= curr;
  }

  /** One atomic relax-and-insert step on edge j of u keeps the expansion
      invariant, and either makes progress or changes nothing. */
  lemma ExpandStep(g: Graph, src: int, d: seq<Dist>, b: seq<seq<int>>, maxDist: int, curr: int,
                   rest: seq<int>, u: int, j: int)
    requires ExpandInv(g, src, d, b, maxDist, curr, rest, u, j) && j < |g[u]|
    ensures var after := AfterRelax(d, b, g[u][j].0, d[u].value + g[u][j].1, maxDist);
      ExpandInv(g, src, after.0, after.1, maxDist, curr, rest, u, j + 1) &&
      Advanced(d, b, after.0, after.1)
  {
    if Less(Fin(d[u].value + g[u][j].1), d[g[u][j].0]) {
      ImprovingStep(g, src, d, b, maxDist, curr, rest, u, j);
    } else {
      assert EdgeRelaxed(g, d, u, j);
    }
  }

  /** Relaxing u's edges from edge j on keeps the expansion invariant up to
      the last edge, and either makes progress or changes nothing. */
  lemma {:induction false} RelaxEdgesInv(g: Graph, src: int, d: seq<Dist>, b: seq<seq<int>>, maxDist: int, curr: int,
                                         rest: seq<int>, u: int, j: int)
    requires ExpandInv(g, src, d, b, maxDist, curr, rest, u, j)
    ensures var r := RelaxEdges(g, d, b, maxDist, u, j);
      ExpandInv(g, src, r.0, r.1, maxDist, curr, rest, u, |g[u]|) && Advanced(d, b, r.0, r.1)
    decreases |g[u]| - j
  {
    if j < |g[u]| {
      ExpandStep(g, src, d, b, maxDist, curr, rest, u, j);
      var after := AfterRelax(d, b, g[u][j].0, d[u].value + g[u][j].1, maxDist);
      RelaxEdgesInv(g, src, after.0, after.1, maxDist, curr, rest, u, j + 1);
      var r := RelaxEdges(g, d, b, maxDist, u, j);
      AdvancedTrans(d, b, after.0, after.1, r.0, r.1);
    }
  }

  /** Expanding snap[i] keeps the scan invariant with the rest of the
      snapshot still pending. */
  lemma ExpandVertexInv(g: Graph, src: int, d: seq<Dist>, b: seq<seq<int>>, maxDist: int, curr: int,
                        snap: seq<int>, i: int)
    requires 0 <= i < |snap| && curr <= maxDist && DialInv(g, src, d, b, maxDist, curr, snap[i..])
    ensures 0 <= snap[i] < |g| && d[snap[i]].Fin?
    ensures var r := RelaxEdges(g, d, b, maxDist, snap[i], 0);
      DialInv(g, src, r.0, r.1, maxDist, curr, snap[i + 1..]) && Advanced(d, b, r.0, r.1)
  {
    StartExpand(g, src, d, b, maxDist, curr, snap, i);
    RelaxEdgesInv(g, src, d, b, maxDist, curr, snap[i + 1..], snap[i], 0);
    var r := RelaxEdges(g, d, b, maxDist, snap[i], 0);
    EndExpand(g, src, r.0, r.1, maxDist, curr, snap[i + 1..], snap[i]);
  }

  /** The snapshot entries from position i on have finite distances. */
  lemma PendingFinite(d: seq<Dist>, snap: seq<int>, i: int, curr: int)
    requires 0 <= i <= |snap| && PendingBounded(d, snap[i..], curr)
    ensures forall t :: i <= t < |snap| ==> 0 <= snap[t] < |d| && d[snap[t]].Fin?
  {
    forall t | i <= t < |snap| ensures 0 <= snap[t] < |d| && d[snap[t]].Fin? {
      assert snap[i..][t - i] == snap[t];
    }
  }

  /** Relaxing the snapshot from position i on keeps the scan invariant with
      nothing left pending, and either makes progress or changes
      nothing. */
  lemma {:induction false} RelaxAllInv(g: Graph, src: int, d: seq<Dist>, b: seq<seq<int>>, maxDist: int, curr: int,
                                       snap: seq<int>, i: int)
    requires 0 <= i <= |snap| && curr <= maxDist && DialInv(g, src, d, b, maxDist, curr, snap[i..])
    ensures forall t :: i <= t < |snap| ==> 0 <= snap[t] < |g| && d[snap[t]].Fin?
    ensures var r := RelaxAll(g, d, b, maxDist, snap, i);
      DialInv(g, src, r.0, r.1, maxDist, curr, []) && Advanced(d, b, r.0, r.1)
    decreases |snap| - i
  {
    PendingFinite(d, snap, i, curr);
    if i == |snap| {
      assert snap[i..] == [];
    } else {
      ExpandVertexInv(g, src, d, b, maxDist, curr, snap, i);
      var after := RelaxEdges(g, d, b, maxDist, snap[i], 0);
      RelaxAllInv(g, src, after.0, after.1, maxDist, curr, snap, i + 1);
      var r := RelaxAll(g, d, b, maxDist, snap, i);
      AdvancedTrans(d, b, after.0, after.1, r.0, r.1);
    }
  }

  // ---- The engine ----

  /** The critical section of `dijkstra_openmp`: compare, write, and append to the
      bucket of the new distance if it is within the table, as one step. */
  method RelaxInto(d: array<Dist>, buckets: array<seq<int>>, v: int, newDist: nat, maxDist: int)
    requires 0 <= v < d.Length && buckets.Length == maxDist + 1
    modifies d, buckets
    ensures (d[..], buckets[..]) == AfterRelax(old(d[..]), old(buckets[..]), v, newDist, maxDist)
  {
    if Less(Fin(newDist), d[v]) {
      d[v] := Fin(newDist);
      if newDist <= maxDist {
        buckets[newDist] := buckets[newDist] + [v];
      }
    }
  }

  /** swap(this_bucket, buckets[curr]) with an empty this_bucket: the bucket's
      contents move into the snapshot and the bucket is left empty. */
  method TakeBucket(buckets: array<seq<int>>, curr: int) returns (snapshot: seq<int>)
    requires 0 <= curr < buckets.Length
    modifies buckets
    ensures snapshot == old(buckets[curr])
    ensures buckets[..] == old(buckets[..])[curr := []]
  {
    snapshot := buckets[curr];
    buckets[curr] := [];
  }

  /** The edge loop of `dijkstra_openmp` for u = this_bucket[i]: the new table and
      buckets are RelaxEdges of the old ones. */
  method ExpandVertex(g: Graph, d: array<Dist>, buckets: array<seq<int>>, maxDist: int, u: int)
    requires WellFormed(g) && d.Length == |g| && buckets.Length == maxDist + 1 && 0 <= u < |g| && d[u].Fin?
    modifies d, buckets
    ensures (d[..], buckets[..]) == RelaxEdges(g, old(d[..]), old(buckets[..]), maxDist, u, 0)
  {
    var j := 0;
    while j < |g[u]|
      invariant 0 <= j <= |g[u]| && d[u] == old(d[u])
      invariant RelaxEdges(g, d[..], buckets[..], maxDist, u, j) ==
                RelaxEdges(g, old(d[..]), old(buckets[..]), maxDist, u, 0)
    {
      var v, w := g[u][j].0, g[u][j].1;
      var newDist := d[u].value + w;
      ghost var after := AfterRelax(d[..], buckets[..], v, newDist, maxDist);
      RelaxInto(d, buckets, v, newDist, maxDist);
      assert d[..] == after.0 && buckets[..] == after.1;
      j := j + 1;
    }
  }

  /** The `parallel for` of `dijkstra_openmp` over a snapshot, one vertex at a time:
      the new table and buckets are RelaxAll of the old ones. */
  method RelaxSnapshot(g: Graph, d: array<Dist>, buckets: array<seq<int>>, maxDist: int, snap: seq<int>)
    requires WellFormed(g) && d.Length == |g| && buckets.Length == maxDist + 1
    requires forall t :: 0 <= t < |snap| ==> 0 <= snap[t] < |g| && d[snap[t]].Fin?
    modifies d, buckets
    ensures (d[..], buckets[..]) == RelaxAll(g, old(d[..]), old(buckets[..]), maxDist, snap, 0)
  {
    var i := 0;
    while i < |snap|
      invariant 0 <= i <= |snap|
      invariant forall t :: i <= t < |snap| ==> 0 <= snap[t] < |g| && d[snap[t]].Fin?
      invariant RelaxAll(g, d[..], buckets[..], maxDist, snap, i) ==
                RelaxAll(g, old(d[..]), old(buckets[..]), maxDist, snap, 0)
    {
      RelaxEdgesMonotone(g, d[..], buckets[..], maxDist, snap[i], 0);
      ExpandVertex(g, d, buckets, maxDist, snap[i]);
      i := i + 1;
    }
  }

  /** dijkstra_openmp with one thread. The result holds 0 at src, every
      finite entry is a real walk length, and every entry up to the table
      bound MAX_WEIGHT * V has its edges relaxed; when no weight exceeds
      MAX_WEIGHT the result is exactly the shortest-path distances. */
  method DijkstraOpenMp(g: Graph, src: int) returns (dist: seq<Dist>)
    requires WellFormed(g) && 0 <= src < |g|
    ensures |dist| == |g| && dist[src] == Fin(0) && Sound(g, src, dist)
    ensures forall x :: 0 <= x < |g| && dist[x].Fin? && dist[x].value <= MAX_WEIGHT * |g| ==> Relaxed(g, dist, x)
    ensures WeightsAtMost(g, MAX_WEIGHT) ==> AllShortest(g, src, dist)
  {
    var n := |g|;
    var d := new Dist[n](_ => Inf);
    d[src] := Fin(0);
    var maxDist := MAX_WEIGHT * n;
    var buckets := new seq<int>[maxDist + 1](_ => []);
    buckets[0] := buckets[0] + [src];
    var curr := 0;
    assert d[..] == InitDist(n, src);
    InitInv(g, src, buckets[..], maxDist);
    while curr <= maxDist
      invariant d.Length == n && buckets.Length == maxDist + 1
      invariant DialInv(g, src, d[..], buckets[..], maxDist, curr, [])
      decreases maxDist + 1 - curr, InfCount(d[..]), FinSum(d[..]), TotalSize(buckets[..])
    {
      if buckets[curr] == [] {
        AdvanceInv(g, src, d[..], buckets[..], maxDist, curr);
        curr := curr + 1;
        continue;
      }
      TakeInv(g, src, d[..], buckets[..], maxDist, curr);
      ghost var b0 := buckets[..];
      var thisBucket := TakeBucket(buckets, curr);
      assert thisBucket[0..] == thisBucket;
      RelaxAllInv(g, src, d[..], buckets[..], maxDist, curr, thisBucket, 0);
      RelaxSnapshot(g, d, buckets, maxDist, thisBucket);
      assert TotalSize(b0[curr := []]) < TotalSize(b0);
    }
    dist := d[..];
    forall x | 0 <= x < n && dist[x].Fin? && dist[x].value <= maxDist
      ensures Relaxed(g, dist, x)
    {
      assert Covered(g, dist, buckets[..], x, [], curr);
    }
    if WeightsAtMost(g, MAX_WEIGHT) {
      BoundedFixpointIsShortest(g, src, dist, MAX_WEIGHT);
    }
  }
}
