/** Dijkstra_Paralel1/dijkstra_parallel.cpp: Dijkstra's algorithm with a
    min-priority queue of (distance, vertex) entries and lazy deletion of
    stale entries, run as one worker. */
module LazyDijkstra {
  import opened Graphs
  import opened Distances

  /** A queue entry: (tentative distance, vertex). */
  type Entry = (int, int)

  /** The order of std::pair, which greater<> turns into a min-heap: by
      distance first, then by vertex. */
  predicate EntryLe(a: Entry, b: Entry)
  {
    a.0 < b.0 || (a.0 == b.0 && a.1 <= b.1)
  }

  /** pq.top(); pq.pop(): removes one least entry and keeps all the others.
      The heap is represented by the multiset of its entries. */
  method PopMin(pq: seq<Entry>) returns (top: Entry, rest: seq<Entry>)
    requires pq != []
    ensures top in pq
    ensures forall e :: e in pq ==> EntryLe(top, e)
    ensures multiset(rest) + multiset{top} == multiset(pq)
    ensures |rest| == |pq| - 1
  {
    var m := 0;
    var i := 1;
    while i < |pq|
      invariant 1 <= i <= |pq| && 0 <= m < i
      invariant forall k :: 0 <= k < i ==> EntryLe(pq[m], pq[k])
    {
      if !EntryLe(pq[m], pq[i]) {
        m := i;
      }
      i := i + 1;
    }
    top := pq[m];
    rest := pq[..m] + pq[m + 1..];
    assert pq == pq[..m] + [pq[m]] + pq[m + 1..];
  }

  /** Every queued (e, x) names a vertex whose distance is at most e, and e
      is the length of a walk from src to x. */
  ghost predicate QueueSound(g: Graph, src: int, d: seq<Dist>, pq: seq<Entry>)
  {
    forall e :: e in pq ==> 0 <= e.1 < |d| && e.0 >= 0 && Le(d[e.1], Fin(e.0)) && Reachable(g, src, e.1, e.0)
  }

  /** x has all its edges relaxed, or an entry carrying its current distance
      is still queued. */
  ghost predicate Pending(g: Graph, d: seq<Dist>, pq: seq<Entry>, x: int)
    requires WellFormed(g) && |d| == |g| && 0 <= x < |g| && d[x].Fin?
  {
    Relaxed(g, d, x) || (d[x].value, x) in pq
  }

  /** The invariant of the worker loop. */
  ghost predicate QueueInv(g: Graph, src: int, d: seq<Dist>, pq: seq<Entry>)
  {
    TableOk(g, src, d) && QueueSound(g, src, d, pq) && AllPending(g, d, pq)
  }

  /** Every vertex with a finite distance is pending. */
  ghost predicate AllPending(g: Graph, d: seq<Dist>, pq: seq<Entry>)
    requires WellFormed(g) && |d| == |g|
  {
    forall x :: 0 <= x < |g| && d[x].Fin? ==> Pending(g, d, pq, x)
  }

  /** Every vertex other than u with a finite distance is pending. */
  ghost predicate PendingExcept(g: Graph, d: seq<Dist>, pq: seq<Entry>, u: int)
    requires WellFormed(g) && |d| == |g|
  {
    forall x :: 0 <= x < |g| && x != u && d[x].Fin? ==> Pending(g, d, pq, x)
  }

  /** u has a finite distance and its first j edges relaxed. */
  ghost predicate Settling(g: Graph, d: seq<Dist>, u: int, j: int)
    requires WellFormed(g) && |d| == |g|
  {
    0 <= u < |g| && 0 <= j <= |g[u]| && d[u].Fin? && RelaxedUpTo(g, d, u, j)
  }

  /** The invariant while the edges of the popped vertex u are relaxed, after
      the first j of them. */
  ghost predicate SettleInv(g: Graph, src: int, d: seq<Dist>, pq: seq<Entry>, u: int, j: int)
  {
    TableOk(g, src, d) && QueueSound(g, src, d, pq) &&
    Settling(g, d, u, j) && PendingExcept(g, d, pq, u)
  }

  /** The initial state: d[src] = 0, all else unreachable, queue {(0, src)}. */
  lemma InitQueueInv(g: Graph, src: int)
    requires WellFormed(g) && 0 <= src < |g|
    ensures QueueInv(g, src, InitDist(|g|, src), [(0, src)])
  {
    InitSound(g, src);
    ReachableStart(g, src);
  }

  /** Entries that survive a pop keep their properties. */
  lemma RemovedEntry(pq: seq<Entry>, top: Entry, rest: seq<Entry>, e: Entry)
    requires multiset(rest) + multiset{top} == multiset(pq)
    ensures e in rest ==> e in pq
    ensures e in pq && e != top ==> e in rest
  {
    assert e in rest ==> e in multiset(pq);
    if e in pq && e != top {
      assert multiset(pq)[e] == multiset(rest)[e];
    }
  }

  /** Discarding a stale entry (its distance exceeds the vertex's current
      one) keeps the invariant: no vertex relies on it. */
  lemma PopStale(g: Graph, src: int, d: seq<Dist>, pq: seq<Entry>, top: Entry, rest: seq<Entry>)
    requires QueueInv(g, src, d, pq) && top in pq
    requires multiset(rest) + multiset{top} == multiset(pq)
    requires Less(d[top.1], Fin(top.0))
    ensures QueueInv(g, src, d, rest)
  {
    forall e | e in rest
      ensures 0 <= e.1 < |d| && e.0 >= 0 && Le(d[e.1], Fin(e.0)) && Reachable(g, src, e.1, e.0)
    {
      RemovedEntry(pq, top, rest, e);
    }
    forall x | 0 <= x < |g| && d[x].Fin?
      ensures Pending(g, d, rest, x)
    {
      RemovedEntry(pq, top, rest, (d[x].value, x));
    }
  }

  /** A popped entry that is not stale carries the vertex's current distance,
      and relaxing its edges may begin: every other vertex keeps its own
      pending entry. */
  lemma StartSettle(g: Graph, src: int, d: seq<Dist>, pq: seq<Entry>, top: Entry, rest: seq<Entry>)
    requires QueueInv(g, src, d, pq) && top in pq
    requires multiset(rest) + multiset{top} == multiset(pq)
    requires !Less(d[top.1], Fin(top.0))
    ensures d[top.1] == Fin(top.0)
    ensures SettleInv(g, src, d, rest, top.1, 0)
  {
    forall e | e in rest
      ensures 0 <= e.1 < |d| && e.0 >= 0 && Le(d[e.1], Fin(e.0)) && Reachable(g, src, e.1, e.0)
    {
      RemovedEntry(pq, top, rest, e);
    }
    forall x | 0 <= x < |g| && x != top.1 && d[x].Fin?
      ensures Pending(g, d, rest, x)
    {
      RemovedEntry(pq, top, rest, (d[x].value, x));
    }
  }

  /** An improving relaxation of edge j of u lowers d[v], pushes (nd, v),
      and keeps the invariant. */
  lemma ImprovingRelax(g: Graph, src: int, d: seq<Dist>, pq: seq<Entry>, u: int, j: int)
    requires SettleInv(g, src, d, pq, u, j) && j < |g[u]|
    requires Less(Fin(d[u].value + g[u][j].1), d[g[u][j].0])
    ensures var v, nd := g[u][j].0, d[u].value + g[u][j].1;
      SettleInv(g, src, d[v := Fin(nd)], pq + [(nd, v)], u, j + 1) &&
      Progress(d, d[v := Fin(nd)])
  {
    var v, nd := g[u][j].0, d[u].value + g[u][j].1;
    var d', pq' := d[v := Fin(nd)], pq + [(nd, v)];
    ImprovingWrite(g, src, d, u, j);
    forall e | e in pq'
      ensures 0 <= e.1 < |d'| && e.0 >= 0 && Le(d'[e.1], Fin(e.0)) && Reachable(g, src, e.1, e.0)
    {
      if e != (nd, v) {
        assert e in pq;
      }
    }
    forall x | 0 <= x < |g| && x != u && d'[x].Fin?
      ensures Pending(g, d', pq', x)
    {
      if x != v {
        assert Pending(g, d, pq, x);
        if Relaxed(g, d, x) {
          LowerKeepsRelaxed(g, d, x, |g[x]|, v, nd);
        }
      }
    }
  }

  /** A relaxation of edge j of u that does not improve needs no entry. */
  lemma IdleRelax(g: Graph, src: int, d: seq<Dist>, pq: seq<Entry>, u: int, j: int)
    requires SettleInv(g, src, d, pq, u, j) && j < |g[u]|
    requires !Less(Fin(d[u].value + g[u][j].1), d[g[u][j].0])
    ensures SettleInv(g, src, d, pq, u, j + 1)
  {
    assert EdgeRelaxed(g, d, u, j);
  }

  /** Once all edges of u are relaxed, u needs no entry. */
  lemma EndSettle(g: Graph, src: int, d: seq<Dist>, pq: seq<Entry>, u: int)
    requires 0 <= u < |g| && SettleInv(g, src, d, pq, u, |g[u]|)
    ensures QueueInv(g, src, d, pq)
  {
  }

  /** The state after relaxing one edge into v with candidate distance nd:
      an improvement is written and pushed as (nd, v); otherwise nothing
      changes. */
  function AfterRelax(d: seq<Dist>, pq: seq<Entry>, v: int, nd: nat): (r: (seq<Dist>, seq<Entry>))
    requires 0 <= v < |d|
  {
    if Less(Fin(nd), d[v]) then (d[v := Fin(nd)], pq + [(nd, v)]) else (d, pq)
  }

  /** The edge loop of `parallel_dijkstra` for u from edge j on: each edge, in list
      order, re-reads dist[u]. */
  function SettleEdges(g: Graph, d: seq<Dist>, pq: seq<Entry>, u: int, j: int): (r: (seq<Dist>, seq<Entry>))
    requires WellFormed(g) && |d| == |g| && 0 <= u < |g| && 0 <= j <= |g[u]| && d[u].Fin?
    ensures |r.0| == |d|
    decreases |g[u]| - j
  {
    if j == |g[u]| then (d, pq)
    else
      var after := AfterRelax(d, pq, g[u][j].0, d[u].value + g[u][j].1);
      assert after.0[u].Fin?;
      SettleEdges(g, after.0, after.1, u, j + 1)
  }

  /** The entry e was pushed for a strict improvement over d, and the final
      table r is at most what it carries. */
  ghost predicate PushedImprovement(d: seq<Dist>, r: seq<Dist>, e: Entry)
  {
    0 <= e.1 < |d| && e.1 < |r| && e.0 >= 0 && Less(Fin(e.0), d[e.1]) && Le(r[e.1], Fin(e.0))
  }

  /** Settling u only lowers entries and only appends to the queue, and each
      appended entry (new_dist, v) carried a strict improvement of dist[v]. */
  lemma {:induction false} SettleEdgesMonotone(g: Graph, d: seq<Dist>, pq: seq<Entry>, u: int, j: int)
    requires WellFormed(g) && |d| == |g| && 0 <= u < |g| && 0 <= j <= |g[u]| && d[u].Fin?
    ensures var r := SettleEdges(g, d, pq, u, j);
      (forall x :: 0 <= x < |d| ==> Le(r.0[x], d[x])) && pq <= r.1 &&
      (forall k :: |pq| <= k < |r.1| ==> PushedImprovement(d, r.0, r.1[k]))
    decreases |g[u]| - j
  {
    if j < |g[u]| {
      var v, nd := g[u][j].0, d[u].value + g[u][j].1;
      var after := AfterRelax(d, pq, v, nd);
      SettleEdgesMonotone(g, after.0, after.1, u, j + 1);
      var r := SettleEdges(g, d, pq, u, j);
      assert pq <= after.1 <= r.1;
      forall k | |pq| <= k < |r.1| ensures PushedImprovement(d, r.0, r.1[k]) {
        if k >= |after.1| {
          assert PushedImprovement(after.0, r.0, r.1[k]);
        } else {
          assert r.1[k] == after.1[k] == (nd, v);
        }
      }
    }
  }

  /** Relaxing edge j of u keeps the invariant and either makes
      progress or changes nothing. */
  lemma SettleStep(g: Graph, src: int, d: seq<Dist>, pq: seq<Entry>, u: int, j: int)
    requires SettleInv(g, src, d, pq, u, j) && j < |g[u]|
    ensures var after := AfterRelax(d, pq, g[u][j].0, d[u].value + g[u][j].1);
      SettleInv(g, src, after.0, after.1, u, j + 1) && Advanced(d, pq, after.0, after.1)
  {
    if Less(Fin(d[u].value + g[u][j].1), d[g[u][j].0]) {
      ImprovingRelax(g, src, d, pq, u, j);
    } else {
      IdleRelax(g, src, d, pq, u, j);
    }
  }

  /** One edge of `parallel_dijkstra`: an improvement is written to dist[v]
      and (new_dist, v) is pushed. */
  method RelaxEdge(d: array<Dist>, pq: seq<Entry>, v: int, newDist: nat) returns (pqOut: seq<Entry>)
    requires 0 <= v < d.Length
    modifies d
    ensures (d[..], pqOut) == AfterRelax(old(d[..]), pq, v, newDist)
  {
    pqOut := pq;
    if Less(Fin(newDist), d[v]) {
      d[v] := Fin(newDist);
      pqOut := pq + [(newDist, v)];
    }
  }

  /** Settling u from edge j on keeps the invariant until all of u's edges
      are relaxed, and either makes progress or changes nothing. */
  lemma {:induction false} SettleEdgesInv(g: Graph, src: int, d: seq<Dist>, pq: seq<Entry>, u: int, j: int)
    requires SettleInv(g, src, d, pq, u, j)
    ensures var r := SettleEdges(g, d, pq, u, j);
      QueueInv(g, src, r.0, r.1) && Advanced(d, pq, r.0, r.1)
    decreases |g[u]| - j
  {
    if j == |g[u]| {
      EndSettle(g, src, d, pq, u);
    } else {
      SettleStep(g, src, d, pq, u, j);
      var after := AfterRelax(d, pq, g[u][j].0, d[u].value + g[u][j].1);
      SettleEdgesInv(g, src, after.0, after.1, u, j + 1);
      var r := SettleEdges(g, d, pq, u, j);
      AdvancedTrans(d, pq, after.0, after.1, r.0, r.1);
    }
  }

  /** The edge loop of `parallel_dijkstra` for a popped, non-stale u: the new table
      and queue are SettleEdges of the old ones. */
  method Settle(g: Graph, d: array<Dist>, pq: seq<Entry>, u: int) returns (pqOut: seq<Entry>)
    requires WellFormed(g) && d.Length == |g| && 0 <= u < |g| && d[u].Fin?
    modifies d
    ensures (d[..], pqOut) == SettleEdges(g, old(d[..]), pq, u, 0)
  {
    pqOut := pq;
    var j := 0;
    while j < |g[u]|
      invariant 0 <= j <= |g[u]| && d[u] == old(d[u])
      invariant SettleEdges(g, d[..], pqOut, u, j) == SettleEdges(g, old(d[..]), pq, u, 0)
    {
      var v, w := g[u][j].0, g[u][j].1;
      var newDist := d[u].value + w;
      ghost var after := AfterRelax(d[..], pqOut, v, newDist);
      pqOut := RelaxEdge(d, pqOut, v, newDist);
      assert d[..] == after.0 && pqOut == after.1;
      j := j + 1;
    }
  }

  /** parallel_dijkstra with one worker. The loop ends exactly when the queue
      is empty; the result holds 0 at src and exactly the shortest-path
      distance of every vertex, Inf for the unreachable ones. */
  method ParallelDijkstra(g: Graph, src: int) returns (dist: seq<Dist>)
    requires WellFormed(g) && 0 <= src < |g|
    ensures |dist| == |g| && dist[src] == Fin(0) && Sound(g, src, dist)
    ensures AllShortest(g, src, dist)
  {
    var n := |g|;
    var d := new Dist[n](_ => Inf);
    d[src] := Fin(0);
    var pq: seq<Entry> := [(0, src)];
    assert d[..] == InitDist(n, src);
    InitQueueInv(g, src);
    while true
      invariant d.Length == n
      invariant QueueInv(g, src, d[..], pq)
      decreases InfCount(d[..]), FinSum(d[..]), |pq|
    {
      if pq == [] {
        break;
      }
      var top, rest := PopMin(pq);
      var du, u := top.0, top.1;
      if Less(d[u], Fin(du)) {
        PopStale(g, src, d[..], pq, top, rest);
        pq := rest;
        continue;
      }
      StartSettle(g, src, d[..], pq, top, rest);
      SettleEdgesInv(g, src, d[..], rest, u, 0);
      pq := Settle(g, d, rest, u);
    }
    dist := d[..];
    FixpointIsShortest(g, src, dist);
  }
}
