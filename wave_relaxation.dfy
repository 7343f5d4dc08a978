/** The wave relaxation engine of main.cpp (dijkstra_parallel), run on one
    thread: passes over all vertices expand every vertex that is unvisited and
    has a finite distance, relaxing its edges, until a pass lowers nothing.

    The visited flags are never cleared, so a vertex whose distance drops after
    it was expanded is not expanded again, and the result is only an upper
    bound built from real walks (DijkstraParallel, NotShortestExample). The
    evidently intended algorithm re-expands such a vertex; it is
    DijkstraParallelRevisiting, proved to compute shortest distances. */
module WaveRelaxation {
  import opened Graphs
  import opened Distances

  // ---- The passes as functions: the specification of the loops ----

  /** Relaxes the edges of u from position i on, in list order, re-reading
      d[u] for each edge; the flag is raised by every write. */
  function RelaxFrom(g: Graph, d: seq<Dist>, u: int, i: int, changed: bool): (r: (seq<Dist>, bool))
    requires WellFormed(g) && |d| == |g| && 0 <= u < |g| && 0 <= i <= |g[u]| && d[u].Fin?
    ensures |r.0| == |d|
    decreases |g[u]| - i
  {
    if i == |g[u]| then (d, changed)
    else
      var v, nd := g[u][i].0, d[u].value + g[u][i].1;
      if Less(Fin(nd), d[v]) then RelaxFrom(g, d[v := Fin(nd)], u, i + 1, true)
      else RelaxFrom(g, d, u, i + 1, changed)
  }

  /** One pass over vertices u..|g|-1: each unvisited vertex with a finite
      distance is marked visited and its edges are relaxed. */
  function Sweep(g: Graph, d: seq<Dist>, vis: seq<bool>, u: int, changed: bool): (r: (seq<Dist>, seq<bool>, bool))
    requires WellFormed(g) && |d| == |g| && |vis| == |g| && 0 <= u <= |g|
    ensures |r.0| == |g| && |r.1| == |g|
    decreases |g| - u
  {
    if u == |g| then (d, vis, changed)
    else if !vis[u] && d[u].Fin? then
      var rel := RelaxFrom(g, d, u, 0, changed);
      Sweep(g, rel.0, vis[u := true], u + 1, rel.1)
    else Sweep(g, d, vis, u + 1, changed)
  }

  /** Number of vertices not yet visited. */
  function Unvisited(vis: seq<bool>): (count: nat)
  {
    if vis == [] then 0 else Unvisited(vis[..|vis| - 1]) + (if vis[|vis| - 1] then 0 else 1)
  }

  /** The passes, while the previous pass lowered something. */
  function Waves(g: Graph, d: seq<Dist>, vis: seq<bool>, more: bool): (r: seq<Dist>)
    requires WellFormed(g) && |d| == |g| && |vis| == |g|
    ensures |r| == |g|
    decreases Unvisited(vis), if more then 1 else 0
  {
    if !more then d
    else
      var s := Sweep(g, d, vis, 0, false);
      SweepVisits(g, d, vis, 0, false);
      Waves(g, s.0, s.1, s.2)
  }

  /** Number of passes Waves makes. */
  function PassCount(g: Graph, d: seq<Dist>, vis: seq<bool>, more: bool): (passes: nat)
    requires WellFormed(g) && |d| == |g| && |vis| == |g|
    decreases Unvisited(vis), if more then 1 else 0
  {
    if !more then 0
    else
      var s := Sweep(g, d, vis, 0, false);
      SweepVisits(g, d, vis, 0, false);
      1 + PassCount(g, s.0, s.1, s.2)
  }

  function NoneVisited(n: nat): (vis: seq<bool>)
  {
    seq(n, _ => false)
  }

  /** The table dijkstra_parallel returns for start. */
  function WaveResult(g: Graph, start: int): (d: seq<Dist>)
    requires WellFormed(g) && 0 <= start < |g|
  {
    Waves(g, InitDist(|g|, start), NoneVisited(|g|), true)
  }

  // ---- Properties of the passes ----

  lemma {:induction false} UnvisitedMark(vis: seq<bool>, u: int)
    requires 0 <= u < |vis| && !vis[u]
    ensures Unvisited(vis[u := true]) + 1 == Unvisited(vis)
    decreases |vis|
  {
    var k := |vis| - 1;
    if u < k {
      assert vis[u := true][..k] == vis[..k][u := true];
      UnvisitedMark(vis[..k], u);
    } else {
      assert vis[u := true][..k] == vis[..k];
    }
  }

  lemma {:induction false} UnvisitedBound(vis: seq<bool>)
    ensures Unvisited(vis) <= |vis|
    decreases |vis|
  {
    if vis != [] {
      UnvisitedBound(vis[..|vis| - 1]);
    }
  }

  /** A pass never un-visits, and a pass that raises the flag expanded at least
      one vertex that was unvisited before it. */
  lemma {:induction false} SweepVisits(g: Graph, d: seq<Dist>, vis: seq<bool>, u: int, changed: bool)
    requires WellFormed(g) && |d| == |g| && |vis| == |g| && 0 <= u <= |g|
    ensures Unvisited(Sweep(g, d, vis, u, changed).1) <= Unvisited(vis)
    ensures Sweep(g, d, vis, u, changed).2 ==> changed || Unvisited(Sweep(g, d, vis, u, changed).1) < Unvisited(vis)
    decreases |g| - u
  {
    if u < |g| {
      if !vis[u] && d[u].Fin? {
        var rel := RelaxFrom(g, d, u, 0, changed);
        UnvisitedMark(vis, u);
        SweepVisits(g, rel.0, vis[u := true], u + 1, rel.1);
      } else {
        SweepVisits(g, d, vis, u + 1, changed);
      }
    }
  }

  /** Relaxing the edges of u only ever lowers entries, never changes d[u],
      raises the flag exactly when it lowered something, and keeps the table
      sound when d[u] is a real walk length. */
  lemma {:induction false} RelaxFromSpec(g: Graph, src: int, d: seq<Dist>, u: int, i: int, changed: bool)
    requires WellFormed(g) && |d| == |g| && 0 <= u < |g| && 0 <= i <= |g[u]| && d[u].Fin?
    ensures var r := RelaxFrom(g, d, u, i, changed);
      (forall x :: 0 <= x < |d| ==> Le(r.0[x], d[x])) &&
      r.0[u] == d[u] &&
      (r.1 <==> changed || r.0 != d) &&
      (Sound(g, src, d) ==> Sound(g, src, r.0))
    decreases |g[u]| - i
  {
    if i < |g[u]| {
      var v, nd := g[u][i].0, d[u].value + g[u][i].1;
      if Less(Fin(nd), d[v]) {
        var d' := d[v := Fin(nd)];
        RelaxFromSpec(g, src, d', u, i + 1, true);
        if Sound(g, src, d) {
          ReachableExtend(g, src, u, d[u].value, i);
          SoundUpdate(g, src, d, v, nd);
        }
        var r := RelaxFrom(g, d', u, i + 1, true);
        assert Le(r.0[v], d'[v]);
      } else {
        RelaxFromSpec(g, src, d, u, i + 1, changed);
      }
    }
  }

  /** A pass only lowers entries, only adds visited marks, raises the flag
      exactly when it lowered some entry, and keeps the table sound. */
  lemma {:induction false} SweepSpec(g: Graph, src: int, d: seq<Dist>, vis: seq<bool>, u: int, changed: bool)
    requires WellFormed(g) && |d| == |g| && |vis| == |g| && 0 <= u <= |g|
    ensures var r := Sweep(g, d, vis, u, changed);
      (forall x :: 0 <= x < |d| ==> Le(r.0[x], d[x])) &&
      (forall x :: 0 <= x < |vis| && vis[x] ==> r.1[x]) &&
      (r.2 <==> changed || r.0 != d) &&
      (Sound(g, src, d) ==> Sound(g, src, r.0))
    decreases |g| - u
  {
    if u < |g| {
      if !vis[u] && d[u].Fin? {
        var rel := RelaxFrom(g, d, u, 0, changed);
        RelaxFromSpec(g, src, d, u, 0, changed);
        SweepSpec(g, src, rel.0, vis[u := true], u + 1, rel.1);
        var r := Sweep(g, rel.0, vis[u := true], u + 1, rel.1);
        if r.0 == d {
          // Nothing can be lowered and then restored.
          assert forall x :: 0 <= x < |d| ==> rel.0[x] == d[x];
          assert rel.0 == d;
        }
      } else {
        SweepSpec(g, src, d, vis, u + 1, changed);
      }
    }
  }

  /** The passes keep the table sound and never lower d[src] below 0. */
  lemma {:induction false} WavesSound(g: Graph, src: int, d: seq<Dist>, vis: seq<bool>, more: bool)
    requires WellFormed(g) && |d| == |g| && |vis| == |g| && 0 <= src < |g|
    requires Sound(g, src, d) && d[src] == Fin(0)
    ensures Sound(g, src, Waves(g, d, vis, more)) && Waves(g, d, vis, more)[src] == Fin(0)
    decreases Unvisited(vis), if more then 1 else 0
  {
    if more {
      var s := Sweep(g, d, vis, 0, false);
      SweepSpec(g, src, d, vis, 0, false);
      SweepVisits(g, d, vis, 0, false);
      assert Le(s.0[src], d[src]);
      WavesSound(g, src, s.0, s.1, s.2);
    }
  }

  /** The result has one entry per vertex, holds 0 at start, and every finite
      entry is the length of a real walk from start (so it is never below the
      shortest distance). */
  lemma WaveResultSound(g: Graph, start: int)
    requires WellFormed(g) && 0 <= start < |g|
    ensures |WaveResult(g, start)| == |g|
    ensures WaveResult(g, start)[start] == Fin(0)
    ensures Sound(g, start, WaveResult(g, start))
  {
    InitSound(g, start);
    WavesSound(g, start, InitDist(|g|, start), NoneVisited(|g|), true);
  }

  /** Every pass but the last lowers something and visits a new vertex, so
      there are at most (number of unvisited vertices) + 1 passes. */
  lemma {:induction false} PassCountBound(g: Graph, d: seq<Dist>, vis: seq<bool>, more: bool)
    requires WellFormed(g) && |d| == |g| && |vis| == |g|
    ensures PassCount(g, d, vis, more) <= Unvisited(vis) + (if more then 1 else 0)
    decreases Unvisited(vis), if more then 1 else 0
  {
    if more {
      var s := Sweep(g, d, vis, 0, false);
      SweepVisits(g, d, vis, 0, false);
      PassCountBound(g, s.0, s.1, s.2);
    }
  }

  /** dijkstra_parallel stops after at most |g| + 1 passes. */
  lemma WaveResultPasses(g: Graph, start: int)
    requires WellFormed(g) && 0 <= start < |g|
    ensures PassCount(g, InitDist(|g|, start), NoneVisited(|g|), true) <= |g| + 1
  {
    PassCountBound(g, InitDist(|g|, start), NoneVisited(|g|), true);
    UnvisitedBound(NoneVisited(|g|));
  }

  // ---- Reachability: the result is Inf exactly for unreachable vertices ----

  /** Every target of x has a finite entry. */
  ghost predicate TargetsFinite(g: Graph, d: seq<Dist>, x: int)
    requires WellFormed(g) && |d| == |g| && 0 <= x < |g|
  {
    forall j :: 0 <= j < |g[x]| ==> d[g[x][j].0].Fin?
  }

  /** Every visited vertex has a finite entry, and so have its targets. */
  ghost predicate VisitedReach(g: Graph, d: seq<Dist>, vis: seq<bool>)
    requires WellFormed(g) && |d| == |g| && |vis| == |g|
  {
    forall x :: 0 <= x < |g| && vis[x] ==> d[x].Fin? && TargetsFinite(g, d, x)
  }

  /** Every vertex with a finite entry has finite targets. */
  ghost predicate Closed(g: Graph, d: seq<Dist>)
    requires WellFormed(g) && |d| == |g|
  {
    forall x :: 0 <= x < |g| && d[x].Fin? ==> TargetsFinite(g, d, x)
  }

  /** Relaxing the edges of u from edge i on leaves each of those edges'
      targets finite. */
  lemma {:induction false} RelaxFromReaches(g: Graph, d: seq<Dist>, u: int, i: int, changed: bool)
    requires WellFormed(g) && |d| == |g| && 0 <= u < |g| && 0 <= i <= |g[u]| && d[u].Fin?
    ensures var r := RelaxFrom(g, d, u, i, changed).0;
      forall j :: i <= j < |g[u]| ==> r[g[u][j].0].Fin?
    decreases |g[u]| - i
  {
    if i < |g[u]| {
      var v, nd := g[u][i].0, d[u].value + g[u][i].1;
      if Less(Fin(nd), d[v]) {
        var d' := d[v := Fin(nd)];
        RelaxFromReaches(g, d', u, i + 1, true);
        RelaxFromSpec(g, 0, d', u, i + 1, true);
        assert Le(RelaxFrom(g, d', u, i + 1, true).0[v], d'[v]);
      } else {
        RelaxFromReaches(g, d, u, i + 1, changed);
        RelaxFromSpec(g, 0, d, u, i + 1, changed);
        assert Le(RelaxFrom(g, d, u, i + 1, changed).0[v], d[v]);
      }
    }
  }

  /** Lowering entries keeps finite entries finite. */
  lemma LowerKeepsReach(g: Graph, d: seq<Dist>, d': seq<Dist>, vis: seq<bool>)
    requires WellFormed(g) && |d| == |g| && |d'| == |g| && |vis| == |g|
    requires forall x :: 0 <= x < |g| ==> Le(d'[x], d[x])
    requires VisitedReach(g, d, vis)
    ensures VisitedReach(g, d', vis)
  {
    forall x | 0 <= x < |g| && vis[x] ensures d'[x].Fin? && TargetsFinite(g, d', x) {
      forall j | 0 <= j < |g[x]| ensures d'[g[x][j].0].Fin? {
        assert Le(d'[g[x][j].0], d[g[x][j].0]);
      }
    }
  }

  /** A pass keeps every visited vertex and its targets finite. */
  lemma {:induction false} SweepReach(g: Graph, d: seq<Dist>, vis: seq<bool>, u: int, changed: bool)
    requires WellFormed(g) && |d| == |g| && |vis| == |g| && 0 <= u <= |g|
    requires VisitedReach(g, d, vis)
    ensures var r := Sweep(g, d, vis, u, changed); VisitedReach(g, r.0, r.1)
    decreases |g| - u
  {
    if u < |g| {
      if !vis[u] && d[u].Fin? {
        var rel := RelaxFrom(g, d, u, 0, changed);
        RelaxFromSpec(g, 0, d, u, 0, changed);
        RelaxFromReaches(g, d, u, 0, changed);
        LowerKeepsReach(g, d, rel.0, vis);
        assert VisitedReach(g, rel.0, vis[u := true]);
        SweepReach(g, rel.0, vis[u := true], u + 1, rel.1);
      } else {
        SweepReach(g, d, vis, u + 1, changed);
      }
    }
  }

  /** A pass that raises no flag leaves every finite vertex visited. */
  lemma {:induction false} SweepCovers(g: Graph, d: seq<Dist>, vis: seq<bool>, u: int, changed: bool)
    requires WellFormed(g) && |d| == |g| && |vis| == |g| && 0 <= u <= |g|
    requires forall x :: 0 <= x < u && d[x].Fin? ==> vis[x]
    ensures var r := Sweep(g, d, vis, u, changed);
      !r.2 ==> forall x :: 0 <= x < |g| && r.0[x].Fin? ==> r.1[x]
    decreases |g| - u
  {
    if u < |g| {
      if !vis[u] && d[u].Fin? {
        var rel := RelaxFrom(g, d, u, 0, changed);
        RelaxFromSpec(g, 0, d, u, 0, changed);
        SweepSpec(g, 0, rel.0, vis[u := true], u + 1, rel.1);
        if !rel.1 {
          SweepCovers(g, d, vis[u := true], u + 1, false);
        }
      } else {
        SweepCovers(g, d, vis, u + 1, changed);
      }
    }
  }

  /** The passes end on a table in which every finite vertex has finite
      targets. */
  lemma {:induction false} WavesClosed(g: Graph, d: seq<Dist>, vis: seq<bool>, more: bool)
    requires WellFormed(g) && |d| == |g| && |vis| == |g|
    requires VisitedReach(g, d, vis)
    requires !more ==> forall x :: 0 <= x < |g| && d[x].Fin? ==> vis[x]
    ensures Closed(g, Waves(g, d, vis, more))
    decreases Unvisited(vis), if more then 1 else 0
  {
    if more {
      var s := Sweep(g, d, vis, 0, false);
      SweepVisits(g, d, vis, 0, false);
      SweepReach(g, d, vis, 0, false);
      SweepCovers(g, d, vis, 0, false);
      WavesClosed(g, s.0, s.1, s.2);
    }
  }

  /** In a closed table with a finite source entry, every walk from the
      source ends at a finite entry. */
  lemma {:induction false} ClosedReaches(g: Graph, start: int, d: seq<Dist>, steps: seq<Step>, v: int)
    requires WellFormed(g) && |d| == |g| && 0 <= start < |g| && d[start].Fin? && Closed(g, d)
    requires IsWalk(g, start, steps, v)
    ensures 0 <= v < |g| && d[v].Fin?
    decreases |steps|
  {
    if steps != [] {
      var k := |steps| - 1;
      WalkPrefix(g, start, steps, v);
      ClosedReaches(g, start, d, steps[..k], steps[k].0);
      assert v == g[steps[k].0][steps[k].1].0;
    }
  }

  /** dijkstra_parallel gets reachability right although not distances: its
      entry for v is Inf exactly when no walk from start reaches v, so the
      -1 it prints means "no path". */
  lemma WaveResultReaches(g: Graph, start: int)
    requires WellFormed(g) && 0 <= start < |g|
    ensures forall v :: 0 <= v < |g| ==>
      (WaveResult(g, start)[v] == Inf <==> forall steps :: !IsWalk(g, start, steps, v))
  {
    var d := WaveResult(g, start);
    WaveResultSound(g, start);
    WavesClosed(g, InitDist(|g|, start), NoneVisited(|g|), true);
    forall v | 0 <= v < |g| ensures d[v] == Inf <==> forall steps :: !IsWalk(g, start, steps, v) {
      if d[v].Fin? {
        assert Reachable(g, start, v, d[v].value);
      } else {
        forall steps | IsWalk(g, start, steps, v) ensures false {
          ClosedReaches(g, start, d, steps, v);
        }
      }
    }
  }

  // ---- The counterexample: a vertex lowered after its expansion ----

  /** Edges (0,1,4), (0,2,1), (2,1,1), (1,3,1). */
  function ExampleGraph(): (g: Graph)
  {
    [[(1, 4), (2, 1)], [(3, 1)], [(1, 1)], []]
  }

  /** The expansions of the first pass on ExampleGraph from vertex 0: vertex 0
      sets 1 to 4 and 2 to 1, vertex 1 sets 3 to 5, vertex 2 lowers 1 to 2,
      and vertex 3 has no edges. */
  lemma ExampleExpansions()
    ensures WellFormed(ExampleGraph())
    ensures RelaxFrom(ExampleGraph(), [Fin(0), Inf, Inf, Inf], 0, 0, false) == ([Fin(0), Fin(4), Fin(1), Inf], true)
    ensures RelaxFrom(ExampleGraph(), [Fin(0), Fin(4), Fin(1), Inf], 1, 0, true) == ([Fin(0), Fin(4), Fin(1), Fin(5)], true)
    ensures RelaxFrom(ExampleGraph(), [Fin(0), Fin(4), Fin(1), Fin(5)], 2, 0, true) == ([Fin(0), Fin(2), Fin(1), Fin(5)], true)
    ensures RelaxFrom(ExampleGraph(), [Fin(0), Fin(2), Fin(1), Fin(5)], 3, 0, true) == ([Fin(0), Fin(2), Fin(1), Fin(5)], true)
  {
    var g := ExampleGraph();
    var d0 := [Fin(0), Inf, Inf, Inf];
    var da := [Fin(0), Fin(4), Fin(1), Inf];
    assert RelaxFrom(g, da, 0, 2, true) == (da, true);
    assert [Fin(0), Fin(4), Inf, Inf][2 := Fin(1)] == da;
    assert RelaxFrom(g, [Fin(0), Fin(4), Inf, Inf], 0, 1, true) == (da, true);
    assert d0[1 := Fin(4)] == [Fin(0), Fin(4), Inf, Inf];
    var db := [Fin(0), Fin(4), Fin(1), Fin(5)];
    assert RelaxFrom(g, db, 1, 1, true) == (db, true);
    assert da[3 := Fin(5)] == db;
    var dc := [Fin(0), Fin(2), Fin(1), Fin(5)];
    assert RelaxFrom(g, dc, 2, 1, true) == (dc, true);
    assert db[1 := Fin(2)] == dc;
  }

  /** The first pass on ExampleGraph from vertex 0 expands every vertex once,
      in order, ends with [0, 2, 1, 5] and raises the flag. */
  lemma ExampleFirstPass()
    ensures WellFormed(ExampleGraph())
    ensures Sweep(ExampleGraph(), [Fin(0), Inf, Inf, Inf], [false, false, false, false], 0, false) ==
            ([Fin(0), Fin(2), Fin(1), Fin(5)], [true, true, true, true], true)
  {
    var g := ExampleGraph();
    var d0 := [Fin(0), Inf, Inf, Inf];
    var f := [false, false, false, false];
    var t := [true, true, true, true];
    var da := [Fin(0), Fin(4), Fin(1), Inf];
    var db := [Fin(0), Fin(4), Fin(1), Fin(5)];
    var dc := [Fin(0), Fin(2), Fin(1), Fin(5)];
    ExampleExpansions();
    assert Sweep(g, dc, t, 4, true) == (dc, t, true);
    assert [true, true, true, false][3 := true] == t;
    assert Sweep(g, dc, [true, true, true, false], 3, true) == (dc, t, true);
    assert [true, true, false, false][2 := true] == [true, true, true, false];
    assert Sweep(g, db, [true, true, false, false], 2, true) == (dc, t, true);
    assert [true, false, false, false][1 := true] == [true, true, false, false];
    assert Sweep(g, da, [true, false, false, false], 1, true) == (dc, t, true);
    assert f[0 := true] == [true, false, false, false];
  }

  /** dijkstra_parallel on ExampleGraph from vertex 0 returns [0, 2, 1, 5]:
      the second pass finds every vertex visited and lowers nothing. */
  lemma ExampleResult()
    ensures WellFormed(ExampleGraph())
    ensures WaveResult(ExampleGraph(), 0) == [Fin(0), Fin(2), Fin(1), Fin(5)]
  {
    var g := ExampleGraph();
    var dc := [Fin(0), Fin(2), Fin(1), Fin(5)];
    var t := [true, true, true, true];
    ExampleFirstPass();
    assert InitDist(4, 0) == [Fin(0), Inf, Inf, Inf];
    assert NoneVisited(4) == [false, false, false, false];
    assert Sweep(g, dc, t, 3, false) == (dc, t, false);
    assert Sweep(g, dc, t, 2, false) == (dc, t, false);
    assert Sweep(g, dc, t, 1, false) == (dc, t, false);
    assert Sweep(g, dc, t, 0, false) == (dc, t, false);
    assert Waves(g, dc, t, false) == dc;
    assert Waves(g, dc, t, true) == dc;
  }

  /** The walk 0 -> 2 -> 1 -> 3 of ExampleGraph has length 3. */
  lemma ExampleWalk()
    ensures WellFormed(ExampleGraph()) && Reachable(ExampleGraph(), 0, 3, 3)
  {
    var g := ExampleGraph();
    var w := [(0, 1), (2, 0), (1, 0)];
    assert IsWalk(g, 0, w, 3);
    assert WalkLen(g, w[..2]) == 2 by {
      assert w[..2][..1] == [(0, 1)];
      assert [(0, 1)][..0] == [];
    }
    assert WalkLen(g, w) == 3;
  }

  /** On ExampleGraph from vertex 0, vertex 1 is expanded at distance 4 before
      vertex 2 lowers it to 2, so vertex 3 keeps 5 although the walk
      0 -> 2 -> 1 -> 3 has length 3: the result is [0, 2, 1, 5], not the
      shortest distances [0, 2, 1, 3]. */
  lemma NotShortestExample()
    ensures WellFormed(ExampleGraph())
    ensures WaveResult(ExampleGraph(), 0) == [Fin(0), Fin(2), Fin(1), Fin(5)]
    ensures Reachable(ExampleGraph(), 0, 3, 3)
    ensures !IsShortest(ExampleGraph(), 0, 3, WaveResult(ExampleGraph(), 0)[3])
  {
    ExampleResult();
    ExampleWalk();
  }

  // ---- The engines ----

  /** The body of the pass loop for a vertex u that is unvisited with a finite
      distance: u is marked visited, then its edges are relaxed in list order,
      and every write raises the flag. */
  method Expand(g: Graph, d: array<Dist>, visited: array<bool>, u: int, changed: bool) returns (changedOut: bool)
    requires WellFormed(g) && d.Length == |g| && visited.Length == |g| && 0 <= u < |g|
    requires !visited[u] && d[u].Fin?
    modifies d, visited
    ensures visited[..] == old(visited[..])[u := true]
    ensures (d[..], changedOut) == RelaxFrom(g, old(d[..]), u, 0, changed)
  {
    visited[u] := true;
    changedOut := changed;
    var i := 0;
    while i < |g[u]|
      invariant 0 <= i <= |g[u]|
      invariant d[u] == old(d[u]) && visited[..] == old(visited[..])[u := true]
      invariant RelaxFrom(g, d[..], u, i, changedOut) == RelaxFrom(g, old(d[..]), u, 0, changed)
    {
      var v, weight := g[u][i].0, g[u][i].1;
      if Less(Fin(d[u].value + weight), d[v]) {
        d[v] := Fin(d[u].value + weight);
        changedOut := true;
      }
      i := i + 1;
    }
  }

  /** dijkstra_parallel as written, with one thread: its loops compute exactly
      WaveResult, which is sound but not always shortest. */
  method DijkstraParallel(start: int, g: Graph) returns (dist: seq<Dist>)
    requires WellFormed(g) && 0 <= start < |g|
    ensures dist == WaveResult(g, start)
    ensures |dist| == |g| && dist[start] == Fin(0) && Sound(g, start, dist)
    ensures forall v :: 0 <= v < |g| ==> (dist[v] == Inf <==> forall steps :: !IsWalk(g, start, steps, v))
  {
    var n := |g|;
    var d := new Dist[n](_ => Inf);
    var visited := new bool[n](_ => false);
    d[start] := Fin(0);
    assert d[..] == InitDist(n, start);
    assert visited[..] == NoneVisited(n);
    var workRemaining := true;
    while workRemaining
      invariant d.Length == n && visited.Length == n
      invariant Waves(g, d[..], visited[..], workRemaining) == WaveResult(g, start)
      decreases Unvisited(visited[..]), if workRemaining then 1 else 0
    {
      workRemaining := false;
      ghost var d0, v0 := d[..], visited[..];
      var u := 0;
      while u < n
        invariant 0 <= u <= n
        invariant Sweep(g, d[..], visited[..], u, workRemaining) == Sweep(g, d0, v0, 0, false)
      {
        if !visited[u] && d[u].Fin? {
          workRemaining := Expand(g, d, visited, u, workRemaining);
        }
        u := u + 1;
      }
      SweepVisits(g, d0, v0, 0, false);
    }
    dist := d[..];
    WaveResultSound(g, start);
    WaveResultReaches(g, start);
  }

  /** The pass invariant of the revisiting engine: the table is sound with 0
      at start, and every visited vertex with a finite distance has all its
      edges relaxed. */
  ghost predicate PassInv(g: Graph, start: int, d: seq<Dist>, visited: seq<bool>)
  {
    TableOk(g, start, d) && |visited| == |g| && VisitedRelaxed(g, d, visited)
  }

  /** Every visited vertex with a finite distance has all its edges relaxed. */
  ghost predicate VisitedRelaxed(g: Graph, d: seq<Dist>, visited: seq<bool>)
    requires WellFormed(g) && |d| == |g| && |visited| == |g|
  {
    forall x :: 0 <= x < |g| && visited[x] && d[x].Fin? ==> Relaxed(g, d, x)
  }

  /** The same for every visited vertex other than u. */
  ghost predicate VisitedRelaxedExcept(g: Graph, d: seq<Dist>, visited: seq<bool>, u: int)
    requires WellFormed(g) && |d| == |g| && |visited| == |g|
  {
    forall x :: 0 <= x < |g| && x != u && visited[x] && d[x].Fin? ==> Relaxed(g, d, x)
  }

  /** u is visited, has a finite distance and its first i edges relaxed. */
  ghost predicate Expanding(g: Graph, d: seq<Dist>, visited: seq<bool>, u: int, i: int)
    requires WellFormed(g) && |d| == |g| && |visited| == |g|
  {
    0 <= u < |g| && 0 <= i <= |g[u]| && d[u].Fin? && visited[u] && RelaxedUpTo(g, d, u, i)
  }

  /** The state inside the expansion of u, after its first i edges. */
  ghost predicate ExpandInv(g: Graph, start: int, d: seq<Dist>, visited: seq<bool>, u: int, i: int)
  {
    TableOk(g, start, d) && |visited| == |g| &&
    Expanding(g, d, visited, u, i) && VisitedRelaxedExcept(g, d, visited, u)
  }

  /** Marking u visited starts its expansion; relaxing all its edges ends it. */
  lemma ExpandBoundaries(g: Graph, start: int, d: seq<Dist>, visited: seq<bool>, u: int)
    requires PassInv(g, start, d, visited) && 0 <= u < |g| && d[u].Fin?
    ensures ExpandInv(g, start, d, visited[u := true], u, 0)
  {
  }

  lemma ExpandDone(g: Graph, start: int, d: seq<Dist>, visited: seq<bool>, u: int)
    requires 0 <= u < |g| && ExpandInv(g, start, d, visited, u, |g[u]|)
    ensures PassInv(g, start, d, visited)
  {
  }

  /** Lowering v and clearing its mark keeps every other visited vertex
      relaxed: v itself is no longer visited. */
  lemma LowerKeepsVisitedRelaxed(g: Graph, d: seq<Dist>, visited: seq<bool>, u: int, v: int, nd: nat)
    requires WellFormed(g) && |d| == |g| && |visited| == |g| && 0 <= v < |g|
    requires Le(Fin(nd), d[v]) && VisitedRelaxedExcept(g, d, visited, u)
    ensures VisitedRelaxedExcept(g, d[v := Fin(nd)], visited[v := false], u)
  {
    var d', visited' := d[v := Fin(nd)], visited[v := false];
    forall x | 0 <= x < |g| && x != u && visited'[x] && d'[x].Fin?
      ensures Relaxed(g, d', x)
    {
      LowerKeepsRelaxed(g, d, x, |g[x]|, v, nd);
    }
  }

  /** Relaxing edge i of u keeps the expansion state, whether or not it
      lowers the target (which then loses its visited mark). */
  lemma ExpandStep(g: Graph, start: int, d: seq<Dist>, visited: seq<bool>, u: int, i: int)
    requires ExpandInv(g, start, d, visited, u, i) && i < |g[u]|
    ensures var v, nd := g[u][i].0, d[u].value + g[u][i].1;
      if Less(Fin(nd), d[v]) then
        v != u && ExpandInv(g, start, d[v := Fin(nd)], visited[v := false], u, i + 1) &&
        Progress(d, d[v := Fin(nd)])
      else ExpandInv(g, start, d, visited, u, i + 1)
  {
    var v, nd := g[u][i].0, d[u].value + g[u][i].1;
    if Less(Fin(nd), d[v]) {
      ImprovingWrite(g, start, d, u, i);
      LowerKeepsVisitedRelaxed(g, d, visited, u, v, nd);
    } else {
      assert EdgeRelaxed(g, d, u, i);
    }
  }

  /** The visited marks after the corrected edge loop of u from edge i on:
      every target that is lowered loses its mark. The table and the flag
      are those of RelaxFrom. */
  function ClearedMarks(g: Graph, d: seq<Dist>, visited: seq<bool>, u: int, i: int): (r: seq<bool>)
    requires WellFormed(g) && |d| == |g| && |visited| == |g| && 0 <= u < |g| && 0 <= i <= |g[u]| && d[u].Fin?
    ensures |r| == |visited|
    decreases |g[u]| - i
  {
    if i == |g[u]| then visited
    else
      var v, nd := g[u][i].0, d[u].value + g[u][i].1;
      if Less(Fin(nd), d[v]) then ClearedMarks(g, d[v := Fin(nd)], visited[v := false], u, i + 1)
      else ClearedMarks(g, d, visited, u, i + 1)
  }

  /** A mark changes only by being cleared, and only at a vertex whose
      entry the same edge loop strictly lowered. */
  lemma {:induction false} ClearedMarksSpec(g: Graph, d: seq<Dist>, visited: seq<bool>, u: int, i: int, changed: bool)
    requires WellFormed(g) && |d| == |g| && |visited| == |g| && 0 <= u < |g| && 0 <= i <= |g[u]| && d[u].Fin?
    ensures var r, t := ClearedMarks(g, d, visited, u, i), RelaxFrom(g, d, u, i, changed).0;
      forall x :: 0 <= x < |visited| && r[x] != visited[x] ==> !r[x] && Less(t[x], d[x])
    decreases |g[u]| - i
  {
    if i < |g[u]| {
      var v, nd := g[u][i].0, d[u].value + g[u][i].1;
      if Less(Fin(nd), d[v]) {
        var d', visited' := d[v := Fin(nd)], visited[v := false];
        ClearedMarksSpec(g, d', visited', u, i + 1, true);
        RelaxFromSpec(g, 0, d', u, i + 1, true);
        var r, t := ClearedMarks(g, d', visited', u, i + 1), RelaxFrom(g, d', u, i + 1, true).0;
        assert Le(t[v], d'[v]);
        forall x | 0 <= x < |visited| && r[x] != visited[x] ensures !r[x] && Less(t[x], d[x]) {
          if x != v {
            assert r[x] != visited'[x];
          }
        }
      } else {
        ClearedMarksSpec(g, d, visited, u, i + 1, changed);
      }
    }
  }

  /** The corrected edge loop keeps the expansion state up to u's last edge,
      and a table it changed has made progress. */
  lemma {:induction false} RevisitInv(g: Graph, start: int, d: seq<Dist>, visited: seq<bool>, u: int, i: int, changed: bool)
    requires ExpandInv(g, start, d, visited, u, i)
    ensures var t, m := RelaxFrom(g, d, u, i, changed).0, ClearedMarks(g, d, visited, u, i);
      ExpandInv(g, start, t, m, u, |g[u]|) && (t != d ==> Progress(d, t))
    decreases |g[u]| - i
  {
    if i < |g[u]| {
      var v, nd := g[u][i].0, d[u].value + g[u][i].1;
      ExpandStep(g, start, d, visited, u, i);
      if Less(Fin(nd), d[v]) {
        var d', visited' := d[v := Fin(nd)], visited[v := false];
        RevisitInv(g, start, d', visited', u, i + 1, true);
        var t := RelaxFrom(g, d', u, i + 1, true).0;
        if t != d' {
          ProgressTrans(d, d', t);
        }
      } else {
        RevisitInv(g, start, d, visited, u, i + 1, changed);
      }
    }
  }

  /** One corrected expansion of an unvisited, finite u keeps the pass
      invariant and leaves u visited; the flag is raised exactly when the
      table changed, a changed table has made progress, and an unchanged one
      comes with only u's mark changed. */
  lemma RevisitExpansion(g: Graph, start: int, d: seq<Dist>, visited: seq<bool>, u: int, changed: bool)
    requires PassInv(g, start, d, visited) && 0 <= u < |g| && d[u].Fin?
    ensures var r, m := RelaxFrom(g, d, u, 0, changed), ClearedMarks(g, d, visited[u := true], u, 0);
      PassInv(g, start, r.0, m) && m[u] &&
      (r.1 <==> changed || r.0 != d) &&
      (r.0 != d ==> Progress(d, r.0)) &&
      (r.0 == d ==> m == visited[u := true])
  {
    var marks := visited[u := true];
    ExpandBoundaries(g, start, d, visited, u);
    RevisitInv(g, start, d, marks, u, 0, changed);
    RelaxFromSpec(g, start, d, u, 0, changed);
    ClearedMarksSpec(g, d, marks, u, 0, changed);
    var r, m := RelaxFrom(g, d, u, 0, changed), ClearedMarks(g, d, marks, u, 0);
    ExpandDone(g, start, r.0, m, u);
    if r.0 == d {
      forall x | 0 <= x < |m| ensures m[x] == marks[x] {
      }
    }
  }

  /** One pass of the corrected engine over vertices u..|g|-1: each
      unvisited vertex with a finite distance is marked visited and its edges
      are relaxed, clearing the mark of every lowered target. */
  function RevisitSweep(g: Graph, d: seq<Dist>, vis: seq<bool>, u: int, changed: bool): (r: (seq<Dist>, seq<bool>, bool))
    requires WellFormed(g) && |d| == |g| && |vis| == |g| && 0 <= u <= |g|
    ensures |r.0| == |g| && |r.1| == |g|
    decreases |g| - u
  {
    if u == |g| then (d, vis, changed)
    else if !vis[u] && d[u].Fin? then
      var rel := RelaxFrom(g, d, u, 0, changed);
      RevisitSweep(g, rel.0, ClearedMarks(g, d, vis[u := true], u, 0), u + 1, rel.1)
    else RevisitSweep(g, d, vis, u + 1, changed)
  }

  /** A corrected pass only lowers entries and raises the flag exactly when
      it lowered one. A mark it clears belongs to a vertex it strictly
      lowered, and a mark it sets belongs to a vertex with a finite entry. */
  lemma {:induction false} RevisitSweepSpec(g: Graph, d: seq<Dist>, vis: seq<bool>, u: int, changed: bool)
    requires WellFormed(g) && |d| == |g| && |vis| == |g| && 0 <= u <= |g|
    ensures var r := RevisitSweep(g, d, vis, u, changed);
      (forall x :: 0 <= x < |g| ==> Le(r.0[x], d[x])) &&
      (r.2 <==> changed || r.0 != d) &&
      (forall x :: 0 <= x < |g| && vis[x] && !r.1[x] ==> Less(r.0[x], d[x])) &&
      (forall x :: 0 <= x < |g| && !vis[x] && r.1[x] ==> r.0[x].Fin?)
    decreases |g| - u
  {
    if u < |g| {
      if !vis[u] && d[u].Fin? {
        var rel := RelaxFrom(g, d, u, 0, changed);
        var marks := vis[u := true];
        var m := ClearedMarks(g, d, marks, u, 0);
        RelaxFromSpec(g, 0, d, u, 0, changed);
        ClearedMarksSpec(g, d, marks, u, 0, changed);
        RevisitSweepSpec(g, rel.0, m, u + 1, rel.1);
        var r := RevisitSweep(g, rel.0, m, u + 1, rel.1);
        if r.0 == d {
          assert forall x :: 0 <= x < |d| ==> rel.0[x] == d[x];
          assert rel.0 == d;
        }
        forall x | 0 <= x < |g| && vis[x] && !r.1[x] ensures Less(r.0[x], d[x]) {
          if !m[x] {
            assert m[x] != marks[x];
          }
        }
      } else {
        RevisitSweepSpec(g, d, vis, u + 1, changed);
      }
    }
  }

  /** Where a corrected pass that started from table d0 stands before
      vertex u: with the flag down the table is still d0 and every finite
      vertex before u is visited, with it up the table has made progress
      since d0. */
  ghost predicate PassFrom(d0: seq<Dist>, d: seq<Dist>, vis: seq<bool>, u: int, changed: bool)
    requires |d| == |vis| && 0 <= u <= |d|
  {
    (!changed ==> d == d0 && forall x :: 0 <= x < u && d[x].Fin? ==> vis[x]) &&
    (changed ==> Progress(d0, d))
  }

  /** A corrected pass keeps the pass invariant and ends where PassFrom says. */
  lemma {:induction false} RevisitSweepInv(g: Graph, start: int, d0: seq<Dist>, d: seq<Dist>, vis: seq<bool>,
                                           u: int, changed: bool)
    requires PassInv(g, start, d, vis) && 0 <= u <= |g| && PassFrom(d0, d, vis, u, changed)
    ensures var r := RevisitSweep(g, d, vis, u, changed);
      PassInv(g, start, r.0, r.1) && PassFrom(d0, r.0, r.1, |g|, r.2)
    decreases |g| - u
  {
    if u < |g| {
      if !vis[u] && d[u].Fin? {
        var rel := RelaxFrom(g, d, u, 0, changed);
        var m := ClearedMarks(g, d, vis[u := true], u, 0);
        RevisitStep(g, start, d0, d, vis, u, changed);
        RevisitSweepInv(g, start, d0, rel.0, m, u + 1, rel.1);
        assert RevisitSweep(g, d, vis, u, changed) == RevisitSweep(g, rel.0, m, u + 1, rel.1);
      } else {
        assert PassFrom(d0, d, vis, u + 1, changed);
        RevisitSweepInv(g, start, d0, d, vis, u + 1, changed);
        assert RevisitSweep(g, d, vis, u, changed) == RevisitSweep(g, d, vis, u + 1, changed);
      }
    }
  }

  /** Expanding u moves the pass one vertex on: the pass invariant is kept
      and PassFrom holds before u + 1. */
  lemma RevisitStep(g: Graph, start: int, d0: seq<Dist>, d: seq<Dist>, vis: seq<bool>, u: int, changed: bool)
    requires PassInv(g, start, d, vis) && 0 <= u < |g| && PassFrom(d0, d, vis, u, changed)
    requires !vis[u] && d[u].Fin?
    ensures var rel, m := RelaxFrom(g, d, u, 0, changed), ClearedMarks(g, d, vis[u := true], u, 0);
      PassInv(g, start, rel.0, m) && PassFrom(d0, rel.0, m, u + 1, rel.1)
  {
    RevisitExpansion(g, start, d, vis, u, changed);
    var rel := RelaxFrom(g, d, u, 0, changed);
    if changed && rel.0 != d {
      ProgressTrans(d0, d, rel.0);
    }
  }

  /** Expanding u in the revisiting engine: u is marked visited and its edges
      are relaxed in list order; every lowered target loses its visited mark
      and raises the flag. The new table and flag are RelaxFrom of the old
      ones, and the new marks are ClearedMarks. */
  method ExpandRevisiting(g: Graph, d: array<Dist>, visited: array<bool>, u: int, changed: bool)
    returns (changedOut: bool)
    requires WellFormed(g) && d.Length == |g| && visited.Length == |g| && 0 <= u < |g| && d[u].Fin?
    modifies d, visited
    ensures (d[..], changedOut) == RelaxFrom(g, old(d[..]), u, 0, changed)
    ensures visited[..] == ClearedMarks(g, old(d[..]), old(visited[..])[u := true], u, 0)
  {
    visited[u] := true;
    changedOut := changed;
    var i := 0;
    while i < |g[u]|
      invariant 0 <= i <= |g[u]| && d[u] == old(d[u])
      invariant RelaxFrom(g, d[..], u, i, changedOut) == RelaxFrom(g, old(d[..]), u, 0, changed)
      invariant ClearedMarks(g, d[..], visited[..], u, i) ==
                ClearedMarks(g, old(d[..]), old(visited[..])[u := true], u, 0)
    {
      var v, weight := g[u][i].0, g[u][i].1;
      if Less(Fin(d[u].value + weight), d[v]) {
        ghost var before, visitedBefore := d[..], visited[..];
        var nd := d[u].value + weight;
        d[v] := Fin(nd);
        visited[v] := false;
        changedOut := true;
        assert d[..] == before[v := Fin(nd)];
        assert visited[..] == visitedBefore[v := false];
      }
      i := i + 1;
    }
  }

  /** One pass of the corrected engine over all vertices in id order: the
      new table, marks and flag are RevisitSweep of the old ones. It keeps
      the pass invariant; without a raised flag the table is unchanged and
      every finite vertex is visited, and with it the table has made
      progress. */
  method RevisitPass(g: Graph, start: int, d: array<Dist>, visited: array<bool>) returns (workRemaining: bool)
    requires WellFormed(g) && d.Length == |g| && visited.Length == |g| && PassInv(g, start, d[..], visited[..])
    modifies d, visited
    ensures (d[..], visited[..], workRemaining) == RevisitSweep(g, old(d[..]), old(visited[..]), 0, false)
    ensures PassInv(g, start, d[..], visited[..])
    ensures !workRemaining ==> d[..] == old(d[..]) && forall x :: 0 <= x < |g| && d[x].Fin? ==> visited[x]
    ensures workRemaining ==> Progress(old(d[..]), d[..])
  {
    RevisitSweepInv(g, start, d[..], d[..], visited[..], 0, false);
    workRemaining := false;
    var u := 0;
    while u < |g|
      invariant 0 <= u <= |g|
      invariant RevisitSweep(g, d[..], visited[..], u, workRemaining) ==
                RevisitSweep(g, old(d[..]), old(visited[..]), 0, false)
    {
      if !visited[u] && d[u].Fin? {
        workRemaining := ExpandRevisiting(g, d, visited, u, workRemaining);
      }
      u := u + 1;
    }
  }

  /** The evidently intended wave relaxation: identical, except that a vertex
      whose distance is lowered loses its visited mark and is expanded again
      in a later pass. Its result is the shortest-path distances. */
  method DijkstraParallelRevisiting(start: int, g: Graph) returns (dist: seq<Dist>)
    requires WellFormed(g) && 0 <= start < |g|
    ensures |dist| == |g| && dist[start] == Fin(0) && Sound(g, start, dist)
    ensures AllShortest(g, start, dist)
  {
    var n := |g|;
    var d := new Dist[n](_ => Inf);
    var visited := new bool[n](_ => false);
    d[start] := Fin(0);
    assert d[..] == InitDist(n, start);
    InitSound(g, start);
    var workRemaining := true;
    while workRemaining
      invariant d.Length == n && visited.Length == n
      invariant PassInv(g, start, d[..], visited[..])
      invariant !workRemaining ==> forall x :: 0 <= x < n && d[x].Fin? ==> visited[x]
      decreases InfCount(d[..]), FinSum(d[..]), if workRemaining then 1 else 0
    {
      workRemaining := RevisitPass(g, start, d, visited);
    }
    dist := d[..];
    FixpointIsShortest(g, start, dist);
  }
}
