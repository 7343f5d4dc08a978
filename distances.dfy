/** The distance table shared by the three engines: tentative distances with a
    distinct "unreachable" value, what it means for a table to be sound and to
    be a fixpoint of relaxation, and the output rendering. */
module Distances {
  import opened Graphs

  /** A tentative distance. Inf plays the role of the INF sentinel
      (LLONG_MAX / INT_MAX in the sources), distinct from every length. */
  datatype Dist = Fin(value: nat) | Inf

  /** The strict comparison the engines apply before writing: a < b. */
  predicate Less(a: Dist, b: Dist)
  {
    a.Fin? && (b.Inf? || a.value < b.value)
  }

  predicate Le(a: Dist, b: Dist)
  {
    b.Inf? || (a.Fin? && a.value <= b.value)
  }

  /** The starting table: 0 at src, unreachable everywhere else. */
  function InitDist(n: nat, src: int): (d: seq<Dist>)
    ensures |d| == n
    ensures forall v :: 0 <= v < n ==> (d[v] == Fin(0) <==> v == src)
    ensures forall v :: 0 <= v < n && v != src ==> d[v] == Inf
  {
    seq(n, v => if v == src then Fin(0) else Inf)
  }

  /** Every finite entry is the length of a real walk from src. */
  ghost predicate Sound(g: Graph, src: int, d: seq<Dist>)
  {
    forall v :: 0 <= v < |d| && d[v].Fin? ==> Reachable(g, src, v, d[v].value)
  }

  /** The table of a run from src: one entry per vertex, 0 at src, sound. */
  ghost predicate TableOk(g: Graph, src: int, d: seq<Dist>)
  {
    WellFormed(g) && |d| == |g| && 0 <= src < |g| && d[src] == Fin(0) && Sound(g, src, d)
  }

  /** Edge j of x cannot improve its target: d[target] <= d[x] + weight. */
  ghost predicate EdgeRelaxed(g: Graph, d: seq<Dist>, x: int, j: int)
    requires WellFormed(g) && |d| == |g| && 0 <= x < |g| && 0 <= j < |g[x]|
  {
    d[x].Fin? ==> Le(d[g[x][j].0], Fin(d[x].value + g[x][j].1))
  }

  /** The first k edges of x are relaxed. */
  ghost predicate RelaxedUpTo(g: Graph, d: seq<Dist>, x: int, k: int)
    requires WellFormed(g) && |d| == |g| && 0 <= x < |g| && k <= |g[x]|
  {
    forall j :: 0 <= j < k ==> EdgeRelaxed(g, d, x, j)
  }

  /** No out-edge of x can improve its target. */
  ghost predicate Relaxed(g: Graph, d: seq<Dist>, x: int)
    requires WellFormed(g) && |d| == |g| && 0 <= x < |g|
  {
    RelaxedUpTo(g, d, x, |g[x]|)
  }

  /** dv is the shortest-path distance from src to v: Inf exactly when no walk
      reaches v, otherwise the length of some walk and at most every walk's. */
  ghost predicate IsShortest(g: Graph, src: int, v: int, dv: Dist)
  {
    (dv.Fin? ==> Reachable(g, src, v, dv.value)) &&
    forall steps :: IsWalk(g, src, steps, v) ==> dv.Fin? && dv.value <= WalkLen(g, steps)
  }

  ghost predicate AllShortest(g: Graph, src: int, d: seq<Dist>)
  {
    |d| == |g| && forall v :: 0 <= v < |g| ==> IsShortest(g, src, v, d[v])
  }

  /** The starting table is sound. */
  lemma InitSound(g: Graph, src: int)
    requires 0 <= src < |g|
    ensures Sound(g, src, InitDist(|g|, src))
  {
    ReachableStart(g, src);
  }

  /** Writing a real walk length into a sound table keeps it sound. */
  lemma SoundUpdate(g: Graph, src: int, d: seq<Dist>, v: int, len: nat)
    requires Sound(g, src, d) && 0 <= v < |d| && Reachable(g, src, v, len)
    ensures Sound(g, src, d[v := Fin(len)])
  {
  }

  /** Lowering the entry of some vertex other than x keeps x's relaxed edges relaxed. */
  lemma LowerKeepsRelaxed(g: Graph, d: seq<Dist>, x: int, k: int, v: int, nd: nat)
    requires WellFormed(g) && |d| == |g| && 0 <= x < |g| && k <= |g[x]| && 0 <= v < |g|
    requires x != v && Le(Fin(nd), d[v]) && RelaxedUpTo(g, d, x, k)
    ensures RelaxedUpTo(g, d[v := Fin(nd)], x, k)
  {
    var d' := d[v := Fin(nd)];
    forall j | 0 <= j < k ensures EdgeRelaxed(g, d', x, j) {
      assert EdgeRelaxed(g, d, x, j);
    }
  }

  /** An improving write along edge j of u, after u's first j edges were
      relaxed: it lowers a vertex other than u and src, keeps the table sound
      with 0 at src, leaves u's first j + 1 edges relaxed, and makes progress. */
  lemma ImprovingWrite(g: Graph, src: int, d: seq<Dist>, u: int, j: int)
    requires TableOk(g, src, d) && 0 <= u < |g| && 0 <= j < |g[u]|
    requires d[u].Fin? && RelaxedUpTo(g, d, u, j)
    requires Less(Fin(d[u].value + g[u][j].1), d[g[u][j].0])
    ensures var v, nd := g[u][j].0, d[u].value + g[u][j].1;
      v != u && v != src && TableOk(g, src, d[v := Fin(nd)]) &&
      RelaxedUpTo(g, d[v := Fin(nd)], u, j + 1) && Progress(d, d[v := Fin(nd)])
  {
    var v, nd := g[u][j].0, d[u].value + g[u][j].1;
    ReachableExtend(g, src, u, d[u].value, j);
    SoundUpdate(g, src, d, v, nd);
    LowerProgress(d, v, nd);
    LowerKeepsRelaxed(g, d, u, j, v, nd);
    assert EdgeRelaxed(g, d[v := Fin(nd)], u, j);
  }

  /** A table that holds 0 at src and whose finite entries are all relaxed
      bounds every walk from src: its entry at the walk's end is finite and at
      most the walk's length. */
  lemma {:induction false} FixpointBound(g: Graph, src: int, d: seq<Dist>, steps: seq<Step>, v: int)
    requires WellFormed(g) && |d| == |g| && 0 <= src < |g| && d[src] == Fin(0)
    requires forall x :: 0 <= x < |g| && d[x].Fin? ==> Relaxed(g, d, x)
    requires IsWalk(g, src, steps, v)
    ensures d[v].Fin? && d[v].value <= WalkLen(g, steps)
    decreases |steps|
  {
    if steps != [] {
      var k := |steps| - 1;
      var u, j := steps[k].0, steps[k].1;
      WalkPrefix(g, src, steps, v);
      FixpointBound(g, src, d, steps[..k], u);
      assert EdgeRelaxed(g, d, u, j);
    }
  }

  /** A sound table with 0 at src in which every finite entry is relaxed holds
      exactly the shortest-path distances. */
  lemma FixpointIsShortest(g: Graph, src: int, d: seq<Dist>)
    requires WellFormed(g) && |d| == |g| && 0 <= src < |g| && d[src] == Fin(0)
    requires Sound(g, src, d)
    requires forall x :: 0 <= x < |g| && d[x].Fin? ==> Relaxed(g, d, x)
    ensures AllShortest(g, src, d)
  {
    forall v, steps | 0 <= v < |g| && IsWalk(g, src, steps, v)
      ensures d[v].Fin? && d[v].value <= WalkLen(g, steps)
    {
      FixpointBound(g, src, d, steps, v);
    }
  }

  /** The bounded version used by the bucket engine: only entries up to bound
      are known to be relaxed, but with weights at most m every walk of at most
      bound / m steps is still bounded by the table. */
  lemma {:induction false} BoundedFixpointBound(g: Graph, src: int, d: seq<Dist>, m: nat, bound: int,
                                               steps: seq<Step>, v: int)
    requires WellFormed(g) && WeightsAtMost(g, m) && |d| == |g| && 0 <= src < |g| && d[src] == Fin(0)
    requires forall x :: 0 <= x < |g| && d[x].Fin? && d[x].value <= bound ==> Relaxed(g, d, x)
    requires IsWalk(g, src, steps, v) && |steps| * m <= bound
    ensures d[v].Fin? && d[v].value <= WalkLen(g, steps)
    decreases |steps|
  {
    if steps != [] {
      var k := |steps| - 1;
      var u, j := steps[k].0, steps[k].1;
      var p := steps[..k];
      WalkPrefix(g, src, steps, v);
      assert |p| * m <= |steps| * m by {
        assert |steps| * m == |p| * m + m;
      }
      BoundedFixpointBound(g, src, d, m, bound, p, u);
      WalkLenAtMost(g, p, m);
      assert EdgeRelaxed(g, d, u, j);
    }
  }

  /** With weights at most m and every finite entry up to m * |g| relaxed, a
      sound table with 0 at src holds exactly the shortest-path distances. */
  lemma BoundedFixpointIsShortest(g: Graph, src: int, d: seq<Dist>, m: nat)
    requires WellFormed(g) && WeightsAtMost(g, m) && |d| == |g| && 0 <= src < |g| && d[src] == Fin(0)
    requires Sound(g, src, d)
    requires forall x :: 0 <= x < |g| && d[x].Fin? && d[x].value <= m * |g| ==> Relaxed(g, d, x)
    ensures AllShortest(g, src, d)
  {
    forall v, steps | 0 <= v < |g| && IsWalk(g, src, steps, v)
      ensures d[v].Fin? && d[v].value <= WalkLen(g, steps)
    {
      ShortenWalk(g, src, steps, v);
      var s :| IsWalk(g, src, s, v) && |s| < |g| && WalkLen(g, s) <= WalkLen(g, steps);
      assert |s| * m <= m * |g| by {
        assert |s| <= |g|;
        MulMono(|s|, |g|, m);
      }
      BoundedFixpointBound(g, src, d, m, m * |g|, s, v);
    }
  }

  /** Multiplication by a natural number is monotone. */
  lemma MulMono(a: nat, b: nat, m: nat)
    requires a <= b
    ensures a * m <= b * m
  {
    assert b * m == a * m + (b - a) * m;
  }

  /** Shortest-path distances are unique: two tables that both hold them agree,
      so engines that all compute them produce identical output. */
  lemma ShortestUnique(g: Graph, src: int, v: int, a: Dist, b: Dist)
    requires IsShortest(g, src, v, a) && IsShortest(g, src, v, b)
    ensures a == b
  {
    if a.Fin? {
      var s :| IsWalk(g, src, s, v) && WalkLen(g, s) == a.value;
      assert b.Fin? && b.value <= a.value;
    }
    if b.Fin? {
      var t :| IsWalk(g, src, t, v) && WalkLen(g, t) == b.value;
      assert a.Fin? && a.value <= b.value;
    }
  }

  /** The output sentinel: a shortest distance is Inf exactly when no walk
      from src reaches v. */
  lemma ShortestSentinel(g: Graph, src: int, v: int, dv: Dist)
    requires IsShortest(g, src, v, dv)
    ensures dv == Inf <==> forall steps :: !IsWalk(g, src, steps, v)
  {
    if dv.Fin? {
      var s :| IsWalk(g, src, s, v) && WalkLen(g, s) == dv.value;
    }
  }

  // ---- Progress measure: every strict lowering of an entry makes progress ----

  /** Number of unreachable entries. */
  function InfCount(d: seq<Dist>): (count: nat)
  {
    if d == [] then 0 else InfCount(d[..|d| - 1]) + (if d[|d| - 1].Inf? then 1 else 0)
  }

  /** Sum of the finite entries. */
  function FinSum(d: seq<Dist>): (sum: nat)
  {
    if d == [] then 0 else FinSum(d[..|d| - 1]) + (if d[|d| - 1].Fin? then d[|d| - 1].value else 0)
  }

  /** e is strictly below d in the lexicographic order on (InfCount, FinSum).
      This is well-founded, so a loop whose every improving step makes
      progress improves only finitely often. */
  ghost predicate Progress(d: seq<Dist>, e: seq<Dist>)
  {
    InfCount(e) < InfCount(d) || (InfCount(e) == InfCount(d) && FinSum(e) < FinSum(d))
  }

  /** Strictly lowering one entry makes progress. */
  lemma {:induction false} LowerProgress(d: seq<Dist>, v: int, nd: nat)
    requires 0 <= v < |d| && Less(Fin(nd), d[v])
    ensures Progress(d, d[v := Fin(nd)])
    ensures InfCount(d[v := Fin(nd)]) + (if d[v].Inf? then 1 else 0) == InfCount(d)
    ensures d[v].Fin? ==> FinSum(d[v := Fin(nd)]) + d[v].value == FinSum(d) + nd
    decreases |d|
  {
    var e := d[v := Fin(nd)];
    var k := |d| - 1;
    if v < k {
      assert e[..k] == d[..k][v := Fin(nd)];
      LowerProgress(d[..k], v, nd);
    } else {
      assert e[..k] == d[..k];
    }
  }

  lemma ProgressTrans(a: seq<Dist>, b: seq<Dist>, c: seq<Dist>)
    requires Progress(a, b) && Progress(b, c)
    ensures Progress(a, c)
  {
  }

  /** The distances dropped (lexicographically in (InfCount, FinSum)), or
      neither they nor the engine's work list w changed. */
  ghost predicate Advanced<W>(d0: seq<Dist>, w0: W, d: seq<Dist>, w: W)
  {
    Progress(d0, d) || (d == d0 && w == w0)
  }

  lemma AdvancedTrans<W>(d0: seq<Dist>, w0: W, d1: seq<Dist>, w1: W, d2: seq<Dist>, w2: W)
    requires Advanced(d0, w0, d1, w1) && Advanced(d1, w1, d2, w2)
    ensures Advanced(d0, w0, d2, w2)
  {
    if Progress(d0, d1) && Progress(d1, d2) {
      ProgressTrans(d0, d1, d2);
    }
  }

  // ---- Rendering: what the result writers emit for each vertex ----

  /** One output value per vertex, in id order: -1 for unreachable, the
      distance otherwise. */
  function Render(d: seq<Dist>): (r: seq<int>)
  {
    seq(|d|, i requires 0 <= i < |d| => if d[i].Inf? then -1 else d[i].value)
  }

  /** Reading an output value back. */
  function Parse(r: seq<int>): (d: seq<Dist>)
  {
    seq(|r|, i requires 0 <= i < |r| => if r[i] < 0 then Inf else Fin(r[i]))
  }

  /** Rendering loses nothing: -1 never collides with a distance. */
  lemma RenderRoundTrip(d: seq<Dist>)
    ensures |Render(d)| == |d|
    ensures Parse(Render(d)) == d
  {
  }

  /** A rendered entry is -1 exactly for unreachable vertices, and is the
      distance itself otherwise. */
  lemma RenderSentinel(d: seq<Dist>, i: int)
    requires 0 <= i < |d|
    ensures Render(d)[i] == -1 <==> d[i] == Inf
    ensures d[i].Fin? ==> Render(d)[i] == d[i].value
  {
  }
}
