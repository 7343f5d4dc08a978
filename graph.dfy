/** Adjacency-list graphs shared by the three shortest-path engines, and walks
    through them: the vocabulary in which "d is the length of a path from src
    to v" is stated. */
module Graphs {

  /** An outgoing edge: (target vertex, weight). */
  type Edge = (int, int)

  /** g[u] is the ordered sequence of u's outgoing edges; vertices are 0..|g|-1. */
  type Graph = seq<seq<Edge>>

  /** Every edge target is a vertex and every weight is non-negative. The
      loaders never check this; the engines rely on it. */
  predicate WellFormed(g: Graph)
  {
    forall u, j :: 0 <= u < |g| && 0 <= j < |g[u]| ==> 0 <= g[u][j].0 < |g| && g[u][j].1 >= 0
  }

  /** Every edge weight is at most m (the generator draws weights from 1..m). */
  predicate WeightsAtMost(g: Graph, m: int)
  {
    forall u, j :: 0 <= u < |g| && 0 <= j < |g[u]| ==> g[u][j].1 <= m
  }

  /** One step of a walk names an edge by its source vertex and its position
      in that vertex's adjacency list, so parallel edges stay distinguishable. */
  type Step = (int, int)

  predicate ValidStep(g: Graph, s: Step)
  {
    0 <= s.0 < |g| && 0 <= s.1 < |g[s.0]|
  }

  function Target(g: Graph, s: Step): (v: int)
    requires ValidStep(g, s)
  {
    g[s.0][s.1].0
  }

  function Weight(g: Graph, s: Step): (w: int)
    requires ValidStep(g, s)
  {
    g[s.0][s.1].1
  }

  predicate ValidSteps(g: Graph, steps: seq<Step>)
  {
    forall i :: 0 <= i < |steps| ==> ValidStep(g, steps[i])
  }

  /** steps is a walk in g that starts at src and ends at v. */
  ghost predicate IsWalk(g: Graph, src: int, steps: seq<Step>, v: int)
  {
    ValidSteps(g, steps) &&
    if steps == [] then v == src
    else
      steps[0].0 == src && Target(g, steps[|steps| - 1]) == v &&
      forall i :: 0 < i < |steps| ==> steps[i].0 == Target(g, steps[i - 1])
  }

  /** Total weight of a walk. */
  function WalkLen(g: Graph, steps: seq<Step>): (len: int)
    requires ValidSteps(g, steps)
  {
    if steps == [] then 0 else WalkLen(g, steps[..|steps| - 1]) + Weight(g, steps[|steps| - 1])
  }

  /** Some walk from src to v has total weight len. */
  ghost predicate Reachable(g: Graph, src: int, v: int, len: int)
  {
    exists steps :: IsWalk(g, src, steps, v) && WalkLen(g, steps) == len
  }

  /** Following edge j of u prolongs a walk that ends at u by that edge's weight. */
  lemma ExtendWalk(g: Graph, src: int, steps: seq<Step>, u: int, j: int)
    requires IsWalk(g, src, steps, u) && 0 <= u < |g| && 0 <= j < |g[u]|
    ensures IsWalk(g, src, steps + [(u, j)], g[u][j].0)
    ensures WalkLen(g, steps + [(u, j)]) == WalkLen(g, steps) + g[u][j].1
  {
    var ext := steps + [(u, j)];
    assert ext[..|ext| - 1] == steps;
  }

  /** The source is reachable at length 0, and reachability is closed under
      following an edge. */
  lemma ReachableStart(g: Graph, src: int)
    ensures Reachable(g, src, src, 0)
  {
    assert IsWalk(g, src, [], src) && WalkLen(g, []) == 0;
  }

  lemma ReachableExtend(g: Graph, src: int, u: int, len: int, j: int)
    requires Reachable(g, src, u, len) && 0 <= u < |g| && 0 <= j < |g[u]|
    ensures Reachable(g, src, g[u][j].0, len + g[u][j].1)
  {
    var steps :| IsWalk(g, src, steps, u) && WalkLen(g, steps) == len;
    ExtendWalk(g, src, steps, u, j);
  }

  /** Dropping the last step of a non-empty walk leaves a walk to that step's source. */
  lemma WalkPrefix(g: Graph, src: int, steps: seq<Step>, v: int)
    requires IsWalk(g, src, steps, v) && steps != []
    ensures IsWalk(g, src, steps[..|steps| - 1], steps[|steps| - 1].0)
  {
    var k := |steps| - 1;
    var p := steps[..k];
    if k > 0 {
      assert p[k - 1] == steps[k - 1];
      assert steps[k].0 == Target(g, steps[k - 1]);
    }
  }

  lemma {:induction false} WalkLenAppend(g: Graph, a: seq<Step>, b: seq<Step>)
    requires ValidSteps(g, a) && ValidSteps(g, b)
    ensures ValidSteps(g, a + b)
    ensures WalkLen(g, a + b) == WalkLen(g, a) + WalkLen(g, b)
    decreases |b|
  {
    if b == [] {
      assert a + b == a;
    } else {
      var b' := b[..|b| - 1];
      assert (a + b)[..|a + b| - 1] == a + b';
      WalkLenAppend(g, a, b');
    }
  }

  /** With non-negative weights no walk has negative length. */
  lemma {:induction false} WalkLenNonNegative(g: Graph, steps: seq<Step>)
    requires WellFormed(g) && ValidSteps(g, steps)
    ensures WalkLen(g, steps) >= 0
    decreases |steps|
  {
    if steps != [] {
      WalkLenNonNegative(g, steps[..|steps| - 1]);
    }
  }

  /** With weights at most m a walk of k steps has length at most k * m. */
  lemma {:induction false} WalkLenAtMost(g: Graph, steps: seq<Step>, m: int)
    requires WeightsAtMost(g, m) && ValidSteps(g, steps)
    ensures WalkLen(g, steps) <= |steps| * m
    decreases |steps|
  {
    if steps != [] {
      var k := |steps| - 1;
      WalkLenAtMost(g, steps[..k], m);
      assert |steps| * m == k * m + m;
    }
  }

  /** A sequence longer than n with every element in 0..n-1 repeats an element. */
  lemma {:induction false} Pigeonhole(s: seq<int>, n: nat)
    requires |s| > n
    requires forall k :: 0 <= k < |s| ==> 0 <= s[k] < n
    ensures exists i, j :: 0 <= i < j < |s| && s[i] == s[j]
    decreases n
  {
    var last := |s| - 1;
    var x := s[last];
    if exists i :: 0 <= i < last && s[i] == x {
      var i :| 0 <= i < last && s[i] == x;
      assert s[i] == s[last];
    } else {
      // Squeeze the values other than x into 0..n-2; equal squeezed values
      // come from equal originals.
      var p := seq(last, k requires 0 <= k < last => if s[k] > x then s[k] - 1 else s[k]);
      assert forall k :: 0 <= k < last ==> s[k] != x;
      Pigeonhole(p, n - 1);
      var i, j :| 0 <= i < j < |p| && p[i] == p[j];
      assert s[i] == s[j];
    }
  }

  /** Vertex at position i of a walk (0 <= i <= |steps|) ending at v. */
  function At(steps: seq<Step>, v: int, i: int): (x: int)
    requires 0 <= i <= |steps|
  {
    if i < |steps| then steps[i].0 else v
  }

  /** Cutting a stretch out of a sequence of valid steps leaves valid steps. */
  lemma SpliceValid(g: Graph, steps: seq<Step>, i: int, j: int)
    requires ValidSteps(g, steps) && 0 <= i <= j <= |steps|
    ensures ValidSteps(g, steps[..i] + steps[j..])
  {
    var s := steps[..i] + steps[j..];
    forall k | 0 <= k < |s| ensures ValidStep(g, s[k]) {
      if k < i { assert s[k] == steps[k]; } else { assert s[k] == steps[k - i + j]; }
    }
  }

  /** Cutting out the closed sub-walk between two visits of one vertex leaves
      a walk between the same ends. */
  lemma SpliceIsWalk(g: Graph, src: int, steps: seq<Step>, v: int, i: int, j: int)
    requires WellFormed(g) && IsWalk(g, src, steps, v)
    requires 0 <= i < j <= |steps| && At(steps, v, i) == At(steps, v, j)
    ensures IsWalk(g, src, steps[..i] + steps[j..], v)
  {
    var s := steps[..i] + steps[j..];
    SpliceValid(g, steps, i, j);
    if s == [] {
      assert i == 0 && j == |steps|;
    } else {
      // The first step starts at src.
      if i == 0 {
        assert s[0] == steps[j];
      } else {
        assert s[0] == steps[0];
      }
      // The last step ends at v.
      if j < |steps| {
        assert s[|s| - 1] == steps[|steps| - 1];
      } else {
        assert s == steps[..i] && s[|s| - 1] == steps[i - 1];
        assert steps[i].0 == Target(g, steps[i - 1]);
      }
      // Consecutive steps are linked.
      forall k | 0 < k < |s| ensures s[k].0 == Target(g, s[k - 1]) {
        if k < i {
          assert s[k] == steps[k] && s[k - 1] == steps[k - 1];
        } else if k == i {
          assert s[k] == steps[j] && s[k - 1] == steps[i - 1];
          assert steps[i].0 == Target(g, steps[i - 1]);
        } else {
          assert s[k] == steps[k - i + j] && s[k - 1] == steps[k - 1 - i + j];
        }
      }
    }
  }

  /** Any stretch of valid steps is valid. */
  lemma SliceValid(g: Graph, steps: seq<Step>, i: int, j: int)
    requires ValidSteps(g, steps) && 0 <= i <= j <= |steps|
    ensures ValidSteps(g, steps[i..j])
  {
    forall k | 0 <= k < j - i ensures ValidStep(g, steps[i..j][k]) {
      assert steps[i..j][k] == steps[i + k];
    }
  }

  /** With non-negative weights, dropping the middle part m of a + m + b
      does not make the walk longer. */
  lemma DropMiddle(g: Graph, a: seq<Step>, m: seq<Step>, b: seq<Step>)
    requires WellFormed(g) && ValidSteps(g, a) && ValidSteps(g, m) && ValidSteps(g, b)
    ensures ValidSteps(g, a + b) && ValidSteps(g, a + m + b)
    ensures WalkLen(g, a + b) <= WalkLen(g, a + m + b)
  {
    WalkLenAppend(g, a, m);
    WalkLenAppend(g, a + m, b);
    WalkLenAppend(g, a, b);
    WalkLenNonNegative(g, m);
  }

  /** With non-negative weights, cutting a stretch out of a sequence of
      valid steps does not make it longer. */
  lemma SpliceLen(g: Graph, steps: seq<Step>, i: int, j: int)
    requires WellFormed(g) && ValidSteps(g, steps) && 0 <= i <= j <= |steps|
    ensures ValidSteps(g, steps[..i] + steps[j..])
    ensures WalkLen(g, steps[..i] + steps[j..]) <= WalkLen(g, steps)
  {
    var a, m, b := steps[..i], steps[i..j], steps[j..];
    SliceValid(g, steps, 0, i);
    SliceValid(g, steps, i, j);
    SliceValid(g, steps, j, |steps|);
    assert a == steps[0..i] && b == steps[j..|steps|];
    assert a + m + b == steps;
    DropMiddle(g, a, m, b);
  }

  /** Cutting out the closed sub-walk between two visits of one vertex leaves
      a walk between the same ends that is no longer. */
  lemma SpliceWalk(g: Graph, src: int, steps: seq<Step>, v: int, i: int, j: int)
    requires WellFormed(g) && IsWalk(g, src, steps, v)
    requires 0 <= i < j <= |steps| && At(steps, v, i) == At(steps, v, j)
    ensures IsWalk(g, src, steps[..i] + steps[j..], v)
    ensures WalkLen(g, steps[..i] + steps[j..]) <= WalkLen(g, steps)
  {
    SpliceIsWalk(g, src, steps, v, i, j);
    SpliceLen(g, steps, i, j);
  }

  /** Every walk can be replaced by one with fewer than |g| steps between the
      same ends that is no longer: shortest walks need at most |g| - 1 edges. */
  lemma {:induction false} ShortenWalk(g: Graph, src: int, steps: seq<Step>, v: int)
    requires WellFormed(g) && IsWalk(g, src, steps, v) && 0 <= src < |g|
    ensures exists s :: IsWalk(g, src, s, v) && |s| < |g| && WalkLen(g, s) <= WalkLen(g, steps)
    decreases |steps|
  {
    if |steps| >= |g| {
      var pos := seq(|steps| + 1, k requires 0 <= k <= |steps| => At(steps, v, k));
      forall k | 0 <= k < |pos| ensures 0 <= pos[k] < |g| {
        if k == |steps| && steps != [] {
          assert ValidStep(g, steps[|steps| - 1]);
        }
      }
      Pigeonhole(pos, |g|);
      var i, j :| 0 <= i < j < |pos| && pos[i] == pos[j];
      SpliceWalk(g, src, steps, v, i, j);
      ShortenWalk(g, src, steps[..i] + steps[j..], v);
    }
  }
}
