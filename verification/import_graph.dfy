/**
 * The import relation every analysis works on: a map from a file to the
 * files it imports, in source order, and reachability along imports.
 */
module ImportGraph {

  type File = string

  /** `Imports` in the source: file name to its direct imports. */
  type Graph = map<File, seq<File>>

  /** The look-up `m[k]` of a JavaScript object, reading an absent key as an empty list. */
  function Get(m: map<File, seq<File>>, k: File): seq<File> {
    if k in m then m[k] else []
  }

  /**
   * Every import of a file of the graph is itself a file of the graph. The
   * graph stands for the import lists of the finitely many files on disk, so
   * each resolved import has a list of its own.
   */
  ghost predicate Closed(g: Graph) {
    forall f, i :: f in g && 0 <= i < |g[f]| ==> g[f][i] in g
  }

  ghost predicate Edge(g: Graph, x: File, y: File) {
    x in g && y in g[x]
  }

  /** The `i`-th step of `p` follows an import. */
  ghost predicate Step(g: Graph, p: seq<File>, i: int)
    requires 0 <= i < |p| - 1
  {
    Edge(g, p[i], p[i + 1])
  }

  ghost predicate IsPath(g: Graph, p: seq<File>) {
    |p| > 0 && forall i :: 0 <= i < |p| - 1 ==> Step(g, p, i)
  }

  /** `y` can be reached from `x` by following zero or more imports. */
  ghost predicate Reaches(g: Graph, x: File, y: File) {
    exists p {:trigger IsPath(g, p)} :: IsPath(g, p) && p[0] == x && p[|p| - 1] == y
  }

  ghost predicate MutuallyReach(g: Graph, x: File, y: File) {
    Reaches(g, x, y) && Reaches(g, y, x)
  }

  /** `f` is reachable from one of `roots`. */
  ghost predicate ReachableFrom(g: Graph, roots: seq<File>, f: File) {
    exists i :: 0 <= i < |roots| && Reaches(g, roots[i], f)
  }

  lemma ReachesRefl(g: Graph, x: File)
    ensures Reaches(g, x, x)
  {
    assert IsPath(g, [x]);
  }

  lemma ReachesEdge(g: Graph, x: File, y: File)
    requires Edge(g, x, y)
    ensures Reaches(g, x, y)
  {
    assert Step(g, [x, y], 0);
    assert IsPath(g, [x, y]);
  }

  lemma ReachesTrans(g: Graph, x: File, y: File, z: File)
    requires Reaches(g, x, y) && Reaches(g, y, z)
    ensures Reaches(g, x, z)
  {
    var p :| IsPath(g, p) && p[0] == x && p[|p| - 1] == y;
    var q :| IsPath(g, q) && q[0] == y && q[|q| - 1] == z;
    var r := p + q[1..];
    forall i | 0 <= i < |r| - 1 ensures Step(g, r, i) {
      if i < |p| - 1 {
        assert Step(g, p, i);
        assert r[i] == p[i] && r[i + 1] == p[i + 1];
      } else {
        assert Step(g, q, i - |p| + 1);
        assert r[i] == q[i - |p| + 1] && r[i + 1] == q[i - |p| + 2];
      }
    }
    assert IsPath(g, r);
  }

  lemma EdgeThenReaches(g: Graph, x: File, y: File, z: File)
    requires Edge(g, x, y) && Reaches(g, y, z)
    ensures Reaches(g, x, z)
  {
    ReachesEdge(g, x, y);
    ReachesTrans(g, x, y, z);
  }

  lemma MutuallyReachTrans(g: Graph, x: File, y: File, z: File)
    requires MutuallyReach(g, x, y) && MutuallyReach(g, y, z)
    ensures MutuallyReach(g, x, z)
  {
    ReachesTrans(g, x, y, z);
    ReachesTrans(g, z, y, x);
  }

  /** A walk between two different files ends with an import into its last file. */
  lemma LastStep(g: Graph, a: File, b: File) returns (x: File)
    requires Reaches(g, a, b) && a != b
    ensures Reaches(g, a, x) && Edge(g, x, b)
  {
    var p :| IsPath(g, p) && p[0] == a && p[|p| - 1] == b;
    var n := |p|;
    assert Step(g, p, n - 2);
    x := p[n - 2];
    var front := p[..n - 1];
    forall k | 0 <= k < |front| - 1 ensures Step(g, front, k) {
      assert Step(g, p, k);
    }
    assert IsPath(g, front) && front[0] == a && front[|front| - 1] == x;
  }

  /** A set that every import of its members stays in holds everything its members reach. */
  lemma {:induction false} ForwardClosedReach(g: Graph, v: set<File>, x: File, y: File)
    requires forall a, b :: a in v && Edge(g, a, b) ==> b in v
    requires x in v && Reaches(g, x, y)
    ensures y in v
  {
    var p :| IsPath(g, p) && p[0] == x && p[|p| - 1] == y;
    var i := 0;
    while i < |p| - 1
      invariant 0 <= i <= |p| - 1 && p[i] in v
    {
      assert Step(g, p, i);
      i := i + 1;
    }
  }

  /**
   * A set `a` inside a forward-closed set `v` that contains every importer in
   * `v` of its members holds every member of `v` that reaches one of its members.
   */
  lemma {:induction false} BackwardClosedReach(g: Graph, v: set<File>, a: set<File>, x: File, z: File)
    requires forall s, t :: s in v && Edge(g, s, t) ==> t in v
    requires forall s, t :: t in a && s in v && Edge(g, s, t) ==> s in a
    requires x in v && z in a && Reaches(g, x, z)
    ensures x in a
  {
    var p :| IsPath(g, p) && p[0] == x && p[|p| - 1] == z;
    var i := 0;
    while i < |p| - 1
      invariant 0 <= i <= |p| - 1
      invariant forall k :: 0 <= k <= i ==> p[k] in v
    {
      assert Step(g, p, i);
      i := i + 1;
    }
    var j := |p| - 1;
    while j > 0
      invariant 0 <= j <= |p| - 1 && p[j] in a
      invariant forall k :: 0 <= k < |p| ==> p[k] in v
    {
      assert Step(g, p, j - 1);
      j := j - 1;
    }
  }

  /**
   * A walk that starts in `b` and ends outside it, where every import of a
   * member of `b` lands in `b` or in `s`, passes through `s`.
   */
  lemma {:induction false} LeavesThrough(g: Graph, b: set<File>, s: set<File>, x: File, y: File)
    returns (z: File)
    requires forall u, w :: u in b && Edge(g, u, w) ==> w in b || w in s
    requires x in b && y !in b && Reaches(g, x, y)
    ensures z in s && Reaches(g, x, z) && Reaches(g, z, y)
  {
    var p :| IsPath(g, p) && p[0] == x && p[|p| - 1] == y;
    var i := 0;
    while p[i + 1] in b
      invariant 0 <= i < |p| - 1 && p[i] in b
      invariant forall k :: 0 <= k <= i ==> p[k] in b
      decreases |p| - i
    {
      i := i + 1;
    }
    assert Step(g, p, i);
    z := p[i + 1];
    var front, back := p[..i + 2], p[i + 1..];
    forall k | 0 <= k < |front| - 1 ensures Step(g, front, k) {
      assert Step(g, p, k);
    }
    forall k | 0 <= k < |back| - 1 ensures Step(g, back, k) {
      assert Step(g, p, k + i + 1);
    }
    assert IsPath(g, front) && front[0] == x && front[|front| - 1] == z;
    assert IsPath(g, back) && back[0] == z && back[|back| - 1] == y;
  }
}
