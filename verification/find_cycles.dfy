/**
 * `findCycles`: Kosaraju's algorithm over the import graph. A post-order
 * depth-first traversal records the files in the order they finish and builds
 * the reverse graph (`importers`); a second traversal, over the reverse graph
 * and in reverse finishing order, groups the files into strongly connected
 * components, each named after the first file assigned to it (its root).
 *
 * The closures `visit` and `assign` become the methods `Visit` and `Assign`:
 * the dictionaries they capture and update are passed in and returned
 * updated. `g[f]` stands for what `getImportsForFile` returns for `f`.
 */
module FindCycles {
  import opened Seqs
  import opened ImportGraph

  /** Consecutive files of the depth-first stack are linked by an import. */
  ghost predicate StackChain(g: Graph, stack: seq<File>) {
    forall i :: 0 < i < |stack| ==> Edge(g, stack[i - 1], stack[i])
  }

  /** How many imports of `t` the loop of the visited file `s` has already passed. */
  ghost function Covered(g: Graph, progress: map<File, nat>, s: File, t: File): nat {
    if s in progress && s in g && progress[s] <= |g[s]| then multiset(g[s][..progress[s]])[t] else 0
  }

  /**
   * `importers[t]` lists the visited files whose loops have gone past an
   * import of `t`, each once for every such import passed.
   */
  ghost predicate ImportersMatch(g: Graph, importers: map<File, seq<File>>, progress: map<File, nat>) {
    forall t, s :: multiset(Get(importers, t))[s] == Covered(g, progress, s, t)
  }

  /**
   * The heart of Kosaraju's first phase. When a finished file `x` reaches `y`
   * but `y` does not reach back, then either `x` is in the component of a file
   * still on the stack, or `y` finished before some file of `x`'s component.
   */
  ghost predicate FinishOrder(g: Graph, finished: seq<File>, stack: seq<File>) {
    forall x, y {:trigger Settled(g, finished, stack, x, y)} ::
      x in finished && Reaches(g, x, y) && !Reaches(g, y, x) ==> Settled(g, finished, stack, x, y)
  }

  ghost predicate Settled(g: Graph, finished: seq<File>, stack: seq<File>, x: File, y: File) {
    || (exists z :: z in stack && MutuallyReach(g, z, x))
    || (exists j, k :: 0 <= j < k < |finished| && finished[j] == y && MutuallyReach(g, x, finished[k]))
  }

  lemma {:induction false} StackReachesTop(g: Graph, stack: seq<File>, i: nat)
    requires StackChain(g, stack) && i < |stack|
    ensures Reaches(g, stack[i], stack[|stack| - 1])
    decreases |stack| - i
  {
    if i == |stack| - 1 {
      ReachesRefl(g, stack[i]);
    } else {
      StackReachesTop(g, stack, i + 1);
      EdgeThenReaches(g, stack[i], stack[i + 1], stack[|stack| - 1]);
    }
  }

  /** Pushing a file keeps the finishing-order property. */
  lemma PushKeepsFinishOrder(g: Graph, finished: seq<File>, stack: seq<File>, file: File)
    requires FinishOrder(g, finished, stack)
    ensures FinishOrder(g, finished, stack + [file])
  {
    forall x, y | x in finished && Reaches(g, x, y) && !Reaches(g, y, x)
      ensures Settled(g, finished, stack + [file], x, y)
    {
      assert Settled(g, finished, stack, x, y);
      if z :| z in stack && MutuallyReach(g, z, x) {
        assert z in stack + [file];
      }
    }
  }

  /**
   * Finishing the file on top of the stack keeps the finishing-order property,
   * provided every import of a finished file (the top one included) has been
   * visited.
   */
  lemma FinishKeepsFinishOrder(g: Graph, finished: seq<File>, rest: seq<File>, u: File, visited: set<File>)
    requires u !in finished
    requires StackChain(g, rest + [u])
    requires forall f :: f in visited <==> f in finished || f in rest + [u]
    requires forall x, w :: x in finished && Edge(g, x, w) ==> w in visited
    requires forall w :: Edge(g, u, w) ==> w in visited
    requires FinishOrder(g, finished, rest + [u])
    ensures FinishOrder(g, finished + [u], rest)
  {
    var b := set f | f in finished + [u];
    var s := set f | f in rest;
    forall a, w | a in b && Edge(g, a, w) ensures w in b || w in s {
      assert w in visited;
    }
    forall x, y | x in finished + [u] && Reaches(g, x, y) && !Reaches(g, y, x)
      ensures Settled(g, finished + [u], rest, x, y)
    {
      if y !in b {
        SettleEscaped(g, finished, rest, u, b, s, x, y);
      } else {
        SettleInside(g, finished, rest, u, x, y);
      }
    }
  }

  /** The case of a `y` not yet finished: the path to it leaves through the stack. */
  lemma SettleEscaped(g: Graph, finished: seq<File>, rest: seq<File>, u: File, b: set<File>, s: set<File>, x: File, y: File)
    requires StackChain(g, rest + [u])
    requires FinishOrder(g, finished, rest + [u])
    requires forall f :: f in b <==> f in finished || f == u
    requires forall f :: f in s <==> f in rest
    requires forall a, w :: a in b && Edge(g, a, w) ==> w in b || w in s
    requires x in b && y !in b && Reaches(g, x, y) && !Reaches(g, y, x)
    ensures Settled(g, finished + [u], rest, x, y)
  {
    var stack := rest + [u];
    var z := LeavesThrough(g, b, s, x, y);
    var i :| 0 <= i < |rest| && rest[i] == z;
    assert stack[i] == z && stack[|stack| - 1] == u;
    StackReachesTop(g, stack, i);
    if x == u {
      assert MutuallyReach(g, z, x);
    } else {
      assert Settled(g, finished, stack, x, y);
      assert y !in finished;
      var z0 :| z0 in stack && MutuallyReach(g, z0, x);
      if z0 == u {
        ReachesTrans(g, z, u, x);
        assert MutuallyReach(g, z, x);
      } else {
        assert z0 in rest;
      }
    }
  }

  /** The case of a finished `y`: it finished before `x`'s component, or before `u`. */
  lemma SettleInside(g: Graph, finished: seq<File>, rest: seq<File>, u: File, x: File, y: File)
    requires u !in finished
    requires FinishOrder(g, finished, rest + [u])
    requires x in finished + [u] && (y in finished || y == u) && Reaches(g, x, y) && !Reaches(g, y, x)
    ensures Settled(g, finished + [u], rest, x, y)
  {
    var finished' := finished + [u];
    assert finished'[|finished|] == u;
    ReachesRefl(g, u);
    if x == u {
      ReachesRefl(g, y);
      var j :| 0 <= j < |finished| && finished[j] == y;
      assert finished'[j] == y;
    } else {
      assert x in finished;
      assert Settled(g, finished, rest + [u], x, y);
      if z0 :| z0 in rest + [u] && MutuallyReach(g, z0, x) {
        if z0 == u {
          if y == u {
            assert false;
          }
          var j :| 0 <= j < |finished| && finished[j] == y;
          assert finished'[j] == y;
        } else {
          assert z0 in rest;
        }
      } else {
        var j, k :| 0 <= j < k < |finished| && finished[j] == y && MutuallyReach(g, x, finished[k]);
        assert finished'[j] == y && finished'[k] == finished[k];
      }
    }
  }

  /** One more step of a file's import loop keeps `importers` in step with `progress`. */
  lemma ImportersStep(g: Graph, importers: map<File, seq<File>>, progress: map<File, nat>, file: File, k: nat)
    requires ImportersMatch(g, importers, progress)
    requires file in progress && file in g && progress[file] == k && k < |g[file]|
    ensures ImportersMatch(g, importers[g[file][k] := Get(importers, g[file][k]) + [file]], progress[file := k + 1])
  {
    var imp := g[file][k];
    var importers', progress' := importers[imp := Get(importers, imp) + [file]], progress[file := k + 1];
    forall t, s ensures multiset(Get(importers', t))[s] == Covered(g, progress', s, t) {
      assert multiset(Get(importers, t))[s] == Covered(g, progress, s, t);
      CoveredStep(g, progress, file, k, s, t);
    }
  }

  /** Advancing `file`'s loop past its `k`-th import covers that import once more. */
  lemma CoveredStep(g: Graph, progress: map<File, nat>, file: File, k: nat, s: File, t: File)
    requires file in progress && file in g && progress[file] == k && k < |g[file]|
    ensures Covered(g, progress[file := k + 1], s, t) ==
            Covered(g, progress, s, t) + (if s == file && t == g[file][k] then 1 else 0)
  {
    assert g[file][..k + 1] == g[file][..k] + [g[file][k]];
  }

  /** `importers[z]` lists every visited file once for each time it imports `z`. */
  ghost predicate ReverseCounts(g: Graph, imports: map<File, seq<File>>, importers: map<File, seq<File>>) {
    forall z, x :: multiset(Get(importers, z))[x] == if x in imports then multiset(Get(g, x))[z] else 0
  }

  /**
   * Once the stack is empty the reverse graph is complete: `importers[z]`
   * holds exactly the visited files that import `z`.
   */
  lemma ImportersComplete(g: Graph, imports: map<File, seq<File>>, importers: map<File, seq<File>>,
                          progress: map<File, nat>, finished: seq<File>)
    requires forall f :: f in imports <==> f in finished
    requires progress.Keys == imports.Keys
    requires forall f :: f in finished ==> f in progress && f in g && progress[f] == |g[f]|
    requires ImportersMatch(g, importers, progress)
    ensures ReverseCounts(g, imports, importers)
    ensures forall z, x :: x in Get(importers, z) <==> x in imports && Edge(g, x, z)
  {
    forall z, x ensures multiset(Get(importers, z))[x] == if x in imports then multiset(Get(g, x))[z] else 0 {
      assert multiset(Get(importers, z))[x] == Covered(g, progress, x, z);
      if x in imports {
        assert Get(g, x) == g[x] && g[x][..progress[x]] == g[x];
      }
    }
    forall z, x ensures x in Get(importers, z) <==> x in imports && Edge(g, x, z) {
      assert x in Get(importers, z) <==> x in multiset(Get(importers, z));
      if x in imports {
        assert z in Get(g, x) <==> z in multiset(Get(g, x));
      }
    }
  }

  /**
   * The second phase in one step. The files `a` assigned so far include every
   * file earlier than `order[i]` in reverse finishing order and every visited
   * importer of their members. Then whatever still unassigned file reaches
   * `order[i]` is reached back by it: it belongs to `order[i]`'s component.
   */
  lemma NewComponentMember(g: Graph, finished: seq<File>, order: seq<File>, i: nat,
                           visited: set<File>, a: set<File>, x: File)
    requires order == Reversed(finished) && NoDup(finished) && i < |order|
    requires FinishOrder(g, finished, [])
    requires forall f :: f in visited <==> f in finished
    requires forall s, t :: s in visited && Edge(g, s, t) ==> t in visited
    requires forall s, t :: t in a && s in visited && Edge(g, s, t) ==> s in a
    requires forall j :: 0 <= j < i ==> order[j] in a
    requires x in visited && x !in a && Reaches(g, x, order[i])
    ensures Reaches(g, order[i], x)
  {
    var n := |finished|;
    if !Reaches(g, order[i], x) {
      assert Settled(g, finished, [], x, order[i]);
      var j, k :| 0 <= j < k < n && finished[j] == order[i] && MutuallyReach(g, x, finished[k]);
      assert finished[n - 1 - i] == order[i];
      assert j == n - 1 - i;
      assert order[n - 1 - k] == finished[k];
      assert finished[k] in a;
      BackwardClosedReach(g, visited, a, x, finished[k]);
      assert false;
    }
  }

  /** The traversal part of the first phase's invariant. */
  ghost predicate Traversal(g: Graph, imports: map<File, seq<File>>, finished: seq<File>, stack: seq<File>, computed: seq<File>) {
    && Closed(g)
    && (forall f :: f in imports ==> f in g && imports[f] == g[f])
    && NoDup(finished) && NoDup(stack)
    && (forall f :: f in imports <==> f in finished || f in stack)
    && (forall f :: f in finished ==> f !in stack)
    && NoDup(computed) && (forall f :: f in computed <==> f in imports)
    && StackChain(g, stack)
    && (forall x, w :: x in finished && Edge(g, x, w) ==> w in imports)
  }

  ghost predicate Progress(g: Graph, imports: map<File, seq<File>>, finished: seq<File>, progress: map<File, nat>) {
    && progress.Keys == imports.Keys
    && (forall f :: f in progress ==> f in g && progress[f] <= |g[f]|)
    && (forall f :: f in finished ==> f in progress && progress[f] == |g[f]|)
  }

  /**
   * The variables of the first phase: the dictionaries `visit` updates, with
   * `finished` for `filesInVisitOrder`, and the ghost record of the traversal
   * (the stack of files being visited, how far each visited file's loop has
   * got, the files whose imports have been computed).
   */
  datatype DfsVars = DfsVars(imports: map<File, seq<File>>, importers: map<File, seq<File>>, finished: seq<File>,
                             stack: seq<File>, progress: map<File, nat>, computed: seq<File>)

  /** The invariant of the first phase, the post-order traversal. */
  ghost predicate DfsState(g: Graph, v: DfsVars) {
    && Traversal(g, v.imports, v.finished, v.stack, v.computed)
    && Progress(g, v.imports, v.finished, v.progress)
    && ImportersMatch(g, v.importers, v.progress)
    && FinishOrder(g, v.finished, v.stack)
  }

  /** Entering `visit` for a file not yet visited. */
  lemma PushStep(g: Graph, v: DfsVars, file: File, v': DfsVars)
    requires DfsState(g, v)
    requires file in g && file !in v.imports && (v.stack != [] ==> Edge(g, v.stack[|v.stack| - 1], file))
    requires v'.importers == v.importers && v'.finished == v.finished
    requires v'.imports == v.imports[file := g[file]] && v'.stack == v.stack + [file]
    requires v'.progress == v.progress[file := 0] && v'.computed == v.computed + [file]
    ensures DfsState(g, v')
  {
    TraversalPush(g, v.imports, v.finished, v.stack, v.computed, file);
    ImportersPush(g, v.importers, v.progress, file);
    PushKeepsFinishOrder(g, v.finished, v.stack, file);
  }

  lemma TraversalPush(g: Graph, imports: map<File, seq<File>>, finished: seq<File>, stack: seq<File>,
                      computed: seq<File>, file: File)
    requires Traversal(g, imports, finished, stack, computed)
    requires file in g && file !in imports && (stack != [] ==> Edge(g, stack[|stack| - 1], file))
    ensures Traversal(g, imports[file := g[file]], finished, stack + [file], computed + [file])
  {
    var stack' := stack + [file];
    forall i | 0 < i < |stack'| ensures Edge(g, stack'[i - 1], stack'[i]) {
      if i < |stack| {
        assert stack'[i - 1] == stack[i - 1] && stack'[i] == stack[i];
      }
    }
  }

  lemma ImportersPush(g: Graph, importers: map<File, seq<File>>, progress: map<File, nat>, file: File)
    requires ImportersMatch(g, importers, progress) && file !in progress
    ensures ImportersMatch(g, importers, progress[file := 0])
  {
    forall t, s ensures multiset(Get(importers, t))[s] == Covered(g, progress[file := 0], s, t) {
      assert multiset(Get(importers, t))[s] == Covered(g, progress, s, t);
      assert file in g ==> g[file][..0] == [];
    }
  }

  /** One turn of `visit`'s loop, after the recursive call on the `k`-th import. */
  lemma ImportStep(g: Graph, v: DfsVars, file: File, k: nat, v': DfsVars)
    requires DfsState(g, v)
    requires file in v.stack && file in v.progress && v.progress[file] == k && k < |g[file]|
    requires v'.imports == v.imports && v'.finished == v.finished
    requires v'.stack == v.stack && v'.computed == v.computed
    requires v'.importers == v.importers[g[file][k] := Get(v.importers, g[file][k]) + [file]]
    requires v'.progress == v.progress[file := k + 1]
    ensures DfsState(g, v')
  {
    ImportersStep(g, v.importers, v.progress, file, k);
  }

  /** Leaving `visit`: the file moves from the top of the stack to the end of the finishing order. */
  lemma PopStep(g: Graph, v: DfsVars, rest: seq<File>, file: File, v': DfsVars)
    requires DfsState(g, v) && v.stack == rest + [file]
    requires file in v.progress && file in g && v.progress[file] == |g[file]|
    requires forall j :: 0 <= j < |g[file]| ==> g[file][j] in v.imports
    requires v'.imports == v.imports && v'.importers == v.importers
    requires v'.progress == v.progress && v'.computed == v.computed
    requires v'.finished == v.finished + [file] && v'.stack == rest
    ensures DfsState(g, v')
  {
    TraversalPop(g, v.imports, v.finished, rest, file, v.computed);
    FinishKeepsFinishOrder(g, v.finished, rest, file, v.imports.Keys);
  }

  lemma TraversalPop(g: Graph, imports: map<File, seq<File>>, finished: seq<File>, rest: seq<File>,
                     file: File, computed: seq<File>)
    requires Traversal(g, imports, finished, rest + [file], computed)
    requires file in g && forall j :: 0 <= j < |g[file]| ==> g[file][j] in imports
    ensures Traversal(g, imports, finished + [file], rest, computed)
  {
    var stack, finished' := rest + [file], finished + [file];
    assert file in stack;
    forall i | 0 < i < |rest| ensures Edge(g, rest[i - 1], rest[i]) {
      assert rest[i - 1] == stack[i - 1] && rest[i] == stack[i];
    }
    forall i, j | 0 <= i < j < |rest| ensures rest[i] != rest[j] {
      assert rest[i] == stack[i] && rest[j] == stack[j];
    }
    forall i | 0 <= i < |rest| ensures rest[i] != file {
      assert rest[i] == stack[i] && file == stack[|rest|];
    }
    forall i, j | 0 <= i < j < |finished'| ensures finished'[i] != finished'[j] {
      if j == |finished| {
        assert finished'[i] == finished[i];
      }
    }
  }

  /** The first `k + 1` elements of `xs` are keys of `after` when the first `k` were keys of `before`. */
  lemma KeysKept<V>(before: map<File, V>, after: map<File, V>, xs: seq<File>, k: nat)
    requires k < |xs| && (forall j :: 0 <= j < k ==> xs[j] in before)
    requires before.Keys <= after.Keys && xs[k] in after
    ensures forall j :: 0 <= j < k + 1 ==> xs[j] in after
  {
  }

  /** The dictionaries of the second phase group the assigned files by root. */
  ghost predicate Grouping(fileToRoot: map<File, File>, rootToFiles: map<File, seq<File>>, rootOrder: seq<File>) {
    && NoDup(rootOrder)
    && (forall r :: r in rootToFiles <==> r in rootOrder)
    && (forall f :: f in fileToRoot ==> fileToRoot[f] in rootToFiles && f in rootToFiles[fileToRoot[f]])
    && (forall r :: r in rootToFiles ==> r in fileToRoot && fileToRoot[r] == r && NoDup(rootToFiles[r]))
    && (forall r, f {:trigger f in rootToFiles[r]} ::
          r in rootToFiles && f in rootToFiles[r] ==> f in fileToRoot && fileToRoot[f] == r)
  }

  /**
   * The variables of the second phase: the reverse graph it walks, the
   * dictionaries `assign` updates, and the ghost set of files whose `assign`
   * is in progress.
   */
  datatype AssignVars = AssignVars(imports: map<File, seq<File>>, importers: map<File, seq<File>>,
                                   fileToRoot: map<File, File>, rootToFiles: map<File, seq<File>>,
                                   rootOrder: seq<File>, pending: set<File>)

  /** The invariant of the second phase, the traversal of the reverse graph. */
  ghost predicate AssignState(g: Graph, a: AssignVars) {
    AssignCore(g, a) && Grouping(a.fileToRoot, a.rootToFiles, a.rootOrder)
  }

  /**
   * The part of the invariant about the traversal itself: the files with a
   * root are visited, the pending ones among them, and a file whose `assign`
   * has finished has all its importers assigned.
   */
  ghost predicate AssignCore(g: Graph, a: AssignVars) {
    && Closed(g)
    && (forall x, w :: x in a.imports && Edge(g, x, w) ==> w in a.imports)
    && (forall z, x :: x in Get(a.importers, z) <==> x in a.imports && Edge(g, x, z))
    && a.fileToRoot.Keys <= a.imports.Keys
    && a.pending <= a.fileToRoot.Keys
    && (forall z, x {:trigger x in Get(a.importers, z)} ::
          z in a.fileToRoot && z !in a.pending && x in Get(a.importers, z) ==> x in a.fileToRoot)
    && (forall z :: z in a.fileToRoot ==> Reaches(g, z, a.fileToRoot[z]))
  }

  lemma GroupingAdd(fileToRoot: map<File, File>, rootToFiles: map<File, seq<File>>, rootOrder: seq<File>, file: File, root: File)
    requires Grouping(fileToRoot, rootToFiles, rootOrder) && file !in fileToRoot
    requires file == root || (root in fileToRoot && fileToRoot[root] == root)
    ensures root in rootToFiles ==>
      Grouping(fileToRoot[file := root], rootToFiles[root := rootToFiles[root] + [file]], rootOrder)
    ensures root !in rootToFiles ==>
      file == root && Grouping(fileToRoot[file := root], rootToFiles[root := [file]], rootOrder + [root])
  {
    if root in rootToFiles {
      var list := rootToFiles[root];
      assert file !in list;
      forall i, j | 0 <= i < j < |list + [file]| ensures (list + [file])[i] != (list + [file])[j] {
        if j == |list| {
          assert (list + [file])[i] == list[i];
        }
      }
    } else {
      assert root !in rootOrder;
      forall i, j | 0 <= i < j < |rootOrder + [root]| ensures (rootOrder + [root])[i] != (rootOrder + [root])[j] {
        if j == |rootOrder| {
          assert (rootOrder + [root])[i] == rootOrder[i];
        }
      }
    }
  }

  /** Entering `assign` for a file without a root. */
  lemma AssignStep(g: Graph, a: AssignVars, file: File, root: File, a': AssignVars)
    requires AssignState(g, a)
    requires file in a.imports && file !in a.fileToRoot && Reaches(g, file, root)
    requires file == root || (root in a.fileToRoot && a.fileToRoot[root] == root)
    requires a'.imports == a.imports && a'.importers == a.importers
    requires a'.fileToRoot == a.fileToRoot[file := root] && a'.pending == a.pending + {file}
    requires root in a.rootToFiles ==>
      a'.rootToFiles == a.rootToFiles[root := a.rootToFiles[root] + [file]] && a'.rootOrder == a.rootOrder
    requires root !in a.rootToFiles ==>
      a'.rootToFiles == a.rootToFiles[root := [file]] && a'.rootOrder == a.rootOrder + [root]
    ensures AssignState(g, a')
  {
    AssignCoreStep(g, a, file, root, a');
    GroupingAdd(a.fileToRoot, a.rootToFiles, a.rootOrder, file, root);
  }

  lemma AssignCoreStep(g: Graph, a: AssignVars, file: File, root: File, a': AssignVars)
    requires AssignCore(g, a)
    requires file in a.imports && file !in a.fileToRoot && Reaches(g, file, root)
    requires a'.imports == a.imports && a'.importers == a.importers
    requires a'.fileToRoot == a.fileToRoot[file := root] && a'.pending == a.pending + {file}
    ensures AssignCore(g, a')
  {
    forall z, x | z in a'.fileToRoot && z !in a'.pending && x in Get(a'.importers, z) ensures x in a'.fileToRoot {
      assert z in a.fileToRoot && z !in a.pending;
    }
  }

  /** Leaving `assign`: every importer of the file has a root now. */
  lemma ReleaseStep(g: Graph, a: AssignVars, file: File, a': AssignVars)
    requires AssignState(g, a)
    requires forall x :: x in Get(a.importers, file) ==> x in a.fileToRoot
    requires a'.imports == a.imports && a'.importers == a.importers && a'.fileToRoot == a.fileToRoot
    requires a'.rootToFiles == a.rootToFiles && a'.rootOrder == a.rootOrder
    requires file !in a'.pending && a.pending == a'.pending + {file}
    ensures AssignState(g, a')
  {
  }

  /**
   * What `visit(file)` guarantees when called in state `v` and returning in
   * state `v'`: the invariant holds again with the same stack, `file` and
   * everything visited before are visited, the loops of the files on the
   * stack have not moved, `filesInVisitOrder` has only grown at its end, and
   * every newly visited file is reachable from `file`.
   */
  ghost predicate VisitPost(g: Graph, file: File, v: DfsVars, v': DfsVars) {
    && DfsState(g, v') && v'.stack == v.stack && v.finished <= v'.finished
    && file in v'.imports && v.imports.Keys <= v'.imports.Keys
    && (forall f :: f in v.progress ==> f in v'.progress && v'.progress[f] == v.progress[f])
    && (forall f {:trigger Reaches(g, file, f)} :: f in v'.imports && f !in v.imports ==> Reaches(g, file, f))
  }

  /**
   * The invariant of `visit`'s loop over the imports of `file`, entered from
   * the state `entry`: the file is on top of the stack, its first `k` imports
   * have been visited, and everything visited since entry is reachable from it.
   */
  ghost predicate Visiting(g: Graph, file: File, k: nat, entry: DfsVars, v: DfsVars) {
    && DfsState(g, v) && file in g && k <= |g[file]|
    && v.stack == entry.stack + [file] && entry.finished <= v.finished
    && file in v.progress && v.progress[file] == k && file !in entry.progress
    && (forall j :: 0 <= j < k ==> g[file][j] in v.imports)
    && entry.imports.Keys + {file} <= v.imports.Keys
    && (forall f :: f in entry.progress ==> f in v.progress && v.progress[f] == entry.progress[f])
    && (forall f {:trigger Reaches(g, file, f)} :: f in v.imports && f !in entry.imports ==> Reaches(g, file, f))
  }

  /** Entering `visit` for a file not yet visited starts its loop. */
  lemma VisitStart(g: Graph, file: File, entry: DfsVars, v: DfsVars)
    requires DfsState(g, entry)
    requires file in g && file !in entry.imports && (entry.stack != [] ==> Edge(g, entry.stack[|entry.stack| - 1], file))
    requires v.importers == entry.importers && v.finished == entry.finished
    requires v.imports == entry.imports[file := g[file]] && v.stack == entry.stack + [file]
    requires v.progress == entry.progress[file := 0] && v.computed == entry.computed + [file]
    ensures Visiting(g, file, 0, entry, v)
  {
    PushStep(g, entry, file, v);
    ReachesRefl(g, file);
  }

  /**
   * One turn of `visit`'s loop keeps its invariant: the recursive `visit` of
   * the `k`-th import `imp` took the state from `v` to `v1`, and recording
   * `file` as an importer of `imp` takes it to `v'`.
   */
  lemma ImportLoopStep(g: Graph, file: File, k: nat, imp: File, entry: DfsVars, v: DfsVars, v1: DfsVars, v': DfsVars)
    requires Visiting(g, file, k, entry, v) && k < |g[file]| && imp == g[file][k]
    requires VisitPost(g, imp, v, v1)
    requires v'.imports == v1.imports && v'.finished == v1.finished
    requires v'.stack == v1.stack && v'.computed == v1.computed
    requires v'.importers == v1.importers[imp := Get(v1.importers, imp) + [file]]
    requires v'.progress == v1.progress[file := k + 1]
    ensures Visiting(g, file, k + 1, entry, v')
  {
    KeysKept(v.imports, v1.imports, g[file], k);
    forall f | f in v1.imports && f !in v.imports ensures Reaches(g, file, f) {
      EdgeThenReaches(g, file, imp, f);
    }
    assert file in v1.stack;
    ImportStep(g, v1, file, k, v');
  }

  /** Leaving `visit` once the loop is done: the file is finished. */
  lemma VisitDone(g: Graph, file: File, entry: DfsVars, v: DfsVars, v': DfsVars)
    requires file in g && Visiting(g, file, |g[file]|, entry, v)
    requires v'.imports == v.imports && v'.importers == v.importers
    requires v'.progress == v.progress && v'.computed == v.computed
    requires v'.finished == v.finished + [file] && v'.stack == entry.stack
    ensures VisitPost(g, file, entry, v')
  {
    PopStep(g, v, entry.stack, file, v');
  }

  /** `visit` of a file already visited changes nothing. */
  lemma VisitAgain(g: Graph, file: File, v: DfsVars)
    requires DfsState(g, v) && file in v.imports
    ensures VisitPost(g, file, v, v)
  {
  }

  /**
   * `visit`: a post-order traversal from `file`. The closure's captured
   * dictionaries `imports`, `importers` and `filesInVisitOrder` come in as
   * parameters and go out updated; `stack`, `progress` and `computed` are the
   * ghost record of the traversal. A file already visited is left alone;
   * otherwise its imports are computed once, each import is visited and
   * records `file` as one of its importers, and `file` is appended to
   * `filesInVisitOrder` when all of them are done.
   */
  method Visit(g: Graph, file: File, imports: map<File, seq<File>>, importers: map<File, seq<File>>,
               filesInVisitOrder: seq<File>, ghost stack: seq<File>, ghost progress: map<File, nat>,
               ghost computed: seq<File>)
    returns (imports': map<File, seq<File>>, importers': map<File, seq<File>>, filesInVisitOrder': seq<File>,
             ghost progress': map<File, nat>, ghost computed': seq<File>)
    requires DfsState(g, DfsVars(imports, importers, filesInVisitOrder, stack, progress, computed)) && file in g
    requires stack != [] ==> Edge(g, stack[|stack| - 1], file)
    ensures VisitPost(g, file, DfsVars(imports, importers, filesInVisitOrder, stack, progress, computed),
                      DfsVars(imports', importers', filesInVisitOrder', stack, progress', computed'))
    decreases g.Keys - imports.Keys
  {
    imports', importers', filesInVisitOrder', progress', computed' :=
      imports, importers, filesInVisitOrder, progress, computed;
    ghost var entry := DfsVars(imports, importers, filesInVisitOrder, stack, progress, computed);
    if file !in imports {
      var importList := g[file];
      imports' := imports[file := importList];
      computed' := computed + [file];
      ghost var stack' := stack + [file];
      progress' := progress[file := 0];
      VisitStart(g, file, entry, DfsVars(imports', importers', filesInVisitOrder', stack', progress', computed'));
      for k := 0 to |importList|
        invariant Visiting(g, file, k, entry, DfsVars(imports', importers', filesInVisitOrder', stack', progress', computed'))
      {
        var imp := importList[k];
        ghost var v := DfsVars(imports', importers', filesInVisitOrder', stack', progress', computed');
        var imports1, importers1, order1;
        ghost var progress1, computed1;
        imports1, importers1, order1, progress1, computed1 :=
          Visit(g, imp, imports', importers', filesInVisitOrder', stack', progress', computed');
        // `importers[imp]`, created as `[file]` or extended by `file`
        var importers2 := importers1[imp := Get(importers1, imp) + [file]];
        ghost var progress2 := progress1[file := k + 1];
        ImportLoopStep(g, file, k, imp, entry, v, DfsVars(imports1, importers1, order1, stack', progress1, computed1),
                       DfsVars(imports1, importers2, order1, stack', progress2, computed1));
        imports', importers', filesInVisitOrder', progress', computed' := imports1, importers2, order1, progress2, computed1;
      }
      var order2 := filesInVisitOrder' + [file];
      VisitDone(g, file, entry, DfsVars(imports', importers', filesInVisitOrder', stack', progress', computed'),
                DfsVars(imports', importers', order2, stack, progress', computed'));
      filesInVisitOrder' := order2;
    } else {
      VisitAgain(g, file, entry);
    }
  }

  /**
   * What `assign(file, root)` guarantees when called in state `a` and
   * returning in state `a'`: the invariant holds again, `file` has a root,
   * no root already given changes, every newly assigned file gets `root`,
   * and nothing changes when `file` already had a root.
   */
  ghost predicate AssignPost(g: Graph, file: File, root: File, a: AssignVars, a': AssignVars) {
    && AssignState(g, a') && a'.imports == a.imports && a'.importers == a.importers && a'.pending == a.pending
    && file in a'.fileToRoot && a.fileToRoot.Keys <= a'.fileToRoot.Keys
    && (forall f :: f in a.fileToRoot ==> a'.fileToRoot[f] == a.fileToRoot[f])
    && (forall f :: f in a'.fileToRoot && f !in a.fileToRoot ==> a'.fileToRoot[f] == root)
    && (file in a.fileToRoot ==> a'.fileToRoot == a.fileToRoot)
  }

  /**
   * The invariant of `assign`'s loop over the importers `list` of `file`,
   * entered from the state `entry`: `file` is pending with the root `root`,
   * its first `k` importers have roots, and every file given a root since
   * entry has the root `root`.
   */
  ghost predicate Assigning(g: Graph, file: File, root: File, list: seq<File>, k: nat, entry: AssignVars, a: AssignVars) {
    && AssignState(g, a) && k <= |list| && file !in entry.fileToRoot && file !in entry.pending
    && a.imports == entry.imports && a.importers == entry.importers && a.pending == entry.pending + {file}
    && root in a.fileToRoot && a.fileToRoot[root] == root
    && (forall j :: 0 <= j < k ==> list[j] in a.fileToRoot)
    && entry.fileToRoot.Keys + {file} <= a.fileToRoot.Keys
    && (forall f :: f in entry.fileToRoot ==> a.fileToRoot[f] == entry.fileToRoot[f])
    && (forall f :: f in a.fileToRoot && f !in entry.fileToRoot ==> a.fileToRoot[f] == root)
  }

  /** Entering `assign` for a file without a root starts its loop. */
  lemma AssignStart(g: Graph, file: File, root: File, list: seq<File>, entry: AssignVars, a: AssignVars)
    requires AssignState(g, entry)
    requires file in entry.imports && file !in entry.fileToRoot && Reaches(g, file, root)
    requires file == root || (root in entry.fileToRoot && entry.fileToRoot[root] == root)
    requires a.imports == entry.imports && a.importers == entry.importers
    requires a.fileToRoot == entry.fileToRoot[file := root] && a.pending == entry.pending + {file}
    requires root in entry.rootToFiles ==>
      a.rootToFiles == entry.rootToFiles[root := entry.rootToFiles[root] + [file]] && a.rootOrder == entry.rootOrder
    requires root !in entry.rootToFiles ==>
      a.rootToFiles == entry.rootToFiles[root := [file]] && a.rootOrder == entry.rootOrder + [root]
    ensures Assigning(g, file, root, list, 0, entry, a)
  {
    AssignStep(g, entry, file, root, a);
  }

  /** One turn of `assign`'s loop, the recursive `assign` of the `k`-th importer, keeps its invariant. */
  lemma AssignLoopStep(g: Graph, file: File, root: File, list: seq<File>, k: nat, entry: AssignVars,
                       a: AssignVars, a': AssignVars)
    requires Assigning(g, file, root, list, k, entry, a) && k < |list|
    requires AssignPost(g, list[k], root, a, a')
    ensures Assigning(g, file, root, list, k + 1, entry, a')
  {
    KeysKept(a.fileToRoot, a'.fileToRoot, list, k);
  }

  /** Leaving `assign` once every importer of `file` has a root. */
  lemma AssignDone(g: Graph, file: File, root: File, list: seq<File>, entry: AssignVars, a: AssignVars, a': AssignVars)
    requires Assigning(g, file, root, list, |list|, entry, a) && list == Get(entry.importers, file)
    requires a'.imports == a.imports && a'.importers == a.importers && a'.fileToRoot == a.fileToRoot
    requires a'.rootToFiles == a.rootToFiles && a'.rootOrder == a.rootOrder && a'.pending == entry.pending
    ensures AssignPost(g, file, root, entry, a')
  {
    ReleaseStep(g, a, file, a');
  }

  /** `assign` of a file that already has a root changes nothing. */
  lemma AssignAgain(g: Graph, file: File, root: File, a: AssignVars)
    requires AssignState(g, a) && file in a.fileToRoot
    ensures AssignPost(g, file, root, a, a)
  {
  }

  /**
   * `assign`: gives `file`, unless it already has one, the root `root`, adds
   * it to `root`'s list, and assigns every importer of `file` to the same
   * root. The closure reads `importers` and updates `fileToRoot` and
   * `rootToFiles`; `rootOrder` is the order in which `rootToFiles` gained its
   * keys, and `imports` and `pending` are ghost.
   */
  method Assign(g: Graph, ghost imports: map<File, seq<File>>, importers: map<File, seq<File>>,
                fileToRoot: map<File, File>, rootToFiles: map<File, seq<File>>, rootOrder: seq<File>,
                ghost pending: set<File>, file: File, root: File)
    returns (fileToRoot': map<File, File>, rootToFiles': map<File, seq<File>>, rootOrder': seq<File>)
    requires AssignState(g, AssignVars(imports, importers, fileToRoot, rootToFiles, rootOrder, pending))
    requires file in imports && Reaches(g, file, root)
    requires file == root || (root in fileToRoot && fileToRoot[root] == root)
    ensures AssignPost(g, file, root, AssignVars(imports, importers, fileToRoot, rootToFiles, rootOrder, pending),
                       AssignVars(imports, importers, fileToRoot', rootToFiles', rootOrder', pending))
    decreases imports.Keys - fileToRoot.Keys
  {
    fileToRoot', rootToFiles', rootOrder' := fileToRoot, rootToFiles, rootOrder;
    ghost var entry := AssignVars(imports, importers, fileToRoot, rootToFiles, rootOrder, pending);
    if file !in fileToRoot {
      fileToRoot' := fileToRoot[file := root];
      if root !in rootToFiles {
        rootToFiles' := rootToFiles[root := [file]];
        rootOrder' := rootOrder + [root];
      } else {
        rootToFiles' := rootToFiles[root := rootToFiles[root] + [file]];
      }
      ghost var pending' := pending + {file};
      var list := if file in importers then importers[file] else [];
      AssignStart(g, file, root, list, entry, AssignVars(imports, importers, fileToRoot', rootToFiles', rootOrder', pending'));
      if file in importers {
        for k := 0 to |list|
          invariant Assigning(g, file, root, list, k, entry,
                              AssignVars(imports, importers, fileToRoot', rootToFiles', rootOrder', pending'))
        {
          assert list[k] in Get(importers, file);
          EdgeThenReaches(g, list[k], file, root);
          ghost var a := AssignVars(imports, importers, fileToRoot', rootToFiles', rootOrder', pending');
          fileToRoot', rootToFiles', rootOrder' :=
            Assign(g, imports, importers, fileToRoot', rootToFiles', rootOrder', pending', list[k], root);
          AssignLoopStep(g, file, root, list, k, entry, a,
                         AssignVars(imports, importers, fileToRoot', rootToFiles', rootOrder', pending'));
        }
      }
      AssignDone(g, file, root, list, entry, AssignVars(imports, importers, fileToRoot', rootToFiles', rootOrder', pending'),
                 AssignVars(imports, importers, fileToRoot', rootToFiles', rootOrder', pending));
    } else {
      AssignAgain(g, file, root, entry);
    }
  }

  ghost predicate InSomeCycle(cycles: seq<seq<File>>, f: File) {
    exists i :: 0 <= i < |cycles| && f in cycles[i]
  }

  /** Two assigned files have the same root exactly when each reaches the other. */
  ghost predicate RootsAreComponents(g: Graph, fileToRoot: map<File, File>) {
    && (forall z :: z in fileToRoot ==> MutuallyReach(g, z, fileToRoot[z]))
    && (forall z, z' :: z in fileToRoot && z' in fileToRoot && MutuallyReach(g, z, z') ==>
          fileToRoot[z] == fileToRoot[z'])
  }

  /** What the first phase leaves behind, once every top-level `visit` has returned. */
  lemma {:induction false} TraversalDone(g: Graph, files: seq<File>, v: DfsVars)
    requires TopLevel(g, files, |files|, v)
    ensures forall j :: 0 <= j < |files| ==> files[j] in v.imports
    ensures forall f :: f in v.imports ==> ReachableFromFirst(g, files, |files|, f)
    ensures forall f :: f in v.imports <==> f in v.finished
    ensures NoDup(v.finished) && FinishOrder(g, v.finished, [])
  {
  }

  /** Once the stack is empty, `importers` lists each file once per import of it: the second phase can start. */
  lemma TraversalImporters(g: Graph, v: DfsVars)
    requires DfsState(g, v) && v.stack == []
    ensures AssignState(g, AssignVars(v.imports, v.importers, map[], map[], [], {}))
    ensures forall f :: f in v.imports ==> f in g && v.imports[f] == g[f]
    ensures ReverseCounts(g, v.imports, v.importers)
  {
    ImportersComplete(g, v.imports, v.importers, v.progress, v.finished);
  }

  /** The files visited from `files` are exactly those reachable from `files`. */
  lemma ReachDone(g: Graph, files: seq<File>, visited: set<File>)
    requires forall j :: 0 <= j < |files| ==> files[j] in visited
    requires forall s, t :: s in visited && Edge(g, s, t) ==> t in visited
    requires forall f :: f in visited ==> ReachableFromFirst(g, files, |files|, f)
    ensures forall f :: f in visited <==> ReachableFrom(g, files, f)
  {
    forall f | ReachableFrom(g, files, f) ensures f in visited {
      var j :| 0 <= j < |files| && Reaches(g, files[j], f);
      ForwardClosedReach(g, visited, files[j], f);
    }
    forall f | f in visited ensures ReachableFrom(g, files, f) {
      assert ReachableFromFirst(g, files, |files|, f);
    }
  }

  /**
   * One turn of the second phase's loop: `assign(order[i], order[i])` gives
   * the root `order[i]` to exactly the unassigned files of its component.
   */
  lemma {:induction false} AssignRound(g: Graph, finished: seq<File>, order: seq<File>, i: nat,
                                       va: AssignVars, va': AssignVars)
    requires order == Reversed(finished) && NoDup(finished) && i < |order|
    requires FinishOrder(g, finished, [])
    requires forall f :: f in va.imports <==> f in finished
    requires Rounds(g, order, i, va)
    requires AssignState(g, va') && va'.imports == va.imports && va'.importers == va.importers
    requires va.fileToRoot.Keys <= va'.fileToRoot.Keys
    requires forall f :: f in va.fileToRoot ==> va'.fileToRoot[f] == va.fileToRoot[f]
    requires forall f :: f in va'.fileToRoot && f !in va.fileToRoot ==> va'.fileToRoot[f] == order[i]
    ensures RootsAreComponents(g, va'.fileToRoot)
  {
    var imports, importers, before, after := va.imports, va.importers, va.fileToRoot, va'.fileToRoot;
    var visited := imports.Keys;
    forall s, t | t in before && s in visited && Edge(g, s, t) ensures s in before {
      assert s in Get(importers, t);
    }
    RoundComponents(g, finished, order, i, visited, before, after);
  }

  /** `AssignRound` on sets: the newly assigned files are exactly the rest of `order[i]`'s component. */
  lemma RoundComponents(g: Graph, finished: seq<File>, order: seq<File>, i: nat, visited: set<File>,
                        before: map<File, File>, after: map<File, File>)
    requires order == Reversed(finished) && NoDup(finished) && i < |order|
    requires FinishOrder(g, finished, [])
    requires forall f :: f in visited <==> f in finished
    requires forall s, t :: s in visited && Edge(g, s, t) ==> t in visited
    requires forall s, t :: t in before && s in visited && Edge(g, s, t) ==> s in before
    requires forall j :: 0 <= j < i ==> order[j] in before
    requires RootsAreComponents(g, before)
    requires before.Keys <= after.Keys && after.Keys <= visited
    requires forall f :: f in before ==> after[f] == before[f]
    requires forall f :: f in after && f !in before ==> after[f] == order[i]
    requires forall z :: z in after ==> Reaches(g, z, after[z])
    ensures RootsAreComponents(g, after)
  {
    var a := before.Keys;
    forall x | x in after && x !in a ensures MutuallyReach(g, x, after[x]) {
      NewComponentMember(g, finished, order, i, visited, a, x);
    }
    forall z, z' | z in after && z' in after && MutuallyReach(g, z, z') ensures after[z] == after[z'] {
      if z in a && z' !in a {
        BackwardClosedReach(g, visited, a, z', z);
      } else if z !in a && z' in a {
        BackwardClosedReach(g, visited, a, z, z');
      } else if z !in a && z' !in a {
        assert after[z] == order[i] == after[z'];
      }
    }
  }

  /**
   * The invariant of `findCycles`' second loop after `i` top-level calls of
   * `assign`: no `assign` is in progress, `order[..i]` have roots, and the
   * roots found so far name whole components.
   */
  ghost predicate Rounds(g: Graph, order: seq<File>, i: nat, a: AssignVars) {
    && i <= |order| && a.pending == {} && AssignState(g, a)
    && (forall j :: 0 <= j < i ==> order[j] in a.fileToRoot)
    && RootsAreComponents(g, a.fileToRoot)
  }

  /** One more top-level `assign(order[i], order[i])` keeps the invariant of the second loop. */
  lemma RoundStep(g: Graph, finished: seq<File>, order: seq<File>, i: nat, a: AssignVars, a': AssignVars)
    requires order == Reversed(finished) && NoDup(finished) && i < |order|
    requires FinishOrder(g, finished, [])
    requires forall f :: f in a.imports <==> f in finished
    requires Rounds(g, order, i, a)
    requires AssignPost(g, order[i], order[i], a, a')
    ensures Rounds(g, order, i + 1, a')
  {
    KeysKept(a.fileToRoot, a'.fileToRoot, order, i);
    AssignRound(g, finished, order, i, a, a');
  }

  /** The lists `Object.values(rootToFiles)` returns: one per root, in the order the roots appeared. */
  ghost predicate ListsOfRoots(a: AssignVars, cycles: seq<seq<File>>) {
    && |cycles| == |a.rootOrder|
    && forall i :: 0 <= i < |cycles| ==> a.rootOrder[i] in a.rootToFiles && cycles[i] == a.rootToFiles[a.rootOrder[i]]
  }

  /** The lists are non-empty, free of repeats and pairwise disjoint. */
  lemma CyclesPartition(a: AssignVars, cycles: seq<seq<File>>)
    requires Grouping(a.fileToRoot, a.rootToFiles, a.rootOrder) && ListsOfRoots(a, cycles)
    ensures forall i :: 0 <= i < |cycles| ==> cycles[i] != [] && NoDup(cycles[i])
    ensures forall i, j, f :: 0 <= i < j < |cycles| && f in cycles[i] ==> f !in cycles[j]
  {
    forall i | 0 <= i < |cycles| ensures cycles[i] != [] {
      assert a.rootOrder[i] in cycles[i];
    }
    forall i, j, f | 0 <= i < j < |cycles| && f in cycles[i] ensures f !in cycles[j] {
      assert a.fileToRoot[f] == a.rootOrder[i];
    }
  }

  /** A file is in some list exactly when it is reachable from `files`. */
  lemma CyclesCover(g: Graph, files: seq<File>, a: AssignVars, cycles: seq<seq<File>>)
    requires Grouping(a.fileToRoot, a.rootToFiles, a.rootOrder) && ListsOfRoots(a, cycles)
    requires forall f :: f in a.fileToRoot <==> ReachableFrom(g, files, f)
    ensures forall f :: InSomeCycle(cycles, f) <==> ReachableFrom(g, files, f)
  {
    forall f ensures InSomeCycle(cycles, f) <==> ReachableFrom(g, files, f) {
      if f in a.fileToRoot {
        var i :| 0 <= i < |a.rootOrder| && a.rootOrder[i] == a.fileToRoot[f];
        assert f in cycles[i];
      }
    }
  }

  /** Each list is one whole component. */
  lemma CyclesAreComponents(g: Graph, a: AssignVars, cycles: seq<seq<File>>)
    requires Grouping(a.fileToRoot, a.rootToFiles, a.rootOrder) && ListsOfRoots(a, cycles)
    requires RootsAreComponents(g, a.fileToRoot)
    requires forall s, t :: s in a.fileToRoot && Edge(g, s, t) ==> t in a.fileToRoot
    ensures forall i, f, f' :: 0 <= i < |cycles| && f in cycles[i] && f' in cycles[i] ==> MutuallyReach(g, f, f')
    ensures forall i, f, f' :: 0 <= i < |cycles| && f in cycles[i] && MutuallyReach(g, f, f') ==> f' in cycles[i]
  {
    forall i, f, f' | 0 <= i < |cycles| && f in cycles[i] && MutuallyReach(g, f, f') ensures f' in cycles[i] {
      ForwardClosedReach(g, a.fileToRoot.Keys, f, f');
    }
    forall i, f, f' | 0 <= i < |cycles| && f in cycles[i] && f' in cycles[i] ensures MutuallyReach(g, f, f') {
      MutuallyReachTrans(g, f, a.rootOrder[i], f');
    }
  }

  /**
   * The invariant of `findCycles`' first loop after `i` top-level calls of
   * `visit`: the stack is empty, `files[..i]` have been visited, and every
   * visited file is reachable from one of them.
   */
  ghost predicate TopLevel(g: Graph, files: seq<File>, i: nat, v: DfsVars) {
    && i <= |files| && v.stack == [] && DfsState(g, v)
    && (forall j :: 0 <= j < i ==> files[j] in v.imports)
    && (forall f :: f in v.imports ==> ReachableFromFirst(g, files, i, f))
  }

  /** `f` is reachable from one of the first `i` files of `files`. */
  ghost predicate ReachableFromFirst(g: Graph, files: seq<File>, i: nat, f: File) {
    exists j :: 0 <= j < i && j < |files| && Reaches(g, files[j], f)
  }

  /** One more top-level `visit`, of `files[i]`, keeps the invariant of the first loop. */
  lemma TopLevelStep(g: Graph, files: seq<File>, i: nat, v: DfsVars, v': DfsVars)
    requires TopLevel(g, files, i, v) && i < |files|
    requires VisitPost(g, files[i], v, v')
    ensures TopLevel(g, files, i + 1, v')
  {
    ReachableGrows(g, files, i, v.imports.Keys, v'.imports.Keys);
  }

  lemma ReachableGrows(g: Graph, files: seq<File>, i: nat, before: set<File>, after: set<File>)
    requires i < |files|
    requires forall f :: f in before ==> ReachableFromFirst(g, files, i, f)
    requires forall f {:trigger Reaches(g, files[i], f)} :: f in after && f !in before ==> Reaches(g, files[i], f)
    ensures forall f :: f in after ==> ReachableFromFirst(g, files, i + 1, f)
  {
    forall f | f in after ensures ReachableFromFirst(g, files, i + 1, f) {
      if f in before {
        assert ReachableFromFirst(g, files, i, f);
      } else {
        assert Reaches(g, files[i], f);
      }
    }
  }

  /** Every member of `s` is a key of `m` when every member of its reverse is. */
  lemma ReversedKeys<V>(s: seq<File>, m: map<File, V>)
    requires forall j :: 0 <= j < |Reversed(s)| ==> Reversed(s)[j] in m
    ensures forall f :: f in s ==> f in m
  {
    forall f | f in s ensures f in m {
      var k :| 0 <= k < |s| && s[k] == f;
      assert Reversed(s)[|s| - 1 - k] == s[k];
    }
  }

  /**
   * Step 1 of `findCycles`: `visit` every file of `files` in turn, starting
   * from empty dictionaries.
   */
  method PostOrder(g: Graph, files: seq<File>)
    returns (imports: map<File, seq<File>>, importers: map<File, seq<File>>, filesInVisitOrder: seq<File>)
    requires Closed(g)
    requires forall i :: 0 <= i < |files| ==> files[i] in g
    ensures AssignState(g, AssignVars(imports, importers, map[], map[], [], {}))
    ensures forall f :: f in imports <==> ReachableFrom(g, files, f)
    ensures forall f :: f in imports <==> f in filesInVisitOrder
    ensures NoDup(filesInVisitOrder) && FinishOrder(g, filesInVisitOrder, [])
    ensures forall f :: f in imports ==> f in g && imports[f] == g[f]
    ensures ReverseCounts(g, imports, importers)
  {
    imports, importers, filesInVisitOrder := map[], map[], [];
    ghost var progress: map<File, nat> := map[];
    ghost var computed: seq<File> := [];
    for i := 0 to |files|
      invariant TopLevel(g, files, i, DfsVars(imports, importers, filesInVisitOrder, [], progress, computed))
    {
      ghost var v := DfsVars(imports, importers, filesInVisitOrder, [], progress, computed);
      imports, importers, filesInVisitOrder, progress, computed :=
        Visit(g, files[i], imports, importers, filesInVisitOrder, [], progress, computed);
      TopLevelStep(g, files, i, v, DfsVars(imports, importers, filesInVisitOrder, [], progress, computed));
    }
    ghost var v := DfsVars(imports, importers, filesInVisitOrder, [], progress, computed);
    TraversalDone(g, files, v);
    TraversalImporters(g, v);
    ReachDone(g, files, imports.Keys);
  }

  /**
   * Step 2 of `findCycles`: `assign` every file of `order`, the reverse of
   * the finishing order, to itself as a root, starting from empty dictionaries.
   */
  method GroupByRoot(g: Graph, ghost imports: map<File, seq<File>>, importers: map<File, seq<File>>,
                     ghost finished: seq<File>, order: seq<File>)
    returns (fileToRoot: map<File, File>, rootToFiles: map<File, seq<File>>, rootOrder: seq<File>)
    requires AssignState(g, AssignVars(imports, importers, map[], map[], [], {}))
    requires forall f :: f in imports <==> f in finished
    requires NoDup(finished) && FinishOrder(g, finished, []) && order == Reversed(finished)
    ensures AssignState(g, AssignVars(imports, importers, fileToRoot, rootToFiles, rootOrder, {}))
    ensures forall f :: f in imports <==> f in fileToRoot
    ensures RootsAreComponents(g, fileToRoot)
  {
    fileToRoot, rootToFiles, rootOrder := map[], map[], [];
    for i := 0 to |order|
      invariant Rounds(g, order, i, AssignVars(imports, importers, fileToRoot, rootToFiles, rootOrder, {}))
    {
      ghost var a := AssignVars(imports, importers, fileToRoot, rootToFiles, rootOrder, {});
      ReachesRefl(g, order[i]);
      fileToRoot, rootToFiles, rootOrder :=
        Assign(g, imports, importers, fileToRoot, rootToFiles, rootOrder, {}, order[i], order[i]);
      RoundStep(g, finished, order, i, a, AssignVars(imports, importers, fileToRoot, rootToFiles, rootOrder, {}));
    }
    ReversedKeys(finished, fileToRoot);
  }

  /**
   * `findCycles`: the strongly connected components of the part of the import
   * graph reachable from `files`. Every file reachable from `files` is in
   * exactly one list, no other file is in any, and two files share a list
   * exactly when each reaches the other.
   */
  method FindCycles(g: Graph, files: seq<File>) returns (cycles: seq<seq<File>>)
    requires Closed(g)
    requires forall i :: 0 <= i < |files| ==> files[i] in g
    ensures forall i :: 0 <= i < |cycles| ==> cycles[i] != [] && NoDup(cycles[i])
    ensures forall i, j, f :: 0 <= i < j < |cycles| && f in cycles[i] ==> f !in cycles[j]
    ensures forall f :: InSomeCycle(cycles, f) <==> ReachableFrom(g, files, f)
    ensures forall i, f, f' :: 0 <= i < |cycles| && f in cycles[i] && f' in cycles[i] ==> MutuallyReach(g, f, f')
    ensures forall i, f, f' :: 0 <= i < |cycles| && f in cycles[i] && MutuallyReach(g, f, f') ==> f' in cycles[i]
  {
    var imports, importers, filesInVisitOrder := PostOrder(g, files);
    ghost var finished := filesInVisitOrder;
    filesInVisitOrder := Reversed(filesInVisitOrder);
    var fileToRoot, rootToFiles, rootOrder := GroupByRoot(g, imports, importers, finished, filesInVisitOrder);
    cycles := seq(|rootOrder|, i requires 0 <= i < |rootOrder| => rootToFiles[rootOrder[i]]);
    ghost var a := AssignVars(imports, importers, fileToRoot, rootToFiles, rootOrder, {});
    assert ListsOfRoots(a, cycles);
    CyclesPartition(a, cycles);
    CyclesCover(g, files, a, cycles);
    CyclesAreComponents(g, a, cycles);
  }

  /**
   * The components the cycle search returns: duplicate-free lists of
   * mutually reaching files, each closed under mutual reach.
   */
  ghost predicate Components(g: Graph, cycles: seq<seq<File>>) {
    && (forall i :: 0 <= i < |cycles| ==> NoDup(cycles[i]))
    && (forall i, f, f' :: 0 <= i < |cycles| && f in cycles[i] && f' in cycles[i] ==> MutuallyReach(g, f, f'))
    && (forall i, f, f' :: 0 <= i < |cycles| && f in cycles[i] && MutuallyReach(g, f, f') ==> f' in cycles[i])
  }

  /**
   * A file that no other file mutually reaches (it lies on no import cycle)
   * is alone in its list.
   */
  lemma SingletonComponent(g: Graph, cycles: seq<seq<File>>, i: nat, f: File)
    requires Components(g, cycles) && i < |cycles| && f in cycles[i]
    requires forall f' :: MutuallyReach(g, f, f') ==> f' == f
    ensures cycles[i] == [f]
  {
    var c := cycles[i];
    forall k | 0 <= k < |c| ensures c[k] == f {
      assert MutuallyReach(g, f, c[k]);
    }
    NoDupCard(c);
    assert (set x | x in c) == {f};
  }
}
