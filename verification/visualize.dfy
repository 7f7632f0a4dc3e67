/**
 * The condensation of the import graph that the visualisation draws: one
 * node per component (as the cycle search returns them), with flags for the
 * strict-null-check state of its files, the ids of the nodes it depends on
 * and that depend on it, and two layered depths.
 *
 * Node objects are updated in place; here they are the elements of an
 * `array<Node>`, and updating a field of a node is assigning the element a
 * copy with that field changed. A reference to a node held in the
 * file-to-node map is its index in the array.
 */
module Visualize {
  import opened Wrappers
  import opened Seqs
  import opened Strings
  import opened ImportGraph
  import Eligibility

  /** `DependencyNode`; `errorCount` is `null` as `None`. */
  datatype Node = Node(
    id: int,
    files: seq<File>,
    checked: bool,
    eligible: bool,
    errorCount: Option<nat>,
    dependents: seq<int>,
    dependencies: seq<int>,
    dependentDepth: int,
    dependencyDepth: int)

  /** The search loop with a `checked` flag: every file of the component is checked. */
  method AllChecked(files: seq<File>, fileNames: seq<File>) returns (checked: bool)
    ensures checked == Eligibility.CycleIsChecked(files, fileNames)
  {
    checked := true;
    var k := 0;
    while k < |files|
      invariant 0 <= k <= |files|
      invariant forall k' :: 0 <= k' < k ==> files[k'] in fileNames
    {
      if files[k] !in fileNames {
        checked := false;
        break;
      }
      k := k + 1;
    }
  }

  /** The search loop with an `eligible` flag: some file of the component is eligible. */
  method AnyEligible(files: seq<File>, eligibleFiles: set<File>) returns (eligible: bool)
    ensures eligible <==> exists k :: 0 <= k < |files| && files[k] in eligibleFiles
  {
    eligible := false;
    var k := 0;
    while k < |files|
      invariant 0 <= k <= |files|
      invariant forall k' :: 0 <= k' < k ==> files[k'] !in eligibleFiles
    {
      if files[k] in eligibleFiles {
        eligible := true;
        break;
      }
      k := k + 1;
    }
  }

  /**
   * What the `i`-th iteration of the node loop pushes for component `cycle`:
   * id `i`, the files sorted, checked iff all files are checked, eligible iff
   * not checked and some file is eligible, an error count (from the first
   * file before sorting) only for an eligible node when errors are counted,
   * empty id lists and both depths -1.
   */
  ghost predicate NodeFor(n: Node, i: int, cycle: seq<File>, fileNames: seq<File>, eligibleFiles: set<File>,
                          countErrors: bool, errorCountOf: File -> nat)
  {
    && n.id == i
    && multiset(n.files) == multiset(cycle) && SortedBy(n.files, StringLe)
    && (n.checked <==> forall f :: f in cycle ==> f in fileNames)
    && (n.eligible <==> !n.checked && exists f :: f in cycle && f in eligibleFiles)
    && n.errorCount == (if n.eligible && countErrors then Some(errorCountOf(cycle[0])) else None)
    && n.dependents == [] && n.dependencies == []
    && n.dependentDepth == -1 && n.dependencyDepth == -1
  }

  /**
   * The node loop. `errorCountOf` stands for asking the error counter about a
   * file; it is consulted only when `countErrors` is set.
   */
  method BuildNodes(cycles: seq<seq<File>>, fileNames: seq<File>, eligibleFiles: set<File>,
                    countErrors: bool, errorCountOf: File -> nat)
    returns (nodes: seq<Node>)
    ensures |nodes| == |cycles|
    ensures forall i :: 0 <= i < |nodes| ==> NodeFor(nodes[i], i, cycles[i], fileNames, eligibleFiles, countErrors, errorCountOf)
  {
    StringLeIsTotalPreorder();
    nodes := [];
    for i := 0 to |cycles|
      invariant |nodes| == i
      invariant forall j :: 0 <= j < i ==> NodeFor(nodes[j], j, cycles[j], fileNames, eligibleFiles, countErrors, errorCountOf)
    {
      var files := cycles[i];
      var checked := AllChecked(files, fileNames);
      var eligible := false;
      if !checked {
        eligible := AnyEligible(files, eligibleFiles);
      }
      var errorCount := None;
      if eligible && countErrors {
        errorCount := Some(errorCountOf(files[0]));
      }
      var sorted := SortBy(files, StringLe);
      var node := Node(i, sorted, checked, eligible, errorCount, [], [], -1, -1);
      assert NodeFor(node, i, cycles[i], fileNames, eligibleFiles, countErrors, errorCountOf);
      nodes := nodes + [node];
    }
  }

  /**
   * `fileToNodeMap`: each file of a node maps to (the index of) a node that
   * holds it, the last such node; no other file is a key.
   */
  method FileToNodeMap(nodes: array<Node>) returns (m: map<File, nat>)
    ensures forall f :: f in m <==> exists i :: 0 <= i < nodes.Length && f in nodes[i].files
    ensures forall f :: f in m ==>
      m[f] < nodes.Length && f in nodes[m[f]].files && forall j :: m[f] < j < nodes.Length ==> f !in nodes[j].files
  {
    m := map[];
    for i := 0 to nodes.Length
      invariant forall f :: f in m <==> exists i' :: 0 <= i' < i && f in nodes[i'].files
      invariant forall f :: f in m ==>
        m[f] < i && f in nodes[m[f]].files && forall j :: m[f] < j < i ==> f !in nodes[j].files
    {
      var files := nodes[i].files;
      for k := 0 to |files|
        invariant forall f :: f in m <==> (exists i' :: 0 <= i' < i && f in nodes[i'].files) || f in files[..k]
        invariant forall f :: f in m ==>
          && m[f] <= i && f in nodes[m[f]].files
          && (m[f] < i ==> f !in files[..k])
          && forall j :: m[f] < j < i ==> f !in nodes[j].files
      {
        m := m[files[k] := i];
        assert files[..k + 1] == files[..k] + [files[k]];
      }
      assert files[..|files|] == files;
    }
  }

  /** Every import of a file of a node that is not in the node itself has a node. */
  ghost predicate Resolvable(ns: seq<Node>, m: map<File, nat>, g: Graph) {
    forall i, f, d :: 0 <= i < |ns| && f in ns[i].files && d in Get(g, f) && d !in ns[i].files ==> d in m && m[d] < |ns|
  }

  /**
   * The nodes that the imports among `imports` lead to, in order, skipping
   * the files in `own`. (Every such import has a node when `Resolvable` holds.)
   */
  function ImportTargets(m: map<File, nat>, own: seq<File>, imports: seq<File>): seq<nat> {
    if imports == [] then []
    else
      var d := imports[|imports| - 1];
      ImportTargets(m, own, imports[..|imports| - 1]) + (if d in own || d !in m then [] else [m[d]])
  }

  /** The nodes the imports of `files` lead to, file by file, skipping the files in `own`. */
  function FileTargets(m: map<File, nat>, g: Graph, own: seq<File>, files: seq<File>): seq<nat> {
    if files == [] then []
    else FileTargets(m, g, own, files[..|files| - 1]) + ImportTargets(m, own, Get(g, files[|files| - 1]))
  }

  /** Node `t` is reached by an import of a file of node `i` from outside node `i`. */
  ghost predicate ImportsInto(ns: seq<Node>, m: map<File, nat>, g: Graph, i: int, t: int)
    requires 0 <= i < |ns|
  {
    exists f, d :: f in ns[i].files && d in Get(g, f) && d !in ns[i].files && d in m && m[d] == t
  }

  lemma {:induction false} ImportTargetsMembers(m: map<File, nat>, own: seq<File>, imports: seq<File>, t: int)
    ensures t in ImportTargets(m, own, imports) <==> exists d :: d in imports && d !in own && d in m && m[d] == t
    decreases |imports|
  {
    if imports != [] {
      var init := imports[..|imports| - 1];
      ImportTargetsMembers(m, own, init, t);
      assert imports == init + [imports[|imports| - 1]];
    }
  }

  lemma {:induction false} FileTargetsMembers(m: map<File, nat>, g: Graph, own: seq<File>, files: seq<File>, t: int)
    ensures t in FileTargets(m, g, own, files) <==>
      exists f, d :: f in files && d in Get(g, f) && d !in own && d in m && m[d] == t
    decreases |files|
  {
    if files != [] {
      var init, last := files[..|files| - 1], files[|files| - 1];
      FileTargetsMembers(m, g, own, init, t);
      ImportTargetsMembers(m, own, Get(g, last), t);
      assert files == init + [last];
    }
  }

  /**
   * The nodes node `i` imports into, in the order the loops over its files and
   * imports meet them; exactly the nodes it imports into.
   */
  function Targets(ns: seq<Node>, m: map<File, nat>, g: Graph, i: nat): (r: seq<nat>)
    requires Resolvable(ns, m, g) && i < |ns|
    ensures forall t :: t in r <==> ImportsInto(ns, m, g, i, t)
    ensures forall k :: 0 <= k < |r| ==> r[k] < |ns|
  {
    var r := FileTargets(m, g, ns[i].files, ns[i].files);
    assert forall t :: t in r <==> ImportsInto(ns, m, g, i, t) by {
      forall t ensures t in r <==> ImportsInto(ns, m, g, i, t) {
        FileTargetsMembers(m, g, ns[i].files, ns[i].files, t);
      }
    }
    assert forall k :: 0 <= k < |r| ==> r[k] < |ns| by {
      forall k | 0 <= k < |r| ensures r[k] < |ns| {
        assert r[k] in r;
      }
    }
    r
  }

  /** The ids of the nodes `ts`. */
  function Ids(ns: seq<Node>, ts: seq<nat>): seq<int>
    requires forall k :: 0 <= k < |ts| ==> ts[k] < |ns|
  {
    seq(|ts|, k requires 0 <= k < |ts| => ns[ts[k]].id)
  }

  lemma ImportTargetsSnoc(m: map<File, nat>, own: seq<File>, imports: seq<File>, n: nat, before: seq<nat>)
    requires n < |imports|
    ensures before + ImportTargets(m, own, imports[..n + 1]) ==
      before + ImportTargets(m, own, imports[..n]) + (if imports[n] in own || imports[n] !in m then [] else [m[imports[n]]])
  {
    assert imports[..n + 1][..n] == imports[..n];
  }

  lemma FileTargetsSnoc(m: map<File, nat>, g: Graph, own: seq<File>, files: seq<File>, k: nat)
    requires k < |files|
    ensures FileTargets(m, g, own, files[..k + 1]) == FileTargets(m, g, own, files[..k]) + ImportTargets(m, own, Get(g, files[k]))
  {
    assert files[..k + 1][..k] == files[..k];
  }

  /** Node `x` once the dependencies loop has handled it: the ids of its targets appended, each once. */
  ghost function WithDependencies(ns: seq<Node>, m: map<File, nat>, g: Graph, x: nat): Node
    requires Resolvable(ns, m, g) && x < |ns|
  {
    ns[x].(dependencies := AppendNew(ns[x].dependencies, Ids(ns, Targets(ns, m, g, x))))
  }

  /** The nodes while the dependencies loop is at node `i` and has met the targets `seen` of it. */
  ghost predicate DependenciesAt(ns: seq<Node>, m: map<File, nat>, g: Graph, cur: seq<Node>, i: nat, seen: seq<nat>) {
    && Resolvable(ns, m, g) && |cur| == |ns| && i <= |ns|
    && (forall x :: 0 <= x < i ==> cur[x] == WithDependencies(ns, m, g, x))
    && (forall x :: i < x < |ns| ==> cur[x] == ns[x])
    && (forall k :: 0 <= k < |seen| ==> seen[k] < |ns|)
    && (i < |ns| ==> cur[i] == ns[i].(dependencies := AppendNew(ns[i].dependencies, Ids(ns, seen))))
  }

  /** One import `d` of a file of node `i`: skip it if it is in the node, else append its node's id unless present. */
  lemma DependencyStep(ns: seq<Node>, m: map<File, nat>, g: Graph, cur: seq<Node>, i: nat, seen: seq<nat>,
                       f: File, d: File, cur': seq<Node>)
    requires DependenciesAt(ns, m, g, cur, i, seen) && i < |ns|
    requires f in ns[i].files && d in Get(g, f)
    requires d !in ns[i].files ==> d in m && m[d] < |ns|
    requires cur' == if d in ns[i].files then cur
                     else if cur[m[d]].id in cur[i].dependencies then cur
                     else cur[i := cur[i].(dependencies := cur[i].dependencies + [cur[m[d]].id])]
    ensures DependenciesAt(ns, m, g, cur', i, seen + (if d in ns[i].files || d !in m then [] else [m[d]]))
  {
    if d !in ns[i].files {
      var t := m[d];
      assert cur[t].id == ns[t].id;
      var before := AppendNew(ns[i].dependencies, Ids(ns, seen));
      assert Ids(ns, seen + [t]) == Ids(ns, seen) + [ns[t].id];
      AppendNewConcat(ns[i].dependencies, Ids(ns, seen), [ns[t].id]);
      AppendNewOne(before, ns[t].id);
      DependenciesAtAdd(ns, m, g, cur, i, seen, t, cur');
    } else {
      assert seen + [] == seen;
    }
  }

  /** Node `i` with its list extended as for the targets `seen` and then `t`. */
  lemma DependenciesAtAdd(ns: seq<Node>, m: map<File, nat>, g: Graph, cur: seq<Node>, i: nat, seen: seq<nat>,
                          t: nat, cur': seq<Node>)
    requires DependenciesAt(ns, m, g, cur, i, seen) && i < |ns| && t < |ns|
    requires cur' == cur[i := ns[i].(dependencies := AppendNew(ns[i].dependencies, Ids(ns, seen + [t])))]
    ensures DependenciesAt(ns, m, g, cur', i, seen + [t])
  {
  }

  /** Node `i` is done once the targets met are all of its targets. */
  lemma DependencyNodeDone(ns: seq<Node>, m: map<File, nat>, g: Graph, cur: seq<Node>, i: nat)
    requires i < |ns| && Resolvable(ns, m, g)
    requires DependenciesAt(ns, m, g, cur, i, Targets(ns, m, g, i))
    ensures DependenciesAt(ns, m, g, cur, i + 1, [])
  {
  }

  /**
   * The innermost loop of `makeDependenciesLists`, over the imports of one
   * file `file` of node `i`: the targets met so far grow by the targets of
   * those imports.
   */
  method AddDependenciesOf(nodes: array<Node>, m: map<File, nat>, g: Graph, i: nat, file: File,
                           ghost ns: seq<Node>, ghost seen: seq<nat>)
    modifies nodes
    requires DependenciesAt(ns, m, g, nodes[..], i, seen) && i < |ns|
    requires file in ns[i].files
    ensures DependenciesAt(ns, m, g, nodes[..], i, seen + ImportTargets(m, ns[i].files, Get(g, file)))
  {
    var files := nodes[i].files;
    var imports := Get(g, file);
    assert files == ns[i].files;
    assert seen + ImportTargets(m, files, imports[..0]) == seen;
    for n := 0 to |imports|
      invariant DependenciesAt(ns, m, g, nodes[..], i, seen + ImportTargets(m, files, imports[..n]))
    {
      var dependency := imports[n];
      ghost var cur := nodes[..];
      assert dependency in Get(g, file);
      if dependency !in files {
        var id := nodes[m[dependency]].id;
        if id !in nodes[i].dependencies {
          nodes[i] := nodes[i].(dependencies := nodes[i].dependencies + [id]);
        }
      }
      DependencyStep(ns, m, g, cur, i, seen + ImportTargets(m, files, imports[..n]), file, dependency, nodes[..]);
      ImportTargetsSnoc(m, files, imports, n, seen);
    }
    assert imports[..|imports|] == imports;
  }

  /**
   * `makeDependenciesLists`: every node gets, appended to its list, the ids
   * of the nodes its files import from outside the node, in the order met and
   * each once. Nothing else changes.
   */
  method MakeDependenciesLists(nodes: array<Node>, m: map<File, nat>, g: Graph)
    modifies nodes
    requires Resolvable(nodes[..], m, g)
    ensures forall x :: 0 <= x < nodes.Length ==> nodes[x] == WithDependencies(old(nodes[..]), m, g, x)
  {
    ghost var ns := nodes[..];
    for i := 0 to nodes.Length
      invariant DependenciesAt(ns, m, g, nodes[..], i, [])
    {
      var files := nodes[i].files;
      assert files == ns[i].files;
      for k := 0 to |files|
        invariant DependenciesAt(ns, m, g, nodes[..], i, FileTargets(m, g, files, files[..k]))
      {
        AddDependenciesOf(nodes, m, g, i, files[k], ns, FileTargets(m, g, files, files[..k]));
        FileTargetsSnoc(m, g, files, files, k);
      }
      assert files[..|files|] == files;
      DependencyNodeDone(ns, m, g, nodes[..], i);
    }
  }

  /**
   * The ids of the nodes among the first `n` that import into node `t`, in
   * node order.
   */
  ghost function Sources(ns: seq<Node>, m: map<File, nat>, g: Graph, t: int, n: nat): seq<int>
    requires Resolvable(ns, m, g) && n <= |ns|
  {
    if n == 0 then []
    else Sources(ns, m, g, t, n - 1) + (if t in Targets(ns, m, g, n - 1) then [ns[n - 1].id] else [])
  }

  /** Node `t` once the dependents loop is over: the ids of its sources appended, each once. */
  ghost function WithDependents(ns: seq<Node>, m: map<File, nat>, g: Graph, t: nat): Node
    requires Resolvable(ns, m, g) && t < |ns|
  {
    ns[t].(dependents := AppendNew(ns[t].dependents, Sources(ns, m, g, t, |ns|)))
  }

  /**
   * The nodes while the dependents loop is at node `i` and has met the
   * targets `seen` of it: every node has the ids of its sources before `i`,
   * and `i`'s own id if it is among `seen`.
   */
  ghost predicate DependentsAt(ns: seq<Node>, m: map<File, nat>, g: Graph, cur: seq<Node>, i: nat, seen: seq<nat>) {
    && Resolvable(ns, m, g) && |cur| == |ns| && i <= |ns|
    && (forall k :: 0 <= k < |seen| ==> seen[k] < |ns|)
    && forall t {:trigger cur[t]} :: 0 <= t < |ns| ==>
      cur[t] == ns[t].(dependents := AppendNew(ns[t].dependents,
                                              Sources(ns, m, g, t, i) + (if i < |ns| && t in seen then [ns[i].id] else [])))
  }

  /** One import `d` of a file of node `i`: unless it is in the node, add `i`'s id to its node once. */
  lemma DependentStep(ns: seq<Node>, m: map<File, nat>, g: Graph, cur: seq<Node>, i: nat, seen: seq<nat>,
                      f: File, d: File, cur': seq<Node>)
    requires DependentsAt(ns, m, g, cur, i, seen) && i < |ns|
    requires f in ns[i].files && d in Get(g, f)
    requires d !in ns[i].files ==> d in m && m[d] < |ns|
    requires cur' == if d in ns[i].files then cur
                     else if ns[i].id in cur[m[d]].dependents then cur
                     else cur[m[d] := cur[m[d]].(dependents := cur[m[d]].dependents + [ns[i].id])]
    ensures DependentsAt(ns, m, g, cur', i, seen + (if d in ns[i].files || d !in m then [] else [m[d]]))
  {
    if d !in ns[i].files {
      var t, id := m[d], ns[i].id;
      var sources := Sources(ns, m, g, t, i);
      var v := ns[t].(dependents := AppendNew(ns[t].dependents, sources + [id]));
      if t in seen {
        AppendNewProps(ns[t].dependents, sources + [id]);
        assert id in sources + [id];
        assert cur' == cur;
      } else {
        AppendNewConcat(ns[t].dependents, sources, [id]);
        AppendNewOne(AppendNew(ns[t].dependents, sources), id);
        assert sources + [] == sources;
        assert cur' == cur[t := v];
      }
      DependentsAtAdd(ns, m, g, cur, i, seen, t, cur');
    } else {
      assert seen + [] == seen;
    }
  }

  /** Giving node `t` the id of node `i` extends the targets met by `t`. */
  lemma DependentsAtAdd(ns: seq<Node>, m: map<File, nat>, g: Graph, cur: seq<Node>, i: nat, seen: seq<nat>,
                        t: nat, cur': seq<Node>)
    requires DependentsAt(ns, m, g, cur, i, seen) && i < |ns| && t < |ns|
    requires cur' == cur[t := ns[t].(dependents := AppendNew(ns[t].dependents, Sources(ns, m, g, t, i) + [ns[i].id]))]
    ensures DependentsAt(ns, m, g, cur', i, seen + [t])
  {
    forall t' | 0 <= t' < |ns| && t' != t ensures t' in seen + [t] <==> t' in seen {
    }
  }

  /** Node `i` is done once the targets met are all of its targets. */
  lemma DependentNodeDone(ns: seq<Node>, m: map<File, nat>, g: Graph, cur: seq<Node>, i: nat)
    requires i < |ns| && Resolvable(ns, m, g)
    requires DependentsAt(ns, m, g, cur, i, Targets(ns, m, g, i))
    ensures DependentsAt(ns, m, g, cur, i + 1, [])
  {
    forall t | 0 <= t < |ns|
      ensures Sources(ns, m, g, t, i + 1) + [] ==
              Sources(ns, m, g, t, i) + (if t in Targets(ns, m, g, i) then [ns[i].id] else [])
    {
    }
  }

  /** The dependents loop changes only dependents lists. */
  lemma DependentsAtKeeps(ns: seq<Node>, m: map<File, nat>, g: Graph, cur: seq<Node>, i: nat, seen: seq<nat>, x: nat)
    requires DependentsAt(ns, m, g, cur, i, seen) && x < |ns|
    ensures cur[x].files == ns[x].files && cur[x].id == ns[x].id
  {
  }

  lemma DependentsStart(ns: seq<Node>, m: map<File, nat>, g: Graph)
    requires Resolvable(ns, m, g)
    ensures DependentsAt(ns, m, g, ns, 0, [])
  {
    forall t | 0 <= t < |ns| ensures ns[t] == ns[t].(dependents := AppendNew(ns[t].dependents, Sources(ns, m, g, t, 0) + [])) {
    }
  }

  lemma DependentsEnd(ns: seq<Node>, m: map<File, nat>, g: Graph, cur: seq<Node>)
    requires DependentsAt(ns, m, g, cur, |ns|, [])
    ensures forall t :: 0 <= t < |cur| ==> cur[t] == WithDependents(ns, m, g, t)
  {
    forall t | 0 <= t < |ns| ensures Sources(ns, m, g, t, |ns|) + [] == Sources(ns, m, g, t, |ns|) {
    }
  }

  /** The innermost loop of `makeDependentsLists`, over the imports of one file `file` of node `i`. */
  method AddDependentsOf(nodes: array<Node>, m: map<File, nat>, g: Graph, i: nat, file: File,
                         ghost ns: seq<Node>, ghost seen: seq<nat>)
    modifies nodes
    requires DependentsAt(ns, m, g, nodes[..], i, seen) && i < |ns|
    requires file in ns[i].files
    ensures DependentsAt(ns, m, g, nodes[..], i, seen + ImportTargets(m, ns[i].files, Get(g, file)))
  {
    var files, id := nodes[i].files, nodes[i].id;
    var imports := Get(g, file);
    assert files == ns[i].files && id == ns[i].id;
    assert seen + ImportTargets(m, files, imports[..0]) == seen;
    for n := 0 to |imports|
      invariant DependentsAt(ns, m, g, nodes[..], i, seen + ImportTargets(m, files, imports[..n]))
    {
      var dependency := imports[n];
      ghost var cur := nodes[..];
      assert dependency in Get(g, file);
      if dependency !in files {
        var t := m[dependency];
        if id !in nodes[t].dependents {
          nodes[t] := nodes[t].(dependents := nodes[t].dependents + [id]);
        }
      }
      DependentStep(ns, m, g, cur, i, seen + ImportTargets(m, files, imports[..n]), file, dependency, nodes[..]);
      ImportTargetsSnoc(m, files, imports, n, seen);
    }
    assert imports[..|imports|] == imports;
  }

  /** The loop of `makeDependentsLists` over the files of node `i`. */
  method AddDependentsOfNode(nodes: array<Node>, m: map<File, nat>, g: Graph, i: nat, ghost ns: seq<Node>)
    modifies nodes
    requires DependentsAt(ns, m, g, nodes[..], i, []) && i < |ns|
    ensures DependentsAt(ns, m, g, nodes[..], i + 1, [])
  {
    DependentsAtKeeps(ns, m, g, nodes[..], i, [], i);
    var files := nodes[i].files;
    for k := 0 to |files|
      invariant DependentsAt(ns, m, g, nodes[..], i, FileTargets(m, g, files, files[..k]))
    {
      AddDependentsOf(nodes, m, g, i, files[k], ns, FileTargets(m, g, files, files[..k]));
      FileTargetsSnoc(m, g, files, files, k);
    }
    assert files[..|files|] == files;
    DependentNodeDone(ns, m, g, nodes[..], i);
  }

  /**
   * `makeDependentsLists`: every node gets, appended to its list, the ids of
   * the nodes that import into it from outside themselves, in node order and
   * each once. Nothing else changes.
   */
  method MakeDependentsLists(nodes: array<Node>, m: map<File, nat>, g: Graph)
    modifies nodes
    requires Resolvable(nodes[..], m, g)
    ensures forall t :: 0 <= t < nodes.Length ==> nodes[t] == WithDependents(old(nodes[..]), m, g, t)
  {
    ghost var ns := nodes[..];
    DependentsStart(ns, m, g);
    AddDependentsOfNodes(nodes, m, g, ns);
    DependentsEnd(ns, m, g, nodes[..]);
  }

  /** The outer loop of `makeDependentsLists`, over the nodes. */
  method AddDependentsOfNodes(nodes: array<Node>, m: map<File, nat>, g: Graph, ghost ns: seq<Node>)
    modifies nodes
    requires DependentsAt(ns, m, g, nodes[..], 0, [])
    ensures DependentsAt(ns, m, g, nodes[..], |ns|, [])
  {
    for i := 0 to nodes.Length
      invariant DependentsAt(ns, m, g, nodes[..], i, [])
    {
      AddDependentsOfNode(nodes, m, g, i, ns);
    }
  }

  /** Node `k` imports into node `t` and has id `x`. */
  ghost predicate SourceAt(ns: seq<Node>, m: map<File, nat>, g: Graph, t: int, k: int, x: int) {
    Resolvable(ns, m, g) && 0 <= k < |ns| && t in Targets(ns, m, g, k) && ns[k].id == x
  }

  lemma {:induction false} SourcesMembers(ns: seq<Node>, m: map<File, nat>, g: Graph, t: int, n: nat, x: int)
    requires Resolvable(ns, m, g) && n <= |ns|
    ensures x in Sources(ns, m, g, t, n) <==> exists k :: 0 <= k < n && SourceAt(ns, m, g, t, k, x)
  {
    if n > 0 {
      SourcesMembers(ns, m, g, t, n - 1, x);
      SourcesStep(ns, m, g, t, n, x);
      if SourceAt(ns, m, g, t, n - 1, x) {
        assert 0 <= n - 1 < n;
      } else if x in Sources(ns, m, g, t, n - 1) {
        var k :| 0 <= k < n - 1 && SourceAt(ns, m, g, t, k, x);
        assert 0 <= k < n;
      }
      if k :| 0 <= k < n && SourceAt(ns, m, g, t, k, x) {
        assert k == n - 1 || (0 <= k < n - 1 && SourceAt(ns, m, g, t, k, x));
      }
    }
  }

  /** One node more: its id is added when it imports into node `t`. */
  lemma SourcesStep(ns: seq<Node>, m: map<File, nat>, g: Graph, t: int, n: nat, x: int)
    requires Resolvable(ns, m, g) && 0 < n <= |ns|
    ensures x in Sources(ns, m, g, t, n) <==> x in Sources(ns, m, g, t, n - 1) || SourceAt(ns, m, g, t, n - 1, x)
  {
  }

  /** With ids that are indices, node `i`'s new dependencies list holds exactly its targets, once each. */
  lemma DependenciesListed(ns: seq<Node>, m: map<File, nat>, g: Graph, i: nat, j: int)
    requires Resolvable(ns, m, g) && i < |ns| && ns[i].dependencies == []
    requires forall k :: 0 <= k < |ns| ==> ns[k].id == k
    ensures j in WithDependencies(ns, m, g, i).dependencies <==> j in Targets(ns, m, g, i)
    ensures NoDup(WithDependencies(ns, m, g, i).dependencies)
  {
    var ts := Targets(ns, m, g, i);
    var deps := Ids(ns, ts);
    AppendNewProps([], deps);
    assert NoDup<int>([]);
    if j in deps {
      var k :| 0 <= k < |ts| && deps[k] == j;
      assert ts[k] in ts;
    }
    if j in ts {
      var k :| 0 <= k < |ts| && ts[k] == j;
      assert deps[k] == j;
    }
  }

  /** With ids that are indices, node `j`'s new dependents list holds exactly the nodes targeting it, once each. */
  lemma DependentsListed(ns: seq<Node>, m: map<File, nat>, g: Graph, j: nat, i: nat)
    requires Resolvable(ns, m, g) && i < |ns| && j < |ns| && ns[j].dependents == []
    requires forall k :: 0 <= k < |ns| ==> ns[k].id == k
    ensures i in WithDependents(ns, m, g, j).dependents <==> j in Targets(ns, m, g, i)
    ensures NoDup(WithDependents(ns, m, g, j).dependents)
  {
    var sources := Sources(ns, m, g, j, |ns|);
    AppendNewProps([], sources);
    assert NoDup<int>([]);
    SourcesMembers(ns, m, g, j, |ns|, i);
    if j in Targets(ns, m, g, i) {
      assert SourceAt(ns, m, g, j, i, i);
    }
  }

  /**
   * The two lists mirror each other. Starting from nodes whose ids are their
   * indices and whose lists are empty, after `makeDependenciesLists` and then
   * `makeDependentsLists`, node `j` is among the dependencies of node `i`
   * exactly when node `i` is among the dependents of node `j`, and no list
   * holds an id twice.
   */
  lemma DependencySymmetry(ns: seq<Node>, ns1: seq<Node>, ns2: seq<Node>, m: map<File, nat>, g: Graph, i: nat, j: nat)
    requires Resolvable(ns, m, g) && Resolvable(ns1, m, g) && |ns1| == |ns2| == |ns| && i < |ns| && j < |ns|
    requires forall k :: 0 <= k < |ns| ==> ns[k].id == k && ns[k].dependencies == [] && ns[k].dependents == []
    requires forall x {:trigger ns1[x]} :: 0 <= x < |ns| ==> ns1[x] == WithDependencies(ns, m, g, x)
    requires forall x {:trigger ns2[x]} :: 0 <= x < |ns| ==> ns2[x] == WithDependents(ns1, m, g, x)
    ensures j in ns2[i].dependencies <==> i in ns2[j].dependents
    ensures NoDup(ns2[i].dependencies) && NoDup(ns2[i].dependents)
  {
    SymmetryAt(ns, ns1, m, g, i, j, ns2[i], ns2[j]);
  }

  /** `DependencySymmetry` for the two nodes `a` (node `i`) and `b` (node `j`) after both loops. */
  lemma SymmetryAt(ns: seq<Node>, ns1: seq<Node>, m: map<File, nat>, g: Graph, i: nat, j: nat, a: Node, b: Node)
    requires Resolvable(ns, m, g) && Resolvable(ns1, m, g) && |ns1| == |ns| && i < |ns| && j < |ns|
    requires forall k :: 0 <= k < |ns| ==> ns[k].id == k && ns[k].dependencies == [] && ns[k].dependents == []
    requires forall x {:trigger ns1[x]} :: 0 <= x < |ns| ==> ns1[x] == WithDependencies(ns, m, g, x)
    requires a == WithDependents(ns1, m, g, i) && b == WithDependents(ns1, m, g, j)
    ensures j in a.dependencies <==> i in b.dependents
    ensures NoDup(a.dependencies) && NoDup(a.dependents)
  {
    DependenciesKeep(ns, ns1, m, g);
    var deps := WithDependencies(ns, m, g, i);
    assert ns1[i] == deps;
    assert a.dependencies == deps.dependencies;
    DependenciesListed(ns, m, g, i, j);
    DependentsListed(ns1, m, g, j, i);
    DependentsListed(ns1, m, g, i, i);
    TargetsOfSameFiles(ns, ns1, m, g, i);
  }

  /** The dependencies loop leaves ids, files and dependents lists as they were. */
  lemma DependenciesKeep(ns: seq<Node>, ns1: seq<Node>, m: map<File, nat>, g: Graph)
    requires Resolvable(ns, m, g) && |ns1| == |ns|
    requires forall x {:trigger ns1[x]} :: 0 <= x < |ns| ==> ns1[x] == WithDependencies(ns, m, g, x)
    ensures forall k :: 0 <= k < |ns| ==> ns1[k].id == ns[k].id && ns1[k].files == ns[k].files && ns1[k].dependents == ns[k].dependents
  {
  }

  /** Node `i`'s targets depend only on its files. */
  lemma TargetsOfSameFiles(ns: seq<Node>, ns1: seq<Node>, m: map<File, nat>, g: Graph, i: nat)
    requires Resolvable(ns, m, g) && Resolvable(ns1, m, g) && i < |ns| && i < |ns1| && ns1[i].files == ns[i].files
    ensures Targets(ns1, m, g, i) == Targets(ns, m, g, i)
  {
  }

  /**
   * No node lists itself as a dependency when every file of the map belongs
   * to the node it maps to (as `fileToNodeMap` builds it): the imports from
   * outside a node's files never lead back to the node.
   */
  lemma NoSelfDependency(ns: seq<Node>, m: map<File, nat>, g: Graph, i: nat)
    requires Resolvable(ns, m, g) && i < |ns|
    requires forall k :: 0 <= k < |ns| ==> ns[k].id == k && ns[k].dependencies == []
    requires forall f :: f in m ==> m[f] < |ns| && f in ns[m[f]].files
    ensures i !in WithDependencies(ns, m, g, i).dependencies
  {
    var ts := Targets(ns, m, g, i);
    AppendNewProps([], Ids(ns, ts));
    forall k | 0 <= k < |ts| ensures Ids(ns, ts)[k] != i {
      assert ts[k] in ts;
    }
  }

  /** Which list a depth pass follows and which depth field it fills. */
  datatype Direction = Dependencies | Dependents

  function Edges(n: Node, dir: Direction): seq<int> {
    if dir.Dependencies? then n.dependencies else n.dependents
  }

  function DepthOf(n: Node, dir: Direction): int {
    if dir.Dependencies? then n.dependencyDepth else n.dependentDepth
  }

  function WithDepth(n: Node, dir: Direction, d: int): Node {
    if dir.Dependencies? then n.(dependencyDepth := d) else n.(dependentDepth := d)
  }

  /** The lists of one direction, node by node. */
  function Adjacency(ns: seq<Node>, dir: Direction): seq<seq<int>> {
    seq(|ns|, i requires 0 <= i < |ns| => Edges(ns[i], dir))
  }

  /**
   * `rank` witnesses that the lists of one direction hold no cycle: every
   * listed id is the index of a node of lower rank.
   */
  ghost predicate Ranked(adj: seq<seq<int>>, rank: seq<nat>) {
    && |rank| == |adj|
    && forall i, k :: 0 <= i < |adj| && 0 <= k < |adj[i]| ==> 0 <= adj[i][k] < |adj| && rank[adj[i][k]] < rank[i]
  }

  /**
   * The layer a depth pass puts node `i` in: 0 when it lists no node, else
   * one more than the deepest node it lists.
   */
  ghost function Depth(adj: seq<seq<int>>, rank: seq<nat>, i: nat): nat
    requires Ranked(adj, rank) && i < |adj|
    decreases rank[i], |adj[i]| + 1
  {
    Above(adj, rank, i, |adj[i]|)
  }

  /** One more than the deepest of the first `k` nodes listed by node `i`; 0 for none. */
  ghost function Above(adj: seq<seq<int>>, rank: seq<nat>, i: nat, k: nat): nat
    requires Ranked(adj, rank) && i < |adj| && k <= |adj[i]|
    decreases rank[i], k
  {
    if k == 0 then 0
    else
      var below := 1 + Depth(adj, rank, adj[i][k - 1]);
      var rest := Above(adj, rank, i, k - 1);
      if rest < below then below else rest
  }

  lemma {:induction false} AboveAtMost(adj: seq<seq<int>>, rank: seq<nat>, i: nat, k: nat, d: nat)
    requires Ranked(adj, rank) && i < |adj| && k <= |adj[i]|
    ensures Above(adj, rank, i, k) <= d <==> forall k' :: 0 <= k' < k ==> Depth(adj, rank, adj[i][k']) < d
    decreases k
  {
    if k > 0 {
      AboveAtMost(adj, rank, i, k - 1, d);
    }
  }

  lemma {:induction false} AboveReached(adj: seq<seq<int>>, rank: seq<nat>, i: nat, k: nat)
    requires Ranked(adj, rank) && i < |adj| && 0 < k <= |adj[i]|
    ensures exists k' :: 0 <= k' < k && Above(adj, rank, i, k) == 1 + Depth(adj, rank, adj[i][k'])
    decreases k
  {
    if Above(adj, rank, i, k) == 1 + Depth(adj, rank, adj[i][k - 1]) {
      assert 0 <= k - 1 < k;
    } else {
      assert Above(adj, rank, i, 0) == 0;
      AboveReached(adj, rank, i, k - 1);
    }
  }

  /**
   * The layering: depth 0 exactly for the nodes that list nothing; every
   * listed node is shallower; and some listed node is exactly one shallower.
   */
  lemma DepthLayers(adj: seq<seq<int>>, rank: seq<nat>, i: nat)
    requires Ranked(adj, rank) && i < |adj|
    ensures Depth(adj, rank, i) == 0 <==> adj[i] == []
    ensures forall k :: 0 <= k < |adj[i]| ==> Depth(adj, rank, adj[i][k]) < Depth(adj, rank, i)
    ensures adj[i] != [] ==> exists k :: 0 <= k < |adj[i]| && Depth(adj, rank, i) == 1 + Depth(adj, rank, adj[i][k])
  {
    AboveAtMost(adj, rank, i, |adj[i]|, 0);
    AboveAtMost(adj, rank, i, |adj[i]|, Depth(adj, rank, i));
    if adj[i] != [] {
      AboveReached(adj, rank, i, |adj[i]|);
    }
  }

  /** The depth does not depend on the witness of acyclicity. */
  lemma {:induction false} DepthUnique(adj: seq<seq<int>>, r1: seq<nat>, r2: seq<nat>, i: nat)
    requires Ranked(adj, r1) && Ranked(adj, r2) && i < |adj|
    ensures Depth(adj, r1, i) == Depth(adj, r2, i)
    decreases r1[i], |adj[i]| + 1
  {
    AboveUnique(adj, r1, r2, i, |adj[i]|);
  }

  lemma {:induction false} AboveUnique(adj: seq<seq<int>>, r1: seq<nat>, r2: seq<nat>, i: nat, k: nat)
    requires Ranked(adj, r1) && Ranked(adj, r2) && i < |adj| && k <= |adj[i]|
    ensures Above(adj, r1, i, k) == Above(adj, r2, i, k)
    decreases r1[i], k
  {
    if k > 0 {
      AboveUnique(adj, r1, r2, i, k - 1);
      DepthUnique(adj, r1, r2, adj[i][k - 1]);
    }
  }

  /** The deepest layer among the first `n` nodes. */
  ghost function Deepest(adj: seq<seq<int>>, rank: seq<nat>, n: nat): (r: nat)
    requires Ranked(adj, rank) && n <= |adj|
    ensures forall i :: 0 <= i < n ==> Depth(adj, rank, i) <= r
  {
    if n == 0 then 0
    else
      var r := Deepest(adj, rank, n - 1);
      var d := Depth(adj, rank, n - 1);
      if r < d then d else r
  }

  /** Some node listed by node `x` has no depth of this direction yet. */
  ghost predicate Blocked(ns: seq<Node>, dir: Direction, x: nat)
    requires x < |ns|
  {
    exists k :: 0 <= k < |Edges(ns[x], dir)| && 0 <= Edges(ns[x], dir)[k] < |ns| && DepthOf(ns[Edges(ns[x], dir)[k]], dir) == -1
  }

  /** The test of the `filter`: node `x` stays for a later layer. */
  ghost function Stays(ns: seq<Node>, dir: Direction): nat -> bool {
    (x: nat) => x < |ns| && Blocked(ns, dir, x)
  }

  /** Node `x` leaves for the current layer. */
  ghost function Leaves(ns: seq<Node>, dir: Direction): nat -> bool {
    (x: nat) => x < |ns| && !Blocked(ns, dir, x)
  }

  /** The search loop with the `hasUnprocessed…` flag. */
  method HasUnprocessed(nodes: array<Node>, ids: seq<int>, dir: Direction) returns (r: bool)
    requires forall k :: 0 <= k < |ids| ==> 0 <= ids[k] < nodes.Length
    ensures r <==> exists k :: 0 <= k < |ids| && DepthOf(nodes[ids[k]], dir) == -1
  {
    r := false;
    var k := 0;
    while k < |ids|
      invariant 0 <= k <= |ids|
      invariant forall k' :: 0 <= k' < k ==> DepthOf(nodes[ids[k']], dir) != -1
    {
      if DepthOf(nodes[ids[k]], dir) == -1 {
        r := true;
        break;
      }
      k := k + 1;
    }
  }

  /**
   * The `filter` over the remaining nodes: those with a listed node that has
   * no depth yet stay, in order; the others form the current layer, in order.
   */
  method SplitRemaining(nodes: array<Node>, remaining: seq<nat>, dir: Direction) returns (kept: seq<nat>, layer: seq<nat>)
    requires forall k :: 0 <= k < |remaining| ==> remaining[k] < nodes.Length
    requires forall x, k :: 0 <= x < nodes.Length && 0 <= k < |Edges(nodes[x], dir)| ==> 0 <= Edges(nodes[x], dir)[k] < nodes.Length
    ensures kept == Filter(remaining, Stays(nodes[..], dir))
    ensures layer == Filter(remaining, Leaves(nodes[..], dir))
  {
    ghost var ns := nodes[..];
    ghost var stays, goes := Stays(ns, dir), Leaves(ns, dir);
    kept, layer := [], [];
    for r := 0 to |remaining|
      invariant kept == Filter(remaining[..r], stays)
      invariant layer == Filter(remaining[..r], goes)
    {
      var x := remaining[r];
      var blocked := HasUnprocessed(nodes, Edges(nodes[x], dir), dir);
      FilterPrefixStep(remaining, r, stays);
      FilterPrefixStep(remaining, r, goes);
      if blocked {
        kept := kept + [x];
      } else {
        layer := layer + [x];
      }
    }
    assert remaining[..|remaining|] == remaining;
  }

  /**
   * What the layer loop works from: the nodes before it, none with a depth of
   * the direction yet, a witness of acyclicity, and the layer of every node.
   */
  ghost predicate Layering(ns: seq<Node>, dir: Direction, rank: seq<nat>, depth: seq<nat>) {
    && Ranked(Adjacency(ns, dir), rank) && |depth| == |ns|
    && forall i :: 0 <= i < |ns| ==> DepthOf(ns[i], dir) == -1 && depth[i] == Depth(Adjacency(ns, dir), rank, i)
  }

  /**
   * The nodes at the start of a round of the layer loop, with `remaining`
   * left and current depth `d`: a remaining node is untouched and belongs to
   * layer `d` or deeper; any other node has its depth set and is shallower.
   */
  ghost predicate Layered(ns: seq<Node>, dir: Direction, depth: seq<nat>, cur: seq<Node>, remaining: seq<nat>, d: nat) {
    && |cur| == |ns| == |depth|
    && (forall k :: 0 <= k < |remaining| ==> remaining[k] < |ns|)
    && forall i {:trigger cur[i]} :: 0 <= i < |ns| ==>
      if i in remaining then d <= depth[i] && cur[i] == ns[i]
      else depth[i] < d && cur[i] == WithDepth(ns[i], dir, depth[i])
  }

  /** A remaining node is held back exactly when it belongs to a deeper layer than the current one. */
  lemma LayeredBlocked(ns: seq<Node>, dir: Direction, rank: seq<nat>, depth: seq<nat>, cur: seq<Node>,
                       remaining: seq<nat>, d: nat, x: nat)
    requires Layering(ns, dir, rank, depth) && Layered(ns, dir, depth, cur, remaining, d) && x in remaining
    ensures x < |ns| && d <= depth[x]
    ensures Blocked(cur, dir, x) <==> d < depth[x]
  {
    var adj := Adjacency(ns, dir);
    assert cur[x] == ns[x];
    assert Edges(cur[x], dir) == adj[x];
    forall k | 0 <= k < |adj[x]|
      ensures 0 <= adj[x][k] < |ns|
      ensures DepthOf(cur[adj[x][k]], dir) == -1 <==> d <= Depth(adj, rank, adj[x][k])
    {
      var t := adj[x][k];
      assert depth[t] == Depth(adj, rank, t);
      assert cur[t] == cur[t];
    }
    AboveAtMost(adj, rank, x, |adj[x]|, d);
  }

  /** The `filter` of a round splits the remaining nodes into the deeper ones and the current layer. */
  lemma RoundSplit(ns: seq<Node>, dir: Direction, rank: seq<nat>, depth: seq<nat>, cur: seq<Node>,
                   remaining: seq<nat>, d: nat, kept: seq<nat>, layer: seq<nat>)
    requires Layering(ns, dir, rank, depth) && Layered(ns, dir, depth, cur, remaining, d)
    requires kept == Filter(remaining, Stays(cur, dir)) && layer == Filter(remaining, Leaves(cur, dir))
    ensures forall i :: 0 <= i < |ns| ==> (i in kept <==> i in remaining && d < depth[i])
    ensures forall i :: 0 <= i < |ns| ==> (i in layer <==> i in remaining && d == depth[i])
    ensures forall k :: 0 <= k < |kept| ==> kept[k] < |ns|
    ensures forall k :: 0 <= k < |layer| ==> layer[k] < |ns|
  {
    forall k | 0 <= k < |kept| ensures kept[k] < |ns| {
      assert kept[k] in kept;
    }
    forall k | 0 <= k < |layer| ensures layer[k] < |ns| {
      assert layer[k] in layer;
    }
    forall i | 0 <= i < |ns| && i in remaining ensures d <= depth[i] && (Blocked(cur, dir, i) <==> d < depth[i]) {
      LayeredBlocked(ns, dir, rank, depth, cur, remaining, d, i);
    }
  }

  /** One round of the layer loop: the current layer gets depth `d`. */
  lemma LayeredNext(ns: seq<Node>, dir: Direction, depth: seq<nat>, cur: seq<Node>, remaining: seq<nat>, d: nat,
                    kept: seq<nat>, layer: seq<nat>, cur': seq<Node>)
    requires Layered(ns, dir, depth, cur, remaining, d)
    requires forall i :: 0 <= i < |ns| ==> (i in kept <==> i in remaining && d < depth[i])
    requires forall i :: 0 <= i < |ns| ==> (i in layer <==> i in remaining && d == depth[i])
    requires forall k :: 0 <= k < |kept| ==> kept[k] < |ns|
    requires |cur'| == |cur|
    requires forall i {:trigger cur'[i]} :: 0 <= i < |cur| ==> cur'[i] == if i in layer then WithDepth(cur[i], dir, d) else cur[i]
    ensures Layered(ns, dir, depth, cur', kept, d + 1)
  {
    forall i | 0 <= i < |ns| ensures cur'[i] == cur'[i] {
      assert cur[i] == cur[i];
    }
  }

  /**
   * The layer passes `calculateDependencyDepth` and `calculateDependentDepth`:
   * every node gets as its depth of the direction the layer `Depth` assigns
   * it, and nothing else changes. The pass ends only when the lists hold no
   * cycle; `rank` is the witness of that.
   */
  method CalculateDepth(nodes: array<Node>, dir: Direction, ghost rank: seq<nat>)
    modifies nodes
    requires Ranked(Adjacency(nodes[..], dir), rank)
    requires forall i :: 0 <= i < nodes.Length ==> DepthOf(nodes[i], dir) == -1
    ensures forall i :: 0 <= i < nodes.Length ==>
      nodes[i] == WithDepth(old(nodes[i]), dir, Depth(Adjacency(old(nodes[..]), dir), rank, i))
  {
    ghost var ns := nodes[..];
    ghost var adj := Adjacency(ns, dir);
    ghost var depth := seq(|ns|, i requires 0 <= i < |ns| => Depth(adj, rank, i));
    ghost var deepest := Deepest(adj, rank, |adj|);
    var remaining: seq<nat> := seq(nodes.Length, i requires 0 <= i => i);
    var currentDepth: nat := 0;
    LayeredStart(ns, dir, rank, depth, remaining);
    while |remaining| > 0
      invariant Layered(ns, dir, depth, nodes[..], remaining, currentDepth)
      invariant currentDepth <= deepest + 1
      decreases deepest + 1 - currentDepth
    {
      LayeredBlocked(ns, dir, rank, depth, nodes[..], remaining, currentDepth, remaining[0]);
      LayeredEdges(ns, dir, rank, depth, nodes[..], remaining, currentDepth);
      var kept, layer := SplitRemaining(nodes, remaining, dir);
      RoundSplit(ns, dir, rank, depth, nodes[..], remaining, currentDepth, kept, layer);
      ghost var before := nodes[..];
      AssignLayer(nodes, layer, dir, currentDepth);
      LayeredNext(ns, dir, depth, before, remaining, currentDepth, kept, layer, nodes[..]);
      remaining := kept;
      currentDepth := currentDepth + 1;
    }
    LayeredEnd(ns, dir, rank, depth, nodes[..], currentDepth);
  }

  /** The loop over the nodes at the current depth: each gets depth `d`, nothing else changes. */
  method AssignLayer(nodes: array<Node>, layer: seq<nat>, dir: Direction, d: int)
    modifies nodes
    requires forall k :: 0 <= k < |layer| ==> layer[k] < nodes.Length
    ensures forall i {:trigger nodes[i]} :: 0 <= i < nodes.Length ==>
      nodes[i] == if i in layer then WithDepth(old(nodes[i]), dir, d) else old(nodes[i])
  {
    ghost var before := nodes[..];
    for a := 0 to |layer|
      invariant forall i {:trigger nodes[i]} :: 0 <= i < nodes.Length ==>
        nodes[i] == if i in layer[..a] then WithDepth(before[i], dir, d) else before[i]
    {
      nodes[layer[a]] := WithDepth(nodes[layer[a]], dir, d);
      assert layer[..a + 1] == layer[..a] + [layer[a]];
    }
    assert layer[..|layer|] == layer;
  }

  lemma LayeredStart(ns: seq<Node>, dir: Direction, rank: seq<nat>, depth: seq<nat>, all: seq<nat>)
    requires Ranked(Adjacency(ns, dir), rank) && |all| == |ns| && |depth| == |ns|
    requires forall i :: 0 <= i < |ns| ==> DepthOf(ns[i], dir) == -1 && all[i] == i
    requires forall i :: 0 <= i < |ns| ==> depth[i] == Depth(Adjacency(ns, dir), rank, i)
    ensures Layering(ns, dir, rank, depth) && Layered(ns, dir, depth, ns, all, 0)
  {
    forall i | 0 <= i < |ns| ensures i in all {
      assert all[i] == i;
    }
  }

  /** While the layer loop runs, the lists still point at nodes, and the current depth is no deeper than any layer. */
  lemma LayeredEdges(ns: seq<Node>, dir: Direction, rank: seq<nat>, depth: seq<nat>, cur: seq<Node>, remaining: seq<nat>, d: nat)
    requires Layering(ns, dir, rank, depth) && Layered(ns, dir, depth, cur, remaining, d)
    ensures forall x, k :: 0 <= x < |cur| && 0 <= k < |Edges(cur[x], dir)| ==> 0 <= Edges(cur[x], dir)[k] < |cur|
  {
    forall x | 0 <= x < |cur| ensures Edges(cur[x], dir) == Adjacency(ns, dir)[x] {
      assert cur[x] == cur[x];
    }
  }

  lemma LayeredEnd(ns: seq<Node>, dir: Direction, rank: seq<nat>, depth: seq<nat>, cur: seq<Node>, d: nat)
    requires Layering(ns, dir, rank, depth) && Layered(ns, dir, depth, cur, [], d)
    ensures forall i :: 0 <= i < |cur| ==> cur[i] == WithDepth(ns[i], dir, Depth(Adjacency(ns, dir), rank, i))
  {
    forall i | 0 <= i < |cur| ensures cur[i] == WithDepth(ns[i], dir, depth[i]) {
      assert i !in [];
    }
  }

  /**
   * `calculateDependencyDepth`: the layer over the dependencies lists; only
   * `dependencyDepth` changes.
   */
  method CalculateDependencyDepth(nodes: array<Node>, ghost rank: seq<nat>)
    modifies nodes
    requires Ranked(Adjacency(nodes[..], Dependencies), rank)
    requires forall i :: 0 <= i < nodes.Length ==> nodes[i].dependencyDepth == -1
    ensures forall i :: 0 <= i < nodes.Length ==>
      nodes[i] == old(nodes[i]).(dependencyDepth := Depth(Adjacency(old(nodes[..]), Dependencies), rank, i))
  {
    CalculateDepth(nodes, Dependencies, rank);
  }

  /**
   * `calculateDependentDepth`: the layer over the dependents lists; only
   * `dependentDepth` changes.
   */
  method CalculateDependentDepth(nodes: array<Node>, ghost rank: seq<nat>)
    modifies nodes
    requires Ranked(Adjacency(nodes[..], Dependents), rank)
    requires forall i :: 0 <= i < nodes.Length ==> nodes[i].dependentDepth == -1
    ensures forall i :: 0 <= i < nodes.Length ==>
      nodes[i] == old(nodes[i]).(dependentDepth := Depth(Adjacency(old(nodes[..]), Dependents), rank, i))
  {
    CalculateDepth(nodes, Dependents, rank);
  }
}
