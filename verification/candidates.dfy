/**
 * The approximate "depended on by" counts used to rank eligible files:
 * widening each file's import list by one level, counting how often each
 * eligible file occurs in the import lists, and ordering the counts.
 *
 * An `Imports` object is a map from file to import list. Its keys are
 * visited in an arbitrary order (`Object.keys`); neither result depends on it.
 */
module Candidates {
  import opened Seqs
  import opened Strings
  import opened ImportGraph

  /** The imports of the keys among `imports`, concatenated in order, duplicates kept. */
  function Nested(m: map<File, seq<File>>, imports: seq<File>): seq<File> {
    if imports == [] then []
    else
      var last := imports[|imports| - 1];
      Nested(m, imports[..|imports| - 1]) + (if last in m then m[last] else [])
  }

  /** `x` is an import of `f`, or an import of one of its imports. */
  ghost predicate OneOrTwoSteps(m: map<File, seq<File>>, f: File, x: File)
    requires f in m
  {
    x in m[f] || exists y :: y in m[f] && y in m && x in m[y]
  }

  /** What `Nested` holds: exactly the imports of the keys among `imports`. */
  lemma {:induction false} NestedMembers(m: map<File, seq<File>>, imports: seq<File>, x: File)
    ensures x in Nested(m, imports) <==> exists y :: y in imports && y in m && x in m[y]
    decreases |imports|
  {
    if imports != [] {
      var init, last := imports[..|imports| - 1], imports[|imports| - 1];
      NestedMembers(m, init, x);
      assert imports == init + [last];
      if y :| y in imports && y in m && x in m[y] {
        assert y == last || y in init;
      }
    }
  }

  /** `Nested` of one more import extends the previous value. */
  lemma NestedSnoc(m: map<File, seq<File>>, imports: seq<File>, i: nat)
    requires i < |imports|
    ensures Nested(m, imports[..i + 1]) == Nested(m, imports[..i]) + (if imports[i] in m then m[imports[i]] else [])
  {
    assert imports[..i + 1][..i] == imports[..i];
  }

  /**
   * `oneLevelDownImports`: every file keeps its key; its new list starts with
   * its direct imports, in order, followed by the imports of each direct
   * import that is a key, in order and with duplicates. Every element is one
   * or two import steps away from the file.
   */
  method OneLevelDownImports(fileToImports: map<File, seq<File>>) returns (out: map<File, seq<File>>)
    ensures out.Keys == fileToImports.Keys
    ensures forall f :: f in out ==> out[f] == fileToImports[f] + Nested(fileToImports, fileToImports[f])
    ensures forall f, x :: f in out && x in out[f] ==> OneOrTwoSteps(fileToImports, f, x)
  {
    out := map[];
    var remaining := fileToImports.Keys;
    while remaining != {}
      invariant remaining <= fileToImports.Keys
      invariant out.Keys == fileToImports.Keys - remaining
      invariant forall f :: f in out ==> out[f] == fileToImports[f] + Nested(fileToImports, fileToImports[f])
      decreases remaining
    {
      var file :| file in remaining;
      var imports := fileToImports[file];
      var nestedImports := imports;
      for i := 0 to |imports|
        invariant nestedImports == imports + Nested(fileToImports, imports[..i])
      {
        var imp := imports[i];
        NestedSnoc(fileToImports, imports, i);
        if imp in fileToImports {
          var inner := fileToImports[imp];
          for j := 0 to |inner|
            invariant nestedImports == imports + Nested(fileToImports, imports[..i]) + inner[..j]
          {
            nestedImports := nestedImports + [inner[j]];
            assert inner[..j + 1] == inner[..j] + [inner[j]];
          }
          assert inner[..|inner|] == inner;
        }
      }
      assert imports[..|imports|] == imports;
      out := out[file := nestedImports];
      remaining := remaining - {file};
    }
    forall f, x | f in out && x in out[f] ensures OneOrTwoSteps(fileToImports, f, x) {
      if x !in fileToImports[f] {
        NestedMembers(fileToImports, fileToImports[f], x);
      }
    }
  }

  /** How many times `f` occurs in the import lists of the files in `keys`. */
  ghost function Total(m: map<File, seq<File>>, keys: set<File>, f: File): nat
    requires keys <= m.Keys
    decreases keys
  {
    if keys == {} then 0
    else
      var k :| k in keys;
      multiset(m[k])[f] + Total(m, keys - {k}, f)
  }

  /** The total does not depend on which key is taken first. */
  lemma {:induction false} TotalRemove(m: map<File, seq<File>>, keys: set<File>, k: File, f: File)
    requires keys <= m.Keys && k in keys
    ensures Total(m, keys, f) == multiset(m[k])[f] + Total(m, keys - {k}, f)
    decreases keys
  {
    var j :| j in keys && Total(m, keys, f) == multiset(m[j])[f] + Total(m, keys - {j}, f);
    if j != k {
      TotalRemove(m, keys - {j}, k, f);
      TotalRemove(m, keys - {k}, j, f);
      assert keys - {j} - {k} == keys - {k} - {j};
    }
  }

  /** A file is counted at all iff it occurs in some import list. */
  lemma {:induction false} TotalPositive(m: map<File, seq<File>>, keys: set<File>, f: File)
    requires keys <= m.Keys
    ensures Total(m, keys, f) > 0 <==> exists k :: k in keys && f in m[k]
    decreases keys
  {
    if keys != {} {
      var k :| k in keys;
      TotalRemove(m, keys, k, f);
      TotalPositive(m, keys - {k}, f);
      if k' :| k' in keys && f in m[k'] {
        assert k' == k || k' in keys - {k};
      }
    }
  }

  /**
   * `countImporters`: one entry per file of `files`, and each entry is the
   * number of occurrences of that file across all import lists. Imports that
   * are not among `files` are not counted anywhere.
   */
  method CountImporters(files: seq<File>, fileToImports: map<File, seq<File>>) returns (counts: map<File, nat>)
    ensures counts.Keys == set f | f in files
    ensures forall f :: f in counts ==> counts[f] == Total(fileToImports, fileToImports.Keys, f)
  {
    counts := map[];
    for i := 0 to |files|
      invariant counts.Keys == set f | f in files[..i]
      invariant forall f :: f in counts ==> counts[f] == 0
    {
      counts := counts[files[i] := 0];
      assert files[..i + 1] == files[..i] + [files[i]];
    }
    assert files[..|files|] == files;
    var remaining := fileToImports.Keys;
    while remaining != {}
      invariant remaining <= fileToImports.Keys
      invariant counts.Keys == set f | f in files
      invariant forall f :: f in counts ==> counts[f] == Total(fileToImports, fileToImports.Keys - remaining, f)
      decreases remaining
    {
      var file :| file in remaining;
      var imports := fileToImports[file];
      ghost var before := counts;
      for i := 0 to |imports|
        invariant counts.Keys == before.Keys
        invariant forall f :: f in counts ==> counts[f] == before[f] + multiset(imports[..i])[f]
      {
        assert imports[..i + 1] == imports[..i] + [imports[i]];
        if imports[i] in counts {
          counts := counts[imports[i] := counts[imports[i]] + 1];
        }
      }
      assert imports[..|imports|] == imports;
      ghost var done := fileToImports.Keys - remaining;
      forall f | f in counts ensures counts[f] == Total(fileToImports, done + {file}, f) {
        TotalRemove(fileToImports, done + {file}, file, f);
        assert done + {file} - {file} == done;
      }
      remaining := remaining - {file};
      assert fileToImports.Keys - remaining == done + {file};
    }
    assert fileToImports.Keys - remaining == fileToImports.Keys;
  }

  /**
   * The comparator of the ranking: higher counts first, equal counts by file
   * name (`localeCompare` read as plain lexicographic order).
   */
  predicate RankLe(a: (File, nat), b: (File, nat)): (r: bool)
    ensures a.1 > b.1 ==> r
    ensures r ==> a.1 >= b.1
    ensures a.1 == b.1 ==> (r <==> StringLe(a.0, b.0))
  {
    a.1 > b.1 || (a.1 == b.1 && StringLe(a.0, b.0))
  }

  lemma RankLeIsTotalPreorder()
    ensures TotalPreorder(RankLe)
  {
    forall a: (File, nat), b: (File, nat) ensures RankLe(a, b) || RankLe(b, a) {
      StringLeTotal(a.0, b.0);
    }
    forall a: (File, nat), b: (File, nat), c: (File, nat) | RankLe(a, b) && RankLe(b, c) ensures RankLe(a, c) {
      if a.1 == b.1 == c.1 {
        StringLeTransitive(a.0, b.0, c.0);
      }
    }
  }

  /** The comparator ties no two different entries. */
  lemma RankLeAntisymmetric(a: (File, nat), b: (File, nat))
    requires RankLe(a, b) && RankLe(b, a)
    ensures a == b
  {
    StringLeAntisymmetric(a.0, b.0);
  }

  /**
   * The `sort` of the count entries: a permutation of them, counts
   * non-increasing, and equal counts in file-name order.
   */
  function Ranked(entries: seq<(File, nat)>): (r: seq<(File, nat)>)
    ensures multiset(r) == multiset(entries)
    ensures forall i, j :: 0 <= i < j < |r| ==> r[i].1 >= r[j].1
    ensures forall i, j :: 0 <= i < j < |r| && r[i].1 == r[j].1 ==> StringLe(r[i].0, r[j].0)
  {
    RankLeIsTotalPreorder();
    var r := SortBy(entries, RankLe);
    assert forall i, j :: 0 <= i < j < |r| ==> RankLe(r[i], r[j]);
    r
  }

  /** The ranking does not depend on the order in which the entries are listed. */
  lemma RankedUnique(e1: seq<(File, nat)>, e2: seq<(File, nat)>)
    requires multiset(e1) == multiset(e2)
    ensures Ranked(e1) == Ranked(e2)
  {
    forall a: (File, nat), b: (File, nat) | RankLe(a, b) && RankLe(b, a) ensures a == b {
      RankLeAntisymmetric(a, b);
    }
    var r1, r2 := Ranked(e1), Ranked(e2);
    RankLeIsTotalPreorder();
    assert SortedBy(r1, RankLe) && SortedBy(r2, RankLe);
    SortedUnique(r1, r2, RankLe);
  }
}
