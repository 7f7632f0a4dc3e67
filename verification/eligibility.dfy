/**
 * Which files and which import cycles can be added to the strict-null-checked
 * set next. `fileNames` is the list of files the configuration already checks;
 * the imports of a file are read from the import graph `g`, which stands for
 * a memo of import extraction (`TsHelper.ImportTracker`) holding every file.
 * The directory walk is a parameter: `globbed` is what the glob pattern
 * matched, in its order.
 */
module Eligibility {
  import opened Seqs
  import opened Strings
  import opened ImportGraph
  import opened FindCycles

  /**
   * TypeScript sources, leaving out Storybook stories: every `.ts` file is
   * kept, and a `.tsx` file unless it is a story.
   */
  predicate ConsiderFile(file: string): (r: bool)
    ensures r <==> EndsWith(file, ".ts") || (EndsWith(file, ".tsx") && !EndsWith(file, ".stories.tsx"))
  {
    NotBothSuffixes(file);
    (EndsWith(file, ".ts") || EndsWith(file, ".tsx")) && !EndsWith(file, ".stories.tsx")
  }

  /** No name ends in both `.ts` and `.stories.tsx`: their last characters differ. */
  lemma NotBothSuffixes(file: string)
    ensures EndsWith(file, ".ts") ==> !EndsWith(file, ".stories.tsx")
  {
    if EndsWith(file, ".ts") && |file| >= 12 {
      assert file[|file| - 3..][2] == 's';
      assert file[|file| - 12..][11] == file[|file| - 1];
    }
  }

  /** The files the directory walk keeps. */
  function ForEachFileInSrc(globbed: seq<File>): (r: seq<File>)
    ensures forall f :: f in r <==> f in globbed && ConsiderFile(f)
    ensures IsSubseq(r, globbed)
  {
    Filter(globbed, ConsiderFile)
  }

  /** The search loop with early return over a file's imports. */
  function HasUncheckedImport(imports: seq<File>, fileNames: seq<File>): (r: bool)
    ensures r <==> exists i :: 0 <= i < |imports| && imports[i] !in fileNames
  {
    if imports == [] then false
    else if imports[0] !in fileNames then true
    else
      var rest := HasUncheckedImport(imports[1..], fileNames);
      assert forall i :: 0 < i < |imports| ==> imports[i] == imports[1..][i - 1];
      rest
  }

  predicate IsEligibleFile(g: Graph, fileNames: seq<File>, file: File) {
    file !in fileNames && !HasUncheckedImport(Get(g, file), fileNames)
  }

  /**
   * The files not yet checked all of whose imports are checked, in the order
   * the walk produced them.
   */
  function ListStrictNullCheckEligibleFiles(g: Graph, globbed: seq<File>, fileNames: seq<File>): (r: seq<File>)
    ensures forall f :: f in r <==>
      && f in globbed && ConsiderFile(f) && f !in fileNames
      && forall i :: 0 <= i < |Get(g, f)| ==> Get(g, f)[i] in fileNames
    ensures IsSubseq(r, ForEachFileInSrc(globbed))
  {
    Filter(ForEachFileInSrc(globbed), f => IsEligibleFile(g, fileNames, f))
  }

  /** The loop with the `cycleIsChecked` flag: every file of the cycle is checked. */
  function CycleIsChecked(filesInCycle: seq<File>, fileNames: seq<File>): (r: bool)
    ensures r <==> forall i :: 0 <= i < |filesInCycle| ==> filesInCycle[i] in fileNames
  {
    if filesInCycle == [] then true
    else if filesInCycle[0] !in fileNames then false
    else
      var rest := CycleIsChecked(filesInCycle[1..], fileNames);
      assert forall i :: 0 < i < |filesInCycle| ==> filesInCycle[i] == filesInCycle[1..][i - 1];
      rest
  }

  /** The loop over all enumerated files: some file anywhere has an unchecked import. */
  function AnyUncheckedImport(g: Graph, files: seq<File>, fileNames: seq<File>): (r: bool)
    ensures r <==> exists i :: 0 <= i < |files| && HasUncheckedImport(Get(g, files[i]), fileNames)
  {
    if files == [] then false
    else if HasUncheckedImport(Get(g, files[0]), fileNames) then true
    else
      var rest := AnyUncheckedImport(g, files[1..], fileNames);
      assert forall i :: 0 < i < |files| ==> files[i] == files[1..][i - 1];
      rest
  }

  predicate IsEligibleCycle(g: Graph, files: seq<File>, fileNames: seq<File>, filesInCycle: seq<File>) {
    && |filesInCycle| > 1
    && !CycleIsChecked(filesInCycle, fileNames)
    && !AnyUncheckedImport(g, files, fileNames)
  }

  /**
   * The filter of `listStrictNullCheckEligibleCycles`: cycles of two or more
   * files, not all checked, and (the gate) only while no enumerated file at
   * all has an unchecked import; when one has, nothing is returned.
   */
  function EligibleCycles(g: Graph, files: seq<File>, fileNames: seq<File>, cycles: seq<seq<File>>): (r: seq<seq<File>>)
    ensures forall c :: c in r <==>
      && c in cycles && |c| >= 2
      && (exists i :: 0 <= i < |c| && c[i] !in fileNames)
      && (forall i :: 0 <= i < |files| ==> !HasUncheckedImport(Get(g, files[i]), fileNames))
    ensures (exists i :: 0 <= i < |files| && HasUncheckedImport(Get(g, files[i]), fileNames)) ==> r == []
    ensures IsSubseq(r, cycles)
  {
    var r := Filter(cycles, c => IsEligibleCycle(g, files, fileNames, c));
    assert r != [] ==> r[0] in r && !AnyUncheckedImport(g, files, fileNames);
    r
  }

  /**
   * A cycle all of whose files are enumerated is never returned: its
   * unchecked file is imported by another file of the same component, which
   * is enumerated and so fails the gate.
   */
  lemma {:induction false} EnumeratedCycleNeverEligible(g: Graph, files: seq<File>, fileNames: seq<File>,
                                                       cycles: seq<seq<File>>, c: seq<File>)
    requires Components(g, cycles) && c in cycles
    requires forall f :: f in c ==> f in files
    ensures c !in EligibleCycles(g, files, fileNames, cycles)
  {
    if c in EligibleCycles(g, files, fileNames, cycles) {
      var ci :| 0 <= ci < |cycles| && cycles[ci] == c;
      var k :| 0 <= k < |c| && c[k] !in fileNames;
      var u, other := c[k], if k == 0 then c[1] else c[0];
      assert other != u by { assert NoDup(c); }
      assert MutuallyReach(g, other, u);
      var x := LastStep(g, other, u);
      ReachesEdge(g, x, u);
      ReachesTrans(g, u, other, x);
      assert MutuallyReach(g, u, x);
    }
  }

  /**
   * `listStrictNullCheckEligibleCycles` as written: the components of the
   * files the walk keeps, filtered with the global gate. Every returned cycle
   * is a set of two or more mutually importing files, not all checked, and
   * holds a file the walk did not produce; nothing is returned while any
   * enumerated file has an unchecked import.
   */
  method AsWrittenEligibleCycles(g: Graph, globbed: seq<File>, fileNames: seq<File>)
    returns (r: seq<seq<File>>)
    requires Closed(g)
    requires forall i :: 0 <= i < |globbed| ==> globbed[i] in g
    ensures forall c :: c in r ==>
      && |c| >= 2 && NoDup(c)
      && (exists i :: 0 <= i < |c| && c[i] !in fileNames)
      && (forall f, f' :: f in c && f' in c ==> MutuallyReach(g, f, f'))
      && (forall f, f' :: f in c && MutuallyReach(g, f, f') ==> f' in c)
      && (exists f :: f in c && f !in ForEachFileInSrc(globbed))
    ensures AnyUncheckedImport(g, ForEachFileInSrc(globbed), fileNames) ==> r == []
  {
    var files := ForEachFileInSrc(globbed);
    assert forall i :: 0 <= i < |files| ==> files[i] in globbed;
    var cycles := FindCycles.FindCycles(g, files);
    r := EligibleCycles(g, files, fileNames, cycles);
    assert Components(g, cycles);
    forall c | c in r
      ensures (forall f, f' :: f in c && f' in c ==> MutuallyReach(g, f, f'))
      ensures (forall f, f' :: f in c && MutuallyReach(g, f, f') ==> f' in c)
      ensures exists f :: f in c && f !in files
    {
      if forall f :: f in c ==> f in files {
        EnumeratedCycleNeverEligible(g, files, fileNames, cycles, c);
      }
    }
  }

  /** The import graph of two files that import each other. */
  function TwoFiles(): Graph {
    map["a.ts" := ["b.ts"], "b.ts" := ["a.ts"]]
  }

  /**
   * The cycle `a.ts` <-> `b.ts`, nothing checked yet, both files enumerated:
   * the filter as written returns nothing, because the gate looks at `a.ts`,
   * whose import `b.ts` is the cycle's own unchecked file.
   */
  lemma TwoFileCycleAsWritten()
    ensures EligibleCycles(TwoFiles(), ["a.ts", "b.ts"], [], [["a.ts", "b.ts"]]) == []
  {
    assert HasUncheckedImport(Get(TwoFiles(), "a.ts"), []) by { assert Get(TwoFiles(), "a.ts")[0] == "b.ts"; }
    assert ["a.ts", "b.ts"][0] == "a.ts";
  }

  /** The corrected filter returns that cycle. */
  lemma TwoFileCycleCorrected()
    ensures IntendedEligibleCycles(TwoFiles(), [], [["a.ts", "b.ts"]]) == [["a.ts", "b.ts"]]
  {
    var c := ["a.ts", "b.ts"];
    assert c[0] !in [];
    forall f, x | f in c && x in Get(TwoFiles(), f) ensures x in c {
      assert f == "a.ts" || f == "b.ts";
    }
    assert [c][0] in IntendedEligibleCycles(TwoFiles(), [], [c]);
  }

  /**
   * Every import of every file of the cycle is checked already or lies in
   * the cycle itself: the cycle is the only thing still in its way.
   */
  predicate ImportsCheckedOrInCycle(g: Graph, fileNames: seq<File>, filesInCycle: seq<File>) {
    forall i :: 0 <= i < |filesInCycle| ==> !HasUncheckedImport(Get(g, filesInCycle[i]), fileNames + filesInCycle)
  }

  predicate IsIntendedEligibleCycle(g: Graph, fileNames: seq<File>, filesInCycle: seq<File>) {
    && |filesInCycle| > 1
    && !CycleIsChecked(filesInCycle, fileNames)
    && ImportsCheckedOrInCycle(g, fileNames, filesInCycle)
  }

  /**
   * The filter the comment at the gate describes: cycles of two or more
   * files, not all checked, whose files import nothing unchecked outside
   * the cycle.
   */
  function IntendedEligibleCycles(g: Graph, fileNames: seq<File>, cycles: seq<seq<File>>): (r: seq<seq<File>>)
    ensures forall c :: c in r <==>
      && c in cycles && |c| >= 2
      && (exists i :: 0 <= i < |c| && c[i] !in fileNames)
      && (forall f, x :: f in c && x in Get(g, f) ==> x in fileNames || x in c)
    ensures IsSubseq(r, cycles)
  {
    var r := Filter(cycles, c => IsIntendedEligibleCycle(g, fileNames, c));
    forall c ensures ImportsCheckedOrInCycle(g, fileNames, c) <==>
                     (forall f, x :: f in c && x in Get(g, f) ==> x in fileNames || x in c) {
      if ImportsCheckedOrInCycle(g, fileNames, c) {
        forall f, x | f in c && x in Get(g, f) ensures x in fileNames || x in c {
          var i :| 0 <= i < |c| && c[i] == f;
          assert !HasUncheckedImport(Get(g, c[i]), fileNames + c);
        }
      }
    }
    r
  }

  /**
   * Once an eligible cycle is added to the checked files, none of its files
   * has an unchecked import: the whole cycle can be checked together.
   */
  lemma IntendedCycleCanBeAdded(g: Graph, fileNames: seq<File>, cycles: seq<seq<File>>, c: seq<File>, f: File)
    requires c in IntendedEligibleCycles(g, fileNames, cycles) && f in c
    ensures f in fileNames + c && !HasUncheckedImport(Get(g, f), fileNames + c)
  {
    forall i | 0 <= i < |Get(g, f)| ensures Get(g, f)[i] in fileNames + c {
      assert Get(g, f)[i] in Get(g, f);
    }
  }

  /**
   * `f` lies on an import cycle (it mutually reaches another file), some file
   * of its component is unchecked, and the files of its component import
   * nothing unchecked outside the component.
   */
  ghost predicate OnEligibleCycle(g: Graph, fileNames: seq<File>, f: File) {
    && (exists f' :: f' != f && MutuallyReach(g, f, f'))
    && (exists x :: MutuallyReach(g, f, x) && x !in fileNames)
    && (forall y, z :: MutuallyReach(g, f, y) && z in Get(g, y) ==> z in fileNames || MutuallyReach(g, f, z))
  }

  /** The component of a file on an eligible cycle passes the corrected filter. */
  lemma OnEligibleCycleIsReturned(g: Graph, fileNames: seq<File>, c: seq<File>, f: File)
    requires f in c && OnEligibleCycle(g, fileNames, f)
    requires forall f1, f2 :: f1 in c && f2 in c ==> MutuallyReach(g, f1, f2)
    requires forall f1, f2 :: f1 in c && MutuallyReach(g, f1, f2) ==> f2 in c
    ensures IsIntendedEligibleCycle(g, fileNames, c)
  {
    var f' :| f' != f && MutuallyReach(g, f, f');
    var i1 :| 0 <= i1 < |c| && c[i1] == f;
    var i2 :| 0 <= i2 < |c| && c[i2] == f';
    assert i1 != i2;
    var x :| MutuallyReach(g, f, x) && x !in fileNames;
    assert x in c;
    forall i | 0 <= i < |c| ensures !HasUncheckedImport(Get(g, c[i]), fileNames + c) {
      forall k | 0 <= k < |Get(g, c[i])| ensures Get(g, c[i])[k] in fileNames + c {
        var z := Get(g, c[i])[k];
        assert MutuallyReach(g, f, c[i]);
        if z !in fileNames {
          assert MutuallyReach(g, f, z);
          assert z in c;
        }
      }
    }
  }

  /** Every file reachable from `files` on an eligible cycle is in one of the cycles the corrected filter keeps. */
  lemma EveryEligibleCycleReturned(g: Graph, files: seq<File>, fileNames: seq<File>, cycles: seq<seq<File>>)
    requires Components(g, cycles)
    requires forall f :: InSomeCycle(cycles, f) <==> ReachableFrom(g, files, f)
    ensures var r := IntendedEligibleCycles(g, fileNames, cycles);
      forall f :: f in files && OnEligibleCycle(g, fileNames, f) ==> exists i :: 0 <= i < |r| && f in r[i]
  {
    var r := IntendedEligibleCycles(g, fileNames, cycles);
    forall f | f in files && OnEligibleCycle(g, fileNames, f) ensures exists i :: 0 <= i < |r| && f in r[i] {
      ReachesRefl(g, f);
      assert ReachableFrom(g, files, f);
      var i :| 0 <= i < |cycles| && f in cycles[i];
      OnEligibleCycleIsReturned(g, fileNames, cycles[i], f);
      assert cycles[i] in r;
      var j :| 0 <= j < |r| && r[j] == cycles[i];
    }
  }

  /**
   * `listStrictNullCheckEligibleCycles`, with the corrected filter: the
   * components reachable from the files the walk keeps that have two or more
   * mutually importing files, not all checked, and no unchecked import
   * outside the component. Every enumerated file on such a cycle is in one
   * of the returned lists.
   */
  method ListStrictNullCheckEligibleCycles(g: Graph, globbed: seq<File>, fileNames: seq<File>)
    returns (r: seq<seq<File>>)
    requires Closed(g)
    requires forall i :: 0 <= i < |globbed| ==> globbed[i] in g
    ensures forall c :: c in r ==>
      && |c| >= 2 && NoDup(c)
      && (exists i :: 0 <= i < |c| && c[i] !in fileNames)
      && (forall f, f' :: f in c && f' in c ==> MutuallyReach(g, f, f'))
      && (forall f, f' :: f in c && MutuallyReach(g, f, f') ==> f' in c)
      && (forall f, x :: f in c && x in Get(g, f) ==> x in fileNames || x in c)
    ensures forall f :: f in ForEachFileInSrc(globbed) && OnEligibleCycle(g, fileNames, f) ==>
      exists i :: 0 <= i < |r| && f in r[i]
  {
    var files := ForEachFileInSrc(globbed);
    assert forall i :: 0 <= i < |files| ==> files[i] in globbed;
    var cycles := FindCycles.FindCycles(g, files);
    r := IntendedEligibleCycles(g, fileNames, cycles);
    EveryEligibleCycleReturned(g, files, fileNames, cycles);
  }
}
