/**
 * The auto-add driver: repeatedly tries every eligible file with the error
 * counter and adds the ones that type-check cleanly to the configuration.
 *
 * The configuration file is read and written as JSON; here it is the record
 * of the two keys `addFileToConfig` edits. Paths relative to the source root
 * and absolute paths are not told apart. The error counter is a parameter:
 * `errorCountOf(c, f)` is the count it reports for `f` in a session started
 * on configuration `c`.
 */
module AutoAdd {
  import opened Wrappers
  import opened Seqs
  import opened Strings
  import opened ImportGraph
  import opened Eligibility

  /** The `files` and `exclude` keys of the configuration; `exclude` may be absent. */
  datatype Config = Config(files: seq<string>, exclude: Option<seq<string>>)

  predicate Excluded(config: Config, path: string) {
    config.exclude.Some? && path in config.exclude.value
  }

  /** How often `path` is listed under `exclude`. */
  function ExcludeCount(config: Config, path: string): nat {
    if config.exclude.None? then 0 else multiset(config.exclude.value)[path]
  }

  /**
   * `addFileToConfig`: an excluded path loses its first `exclude` entry and
   * `files` stays as it is; any other path is added to `files`, which ends up
   * sorted, and `exclude` stays as it is.
   */
  function AddFileToConfig(config: Config, path: string): (r: Config)
    ensures Excluded(config, path) ==>
      && r.files == config.files && r.exclude.Some?
      && ExcludeCount(r, path) + 1 == ExcludeCount(config, path)
      && exists i :: 0 <= i < |config.exclude.value| && config.exclude.value[i] == path
                     && path !in config.exclude.value[..i]
                     && r.exclude.value == config.exclude.value[..i] + config.exclude.value[i + 1..]
    ensures !Excluded(config, path) ==>
      && r.exclude == config.exclude
      && multiset(r.files) == multiset(config.files) + multiset{path}
      && SortedBy(r.files, StringLe)
  {
    var excludeIndex := if config.exclude.Some? then IndexOf(config.exclude.value, path) else -1;
    if excludeIndex >= 0 then
      var ex := config.exclude.value;
      var r := config.(exclude := Some(ex[..excludeIndex] + ex[excludeIndex + 1..]));
      RemoveFirstExclude(config, path, excludeIndex, r);
      r
    else
      StringLeIsTotalPreorder();
      config.(files := SortBy(config.files + [path], StringLe))
  }

  /** Dropping the first `exclude` entry equal to `path`, at `i`. */
  lemma RemoveFirstExclude(config: Config, path: string, i: nat, r: Config)
    requires config.exclude.Some? && i < |config.exclude.value| && config.exclude.value[i] == path
    requires path !in config.exclude.value[..i]
    requires r == config.(exclude := Some(config.exclude.value[..i] + config.exclude.value[i + 1..]))
    ensures r.files == config.files && r.exclude.Some?
    ensures ExcludeCount(r, path) + 1 == ExcludeCount(config, path)
    ensures exists i :: 0 <= i < |config.exclude.value| && config.exclude.value[i] == path
                        && path !in config.exclude.value[..i]
                        && r.exclude.value == config.exclude.value[..i] + config.exclude.value[i + 1..]
  {
    var ex := config.exclude.value;
    assert ex == ex[..i] + [ex[i]] + ex[i + 1..];
  }

  /**
   * After `addFileToConfig` a path that was excluded at most once is no
   * longer excluded, and it is listed in `files` unless it was excluded
   * (removing the exclusion does not list it).
   */
  lemma AddedFileNotExcluded(config: Config, path: string)
    requires ExcludeCount(config, path) <= 1
    ensures !Excluded(AddFileToConfig(config, path), path)
    ensures Excluded(config, path) || path in AddFileToConfig(config, path).files
  {
    var r := AddFileToConfig(config, path);
    if !Excluded(config, path) {
      assert path in multiset(r.files);
    }
  }

  /** `addFileToConfig` applied to the paths in order. */
  function AddAll(config: Config, paths: seq<string>): Config
    decreases |paths|
  {
    if paths == [] then config
    else AddFileToConfig(AddAll(config, paths[..|paths| - 1]), paths[|paths| - 1])
  }

  lemma AddAllSnoc(config: Config, paths: seq<string>, path: string)
    ensures AddAll(config, paths + [path]) == AddFileToConfig(AddAll(config, paths), path)
  {
    assert (paths + [path])[..|paths|] == paths;
  }

  /** With nothing excluded, adding paths lists each of them once more in `files`. */
  lemma {:induction false} AddAllFiles(config: Config, paths: seq<string>)
    requires config.exclude.None?
    ensures AddAll(config, paths).exclude.None?
    ensures multiset(AddAll(config, paths).files) == multiset(config.files) + multiset(paths)
    decreases |paths|
  {
    if paths != [] {
      var init, last := paths[..|paths| - 1], paths[|paths| - 1];
      AddAllFiles(config, init);
      var c := AddAll(config, init);
      assert !Excluded(c, last);
      assert AddAll(config, paths) == AddFileToConfig(c, last);
      LastSplit(paths);
      assert multiset(paths) == multiset(init) + multiset{last};
    }
  }

  /** The test `errorCount === 0` of a session started on `config`. */
  function Clean(config: Config, errorCountOf: (Config, File) -> nat): File -> bool {
    f => errorCountOf(config, f) == 0
  }

  /** The files of a pass whose count is 0, in order. */
  function Passing(config: Config, eligibleFiles: seq<File>, errorCountOf: (Config, File) -> nat): seq<File> {
    Filter(eligibleFiles, Clean(config, errorCountOf))
  }

  /** The loop variables of `tryAutoAddStrictNulls`. */
  datatype State = State(config: Config, checkedFiles: seq<File>, hasAddedFile: bool)

  /**
   * What one pass over `eligibleFiles` leaves: the passing files added to the
   * configuration in order, every eligible file appended to `checkedFiles`,
   * and `hasAddedFile` set iff some file passed.
   */
  function Pass(s: State, eligibleFiles: seq<File>, errorCountOf: (Config, File) -> nat): State {
    var passing := Passing(s.config, eligibleFiles, errorCountOf);
    State(AddAll(s.config, passing), s.checkedFiles + eligibleFiles, passing != [])
  }

  /** A pass adds a file exactly when the counter reports 0 for one of the eligible files. */
  lemma PassAddsIffSomeClean(s: State, eligibleFiles: seq<File>, errorCountOf: (Config, File) -> nat)
    ensures Pass(s, eligibleFiles, errorCountOf).hasAddedFile <==>
      exists i :: 0 <= i < |eligibleFiles| && errorCountOf(s.config, eligibleFiles[i]) == 0
  {
    var passing := Passing(s.config, eligibleFiles, errorCountOf);
    if i :| 0 <= i < |eligibleFiles| && errorCountOf(s.config, eligibleFiles[i]) == 0 {
      assert eligibleFiles[i] in passing;
    }
    if passing != [] {
      assert passing[0] in passing;
    }
  }

  /**
   * The body of the `while (hasAddedFile)` loop once the eligible files are
   * known: try each in order, add it when its count is 0, and record it as
   * checked either way.
   */
  method AutoAddPass(config: Config, eligibleFiles: seq<File>, checkedFiles: seq<File>,
                     errorCountOf: (Config, File) -> nat)
    returns (config': Config, checkedFiles': seq<File>, hasAddedFile: bool)
    ensures State(config', checkedFiles', hasAddedFile) == Pass(State(config, checkedFiles, false), eligibleFiles, errorCountOf)
  {
    hasAddedFile := false;
    config', checkedFiles' := config, checkedFiles;
    ghost var clean := Clean(config, errorCountOf);
    ghost var passed: seq<File> := [];
    for i := 0 to |eligibleFiles|
      invariant passed == Filter(eligibleFiles[..i], clean)
      invariant config' == AddAll(config, passed)
      invariant checkedFiles' == checkedFiles + eligibleFiles[..i]
      invariant hasAddedFile <==> passed != []
    {
      var file := eligibleFiles[i];
      var errorCount := errorCountOf(config, file);
      FilterPrefixStep(eligibleFiles, i, clean);
      PrefixStep(checkedFiles, eligibleFiles, i);
      if errorCount == 0 {
        AddAllSnoc(config, passed, file);
        config' := AddFileToConfig(config', file);
        hasAddedFile := true;
        passed := passed + [file];
      }
      checkedFiles' := checkedFiles' + [file];
    }
    assert eligibleFiles[..|eligibleFiles|] == eligibleFiles;
  }

  /**
   * The `while (hasAddedFile)` loop as written, cut off after `fuel` passes.
   * Every pass takes its eligible files from the configuration's original
   * checked files `fileNames`: the `checkedFiles` argument passed alongside is
   * not a parameter of `listStrictNullCheckEligibleFiles`, and the
   * configuration is not read again.
   */
  function AsWrittenLoop(g: Graph, globbed: seq<File>, fileNames: seq<File>, s: State,
                         errorCountOf: (Config, File) -> nat, fuel: nat): (r: State)
    ensures s.checkedFiles <= r.checkedFiles
    ensures forall f :: f in r.checkedFiles ==>
      f in s.checkedFiles || f in ListStrictNullCheckEligibleFiles(g, globbed, fileNames)
    decreases fuel
  {
    if fuel == 0 || !s.hasAddedFile then s
    else
      var eligibleFiles := ListStrictNullCheckEligibleFiles(g, globbed, fileNames);
      AsWrittenLoop(g, globbed, fileNames, Pass(s, eligibleFiles, errorCountOf), errorCountOf, fuel - 1)
  }

  /** `n` copies of the one-file project's only file. */
  function Copies(n: nat): seq<File> {
    seq(n, _ => "a.ts")
  }

  /** Adding the file once more to a configuration listing it `k` times. */
  lemma AddAnotherCopy(k: nat)
    ensures AddFileToConfig(Config(Copies(k), None), "a.ts") == Config(Copies(k + 1), None)
  {
    var r := AddFileToConfig(Config(Copies(k), None), "a.ts");
    assert Copies(k) + ["a.ts"] == Copies(k + 1);
    assert multiset(r.files) == multiset(Copies(k + 1));
    OnlyCopies(r.files, k + 1);
  }

  /** A list with the elements of `Copies(k)` is `Copies(k)`. */
  lemma OnlyCopies(s: seq<File>, k: nat)
    requires multiset(s) == multiset(Copies(k))
    ensures s == Copies(k)
  {
    assert |s| == |multiset(s)| == k;
    forall i | 0 <= i < |s| ensures s[i] == "a.ts" {
      assert s[i] in multiset(Copies(k));
    }
  }

  /** In the one-file project the file is eligible on every pass. */
  lemma OneFileEligible()
    ensures ListStrictNullCheckEligibleFiles(map["a.ts" := []], ["a.ts"], []) == ["a.ts"]
  {
    assert ConsiderFile("a.ts") by {
      assert "a.ts"[|"a.ts"| - |".ts"|..] == ".ts";
    }
    assert Get(map["a.ts" := []], "a.ts") == [];
    assert ["a.ts"][1..] == [];
  }

  /** The error counter for a file that type-checks cleanly in every session. */
  function NoErrors(config: Config, file: File): nat {
    0
  }

  /** The loop variables after the one-file project's file was added `k` times. */
  function Repeated(k: nat): State {
    State(Config(Copies(k), None), Copies(k), true)
  }

  /** One pass over the one file, which the counter passes, adds it once more. */
  lemma OneFilePass(k: nat, errorCountOf: (Config, File) -> nat)
    requires errorCountOf(Config(Copies(k), None), "a.ts") == 0
    ensures Pass(Repeated(k), ["a.ts"], errorCountOf) == Repeated(k + 1)
  {
    AddAnotherCopy(k);
    assert Passing(Config(Copies(k), None), ["a.ts"], errorCountOf) == ["a.ts"] by {
      var clean := Clean(Config(Copies(k), None), errorCountOf);
      assert clean("a.ts");
      assert ["a.ts"][1..] == [];
      assert Filter([], clean) == [];
    }
    assert ["a.ts"][..0] == [];
    assert Copies(k) + ["a.ts"] == Copies(k + 1);
  }

  /** A pass of the loop as written that is still due. */
  lemma AsWrittenStep(g: Graph, globbed: seq<File>, fileNames: seq<File>, s: State,
                      errorCountOf: (Config, File) -> nat, fuel: nat)
    requires fuel > 0 && s.hasAddedFile
    ensures AsWrittenLoop(g, globbed, fileNames, s, errorCountOf, fuel)
         == AsWrittenLoop(g, globbed, fileNames, Pass(s, ListStrictNullCheckEligibleFiles(g, globbed, fileNames), errorCountOf),
                          errorCountOf, fuel - 1)
  {
  }

  /**
   * While the only eligible file is one the counter always passes, every pass
   * of the loop as written adds it once more: `n` passes after it was added
   * `k` times, it has been added `m == k + n` times.
   */
  lemma {:induction false} AsWrittenKeepsAdding(g: Graph, globbed: seq<File>, fileNames: seq<File>,
                                                errorCountOf: (Config, File) -> nat, k: nat, n: nat, m: nat)
    requires ListStrictNullCheckEligibleFiles(g, globbed, fileNames) == ["a.ts"]
    requires forall c: Config :: errorCountOf(c, "a.ts") == 0
    requires m == k + n
    ensures AsWrittenLoop(g, globbed, fileNames, Repeated(k), errorCountOf, n) == Repeated(m)
    decreases n
  {
    if n > 0 {
      assert AsWrittenLoop(g, globbed, fileNames, Repeated(k), errorCountOf, n)
          == AsWrittenLoop(g, globbed, fileNames, Repeated(k + 1), errorCountOf, n - 1) by {
        AsWrittenStep(g, globbed, fileNames, Repeated(k), errorCountOf, n);
        OneFilePass(k, errorCountOf);
      }
      AsWrittenKeepsAdding(g, globbed, fileNames, errorCountOf, k + 1, n - 1, m);
    }
  }

  /**
   * The loop as written does not end. In a project with one unchecked file
   * `a.ts` that imports nothing and type-checks cleanly, after any number `n`
   * of passes another pass is still due, and `files` lists `a.ts` `n` times.
   */
  lemma AsWrittenNeverStops(n: nat)
    ensures var s := AsWrittenLoop(map["a.ts" := []], ["a.ts"], [], State(Config([], None), [], true), NoErrors, n);
      s.hasAddedFile && s.config.files == Copies(n)
  {
    assert Copies(0) == [];
    OneFileEligible();
    AsWrittenKeepsAdding(map["a.ts" := []], ["a.ts"], [], NoErrors, 0, n, n);
  }

  /** `addFileToConfig` of some paths and then of some more is `addFileToConfig` of them all. */
  lemma {:induction false} AddAllConcat(config: Config, paths: seq<string>, more: seq<string>)
    ensures AddAll(AddAll(config, paths), more) == AddAll(config, paths + more)
    decreases |more|
  {
    if more == [] {
      assert paths + more == paths;
    } else {
      var init, last := more[..|more| - 1], more[|more| - 1];
      calc {
        AddAll(AddAll(config, paths), more);
        AddFileToConfig(AddAll(AddAll(config, paths), init), last);
        { AddAllConcat(config, paths, init); }
        AddFileToConfig(AddAll(config, paths + init), last);
        { AddAllSnoc(config, paths + init, last); ConcatSnoc(paths, more); }
        AddAll(config, paths + more);
      }
    }
  }

  /*
   * The loop as evidently intended: every pass asks for the files whose
   * imports are all checked by the configuration as it now stands (the
   * original checked files `fileNames` and the files added since), and
   * leaves out the files already tried (`checkedFiles`).
   */

  /** The files not tried yet. */
  function Untried(checkedFiles: seq<File>): File -> bool {
    f => f !in checkedFiles
  }

  /**
   * `strictFiles` is `fileNames` followed by added files, each a source file
   * the walk produced, listed once, all of whose imports were checked before it.
   */
  ghost predicate AddedInOrder(g: Graph, globbed: seq<File>, fileNames: seq<File>, strictFiles: seq<File>) {
    && |fileNames| <= |strictFiles| && strictFiles[..|fileNames|] == fileNames
    && forall i :: |fileNames| <= i < |strictFiles| ==>
         && strictFiles[i] in globbed && ConsiderFile(strictFiles[i]) && strictFiles[i] !in strictFiles[..i]
         && forall imp :: imp in Get(g, strictFiles[i]) ==> imp in strictFiles[..i]
  }

  /** No file is eligible against `strictFiles` that has not been tried. */
  ghost predicate NothingLeft(g: Graph, globbed: seq<File>, strictFiles: seq<File>, checkedFiles: seq<File>) {
    forall f ::
      (f in globbed && ConsiderFile(f) && f !in strictFiles && forall imp :: imp in Get(g, f) ==> imp in strictFiles)
      ==> f in checkedFiles
  }

  /** The files of the walk not tried yet: what bounds the number of passes. */
  ghost function Remaining(globbed: seq<File>, checkedFiles: seq<File>): set<File> {
    set f | f in globbed && f !in checkedFiles
  }

  /** The loop invariant of the intended loop. */
  ghost predicate Progress(g: Graph, globbed: seq<File>, fileNames: seq<File>, config: Config,
                           config': Config, strictFiles: seq<File>) {
    && AddedInOrder(g, globbed, fileNames, strictFiles)
    && config' == AddAll(config, strictFiles[|fileNames|..])
  }

  /** Files eligible against `strictFiles` may follow it. */
  lemma AddedInOrderExtend(g: Graph, globbed: seq<File>, fileNames: seq<File>, strictFiles: seq<File>, added: seq<File>)
    requires AddedInOrder(g, globbed, fileNames, strictFiles)
    requires forall f :: f in added ==> f in ListStrictNullCheckEligibleFiles(g, globbed, strictFiles)
    requires NoDup(added)
    ensures AddedInOrder(g, globbed, fileNames, strictFiles + added)
  {
    var strict' := strictFiles + added;
    assert strict'[..|fileNames|] == fileNames;
    forall i | |fileNames| <= i < |strict'|
      ensures strict'[i] in globbed && ConsiderFile(strict'[i]) && strict'[i] !in strict'[..i]
      ensures forall imp :: imp in Get(g, strict'[i]) ==> imp in strict'[..i]
    {
      if i >= |strictFiles| {
        var k := i - |strictFiles|;
        assert strict'[i] == added[k] && added[k] in added;
        assert strict'[..i] == strictFiles + added[..k];
        assert added[k] !in added[..k];
      } else {
        assert strict'[..i] == strictFiles[..i];
      }
    }
  }

  /** A pass of the intended loop keeps its invariant. */
  lemma IntendedStepKeeps(g: Graph, globbed: seq<File>, fileNames: seq<File>, config: Config,
                          errorCountOf: (Config, File) -> nat, config0: Config, strictFiles: seq<File>,
                          checkedFiles: seq<File>, eligibleFiles: seq<File>)
    requires NoDup(globbed)
    requires Progress(g, globbed, fileNames, config, config0, strictFiles)
    requires eligibleFiles == Filter(ListStrictNullCheckEligibleFiles(g, globbed, strictFiles), Untried(checkedFiles))
    ensures Progress(g, globbed, fileNames, config,
                     Pass(State(config0, checkedFiles, false), eligibleFiles, errorCountOf).config,
                     strictFiles + Passing(config0, eligibleFiles, errorCountOf))
  {
    var passing := Passing(config0, eligibleFiles, errorCountOf);
    FilterNoDup(globbed, ConsiderFile);
    FilterNoDup(ForEachFileInSrc(globbed), f => IsEligibleFile(g, strictFiles, f));
    FilterNoDup(ListStrictNullCheckEligibleFiles(g, globbed, strictFiles), Untried(checkedFiles));
    FilterNoDup(eligibleFiles, Clean(config0, errorCountOf));
    AddedInOrderExtend(g, globbed, fileNames, strictFiles, passing);
    DropConcat(strictFiles, passing, |fileNames|);
    AddAllConcat(config, strictFiles[|fileNames|..], passing);
  }

  /** A pass of the intended loop tries every file eligible against `strictFiles`. */
  lemma IntendedStepTries(g: Graph, globbed: seq<File>, strictFiles: seq<File>, config0: Config,
                          errorCountOf: (Config, File) -> nat, checkedFiles: seq<File>, eligibleFiles: seq<File>)
    requires eligibleFiles == Filter(ListStrictNullCheckEligibleFiles(g, globbed, strictFiles), Untried(checkedFiles))
    ensures NothingLeft(g, globbed, strictFiles, Pass(State(config0, checkedFiles, false), eligibleFiles, errorCountOf).checkedFiles)
  {
  }

  /**
   * A pass of the intended loop tries no file twice, so it never adds to the
   * files left to try, and it takes at least one away when it adds a file.
   */
  lemma IntendedStepShrinks(g: Graph, globbed: seq<File>, strictFiles: seq<File>, config0: Config,
                            errorCountOf: (Config, File) -> nat, checkedFiles: seq<File>, eligibleFiles: seq<File>)
    requires eligibleFiles == Filter(ListStrictNullCheckEligibleFiles(g, globbed, strictFiles), Untried(checkedFiles))
    ensures var s := Pass(State(config0, checkedFiles, false), eligibleFiles, errorCountOf);
      && Remaining(globbed, s.checkedFiles) <= Remaining(globbed, checkedFiles)
      && (s.hasAddedFile ==> Remaining(globbed, s.checkedFiles) < Remaining(globbed, checkedFiles))
  {
    var s := Pass(State(config0, checkedFiles, false), eligibleFiles, errorCountOf);
    if s.hasAddedFile {
      var f := Passing(config0, eligibleFiles, errorCountOf)[0];
      assert f in eligibleFiles;
      assert f in Remaining(globbed, checkedFiles) - Remaining(globbed, s.checkedFiles);
    }
  }

  /** The loop variables of the intended loop: those of the source and the files checked so far. */
  datatype Run = Run(vars: State, strictFiles: seq<File>)

  /** The files a pass of the intended loop tries: eligible against `strictFiles` and not tried yet. */
  function Tried(g: Graph, globbed: seq<File>, x: Run): seq<File> {
    Filter(ListStrictNullCheckEligibleFiles(g, globbed, x.strictFiles), Untried(x.vars.checkedFiles))
  }

  /** One pass of the intended loop: `Pass` over its files, and the files it adds become checked. */
  function Step(g: Graph, globbed: seq<File>, errorCountOf: (Config, File) -> nat, x: Run): Run {
    var eligibleFiles := Tried(g, globbed, x);
    Run(Pass(State(x.vars.config, x.vars.checkedFiles, false), eligibleFiles, errorCountOf),
        x.strictFiles + Passing(x.vars.config, eligibleFiles, errorCountOf))
  }

  /** The intended loop: passes until one adds nothing. It ends because no file is tried twice. */
  ghost function IntendedLoop(g: Graph, globbed: seq<File>, errorCountOf: (Config, File) -> nat, x: Run): Run
    decreases Remaining(globbed, x.vars.checkedFiles), if x.vars.hasAddedFile then 1 else 0
  {
    if !x.vars.hasAddedFile then x
    else
      IntendedStepShrinks(g, globbed, x.strictFiles, x.vars.config, errorCountOf, x.vars.checkedFiles, Tried(g, globbed, x));
      IntendedLoop(g, globbed, errorCountOf, Step(g, globbed, errorCountOf, x))
  }

  /** `y` is the state at the start of one of the passes the intended loop makes from `x`. */
  ghost predicate PassOf(g: Graph, globbed: seq<File>, errorCountOf: (Config, File) -> nat, x: Run, y: Run)
    decreases Remaining(globbed, x.vars.checkedFiles), if x.vars.hasAddedFile then 1 else 0
  {
    if !x.vars.hasAddedFile then false
    else if y == x then true
    else
      IntendedStepShrinks(g, globbed, x.strictFiles, x.vars.config, errorCountOf, x.vars.checkedFiles, Tried(g, globbed, x));
      PassOf(g, globbed, errorCountOf, Step(g, globbed, errorCountOf, x), y)
  }

  /** The intended loop adds only files that were not tried when it started, and never forgets a tried file. */
  lemma {:induction false} IntendedAddsUntried(g: Graph, globbed: seq<File>, errorCountOf: (Config, File) -> nat, x: Run)
    ensures forall f :: f in IntendedLoop(g, globbed, errorCountOf, x).strictFiles ==>
      f in x.strictFiles || f !in x.vars.checkedFiles
    ensures forall f :: f in x.vars.checkedFiles ==> f in IntendedLoop(g, globbed, errorCountOf, x).vars.checkedFiles
    ensures forall f :: f in x.strictFiles ==> f in IntendedLoop(g, globbed, errorCountOf, x).strictFiles
    decreases Remaining(globbed, x.vars.checkedFiles), if x.vars.hasAddedFile then 1 else 0
  {
    if x.vars.hasAddedFile {
      IntendedStepShrinks(g, globbed, x.strictFiles, x.vars.config, errorCountOf, x.vars.checkedFiles, Tried(g, globbed, x));
      IntendedAddsUntried(g, globbed, errorCountOf, Step(g, globbed, errorCountOf, x));
    }
  }

  /**
   * Every file the intended loop tries was among the files of exactly the
   * pass that tried it, and it ends up added iff the session that pass
   * started, on the configuration the pass began with, reported 0 for it.
   */
  lemma {:induction false} IntendedVerdicts(g: Graph, globbed: seq<File>, errorCountOf: (Config, File) -> nat,
                                            x: Run, f: File)
    requires f in IntendedLoop(g, globbed, errorCountOf, x).vars.checkedFiles && f !in x.vars.checkedFiles
    ensures exists y :: Verdict(g, globbed, errorCountOf, x, y, f)
    decreases Remaining(globbed, x.vars.checkedFiles), if x.vars.hasAddedFile then 1 else 0
  {
    assert x.vars.hasAddedFile;
    IntendedStepShrinks(g, globbed, x.strictFiles, x.vars.config, errorCountOf, x.vars.checkedFiles, Tried(g, globbed, x));
    var x1 := Step(g, globbed, errorCountOf, x);
    assert IntendedLoop(g, globbed, errorCountOf, x) == IntendedLoop(g, globbed, errorCountOf, x1);
    if f in Tried(g, globbed, x) {
      VerdictHere(g, globbed, errorCountOf, x, f);
    } else {
      IntendedVerdicts(g, globbed, errorCountOf, x1, f);
      var y :| Verdict(g, globbed, errorCountOf, x1, y, f);
      assert PassOf(g, globbed, errorCountOf, x, y);
      assert Verdict(g, globbed, errorCountOf, x, y, f);
    }
  }

  /**
   * `y` starts a pass of the intended loop from `x` that tries `f`, and `f`
   * ends up added iff that pass's session reports 0 for it.
   */
  ghost predicate Verdict(g: Graph, globbed: seq<File>, errorCountOf: (Config, File) -> nat, x: Run, y: Run, f: File) {
    && PassOf(g, globbed, errorCountOf, x, y) && f in Tried(g, globbed, y)
    && (f in IntendedLoop(g, globbed, errorCountOf, x).strictFiles <==> errorCountOf(y.vars.config, f) == 0)
  }

  /** A file the first pass tries gets that pass's verdict. */
  lemma VerdictHere(g: Graph, globbed: seq<File>, errorCountOf: (Config, File) -> nat, x: Run, f: File)
    requires x.vars.hasAddedFile && f in Tried(g, globbed, x)
    ensures Verdict(g, globbed, errorCountOf, x, x, f)
  {
    IntendedStepShrinks(g, globbed, x.strictFiles, x.vars.config, errorCountOf, x.vars.checkedFiles, Tried(g, globbed, x));
    var x1 := Step(g, globbed, errorCountOf, x);
    assert IntendedLoop(g, globbed, errorCountOf, x) == IntendedLoop(g, globbed, errorCountOf, x1);
    IntendedAddsUntried(g, globbed, errorCountOf, x1);
    assert f in x1.vars.checkedFiles;
    assert f !in x.strictFiles;
    assert f in x1.strictFiles <==> errorCountOf(x.vars.config, f) == 0;
  }

  /**
   * Every added file got the count 0 from a session started on the
   * configuration its pass began with: `config` with the files added before
   * that pass.
   */
  ghost predicate AddedClean(fileNames: seq<File>, config: Config, errorCountOf: (Config, File) -> nat,
                             strictFiles: seq<File>) {
    forall i :: |fileNames| <= i < |strictFiles| ==> AddedCleanAt(fileNames, config, errorCountOf, strictFiles, i)
  }

  /** The added file `strictFiles[i]` got the count 0 on the configuration of some earlier moment `j`. */
  ghost predicate AddedCleanAt(fileNames: seq<File>, config: Config, errorCountOf: (Config, File) -> nat,
                               strictFiles: seq<File>, i: int)
    requires |fileNames| <= i < |strictFiles|
  {
    exists j :: |fileNames| <= j <= i && errorCountOf(AddAll(config, strictFiles[|fileNames|..j]), strictFiles[i]) == 0
  }

  /**
   * `checkedFiles` is `fileNames` followed by the tried files. Each was
   * eligible when its pass began, against the checked files of that moment,
   * and it was added iff the session started on the configuration of that
   * moment reported 0 for it.
   */
  ghost predicate TriedFairly(g: Graph, globbed: seq<File>, fileNames: seq<File>, config: Config,
                              errorCountOf: (Config, File) -> nat, strictFiles: seq<File>, checkedFiles: seq<File>) {
    && |fileNames| <= |checkedFiles| && checkedFiles[..|fileNames|] == fileNames
    && forall k :: |fileNames| <= k < |checkedFiles| ==>
         TriedAt(g, globbed, fileNames, config, errorCountOf, strictFiles, checkedFiles[k])
  }

  /**
   * `f` was eligible at some moment `j` of the run, against the checked files
   * of that moment, and it is added iff the count on the configuration of
   * that moment is 0.
   */
  ghost predicate TriedAt(g: Graph, globbed: seq<File>, fileNames: seq<File>, config: Config,
                          errorCountOf: (Config, File) -> nat, strictFiles: seq<File>, f: File) {
    exists j :: && |fileNames| <= j <= |strictFiles|
                && f in ListStrictNullCheckEligibleFiles(g, globbed, strictFiles[..j])
                && (f in strictFiles <==> errorCountOf(AddAll(config, strictFiles[|fileNames|..j]), f) == 0)
  }

  /** A file added before a pass keeps its witness once the pass's files follow it. */
  lemma AddedBefore(fileNames: seq<File>, config: Config, errorCountOf: (Config, File) -> nat,
                    strictFiles: seq<File>, passing: seq<File>, i: nat)
    requires |fileNames| <= i < |strictFiles| && AddedCleanAt(fileNames, config, errorCountOf, strictFiles, i)
    ensures AddedCleanAt(fileNames, config, errorCountOf, strictFiles + passing, i)
  {
    var j :| |fileNames| <= j <= i && errorCountOf(AddAll(config, strictFiles[|fileNames|..j]), strictFiles[i]) == 0;
    SliceConcat(strictFiles, passing, |fileNames|, j);
  }

  /** A file a pass adds got the count 0 on the configuration the pass began with. */
  lemma AddedNow(fileNames: seq<File>, config: Config, errorCountOf: (Config, File) -> nat,
                 strictFiles: seq<File>, config0: Config, eligibleFiles: seq<File>, i: nat)
    requires |fileNames| <= |strictFiles| && config0 == AddAll(config, strictFiles[|fileNames|..])
    requires |strictFiles| <= i < |strictFiles + Passing(config0, eligibleFiles, errorCountOf)|
    ensures AddedCleanAt(fileNames, config, errorCountOf, strictFiles + Passing(config0, eligibleFiles, errorCountOf), i)
  {
    var passing := Passing(config0, eligibleFiles, errorCountOf);
    var strict' := strictFiles + passing;
    assert strict'[|fileNames|..|strictFiles|] == strictFiles[|fileNames|..];
    assert strict'[i] == passing[i - |strictFiles|] && passing[i - |strictFiles|] in passing;
    assert errorCountOf(AddAll(config, strict'[|fileNames|..|strictFiles|]), strict'[i]) == 0;
  }

  /** A pass of the intended loop adds only files its session reports clean. */
  lemma AddedCleanStep(fileNames: seq<File>, config: Config, errorCountOf: (Config, File) -> nat,
                       strictFiles: seq<File>, config0: Config, eligibleFiles: seq<File>)
    requires AddedClean(fileNames, config, errorCountOf, strictFiles)
    requires |fileNames| <= |strictFiles| && config0 == AddAll(config, strictFiles[|fileNames|..])
    ensures AddedClean(fileNames, config, errorCountOf, strictFiles + Passing(config0, eligibleFiles, errorCountOf))
  {
    var passing := Passing(config0, eligibleFiles, errorCountOf);
    forall i | |fileNames| <= i < |strictFiles + passing|
      ensures AddedCleanAt(fileNames, config, errorCountOf, strictFiles + passing, i)
    {
      if i < |strictFiles| {
        AddedBefore(fileNames, config, errorCountOf, strictFiles, passing, i);
      } else {
        AddedNow(fileNames, config, errorCountOf, strictFiles, config0, eligibleFiles, i);
      }
    }
  }

  /** A file tried before a pass keeps its verdict: the pass adds only untried files. */
  lemma TriedBefore(g: Graph, globbed: seq<File>, fileNames: seq<File>, config: Config,
                    errorCountOf: (Config, File) -> nat, strictFiles: seq<File>, passing: seq<File>, f: File)
    requires TriedAt(g, globbed, fileNames, config, errorCountOf, strictFiles, f) && f !in passing
    ensures TriedAt(g, globbed, fileNames, config, errorCountOf, strictFiles + passing, f)
  {
    var j :| && |fileNames| <= j <= |strictFiles|
             && f in ListStrictNullCheckEligibleFiles(g, globbed, strictFiles[..j])
             && (f in strictFiles <==> errorCountOf(AddAll(config, strictFiles[|fileNames|..j]), f) == 0);
    assert (strictFiles + passing)[..j] == strictFiles[..j];
    assert (strictFiles + passing)[|fileNames|..j] == strictFiles[|fileNames|..j];
  }

  /** A file tried in a pass was eligible when it began, and is added iff its session reports 0. */
  lemma TriedNow(g: Graph, globbed: seq<File>, fileNames: seq<File>, config: Config,
                 errorCountOf: (Config, File) -> nat, strictFiles: seq<File>, config0: Config,
                 eligibleFiles: seq<File>, f: File)
    requires |fileNames| <= |strictFiles| && config0 == AddAll(config, strictFiles[|fileNames|..])
    requires f in eligibleFiles && forall x :: x in eligibleFiles ==> x in ListStrictNullCheckEligibleFiles(g, globbed, strictFiles)
    ensures TriedAt(g, globbed, fileNames, config, errorCountOf, strictFiles + Passing(config0, eligibleFiles, errorCountOf), f)
  {
    var strict' := strictFiles + Passing(config0, eligibleFiles, errorCountOf);
    assert strict'[..|strictFiles|] == strictFiles;
    assert strict'[|fileNames|..|strictFiles|] == strictFiles[|fileNames|..];
    assert f in ListStrictNullCheckEligibleFiles(g, globbed, strict'[..|strictFiles|]);
  }

  /** A pass of the intended loop tries only eligible files and adds exactly those its session reports clean. */
  lemma TriedFairlyStep(g: Graph, globbed: seq<File>, fileNames: seq<File>, config: Config,
                        errorCountOf: (Config, File) -> nat, strictFiles: seq<File>, checkedFiles: seq<File>,
                        config0: Config, eligibleFiles: seq<File>)
    requires TriedFairly(g, globbed, fileNames, config, errorCountOf, strictFiles, checkedFiles)
    requires |fileNames| <= |strictFiles| && config0 == AddAll(config, strictFiles[|fileNames|..])
    requires eligibleFiles == Filter(ListStrictNullCheckEligibleFiles(g, globbed, strictFiles), Untried(checkedFiles))
    ensures TriedFairly(g, globbed, fileNames, config, errorCountOf,
                        strictFiles + Passing(config0, eligibleFiles, errorCountOf), checkedFiles + eligibleFiles)
  {
    var passing := Passing(config0, eligibleFiles, errorCountOf);
    var checked' := checkedFiles + eligibleFiles;
    assert checked'[..|fileNames|] == fileNames;
    forall k | |fileNames| <= k < |checked'|
      ensures TriedAt(g, globbed, fileNames, config, errorCountOf, strictFiles + passing, checked'[k])
    {
      if k < |checkedFiles| {
        assert checked'[k] == checkedFiles[k] && checkedFiles[k] in checkedFiles;
        TriedBefore(g, globbed, fileNames, config, errorCountOf, strictFiles, passing, checked'[k]);
      } else {
        assert checked'[k] == eligibleFiles[k - |checkedFiles|] && eligibleFiles[k - |checkedFiles|] in eligibleFiles;
        TriedNow(g, globbed, fileNames, config, errorCountOf, strictFiles, config0, eligibleFiles, checked'[k]);
      }
    }
  }

  /** No file is tried twice, and no file checked from the start is tried. */
  ghost predicate TriedOnce(fileNames: seq<File>, checkedFiles: seq<File>) {
    && |fileNames| <= |checkedFiles| && NoDup(checkedFiles[|fileNames|..])
    && forall f :: f in checkedFiles[|fileNames|..] ==> f !in fileNames
  }

  /** A pass of the intended loop tries each of its files once, none tried before. */
  lemma TriedOnceStep(g: Graph, globbed: seq<File>, fileNames: seq<File>, strictFiles: seq<File>, checkedFiles: seq<File>)
    requires NoDup(globbed) && TriedOnce(fileNames, checkedFiles) && checkedFiles[..|fileNames|] == fileNames
    ensures TriedOnce(fileNames, checkedFiles + Filter(ListStrictNullCheckEligibleFiles(g, globbed, strictFiles), Untried(checkedFiles)))
  {
    var eligibleFiles := Filter(ListStrictNullCheckEligibleFiles(g, globbed, strictFiles), Untried(checkedFiles));
    FilterNoDup(globbed, ConsiderFile);
    FilterNoDup(ForEachFileInSrc(globbed), f => IsEligibleFile(g, strictFiles, f));
    FilterNoDup(ListStrictNullCheckEligibleFiles(g, globbed, strictFiles), Untried(checkedFiles));
    var old' := checkedFiles[|fileNames|..];
    var new' := (checkedFiles + eligibleFiles)[|fileNames|..];
    assert new' == old' + eligibleFiles;
    forall i, j | 0 <= i < j < |new'| ensures new'[i] != new'[j] {
      if j >= |old'| {
        assert new'[j] in eligibleFiles;
        if i < |old'| {
          assert new'[i] in checkedFiles;
        }
      }
    }
    forall f | f in new' ensures f !in fileNames {
      if f in eligibleFiles {
        assert f in checkedFiles[..|fileNames|] ==> f in checkedFiles;
      }
    }
  }

  /**
   * The driver as evidently intended. It starts from the configuration
   * `config` whose checked files are `fileNames`, and ends with the
   * configuration `config'` and the checked files `strictFiles`: the
   * original ones followed by each added file, every one of which imports
   * only files checked before it, and `config'` is `config` with the added
   * files added in that order. When it ends, every file that is eligible
   * against `strictFiles` has been tried. Every added file got the count 0
   * on the configuration its pass began with, and every tried file was
   * eligible when its pass began and was added iff its count there was 0.
   */
  method TryAutoAddStrictNulls(g: Graph, globbed: seq<File>, fileNames: seq<File>, config: Config,
                               errorCountOf: (Config, File) -> nat)
    returns (config': Config, strictFiles: seq<File>, checkedFiles: seq<File>)
    requires NoDup(globbed)
    ensures AddedInOrder(g, globbed, fileNames, strictFiles)
    ensures config' == AddAll(config, strictFiles[|fileNames|..])
    ensures NothingLeft(g, globbed, strictFiles, checkedFiles)
    ensures AddedClean(fileNames, config, errorCountOf, strictFiles)
    ensures TriedFairly(g, globbed, fileNames, config, errorCountOf, strictFiles, checkedFiles)
    ensures TriedOnce(fileNames, checkedFiles)
    ensures Run(State(config', checkedFiles, false), strictFiles)
         == IntendedLoop(g, globbed, errorCountOf, Run(State(config, fileNames, true), fileNames))
  {
    var hasAddedFile := true;
    config', strictFiles, checkedFiles := config, fileNames, fileNames;
    assert strictFiles[|fileNames|..] == [];
    while hasAddedFile
      invariant Progress(g, globbed, fileNames, config, config', strictFiles)
      invariant !hasAddedFile ==> NothingLeft(g, globbed, strictFiles, checkedFiles)
      invariant AddedClean(fileNames, config, errorCountOf, strictFiles)
      invariant TriedFairly(g, globbed, fileNames, config, errorCountOf, strictFiles, checkedFiles)
      invariant TriedOnce(fileNames, checkedFiles)
      invariant IntendedLoop(g, globbed, errorCountOf, Run(State(config', checkedFiles, hasAddedFile), strictFiles))
             == IntendedLoop(g, globbed, errorCountOf, Run(State(config, fileNames, true), fileNames))
      decreases Remaining(globbed, checkedFiles), if hasAddedFile then 1 else 0
    {
      var eligibleFiles := Filter(ListStrictNullCheckEligibleFiles(g, globbed, strictFiles), Untried(checkedFiles));
      var config0, checkedFiles0 := config', checkedFiles;
      config', checkedFiles, hasAddedFile := AutoAddPass(config0, eligibleFiles, checkedFiles0, errorCountOf);
      IntendedStepKeeps(g, globbed, fileNames, config, errorCountOf, config0, strictFiles, checkedFiles0, eligibleFiles);
      IntendedStepTries(g, globbed, strictFiles, config0, errorCountOf, checkedFiles0, eligibleFiles);
      IntendedStepShrinks(g, globbed, strictFiles, config0, errorCountOf, checkedFiles0, eligibleFiles);
      AddedCleanStep(fileNames, config, errorCountOf, strictFiles, config0, eligibleFiles);
      TriedFairlyStep(g, globbed, fileNames, config, errorCountOf, strictFiles, checkedFiles0, config0, eligibleFiles);
      TriedOnceStep(g, globbed, fileNames, strictFiles, checkedFiles0);
      assert Run(State(config', checkedFiles, hasAddedFile), strictFiles + Passing(config0, eligibleFiles, errorCountOf))
          == Step(g, globbed, errorCountOf, Run(State(config0, checkedFiles0, true), strictFiles));
      strictFiles := strictFiles + Passing(config0, eligibleFiles, errorCountOf);
    }
  }
}
