/**
 * Import extraction for one file and its per-file memo.
 *
 * Reading the file and pre-processing it with the TypeScript compiler yields
 * the raw import specifiers, in source order; module resolution maps a
 * specifier to a resolved path or fails. Both are parameters here: `raw` is
 * the specifier list and `resolve` is the resolver for the importing file.
 */
module TsHelper {
  import opened Wrappers
  import opened Seqs
  import opened Strings
  import opened ImportGraph

  /** The extension filters: style sheets, SVG, JSON and JavaScript imports are never followed. */
  predicate KeepSpecifier(s: string) {
    && !EndsWith(s, ".css") && !EndsWith(s, ".svg") && !EndsWith(s, ".json")
    && !EndsWith(s, ".js") && !EndsWith(s, ".jsx")
  }

  /** A resolved location under a vendored or installed package directory. */
  predicate Vendored(loc: File) {
    Contains(loc, "/vendor/") || Contains(loc, "/node_modules/")
  }

  /** The resolver found nothing usable: no result or an empty (falsy) file name. */
  predicate Unresolved(o: Option<File>) {
    o.None? || o.value == ""
  }

  /** `imports` is the returned list; `logged` lists the specifiers reported as not found. */
  datatype Extraction = Extraction(imports: seq<File>, logged: seq<string>)

  /** The specifiers that survive the two `filter` calls, in order. */
  function Specifiers(raw: seq<string>): seq<string> {
    Filter(raw, KeepSpecifier)
  }

  /** One step of the `reduce`: log an unresolved specifier, keep a non-vendored location. */
  function Collect(acc: Extraction, rawImport: string, resolve: string -> Option<File>): Extraction {
    var loc := resolve(rawImport);
    if Unresolved(loc) then acc.(logged := acc.logged + [rawImport])
    else if !Vendored(loc.value) then acc.(imports := acc.imports + [loc.value])
    else acc
  }

  function Reduce(acc: Extraction, specs: seq<string>, resolve: string -> Option<File>): Extraction
    decreases |specs|
  {
    if specs == [] then acc else Reduce(Collect(acc, specs[0], resolve), specs[1..], resolve)
  }

  /**
   * `getImportsForFile` once the file is read and pre-processed. It returns
   * only non-empty locations outside vendored and installed packages, and
   * logs only specifiers that pass the extension filters.
   */
  function GetImportsForFile(raw: seq<string>, resolve: string -> Option<File>): (r: Extraction)
    ensures forall f :: f in r.imports ==> f != "" && !Vendored(f)
    ensures forall s :: s in r.logged ==> s in raw && KeepSpecifier(s)
  {
    ReduceKeeps(Extraction([], []), Specifiers(raw), resolve);
    Reduce(Extraction([], []), Specifiers(raw), resolve)
  }

  /** A reduce adds only usable locations to the imports and only its own specifiers to the log. */
  lemma {:induction false} ReduceKeeps(acc: Extraction, specs: seq<string>, resolve: string -> Option<File>)
    ensures forall f :: f in Reduce(acc, specs, resolve).imports ==> f in acc.imports || (f != "" && !Vendored(f))
    ensures forall s :: s in Reduce(acc, specs, resolve).logged ==> s in acc.logged || s in specs
    decreases |specs|
  {
    if specs != [] {
      ReduceKeeps(Collect(acc, specs[0], resolve), specs[1..], resolve);
    }
  }

  /** The `i`-th specifier yields a returned import. */
  predicate Survives(specs: seq<string>, resolve: string -> Option<File>, i: int)
    requires 0 <= i < |specs|
  {
    !Unresolved(resolve(specs[i])) && !Vendored(resolve(specs[i]).value)
  }

  /** A reduce from any accumulator appends to it what a reduce from the empty one produces. */
  lemma {:induction false} ReduceAppends(acc: Extraction, specs: seq<string>, resolve: string -> Option<File>)
    ensures Reduce(acc, specs, resolve).imports == acc.imports + Reduce(Extraction([], []), specs, resolve).imports
    ensures Reduce(acc, specs, resolve).logged == acc.logged + Reduce(Extraction([], []), specs, resolve).logged
    decreases |specs|
  {
    if specs != [] {
      var e := Extraction([], []);
      ReduceAppends(Collect(acc, specs[0], resolve), specs[1..], resolve);
      ReduceAppends(Collect(e, specs[0], resolve), specs[1..], resolve);
    }
  }

  /**
   * `r` consists of the resolved locations of exactly the surviving
   * specifiers, in source order: `idx` lists the positions of the specifiers
   * that produced its elements, increasing, and misses none that survives.
   */
  ghost predicate Positions(specs: seq<string>, resolve: string -> Option<File>, r: seq<File>, idx: seq<nat>) {
    && |idx| == |r|
    && (forall k :: 0 <= k < |idx| ==> idx[k] < |specs| && Survives(specs, resolve, idx[k])
                                       && r[k] == resolve(specs[idx[k]]).value)
    && (forall k, l :: 0 <= k < l < |idx| ==> idx[k] < idx[l])
    && (forall i {:trigger i in idx} :: 0 <= i < |specs| && Survives(specs, resolve, i) ==> i in idx)
  }

  /** The returned imports keep the source order of the specifiers that produced them. */
  lemma {:induction false} ImportsInOrder(specs: seq<string>, resolve: string -> Option<File>) returns (idx: seq<nat>)
    ensures Positions(specs, resolve, Reduce(Extraction([], []), specs, resolve).imports, idx)
    decreases |specs|
  {
    if specs == [] {
      idx := [];
    } else {
      var e := Extraction([], []);
      var rest := ImportsInOrder(specs[1..], resolve);
      ReduceAppends(Collect(e, specs[0], resolve), specs[1..], resolve);
      idx := PositionsCons(specs, resolve, Reduce(e, specs[1..], resolve).imports, rest);
    }
  }

  lemma PositionsCons(specs: seq<string>, resolve: string -> Option<File>, r: seq<File>, rest: seq<nat>)
    returns (idx: seq<nat>)
    requires specs != [] && Positions(specs[1..], resolve, r, rest)
    ensures Positions(specs, resolve, (if Survives(specs, resolve, 0) then [resolve(specs[0]).value] else []) + r, idx)
  {
    var shifted := Shifted(specs, resolve, r, rest);
    if Survives(specs, resolve, 0) {
      idx := [0] + shifted;
      PositionsPrepend(specs, resolve, r, shifted);
    } else {
      idx := shifted;
      assert Positions(specs, resolve, r, idx);
      assert [] + r == r;
    }
  }

  /** A surviving first specifier goes in front, at position 0. */
  lemma PositionsPrepend(specs: seq<string>, resolve: string -> Option<File>, r: seq<File>, shifted: seq<nat>)
    requires specs != [] && Survives(specs, resolve, 0)
    requires |shifted| == |r|
    requires forall k :: 0 <= k < |shifted| ==> 0 < shifted[k] < |specs| && Survives(specs, resolve, shifted[k])
                                                && r[k] == resolve(specs[shifted[k]]).value
    requires forall k, l :: 0 <= k < l < |shifted| ==> shifted[k] < shifted[l]
    requires forall i :: 0 < i < |specs| && Survives(specs, resolve, i) ==> i in shifted
    ensures Positions(specs, resolve, [resolve(specs[0]).value] + r, [0] + shifted)
  {
    var idx, r' := [0] + shifted, [resolve(specs[0]).value] + r;
    forall k | 0 <= k < |idx|
      ensures idx[k] < |specs| && Survives(specs, resolve, idx[k]) && r'[k] == resolve(specs[idx[k]]).value
    {
      if k > 0 {
        assert idx[k] == shifted[k - 1] && r'[k] == r[k - 1];
      }
    }
  }

  /** The positions of `rest`, counted in `specs` rather than in its tail. */
  lemma Shifted(specs: seq<string>, resolve: string -> Option<File>, r: seq<File>, rest: seq<nat>)
    returns (shifted: seq<nat>)
    requires specs != [] && Positions(specs[1..], resolve, r, rest)
    ensures |shifted| == |r|
    ensures forall k :: 0 <= k < |shifted| ==> 0 < shifted[k] < |specs| && Survives(specs, resolve, shifted[k])
                                               && r[k] == resolve(specs[shifted[k]]).value
    ensures forall k, l :: 0 <= k < l < |shifted| ==> shifted[k] < shifted[l]
    ensures forall i :: 0 < i < |specs| && Survives(specs, resolve, i) ==> i in shifted
  {
    var tail := specs[1..];
    shifted := seq(|rest|, k requires 0 <= k < |rest| => rest[k] + 1);
    forall k | 0 <= k < |rest|
      ensures shifted[k] < |specs| && Survives(specs, resolve, shifted[k])
      ensures r[k] == resolve(specs[shifted[k]]).value
    {
      assert Survives(tail, resolve, rest[k]);
      assert tail[rest[k]] == specs[shifted[k]];
    }
    forall i | 0 < i < |specs| && Survives(specs, resolve, i) ensures i in shifted {
      assert tail[i - 1] == specs[i];
      assert Survives(tail, resolve, i - 1) && i - 1 in rest;
      var k :| 0 <= k < |rest| && rest[k] == i - 1;
      assert shifted[k] == i;
    }
  }

  /** Exactly the specifiers that resolve to nothing are logged, in order. */
  lemma {:induction false} LoggedAreUnresolved(specs: seq<string>, resolve: string -> Option<File>)
    ensures forall s :: s in Reduce(Extraction([], []), specs, resolve).logged <==> s in specs && Unresolved(resolve(s))
    decreases |specs|
  {
    if specs != [] {
      var e := Extraction([], []);
      LoggedAreUnresolved(specs[1..], resolve);
      ReduceAppends(Collect(e, specs[0], resolve), specs[1..], resolve);
      assert specs == [specs[0]] + specs[1..];
    }
  }

  /**
   * The properties of `getImportsForFile`: a file is returned iff some kept
   * specifier resolves to it and it is not vendored; a specifier is logged iff
   * it is kept and does not resolve; no specifier is ever both.
   */
  lemma ExtractionMembers(raw: seq<string>, resolve: string -> Option<File>)
    ensures var r := GetImportsForFile(raw, resolve);
      && (forall x :: x in r.imports <==>
            exists s :: s in raw && KeepSpecifier(s) && resolve(s) == Some(x) && x != "" && !Vendored(x))
      && (forall s :: s in r.logged <==> s in raw && KeepSpecifier(s) && Unresolved(resolve(s)))
  {
    var specs := Specifiers(raw);
    var r := GetImportsForFile(raw, resolve);
    var idx := ImportsInOrder(specs, resolve);
    LoggedAreUnresolved(specs, resolve);
    forall x ensures x in r.imports <==>
        exists s :: s in raw && KeepSpecifier(s) && resolve(s) == Some(x) && x != "" && !Vendored(x)
    {
      if x in r.imports {
        var k :| 0 <= k < |r.imports| && r.imports[k] == x;
        assert Survives(specs, resolve, idx[k]);
        assert specs[idx[k]] in specs;
      }
      if s :| s in raw && KeepSpecifier(s) && resolve(s) == Some(x) && x != "" && !Vendored(x) {
        var i :| 0 <= i < |specs| && specs[i] == s;
        assert Survives(specs, resolve, i) && i in idx;
        var k :| 0 <= k < |idx| && idx[k] == i;
      }
    }
  }

  /**
   * The resolver is only ever consulted on kept specifiers: two resolvers that
   * agree on them give the same result, whatever they do on `.css`, `.svg`,
   * `.json`, `.js` or `.jsx` specifiers.
   */
  lemma {:induction false} OnlyKeptAreResolved(raw: seq<string>, r1: string -> Option<File>, r2: string -> Option<File>)
    requires forall s :: s in raw && KeepSpecifier(s) ==> r1(s) == r2(s)
    ensures GetImportsForFile(raw, r1) == GetImportsForFile(raw, r2)
  {
    ReduceAgrees(Extraction([], []), Specifiers(raw), r1, r2);
  }

  lemma {:induction false} ReduceAgrees(acc: Extraction, specs: seq<string>, r1: string -> Option<File>, r2: string -> Option<File>)
    requires forall s :: s in specs ==> r1(s) == r2(s)
    ensures Reduce(acc, specs, r1) == Reduce(acc, specs, r2)
    decreases |specs|
  {
    if specs != [] {
      assert specs[0] in specs;
      ReduceAgrees(Collect(acc, specs[0], r1), specs[1..], r1, r2);
    }
  }

  /**
   * `ImportTracker`: memoises `getImportsForFile` per file. `raw(f)` stands for
   * pre-processing the (real path of the) file `f` and `resolve(f, s)` for
   * resolving specifier `s` from `f` under the configuration's options.
   */
  class ImportTracker {
    var cache: map<File, seq<File>>
    const raw: File -> seq<string>
    const resolve: (File, string) -> Option<File>

    /** What `getImportsForFile` returns for `f`. */
    function ImportsOf(f: File): seq<File> {
      GetImportsForFile(raw(f), s => resolve(f, s)).imports
    }

    /** Every cache entry is the computed import list of its file. */
    ghost predicate Valid()
      reads this
    {
      forall f :: f in cache ==> cache[f] == ImportsOf(f)
    }

    constructor(raw: File -> seq<string>, resolve: (File, string) -> Option<File>)
      ensures this.raw == raw && this.resolve == resolve
      ensures cache == map[] && Valid()
    {
      this.raw := raw;
      this.resolve := resolve;
      cache := map[];
    }

    /**
     * Returns the cached list when there is one; otherwise computes it and
     * caches it. An existing entry is never overwritten and no other key is
     * added, and the returned list is what the cache holds for `file`
     * afterwards, so a later call with the same file returns it again.
     */
    method GetImports(file: File) returns (r: seq<File>)
      modifies this
      ensures file in old(cache) ==> r == old(cache)[file] && cache == old(cache)
      ensures file !in old(cache) ==> r == ImportsOf(file) && cache == old(cache)[file := r]
      ensures file in cache && cache[file] == r
      ensures old(Valid()) ==> Valid() && r == ImportsOf(file)
    {
      if file in cache {
        r := cache[file];
      } else {
        r := ImportsOf(file);
        cache := cache[file := r];
      }
    }
  }
}
