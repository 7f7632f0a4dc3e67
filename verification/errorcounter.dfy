/**
 * The error counter: a TypeScript compiler kept running in watch mode on a
 * copy of the configuration. Each query rewrites the copy with one candidate
 * file added to `files` and reads the compiler's output until it reports
 * how many errors it found.
 *
 * The process is reduced to two flags (spawned, not yet killed), the copy
 * of the configuration file to its parsed content, and the compiler's
 * output after a query to the sequence of text chunks it writes.
 */
module ErrorCounting {
  import opened Wrappers
  import opened Strings

  /** Parsed JSON; numbers are read as integers. */
  datatype Json =
    | JNull
    | JBool(b: bool)
    | JNumber(n: int)
    | JString(s: string)
    | JArray(items: seq<Json>)
    | JObject(members: map<string, Json>)

  /* ---- the completion line ---- */

  /**
   * `pattern` occurs at position `i` of `text`, letters compared without
   * case (the `i` flag: ASCII letters only, since no other character folds
   * onto an ASCII letter).
   */
  predicate MatchesAt(text: string, i: nat, pattern: string) {
    && i + |pattern| <= |text|
    && forall k :: 0 <= k < |pattern| ==> Lower(text[i + k]) == Lower(pattern[k])
  }

  /** The end of the run of decimal digits starting at `i`. */
  function DigitsEnd(text: string, i: nat): (j: nat)
    requires i <= |text|
    ensures i <= j <= |text|
    ensures forall k :: i <= k < j ==> IsDigit(text[k])
    ensures j == |text| || !IsDigit(text[j])
    decreases |text| - i
  {
    if i < |text| && IsDigit(text[i]) then DigitsEnd(text, i + 1) else i
  }

  /** The run of digits ends at the first position that does not hold one. */
  lemma {:induction false} DigitsEndUnique(text: string, i: nat, j: nat)
    requires i <= j <= |text|
    requires forall k :: i <= k < j ==> IsDigit(text[k])
    requires j == |text| || !IsDigit(text[j])
    ensures DigitsEnd(text, i) == j
    decreases j - i
  {
    if i < j {
      DigitsEndUnique(text, i + 1, j);
    }
  }

  /** Where `errors?\.` ends when it matches at `j`: the `s` is taken when a `.` follows it. */
  function ErrorWordEnd(text: string, j: nat): Option<nat> {
    if !MatchesAt(text, j, " error") then None
    else if MatchesAt(text, j + 6, "s.") then Some(j + 8)
    else if MatchesAt(text, j + 6, ".") then Some(j + 7)
    else None
  }

  /**
   * The count captured by `Found (\d+) errors?\. Watching for file changes\.`
   * when the pattern matches starting at position `i`. The digit run is
   * taken whole: a shorter one would be followed by a digit, not a space.
   */
  function MatchAt(text: string, i: nat): Option<nat> {
    if !MatchesAt(text, i, "Found ") then None
    else
      var j := DigitsEnd(text, i + 6);
      if j == i + 6 then None
      else
        match ErrorWordEnd(text, j)
        case None => None
        case Some(k) =>
          if MatchesAt(text, k, " Watching for file changes.") then Some(DigitsValue(text[i + 6..j])) else None
  }

  /**
   * What `hit` reports at the leftmost position from `i` to `n` where it
   * reports something: the left-to-right scan of `exec`.
   */
  function FirstHit(hit: nat -> Option<nat>, i: nat, n: nat): Option<nat>
    decreases n - i
  {
    if hit(i).Some? then hit(i)
    else if i >= n then None
    else FirstHit(hit, i + 1, n)
  }

  lemma {:induction false} FirstHitFinds(hit: nat -> Option<nat>, i: nat, n: nat)
    requires i <= n
    ensures FirstHit(hit, i, n).None? <==> forall p :: i <= p <= n ==> hit(p).None?
    decreases n - i
  {
    if hit(i).None? && i < n {
      FirstHitFinds(hit, i + 1, n);
    }
  }

  lemma {:induction false} FirstHitLeftmost(hit: nat -> Option<nat>, i: nat, p: nat, n: nat)
    requires i <= p <= n && hit(p).Some?
    requires forall q :: i <= q < p ==> hit(q).None?
    ensures FirstHit(hit, i, n) == hit(p)
    decreases p - i
  {
    if i < p {
      FirstHitLeftmost(hit, i + 1, p, n);
    }
  }

  lemma {:induction false} FirstHitAgree(hit: nat -> Option<nat>, hit': nat -> Option<nat>, i: nat, n: nat)
    requires i <= n && forall p :: i <= p <= n ==> hit(p) == hit'(p)
    ensures FirstHit(hit, i, n) == FirstHit(hit', i, n)
    decreases n - i
  {
    if i < n {
      FirstHitAgree(hit, hit', i + 1, n);
    }
  }

  /** The pattern tried at each position of `text`. */
  function Matcher(text: string): nat -> Option<nat> {
    p => MatchAt(text, p)
  }

  /** The count of the leftmost match at or after position `i`. */
  function FindFrom(text: string, i: nat): Option<nat>
    requires i <= |text|
  {
    FirstHit(Matcher(text), i, |text|)
  }

  /** The search finds a match exactly when the pattern matches somewhere at or after `i`. */
  lemma FindFromFinds(text: string, i: nat)
    requires i <= |text|
    ensures FindFrom(text, i).None? <==> forall p :: i <= p <= |text| ==> MatchAt(text, p).None?
  {
    FirstHitFinds(Matcher(text), i, |text|);
    assert forall p :: Matcher(text)(p) == MatchAt(text, p);
  }

  /** What the search finds is the count of the leftmost match. */
  lemma FindFromLeftmost(text: string, i: nat, p: nat)
    requires i <= p <= |text| && MatchAt(text, p).Some?
    requires forall q :: i <= q < p ==> MatchAt(text, q).None?
    ensures FindFrom(text, i) == MatchAt(text, p)
  {
    assert forall q :: Matcher(text)(q) == MatchAt(text, q);
    FirstHitLeftmost(Matcher(text), i, p, |text|);
  }

  /** `buildCompletePattern.exec(textOut)` on one chunk, and `+match[1]`. */
  function CompletionCount(text: string): Option<nat> {
    FindFrom(text, 0)
  }

  /**
   * The listener: chunks that do not match are ignored, and the first one
   * that does resolves the query (the listener then removes itself). `None`
   * is a query that never resolves.
   */
  function FirstCount(chunks: seq<string>): (r: Option<nat>)
    decreases |chunks|
  {
    if chunks == [] then None
    else if CompletionCount(chunks[0]).Some? then CompletionCount(chunks[0])
    else FirstCount(chunks[1..])
  }

  /** Chunk `i` reports a count and no chunk before it reports one. */
  ghost predicate FirstReport(chunks: seq<string>, i: nat) {
    && i < |chunks| && CompletionCount(chunks[i]).Some?
    && forall j :: 0 <= j < i ==> CompletionCount(chunks[j]).None?
  }

  /** The first chunk that reports a count resolves the query with it. */
  lemma {:induction false} FirstReportResolves(chunks: seq<string>, i: nat)
    requires FirstReport(chunks, i)
    ensures FirstCount(chunks) == CompletionCount(chunks[i])
    decreases i
  {
    if i > 0 {
      assert CompletionCount(chunks[0]).None?;
      var rest := chunks[1..];
      assert rest[i - 1] == chunks[i];
      assert forall j :: 0 <= j < i - 1 ==> rest[j] == chunks[j + 1];
      FirstReportResolves(rest, i - 1);
    }
  }

  /** A resolved query was resolved by the first chunk that reports a count. */
  lemma {:induction false} ResolvedByFirstReport(chunks: seq<string>)
    requires FirstCount(chunks).Some?
    ensures exists i: nat :: FirstReport(chunks, i) && CompletionCount(chunks[i]) == FirstCount(chunks)
    decreases |chunks|
  {
    if CompletionCount(chunks[0]).Some? {
      assert FirstReport(chunks, 0);
    } else {
      var rest := chunks[1..];
      ResolvedByFirstReport(rest);
      var i: nat :| FirstReport(rest, i) && CompletionCount(rest[i]) == FirstCount(rest);
      assert forall j :: 0 < j <= i ==> chunks[j] == rest[j - 1];
      assert FirstReport(chunks, i + 1);
    }
  }

  /** A query whose output holds no report never resolves. */
  lemma {:induction false} NoReportNeverResolves(chunks: seq<string>)
    requires forall i :: 0 <= i < |chunks| ==> CompletionCount(chunks[i]).None?
    ensures FirstCount(chunks) == None
    decreases |chunks|
  {
    if chunks != [] {
      assert forall i :: 0 <= i < |chunks[1..]| ==> chunks[1..][i] == chunks[i + 1];
      NoReportNeverResolves(chunks[1..]);
    }
  }

  /** The error word of the completion line, singular for one error. */
  function ErrorWord(n: nat): string {
    if n == 1 then " error." else " errors."
  }

  /** The line the compiler prints when a watch-mode build completes with `n` errors. */
  function CompletionLine(n: nat): string {
    "Found " + DecimalString(n) + ErrorWord(n) + " Watching for file changes."
  }

  lemma MatchesAtConcat(a: string, w: string, b: string)
    ensures MatchesAt(a + w + b, |a|, w)
  {
    assert forall k :: 0 <= k < |w| ==> (a + w + b)[|a| + k] == w[k];
  }

  /** The digit run of the line ends right after the numeral. */
  lemma CompletionDigits(n: nat)
    ensures DigitsEnd(CompletionLine(n), 6) == 6 + |DecimalString(n)|
    ensures CompletionLine(n)[6..6 + |DecimalString(n)|] == DecimalString(n)
  {
    var d := DecimalString(n);
    var line := CompletionLine(n);
    forall k | 0 <= k < |d| ensures line[6 + k] == d[k] {
    }
    assert line[6 + |d|] == ErrorWord(n)[0] == ' ';
    assert line[6..6 + |d|] == d;
    DigitsEndUnique(line, 6, 6 + |d|);
  }

  /** The line starts with `Found `. */
  lemma CompletionHead(n: nat)
    ensures MatchesAt(CompletionLine(n), 0, "Found ")
  {
    var line := CompletionLine(n);
    forall k | 0 <= k < 6 ensures line[k] == "Found "[k] {
    }
  }

  /** `errors?\.` takes a whole ` error.` or ` errors.` found at `j`. */
  lemma ErrorWordEndOf(text: string, j: nat, w: string)
    requires w == " error." || w == " errors."
    requires j + |w| <= |text| && forall k :: 0 <= k < |w| ==> text[j + k] == w[k]
    ensures ErrorWordEnd(text, j) == Some(j + |w|)
  {
    assert MatchesAt(text, j, " error") by {
      forall k | 0 <= k < 6 ensures text[j + k] == " error"[k] {
        assert text[j + k] == w[k];
      }
    }
    if w == " error." {
      assert w[6] == '.' && "s."[0] == 's';
      assert text[j + 6 + 0] == w[6];
      assert Lower('.') != Lower('s');
      assert !MatchesAt(text, j + 6, "s.");
      assert MatchesAt(text, j + 6, ".");
    } else {
      assert text[j + 6] == w[6] && text[j + 7] == w[7];
      assert MatchesAt(text, j + 6, "s.");
    }
  }

  /** After the numeral, `errors?\.` takes exactly the error word. */
  lemma CompletionWord(n: nat)
    ensures var j := 6 + |DecimalString(n)|;
      ErrorWordEnd(CompletionLine(n), j) == Some(j + |ErrorWord(n)|)
  {
    var line := CompletionLine(n);
    var j := 6 + |DecimalString(n)|;
    forall k | 0 <= k < |ErrorWord(n)| ensures line[j + k] == ErrorWord(n)[k] {
    }
    ErrorWordEndOf(line, j, ErrorWord(n));
  }

  /** The line ends with ` Watching for file changes.` right after the error word. */
  lemma CompletionTail(n: nat)
    ensures MatchesAt(CompletionLine(n), 6 + |DecimalString(n)| + |ErrorWord(n)|, " Watching for file changes.")
  {
    var line := CompletionLine(n);
    var i := 6 + |DecimalString(n)| + |ErrorWord(n)|;
    var rest := " Watching for file changes.";
    forall k | 0 <= k < |rest| ensures line[i + k] == rest[k] {
    }
  }

  /** The count printed on a completion line is the count parsed back from it. */
  lemma CompletionLineParses(n: nat)
    ensures CompletionCount(CompletionLine(n)) == Some(n)
  {
    var line := CompletionLine(n);
    var j := 6 + |DecimalString(n)|;
    CompletionHead(n);
    CompletionDigits(n);
    CompletionWord(n);
    CompletionTail(n);
    DecimalRoundTrip(n);
    assert MatchAt(line, 0) == Some(n);
    assert Matcher(line)(0) == Some(n);
  }

  /** Two texts equal up to the case of letters agree at every position. */
  ghost predicate SameUpToCase(text: string, other: string) {
    |text| == |other| && forall k :: 0 <= k < |text| ==> Lower(text[k]) == Lower(other[k])
  }

  lemma LowerDigit(c: char, c': char)
    requires Lower(c) == Lower(c')
    ensures IsDigit(c) <==> IsDigit(c')
    ensures IsDigit(c) ==> c == c'
  {
  }

  lemma {:induction false} DigitsEndUpToCase(text: string, other: string, i: nat)
    requires SameUpToCase(text, other) && i <= |text|
    ensures DigitsEnd(text, i) == DigitsEnd(other, i)
    ensures text[i..DigitsEnd(text, i)] == other[i..DigitsEnd(text, i)]
    decreases |text| - i
  {
    if i < |text| {
      LowerDigit(text[i], other[i]);
      if IsDigit(text[i]) {
        DigitsEndUpToCase(text, other, i + 1);
        var j := DigitsEnd(text, i);
        assert text[i..j] == [text[i]] + text[i + 1..j];
        assert other[i..j] == [other[i]] + other[i + 1..j];
      }
    }
  }

  lemma MatchesAtUpToCase(text: string, other: string, p: nat, pattern: string)
    requires SameUpToCase(text, other)
    ensures MatchesAt(text, p, pattern) <==> MatchesAt(other, p, pattern)
  {
  }

  lemma ErrorWordEndUpToCase(text: string, other: string, j: nat)
    requires SameUpToCase(text, other)
    ensures ErrorWordEnd(text, j) == ErrorWordEnd(other, j)
  {
    MatchesAtUpToCase(text, other, j, " error");
    MatchesAtUpToCase(text, other, j + 6, "s.");
    MatchesAtUpToCase(text, other, j + 6, ".");
  }

  lemma MatchAtUpToCase(text: string, other: string, i: nat)
    requires SameUpToCase(text, other)
    ensures MatchAt(text, i) == MatchAt(other, i)
  {
    MatchesAtUpToCase(text, other, i, "Found ");
    if MatchesAt(text, i, "Found ") {
      DigitsEndUpToCase(text, other, i + 6);
      var j := DigitsEnd(text, i + 6);
      if j != i + 6 {
        ErrorWordEndUpToCase(text, other, j);
        if ErrorWordEnd(text, j).Some? {
          var k := ErrorWordEnd(text, j).value;
          MatchesAtUpToCase(text, other, k, " Watching for file changes.");
          assert DigitsValue(text[i + 6..j]) == DigitsValue(other[i + 6..j]);
        }
      }
    }
  }

  lemma FindFromUpToCase(text: string, other: string, i: nat)
    requires SameUpToCase(text, other) && i <= |text|
    ensures FindFrom(text, i) == FindFrom(other, i)
  {
    forall p | i <= p <= |text| ensures Matcher(text)(p) == Matcher(other)(p) {
      MatchAtUpToCase(text, other, p);
    }
    FirstHitAgree(Matcher(text), Matcher(other), i, |text|);
  }

  /** The pattern is matched without regard to case: the count does not depend on it. */
  lemma CompletionCountIgnoresCase(text: string, other: string)
    requires SameUpToCase(text, other)
    ensures CompletionCount(text) == CompletionCount(other)
  {
    FindFromUpToCase(text, other, 0);
  }

  /* ---- the tentative configuration ---- */

  /**
   * `[...v]`: the elements of an array, the characters of a string, and a
   * `TypeError` for anything else.
   */
  function Spread(v: Json): (r: Option<seq<Json>>)
    ensures v.JArray? ==> r == Some(v.items)
    ensures v.JString? ==> r.Some? && |r.value| == |v.s| && forall i :: 0 <= i < |v.s| ==> r.value[i] == JString([v.s[i]])
    ensures !v.JArray? && !v.JString? ==> r.None?
  {
    match v
    case JArray(items) => Some(items)
    case JString(s) => Some(seq(|s|, i requires 0 <= i < |s| => JString([s[i]])))
    case _ => None
  }

  /** `originalConfig.files`, for an object; `None` when reading it throws or yields `undefined`. */
  function FilesOf(config: Json): Option<Json> {
    if config.JObject? && "files" in config.members then Some(config.members["files"]) else None
  }

  /**
   * `{...originalConfig, files: [...originalConfig.files, relativeFilePath]}`,
   * or `None` where building it throws.
   */
  function TentativeConfig(original: Json, relativeFilePath: string): (r: Option<Json>)
    ensures r.Some? <==> FilesOf(original).Some? && Spread(FilesOf(original).value).Some?
    ensures r.Some? ==>
      && r.value.JObject? && r.value.members.Keys == original.members.Keys
      && (forall key :: key in original.members && key != "files" ==> r.value.members[key] == original.members[key])
      && r.value.members["files"] == JArray(Spread(original.members["files"]).value + [JString(relativeFilePath)])
  {
    match FilesOf(original)
    case None => None
    case Some(files) =>
      match Spread(files)
      case None => None
      case Some(items) => Some(JObject(original.members["files" := JArray(items + [JString(relativeFilePath)])]))
  }

  /** The original configuration, from a tentative one: the candidate taken off the end of `files`. */
  function WithoutCandidate(config: Json): Json {
    if config.JObject? && "files" in config.members && config.members["files"].JArray?
       && config.members["files"].items != []
    then
      var items := config.members["files"].items;
      JObject(config.members["files" := JArray(items[..|items| - 1])])
    else config
  }

  /**
   * Whatever the candidate, the tentative configuration is the original one
   * with exactly that file appended to `files`: taking it off gives the
   * original back, so candidates do not pile up across queries.
   */
  lemma TentativeRoundTrip(original: Json, relativeFilePath: string)
    requires FilesOf(original).Some? && FilesOf(original).value.JArray?
    ensures TentativeConfig(original, relativeFilePath).Some?
    ensures WithoutCandidate(TentativeConfig(original, relativeFilePath).value) == original
  {
    var items := original.members["files"].items;
    var r := TentativeConfig(original, relativeFilePath).value;
    assert (items + [JString(relativeFilePath)])[..|items|] == items;
    assert r.members["files" := JArray(items)] == original.members;
  }

  /** The name of the copy for the random draw `n`. */
  function CopyPath(tsconfigPath: string, n: nat): string {
    tsconfigPath + "copy" + DecimalString(n) + ".json"
  }

  /** The random draw `Math.floor(Math.random() * (1 << 16))` is 0 to 65535; its numeral has 1 to 5 digits. */
  lemma CopyPathLength(tsconfigPath: string, n: nat)
    requires n < 65536
    ensures |tsconfigPath| + 10 <= |CopyPath(tsconfigPath, n)| <= |tsconfigPath| + 14
  {
    DecimalLength(n, 5);
  }

  /** The draw is read back from the copy's name: different draws name different copies. */
  lemma CopyPathDraw(tsconfigPath: string, n: nat)
    ensures var path := CopyPath(tsconfigPath, n);
      && |tsconfigPath| + 4 <= |path| - 5
      && path[..|tsconfigPath|] == tsconfigPath
      && path[|tsconfigPath| + 4..|path| - 5] == DecimalString(n)
      && DigitsValue(path[|tsconfigPath| + 4..|path| - 5]) == n
  {
    var path := CopyPath(tsconfigPath, n);
    assert path == tsconfigPath + "copy" + DecimalString(n) + ".json";
    assert path[|tsconfigPath| + 4..|path| - 5] == DecimalString(n);
    DecimalRoundTrip(n);
  }

  /* ---- the session ---- */

  const EndNoProcess := "No typescript typecheck process set in ErrorCounter::end()!"
  const TryNoProcess := "No typescript typecheck process set in ErrorCounter::tryCheckingFile()!"
  const TryNoCopyPath := "No tsconfig copy path set in ErrorCounter::tryCheckingFile()!"
  /**
   * Stands for the `TypeError` the spread throws when the parsed configuration
   * has no iterable `files`. The message is representative: the runtime's text
   * depends on the value (a configuration that parses to `null` fails with
   * "Cannot read properties of null" instead); the model keeps one message for
   * every such failure.
   */
  const FilesNotIterable := "TypeError: originalConfig.files is not iterable"

  /** `execSync` of `rm` failing because the copy does not exist. */
  function RemoveFailed(path: Option<string>): string {
    "Command failed: rm " + (if path.Some? then path.value else "undefined")
  }

  class ErrorCounter {
    const tsconfigPath: string
    /** `tscProcess` is set: a compiler was spawned at some point. */
    var tscProcess: bool
    /** The spawned compiler has not been killed. */
    var processRunning: bool
    var tsconfigCopyPath: Option<string>
    var originalConfig: Option<Json>
    /** The content of the file at the copy path; `None` when it does not exist. */
    var copyConfig: Option<Json>

    constructor(tsconfigPath: string)
      ensures this.tsconfigPath == tsconfigPath
      ensures !tscProcess && !processRunning
      ensures tsconfigCopyPath == None && originalConfig == None && copyConfig == None
    {
      this.tsconfigPath := tsconfigPath;
      tscProcess, processRunning := false, false;
      tsconfigCopyPath, originalConfig, copyConfig := None, None, None;
    }

    /**
     * `start`: picks the copy's name from the draw `n`, copies the
     * configuration `tsconfig` there, keeps it as the original, and spawns
     * the compiler on the copy. A session already running is not checked for.
     */
    method Start(n: nat, tsconfig: Json)
      requires n < 65536
      modifies this
      ensures tsconfigCopyPath == Some(CopyPath(tsconfigPath, n))
      ensures originalConfig == Some(tsconfig) && copyConfig == Some(tsconfig)
      ensures tscProcess && processRunning
    {
      tsconfigCopyPath := Some(CopyPath(tsconfigPath, n));
      copyConfig := Some(tsconfig);
      originalConfig := copyConfig;
      tscProcess, processRunning := true, true;
    }

    /**
     * `end`: fails when no compiler was ever spawned; otherwise kills it and
     * removes the copy, which fails when there is no copy to remove. The
     * process field is not cleared.
     */
    method End() returns (r: Result<()>)
      modifies this
      ensures !old(tscProcess) ==> r == Failure(EndNoProcess) && unchanged(this)
      ensures old(tscProcess) ==>
        && tscProcess && !processRunning
        && tsconfigCopyPath == old(tsconfigCopyPath) && originalConfig == old(originalConfig)
        && copyConfig == None
        && r == if old(tsconfigCopyPath).Some? && old(copyConfig).Some? then Success(()) else Failure(RemoveFailed(tsconfigCopyPath))
    {
      if !tscProcess {
        return Failure(EndNoProcess);
      }
      processRunning := false;
      if tsconfigCopyPath.Some? && copyConfig.Some? {
        copyConfig := None;
        r := Success(());
      } else {
        copyConfig := None;
        r := Failure(RemoveFailed(tsconfigCopyPath));
      }
    }

    /**
     * `tryCheckingFile`: fails when no compiler was spawned or no copy path
     * is set, and when the original has no iterable `files`; otherwise
     * writes the tentative configuration to the copy and yields the first
     * count reported in the compiler's output `chunks` (a killed compiler
     * writes none, and the query never resolves).
     */
    method TryCheckingFile(relativeFilePath: string, chunks: seq<string>) returns (r: Result<Option<nat>>)
      modifies this
      ensures !old(tscProcess) ==> r == Failure(TryNoProcess) && unchanged(this)
      ensures old(tscProcess) && old(tsconfigCopyPath).None? ==> r == Failure(TryNoCopyPath) && unchanged(this)
      ensures old(tscProcess) && old(tsconfigCopyPath).Some? ==>
        && tscProcess == old(tscProcess) && processRunning == old(processRunning)
        && tsconfigCopyPath == old(tsconfigCopyPath) && originalConfig == old(originalConfig)
        && var tentative := if originalConfig.Some? then TentativeConfig(originalConfig.value, relativeFilePath) else None;
           if tentative.None? then r == Failure(FilesNotIterable) && copyConfig == old(copyConfig)
           else copyConfig == tentative && r == Success(if processRunning then FirstCount(chunks) else None)
    {
      if !tscProcess {
        return Failure(TryNoProcess);
      }
      if tsconfigCopyPath.None? {
        return Failure(TryNoCopyPath);
      }
      var tentative := if originalConfig.Some? then TentativeConfig(originalConfig.value, relativeFilePath) else None;
      if tentative.None? {
        return Failure(FilesNotIterable);
      }
      copyConfig := tentative;
      if processRunning {
        r := Success(FirstCount(chunks));
      } else {
        r := Success(None);
      }
    }
  }
}
