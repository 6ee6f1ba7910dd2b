/**
 * The auto-fixer as it runs: an object holding the fix records and error
 * messages it accumulates, working on a file system whose reads and writes
 * can fail. Each method is proved against the value-level definitions of the
 * `Fixer` module.
 */
module AutoFix {
  import opened Text
  import opened Wrappers
  import Regex
  import Tally
  import opened Fixer

  /**
   * The source files, by project-relative path. A read fails for a path
   * that is not there; a write fails for a read-only path. `writes` logs
   * every successful write, in order.
   */
  class FileSystem {
    var files: map<string, string>
    var readOnly: set<string>
    var writes: seq<string>

    constructor(files: map<string, string>, readOnly: set<string>)
      ensures this.files == files && this.readOnly == readOnly && writes == []
    {
      this.files := files;
      this.readOnly := readOnly;
      writes := [];
    }

    /** Reading a file: its text, or `None` when the read raises. */
    method Read(path: string) returns (r: Option<string>)
      ensures r.Some? <==> path in files
      ensures r.Some? ==> r.value == files[path]
    {
      if path in files {
        r := Some(files[path]);
      } else {
        r := None;
      }
    }

    /** Writing a file: `false` when the write raises, and then nothing changes. */
    method Write(path: string, content: string) returns (ok: bool)
      modifies this
      ensures readOnly == old(readOnly)
      ensures ok <==> path !in readOnly
      ensures ok ==> files == old(files)[path := content] && writes == old(writes) + [path]
      ensures !ok ==> files == old(files) && writes == old(writes)
    {
      ok := path !in readOnly;
      if ok {
        files := files[path := content];
        writes := writes + [path];
      }
    }
  }

  /** The message recorded when fixing a file raises; the exception's own text is not modelled. */
  function FixError(path: string): string {
    "Error fixing " + path
  }

  /**
   * What the file loop works on: the files, the fixer's records and errors,
   * the write log and the running `total_fixes`.
   */
  datatype FixState = FixState(
    files: map<string, string>,
    records: seq<FixRecord>,
    errors: seq<string>,
    writes: seq<string>,
    total: nat)

  /**
   * One iteration of the file loop. A protected name is skipped. Any other
   * path goes through `fix_file`: an unreadable file adds an error; otherwise
   * the pass's records are added, and the text is written back when it
   * changed. A failed write adds an error, and a failure adds 0 to the total.
   */
  function FixStep(eng: Regex.Engine, rules: seq<FixRule>, readOnly: set<string>, s: FixState, path: string): FixState {
    if BaseName(path) in SKIP_FILES then s
    else if path !in s.files then s.(errors := s.errors + [FixError(path)])
    else
      var pass := FixPass(eng, rules, path, s.files[path]);
      if pass.content == s.files[path] then
        s.(records := s.records + pass.records, total := s.total + TotalCount(pass.records))
      else if path in readOnly then
        s.(records := s.records + pass.records, errors := s.errors + [FixError(path)])
      else
        FixState(s.files[path := pass.content], s.records + pass.records, s.errors, s.writes + [path],
                 s.total + TotalCount(pass.records))
  }

  /** The file loop over the paths, in order, from `start`. */
  function FixRun(eng: Regex.Engine, rules: seq<FixRule>, readOnly: set<string>, start: FixState, paths: seq<string>): FixState {
    if paths == [] then start
    else FixStep(eng, rules, readOnly, FixRun(eng, rules, readOnly, start, paths[..|paths| - 1]), paths[|paths| - 1])
  }

  /** One more path: the run over a longer prefix of the paths is one step further. */
  lemma FixRunSnoc(eng: Regex.Engine, rules: seq<FixRule>, readOnly: set<string>, start: FixState, paths: seq<string>, i: nat)
    requires i < |paths|
    ensures FixRun(eng, rules, readOnly, start, paths[..i + 1])
      == FixStep(eng, rules, readOnly, FixRun(eng, rules, readOnly, start, paths[..i]), paths[i])
  {
    assert paths[..i + 1][..i] == paths[..i];
  }

  /**
   * One step only appends: records of the path, at most its error, at most a
   * write of it. It touches no other file, and a protected or read-only path
   * is not written. The total grows by the new records' counts, or by 0 on
   * an error.
   */
  lemma FixStepExtends(eng: Regex.Engine, rules: seq<FixRule>, readOnly: set<string>, s: FixState, path: string)
    ensures var t := FixStep(eng, rules, readOnly, s, path);
      && s.records <= t.records && s.errors <= t.errors && s.writes <= t.writes
      && (forall k :: |s.records| <= k < |t.records| ==> t.records[k].file == path)
      && (t.errors == s.errors || t.errors == s.errors + [FixError(path)])
      && (t.writes == s.writes || t.writes == s.writes + [path])
      && t.files.Keys == s.files.Keys
      && (forall f :: f in s.files && f != path ==> t.files[f] == s.files[f])
      && (path in readOnly ==> t.files == s.files && t.writes == s.writes)
      && (BaseName(path) in SKIP_FILES ==> t == s)
      && (t.errors == s.errors ==> t.total == s.total + TotalCount(t.records[|s.records|..]))
      && (t.errors != s.errors ==> t.total == s.total)
  {
    if BaseName(path) !in SKIP_FILES && path in s.files {
      var pass := FixPass(eng, rules, path, s.files[path]);
      FixPassFiles(eng, rules, path, s.files[path]);
      assert (s.records + pass.records)[|s.records|..] == pass.records;
    }
  }

  /** A path or error message of a prefix of the paths is one of the paths too. */
  lemma ProcessedPrefix(paths: seq<string>, n: nat)
    requires n <= |paths|
    ensures forall p :: Processed(p, paths[..n]) ==> Processed(p, paths)
    ensures forall m :: FixErrorOf(m, paths[..n]) ==> FixErrorOf(m, paths)
  {
    forall p | p in paths[..n] ensures p in paths {
      var i :| 0 <= i < n && paths[..n][i] == p;
      assert paths[i] == p;
    }
  }

  /**
   * The run only appends: its new records and writes are of processed
   * paths, and its new errors are messages of processed paths.
   */
  lemma {:induction false} FixRunLogs(eng: Regex.Engine, rules: seq<FixRule>, readOnly: set<string>, start: FixState, paths: seq<string>)
    ensures var run := FixRun(eng, rules, readOnly, start, paths);
      && start.records <= run.records && start.errors <= run.errors && start.writes <= run.writes
      && (forall k :: |start.records| <= k < |run.records| ==> Processed(run.records[k].file, paths))
      && (forall k :: |start.errors| <= k < |run.errors| ==> FixErrorOf(run.errors[k], paths))
      && (forall k :: |start.writes| <= k < |run.writes| ==> Processed(run.writes[k], paths))
  {
    if paths != [] {
      var n := |paths| - 1;
      var path := paths[n];
      var s := FixRun(eng, rules, readOnly, start, paths[..n]);
      var t := FixRun(eng, rules, readOnly, start, paths);
      FixRunLogs(eng, rules, readOnly, start, paths[..n]);
      FixStepExtends(eng, rules, readOnly, s, path);
      ProcessedPrefix(paths, n);
      assert t == FixStep(eng, rules, readOnly, s, path);
      assert BaseName(path) !in SKIP_FILES ==> Processed(path, paths);
      forall k | |start.records| <= k < |t.records| ensures Processed(t.records[k].file, paths) {
        if k < |s.records| {
          assert t.records[k] == s.records[k];
        }
      }
      forall k | |start.errors| <= k < |t.errors| ensures FixErrorOf(t.errors[k], paths) {
        if k < |s.errors| {
          assert t.errors[k] == s.errors[k];
        } else {
          assert t.errors[k] == FixError(path);
        }
      }
      forall k | |start.writes| <= k < |t.writes| ensures Processed(t.writes[k], paths) {
        if k < |s.writes| {
          assert t.writes[k] == s.writes[k];
        }
      }
    }
  }

  /**
   * `total_fixes` is the sum of what `fix_file` returned: never more than the
   * new records count, and exactly that when no file failed.
   */
  lemma {:induction false} FixRunTotal(eng: Regex.Engine, rules: seq<FixRule>, readOnly: set<string>, start: FixState, paths: seq<string>)
    ensures var run := FixRun(eng, rules, readOnly, start, paths);
      && start.records <= run.records && start.errors <= run.errors
      && run.total <= start.total + TotalCount(run.records[|start.records|..])
      && (run.errors == start.errors ==> run.total == start.total + TotalCount(run.records[|start.records|..]))
  {
    if paths != [] {
      var n := |paths| - 1;
      var s := FixRun(eng, rules, readOnly, start, paths[..n]);
      var t := FixRun(eng, rules, readOnly, start, paths);
      FixRunTotal(eng, rules, readOnly, start, paths[..n]);
      FixStepExtends(eng, rules, readOnly, s, paths[n]);
      assert t == FixStep(eng, rules, readOnly, s, paths[n]);
      TotalCountStep(s.records, t.records, |start.records|);
    }
  }

  /** The run keeps the set of files, and a read-only or unprocessed file keeps its text. */
  lemma {:induction false} FixRunFiles(eng: Regex.Engine, rules: seq<FixRule>, readOnly: set<string>, start: FixState, paths: seq<string>)
    ensures var run := FixRun(eng, rules, readOnly, start, paths);
      && run.files.Keys == start.files.Keys
      && forall f :: f in start.files && (f in readOnly || !Processed(f, paths)) ==> run.files[f] == start.files[f]
  {
    if paths != [] {
      var n := |paths| - 1;
      var path := paths[n];
      var s := FixRun(eng, rules, readOnly, start, paths[..n]);
      var t := FixRun(eng, rules, readOnly, start, paths);
      FixRunFiles(eng, rules, readOnly, start, paths[..n]);
      FixStepExtends(eng, rules, readOnly, s, path);
      ProcessedPrefix(paths, n);
      assert t == FixStep(eng, rules, readOnly, s, path);
      forall f | f in start.files && (f in readOnly || !Processed(f, paths)) ensures t.files[f] == start.files[f] {
        assert !Processed(f, paths) ==> !Processed(f, paths[..n]);
        if f == path && !Processed(f, paths) {
          assert BaseName(path) in SKIP_FILES;
        }
      }
    }
  }

  /**
   * The files after the `using` pass: a writable file with a non-empty list
   * of chosen lines holds its lines with that block inserted; every other
   * file is as it was.
   */
  function AfterUsings(files: map<string, string>, readOnly: set<string>, chosen: map<string, seq<string>>): map<string, string> {
    map f | f in files ::
      if f in chosen && chosen[f] != [] && f !in readOnly then Join(PatchedLines(files[f], chosen[f]), '\n')
      else files[f]
  }

  /** Handling one more file extends the picture by that file alone. */
  lemma AfterUsingsStep(files: map<string, string>, readOnly: set<string>, chosen: map<string, seq<string>>,
                        path: string, inserted: seq<string>)
    requires path in files && path !in chosen
    ensures var before := AfterUsings(files, readOnly, chosen);
      AfterUsings(files, readOnly, chosen[path := inserted]) ==
        if inserted != [] && path !in readOnly then before[path := Join(PatchedLines(files[path], inserted), '\n')]
        else before
  {
    var before := AfterUsings(files, readOnly, chosen);
    var after := AfterUsings(files, readOnly, chosen[path := inserted]);
    var expected := if inserted != [] && path !in readOnly then before[path := Join(PatchedLines(files[path], inserted), '\n')] else before;
    assert after.Keys == expected.Keys;
    forall f | f in after
      ensures after[f] == expected[f]
    {
      if f != path {
        assert after[f] == before[f];
      }
    }
  }

  /**
   * After the pass, a writable file that owes single-line `using` lines and
   * whose lacking lines were inserted lacks none of them any more.
   */
  lemma UsingsSettled(files: map<string, string>, readOnly: set<string>, chosen: map<string, seq<string>>,
                      needs: map<string, set<string>>)
    requires SingleLineObligations(needs)
    requires forall f :: f in needs && f in files ==> f in chosen
    requires forall f :: f in chosen ==> f in files && f in needs && Enumerates(chosen[f], MissingUsings(files[f], needs[f]))
    ensures var after := AfterUsings(files, readOnly, chosen);
      forall f :: f in after && f in needs && f !in readOnly ==> MissingUsings(after[f], needs[f]) == {}
  {
    var after := AfterUsings(files, readOnly, chosen);
    forall f | f in after && f in needs && f !in readOnly
      ensures MissingUsings(after[f], needs[f]) == {}
    {
      if chosen[f] == [] {
        assert forall x :: x !in MissingUsings(files[f], needs[f]);
      } else {
        PatchIdempotent(files[f], needs[f], chosen[f]);
      }
    }
  }

  /**
   * The writes the `using` pass made since position `from` of the log: each
   * is a writable file with a non-empty chosen list, each such file is
   * written, and none is written twice.
   */
  ghost predicate UsingWrites(writes: seq<string>, from: nat, chosen: map<string, seq<string>>, readOnly: set<string>) {
    && from <= |writes|
    && (forall k :: from <= k < |writes| ==> writes[k] in chosen && chosen[writes[k]] != [] && writes[k] !in readOnly)
    && (forall f :: f in chosen && chosen[f] != [] && f !in readOnly ==> f in writes[from..])
    && (forall a, b :: from <= a < b < |writes| ==> writes[a] != writes[b])
  }

  /** Handling one more file writes it exactly when it is writable and lacked something. */
  lemma UsingWritesStep(before: seq<string>, after: seq<string>, from: nat, chosen: map<string, seq<string>>,
                        readOnly: set<string>, path: string, inserted: seq<string>)
    requires UsingWrites(before, from, chosen, readOnly) && path !in chosen
    requires after == if inserted != [] && path !in readOnly then before + [path] else before
    ensures UsingWrites(after, from, chosen[path := inserted], readOnly)
  {
    var chosen' := chosen[path := inserted];
    forall f | f in chosen' && chosen'[f] != [] && f !in readOnly
      ensures f in after[from..]
    {
      if f != path {
        assert f in before[from..];
        assert before[from..] <= after[from..];
      } else {
        assert after[|after| - 1] == path;
      }
    }
  }

  /** A path the run hands to `fix_file`: one of the discovered paths whose name is not protected. */
  predicate Processed(path: string, paths: seq<string>) {
    path in paths && BaseName(path) !in SKIP_FILES
  }

  /** The error message of some processed path. */
  predicate FixErrorOf(message: string, paths: seq<string>) {
    exists p :: p in paths && Processed(p, paths) && message == FixError(p)
  }


  /** The records made since `from` count what they counted before plus what the new records count. */
  lemma TotalCountStep(before: seq<FixRecord>, after: seq<FixRecord>, from: nat)
    requires from <= |before| && before <= after
    ensures TotalCount(after[from..]) == TotalCount(before[from..]) + TotalCount(after[|before|..])
  {
    assert after[from..] == before[from..] + after[|before|..];
    TotalCountAppend(before[from..], after[|before|..]);
  }

  /** Some record names the file. */
  predicate RecordsFile(records: seq<FixRecord>, f: string) {
    exists j :: 0 <= j < |records| && records[j].file == f
  }

  /**
   * A file that owes `using` lines after a run was either processed by the
   * run or named by a record from before it.
   */
  lemma ObligedWritesProcessed(rules: seq<FixRule>, before: seq<FixRecord>, records: seq<FixRecord>, paths: seq<string>, f: string)
    requires before <= records
    requires forall k :: |before| <= k < |records| ==> Processed(records[k].file, paths)
    requires f in Obligations(rules, records)
    ensures Processed(f, paths) || RecordsFile(before, f)
  {
    ObligationsAsked(rules, records, f);
    var j, u :| Asks(rules, records, j, f, u);
    if j < |before| {
      assert before[j] == records[j];
    }
  }

  /** What `auto_fix_all_issues` reports; the timing, the backup location and the timestamp are not modelled. */
  datatype FixReport = FixReport(
    totalFixesApplied: nat,
    filesModified: nat,
    fixesByType: map<string, nat>,
    errors: seq<string>)

  class AutoFixer {
    const engine: Regex.Engine
    const fs: FileSystem
    const fixPatterns: seq<FixRule>
    var fixesApplied: seq<FixRecord>
    var errorsEncountered: seq<string>

    /** The object's table asks only for single-line `using` lines, as the table it is built with does. */
    predicate Valid() {
      SingleLineUsings(fixPatterns)
    }

    constructor(engine: Regex.Engine, fs: FileSystem)
      ensures this.engine == engine && this.fs == fs && fixPatterns == FixPatterns()
      ensures fixesApplied == [] && errorsEncountered == []
      ensures Valid()
    {
      this.engine := engine;
      this.fs := fs;
      fixPatterns := FixPatterns();
      FixTableFacts();
      fixesApplied := [];
      errorsEncountered := [];
    }

    /**
     * Fixing one file. An unreadable file gives one error message and 0.
     * Otherwise the table is folded over the text, appending each record as
     * it is made; the file is written once, at the end, only if the text
     * changed. A failed write gives one error message and 0 but keeps the
     * records. On success the result is the sum of the recorded counts.
     */
    method FixFile(path: string) returns (fixesInFile: nat)
      modifies this, fs
      ensures fs.readOnly == old(fs.readOnly)
      ensures path !in old(fs.files) ==>
        && fixesApplied == old(fixesApplied) && fixesInFile == 0
        && errorsEncountered == old(errorsEncountered) + [FixError(path)]
        && fs.files == old(fs.files) && fs.writes == old(fs.writes)
      ensures path in old(fs.files) ==>
        var original := old(fs.files)[path];
        var pass := FixPass(engine, fixPatterns, path, original);
        && fixesApplied == old(fixesApplied) + pass.records
        && (pass.content == original ==>
              && fs.files == old(fs.files) && fs.writes == old(fs.writes)
              && errorsEncountered == old(errorsEncountered) && fixesInFile == TotalCount(pass.records))
        && (pass.content != original && path in fs.readOnly ==>
              && fs.files == old(fs.files) && fs.writes == old(fs.writes)
              && errorsEncountered == old(errorsEncountered) + [FixError(path)] && fixesInFile == 0)
        && (pass.content != original && path !in fs.readOnly ==>
              && fs.files == old(fs.files)[path := pass.content] && fs.writes == old(fs.writes) + [path]
              && errorsEncountered == old(errorsEncountered) && fixesInFile == TotalCount(pass.records))
      // The same outcome, summed up: the records made here name this file, an
      // error is a single message with result 0, and at most this file is written.
      ensures old(fixesApplied) <= fixesApplied
      ensures forall k :: |old(fixesApplied)| <= k < |fixesApplied| ==> fixesApplied[k].file == path
      ensures errorsEncountered == old(errorsEncountered) ==>
        fixesInFile == TotalCount(fixesApplied[|old(fixesApplied)|..])
      ensures errorsEncountered != old(errorsEncountered) ==>
        fixesInFile == 0 && errorsEncountered == old(errorsEncountered) + [FixError(path)]
      ensures fs.writes == old(fs.writes) || fs.writes == old(fs.writes) + [path]
    {
      var read := fs.Read(path);
      if read.None? {
        errorsEncountered := errorsEncountered + [FixError(path)];
        return 0;
      }
      var original := read.value;
      var modified;
      modified, fixesInFile := ApplyFixes(path, original, fixPatterns);
      FixPassFiles(engine, fixPatterns, path, original);
      assert fixesApplied[|old(fixesApplied)|..] == FixPass(engine, fixPatterns, path, original).records;
      if modified != original {
        var ok := fs.Write(path, modified);
        if !ok {
          errorsEncountered := errorsEncountered + [FixError(path)];
          return 0;
        }
      }
    }

    /**
     * The loop of `fix_file`: each rule of the table in turn on the text so
     * far, appending a record whenever the rule matched and changed the text.
     */
    method ApplyFixes(path: string, original: string, rules: seq<FixRule>) returns (modified: string, fixesInFile: nat)
      modifies this
      ensures modified == FixPass(engine, rules, path, original).content
      ensures fixesApplied == old(fixesApplied) + FixPass(engine, rules, path, original).records
      ensures fixesInFile == TotalCount(FixPass(engine, rules, path, original).records)
      ensures errorsEncountered == old(errorsEncountered)
    {
      modified := original;
      fixesInFile := 0;
      var added: seq<FixRecord> := [];
      var j := 0;
      while j < |rules|
        invariant 0 <= j <= |rules|
        invariant modified == FixPass(engine, rules[..j], path, original).content
        invariant added == FixPass(engine, rules[..j], path, original).records
        invariant fixesInFile == TotalCount(added)
        invariant fixesApplied == old(fixesApplied) && errorsEncountered == old(errorsEncountered)
      {
        var rule := rules[j];
        var matches := engine.findAll(rule.pattern, modified);
        if |matches| > 0 {
          var newContent := engine.sub(rule.pattern, rule.replacement, modified);
          FixPassStep(engine, rules, path, original, j, matches, newContent);
          if newContent != modified {
            var record := FixRecord(path, rule.name, rule.description, |matches|);
            TotalCountAppend(added, [record]);
            fixesInFile := fixesInFile + |matches|;
            added := added + [record];
            modified := newContent;
          }
        } else {
          FixPassStep(engine, rules, path, original, j, matches, engine.sub(rule.pattern, rule.replacement, modified));
        }
        j := j + 1;
      }
      assert rules[..j] == rules;
      fixesApplied := fixesApplied + added;
    }

    /** `get_fixes_by_type`: the counts of the records summed per fix type. */
    method GetFixesByType() returns (byType: map<string, nat>)
      ensures Tally.IsTally(byType, FixEntries(fixesApplied))
      ensures Tally.SumValues(byType) == TotalCount(fixesApplied)
    {
      byType := map[];
      var i := 0;
      while i < |fixesApplied|
        invariant 0 <= i <= |fixesApplied|
        invariant Tally.IsTally(byType, FixEntries(fixesApplied[..i]))
      {
        var fix := fixesApplied[i];
        assert FixEntries(fixesApplied[..i + 1]) == FixEntries(fixesApplied[..i]) + [(fix.fixType, fix.count)];
        Tally.AddToExtends(byType, FixEntries(fixesApplied[..i]), fix.fixType, fix.count);
        byType := byType[fix.fixType := (if fix.fixType in byType then byType[fix.fixType] else 0) + fix.count];
        i := i + 1;
      }
      assert fixesApplied[..i] == fixesApplied;
      Tally.TallySum(byType, FixEntries(fixesApplied));
      FixEntriesWeight(fixesApplied);
    }

    /**
     * The dictionary of `using` obligations built from the records, and its
     * keys in insertion order (the order the dictionary is iterated in).
     */
    method CollectObligations() returns (needs: map<string, set<string>>, fileOrder: seq<string>)
      ensures needs == Obligations(fixPatterns, fixesApplied)
      ensures forall a, b :: 0 <= a < b < |fileOrder| ==> fileOrder[a] != fileOrder[b]
      ensures forall f :: f in fileOrder <==> f in needs
      ensures fileOrder == AskOrder(fixPatterns, fixesApplied)
    {
      var rules := fixPatterns;
      needs := map[];
      fileOrder := [];
      var i := 0;
      while i < |fixesApplied|
        invariant 0 <= i <= |fixesApplied|
        invariant needs == Obligations(rules, fixesApplied[..i])
        invariant fileOrder == AskOrder(rules, fixesApplied[..i])
      {
        var fix := fixesApplied[i];
        ObligationsSnoc(rules, fixesApplied, i);
        AskOrderSnoc(rules, fixesApplied, i);
        AskOrderKeys(rules, fixesApplied[..i]);
        var usingStatement := UsingFor(rules, fix.fixType);
        if usingStatement.Some? {
          var current := if fix.file in needs then needs[fix.file] else {};
          if fix.file !in needs {
            fileOrder := fileOrder + [fix.file];
          }
          needs := needs[fix.file := current + {usingStatement.value}];
        }
        i := i + 1;
      }
      assert fixesApplied[..i] == fixesApplied;
      AskOrderKeys(rules, fixesApplied);
      AskOrderSpec(rules, fixesApplied);
    }

    /** The insertion point: one past the last `using` line that is not `using static`, or 0. */
    static method FindInsertIndex(lines: seq<string>) returns (insertIndex: nat)
      ensures insertIndex == UsingInsertIndex(lines)
    {
      insertIndex := 0;
      var i := 0;
      while i < |lines|
        invariant 0 <= i <= |lines|
        invariant insertIndex == UsingInsertIndex(lines[..i])
      {
        assert lines[..i + 1][..i] == lines[..i];
        if IsUsingLine(lines[i]) {
          insertIndex := i + 1;
        }
        i := i + 1;
      }
      assert lines[..i] == lines;
    }

    /**
     * The statements of a set that the text lacks, in the set's iteration
     * order (which is not specified, so any order may come out).
     */
    static method MissingStatements(content: string, statements: set<string>) returns (missing: seq<string>)
      ensures Enumerates(missing, MissingUsings(content, statements))
    {
      missing := [];
      var rest := statements;
      while rest != {}
        invariant rest <= statements
        invariant Enumerates(missing, MissingUsings(content, statements - rest))
        decreases |rest|
      {
        var s :| s in rest;
        if !Contains(content, s) {
          missing := missing + [s];
        }
        assert MissingUsings(content, statements - (rest - {s}))
          == MissingUsings(content, statements - rest) + (if Contains(content, s) then {} else {s});
        rest := rest - {s};
      }
      assert statements - rest == statements;
    }

    /**
     * Adding the missing `using` lines to one file. Nothing happens when the
     * file cannot be read or lacks none of them. Otherwise the missing lines
     * go in, one after the other, at the insertion point, and the file is
     * written; a failed write changes nothing and is not recorded.
     */
    method AddUsingsToFile(path: string, statements: set<string>) returns (inserted: seq<string>)
      modifies fs
      ensures fs.readOnly == old(fs.readOnly)
      ensures path !in old(fs.files) ==> inserted == []
      ensures path in old(fs.files) ==> Enumerates(inserted, MissingUsings(old(fs.files)[path], statements))
      ensures inserted == [] || path in fs.readOnly ==> fs.files == old(fs.files) && fs.writes == old(fs.writes)
      ensures inserted != [] && path !in fs.readOnly ==>
        && fs.files == old(fs.files)[path := Join(PatchedLines(old(fs.files)[path], inserted), '\n')]
        && fs.writes == old(fs.writes) + [path]
    {
      var read := fs.Read(path);
      if read.None? {
        return [];
      }
      var content := read.value;
      inserted := MissingStatements(content, statements);
      if inserted != [] {
        var lines := LinesOf(content);
        var insertIndex := FindInsertIndex(lines);
        ghost var start := insertIndex;
        var k := 0;
        while k < |inserted|
          invariant 0 <= k <= |inserted| && insertIndex == start + k
          invariant lines == InsertAt(LinesOf(content), start, inserted[..k])
        {
          assert inserted[..k + 1] == inserted[..k] + [inserted[k]];
          lines := lines[..insertIndex] + [inserted[k]] + lines[insertIndex..];
          insertIndex := insertIndex + 1;
          k := k + 1;
        }
        assert inserted[..k] == inserted;
        var ok := fs.Write(path, Join(lines, '\n'));
      }
    }

    /**
     * `add_missing_using_statements`: for each file that owes `using` lines,
     * in the dictionary's order, the lines its text lacks are inserted. The
     * ghost result `chosen` tells, per readable file, the order the lacking
     * lines went in. Failures are reported on the console only, so they
     * leave no trace in the object. Afterwards no writable file lacks any of
     * the lines it owes.
     */
    method AddMissingUsingStatements() returns (ghost chosen: map<string, seq<string>>)
      requires Valid()
      modifies fs
      ensures fs.readOnly == old(fs.readOnly)
      ensures forall f :: f in chosen <==> f in Obligations(fixPatterns, fixesApplied) && f in old(fs.files)
      ensures forall f :: f in chosen ==>
        Enumerates(chosen[f], MissingUsings(old(fs.files)[f], Obligations(fixPatterns, fixesApplied)[f]))
      ensures fs.files == AfterUsings(old(fs.files), fs.readOnly, chosen)
      ensures old(fs.writes) <= fs.writes
      ensures forall k :: |old(fs.writes)| <= k < |fs.writes| ==> fs.writes[k] in Obligations(fixPatterns, fixesApplied)
      ensures UsingWrites(fs.writes, |old(fs.writes)|, chosen, fs.readOnly)
      ensures forall f :: f in fs.files && f in Obligations(fixPatterns, fixesApplied) && f !in fs.readOnly ==>
        MissingUsings(fs.files[f], Obligations(fixPatterns, fixesApplied)[f]) == {}
    {
      var needs, fileOrder := CollectObligations();
      chosen := map[];
      var i := 0;
      while i < |fileOrder|
        invariant 0 <= i <= |fileOrder|
        invariant fs.readOnly == old(fs.readOnly)
        invariant forall f :: f in chosen <==> f in fileOrder[..i] && f in old(fs.files)
        invariant forall f :: f in chosen ==> Enumerates(chosen[f], MissingUsings(old(fs.files)[f], needs[f]))
        invariant fs.files == AfterUsings(old(fs.files), fs.readOnly, chosen)
        invariant old(fs.writes) <= fs.writes
        invariant forall k :: |old(fs.writes)| <= k < |fs.writes| ==> fs.writes[k] in needs
        invariant UsingWrites(fs.writes, |old(fs.writes)|, chosen, fs.readOnly)
      {
        var path := fileOrder[i];
        assert path !in chosen by {
          forall a | 0 <= a < i ensures fileOrder[a] != path { }
        }
        assert fileOrder[..i + 1] == fileOrder[..i] + [path];
        ghost var writesBefore := fs.writes;
        var inserted := AddUsingsToFile(path, needs[path]);
        if path in old(fs.files) {
          AfterUsingsStep(old(fs.files), fs.readOnly, chosen, path, inserted);
          UsingWritesStep(writesBefore, fs.writes, |old(fs.writes)|, chosen, fs.readOnly, path, inserted);
          chosen := chosen[path := inserted];
        }
        i := i + 1;
      }
      assert fileOrder[..i] == fileOrder;
      ObligationsSingleLine(fixPatterns, fixesApplied);
      UsingsSettled(old(fs.files), fs.readOnly, chosen, needs);
    }

    /**
     * The file loop of `auto_fix_all_issues`: every path in order, protected
     * names skipped, every other path through `fix_file`, its result added
     * to the total. The files, records, errors, write log and total end as
     * the run over the paths leaves them.
     */
    method FixAllFiles(paths: seq<string>) returns (total: nat)
      modifies this, fs
      ensures fs.readOnly == old(fs.readOnly)
      ensures FixState(fs.files, fixesApplied, errorsEncountered, fs.writes, total)
        == FixRun(engine, fixPatterns, fs.readOnly,
                  FixState(old(fs.files), old(fixesApplied), old(errorsEncountered), old(fs.writes), 0), paths)
      ensures old(fixesApplied) <= fixesApplied
      ensures forall k :: |old(fixesApplied)| <= k < |fixesApplied| ==> Processed(fixesApplied[k].file, paths)
      ensures total <= TotalCount(fixesApplied[|old(fixesApplied)|..])
      ensures errorsEncountered == old(errorsEncountered) ==> total == TotalCount(fixesApplied[|old(fixesApplied)|..])
      ensures old(errorsEncountered) <= errorsEncountered
      ensures forall k :: |old(errorsEncountered)| <= k < |errorsEncountered| ==>
        FixErrorOf(errorsEncountered[k], paths)
      ensures old(fs.writes) <= fs.writes
      ensures forall k :: |old(fs.writes)| <= k < |fs.writes| ==> Processed(fs.writes[k], paths)
    {
      ghost var start := FixState(fs.files, fixesApplied, errorsEncountered, fs.writes, 0);
      total := 0;
      var i := 0;
      while i < |paths|
        invariant 0 <= i <= |paths|
        invariant fs.readOnly == old(fs.readOnly)
        invariant FixState(fs.files, fixesApplied, errorsEncountered, fs.writes, total)
          == FixRun(engine, fixPatterns, fs.readOnly, start, paths[..i])
      {
        var path := paths[i];
        FixRunSnoc(engine, fixPatterns, fs.readOnly, start, paths, i);
        if BaseName(path) !in SKIP_FILES {
          var fixesInFile := FixFile(path);
          total := total + fixesInFile;
        }
        i := i + 1;
      }
      assert paths[..i] == paths;
      FixRunLogs(engine, fixPatterns, fs.readOnly, start, paths);
      FixRunTotal(engine, fixPatterns, fs.readOnly, start, paths);
    }

    /**
     * `auto_fix_all_issues` over the discovered paths, in order: the file
     * loop, then the `using` pass on the files it left, then the report
     * assembled from the object's records and errors. The ghost result
     * `chosen` tells, per readable file that owes `using` lines, the order its
     * lacking lines went in.
     */
    method AutoFixAll(paths: seq<string>) returns (report: FixReport, ghost chosen: map<string, seq<string>>)
      requires Valid()
      modifies this, fs
      ensures fs.readOnly == old(fs.readOnly)
      ensures var run := FixRun(engine, fixPatterns, fs.readOnly,
                                FixState(old(fs.files), old(fixesApplied), old(errorsEncountered), old(fs.writes), 0), paths);
        && fixesApplied == run.records && errorsEncountered == run.errors
        && report.totalFixesApplied == run.total
        && run.writes <= fs.writes
        && (forall f :: f in chosen <==> f in Obligations(fixPatterns, run.records) && f in run.files)
        && (forall f :: f in chosen ==>
              Enumerates(chosen[f], MissingUsings(run.files[f], Obligations(fixPatterns, run.records)[f])))
        && fs.files == AfterUsings(run.files, fs.readOnly, chosen)
        && UsingWrites(fs.writes, |run.writes|, chosen, fs.readOnly)
      ensures forall f :: f in fs.files && f in Obligations(fixPatterns, fixesApplied) && f !in fs.readOnly ==>
        MissingUsings(fs.files[f], Obligations(fixPatterns, fixesApplied)[f]) == {}
      ensures old(fixesApplied) <= fixesApplied
      ensures forall k :: |old(fixesApplied)| <= k < |fixesApplied| ==> Processed(fixesApplied[k].file, paths)
      ensures report.totalFixesApplied <= TotalCount(fixesApplied[|old(fixesApplied)|..])
      ensures errorsEncountered == old(errorsEncountered) ==>
        report.totalFixesApplied == TotalCount(fixesApplied[|old(fixesApplied)|..])
      ensures old(errorsEncountered) <= errorsEncountered
      ensures forall k :: |old(errorsEncountered)| <= k < |errorsEncountered| ==>
        FixErrorOf(errorsEncountered[k], paths)
      ensures report.filesModified == FilesModified(fixesApplied)
      ensures Tally.IsTally(report.fixesByType, FixEntries(fixesApplied))
      ensures Tally.SumValues(report.fixesByType) == TotalCount(fixesApplied)
      ensures report.errors == errorsEncountered
      ensures old(fs.writes) <= fs.writes
      ensures forall k :: |old(fs.writes)| <= k < |fs.writes| ==>
        Processed(fs.writes[k], paths) || RecordsFile(old(fixesApplied), fs.writes[k])
    {
      var total := FixAllFiles(paths);
      ghost var writesAfterFixes := fs.writes;
      chosen := AddMissingUsingStatements();
      forall k | |writesAfterFixes| <= k < |fs.writes|
        ensures Processed(fs.writes[k], paths) || RecordsFile(old(fixesApplied), fs.writes[k])
      {
        ObligedWritesProcessed(fixPatterns, old(fixesApplied), fixesApplied, paths, fs.writes[k]);
      }
      var byType := GetFixesByType();
      report := FixReport(total, FilesModified(fixesApplied), byType, errorsEncountered);
    }
  }
}
