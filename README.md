# FlowBox validation and auto-fix, modelled in Dafny

FlowBox is a Unity VR boxing game. Two maintenance scripts watch over its C#
sources.

- **The comprehensive validator** (`complete_validation_runner.py`) reads every
  `.cs` file under `Assets/Scripts`. It checks each line against a table of 17
  rules: regular expressions with a severity, a category, a description, a
  solution and an auto-fix flag. It drops matches that are false positives:
  comment lines, an already cached lookup, and Unity's `async void Start(`.
  One issue is reported per remaining (line, rule) pair. The issues of all
  files come first, then those of the project-structure and scene checks.
  They are reduced into a report with severity counts, a per-category
  dictionary and a deployment verdict: ready exactly when nothing is
  Critical. The summary lists at most ten critical issues.
- **The auto-fixer** (`auto_fix_critical_issues.py`) folds an ordered table of
  five rewrite rules over every file whose name is not protected. It records
  each rule that matched and changed the text. It writes a file back only if
  its text changed. A failure becomes an `Error fixing …` message.
  Afterwards it inserts the `using` lines that the recorded fixes require and
  that the file lacks, just after the file's last `using` line. The report
  gives the total number of fixes, the number of distinct files with at least
  one fix record (a file whose write failed keeps its records and is
  counted), the counts per fix type and the errors.

The project has six modules.

- `Text` (`text.dfy`): the Python string operations both scripts rely on.
- `Regex` (`regex.dfy`): the regular-expression engine, handed in as an
  oracle.
- `Tally` (`tally.dfy`): the `d[k] = d.get(k, 0) + w` counting loops.
- `Validator` (`validator.dfy`): the rule table, the false-positive filter,
  the matching loops, the report and the whole run.
- `Fixer` (`fixer.dfy`): the fix table, the fix pass over one text, the
  `using` obligations, and the insertion of `using` lines.
- `AutoFix` (`autofixer.dfy`): the `AutoFixer` object and the file system it
  reads and writes.

The stateful parts are imperative Dafny, proved against value-level
specification functions:

- the nested matching loops of `analyze_file`;
- the category and fix-type counting loops;
- the fixer object, whose `fixes_applied` and `errors_encountered` lists grow
  as files are processed.

## Model

| member | source | states |
|---|---|---|
| Validator.RuleTableFacts | complete_validation_runner.py:48-198 | The table has 17 rules, with `findobjectoftype` first and `async_void` third. A rule can be auto-fixed exactly when it is one of those two, and exactly those two are Critical. |
| Validator.FalsePositiveCases | complete_validation_runner.py:286-299 | A comment line is suppressed for every rule. Otherwise a `findobjectoftype` match is suppressed iff the line mentions `CachedReferenceManager`, and an `async_void` match iff it contains `async void Start(`. Any other rule's match is suppressed only on comment lines. |
| Validator.IndentedCommentSuppressed | complete_validation_runner.py:288-290 | A line that is whitespace, then `//` or `*`, then anything, counts as a comment for every rule: stripping the line does not hide the marker. |
| Validator.AnalyzeLine | complete_validation_runner.py:263-279 | The inner loop over the rules yields exactly the issues of this line's reported hits, in rule order. |
| Validator.AnalyzeFile | complete_validation_runner.py:252-284 | The nested loops give exactly the file's issues, in the order of its hits. An unreadable file yields no issue. |
| Validator.LineHitsExact | complete_validation_runner.py:263-268 | On one line, the hits are exactly the reported (line, rule) pairs, in strictly ascending rule order. |
| Validator.HitsSound | complete_validation_runner.py:262-268 | Every hit is a (line, rule) pair where the rule matches and the match is not a false positive. |
| Validator.HitsComplete | complete_validation_runner.py:262-268 | Every (line, rule) pair where the rule matches and the filter lets the match through is a hit. |
| Validator.HitsAscending | complete_validation_runner.py:262-263 | Hits are strictly ordered by line, then by rule-declaration order, so no pair occurs twice. |
| Validator.FileIssuesFollowHits | complete_validation_runner.py:262-279 | Issue `k` of a readable file is what the rule of hit `k` yields for that hit's 1-based line. The hits ascend and are all reported pairs. |
| Validator.FileIssueSound | complete_validation_runner.py:262-278 | Every issue names the file and a line that exists, and its snippet is that line stripped. Some rule matches that line, is not filtered, and supplied the issue's severity, category, description, solution and auto-fix flag. |
| Validator.FileIssueComplete | complete_validation_runner.py:262-279 | Every matching, unfiltered (line, rule) pair of a readable file yields its issue. |
| Validator.FileIssuesByLine | complete_validation_runner.py:262 | A file's issues come out in non-decreasing line order. |
| Validator.FileIssuesCount | complete_validation_runner.py:262-279 | A file has exactly as many issues as there are distinct reported (line, rule) pairs. |
| Validator.FileIssueNamesFile | complete_validation_runner.py:272 | Every issue of a file's analysis names that file. |
| Validator.OfSeverity | complete_validation_runner.py:360-362 | The filter keeps exactly the issues of the given severity, each taken from the input. |
| Validator.OfCategory | complete_validation_runner.py:365-367 | The filter keeps exactly the issues of the given category, each taken from the input. |
| Validator.SeverityPartition | complete_validation_runner.py:360-362 | The Critical, Warning and Info counts add up to the total number of issues. |
| Validator.CategoryTally | complete_validation_runner.py:364-367 | The dictionary the counting loop builds has exactly the categories present as keys. Each value is the number of issues in that category, and the values sum to the number of issues. |
| Validator.CountByCategory | complete_validation_runner.py:365-367 | The category loop builds exactly that tally of (category, 1) entries. |
| Validator.DeploymentVerdict | complete_validation_runner.py:380 | The critical list is empty iff no issue is Critical. |
| Validator.GenerateReport | complete_validation_runner.py:358-382 | The report keeps the issues and their total. Its three severity counts are the filter sizes and add up to the total. Its category dictionary counts each present category, and its values sum to the total. It is deployment-ready iff no issue is Critical. |
| Validator.ListCritical | complete_validation_runner.py:409-421 | The summary lists exactly the critical issues' prefix `critical[:10]`, in order: all of them when there are at most ten. It adds a "… and N more" line iff there are more than ten, and then N is their number minus ten. |
| Validator.ListedAreCritical | complete_validation_runner.py:409-412 | Every listed issue is Critical and is one of the issues. |
| Validator.AllFileIssuesSnoc | complete_validation_runner.py:230-232 | Gathering one more file's results appends exactly that file's issues. |
| Validator.AllFileIssuesFrom | complete_validation_runner.py:217-232 | Every file-analysis issue of a run comes from the analysis of one of the given files. |
| Validator.RunValidation | complete_validation_runner.py:200-250 | The run's issues are the per-file issues in file order, then the project-structure issues, then the scene issues. The report's total, its Critical, Warning and Info counts, its category dictionary and its verdict are those of that list. The category values sum to the total. |
| Fixer.FixTableFacts | auto_fix_critical_issues.py:24-53 | The five fix types have distinct names, and the method-level async rewrite precedes the simple one. Exactly the cached-lookup and the two async rules ask for a `using` line, and every such line is a single line. |
| Fixer.FixPassSplit | auto_fix_critical_issues.py:152-174 | Each rule sees the previous rule's output. Running the table in two parts is running the second part on the first part's text, with the records following each other. |
| Fixer.FixPassRecords | auto_fix_critical_issues.py:157-172 | A pass has no more records than the table has rules. Each record names the file, a rule of the table and that rule's description, and counts at least one match. |
| Fixer.FixPassRecordSteps | auto_fix_critical_issues.py:152-172 | Every record comes from some rule `j` applied to the text the earlier rules left. On that text `findall` found matches, `sub` changed it, and the record holds the file, rule `j`'s name and description, and the number of matches. |
| Fixer.FixPassRecordComplete | auto_fix_critical_issues.py:152-172 | Conversely, every rule `j` whose `findall` finds matches and whose `sub` changes the text the earlier rules left gets a record for that step. With `FixPassRecordSteps`, a record exists exactly for each such step. |
| Fixer.FixPassFiles | auto_fix_critical_issues.py:167-168 | Every record of a pass names the file the pass ran on. |
| Fixer.FixPassOrder | auto_fix_critical_issues.py:152-172 | With distinct rule names, a file's records follow table order strictly, so no fix type is recorded twice for one file. |
| Fixer.FixPassUnchanged | auto_fix_critical_issues.py:158-174 | A pass that records nothing leaves the text as it was. |
| Fixer.RuleIndexOfName | auto_fix_critical_issues.py:200-201 | With distinct names, looking up a rule's own name finds that rule. |
| Fixer.TotalCountAppend | auto_fix_critical_issues.py:164 | The summed counts of two record lists, one after the other, are the sum of their sums. |
| Fixer.FixEntriesWeight | auto_fix_critical_issues.py:245-251 | The (fix type, count) entries weigh as much as the records count in total. |
| Fixer.FilesModifiedBounds | auto_fix_critical_issues.py:124 | The number of distinct files among the records is never more than the number of records, and it is zero iff there is no record. A file whose write failed keeps its records, so it is counted too. |
| Fixer.ObligationsExact | auto_fix_critical_issues.py:194-205 | The obligations dictionary maps a file to a set holding a `using` line iff some record of that file has a fix type of the table that asks for that line. |
| Fixer.ObligationsNonEmpty | auto_fix_critical_issues.py:203-205 | No file in the dictionary is mapped to an empty set. |
| Fixer.ObligationsAsked | auto_fix_critical_issues.py:196-205 | A file is in the dictionary only if one of its records asks for some `using` line. |
| Fixer.ObligationsFromUsingRules | auto_fix_critical_issues.py:196-205 | With the fixer's own table, only records of the cached-lookup and the two async fix types give a file an obligation. |
| Fixer.ObligationsSingleLine | auto_fix_critical_issues.py:201-205 | When the table's `using` lines are single lines, so is every obligation. |
| Fixer.FirstAskSpec | auto_fix_critical_issues.py:196-204 | The position it gives is that of the first record of the file asking for a `using` line, and the number of records when none does. |
| Fixer.AskOrderSpec | auto_fix_critical_issues.py:194-208 | The key order lists exactly the files some record asks a `using` line for, each once, ordered by the position of each file's first such record: the dictionary's insertion order. |
| Fixer.AskOrderKeys | auto_fix_critical_issues.py:194-208 | The key order lists exactly the files that are keys of the obligations dictionary. |
| Fixer.UsingInsertIndexSpec | auto_fix_critical_issues.py:223-229 | The insertion point is 0 iff no line is a `using` line (`using static` excluded). Otherwise it is just after the last such line, and no later line is one. |
| Fixer.InsertAtFacts | auto_fix_critical_issues.py:231-234 | `InsertAt`, the closed form of the insertion, places the block at the insertion point. The lines before and after keep their order, and removing the block gives the original lines. The loop invariant of `AddUsingsToFile` proves that inserting one line after another at an advancing index builds `InsertAt`. |
| Fixer.PatchKeepsLines | auto_fix_critical_issues.py:223-234 | The patched file holds every original line, in order, with the missing `using` lines as one block at the insertion point. |
| Fixer.PatchedRoundTrip | auto_fix_critical_issues.py:223-238 | For newline-free `using` lines, splitting the written text gives back exactly the patched lines. |
| Fixer.PresentAfterPatch | auto_fix_critical_issues.py:216-238 | An inserted statement is in the written text. So is a single-line statement the file already contained. |
| Fixer.PatchIdempotent | auto_fix_critical_issues.py:216-238 | After the missing statements are inserted, none of the file's single-line statements is missing any more, so a second pass inserts nothing. |
| AutoFix.FileSystem.Read | auto_fix_critical_issues.py:145-146 | A read succeeds iff the file exists, and it returns the file's text. |
| AutoFix.FileSystem.Write | auto_fix_critical_issues.py:177-179 | A write fails iff the file is read-only, and then nothing changes. Otherwise only that file gets the new text, and the write is logged. |
| AutoFix.AutoFixer.constructor | auto_fix_critical_issues.py:24-63 | The fixer starts with the five-rule table, no records and no errors. Its table asks only for single-line `using` lines. |
| AutoFix.AutoFixer.ApplyFixes | auto_fix_critical_issues.py:152-174 | The rule loop yields the pass's final text. It appends exactly the pass's records, returns their summed counts and leaves the errors alone. |
| AutoFix.AutoFixer.FixFile | auto_fix_critical_issues.py:142-187 | An unreadable file gives one `Error fixing` message, result 0 and no record. Otherwise the pass's records are appended. An unchanged text is not written. A changed text is written. A write failure keeps the records but gives one error and result 0. Success returns the summed counts. At most this file is written. |
| AutoFix.AutoFixer.GetFixesByType | auto_fix_critical_issues.py:245-251 | The dictionary maps each recorded fix type to the sum of its records' counts, and its values sum to the total count. |
| AutoFix.AutoFixer.CollectObligations | auto_fix_critical_issues.py:194-205 | It builds exactly the obligations dictionary of the object's records. The keys it lists are that dictionary's keys, each once, in insertion order (`AskOrder`, characterised by `AskOrderSpec`). |
| AutoFix.AutoFixer.FindInsertIndex | auto_fix_critical_issues.py:223-229 | The loop finds the insertion point `UsingInsertIndexSpec` characterises. |
| AutoFix.AutoFixer.MissingStatements | auto_fix_critical_issues.py:216-219 | It lists each statement the text lacks exactly once, and no other. |
| AutoFix.AutoFixer.AddUsingsToFile | auto_fix_critical_issues.py:209-243 | An unreadable file, or one lacking nothing, is left alone. Otherwise exactly the lacking statements are inserted as a block at the insertion point. A writable file then gets the patched text, and a read-only one stays as it was. |
| AutoFix.AutoFixer.AddMissingUsingStatements | auto_fix_critical_issues.py:189-243 | Each readable file that owes `using` lines gets exactly its lacking lines inserted, and every other file is untouched. The writes are exactly the writable files that lacked something, each written once (`UsingWrites`). Afterwards no writable file lacks a line it owes. |
| AutoFix.UsingWritesStep | auto_fix_critical_issues.py:221-237 | Handling one more file in the `using` pass writes it exactly when it is writable and lacked something, so the log stays free of repeats. |
| AutoFix.AutoFixer.FixAllFiles | auto_fix_critical_issues.py:104-114 | The loop's files, records, errors, write log and total are exactly those of `FixRun`, the fold of `fix_file` over the paths. So new records and writes concern only non-protected paths of the run, and new errors are `Error fixing` messages of such paths. The total never exceeds the new records' summed counts, and equals it when nothing failed. |
| AutoFix.FixRunSnoc | auto_fix_critical_issues.py:104-111 | Running the loop over one more path is one more `fix_file` step on the state so far. |
| AutoFix.FixStepExtends | auto_fix_critical_issues.py:106-111 | One iteration appends only: records naming the path, at most its `Error fixing` message and at most a write of it. It leaves the other files alone, writes nothing for a read-only path, and changes nothing for a protected name. The total grows by the new records' counts, or by 0 on an error. |
| AutoFix.FixRunLogs | auto_fix_critical_issues.py:104-111 | Over the whole loop, the records, errors and writes only grow. The new records and writes are of processed paths, and the new errors are messages of processed paths. |
| AutoFix.FixRunTotal | auto_fix_critical_issues.py:104-111 | `total_fixes` never exceeds the new records' summed counts, and equals it when no file failed. |
| AutoFix.FixRunFiles | auto_fix_critical_issues.py:104-111 | The loop keeps the set of files, and a read-only or unprocessed file keeps its text. |
| AutoFix.AutoFixer.AutoFixAll | auto_fix_critical_issues.py:88-140 | The records, errors and total are those of the file loop's `FixRun`. The final files are that run's files after the `using` pass (`AfterUsings`), with one chosen list per obliged file that enumerates what it lacks; the `using` pass writes exactly the writable files that lacked something, each once; afterwards no writable obliged file lacks a line. `files_modified` is the number of distinct files over all records, including a file whose write failed. The per-type counts tally the records and sum to their total. The errors are the object's errors. Every file written was processed by this run or named by an earlier record. |
| AutoFix.UsingsSettled | auto_fix_critical_issues.py:208-238 | After the `using` pass, no writable file lacks any single-line statement it owes. |
| AutoFix.AfterUsingsStep | auto_fix_critical_issues.py:208-238 | Handling one more file in the `using` pass changes that file alone, and only when it is writable and lacked something. |
| AutoFix.TotalCountStep | auto_fix_critical_issues.py:110-111 | The running total over the run's records grows by exactly what the newly appended records count. |
| AutoFix.ObligedWritesProcessed | auto_fix_critical_issues.py:194-205 | A file that owes `using` lines after a run was processed by it or was named by a record from before it. |
| Text.StripFacts | complete_validation_runner.py:277 | `strip()` returns a slice of the line with only whitespace around it, and the slice neither starts nor ends with whitespace. |
| Text.JoinSplit | auto_fix_critical_issues.py:223 | Joining the pieces of `split('\n')` with newlines gives back the text. |
| Text.SplitJoin | auto_fix_critical_issues.py:238 | Splitting a newline-join of newline-free lines gives back the lines. |
| Text.ContainsInSomeLine | auto_fix_critical_issues.py:218 | A newline-free text found in a joined text is found within one of its lines. |
| Tally.AddToExtends | complete_validation_runner.py:366-367 | One `d[k] = d.get(k, 0) + w` step keeps the dictionary equal to the tally of the entries seen so far. |
| Tally.TallySum | auto_fix_critical_issues.py:247-251 | The values of a tally sum to the total weight of its entries. |

## Left out

- File discovery (`rglob("*.cs")`) is left out. Both runs take the list of paths, or of (path, content) pairs, as a parameter.
- The backup (`create_backup`), `save_report`, `save_fix_report` and `print_summary` are left out. They copy files and write reports and console text. The model assumes that all of them succeed. In the source a failure matters:
  - `create_backup` runs before the `try` (auto_fix_critical_issues.py:94), so its failure aborts `auto_fix_all_issues` before any file is read;
  - a failing `save_fix_report` (auto_fix_critical_issues.py:132) is re-raised (line 140) after the files have been written, so no report is returned;
  - a failing `save_report` (complete_validation_runner.py:238) makes `run_comprehensive_validation` raise instead of returning its report.
- The console output is left out, except where it carries a decision. The failure of `add_missing_using_statements` and the read failure of `analyze_file` are only printed, so the model leaves no trace of them.
- `analyze_project_structure` and `analyze_scenes` are left out. They inspect package manifests and scene files outside the core, and their issue lists are parameters of `RunValidation`.
- The `ThreadPoolExecutor` concurrency is left out. Results are gathered in submission order, which is the order the model uses.
- Timing is left out: `validation_time`, `execution_time`, the timestamp and the backup location.
- Regular expressions are not modelled. `re.search` with `IGNORECASE`, `re.findall` and `re.sub` are an oracle (`Regex.Engine`), and nothing is assumed about what a pattern matches.
- Exceptions are modelled only for I/O. A read fails when the path is absent; a write fails when the path is read-only. An exception raised by the regex engine is not modelled.
- AutoFix.FixError: the message keeps `Error fixing ` and the path but not the exception's text.
- Paths are `/`-separated: `BaseName` takes the part after the last `/`, where `Path.name` on Windows also splits at `\`. Paths are one string per file. The source records paths relative to the project root, and `add_missing_using_statements` re-joins them with the root to open the file. Since that mapping is one-to-one, the model keys files by the relative path throughout.
- Python's set iteration order, used when listing the missing `using` statements, is left open. `MissingStatements` may produce any order, and the contracts hold for every order.
- Severity is a three-valued datatype where the source uses the strings `Critical`, `Warning` and `Info`. Categories stay strings.
- `generate_summary`'s text is left out, except for the truncation of the critical list (`ListCritical`). The header lines, the category listing sorted by name and the emoji formatting are presentation only.
- Validator.RuleTableFacts: it does not prove that the 17 rule ids are distinct. Nothing in the runner depends on it, because rules are visited by position.
- The rule and fix tables hold the source's patterns, replacements and texts as written, but only the facts listed above are proved about them.
