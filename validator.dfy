/**
 * The line-based validator: a table of rules keyed by id, a matching loop
 * that tests every rule against every line of a file, a false-positive
 * filter, and the reduction of the issues found into a report.
 *
 * A pattern can only ever match inside one line; multi-line constructs are
 * never reported. The regex engine itself is the `Regex.Engine` oracle.
 */
module Validator {
  import opened Text
  import opened Wrappers
  import Regex
  import Tally

  /** The three severities an issue can have. */
  datatype Severity = Critical | Warning | Info

  /** One entry of the rule table; `id` is its key in the table. */
  datatype Rule = Rule(
    id: string,
    pattern: string,
    severity: Severity,
    category: string,
    description: string,
    solution: string,
    canAutoFix: bool)

  /** One reported problem. `line` is 1-based and `codeSnippet` is the stripped line. */
  datatype Issue = Issue(
    severity: Severity,
    category: string,
    file: string,
    line: nat,
    description: string,
    solution: string,
    canAutoFix: bool,
    codeSnippet: string)

  /** The number of rules in the table. */
  const RULE_COUNT := 17

  /**
   * Entry `k` of the rule table, in declaration order. The table is written
   * out section by section: performance, Unity 6 compliance, VR
   * optimisation, code quality, memory management, threading and error
   * handling.
   */
  function RuleAt(k: nat): Rule
    requires k < RULE_COUNT
  {
    if k < 4 then PerformanceRule(k)
    else if k < 7 then Unity6Rule(k)
    else if k < 10 then VrRule(k)
    else if k < 13 then CodeQualityRule(k)
    else if k < 15 then MemoryRule(k)
    else if k == 15 then
      Rule("invoke_without_check", @"Invoke\(", Info, "Threading",
        "Invoke without null checking can cause issues",
        "Add null checks before Invoke", false)
    else
      Rule("missing_null_check", @"\w+\.\w+\(", Info, "ErrorHandling",
        "Potential null reference access",
        "Add null checks where appropriate", false)
  }

  /** Entries 0 to 3: the performance rules. */
  function PerformanceRule(k: nat): Rule
    requires k < 4
  {
    match k
    case 0 => Rule("findobjectoftype", @"FindObjectOfType[<(]", Critical, "Performance",
             "FindObjectOfType causes VR performance issues (50-150ms spikes)",
             "Replace with CachedReferenceManager.Get<T>()", true)
    case 1 => Rule("linq_usage", @"(using System\.Linq|\.Where\(|\.Select\(|\.FirstOrDefault\()", Warning, "Performance",
             "LINQ causes GC allocations in VR (memory pressure)",
             "Replace with for loops or pre-allocated collections", false)
    case 2 => Rule("async_void", @"async\s+void\s+\w+", Critical, "AsyncPatterns",
             "async void can cause unhandled exceptions and memory leaks",
             "Change to async Task", true)
    case _ => Rule("string_concatenation", @"""\s*\+\s*\w+|\w+\s*\+\s*""", Warning, "Performance",
             "String concatenation in loops causes GC pressure",
             "Use StringBuilder or string interpolation", false)
  }

  /** Entries 4 to 6: the Unity 6 compliance rules. */
  function Unity6Rule(k: nat): Rule
    requires 4 <= k < 7
  {
    match k
    case 4 => Rule("legacy_coroutines", @"StartCoroutine\(", Warning, "Unity6Compliance",
             "Legacy coroutines, consider async/await for Unity 6",
             "Convert to async Task methods", false)
    case 5 => Rule("legacy_input", @"Input\.(GetButton|GetKey|GetAxis)", Warning, "Unity6Compliance",
             "Legacy Input system, Unity 6 uses new Input System",
             "Migrate to Unity Input System", false)
    case _ => Rule("resources_load", @"Resources\.Load[<(]", Warning, "Unity6Compliance",
             "Resources.Load is legacy, Unity 6 prefers Addressables",
             "Convert to Addressable Asset System", false)
  }

  /** Entries 7 to 9: the VR optimisation rules. */
  function VrRule(k: nat): Rule
    requires 7 <= k < 10
  {
    match k
    case 7 => Rule("instantiate_without_pool", @"Instantiate\(", Warning, "VROptimization",
             "Direct Instantiate causes GC pressure in VR",
             "Use object pooling", false)
    case 8 => Rule("getcomponent_in_update", @"GetComponent[<(].*\)", Warning, "VROptimization",
             "GetComponent calls should be cached for VR performance",
             "Cache component references in Start/Awake", false)
    case _ => Rule("camera_main", @"Camera\.main", Warning, "VROptimization",
             "Camera.main is slow, cache VR camera reference",
             "Cache camera reference at startup", false)
  }

  /** Entries 10 to 12: the code-quality rules. */
  function CodeQualityRule(k: nat): Rule
    requires 10 <= k < 13
  {
    match k
    case 10 => Rule("magic_numbers", @"=\s*[0-9]+\.?[0-9]*[f]?\s*[;}]", Info, "CodeQuality",
             "Magic numbers reduce code maintainability",
             "Replace with named constants", false)
    case 11 => Rule("empty_catch", @"catch[^{]*{\s*}", Warning, "CodeQuality",
             "Empty catch blocks hide errors",
             "Add proper error handling or logging", false)
    case _ => Rule("todo_fixme", @"(TODO|FIXME|HACK|BUG):", Info, "CodeQuality",
             "Unresolved development notes",
             "Address or document the issue", false)
  }

  /** Entries 13 to 14: the memory-management rules. */
  function MemoryRule(k: nat): Rule
    requires 13 <= k < 15
  {
    match k
    case 13 => Rule("list_add_in_update", @"\.Add\(", Warning, "MemoryManagement",
             "Collection modifications in Update can cause GC",
             "Pre-allocate collections or use object pooling", false)
    case _ => Rule("new_in_update", @"new\s+\w+\(", Warning, "MemoryManagement",
             "Object allocation in Update causes GC pressure",
             "Move allocations outside of Update or use pooling", false)
  }

  /** The rule table, in declaration order (the order the matching loop tries the rules). */
  function ValidationPatterns(): seq<Rule> {
    seq(RULE_COUNT, k requires 0 <= k < RULE_COUNT => RuleAt(k))
  }

  /**
   * A rule's flags as the table sets them: critical exactly when auto-fixable, which the entry at position `k` is
   * exactly when it is the cached-lookup rule (entry 0) or the async-void
   * rule (entry 2).
   */
  predicate FlagsAgree(rule: Rule, k: nat) {
    && (rule.canAutoFix <==> k == 0 || k == 2)
    && (rule.severity == Critical <==> rule.canAutoFix)
  }

  /** The flags of every rule of the table agree, and entries 0 and 2 are the two auto-fixable rules. */
  lemma RuleTableFacts()
    ensures |ValidationPatterns()| == RULE_COUNT
    ensures ValidationPatterns()[0].id == "findobjectoftype" && ValidationPatterns()[2].id == "async_void"
    ensures forall i :: 0 <= i < |ValidationPatterns()| ==> FlagsAgree(ValidationPatterns()[i], i)
  {
    var rules := ValidationPatterns();
    forall i | 0 <= i < |rules| ensures FlagsAgree(rules[i], i) {
      EntryFlags(i);
    }
    assert rules[0] == RuleAt(0) && rules[2] == RuleAt(2);
  }

  lemma EntryFlags(k: nat)
    requires k < RULE_COUNT
    ensures FlagsAgree(RuleAt(k), k)
  {
    if k < 4 {
      PerformanceFlags(k);
    } else if k < 7 {
      Unity6Flags(k);
    } else if k < 10 {
      VrFlags(k);
    } else if k < 13 {
      CodeQualityFlags(k);
    } else if k < 15 {
      MemoryFlags(k);
    }
  }

  lemma PerformanceFlags(k: nat)
    requires k < 4
    ensures FlagsAgree(PerformanceRule(k), k)
  {
  }

  lemma Unity6Flags(k: nat)
    requires 4 <= k < 7
    ensures FlagsAgree(Unity6Rule(k), k)
  {
  }

  lemma VrFlags(k: nat)
    requires 7 <= k < 10
    ensures FlagsAgree(VrRule(k), k)
  {
  }

  lemma CodeQualityFlags(k: nat)
    requires 10 <= k < 13
    ensures FlagsAgree(CodeQualityRule(k), k)
  {
  }

  lemma MemoryFlags(k: nat)
    requires 13 <= k < 15
    ensures FlagsAgree(MemoryRule(k), k)
  {
  }

  // ---------------------------------------------------------------------------
  // False-positive filter

  /** A line that, once stripped, starts like a comment. */
  predicate IsCommentLine(line: string) {
    StartsWith(Strip(line), "//") || StartsWith(Strip(line), "*")
  }

  /**
   * Suppression of a (line, rule) match: comment lines for every rule, plus
   * a rule-specific context for the cached-lookup and the async-void rules.
   */
  predicate IsFalsePositive(line: string, patternName: string)
  {
    || IsCommentLine(line)
    || (patternName == "findobjectoftype" && Contains(line, "CachedReferenceManager"))
    || (patternName == "async_void" && Contains(line, "async void Start("))
  }

  /** A marker that contains no whitespace still starts the line once it is stripped. */
  lemma {:induction false} MarkerSurvivesStrip(indent: string, marker: string, rest: string)
    requires forall i :: 0 <= i < |indent| ==> IsSpace(indent[i])
    requires marker != [] && forall i :: 0 <= i < |marker| ==> !IsSpace(marker[i])
    ensures StartsWith(Strip(indent + marker + rest), marker)
  {
    var body := marker + rest;
    assert indent + marker + rest == indent + body;
    assert body[0] == marker[0];
    TrimStartSkipsIndent(indent, body);
    var r := TrimEnd(body);
    TrimEndFacts(body);
    assert Strip(indent + body) == r;
    assert !IsSpace(body[|marker| - 1]) by {
      assert body[|marker| - 1] == marker[|marker| - 1];
    }
    assert r[..|marker|] == body[..|marker|];
    assert body[..|marker|] == marker;
  }

  /** Leading whitespace does not hide a comment from the filter, whatever the rule. */
  lemma IndentedCommentSuppressed(indent: string, marker: string, rest: string, patternName: string)
    requires forall i :: 0 <= i < |indent| ==> IsSpace(indent[i])
    requires marker == "//" || marker == "*"
    ensures IsFalsePositive(indent + marker + rest, patternName)
  {
    MarkerSurvivesStrip(indent, marker, rest);
  }

  lemma {:induction false} TrimStartSkipsIndent(indent: string, body: string)
    requires forall i :: 0 <= i < |indent| ==> IsSpace(indent[i])
    requires body != [] && !IsSpace(body[0])
    ensures TrimStart(indent + body) == body
  {
    if indent != [] {
      assert (indent + body)[1..] == indent[1..] + body;
      TrimStartSkipsIndent(indent[1..], body);
    }
  }

  /** Exactly when a line is suppressed, for each rule. */
  lemma FalsePositiveCases(line: string, patternName: string)
    ensures IsCommentLine(line) ==> IsFalsePositive(line, patternName)
    ensures patternName == "findobjectoftype" && !IsCommentLine(line) ==>
      (IsFalsePositive(line, patternName) <==> Contains(line, "CachedReferenceManager"))
    ensures patternName == "async_void" && !IsCommentLine(line) ==>
      (IsFalsePositive(line, patternName) <==> Contains(line, "async void Start("))
    ensures patternName != "findobjectoftype" && patternName != "async_void" ==>
      (IsFalsePositive(line, patternName) <==> IsCommentLine(line))
  {
  }

  // ---------------------------------------------------------------------------
  // Which (line, rule) pairs the matching loop reports

  /** A (line index, rule index) pair that the matching loop turns into an issue. */
  datatype Hit = Hit(lineIndex: nat, ruleIndex: nat)

  /** Line `i` matches rule `j` and the match is not a false positive. */
  predicate Reported(eng: Regex.Engine, rules: seq<Rule>, lines: seq<string>, i: nat, j: nat) {
    i < |lines| && j < |rules|
    && eng.searchIgnoreCase(rules[j].pattern, lines[i]) && !IsFalsePositive(lines[i], rules[j].id)
  }

  /** The relation `Reported` for one file's lines, as the matching loop sees it. */
  function ReportedBy(eng: Regex.Engine, rules: seq<Rule>, lines: seq<string>): (nat, nat) -> bool {
    (i: nat, j: nat) => Reported(eng, rules, lines, i, j)
  }

  /** Line-major, then rule-declaration order. */
  predicate Before(a: Hit, b: Hit) {
    a.lineIndex < b.lineIndex || (a.lineIndex == b.lineIndex && a.ruleIndex < b.ruleIndex)
  }

  predicate Ascending(hits: seq<Hit>) {
    forall a, b :: 0 <= a < b < |hits| ==> Before(hits[a], hits[b])
  }

  /** The reported pairs on line `i` among the first `m` rules, in rule order. */
  function LineHits(reported: (nat, nat) -> bool, i: nat, m: nat): (r: seq<Hit>)
    ensures forall k :: 0 <= k < |r| ==> r[k].lineIndex == i && r[k].ruleIndex < m
  {
    if m == 0 then []
    else LineHits(reported, i, m - 1) + (if reported(i, m - 1) then [Hit(i, m - 1)] else [])
  }

  /** The reported pairs on the first `n` lines against `width` rules, in the order the nested loops meet them. */
  function Hits(reported: (nat, nat) -> bool, n: nat, width: nat): (r: seq<Hit>)
    ensures forall k :: 0 <= k < |r| ==> r[k].lineIndex < n && r[k].ruleIndex < width
  {
    if n == 0 then []
    else Hits(reported, n - 1, width) + LineHits(reported, n - 1, width)
  }

  /** Every hit is a reported pair. */
  predicate AllReported(reported: (nat, nat) -> bool, hits: seq<Hit>) {
    forall k :: 0 <= k < |hits| ==> reported(hits[k].lineIndex, hits[k].ruleIndex)
  }

  /** Every reported pair of the `n` × `width` grid is a hit. */
  predicate CoversReported(reported: (nat, nat) -> bool, hits: seq<Hit>, n: nat, width: nat) {
    forall i, j :: 0 <= i < n && 0 <= j < width && reported(i, j) ==> Hit(i, j) in hits
  }

  /**
   * On one line: every hit is a reported pair of that line, every reported
   * pair is a hit, and the hits follow rule-declaration order.
   */
  lemma {:induction false} LineHitsExact(reported: (nat, nat) -> bool, i: nat, m: nat)
    ensures AllReported(reported, LineHits(reported, i, m))
    ensures forall j :: 0 <= j < m && reported(i, j) ==> Hit(i, j) in LineHits(reported, i, m)
    ensures Ascending(LineHits(reported, i, m))
  {
    if m > 0 {
      LineHitsExact(reported, i, m - 1);
    }
  }

  /** Every hit over the first `n` lines is a reported pair. */
  lemma {:induction false} HitsSound(reported: (nat, nat) -> bool, n: nat, width: nat)
    ensures AllReported(reported, Hits(reported, n, width))
  {
    if n > 0 {
      var prev := Hits(reported, n - 1, width);
      var last := LineHits(reported, n - 1, width);
      HitsSound(reported, n - 1, width);
      LineHitsExact(reported, n - 1, width);
      var r := prev + last;
      forall k | 0 <= k < |r| ensures reported(r[k].lineIndex, r[k].ruleIndex) {
        if k < |prev| {
          assert r[k] == prev[k];
        } else {
          assert r[k] == last[k - |prev|];
        }
      }
    }
  }

  /** Every reported pair over the first `n` lines is a hit. */
  lemma {:induction false} HitsComplete(reported: (nat, nat) -> bool, n: nat, width: nat)
    ensures CoversReported(reported, Hits(reported, n, width), n, width)
  {
    if n > 0 {
      var prev := Hits(reported, n - 1, width);
      var last := LineHits(reported, n - 1, width);
      HitsComplete(reported, n - 1, width);
      LineHitsExact(reported, n - 1, width);
      forall i, j | 0 <= i < n && 0 <= j < width && reported(i, j) ensures Hit(i, j) in prev + last {
        if i < n - 1 { assert Hit(i, j) in prev; } else { assert Hit(i, j) in last; }
      }
    }
  }

  /**
   * Hits are ordered by line, then by rule-declaration order. The order is
   * strict, so no pair is a hit twice.
   */
  lemma {:induction false} HitsAscending(reported: (nat, nat) -> bool, n: nat, width: nat)
    ensures Ascending(Hits(reported, n, width))
  {
    if n > 0 {
      var prev := Hits(reported, n - 1, width);
      var last := LineHits(reported, n - 1, width);
      HitsAscending(reported, n - 1, width);
      LineHitsExact(reported, n - 1, width);
      var r := prev + last;
      forall a, b | 0 <= a < b < |r| ensures Before(r[a], r[b]) {
        if b < |prev| {
          assert r[a] == prev[a] && r[b] == prev[b];
        } else if a >= |prev| {
          assert r[a] == last[a - |prev|] && r[b] == last[b - |prev|];
        } else {
          assert r[a] == prev[a] && r[b] == last[b - |prev|];
        }
      }
    }
  }

  // ---------------------------------------------------------------------------
  // Issues of one file

  /** The issue a rule yields for the line numbered `lineNum` (1-based). */
  function IssueOf(rule: Rule, file: string, lineNum: nat, line: string): Issue {
    Issue(rule.severity, rule.category, file, lineNum, rule.description, rule.solution,
          rule.canAutoFix, Strip(line))
  }

  predicate HitsInRange(hits: seq<Hit>, rules: seq<Rule>, lines: seq<string>) {
    forall k :: 0 <= k < |hits| ==> hits[k].lineIndex < |lines| && hits[k].ruleIndex < |rules|
  }

  function IssuesOfHits(rules: seq<Rule>, file: string, lines: seq<string>, hits: seq<Hit>): (r: seq<Issue>)
    requires HitsInRange(hits, rules, lines)
    ensures |r| == |hits|
  {
    if hits == [] then []
    else
      var init := hits[..|hits| - 1];
      var h := hits[|hits| - 1];
      IssuesOfHits(rules, file, lines, init) + [IssueOf(rules[h.ruleIndex], file, h.lineIndex + 1, lines[h.lineIndex])]
  }

  /** The issue at position `k` is the one its hit's rule yields for its hit's line. */
  lemma {:induction false} IssuesOfHitsAt(rules: seq<Rule>, file: string, lines: seq<string>, hits: seq<Hit>, k: nat)
    requires HitsInRange(hits, rules, lines) && k < |hits|
    ensures IssuesOfHits(rules, file, lines, hits)[k]
      == IssueOf(rules[hits[k].ruleIndex], file, hits[k].lineIndex + 1, lines[hits[k].lineIndex])
  {
    var init := hits[..|hits| - 1];
    if k < |hits| - 1 {
      IssuesOfHitsAt(rules, file, lines, init, k);
    }
  }

  /**
   * What the analysis of one file yields: nothing when the file cannot be read
   * (`content` is `None`), otherwise one issue per reported hit, in hit order.
   */
  function FileIssues(eng: Regex.Engine, rules: seq<Rule>, file: string, content: Option<string>): seq<Issue> {
    match content
    case None => []
    case Some(text) =>
      var lines := LinesOf(text);
      IssuesOfHits(rules, file, lines, Hits(ReportedBy(eng, rules, lines), |lines|, |rules|))
  }

  /**
   * The matching loop of one file: every line against every rule in table order,
   * skipping false positives. An unreadable file yields no issue.
   */
  method AnalyzeFile(eng: Regex.Engine, rules: seq<Rule>, file: string, content: Option<string>)
    returns (issues: seq<Issue>)
    ensures issues == FileIssues(eng, rules, file, content)
  {
    issues := [];
    if content.None? {
      return;
    }
    var lines := LinesOf(content.value);
    ghost var reported := ReportedBy(eng, rules, lines);
    var i := 0;
    while i < |lines|
      invariant 0 <= i <= |lines|
      invariant HitsInRange(Hits(reported, i, |rules|), rules, lines)
      invariant issues == IssuesOfHits(rules, file, lines, Hits(reported, i, |rules|))
    {
      var lineIssues := AnalyzeLine(eng, rules, file, lines, i);
      FileHitsStep(eng, rules, file, lines, i);
      issues := issues + lineIssues;
      i := i + 1;
    }
    assert FileIssues(eng, rules, file, content) == IssuesOfHits(rules, file, lines, Hits(reported, |lines|, |rules|));
  }

  /** One more line: its issues, in rule order, follow those of the lines before it. */
  lemma FileHitsStep(eng: Regex.Engine, rules: seq<Rule>, file: string, lines: seq<string>, i: nat)
    requires i < |lines|
    requires HitsInRange(Hits(ReportedBy(eng, rules, lines), i, |rules|), rules, lines)
    ensures var reported := ReportedBy(eng, rules, lines);
      && HitsInRange(LineHits(reported, i, |rules|), rules, lines)
      && HitsInRange(Hits(reported, i + 1, |rules|), rules, lines)
      && IssuesOfHits(rules, file, lines, Hits(reported, i + 1, |rules|))
         == IssuesOfHits(rules, file, lines, Hits(reported, i, |rules|))
            + IssuesOfHits(rules, file, lines, LineHits(reported, i, |rules|))
  {
    var reported := ReportedBy(eng, rules, lines);
    var before := Hits(reported, i, |rules|);
    var line := LineHits(reported, i, |rules|);
    assert HitsInRange(line, rules, lines);
    IssuesOfHitsAppend(rules, file, lines, before, line);
    assert Hits(reported, i + 1, |rules|) == before + line;
  }

  /** The inner loop: line `i` against every rule, in table order. */
  method AnalyzeLine(eng: Regex.Engine, rules: seq<Rule>, file: string, lines: seq<string>, i: nat)
    returns (lineIssues: seq<Issue>)
    requires i < |lines|
    ensures HitsInRange(LineHits(ReportedBy(eng, rules, lines), i, |rules|), rules, lines)
    ensures lineIssues == IssuesOfHits(rules, file, lines, LineHits(ReportedBy(eng, rules, lines), i, |rules|))
  {
    ghost var reported := ReportedBy(eng, rules, lines);
    var line := lines[i];
    lineIssues := [];
    var j := 0;
    while j < |rules|
      invariant 0 <= j <= |rules|
      invariant HitsInRange(LineHits(reported, i, j), rules, lines)
      invariant lineIssues == IssuesOfHits(rules, file, lines, LineHits(reported, i, j))
    {
      LineHitsStep(eng, rules, file, lines, i, j);
      if eng.searchIgnoreCase(rules[j].pattern, line) && !IsFalsePositive(line, rules[j].id) {
        lineIssues := lineIssues + [IssueOf(rules[j], file, i + 1, line)];
      }
      j := j + 1;
    }
  }

  /** One more rule on line `i`: a reported pair adds its issue, any other pair adds nothing. */
  lemma LineHitsStep(eng: Regex.Engine, rules: seq<Rule>, file: string, lines: seq<string>, i: nat, j: nat)
    requires i < |lines| && j < |rules|
    requires HitsInRange(LineHits(ReportedBy(eng, rules, lines), i, j), rules, lines)
    ensures var reported := ReportedBy(eng, rules, lines);
      && HitsInRange(LineHits(reported, i, j + 1), rules, lines)
      && IssuesOfHits(rules, file, lines, LineHits(reported, i, j + 1))
         == IssuesOfHits(rules, file, lines, LineHits(reported, i, j))
            + (if Reported(eng, rules, lines, i, j) then [IssueOf(rules[j], file, i + 1, lines[i])] else [])
  {
    var reported := ReportedBy(eng, rules, lines);
    var before := LineHits(reported, i, j);
    if Reported(eng, rules, lines, i, j) {
      assert reported(i, j);
      assert LineHits(reported, i, j + 1) == before + [Hit(i, j)];
      IssuesOfHitsSnoc(rules, file, lines, before, Hit(i, j));
    } else {
      assert !reported(i, j);
      assert LineHits(reported, i, j + 1) == before;
    }
  }

  lemma {:induction false} IssuesOfHitsAppend(rules: seq<Rule>, file: string, lines: seq<string>, a: seq<Hit>, b: seq<Hit>)
    requires HitsInRange(a, rules, lines) && HitsInRange(b, rules, lines)
    ensures HitsInRange(a + b, rules, lines)
    ensures IssuesOfHits(rules, file, lines, a + b)
      == IssuesOfHits(rules, file, lines, a) + IssuesOfHits(rules, file, lines, b)
  {
    if b == [] {
      assert a + b == a;
    } else {
      var init := b[..|b| - 1];
      var h := b[|b| - 1];
      assert b == init + [h];
      assert HitsInRange(init, rules, lines) by {
        forall k | 0 <= k < |init| ensures init[k].lineIndex < |lines| && init[k].ruleIndex < |rules| {
          assert init[k] == b[k];
        }
      }
      IssuesOfHitsSnoc(rules, file, lines, init, h);
      IssuesOfHitsAppend(rules, file, lines, a, init);
      assert a + b == (a + init) + [h];
      IssuesOfHitsSnoc(rules, file, lines, a + init, h);
    }
  }

  lemma IssuesOfHitsSnoc(rules: seq<Rule>, file: string, lines: seq<string>, hits: seq<Hit>, h: Hit)
    requires HitsInRange(hits, rules, lines) && h.lineIndex < |lines| && h.ruleIndex < |rules|
    ensures HitsInRange(hits + [h], rules, lines)
    ensures IssuesOfHits(rules, file, lines, hits + [h])
      == IssuesOfHits(rules, file, lines, hits) + [IssueOf(rules[h.ruleIndex], file, h.lineIndex + 1, lines[h.lineIndex])]
  {
    assert (hits + [h])[..|hits|] == hits;
  }

  /** The hits of one file's lines, in the order the matching loop meets them. */
  function FileHits(eng: Regex.Engine, rules: seq<Rule>, lines: seq<string>): seq<Hit> {
    Hits(ReportedBy(eng, rules, lines), |lines|, |rules|)
  }

  /**
   * The issues of a readable file, position by position: issue `k` is what the
   * rule of hit `k` yields for the line of hit `k`, and the hits ascend by line,
   * then by rule-declaration order.
   */
  lemma FileIssuesFollowHits(eng: Regex.Engine, rules: seq<Rule>, file: string, text: string)
    ensures var lines := LinesOf(text);
      var hits := FileHits(eng, rules, lines);
      var issues := FileIssues(eng, rules, file, Some(text));
      && |issues| == |hits| && Ascending(hits) && AllReported(ReportedBy(eng, rules, lines), hits)
      && forall k :: 0 <= k < |hits| ==>
           hits[k].lineIndex < |lines| && hits[k].ruleIndex < |rules|
           && issues[k] == IssueOf(rules[hits[k].ruleIndex], file, hits[k].lineIndex + 1, lines[hits[k].lineIndex])
  {
    var lines := LinesOf(text);
    HitIssues(eng, rules, file, lines);
    assert FileIssues(eng, rules, file, Some(text)) == IssuesOfHits(rules, file, lines, FileHits(eng, rules, lines));
  }

  /** The same, for the lines of a text: issue `k` comes from hit `k`, and the hits ascend and are reported pairs. */
  lemma HitIssues(eng: Regex.Engine, rules: seq<Rule>, file: string, lines: seq<string>)
    ensures var hits := FileHits(eng, rules, lines);
      && HitsInRange(hits, rules, lines)
      && |IssuesOfHits(rules, file, lines, hits)| == |hits|
      && Ascending(hits) && AllReported(ReportedBy(eng, rules, lines), hits)
      && forall k :: 0 <= k < |hits| ==>
           IssuesOfHits(rules, file, lines, hits)[k]
           == IssueOf(rules[hits[k].ruleIndex], file, hits[k].lineIndex + 1, lines[hits[k].lineIndex])
  {
    var reported := ReportedBy(eng, rules, lines);
    var hits := FileHits(eng, rules, lines);
    HitsAscending(reported, |lines|, |rules|);
    HitsSound(reported, |lines|, |rules|);
    forall k | 0 <= k < |hits|
      ensures IssuesOfHits(rules, file, lines, hits)[k]
        == IssueOf(rules[hits[k].ruleIndex], file, hits[k].lineIndex + 1, lines[hits[k].lineIndex])
    {
      IssuesOfHitsAt(rules, file, lines, hits, k);
    }
  }

  /**
   * Soundness: every issue of a readable file names a line of it (1-based), and
   * some rule matches that line, is not a false positive there, and gave the
   * issue its severity, category, description, solution and auto-fix flag; the
   * snippet is the stripped line.
   */
  lemma FileIssueSound(eng: Regex.Engine, rules: seq<Rule>, file: string, text: string, k: nat)
    requires k < |FileIssues(eng, rules, file, Some(text))|
    ensures var lines := LinesOf(text);
      var issue := FileIssues(eng, rules, file, Some(text))[k];
      && issue.file == file && 1 <= issue.line <= |lines| && issue.codeSnippet == Strip(lines[issue.line - 1])
      && exists j :: 0 <= j < |rules| && Reported(eng, rules, lines, issue.line - 1, j)
           && issue == IssueOf(rules[j], file, issue.line, lines[issue.line - 1])
  {
    var lines := LinesOf(text);
    var hits := FileHits(eng, rules, lines);
    FileIssuesFollowHits(eng, rules, file, text);
    var h := hits[k];
    assert ReportedBy(eng, rules, lines)(h.lineIndex, h.ruleIndex);
    assert Reported(eng, rules, lines, h.lineIndex, h.ruleIndex);
  }

  /** Completeness: every reported (line, rule) pair of a readable file yields its issue. */
  lemma FileIssueComplete(eng: Regex.Engine, rules: seq<Rule>, file: string, text: string, i: nat, j: nat)
    requires Reported(eng, rules, LinesOf(text), i, j)
    ensures IssueOf(rules[j], file, i + 1, LinesOf(text)[i]) in FileIssues(eng, rules, file, Some(text))
  {
    var lines := LinesOf(text);
    HitIssueComplete(eng, rules, file, lines, i, j);
    assert FileIssues(eng, rules, file, Some(text)) == IssuesOfHits(rules, file, lines, FileHits(eng, rules, lines));
  }

  /** The same, for the lines of a text. */
  lemma HitIssueComplete(eng: Regex.Engine, rules: seq<Rule>, file: string, lines: seq<string>, i: nat, j: nat)
    requires Reported(eng, rules, lines, i, j)
    ensures HitsInRange(FileHits(eng, rules, lines), rules, lines)
    ensures IssueOf(rules[j], file, i + 1, lines[i]) in IssuesOfHits(rules, file, lines, FileHits(eng, rules, lines))
  {
    var reported := ReportedBy(eng, rules, lines);
    var hits := FileHits(eng, rules, lines);
    HitsComplete(reported, |lines|, |rules|);
    assert reported(i, j);
    assert Hit(i, j) in hits;
    var k :| 0 <= k < |hits| && hits[k] == Hit(i, j);
    IssuesOfHitsAt(rules, file, lines, hits, k);
    var issues := IssuesOfHits(rules, file, lines, hits);
    assert issues[k] == IssueOf(rules[j], file, i + 1, lines[i]);
  }

  /** The issues of a file come out in non-decreasing line order. */
  lemma FileIssuesByLine(eng: Regex.Engine, rules: seq<Rule>, file: string, text: string)
    ensures var issues := FileIssues(eng, rules, file, Some(text));
      forall a, b :: 0 <= a < b < |issues| ==> issues[a].line <= issues[b].line
  {
    var hits := FileHits(eng, rules, LinesOf(text));
    FileIssuesFollowHits(eng, rules, file, text);
    assert forall a, b :: 0 <= a < b < |hits| ==> Before(hits[a], hits[b]);
  }

  /** The (line, rule) pairs of a file that the filter lets through. */
  ghost function ReportedPairs(eng: Regex.Engine, rules: seq<Rule>, lines: seq<string>): set<Hit> {
    set i: nat, j: nat | i < |lines| && j < |rules| && Reported(eng, rules, lines, i, j) :: Hit(i, j)
  }

  /** Exactly one issue per reported (line, rule) pair: as many issues as pairs. */
  lemma FileIssuesCount(eng: Regex.Engine, rules: seq<Rule>, file: string, text: string)
    ensures |FileIssues(eng, rules, file, Some(text))| == |ReportedPairs(eng, rules, LinesOf(text))|
  {
    var lines := LinesOf(text);
    var reported := ReportedBy(eng, rules, lines);
    var hits := FileHits(eng, rules, lines);
    FileIssuesFollowHits(eng, rules, file, text);
    HitsComplete(reported, |lines|, |rules|);
    var pairs := ReportedPairs(eng, rules, lines);
    assert (set h | h in hits) == pairs by {
      forall h | h in hits ensures h in pairs {
        var k :| 0 <= k < |hits| && hits[k] == h;
        assert reported(h.lineIndex, h.ruleIndex);
      }
      forall h | h in pairs ensures h in hits {
        assert reported(h.lineIndex, h.ruleIndex);
      }
    }
    DistinctCard(hits);
  }

  /** Hits in strictly ascending order are distinct, so they make a set of the same size. */
  lemma {:induction false} DistinctCard(hits: seq<Hit>)
    requires Ascending(hits)
    ensures |(set h | h in hits)| == |hits|
  {
    if hits != [] {
      var init := hits[..|hits| - 1];
      var last := hits[|hits| - 1];
      assert Ascending(init) by {
        forall a, b | 0 <= a < b < |init| ensures Before(init[a], init[b]) {
          assert init[a] == hits[a] && init[b] == hits[b];
        }
      }
      DistinctCard(init);
      assert last !in init by {
        forall a | 0 <= a < |init| ensures init[a] != last {
          assert Before(hits[a], hits[|hits| - 1]);
        }
      }
      assert (set h | h in hits) == (set h | h in init) + {last} by {
        assert hits == init + [last];
      }
    }
  }

  // ---------------------------------------------------------------------------
  // Reducing the issues into a report

  /** `[i for i in issues if i.severity == s]` */
  function OfSeverity(issues: seq<Issue>, s: Severity): (r: seq<Issue>)
    ensures |r| <= |issues|
    ensures forall k :: 0 <= k < |r| ==> r[k].severity == s && r[k] in issues
    ensures forall k :: 0 <= k < |issues| && issues[k].severity == s ==> issues[k] in r
  {
    if issues == [] then []
    else
      var init := issues[..|issues| - 1];
      var last := issues[|issues| - 1];
      assert forall k :: 0 <= k < |init| ==> init[k] == issues[k];
      OfSeverity(init, s) + (if last.severity == s then [last] else [])
  }

  /** `[i for i in issues if i.category == c]` */
  function OfCategory(issues: seq<Issue>, c: string): (r: seq<Issue>)
    ensures |r| <= |issues|
    ensures forall k :: 0 <= k < |r| ==> r[k].category == c && r[k] in issues
    ensures forall k :: 0 <= k < |issues| && issues[k].category == c ==> issues[k] in r
  {
    if issues == [] then []
    else
      var init := issues[..|issues| - 1];
      var last := issues[|issues| - 1];
      assert forall k :: 0 <= k < |init| ==> init[k] == issues[k];
      OfCategory(init, c) + (if last.category == c then [last] else [])
  }

  /** Every issue has one of the three severities, so the three severity counts add up to the total. */
  lemma {:induction false} SeverityPartition(issues: seq<Issue>)
    ensures |OfSeverity(issues, Critical)| + |OfSeverity(issues, Warning)| + |OfSeverity(issues, Info)| == |issues|
  {
    if issues != [] {
      var init := issues[..|issues| - 1];
      assert forall k :: 0 <= k < |init| ==> init[k] == issues[k];
      SeverityPartition(init);
    }
  }

  /** The (category, 1) pairs the category-counting loop adds, one per issue. */
  function CategoryEntries(issues: seq<Issue>): (r: seq<(string, nat)>)
    ensures |r| == |issues|
  {
    seq(|issues|, k requires 0 <= k < |issues| => (issues[k].category, 1))
  }

  /** `m` has exactly the categories present as keys, each mapped to its number of issues. */
  predicate CountsCategories(m: map<string, nat>, issues: seq<Issue>) {
    && m.Keys == (set k | 0 <= k < |issues| :: issues[k].category)
    && (forall c :: c in m ==> m[c] == |OfCategory(issues, c)|)
  }

  /** The tally of the category entries counts, for each category, the issues in it. */
  lemma {:induction false} CategoryWeight(issues: seq<Issue>, c: string)
    ensures Tally.KeyWeight(CategoryEntries(issues), c) == |OfCategory(issues, c)|
  {
    if issues != [] {
      var init := issues[..|issues| - 1];
      assert CategoryEntries(issues)[..|issues| - 1] == CategoryEntries(init);
      CategoryWeight(init, c);
    }
  }

  /** Every issue weighs one, so the entries weigh as many as there are issues. */
  lemma {:induction false} CategoryTotal(issues: seq<Issue>)
    ensures Tally.TotalWeight(CategoryEntries(issues)) == |issues|
  {
    if issues != [] {
      var init := issues[..|issues| - 1];
      assert CategoryEntries(issues)[..|issues| - 1] == CategoryEntries(init);
      CategoryTotal(init);
    }
  }

  /**
   * A dictionary built by the counting loop over all the issues has the
   * categories present as keys, per-category issue counts as values, and
   * values summing to the number of issues.
   */
  lemma CategoryTally(m: map<string, nat>, issues: seq<Issue>)
    requires Tally.IsTally(m, CategoryEntries(issues))
    ensures CountsCategories(m, issues)
    ensures Tally.SumValues(m) == |issues|
  {
    var e := CategoryEntries(issues);
    assert m.Keys == (set k | 0 <= k < |issues| :: issues[k].category) by {
      assert forall k :: 0 <= k < |issues| ==> e[k].0 == issues[k].category;
    }
    forall c | c in m ensures m[c] == |OfCategory(issues, c)| {
      CategoryWeight(issues, c);
    }
    Tally.TallySum(m, e);
    CategoryTotal(issues);
  }

  /** The report; the validation time and the summary text are not modelled. */
  datatype ValidationReport = ValidationReport(
    totalIssues: nat,
    criticalIssues: nat,
    warningIssues: nat,
    infoIssues: nat,
    issuesByCategory: map<string, nat>,
    allIssues: seq<Issue>,
    isDeploymentReady: bool)

  /** The category-counting loop: `d[i.category] = d.get(i.category, 0) + 1` for each issue in turn. */
  method CountByCategory(allIssues: seq<Issue>) returns (byCategory: map<string, nat>)
    ensures Tally.IsTally(byCategory, CategoryEntries(allIssues))
  {
    byCategory := map[];
    var i := 0;
    while i < |allIssues|
      invariant 0 <= i <= |allIssues|
      invariant Tally.IsTally(byCategory, CategoryEntries(allIssues[..i]))
    {
      var c := allIssues[i].category;
      CategoryEntriesSnoc(allIssues, i);
      Tally.AddToExtends(byCategory, CategoryEntries(allIssues[..i]), c, 1);
      byCategory := byCategory[c := (if c in byCategory then byCategory[c] else 0) + 1];
      i := i + 1;
    }
    assert allIssues[..i] == allIssues;
  }

  lemma CategoryEntriesSnoc(issues: seq<Issue>, i: nat)
    requires i < |issues|
    ensures CategoryEntries(issues[..i + 1]) == CategoryEntries(issues[..i]) + [(issues[i].category, 1)]
  {
  }

  /** No issue is critical. */
  predicate NoCritical(issues: seq<Issue>) {
    forall k :: 0 <= k < |issues| ==> issues[k].severity != Critical
  }

  /** The critical filter is empty exactly when no issue is critical. */
  lemma DeploymentVerdict(issues: seq<Issue>)
    ensures |OfSeverity(issues, Critical)| == 0 <==> NoCritical(issues)
  {
    if !NoCritical(issues) {
      var k :| 0 <= k < |issues| && issues[k].severity == Critical;
      assert issues[k] in OfSeverity(issues, Critical);
    }
  }

  /**
   * The reduction of the issues: severity counts from the three filters, the
   * category dictionary from the counting loop, and the deployment verdict.
   */
  method GenerateReport(allIssues: seq<Issue>) returns (report: ValidationReport)
    ensures report.allIssues == allIssues && report.totalIssues == |allIssues|
    ensures report.criticalIssues == |OfSeverity(allIssues, Critical)|
    ensures report.warningIssues == |OfSeverity(allIssues, Warning)|
    ensures report.infoIssues == |OfSeverity(allIssues, Info)|
    ensures CountsCategories(report.issuesByCategory, allIssues)
    ensures Tally.SumValues(report.issuesByCategory) == report.totalIssues
    ensures report.isDeploymentReady <==> NoCritical(allIssues)
    ensures report.criticalIssues + report.warningIssues + report.infoIssues == report.totalIssues
  {
    var critical := OfSeverity(allIssues, Critical);
    var warning := OfSeverity(allIssues, Warning);
    var info := OfSeverity(allIssues, Info);
    var byCategory := CountByCategory(allIssues);
    CategoryTally(byCategory, allIssues);
    SeverityPartition(allIssues);
    DeploymentVerdict(allIssues);
    report := ValidationReport(|allIssues|, |critical|, |warning|, |info|, byCategory, allIssues, |critical| == 0);
  }

  /** How many critical issues the summary lists before it says how many more there are. */
  const CRITICAL_SHOWN := 10

  /** The critical issues the summary lists, and the count of its "... and N more" line if it has one. */
  datatype CriticalListing = CriticalListing(shown: seq<Issue>, more: Option<nat>)

  /**
   * The summary lists the first ten critical issues, in order, and adds a
   * "... and N more" line exactly when there are more than ten.
   */
  function ListCritical(issues: seq<Issue>): (r: CriticalListing)
    ensures var critical := OfSeverity(issues, Critical);
      && |r.shown| <= CRITICAL_SHOWN && r.shown <= critical
      && (|critical| <= CRITICAL_SHOWN ==> r.shown == critical)
      && (r.more.Some? <==> |critical| > CRITICAL_SHOWN)
      && (r.more.Some? ==> r.more.value > 0 && |r.shown| + r.more.value == |critical|)
    ensures var critical := OfSeverity(issues, Critical);
      && r.shown == critical[..if |critical| <= CRITICAL_SHOWN then |critical| else CRITICAL_SHOWN]
      && (r.more.Some? ==> r.more.value == |critical| - CRITICAL_SHOWN)
  {
    var critical := OfSeverity(issues, Critical);
    var shown := if |critical| <= CRITICAL_SHOWN then critical else critical[..CRITICAL_SHOWN];
    CriticalListing(shown, if |critical| > CRITICAL_SHOWN then Some(|critical| - CRITICAL_SHOWN) else None)
  }

  /** Every listed issue is critical and is one of the issues. */
  lemma ListedAreCritical(issues: seq<Issue>)
    ensures var shown := ListCritical(issues).shown;
      forall k :: 0 <= k < |shown| ==> shown[k].severity == Critical && shown[k] in issues
  {
    var critical := OfSeverity(issues, Critical);
    var shown := ListCritical(issues).shown;
    forall k | 0 <= k < |shown| ensures shown[k].severity == Critical && shown[k] in issues {
      assert shown[k] == critical[k];
    }
  }

  /** The files to analyse: each with its project-relative path and its content, `None` when unreadable. */
  type SourceFile = (string, Option<string>)

  /** The analysis of each file, in the order given. */
  function PerFileIssues(eng: Regex.Engine, rules: seq<Rule>, files: seq<SourceFile>): (r: seq<seq<Issue>>)
    ensures |r| == |files|
  {
    seq(|files|, f requires 0 <= f < |files| => FileIssues(eng, rules, files[f].0, files[f].1))
  }

  /** Lists of issues, one after the other. */
  function Concat(lists: seq<seq<Issue>>): seq<Issue> {
    if lists == [] then [] else Concat(lists[..|lists| - 1]) + lists[|lists| - 1]
  }

  /** The issues of all files, file after file in the order given. */
  function AllFileIssues(eng: Regex.Engine, rules: seq<Rule>, files: seq<SourceFile>): seq<Issue> {
    Concat(PerFileIssues(eng, rules, files))
  }

  /** One more file: the issues of a longer prefix of the files are that file's issues appended. */
  lemma AllFileIssuesSnoc(eng: Regex.Engine, rules: seq<Rule>, files: seq<SourceFile>, f: nat)
    requires f < |files|
    ensures AllFileIssues(eng, rules, files[..f + 1])
      == AllFileIssues(eng, rules, files[..f]) + FileIssues(eng, rules, files[f].0, files[f].1)
  {
    var lists := PerFileIssues(eng, rules, files[..f + 1]);
    assert lists[..f] == PerFileIssues(eng, rules, files[..f]);
  }

  /** Every element of a concatenation comes from one of the lists. */
  lemma {:induction false} ConcatFrom(lists: seq<seq<Issue>>, k: nat)
    requires k < |Concat(lists)|
    ensures exists f :: 0 <= f < |lists| && Concat(lists)[k] in lists[f]
  {
    var init := lists[..|lists| - 1];
    var last := |lists| - 1;
    var prev := Concat(init);
    if k < |prev| {
      ConcatFrom(init, k);
      var f :| 0 <= f < |init| && prev[k] in init[f];
      assert init[f] == lists[f];
    } else {
      assert Concat(lists)[k] == lists[last][k - |prev|];
    }
  }

  /** Every issue of the whole run comes from the analysis of one of the files. */
  lemma AllFileIssuesFrom(eng: Regex.Engine, rules: seq<Rule>, files: seq<SourceFile>, k: nat)
    requires k < |AllFileIssues(eng, rules, files)|
    ensures exists f :: 0 <= f < |files| && AllFileIssues(eng, rules, files)[k] in PerFileIssues(eng, rules, files)[f]
  {
    ConcatFrom(PerFileIssues(eng, rules, files), k);
  }

  /** An issue of a file's analysis names that file. */
  lemma FileIssueNamesFile(eng: Regex.Engine, rules: seq<Rule>, file: string, content: Option<string>, k: nat)
    requires k < |FileIssues(eng, rules, file, content)|
    ensures FileIssues(eng, rules, file, content)[k].file == file
  {
    FileIssueSound(eng, rules, file, content.value, k);
  }

  /**
   * A whole run: the per-file analyses in order, then the project-structure
   * issues, then the scene issues, reduced into one report.
   */
  method RunValidation(eng: Regex.Engine, files: seq<SourceFile>, projectIssues: seq<Issue>, sceneIssues: seq<Issue>)
    returns (report: ValidationReport)
    ensures report.allIssues == AllFileIssues(eng, ValidationPatterns(), files) + projectIssues + sceneIssues
    ensures report.totalIssues == |report.allIssues|
    ensures report.criticalIssues == |OfSeverity(report.allIssues, Critical)|
    ensures report.warningIssues == |OfSeverity(report.allIssues, Warning)|
    ensures report.infoIssues == |OfSeverity(report.allIssues, Info)|
    ensures CountsCategories(report.issuesByCategory, report.allIssues)
    ensures Tally.SumValues(report.issuesByCategory) == report.totalIssues
    ensures report.isDeploymentReady <==> NoCritical(report.allIssues)
  {
    var rules := ValidationPatterns();
    var allIssues: seq<Issue> := [];
    var f := 0;
    while f < |files|
      invariant 0 <= f <= |files|
      invariant allIssues == AllFileIssues(eng, rules, files[..f])
    {
      var issues := AnalyzeFile(eng, rules, files[f].0, files[f].1);
      AllFileIssuesSnoc(eng, rules, files, f);
      allIssues := allIssues + issues;
      f := f + 1;
    }
    assert files[..f] == files;
    allIssues := allIssues + projectIssues + sceneIssues;
    report := GenerateReport(allIssues);
  }
}
