/**
 * What the auto-fixer computes, as values: the ordered table of rewrite
 * rules, the pass that folds them over one file's text, the per-file
 * `using` obligations gathered from the fix records, and the insertion of the
 * missing `using` lines. The `AutoFix` module runs these through the
 * fixer's state and the file system.
 */
module Fixer {
  import opened Text
  import opened Wrappers
  import Regex
  import Tally

  /** One entry of the fix table; `name` is its key and becomes a record's fix type. */
  datatype FixRule = FixRule(
    name: string,
    pattern: string,
    replacement: string,
    description: string,
    addUsing: Option<string>)

  /** The number of rules in the fix table. */
  const FIX_RULE_COUNT := 5

  /** Entry `k` of the fix table, in declaration order. */
  function FixRuleAt(k: nat): FixRule
    requires k < FIX_RULE_COUNT
  {
    match k
    case 0 => FixRule("findobjectoftype", @"FindObjectOfType<([^>]+)>\(\)", @"CachedReferenceManager.Get<\1>()",
                      "Replace FindObjectOfType with cached reference manager", Some("using VRBoxingGame.Core;"))
    case 1 => FixRule("async_void_methods", @"(private|public|protected|internal)?\s*(async\s+void\s+)(\w+)\s*\(",
                      @"\1 async Task \3(", "Convert async void to async Task", Some("using System.Threading.Tasks;"))
    case 2 => FixRule("async_void_simple", @"async\s+void\s+(\w+)\s*\(", @"async Task \1(",
                      "Convert simple async void to async Task", Some("using System.Threading.Tasks;"))
    case 3 => FixRule("legacy_resources_load", @"Resources\.Load<([^>]+)>\(""([^""]+)""\)",
                      @"// TODO: Convert to Addressables - Resources.Load<\1>(""\2"")",
                      "Mark Resources.Load for conversion to Addressables", None)
    case _ => FixRule("string_concatenation_simple", @"(""[^""]*"")\s*\+\s*(\w+)\s*\+\s*(""[^""]*"")", @"$""\1{\2}\3""",
                      "Convert simple string concatenation to interpolation", None)
  }

  /** The fix table, in declaration order: the order `fix_file` applies the rules in. */
  function FixPatterns(): (rules: seq<FixRule>)
    ensures |rules| == FIX_RULE_COUNT
  {
    seq(FIX_RULE_COUNT, k requires 0 <= k < FIX_RULE_COUNT => FixRuleAt(k))
  }

  /** The fix types whose rules ask for a `using` line. */
  const USING_FIX_TYPES: set<string> := {"findobjectoftype", "async_void_methods", "async_void_simple"}

  /** No two rules share a name. */
  predicate DistinctNames(rules: seq<FixRule>) {
    forall a, b :: 0 <= a < b < |rules| ==> rules[a].name != rules[b].name
  }

  /** Every `using` line a rule asks for is a single line. */
  predicate SingleLineUsings(rules: seq<FixRule>) {
    forall j :: 0 <= j < |rules| && rules[j].addUsing.Some? ==> '\n' !in rules[j].addUsing.value
  }

  /** A rule asks for a `using` line exactly when its name is a `using` fix type. */
  predicate UsingAgrees(rule: FixRule) {
    rule.addUsing.Some? <==> rule.name in USING_FIX_TYPES
  }

  /** The rules' names, in table order. */
  const FIX_NAMES: seq<string> :=
    ["findobjectoftype", "async_void_methods", "async_void_simple", "legacy_resources_load", "string_concatenation_simple"]

  /** The `using` lines the table asks for. */
  const USING_LINES: set<string> := {"using VRBoxingGame.Core;", "using System.Threading.Tasks;"}

  /**
   * The table's shape: distinct names; the method-level async rewrite comes
   * before the simple one; exactly the cached-lookup and the two async rules
   * ask for a `using` line, and each such line is a single line.
   */
  lemma FixTableFacts()
    ensures DistinctNames(FixPatterns())
    ensures SingleLineUsings(FixPatterns())
    ensures FixPatterns()[1].name == "async_void_methods" && FixPatterns()[2].name == "async_void_simple"
    ensures forall j :: 0 <= j < FIX_RULE_COUNT ==> UsingAgrees(FixPatterns()[j])
  {
    var rules := FixPatterns();
    forall j | 0 <= j < FIX_RULE_COUNT
      ensures rules[j].name == FIX_NAMES[j] && UsingAgrees(rules[j])
      ensures rules[j].addUsing.Some? ==> rules[j].addUsing.value in USING_LINES
    {
      FixEntryName(j);
      FixEntryUsing(j);
    }
    FixNamesDistinct();
    UsingLinesSingle();
  }

  /** Entry `k` carries the `k`-th name. */
  lemma FixEntryName(k: nat)
    requires k < FIX_RULE_COUNT
    ensures FixRuleAt(k).name == FIX_NAMES[k]
  {
  }

  /** Entry `k` asks for a `using` line exactly when its name is a `using` fix type, and the line is one of the table's. */
  lemma FixEntryUsing(k: nat)
    requires k < FIX_RULE_COUNT
    ensures UsingAgrees(FixRuleAt(k))
    ensures FixRuleAt(k).addUsing.Some? ==> FixRuleAt(k).addUsing.value in USING_LINES
  {
  }

  lemma FixNamesDistinct()
    ensures forall a, b :: 0 <= a < b < |FIX_NAMES| ==> FIX_NAMES[a] != FIX_NAMES[b]
  {
    var lengths := [16, 18, 17, 21, 27];
    forall j | 0 <= j < |FIX_NAMES| ensures |FIX_NAMES[j]| == lengths[j] {
      if j == 0 {} else if j == 1 {} else if j == 2 {} else if j == 3 {} else {}
    }
  }

  lemma UsingLinesSingle()
    ensures forall u :: u in USING_LINES ==> '\n' !in u
  {
  }

  /** Files the fixer never touches, by file name. */
  const SKIP_FILES: set<string> := {"EnhancingPromptSystem.cs", "CachedReferenceManager.cs", "BaselineProfiler.cs"}

  /** One applied fix: the project-relative file, the rule's name and description, and the match count. */
  datatype FixRecord = FixRecord(file: string, fixType: string, description: string, count: nat)

  /** The text after a pass of rules over a file, and the records the pass kept, in order. */
  datatype Pass = Pass(content: string, records: seq<FixRecord>)

  /**
   * One rule on the current text: a record only when `findall` finds
   * something and `sub` changes the text; otherwise the text stays.
   */
  function ApplyFix(eng: Regex.Engine, rule: FixRule, file: string, content: string): Pass {
    var matches := eng.findAll(rule.pattern, content);
    if |matches| > 0 then
      var newContent := eng.sub(rule.pattern, rule.replacement, content);
      if newContent != content then Pass(newContent, [FixRecord(file, rule.name, rule.description, |matches|)])
      else Pass(content, [])
    else Pass(content, [])
  }

  /** The rules folded over the text in order, each rule seeing the previous one's output. */
  function FixPass(eng: Regex.Engine, rules: seq<FixRule>, file: string, content: string): Pass {
    if rules == [] then Pass(content, [])
    else
      var prev := FixPass(eng, rules[..|rules| - 1], file, content);
      var step := ApplyFix(eng, rules[|rules| - 1], file, prev.content);
      Pass(step.content, prev.records + step.records)
  }

  /** One more rule: the pass over a longer prefix of the table is one step further. */
  lemma FixPassSnoc(eng: Regex.Engine, rules: seq<FixRule>, file: string, content: string, j: nat)
    requires j < |rules|
    ensures var prev := FixPass(eng, rules[..j], file, content);
      var step := ApplyFix(eng, rules[j], file, prev.content);
      FixPass(eng, rules[..j + 1], file, content) == Pass(step.content, prev.records + step.records)
  {
    assert rules[..j + 1][..j] == rules[..j];
  }

  /** Rule `j` on the text the earlier rules left, spelled out with its `findall` and `sub` results. */
  lemma FixPassStep(eng: Regex.Engine, rules: seq<FixRule>, file: string, content: string, j: nat,
                    matches: seq<string>, newContent: string)
    requires j < |rules|
    requires var prev := FixPass(eng, rules[..j], file, content);
      matches == eng.findAll(rules[j].pattern, prev.content)
      && newContent == eng.sub(rules[j].pattern, rules[j].replacement, prev.content)
    ensures var prev := FixPass(eng, rules[..j], file, content);
      FixPass(eng, rules[..j + 1], file, content) ==
        if |matches| > 0 && newContent != prev.content
        then Pass(newContent, prev.records + [FixRecord(file, rules[j].name, rules[j].description, |matches|)])
        else prev
  {
    FixPassSnoc(eng, rules, file, content, j);
  }

  /**
   * Running a table in two parts is running the first part, then the second
   * part on its output: the records of the parts follow each other.
   */
  lemma {:induction false} FixPassSplit(eng: Regex.Engine, r1: seq<FixRule>, r2: seq<FixRule>, file: string, content: string)
    ensures var first := FixPass(eng, r1, file, content);
      var second := FixPass(eng, r2, file, first.content);
      FixPass(eng, r1 + r2, file, content) == Pass(second.content, first.records + second.records)
  {
    if r2 == [] {
      assert r1 + r2 == r1;
    } else {
      var init := r2[..|r2| - 1];
      FixPassSplit(eng, r1, init, file, content);
      assert (r1 + r2)[..|r1 + r2| - 1] == r1 + init;
      assert (r1 + r2)[|r1 + r2| - 1] == r2[|r2| - 1];
    }
  }

  /** The position of the first rule with a given name, `|rules|` when there is none. */
  function RuleIndex(rules: seq<FixRule>, name: string): (r: nat)
    ensures r <= |rules|
    ensures r < |rules| ==> rules[r].name == name
    ensures forall j :: 0 <= j < r ==> rules[j].name != name
  {
    if rules == [] then 0
    else if rules[0].name == name then 0
    else 1 + RuleIndex(rules[1..], name)
  }

  /** With distinct names, looking a rule's name up finds that rule. */
  lemma RuleIndexOfName(rules: seq<FixRule>, j: nat)
    requires DistinctNames(rules) && j < |rules|
    ensures RuleIndex(rules, rules[j].name) == j
  {
    var r := RuleIndex(rules, rules[j].name);
    if r < j {
      assert false;
    }
  }

  /**
   * Every record of a pass names the file and one of the rules, with that
   * rule's description, and counts at least one match.
   */
  lemma {:induction false} FixPassRecords(eng: Regex.Engine, rules: seq<FixRule>, file: string, content: string)
    requires DistinctNames(rules)
    ensures var records := FixPass(eng, rules, file, content).records;
      && |records| <= |rules|
      && forall k :: 0 <= k < |records| ==>
           && records[k].file == file && records[k].count >= 1
           && RuleIndex(rules, records[k].fixType) < |rules|
           && records[k].description == rules[RuleIndex(rules, records[k].fixType)].description
  {
    if rules != [] {
      var init := rules[..|rules| - 1];
      DistinctPrefix(rules);
      FixPassRecords(eng, init, file, content);
      var prev := FixPass(eng, init, file, content);
      var records := FixPass(eng, rules, file, content).records;
      forall k | 0 <= k < |records|
        ensures && records[k].file == file && records[k].count >= 1
                && RuleIndex(rules, records[k].fixType) < |rules|
                && records[k].description == rules[RuleIndex(rules, records[k].fixType)].description
      {
        if k < |prev.records| {
          assert records[k] == prev.records[k];
          var i := RuleIndex(init, records[k].fixType);
          assert init[i] == rules[i];
          RuleIndexOfName(rules, i);
        } else {
          RuleIndexOfName(rules, |rules| - 1);
        }
      }
    }
  }

  /** Every record of a pass names the file the pass ran on. */
  lemma {:induction false} FixPassFiles(eng: Regex.Engine, rules: seq<FixRule>, file: string, content: string)
    ensures forall k :: 0 <= k < |FixPass(eng, rules, file, content).records| ==>
      FixPass(eng, rules, file, content).records[k].file == file
  {
    if rules != [] {
      FixPassFiles(eng, rules[..|rules| - 1], file, content);
    }
  }

  /**
   * Rule `j`, run on the text the rules before it left, found matches and
   * changed the text, and `record` names the file, the rule and its
   * description with the number of matches found at that moment.
   */
  predicate RecordedAt(eng: Regex.Engine, rules: seq<FixRule>, file: string, content: string, j: nat, record: FixRecord) {
    j < |rules| &&
    var before := FixPass(eng, rules[..j], file, content).content;
    var matches := eng.findAll(rules[j].pattern, before);
    && |matches| > 0
    && eng.sub(rules[j].pattern, rules[j].replacement, before) != before
    && record == FixRecord(file, rules[j].name, rules[j].description, |matches|)
  }

  /** Every record of a pass was made by a rule that matched and changed the text it was given. */
  lemma {:induction false} FixPassRecordSteps(eng: Regex.Engine, rules: seq<FixRule>, file: string, content: string, k: nat)
    requires k < |FixPass(eng, rules, file, content).records|
    ensures exists j: nat :: RecordedAt(eng, rules, file, content, j, FixPass(eng, rules, file, content).records[k])
  {
    var init := rules[..|rules| - 1];
    var last := |rules| - 1;
    var prev := FixPass(eng, init, file, content);
    var record := FixPass(eng, rules, file, content).records[k];
    if k < |prev.records| {
      FixPassRecordSteps(eng, init, file, content, k);
      var j: nat :| RecordedAt(eng, init, file, content, j, prev.records[k]);
      assert init[..j] == rules[..j] && init[j] == rules[j];
      assert RecordedAt(eng, rules, file, content, j, record);
    } else {
      assert rules[..last] == init;
      assert RecordedAt(eng, rules, file, content, last, record);
    }
  }

  /**
   * Conversely, a rule that matched and changed the text the rules before it
   * left is recorded: the record follows those of the earlier rules.
   */
  lemma FixPassRecordComplete(eng: Regex.Engine, rules: seq<FixRule>, file: string, content: string, j: nat)
    requires j < |rules|
    requires var before := FixPass(eng, rules[..j], file, content).content;
      && |eng.findAll(rules[j].pattern, before)| > 0
      && eng.sub(rules[j].pattern, rules[j].replacement, before) != before
    ensures var records := FixPass(eng, rules, file, content).records;
      exists k :: 0 <= k < |records| && RecordedAt(eng, rules, file, content, j, records[k])
  {
    var prev := FixPass(eng, rules[..j], file, content);
    FixPassSnoc(eng, rules, file, content, j);
    FixPassSplit(eng, rules[..j + 1], rules[j + 1..], file, content);
    assert rules[..j + 1] + rules[j + 1..] == rules;
    var records := FixPass(eng, rules, file, content).records;
    var k := |prev.records|;
    assert RecordedAt(eng, rules, file, content, j, records[k]);
  }

  /**
   * With distinct rule names, the records of a pass follow the table's order
   * strictly, so no rule is recorded twice for one file.
   */
  lemma {:induction false} FixPassOrder(eng: Regex.Engine, rules: seq<FixRule>, file: string, content: string)
    requires DistinctNames(rules)
    ensures var records := FixPass(eng, rules, file, content).records;
      forall a, b :: 0 <= a < b < |records| ==>
        RuleIndex(rules, records[a].fixType) < RuleIndex(rules, records[b].fixType)
  {
    if rules != [] {
      var init := rules[..|rules| - 1];
      DistinctPrefix(rules);
      FixPassOrder(eng, init, file, content);
      FixPassRecords(eng, init, file, content);
      var prev := FixPass(eng, init, file, content);
      var records := FixPass(eng, rules, file, content).records;
      RuleIndexOfName(rules, |rules| - 1);
      forall k | 0 <= k < |prev.records|
        ensures RuleIndex(rules, prev.records[k].fixType) == RuleIndex(init, prev.records[k].fixType)
      {
        var i := RuleIndex(init, prev.records[k].fixType);
        assert init[i] == rules[i];
        RuleIndexOfName(rules, i);
      }
      forall a, b | 0 <= a < b < |records|
        ensures RuleIndex(rules, records[a].fixType) < RuleIndex(rules, records[b].fixType)
      {
        assert records[a] == prev.records[a];
        if b < |prev.records| {
          assert records[b] == prev.records[b];
        } else {
          assert records[b].fixType == rules[|rules| - 1].name;
        }
      }
    }
  }

  lemma DistinctPrefix(rules: seq<FixRule>)
    requires rules != [] && DistinctNames(rules)
    ensures DistinctNames(rules[..|rules| - 1])
  {
    var init := rules[..|rules| - 1];
    forall a, b | 0 <= a < b < |init| ensures init[a].name != init[b].name {
      assert init[a] == rules[a] && init[b] == rules[b];
    }
  }

  /** A pass that keeps no record leaves the text as it was. */
  lemma {:induction false} FixPassUnchanged(eng: Regex.Engine, rules: seq<FixRule>, file: string, content: string)
    ensures FixPass(eng, rules, file, content).records == [] ==> FixPass(eng, rules, file, content).content == content
  {
    if rules != [] {
      FixPassUnchanged(eng, rules[..|rules| - 1], file, content);
    }
  }

  /** The sum of the records' counts. */
  function TotalCount(records: seq<FixRecord>): nat {
    if records == [] then 0
    else TotalCount(records[..|records| - 1]) + records[|records| - 1].count
  }

  lemma {:induction false} TotalCountAppend(a: seq<FixRecord>, b: seq<FixRecord>)
    ensures TotalCount(a + b) == TotalCount(a) + TotalCount(b)
  {
    if b == [] {
      assert a + b == a;
    } else {
      var init := b[..|b| - 1];
      assert (a + b)[..|a + b| - 1] == a + init;
      assert (a + b)[|a + b| - 1] == b[|b| - 1];
      TotalCountAppend(a, init);
    }
  }

  /** The (fix type, count) pairs `get_fixes_by_type` adds up, one per record. */
  function FixEntries(records: seq<FixRecord>): (r: seq<(string, nat)>)
    ensures |r| == |records|
  {
    seq(|records|, k requires 0 <= k < |records| => (records[k].fixType, records[k].count))
  }

  /** The entries weigh what the records count. */
  lemma {:induction false} FixEntriesWeight(records: seq<FixRecord>)
    ensures Tally.TotalWeight(FixEntries(records)) == TotalCount(records)
  {
    if records != [] {
      var init := records[..|records| - 1];
      assert FixEntries(records)[..|records| - 1] == FixEntries(init);
      FixEntriesWeight(init);
    }
  }

  /** The number of distinct files among the records: `len(set(fix['file'] for fix in records))`. */
  function FilesModified(records: seq<FixRecord>): nat {
    |set k | 0 <= k < |records| :: records[k].file|
  }

  /** There are files modified exactly when there are records, and never more files than records. */
  lemma FilesModifiedBounds(records: seq<FixRecord>)
    ensures FilesModified(records) <= |records|
    ensures FilesModified(records) == 0 <==> records == []
  {
    var files := set k | 0 <= k < |records| :: records[k].file;
    CardImage(records, |records|);
    if records != [] {
      assert records[0].file in files;
    }
  }

  lemma {:induction false} CardImage(records: seq<FixRecord>, n: nat)
    requires n <= |records|
    ensures |set k | 0 <= k < n :: records[k].file| <= n
  {
    if n > 0 {
      CardImage(records, n - 1);
      assert (set k | 0 <= k < n :: records[k].file)
        == (set k | 0 <= k < n - 1 :: records[k].file) + {records[n - 1].file};
    }
  }

  // ---------------------------------------------------------------------------
  // Using obligations

  /** `fix_patterns[fix_type].get('add_using')` for a fix type of the table, `None` for any other. */
  function UsingFor(rules: seq<FixRule>, fixType: string): Option<string> {
    var j := RuleIndex(rules, fixType);
    if j < |rules| then rules[j].addUsing else None
  }

  /** The dictionary of sets built from the records: file ↦ the `using` lines its records ask for. */
  function Obligations(rules: seq<FixRule>, records: seq<FixRecord>): map<string, set<string>> {
    if records == [] then map[]
    else
      var m := Obligations(rules, records[..|records| - 1]);
      var r := records[|records| - 1];
      match UsingFor(rules, r.fixType)
      case None => m
      case Some(u) => m[r.file := (if r.file in m then m[r.file] else {}) + {u}]
  }

  /** One more record: the dictionary over a longer prefix of the records is one step further. */
  lemma ObligationsSnoc(rules: seq<FixRule>, records: seq<FixRecord>, i: nat)
    requires i < |records|
    ensures var m := Obligations(rules, records[..i]);
      var r := records[i];
      Obligations(rules, records[..i + 1]) ==
        (match UsingFor(rules, r.fixType)
         case None => m
         case Some(u) => m[r.file := (if r.file in m then m[r.file] else {}) + {u}])
  {
    assert records[..i + 1][..i] == records[..i];
  }

  /** Record `k` asks for `using` line `u` in `file`. */
  predicate Asks(rules: seq<FixRule>, records: seq<FixRecord>, k: int, file: string, u: string) {
    0 <= k < |records| && records[k].file == file && UsingFor(rules, records[k].fixType) == Some(u)
  }

  /** Record `k` names `file` and asks for some `using` line. */
  predicate AsksAny(rules: seq<FixRule>, records: seq<FixRecord>, k: int, file: string) {
    0 <= k < |records| && records[k].file == file && UsingFor(rules, records[k].fixType).Some?
  }

  /**
   * The position of the first record of `file` that asks for a `using` line,
   * `|records|` when none does: the moment the dictionary gains `file` as a key.
   */
  function FirstAsk(rules: seq<FixRule>, records: seq<FixRecord>, file: string): nat {
    if records == [] then 0
    else
      var init := records[..|records| - 1];
      var r0 := FirstAsk(rules, init, file);
      if r0 < |init| then r0
      else if AsksAny(rules, records, |init|, file) then |init|
      else |records|
  }

  /** `FirstAsk` is the first asking record of the file, or one past the end when no record asks. */
  lemma {:induction false} FirstAskSpec(rules: seq<FixRule>, records: seq<FixRecord>, file: string)
    ensures var r := FirstAsk(rules, records, file);
      && r <= |records|
      && (r < |records| ==> AsksAny(rules, records, r, file))
      && (forall k :: 0 <= k < r ==> !AsksAny(rules, records, k, file))
  {
    if records != [] {
      var init := records[..|records| - 1];
      FirstAskSpec(rules, init, file);
      assert forall k :: 0 <= k < |init| ==> (AsksAny(rules, init, k, file) <==> AsksAny(rules, records, k, file));
    }
  }

  /** One more record: the first asking record stays put, or is the new one, or there still is none. */
  lemma FirstAskSnoc(rules: seq<FixRule>, records: seq<FixRecord>, i: nat, file: string)
    requires i < |records|
    ensures FirstAsk(rules, records[..i], file) <= i
    ensures var r0 := FirstAsk(rules, records[..i], file);
      FirstAsk(rules, records[..i + 1], file) ==
        if r0 < i then r0
        else if records[i].file == file && UsingFor(rules, records[i].fixType).Some? then i
        else i + 1
  {
    assert records[..i + 1][..i] == records[..i];
    FirstAskSpec(rules, records[..i], file);
  }

  /** The files of `order` are those with an asking record among the first `i` records, listed by their first one. */
  ghost predicate AskOrdered(rules: seq<FixRule>, records: seq<FixRecord>, i: nat, order: seq<string>)
    requires i <= |records|
  {
    && (forall f :: f in order <==> FirstAsk(rules, records[..i], f) < i)
    && (forall a, b :: 0 <= a < b < |order| ==>
          FirstAsk(rules, records[..i], order[a]) < FirstAsk(rules, records[..i], order[b]))
  }

  /** One more record: a file whose first asking record it is joins the end of the order. */
  lemma AskOrderedStep(rules: seq<FixRule>, records: seq<FixRecord>, i: nat, order: seq<string>)
    requires i < |records|
    requires AskOrdered(rules, records, i, order)
    ensures var f0 := records[i].file;
      AskOrdered(rules, records, i + 1,
        if UsingFor(rules, records[i].fixType).Some? && f0 !in order then order + [f0] else order)
  {
    forall f {
      FirstAskSnoc(rules, records, i, f);
    }
  }

  /**
   * The dictionary's keys in insertion order: a file joins when its first
   * record asking for a `using` line comes.
   */
  function AskOrder(rules: seq<FixRule>, records: seq<FixRecord>): seq<string> {
    if records == [] then []
    else
      var order := AskOrder(rules, records[..|records| - 1]);
      var r := records[|records| - 1];
      if UsingFor(rules, r.fixType).Some? && r.file !in order then order + [r.file] else order
  }

  /** One more record: the order over a longer prefix of the records is one step further. */
  lemma AskOrderSnoc(rules: seq<FixRule>, records: seq<FixRecord>, i: nat)
    requires i < |records|
    ensures var order := AskOrder(rules, records[..i]);
      AskOrder(rules, records[..i + 1]) ==
        if UsingFor(rules, records[i].fixType).Some? && records[i].file !in order then order + [records[i].file] else order
  {
    assert records[..i + 1][..i] == records[..i];
  }

  /** The order over the first `i` records is ordered by first asks. */
  lemma {:induction false} AskOrderPrefix(rules: seq<FixRule>, records: seq<FixRecord>, i: nat)
    requires i <= |records|
    ensures AskOrdered(rules, records, i, AskOrder(rules, records[..i]))
  {
    if i > 0 {
      AskOrderPrefix(rules, records, i - 1);
      AskOrderedStep(rules, records, i - 1, AskOrder(rules, records[..i - 1]));
      AskOrderSnoc(rules, records, i - 1);
    }
  }

  /**
   * The insertion order lists each file that some record asks a `using` line
   * for, once, ordered by the position of the file's first such record.
   */
  lemma AskOrderSpec(rules: seq<FixRule>, records: seq<FixRecord>)
    ensures var order := AskOrder(rules, records);
      && (forall f :: f in order <==> FirstAsk(rules, records, f) < |records|)
      && (forall a, b :: 0 <= a < b < |order| ==>
            FirstAsk(rules, records, order[a]) < FirstAsk(rules, records, order[b]))
      && (forall a, b :: 0 <= a < b < |order| ==> order[a] != order[b])
  {
    AskOrderPrefix(rules, records, |records|);
    assert records[..|records|] == records;
  }

  /** The insertion order lists exactly the dictionary's keys. */
  lemma {:induction false} AskOrderKeys(rules: seq<FixRule>, records: seq<FixRecord>)
    ensures forall f :: f in AskOrder(rules, records) <==> f in Obligations(rules, records)
  {
    if records != [] {
      AskOrderKeys(rules, records[..|records| - 1]);
    }
  }

  /** The dictionary maps `f` to a set holding `u` exactly when a record of `f` asks for `u`. */
  lemma {:induction false} ObligationsExact(rules: seq<FixRule>, records: seq<FixRecord>, f: string, u: string)
    ensures (f in Obligations(rules, records) && u in Obligations(rules, records)[f])
      <==> exists k :: Asks(rules, records, k, f, u)
  {
    if records != [] {
      var init := records[..|records| - 1];
      var last := |records| - 1;
      var r := records[last];
      ObligationsExact(rules, init, f, u);
      var m0 := Obligations(rules, init);
      var m := Obligations(rules, records);
      if f in m && u in m[f] {
        if f in m0 && u in m0[f] {
          var k :| Asks(rules, init, k, f, u);
          assert records[k] == init[k];
          assert Asks(rules, records, k, f, u);
        } else {
          assert Asks(rules, records, last, f, u);
        }
      }
      if exists k :: Asks(rules, records, k, f, u) {
        var k :| Asks(rules, records, k, f, u);
        if k < last {
          assert records[k] == init[k];
          assert Asks(rules, init, k, f, u);
        }
      }
    }
  }

  /** No file of the dictionary is mapped to the empty set. */
  lemma {:induction false} ObligationsNonEmpty(rules: seq<FixRule>, records: seq<FixRecord>, f: string)
    requires f in Obligations(rules, records)
    ensures Obligations(rules, records)[f] != {}
  {
    var init := records[..|records| - 1];
    var r := records[|records| - 1];
    var m0 := Obligations(rules, init);
    if UsingFor(rules, r.fixType).Some? && r.file == f {
      assert UsingFor(rules, r.fixType).value in Obligations(rules, records)[f];
    } else {
      ObligationsNonEmpty(rules, init, f);
    }
  }

  /** A file is in the dictionary only when one of its records asks for a `using` line. */
  lemma ObligationsAsked(rules: seq<FixRule>, records: seq<FixRecord>, f: string)
    requires f in Obligations(rules, records)
    ensures exists k, u :: Asks(rules, records, k, f, u)
  {
    ObligationsNonEmpty(rules, records, f);
    var u :| u in Obligations(rules, records)[f];
    ObligationsExact(rules, records, f, u);
  }

  /** Only the cached-lookup and the two async rules give a file an obligation. */
  lemma {:induction false} ObligationsFromUsingRules(records: seq<FixRecord>, f: string, u: string)
    requires f in Obligations(FixPatterns(), records) && u in Obligations(FixPatterns(), records)[f]
    ensures exists k :: (0 <= k < |records| && records[k].file == f
      && records[k].fixType in USING_FIX_TYPES)
  {
    var rules := FixPatterns();
    ObligationsExact(rules, records, f, u);
    var k :| Asks(rules, records, k, f, u);
    UsingRules(records[k].fixType);
  }

  /** The fix types that have a `using` line. */
  lemma UsingRules(fixType: string)
    requires UsingFor(FixPatterns(), fixType).Some?
    ensures fixType in USING_FIX_TYPES
  {
    var rules := FixPatterns();
    FixTableFacts();
    var j := RuleIndex(rules, fixType);
    assert rules[j].name == fixType;
    assert UsingAgrees(rules[j]);
  }

  /** No obligation holds a newline. */
  predicate SingleLineObligations(m: map<string, set<string>>) {
    forall f, u :: f in m && u in m[f] ==> '\n' !in u
  }

  /** Every obligation is a single line when the table's `using` lines are. */
  lemma {:induction false} ObligationsSingleLine(rules: seq<FixRule>, records: seq<FixRecord>)
    requires SingleLineUsings(rules)
    ensures SingleLineObligations(Obligations(rules, records))
  {
    if records != [] {
      ObligationsSingleLine(rules, records[..|records| - 1]);
      var t := records[|records| - 1].fixType;
      var j := RuleIndex(rules, t);
      if j < |rules| && rules[j].addUsing.Some? {
        assert '\n' !in UsingFor(rules, t).value;
      }
    }
  }

  // ---------------------------------------------------------------------------
  // Inserting the missing using lines

  /** A line that, stripped, starts with `using ` but not with `using static`. */
  predicate IsUsingLine(line: string) {
    StartsWith(Strip(line), "using ") && !StartsWith(Strip(line), "using static")
  }

  /** One past the last `using` line, or 0 when there is none. */
  function UsingInsertIndex(lines: seq<string>): (r: nat)
    ensures r <= |lines|
  {
    if lines == [] then 0
    else if IsUsingLine(lines[|lines| - 1]) then |lines|
    else UsingInsertIndex(lines[..|lines| - 1])
  }

  /**
   * The insertion point: 0 when no line is a `using` line, otherwise just
   * after the last one.
   */
  lemma {:induction false} UsingInsertIndexSpec(lines: seq<string>)
    ensures var r := UsingInsertIndex(lines);
      && (r == 0 <==> forall k :: 0 <= k < |lines| ==> !IsUsingLine(lines[k]))
      && (r > 0 ==> IsUsingLine(lines[r - 1]))
      && (forall k :: r <= k < |lines| ==> !IsUsingLine(lines[k]))
  {
    if lines != [] && !IsUsingLine(lines[|lines| - 1]) {
      var init := lines[..|lines| - 1];
      UsingInsertIndexSpec(init);
      assert forall k :: 0 <= k < |init| ==> init[k] == lines[k];
    }
  }

  /** The statements of a set that the text does not already contain. */
  function MissingUsings(content: string, statements: set<string>): set<string> {
    set s | s in statements && !Contains(content, s)
  }

  /** `order` lists the elements of `s`, each once. */
  ghost predicate Enumerates(order: seq<string>, s: set<string>) {
    && (forall a, b :: 0 <= a < b < |order| ==> order[a] != order[b])
    && (forall x :: x in order <==> x in s)
  }

  /** `lines.insert(idx, x)` for each `x` of `block` in turn, advancing `idx`. */
  function InsertAt(lines: seq<string>, idx: nat, block: seq<string>): seq<string>
    requires idx <= |lines|
  {
    lines[..idx] + block + lines[idx..]
  }

  /** The lines after the missing `using` lines go in, in the given order. */
  function PatchedLines(content: string, order: seq<string>): seq<string> {
    var lines := LinesOf(content);
    InsertAt(lines, UsingInsertIndex(lines), order)
  }

  /** `lines.insert` of a block at `idx`: the block sits at `idx` and the lines around it keep their order. */
  lemma InsertAtFacts(lines: seq<string>, idx: nat, block: seq<string>)
    requires idx <= |lines|
    ensures var p := InsertAt(lines, idx, block);
      && |p| == |lines| + |block|
      && p[idx..idx + |block|] == block
      && p[..idx] + p[idx + |block|..] == lines
      && (forall k :: 0 <= k < idx ==> p[k] == lines[k])
      && (forall k :: idx <= k < |lines| ==> p[k + |block|] == lines[k])
      && (forall k :: 0 <= k < |block| ==> p[idx + k] == block[k])
  {
    var p := InsertAt(lines, idx, block);
    assert p[..idx] == lines[..idx];
    assert p[idx + |block|..] == lines[idx..];
    assert lines[..idx] + lines[idx..] == lines;
  }

  /**
   * The patched text keeps every original line, in order: the inserted block
   * sits at the insertion point, and taking it out gives the original lines.
   */
  lemma PatchKeepsLines(content: string, order: seq<string>)
    ensures var lines := LinesOf(content);
      var idx := UsingInsertIndex(lines);
      var patched := PatchedLines(content, order);
      && |patched| == |lines| + |order|
      && patched[idx..idx + |order|] == order
      && patched[..idx] + patched[idx + |order|..] == lines
  {
    var lines := LinesOf(content);
    InsertAtFacts(lines, UsingInsertIndex(lines), order);
  }

  /**
   * When neither the text's lines nor the inserted lines hold a newline (true
   * of any split), splitting the written text gives exactly the patched lines.
   */
  lemma PatchedRoundTrip(content: string, order: seq<string>)
    requires forall k :: 0 <= k < |order| ==> '\n' !in order[k]
    ensures LinesOf(Join(PatchedLines(content, order), '\n')) == PatchedLines(content, order)
  {
    var lines := LinesOf(content);
    var idx := UsingInsertIndex(lines);
    var patched := PatchedLines(content, order);
    InsertAtFacts(lines, idx, order);
    forall k | 0 <= k < |patched| ensures '\n' !in patched[k] {
      if k < idx {
        assert patched[k] == lines[k];
      } else if k < idx + |order| {
        assert patched[k] == order[k - idx];
      } else {
        assert patched[k] == lines[k - |order|];
      }
    }
    SplitJoin(patched, '\n');
  }

  /** A statement inserted, or one already inside a line of the text, is in the written text. */
  lemma PresentAfterPatch(content: string, order: seq<string>, s: string)
    requires s in order || ('\n' !in s && Contains(content, s))
    ensures Contains(Join(PatchedLines(content, order), '\n'), s)
  {
    var lines := LinesOf(content);
    var idx := UsingInsertIndex(lines);
    var patched := PatchedLines(content, order);
    var text := Join(patched, '\n');
    InsertAtFacts(lines, idx, order);
    if s in order {
      var k :| 0 <= k < |order| && order[k] == s;
      LineInJoin(patched, '\n', idx + k);
    } else {
      JoinSplit(content, '\n');
      ContainsInSomeLine(lines, '\n', s);
      var k :| 0 <= k < |lines| && Contains(lines[k], s);
      var p := if k < idx then k else k + |order|;
      assert patched[p] == lines[k];
      LineInJoin(patched, '\n', p);
      ContainsTrans(text, lines[k], s);
    }
  }

  /**
   * Idempotence: once the missing statements are inserted, none is missing
   * any more, so a second run inserts nothing. Statements already present
   * stay present because they sit inside a single line, which is kept.
   */
  lemma PatchIdempotent(content: string, statements: set<string>, order: seq<string>)
    requires Enumerates(order, MissingUsings(content, statements))
    requires forall s :: s in statements ==> '\n' !in s
    ensures MissingUsings(Join(PatchedLines(content, order), '\n'), statements) == {}
  {
    var text := Join(PatchedLines(content, order), '\n');
    forall s | s in statements ensures Contains(text, s) {
      PresentAfterPatch(content, order, s);
    }
  }
}
