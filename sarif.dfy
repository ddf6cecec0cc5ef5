/** The ShellCheck-to-SARIF transform of `convert_shellcheck_to_sarif`: every ShellCheck
    finding becomes one SARIF result, and every distinct rule id one rule, in order of first
    occurrence. Reading the JSON input and writing the report are left to the caller. */
module Sarif {
  import opened Wrappers
  import opened Strings
  import opened Seqs

  /** One entry of ShellCheck's JSON output. Each field is absent (`None`) when the entry
      has no such key. */
  datatype Finding = Finding(
    code: Option<int>,
    message: Option<string>,
    level: Option<string>,
    file: Option<string>,
    line: Option<int>,
    column: Option<int>,
    endLine: Option<int>,
    endColumn: Option<int>)

  /** A `reportingDescriptor` of the driver, with the `properties.category` it carries. */
  datatype Rule = Rule(
    id: string,
    shortDescription: string,
    fullDescription: string,
    helpUri: string,
    category: string)

  datatype Region = Region(startLine: int, startColumn: int, endLine: int, endColumn: int)

  /** A SARIF `result` with its single physical location. */
  datatype SarifResult = SarifResult(
    ruleId: string,
    level: string,
    message: string,
    uri: string,
    region: Region)

  /** What reading and decoding the input file gave. */
  datatype ReadOutcome =
    | Parsed(findings: seq<Finding>)
    | FileNotFound
    | InvalidJson
    | OtherFailure(reason: string)

  const DefaultCode: string := "0000"
  const DefaultMessage: string := "ShellCheck finding"
  const DefaultUri: string := "unknown"
  const HelpBase: string := "https://www.shellcheck.net/wiki/"
  const Category: string := "security"

  /** The rule id of a finding: `SC` followed by its code in decimal, or by `0000` when the
      finding has no code. */
  function RuleId(f: Finding): (id: string)
    ensures |id| > 2 && id[..2] == "SC"
  {
    "SC" + (if f.code.Some? then ShowInt(f.code.value) else DefaultCode)
  }

  function Message(f: Finding): (r: string) {
    f.message.GetOr(DefaultMessage)
  }

  /** The SARIF level of a ShellCheck level, through the script's level table; a missing
      level is read as a warning, and so is one the table does not know. */
  function SarifLevel(level: Option<string>): (r: string)
    ensures r == "error" || r == "warning" || r == "note"
  {
    match level.GetOr("warning")
    case "error" => "error"
    case "warning" => "warning"
    case "info" => "note"
    case "style" => "note"
    case _ => "warning"
  }

  /** The rule entry a finding would create. */
  function RuleOf(f: Finding): (r: Rule)
    ensures r.id == RuleId(f) && r.helpUri == HelpBase + r.id
    ensures r.shortDescription == r.fullDescription
  {
    var id := RuleId(f);
    Rule(id, Message(f), Message(f), HelpBase + id, Category)
  }

  /** The region of a finding: line and column default to 1, the end to the start. */
  function RegionOf(f: Finding): (g: Region)
    ensures f.endLine.None? ==> g.endLine == g.startLine
    ensures f.endColumn.None? ==> g.endColumn == g.startColumn
  {
    var line := f.line.GetOr(1);
    var column := f.column.GetOr(1);
    Region(line, column, f.endLine.GetOr(line), f.endColumn.GetOr(column))
  }

  /** The SARIF result a finding becomes; it names the rule the finding would create. */
  function ResultOf(f: Finding): (r: SarifResult)
    ensures r.ruleId == RuleOf(f).id
  {
    SarifResult(RuleId(f), SarifLevel(f.level), Message(f), f.file.GetOr(DefaultUri), RegionOf(f))
  }

  /** The rule ids of the findings, in input order. */
  function RuleIds(fs: seq<Finding>): (r: seq<string>) {
    Map(RuleId, fs)
  }

  /** The rule of `id`: the one built from the first finding carrying that id. */
  function RuleFor(fs: seq<Finding>, id: string): (r: Rule)
    requires id in RuleIds(fs)
  {
    RuleOf(fs[FirstIndex(RuleIds(fs), id)])
  }

  /** The driver's rules: one per distinct rule id, in order of first occurrence. */
  function Rules(fs: seq<Finding>): (r: seq<Rule>)
    ensures |r| == |Distinct(RuleIds(fs))|
  {
    var ids := Distinct(RuleIds(fs));
    seq(|ids|, k requires 0 <= k < |ids| => RuleFor(fs, ids[k]))
  }

  /** The first occurrence of `s[i]` is at `i` when it does not occur before. */
  lemma FirstIndexIs(s: seq<string>, i: nat)
    requires i < |s| && s[i] !in s[..i]
    ensures FirstIndex(s, s[i]) == i
  {
  }

  /** After the first `i` findings, `rulesMap` with its key order `order` (the
      insertion-ordered dict `rules_map`) holds the first-occurrence rule of every id seen. */
  ghost predicate RulesUpTo(fs: seq<Finding>, i: nat, rulesMap: map<string, Rule>, order: seq<string>)
    requires i <= |fs|
  {
    && order == Distinct(RuleIds(fs)[..i])
    && (forall id :: id in rulesMap <==> id in order)
    && (forall id :: id in rulesMap ==> id in RuleIds(fs) && rulesMap[id] == RuleFor(fs, id))
  }

  /** One iteration's update of `rules_map`: add the finding's rule unless its id is known. */
  method AddRule(fs: seq<Finding>, i: nat, rulesMap: map<string, Rule>, order: seq<string>)
    returns (rulesMap': map<string, Rule>, order': seq<string>)
    requires i < |fs| && RulesUpTo(fs, i, rulesMap, order)
    ensures RulesUpTo(fs, i + 1, rulesMap', order')
  {
    ghost var ids := RuleIds(fs);
    var ruleId := RuleId(fs[i]);
    assert ruleId == ids[i];
    assert ids[..i + 1][..i] == ids[..i];
    rulesMap', order' := rulesMap, order;
    if ruleId !in rulesMap {
      FirstIndexIs(ids, i);
      rulesMap' := rulesMap[ruleId := RuleOf(fs[i])];
      order' := order + [ruleId];
    }
  }

  /** The loop of `convert_shellcheck_to_sarif`, then `list(rules_map.values())`. */
  method Convert(findings: seq<Finding>) returns (rules: seq<Rule>, results: seq<SarifResult>)
    ensures results == Map(ResultOf, findings)
    ensures rules == Rules(findings)
  {
    var rulesMap: map<string, Rule> := map[];
    var order: seq<string> := [];
    results := [];
    for i := 0 to |findings|
      invariant RulesUpTo(findings, i, rulesMap, order)
      invariant results == Map(ResultOf, findings[..i])
    {
      rulesMap, order := AddRule(findings, i, rulesMap, order);
      MapPrefixStep(ResultOf, findings, i);
      results := results + [ResultOf(findings[i])];
    }
    assert RuleIds(findings)[..|findings|] == RuleIds(findings);
    assert findings[..|findings|] == findings;
    rules := seq(|order|, k requires 0 <= k < |order| => rulesMap[order[k]]);
  }

  /** Loading the findings from the input file: a missing file and malformed JSON both
      give no findings; any other failure propagates. */
  function LoadFindings(input: ReadOutcome): (r: Result<seq<Finding>, string>)
    ensures r.Err? <==> input.OtherFailure?
  {
    match input
    case Parsed(fs) => Ok(fs)
    case FileNotFound => Ok([])
    case InvalidJson => Ok([])
    case OtherFailure(reason) => Err(reason)
  }

  /** The transform from what was read to the report's rules and results. */
  method ConvertInput(input: ReadOutcome) returns (r: Result<(seq<Rule>, seq<SarifResult>), string>)
    ensures r.Err? <==> input.OtherFailure?
    ensures input.Parsed? ==> r == Ok((Rules(input.findings), Map(ResultOf, input.findings)))
    ensures input.FileNotFound? || input.InvalidJson? ==> r == Ok(([], []))
  {
    var loaded := LoadFindings(input);
    if loaded.Err? {
      return Err(loaded.error);
    }
    var rules, results := Convert(loaded.value);
    NoFindings();
    return Ok((rules, results));
  }

  /** No findings give no rules and no results. */
  lemma NoFindings()
    ensures Rules([]) == [] && Map(ResultOf, []) == []
  {
  }

  /** Every rule is the one its id's first finding creates, and the rules come in order of
      first occurrence with no id twice. */
  lemma RulesAreFirstOccurrences(fs: seq<Finding>)
    ensures forall k :: 0 <= k < |Rules(fs)| ==>
      exists j :: 0 <= j < |fs| && Rules(fs)[k] == RuleOf(fs[j])
                  && forall i :: 0 <= i < j ==> RuleId(fs[i]) != RuleId(fs[j])
    ensures forall k, l :: 0 <= k < l < |Rules(fs)| ==> Rules(fs)[k].id != Rules(fs)[l].id
    ensures forall k, l :: 0 <= k < l < |Rules(fs)| ==>
      FirstIndex(RuleIds(fs), Rules(fs)[k].id) < FirstIndex(RuleIds(fs), Rules(fs)[l].id)
  {
    var ids := RuleIds(fs);
    var d := Distinct(ids);
    var r := Rules(fs);
    forall k | 0 <= k < |r| ensures r[k].id == d[k] {
      assert d[k] in ids;
    }
    forall k | 0 <= k < |r|
      ensures exists j :: 0 <= j < |fs| && r[k] == RuleOf(fs[j])
                          && forall i :: 0 <= i < j ==> RuleId(fs[i]) != RuleId(fs[j])
    {
      var j := FirstIndex(ids, d[k]);
      forall i | 0 <= i < j ensures RuleId(fs[i]) != RuleId(fs[j]) {
        assert ids[..j][i] == ids[i];
      }
    }
    DistinctOrder(ids);
  }

  /** Every result names a rule of the driver, and every rule is named by some result. */
  lemma ResultsMatchRules(fs: seq<Finding>)
    ensures forall i :: 0 <= i < |fs| ==>
      exists k :: 0 <= k < |Rules(fs)| && Rules(fs)[k].id == ResultOf(fs[i]).ruleId
    ensures forall k :: 0 <= k < |Rules(fs)| ==>
      exists i :: 0 <= i < |fs| && Rules(fs)[k].id == ResultOf(fs[i]).ruleId
  {
    var ids := RuleIds(fs);
    var d := Distinct(ids);
    var r := Rules(fs);
    forall i | 0 <= i < |fs|
      ensures exists k :: 0 <= k < |r| && r[k].id == ResultOf(fs[i]).ruleId
    {
      assert ids[i] in d;
      var k :| 0 <= k < |d| && d[k] == ids[i];
      assert r[k].id == d[k];
    }
    forall k | 0 <= k < |r| ensures exists i :: 0 <= i < |fs| && r[k].id == ResultOf(fs[i]).ruleId {
      var i := FirstIndex(ids, d[k]);
      assert r[k].id == ids[i];
    }
  }

  /** The rule of a finding with a code is `SC` and the code; the help link ends in it. */
  lemma RuleOfCode(f: Finding, n: int)
    requires f.code == Some(n)
    ensures RuleOf(f).id == "SC" + ShowInt(n)
    ensures RuleOf(f).helpUri == HelpBase + RuleOf(f).id
    ensures RuleOf(f).shortDescription == RuleOf(f).fullDescription == Message(f)
  {
  }

  /** Two findings share a rule exactly when their codes agree; a missing code is a code
      of its own (`SC0000`), different from code 0 (`SC0`). */
  lemma RuleIdInjective(f: Finding, g: Finding)
    ensures RuleId(f) == RuleId(g) <==> f.code == g.code
  {
    if RuleId(f) == RuleId(g) {
      var a := RuleId(f)[2..];
      var b := RuleId(g)[2..];
      assert a == b;
      if f.code.Some? && g.code.Some? {
        ShowIntInjective(f.code.value, g.code.value);
      } else if f.code.Some? {
        NotDefaultCode(f.code.value);
      } else if g.code.Some? {
        NotDefaultCode(g.code.value);
      }
    }
  }

  lemma NotDefaultCode(n: int)
    ensures ShowInt(n) != DefaultCode
  {
    if n < 0 {
      assert ShowInt(n)[0] == '-';
    } else if ShowNat(n)[0] == '0' {
      assert n == 0;
      assert ShowInt(n) == "0";
    } else {
      assert ShowInt(n)[0] != '0';
    }
  }

  /** The level table: error and warning are kept, info and style become note, anything
      else (or nothing) is a warning. */
  lemma LevelMapping(level: Option<string>)
    ensures SarifLevel(level) in {"error", "warning", "note"}
    ensures SarifLevel(level) == "error" <==> level == Some("error")
    ensures SarifLevel(level) == "note" <==> level == Some("info") || level == Some("style")
    ensures SarifLevel(level) == "warning" <==>
      level !in {Some("error"), Some("info"), Some("style")}
  {
  }

  /** Region and location defaults: a missing start is line 1, column 1; a missing end is
      the start; a missing file is `unknown`. */
  lemma RegionDefaults(f: Finding)
    ensures ResultOf(f).region.startLine == f.line.GetOr(1)
    ensures ResultOf(f).region.startColumn == f.column.GetOr(1)
    ensures f.endLine.None? ==> ResultOf(f).region.endLine == ResultOf(f).region.startLine
    ensures f.endColumn.None? ==> ResultOf(f).region.endColumn == ResultOf(f).region.startColumn
    ensures f.endLine.Some? ==> ResultOf(f).region.endLine == f.endLine.value
    ensures f.endColumn.Some? ==> ResultOf(f).region.endColumn == f.endColumn.value
    ensures f.file.None? ==> ResultOf(f).uri == "unknown"
    ensures f.message.None? ==> ResultOf(f).message == "ShellCheck finding"
  {
  }

  /** A finding with no fields at all. */
  lemma EmptyFindingResult()
    ensures ResultOf(Finding(None, None, None, None, None, None, None, None))
      == SarifResult("SC0000", "warning", "ShellCheck finding", "unknown", Region(1, 1, 1, 1))
  {
  }

  const FirstOf2086 := Finding(Some(2086), Some("first"), Some("info"), Some("a.sh"), Some(3), Some(5), None, None)
  const SecondOf2086 := Finding(Some(2086), Some("second"), None, Some("b.sh"), Some(7), Some(1), Some(8), Some(2))

  /** Two findings of one code give one rule carrying the first one's message. */
  lemma RepeatedCodeExample()
    ensures Rules([FirstOf2086, SecondOf2086])
      == [Rule("SC2086", "first", "first", "https://www.shellcheck.net/wiki/SC2086", "security")]
  {
    var fs := [FirstOf2086, SecondOf2086];
    RepeatedCodeIds();
    TwiceDistinct("SC2086");
    assert FirstIndex(RuleIds(fs), "SC2086") == 0;
    RepeatedCodeRule();
    var r := Rules(fs);
    assert |r| == 1 && r[0] == RuleFor(fs, "SC2086");
  }

  lemma RepeatedCodeIds()
    ensures RuleIds([FirstOf2086, SecondOf2086]) == ["SC2086", "SC2086"]
  {
    ShowCode2086();
    assert RuleId(FirstOf2086) == "SC" + "2086" == "SC2086";
    assert RuleId(SecondOf2086) == "SC2086";
    var ids := RuleIds([FirstOf2086, SecondOf2086]);
    assert ids[0] == RuleId(FirstOf2086) && ids[1] == RuleId(SecondOf2086);
  }

  lemma RepeatedCodeRule()
    ensures RuleOf(FirstOf2086)
      == Rule("SC2086", "first", "first", "https://www.shellcheck.net/wiki/SC2086", "security")
  {
    ShowCode2086();
    assert RuleId(FirstOf2086) == "SC" + "2086" == "SC2086";
    assert HelpBase + "SC2086" == "https://www.shellcheck.net/wiki/SC2086";
  }

  lemma ShowCode2086()
    ensures ShowInt(2086) == "2086"
  {
    assert ShowNat(2) == "2" && ShowNat(20) == "20" && ShowNat(208) == "208";
  }

  lemma TwiceDistinct(x: string)
    ensures Distinct([x, x]) == [x]
  {
    assert [x, x][..1] == [x] && [x][..0] == [];
  }
}
