/**
 * The results view: the section texts and rule checks read out of a stored
 * analysis result with `dict.get` defaults, and the "passed/total" tally.
 */
module Report {
  import opened Wrappers
  import opened Json

  /** Python's `m.get(key, default)`. */
  function Get(m: map<string, Value>, key: string, default: Value): (r: Value)
    ensures key in m ==> r == m[key]
    ensures key !in m ==> r == default
  {
    if key in m then m[key] else default
  }

  /** The section keys the view shows, column by column; `penalties` is not among them. */
  const ShownSections: seq<string> :=
    ["definitions", "obligations", "eligibility", "responsibilities", "payments", "record_keeping"]

  /**
   * `result.get("sections", {})`, as far as the view can use it: only a
   * dictionary has `.get`, so any other value makes the page raise (`None`).
   */
  function SectionsOf(result: map<string, Value>): (r: Option<map<string, Value>>)
    ensures "sections" !in result ==> r == Some(map[])
    ensures "sections" in result ==>
      (r.Some? <==> result["sections"].Obj?) && (r.Some? ==> r.value == result["sections"].fields)
  {
    match Get(result, "sections", Obj(map[]))
    case Obj(m) => Some(m)
    case _ => None
  }

  /** `sections.get(key, "N/A")`. */
  function SectionText(sections: map<string, Value>, key: string): (r: Value)
    ensures key in sections ==> r == sections[key]
    ensures key !in sections ==> r == Str("N/A")
  {
    Get(sections, key, Str("N/A"))
  }

  /**
   * `result.get("rule_checks", [])` as the loop over it sees it: every entry
   * must be a dictionary (the first that is not makes `rule.get` raise),
   * and a value that is not a list either iterates over nothing (an empty
   * string or dictionary) or makes the page raise.
   */
  function RuleChecksOf(result: map<string, Value>): (r: Option<seq<map<string, Value>>>)
    ensures "rule_checks" !in result ==> r == Some([])
    ensures "rule_checks" in result && result["rule_checks"].Arr? ==>
      var items := result["rule_checks"].items;
      && (r.Some? <==> forall k :: 0 <= k < |items| ==> items[k].Obj?)
      && (r.Some? ==> |r.value| == |items|
                      && forall k :: 0 <= k < |items| ==> r.value[k] == items[k].fields)
    ensures "rule_checks" in result && !result["rule_checks"].Arr? ==>
      && (r.Some? <==> result["rule_checks"] == Obj(map[]) || result["rule_checks"] == Str(""))
      && (r.Some? ==> r.value == [])
  {
    match Get(result, "rule_checks", Arr([]))
    case Arr(items) =>
      if forall k :: 0 <= k < |items| ==> items[k].Obj? then
        var rules := seq(|items|, k requires 0 <= k < |items| => items[k].fields);
        assert |rules| == 0 ==> rules == [];
        Some(rules)
      else None
    case Obj(m) => if m == map[] then Some([]) else None
    case Str(s) => if s == [] then Some([]) else None
    case _ => None
  }

  /** `r.get("status") == "pass"`: exactly the string `pass`, case and all. */
  predicate Passes(rule: map<string, Value>) {
    Get(rule, "status", Null) == Str("pass")
  }

  /** `sum(1 for r in rules if r.get("status") == "pass")` */
  function PassCount(rules: seq<map<string, Value>>): (n: nat)
    ensures n <= |rules|
    ensures n == 0 <==> forall k :: 0 <= k < |rules| ==> !Passes(rules[k])
    ensures n == |rules| <==> forall k :: 0 <= k < |rules| ==> Passes(rules[k])
  {
    if |rules| == 0 then 0
    else
      var init := rules[..|rules| - 1];
      assert forall k :: 0 <= k < |init| ==> init[k] == rules[k];
      PassCount(init) + (if Passes(rules[|rules| - 1]) then 1 else 0)
  }

  /** The indices of the passing rule checks. */
  function PassingIndices(rules: seq<map<string, Value>>): set<nat> {
    set k: nat | k < |rules| && Passes(rules[k])
  }

  /** The tally is the number of rule checks whose status is `pass`. */
  lemma {:induction false} PassCountCountsPassing(rules: seq<map<string, Value>>)
    ensures PassCount(rules) == |PassingIndices(rules)|
  {
    if |rules| > 0 {
      var n := |rules| - 1;
      var init := rules[..n];
      PassCountCountsPassing(init);
      var before := PassingIndices(init);
      assert forall k :: 0 <= k < n ==> init[k] == rules[k];
      var after := if Passes(rules[n]) then before + {n} else before;
      assert PassingIndices(rules) == after;
      assert n !in before;
    }
  }

  lemma {:induction false} PassCountAppend(a: seq<map<string, Value>>, b: seq<map<string, Value>>)
    ensures PassCount(a + b) == PassCount(a) + PassCount(b)
    decreases |b|
  {
    if |b| == 0 {
      assert a + b == a;
    } else {
      assert (a + b)[..|a + b| - 1] == a + b[..|b| - 1];
      PassCountAppend(a, b[..|b| - 1]);
    }
  }

  /** Python's `c.upper()` on ASCII letters; other characters are kept. */
  function UpperChar(c: char): (u: char)
    ensures 'a' <= c <= 'z' ==> 'A' <= u <= 'Z'
    ensures !('a' <= c <= 'z') ==> u == c
  {
    if 'a' <= c <= 'z' then (c as int - 'a' as int + 'A' as int) as char else c
  }

  function Upper(s: string): (r: string)
    ensures |r| == |s|
    ensures forall k :: 0 <= k < |s| ==> r[k] == UpperChar(s[k])
  {
    seq(|s|, k requires 0 <= k < |s| => UpperChar(s[k]))
  }

  /** One row of the rule table. */
  datatype RuleRow = RuleRow(status: string, rule: Value, evidence: Value, confidence: Value)

  /**
   * The row for one rule check: `rule.get("status", "").upper()` (only a
   * string has `.upper()`), `rule.get("rule", "N/A")`,
   * `rule.get("evidence", "N/A")` and `rule.get("confidence", 0)`.
   */
  function RowOf(rule: map<string, Value>): (r: Option<RuleRow>)
    ensures "status" !in rule ==> r.Some? && r.value.status == ""
    ensures "status" in rule ==> (r.Some? <==> rule["status"].Str?)
    ensures "status" in rule && r.Some? ==> r.value.status == Upper(rule["status"].s)
    ensures r.Some? ==>
      && ("rule" !in rule ==> r.value.rule == Str("N/A"))
      && ("evidence" !in rule ==> r.value.evidence == Str("N/A"))
      && ("confidence" !in rule ==> r.value.confidence == Num(0))
      && ("rule" in rule ==> r.value.rule == rule["rule"])
      && ("evidence" in rule ==> r.value.evidence == rule["evidence"])
      && ("confidence" in rule ==> r.value.confidence == rule["confidence"])
  {
    match Get(rule, "status", Str(""))
    case Str(s) =>
      Some(RuleRow(Upper(s), Get(rule, "rule", Str("N/A")), Get(rule, "evidence", Str("N/A")),
                   Get(rule, "confidence", Num(0))))
    case _ => None
  }

  /**
   * A check the tally counts is shown as `PASS`; but a check shown as `PASS`
   * need not be counted, since the label is upper-cased and the tally is not.
   */
  lemma LabelAndTally(rule: map<string, Value>)
    ensures Passes(rule) ==> RowOf(rule).Some? && RowOf(rule).value.status == "PASS"
    ensures "status" in rule && rule["status"] == Str("Pass") ==>
      RowOf(rule).Some? && RowOf(rule).value.status == "PASS" && !Passes(rule)
  {
  }

  /** What the results view shows below the summary. */
  datatype View = View(sections: seq<Value>, rows: seq<RuleRow>, passed: nat, total: nat)

  /**
   * The section texts, the rule rows and the "passed/total" line for a
   * stored result, or `None` when one of the lookups above makes the page
   * raise.
   */
  function Render(result: map<string, Value>): (r: Option<View>)
    ensures r.Some? <==>
      && SectionsOf(result).Some?
      && RuleChecksOf(result).Some?
      && forall k :: 0 <= k < |RuleChecksOf(result).value| ==> RowOf(RuleChecksOf(result).value[k]).Some?
    ensures r.Some? ==>
      var rules := RuleChecksOf(result).value;
      && |r.value.sections| == |ShownSections|
      && (forall k :: 0 <= k < |ShownSections| ==>
            r.value.sections[k] == SectionText(SectionsOf(result).value, ShownSections[k]))
      && r.value.total == |rules| == |r.value.rows|
      && r.value.passed == |PassingIndices(rules)| <= r.value.total
      && (forall k :: 0 <= k < |rules| ==> RowOf(rules[k]) == Some(r.value.rows[k]))
  {
    match SectionsOf(result)
    case None => None
    case Some(sections) =>
      match RuleChecksOf(result)
      case None => None
      case Some(rules) =>
        if forall k :: 0 <= k < |rules| ==> RowOf(rules[k]).Some? then
          PassCountCountsPassing(rules);
          Some(View(seq(|ShownSections|, k requires 0 <= k < |ShownSections| => SectionText(sections, ShownSections[k])),
                    seq(|rules|, k requires 0 <= k < |rules| => RowOf(rules[k]).value),
                    PassCount(rules), |rules|))
        else None
  }

  /**
   * A result with no `sections` and no `rule_checks` shows every section as
   * `N/A` and "0/0".
   */
  lemma EmptyResultView(result: map<string, Value>)
    requires "sections" !in result && "rule_checks" !in result
    ensures Render(result).Some?
    ensures Render(result).value.passed == 0 && Render(result).value.total == 0
    ensures forall k :: 0 <= k < |ShownSections| ==> Render(result).value.sections[k] == Str("N/A")
  {
  }
}
