/** The older `ContentStyle` linter. It flattens the same `rule_set` into
    (violating text, suggestion) pairs, tests every pair against one string
    built from the file's text nodes, and reports each pair whose pattern
    occurs anywhere in it. It keeps no state between texts, removes no
    suggestions, ignores `case_insensitive`, and reports every error on the
    line `'6'`. */
module ContentStyle {
  import opened Base
  import opened Text
  import opened Config
  import CheckerRules

  datatype StyleEntry = StyleEntry(violatingText: string, suggestion: string)

  datatype StyleLinter = StyleLinter(ruleset: seq<StyleEntry>, addendum: string)

  /** The line is a string here, not a number. */
  datatype StyleError = StyleError(line: string, message: string)

  /** Flattening stops at the first rule whose `violation` is a single
      string: a Ruby `String` has no `each`, so `initialize` raises
      `NoMethodError` and no linter is built. */
  datatype ConfigFailure = NoEachOnString(violation: string)

  /** The line every error of this linter reports. */
  const ReportedLine: string := "6"

  /** A rule's patterns as `rule.fetch('violation', []).each` sees them. */
  function StyleEntriesOf(rule: RuleDef): (r: Result<seq<StyleEntry>, ConfigFailure>)
    ensures r.Failure? <==> rule.violation.Some? && rule.violation.value.One?
  {
    var suggestion := Get(rule.suggestion, "");
    match rule.violation
    case None => Success([])
    case Some(One(p)) => Failure(NoEachOnString(p))
    case Some(Many(ps)) =>
      Success(seq(|ps|, j requires 0 <= j < |ps| => StyleEntry(ps[j], suggestion)))
  }

  /** `initialize`'s loop: the entries of the rules in config order, or the
      failure of the first rule with a string `violation`. */
  function StyleFlatten(rules: seq<RuleDef>): (r: Result<seq<StyleEntry>, ConfigFailure>)
    decreases |rules|
  {
    if rules == [] then Success([])
    else
      match StyleEntriesOf(rules[0])
      case Failure(f) => Failure(f)
      case Success(first) =>
        match StyleFlatten(rules[1..])
        case Failure(f) => Failure(f)
        case Success(rest) => Success(first + rest)
  }

  /** A rule whose violation is one string, rather than a list. */
  predicate StringViolation(rule: RuleDef) {
    rule.violation.Some? && rule.violation.value.One?
  }

  /** Flattening fails exactly when some rule has a string `violation`, and
      then with the first such rule's pattern. */
  lemma {:induction false} StyleFlattenFails(rules: seq<RuleDef>)
    ensures StyleFlatten(rules).Failure? <==> exists i :: 0 <= i < |rules| && StringViolation(rules[i])
    ensures StyleFlatten(rules).Failure? ==>
              exists i :: 0 <= i < |rules| && StringViolation(rules[i])
                          && (forall j :: 0 <= j < i ==> !StringViolation(rules[j]))
                          && StyleFlatten(rules).error == NoEachOnString(rules[i].violation.value.pattern)
    decreases |rules|
  {
    if rules != [] {
      StyleFlattenFails(rules[1..]);
      if !StringViolation(rules[0]) && StyleFlatten(rules).Failure? {
        var i :| 0 <= i < |rules[1..]| && StringViolation(rules[1..][i])
                 && (forall j :: 0 <= j < i ==> !StringViolation(rules[1..][j]))
                 && StyleFlatten(rules[1..]).error == NoEachOnString(rules[1..][i].violation.value.pattern);
        assert StringViolation(rules[i + 1]);
        forall j | 0 <= j < i + 1
          ensures !StringViolation(rules[j])
        {
          if j > 0 {
            assert rules[j] == rules[1..][j - 1];
          }
        }
      }
      if StyleFlatten(rules[1..]).Failure? {
        var i :| 0 <= i < |rules[1..]| && StringViolation(rules[1..][i]);
        assert StringViolation(rules[i + 1]);
      }
      if StyleFlatten(rules).Success? {
        forall i | 0 <= i < |rules|
          ensures !StringViolation(rules[i])
        {
          if i > 0 {
            assert rules[i] == rules[1..][i - 1];
          }
        }
      }
    }
  }

  /** When it succeeds, this linter's flattening lists the same patterns with
      the same suggestions, in the same order, as the content-style
      checker's flattening of the same rules. */
  lemma {:induction false} StyleFlattenAgreesWithChecker(rules: seq<RuleDef>)
    requires StyleFlatten(rules).Success?
    ensures |StyleFlatten(rules).value| == |CheckerRules.Flatten(rules)|
    ensures forall k :: 0 <= k < |StyleFlatten(rules).value| ==>
              StyleFlatten(rules).value[k].violatingText == CheckerRules.Flatten(rules)[k].pattern
              && StyleFlatten(rules).value[k].suggestion == CheckerRules.Flatten(rules)[k].suggestion
    decreases |rules|
  {
    if rules != [] {
      StyleFlattenAgreesWithChecker(rules[1..]);
      var first: seq<StyleEntry> := StyleEntriesOf(rules[0]).value;
      var checkerFirst: seq<CheckerRules.Entry> := CheckerRules.EntriesOf(rules[0]);
      var rest: seq<StyleEntry> := StyleFlatten(rules[1..]).value;
      var checkerRest: seq<CheckerRules.Entry> := CheckerRules.Flatten(rules[1..]);
      assert StyleFlatten(rules).value == first + rest;
      assert CheckerRules.Flatten(rules) == checkerFirst + checkerRest;
      assert |first| == |checkerFirst|;
      forall k | 0 <= k < |first + rest|
        ensures (first + rest)[k].violatingText == (checkerFirst + checkerRest)[k].pattern
        ensures (first + rest)[k].suggestion == (checkerFirst + checkerRest)[k].suggestion
      {
        if k >= |first| {
          assert (first + rest)[k] == rest[k - |first|];
          assert (checkerFirst + checkerRest)[k] == checkerRest[k - |first|];
        }
      }
    }
  }

  /** `initialize`. */
  function NewStyle(config: LinterConfig): (r: Result<StyleLinter, ConfigFailure>)
    ensures config.ruleSet.None? ==> r == Success(StyleLinter([], Get(config.addendum, "")))
    ensures r.Success? ==> r.value.addendum == Get(config.addendum, "")
    ensures r.Success? <==> StyleFlatten(Get(config.ruleSet, [])).Success?
    ensures r.Success? ==> r.value.ruleset == StyleFlatten(Get(config.ruleSet, [])).value
    ensures r.Failure? ==> r.error == StyleFlatten(Get(config.ruleSet, [])).error
  {
    match StyleFlatten(Get(config.ruleSet, []))
    case Failure(f) => Failure(f)
    case Success(entries) => Success(StyleLinter(entries, Get(config.addendum, "")))
  }

  /** `violated_rules(all_text)`: the entries whose violating text occurs
      anywhere in the text, in rule order. */
  function StyleViolatedRules(ruleset: seq<StyleEntry>, text: string): (r: seq<StyleEntry>)
    ensures IsSubsequence(r, ruleset)
    ensures forall k :: 0 <= k < |r| ==> Contains(text, r[k].violatingText)
    decreases |ruleset|
  {
    if ruleset == [] then []
    else
      var rest := StyleViolatedRules(ruleset[1..], text);
      if Contains(text, ruleset[0].violatingText) then
        SubsequenceOfSuffix(rest, ruleset, 1);
        [ruleset[0]] + rest
      else
        SubsequenceOfSuffix(rest, ruleset, 1);
        rest
  }

  /** An entry is selected exactly when its violating text occurs in the
      text. */
  lemma {:induction false} StyleViolatedRulesExactly(ruleset: seq<StyleEntry>, text: string)
    ensures forall e :: e in StyleViolatedRules(ruleset, text) <==> e in ruleset && Contains(text, e.violatingText)
    decreases |ruleset|
  {
    if ruleset != [] {
      StyleViolatedRulesExactly(ruleset[1..], text);
      forall e | e in ruleset && Contains(text, e.violatingText)
        ensures e in StyleViolatedRules(ruleset, text)
      {
        if e != ruleset[0] {
          var k :| 0 <= k < |ruleset| && ruleset[k] == e;
          assert e == ruleset[1..][k - 1];
        }
      }
      SubsequenceMembersAll(StyleViolatedRules(ruleset, text), ruleset);
    }
  }

  /** Selection distributes over concatenation of rule sets, so it keeps
      every matching entry, duplicates included, and keeps their order. */
  lemma {:induction false} StyleViolatedRulesAppend(a: seq<StyleEntry>, b: seq<StyleEntry>, text: string)
    ensures StyleViolatedRules(a + b, text) == StyleViolatedRules(a, text) + StyleViolatedRules(b, text)
    decreases |a|
  {
    if a == [] {
      assert a + b == b;
    } else {
      assert (a + b)[0] == a[0];
      assert (a + b)[1..] == a[1..] + b;
      StyleViolatedRulesAppend(a[1..], b, text);
    }
  }

  /** A single entry is selected exactly when its violating text occurs. */
  lemma StyleViolatedRulesSingle(e: StyleEntry, text: string)
    ensures StyleViolatedRules([e], text) == if Contains(text, e.violatingText) then [e] else []
  {
    assert [e][1..] == [];
  }

  /** The message without the addendum. */
  function StyleLead(e: StyleEntry): (m: string) {
    "Do use " + RStrip(e.suggestion) + ". Don't use " + e.violatingText + "."
  }

  /** `"Do use #{suggestion.rstrip}. Don't use #{violating_text}. #{@addendum}".strip` */
  function StyleMessage(e: StyleEntry, addendum: string): (m: string) {
    Strip(StyleLead(e) + " " + addendum)
  }

  /** The message is the suggestion sentence, then the violation sentence,
      then one space and the addendum without trailing whitespace. Unlike
      the checker's message it puts the suggestion first and quotes nothing. */
  lemma StyleMessageShape(e: StyleEntry, addendum: string)
    ensures StyleMessage(e, addendum)
            == "Do use " + RStrip(e.suggestion) + ". Don't use " + e.violatingText + "."
               + (if RStrip(addendum) == [] then "" else " " + RStrip(addendum))
  {
    var lead := StyleLead(e);
    assert lead[0] == 'D' && lead[|lead| - 1] == '.';
    StripJoined(lead, addendum);
  }

  /** `generate_errors(all_text, line_number)`: one error per violated rule,
      in rule order, each carrying that rule's message. */
  function StyleGenerateErrors(l: StyleLinter, text: string, line: string): (r: seq<StyleError>)
    ensures |r| == |StyleViolatedRules(l.ruleset, text)|
    ensures forall k :: 0 <= k < |r| ==> r[k].line == line
    ensures forall k :: 0 <= k < |r| ==> r[k] == StyleError(line, StyleMessage(StyleViolatedRules(l.ruleset, text)[k], l.addendum))
  {
    var rules := StyleViolatedRules(l.ruleset, text);
    seq(|rules|, k requires 0 <= k < |rules| => StyleError(line, StyleMessage(rules[k], l.addendum)))
  }

  /** `lint_file`, given the string the file's text nodes turn into. Every
      error is on line `'6'`, whatever the file looks like. */
  function StyleLintFile(l: StyleLinter, allText: string): (r: seq<StyleError>)
    ensures forall k :: 0 <= k < |r| ==> r[k].line == ReportedLine
  {
    StyleGenerateErrors(l, allText, ReportedLine)
  }

  /** Each entry whose violating text occurs in the text yields its own
      message, and every message belongs to such an entry. */
  lemma StyleLintFileReports(l: StyleLinter, allText: string)
    ensures forall e :: e in l.ruleset && Contains(allText, e.violatingText) ==>
              StyleError(ReportedLine, StyleMessage(e, l.addendum)) in StyleLintFile(l, allText)
    ensures forall k :: 0 <= k < |StyleLintFile(l, allText)| ==>
              exists e :: e in l.ruleset && Contains(allText, e.violatingText)
                          && StyleLintFile(l, allText)[k] == StyleError(ReportedLine, StyleMessage(e, l.addendum))
  {
    var rules := StyleViolatedRules(l.ruleset, allText);
    var errors := StyleLintFile(l, allText);
    StyleViolatedRulesExactly(l.ruleset, allText);
    forall e | e in l.ruleset && Contains(allText, e.violatingText)
      ensures StyleError(ReportedLine, StyleMessage(e, l.addendum)) in errors
    {
      var k :| 0 <= k < |rules| && rules[k] == e;
      assert errors[k] == StyleError(ReportedLine, StyleMessage(e, l.addendum));
    }
    forall k | 0 <= k < |errors|
      ensures exists e :: e in l.ruleset && Contains(allText, e.violatingText)
                          && errors[k] == StyleError(ReportedLine, StyleMessage(e, l.addendum))
    {
      assert rules[k] in rules;
    }
  }

  /** A text that contains none of the violating texts produces no errors. */
  lemma StyleCleanText(l: StyleLinter, allText: string)
    requires forall e :: e in l.ruleset ==> !Contains(allText, e.violatingText)
    ensures StyleLintFile(l, allText) == []
  {
    StyleViolatedRulesExactly(l.ruleset, allText);
  }

  /** An empty or missing rule set builds a linter that reports nothing,
      whatever the text. */
  lemma StyleNoRulesNoErrors(config: LinterConfig, allText: string)
    requires config.ruleSet.None? || config.ruleSet == Some([])
    ensures NewStyle(config).Success?
    ensures StyleLintFile(NewStyle(config).value, allText) == []
  {
  }
}
