/** The `ContentStyleChecker` linter as a value: its flattened rule set,
    its addendum, and the captures it has recorded so far. The capture list
    belongs to the linter, not to a text or a file: it is created empty once
    and only ever grows, across all segments and all `lint_file` calls. */
module Checker {
  import opened Base
  import opened Text
  import opened Config
  import opened Matchers
  import opened CheckerRules
  import opened Resolver

  /** A text node: its text and the line of its parent (`None` when the
      node has no parent or the parent has no line). */
  datatype Segment = Segment(text: string, line: Option<int>)

  datatype Error = Error(line: Option<int>, message: string)

  datatype Linter = Linter(ruleset: seq<Entry>, addendum: string, prior: seq<string>)

  /** Errors produced, and the linter as it is afterwards. */
  datatype Report = Report(errors: seq<Error>, linter: Linter)

  /** `initialize`. */
  function New(config: LinterConfig): (l: Linter)
    ensures l.prior == []
    ensures |l.ruleset| == PatternCount(Get(config.ruleSet, []))
    ensures config.ruleSet.None? ==> l.ruleset == []
    ensures l.ruleset == Flatten(Get(config.ruleSet, [])) && l.addendum == Get(config.addendum, "")
  {
    FlattenLength(Get(config.ruleSet, []));
    Linter(Flatten(Get(config.ruleSet, [])), Get(config.addendum, ""), [])
  }

  /** The message without the addendum. */
  function Lead(pattern: string, suggestion: string): (m: string) {
    "Don't use `" + pattern + "`. Do use `" + suggestion + "`."
  }

  /** `"Don't use `#{violation}`. Do use `#{suggestion}`. #{@addendum}".strip` */
  function Message(pattern: string, suggestion: string, addendum: string): (m: string) {
    Strip(Lead(pattern, suggestion) + " " + addendum)
  }

  /** The message is the lead sentence, then one space and the addendum
      without trailing whitespace; a blank addendum leaves the lead alone.
      It names the configured pattern, whatever the matched text looked like. */
  lemma MessageShape(pattern: string, suggestion: string, addendum: string)
    ensures Message(pattern, suggestion, addendum)
            == Lead(pattern, suggestion) + (if RStrip(addendum) == [] then "" else " " + RStrip(addendum))
  {
    StripJoined(Lead(pattern, suggestion), addendum);
  }

  function ErrorFor(l: Linter, e: Entry, line: Option<int>): (err: Error) {
    Error(line, Message(e.pattern, e.suggestion, l.addendum))
  }

  /** `generate_errors(text, line)`: one error per selected entry, so one
      per capture recorded, all on the text node's line; each is the
      message of an entry of the rule set. */
  function GenerateErrors(l: Linter, text: string, line: Option<int>): (r: Report)
    ensures r.linter.ruleset == l.ruleset && r.linter.addendum == l.addendum
    ensures |r.errors| == |Captures(Resolve(l.ruleset, text, l.prior))| <= |l.ruleset|
    ensures r.linter.prior == l.prior + Captures(Resolve(l.ruleset, text, l.prior))
    ensures |r.linter.prior| == |l.prior| + |r.errors| && r.linter.prior[..|l.prior|] == l.prior
    ensures forall k :: 0 <= k < |r.errors| ==> r.errors[k].line == line
    ensures forall k :: 0 <= k < |r.errors| ==> exists e :: e in l.ruleset && r.errors[k] == ErrorFor(l, e, line)
  {
    var sel := ViolatedRules(l.ruleset, text, l.prior);
    var errors := seq(|sel.rules|, k requires 0 <= k < |sel.rules| => ErrorFor(l, sel.rules[k], line));
    SelectedErrorsFromRuleset(l, sel.rules, line, errors);
    Report(errors, l.(prior := sel.prior))
  }

  /** Entry `k` of the rule set is reported exactly when `violated_rules`
      selects it (`outs[k]` is a capture), and its error comes right after
      the errors of the entries selected before it; the `m`-th error is the
      message of the entry that made the `m`-th capture. */
  lemma GenerateErrorsReports(l: Linter, text: string, line: Option<int>)
    ensures var outs := Resolve(l.ruleset, text, l.prior);
            var errors := GenerateErrors(l, text, line).errors;
            && |errors| == |Captures(outs)|
            && (forall k :: 0 <= k < |l.ruleset| && outs[k].Some? ==>
                  |Captures(outs[..k])| < |errors| && errors[|Captures(outs[..k])|] == ErrorFor(l, l.ruleset[k], line))
            && (forall m :: 0 <= m < |errors| ==> errors[m] == ErrorFor(l, l.ruleset[NthSelected(outs, m)], line))
  {
    var outs := Resolve(l.ruleset, text, l.prior);
    var errors := GenerateErrors(l, text, line).errors;
    var chosen := ViolatedRules(l.ruleset, text, l.prior).rules;
    assert chosen == Chosen(l.ruleset, outs);
    assert errors == seq(|chosen|, k requires 0 <= k < |chosen| => ErrorFor(l, chosen[k], line));
    ChosenImage(l.ruleset, outs, e => ErrorFor(l, e, line), errors);
  }

  lemma SelectedErrorsFromRuleset(l: Linter, rules: seq<Entry>, line: Option<int>, errors: seq<Error>)
    requires IsSubsequence(rules, l.ruleset) && |errors| == |rules|
    requires forall k :: 0 <= k < |rules| ==> errors[k] == ErrorFor(l, rules[k], line)
    ensures forall k :: 0 <= k < |errors| ==> errors[k].line == line
    ensures forall k :: 0 <= k < |errors| ==> exists e :: e in l.ruleset && errors[k] == ErrorFor(l, e, line)
  {
    forall k | 0 <= k < |errors|
      ensures exists e :: e in l.ruleset && errors[k] == ErrorFor(l, e, line)
    {
      SubsequenceMembers(rules, l.ruleset, rules[k]);
    }
  }

  /** The errors of one text node follow entry order: they are the messages
      of a subsequence of the rule set, one per entry. */
  lemma GenerateErrorsInEntryOrder(l: Linter, text: string, line: Option<int>)
    ensures exists rules :: IsSubsequence(rules, l.ruleset) && |rules| == |GenerateErrors(l, text, line).errors|
                            && forall k :: 0 <= k < |rules| ==> GenerateErrors(l, text, line).errors[k] == ErrorFor(l, rules[k], line)
  {
    var rules := ViolatedRules(l.ruleset, text, l.prior).rules;
    assert forall k :: 0 <= k < |rules| ==> GenerateErrors(l, text, line).errors[k] == ErrorFor(l, rules[k], line);
  }

  /** `push_errors` for one text node: the errors of its text, and the
      linter with that text's captures appended to its record. */
  function SegmentStep(l: Linter, seg: Segment): (r: (seq<Error>, Linter))
    ensures r.1.ruleset == l.ruleset && r.1.addendum == l.addendum
    ensures |r.1.prior| == |l.prior| + |r.0| && r.1.prior[..|l.prior|] == l.prior
    ensures |r.0| <= |l.ruleset|
    ensures r.1 == l.(prior := l.prior + Captures(Resolve(l.ruleset, seg.text, l.prior)))
  {
    var g := GenerateErrors(l, seg.text, seg.line);
    (g.errors, g.linter)
  }

  /** The errors of a sequence of text nodes, in order, and the linter
      after all of them. */
  function LintSegments(l: Linter, segs: seq<Segment>): (r: Report)
    ensures r.linter.ruleset == l.ruleset && r.linter.addendum == l.addendum
    ensures |r.linter.prior| == |l.prior| + |r.errors| && r.linter.prior[..|l.prior|] == l.prior
    ensures |r.errors| <= |segs| * |l.ruleset|
  {
    ThreadFacts(l, segs);
    var (errors, l') := Thread(SegmentStep, l, segs);
    Report(errors, l')
  }

  /** No text nodes: no errors, and the linter is unchanged. One text node:
      exactly what `generate_errors` gives for its text and line. */
  lemma LintSegmentsSingle(l: Linter, seg: Segment)
    ensures LintSegments(l, []) == Report([], l)
    ensures LintSegments(l, [seg]) == GenerateErrors(l, seg.text, seg.line)
  {
    var g := GenerateErrors(l, seg.text, seg.line);
    assert [seg][1..] == [];
    assert SegmentStep(l, seg) == (g.errors, g.linter);
    assert Thread(SegmentStep, g.linter, []) == ([], g.linter);
    assert g.errors + [] == g.errors;
    assert Thread(SegmentStep, l, [seg]) == (g.errors, g.linter);
  }

  /** The first text node is linted first, and the rest are linted by the
      linter it leaves behind; their errors follow its errors. With
      LintSegmentsSingle this determines LintSegments on every input. */
  lemma LintSegmentsCons(l: Linter, seg: Segment, rest: seq<Segment>)
    ensures var g := GenerateErrors(l, seg.text, seg.line);
            var r := LintSegments(g.linter, rest);
            LintSegments(l, [seg] + rest) == Report(g.errors + r.errors, r.linter)
  {
    var segs := [seg] + rest;
    assert segs[0] == seg && segs[1..] == rest;
  }

  lemma ThreadFacts(l: Linter, segs: seq<Segment>)
    ensures var (errors, l') := Thread(SegmentStep, l, segs);
            && l'.ruleset == l.ruleset && l'.addendum == l.addendum
            && |l'.prior| == |l.prior| + |errors| && l'.prior[..|l.prior|] == l.prior
            && |errors| <= |segs| * |l.ruleset|
  {
    var keep := (a: Linter, e: seq<Error>, b: Linter) =>
      b.ruleset == a.ruleset && b.addendum == a.addendum
      && |b.prior| == |a.prior| + |e| && b.prior[..|a.prior|] == a.prior;
    forall a, e1, b, e2, c | keep(a, e1, b) && keep(b, e2, c)
      ensures keep(a, e1 + e2, c)
    {
      assert c.prior[..|a.prior|] == c.prior[..|b.prior|][..|a.prior|];
    }
    ThreadKeeps(SegmentStep, keep, l, segs);
    ThreadBound(SegmentStep, (a: Linter) => |a.ruleset| == |l.ruleset|, |l.ruleset|, l, segs);
  }

  /** Every error carries the line of one of the text nodes. */
  lemma LintSegmentsLines(l: Linter, segs: seq<Segment>)
    ensures forall k :: 0 <= k < |LintSegments(l, segs).errors| ==>
              exists s :: s in segs && LintSegments(l, segs).errors[k].line == s.line
  {
    var ok := (s: Segment, e: Error) => e.line == s.line;
    ThreadEmitsFrom(SegmentStep, ok, l, segs);
    var errors := LintSegments(l, segs).errors;
    forall k | 0 <= k < |errors|
      ensures exists s :: s in segs && errors[k].line == s.line
    {
      var i :| 0 <= i < |segs| && ok(segs[i], errors[k]);
      assert segs[i] in segs;
    }
  }

  /** `lint_file`: the outer text nodes, then the text nodes of the elements,
      as one run. */
  function LintFile(l: Linter, outer: seq<Segment>, inner: seq<Segment>): (r: Report)
    ensures r.errors == LintSegments(l, outer).errors + LintSegments(LintSegments(l, outer).linter, inner).errors
    ensures r.linter == LintSegments(LintSegments(l, outer).linter, inner).linter
  {
    ThreadAppend(SegmentStep, l, outer, inner);
    LintSegments(l, outer + inner)
  }

  // ---------------------------------------------------------------------
  // Suppression across segments and files

  /** A case-sensitive or prefix entry that fires records its own pattern. */
  lemma LiteralFireRecordsPattern(l: Linter, text: string, line: Option<int>, k: nat)
    requires k < |l.ruleset|
    requires Resolve(l.ruleset, text, l.prior)[k].Some?
    requires ModeOf(l.ruleset[k]) != CaseInsensitive
    ensures l.ruleset[k].pattern in GenerateErrors(l, text, line).linter.prior
  {
    var outs := Resolve(l.ruleset, text, l.prior);
    CaptureSeenLater(outs, k, |outs|, outs[k].value);
    assert outs[..|outs|] == outs;
  }

  /** Once a case-sensitive or prefix entry has fired, it is skipped for
      every later segment, in this file or any later one. */
  lemma LiteralFiresOnce(l: Linter, text: string, line: Option<int>, k: nat, later: seq<Segment>, text': string)
    requires k < |l.ruleset|
    requires Resolve(l.ruleset, text, l.prior)[k].Some?
    requires ModeOf(l.ruleset[k]) != CaseInsensitive
    ensures var l' := LintSegments(GenerateErrors(l, text, line).linter, later).linter;
            Resolve(l'.ruleset, text', l'.prior)[k] == None
  {
    var l1 := GenerateErrors(l, text, line).linter;
    var l' := LintSegments(l1, later).linter;
    LiteralFireRecordsPattern(l, text, line, k);
    var p := l.ruleset[k].pattern;
    var i :| 0 <= i < |l1.prior| && l1.prior[i] == p;
    assert l'.prior[i] == l1.prior[i];
    assert OccursAt(p, p, 0);
    PriorCaptureSuppresses(l'.ruleset, text', l'.prior, k, p);
  }
}
