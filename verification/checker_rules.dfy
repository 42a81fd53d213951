/** The content-style checker's rule model: the configured rule set
    flattened into one entry per violating pattern, and the choice of
    matcher for each entry. */
module CheckerRules {
  import opened Base
  import opened Text
  import opened Config
  import opened Matchers

  /** One violating pattern with its rule's suggestion and case flag. */
  datatype Entry = Entry(pattern: string, suggestion: string, caseFlag: Scalar)

  /** A String violation counts as a one-element list; a missing one as none. */
  function PatternsOf(v: Option<ViolationField>): (ps: seq<string>) {
    match v
    case None => []
    case Some(One(p)) => [p]
    case Some(Many(ps)) => ps
  }

  /** The entry for the `j`-th pattern of `rule`, with the defaults `''`
      for a missing suggestion and a missing case flag. */
  function EntryFor(rule: RuleDef, j: nat): (e: Entry)
    requires j < |PatternsOf(rule.violation)|
  {
    Entry(PatternsOf(rule.violation)[j], Get(rule.suggestion, ""), Get(rule.caseInsensitive, Str("")))
  }

  function EntriesOf(rule: RuleDef): (es: seq<Entry>)
    ensures |es| == |PatternsOf(rule.violation)|
    ensures forall j :: 0 <= j < |es| ==> es[j] == EntryFor(rule, j)
  {
    seq(|PatternsOf(rule.violation)|, j requires 0 <= j < |PatternsOf(rule.violation)| => EntryFor(rule, j))
  }

  /** The rule set as `initialize` flattens it into `@content_ruleset`. */
  function Flatten(rules: seq<RuleDef>): (es: seq<Entry>)
  {
    if rules == [] then [] else EntriesOf(rules[0]) + Flatten(rules[1..])
  }

  /** Total number of patterns in a rule set. */
  function PatternCount(rules: seq<RuleDef>): (n: nat) {
    if rules == [] then 0 else |PatternsOf(rules[0].violation)| + PatternCount(rules[1..])
  }

  /** Flattening distributes over concatenation of rule sets. */
  lemma {:induction false} FlattenAppend(a: seq<RuleDef>, b: seq<RuleDef>)
    ensures Flatten(a + b) == Flatten(a) + Flatten(b)
    decreases |a|
  {
    if a != [] {
      assert (a + b)[1..] == a[1..] + b;
      FlattenAppend(a[1..], b);
    } else {
      assert a + b == b;
    }
  }

  /** One entry per violating pattern. */
  lemma {:induction false} FlattenLength(rules: seq<RuleDef>)
    ensures |Flatten(rules)| == PatternCount(rules)
    decreases |rules|
  {
    if rules != [] {
      FlattenLength(rules[1..]);
    }
  }

  /** In config order: the `j`-th pattern of rule `i` sits right after the
      entries of the rules before it. */
  lemma FlattenLocates(rules: seq<RuleDef>, i: nat, j: nat)
    requires i < |rules| && j < |PatternsOf(rules[i].violation)|
    ensures |Flatten(rules[..i])| + j < |Flatten(rules)|
    ensures Flatten(rules)[|Flatten(rules[..i])| + j] == EntryFor(rules[i], j)
  {
    assert rules == rules[..i] + ([rules[i]] + rules[i + 1..]);
    FlattenAppend(rules[..i], [rules[i]] + rules[i + 1..]);
    assert ([rules[i]] + rules[i + 1..])[1..] == rules[i + 1..];
  }

  /** Conversely every entry is the entry of some pattern of some rule. */
  lemma {:induction false} FlattenOrigin(rules: seq<RuleDef>, k: nat)
    requires k < |Flatten(rules)|
    ensures exists i, j :: 0 <= i < |rules| && 0 <= j < |PatternsOf(rules[i].violation)|
                           && Flatten(rules)[k] == EntryFor(rules[i], j)
    decreases |rules|
  {
    var first := EntriesOf(rules[0]);
    if k < |first| {
      assert Flatten(rules)[k] == EntryFor(rules[0], k);
    } else {
      FlattenOrigin(rules[1..], k - |first|);
      var i, j :| 0 <= i < |rules[1..]| && 0 <= j < |PatternsOf(rules[1..][i].violation)|
                  && Flatten(rules[1..])[k - |first|] == EntryFor(rules[1..][i], j);
      assert Flatten(rules)[k] == EntryFor(rules[i + 1], j);
    }
  }

  /** `lc_uc`: the suggestion has some lowercase letter and the pattern has
      none. First letters play no special part. */
  predicate LowerUpper(suggestion: string, pattern: string) {
    HasLower(suggestion) && !HasLower(pattern)
  }

  /** The matcher `violated_rules` picks for an entry. */
  function ModeOf(e: Entry): (mode: Mode) {
    if e.caseFlag == Str("true") then CaseInsensitive
    else if LowerUpper(e.suggestion, e.pattern) then StartingCapsIgnored
    else CaseSensitive
  }

  /** What a capture of `e`'s matcher looks like: the pattern itself, or for
      the case-insensitive matcher the pattern up to case. */
  predicate Fits(e: Entry, c: string) {
    if ModeOf(e) == CaseInsensitive then SameIgnoringCase(c, e.pattern) else c == e.pattern
  }

  /** Only the string `'true'` selects case-insensitive matching; the prefix
      matcher is used exactly for `lc_uc` entries without that flag. */
  lemma ModeSelection(e: Entry)
    ensures ModeOf(e) == CaseInsensitive <==> e.caseFlag == Str("true")
    ensures ModeOf(e) == StartingCapsIgnored <==>
              e.caseFlag != Str("true")
              && (exists i :: 0 <= i < |e.suggestion| && IsLower(e.suggestion[i]))
              && (forall i :: 0 <= i < |e.pattern| ==> !IsLower(e.pattern[i]))
    ensures e.caseFlag == Bool(true) ==> ModeOf(e) != CaseInsensitive
  {
  }

  /** A capitalised pattern that has any lowercase letter, such as `App`,
      is matched case-sensitively even when its suggestion is `app`. */
  lemma MixedCasePatternIsCaseSensitive(e: Entry, i: nat)
    requires e.caseFlag != Str("true")
    requires i < |e.pattern| && IsLower(e.pattern[i])
    ensures ModeOf(e) == CaseSensitive
  {
  }

  /** A pattern with no lowercase letter, such as `API` with suggestion
      `api`, gets the prefix matcher. */
  lemma UpperPatternIgnoresStartingCaps(e: Entry, i: nat)
    requires e.caseFlag != Str("true")
    requires i < |e.suggestion| && IsLower(e.suggestion[i])
    requires forall k :: 0 <= k < |e.pattern| ==> !IsLower(e.pattern[k])
    ensures ModeOf(e) == StartingCapsIgnored
  {
  }
}
