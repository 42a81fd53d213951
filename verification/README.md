# erb-lint content-style linters in Dafny

This project models the two content-style linters of erb-lint. They check
the text of ERB/HTML templates against a configured house style.

- `ContentStyleChecker` (`lib/erb_lint/linters/content_style_checker.rb`):
  - Flattens the configured `rule_set` into one entry per violating
    pattern. Each entry carries its rule's suggestion and case flag.
  - Tests every text node separately.
  - For each entry it first deletes the entry's suggestion from the
    working text. The deletions accumulate across entries.
  - It skips an entry whose pattern occurs in the rendering of the
    captures recorded so far (`@prior_violations.to_s`).
  - Otherwise it applies one of three matchers: case-insensitive,
    case-sensitive, or "starting caps ignored" (the match must follow a
    word character and a space).
  - It reports one error per selected entry and records the capture.
  - The capture list belongs to the linter. It is never reset, so it
    carries over between text nodes and between files.
- `ContentStyle` (`lib/erb_lint/linters/content_style.rb`):
  - The older linter. It flattens the same rule set.
  - It reports every entry whose pattern occurs anywhere in one string
    built from the file's text.
  - It keeps no state and removes nothing.
  - It puts every error on the line `'6'`.

Modules, in dependency order:

| file | module | contents |
|---|---|---|
| `base.dfy` | `Base` | `Option`, `Result`, leftmost search, subsequences, a generic state-threading fold |
| `text.dfy` | `Text` | ASCII character classes, `\b`, occurrence, `gsub(/v/, '')`, `strip`/`rstrip` |
| `config.dfy` | `Config` | the decoded configuration (missing keys are `None`) |
| `matchers.dfy` | `Matchers` | the three regular expressions and their leftmost capture |
| `checker_rules.dfy` | `CheckerRules` | flattening, `lc_uc`, the choice of matcher |
| `resolver.dfy` | `Resolver` | `violated_rules` as a fold over the entries |
| `checker.dfy` | `Checker` | the linter value, `generate_errors`, the text-node fold, `lint_file` |
| `content_style.dfy` | `ContentStyle` | the older linter |
| `scenarios.dfy` | `Scenarios` | short concrete texts that trace single behaviours |

The model follows the code in the places where the linters' own prose
description differs from it:

- **`lc_uc`.** The code asks whether the suggestion has *any* lowercase
  letter and the pattern has *none*. It does not compare first letters.
  So `App`/`app` and `Apps`/`apps` are matched case-sensitively, and only
  patterns such as `API` get the prefix matcher.
- **Where the capture list lives.** It is an instance variable created in
  `initialize`. It is not reset per text node or per file.
- **What an error names.** The message names the configured pattern, not
  the text that matched. That text is what gets recorded.
- **Several patterns per rule.** Each pattern is a separate entry. An
  entry can therefore be skipped because of a capture recorded by an
  earlier pattern of the same rule.
- **Suggestion removal.** Removal is cumulative over all entries. It
  happens before the suppression test, so it also applies to entries
  that are then skipped.
- **Missing configuration.** A missing `violation` or `rule_set` is an
  empty list, not an error.
- **Specification tests 5 and 6.** Their descriptions say the opening
  `Apps` (or `App`) of the text is ignored and the later one reported.
  The case-sensitive matcher in fact captures the first occurrence in the
  text (Scenarios.AppsOpeningTheTextIsCaptured). On a shortened form
  of test 5's text (`Apps, Big Apps`) with the single entry `Apps`/`apps`,
  the model also reports one error naming `Apps`
  (Scenarios.AppsReportedOnce). Test 6's text and the tests' full rule set
  are not modelled.
- **The case flag.** It is compared with the string `'true'`. A YAML
  boolean `true` therefore does not select case-insensitive matching.

## Model

| member | source | states |
|---|---|---|
| CheckerRules.Flatten | lib/erb_lint/linters/content_style_checker.rb:11-22 | the flattened rule set; its length, layout and order are stated by the four lemmas below |
| CheckerRules.FlattenLength | lib/erb_lint/linters/content_style_checker.rb:11-22 | the flattened rule set has exactly one entry per configured pattern, where a string `violation` counts as one pattern and a missing one as none |
| CheckerRules.FlattenLocates | lib/erb_lint/linters/content_style_checker.rb:11-22 | the j-th pattern of rule i sits right after the entries of the earlier rules, paired with that rule's suggestion and case flag (defaults `''` when missing) |
| CheckerRules.FlattenOrigin | lib/erb_lint/linters/content_style_checker.rb:11-22 | conversely, every entry is the entry of some pattern of some rule |
| CheckerRules.FlattenAppend | lib/erb_lint/linters/content_style_checker.rb:11-22 | flattening a concatenation of rule sets concatenates their flattenings, so config order is kept |
| Checker.New | lib/erb_lint/linters/content_style_checker.rb:9-27 | a new linter has no recorded captures; its rule set is the flattened configured `rule_set` (one entry per pattern, none when the key is missing) and its addendum is the configured one, `''` when missing |
| CheckerRules.LowerUpper | lib/erb_lint/linters/content_style_checker.rb:101-103 | `lc_uc`: the suggestion has a lowercase letter and the pattern has none; its effect is stated by CheckerRules.ModeSelection |
| CheckerRules.ModeOf | lib/erb_lint/linters/content_style_checker.rb:76-82 | the matcher chosen for an entry; when each is chosen is stated by CheckerRules.ModeSelection |
| CheckerRules.ModeSelection | lib/erb_lint/linters/content_style_checker.rb:76-82 | the case-insensitive matcher is used exactly when the flag is the string `'true'` (never for a boolean); the prefix matcher exactly when it is not and the suggestion has a lowercase letter and the pattern has none |
| CheckerRules.MixedCasePatternIsCaseSensitive | lib/erb_lint/linters/content_style_checker.rb:101-103 | a pattern with any lowercase letter (e.g. `App`) is matched case-sensitively unless flagged |
| CheckerRules.UpperPatternIgnoresStartingCaps | lib/erb_lint/linters/content_style_checker.rb:101-103 | a pattern without lowercase letters whose suggestion has one (e.g. `API`/`api`) gets the prefix matcher |
| Matchers.HitAt | lib/erb_lint/linters/content_style_checker.rb:86-99 | where each of the three expressions `/(v)\b/i`, `/(v)\b/` and `/\w (v)\b/` matches: the pattern (up to ASCII case for the first) followed by a word boundary, and for the third preceded by a word character and one space |
| Matchers.MatchStart | lib/erb_lint/linters/content_style_checker.rb:86-99 | the match found is a match of the matcher's expression, and no match starts further left |
| Matchers.Capture | lib/erb_lint/linters/content_style_checker.rb:86-99 | a capture exists iff the expression matches; it is the text at the leftmost match; it equals the pattern, or equals it up to ASCII case for the case-insensitive matcher |
| Matchers.StricterModesCaptureLess | lib/erb_lint/linters/content_style_checker.rb:86-99 | a prefix match implies a case-sensitive match, which implies a case-insensitive match |
| Matchers.SentenceStartsNeverHit | lib/erb_lint/linters/content_style_checker.rb:96-99 | the prefix matcher never matches at the start of the text or right after a sentence end `. ` |
| Matchers.NoHitInsideWord | lib/erb_lint/linters/content_style_checker.rb:86-99 | because of `\b`, a pattern ending in a word character does not match where another word character follows (`App` in `Apply`) |
| Text.RemoveAll | lib/erb_lint/linters/content_style_checker.rb:74 | `gsub(/s/, '')` on a literal suggestion: deletes non-overlapping occurrences in one pass from left to right and never lengthens the text; an empty suggestion (the `''` default) leaves the text unchanged; what it deletes otherwise is stated by the lemmas below, and Text.RemoveAllAtFirst with Text.RemoveAbsent determines it |
| Text.RemoveAllAtFirst | lib/erb_lint/linters/content_style_checker.rb:74 | the text before the leftmost occurrence is kept, that occurrence is deleted, and deletion resumes right after it on the rest of the text |
| Text.RemoveAllKeepsPrefix | lib/erb_lint/linters/content_style_checker.rb:74 | a prefix in which no occurrence starts passes through deletion unchanged |
| Text.RemoveAllSinglePass | lib/erb_lint/linters/content_style_checker.rb:74 | text joined by a deletion is not scanned again: `aabb` without `ab` is `ab`, not empty |
| Text.RemoveAllChangesIff | lib/erb_lint/linters/content_style_checker.rb:74 | deleting a non-empty suggestion changes the text iff the suggestion occurs in it |
| Text.RemoveAllIsSubsequence | lib/erb_lint/linters/content_style_checker.rb:74 | deletion keeps the surviving characters in order |
| Text.RemoveAbsent | lib/erb_lint/linters/content_style_checker.rb:74 | deleting a suggestion that does not occur leaves the text unchanged |
| Text.RemoveAllOfRepeat | lib/erb_lint/linters/content_style_checker.rb:74 | deleting a suggestion from repeated copies of itself leaves nothing |
| Text.Contains | lib/erb_lint/linters/content_style_checker.rb:75 | an unanchored match of a literal pattern: true iff the pattern occurs at some position; also the older linter's test at content_style.rb:52 |
| Text.RStrip | lib/erb_lint/linters/content_style.rb:42 | `rstrip`: a prefix of the input that is empty or ends in a non-space, with only spaces after it (Text.RStripUnique: these determine it) |
| Text.Strip | lib/erb_lint/linters/content_style_checker.rb:65 | `strip`; what it removes is stated by Text.StripTrims |
| Text.StripTrims | lib/erb_lint/linters/content_style_checker.rb:65 | `strip` removes only whitespace and only from the two ends: the result is a slice of the input with no whitespace at either end |
| Resolver.RenderShowsEveryCapture | lib/erb_lint/linters/content_style_checker.rb:75 | every recorded capture appears verbatim in `@prior_violations.to_s` |
| Resolver.SuppressedByCapture | lib/erb_lint/linters/content_style_checker.rb:75 | a pattern that occurs in any recorded capture is skipped |
| Resolver.Render | lib/erb_lint/linters/content_style_checker.rb:75 | `@prior_violations.to_s`: each capture list rendered as `["c"]` inside one outer `[...]`, separated by `, ` (no escaping, see below); what it shows is stated by Resolver.RenderShowsEveryCapture |
| Resolver.Suppressed | lib/erb_lint/linters/content_style_checker.rb:75 | the `next if` test: the pattern occurs in that rendering; a sufficient condition is stated by Resolver.SuppressedByCapture |
| Resolver.Verdict | lib/erb_lint/linters/content_style_checker.rb:75-82 | an entry yields a capture exactly when its pattern is not skipped and its matcher hits the working text; the capture is the text at the leftmost hit and fits the pattern under the matcher |
| Resolver.Resolve | lib/erb_lint/linters/content_style_checker.rb:70-84 | one outcome per entry, and every capture fits its entry's pattern |
| Resolver.ResolveSelects | lib/erb_lint/linters/content_style_checker.rb:70-84 | inside the fold, entry k records a capture exactly when its pattern occurs neither in the captures recorded before the text nor in those of entries 0..k-1, and its matcher hits the text from which the suggestions of entries 0..k were deleted; the capture is at the leftmost hit |
| Resolver.ResolveStepByStep | lib/erb_lint/linters/content_style_checker.rb:70-84 | entry k is decided on the text from which the suggestions of entries 0..k have all been deleted, against the earlier captures plus those of entries 0..k-1 |
| Resolver.ViolatedRules | lib/erb_lint/linters/content_style_checker.rb:70-84 | the selected entries are exactly the entries that recorded a capture, in order (a subsequence of the rule set); the capture list becomes the earlier list followed by this text's captures, one per selected entry and each fitting its entry |
| Resolver.ChosenMatchesCaptures | lib/erb_lint/linters/content_style_checker.rb:105-107 | an entry is selected iff it records a capture, one to one and in order |
| Resolver.ChosenAt | lib/erb_lint/linters/content_style_checker.rb:70-84 | an entry that records a capture is selected, at the position given by the number of captures recorded by the entries before it |
| Resolver.NthSelected | lib/erb_lint/linters/content_style_checker.rb:105-107 | the m-th capture recorded for a text was recorded by an entry with exactly m captures before it |
| Resolver.ChosenOrigin | lib/erb_lint/linters/content_style_checker.rb:70-84 | conversely, the m-th selected entry is the entry that recorded the m-th capture |
| Resolver.EarlierCaptureSuppresses | lib/erb_lint/linters/content_style_checker.rb:75 | within one text, an entry whose pattern occurs in an earlier entry's capture is not selected (`Store` after `Store's admin`) |
| Resolver.PriorCaptureSuppresses | lib/erb_lint/linters/content_style_checker.rb:75 | an entry whose pattern occurs in a capture recorded before the text is not selected |
| Resolver.EmptyPatternNeverSelected | lib/erb_lint/linters/content_style_checker.rb:75 | an empty pattern matches every rendering, so its entry is never selected |
| Resolver.OwnSuggestionNeverFires | lib/erb_lint/linters/content_style_checker.rb:74 | text made only of an entry's suggestion, once that entry's own deletion has run and no earlier entry has deleted anything, never fires that entry (`Help Center` inside `Shopify Help Center`) |
| Checker.Message | lib/erb_lint/linters/content_style_checker.rb:65 | the message string; its shape is stated by Checker.MessageShape |
| Checker.MessageShape | lib/erb_lint/linters/content_style_checker.rb:65 | the message is ``Don't use `p`. Do use `s`.``, then one space and the addendum without trailing whitespace, or nothing for a blank addendum |
| Checker.GenerateErrors | lib/erb_lint/linters/content_style_checker.rb:58-68 | exactly one error per capture recorded for the text, so at most one per entry; all on the given line, each the message of an entry of the rule set; the capture list becomes the earlier list followed by this text's captures; rules and addendum unchanged |
| Checker.GenerateErrorsReports | lib/erb_lint/linters/content_style_checker.rb:58-84 | entry k gets an error exactly when it records a capture; that error is entry k's message and sits after the errors of the entries selected before it; the m-th error is the message of the entry that recorded the m-th capture |
| Checker.GenerateErrorsInEntryOrder | lib/erb_lint/linters/content_style_checker.rb:58-68 | the errors of one text node are the messages of a subsequence of the rule set, one per entry, so they follow entry order (`dropdown` before `drop down`) |
| Checker.SegmentStep | lib/erb_lint/linters/content_style_checker.rb:46-48 | `push_errors` for one text node keeps the rules and addendum, appends the captures that `violated_rules` records for its text to the list, one per error, and reports at most one error per entry |
| Checker.LintSegments | lib/erb_lint/linters/content_style_checker.rb:37-40 | over a sequence of text nodes the capture list grows by one per error and keeps its earlier contents; at most one error per entry and node |
| Checker.LintSegmentsSingle | lib/erb_lint/linters/content_style_checker.rb:37-48 | no text nodes give no errors and leave the linter alone; one text node gives exactly `generate_errors` for its text and line |
| Checker.LintSegmentsCons | lib/erb_lint/linters/content_style_checker.rb:37-48 | the first text node is linted first, the rest by the linter it leaves behind, and their errors follow its errors; with Checker.LintSegmentsSingle this determines the errors of every run |
| Checker.LintSegmentsLines | lib/erb_lint/linters/content_style_checker.rb:37-39 | every error carries the line of one of the text nodes |
| Checker.LintFile | lib/erb_lint/linters/content_style_checker.rb:29-42 | `lint_file` reports the outer text nodes' errors, then the element text nodes' errors, with the captures of the first group in force for the second |
| Checker.LiteralFireRecordsPattern | lib/erb_lint/linters/content_style_checker.rb:105-107 | a case-sensitive or prefix entry that fires records its own pattern |
| Checker.LiteralFiresOnce | lib/erb_lint/linters/content_style_checker.rb:75 | once a case-sensitive or prefix entry has fired, it is skipped for every later text node of this and every later file |
| ContentStyle.StyleFlatten | lib/erb_lint/linters/content_style.rb:11-19 | the older linter's flattening, which can fail; when and how is stated by the two lemmas below |
| ContentStyle.StyleFlattenFails | lib/erb_lint/linters/content_style.rb:11-19 | building the linter fails exactly when some rule's `violation` is a single string, and it fails at the first such rule |
| ContentStyle.StyleFlattenAgreesWithChecker | lib/erb_lint/linters/content_style.rb:11-19 | when it succeeds it lists the same patterns and suggestions in the same order as the checker's flattening |
| ContentStyle.NewStyle | lib/erb_lint/linters/content_style.rb:9-23 | building the linter succeeds exactly when flattening the configured `rule_set` succeeds, and then its entries are that flattening's and its addendum the configured one (`''` when missing); otherwise it fails with flattening's failure; a missing `rule_set` gives a linter with no entries |
| ContentStyle.StyleViolatedRules | lib/erb_lint/linters/content_style.rb:50-54 | the selection is a subsequence of the rule set whose patterns all occur in the text |
| ContentStyle.StyleViolatedRulesExactly | lib/erb_lint/linters/content_style.rb:50-54 | an entry is selected iff its pattern occurs in the text |
| ContentStyle.StyleViolatedRulesAppend | lib/erb_lint/linters/content_style.rb:50-54 | selection distributes over concatenation, so duplicates and order are kept |
| ContentStyle.StyleViolatedRulesSingle | lib/erb_lint/linters/content_style.rb:50-54 | a single entry is selected iff its pattern occurs |
| ContentStyle.StyleMessage | lib/erb_lint/linters/content_style.rb:42-45 | the older linter's message; its shape is stated by ContentStyle.StyleMessageShape |
| ContentStyle.StyleMessageShape | lib/erb_lint/linters/content_style.rb:42-45 | the message is `Do use s. Don't use v.` with the suggestion right-stripped, then one space and the addendum without trailing whitespace |
| ContentStyle.StyleGenerateErrors | lib/erb_lint/linters/content_style.rb:40-48 | one error per selected entry, all on the given line; the k-th error carries the message of the k-th selected entry |
| ContentStyle.StyleLintFile | lib/erb_lint/linters/content_style.rb:25-36 | every error is on line `'6'` |
| ContentStyle.StyleLintFileReports | lib/erb_lint/linters/content_style.rb:40-54 | each entry whose pattern occurs yields its own message, and every error is the message of such an entry |
| ContentStyle.StyleCleanText | lib/erb_lint/linters/content_style.rb:50-54 | a text containing none of the patterns produces no errors |
| ContentStyle.StyleNoRulesNoErrors | lib/erb_lint/linters/content_style.rb:9-54 | an empty or missing `rule_set` builds a linter that reports no errors for any text |
| Scenarios.PrefixMatcherSkipsTextStart | lib/erb_lint/linters/content_style_checker.rb:96-99 | `API`/`api` on `API. My API`: the prefix matcher skips the opening `API` and captures the one at position 8 |
| Scenarios.PrefixMatcherNeedsSpace | lib/erb_lint/linters/content_style_checker.rb:96-99 | the prefix matcher wants exactly a space before the pattern: `API` after `a-` is not captured |
| Scenarios.PrefixMatcherAfterSpace | lib/erb_lint/linters/content_style_checker.rb:96-99 | `API` after `a ` is captured |
| Scenarios.AppsCapturedAtStart | lib/erb_lint/linters/content_style_checker.rb:91-94 | the case-sensitive matcher takes the `Apps` that opens `Apps, Big Apps`, at position 0 |
| Scenarios.AppsOpeningTheTextIsCaptured | spec/erb_lint/linters/content_style_checker_spec.rb:105-122 | `Apps`/`apps` is matched case-sensitively, and on `Apps, Big Apps` the entry records the opening `Apps` |
| Scenarios.AppsReportedOnce | spec/erb_lint/linters/content_style_checker_spec.rb:105-122 | so exactly one error is reported, and it names the configured `Apps` |
| Scenarios.OverlapExample | spec/erb_lint/linters/content_style_checker_spec.rb:179-192 | with entries `Store's` then `Store` on `My Store's`, the first fires and the second is suppressed by its capture |
| Scenarios.EarlierDeletionDefeatsSelfExclusion | lib/erb_lint/linters/content_style_checker.rb:74 | with entries `x`/`Shopify ` then `Help Center`/`Shopify Help Center` on `Shopify Help Center`, the first entry's deletion leaves `Help Center` and the second entry fires on it |
| Scenarios.StyleReportsOverlapTwice | lib/erb_lint/linters/content_style.rb:50-54 | the older linter reports both overlapping patterns on the same text, the second as `Do use shop. Don't use Store.` on line `6` |

## Left out

- HTML parsing and text-node selection (`select_text_children`,
  `html_elements`, Nokogiri) are left out. A file is given as its outer
  text nodes and its element text nodes, each with its text and parent
  line. This model does not include the parser.
- `ContentStyle`'s `all_text` is taken as an input string. It is built
  with `Array#to_s` over Nokogiri nodes, and that rendering is not
  modelled.
- Regular-expression syntax is not modelled: patterns and suggestions are
  matched as literal text. Configured patterns that use metacharacters
  (`[Dd]ropdown`, lookaheads) are outside the model.
- Resolver.Render: does not model `String#inspect`'s escaping inside
  captures. Ruby writes `"` as `\"` and `\` as `\\`. It writes `#` as
  `\#` when `{`, `$` or `@` follows. It writes control and non-printable
  characters as escapes (`\n`, `\t`, `\e`, `\xNN`). The model renders
  every capture verbatim. So a pattern can be suppressed in the model and
  not in Ruby: after the capture `a#{b` the model's rendering contains
  `a#{`, but Ruby's `[["a\#{b"]]` does not.
- Character classes are ASCII only. `\w`, `\p{Lower}` and `/i` folding
  over non-ASCII letters are not modelled.
- YAML loading is not modelled. The configuration arrives decoded. A
  suggestion or addendum that is not a string (Ruby would interpolate it
  with `to_s`) is not modelled, and the case flag is only a string or a
  boolean.
- `ContentStyle`'s `NoMethodError` for a string `violation` is modelled as
  a `Failure`. The exception itself is not modelled.
- The `inner_text ||= []` lines have no effect (`select` never returns
  `nil`) and are not modelled.
- The linter registry, the runner, offense objects and the other linters
  are not part of this model.
