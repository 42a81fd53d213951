/** Worked scenarios on short texts, each tracing one behaviour of the two
    linters. */
module Scenarios {
  import opened Base
  import opened Text
  import opened Config
  import opened Matchers
  import opened CheckerRules
  import opened Resolver
  import opened Checker
  import opened ContentStyle

  /** `API` with suggestion `api` gets the prefix matcher, which skips the
      `API` that opens the text and captures the one after `My `. */
  lemma PrefixMatcherSkipsTextStart()
    ensures ModeOf(Entry("API", "api", Str(""))) == StartingCapsIgnored
    ensures MatchStart(StartingCapsIgnored, "API", "API. My API") == Some(8)
    ensures Capture(StartingCapsIgnored, "API", "API. My API") == Some("API")
  {
    UpperPatternIgnoresStartingCaps(Entry("API", "api", Str("")), 0);
    var w := "API. My API";
    assert HitAt(StartingCapsIgnored, "API", w, 8);
    forall j | 2 <= j < 8 ensures !OccursAt("API", w, j) {
      assert w[j..j + 3][0] == w[j];
    }
    assert w[8..11] == "API";
  }

  /** The prefix matcher wants exactly a space before the pattern: after
      `a-` nothing is captured, after `a ` the pattern is. */
  lemma PrefixMatcherNeedsSpace()
    ensures Capture(StartingCapsIgnored, "API", "a-API") == None
  {
    var w := "a-API";
    forall j ensures !HitAt(StartingCapsIgnored, "API", w, j) {
      if 2 <= j && OccursAt("API", w, j) {
        assert w[j..j + 3][0] == w[j];
        assert w[j - 1] != ' ';
      }
    }
  }

  lemma PrefixMatcherAfterSpace()
    ensures Capture(StartingCapsIgnored, "API", "a API") == Some("API")
  {
    var w := "a API";
    assert w[2..5] == "API";
    assert HitAt(StartingCapsIgnored, "API", w, 2);
  }

  /** The text has no lower-case `apps` to remove. */
  lemma AppsNothingToRemove()
    ensures RemoveAll("Apps, Big Apps", "apps") == "Apps, Big Apps"
  {
    var w := "Apps, Big Apps";
    forall j | 0 <= j ensures !OccursAt("apps", w, j) {
      if j + 4 <= |w| {
        assert w[j..j + 4][0] == w[j];
      }
    }
    RemoveAbsent(w, "apps");
  }

  /** The case-sensitive matcher takes the `Apps` that opens the text, not
      the one in `Big Apps`. */
  lemma AppsCapturedAtStart()
    ensures MatchStart(CaseSensitive, "Apps", "Apps, Big Apps") == Some(0)
    ensures Capture(CaseSensitive, "Apps", "Apps, Big Apps") == Some("Apps")
  {
    var w := "Apps, Big Apps";
    assert w[0..4] == "Apps";
    assert HitAt(CaseSensitive, "Apps", w, 0);
  }

  /** `Apps` with suggestion `apps` has a lowercase letter, so it is matched
      case-sensitively rather than by the prefix matcher, and fires on the
      word that opens the text. */
  lemma AppsOpeningTheTextIsCaptured()
    ensures ModeOf(Entry("Apps", "apps", Str(""))) == CaseSensitive
    ensures Resolve([Entry("Apps", "apps", Str(""))], "Apps, Big Apps", []) == [Some("Apps")]
  {
    var e := Entry("Apps", "apps", Str(""));
    MixedCasePatternIsCaseSensitive(e, 1);
    assert Verdict(e, "Apps, Big Apps", []) == Some("Apps") by {
      AppsCapturedAtStart();
      assert Render([]) == "[]";
    }
    AppsNothingToRemove();
    ResolveHead([e], "Apps, Big Apps", []);
  }

  /** So the linter reports exactly one error for that text, naming the
      configured `Apps`: the count and the message agree with an error for
      `Big Apps`, though the capture is the first word. */
  lemma AppsReportedOnce()
    ensures var l := Linter([Entry("Apps", "apps", Str(""))], "", []);
            var r := GenerateErrors(l, "Apps, Big Apps", None);
            |r.errors| == 1 && r.errors[0] == ErrorFor(l, Entry("Apps", "apps", Str("")), None)
  {
    var l := Linter([Entry("Apps", "apps", Str(""))], "", []);
    var text := "Apps, Big Apps";
    AppsOpeningTheTextIsCaptured();
    GenerateErrorsReports(l, text, None);
    var outs := Resolve(l.ruleset, text, l.prior);
    assert Captures(outs) == ["Apps"];
    assert outs[..0] == [];
  }

  /** The text has no `shop's` to remove. */
  lemma NothingToRemove()
    ensures RemoveAll("My Store's", "shop's") == "My Store's"
  {
    var w := "My Store's";
    forall j | 0 <= j ensures !OccursAt("shop's", w, j) {
      if j + 6 <= |w| {
        assert w[j..j + 6][1] == w[j + 1];
      }
    }
    RemoveAbsent(w, "shop's");
  }

  /** The case-sensitive matcher captures `Store's` in the text. */
  lemma StoresCaptured()
    ensures Capture(CaseSensitive, "Store's", "My Store's") == Some("Store's")
  {
    var w := "My Store's";
    assert HitAt(CaseSensitive, "Store's", w, 3);
    forall j | 0 <= j < 3 ensures !OccursAt("Store's", w, j) {
      assert w[j..j + 7][0] == w[j];
    }
    assert w[3..10] == "Store's";
  }

  /** Nothing has been recorded yet, so `Store's` is not skipped and fires. */
  lemma StoresFires()
    ensures Verdict(Entry("Store's", "shop's", Str("")), "My Store's", []) == Some("Store's")
  {
    StoresCaptured();
    assert Render([]) == "[]";
    MixedCasePatternIsCaseSensitive(Entry("Store's", "shop's", Str("")), 1);
  }

  /** `Store's` fires first and records its capture; `Store`, which occurs
      in that capture, is then skipped for the same text. */
  lemma OverlapExample()
    ensures Resolve([Entry("Store's", "shop's", Str("")), Entry("Store", "shop", Str(""))], "My Store's", [])
            == [Some("Store's"), None]
  {
    var es := [Entry("Store's", "shop's", Str("")), Entry("Store", "shop", Str(""))];
    var text := "My Store's";
    var outs := Resolve(es, text, []);
    assert outs[0] == Some("Store's") by {
      NothingToRemove();
      StoresFires();
      ResolveHead(es, text, []);
    }
    assert outs[1] == None by {
      assert OccursAt("Store", "Store's", 0);
      EarlierCaptureSuppresses(es, text, [], 0, 1, "Store's");
    }
  }

  /** Both patterns occur in the text, so the older linter selects both. */
  lemma StyleSelectsBoth()
    ensures StyleViolatedRules([StyleEntry("Store's", "shop's"), StyleEntry("Store", "shop")], "My Store's")
            == [StyleEntry("Store's", "shop's"), StyleEntry("Store", "shop")]
  {
    var a, b := StyleEntry("Store's", "shop's"), StyleEntry("Store", "shop");
    assert OccursAt("Store's", "My Store's", 3);
    assert OccursAt("Store", "My Store's", 3);
    StyleViolatedRulesSingle(a, "My Store's");
    StyleViolatedRulesSingle(b, "My Store's");
    StyleViolatedRulesAppend([a], [b], "My Store's");
  }

  /** With an empty addendum the message is the two sentences alone. */
  lemma StyleMessageExample()
    ensures StyleMessage(StyleEntry("Store", "shop"), "") == "Do use shop. Don't use Store."
  {
    StyleMessageShape(StyleEntry("Store", "shop"), "");
    assert RStrip("shop") == "shop";
  }

  /** The older linter keeps no record of what it reported, so both
      overlapping patterns are reported for the same text, on line `6`. */
  lemma StyleReportsOverlapTwice()
    ensures |StyleLintFile(StyleLinter([StyleEntry("Store's", "shop's"), StyleEntry("Store", "shop")], ""), "My Store's")| == 2
    ensures StyleLintFile(StyleLinter([StyleEntry("Store's", "shop's"), StyleEntry("Store", "shop")], ""), "My Store's")[1]
            == StyleError("6", "Do use shop. Don't use Store.")
  {
    StyleSelectsBoth();
    StyleMessageExample();
  }

  /** Deleting `Shopify ` leaves `Help Center`. */
  lemma ShopifyPrefixDeleted()
    ensures RemoveAll("Shopify Help Center", "Shopify ") == "Help Center"
  {
    var s, v := "Shopify Help Center", "Shopify ";
    assert s[..8] == v && s[8..] == "Help Center";
    var w := "Help Center";
    forall j | 0 <= j ensures !OccursAt(v, w, j) {
      if j + 8 <= |w| {
        assert w[j..j + 8][0] == w[j];
      }
    }
    RemoveAbsent(w, v);
  }

  /** `x` does not occur in `Help Center`. */
  lemma NoX()
    ensures Verdict(Entry("x", "Shopify ", Str("")), "Help Center", []) == None
  {
    var w := "Help Center";
    MixedCasePatternIsCaseSensitive(Entry("x", "Shopify ", Str("")), 0);
    forall j ensures !OccursAt("x", w, j) {
      if 0 <= j < |w| {
        assert w[j..j + 1][0] == w[j];
      }
    }
  }

  /** On the text `Help Center` the entry for `Help Center` fires. */
  lemma HelpCenterFires()
    ensures Verdict(Entry("Help Center", "Shopify Help Center", Str("")), "Help Center", []) == Some("Help Center")
  {
    var w := "Help Center";
    MixedCasePatternIsCaseSensitive(Entry("Help Center", "Shopify Help Center", Str("")), 1);
    assert w[0..11] == w;
    assert HitAt(CaseSensitive, "Help Center", w, 0);
    assert Render([]) == "[]";
  }

  /** Self-exclusion holds only when no earlier entry has deleted anything:
      here an earlier entry deletes `Shopify `, and the `Help Center` entry
      then fires on text that is exactly its own suggestion. */
  lemma EarlierDeletionDefeatsSelfExclusion()
    ensures Resolve([Entry("x", "Shopify ", Str("")), Entry("Help Center", "Shopify Help Center", Str(""))],
                    "Shopify Help Center", [])
            == [None, Some("Help Center")]
  {
    var es := [Entry("x", "Shopify ", Str("")), Entry("Help Center", "Shopify Help Center", Str(""))];
    ShopifyPrefixDeleted();
    NoX();
    ResolveHead(es, "Shopify Help Center", []);
    var w := "Help Center";
    assert RemoveAll(w, es[1].suggestion) == w;
    HelpCenterFires();
    ResolveHead(es[1..], w, []);
    assert Resolve(es[1..][1..], w, [w]) == [];
  }
}
