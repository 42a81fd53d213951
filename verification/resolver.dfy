/** `violated_rules`: the selection fold over the flattened entries for one
    text. Two pieces of state are threaded through it, exactly as the
    `select` block mutates them:
      - the text, from which every entry's suggestion is removed before the
        entry is tested, so the removals accumulate;
      - the recorded captures (`@prior_violations`), which an entry's
        pattern must not occur in, and to which every selected entry
        appends its capture. */
module Resolver {
  import opened Base
  import opened Text
  import opened Matchers
  import opened CheckerRules

  /** One recorded capture list as `inspect` shows it: `["c"]`. */
  function Quoted(c: string): (q: string) {
    "[\"" + c + "\"]"
  }

  function Items(prior: seq<string>): (s: string)
    decreases |prior|
  {
    if prior == [] then ""
    else if |prior| == 1 then Quoted(prior[0])
    else Quoted(prior[0]) + ", " + Items(prior[1..])
  }

  /** `@prior_violations.to_s`, e.g. `[["Store's admin"], ["dropdown"]]`
      (`inspect`'s escapes of quotes, backslashes, `#{`, `#$`, `#@` and
      control characters inside a capture are not applied here). */
  function Render(prior: seq<string>): (s: string) {
    "[" + Items(prior) + "]"
  }

  /** `@prior_violations.to_s.match(/pattern/)`. */
  predicate Suppressed(pattern: string, prior: seq<string>) {
    Contains(Render(prior), pattern)
  }

  lemma {:induction false} ItemsShowEveryCapture(prior: seq<string>, k: nat)
    requires k < |prior|
    ensures Contains(Items(prior), prior[k])
    decreases |prior|
  {
    var q := Quoted(prior[0]);
    if k == 0 {
      assert q == "[\"" + prior[0] + "\"]";
      OccursInPrefix(prior[0], prior[0], "\"]", 0);
      OccursInConcat(prior[0], "[\"", prior[0] + "\"]", 0);
      assert "[\"" + (prior[0] + "\"]") == q;
      if |prior| > 1 {
        OccursInPrefix(prior[0], q, ", " + Items(prior[1..]), 2);
        assert q + ", " + Items(prior[1..]) == q + (", " + Items(prior[1..]));
      }
    } else {
      ItemsShowEveryCapture(prior[1..], k - 1);
      var i :| OccursAt(prior[k], Items(prior[1..]), i);
      OccursInConcat(prior[k], q + ", ", Items(prior[1..]), i);
    }
  }

  /** Every recorded capture appears verbatim in the rendering. */
  lemma RenderShowsEveryCapture(prior: seq<string>, k: nat)
    requires k < |prior|
    ensures Contains(Render(prior), prior[k])
  {
    ItemsShowEveryCapture(prior, k);
    var i :| OccursAt(prior[k], Items(prior), i);
    OccursInPrefix(prior[k], Items(prior), "]", i);
    OccursInConcat(prior[k], "[", Items(prior) + "]", i);
    assert "[" + (Items(prior) + "]") == Render(prior);
  }

  /** A pattern occurring in any recorded capture is suppressed. */
  lemma SuppressedByCapture(pattern: string, prior: seq<string>, c: string)
    requires c in prior && Contains(c, pattern)
    ensures Suppressed(pattern, prior)
  {
    var k :| 0 <= k < |prior| && prior[k] == c;
    RenderShowsEveryCapture(prior, k);
    ContainsTransitive(Render(prior), c, pattern);
  }

  /** The outcome for one entry, given the working text after its own
      suggestion was removed: `None` when it is skipped or does not match,
      otherwise the capture it records. */
  function Verdict(e: Entry, w: string, prior: seq<string>): (r: Option<string>)
    ensures r.Some? <==> !Suppressed(e.pattern, prior) && exists i :: HitAt(ModeOf(e), e.pattern, w, i)
    ensures r.Some? ==> exists i :: HitAt(ModeOf(e), e.pattern, w, i) && r.value == w[i..i + |e.pattern|]
                                    && forall j :: j < i ==> !HitAt(ModeOf(e), e.pattern, w, j)
    ensures r.Some? ==> Fits(e, r.value)
  {
    if Suppressed(e.pattern, prior) then None
    else
      match MatchStart(ModeOf(e), e.pattern, w)
      case None => None
      case Some(i) => assert Capture(ModeOf(e), e.pattern, w) == Some(w[i..i + |e.pattern|]);
                      Capture(ModeOf(e), e.pattern, w)
  }

  /** What an outcome appends to `@prior_violations`. */
  function Recorded(v: Option<string>): (rec: seq<string>) {
    match v
    case None => []
    case Some(c) => [c]
  }

  /** The captures recorded along a run of outcomes, in order. */
  function Captures(outs: seq<Option<string>>): (cs: seq<string>)
    decreases |outs|
  {
    if outs == [] then [] else Recorded(outs[0]) + Captures(outs[1..])
  }

  /** The outcome of every entry, threading the reassigned text and the
      growing capture list from one entry to the next. */
  function Resolve(es: seq<Entry>, text: string, prior: seq<string>): (outs: seq<Option<string>>)
    ensures |outs| == |es|
    ensures forall k :: 0 <= k < |es| && outs[k].Some? ==> Fits(es[k], outs[k].value)
    decreases |es|
  {
    if es == [] then []
    else
      var w := RemoveAll(text, es[0].suggestion);
      var v := Verdict(es[0], w, prior);
      [v] + Resolve(es[1..], w, prior + Recorded(v))
  }

  /** The entries whose outcome is a capture, in entry order. */
  function Chosen(es: seq<Entry>, outs: seq<Option<string>>): (chosen: seq<Entry>)
    requires |es| == |outs|
    decreases |es|
  {
    if es == [] then []
    else (if outs[0].Some? then [es[0]] else []) + Chosen(es[1..], outs[1..])
  }

  datatype Selection = Selection(rules: seq<Entry>, prior: seq<string>)

  /** `violated_rules(all_text)`: the selected entries, and `@prior_violations`
      after the call. */
  function ViolatedRules(es: seq<Entry>, text: string, prior: seq<string>): (r: Selection)
    ensures IsSubsequence(r.rules, es) && |r.rules| <= |es|
    ensures |r.rules| == |Captures(Resolve(es, text, prior))|
    ensures |r.prior| == |prior| + |r.rules| && r.prior[..|prior|] == prior
    ensures forall k :: 0 <= k < |r.rules| ==> Fits(r.rules[k], r.prior[|prior| + k])
    ensures r.rules == Chosen(es, Resolve(es, text, prior)) && r.prior == prior + Captures(Resolve(es, text, prior))
  {
    var outs := Resolve(es, text, prior);
    ChosenMatchesCaptures(es, outs);
    SubsequenceLength(Chosen(es, outs), es);
    Selection(Chosen(es, outs), prior + Captures(outs))
  }

  /** Select iff recorded: the chosen entries and the recorded captures
      correspond one to one, and the chosen entries keep their order. */
  lemma {:induction false} ChosenMatchesCaptures(es: seq<Entry>, outs: seq<Option<string>>)
    requires |es| == |outs|
    requires forall k :: 0 <= k < |es| && outs[k].Some? ==> Fits(es[k], outs[k].value)
    ensures |Chosen(es, outs)| == |Captures(outs)|
    ensures forall k :: 0 <= k < |Captures(outs)| ==> Fits(Chosen(es, outs)[k], Captures(outs)[k])
    ensures IsSubsequence(Chosen(es, outs), es)
    decreases |es|
  {
    if es != [] {
      ChosenMatchesCaptures(es[1..], outs[1..]);
      var rest := Chosen(es[1..], outs[1..]);
      if outs[0].Some? {
        assert Chosen(es, outs) == [es[0]] + rest;
        assert ([es[0]] + rest)[1..] == rest;
      } else {
        assert Chosen(es, outs) == rest;
        SubsequenceOfSuffix(rest, es, 1);
      }
    }
  }

  // ---------------------------------------------------------------------
  // An index-wise description of the fold

  /** The text after the suggestions of the first `n` entries have been
      removed, one after another. */
  function Working(text: string, es: seq<Entry>, n: nat): (w: string)
    requires n <= |es|
    decreases n
  {
    if n == 0 then text else RemoveAll(Working(text, es, n - 1), es[n - 1].suggestion)
  }

  lemma {:induction false} WorkingShift(text: string, es: seq<Entry>, n: nat)
    requires n < |es|
    ensures Working(RemoveAll(text, es[0].suggestion), es[1..], n) == Working(text, es, n + 1)
    decreases n
  {
    if n > 0 {
      WorkingShift(text, es, n - 1);
    }
  }

  lemma {:induction false} CapturesAppend(a: seq<Option<string>>, b: seq<Option<string>>)
    ensures Captures(a + b) == Captures(a) + Captures(b)
    decreases |a|
  {
    if a == [] {
      assert a + b == b;
    } else {
      assert (a + b)[1..] == a[1..] + b;
      CapturesAppend(a[1..], b);
    }
  }

  /** One step of the fold, unfolded. */
  lemma ResolveHead(es: seq<Entry>, text: string, prior: seq<string>)
    requires es != []
    ensures var w := RemoveAll(text, es[0].suggestion);
            var v := Verdict(es[0], w, prior);
            Resolve(es, text, prior) == [v] + Resolve(es[1..], w, prior + Recorded(v))
  {
  }

  /** Entry `k` is decided on the text from which the suggestions of
      entries 0..k have all been removed, against the captures recorded by
      the entries before it. */
  lemma {:induction false} ResolveStepByStep(es: seq<Entry>, text: string, prior: seq<string>, k: nat)
    requires k < |es|
    ensures Resolve(es, text, prior)[k]
            == Verdict(es[k], Working(text, es, k + 1), prior + Captures(Resolve(es, text, prior)[..k]))
    decreases k, 1
  {
    var outs := Resolve(es, text, prior);
    ResolveHead(es, text, prior);
    if k == 0 {
      assert outs[..0] == [];
      assert prior + Captures(outs[..0]) == prior;
    } else {
      ResolveStepLater(es, text, prior, k);
    }
  }

  lemma {:induction false} ResolveStepLater(es: seq<Entry>, text: string, prior: seq<string>, k: nat)
    requires 0 < k < |es|
    ensures Resolve(es, text, prior)[k]
            == Verdict(es[k], Working(text, es, k + 1), prior + Captures(Resolve(es, text, prior)[..k]))
    decreases k, 0
  {
    var w := RemoveAll(text, es[0].suggestion);
    var v := Verdict(es[0], w, prior);
    var rest := Resolve(es[1..], w, prior + Recorded(v));
    ResolveHead(es, text, prior);
    ShiftCaptures(Resolve(es, text, prior), v, rest, prior, k);
    ResolveStepByStep(es[1..], w, prior + Recorded(v), k - 1);
    WorkingShift(text, es, k);
    assert es[1..][k - 1] == es[k];
  }

  lemma ShiftCaptures(outs: seq<Option<string>>, v: Option<string>, rest: seq<Option<string>>, prior: seq<string>, k: nat)
    requires outs == [v] + rest && 0 < k <= |rest|
    ensures outs[k] == rest[k - 1]
    ensures prior + Recorded(v) + Captures(rest[..k - 1]) == prior + Captures(outs[..k])
  {
    calc {
      prior + Captures(outs[..k]);
      { assert outs[..k] == [v] + rest[..k - 1]; }
      prior + Captures([v] + rest[..k - 1]);
      { CapturesAppend([v], rest[..k - 1]); }
      prior + (Captures([v]) + Captures(rest[..k - 1]));
      { assert Captures([v]) == Recorded(v); }
      prior + Recorded(v) + Captures(rest[..k - 1]);
    }
  }

  /** Entry `k` is selected exactly when it is not skipped because of the
      captures recorded before it and its matcher hits the text left after
      the suggestions of entries 0..k were deleted; its capture is the text
      at the leftmost hit. */
  lemma ResolveSelects(es: seq<Entry>, text: string, prior: seq<string>, k: nat)
    requires k < |es|
    ensures var outs := Resolve(es, text, prior);
            var w := Working(text, es, k + 1);
            && (outs[k].Some? <==> !Suppressed(es[k].pattern, prior + Captures(outs[..k]))
                                    && exists i :: HitAt(ModeOf(es[k]), es[k].pattern, w, i))
            && (outs[k].Some? ==> exists i :: HitAt(ModeOf(es[k]), es[k].pattern, w, i)
                                              && (forall j :: j < i ==> !HitAt(ModeOf(es[k]), es[k].pattern, w, j))
                                              && outs[k].value == w[i..i + |es[k].pattern|])
  {
    ResolveStepByStep(es, text, prior, k);
  }

  /** The number of captures equals the number of chosen entries. */
  lemma {:induction false} ChosenLength(es: seq<Entry>, outs: seq<Option<string>>)
    requires |es| == |outs|
    ensures |Chosen(es, outs)| == |Captures(outs)|
    decreases |es|
  {
    if es != [] {
      ChosenLength(es[1..], outs[1..]);
    }
  }

  /** A selected entry sits in the selection at the position given by the
      number of captures recorded before it. */
  lemma {:induction false} ChosenAt(es: seq<Entry>, outs: seq<Option<string>>, k: nat)
    requires |es| == |outs| && k < |es| && outs[k].Some?
    ensures |Captures(outs[..k])| < |Chosen(es, outs)|
    ensures Chosen(es, outs)[|Captures(outs[..k])|] == es[k]
    decreases k
  {
    ChosenLength(es[1..], outs[1..]);
    var head := if outs[0].Some? then [es[0]] else [];
    assert Chosen(es, outs) == head + Chosen(es[1..], outs[1..]);
    if k == 0 {
      assert outs[..0] == [];
    } else {
      ChosenAt(es[1..], outs[1..], k - 1);
      assert outs[..k] == [outs[0]] + outs[1..][..k - 1];
      CapturesAppend([outs[0]], outs[1..][..k - 1]);
      assert |Captures([outs[0]])| == |head|;
    }
  }

  /** The entry whose capture is the `m`-th one recorded. */
  function NthSelected(outs: seq<Option<string>>, m: nat): (k: nat)
    requires m < |Captures(outs)|
    ensures k < |outs| && outs[k].Some? && |Captures(outs[..k])| == m
    decreases |outs|
  {
    if outs[0].Some? && m == 0 then
      assert outs[..0] == [];
      0
    else
      var head := Recorded(outs[0]);
      assert Captures(outs) == head + Captures(outs[1..]);
      var k := NthSelected(outs[1..], m - |head|);
      assert outs[..k + 1] == [outs[0]] + outs[1..][..k];
      CapturesAppend([outs[0]], outs[1..][..k]);
      assert Captures([outs[0]]) == head;
      k + 1
  }

  /** Conversely, the `m`-th chosen entry is the one that made the `m`-th capture. */
  lemma {:induction false} ChosenOrigin(es: seq<Entry>, outs: seq<Option<string>>, m: nat)
    requires |es| == |outs| && m < |Captures(outs)|
    ensures |Chosen(es, outs)| == |Captures(outs)| && Chosen(es, outs)[m] == es[NthSelected(outs, m)]
  {
    ChosenLength(es, outs);
    ChosenAt(es, outs, NthSelected(outs, m));
  }

  /** Anything computed entry by entry from the chosen entries lines up
      with the selection: entry `k`'s image sits right after the images of
      the entries chosen before it, and the `m`-th image is that of the
      entry that made the `m`-th capture. */
  lemma ChosenImage<T>(es: seq<Entry>, outs: seq<Option<string>>, f: Entry -> T, ys: seq<T>)
    requires |es| == |outs| && |ys| == |Chosen(es, outs)|
    requires forall i :: 0 <= i < |ys| ==> ys[i] == f(Chosen(es, outs)[i])
    ensures |ys| == |Captures(outs)|
    ensures forall k :: 0 <= k < |es| && outs[k].Some? ==>
              |Captures(outs[..k])| < |ys| && ys[|Captures(outs[..k])|] == f(es[k])
    ensures forall m :: 0 <= m < |ys| ==> ys[m] == f(es[NthSelected(outs, m)])
  {
    ChosenLength(es, outs);
    forall k | 0 <= k < |es| && outs[k].Some?
      ensures |Captures(outs[..k])| < |ys| && ys[|Captures(outs[..k])|] == f(es[k])
    {
      ChosenAt(es, outs, k);
    }
    forall m | 0 <= m < |ys|
      ensures ys[m] == f(es[NthSelected(outs, m)])
    {
      ChosenOrigin(es, outs, m);
    }
  }

  /** A capture recorded earlier in the fold appears among the captures
      any later entry is checked against. */
  lemma CaptureSeenLater(outs: seq<Option<string>>, j: nat, k: nat, c: string)
    requires j < k <= |outs| && outs[j] == Some(c)
    ensures c in Captures(outs[..k])
  {
    assert outs[..k] == outs[..j] + ([outs[j]] + outs[j + 1..k]);
    CapturesAppend(outs[..j], [outs[j]] + outs[j + 1..k]);
    CapturesAppend([outs[j]], outs[j + 1..k]);
    assert Captures([outs[j]]) == [c];
  }

  /** Overlap suppression within one text: once an entry has recorded a
      capture, a later entry whose pattern occurs in it is skipped (e.g.
      `Store` after `Store's admin`). */
  lemma EarlierCaptureSuppresses(es: seq<Entry>, text: string, prior: seq<string>, j: nat, k: nat, c: string)
    requires j < k < |es|
    requires Resolve(es, text, prior)[j] == Some(c)
    requires Contains(c, es[k].pattern)
    ensures Resolve(es, text, prior)[k] == None
  {
    var outs := Resolve(es, text, prior);
    ResolveStepByStep(es, text, prior, k);
    CaptureSeenLater(outs, j, k, c);
    SuppressedByCapture(es[k].pattern, prior + Captures(outs[..k]), c);
  }

  /** Suppression also applies to captures recorded before this text. */
  lemma PriorCaptureSuppresses(es: seq<Entry>, text: string, prior: seq<string>, k: nat, c: string)
    requires k < |es| && c in prior && Contains(c, es[k].pattern)
    ensures Resolve(es, text, prior)[k] == None
  {
    var outs := Resolve(es, text, prior);
    ResolveStepByStep(es, text, prior, k);
    SuppressedByCapture(es[k].pattern, prior + Captures(outs[..k]), c);
  }

  /** The rendering always contains the empty string, so an entry with an
      empty pattern is never selected. */
  lemma EmptyPatternNeverSelected(es: seq<Entry>, text: string, prior: seq<string>, k: nat)
    requires k < |es| && es[k].pattern == []
    ensures Resolve(es, text, prior)[k] == None
  {
    var outs := Resolve(es, text, prior);
    ResolveStepByStep(es, text, prior, k);
    assert OccursAt([], Render(prior + Captures(outs[..k])), 0);
  }

  /** Self-exclusion: text that consists only of an entry's suggestion
      (e.g. "Shopify Help Center" for the pattern "Help Center") never
      fires that entry. */
  lemma OwnSuggestionNeverFires(e: Entry, n: nat, prior: seq<string>)
    ensures Verdict(e, RemoveAll(Repeat(e.suggestion, n), e.suggestion), prior) == None
  {
    RemoveAllOfRepeat(e.suggestion, n);
    if e.pattern == [] {
      assert OccursAt([], Render(prior), 0);
    }
  }
}
