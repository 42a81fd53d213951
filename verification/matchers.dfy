/** The three matchers of the content-style checker. Each builds a regular
    expression from a literal pattern `v` followed by `\b` and captures the
    leftmost occurrence:
      - case insensitive:      /(v)\b/i
      - case sensitive:        /(v)\b/
      - starting caps ignored: /\w (v)\b/, i.e. the occurrence must follow a
        word character and one space. */
module Matchers {
  import opened Base
  import opened Text

  datatype Mode = CaseInsensitive | StartingCapsIgnored | CaseSensitive

  /** The regular expression of `mode` matches `w` with its capture group
      starting at position `i`. */
  predicate HitAt(mode: Mode, v: string, w: string, i: int) {
    match mode
    case CaseInsensitive =>
      OccursIgnoringCaseAt(v, w, i) && BoundaryAt(w, i + |v|)
    case CaseSensitive =>
      OccursAt(v, w, i) && BoundaryAt(w, i + |v|)
    case StartingCapsIgnored =>
      2 <= i && OccursAt(v, w, i) && WordAt(w, i - 2) && w[i - 1] == ' ' && BoundaryAt(w, i + |v|)
  }

  /** Where the capture group of the leftmost match starts, if there is a match. */
  function MatchStart(mode: Mode, v: string, w: string): (r: Option<int>)
    ensures r.Some? ==> HitAt(mode, v, w, r.value)
    ensures r.Some? ==> forall j :: j < r.value ==> !HitAt(mode, v, w, j)
    ensures r.None? ==> forall j :: !HitAt(mode, v, w, j)
  {
    var p := i => HitAt(mode, v, w, i);
    var r := FirstWhere(p, 0, |w| + 1);
    assert forall j :: p(j) == HitAt(mode, v, w, j);
    r
  }

  /** `match.captures` of the leftmost match: the occurrence of `v` as it
      is written in `w`. */
  function Capture(mode: Mode, v: string, w: string): (r: Option<string>)
    ensures r.Some? <==> exists i :: HitAt(mode, v, w, i)
    ensures r.Some? ==> exists i :: HitAt(mode, v, w, i) && r.value == w[i..i + |v|]
                                    && forall j :: j < i ==> !HitAt(mode, v, w, j)
    ensures r.Some? && mode == CaseInsensitive ==> SameIgnoringCase(r.value, v)
    ensures r.Some? && mode != CaseInsensitive ==> r.value == v
  {
    match MatchStart(mode, v, w)
    case None => None
    case Some(i) => Some(w[i..i + |v|])
  }

  /** The modes are ordered by strictness: a hit of the prefix matcher is a
      case-sensitive hit, and a case-sensitive hit is a case-insensitive hit
      at the same position. */
  lemma StricterModesHitLess(v: string, w: string, i: int)
    ensures HitAt(StartingCapsIgnored, v, w, i) ==> HitAt(CaseSensitive, v, w, i)
    ensures HitAt(CaseSensitive, v, w, i) ==> HitAt(CaseInsensitive, v, w, i)
  {
  }

  /** Hence a stricter matcher never finds a match where a looser one finds none. */
  lemma StricterModesCaptureLess(v: string, w: string)
    ensures Capture(StartingCapsIgnored, v, w).Some? ==> Capture(CaseSensitive, v, w).Some?
    ensures Capture(CaseSensitive, v, w).Some? ==> Capture(CaseInsensitive, v, w).Some?
  {
    if Capture(StartingCapsIgnored, v, w).Some? {
      var i :| HitAt(StartingCapsIgnored, v, w, i);
      StricterModesHitLess(v, w, i);
    }
    if Capture(CaseSensitive, v, w).Some? {
      var i :| HitAt(CaseSensitive, v, w, i);
      StricterModesHitLess(v, w, i);
    }
  }

  /** The prefix matcher never reports an occurrence at the very start of
      the text or one that follows a sentence end (". "). */
  lemma SentenceStartsNeverHit(v: string, w: string)
    requires forall i :: OccursAt(v, w, i) ==> i < 2 || w[i - 2] == '.'
    ensures Capture(StartingCapsIgnored, v, w) == None
  {
  }

  /** A pattern followed by more word characters is not a match: `App`
      does not match inside `Apply`. */
  lemma NoHitInsideWord(mode: Mode, v: string, w: string, i: int)
    requires v != [] && IsWordChar(v[|v| - 1])
    requires 0 <= i && i + |v| < |w| && IsWordChar(w[i + |v|])
    ensures !HitAt(mode, v, w, i)
  {
    if mode == CaseInsensitive && OccursIgnoringCaseAt(v, w, i) {
      var last := w[i + |v| - 1];
      assert ToLower(last) == ToLower(v[|v| - 1]) by {
        assert w[i..i + |v|][|v| - 1] == last;
      }
      assert IsWordChar(last);
    } else if OccursAt(v, w, i) {
      assert w[i..i + |v|][|v| - 1] == w[i + |v| - 1];
    }
  }
}
