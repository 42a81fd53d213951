/** String primitives standing in for the literal regular expressions the
    linters build: ASCII character classes, occurrences, word boundaries,
    Ruby's `gsub` with an empty replacement, and `strip`/`rstrip`. */
module Text {
  import opened Base

  /** `\w` restricted to ASCII: `[A-Za-z0-9_]`. */
  predicate IsWordChar(c: char) {
    ('a' <= c <= 'z') || ('A' <= c <= 'Z') || ('0' <= c <= '9') || c == '_'
  }

  /** `\p{Lower}` restricted to ASCII. */
  predicate IsLower(c: char) {
    'a' <= c <= 'z'
  }

  predicate IsUpper(c: char) {
    'A' <= c <= 'Z'
  }

  /** ASCII case folding, as the `i` flag applies it to letters. */
  function ToLower(c: char): (d: char)
    ensures IsUpper(c) ==> IsLower(d) && d as int == c as int + 32
    ensures !IsUpper(c) ==> d == c
  {
    if IsUpper(c) then (c as int + 32) as char else c
  }

  /** Whether `/\p{Lower}/` matches somewhere in `s`. */
  predicate HasLower(s: string) {
    exists i :: 0 <= i < |s| && IsLower(s[i])
  }

  /** A word character at position `p`; positions outside `s` are non-word. */
  predicate WordAt(s: string, p: int) {
    0 <= p < |s| && IsWordChar(s[p])
  }

  /** `\b` at position `p`: a word character on exactly one side. */
  predicate BoundaryAt(s: string, p: int) {
    WordAt(s, p - 1) != WordAt(s, p)
  }

  /** `v` occurs in `s` starting at `i`. */
  predicate OccursAt(v: string, s: string, i: int) {
    0 <= i && i + |v| <= |s| && s[i..i + |v|] == v
  }

  predicate SameIgnoringCase(a: string, b: string) {
    |a| == |b| && forall k :: 0 <= k < |a| ==> ToLower(a[k]) == ToLower(b[k])
  }

  /** `v` occurs in `s` starting at `i` when ASCII letters are compared without case. */
  predicate OccursIgnoringCaseAt(v: string, s: string, i: int) {
    0 <= i && i + |v| <= |s| && SameIgnoringCase(s[i..i + |v|], v)
  }

  /** Leftmost occurrence of `v` in `s`. */
  function IndexOf(s: string, v: string): (r: Option<int>)
    ensures r.Some? ==> OccursAt(v, s, r.value) && forall j :: 0 <= j < r.value ==> !OccursAt(v, s, j)
    ensures r.None? ==> forall j :: !OccursAt(v, s, j)
  {
    var p := i => OccursAt(v, s, i);
    var r := FirstWhere(p, 0, |s| + 1);
    assert forall j :: p(j) == OccursAt(v, s, j);
    r
  }

  /** Whether the literal pattern `/v/` matches `s`. */
  function Contains(s: string, v: string): (b: bool)
    ensures b <==> exists i :: OccursAt(v, s, i)
  {
    IndexOf(s, v).Some?
  }

  /** Containment is transitive: a pattern inside a substring is inside the whole. */
  lemma ContainsTransitive(a: string, b: string, c: string)
    requires Contains(a, b) && Contains(b, c)
    ensures Contains(a, c)
  {
    var i :| OccursAt(b, a, i);
    var j :| OccursAt(c, b, j);
    forall k | 0 <= k < |c|
      ensures a[i + j..i + j + |c|][k] == c[k]
    {
      assert c[k] == b[j + k] == a[i + j + k];
    }
    assert a[i + j..i + j + |c|] == c;
    assert OccursAt(c, a, i + j);
  }

  /** An occurrence in one part is an occurrence in the concatenation. */
  lemma OccursInConcat(v: string, x: string, y: string, i: int)
    requires OccursAt(v, y, i)
    ensures OccursAt(v, x + y, |x| + i)
  {
    assert (x + y)[|x| + i..|x| + i + |v|] == y[i..i + |v|];
  }

  lemma OccursInPrefix(v: string, x: string, y: string, i: int)
    requires OccursAt(v, x, i)
    ensures OccursAt(v, x + y, i)
  {
    assert (x + y)[i..i + |v|] == x[i..i + |v|];
  }

  // ---------------------------------------------------------------------
  // Ruby's `s.gsub(/v/, '')` for a literal `v`

  /** Deletes every occurrence of `v`, scanning left to right and resuming
      after each deleted occurrence, as `gsub` does. An empty `v` only
      matches the empty string, so deleting it changes nothing. */
  function RemoveAll(s: string, v: string): (r: string)
    ensures |r| <= |s|
    ensures v == [] ==> r == s
    decreases |s|
  {
    if v == [] || |s| < |v| then s
    else if s[..|v|] == v then RemoveAll(s[|v|..], v)
    else [s[0]] + RemoveAll(s[1..], v)
  }

  /** Removal keeps the surviving characters in order. */
  lemma {:induction false} RemoveAllIsSubsequence(s: string, v: string)
    ensures IsSubsequence(RemoveAll(s, v), s)
    decreases |s|
  {
    if v == [] || |s| < |v| {
      SubsequenceOfSelf(s);
    } else if s[..|v|] == v {
      RemoveAllIsSubsequence(s[|v|..], v);
      SubsequenceOfSuffix(RemoveAll(s[|v|..], v), s, |v|);
    } else {
      RemoveAllIsSubsequence(s[1..], v);
      var r := RemoveAll(s[1..], v);
      assert ([s[0]] + r)[1..] == r;
    }
  }

  /** Removal changes the text exactly when the (non-empty) suggestion occurs in it:
      text that does not contain it verbatim, e.g. in another case, is left alone. */
  lemma {:induction false} RemoveAllChangesIff(s: string, v: string)
    requires v != []
    ensures RemoveAll(s, v) == s <==> !Contains(s, v)
    decreases |s|
  {
    if Contains(s, v) {
      var i :| OccursAt(v, s, i);
      RemoveShrinks(s, v, i);
    } else {
      RemoveAbsent(s, v);
    }
  }

  lemma {:induction false} RemoveShrinks(s: string, v: string, i: int)
    requires v != [] && OccursAt(v, s, i)
    ensures |RemoveAll(s, v)| < |s|
    decreases |s|
  {
    if s[..|v|] != v {
      assert i != 0;
      assert s[1..][i - 1..i - 1 + |v|] == s[i..i + |v|];
      RemoveShrinks(s[1..], v, i - 1);
    }
  }

  lemma {:induction false} RemoveAbsent(s: string, v: string)
    requires v != [] && forall i :: !OccursAt(v, s, i)
    ensures RemoveAll(s, v) == s
    decreases |s|
  {
    if |s| >= |v| {
      assert !OccursAt(v, s, 0);
      forall i | OccursAt(v, s[1..], i)
        ensures false
      {
        assert s[1..][i..i + |v|] == s[i + 1..i + 1 + |v|];
        assert OccursAt(v, s, i + 1);
      }
      assert s[0..|v|] == s[..|v|];
      RemoveAbsent(s[1..], v);
      assert s == [s[0]] + s[1..];
    }
  }

  /** Removal is one left-to-right pass: everything before the first
      occurrence is kept, that occurrence is deleted, and the pass resumes
      right after it. Text that the deletion brings together is not
      looked at again (`aabb` without `ab` is `ab`). With RemoveAbsent this
      determines the result. */
  lemma RemoveAllAtFirst(s: string, v: string, i: int)
    requires v != [] && IndexOf(s, v) == Some(i)
    ensures 0 <= i && i + |v| <= |s|
    ensures RemoveAll(s, v) == s[..i] + RemoveAll(s[i + |v|..], v)
  {
    var p, q := s[..i], s[i..];
    assert s == p + q;
    forall j | 0 <= j < |p|
      ensures !OccursAt(v, p + q, j)
    {
      assert !OccursAt(v, s, j);
    }
    RemoveAllKeepsPrefix(p, q, v);
    assert q[..|v|] == v && q[|v|..] == s[i + |v|..];
  }

  /** A prefix in which no occurrence starts passes through unchanged. */
  lemma {:induction false} RemoveAllKeepsPrefix(p: string, q: string, v: string)
    requires v != [] && forall j :: 0 <= j < |p| ==> !OccursAt(v, p + q, j)
    ensures RemoveAll(p + q, v) == p + RemoveAll(q, v)
    decreases |p|
  {
    if p != [] {
      var s := p + q;
      assert s[1..] == p[1..] + q;
      forall j | 0 <= j < |p[1..]|
        ensures !OccursAt(v, p[1..] + q, j)
      {
        assert !OccursAt(v, s, j + 1);
        if j + |v| <= |s| - 1 {
          assert s[1..][j..j + |v|] == s[j + 1..j + 1 + |v|];
        }
      }
      RemoveAllKeepsPrefix(p[1..], q, v);
      assert !OccursAt(v, s, 0);
      if |s| >= |v| {
        assert s[0..|v|] == s[..|v|];
      }
      KeepFirst(p, q, RemoveAll(p[1..] + q, v), RemoveAll(q, v));
    } else {
      assert p + q == q;
    }
  }

  /** Sequence algebra for RemoveAllKeepsPrefix, kept apart from RemoveAll. */
  lemma KeepFirst(p: string, q: string, x: string, rest: string)
    requires p != [] && x == p[1..] + rest
    ensures [(p + q)[0]] + x == p + rest
  {
    assert [(p + q)[0]] + p[1..] == p;
  }

  /** `aabb` without `ab`: the pass deletes the middle `ab` and does not
      rescan the `ab` that this leaves behind. */
  lemma RemoveAllSinglePass()
    ensures RemoveAll("aabb", "ab") == "ab"
  {
    var s := "aabb";
    assert s[..2] == "aa";
    assert s[1..][..2] == "ab";
    assert s[1..][2..] == "b";
  }

  /** `n` copies of `v`, one after another. */
  function Repeat(v: string, n: nat): (r: string) {
    if n == 0 then [] else v + Repeat(v, n - 1)
  }

  /** Text made only of copies of the suggestion is removed entirely. */
  lemma {:induction false} RemoveAllOfRepeat(v: string, n: nat)
    ensures RemoveAll(Repeat(v, n), v) == []
  {
    if v != [] && n > 0 {
      var s := Repeat(v, n);
      assert s[..|v|] == v && s[|v|..] == Repeat(v, n - 1);
      RemoveAllOfRepeat(v, n - 1);
    } else if n > 0 {
      assert Repeat(v, n) == Repeat(v, n - 1);
      RemoveAllOfRepeat(v, n - 1);
    }
  }

  // ---------------------------------------------------------------------
  // Ruby's `strip` and `rstrip`

  /** The characters Ruby's `strip` treats as whitespace. */
  predicate IsSpace(c: char) {
    c == ' ' || c == '\t' || c == '\n' || c == '\U{B}' || c == '\U{C}' || c == '\r' || c == '\0'
  }

  /** `rstrip`: the longest prefix that does not end in whitespace. */
  function RStrip(s: string): (r: string)
    ensures |r| <= |s| && r == s[..|r|]
    ensures r == [] || !IsSpace(r[|r| - 1])
    ensures forall k :: |r| <= k < |s| ==> IsSpace(s[k])
    decreases |s|
  {
    if s != [] && IsSpace(s[|s| - 1]) then RStrip(s[..|s| - 1]) else s
  }

  /** `lstrip`: the longest suffix that does not start with whitespace. */
  function LStrip(s: string): (r: string)
    ensures |r| <= |s| && r == s[|s| - |r|..]
    ensures r == [] || !IsSpace(r[0])
    ensures forall k :: 0 <= k < |s| - |r| ==> IsSpace(s[k])
    decreases |s|
  {
    if s != [] && IsSpace(s[0]) then LStrip(s[1..]) else s
  }

  function Strip(s: string): (t: string) {
    LStrip(RStrip(s))
  }

  /** `strip` removes only spaces, and only from the two ends: what is left
      is a slice of the input with no space at either end. */
  lemma StripTrims(s: string)
    ensures var t := Strip(s);
            var i := |RStrip(s)| - |t|;
            && (t == [] || (!IsSpace(t[0]) && !IsSpace(t[|t| - 1])))
            && 0 <= i <= i + |t| <= |s| && t == s[i..i + |t|]
            && (forall k :: 0 <= k < i ==> IsSpace(s[k]))
            && (forall k :: i + |t| <= k < |s| ==> IsSpace(s[k]))
  {
    var r := RStrip(s);
    TrimmedSlice(s, r, LStrip(r));
  }

  lemma TrimmedSlice(s: string, r: string, t: string)
    requires |r| <= |s| && r == s[..|r|] && forall k :: |r| <= k < |s| ==> IsSpace(s[k])
    requires r == [] || !IsSpace(r[|r| - 1])
    requires |t| <= |r| && t == r[|r| - |t|..] && forall k :: 0 <= k < |r| - |t| ==> IsSpace(r[k])
    requires t == [] || !IsSpace(t[0])
    ensures var i := |r| - |t|;
            && (t == [] || (!IsSpace(t[0]) && !IsSpace(t[|t| - 1])))
            && 0 <= i <= i + |t| <= |s| && t == s[i..i + |t|]
            && (forall k :: 0 <= k < i ==> IsSpace(s[k]))
            && (forall k :: i + |t| <= k < |s| ==> IsSpace(s[k]))
  {
    var i := |r| - |t|;
    assert t == s[i..i + |t|];
    assert forall k :: 0 <= k < i ==> s[k] == r[k];
    if t != [] {
      assert t[|t| - 1] == r[|r| - 1];
    }
  }

  /** The three properties in RStrip's contract determine its result. */
  lemma RStripUnique(s: string, r: string)
    requires |r| <= |s| && r == s[..|r|]
    requires r == [] || !IsSpace(r[|r| - 1])
    requires forall k :: |r| <= k < |s| ==> IsSpace(s[k])
    ensures RStrip(s) == r
  {
  }

  /** Trailing whitespace of a concatenation comes from its tail unless the
      tail is all whitespace. */
  lemma RStripAppend(x: string, y: string)
    requires x == [] || !IsSpace(x[|x| - 1])
    ensures RStrip(x + y) == if RStrip(y) == [] then x else x + RStrip(y)
    decreases |y|
  {
    if y == [] {
      assert x + y == x;
    } else if IsSpace(y[|y| - 1]) {
      assert (x + y)[..|x + y| - 1] == x + y[..|y| - 1];
      RStripAppend(x, y[..|y| - 1]);
    }
  }

  lemma RStripSpaceThen(a: string)
    ensures RStrip([' '] + a) == if RStrip(a) == [] then [] else [' '] + RStrip(a)
  {
    var s := [' '] + a;
    var r := if RStrip(a) == [] then [] else [' '] + RStrip(a);
    forall k | |r| <= k < |s|
      ensures IsSpace(s[k])
    {
      if k > 0 {
        assert s[k] == a[k - 1];
      }
    }
    if r != [] {
      assert RStrip(a) == a[..|RStrip(a)|];
    }
    RStripUnique(s, r);
  }

  /** A string that starts with a non-space is its own `lstrip`. */
  lemma LStripNonSpaceStart(s: string)
    requires s != [] && !IsSpace(s[0])
    ensures LStrip(s) == s
  {
  }

  /** `"#{lead} #{a}".strip` for a lead that neither starts nor ends with
      whitespace: the lead, then one space and `a` without its trailing
      whitespace, or the lead alone when `a` is blank. */
  lemma StripJoined(lead: string, a: string)
    requires lead != [] && !IsSpace(lead[0]) && !IsSpace(lead[|lead| - 1])
    ensures Strip(lead + " " + a) == lead + (if RStrip(a) == [] then "" else " " + RStrip(a))
  {
    assert lead + " " + a == lead + ([' '] + a);
    RStripAppend(lead, [' '] + a);
    RStripSpaceThen(a);
    var r := RStrip(lead + " " + a);
    assert r[0] == lead[0];
    LStripNonSpaceStart(r);
  }
}
