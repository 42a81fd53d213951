/** Small shared vocabulary: optional values, results, subsequences and a
    leftmost search over integer positions. */
module Base {

  /** A value that may be absent (Ruby's nil). */
  datatype Option<+T> = None | Some(value: T)

  /** The outcome of an operation that can raise. */
  datatype Result<+T, +E> = Success(value: T) | Failure(error: E)

  /** `a` can be obtained from `b` by deleting elements, keeping order. */
  predicate IsSubsequence<T(==)>(a: seq<T>, b: seq<T>)
    decreases |b|
  {
    a == [] ||
    (b != [] && ((a[0] == b[0] && IsSubsequence(a[1..], b[1..])) || IsSubsequence(a, b[1..])))
  }

  /** The leftmost position in [from, to) at which `p` holds: the order in
      which a regular-expression engine tries candidate start positions. */
  function FirstWhere(p: int -> bool, from: int, to: int): (r: Option<int>)
    decreases to - from
    ensures r.Some? ==> from <= r.value < to && p(r.value)
    ensures r.Some? ==> forall j :: from <= j < r.value ==> !p(j)
    ensures r.None? ==> forall j :: from <= j < to ==> !p(j)
  {
    if to <= from then None
    else if p(from) then Some(from)
    else FirstWhere(p, from + 1, to)
  }

  /** Runs `step` over `xs` from left to right, threading a state through
      the steps and concatenating what each step emits. */
  function Thread<S, X, E>(step: (S, X) -> (seq<E>, S), s: S, xs: seq<X>): (out: (seq<E>, S))
    decreases |xs|
  {
    if xs == [] then ([], s)
    else
      var (e1, s1) := step(s, xs[0]);
      var (e2, s2) := Thread(step, s1, xs[1..]);
      (e1 + e2, s2)
  }

  /** Threading over a concatenation is threading over its parts in turn. */
  lemma {:induction false} ThreadAppend<S, X, E>(step: (S, X) -> (seq<E>, S), s: S, a: seq<X>, b: seq<X>)
    ensures var (ea, sa) := Thread(step, s, a);
            var (eb, sb) := Thread(step, sa, b);
            Thread(step, s, a + b) == (ea + eb, sb)
    decreases |a|
  {
    if a == [] {
      assert a + b == b;
      var (eb, sb) := Thread(step, s, b);
      assert [] + eb == eb;
    } else {
      assert (a + b)[0] == a[0];
      assert (a + b)[1..] == a[1..] + b;
      var (e1, s1) := step(s, a[0]);
      ThreadAppend(step, s1, a[1..], b);
      var (ea, sa) := Thread(step, s1, a[1..]);
      var (eb, sb) := Thread(step, sa, b);
      assert Thread(step, s, a) == (e1 + ea, sa);
      assert Thread(step, s, a + b) == (e1 + (ea + eb), sb);
      assert e1 + (ea + eb) == (e1 + ea) + eb;
    }
  }

  /** When whatever a step emits for an element satisfies `ok` for that
      element, everything the thread emits satisfies `ok` for some element. */
  lemma {:induction false} ThreadEmitsFrom<S, X, E>(step: (S, X) -> (seq<E>, S), ok: (X, E) -> bool, s: S, xs: seq<X>)
    requires forall s', x, k :: 0 <= k < |step(s', x).0| ==> ok(x, step(s', x).0[k])
    ensures forall k :: 0 <= k < |Thread(step, s, xs).0| ==>
              exists i :: 0 <= i < |xs| && ok(xs[i], Thread(step, s, xs).0[k])
    decreases |xs|
  {
    if xs == [] {
      assert Thread(step, s, xs).0 == [];
    } else {
      var e1, s1 := step(s, xs[0]).0, step(s, xs[0]).1;
      ThreadEmitsFrom(step, ok, s1, xs[1..]);
      var e2 := Thread(step, s1, xs[1..]).0;
      var all := Thread(step, s, xs).0;
      assert all == e1 + e2;
      forall k | 0 <= k < |all|
        ensures exists i :: 0 <= i < |xs| && ok(xs[i], all[k])
      {
        if k < |e1| {
          assert ok(xs[0], step(s, xs[0]).0[k]);
          assert all[k] == e1[k];
        } else {
          var m := k - |e1|;
          assert 0 <= m < |e2|;
          var i :| 0 <= i < |xs[1..]| && ok(xs[1..][i], e2[m]);
          assert ok(xs[i + 1], all[k]);
        }
      }
    }
  }

  /** A relation between a state, what a run emits and the state after it,
      which every single step satisfies, which the empty run satisfies, and
      which composes, holds of every run. */
  lemma {:induction false} ThreadKeeps<S, X, E>(step: (S, X) -> (seq<E>, S), keep: (S, seq<E>, S) -> bool, s: S, xs: seq<X>)
    requires forall a, x :: keep(a, step(a, x).0, step(a, x).1)
    requires forall a :: keep(a, [], a)
    requires forall a, e1, b, e2, c :: keep(a, e1, b) && keep(b, e2, c) ==> keep(a, e1 + e2, c)
    ensures keep(s, Thread(step, s, xs).0, Thread(step, s, xs).1)
    decreases |xs|
  {
    if xs != [] {
      var (e1, s1) := step(s, xs[0]);
      ThreadKeeps(step, keep, s1, xs[1..]);
      var (e2, s2) := Thread(step, s1, xs[1..]);
      assert keep(s, e1, s1) && keep(s1, e2, s2);
      assert Thread(step, s, xs) == (e1 + e2, s2);
    }
  }

  /** When every step from a state satisfying `inv` emits at most `n` items
      and leads to a state satisfying `inv`, a run emits at most `n` items
      per element. */
  lemma {:induction false} ThreadBound<S, X, E>(step: (S, X) -> (seq<E>, S), inv: S -> bool, n: nat, s: S, xs: seq<X>)
    requires inv(s)
    requires forall a, x :: inv(a) ==> inv(step(a, x).1) && |step(a, x).0| <= n
    ensures |Thread(step, s, xs).0| <= |xs| * n
    decreases |xs|
  {
    if xs != [] {
      var (e1, s1) := step(s, xs[0]);
      ThreadBound(step, inv, n, s1, xs[1..]);
      var (e2, s2) := Thread(step, s1, xs[1..]);
      assert Thread(step, s, xs) == (e1 + e2, s2);
      assert |xs| * n == n + |xs[1..]| * n;
    }
  }

  lemma {:induction false} SubsequenceOfSelf<T>(a: seq<T>)
    ensures IsSubsequence(a, a)
    decreases |a|
  {
    if a != [] {
      SubsequenceOfSelf(a[1..]);
    }
  }

  /** Dropping a prefix of the whole keeps a subsequence of the rest a subsequence. */
  lemma {:induction false} SubsequenceOfSuffix<T>(a: seq<T>, b: seq<T>, n: nat)
    requires n <= |b| && IsSubsequence(a, b[n..])
    ensures IsSubsequence(a, b)
    decreases n
  {
    if n > 0 {
      assert b[1..][n - 1..] == b[n..];
      SubsequenceOfSuffix(a, b[1..], n - 1);
    }
  }

  lemma {:induction false} SubsequenceLength<T>(a: seq<T>, b: seq<T>)
    requires IsSubsequence(a, b)
    ensures |a| <= |b|
    decreases |b|
  {
    if a != [] {
      if a[0] == b[0] && IsSubsequence(a[1..], b[1..]) {
        SubsequenceLength(a[1..], b[1..]);
      } else {
        SubsequenceLength(a, b[1..]);
      }
    }
  }

  /** Every element of a subsequence is an element of the whole. */
  lemma {:induction false} SubsequenceMembers<T>(a: seq<T>, b: seq<T>, x: T)
    requires IsSubsequence(a, b) && x in a
    ensures x in b
    decreases |b|
  {
    if a[0] == b[0] && IsSubsequence(a[1..], b[1..]) {
      if x != a[0] {
        SubsequenceMembers(a[1..], b[1..], x);
      }
    } else {
      SubsequenceMembers(a, b[1..], x);
    }
  }

  lemma SubsequenceMembersAll<T>(a: seq<T>, b: seq<T>)
    requires IsSubsequence(a, b)
    ensures forall x :: x in a ==> x in b
  {
    forall x | x in a
      ensures x in b
    {
      SubsequenceMembers(a, b, x);
    }
  }
}
