/**
 * A stable sort driven by a JavaScript-style comparator, as `Array.prototype.sort`
 * performs it (the language has required a stable sort since ES2019).
 *
 * `after(a, b)` holds when the comparator returns a positive number for `(a, b)`,
 * that is, when `a` must be placed after `b`. Elements for which the comparator
 * returns 0 in both directions are "equivalent" and keep their input order.
 */
module StableSort {

  /** The comparator is consistent: asymmetric, and "not after" is transitive. */
  ghost predicate StrictWeakOrder<T(!new)>(after: (T, T) -> bool) {
    && (forall a, b :: after(a, b) ==> !after(b, a))
    && (forall a, b, c :: !after(a, b) && !after(b, c) ==> !after(a, c))
  }

  /** The comparator returns 0 for the pair in both directions. */
  predicate Equivalent<T>(a: T, b: T, after: (T, T) -> bool) {
    !after(a, b) && !after(b, a)
  }

  /** No element is placed before one it must come after. */
  predicate Sorted<T>(s: seq<T>, after: (T, T) -> bool) {
    forall i, j :: 0 <= i < j < |s| ==> !after(s[i], s[j])
  }

  /** The elements of `s` equivalent to `y`, in the order in which they occur in `s`. */
  function Matching<T>(s: seq<T>, y: T, after: (T, T) -> bool): (r: seq<T>)
    ensures |r| <= |s|
  {
    if s == [] then []
    else
      var x := s[|s| - 1];
      Matching(s[..|s| - 1], y, after) + (if Equivalent(x, y, after) then [x] else [])
  }

  /**
   * Inserts `x` into `t` behind every element that it need not precede, scanning
   * from the back, as an insertion sort does.
   */
  function Insert<T>(t: seq<T>, x: T, after: (T, T) -> bool): (r: seq<T>)
    ensures |r| == |t| + 1
    decreases |t|
  {
    if t == [] then [x]
    else if after(t[|t| - 1], x) then Insert(t[..|t| - 1], x, after) + [t[|t| - 1]]
    else t + [x]
  }

  /** Inserting adds `x` and loses nothing. */
  lemma {:induction false} InsertPermutation<T>(t: seq<T>, x: T, after: (T, T) -> bool)
    ensures multiset(Insert(t, x, after)) == multiset(t) + multiset{x}
    decreases |t|
  {
    if t != [] && after(t[|t| - 1], x) {
      var init := t[..|t| - 1];
      assert t == init + [t[|t| - 1]];
      InsertPermutation(init, x, after);
    }
  }

  /** The stable sort of `s`: every prefix is sorted before the next element is inserted. */
  function Sort<T>(s: seq<T>, after: (T, T) -> bool): (r: seq<T>)
    ensures |r| == |s|
    decreases |s|
  {
    if s == [] then []
    else Insert(Sort(s[..|s| - 1], after), s[|s| - 1], after)
  }

  /** Sorting only reorders. */
  lemma {:induction false} SortPermutation<T>(s: seq<T>, after: (T, T) -> bool)
    ensures multiset(Sort(s, after)) == multiset(s)
    decreases |s|
  {
    if s != [] {
      var init := s[..|s| - 1];
      assert s == init + [s[|s| - 1]];
      SortPermutation(init, after);
      InsertPermutation(Sort(init, after), s[|s| - 1], after);
    }
  }

  /** `r` is what a stable sort of `s` must produce: a sorted permutation keeping equivalent elements in order. */
  ghost predicate IsStableSortOf<T(!new)>(r: seq<T>, s: seq<T>, after: (T, T) -> bool) {
    && multiset(r) == multiset(s)
    && Sorted(r, after)
    && forall y :: Matching(r, y, after) == Matching(s, y, after)
  }

  lemma {:induction false} InsertSorted<T(!new)>(t: seq<T>, x: T, after: (T, T) -> bool)
    requires StrictWeakOrder(after)
    requires Sorted(t, after)
    ensures Sorted(Insert(t, x, after), after)
    decreases |t|
  {
    if t == [] {
    } else {
      var init, e := t[..|t| - 1], t[|t| - 1];
      if after(e, x) {
        assert Sorted(init, after);
        InsertSorted(init, x, after);
        var u := Insert(init, x, after);
        InsertPermutation(init, x, after);
        var r := u + [e];
        forall y | y in u ensures !after(y, e) {
          assert y in multiset(u);
          if y != x {
            assert y in multiset(init);
            var k :| 0 <= k < |init| && init[k] == y;
            assert t[k] == y;
          }
        }
        forall i, j | 0 <= i < j < |r| ensures !after(r[i], r[j]) {
          if j == |r| - 1 {
            assert r[i] in u;
          } else {
            assert r[i] == u[i] && r[j] == u[j];
          }
        }
      } else {
        var r := t + [x];
        forall i, j | 0 <= i < j < |r| ensures !after(r[i], r[j]) {
          if j == |r| - 1 && i < |t| - 1 {
            assert !after(t[i], e);
          }
        }
      }
    }
  }

  lemma {:induction false} SortSorted<T(!new)>(s: seq<T>, after: (T, T) -> bool)
    requires StrictWeakOrder(after)
    ensures Sorted(Sort(s, after), after)
    decreases |s|
  {
    if s != [] {
      SortSorted(s[..|s| - 1], after);
      InsertSorted(Sort(s[..|s| - 1], after), s[|s| - 1], after);
    }
  }

  lemma MatchingAppend<T>(s: seq<T>, x: T, y: T, after: (T, T) -> bool)
    ensures Matching(s + [x], y, after) == Matching(s, y, after) + (if Equivalent(x, y, after) then [x] else [])
  {
    assert (s + [x])[..|s + [x]| - 1] == s;
  }

  lemma NotAfterTransitive<T(!new)>(a: T, b: T, c: T, after: (T, T) -> bool)
    requires StrictWeakOrder(after)
    requires !after(a, b) && !after(b, c)
    ensures !after(a, c)
  {
  }

  lemma {:induction false} InsertMatching<T(!new)>(t: seq<T>, x: T, y: T, after: (T, T) -> bool)
    requires StrictWeakOrder(after)
    ensures Matching(Insert(t, x, after), y, after)
         == Matching(t, y, after) + (if Equivalent(x, y, after) then [x] else [])
    decreases |t|
  {
    if t == [] {
      MatchingAppend([], x, y, after);
    } else if after(t[|t| - 1], x) {
      // `x` overtakes the last element; the two are not equivalent, so at most one matches `y`.
      var init, e := t[..|t| - 1], t[|t| - 1];
      assert t == init + [e];
      var u := Insert(init, x, after);
      assert Insert(t, x, after) == u + [e];
      var mx := if Equivalent(x, y, after) then [x] else [];
      var me := if Equivalent(e, y, after) then [e] else [];
      assert mx == [] || me == [] by {
        if Equivalent(x, y, after) && Equivalent(e, y, after) {
          NotAfterTransitive(e, y, x, after);
        }
      }
      InsertMatching(init, x, y, after);
      MatchingAppend(u, e, y, after);
      MatchingAppend(init, e, y, after);
      calc {
        Matching(u + [e], y, after);
        Matching(u, y, after) + me;
        Matching(init, y, after) + mx + me;
        Matching(init, y, after) + me + mx;
        Matching(t, y, after) + mx;
      }
    } else {
      MatchingAppend(t, x, y, after);
    }
  }

  lemma {:induction false} SortMatching<T(!new)>(s: seq<T>, y: T, after: (T, T) -> bool)
    requires StrictWeakOrder(after)
    ensures Matching(Sort(s, after), y, after) == Matching(s, y, after)
    decreases |s|
  {
    if s != [] {
      var init, x := s[..|s| - 1], s[|s| - 1];
      assert s == init + [x];
      SortMatching(init, y, after);
      InsertMatching(Sort(init, after), x, y, after);
      MatchingAppend(init, x, y, after);
    }
  }

  /** The insertion sort is a stable sort: sorted, a permutation, equivalent elements in input order. */
  lemma SortIsStable<T(!new)>(s: seq<T>, after: (T, T) -> bool)
    requires StrictWeakOrder(after)
    ensures IsStableSortOf(Sort(s, after), s, after)
  {
    SortSorted(s, after);
    SortPermutation(s, after);
    forall y ensures Matching(Sort(s, after), y, after) == Matching(s, y, after) {
      SortMatching(s, y, after);
    }
  }

  /** `x` overtakes the last element exactly when that element must come after it. */
  lemma InsertLast<T>(p: seq<T>, x: T, after: (T, T) -> bool)
    requires p != []
    ensures after(p[|p| - 1], x) ==> Insert(p, x, after) == Insert(p[..|p| - 1], x, after) + [p[|p| - 1]]
    ensures !after(p[|p| - 1], x) ==> Insert(p, x, after) == p + [x]
  {
  }

  /**
   * Inserting behind the longest run of trailing elements that must come after `x`
   * puts `x` at index `j`.
   */
  lemma {:induction false} InsertAt<T>(p: seq<T>, x: T, j: nat, after: (T, T) -> bool)
    requires j <= |p|
    requires forall k :: j <= k < |p| ==> after(p[k], x)
    requires j == 0 || !after(p[j - 1], x)
    ensures Insert(p, x, after) == p[..j] + [x] + p[j..]
    decreases |p|
  {
    if j < |p| {
      var init, last := p[..|p| - 1], p[|p| - 1];
      InsertLast(p, x, after);
      InsertAtInit(p, init, x, j, after);
      InsertAt(init, x, j, after);
      var A, B := p[..j], init[j..];
      assert init[..j] == A;
      assert p[j..] == B + [last];
      assert Insert(p, x, after) == (A + [x] + B) + [last];
      assert (A + [x] + B) + [last] == A + [x] + (B + [last]);
    } else if p != [] {
      InsertLast(p, x, after);
      assert p[..j] == p && p[j..] == [];
    }
  }

  /** The preconditions of `InsertAt` carry over from `p` to `p` without its last element. */
  lemma InsertAtInit<T>(p: seq<T>, init: seq<T>, x: T, j: nat, after: (T, T) -> bool)
    requires j < |p| && init == p[..|p| - 1]
    requires forall k :: j <= k < |p| ==> after(p[k], x)
    requires j == 0 || !after(p[j - 1], x)
    ensures forall k :: j <= k < |init| ==> after(init[k], x)
    ensures j == 0 || !after(init[j - 1], x)
  {
  }

  /**
   * `Array.prototype.sort(comparator)`: sorts `a` in place. Each element in turn is
   * moved left past the elements that must come after it.
   */
  method SortInPlace<T>(a: array<T>, after: (T, T) -> bool)
    modifies a
    ensures a[..] == Sort(old(a[..]), after)
  {
    ghost var s := a[..];
    var i := 0;
    while i < a.Length
      invariant 0 <= i <= a.Length
      invariant a[..i] == Sort(s[..i], after)
      invariant a[i..] == s[i..]
    {
      assert s[..i + 1] == s[..i] + [s[i]];
      ShiftIn(a, i, after);
      i := i + 1;
    }
    assert s[..a.Length] == s;
  }

  /** One pass of the insertion sort: `a[i]` is inserted into the prefix `a[..i]`. */
  method ShiftIn<T>(a: array<T>, i: nat, after: (T, T) -> bool)
    requires i < a.Length
    modifies a
    ensures a[..i + 1] == Insert(old(a[..i]), old(a[i]), after)
    ensures a[i + 1..] == old(a[i + 1..])
  {
    ghost var p := a[..i];
    ghost var rest := a[i + 1..];
    var x := a[i];
    var j := i;
    while j > 0 && after(a[j - 1], x)
      invariant 0 <= j <= i
      invariant a[..j] == p[..j]
      invariant a[j + 1..i + 1] == p[j..i]
      invariant forall k :: j <= k < i ==> after(p[k], x)
      invariant a[i + 1..] == rest
    {
      a[j] := a[j - 1];
      j := j - 1;
    }
    ghost var before := a[..];
    a[j] := x;
    assert a[..j] == before[..j];
    assert a[j + 1..i + 1] == before[j + 1..i + 1];
    assert a[i + 1..] == before[i + 1..];
    assert a[..i + 1] == a[..j] + [x] + a[j + 1..i + 1];
    InsertAt(p, x, j, after);
  }

  /** `xs.map(f)`. */
  function Map<T, U>(f: T -> U, s: seq<T>): (r: seq<U>)
    ensures |r| == |s| && forall i :: 0 <= i < |s| ==> r[i] == f(s[i])
  {
    seq(|s|, i requires 0 <= i < |s| => f(s[i]))
  }

  /** Mapping with a function the comparator cannot tell apart from the identity commutes with sorting. */
  lemma {:induction false} InsertMap<T, U>(f: T -> U, t: seq<T>, x: T, after: (T, T) -> bool, afterU: (U, U) -> bool)
    requires forall a, b :: afterU(f(a), f(b)) == after(a, b)
    ensures Insert(Map(f, t), f(x), afterU) == Map(f, Insert(t, x, after))
    decreases |t|
  {
    if t != [] {
      var init := t[..|t| - 1];
      assert Map(f, t)[..|t| - 1] == Map(f, init);
      if after(t[|t| - 1], x) {
        InsertMap(f, init, x, after, afterU);
        assert Map(f, Insert(init, x, after) + [t[|t| - 1]]) == Map(f, Insert(init, x, after)) + [f(t[|t| - 1])];
      } else {
        assert Map(f, t + [x]) == Map(f, t) + [f(x)];
      }
    } else {
      assert Map(f, [x]) == [f(x)];
    }
  }

  lemma {:induction false} SortMap<T, U>(f: T -> U, s: seq<T>, after: (T, T) -> bool, afterU: (U, U) -> bool)
    requires forall a, b :: afterU(f(a), f(b)) == after(a, b)
    ensures Sort(Map(f, s), afterU) == Map(f, Sort(s, after))
    decreases |s|
  {
    if s != [] {
      var init := s[..|s| - 1];
      assert Map(f, s)[..|s| - 1] == Map(f, init);
      SortMap(f, init, after, afterU);
      InsertMap(f, Sort(init, after), s[|s| - 1], after, afterU);
    }
  }
}
