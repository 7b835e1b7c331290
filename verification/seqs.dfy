/** Order-preserving filtering, the shape of every "push the matching elements" loop in the advisor. */
module Seqs {

  /** `sub` is `s` with some elements left out and the others kept in their original order. */
  ghost predicate IsSubsequence<T>(sub: seq<T>, s: seq<T>)
    decreases |s|
  {
    if sub == [] then true
    else if s == [] then false
    else if sub[|sub| - 1] == s[|s| - 1] then IsSubsequence(sub[..|sub| - 1], s[..|s| - 1])
    else IsSubsequence(sub, s[..|s| - 1])
  }

  /** The elements of `s` that satisfy `keep`, in their order in `s`: the loop `for (x of s) if (keep(x)) r.push(x)`. */
  function Filter<T>(s: seq<T>, keep: T -> bool): seq<T>
  {
    if s == [] then []
    else
      var init, last := s[..|s| - 1], s[|s| - 1];
      var r0 := Filter(init, keep);
      if keep(last) then r0 + [last] else r0
  }

  /**
   * Filter selects: its result holds only kept elements, and every kept element
   * as often as `s` does. With FilterIsSubsequence this determines the result.
   */
  lemma {:induction false} FilterSelects<T>(s: seq<T>, keep: T -> bool)
    ensures multiset(Filter(s, keep)) <= multiset(s)
    ensures forall x :: x in Filter(s, keep) ==> keep(x)
    ensures forall x :: x in s && keep(x) ==> multiset(Filter(s, keep))[x] == multiset(s)[x]
    decreases |s|
  {
    if s != [] {
      var init, last := s[..|s| - 1], s[|s| - 1];
      var r0, r := Filter(init, keep), Filter(s, keep);
      FilterSelects(init, keep);
      assert s == init + [last];
      var added := if keep(last) then multiset{last} else multiset{};
      assert multiset(r) == multiset(r0) + added;
      assert multiset(s) == multiset(init) + multiset{last};
      forall x | x in r ensures keep(x) {
        assert x in r0 || (keep(last) && x == last);
      }
      forall x | x in s && keep(x) ensures multiset(r)[x] == multiset(s)[x] {
        if x != last {
          assert x in init;
        }
      }
    }
  }

  /** Filtering keeps the order of `s`: its result is a subsequence of `s`. */
  lemma {:induction false} FilterIsSubsequence<T>(s: seq<T>, keep: T -> bool)
    ensures IsSubsequence(Filter(s, keep), s)
    decreases |s|
  {
    if s != [] {
      var init, last := s[..|s| - 1], s[|s| - 1];
      var r0 := Filter(init, keep);
      FilterIsSubsequence(init, keep);
      FilterSelects(init, keep);
      assert s == init + [last];
      if keep(last) {
        var r := r0 + [last];
        assert r[..|r| - 1] == r0;
      } else {
        assert r0 != [] ==> r0[|r0| - 1] in r0;
      }
    }
  }

  /** Filtering distributes over appending one element: the loop body's one step. */
  lemma FilterSnoc<T>(s: seq<T>, x: T, keep: T -> bool)
    ensures Filter(s + [x], keep) == Filter(s, keep) + (if keep(x) then [x] else [])
  {
    assert (s + [x])[..|s + [x]| - 1] == s;
  }

  /** One more element of a prefix: the step of a loop that filters `s` front to back. */
  lemma FilterPrefixStep<T>(s: seq<T>, i: nat, keep: T -> bool)
    requires i < |s|
    ensures Filter(s[..i + 1], keep) == Filter(s[..i], keep) + (if keep(s[i]) then [s[i]] else [])
  {
    assert s[..i + 1] == s[..i] + [s[i]];
    FilterSnoc(s[..i], s[i], keep);
  }
}
