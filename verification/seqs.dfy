/** Sequence helpers: the Swift standard-library calls the core relies on
    (`contains`, `filter`, removal by reversed index) stated once. */
module Seqs {

  /** No element occurs twice. */
  ghost predicate Distinct<T(!new)>(s: seq<T>)
  {
    forall x :: multiset(s)[x] <= 1
  }

  /** The head of a duplicate-free sequence is not in its tail, and the tail is
      duplicate-free too. */
  lemma DistinctCons<T(!new)>(s: seq<T>)
    requires Distinct(s) && |s| > 0
    ensures s[0] !in s[1..] && Distinct(s[1..])
  {
    assert s == [s[0]] + s[1..];
    assert multiset(s) == multiset{s[0]} + multiset(s[1..]);
    assert multiset(s)[s[0]] <= 1;
    forall x ensures multiset(s[1..])[x] <= 1 {
      assert multiset(s[1..])[x] <= multiset(s)[x];
    }
  }

  /** Linear membership test, as Swift's `Array.contains`. */
  function Contains<T(==)>(s: seq<T>, x: T): (r: bool)
    ensures r <==> x in s
  {
    if |s| == 0 then false
    else if s[0] == x then true
    else Contains(s[1..], x)
  }

  /** The elements of `s` that satisfy `keep`, in their original order. */
  function Filter<T(!new)>(s: seq<T>, keep: T -> bool): (r: seq<T>)
    ensures |r| <= |s|
    ensures forall x :: x in r <==> x in s && keep(x)
  {
    if |s| == 0 then []
    else
      assert s == [s[0]] + s[1..];
      var rest := Filter(s[1..], keep);
      if keep(s[0]) then [s[0]] + rest else rest
  }

  /** Filtering keeps every surviving element with its multiplicity. */
  lemma {:induction false} FilterMultiset<T(!new)>(s: seq<T>, keep: T -> bool, x: T)
    ensures multiset(Filter(s, keep))[x] == if keep(x) then multiset(s)[x] else 0
  {
    if |s| > 0 {
      assert s == [s[0]] + s[1..];
      FilterMultiset(s[1..], keep, x);
    }
  }

  /** Filtering a sequence whose elements all survive changes nothing. */
  lemma {:induction false} FilterAllKept<T(!new)>(s: seq<T>, keep: T -> bool)
    requires forall i :: 0 <= i < |s| ==> keep(s[i])
    ensures Filter(s, keep) == s
  {
    if |s| > 0 {
      FilterAllKept(s[1..], keep);
      assert s == [s[0]] + s[1..];
    }
  }

  /** Filtering distributes over concatenation: the survivors keep their order. */
  lemma {:induction false} FilterConcat<T(!new)>(a: seq<T>, b: seq<T>, keep: T -> bool)
    ensures Filter(a + b, keep) == Filter(a, keep) + Filter(b, keep)
  {
    if |a| == 0 {
      assert a + b == b;
    } else {
      assert (a + b)[1..] == a[1..] + b;
      FilterConcat(a[1..], b, keep);
    }
  }

  /** The removal loop as the Swift code writes it: walk the indices from the
      last down to the first and `remove(at:)` every element that fails `keep`.
      It computes exactly `Filter`. */
  method RemoveWhereReversed<T(!new)>(s: seq<T>, keep: T -> bool) returns (r: seq<T>)
    ensures r == Filter(s, keep)
  {
    r := s;
    var i := |s|;
    while i > 0
      invariant 0 <= i <= |s|
      invariant r == s[..i] + Filter(s[i..], keep)
      decreases i
    {
      i := i - 1;
      FilterFrom(s, i, keep);
      if !keep(r[i]) {
        r := r[..i] + r[i + 1..];
      }
    }
    assert s[0..] == s;
  }

  /** Filtering from `i` on is deciding on `s[i]`, then filtering the rest;
      it splits a list with its first `i + 1` elements kept as they are. */
  lemma FilterFrom<T(!new)>(s: seq<T>, i: nat, keep: T -> bool)
    requires i < |s|
    ensures var r := s[..i + 1] + Filter(s[i + 1..], keep);
      && r[i] == s[i]
      && r[..i] == s[..i]
      && r[i + 1..] == Filter(s[i + 1..], keep)
      && Filter(s[i..], keep) == (if keep(s[i]) then [s[i]] else []) + Filter(s[i + 1..], keep)
      && (keep(s[i]) ==> r == s[..i] + Filter(s[i..], keep))
  {
    assert s[i..] == [s[i]] + s[i + 1..];
    assert s[..i + 1] == s[..i] + [s[i]];
  }

  /** `n` copies of `x`. */
  function Repeat<T>(x: T, n: nat): (r: seq<T>)
    ensures |r| == n
    ensures forall i :: 0 <= i < n ==> r[i] == x
  {
    if n == 0 then [] else [x] + Repeat(x, n - 1)
  }

  /** Moving the head of `b` to the end of `a` keeps the concatenation. */
  lemma ConcatShift<T>(a: seq<T>, b: seq<T>)
    requires |b| > 0
    ensures (a + [b[0]]) + b[1..] == a + b
  {
    assert b == [b[0]] + b[1..];
  }

  lemma ConcatAssoc<T>(a: seq<T>, b: seq<T>, c: seq<T>)
    ensures (a + b) + c == a + (b + c)
  {
  }
}
