/**
  Sequence operations of JavaScript arrays and sets: `filter`, and
  deduplication with `Set` semantics (adding elements one by one keeps the
  first occurrence of each, and `Array.from` lists them in insertion order).
 */
module Seqs {

  /** `xs.filter(keep)`: the elements satisfying `keep`, in their original order. */
  function Filter<T>(xs: seq<T>, keep: T -> bool): (r: seq<T>)
    ensures |r| <= |xs|
    ensures forall i :: 0 <= i < |r| ==> keep(r[i])
    ensures forall x :: x in xs && keep(x) ==> x in r
    ensures forall x :: x in r ==> x in xs
    decreases |xs|
  {
    if |xs| == 0 then []
    else
      assert xs == [xs[0]] + xs[1..];
      (if keep(xs[0]) then [xs[0]] else []) + Filter(xs[1..], keep)
  }

  /** Filtering a concatenation filters each part, keeping the order. */
  lemma {:induction false} FilterAppend<T>(a: seq<T>, b: seq<T>, keep: T -> bool)
    ensures Filter(a + b, keep) == Filter(a, keep) + Filter(b, keep)
    decreases |a|
  {
    if |a| > 0 {
      var head := if keep(a[0]) then [a[0]] else [];
      assert (a + b)[0] == a[0] && (a + b)[1..] == a[1..] + b;
      FilterAppend(a[1..], b, keep);
      assert head + (Filter(a[1..], keep) + Filter(b, keep)) == (head + Filter(a[1..], keep)) + Filter(b, keep);
    } else {
      assert a + b == b;
    }
  }

  /** A single element is kept exactly when it satisfies `keep`; with
      `FilterAppend` this pins `Filter` down as the in-order subsequence. */
  lemma FilterSingle<T>(x: T, keep: T -> bool)
    ensures Filter([x], keep) == if keep(x) then [x] else []
  {
  }

  predicate NoDuplicates<T(==)>(s: seq<T>) {
    forall i, j :: 0 <= i < j < |s| ==> s[i] != s[j]
  }

  /** The insertion-ordered contents of a set that already lists `seen` after
      `add` has been called on each element of `xs` in turn. */
  function AddAll<T(==,!new)>(seen: seq<T>, xs: seq<T>): (r: seq<T>)
    requires NoDuplicates(seen)
    ensures NoDuplicates(r)
    ensures forall x :: x in r <==> x in seen || x in xs
    ensures seen <= r
    decreases |xs|
  {
    if |xs| == 0 then seen
    else if xs[0] in seen then AddAll(seen, xs[1..])
    else AddAll(seen + [xs[0]], xs[1..])
  }

  /** Reference definition: each element of `xs` at the position where it
      first occurs, later repetitions dropped. */
  function FirstOccurrences<T(==,!new)>(xs: seq<T>): (r: seq<T>)
    ensures NoDuplicates(r)
    ensures forall x :: x in r <==> x in xs
    decreases |xs|
  {
    if |xs| == 0 then []
    else
      var init := xs[..|xs| - 1];
      var last := xs[|xs| - 1];
      assert xs == init + [last];
      FirstOccurrences(init) + (if last in init then [] else [last])
  }

  /** Adding the rest of a sequence to the deduplicated prefix gives the
      deduplication of the whole sequence. */
  lemma {:induction false} AddAllExtendsFirstOccurrences<T(!new)>(p: seq<T>, s: seq<T>)
    ensures AddAll(FirstOccurrences(p), s) == FirstOccurrences(p + s)
    decreases |s|
  {
    if |s| == 0 {
      assert p + s == p;
    } else {
      var fo := FirstOccurrences(p);
      var p' := p + [s[0]];
      assert p' + s[1..] == p + s by {
        assert s == [s[0]] + s[1..];
      }
      assert p'[..|p'| - 1] == p;
      assert FirstOccurrences(p') == fo + (if s[0] in p then [] else [s[0]]);
      if s[0] in p {
        assert s[0] in fo;
        assert FirstOccurrences(p') == fo;
        assert AddAll(fo, s) == AddAll(fo, s[1..]);
      } else {
        assert s[0] !in fo;
        assert AddAll(fo, s) == AddAll(fo + [s[0]], s[1..]);
      }
      AddAllExtendsFirstOccurrences(p', s[1..]);
    }
  }

  /** Adding every element to an empty set lists exactly the first
      occurrences, in order. */
  lemma SetInsertionOrder<T(!new)>(xs: seq<T>)
    ensures AddAll([], xs) == FirstOccurrences(xs)
  {
    AddAllExtendsFirstOccurrences([], xs);
    assert [] + xs == xs;
  }
}
