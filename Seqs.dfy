/**
 Sequence helpers shared by link extraction and the page table: the
 "no duplicates" predicate, Ruby's `Array#uniq` (keep the first occurrence
 of every element, in order) and the index of an element's first occurrence.
 */
module Seqs {

  /** No element occurs twice in `xs`. */
  predicate NoDup<T(==)>(xs: seq<T>)
  {
    forall i, j :: 0 <= i < j < |xs| ==> xs[i] != xs[j]
  }

  /** The first position at which `x` occurs in `xs`. */
  function IndexOf<T(==)>(xs: seq<T>, x: T): (i: nat)
    requires x in xs
    ensures i < |xs| && xs[i] == x
    ensures x !in xs[..i]
  {
    if xs[0] == x then 0 else 1 + IndexOf(xs[1..], x)
  }

  /** Ruby's `uniq`: drop every element that already occurred earlier. */
  function Uniq<T(==,!new)>(xs: seq<T>): (r: seq<T>)
    ensures NoDup(r)
    ensures forall x :: x in r <==> x in xs
    ensures |r| <= |xs|
    decreases |xs|
  {
    if xs == [] then []
    else
      var init, last := xs[..|xs| - 1], xs[|xs| - 1];
      assert xs == init + [last];
      var r := Uniq(init);
      if last in r then r else r + [last]
  }

  /** `xs` with every occurrence of `x` left out. */
  function Remove<T(==,!new)>(xs: seq<T>, x: T): (r: seq<T>)
    ensures forall y :: y in r <==> y in xs && y != x
  {
    if xs == [] then [] else (if xs[0] == x then [] else [xs[0]]) + Remove(xs[1..], x)
  }

  lemma ConsAssoc<T>(x: T, a: seq<T>, b: seq<T>)
    ensures [x] + (a + b) == ([x] + a) + b
  {
  }

  lemma PrefixSnoc<T>(xs: seq<T>, i: nat)
    requires i < |xs|
    ensures xs[..i + 1] == xs[..i] + [xs[i]]
  {
  }

  lemma PrefixAll<T>(xs: seq<T>)
    ensures xs[..|xs|] == xs
  {
  }

  lemma UniqSnoc<T(!new)>(xs: seq<T>, x: T)
    ensures Uniq(xs + [x]) == if x in Uniq(xs) then Uniq(xs) else Uniq(xs) + [x]
  {
    assert (xs + [x])[..|xs|] == xs;
  }

  /** An element of a prefix has the same first index in every extension. */
  lemma {:induction false} IndexOfExtend<T>(p: seq<T>, q: seq<T>, x: T)
    requires x in p
    ensures IndexOf(p + q, x) == IndexOf(p, x)
  {
    if p[0] != x {
      assert (p + q)[1..] == p[1..] + q;
      IndexOfExtend(p[1..], q, x);
    }
  }

  /** An element that is new at the end of `p + [x]` has index `|p|`. */
  lemma IndexOfFresh<T>(p: seq<T>, x: T)
    requires x !in p
    ensures IndexOf(p + [x], x) == |p|
  {
  }

  /** `Uniq` keeps the elements in the order of their first occurrence. */
  lemma {:induction false} UniqFirstOccurrence<T(!new)>(xs: seq<T>)
    ensures forall i, j :: 0 <= i < j < |Uniq(xs)| ==> IndexOf(xs, Uniq(xs)[i]) < IndexOf(xs, Uniq(xs)[j])
  {
    if xs != [] {
      var init, last := xs[..|xs| - 1], xs[|xs| - 1];
      assert xs == init + [last];
      var r := Uniq(init);
      UniqFirstOccurrence(init);
      forall y | y in r
        ensures IndexOf(xs, y) == IndexOf(init, y) < |init|
      {
        IndexOfExtend(init, [last], y);
      }
      if last !in r {
        IndexOfFresh(init, last);
        assert Uniq(xs) == r + [last];
        forall i, j | 0 <= i < j < |Uniq(xs)|
          ensures IndexOf(xs, Uniq(xs)[i]) < IndexOf(xs, Uniq(xs)[j])
        {
          assert Uniq(xs)[i] == r[i];
          if j < |r| {
            assert Uniq(xs)[j] == r[j];
          }
        }
      }
    }
  }

  /** A sequence that already has no duplicates is left alone by `Uniq`. */
  lemma {:induction false} UniqOfNoDup<T(!new)>(xs: seq<T>)
    requires NoDup(xs)
    ensures Uniq(xs) == xs
  {
    if xs != [] {
      var init, last := xs[..|xs| - 1], xs[|xs| - 1];
      assert xs == init + [last];
      UniqOfNoDup(init);
      assert last !in init;
    }
  }
}
