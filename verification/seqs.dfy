/** Facts about sequences used as ordered, possibly repeating collections of
    paths, and a model of JavaScript's insertion-ordered `Set`. */
module Seqs {

  /** No element occurs twice. */
  ghost predicate NoDup<T>(xs: seq<T>) {
    forall i, j :: 0 <= i < j < |xs| ==> xs[i] != xs[j]
  }

  /** Position of the first occurrence of `x`. */
  function IndexOf<T(==)>(xs: seq<T>, x: T): (k: nat)
    requires x in xs
    ensures k < |xs| && xs[k] == x
    ensures forall j :: 0 <= j < k ==> xs[j] != x
  {
    if xs[0] == x then 0 else 1 + IndexOf(xs[1..], x)
  }

  /** `xs` is obtained from `ys` by deleting elements (order is kept). */
  ghost predicate IsSubsequence<T>(xs: seq<T>, ys: seq<T>)
    decreases |ys|
  {
    || xs == []
    || (&& ys != []
        && ((xs[0] == ys[0] && IsSubsequence(xs[1..], ys[1..])) || IsSubsequence(xs, ys[1..])))
  }

  lemma IndexOfAppend<T>(a: seq<T>, b: seq<T>, x: T)
    requires x in a + b
    ensures IndexOf(a + b, x) == if x in a then IndexOf(a, x) else |a| + IndexOf(b, x)
  {
    if x in a {
      var m := IndexOf(a, x);
      assert (a + b)[m] == x;
      assert forall j :: 0 <= j < m ==> (a + b)[j] == a[j];
    } else {
      var m := IndexOf(b, x);
      assert (a + b)[|a| + m] == x;
      assert forall j :: 0 <= j < |a| ==> (a + b)[j] == a[j];
      assert forall j :: |a| <= j < |a| + m ==> (a + b)[j] == b[j - |a|];
    }
  }

  lemma NoDupAppend<T>(a: seq<T>, b: seq<T>)
    requires NoDup(a + b)
    ensures NoDup(a) && NoDup(b)
    ensures forall x :: x in a ==> x !in b
  {
    forall i, j | 0 <= i < j < |a| ensures a[i] != a[j] {
      assert a[i] == (a + b)[i] && a[j] == (a + b)[j];
    }
    forall i, j | 0 <= i < j < |b| ensures b[i] != b[j] {
      assert b[i] == (a + b)[|a| + i] && b[j] == (a + b)[|a| + j];
    }
    forall x | x in a ensures x !in b {
      var i := IndexOf(a, x);
      assert (a + b)[i] == x;
      forall j | 0 <= j < |b| ensures b[j] != x {
        assert (a + b)[|a| + j] == b[j];
      }
    }
  }

  /** The array `Array.from(new Set(xs))`: each element at its first
      occurrence, later repeats skipped. */
  function Dedup<T(==,!new)>(xs: seq<T>): (r: seq<T>)
    ensures forall x :: x in r <==> x in xs
    decreases |xs|
  {
    if xs == [] then []
    else
      var init := Dedup(xs[..|xs| - 1]);
      var last := xs[|xs| - 1];
      if last in init then init else init + [last]
  }

  /** `Dedup` is duplicate-free and keeps the first-occurrence order of its input. */
  lemma {:induction false} DedupSpec<T(!new)>(xs: seq<T>)
    ensures NoDup(Dedup(xs))
    ensures forall i, j :: 0 <= i < j < |Dedup(xs)| ==> IndexOf(xs, Dedup(xs)[i]) < IndexOf(xs, Dedup(xs)[j])
    decreases |xs|
  {
    if xs != [] {
      var pre := xs[..|xs| - 1];
      var last := xs[|xs| - 1];
      assert xs == pre + [last];
      DedupSpec(pre);
      var init := Dedup(pre);
      forall y | y in pre ensures IndexOf(xs, y) == IndexOf(pre, y) {
        IndexOfAppend(pre, [last], y);
      }
      if last !in init {
        IndexOfAppend(pre, [last], last);
        assert IndexOf(xs, last) == |pre|;
      }
    }
  }

  /** Deduplicating a duplicate-free sequence changes nothing. */
  lemma {:induction false} DedupNoDup<T(!new)>(xs: seq<T>)
    requires NoDup(xs)
    ensures Dedup(xs) == xs
    decreases |xs|
  {
    if xs != [] {
      var pre := xs[..|xs| - 1];
      assert NoDup(pre) by {
        forall i, j | 0 <= i < j < |pre| ensures pre[i] != pre[j] {
          assert pre[i] == xs[i] && pre[j] == xs[j];
        }
      }
      DedupNoDup(pre);
      assert xs == pre + [xs[|xs| - 1]];
    }
  }

  /** Appending elements that are already present adds nothing to the set. */
  lemma {:induction false} DedupAppendPresent<T(!new)>(a: seq<T>, b: seq<T>)
    requires forall x :: x in b ==> x in a
    ensures Dedup(a + b) == Dedup(a)
    decreases |b|
  {
    if b != [] {
      var b' := b[..|b| - 1];
      assert (a + b)[..|a + b| - 1] == a + b';
      assert (a + b)[|a + b| - 1] == b[|b| - 1];
      DedupAppendPresent(a, b');
    } else {
      assert a + b == a;
    }
  }
}
