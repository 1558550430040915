/** Sequence helpers shared by the model: the JavaScript idioms the source leans
    on (`Array.prototype.filter`, `Array.from(new Set(xs))`,
    `Array.prototype.sort` with a comparator), stated on values. */
module Sequences {

  /** An optional value (`undefined` in the source when absent). */
  datatype Option<T> = None | Some(value: T)

  /** No element occurs twice. */
  predicate NoDup<T(==)>(s: seq<T>)
  {
    forall i, j :: 0 <= i < j < |s| ==> s[i] != s[j]
  }

  /** Index of the first occurrence of `x` in `s`. */
  function FirstIndex<T(==)>(s: seq<T>, x: T): (i: nat)
    requires x in s
    ensures i < |s| && s[i] == x && x !in s[..i]
  {
    if s[0] == x then 0
    else
      var k := FirstIndex(s[1..], x);
      assert s[..k + 1] == [s[0]] + s[1..][..k];
      k + 1
  }

  lemma {:induction false} FirstIndexOfPrefix<T>(p: seq<T>, q: seq<T>, x: T)
    requires x in p
    ensures FirstIndex(p + q, x) == FirstIndex(p, x)
  {
    if p[0] != x {
      assert (p + q)[1..] == p[1..] + q;
      FirstIndexOfPrefix(p[1..], q, x);
    }
  }

  /** `xs.filter(p)`: the elements satisfying `p`, in their original order. */
  function Filter<T(!new)>(s: seq<T>, p: T -> bool): (r: seq<T>)
    ensures |r| <= |s|
    ensures forall x :: x in r <==> x in s && p(x)
    ensures forall i :: 0 <= i < |r| ==> p(r[i])
    decreases |s|
  {
    if |s| == 0 then []
    else
      var init := s[..|s| - 1];
      assert s == init + [s[|s| - 1]];
      Filter(init, p) + (if p(s[|s| - 1]) then [s[|s| - 1]] else [])
  }

  /** Filtering distributes over concatenation, so the kept elements keep their order. */
  lemma {:induction false} FilterAppend<T(!new)>(a: seq<T>, b: seq<T>, p: T -> bool)
    ensures Filter(a + b, p) == Filter(a, p) + Filter(b, p)
    decreases |b|
  {
    if |b| > 0 {
      var b' := b[..|b| - 1];
      assert (a + b)[..|a + b| - 1] == a + b';
      FilterAppend(a, b', p);
    } else {
      assert a + b == a;
    }
  }

  /** `Array.from(new Set(s))`: each element once, at the place it first occurs
      (a JavaScript `Set` iterates in insertion order). */
  function Dedupe<T(==,!new)>(s: seq<T>): (r: seq<T>)
    ensures NoDup(r)
    ensures forall x :: x in r <==> x in s
    ensures |r| <= |s|
    decreases |s|
  {
    if |s| == 0 then []
    else
      var init := s[..|s| - 1];
      assert s == init + [s[|s| - 1]];
      var r := Dedupe(init);
      if s[|s| - 1] in r then r else r + [s[|s| - 1]]
  }

  /** The deduplicated sequence lists elements in the order of their first
      occurrence in the input. */
  lemma {:induction false} DedupeFirstOccurrenceOrder<T(!new)>(s: seq<T>, i: nat, j: nat)
    requires i < j < |Dedupe(s)|
    ensures FirstIndex(s, Dedupe(s)[i]) < FirstIndex(s, Dedupe(s)[j])
    decreases |s|
  {
    var init := s[..|s| - 1];
    var last := s[|s| - 1];
    assert s == init + [last];
    var r := Dedupe(init);
    FirstIndexOfPrefix(init, [last], r[i]);
    if j < |r| {
      FirstIndexOfPrefix(init, [last], r[j]);
      DedupeFirstOccurrenceOrder(init, i, j);
    } else {
      assert Dedupe(s)[j] == last && last !in init;
      assert s[..|s| - 1] == init;
      assert FirstIndex(s, last) == |s| - 1;
    }
  }

  /** Deduplicating a sequence without repetitions changes nothing. */
  lemma {:induction false} DedupeOfNoDup<T(!new)>(s: seq<T>)
    requires NoDup(s)
    ensures Dedupe(s) == s
    decreases |s|
  {
    if |s| > 0 {
      var init := s[..|s| - 1];
      assert NoDup(init);
      DedupeOfNoDup(init);
      assert s == init + [s[|s| - 1]];
    }
  }

  /** A comparator `lt` ("sorts before") that `Array.prototype.sort` can use
      consistently: irreflexive, transitive, and with transitive incomparability. */
  ghost predicate StrictWeakOrder<T(!new)>(lt: (T, T) -> bool)
  {
    && (forall a :: !lt(a, a))
    && (forall a, b, c :: lt(a, b) && lt(b, c) ==> lt(a, c))
    && (forall a, b, c :: !lt(a, b) && !lt(b, c) ==> !lt(a, c))
  }

  /** A strict weak order in which distinct elements are always comparable. */
  ghost predicate StrictTotalOrder<T(!new)>(lt: (T, T) -> bool)
  {
    && StrictWeakOrder(lt)
    && (forall a, b :: a != b ==> lt(a, b) || lt(b, a))
  }

  /** An irreflexive, transitive relation that orders every pair of distinct
      elements is a strict total order (incomparability is then equality). */
  lemma StrictTotalOrderIntro<T(!new)>(lt: (T, T) -> bool)
    requires forall a :: !lt(a, a)
    requires forall a, b, c :: lt(a, b) && lt(b, c) ==> lt(a, c)
    requires forall a, b :: a != b ==> lt(a, b) || lt(b, a)
    ensures StrictTotalOrder(lt)
  {
    forall a, b, c | !lt(a, b) && !lt(b, c) ensures !lt(a, c) {
      if a != b {
        assert lt(b, a);
      }
    }
  }

  /** No element sorts before an element to its left. */
  predicate Sorted<T>(s: seq<T>, lt: (T, T) -> bool)
  {
    forall i, j :: 0 <= i < j < |s| ==> !lt(s[j], s[i])
  }

  /** Places `x` before the first element that does not sort before it. */
  function Insert<T>(x: T, s: seq<T>, lt: (T, T) -> bool): (r: seq<T>)
    ensures |r| == |s| + 1
    ensures multiset(r) == multiset(s) + multiset{x}
  {
    if |s| == 0 || !lt(s[0], x) then [x] + s
    else
      assert s == [s[0]] + s[1..];
      [s[0]] + Insert(x, s[1..], lt)
  }

  /** `s.slice().sort(cmp)`, as a stable insertion sort. */
  function Sort<T>(s: seq<T>, lt: (T, T) -> bool): (r: seq<T>)
    ensures |r| == |s|
    ensures multiset(r) == multiset(s)
  {
    if |s| == 0 then []
    else
      assert s == [s[0]] + s[1..];
      Insert(s[0], Sort(s[1..], lt), lt)
  }

  lemma {:induction false} InsertSorted<T(!new)>(x: T, s: seq<T>, lt: (T, T) -> bool)
    requires StrictWeakOrder(lt)
    requires Sorted(s, lt)
    ensures Sorted(Insert(x, s, lt), lt)
  {
    if |s| == 0 || !lt(s[0], x) {
      forall j | 0 <= j < |s| ensures !lt(s[j], x) {
        if j > 0 {
          assert !lt(s[j], s[0]);
        }
      }
    } else {
      assert Sorted(s[1..], lt);
      InsertSorted(x, s[1..], lt);
      var r := Insert(x, s[1..], lt);
      assert !lt(x, s[0]);
      forall k | 0 <= k < |r| ensures !lt(r[k], s[0]) {
        assert r[k] in multiset(s[1..]) + multiset{x};
        if r[k] != x {
          assert r[k] in s[1..];
          var m :| 0 <= m < |s[1..]| && s[1..][m] == r[k];
          assert s[m + 1] == r[k];
        }
      }
    }
  }

  /** The sort yields a sorted permutation of its input. */
  lemma {:induction false} SortSorted<T(!new)>(s: seq<T>, lt: (T, T) -> bool)
    requires StrictWeakOrder(lt)
    ensures Sorted(Sort(s, lt), lt)
    ensures multiset(Sort(s, lt)) == multiset(s)
  {
    if |s| > 0 {
      SortSorted(s[1..], lt);
      InsertSorted(s[0], Sort(s[1..], lt), lt);
    }
  }

  /** Sorting an already sorted sequence leaves it unchanged (whatever `lt` is). */
  lemma {:induction false} SortOfSorted<T>(s: seq<T>, lt: (T, T) -> bool)
    requires Sorted(s, lt)
    ensures Sort(s, lt) == s
  {
    if |s| > 0 {
      assert Sorted(s[1..], lt);
      SortOfSorted(s[1..], lt);
      assert s == [s[0]] + s[1..];
    }
  }

  lemma MultisetTail<T>(s: seq<T>)
    requires |s| > 0
    ensures multiset(s[1..]) == multiset(s) - multiset{s[0]}
  {
    assert s == [s[0]] + s[1..];
  }

  /** The first elements of two sorted arrangements of the same elements agree. */
  lemma SortedSameHead<T>(a: seq<T>, b: seq<T>, lt: (T, T) -> bool)
    requires |a| > 0
    requires Sorted(a, lt) && Sorted(b, lt)
    requires multiset(a) == multiset(b)
    requires forall x, y :: x in a && y in a && x != y ==> lt(x, y) || lt(y, x)
    ensures |b| > 0 && a[0] == b[0]
  {
    assert a[0] in multiset(b);
    var k :| 0 <= k < |b| && b[k] == a[0];
    assert b[0] in multiset(a);
    var m :| 0 <= m < |a| && a[m] == b[0];
    if k != 0 && m != 0 {
      assert !lt(b[k], b[0]);
      assert !lt(a[m], a[0]);
    }
  }

  /** Two sorted arrangements of the same elements coincide when the comparator
      orders every pair of distinct elements: the sorted result is unique. */
  lemma {:induction false} SortedUnique<T>(a: seq<T>, b: seq<T>, lt: (T, T) -> bool)
    requires Sorted(a, lt) && Sorted(b, lt)
    requires multiset(a) == multiset(b)
    requires forall x, y :: x in a && y in a && x != y ==> lt(x, y) || lt(y, x)
    ensures a == b
    decreases |a|
  {
    if |a| == 0 {
      assert |b| == |multiset(b)| == 0;
    } else {
      SortedSameHead(a, b, lt);
      assert multiset(a[1..]) == multiset(b[1..]) by {
        MultisetTail(a);
        MultisetTail(b);
      }
      assert Sorted(a[1..], lt) && Sorted(b[1..], lt);
      assert forall x, y :: x in a[1..] && y in a[1..] && x != y ==> lt(x, y) || lt(y, x) by {
        assert forall x :: x in a[1..] ==> x in a;
      }
      SortedUnique(a[1..], b[1..], lt);
      assert a == [a[0]] + a[1..];
      assert b == [b[0]] + b[1..];
    }
  }

  /** Two sorted pieces whose elements are in order across the seam concatenate
      to a sorted sequence. */
  lemma SortedAppend<T>(a: seq<T>, b: seq<T>, lt: (T, T) -> bool)
    requires Sorted(a, lt) && Sorted(b, lt)
    requires forall x, y :: x in a && y in b ==> !lt(y, x)
    ensures Sorted(a + b, lt)
  {
    forall i, j | 0 <= i < j < |a + b| ensures !lt((a + b)[j], (a + b)[i]) {
      if j < |a| {
      } else if i >= |a| {
        assert (a + b)[i] == b[i - |a|] && (a + b)[j] == b[j - |a|];
      } else {
        assert (a + b)[i] == a[i] && (a + b)[j] == b[j - |a|];
      }
    }
  }

  /** Two duplicate-free sequences with no element in common concatenate to
      a duplicate-free sequence. */
  lemma NoDupAppend<T>(a: seq<T>, b: seq<T>)
    requires NoDup(a) && NoDup(b)
    requires forall i, j :: 0 <= i < |a| && 0 <= j < |b| ==> a[i] != b[j]
    ensures NoDup(a + b)
  {
    forall i, j | 0 <= i < j < |a + b| ensures (a + b)[i] != (a + b)[j] {
      if j < |a| {
        assert (a + b)[i] == a[i] && (a + b)[j] == a[j];
      } else if i >= |a| {
        assert (a + b)[i] == b[i - |a|] && (a + b)[j] == b[j - |a|];
      } else {
        assert (a + b)[i] == a[i] && (a + b)[j] == b[j - |a|];
      }
    }
  }

  /** A filter every element passes keeps the sequence as it is. */
  lemma {:induction false} FilterAll<T(!new)>(s: seq<T>, p: T -> bool)
    requires forall i :: 0 <= i < |s| ==> p(s[i])
    ensures Filter(s, p) == s
    decreases |s|
  {
    if |s| > 0 {
      FilterAll(s[..|s| - 1], p);
      assert s == s[..|s| - 1] + [s[|s| - 1]];
    }
  }

  /** Nothing passes a filter no element satisfies. */
  lemma {:induction false} FilterNone<T(!new)>(s: seq<T>, p: T -> bool)
    requires forall i :: 0 <= i < |s| ==> !p(s[i])
    ensures Filter(s, p) == []
    decreases |s|
  {
    if |s| > 0 {
      FilterNone(s[..|s| - 1], p);
    }
  }

  /** One more element at the end of the input of `Dedupe(Filter(·, p))`: the
      step of a loop that adds each matching element to a set. */
  lemma DedupeFilterSnoc<T(!new)>(s: seq<T>, x: T, p: T -> bool)
    ensures var d := Dedupe(Filter(s, p));
      Dedupe(Filter(s + [x], p)) == if p(x) && x !in d then d + [x] else d
  {
    assert (s + [x])[..|s + [x]| - 1] == s;
    var f := Filter(s, p);
    if p(x) {
      assert Filter(s + [x], p) == f + [x];
      assert (f + [x])[..|f + [x]| - 1] == f;
    } else {
      assert Filter(s + [x], p) == f + [];
      assert f + [] == f;
    }
  }

  lemma SliceSnoc<T>(s: seq<T>, i: nat)
    requires i < |s|
    ensures s[..i + 1] == s[..i] + [s[i]]
  {
  }

  lemma SliceAll<T>(s: seq<T>)
    ensures s[..|s|] == s
  {
  }

  /** A rearrangement of a duplicate-free sequence is duplicate-free. */
  lemma NoDupPermutation<T>(a: seq<T>, b: seq<T>)
    requires NoDup(a) && multiset(a) == multiset(b)
    ensures NoDup(b)
  {
    forall i, j | 0 <= i < j < |b| ensures b[i] != b[j] {
      if b[i] == b[j] {
        assert multiset(b)[b[i]] >= 2 by {
          assert b == b[..i] + [b[i]] + b[i + 1..j] + [b[j]] + b[j + 1..];
        }
        NoDupCount(a, b[i]);
      }
    }
  }

  /** An element occurs at most once in a duplicate-free sequence. */
  lemma {:induction false} NoDupCount<T>(a: seq<T>, x: T)
    requires NoDup(a)
    ensures multiset(a)[x] <= 1
  {
    if |a| > 0 {
      assert a == [a[0]] + a[1..];
      assert NoDup(a[1..]);
      NoDupCount(a[1..], x);
      if a[0] == x {
        assert x !in a[1..];
      }
    }
  }
}
