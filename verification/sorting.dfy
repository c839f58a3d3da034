/**
 * `List.sort(comparator)`: a stable sort. The model is insertion sort on
 * sequences; it is proved sorted, a permutation of its input and stable, and
 * those three properties determine the result, so any stable sort (the
 * library's merge sort included) gives the same sequence.
 */
module Sorting {

  /** `le(a, b)` is `compare(a, b) <= 0` for a comparator that is total and transitive. */
  ghost predicate TotalPreorder<T(!new)>(le: (T, T) -> bool) {
    && (forall a, b :: le(a, b) || le(b, a))
    && (forall a, b, c :: le(a, b) && le(b, c) ==> le(a, c))
  }

  /** The comparator calls `a` and `b` equal. */
  predicate Equivalent<T>(le: (T, T) -> bool, a: T, b: T) {
    le(a, b) && le(b, a)
  }

  /** Every element is at most every later element. */
  predicate Sorted<T>(s: seq<T>, le: (T, T) -> bool) {
    forall i, j :: 0 <= i < j < |s| ==> le(s[i], s[j])
  }

  /** `x` placed before the first element it is not greater than. */
  function Insert<T>(x: T, t: seq<T>, le: (T, T) -> bool): seq<T> {
    if |t| == 0 then [x]
    else if le(x, t[0]) then [x] + t
    else [t[0]] + Insert(x, t[1..], le)
  }

  /** Insertion sort: the tail sorted, then the head inserted. */
  function SortBy<T>(s: seq<T>, le: (T, T) -> bool): seq<T> {
    if |s| == 0 then [] else Insert(s[0], SortBy(s[1..], le), le)
  }

  /** The elements of `s` the comparator calls equal to `y`, in their order in `s`. */
  function EqualsOf<T>(s: seq<T>, y: T, le: (T, T) -> bool): seq<T> {
    if |s| == 0 then []
    else (if Equivalent(le, s[0], y) then [s[0]] else []) + EqualsOf(s[1..], y, le)
  }

  lemma {:induction false} InsertPermutes<T>(x: T, t: seq<T>, le: (T, T) -> bool)
    ensures multiset(Insert(x, t, le)) == multiset{x} + multiset(t)
  {
    if |t| > 0 && !le(x, t[0]) {
      InsertPermutes(x, t[1..], le);
      assert t == [t[0]] + t[1..];
    }
  }

  /** The sort is a permutation of its input. */
  lemma {:induction false} SortPermutes<T>(s: seq<T>, le: (T, T) -> bool)
    ensures multiset(SortBy(s, le)) == multiset(s)
  {
    if |s| > 0 {
      SortPermutes(s[1..], le);
      InsertPermutes(s[0], SortBy(s[1..], le), le);
      assert s == [s[0]] + s[1..];
    }
  }

  lemma {:induction false} InsertSorted<T(!new)>(x: T, t: seq<T>, le: (T, T) -> bool)
    requires TotalPreorder(le) && Sorted(t, le)
    ensures Sorted(Insert(x, t, le), le)
  {
    var r := Insert(x, t, le);
    if |t| == 0 {
    } else if le(x, t[0]) {
      forall i, j | 0 <= i < j < |r|
        ensures le(r[i], r[j])
      {
        if i == 0 && j > 1 {
          assert le(x, t[0]) && le(t[0], t[j - 1]);
        }
      }
    } else {
      var rest := Insert(x, t[1..], le);
      assert Sorted(t[1..], le);
      InsertSorted(x, t[1..], le);
      InsertPermutes(x, t[1..], le);
      assert r == [t[0]] + rest;
      forall i, j | 0 <= i < j < |r|
        ensures le(r[i], r[j])
      {
        if i == 0 {
          var z := rest[j - 1];
          assert z in multiset(rest);
          if z != x {
            assert z in t[1..];
            var k :| 0 <= k < |t[1..]| && t[1..][k] == z;
            assert t[k + 1] == z;
          }
        } else {
          assert r[i] == rest[i - 1] && r[j] == rest[j - 1];
        }
      }
    }
  }

  /** The sort's result is sorted. */
  lemma {:induction false} SortSorted<T(!new)>(s: seq<T>, le: (T, T) -> bool)
    requires TotalPreorder(le)
    ensures Sorted(SortBy(s, le), le)
  {
    if |s| > 0 {
      SortSorted(s[1..], le);
      InsertSorted(s[0], SortBy(s[1..], le), le);
    }
  }

  lemma {:induction false} InsertEqualsOf<T(!new)>(x: T, t: seq<T>, y: T, le: (T, T) -> bool)
    requires TotalPreorder(le)
    ensures EqualsOf(Insert(x, t, le), y, le) == (if Equivalent(le, x, y) then [x] else []) + EqualsOf(t, y, le)
  {
    if |t| > 0 && !le(x, t[0]) {
      var rest := Insert(x, t[1..], le);
      InsertEqualsOf(x, t[1..], y, le);
      assert Insert(x, t, le) == [t[0]] + rest;
      assert ([t[0]] + rest)[1..] == rest;
      assert Equivalent(le, x, y) ==> !Equivalent(le, t[0], y);
    }
  }

  /** Stability: the elements of any one equivalence class keep their input order. */
  lemma {:induction false} SortStable<T(!new)>(s: seq<T>, y: T, le: (T, T) -> bool)
    requires TotalPreorder(le)
    ensures EqualsOf(SortBy(s, le), y, le) == EqualsOf(s, y, le)
  {
    if |s| > 0 {
      SortStable(s[1..], y, le);
      InsertEqualsOf(s[0], SortBy(s[1..], le), y, le);
    }
  }

  lemma {:induction false} EqualsOfMembers<T>(s: seq<T>, y: T, le: (T, T) -> bool)
    ensures forall z :: z in EqualsOf(s, y, le) <==> z in s && Equivalent(le, z, y)
  {
    if |s| > 0 {
      EqualsOfMembers(s[1..], y, le);
      assert s == [s[0]] + s[1..];
    }
  }

  lemma EmptyAlike<T(!new)>(a: seq<T>, b: seq<T>, le: (T, T) -> bool)
    requires TotalPreorder(le)
    requires forall y :: EqualsOf(a, y, le) == EqualsOf(b, y, le)
    ensures |a| == 0 ==> |b| == 0
  {
    if |b| > 0 {
      EqualsOfMembers(b, b[0], le);
      assert b[0] in EqualsOf(b, b[0], le);
    }
  }

  /** Two sorted sequences that agree on every equivalence class, in order, are equal. */
  lemma {:induction false} SortedUnique<T(!new)>(a: seq<T>, b: seq<T>, le: (T, T) -> bool)
    requires TotalPreorder(le) && Sorted(a, le) && Sorted(b, le)
    requires forall y :: EqualsOf(a, y, le) == EqualsOf(b, y, le)
    ensures a == b
    decreases |a| + |b|
  {
    EmptyAlike(a, b, le);
    EmptyAlike(b, a, le);
    if |a| > 0 && |b| > 0 {
      var x, w := a[0], b[0];
      EqualsOfMembers(a, w, le);
      EqualsOfMembers(b, w, le);
      EqualsOfMembers(a, x, le);
      EqualsOfMembers(b, x, le);
      assert w in EqualsOf(b, w, le) && w in a;
      assert x in EqualsOf(a, x, le) && x in b;
      assert Equivalent(le, x, w);
      assert EqualsOf(a, x, le) == [x] + EqualsOf(a[1..], x, le);
      assert EqualsOf(b, x, le) == [w] + EqualsOf(b[1..], x, le);
      assert x == EqualsOf(a, x, le)[0] == w;
      forall y
        ensures EqualsOf(a[1..], y, le) == EqualsOf(b[1..], y, le)
      {
        var head := if Equivalent(le, x, y) then [x] else [];
        assert EqualsOf(a, y, le) == head + EqualsOf(a[1..], y, le);
        assert EqualsOf(b, y, le) == head + EqualsOf(b[1..], y, le);
        assert EqualsOf(a[1..], y, le) == EqualsOf(a, y, le)[|head|..];
      }
      assert Sorted(a[1..], le) && Sorted(b[1..], le);
      SortedUnique(a[1..], b[1..], le);
      assert a == [x] + a[1..] && b == [w] + b[1..];
    }
  }

  /**
   * The sort is the only stable sort: a sorted sequence that keeps every
   * equivalence class of `s` in its input order is `SortBy(s, le)`.
   */
  lemma TheStableSort<T(!new)>(s: seq<T>, r: seq<T>, le: (T, T) -> bool)
    requires TotalPreorder(le) && Sorted(r, le)
    requires forall y :: EqualsOf(r, y, le) == EqualsOf(s, y, le)
    ensures r == SortBy(s, le)
  {
    SortSorted(s, le);
    forall y
      ensures EqualsOf(r, y, le) == EqualsOf(SortBy(s, le), y, le)
    {
      SortStable(s, y, le);
    }
    SortedUnique(r, SortBy(s, le), le);
  }
}
