/**
 * A stable sort under a comparison that is a total preorder, as `Array.prototype.sort`
 * with a consistent comparator is required to behave: the result is ordered, holds the same
 * elements, and elements the comparison cannot tell apart keep their original order.
 */
module Sorting {

  /** `le(a, b)` means that `a` may come before `b`. */
  ghost predicate TotalPreorder<T(!new)>(le: (T, T) -> bool) {
    && (forall a, b :: le(a, b) || le(b, a))
    && (forall a, b, c :: le(a, b) && le(b, c) ==> le(a, c))
  }

  ghost predicate SortedBy<T>(le: (T, T) -> bool, s: seq<T>) {
    forall i, j :: 0 <= i < j < |s| ==> le(s[i], s[j])
  }

  predicate Equivalent<T>(le: (T, T) -> bool, a: T, b: T) {
    le(a, b) && le(b, a)
  }

  /** The elements of `s` that `le` cannot tell apart from `x`, in the order `s` has them. */
  function EquivalentsOf<T>(s: seq<T>, x: T, le: (T, T) -> bool): (r: seq<T>)
    ensures |r| <= |s|
    ensures forall k :: 0 <= k < |r| ==> Equivalent(le, r[k], x)
  {
    if s == [] then []
    else (if Equivalent(le, s[0], x) then [s[0]] else []) + EquivalentsOf(s[1..], x, le)
  }

  /** Puts `x` in front of the first element it may precede. */
  function Insert<T>(x: T, s: seq<T>, le: (T, T) -> bool): (r: seq<T>)
    ensures multiset(r) == multiset(s) + multiset{x}
  {
    if s == [] then [x]
    else if le(x, s[0]) then [x] + s
    else
      assert s == [s[0]] + s[1..];
      [s[0]] + Insert(x, s[1..], le)
  }

  /** Insertion sort: each element is inserted, from the last to the first, into the sorted rest. */
  function Sort<T>(s: seq<T>, le: (T, T) -> bool): (r: seq<T>)
    ensures multiset(r) == multiset(s)
  {
    if s == [] then []
    else
      assert s == [s[0]] + s[1..];
      Insert(s[0], Sort(s[1..], le), le)
  }

  lemma {:induction false} InsertSorted<T(!new)>(x: T, s: seq<T>, le: (T, T) -> bool)
    requires TotalPreorder(le) && SortedBy(le, s)
    ensures SortedBy(le, Insert(x, s, le))
    ensures Insert(x, s, le) != [] && (Insert(x, s, le)[0] == x || (s != [] && Insert(x, s, le)[0] == s[0]))
  {
    if s != [] && !le(x, s[0]) {
      var t := Insert(x, s[1..], le);
      InsertSorted(x, s[1..], le);
      var r := [s[0]] + t;
      assert le(s[0], x);
      forall j | 0 < j < |r| ensures le(r[0], r[j]) {
        assert r[j] in multiset(t);
        assert r[j] == x || r[j] in multiset(s[1..]);
        if r[j] != x {
          assert r[j] in s[1..];
        }
      }
    } else if s != [] {
      var r := [x] + s;
      forall j | 0 < j < |r| ensures le(r[0], r[j]) {
        if j > 1 {
          assert le(s[0], s[j - 1]);
        }
      }
    }
  }

  /** The sort orders its result. */
  lemma {:induction false} SortSorted<T(!new)>(s: seq<T>, le: (T, T) -> bool)
    requires TotalPreorder(le)
    ensures SortedBy(le, Sort(s, le))
  {
    if s != [] {
      SortSorted(s[1..], le);
      InsertSorted(s[0], Sort(s[1..], le), le);
    }
  }

  lemma {:induction false} InsertStable<T(!new)>(x: T, s: seq<T>, y: T, le: (T, T) -> bool)
    requires TotalPreorder(le)
    ensures EquivalentsOf(Insert(x, s, le), y, le)
         == (if Equivalent(le, x, y) then [x] else []) + EquivalentsOf(s, y, le)
  {
    if s == [] {
    } else if le(x, s[0]) {
      assert ([x] + s)[1..] == s;
    } else {
      InsertStable(x, s[1..], y, le);
      // s[0] and x cannot both be equivalent to y, or x would be allowed before s[0]
      assert !(Equivalent(le, s[0], y) && Equivalent(le, x, y));
      InsertStableStep(x, s, y, le);
    }
  }

  /** The step of `InsertStable` where `x` moves past the first element. */
  lemma InsertStableStep<T>(x: T, s: seq<T>, y: T, le: (T, T) -> bool)
    requires s != [] && !le(x, s[0])
    requires !(Equivalent(le, s[0], y) && Equivalent(le, x, y))
    requires EquivalentsOf(Insert(x, s[1..], le), y, le)
          == (if Equivalent(le, x, y) then [x] else []) + EquivalentsOf(s[1..], y, le)
    ensures EquivalentsOf(Insert(x, s, le), y, le)
         == (if Equivalent(le, x, y) then [x] else []) + EquivalentsOf(s, y, le)
  {
    var rest := Insert(x, s[1..], le);
    var head := if Equivalent(le, s[0], y) then [s[0]] else [];
    var mine := if Equivalent(le, x, y) then [x] else [];
    var r := [s[0]] + rest;
    assert Insert(x, s, le) == r;
    assert r[0] == s[0] && r[1..] == rest;
    assert EquivalentsOf(r, y, le) == head + EquivalentsOf(rest, y, le);
    assert EquivalentsOf(s, y, le) == head + EquivalentsOf(s[1..], y, le);
    var tail := EquivalentsOf(s[1..], y, le);
    if head == [] {
      assert head + (mine + tail) == mine + tail;
      assert head + tail == tail;
    } else {
      assert mine == [];
      assert mine + tail == tail;
      assert mine + (head + tail) == head + tail;
    }
  }

  /** The sort is stable: for every `y`, the elements equivalent to `y` keep their relative order. */
  lemma {:induction false} SortStable<T(!new)>(s: seq<T>, y: T, le: (T, T) -> bool)
    requires TotalPreorder(le)
    ensures EquivalentsOf(Sort(s, le), y, le) == EquivalentsOf(s, y, le)
  {
    if s != [] {
      SortStable(s[1..], y, le);
      InsertStable(s[0], Sort(s[1..], le), y, le);
    }
  }
}
