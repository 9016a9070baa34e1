/**
 * The `java.util.stream.Stream` operations the pipelines chain, on finite
 * sequential streams: `filter`, `map`, `skip`, `findFirst`, `count` and
 * `sorted` (natural order of strings). A stream is the sequence of elements
 * it delivers, in encounter order.
 */
module Streams {
  import opened Wrappers
  import opened JavaString

  // ---------------------------------------------------------------------------
  // filter

  /** `filter(p)`: the elements that satisfy `p`, in encounter order. */
  function Filter<T>(s: seq<T>, p: T -> bool): (r: seq<T>)
    ensures |r| <= |s|
    ensures forall i :: 0 <= i < |r| ==> p(r[i])
  {
    if s == [] then []
    else Filter(s[..|s| - 1], p) + (if p(s[|s| - 1]) then [s[|s| - 1]] else [])
  }

  /** `r` is `s` with some elements removed and the rest kept in order. */
  predicate IsSubsequence<T(==)>(r: seq<T>, s: seq<T>)
    decreases |s|
  {
    if r == [] then true
    else if s == [] then false
    else (r[|r| - 1] == s[|s| - 1] && IsSubsequence(r[..|r| - 1], s[..|s| - 1]))
         || IsSubsequence(r, s[..|s| - 1])
  }

  /** Filtering keeps the order of what it keeps. */
  lemma {:induction false} FilterIsSubsequence<T>(s: seq<T>, p: T -> bool)
    ensures IsSubsequence(Filter(s, p), s)
  {
    if s != [] {
      var init := s[..|s| - 1];
      FilterIsSubsequence(init, p);
      var r := Filter(s, p);
      if p(s[|s| - 1]) {
        assert r[..|r| - 1] == Filter(init, p);
      } else {
        assert r == Filter(init, p);
      }
    }
  }

  /**
   * Filtering keeps every occurrence of an element that satisfies `p` and no
   * occurrence of one that does not.
   */
  lemma {:induction false} FilterCounts<T>(s: seq<T>, p: T -> bool)
    ensures forall x :: multiset(Filter(s, p))[x] == if p(x) then multiset(s)[x] else 0
  {
    if s != [] {
      var init := s[..|s| - 1];
      FilterCounts(init, p);
      assert s == init + [s[|s| - 1]];
    }
  }

  /** Filtering a concatenation filters each part. */
  lemma {:induction false} FilterAppend<T>(a: seq<T>, b: seq<T>, p: T -> bool)
    ensures Filter(a + b, p) == Filter(a, p) + Filter(b, p)
    decreases |b|
  {
    if b == [] {
      assert a + b == a;
    } else {
      var init, last := b[..|b| - 1], b[|b| - 1];
      FilterAppend(a, init, p);
      var ab := a + b;
      assert ab[..|ab| - 1] == a + init && ab[|ab| - 1] == last;
      var kept := if p(last) then [last] else [];
      assert Filter(ab, p) == Filter(a + init, p) + kept;
      assert Filter(b, p) == Filter(init, p) + kept;
    }
  }

  /** Nothing passes a filter that no element satisfies. */
  lemma {:induction false} FilterNone<T>(s: seq<T>, p: T -> bool)
    requires forall i :: 0 <= i < |s| ==> !p(s[i])
    ensures Filter(s, p) == []
  {
    if s != [] {
      FilterNone(s[..|s| - 1], p);
    }
  }

  /** Everything passes a filter that every element satisfies. */
  lemma {:induction false} FilterAll<T>(s: seq<T>, p: T -> bool)
    requires forall i :: 0 <= i < |s| ==> p(s[i])
    ensures Filter(s, p) == s
  {
    if s != [] {
      FilterAll(s[..|s| - 1], p);
      assert s == s[..|s| - 1] + [s[|s| - 1]];
    }
  }

  /** Filtering from the front: the first element, then the rest. */
  lemma FilterCons<T>(x: T, s: seq<T>, p: T -> bool)
    ensures Filter([x] + s, p) == (if p(x) then [x] else []) + Filter(s, p)
  {
    FilterAppend([x], s, p);
    assert Filter([x], p) == (if p(x) then [x] else []) by {
      assert [x][..0] == [];
    }
  }

  /** The positions of `s` whose element satisfies `p`. */
  function Positions<T>(s: seq<T>, p: T -> bool): set<int> {
    set i | 0 <= i < |s| && p(s[i])
  }

  /** The number of elements filtering keeps is the number of positions that satisfy `p`. */
  lemma {:induction false} FilterLength<T>(s: seq<T>, p: T -> bool)
    ensures |Filter(s, p)| == |Positions(s, p)|
  {
    if s == [] {
      assert Positions(s, p) == {};
    } else {
      var n := |s| - 1;
      var init := s[..n];
      FilterLength(init, p);
      if p(s[n]) {
        assert Positions(s, p) == Positions(init, p) + {n};
        assert n !in Positions(init, p);
      } else {
        assert Positions(s, p) == Positions(init, p);
      }
    }
  }

  // ---------------------------------------------------------------------------
  // map, skip, findFirst

  /** `map(f)`: `f` applied to every element, in encounter order. */
  function Map<T, U>(s: seq<T>, f: T -> U): (r: seq<U>)
    ensures |r| == |s|
    ensures forall i :: 0 <= i < |s| ==> r[i] == f(s[i])
  {
    seq(|s|, i requires 0 <= i < |s| => f(s[i]))
  }

  function Compose<T, U>(p: U -> bool, f: T -> U): T -> bool {
    x => p(f(x))
  }

  /**
   * Mapping and then filtering keeps the images of exactly the elements
   * whose image passes, in their original relative order.
   */
  lemma {:induction false} FilterMap<T, U>(s: seq<T>, f: T -> U, p: U -> bool)
    ensures Filter(Map(s, f), p) == Map(Filter(s, Compose(p, f)), f)
  {
    if s != [] {
      var n := |s| - 1;
      var init := s[..n];
      FilterMap(init, f, p);
      assert Map(s, f)[..n] == Map(init, f);
      var kept := Filter(init, Compose(p, f));
      if p(f(s[n])) {
        assert Map(kept + [s[n]], f) == Map(kept, f) + [f(s[n])];
      }
    }
  }

  /**
   * `skip(n)`: the elements after the first `n`; nothing when the stream has
   * fewer than `n` elements.
   */
  function Skip<T>(s: seq<T>, n: nat): (r: seq<T>)
    ensures |r| == if n <= |s| then |s| - n else 0
    ensures forall i :: 0 <= i < |r| ==> r[i] == s[n + i]
  {
    if n <= |s| then s[n..] else []
  }

  /** `findFirst()`: the first element, or an empty `Optional`. */
  function FindFirst<T>(s: seq<T>): (r: Option<T>)
    ensures r.None? <==> s == []
    ensures r.Some? ==> r.value == s[0]
  {
    if s == [] then None else Some(s[0])
  }

  // ---------------------------------------------------------------------------
  // sorted()

  /** Ascending in the natural order of strings. */
  predicate Sorted(s: seq<string>) {
    forall i, j :: 0 <= i < j < |s| ==> LessEq(s[i], s[j])
  }

  /** Insertion of one string into a sequence, before the first element it does not follow. */
  function Insert(x: string, s: seq<string>): (r: seq<string>)
    ensures multiset(r) == multiset(s) + multiset{x}
  {
    if s == [] then [x]
    else if LessEq(x, s[0]) then [x] + s
    else
      assert s == [s[0]] + s[1..];
      [s[0]] + Insert(x, s[1..])
  }

  /**
   * `sorted()` on a stream of strings. Java sorts objects stably; since two
   * strings that compare equal are identical, the result is determined by
   * the order alone (see SortedUnique).
   */
  function Sort(s: seq<string>): (r: seq<string>)
    ensures multiset(r) == multiset(s)
  {
    if s == [] then []
    else
      assert s == [s[0]] + s[1..];
      Insert(s[0], Sort(s[1..]))
  }

  /** A lower bound of `x` and of every element of `s` bounds every element of the insertion. */
  lemma InsertBound(y: string, x: string, s: seq<string>)
    requires LessEq(y, x) && forall k :: 0 <= k < |s| ==> LessEq(y, s[k])
    ensures forall j :: 0 <= j < |Insert(x, s)| ==> LessEq(y, Insert(x, s)[j])
  {
    var t := Insert(x, s);
    forall j | 0 <= j < |t| ensures LessEq(y, t[j]) {
      assert t[j] in multiset(t);
      if t[j] != x {
        assert t[j] in multiset(s);
        var k :| 0 <= k < |s| && s[k] == t[j];
      }
    }
  }

  lemma {:induction false} InsertSorted(x: string, s: seq<string>)
    requires Sorted(s)
    ensures Sorted(Insert(x, s))
  {
    if s == [] {
    } else if LessEq(x, s[0]) {
      var r := [x] + s;
      forall i, j | 0 <= i < j < |r| ensures LessEq(r[i], r[j]) {
        if i == 0 && j > 1 {
          LessEqTransitive(x, s[0], s[j - 1]);
        }
      }
    } else {
      LessEqTotal(x, s[0]);
      var tail := s[1..];
      InsertSorted(x, tail);
      var t := Insert(x, tail);
      assert forall k :: 0 <= k < |tail| ==> LessEq(s[0], tail[k]) by {
        forall k | 0 <= k < |tail| ensures LessEq(s[0], tail[k]) {
          assert tail[k] == s[k + 1];
        }
      }
      InsertBound(s[0], x, tail);
      var r := [s[0]] + t;
      assert Insert(x, s) == r;
      forall i, j | 0 <= i < j < |r| ensures LessEq(r[i], r[j]) {
        if i == 0 {
          assert r[j] == t[j - 1];
        } else {
          assert r[i] == t[i - 1] && r[j] == t[j - 1];
        }
      }
    }
  }

  /** `sorted()` yields an ascending permutation of its input. */
  lemma {:induction false} SortSorted(s: seq<string>)
    ensures Sorted(Sort(s)) && multiset(Sort(s)) == multiset(s)
  {
    if s != [] {
      SortSorted(s[1..]);
      InsertSorted(s[0], Sort(s[1..]));
    }
  }

  /** Two ascending arrangements of one multiset start with the same string. */
  lemma SortedSameHead(a: seq<string>, b: seq<string>)
    requires Sorted(a) && Sorted(b) && multiset(a) == multiset(b) && a != []
    ensures b != [] && a[0] == b[0]
  {
    assert a[0] in multiset(b);
    var j :| 0 <= j < |b| && b[j] == a[0];
    assert b[0] in multiset(a);
    var i :| 0 <= i < |a| && a[i] == b[0];
    if i == 0 { LessEqReflexive(a[0]); }
    if j == 0 { LessEqReflexive(b[0]); }
    assert LessEq(a[0], b[0]) && LessEq(b[0], a[0]);
    LessEqAntisymmetric(a[0], b[0]);
  }

  /** Removing the head of a sequence removes one occurrence from its multiset. */
  lemma MultisetTail<T>(a: seq<T>)
    requires a != []
    ensures multiset(a[1..]) == multiset(a) - multiset{a[0]}
  {
    assert a == [a[0]] + a[1..];
    assert multiset(a) == multiset{a[0]} + multiset(a[1..]);
  }

  /** There is only one ascending arrangement of a multiset of strings. */
  lemma {:induction false} SortedUnique(a: seq<string>, b: seq<string>)
    requires Sorted(a) && Sorted(b) && multiset(a) == multiset(b)
    ensures a == b
    decreases |a|
  {
    if a == [] {
      assert |multiset(b)| == 0;
    } else {
      SortedSameHead(a, b);
      MultisetTail(a);
      MultisetTail(b);
      assert Sorted(a[1..]) && Sorted(b[1..]);
      SortedUnique(a[1..], b[1..]);
      assert a == [a[0]] + a[1..] && b == [b[0]] + b[1..];
    }
  }

  /** Any ascending permutation of `s` is what `sorted()` yields. */
  lemma SortIsUnique(s: seq<string>, t: seq<string>)
    requires Sorted(t) && multiset(t) == multiset(s)
    ensures Sort(s) == t
  {
    SortSorted(s);
    SortedUnique(Sort(s), t);
  }

  /** What survives a filter of an ascending sequence is still ascending. */
  lemma {:induction false} FilterSorted(s: seq<string>, p: string -> bool)
    requires Sorted(s)
    ensures Sorted(Filter(s, p))
  {
    if s != [] {
      var n := |s| - 1;
      var init := s[..n];
      FilterSorted(init, p);
      var f := Filter(init, p);
      if p(s[n]) {
        FilterCounts(init, p);
        forall i | 0 <= i < |f| ensures LessEq(f[i], s[n]) {
          assert f[i] in multiset(f);
          assert f[i] in multiset(init);
          var k :| 0 <= k < n && init[k] == f[i];
        }
      }
    }
  }

  /** Sorting and then filtering gives what filtering and then sorting gives. */
  lemma SortThenFilter(s: seq<string>, p: string -> bool)
    ensures Filter(Sort(s), p) == Sort(Filter(s, p))
  {
    SortSorted(s);
    FilterSorted(Sort(s), p);
    FilterCounts(Sort(s), p);
    FilterCounts(s, p);
    assert multiset(Filter(Sort(s), p)) == multiset(Filter(s, p));
    SortIsUnique(Filter(s, p), Filter(Sort(s), p));
  }
}
