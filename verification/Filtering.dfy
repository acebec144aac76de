/**
 * `Array.prototype.filter` on an array that nobody mutates during the call:
 * visit the elements front to back and keep, in their original order, those
 * for which the callback returns true.  The callback is a pure function here.
 */
module Filtering {

  /** What the filter keeps of one element: the element itself if the callback accepts it, nothing otherwise. */
  function KeepOne<T>(x: T, keep: T -> bool): seq<T> {
    if keep(x) then [x] else []
  }

  /** The elements of `s` that satisfy `keep`, in the order they appear in `s`. */
  function Filter<T>(s: seq<T>, keep: T -> bool): (r: seq<T>)
    ensures |r| <= |s|
  {
    if s == [] then [] else KeepOne(s[0], keep) + Filter(s[1..], keep)
  }

  /** No element occurs twice. */
  ghost predicate Distinct<T>(s: seq<T>) {
    forall i, j :: 0 <= i < j < |s| ==> s[i] != s[j]
  }

  /** `a` is `b` with some elements dropped and the rest kept in their relative order. */
  ghost predicate IsSubsequence<T>(a: seq<T>, b: seq<T>)
    decreases |b|
  {
    if a == [] then true
    else if b == [] then false
    else (a[0] == b[0] && IsSubsequence(a[1..], b[1..])) || IsSubsequence(a, b[1..])
  }

  /** An element is in the result exactly when it is in the input and the callback accepts it. */
  lemma {:induction false} FilterMembers<T>(s: seq<T>, keep: T -> bool, x: T)
    ensures x in Filter(s, keep) <==> x in s && keep(x)
  {
    if s != [] {
      FilterMembers(s[1..], keep, x);
      assert s == [s[0]] + s[1..];
    }
  }

  /**
   * The filter keeps every copy of an accepted element and no copy of a
   * rejected one: as multisets, the result is the input restricted to the
   * accepted elements.
   */
  lemma {:induction false} FilterCount<T>(s: seq<T>, keep: T -> bool, x: T)
    ensures multiset(Filter(s, keep))[x] == if keep(x) then multiset(s)[x] else 0
  {
    if s != [] {
      var rest := Filter(s[1..], keep);
      FilterCount(s[1..], keep, x);
      assert s == [s[0]] + s[1..];
      assert multiset(s)[x] == multiset([s[0]])[x] + multiset(s[1..])[x];
      if keep(s[0]) {
        assert multiset(Filter(s, keep))[x] == multiset([s[0]])[x] + multiset(rest)[x];
      } else {
        assert Filter(s, keep) == rest;
      }
    }
  }

  /** The result keeps the input's relative order. */
  lemma {:induction false} FilterSubsequence<T>(s: seq<T>, keep: T -> bool)
    ensures IsSubsequence(Filter(s, keep), s)
  {
    if s != [] {
      FilterSubsequence(s[1..], keep);
      var rest := Filter(s[1..], keep);
      if keep(s[0]) {
        assert ([s[0]] + rest)[1..] == rest;
      } else {
        assert Filter(s, keep) == rest;
      }
    }
  }

  /** Filtering a concatenation filters each part and concatenates the results. */
  lemma {:induction false} FilterConcat<T>(a: seq<T>, b: seq<T>, keep: T -> bool)
    ensures Filter(a + b, keep) == Filter(a, keep) + Filter(b, keep)
  {
    if a == [] {
      assert a + b == b;
    } else {
      var ab := a + b;
      assert ab[0] == a[0] && ab[1..] == a[1..] + b;
      FilterConcat(a[1..], b, keep);
      var head, restA, restB := KeepOne(a[0], keep), Filter(a[1..], keep), Filter(b, keep);
      assert Filter(ab, keep) == head + (restA + restB);
      assert head + (restA + restB) == (head + restA) + restB;
    }
  }

  /** When the callback accepts every element, nothing is dropped. */
  lemma {:induction false} FilterKeepsAll<T>(s: seq<T>, keep: T -> bool)
    requires forall i :: 0 <= i < |s| ==> keep(s[i])
    ensures Filter(s, keep) == s
  {
    if s != [] {
      FilterKeepsAll(s[1..], keep);
    }
  }

  /** When the callback rejects every element, nothing is kept. */
  lemma {:induction false} FilterKeepsNone<T>(s: seq<T>, keep: T -> bool)
    requires forall i :: 0 <= i < |s| ==> !keep(s[i])
    ensures Filter(s, keep) == []
  {
    if s != [] {
      FilterKeepsNone(s[1..], keep);
    }
  }

  /** Filtering a filtered sequence again with the same callback changes nothing. */
  lemma FilterIdempotent<T>(s: seq<T>, keep: T -> bool)
    ensures Filter(Filter(s, keep), keep) == Filter(s, keep)
  {
    var r := Filter(s, keep);
    forall i | 0 <= i < |r|
      ensures keep(r[i])
    {
      FilterMembers(s, keep, r[i]);
    }
    FilterKeepsAll(r, keep);
  }

  /** Two callbacks that agree on every element of `s` filter `s` identically. */
  lemma {:induction false} FilterAgree<T>(s: seq<T>, keep1: T -> bool, keep2: T -> bool)
    requires forall i :: 0 <= i < |s| ==> keep1(s[i]) == keep2(s[i])
    ensures Filter(s, keep1) == Filter(s, keep2)
  {
    if s != [] {
      FilterAgree(s[1..], keep1, keep2);
    }
  }

  /** A stricter callback keeps a subsequence of what a looser one keeps. */
  lemma {:induction false} FilterMonotone<T>(s: seq<T>, strict: T -> bool, loose: T -> bool)
    requires forall i :: 0 <= i < |s| && strict(s[i]) ==> loose(s[i])
    ensures IsSubsequence(Filter(s, strict), Filter(s, loose))
  {
    if s != [] {
      FilterMonotone(s[1..], strict, loose);
      var restStrict := Filter(s[1..], strict);
      var restLoose := Filter(s[1..], loose);
      if strict(s[0]) {
        assert ([s[0]] + restStrict)[1..] == restStrict;
        assert ([s[0]] + restLoose)[1..] == restLoose;
      } else if loose(s[0]) {
        assert Filter(s, strict) == restStrict;
        assert Filter(s, loose) == [s[0]] + restLoose;
        if restStrict != [] {
          assert ([s[0]] + restLoose)[1..] == restLoose;
        }
      } else {
        assert Filter(s, strict) == restStrict && Filter(s, loose) == restLoose;
      }
    }
  }

  /** Filtering a sequence without duplicates yields a sequence without duplicates. */
  lemma {:induction false} FilterDistinct<T>(s: seq<T>, keep: T -> bool)
    requires Distinct(s)
    ensures Distinct(Filter(s, keep))
  {
    if s != [] {
      var rest := Filter(s[1..], keep);
      assert Distinct(s[1..]) by {
        forall i, j | 0 <= i < j < |s[1..]| ensures s[1..][i] != s[1..][j] {
          assert s[1..][i] == s[i + 1] && s[1..][j] == s[j + 1];
        }
      }
      FilterDistinct(s[1..], keep);
      if keep(s[0]) {
        FilterMembers(s[1..], keep, s[0]);
        assert s[0] !in s[1..] by {
          forall j | 0 <= j < |s[1..]| ensures s[1..][j] != s[0] {
            assert s[1..][j] == s[j + 1];
          }
        }
        var r := [s[0]] + rest;
        forall i, j | 0 <= i < j < |r| ensures r[i] != r[j] {
          if i == 0 {
            assert r[j] == rest[j - 1] && r[j] in rest;
          } else {
            assert r[i] == rest[i - 1] && r[j] == rest[j - 1];
          }
        }
      } else {
        assert Filter(s, keep) == rest;
      }
    }
  }
}
