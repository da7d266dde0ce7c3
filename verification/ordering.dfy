/**
 * Orders and sorting: Python's `<` on `str`, strict total orders in general,
 * and `sorted(set(...))` as a function that inserts each element into an
 * ascending, duplicate-free sequence.
 */
module Ordering {

  /** Python's `a < b` on strings: lexicographic on code points, a proper prefix first. */
  predicate Below(a: string, b: string)
    decreases |a|
  {
    if |a| == 0 then |b| > 0
    else if |b| == 0 then false
    else if a[0] != b[0] then a[0] < b[0]
    else Below(a[1..], b[1..])
  }

  lemma {:induction false} BelowIrreflexive(a: string)
    ensures !Below(a, a)
    decreases |a|
  {
    if |a| > 0 {
      BelowIrreflexive(a[1..]);
    }
  }

  lemma {:induction false} BelowTransitive(a: string, b: string, c: string)
    requires Below(a, b) && Below(b, c)
    ensures Below(a, c)
    decreases |a|
  {
    if |a| > 0 && a[0] == b[0] && b[0] == c[0] {
      BelowTransitive(a[1..], b[1..], c[1..]);
    }
  }

  lemma {:induction false} BelowTotal(a: string, b: string)
    requires a != b
    ensures Below(a, b) || Below(b, a)
    decreases |a|
  {
    if |a| > 0 && |b| > 0 && a[0] == b[0] {
      assert a == [a[0]] + a[1..] && b == [b[0]] + b[1..];
      BelowTotal(a[1..], b[1..]);
    }
  }

  /** `a` and `b` agree on their first `k` characters, and then `a` ends or has the smaller code point while `b` goes on. */
  ghost predicate DecidesAt(a: string, b: string, k: nat)
  {
    k <= |a| && k < |b| && a[..k] == b[..k] && (k == |a| || a[k] < b[k])
  }

  lemma DecidesAtTail(a: string, b: string, k: nat)
    requires DecidesAt(a, b, k) && k > 0
    ensures a[0] == b[0] && DecidesAt(a[1..], b[1..], k - 1)
  {
    assert a[..k][0] == b[..k][0];
    assert a[1..][..k - 1] == a[..k][1..];
    assert b[1..][..k - 1] == b[..k][1..];
  }

  /** `a < b` exactly when the first position where the strings differ, or where `a` ends, is decided in `a`'s favour. */
  lemma {:induction false} BelowFirstDifference(a: string, b: string)
    ensures Below(a, b) <==> exists k: nat :: DecidesAt(a, b, k)
    decreases |a|
  {
    if Below(a, b) {
      if |a| == 0 || a[0] != b[0] {
        assert DecidesAt(a, b, 0);
      } else {
        BelowFirstDifference(a[1..], b[1..]);
        var k: nat :| DecidesAt(a[1..], b[1..], k);
        assert a[..k + 1] == [a[0]] + a[1..][..k];
        assert b[..k + 1] == [b[0]] + b[1..][..k];
        assert DecidesAt(a, b, k + 1);
      }
    }
    forall k: nat | DecidesAt(a, b, k) ensures Below(a, b) {
      if k > 0 {
        DecidesAtTail(a, b, k);
        BelowFirstDifference(a[1..], b[1..]);
      }
    }
  }

  /** `below` is irreflexive, transitive and relates any two distinct values. */
  ghost predicate StrictTotalOrder<T(!new)>(below: (T, T) -> bool)
  {
    && (forall x :: !below(x, x))
    && (forall x, y, z :: below(x, y) && below(y, z) ==> below(x, z))
    && (forall x, y :: x == y || below(x, y) || below(y, x))
  }

  lemma BelowIsStrictTotalOrder()
    ensures StrictTotalOrder(Below)
  {
    forall x: string { BelowIrreflexive(x); }
    forall x: string, y: string, z: string | Below(x, y) && Below(y, z)
      ensures Below(x, z)
    {
      BelowTransitive(x, y, z);
    }
    forall x: string, y: string | x != y
      ensures Below(x, y) || Below(y, x)
    {
      BelowTotal(x, y);
    }
  }

  /** Strictly ascending, hence without duplicates. */
  ghost predicate Ascending<T>(s: seq<T>, below: (T, T) -> bool)
  {
    forall i, j :: 0 <= i < j < |s| ==> below(s[i], s[j])
  }

  /** No value occurs twice. */
  ghost predicate Distinct<T>(s: seq<T>)
  {
    forall i, j :: 0 <= i < j < |s| ==> s[i] != s[j]
  }

  lemma AscendingIsDistinct<T(!new)>(s: seq<T>, below: (T, T) -> bool)
    requires StrictTotalOrder(below) && Ascending(s, below)
    ensures Distinct(s)
  {
  }

  /** The first element of an ascending sequence is below every other element. */
  lemma HeadIsLeast<T(!new)>(s: seq<T>, below: (T, T) -> bool, y: T)
    requires Ascending(s, below) && y in s
    ensures y == s[0] || below(s[0], y)
  {
    var k :| 0 <= k < |s| && s[k] == y;
    assert k > 0 ==> below(s[0], s[k]);
  }

  lemma EmptyIffNoElements<T>(s: seq<T>)
    ensures s == [] <==> forall y :: y !in s
  {
    if s != [] {
      assert s[0] in s;
    }
  }

  /** Adds `x` to the ascending sequence `s` unless it is already there. */
  function Insert<T(==,!new)>(x: T, s: seq<T>, below: (T, T) -> bool): (r: seq<T>)
    requires StrictTotalOrder(below) && Ascending(s, below)
    ensures Ascending(r, below)
    ensures forall y :: y in r <==> y == x || y in s
  {
    if s == [] then [x]
    else if x == s[0] then s
    else if below(x, s[0]) then
      assert forall y :: y in s ==> y == s[0] || below(s[0], y) by {
        forall y | y in s ensures y == s[0] || below(s[0], y) {
          var k :| 0 <= k < |s| && s[k] == y;
          if k > 0 { assert below(s[0], s[k]); }
        }
      }
      [x] + s
    else
      var tail := Insert(x, s[1..], below);
      assert forall y :: y in tail ==> below(s[0], y) by {
        forall y | y in tail ensures below(s[0], y) {
          if y != x {
            var k :| 1 <= k < |s| && s[k] == y;
            assert below(s[0], s[k]);
          }
        }
      }
      [s[0]] + tail
  }

  /** `sorted(set(xs))`: the distinct elements of `xs` in ascending order. */
  function SortedUnique<T(==,!new)>(xs: seq<T>, below: (T, T) -> bool): (r: seq<T>)
    requires StrictTotalOrder(below)
    ensures Ascending(r, below)
    ensures forall y :: y in r <==> y in xs
    ensures |r| <= |xs|
  {
    if xs == [] then []
    else
      var rest := SortedUnique(xs[1..], below);
      var r := Insert(xs[0], rest, below);
      assert |r| <= |rest| + 1 by { InsertLength(xs[0], rest, below); }
      r
  }

  lemma {:induction false} InsertLength<T(!new)>(x: T, s: seq<T>, below: (T, T) -> bool)
    requires StrictTotalOrder(below) && Ascending(s, below)
    ensures |Insert(x, s, below)| <= |s| + 1
  {
    if s != [] && x != s[0] && !below(x, s[0]) {
      InsertLength(x, s[1..], below);
    }
  }

  /**
   * An ascending sequence is determined by its elements: two ascending
   * sequences with the same elements are equal.
   */
  lemma {:induction false} AscendingUnique<T(!new)>(a: seq<T>, b: seq<T>, below: (T, T) -> bool)
    requires StrictTotalOrder(below)
    requires Ascending(a, below) && Ascending(b, below)
    requires forall y :: y in a <==> y in b
    ensures a == b
    decreases |a|
  {
    if a != [] {
      assert a[0] in b;
      assert b[0] in a;
      HeadIsLeast(a, below, b[0]);
      HeadIsLeast(b, below, a[0]);
      assert a[0] == b[0];
      forall y ensures y in a[1..] <==> y in b[1..] {
        if y in a[1..] {
          var i :| 1 <= i < |a| && a[i] == y;
          assert below(a[0], a[i]);
          assert y in b;
          var j :| 0 <= j < |b| && b[j] == y;
          assert j != 0;
        }
        if y in b[1..] {
          var i :| 1 <= i < |b| && b[i] == y;
          assert below(b[0], b[i]);
          assert y in a;
          var j :| 0 <= j < |a| && a[j] == y;
          assert j != 0;
        }
      }
      AscendingUnique(a[1..], b[1..], below);
      assert a == [a[0]] + a[1..] && b == [b[0]] + b[1..];
    } else {
      EmptyIffNoElements(b);
    }
  }

  /** `sorted(set(xs))` depends only on which values occur in `xs`, not on their order or repetition. */
  lemma SortedUniqueCanonical<T(!new)>(xs: seq<T>, ys: seq<T>, below: (T, T) -> bool)
    requires StrictTotalOrder(below)
    requires forall y :: y in xs <==> y in ys
    ensures SortedUnique(xs, below) == SortedUnique(ys, below)
  {
    AscendingUnique(SortedUnique(xs, below), SortedUnique(ys, below), below);
  }
}
