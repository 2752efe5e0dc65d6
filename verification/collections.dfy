/** Sequence helpers shared by the ledger and the segment lifecycle: distinctness, listing a set, sorting by a key. */
module Collections {

  /** No element occurs twice. */
  predicate Distinct<T(==)>(s: seq<T>) {
    forall i, j :: 0 <= i < j < |s| ==> s[i] != s[j]
  }

  /** Ascending by `key`. */
  predicate SortedBy<T>(s: seq<T>, key: T -> int) {
    forall i, j :: 0 <= i < j < |s| ==> key(s[i]) <= key(s[j])
  }

  /** A distinct sequence has as many elements as its set. */
  lemma {:induction false} DistinctCardinality<T>(s: seq<T>)
    requires Distinct(s)
    ensures |set x | x in s| == |s|
  {
    if s != [] {
      var rest := s[1..];
      assert Distinct(rest) by {
        forall i, j | 0 <= i < j < |rest| ensures rest[i] != rest[j] {
          assert rest[i] == s[i + 1] && rest[j] == s[j + 1];
        }
      }
      DistinctCardinality(rest);
      assert s[0] !in rest by {
        forall k | 0 <= k < |rest| ensures rest[k] != s[0] {
          assert rest[k] == s[k + 1];
        }
      }
      assert (set x | x in s) == (set x | x in rest) + {s[0]} by {
        forall x | x in s ensures x in rest || x == s[0] {
          var k :| 0 <= k < |s| && s[k] == x;
          if k > 0 { assert rest[k - 1] == x; }
        }
      }
    }
  }

  /**
   Lists the elements of a finite set in some order, one occurrence each; the
   order is left to the choice of the implementation, as a directory listing or
   a dictionary's iteration order is.
   */
  method Enumerate<T>(s: set<T>) returns (r: seq<T>)
    ensures forall x :: x in r <==> x in s
    ensures Distinct(r)
    ensures |r| == |s|
  {
    r := [];
    var rest := s;
    while rest != {}
      invariant rest !! (set x | x in r)
      invariant (set x | x in r) + rest == s
      invariant Distinct(r)
      decreases |rest|
    {
      var x :| x in rest;
      r := r + [x];
      rest := rest - {x};
    }
    DistinctCardinality(r);
  }

  /** Inserts `x` after every element whose key is not larger, keeping `s` sorted. */
  function Insert<T>(x: T, s: seq<T>, key: T -> int): (r: seq<T>)
    requires SortedBy(s, key)
    ensures SortedBy(r, key)
    ensures multiset(r) == multiset(s) + multiset{x}
    ensures forall y :: y in r ==> y == x || y in s
  {
    if s == [] then [x]
    else if key(x) < key(s[0]) then [x] + s
    else
      var tail := Insert(x, s[1..], key);
      assert forall y :: y in s[1..] ==> key(s[0]) <= key(y);
      assert forall y :: y in tail ==> key(s[0]) <= key(y);
      var r := [s[0]] + tail;
      assert forall i :: 0 < i < |r| ==> r[i] == tail[i - 1];
      assert s == [s[0]] + s[1..];
      r
  }

  /** Insertion sort by `key`: ascending, and a permutation of its input. */
  function SortBy<T>(s: seq<T>, key: T -> int): (r: seq<T>)
    ensures SortedBy(r, key)
    ensures multiset(r) == multiset(s)
    ensures |r| == |s|
  {
    if s == [] then []
    else
      var init := s[..|s| - 1];
      assert s == init + [s[|s| - 1]];
      Insert(s[|s| - 1], SortBy(init, key), key)
  }

  /** A permutation of a distinct sequence is distinct and has the same elements. */
  lemma PermutationKeepsElements<T>(a: seq<T>, b: seq<T>)
    requires multiset(a) == multiset(b)
    requires Distinct(a)
    ensures Distinct(b)
    ensures forall x :: x in a <==> x in b
  {
    assert forall x :: x in a <==> x in multiset(a);
    assert forall x :: x in b <==> x in multiset(b);
    forall i, j | 0 <= i < j < |b| ensures b[i] != b[j] {
      if b[i] == b[j] {
        var x := b[i];
        assert b == b[..j] + b[j..];
        assert x in b[..j];
        assert x == b[j..][0];
        assert multiset(b)[x] >= 2 by {
          assert multiset(b) == multiset(b[..j]) + multiset(b[j..]);
        }
        DistinctCountsOnce(a, x);
        assert false;
      }
    }
  }

  lemma {:induction false} DistinctCountsOnce<T>(a: seq<T>, x: T)
    requires Distinct(a)
    ensures multiset(a)[x] <= 1
  {
    if a != [] {
      var rest := a[1..];
      assert a == [a[0]] + rest;
      assert Distinct(rest) by {
        forall i, j | 0 <= i < j < |rest| ensures rest[i] != rest[j] {
          assert rest[i] == a[i + 1] && rest[j] == a[j + 1];
        }
      }
      DistinctCountsOnce(rest, x);
      if x == a[0] {
        assert x !in rest by {
          forall k | 0 <= k < |rest| ensures rest[k] != x {
            assert rest[k] == a[k + 1];
          }
        }
      }
    }
  }

  /** A subset is no larger than its superset, and a proper subset is strictly smaller. */
  lemma SubsetCardinality<T>(a: set<T>, b: set<T>)
    requires a <= b
    ensures |a| <= |b|
    ensures a != b ==> |a| < |b|
  {
    assert b == a + (b - a);
    if a != b {
      var x :| x in b && x !in a;
      assert x in b - a;
    }
  }
}
