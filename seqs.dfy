/** Filters and sorts over sequences: the `WHERE` and `ORDER BY` of the
    store's queries, and the key ordering the JavaScript engine applies to
    an object's properties. */
module Seqs {

  // ---------------------------------------------------------------- WHERE

  /** `SELECT * FROM s WHERE p`. */
  function Where<T(!new)>(s: seq<T>, p: T -> bool): (r: seq<T>)
    ensures |r| <= |s|
    ensures forall x :: x in r <==> x in s && p(x)
  {
    if s == [] then []
    else
      assert s == [s[0]] + s[1..];
      (if p(s[0]) then [s[0]] else []) + Where(s[1..], p)
  }

  /** Filtering a concatenation filters each part. */
  lemma {:induction false} WhereAppend<T(!new)>(a: seq<T>, b: seq<T>, p: T -> bool)
    ensures Where(a + b, p) == Where(a, p) + Where(b, p)
    decreases |a|
  {
    if a == [] {
      assert a + b == b;
    } else {
      assert (a + b)[0] == a[0];
      assert (a + b)[1..] == a[1..] + b;
      WhereAppend(a[1..], b, p);
    }
  }

  /** A filter comes back empty exactly when no element satisfies it. */
  lemma WhereEmpty<T(!new)>(s: seq<T>, p: T -> bool)
    ensures Where(s, p) == [] <==> forall x :: x in s ==> !p(x)
  {
    if Where(s, p) != [] {
      assert Where(s, p)[0] in Where(s, p);
    }
  }

  lemma {:induction false} WhereAll<T(!new)>(s: seq<T>, p: T -> bool)
    requires forall x :: x in s ==> p(x)
    ensures Where(s, p) == s
    decreases |s|
  {
    if s != [] {
      assert s[0] in s;
      assert forall x :: x in s[1..] ==> x in s;
      WhereAll(s[1..], p);
    }
  }

  // ------------------------------------------------------------- ORDER BY

  /** Lexicographic order on two sort columns. */
  predicate KeyLe(a: (int, int), b: (int, int))
  {
    a.0 < b.0 || (a.0 == b.0 && a.1 <= b.1)
  }

  predicate SortedBy<T>(s: seq<T>, key: T -> (int, int))
  {
    forall i, j :: 0 <= i < j < |s| ==> KeyLe(key(s[i]), key(s[j]))
  }

  function Insert<T>(x: T, s: seq<T>, key: T -> (int, int)): (r: seq<T>)
    ensures multiset(r) == multiset(s) + multiset{x}
  {
    if s == [] then [x]
    else if KeyLe(key(x), key(s[0])) then [x] + s
    else
      assert s == [s[0]] + s[1..];
      [s[0]] + Insert(x, s[1..], key)
  }

  lemma {:induction false} InsertSorted<T>(x: T, s: seq<T>, key: T -> (int, int))
    requires SortedBy(s, key)
    ensures SortedBy(Insert(x, s, key), key)
    decreases |s|
  {
    if s != [] && !KeyLe(key(x), key(s[0])) {
      var t := Insert(x, s[1..], key);
      InsertSorted(x, s[1..], key);
      forall j | 0 <= j < |t|
        ensures KeyLe(key(s[0]), key(t[j]))
      {
        assert t[j] in multiset(t);
        if t[j] != x {
          assert t[j] in multiset(s[1..]);
          var m :| 0 <= m < |s[1..]| && s[1..][m] == t[j];
          assert s[m + 1] == t[j];
        }
      }
      assert Insert(x, s, key) == [s[0]] + t;
    }
  }

  /** `ORDER BY` the two columns of `key`, ascending: a permutation of the rows in key order. */
  function SortBy<T>(s: seq<T>, key: T -> (int, int)): (r: seq<T>)
    ensures multiset(r) == multiset(s)
    ensures SortedBy(r, key)
  {
    if s == [] then []
    else
      assert s == [s[0]] + s[1..];
      var t := SortBy(s[1..], key);
      InsertSorted(s[0], t, key);
      Insert(s[0], t, key)
  }

  lemma SameMembers<T>(s: seq<T>, t: seq<T>)
    requires multiset(s) == multiset(t)
    ensures forall x :: x in s <==> x in t
  {
    forall x
      ensures x in s <==> x in t
    {
      assert x in s <==> x in multiset(s);
      assert x in t <==> x in multiset(t);
    }
  }

  // ------------------------------------------------------ order and repeats

  /** `x` occurs in `s` before an occurrence of `y`. */
  ghost predicate Before<T>(s: seq<T>, x: T, y: T)
  {
    exists a, b :: 0 <= a < b < |s| && s[a] == x && s[b] == y
  }

  /** An order in the tail is an order in the whole. */
  lemma BeforeTail<T>(s: seq<T>, x: T, y: T)
    requires s != [] && Before(s[1..], x, y)
    ensures Before(s, x, y)
  {
    var a, b :| 0 <= a < b < |s[1..]| && s[1..][a] == x && s[1..][b] == y;
    assert s[a + 1] == x && s[b + 1] == y;
  }

  /** The head comes before everything in the tail. */
  lemma BeforeHead<T>(s: seq<T>, y: T)
    requires s != [] && y in s[1..]
    ensures Before(s, s[0], y)
  {
    var b :| 0 <= b < |s[1..]| && s[1..][b] == y;
    assert s[b + 1] == y;
  }

  /** A filter keeps the relative order of the elements it keeps. */
  lemma {:induction false} WhereKeepsOrder<T(!new)>(s: seq<T>, p: T -> bool)
    ensures forall i, j :: 0 <= i < j < |Where(s, p)| ==> Before(s, Where(s, p)[i], Where(s, p)[j])
    decreases |s|
  {
    if s != [] {
      var w, rest := Where(s, p), Where(s[1..], p);
      WhereKeepsOrder(s[1..], p);
      forall i, j | 0 <= i < j < |w|
        ensures Before(s, w[i], w[j])
      {
        if p(s[0]) {
          assert w == [s[0]] + rest;
          if i == 0 {
            assert w[j] == rest[j - 1] && rest[j - 1] in rest;
            BeforeHead(s, w[j]);
          } else {
            assert w[i] == rest[i - 1] && w[j] == rest[j - 1];
            BeforeTail(s, w[i], w[j]);
          }
        } else {
          assert w == rest;
          BeforeTail(s, w[i], w[j]);
        }
      }
    }
  }

  /** Filtering by a condition and by its negation splits the elements between the two results. */
  lemma {:induction false} WhereSplit<T(!new)>(s: seq<T>, p: T -> bool, q: T -> bool)
    requires forall x :: q(x) == !p(x)
    ensures multiset(Where(s, p)) + multiset(Where(s, q)) == multiset(s)
    decreases |s|
  {
    if s != [] {
      WhereSplit(s[1..], p, q);
      assert s == [s[0]] + s[1..];
      var head := multiset{s[0]};
      if p(s[0]) {
        assert Where(s, p) == [s[0]] + Where(s[1..], p);
        assert Where(s, q) == Where(s[1..], q);
        assert multiset(Where(s, p)) == head + multiset(Where(s[1..], p));
      } else {
        assert Where(s, q) == [s[0]] + Where(s[1..], q);
        assert Where(s, p) == Where(s[1..], p);
        assert multiset(Where(s, q)) == head + multiset(Where(s[1..], q));
      }
    }
  }

  ghost predicate Distinct<T>(s: seq<T>)
  {
    forall i, j :: 0 <= i < j < |s| ==> s[i] != s[j]
  }

  /** An element that occurs twice counts at least twice. */
  lemma TwiceCounted<T>(s: seq<T>, i: nat, j: nat)
    requires i < j < |s| && s[i] == s[j]
    ensures multiset(s)[s[i]] >= 2
  {
    assert s == s[..j] + s[j..];
    assert s[i] in s[..j];
    assert s[j] in s[j..];
    assert multiset(s) == multiset(s[..j]) + multiset(s[j..]);
  }

  /** No element of a sequence without repeats counts more than once. */
  lemma {:induction false} DistinctCounted<T>(s: seq<T>, x: T)
    requires Distinct(s)
    ensures multiset(s)[x] <= 1
    decreases |s|
  {
    if s != [] {
      assert s == [s[0]] + s[1..];
      assert Distinct(s[1..]) by {
        forall i, j | 0 <= i < j < |s[1..]|
          ensures s[1..][i] != s[1..][j]
        {
          assert s[1..][i] == s[i + 1] && s[1..][j] == s[j + 1];
        }
      }
      DistinctCounted(s[1..], x);
    }
  }

  /** A permutation of a sequence without repeats has none either. */
  lemma PermutationDistinct<T>(r: seq<T>, s: seq<T>)
    requires multiset(r) == multiset(s) && Distinct(s)
    ensures Distinct(r)
  {
    forall i, j | 0 <= i < j < |r|
      ensures r[i] != r[j]
    {
      if r[i] == r[j] {
        TwiceCounted(r, i, j);
        DistinctCounted(s, r[i]);
      }
    }
  }
}
