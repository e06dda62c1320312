/**
 * `sorted()` on strings: Python orders `str` values lexicographically by code point, and a
 * sorted set is the unique strictly increasing sequence of its elements.
 */
module Sorting {
  import opened Sets

  /** `a < b` on Python strings. */
  predicate StrLt(a: string, b: string)
  {
    if a == [] then b != []
    else b != [] && (a[0] < b[0] || (a[0] == b[0] && StrLt(a[1..], b[1..])))
  }

  lemma {:induction false} StrLtIrreflexive(a: string)
    ensures !StrLt(a, a)
  {
    if a != [] {
      StrLtIrreflexive(a[1..]);
    }
  }

  lemma {:induction false} StrLtTransitive(a: string, b: string, c: string)
    requires StrLt(a, b) && StrLt(b, c)
    ensures StrLt(a, c)
  {
    if a != [] && a[0] == b[0] && b[0] == c[0] {
      StrLtTransitive(a[1..], b[1..], c[1..]);
    }
  }

  lemma {:induction false} StrLtTotal(a: string, b: string)
    requires a != b
    ensures StrLt(a, b) || StrLt(b, a)
  {
    if a != [] && b != [] && a[0] == b[0] {
      assert a == [a[0]] + a[1..] && b == [b[0]] + b[1..];
      StrLtTotal(a[1..], b[1..]);
    }
  }

  /** Strictly increasing. */
  predicate Sorted(s: seq<string>)
  {
    forall i, j :: 0 <= i < j < |s| ==> StrLt(s[i], s[j])
  }

  /** `r` is `sorted(s)` for a set `s`: increasing, and holding exactly the elements of `s`. */
  predicate SortsTo(s: set<string>, r: seq<string>)
  {
    Sorted(r) && (forall x :: x in r ==> x in s) && (forall x :: x in s ==> x in r)
  }

  /** Adds `x` to an increasing sequence in its place, unless it is there already. */
  function Insert(ys: seq<string>, x: string): (r: seq<string>)
    requires Sorted(ys)
    ensures Sorted(r)
    ensures forall z :: z in r <==> z in ys || z == x
  {
    if ys == [] then [x]
    else if StrLt(x, ys[0]) then
      assert forall j :: 0 < j < |ys| ==> StrLt(x, ys[j]) by {
        forall j | 0 < j < |ys| ensures StrLt(x, ys[j]) {
          StrLtTransitive(x, ys[0], ys[j]);
        }
      }
      [x] + ys
    else if x == ys[0] then ys
    else
      StrLtTotal(x, ys[0]);
      var rest := Insert(ys[1..], x);
      assert forall z :: z in ys[1..] ==> z in ys;
      assert forall z :: z in rest ==> StrLt(ys[0], z);
      [ys[0]] + rest
  }

  /** An increasing sequence has no element twice. */
  lemma SortedDistinct(s: seq<string>, i: nat, j: nat)
    requires Sorted(s) && i < j < |s|
    ensures s[i] != s[j]
  {
    StrLtIrreflexive(s[i]);
  }

  lemma BothEmpty(s: seq<string>, t: seq<string>)
    requires forall x :: x in s <==> x in t
    ensures s == [] <==> t == []
  {
    if s != [] { assert s[0] in t; }
    if t != [] { assert t[0] in s; }
  }

  /** `sorted` of a set is determined by the set: two increasing sequences with the same elements are equal. */
  lemma {:induction false} SortedUnique(s: seq<string>, t: seq<string>)
    requires Sorted(s) && Sorted(t)
    requires forall x :: x in s <==> x in t
    ensures s == t
  {
    BothEmpty(s, t);
    if s != [] {
      assert s[0] in t;
      assert t[0] in s;
      var i :| 0 <= i < |s| && s[i] == t[0];
      var j :| 0 <= j < |t| && t[j] == s[0];
      if i > 0 {
        if j > 0 {
          StrLtTransitive(s[0], s[i], s[0]);
        }
        StrLtIrreflexive(s[0]);
      }
      assert s[0] == t[0];
      forall x ensures x in s[1..] <==> x in t[1..] {
        if x in s[1..] {
          var k :| 1 <= k < |s| && s[k] == x;
          SortedDistinct(s, 0, k);
          assert x in s && x in t;
          var m :| 0 <= m < |t| && t[m] == x;
          assert t[1..][m - 1] == x;
        }
        if x in t[1..] {
          var k :| 1 <= k < |t| && t[k] == x;
          SortedDistinct(t, 0, k);
          assert x in t && x in s;
          var m :| 0 <= m < |s| && s[m] == x;
          assert s[1..][m - 1] == x;
        }
      }
      SortedUnique(s[1..], t[1..]);
    }
  }

  /** A sorted set has as many entries as the set has elements. */
  lemma {:induction false} SortsToSize(s: set<string>, r: seq<string>)
    requires SortsTo(s, r)
    ensures |r| == |s|
  {
    if r != [] {
      var rest := r[1..];
      forall x ensures x in rest <==> x in s - {r[0]} {
        if x in rest {
          var k :| 1 <= k < |r| && r[k] == x;
          SortedDistinct(r, 0, k);
        }
      }
      assert Sorted(rest);
      SortsToSize(s - {r[0]}, rest);
    }
  }

  /** `sorted(s)` for a set of strings. */
  method SortedList(s: set<string>) returns (r: seq<string>)
    ensures SortsTo(s, r)
  {
    r := [];
    var left := s;
    while left != {}
      invariant left <= s
      invariant Sorted(r) && forall x :: x in r <==> x in s - left
      decreases |left|
    {
      var x := Pick(left);
      r := Insert(r, x);
      left := left - {x};
    }
  }
}
