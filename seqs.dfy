/** Generic facts about sequences used as insertion-ordered collections. */
module Seqs {

  /** No element occurs twice. */
  ghost predicate Distinct<T>(s: seq<T>) {
    forall i, j :: 0 <= i < j < |s| ==> s[i] != s[j]
  }

  /** Index of the first occurrence of `x` in `s`. */
  function FirstIndex<T(==)>(s: seq<T>, x: T): (r: nat)
    requires x in s
    ensures r < |s| && s[r] == x
    ensures forall k :: 0 <= k < r ==> s[k] != x
  {
    if s[0] == x then 0 else 1 + FirstIndex(s[1..], x)
  }

  /**
   * The elements of `s`, each once, in order of first occurrence: what
   * spreading a JavaScript `Set` built from `s` yields.
   */
  function Dedup<T(==)>(s: seq<T>): (r: seq<T>)
    ensures forall x :: x in r ==> x in s
    ensures forall x :: x in s ==> x in r
    ensures Distinct(r)
  {
    if s == [] then []
    else
      var d := Dedup(s[..|s| - 1]);
      if s[|s| - 1] in d then d else d + [s[|s| - 1]]
  }

  lemma FirstIndexOfPrefix<T>(s: seq<T>, n: nat, x: T)
    requires n <= |s| && x in s[..n]
    ensures FirstIndex(s, x) == FirstIndex(s[..n], x)
  {
    var i := FirstIndex(s[..n], x);
    var j := FirstIndex(s, x);
    assert s[i] == x;
    assert j <= i;
    assert s[..n][j] == x;
  }

  /** Dedup keeps first occurrences in their original order. */
  lemma {:induction false} DedupFirstOccurrenceOrder<T>(s: seq<T>)
    ensures forall i, j :: 0 <= i < j < |Dedup(s)| ==>
      FirstIndex(s, Dedup(s)[i]) < FirstIndex(s, Dedup(s)[j])
  {
    if s != [] {
      var n := |s| - 1;
      var p := s[..n];
      var d := Dedup(p);
      DedupFirstOccurrenceOrder(p);
      forall x | x in d ensures FirstIndex(s, x) == FirstIndex(p, x) && FirstIndex(p, x) < n {
        FirstIndexOfPrefix(s, n, x);
      }
      if s[n] !in d {
        assert s[n] !in p;
        assert FirstIndex(s, s[n]) == n;
      }
    }
  }

  /** `s` with every element of `ks` taken out, order kept. */
  /** A sequence without duplicates holds each value at most once. */
  lemma {:induction false} DistinctCount<T>(s: seq<T>, x: T)
    requires Distinct(s)
    ensures multiset(s)[x] <= 1
  {
    if s != [] {
      assert s == [s[0]] + s[1..];
      DistinctCount(s[1..], x);
      if x == s[0] {
        assert x !in s[1..];
      }
    }
  }

  /** Permuting a sequence without duplicates gives one without duplicates. */
  lemma DistinctPermutation<T>(s: seq<T>, r: seq<T>)
    requires Distinct(s) && multiset(s) == multiset(r)
    ensures Distinct(r)
  {
    forall i, j | 0 <= i < j < |r| ensures r[i] != r[j] {
      if r[i] == r[j] {
        assert r == r[..j] + [r[j]] + r[j + 1..];
        assert r[i] in r[..j];
        assert multiset(r)[r[i]] >= 2;
        DistinctCount(s, r[i]);
        assert false;
      }
    }
  }

  function Without<T(==)>(s: seq<T>, ks: set<T>): seq<T> {
    if s == [] then []
    else (if s[0] in ks then [] else [s[0]]) + Without(s[1..], ks)
  }

  /** Without keeps exactly the elements outside `ks`, and keeps them distinct. */
  lemma {:induction false} WithoutMembers<T>(s: seq<T>, ks: set<T>)
    ensures forall x :: x in Without(s, ks) <==> x in s && x !in ks
    ensures Distinct(s) ==> Distinct(Without(s, ks))
  {
    if s != [] {
      WithoutMembers(s[1..], ks);
      assert Distinct(s) ==> s[0] !in s[1..];
    }
  }

  lemma {:induction false} WithoutConcat<T>(a: seq<T>, b: seq<T>, ks: set<T>)
    ensures Without(a + b, ks) == Without(a, ks) + Without(b, ks)
  {
    if a != [] {
      assert (a + b)[1..] == a[1..] + b;
      WithoutConcat(a[1..], b, ks);
    } else {
      assert a + b == b;
    }
  }

  lemma {:induction false} WithoutTwice<T>(s: seq<T>, ks: set<T>, ls: set<T>)
    ensures Without(Without(s, ks), ls) == Without(s, ks + ls)
  {
    if s != [] {
      WithoutTwice(s[1..], ks, ls);
      var rest := Without(s[1..], ks);
      if s[0] in ks {
        assert Without(s, ks) == [] + rest == rest;
      } else {
        var w := [s[0]] + rest;
        assert Without(s, ks) == w;
        assert w[0] == s[0] && w[1..] == rest;
      }
    }
  }

  lemma {:induction false} WithoutDisjoint<T>(s: seq<T>, ks: set<T>)
    requires forall x :: x in s ==> x !in ks
    ensures Without(s, ks) == s
  {
    if s != [] {
      WithoutDisjoint(s[1..], ks);
      assert s == [s[0]] + s[1..];
    }
  }

  lemma {:induction false} WithoutCovered<T>(s: seq<T>, ks: set<T>)
    requires forall x :: x in s ==> x in ks
    ensures Without(s, ks) == []
  {
    if s != [] {
      WithoutCovered(s[1..], ks);
    }
  }
}
