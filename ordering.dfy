// The default order of Array.prototype.sort on strings, taken here character
// by character with a proper prefix first, and a stable sort by a string key.
module Ordering {
  /** `a` sorts no later than `b`. */
  predicate Le(a: string, b: string)
  {
    if a == [] then true
    else if b == [] then false
    else if a[0] != b[0] then a[0] < b[0]
    else Le(a[1..], b[1..])
  }

  lemma {:induction false} LeTotal(a: string, b: string)
    ensures Le(a, b) || Le(b, a)
  {
    if a != [] && b != [] && a[0] == b[0] {
      LeTotal(a[1..], b[1..]);
    }
  }

  lemma {:induction false} LeTrans(a: string, b: string, c: string)
    requires Le(a, b) && Le(b, c)
    ensures Le(a, c)
  {
    if a != [] && b != [] && c != [] && a[0] == b[0] && b[0] == c[0] {
      LeTrans(a[1..], b[1..], c[1..]);
    }
  }

  lemma {:induction false} LeAntisymmetric(a: string, b: string)
    requires Le(a, b) && Le(b, a)
    ensures a == b
  {
    if a != [] && b != [] {
      LeAntisymmetric(a[1..], b[1..]);
      assert a == [a[0]] + a[1..];
      assert b == [b[0]] + b[1..];
    }
  }

  predicate SortedBy<T>(s: seq<T>, key: T -> string)
  {
    forall i, j :: 0 <= i < j < |s| ==> Le(key(s[i]), key(s[j]))
  }

  /** Every key of `s` sorts no later than `k`. */
  predicate AllLe<T>(s: seq<T>, key: T -> string, k: string)
  {
    forall i :: 0 <= i < |s| ==> Le(key(s[i]), k)
  }

  lemma SortedBelowLast<T>(s: seq<T>, key: T -> string, k: string)
    requires s != [] && SortedBy(s, key) && Le(key(s[|s| - 1]), k)
    ensures AllLe(s, key, k)
  {
    forall i | 0 <= i < |s| - 1 ensures Le(key(s[i]), k) {
      LeTrans(key(s[i]), key(s[|s| - 1]), k);
    }
  }

  lemma AllLeMultiset<T>(r: seq<T>, s: seq<T>, x: T, key: T -> string, k: string)
    requires multiset(r) == multiset(s) + multiset{x}
    requires AllLe(s, key, k) && Le(key(x), k)
    ensures AllLe(r, key, k)
  {
    forall i | 0 <= i < |r| ensures Le(key(r[i]), k) {
      assert r[i] in multiset(r);
      if r[i] != x {
        assert r[i] in multiset(s);
        var j :| 0 <= j < |s| && s[j] == r[i];
      }
    }
  }

  /** Inserts `x` after every element whose key sorts no later than its own. */
  function Insert<T(==)>(x: T, s: seq<T>, key: T -> string): (r: seq<T>)
    requires SortedBy(s, key)
    ensures SortedBy(r, key)
    ensures multiset(r) == multiset(s) + multiset{x}
    ensures |r| == |s| + 1
  {
    if s == [] then [x]
    else if Le(key(s[|s| - 1]), key(x)) then
      SortedBelowLast(s, key, key(x));
      s + [x]
    else
      var init, last := s[..|s| - 1], s[|s| - 1];
      assert s == init + [last];
      var r0 := Insert(x, init, key);
      LeTotal(key(last), key(x));
      assert AllLe(init, key, key(last));
      AllLeMultiset(r0, init, x, key, key(last));
      r0 + [last]
  }

  /** A stable sort of `s` by `key`: sorted, and a permutation of `s`. */
  function SortBy<T(==)>(s: seq<T>, key: T -> string): (r: seq<T>)
    ensures SortedBy(r, key)
    ensures multiset(r) == multiset(s) && |r| == |s|
  {
    if s == [] then []
    else
      var init := s[..|s| - 1];
      assert s == init + [s[|s| - 1]];
      Insert(s[|s| - 1], SortBy(init, key), key)
  }

  lemma SortByMembership<T>(s: seq<T>, key: T -> string, x: T)
    ensures x in SortBy(s, key) <==> x in s
  {
    assert x in multiset(SortBy(s, key)) <==> x in multiset(s);
  }

  lemma SortByElements<T>(s: seq<T>, key: T -> string)
    ensures var r := SortBy(s, key);
      (forall i :: 0 <= i < |r| ==> r[i] in s) && (forall i :: 0 <= i < |s| ==> s[i] in r)
  {
    var r := SortBy(s, key);
    forall i | 0 <= i < |r| ensures r[i] in s {
      assert r[i] in multiset(r);
    }
    forall i | 0 <= i < |s| ensures s[i] in r {
      assert s[i] in multiset(s);
    }
  }
}
