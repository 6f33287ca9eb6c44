/** Python's ordering of strings (by code point, a proper prefix first) and the
    stable `sorted(xs, key=...)` over it. */
module Ordering {

  /** `a < b` on Python strings. */
  predicate StrLt(a: string, b: string)
    decreases |a|
  {
    b != [] && (a == [] || a[0] < b[0] || (a[0] == b[0] && StrLt(a[1..], b[1..])))
  }

  /** `a <= b` on Python strings. */
  predicate StrLe(a: string, b: string) {
    !StrLt(b, a)
  }

  lemma {:induction false} StrLtIrreflexive(a: string)
    ensures !StrLt(a, a)
    decreases |a|
  {
    if a != [] {
      StrLtIrreflexive(a[1..]);
    }
  }

  lemma {:induction false} StrLtTrans(a: string, b: string, c: string)
    requires StrLt(a, b) && StrLt(b, c)
    ensures StrLt(a, c)
    decreases |a|
  {
    if a != [] && a[0] == b[0] && b[0] == c[0] {
      StrLtTrans(a[1..], b[1..], c[1..]);
    }
  }

  /** Of two different strings one is smaller. */
  lemma {:induction false} StrLtTotal(a: string, b: string)
    requires a != b
    ensures StrLt(a, b) || StrLt(b, a)
    decreases |a|
  {
    if a != [] && b != [] && a[0] == b[0] {
      assert a == [a[0]] + a[1..] && b == [b[0]] + b[1..];
      StrLtTotal(a[1..], b[1..]);
    }
  }

  /** Ascending by key. */
  predicate SortedBy<T>(s: seq<T>, key: T -> string) {
    forall i, j | 0 <= i < j < |s| :: StrLe(key(s[i]), key(s[j]))
  }

  /** Insert `x` after every element whose key is not greater than its own. */
  function InsertBy<T(==)>(s: seq<T>, x: T, key: T -> string): (r: seq<T>)
    requires SortedBy(s, key)
    ensures SortedBy(r, key)
    ensures multiset(r) == multiset(s) + multiset{x}
    decreases |s|
  {
    assert s != [] ==> s == [s[0]] + s[1..];
    if s == [] then [x]
    else if StrLt(key(x), key(s[0])) then
      SortedCons(x, s, key);
      [x] + s
    else
      var rest := InsertBy(s[1..], x, key);
      forall y | y in rest ensures StrLe(key(s[0]), key(y)) {
        assert y in multiset(rest);
        if y != x {
          assert y in multiset(s[1..]);
        }
      }
      SortedConsLe(s[0], rest, key);
      [s[0]] + rest
  }

  /** A key smaller than the first of a sorted sequence can go in front of it. */
  lemma SortedCons<T>(x: T, s: seq<T>, key: T -> string)
    requires s != [] && SortedBy(s, key) && StrLt(key(x), key(s[0]))
    ensures SortedBy([x] + s, key)
  {
    var r := [x] + s;
    forall j | 1 <= j < |r| ensures StrLe(key(x), key(r[j])) {
      assert r[j] == s[j - 1];
      if StrLt(key(s[j - 1]), key(x)) {
        StrLtTrans(key(s[j - 1]), key(x), key(s[0]));
        if j == 1 {
          StrLtIrreflexive(key(s[0]));
        }
      }
    }
    forall i, j | 1 <= i < j < |r| ensures StrLe(key(r[i]), key(r[j])) {
      assert r[i] == s[i - 1] && r[j] == s[j - 1];
    }
  }

  /** An element not greater than any of a sorted sequence can go in front of it. */
  lemma SortedConsLe<T>(x: T, s: seq<T>, key: T -> string)
    requires SortedBy(s, key) && forall y | y in s :: StrLe(key(x), key(y))
    ensures SortedBy([x] + s, key)
  {
    var r := [x] + s;
    forall i, j | 0 <= i < j < |r| ensures StrLe(key(r[i]), key(r[j])) {
      assert r[j] == s[j - 1] && s[j - 1] in s;
      if i > 0 {
        assert r[i] == s[i - 1];
      }
    }
  }

  /** `sorted(s, key=key)`: insertion from the left, each element placed after the
      equal keys before it, which keeps equal keys in their original order. */
  function SortBy<T(==)>(s: seq<T>, key: T -> string): (r: seq<T>)
    ensures SortedBy(r, key)
    ensures multiset(r) == multiset(s)
    decreases |s|
  {
    if s == [] then []
    else
      var init := s[..|s| - 1];
      assert s == init + [s[|s| - 1]];
      InsertBy(SortBy(init, key), s[|s| - 1], key)
  }
}
