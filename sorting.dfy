/**
 * Python's `sorted(xs, key=key)`: a stable sort of strings by the code-point
 * order of their keys. A stable sort is determined uniquely by its input, so
 * insertion sort (each element inserted after every element whose key is not
 * greater) gives exactly the list `sorted` returns.
 */
module Sorting {
  import opened Strings

  /** The keys of s never decrease. */
  ghost predicate SortedBy(key: string -> string, s: seq<string>) {
    forall i, j :: 0 <= i < j < |s| ==> LexLessEq(key(s[i]), key(s[j]))
  }

  /** The elements of s whose key is k, in their order in s. */
  function WithKey(key: string -> string, s: seq<string>, k: string): seq<string>
    decreases |s|
  {
    if s == [] then []
    else (if key(s[0]) == k then [s[0]] else []) + WithKey(key, s[1..], k)
  }

  lemma {:induction false} WithKeyAppend(key: string -> string, a: seq<string>, b: seq<string>, k: string)
    ensures WithKey(key, a + b, k) == WithKey(key, a, k) + WithKey(key, b, k)
    decreases |a|
  {
    if a == [] {
      assert a + b == b;
    } else {
      assert (a + b)[0] == a[0] && (a + b)[1..] == a[1..] + b;
      WithKeyAppend(key, a[1..], b, k);
    }
  }

  lemma {:induction false} WithKeyAbsent(key: string -> string, s: seq<string>, k: string)
    requires forall m :: 0 <= m < |s| ==> key(s[m]) != k
    ensures WithKey(key, s, k) == []
    decreases |s|
  {
    if s != [] { WithKeyAbsent(key, s[1..], k); }
  }

  /** Put x after the leading run of elements whose key is not greater than x's. */
  function Insert(key: string -> string, x: string, s: seq<string>): seq<string>
    decreases |s|
  {
    if s == [] then [x]
    else if LexLessEq(key(s[0]), key(x)) then [s[0]] + Insert(key, x, s[1..])
    else [x] + s
  }

  lemma {:induction false} InsertPermutes(key: string -> string, x: string, s: seq<string>)
    ensures multiset(Insert(key, x, s)) == multiset(s) + multiset{x}
    decreases |s|
  {
    if s != [] && LexLessEq(key(s[0]), key(x)) {
      InsertPermutes(key, x, s[1..]);
      assert s == [s[0]] + s[1..];
    }
  }

  lemma SortedTail(key: string -> string, s: seq<string>)
    requires s != [] && SortedBy(key, s)
    ensures SortedBy(key, s[1..])
  {
    forall i, j | 0 <= i < j < |s| - 1 ensures LexLessEq(key(s[1..][i]), key(s[1..][j])) {
      assert s[1..][i] == s[i + 1] && s[1..][j] == s[j + 1];
    }
  }

  /** Putting in front an element whose key bounds all others keeps a list sorted. */
  lemma SortedCons(key: string -> string, a: string, t: seq<string>)
    requires SortedBy(key, t)
    requires forall j :: 0 <= j < |t| ==> LexLessEq(key(a), key(t[j]))
    ensures SortedBy(key, [a] + t)
  {
    var r := [a] + t;
    forall i, j | 0 <= i < j < |r| ensures LexLessEq(key(r[i]), key(r[j])) {
      if i == 0 { assert r[j] == t[j - 1]; } else { assert r[i] == t[i - 1] && r[j] == t[j - 1]; }
    }
  }

  /** Every element of Insert(x, s) is x or an element of s. */
  lemma InsertMembers(key: string -> string, x: string, s: seq<string>, y: string)
    requires y in Insert(key, x, s)
    ensures y == x || y in s
  {
    InsertPermutes(key, x, s);
    assert y in multiset(Insert(key, x, s));
  }

  lemma {:induction false} InsertSorted(key: string -> string, x: string, s: seq<string>)
    requires SortedBy(key, s)
    ensures SortedBy(key, Insert(key, x, s))
    decreases |s|
  {
    if s == [] {
    } else if LexLessEq(key(s[0]), key(x)) {
      var t := Insert(key, x, s[1..]);
      SortedTail(key, s);
      InsertSorted(key, x, s[1..]);
      forall j | 0 <= j < |t| ensures LexLessEq(key(s[0]), key(t[j])) {
        InsertMembers(key, x, s[1..], t[j]);
        if t[j] != x {
          var m :| 0 <= m < |s[1..]| && s[1..][m] == t[j];
          assert s[m + 1] == t[j];
        }
      }
      SortedCons(key, s[0], t);
    } else {
      LexTotal(key(s[0]), key(x));
      forall j | 0 <= j < |s| ensures LexLessEq(key(x), key(s[j])) {
        if j > 0 { LexTransitive(key(x), key(s[0]), key(s[j])); }
      }
      SortedCons(key, x, s);
    }
  }

  lemma WithKeyCons(key: string -> string, a: string, t: seq<string>, k: string)
    ensures WithKey(key, [a] + t, k) == (if key(a) == k then [a] else []) + WithKey(key, t, k)
  {
    assert ([a] + t)[0] == a && ([a] + t)[1..] == t;
  }

  lemma {:induction false} InsertStable(key: string -> string, x: string, s: seq<string>, k: string)
    requires SortedBy(key, s)
    ensures WithKey(key, Insert(key, x, s), k) == WithKey(key, s, k) + (if key(x) == k then [x] else [])
    decreases |s|
  {
    var added := if key(x) == k then [x] else [];
    if s == [] {
      assert Insert(key, x, s) == [x];
      WithKeyCons(key, x, [], k);
    } else if LexLessEq(key(s[0]), key(x)) {
      var head := if key(s[0]) == k then [s[0]] else [];
      SortedTail(key, s);
      calc {
        WithKey(key, Insert(key, x, s), k);
        WithKey(key, [s[0]] + Insert(key, x, s[1..]), k);
        { WithKeyCons(key, s[0], Insert(key, x, s[1..]), k); }
        head + WithKey(key, Insert(key, x, s[1..]), k);
        { InsertStable(key, x, s[1..], k); }
        head + (WithKey(key, s[1..], k) + added);
        (head + WithKey(key, s[1..], k)) + added;
        WithKey(key, s, k) + added;
      }
    } else {
      assert Insert(key, x, s) == [x] + s;
      WithKeyCons(key, x, s, k);
      if key(x) == k {
        forall m | 0 <= m < |s| ensures key(s[m]) != k {
          if m == 0 { LexReflexive(key(s[0])); }
        }
        WithKeyAbsent(key, s, k);
      }
    }
  }

  /** `sorted(xs, key=key)` */
  function SortByKey(key: string -> string, xs: seq<string>): seq<string>
    decreases |xs|
  {
    if xs == [] then [] else Insert(key, xs[|xs| - 1], SortByKey(key, xs[..|xs| - 1]))
  }

  /** The sorted list is ordered by key and is a permutation of the input. */
  lemma {:induction false} SortByKeySorts(key: string -> string, xs: seq<string>)
    ensures SortedBy(key, SortByKey(key, xs))
    ensures multiset(SortByKey(key, xs)) == multiset(xs)
    decreases |xs|
  {
    if xs != [] {
      var init, last := xs[..|xs| - 1], xs[|xs| - 1];
      SortByKeySorts(key, init);
      InsertSorted(key, last, SortByKey(key, init));
      InsertPermutes(key, last, SortByKey(key, init));
      assert xs == init + [last];
    }
  }

  lemma WithKeySnoc(key: string -> string, s: seq<string>, x: string, k: string)
    ensures WithKey(key, s + [x], k) == WithKey(key, s, k) + (if key(x) == k then [x] else [])
  {
    WithKeyAppend(key, s, [x], k);
    assert [x][1..] == [];
  }

  /** Stability: elements with equal keys keep their relative order. */
  lemma {:induction false} SortByKeyStable(key: string -> string, xs: seq<string>, k: string)
    ensures WithKey(key, SortByKey(key, xs), k) == WithKey(key, xs, k)
    decreases |xs|
  {
    if xs != [] {
      var init, last := xs[..|xs| - 1], xs[|xs| - 1];
      assert xs == init + [last];
      var sortedInit := SortByKey(key, init);
      var added := if key(last) == k then [last] else [];
      SortByKeySorts(key, init);
      calc {
        WithKey(key, SortByKey(key, xs), k);
        WithKey(key, Insert(key, last, sortedInit), k);
        { InsertStable(key, last, sortedInit, k); }
        WithKey(key, sortedInit, k) + added;
        { SortByKeyStable(key, init, k); }
        WithKey(key, init, k) + added;
        { WithKeySnoc(key, init, last, k); }
        WithKey(key, xs, k);
      }
    }
  }

  /** Sorting keeps exactly the elements it was given. */
  lemma SortByKeyMembers(key: string -> string, xs: seq<string>, x: string)
    ensures x in SortByKey(key, xs) <==> x in xs
  {
    var r := SortByKey(key, xs);
    SortByKeySorts(key, xs);
    assert x in r <==> x in multiset(r);
    assert x in xs <==> x in multiset(xs);
  }
}
