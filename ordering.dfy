/**
  Python's ordering of `str` values (code point by code point, a proper
  prefix first) and the stable sort that `sorted(xs, key = f)` performs.
  The sort is written as an insertion sort; `StableSortUnique` shows that
  any stable sort, Python's Timsort included, yields the same sequence.
*/
module Ordering {

  /** `a <= b` on Python strings. */
  predicate StrLe(a: string, b: string)
    decreases |a|
  {
    a == [] || (b != [] && (a[0] < b[0] || (a[0] == b[0] && StrLe(a[1..], b[1..]))))
  }

  lemma {:induction false} StrLeReflexive(a: string)
    ensures StrLe(a, a)
    decreases |a|
  {
    if a != [] {
      StrLeReflexive(a[1..]);
    }
  }

  lemma {:induction false} StrLeTotal(a: string, b: string)
    ensures StrLe(a, b) || StrLe(b, a)
    decreases |a|
  {
    if a != [] && b != [] && a[0] == b[0] {
      StrLeTotal(a[1..], b[1..]);
    }
  }

  lemma {:induction false} StrLeAntisymmetric(a: string, b: string)
    requires StrLe(a, b) && StrLe(b, a)
    ensures a == b
    decreases |a|
  {
    if a != [] && b != [] {
      StrLeAntisymmetric(a[1..], b[1..]);
      assert a == [a[0]] + a[1..] && b == [b[0]] + b[1..];
    }
  }

  lemma {:induction false} StrLeTransitive(a: string, b: string, c: string)
    requires StrLe(a, b) && StrLe(b, c)
    ensures StrLe(a, c)
    decreases |a|
  {
    if a != [] && b != [] && c != [] && a[0] == b[0] == c[0] {
      StrLeTransitive(a[1..], b[1..], c[1..]);
    }
  }

  /** The elements are in non-decreasing order of their keys. */
  ghost predicate SortedBy<T>(s: seq<T>, key: T -> string)
  {
    forall i, j :: 0 <= i < j < |s| ==> StrLe(key(s[i]), key(s[j]))
  }

  /** The elements of `s` whose key is `k`, in the order of `s`. */
  function WithKey<T>(s: seq<T>, key: T -> string, k: string): seq<T>
    decreases |s|
  {
    if s == [] then []
    else (if key(s[0]) == k then [s[0]] else []) + WithKey(s[1..], key, k)
  }

  /**
    `r` is what a stable sort of `s` by `key` returns: it is in key order
    and elements with equal keys keep their relative order from `s`.
  */
  ghost predicate StableSortOf<T>(r: seq<T>, s: seq<T>, key: T -> string)
  {
    && SortedBy(r, key)
    && multiset(r) == multiset(s)
    && forall k :: WithKey(r, key, k) == WithKey(s, key, k)
  }

  /** Places `x` in front of the first element whose key is not smaller. */
  function Insert<T>(x: T, s: seq<T>, key: T -> string): seq<T>
    decreases |s|
  {
    if s == [] then [x]
    else if StrLe(key(x), key(s[0])) then [x] + s
    else [s[0]] + Insert(x, s[1..], key)
  }

  /** `sorted(s, key = key)`. */
  function SortBy<T>(s: seq<T>, key: T -> string): seq<T>
    decreases |s|
  {
    if s == [] then [] else Insert(s[0], SortBy(s[1..], key), key)
  }

  lemma {:induction false} InsertMultiset<T>(x: T, s: seq<T>, key: T -> string)
    ensures multiset(Insert(x, s, key)) == multiset(s) + multiset{x}
    decreases |s|
  {
    if s != [] && !StrLe(key(x), key(s[0])) {
      InsertMultiset(x, s[1..], key);
      assert s == [s[0]] + s[1..];
    }
  }

  lemma {:induction false} InsertWithKey<T>(x: T, s: seq<T>, key: T -> string, k: string)
    ensures WithKey(Insert(x, s, key), key, k) == (if key(x) == k then [x] else []) + WithKey(s, key, k)
    decreases |s|
  {
    if s == [] {
      assert WithKey([x], key, k) == (if key(x) == k then [x] else []) + WithKey([], key, k);
    } else if StrLe(key(x), key(s[0])) {
      assert ([x] + s)[1..] == s;
    } else {
      InsertWithKey(x, s[1..], key, k);
      assert ([s[0]] + Insert(x, s[1..], key))[1..] == Insert(x, s[1..], key);
      if key(s[0]) == key(x) {
        StrLeReflexive(key(x));
      }
    }
  }

  lemma {:induction false} InsertSorted<T>(x: T, s: seq<T>, key: T -> string)
    requires SortedBy(s, key)
    ensures SortedBy(Insert(x, s, key), key)
    decreases |s|
  {
    if s == [] {
    } else if StrLe(key(x), key(s[0])) {
      var r := [x] + s;
      forall i, j | 0 <= i < j < |r| ensures StrLe(key(r[i]), key(r[j])) {
        if i == 0 && j > 1 {
          StrLeTransitive(key(x), key(s[0]), key(s[j - 1]));
        }
      }
    } else {
      StrLeTotal(key(x), key(s[0]));
      InsertSorted(x, s[1..], key);
      var t := Insert(x, s[1..], key);
      InsertMultiset(x, s[1..], key);
      var r := [s[0]] + t;
      forall j | 0 <= j < |t| ensures StrLe(key(s[0]), key(t[j])) {
        assert t[j] in multiset(t);
        if t[j] != x {
          assert t[j] in multiset(s[1..]);
          var m :| 0 <= m < |s[1..]| && s[1..][m] == t[j];
          assert s[m + 1] == t[j];
        }
      }
      forall i, j | 0 <= i < j < |r| ensures StrLe(key(r[i]), key(r[j])) {
        if i == 0 {
          assert r[j] == t[j - 1];
        } else {
          assert r[i] == t[i - 1] && r[j] == t[j - 1];
        }
      }
    }
  }

  /** The insertion sort is a stable sort. */
  lemma {:induction false} SortByIsStable<T>(s: seq<T>, key: T -> string)
    ensures StableSortOf(SortBy(s, key), s, key)
    decreases |s|
  {
    if s != [] {
      var t := SortBy(s[1..], key);
      SortByIsStable(s[1..], key);
      InsertSorted(s[0], t, key);
      InsertMultiset(s[0], t, key);
      assert s == [s[0]] + s[1..];
      forall k ensures WithKey(SortBy(s, key), key, k) == WithKey(s, key, k) {
        InsertWithKey(s[0], t, key, k);
      }
    }
  }

  lemma {:induction false} WithKeyMembers<T>(s: seq<T>, key: T -> string, k: string, x: T)
    ensures x in WithKey(s, key, k) <==> x in s && key(x) == k
    decreases |s|
  {
    if s != [] {
      WithKeyMembers(s[1..], key, k, x);
      assert s == [s[0]] + s[1..];
    }
  }

  /** Two sequences in key order that agree key by key are equal. */
  lemma {:induction false} StableSortUnique<T>(a: seq<T>, b: seq<T>, key: T -> string)
    requires SortedBy(a, key) && SortedBy(b, key)
    requires forall k :: WithKey(a, key, k) == WithKey(b, key, k)
    ensures a == b
    decreases |a| + |b|
  {
    if a != [] || b != [] {
      // neither can be empty: the key of the other's first element has a match in both
      var x := if a != [] then a[0] else b[0];
      assert WithKey(a, key, key(x)) == WithKey(b, key, key(x));
      WithKeyMembers(a, key, key(x), x);
      WithKeyMembers(b, key, key(x), x);
      assert a != [] && b != [];
      var ka, kb := key(a[0]), key(b[0]);
      assert WithKey(a, key, ka) == WithKey(b, key, ka);
      assert WithKey(a, key, kb) == WithKey(b, key, kb);
      WithKeyMembers(b, key, ka, a[0]);
      WithKeyMembers(a, key, kb, b[0]);
      var i :| 0 <= i < |b| && b[i] == a[0];
      var j :| 0 <= j < |a| && a[j] == b[0];
      if i == 0 { StrLeReflexive(kb); }
      if j == 0 { StrLeReflexive(ka); }
      StrLeAntisymmetric(ka, kb);
      assert a[0] == WithKey(a, key, ka)[0] == WithKey(b, key, kb)[0] == b[0];
      forall k ensures WithKey(a[1..], key, k) == WithKey(b[1..], key, k) {
        var pre := if ka == k then [a[0]] else [];
        assert WithKey(a, key, k) == pre + WithKey(a[1..], key, k);
        assert WithKey(b, key, k) == pre + WithKey(b[1..], key, k);
        assert WithKey(a, key, k) == WithKey(b, key, k);
        assert WithKey(a[1..], key, k) == (pre + WithKey(a[1..], key, k))[|pre|..];
        assert WithKey(b[1..], key, k) == (pre + WithKey(b[1..], key, k))[|pre|..];
      }
      SortedTail(a, key);
      SortedTail(b, key);
      StableSortUnique(a[1..], b[1..], key);
      assert a == [a[0]] + a[1..] && b == [b[0]] + b[1..];
    }
  }

  lemma SortedTail<T>(s: seq<T>, key: T -> string)
    requires s != [] && SortedBy(s, key)
    ensures SortedBy(s[1..], key)
  {
    forall i, j | 0 <= i < j < |s| - 1 ensures StrLe(key(s[1..][i]), key(s[1..][j])) {
      assert s[1..][i] == s[i + 1] && s[1..][j] == s[j + 1];
    }
  }

  /** Whatever stable sort computes `r`, it is the insertion sort's result. */
  lemma StableSortIsSortBy<T>(r: seq<T>, s: seq<T>, key: T -> string)
    requires StableSortOf(r, s, key)
    ensures r == SortBy(s, key)
  {
    SortByIsStable(s, key);
    StableSortUnique(r, SortBy(s, key), key);
  }

  /** No two elements share a key (as the keys of a dictionary). */
  predicate DistinctKeys<T>(s: seq<T>, key: T -> string)
  {
    forall i, j :: 0 <= i < j < |s| ==> key(s[i]) != key(s[j])
  }

  /** With distinct keys, no key selects more than one element. */
  lemma {:induction false} DistinctKeysSelectOne<T>(s: seq<T>, key: T -> string, k: string)
    requires DistinctKeys(s, key)
    ensures |WithKey(s, key, k)| <= 1
    decreases |s|
  {
    if s != [] {
      var t := s[1..];
      assert DistinctKeys(t, key) by {
        forall i, j | 0 <= i < j < |t| ensures key(t[i]) != key(t[j]) {
          assert t[i] == s[i + 1] && t[j] == s[j + 1];
        }
      }
      DistinctKeysSelectOne(t, key, k);
      if key(s[0]) == k {
        forall j | 0 <= j < |t| ensures key(t[j]) != k { assert t[j] == s[j + 1]; }
        NoMatchSelectsNone(t, key, k);
      }
    }
  }

  lemma {:induction false} NoMatchSelectsNone<T>(s: seq<T>, key: T -> string, k: string)
    requires forall j :: 0 <= j < |s| ==> key(s[j]) != k
    ensures WithKey(s, key, k) == []
    decreases |s|
  {
    if s != [] {
      assert forall j :: 0 <= j < |s[1..]| ==> s[1..][j] == s[j + 1];
      NoMatchSelectsNone(s[1..], key, k);
    }
  }

  /** Two elements with one key make that key select at least two. */
  lemma {:induction false} SharedKeySelectsTwo<T>(s: seq<T>, key: T -> string, i: nat, j: nat)
    requires i < j < |s| && key(s[i]) == key(s[j])
    ensures |WithKey(s, key, key(s[i]))| >= 2
    decreases |s|
  {
    var t := s[1..];
    if i == 0 {
      assert t[j - 1] == s[j];
      WithKeyMembers(t, key, key(s[0]), s[j]);
    } else {
      assert t[i - 1] == s[i] && t[j - 1] == s[j];
      SharedKeySelectsTwo(t, key, i - 1, j - 1);
    }
  }

  /** Keys are distinct exactly when no key selects more than one element. */
  lemma DistinctKeysByCount<T>(s: seq<T>, key: T -> string)
    ensures DistinctKeys(s, key) <==> forall k :: |WithKey(s, key, k)| <= 1
  {
    if DistinctKeys(s, key) {
      forall k ensures |WithKey(s, key, k)| <= 1 {
        DistinctKeysSelectOne(s, key, k);
      }
    } else {
      var i, j :| 0 <= i < j < |s| && key(s[i]) == key(s[j]);
      SharedKeySelectsTwo(s, key, i, j);
    }
  }
}
