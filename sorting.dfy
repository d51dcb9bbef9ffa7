/** Python's `list.sort(key=..., reverse=True)` on a list whose keys are
    strings: a stable sort into non-increasing key order, comparing keys with
    Python's `<` on str. Elements with equal keys keep their input order. */
module Sorting {
  import opened Types

  /** Python's `a < b` on str: lexicographic by code point, with a proper
      prefix ordered before the longer string. */
  predicate LexLess(a: string, b: string)
    decreases |a|
  {
    if a == [] then b != []
    else if b == [] then false
    else if a[0] != b[0] then a[0] < b[0]
    else LexLess(a[1..], b[1..])
  }

  lemma {:induction false} LexLessIrreflexive(a: string)
    ensures !LexLess(a, a)
    decreases |a|
  {
    if a != [] { LexLessIrreflexive(a[1..]); }
  }

  lemma {:induction false} LexLessTransitive(a: string, b: string, c: string)
    requires LexLess(a, b) && LexLess(b, c)
    ensures LexLess(a, c)
    decreases |a|
  {
    if a != [] && b != [] && c != [] && a[0] == b[0] && b[0] == c[0] {
      LexLessTransitive(a[1..], b[1..], c[1..]);
    }
  }

  lemma {:induction false} LexLessTotal(a: string, b: string)
    requires a != b
    ensures LexLess(a, b) || LexLess(b, a)
    decreases |a|
  {
    if a != [] && b != [] && a[0] == b[0] {
      assert a == [a[0]] + a[1..] && b == [b[0]] + b[1..];
      LexLessTotal(a[1..], b[1..]);
    }
  }

  lemma {:induction false} LexLessAsymmetric(a: string, b: string)
    requires LexLess(a, b)
    ensures !LexLess(b, a)
  {
    if LexLess(b, a) {
      LexLessTransitive(a, b, a);
      LexLessIrreflexive(a);
    }
  }

  /** Non-increasing by key: no key is below a key that comes after it. */
  ghost predicate SortedDesc<T>(s: seq<T>, key: T -> string) {
    forall i, j :: 0 <= i < j < |s| ==> !LexLess(key(s[i]), key(s[j]))
  }

  /** The elements whose key is `k`, in their order in `s`. */
  function WithKey<T>(s: seq<T>, k: string, key: T -> string): seq<T> {
    if s == [] then []
    else (if key(s[0]) == k then [s[0]] else []) + WithKey(s[1..], k, key)
  }

  /** Places `x` after every element whose key is not below its own. */
  function Insert<T>(x: T, s: seq<T>, key: T -> string): seq<T> {
    if s == [] then [x]
    else if LexLess(key(s[0]), key(x)) then [x] + s
    else [s[0]] + Insert(x, s[1..], key)
  }

  /** The list after `sort(key=key, reverse=True)`: each element, in input
      order, is inserted after the equal keys that came before it. */
  function SortDesc<T>(s: seq<T>, key: T -> string): seq<T> {
    if s == [] then [] else Insert(s[|s| - 1], SortDesc(s[..|s| - 1], key), key)
  }

  lemma {:induction false} WithKeyAppend<T>(a: seq<T>, b: seq<T>, k: string, key: T -> string)
    ensures WithKey(a + b, k, key) == WithKey(a, k, key) + WithKey(b, k, key)
  {
    if a == [] {
      assert a + b == b;
    } else {
      var h := if key(a[0]) == k then [a[0]] else [];
      assert (a + b)[0] == a[0];
      assert (a + b)[1..] == a[1..] + b;
      WithKeyAppend(a[1..], b, k, key);
      AppendAssoc(h, WithKey(a[1..], k, key), WithKey(b, k, key));
    }
  }

  lemma {:induction false} WithKeyMember<T>(s: seq<T>, k: string, key: T -> string, y: T)
    requires y in WithKey(s, k, key)
    ensures y in s && key(y) == k
  {
    if s != [] && !(key(s[0]) == k && y == s[0]) {
      WithKeyMember(s[1..], k, key, y);
    }
  }

  lemma {:induction false} WithKeyAbsent<T>(s: seq<T>, k: string, key: T -> string)
    requires forall i :: 0 <= i < |s| ==> key(s[i]) != k
    ensures WithKey(s, k, key) == []
  {
    if s != [] { WithKeyAbsent(s[1..], k, key); }
  }

  lemma {:induction false} InsertMultiset<T>(x: T, s: seq<T>, key: T -> string)
    ensures multiset(Insert(x, s, key)) == multiset(s) + multiset{x}
  {
    if s != [] && !LexLess(key(s[0]), key(x)) {
      InsertMultiset(x, s[1..], key);
      assert s == [s[0]] + s[1..];
    }
  }

  lemma {:induction false} InsertSorted<T>(x: T, s: seq<T>, key: T -> string)
    requires SortedDesc(s, key)
    ensures SortedDesc(Insert(x, s, key), key)
  {
    if s == [] {
    } else if LexLess(key(s[0]), key(x)) {
      forall j | 0 <= j < |s| ensures !LexLess(key(x), key(s[j])) {
        if j == 0 {
          LexLessAsymmetric(key(s[0]), key(x));
        } else if LexLess(key(x), key(s[j])) {
          LexLessTransitive(key(s[0]), key(x), key(s[j]));
        }
      }
    } else {
      var t := s[1..];
      assert SortedDesc(t, key);
      InsertSorted(x, t, key);
      var r := Insert(x, t, key);
      InsertMultiset(x, t, key);
      forall j | 0 <= j < |r| ensures !LexLess(key(s[0]), key(r[j])) {
        assert r[j] in multiset(t) + multiset{x};
        if r[j] != x {
          var m :| 0 <= m < |t| && t[m] == r[j];
          assert s[m + 1] == t[m];
        }
      }
    }
  }

  lemma {:induction false} InsertWithKey<T>(x: T, s: seq<T>, k: string, key: T -> string)
    requires SortedDesc(s, key)
    ensures WithKey(Insert(x, s, key), k, key)
         == WithKey(s, k, key) + (if key(x) == k then [x] else [])
  {
    if s == [] {
    } else if LexLess(key(s[0]), key(x)) {
      InsertFrontWithKey(x, s, k, key);
    } else {
      var t := s[1..];
      assert SortedDesc(t, key);
      InsertWithKey(x, t, k, key);
      assert ([s[0]] + Insert(x, t, key))[1..] == Insert(x, t, key);
      AppendAssoc(if key(s[0]) == k then [s[0]] else [], WithKey(t, k, key), if key(x) == k then [x] else []);
    }
  }

  /** An element placed in front of a sorted sequence whose keys are all below
      its own: no element before it shares its key. */
  lemma InsertFrontWithKey<T>(x: T, s: seq<T>, k: string, key: T -> string)
    requires SortedDesc(s, key) && s != [] && LexLess(key(s[0]), key(x))
    ensures WithKey([x] + s, k, key) == WithKey(s, k, key) + (if key(x) == k then [x] else [])
  {
    assert ([x] + s)[0] == x && ([x] + s)[1..] == s;
    if key(x) == k {
      forall i | 0 <= i < |s| ensures key(s[i]) != k {
        if i == 0 {
          LexLessIrreflexive(key(x));
        }
      }
      WithKeyAbsent(s, k, key);
    }
  }

  /** The sort's three promises: the result is ordered non-increasingly, it is
      a permutation of the input, and for every key the elements with that key
      appear in the input's order (the sort is stable). */
  lemma {:induction false} SortDescCorrect<T>(s: seq<T>, key: T -> string)
    ensures SortedDesc(SortDesc(s, key), key)
    ensures multiset(SortDesc(s, key)) == multiset(s)
    ensures forall k :: WithKey(SortDesc(s, key), k, key) == WithKey(s, k, key)
    decreases |s|
  {
    if s != [] {
      var p, x := s[..|s| - 1], s[|s| - 1];
      assert s == p + [x];
      SortDescCorrect(p, key);
      InsertSorted(x, SortDesc(p, key), key);
      InsertMultiset(x, SortDesc(p, key), key);
      forall k ensures WithKey(SortDesc(s, key), k, key) == WithKey(s, k, key) {
        InsertWithKey(x, SortDesc(p, key), k, key);
        WithKeyAppend(p, [x], k, key);
      }
    }
  }

  lemma WithKeyHead<T>(s: seq<T>, key: T -> string)
    requires s != []
    ensures WithKey(s, key(s[0]), key) == [s[0]] + WithKey(s[1..], key(s[0]), key)
  {
  }

  lemma SortedHeadNotBelow<T>(t: seq<T>, key: T -> string, y: T)
    requires SortedDesc(t, key) && y in t
    ensures !LexLess(key(t[0]), key(y))
  {
    var j :| 0 <= j < |t| && t[j] == y;
    if j == 0 { LexLessIrreflexive(key(y)); }
  }

  /** Two non-increasing sequences that hold the same elements in the same
      order for every key are the same sequence. */
  lemma {:induction false} SortedUnique<T>(r: seq<T>, t: seq<T>, key: T -> string)
    requires SortedDesc(r, key) && SortedDesc(t, key)
    requires forall k :: WithKey(r, k, key) == WithKey(t, k, key)
    ensures r == t
    decreases |r|
  {
    if r == [] || t == [] {
      if r != [] {
        WithKeyHead(r, key);
        assert false;
      } else if t != [] {
        WithKeyHead(t, key);
        assert false;
      }
    } else {
      var a, b := r[0], t[0];
      assert a in WithKey(t, key(a), key) by {
        assert WithKey(r, key(a), key) == [a] + WithKey(r[1..], key(a), key);
      }
      assert b in WithKey(r, key(b), key) by {
        assert WithKey(t, key(b), key) == [b] + WithKey(t[1..], key(b), key);
      }
      WithKeyMember(t, key(a), key, a);
      WithKeyMember(r, key(b), key, b);
      SortedHeadNotBelow(t, key, a);
      SortedHeadNotBelow(r, key, b);
      if key(a) != key(b) { LexLessTotal(key(a), key(b)); }
      assert key(a) == key(b);
      var ra, ta := WithKey(r[1..], key(a), key), WithKey(t[1..], key(a), key);
      assert WithKey(r, key(a), key) == [a] + ra;
      assert WithKey(t, key(a), key) == [b] + ta;
      assert WithKey(r, key(a), key) == WithKey(t, key(a), key);
      assert ([a] + ra)[0] == a && ([b] + ta)[0] == b;
      assert a == b;
      forall k ensures WithKey(r[1..], k, key) == WithKey(t[1..], k, key) {
        var rk, tk := WithKey(r[1..], k, key), WithKey(t[1..], k, key);
        assert WithKey(r, k, key) == WithKey(t, k, key);
        if key(a) == k {
          assert WithKey(r, k, key) == [a] + rk && WithKey(t, k, key) == [a] + tk;
          assert ([a] + rk)[1..] == rk && ([a] + tk)[1..] == tk;
        } else {
          assert WithKey(r, k, key) == rk && WithKey(t, k, key) == tk;
        }
      }
      SortedUnique(r[1..], t[1..], key);
      assert r == [a] + r[1..] && t == [b] + t[1..];
    }
  }

  /** What the sort computes, stated without it: a sequence is the sorted
      input exactly when it is non-increasing by key and holds, for every key,
      the input's elements with that key in the input's order. */
  lemma SortDescCharacterized<T>(s: seq<T>, r: seq<T>, key: T -> string)
    ensures r == SortDesc(s, key) ==> SortedDesc(r, key) && forall k :: WithKey(r, k, key) == WithKey(s, k, key)
    ensures SortedDesc(r, key) && (forall k :: WithKey(r, k, key) == WithKey(s, k, key)) ==> r == SortDesc(s, key)
  {
    SortDescCorrect(s, key);
    var q := SortDesc(s, key);
    if SortedDesc(r, key) && forall k :: WithKey(r, k, key) == WithKey(s, k, key) {
      forall k ensures WithKey(r, k, key) == WithKey(q, k, key) {
        assert WithKey(r, k, key) == WithKey(s, k, key);
      }
      SortedUnique(r, q, key);
    }
    if r == q {
      assert SortedDesc(r, key);
      assert forall k :: WithKey(r, k, key) == WithKey(s, k, key);
    }
  }
}
