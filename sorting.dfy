/** A stable sort by an integer key. The server's `list.sort(key=len,
    reverse=True)` is this sort with key `-len` (Python keeps equal keys in
    their original order, also when reversing), and the client's
    `split('').sort()` on characters is this sort with the code point as key. */
module Sorting {

  ghost predicate SortedBy<T>(s: seq<T>, key: T -> int) {
    forall i, j :: 0 <= i < j < |s| ==> key(s[i]) <= key(s[j])
  }

  /** The elements of `s` whose key is `k`, in their order in `s`. */
  function WithKey<T>(s: seq<T>, key: T -> int, k: int): (r: seq<T>)
    ensures |r| <= |s|
  {
    if s == [] then []
    else (if key(s[0]) == k then [s[0]] else []) + WithKey(s[1..], key, k)
  }

  /** Puts `x` after every element whose key is not larger than its own. */
  function Insert<T>(x: T, s: seq<T>, key: T -> int): (r: seq<T>)
    ensures multiset(r) == multiset(s) + multiset{x}
  {
    if s == [] then [x]
    else if key(s[0]) <= key(x) then
      assert s == [s[0]] + s[1..];
      [s[0]] + Insert(x, s[1..], key)
    else [x] + s
  }

  /** Insertion sort, taking the elements from the front of `s`. */
  function SortBy<T>(s: seq<T>, key: T -> int): (r: seq<T>)
    ensures multiset(r) == multiset(s)
  {
    if s == [] then []
    else
      assert s == s[..|s| - 1] + [s[|s| - 1]];
      Insert(s[|s| - 1], SortBy(s[..|s| - 1], key), key)
  }

  lemma SortedTail<T>(s: seq<T>, key: T -> int)
    requires s != [] && SortedBy(s, key)
    ensures SortedBy(s[1..], key)
  {
  }

  lemma {:induction false} InsertSorted<T>(x: T, s: seq<T>, key: T -> int)
    requires SortedBy(s, key)
    ensures SortedBy(Insert(x, s, key), key)
  {
    if s == [] {
    } else if key(s[0]) <= key(x) {
      var t := s[1..];
      SortedTail(s, key);
      InsertSorted(x, t, key);
      var r := Insert(x, t, key);
      forall i | 0 <= i < |r| ensures key(s[0]) <= key(r[i]) {
        assert r[i] in multiset(t) + multiset{x} by {
          assert r[i] in multiset(r);
        }
        if r[i] != x {
          var j :| 0 <= j < |t| && t[j] == r[i];
          assert s[j + 1] == r[i];
        }
      }
      PrependSorted(s[0], r, key);
    } else {
      forall i | 0 <= i < |s| ensures key(x) <= key(s[i]) {
        assert i == 0 || key(s[0]) <= key(s[i]);
      }
      PrependSorted(x, s, key);
    }
  }

  lemma PrependSorted<T>(y: T, r: seq<T>, key: T -> int)
    requires SortedBy(r, key)
    requires forall i :: 0 <= i < |r| ==> key(y) <= key(r[i])
    ensures SortedBy([y] + r, key)
  {
  }

  /** The sort orders its output by non-decreasing key. */
  lemma {:induction false} SortByIsSorted<T>(s: seq<T>, key: T -> int)
    ensures SortedBy(SortBy(s, key), key)
  {
    if s != [] {
      SortByIsSorted(s[..|s| - 1], key);
      InsertSorted(s[|s| - 1], SortBy(s[..|s| - 1], key), key);
    }
  }

  lemma {:induction false} WithKeyAppend<T>(a: seq<T>, b: seq<T>, key: T -> int, k: int)
    ensures WithKey(a + b, key, k) == WithKey(a, key, k) + WithKey(b, key, k)
  {
    if a != [] {
      assert (a + b)[0] == a[0] && (a + b)[1..] == a[1..] + b;
      WithKeyAppend(a[1..], b, key, k);
    } else {
      assert a + b == b;
    }
  }

  lemma {:induction false} WithKeyNone<T>(s: seq<T>, key: T -> int, k: int)
    requires forall i :: 0 <= i < |s| ==> key(s[i]) != k
    ensures WithKey(s, key, k) == []
  {
    if s != [] {
      WithKeyNone(s[1..], key, k);
    }
  }

  lemma {:induction false} InsertWithKey<T>(x: T, s: seq<T>, key: T -> int, k: int)
    requires SortedBy(s, key)
    ensures WithKey(Insert(x, s, key), key, k)
         == WithKey(s, key, k) + (if key(x) == k then [x] else [])
    decreases |s|, 1
  {
    if s == [] {
    } else if key(s[0]) <= key(x) {
      InsertWithKeyBehind(x, s, key, k);
    } else {
      InsertWithKeyInFront(x, s, key, k);
    }
  }

  lemma {:induction false} InsertWithKeyBehind<T>(x: T, s: seq<T>, key: T -> int, k: int)
    requires SortedBy(s, key) && s != [] && key(s[0]) <= key(x)
    ensures WithKey(Insert(x, s, key), key, k)
         == WithKey(s, key, k) + (if key(x) == k then [x] else [])
    decreases |s|, 0
  {
    var t := s[1..];
    var r := Insert(x, t, key);
    var head := if key(s[0]) == k then [s[0]] else [];
    var tail := if key(x) == k then [x] else [];
    assert WithKey(r, key, k) == WithKey(t, key, k) + tail by {
      SortedTail(s, key);
      InsertWithKey(x, t, key, k);
    }
    assert WithKey(Insert(x, s, key), key, k) == head + WithKey(r, key, k) by {
      assert Insert(x, s, key) == [s[0]] + r;
      WithKeyAppend([s[0]], r, key, k);
      assert [s[0]][1..] == [];
    }
    assert WithKey(s, key, k) == head + WithKey(t, key, k) by {
    }
    calc {
      WithKey(Insert(x, s, key), key, k);
      head + WithKey(r, key, k);
      head + (WithKey(t, key, k) + tail);
      { SeqAssoc(head, WithKey(t, key, k), tail); }
      (head + WithKey(t, key, k)) + tail;
      WithKey(s, key, k) + tail;
    }
  }

  lemma SeqAssoc<T>(a: seq<T>, b: seq<T>, c: seq<T>)
    ensures a + (b + c) == (a + b) + c
  {
  }

  lemma InsertWithKeyInFront<T>(x: T, s: seq<T>, key: T -> int, k: int)
    requires SortedBy(s, key) && s != [] && key(x) < key(s[0])
    ensures WithKey(Insert(x, s, key), key, k)
         == WithKey(s, key, k) + (if key(x) == k then [x] else [])
  {
    assert Insert(x, s, key) == [x] + s;
    assert ([x] + s)[1..] == s;
    if key(x) == k {
      // every element of s has a key above key(x), so none has key k
      forall i | 0 <= i < |s| ensures key(s[i]) != k {
        assert i == 0 || key(s[0]) <= key(s[i]);
      }
      WithKeyNone(s, key, k);
    }
  }

  /** Stability: among elements with equal keys the sort keeps the input order. */
  lemma {:induction false} SortByIsStable<T>(s: seq<T>, key: T -> int, k: int)
    ensures WithKey(SortBy(s, key), key, k) == WithKey(s, key, k)
  {
    if s != [] {
      var init, last := s[..|s| - 1], s[|s| - 1];
      var sorted := SortBy(init, key);
      var tail := if key(last) == k then [last] else [];
      assert WithKey(SortBy(s, key), key, k) == WithKey(sorted, key, k) + tail by {
        assert SortBy(s, key) == Insert(last, sorted, key);
        SortByIsSorted(init, key);
        InsertWithKey(last, sorted, key, k);
      }
      assert WithKey(sorted, key, k) == WithKey(init, key, k) by {
        SortByIsStable(init, key, k);
      }
      assert WithKey(s, key, k) == WithKey(init, key, k) + tail by {
        assert s == init + [last];
        WithKeyAppend(init, [last], key, k);
        assert [last][1..] == [];
      }
    }
  }

  /** `SortByIsStable` for a list already known to be the sorted one. */
  lemma SortedWithKey<T>(s: seq<T>, sorted: seq<T>, key: T -> int, k: int)
    requires sorted == SortBy(s, key)
    ensures WithKey(sorted, key, k) == WithKey(s, key, k)
  {
    SortByIsStable(s, key, k);
  }

  /** Two sorted arrangements of the same elements coincide when the key tells
      every two elements apart. */
  lemma {:induction false} SortedArrangementUnique<T>(a: seq<T>, b: seq<T>, key: T -> int)
    requires forall x, y :: key(x) == key(y) ==> x == y
    requires SortedBy(a, key) && SortedBy(b, key)
    requires multiset(a) == multiset(b)
    ensures a == b
  {
    if a == [] {
      assert |b| == |multiset(b)| == 0;
    } else {
      SortedHeadsEqual(a, b, key);
      assert multiset(a[1..]) == multiset(b[1..]) by {
        assert a == [a[0]] + a[1..] && b == [b[0]] + b[1..];
        assert multiset(a[1..]) == multiset(a) - multiset{a[0]};
        assert multiset(b[1..]) == multiset(b) - multiset{b[0]};
      }
      SortedTail(a, key);
      SortedTail(b, key);
      SortedArrangementUnique(a[1..], b[1..], key);
      assert a == [a[0]] + a[1..] && b == [b[0]] + b[1..];
    }
  }

  /** Two sorted arrangements of the same elements start with elements of the
      same key, hence with the same element when the key is injective. */
  lemma SortedHeadsEqual<T>(a: seq<T>, b: seq<T>, key: T -> int)
    requires forall x, y :: key(x) == key(y) ==> x == y
    requires SortedBy(a, key) && SortedBy(b, key)
    requires multiset(a) == multiset(b) && a != []
    ensures b != [] && a[0] == b[0]
  {
    assert a[0] in multiset(a);
    var i :| 0 <= i < |b| && b[i] == a[0];
    assert b[0] in multiset(b);
    var j :| 0 <= j < |a| && a[j] == b[0];
    assert i == 0 || key(b[0]) <= key(b[i]);
    assert j == 0 || key(a[0]) <= key(a[j]);
  }
}
