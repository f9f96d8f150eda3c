/**
 * The specification of Python's `list.sort(key=..., reverse=...)` as the
 * record store uses it: a stable sort on a key. With `reverse=True` CPython
 * sorts so that keys are non-increasing while records with equal keys keep
 * their original order (it is not the reversal of the ascending result).
 */
module StableSort {

  /** A sort key: an `int` (views_count) or a `str` (name, post_date). */
  datatype Key = IntKey(n: int) | TextKey(s: string)

  /** Python's `<` on `str`: code-point lexicographic order, a proper prefix first. */
  predicate TextLess(a: string, b: string)
    decreases |a|
  {
    if |b| == 0 then false
    else if |a| == 0 then true
    else if a[0] != b[0] then a[0] < b[0]
    else TextLess(a[1..], b[1..])
  }

  /** `<` on keys; keys of one sort are all of one kind, the mixed cases only make the order total. */
  predicate KeyLess(a: Key, b: Key)
  {
    match (a, b)
    case (IntKey(x), IntKey(y)) => x < y
    case (TextKey(s), TextKey(t)) => TextLess(s, t)
    case (IntKey(_), TextKey(_)) => true
    case (TextKey(_), IntKey(_)) => false
  }

  /** Key `a` must be placed strictly before key `b` in the requested direction. */
  predicate Before(a: Key, b: Key, desc: bool)
  {
    if desc then KeyLess(b, a) else KeyLess(a, b)
  }

  lemma {:induction false} TextLessIrreflexive(a: string)
    ensures !TextLess(a, a)
    decreases |a|
  {
    if |a| > 0 { TextLessIrreflexive(a[1..]); }
  }

  lemma {:induction false} TextLessTransitive(a: string, b: string, c: string)
    requires TextLess(a, b) && TextLess(b, c)
    ensures TextLess(a, c)
    decreases |a|
  {
    if |a| > 0 && a[0] == b[0] && b[0] == c[0] {
      TextLessTransitive(a[1..], b[1..], c[1..]);
    }
  }

  lemma {:induction false} TextLessTotal(a: string, b: string)
    ensures a == b || TextLess(a, b) || TextLess(b, a)
    decreases |a|
  {
    if |a| > 0 && |b| > 0 && a[0] == b[0] {
      TextLessTotal(a[1..], b[1..]);
      if a[1..] == b[1..] {
        assert a == [a[0]] + a[1..] && b == [b[0]] + b[1..];
      }
    }
  }

  /** `Before` is a strict total order on keys, in both directions. */
  lemma BeforeIsStrictTotalOrder(a: Key, b: Key, c: Key, desc: bool)
    ensures !Before(a, a, desc)
    ensures Before(a, b, desc) ==> !Before(b, a, desc)
    ensures Before(a, b, desc) && Before(b, c, desc) ==> Before(a, c, desc)
    ensures a == b || Before(a, b, desc) || Before(b, a, desc)
  {
    if a.TextKey? {
      TextLessIrreflexive(a.s);
      if b.TextKey? {
        TextLessTotal(a.s, b.s);
        if TextLess(a.s, b.s) && TextLess(b.s, a.s) { TextLessTransitive(a.s, b.s, a.s); }
        if c.TextKey? {
          if TextLess(a.s, b.s) && TextLess(b.s, c.s) { TextLessTransitive(a.s, b.s, c.s); }
          if TextLess(c.s, b.s) && TextLess(b.s, a.s) { TextLessTransitive(c.s, b.s, a.s); }
        }
      }
    }
  }

  /** Inserts `x` after every element whose key does not come strictly after `x`'s. */
  function Insert<T>(x: T, s: seq<T>, key: T -> Key, desc: bool): seq<T>
    decreases |s|
  {
    if s == [] then [x]
    else if Before(key(x), key(s[0]), desc) then [x] + s
    else [s[0]] + Insert(x, s[1..], key, desc)
  }

  /** The stable sort: each element in turn is inserted after the equal keys before it. */
  function Sort<T>(s: seq<T>, key: T -> Key, desc: bool): seq<T>
    decreases |s|
  {
    if s == [] then []
    else Insert(s[|s| - 1], Sort(s[..|s| - 1], key, desc), key, desc)
  }

  /** Inserting adds exactly the one element. */
  lemma {:induction false} InsertPermutes<T>(x: T, s: seq<T>, key: T -> Key, desc: bool)
    ensures multiset(Insert(x, s, key, desc)) == multiset(s) + multiset{x}
    decreases |s|
  {
    if s != [] && !Before(key(x), key(s[0]), desc) {
      InsertPermutes(x, s[1..], key, desc);
      assert s == [s[0]] + s[1..];
    }
  }

  /** The sorted sequence is a permutation of the input. */
  lemma {:induction false} SortPermutes<T>(s: seq<T>, key: T -> Key, desc: bool)
    ensures multiset(Sort(s, key, desc)) == multiset(s)
    decreases |s|
  {
    if s != [] {
      SortPermutes(s[..|s| - 1], key, desc);
      InsertPermutes(s[|s| - 1], Sort(s[..|s| - 1], key, desc), key, desc);
      assert s == s[..|s| - 1] + [s[|s| - 1]];
    }
  }

  /** No element is followed by one whose key must come strictly before it. */
  ghost predicate Sorted<T>(s: seq<T>, key: T -> Key, desc: bool)
  {
    forall i, j :: 0 <= i < j < |s| ==> !Before(key(s[j]), key(s[i]), desc)
  }

  /** The elements of `s` whose key is `k`, in order. */
  function WithKey<T>(s: seq<T>, key: T -> Key, k: Key): seq<T>
    decreases |s|
  {
    if s == [] then []
    else (if key(s[0]) == k then [s[0]] else []) + WithKey(s[1..], key, k)
  }

  lemma {:induction false} WithKeyAppend<T>(a: seq<T>, b: seq<T>, key: T -> Key, k: Key)
    ensures WithKey(a + b, key, k) == WithKey(a, key, k) + WithKey(b, key, k)
    decreases |a|
  {
    if a == [] {
      assert a + b == b;
    } else {
      assert a + b == [a[0]] + (a[1..] + b);
      assert a == [a[0]] + a[1..];
      WithKeyAppend(a[1..], b, key, k);
      WithKeyCons(a[0], a[1..] + b, key, k);
      WithKeyCons(a[0], a[1..], key, k);
      var f0 := if key(a[0]) == k then [a[0]] else [];
      assert f0 + (WithKey(a[1..], key, k) + WithKey(b, key, k))
          == (f0 + WithKey(a[1..], key, k)) + WithKey(b, key, k);
    }
  }

  lemma {:induction false} WithKeyAbsent<T>(s: seq<T>, key: T -> Key, k: Key)
    requires forall i :: 0 <= i < |s| ==> key(s[i]) != k
    ensures WithKey(s, key, k) == []
    decreases |s|
  {
    if s != [] { WithKeyAbsent(s[1..], key, k); }
  }

  lemma {:induction false} InsertSorted<T>(x: T, s: seq<T>, key: T -> Key, desc: bool)
    requires Sorted(s, key, desc)
    ensures Sorted(Insert(x, s, key, desc), key, desc)
    decreases |s|
  {
    var r := Insert(x, s, key, desc);
    if s == [] {
    } else if Before(key(x), key(s[0]), desc) {
      forall i, j | 0 <= i < j < |r| ensures !Before(key(r[j]), key(r[i]), desc) {
        if i == 0 {
          BeforeIsStrictTotalOrder(key(s[0]), key(s[j - 1]), key(x), desc);
          BeforeIsStrictTotalOrder(key(x), key(s[0]), key(s[j - 1]), desc);
        }
      }
    } else {
      var t := Insert(x, s[1..], key, desc);
      InsertSorted(x, s[1..], key, desc);
      InsertPermutes(x, s[1..], key, desc);
      forall i, j | 0 <= i < j < |r| ensures !Before(key(r[j]), key(r[i]), desc) {
        if i == 0 {
          assert r[j] in multiset(t);
          assert r[j] == x || r[j] in s[1..];
          BeforeIsStrictTotalOrder(key(x), key(s[0]), key(x), desc);
        }
      }
    }
  }

  /** In a sorted sequence, a key placed strictly before the first one equals none of them. */
  lemma BeforeAllKeys<T>(kx: Key, s: seq<T>, key: T -> Key, desc: bool)
    requires s != [] && Sorted(s, key, desc) && Before(kx, key(s[0]), desc)
    ensures forall i :: 0 <= i < |s| ==> key(s[i]) != kx
  {
    forall i | 0 <= i < |s| ensures key(s[i]) != kx {
      if i > 0 { assert !Before(key(s[i]), key(s[0]), desc); }
      BeforeIsStrictTotalOrder(kx, key(s[0]), key(s[i]), desc);
      BeforeIsStrictTotalOrder(key(s[0]), key(s[i]), kx, desc);
    }
  }

  lemma WithKeyCons<T>(y: T, s: seq<T>, key: T -> Key, k: Key)
    ensures WithKey([y] + s, key, k) == (if key(y) == k then [y] else []) + WithKey(s, key, k)
  {
    assert ([y] + s)[0] == y && ([y] + s)[1..] == s;
  }

  lemma SortedTail<T>(s: seq<T>, key: T -> Key, desc: bool)
    requires s != [] && Sorted(s, key, desc)
    ensures Sorted(s[1..], key, desc)
  {
    forall i, j | 0 <= i < j < |s| - 1 ensures !Before(key(s[1..][j]), key(s[1..][i]), desc) {
      assert s[1..][i] == s[i + 1] && s[1..][j] == s[j + 1];
    }
  }

  lemma InsertUnfold<T>(x: T, s: seq<T>, key: T -> Key, desc: bool)
    requires s != []
    ensures Insert(x, s, key, desc)
         == if Before(key(x), key(s[0]), desc) then [x] + s else [s[0]] + Insert(x, s[1..], key, desc)
  {
  }

  /** Inserting `x` adds it to the elements with its key, after the ones already there. */
  lemma {:induction false} InsertWithKey<T>(x: T, s: seq<T>, key: T -> Key, desc: bool, k: Key)
    requires Sorted(s, key, desc)
    ensures WithKey(Insert(x, s, key, desc), key, k)
         == WithKey(s, key, k) + (if key(x) == k then [x] else [])
    decreases |s|
  {
    if s == [] {
      WithKeyCons(x, [], key, k);
      assert [x] + [] == [x];
    } else {
      InsertUnfold(x, s, key, desc);
      if Before(key(x), key(s[0]), desc) {
        FrontWithKey(x, s, key, desc, k);
      } else {
        SortedTail(s, key, desc);
        InsertWithKey(x, s[1..], key, desc, k);
        ConsWithKey(s[0], Insert(x, s[1..], key, desc), s[1..], if key(x) == k then [x] else [], key, k);
        assert [s[0]] + s[1..] == s;
      }
    }
  }

  /** An element placed in front of a sorted sequence it precedes is the only one with its key. */
  lemma FrontWithKey<T>(x: T, s: seq<T>, key: T -> Key, desc: bool, k: Key)
    requires s != [] && Sorted(s, key, desc) && Before(key(x), key(s[0]), desc)
    ensures WithKey([x] + s, key, k) == WithKey(s, key, k) + (if key(x) == k then [x] else [])
  {
    WithKeyCons(x, s, key, k);
    if key(x) == k {
      BeforeAllKeys(key(x), s, key, desc);
      WithKeyAbsent(s, key, k);
    }
  }

  /** Putting one element in front of two sequences keeps a relation between their keyed parts. */
  lemma ConsWithKey<T>(y: T, t: seq<T>, u: seq<T>, fx: seq<T>, key: T -> Key, k: Key)
    requires WithKey(t, key, k) == WithKey(u, key, k) + fx
    ensures WithKey([y] + t, key, k) == WithKey([y] + u, key, k) + fx
  {
    WithKeyCons(y, t, key, k);
    WithKeyCons(y, u, key, k);
    var fy := if key(y) == k then [y] else [];
    assert fy + (WithKey(u, key, k) + fx) == (fy + WithKey(u, key, k)) + fx;
  }

  /** The result is ordered by key. */
  lemma {:induction false} SortIsSorted<T>(s: seq<T>, key: T -> Key, desc: bool)
    ensures Sorted(Sort(s, key, desc), key, desc)
    decreases |s|
  {
    if s != [] {
      SortIsSorted(s[..|s| - 1], key, desc);
      InsertSorted(s[|s| - 1], Sort(s[..|s| - 1], key, desc), key, desc);
    }
  }

  lemma SortUnfold<T>(s: seq<T>, key: T -> Key, desc: bool)
    requires s != []
    ensures Sort(s, key, desc) == Insert(s[|s| - 1], Sort(s[..|s| - 1], key, desc), key, desc)
  {
  }

  lemma WithKeySnoc<T>(s: seq<T>, key: T -> Key, k: Key)
    requires s != []
    ensures WithKey(s, key, k)
         == WithKey(s[..|s| - 1], key, k) + (if key(s[|s| - 1]) == k then [s[|s| - 1]] else [])
  {
    assert s == s[..|s| - 1] + [s[|s| - 1]];
    WithKeyAppend(s[..|s| - 1], [s[|s| - 1]], key, k);
    WithKeyCons(s[|s| - 1], [], key, k);
    assert [s[|s| - 1]] + [] == [s[|s| - 1]];
  }

  /** Stability: the elements sharing any one key keep their original relative order. */
  lemma {:induction false} SortIsStable<T>(s: seq<T>, key: T -> Key, desc: bool, k: Key)
    ensures WithKey(Sort(s, key, desc), key, k) == WithKey(s, key, k)
    decreases |s|
  {
    if s != [] {
      var init := s[..|s| - 1];
      SortUnfold(s, key, desc);
      SortIsStable(init, key, desc, k);
      SortIsSorted(init, key, desc);
      InsertWithKey(s[|s| - 1], Sort(init, key, desc), key, desc, k);
      WithKeySnoc(s, key, k);
    }
  }

  /** Descending order is not the reversal of ascending order: two equal keys keep their order. */
  lemma DescendingIsNotReversed()
    ensures Sort([(1, 0), (1, 1)], (p: (int, int)) => IntKey(p.0), true) == [(1, 0), (1, 1)]
    ensures Sort([(1, 0), (1, 1)], (p: (int, int)) => IntKey(p.0), false) == [(1, 0), (1, 1)]
  {
    var key := (p: (int, int)) => IntKey(p.0);
    var s := [(1, 0), (1, 1)];
    forall desc: bool ensures Sort(s, key, desc) == s {
      assert Sort([(1, 0)], key, desc) == [(1, 0)] by {
        SortUnfold([(1, 0)], key, desc);
        assert [(1, 0)][..0] == [];
      }
      SortUnfold(s, key, desc);
      assert s[..1] == [(1, 0)];
      InsertUnfold((1, 1), [(1, 0)], key, desc);
      assert !Before(key((1, 1)), key((1, 0)), desc);
      assert [(1, 0)][1..] == [];
    }
  }
}
