/** Python's `sorted(items, key=..., reverse=...)` and `list.sort(...)`:
    a stable sort of key-decorated items.  Ascending (reverse = false) puts
    each item before every later item whose key is not smaller; descending
    (reverse = true) before every later item whose key is not larger; in
    both directions items with equal keys keep their original order. */
module Sorting {

  /** `le` is a total preorder: any two keys are comparable, and it is transitive. */
  ghost predicate TotalPreorder<K(!new)>(le: (K, K) -> bool)
  {
    && (forall a, b :: le(a, b) || le(b, a))
    && (forall a, b, c :: le(a, b) && le(b, c) ==> le(a, c))
  }

  /** `lt` is a strict total order: irreflexive, transitive, and any two distinct values are related. */
  ghost predicate StrictTotalOrder<E(!new)>(lt: (E, E) -> bool)
  {
    && (forall a :: !lt(a, a))
    && (forall a, b :: a != b ==> lt(a, b) || lt(b, a))
    && (forall a, b, c :: lt(a, b) && lt(b, c) ==> lt(a, c))
  }

  /** In a sort in the given direction, an item with key `a` may stand before one with key `b`. */
  predicate Precedes<K>(le: (K, K) -> bool, reverse: bool, a: K, b: K)
  {
    if reverse then le(b, a) else le(a, b)
  }

  predicate SortedBy<K, T>(s: seq<(K, T)>, le: (K, K) -> bool, reverse: bool)
  {
    forall i, j :: 0 <= i < j < |s| ==> Precedes(le, reverse, s[i].0, s[j].0)
  }

  /** The items of `s` whose key is `k`, in their order in `s`. */
  function WithKey<K(==), T>(s: seq<(K, T)>, k: K): (r: seq<(K, T)>)
    ensures |r| <= |s|
    ensures forall i :: 0 <= i < |r| ==> r[i].0 == k
  {
    if s == [] then [] else (if s[0].0 == k then [s[0]] else []) + WithKey(s[1..], k)
  }

  /** Puts `x` before the first item of `s` that it may precede. */
  function Insert<K(==), T(==)>(x: (K, T), s: seq<(K, T)>, le: (K, K) -> bool, reverse: bool): (r: seq<(K, T)>)
    ensures multiset(r) == multiset(s) + multiset{x}
  {
    if s == [] || Precedes(le, reverse, x.0, s[0].0) then [x] + s
    else
      assert s == [s[0]] + s[1..];
      [s[0]] + Insert(x, s[1..], le, reverse)
  }

  /** The stable sort of `s` by its keys. */
  function SortBy<K(==), T(==)>(s: seq<(K, T)>, le: (K, K) -> bool, reverse: bool): (r: seq<(K, T)>)
    ensures multiset(r) == multiset(s)
    ensures |r| == |s|
  {
    if s == [] then []
    else
      assert s == [s[0]] + s[1..];
      Insert(s[0], SortBy(s[1..], le, reverse), le, reverse)
  }

  lemma PrecedesTotalPreorder<K(!new)>(le: (K, K) -> bool, reverse: bool)
    requires TotalPreorder(le)
    ensures forall a, b :: Precedes(le, reverse, a, b) || Precedes(le, reverse, b, a)
    ensures forall a, b, c :: Precedes(le, reverse, a, b) && Precedes(le, reverse, b, c) ==> Precedes(le, reverse, a, c)
  {
  }

  lemma {:induction false} InsertSorted<K(!new), T>(x: (K, T), s: seq<(K, T)>, le: (K, K) -> bool, reverse: bool)
    requires TotalPreorder(le)
    requires SortedBy(s, le, reverse)
    ensures SortedBy(Insert(x, s, le, reverse), le, reverse)
  {
    PrecedesTotalPreorder(le, reverse);
    if s == [] || Precedes(le, reverse, x.0, s[0].0) {
    } else {
      var t := Insert(x, s[1..], le, reverse);
      InsertSorted(x, s[1..], le, reverse);
      var r := [s[0]] + t;
      forall j | 0 < j < |r| ensures Precedes(le, reverse, s[0].0, r[j].0) {
        assert r[j] in multiset(t);
        assert r[j] in multiset(s[1..]) + multiset{x};
        if r[j] != x {
          assert r[j] in s[1..];
          var m :| 0 <= m < |s[1..]| && s[1..][m] == r[j];
          assert s[m + 1] == r[j];
        }
      }
    }
  }

  /** The result of `SortBy` is in order. */
  lemma {:induction false} SortBySorted<K(!new), T>(s: seq<(K, T)>, le: (K, K) -> bool, reverse: bool)
    requires TotalPreorder(le)
    ensures SortedBy(SortBy(s, le, reverse), le, reverse)
  {
    if s != [] {
      SortBySorted(s[1..], le, reverse);
      InsertSorted(s[0], SortBy(s[1..], le, reverse), le, reverse);
    }
  }

  lemma {:induction false} InsertWithKey<K(!new), T>(x: (K, T), s: seq<(K, T)>, le: (K, K) -> bool, reverse: bool, k: K)
    requires TotalPreorder(le)
    ensures WithKey(Insert(x, s, le, reverse), k)
         == if x.0 == k then [x] + WithKey(s, k) else WithKey(s, k)
  {
    if s == [] || Precedes(le, reverse, x.0, s[0].0) {
      assert ([x] + s)[1..] == s;
    } else {
      assert s[0].0 != x.0 by { PrecedesTotalPreorder(le, reverse); }
      InsertWithKey(x, s[1..], le, reverse, k);
      assert ([s[0]] + Insert(x, s[1..], le, reverse))[1..] == Insert(x, s[1..], le, reverse);
    }
  }

  /** Stability: for every key, the items carrying it appear in the result
      in the same order as in the input. */
  lemma {:induction false} SortByStable<K(!new), T>(s: seq<(K, T)>, le: (K, K) -> bool, reverse: bool, k: K)
    requires TotalPreorder(le)
    ensures WithKey(SortBy(s, le, reverse), k) == WithKey(s, k)
  {
    if s != [] {
      SortByStable(s[1..], le, reverse, k);
      InsertWithKey(s[0], SortBy(s[1..], le, reverse), le, reverse, k);
    }
  }

  // `sorted(s, key=key, reverse=reverse)` on plain items: decorate each item
  // with its key, sort the pairs, drop the keys.

  function Decorate<K, T>(s: seq<T>, key: T -> K): seq<(K, T)>
  {
    seq(|s|, i requires 0 <= i < |s| => (key(s[i]), s[i]))
  }

  function Undecorate<K, T>(s: seq<(K, T)>): seq<T>
  {
    seq(|s|, i requires 0 <= i < |s| => s[i].1)
  }

  function SortByKey<K(==), T(==)>(s: seq<T>, key: T -> K, le: (K, K) -> bool, reverse: bool): (r: seq<T>)
    ensures |r| == |s|
  {
    Undecorate(SortBy(Decorate(s, key), le, reverse))
  }

  /** Every pair carries its item's key. */
  ghost predicate Keyed<K, T>(s: seq<(K, T)>, key: T -> K)
  {
    forall i :: 0 <= i < |s| ==> s[i].0 == key(s[i].1)
  }

  /** The items of `s` whose key is `k`, in their order in `s`. */
  function WithKeyOf<K(==), T>(s: seq<T>, key: T -> K, k: K): seq<T>
  {
    if s == [] then [] else (if key(s[0]) == k then [s[0]] else []) + WithKeyOf(s[1..], key, k)
  }

  lemma DecorateKeyed<K(!new), T(!new)>(s: seq<T>, key: T -> K, le: (K, K) -> bool, reverse: bool)
    ensures Keyed(Decorate(s, key), key)
    ensures Keyed(SortBy(Decorate(s, key), le, reverse), key)
    ensures Undecorate(Decorate(s, key)) == s
  {
    var d := Decorate(s, key);
    var sorted := SortBy(d, le, reverse);
    forall i | 0 <= i < |sorted| ensures sorted[i].0 == key(sorted[i].1) {
      assert sorted[i] in multiset(d);
    }
  }

  lemma {:induction false} UndecorateOccurrences<K, T>(s: seq<(K, T)>, key: T -> K, x: T)
    requires Keyed(s, key)
    ensures multiset(Undecorate(s))[x] == multiset(s)[(key(x), x)]
  {
    if s != [] {
      UndecorateOccurrences(s[1..], key, x);
      assert Undecorate(s) == [s[0].1] + Undecorate(s[1..]);
      assert s == [s[0]] + s[1..];
    }
  }

  lemma {:induction false} UndecorateWithKey<K, T>(s: seq<(K, T)>, key: T -> K, k: K)
    requires Keyed(s, key)
    ensures Undecorate(WithKey(s, k)) == WithKeyOf(Undecorate(s), key, k)
  {
    if s != [] {
      UndecorateWithKey(s[1..], key, k);
      assert Undecorate(s)[1..] == Undecorate(s[1..]);
      var head := if s[0].0 == k then [s[0]] else [];
      assert Undecorate(head + WithKey(s[1..], k)) == Undecorate(head) + Undecorate(WithKey(s[1..], k));
    }
  }

  /** The sorted list holds the same items, as many times each. */
  lemma SortByKeyPermutation<K(!new), T(!new)>(s: seq<T>, key: T -> K, le: (K, K) -> bool, reverse: bool)
    ensures multiset(SortByKey(s, key, le, reverse)) == multiset(s)
  {
    var d := Decorate(s, key);
    var sorted := SortBy(d, le, reverse);
    DecorateKeyed(s, key, le, reverse);
    forall x ensures multiset(SortByKey(s, key, le, reverse))[x] == multiset(s)[x] {
      UndecorateOccurrences(sorted, key, x);
      UndecorateOccurrences(d, key, x);
    }
  }

  /** The sorted list is in order of the keys. */
  lemma SortByKeySorted<K(!new), T(!new)>(s: seq<T>, key: T -> K, le: (K, K) -> bool, reverse: bool)
    requires TotalPreorder(le)
    ensures var r := SortByKey(s, key, le, reverse);
      forall i, j :: 0 <= i < j < |r| ==> Precedes(le, reverse, key(r[i]), key(r[j]))
  {
    SortBySorted(Decorate(s, key), le, reverse);
    DecorateKeyed(s, key, le, reverse);
  }

  /** Items with equal keys keep their order. */
  lemma SortByKeyStable<K(!new), T(!new)>(s: seq<T>, key: T -> K, le: (K, K) -> bool, reverse: bool, k: K)
    requires TotalPreorder(le)
    ensures WithKeyOf(SortByKey(s, key, le, reverse), key, k) == WithKeyOf(s, key, k)
  {
    var d := Decorate(s, key);
    SortByStable(d, le, reverse, k);
    DecorateKeyed(s, key, le, reverse);
    UndecorateWithKey(SortBy(d, le, reverse), key, k);
    UndecorateWithKey(d, key, k);
  }

  // Orders on the keys the two tools sort by.

  predicate IntLe(a: int, b: int) { a <= b }

  lemma IntLeTotalPreorder()
    ensures TotalPreorder(IntLe)
  {
  }

  /** Python's ordering of sequences: the first position at which they differ
      decides by `lt`; a proper prefix comes first. */
  predicate LexLe<E(==)>(a: seq<E>, b: seq<E>, lt: (E, E) -> bool)
  {
    if a == [] then true
    else if b == [] then false
    else if a[0] != b[0] then lt(a[0], b[0])
    else LexLe(a[1..], b[1..], lt)
  }

  lemma {:induction false} LexLeTotal<E(!new)>(a: seq<E>, b: seq<E>, lt: (E, E) -> bool)
    requires StrictTotalOrder(lt)
    ensures LexLe(a, b, lt) || LexLe(b, a, lt)
  {
    if a != [] && b != [] && a[0] == b[0] {
      LexLeTotal(a[1..], b[1..], lt);
    }
  }

  lemma {:induction false} LexLeTransitive<E(!new)>(a: seq<E>, b: seq<E>, c: seq<E>, lt: (E, E) -> bool)
    requires StrictTotalOrder(lt)
    requires LexLe(a, b, lt) && LexLe(b, c, lt)
    ensures LexLe(a, c, lt)
  {
    if a != [] && b != [] && c != [] && a[0] == b[0] && b[0] == c[0] {
      LexLeTransitive(a[1..], b[1..], c[1..], lt);
    }
  }

  lemma {:induction false} LexLeAntisymmetric<E(!new)>(a: seq<E>, b: seq<E>, lt: (E, E) -> bool)
    requires StrictTotalOrder(lt)
    requires LexLe(a, b, lt) && LexLe(b, a, lt)
    ensures a == b
  {
    if a != [] && b != [] {
      LexLeAntisymmetric(a[1..], b[1..], lt);
      assert a == [a[0]] + a[1..] && b == [b[0]] + b[1..];
    }
  }

  predicate CharLt(a: char, b: char) { a < b }

  /** Python's `<=` on `str`: code point by code point. */
  predicate StringLe(a: string, b: string) { LexLe(a, b, CharLt) }

  lemma StringLeTotalPreorder()
    ensures TotalPreorder(StringLe)
  {
    assert StrictTotalOrder(CharLt);
    forall a: string, b: string ensures StringLe(a, b) || StringLe(b, a) {
      LexLeTotal(a, b, CharLt);
    }
    forall a: string, b: string, c: string | StringLe(a, b) && StringLe(b, c) ensures StringLe(a, c) {
      LexLeTransitive(a, b, c, CharLt);
    }
  }
}
