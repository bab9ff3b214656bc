/** Python's ordering of sort keys and its stable `sorted`/`list.sort`. */
module Sorting {

  /** One component of a sort key: every key function of the plugin returns an int,
      a string, or a tuple of those. */
  datatype KeyPart = IntPart(i: int) | StrPart(s: string)

  /** A key is the tuple of its components; a bare int or str is a one-tuple. */
  type Key = seq<KeyPart>

  /** Python's `<` on str: code points compared lexicographically. */
  predicate StrLt(a: string, b: string)
    decreases |a|
  {
    if a == [] then b != []
    else if b == [] then false
    else if a[0] == b[0] then StrLt(a[1..], b[1..])
    else a[0] < b[0]
  }

  /** Ints before strings: the plugin never compares an int with a str in the same
      position, where Python would raise TypeError, so this choice is never observed. */
  predicate PartLt(a: KeyPart, b: KeyPart) {
    match (a, b)
    case (IntPart(x), IntPart(y)) => x < y
    case (StrPart(x), StrPart(y)) => StrLt(x, y)
    case (IntPart(_), StrPart(_)) => true
    case (StrPart(_), IntPart(_)) => false
  }

  /** Python's `<` on tuples: lexicographic. */
  predicate KeyLt(a: Key, b: Key)
    decreases |a|
  {
    if a == [] then b != []
    else if b == [] then false
    else if a[0] == b[0] then KeyLt(a[1..], b[1..])
    else PartLt(a[0], b[0])
  }

  lemma {:induction false} StrLtIrreflexive(a: string)
    ensures !StrLt(a, a)
    decreases |a|
  {
    if a != [] { StrLtIrreflexive(a[1..]); }
  }

  lemma {:induction false} StrLtTrans(a: string, b: string, c: string)
    requires StrLt(a, b) && StrLt(b, c)
    ensures StrLt(a, c)
    decreases |a|
  {
    if a != [] && b != [] && c != [] && a[0] == b[0] == c[0] {
      StrLtTrans(a[1..], b[1..], c[1..]);
    }
  }

  lemma {:induction false} StrLtTotal(a: string, b: string)
    requires a != b
    ensures StrLt(a, b) || StrLt(b, a)
    decreases |a|
  {
    if a != [] && b != [] && a[0] == b[0] {
      assert a == [a[0]] + a[1..] && b == [b[0]] + b[1..];
      StrLtTotal(a[1..], b[1..]);
    }
  }

  lemma {:induction false} StrLtAsym(a: string, b: string)
    requires StrLt(a, b)
    ensures !StrLt(b, a)
  {
    if StrLt(b, a) {
      StrLtTrans(a, b, a);
      StrLtIrreflexive(a);
    }
  }

  lemma {:induction false} KeyLtIrreflexive(a: Key)
    ensures !KeyLt(a, a)
    decreases |a|
  {
    if a != [] { KeyLtIrreflexive(a[1..]); }
  }

  lemma PartLtTrans(a: KeyPart, b: KeyPart, c: KeyPart)
    requires PartLt(a, b) && PartLt(b, c)
    ensures PartLt(a, c)
  {
    if a.StrPart? && b.StrPart? && c.StrPart? { StrLtTrans(a.s, b.s, c.s); }
  }

  lemma PartLtTotal(a: KeyPart, b: KeyPart)
    requires a != b
    ensures PartLt(a, b) || PartLt(b, a)
  {
    if a.StrPart? && b.StrPart? { StrLtTotal(a.s, b.s); }
  }

  lemma {:induction false} KeyLtTrans(a: Key, b: Key, c: Key)
    requires KeyLt(a, b) && KeyLt(b, c)
    ensures KeyLt(a, c)
    decreases |a|
  {
    if a != [] && b != [] && c != [] {
      if a[0] == b[0] == c[0] {
        KeyLtTrans(a[1..], b[1..], c[1..]);
      } else if a[0] != b[0] && b[0] != c[0] {
        PartLtTrans(a[0], b[0], c[0]);
        if a[0] == c[0] { PartLtTrans(a[0], b[0], a[0]); PartLtIrreflexive(a[0]); }
      }
    }
  }

  lemma PartLtIrreflexive(a: KeyPart)
    ensures !PartLt(a, a)
  {
    if a.StrPart? { StrLtIrreflexive(a.s); }
  }

  lemma {:induction false} KeyLtTotal(a: Key, b: Key)
    requires a != b
    ensures KeyLt(a, b) || KeyLt(b, a)
    decreases |a|
  {
    if a != [] && b != [] {
      if a[0] == b[0] {
        assert a == [a[0]] + a[1..] && b == [b[0]] + b[1..];
        KeyLtTotal(a[1..], b[1..]);
      } else {
        PartLtTotal(a[0], b[0]);
      }
    }
  }

  lemma KeyLtAsym(a: Key, b: Key)
    requires KeyLt(a, b)
    ensures !KeyLt(b, a)
  {
    if KeyLt(b, a) {
      KeyLtTrans(a, b, a);
      KeyLtIrreflexive(a);
    }
  }

  /** Tuples with a common first component compare by the rest. */
  lemma KeyLtSameHead(x: KeyPart, a: Key, b: Key)
    ensures KeyLt([x] + a, [x] + b) == KeyLt(a, b)
  {
    assert ([x] + a)[1..] == a && ([x] + b)[1..] == b;
  }

  /** One-tuples compare by their only component. */
  lemma KeyLtSingle(p: KeyPart, q: KeyPart)
    ensures KeyLt([p], [q]) == PartLt(p, q)
  {
    if p == q {
      PartLtIrreflexive(p);
      assert [p][1..] == [];
    }
  }

  /** `a` must be placed strictly before `b`: ascending, or descending when `reverse`. */
  predicate Before(a: Key, b: Key, reverse: bool) {
    if reverse then KeyLt(b, a) else KeyLt(a, b)
  }

  /** Insert `x` in front of the first element it does not have to follow. */
  function Insert<T>(x: T, t: seq<T>, key: T -> Key, reverse: bool): (r: seq<T>)
    ensures multiset(r) == multiset(t) + multiset{x}
  {
    if t == [] || !Before(key(t[0]), key(x), reverse) then [x] + t
    else
      assert t == [t[0]] + t[1..];
      [t[0]] + Insert(x, t[1..], key, reverse)
  }

  /** Python's `sorted(s, key=key, reverse=reverse)`: a stable sort. */
  function SortBy<T>(s: seq<T>, key: T -> Key, reverse: bool): (r: seq<T>)
    ensures multiset(r) == multiset(s)
  {
    if s == [] then []
    else
      assert s == [s[0]] + s[1..];
      Insert(s[0], SortBy(s[1..], key, reverse), key, reverse)
  }

  /** No element has to be placed before one that precedes it. */
  ghost predicate SortedBy<T>(s: seq<T>, key: T -> Key, reverse: bool) {
    forall i, j :: 0 <= i < j < |s| ==> !Before(key(s[j]), key(s[i]), reverse)
  }

  /** The elements of `s` whose key is `k`, in their order in `s`. */
  function WithKey<T>(s: seq<T>, key: T -> Key, k: Key): seq<T> {
    if s == [] then []
    else (if key(s[0]) == k then [s[0]] else []) + WithKey(s[1..], key, k)
  }

  /** `!Before` is transitive: the order is a strict total order on keys. */
  lemma NotBeforeTrans(a: Key, b: Key, c: Key, reverse: bool)
    requires !Before(b, a, reverse) && !Before(c, b, reverse)
    ensures !Before(c, a, reverse)
  {
    if Before(c, a, reverse) {
      if a == b {
      } else if b == c {
      } else {
        KeyLtTotal(a, b);
        KeyLtTotal(b, c);
        if reverse { KeyLtTrans(c, b, a); KeyLtAsym(c, a); }
        else { KeyLtTrans(a, b, c); KeyLtAsym(a, c); }
      }
    }
  }

  lemma {:induction false} InsertSorted<T>(x: T, t: seq<T>, key: T -> Key, reverse: bool)
    requires SortedBy(t, key, reverse)
    ensures SortedBy(Insert(x, t, key, reverse), key, reverse)
  {
    var r := Insert(x, t, key, reverse);
    if t == [] {
    } else if !Before(key(t[0]), key(x), reverse) {
      forall j | 0 < j < |r| ensures !Before(key(r[j]), key(r[0]), reverse) {
        assert r[j] == t[j - 1];
        if j > 1 {
          assert !Before(key(t[j - 1]), key(t[0]), reverse);
          NotBeforeTrans(key(x), key(t[0]), key(t[j - 1]), reverse);
        }
      }
    } else {
      var t' := t[1..];
      assert SortedBy(t', key, reverse) by {
        forall i, j | 0 <= i < j < |t'| ensures !Before(key(t'[j]), key(t'[i]), reverse) {
          assert t'[i] == t[i + 1] && t'[j] == t[j + 1];
        }
      }
      InsertSorted(x, t', key, reverse);
      var r' := Insert(x, t', key, reverse);
      assert r == [t[0]] + r';
      forall j | 0 <= j < |r'| ensures !Before(key(r'[j]), key(t[0]), reverse) {
        assert r'[j] in multiset(r');
        assert r'[j] == x || r'[j] in multiset(t');
        if r'[j] == x {
          if reverse { KeyLtAsym(key(x), key(t[0])); } else { KeyLtAsym(key(t[0]), key(x)); }
        } else {
          var m :| 0 <= m < |t'| && t'[m] == r'[j];
          assert t'[m] == t[m + 1];
        }
      }
    }
  }

  lemma {:induction false} SortBySorted<T>(s: seq<T>, key: T -> Key, reverse: bool)
    ensures SortedBy(SortBy(s, key, reverse), key, reverse)
  {
    if s != [] {
      SortBySorted(s[1..], key, reverse);
      InsertSorted(s[0], SortBy(s[1..], key, reverse), key, reverse);
    }
  }

  lemma {:induction false} WithKeyConcat<T>(a: seq<T>, b: seq<T>, key: T -> Key, k: Key)
    ensures WithKey(a + b, key, k) == WithKey(a, key, k) + WithKey(b, key, k)
  {
    if a == [] {
      assert a + b == b;
    } else {
      var head := if key(a[0]) == k then [a[0]] else [];
      assert (a + b)[0] == a[0];
      assert (a + b)[1..] == a[1..] + b;
      WithKeyConcat(a[1..], b, key, k);
      calc {
        WithKey(a + b, key, k);
        head + WithKey(a[1..] + b, key, k);
        head + (WithKey(a[1..], key, k) + WithKey(b, key, k));
        (head + WithKey(a[1..], key, k)) + WithKey(b, key, k);
      }
    }
  }

  lemma WithKeyCons<T>(y: T, r: seq<T>, key: T -> Key, k: Key)
    ensures WithKey([y] + r, key, k) == (if key(y) == k then [y] else []) + WithKey(r, key, k)
  {
    assert ([y] + r)[0] == y && ([y] + r)[1..] == r;
  }

  lemma SwapPrefix<T>(h: seq<T>, xs: seq<T>, w: seq<T>)
    requires h == [] || xs == []
    ensures h + (xs + w) == xs + (h + w)
  {
    if h == [] { assert h + (xs + w) == xs + w; } else { assert xs + (h + w) == h + w; }
  }

  lemma {:induction false} InsertWithKey<T>(x: T, t: seq<T>, key: T -> Key, reverse: bool, k: Key)
    ensures WithKey(Insert(x, t, key, reverse), key, k)
         == (if key(x) == k then [x] else []) + WithKey(t, key, k)
  {
    if t != [] && Before(key(t[0]), key(x), reverse) {
      InsertWithKey(x, t[1..], key, reverse, k);
      var r' := Insert(x, t[1..], key, reverse);
      assert Insert(x, t, key, reverse) == [t[0]] + r';
      WithKeyCons(t[0], r', key, k);
      assert t == [t[0]] + t[1..];
      WithKeyCons(t[0], t[1..], key, k);
      if key(x) == k && key(t[0]) == k {
        KeyLtIrreflexive(k);
      }
      SwapPrefix(if key(t[0]) == k then [t[0]] else [], if key(x) == k then [x] else [], WithKey(t[1..], key, k));
    } else {
      WithKeyCons(x, t, key, k);
    }
  }

  /** Stability: the elements sharing one key keep their relative order. */
  lemma {:induction false} SortByStable<T>(s: seq<T>, key: T -> Key, reverse: bool, k: Key)
    ensures WithKey(SortBy(s, key, reverse), key, k) == WithKey(s, key, k)
  {
    if s != [] {
      SortByStable(s[1..], key, reverse, k);
      InsertWithKey(s[0], SortBy(s[1..], key, reverse), key, reverse, k);
    }
  }

  /** The sort only looks at the keys of the elements it sorts. */
  lemma {:induction false} InsertCongruent<T>(x: T, t: seq<T>, k1: T -> Key, k2: T -> Key, reverse: bool)
    requires k1(x) == k2(x) && forall i :: 0 <= i < |t| ==> k1(t[i]) == k2(t[i])
    ensures Insert(x, t, k1, reverse) == Insert(x, t, k2, reverse)
  {
    if t != [] && Before(k1(t[0]), k1(x), reverse) {
      InsertCongruent(x, t[1..], k1, k2, reverse);
    }
  }

  lemma {:induction false} SortByCongruent<T>(s: seq<T>, k1: T -> Key, k2: T -> Key, reverse: bool)
    requires forall i :: 0 <= i < |s| ==> k1(s[i]) == k2(s[i])
    ensures SortBy(s, k1, reverse) == SortBy(s, k2, reverse)
  {
    if s != [] {
      SortByCongruent(s[1..], k1, k2, reverse);
      var t := SortBy(s[1..], k1, reverse);
      forall i | 0 <= i < |t| ensures k1(t[i]) == k2(t[i]) {
        assert t[i] in multiset(s[1..]);
      }
      InsertCongruent(s[0], t, k1, k2, reverse);
    }
  }

  /** Each element paired with its precomputed key. */
  function Decorate<T>(s: seq<T>, ks: seq<Key>): (r: seq<(T, Key)>)
    requires |ks| == |s|
    ensures |r| == |s| && forall i :: 0 <= i < |s| ==> r[i] == (s[i], ks[i])
  {
    seq(|s|, i requires 0 <= i < |s| => (s[i], ks[i]))
  }

  /** The elements without their keys. */
  function Undecorate<T>(p: seq<(T, Key)>): (r: seq<T>)
    ensures |r| == |p| && forall i :: 0 <= i < |p| ==> r[i] == p[i].0
  {
    seq(|p|, i requires 0 <= i < |p| => p[i].0)
  }

  function PairKey<T>(): ((T, Key)) -> Key {
    (p: (T, Key)) => p.1
  }

  /** Python's `list.sort(key=key, reverse=reverse)`: the key of every element is computed
      once, before any element moves (`ks`), and the elements are sorted stably by it. */
  function SortByKeys<T>(s: seq<T>, ks: seq<Key>, reverse: bool): seq<T>
    requires |ks| == |s|
  {
    Undecorate(SortBy(Decorate(s, ks), PairKey(), reverse))
  }

  /** Sorting by precomputed keys is sorting by the key function that computed them. */
  lemma SortByKeysIsSortBy<T>(s: seq<T>, ks: seq<Key>, key: T -> Key, reverse: bool)
    requires |ks| == |s| && forall i :: 0 <= i < |s| ==> ks[i] == key(s[i])
    ensures SortByKeys(s, ks, reverse) == SortBy(s, key, reverse)
  {
    var d := Decorate(s, ks);
    assert Undecorate(d) == s;
    SortDecorated(d, key, reverse);
  }

  /** The second component of every pair is the key of its first. */
  ghost predicate KeyedBy<T>(d: seq<(T, Key)>, key: T -> Key) {
    forall i :: 0 <= i < |d| ==> d[i].1 == key(d[i].0)
  }

  lemma KeyedPermutation<T>(d: seq<(T, Key)>, t: seq<(T, Key)>, key: T -> Key)
    requires KeyedBy(d, key) && multiset(d) == multiset(t)
    ensures KeyedBy(t, key)
  {
    forall i | 0 <= i < |t| ensures t[i].1 == key(t[i].0) {
      assert t[i] in multiset(d);
      assert t[i] in d;
      var j :| 0 <= j < |d| && d[j] == t[i];
    }
  }

  lemma {:induction false} SortDecorated<T>(d: seq<(T, Key)>, key: T -> Key, reverse: bool)
    requires KeyedBy(d, key)
    ensures Undecorate(SortBy(d, PairKey(), reverse)) == SortBy(Undecorate(d), key, reverse)
  {
    if d != [] {
      var t := SortBy(d[1..], PairKey(), reverse);
      assert KeyedBy(d[1..], key) by {
        forall i | 0 <= i < |d[1..]| ensures d[1..][i].1 == key(d[1..][i].0) { assert d[1..][i] == d[i + 1]; }
      }
      SortDecorated(d[1..], key, reverse);
      assert Undecorate(d)[1..] == Undecorate(d[1..]);
      KeyedPermutation(d[1..], t, key);
      InsertDecorated(d[0], t, key, reverse);
    }
  }

  lemma {:induction false} InsertDecorated<T>(x: (T, Key), t: seq<(T, Key)>, key: T -> Key, reverse: bool)
    requires x.1 == key(x.0) && KeyedBy(t, key)
    ensures Undecorate(Insert(x, t, PairKey(), reverse)) == Insert(x.0, Undecorate(t), key, reverse)
  {
    var u := Undecorate(t);
    if t == [] || !Before(t[0].1, x.1, reverse) {
      UndecorateCons(x, t);
    } else {
      assert KeyedBy(t[1..], key) by {
        forall i | 0 <= i < |t[1..]| ensures t[1..][i].1 == key(t[1..][i].0) { assert t[1..][i] == t[i + 1]; }
      }
      InsertDecorated(x, t[1..], key, reverse);
      assert u[1..] == Undecorate(t[1..]);
      assert key(u[0]) == t[0].1 && PairKey()(t[0]) == t[0].1;
      assert Insert(x.0, u, key, reverse) == [u[0]] + Insert(x.0, u[1..], key, reverse);
      UndecorateCons(t[0], Insert(x, t[1..], PairKey(), reverse));
    }
  }

  lemma UndecorateCons<T>(y: (T, Key), r: seq<(T, Key)>)
    ensures Undecorate([y] + r) == [y.0] + Undecorate(r)
  {
  }
}
