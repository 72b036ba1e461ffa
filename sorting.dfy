/** The engine's two sorts, labs by descending capacity and groups by
    descending headcount. JavaScript's `Array.prototype.sort` is stable, so
    the result is the stable descending order, modelled here by insertion. */
module Sorting {

  /** Keys never increase along `s`. */
  predicate Descending<T>(s: seq<T>, key: T -> int)
  {
    forall i, j | 0 <= i < j < |s| :: key(s[i]) >= key(s[j])
  }

  /** The elements of `s` whose key is `k`, in their order in `s`. */
  function WithKey<T>(s: seq<T>, key: T -> int, k: int): seq<T>
  {
    if s == [] then []
    else WithKey(s[..|s| - 1], key, k) + (if key(s[|s| - 1]) == k then [s[|s| - 1]] else [])
  }

  /** Inserts `x` into the descending `t` after every element whose key is at least `x`'s. */
  function Insert<T>(t: seq<T>, x: T, key: T -> int): seq<T>
  {
    if t == [] then [x]
    else if key(t[0]) < key(x) then [x] + t
    else [t[0]] + Insert(t[1..], x, key)
  }

  /** `[...s].sort((a, b) => key(b) - key(a))`. */
  function SortDesc<T>(s: seq<T>, key: T -> int): seq<T>
  {
    if s == [] then [] else Insert(SortDesc(s[..|s| - 1], key), s[|s| - 1], key)
  }

  lemma {:induction false} InsertPermutes<T>(t: seq<T>, x: T, key: T -> int)
    ensures multiset(Insert(t, x, key)) == multiset(t) + multiset{x}
    decreases |t|
  {
    if t != [] && key(t[0]) >= key(x) {
      InsertPermutes(t[1..], x, key);
      assert t == [t[0]] + t[1..];
    }
  }

  /** A head whose key bounds a descending tail gives a descending sequence. */
  lemma ConsDescending<T>(h: T, rest: seq<T>, key: T -> int)
    requires Descending(rest, key)
    requires forall y | y in rest :: key(y) <= key(h)
    ensures Descending([h] + rest, key)
  {
    var r := [h] + rest;
    forall i, j | 0 <= i < j < |r| ensures key(r[i]) >= key(r[j]) {
      assert r[j] == rest[j - 1];
      if i > 0 {
        assert r[i] == rest[i - 1];
      }
    }
  }

  lemma {:induction false} InsertSorted<T>(t: seq<T>, x: T, key: T -> int)
    requires Descending(t, key)
    ensures Descending(Insert(t, x, key), key)
    decreases |t|
  {
    if t == [] {
    } else if key(t[0]) < key(x) {
      ConsDescending(x, t, key);
    } else {
      InsertSorted(t[1..], x, key);
      InsertPermutes(t[1..], x, key);
      forall y | y in Insert(t[1..], x, key) ensures key(y) <= key(t[0]) {
        assert y in multiset(Insert(t[1..], x, key));
      }
      ConsDescending(t[0], Insert(t[1..], x, key), key);
    }
  }

  /** The sort returns a descending permutation of its input. */
  lemma {:induction false} SortDescSorted<T>(s: seq<T>, key: T -> int)
    ensures Descending(SortDesc(s, key), key)
    ensures multiset(SortDesc(s, key)) == multiset(s)
    ensures |SortDesc(s, key)| == |s|
    decreases |s|
  {
    if s != [] {
      SortDescSorted(s[..|s| - 1], key);
      InsertSorted(SortDesc(s[..|s| - 1], key), s[|s| - 1], key);
      InsertPermutes(SortDesc(s[..|s| - 1], key), s[|s| - 1], key);
      assert s == s[..|s| - 1] + [s[|s| - 1]];
      assert |multiset(SortDesc(s, key))| == |multiset(s)|;
    }
  }

  lemma {:induction false} WithKeyAppend<T>(a: seq<T>, b: seq<T>, key: T -> int, k: int)
    ensures WithKey(a + b, key, k) == WithKey(a, key, k) + WithKey(b, key, k)
    decreases |b|
  {
    if b == [] {
      assert a + b == a;
    } else {
      assert (a + b)[..|a + b| - 1] == a + b[..|b| - 1];
      WithKeyAppend(a, b[..|b| - 1], key, k);
    }
  }

  lemma WithKeySingle<T>(x: T, key: T -> int, k: int)
    ensures WithKey([x], key, k) == if key(x) == k then [x] else []
  {
    assert [x][..0] == [];
  }

  /** Elements with keys all below `k` contribute nothing to `WithKey(_, k)`. */
  lemma {:induction false} WithKeyNone<T>(t: seq<T>, key: T -> int, k: int)
    requires forall y | y in t :: key(y) < k
    ensures WithKey(t, key, k) == []
    decreases |t|
  {
    if t != [] {
      WithKeyNone(t[..|t| - 1], key, k);
    }
  }

  /** Inserting `x` in front of elements of smaller key. */
  lemma InsertFrontStable<T>(t: seq<T>, x: T, key: T -> int, k: int)
    requires forall y | y in t :: key(y) < key(x)
    ensures WithKey([x] + t, key, k) == WithKey(t, key, k) + (if key(x) == k then [x] else [])
  {
    WithKeySingle(x, key, k);
    WithKeyAppend([x], t, key, k);
    if key(x) == k {
      WithKeyNone(t, key, k);
    } else {
      assert [] + WithKey(t, key, k) == WithKey(t, key, k);
    }
  }

  /** Inserting `x` appends it to the elements of its own key and leaves the others alone. */
  lemma {:induction false} InsertStable<T>(t: seq<T>, x: T, key: T -> int, k: int)
    requires Descending(t, key)
    ensures WithKey(Insert(t, x, key), key, k) == WithKey(t, key, k) + (if key(x) == k then [x] else [])
    decreases |t|
  {
    if t == [] {
      WithKeySingle(x, key, k);
    } else if key(t[0]) < key(x) {
      InsertFrontStable(t, x, key, k);
    } else {
      var rest := Insert(t[1..], x, key);
      InsertStable(t[1..], x, key, k);
      assert Insert(t, x, key) == [t[0]] + rest;
      WithKeyAppend([t[0]], rest, key, k);
      WithKeyAppend([t[0]], t[1..], key, k);
      assert t == [t[0]] + t[1..];
    }
  }

  /** Stability: among elements of equal key the sort keeps the input order. */
  lemma {:induction false} SortDescStable<T>(s: seq<T>, key: T -> int, k: int)
    ensures WithKey(SortDesc(s, key), key, k) == WithKey(s, key, k)
    decreases |s|
  {
    if s != [] {
      var init := s[..|s| - 1];
      SortDescStable(init, key, k);
      SortDescSorted(init, key);
      InsertStable(SortDesc(init, key), s[|s| - 1], key, k);
    }
  }
}
