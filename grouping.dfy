/** Grouping stage: the remaining groups are bucketed by year, and each
    year's groups by resolved department cluster, in plain JavaScript objects
    filled by `forEach` and `push` and then walked with `Object.keys`.

    `Object.keys` lists the keys that are array indices (canonical decimal
    numerals of 0 .. 2^32 - 2) first, in ascending numeric order, and then
    the other keys in the order they were first set. The year keys "1", "2"
    and "3" are array indices, so years are visited in ascending order;
    cluster names are visited in first-seen order unless they are numerals. */
module Grouping {
  import opened Domain
  import opened Resolver
  import Sorting

  predicate IsDigit(c: char)
  {
    '0' <= c <= '9'
  }

  predicate AllDigits(s: string)
  {
    forall i | 0 <= i < |s| :: IsDigit(s[i])
  }

  function DigitsValue(s: string): nat
    requires AllDigits(s)
  {
    if s == [] then 0 else DigitsValue(s[..|s| - 1]) * 10 + (s[|s| - 1] as int - '0' as int)
  }

  /** A key that a JavaScript object orders as an array index. */
  predicate IsIndexKey(k: string)
  {
    && |k| > 0
    && AllDigits(k)
    && (k[0] != '0' || |k| == 1)
    && DigitsValue(k) <= 4294967294
  }

  function IndexValue(k: string): nat
    requires IsIndexKey(k)
  {
    DigitsValue(k)
  }

  /** One dictionary entry: a key and the groups pushed under it, in push order. */
  datatype Bucket = Bucket(key: string, groups: seq<Group>)

  /** Which key the groups are bucketed by. */
  datatype KeyKind = ByYear | ByCluster(clusters: seq<Cluster>)

  function KeyOf(kind: KeyKind, g: Group): string
  {
    match kind
    case ByYear => g.year
    case ByCluster(clusters) => Resolve(clusters, g.departments)
  }

  function Keys(b: seq<Bucket>): (ks: seq<string>)
    ensures |ks| == |b| && forall i | 0 <= i < |b| :: ks[i] == b[i].key
  {
    seq(|b|, i requires 0 <= i < |b| => b[i].key)
  }

  predicate DistinctKeys(ks: seq<string>)
  {
    forall i, j | 0 <= i < j < |ks| :: ks[i] != ks[j]
  }

  /** `Object.keys` order: every array-index key comes before every other key,
      and array-index keys ascend. */
  predicate ObjectOrder(ks: seq<string>)
  {
    forall i, j | 0 <= i < j < |ks| && IsIndexKey(ks[j]) ::
      IsIndexKey(ks[i]) && IndexValue(ks[i]) <= IndexValue(ks[j])
  }

  /** Distinct keys and no empty entry. */
  predicate WellFormed(b: seq<Bucket>)
  {
    && DistinctKeys(Keys(b))
    && (forall i | 0 <= i < |b| :: |b[i].groups| > 0)
  }

  /** Every group is filed under its own key. */
  predicate Keyed(b: seq<Bucket>, kind: KeyKind)
  {
    forall i, g | 0 <= i < |b| && g in b[i].groups :: KeyOf(kind, g) == b[i].key
  }

  /** Position of the first occurrence of `k` in `ks`. */
  function IndexOf(ks: seq<string>, k: string): (r: nat)
    requires k in ks
    ensures r < |ks| && ks[r] == k
    ensures forall j | 0 <= j < r :: ks[j] != k
  {
    if ks[0] == k then 0 else 1 + IndexOf(ks[1..], k)
  }

  /** Where a new key goes: at the end, or, for an array-index key, after
      the leading array-index keys whose value is below its own. */
  function InsertPos(ks: seq<string>, k: string): (p: nat)
    ensures p <= |ks|
    ensures IsIndexKey(k) ==> forall i | 0 <= i < p :: IsIndexKey(ks[i]) && IndexValue(ks[i]) <= IndexValue(k)
    ensures IsIndexKey(k) ==> p == |ks| || !IsIndexKey(ks[p]) || IndexValue(k) < IndexValue(ks[p])
    ensures !IsIndexKey(k) ==> p == |ks|
  {
    if !IsIndexKey(k) then |ks|
    else if ks == [] || !IsIndexKey(ks[0]) || IndexValue(k) < IndexValue(ks[0]) then 0
    else 1 + InsertPos(ks[1..], k)
  }

  /** `if (!obj[k]) obj[k] = []; obj[k].push(g);` */
  function Push(b: seq<Bucket>, k: string, g: Group): seq<Bucket>
  {
    var ks := Keys(b);
    if k in ks then
      var i := IndexOf(ks, k);
      b[i := Bucket(k, b[i].groups + [g])]
    else
      var p := InsertPos(ks, k);
      b[..p] + [Bucket(k, [g])] + b[p..]
  }

  /** The dictionary built by pushing every group of `gs`, in order, under its key. */
  function Partition(gs: seq<Group>, kind: KeyKind): seq<Bucket>
  {
    if gs == [] then [] else Push(Partition(gs[..|gs| - 1], kind), KeyOf(kind, gs[|gs| - 1]), gs[|gs| - 1])
  }

  /** The groups of one bucketing pass (`groupsByYear` or `groupsByDeptGroup`). */
  method BucketBy(gs: seq<Group>, kind: KeyKind) returns (b: seq<Bucket>)
    ensures b == Partition(gs, kind)
  {
    b := [];
    for i := 0 to |gs|
      invariant b == Partition(gs[..i], kind)
    {
      assert gs[..i + 1][..i] == gs[..i];
      b := Push(b, KeyOf(kind, gs[i]), gs[i]);
    }
    assert gs[..|gs|] == gs;
  }

  /** The groups pushed under `k`, or none if `k` is not a key. */
  function GroupsOf(b: seq<Bucket>, k: string): seq<Group>
  {
    if k in Keys(b) then b[IndexOf(Keys(b), k)].groups else []
  }

  /** All groups of a dictionary, entry after entry. */
  function FlattenBuckets(b: seq<Bucket>): seq<Group>
  {
    if b == [] then [] else FlattenBuckets(b[..|b| - 1]) + b[|b| - 1].groups
  }

  /** The groups of `gs` whose key is `k`, in order. */
  function WithKeyOf(gs: seq<Group>, kind: KeyKind, k: string): seq<Group>
  {
    if gs == [] then [] else WithKeyOf(gs[..|gs| - 1], kind, k) + (if KeyOf(kind, gs[|gs| - 1]) == k then [gs[|gs| - 1]] else [])
  }

  /** The keys of `gs`, one per group, in order. */
  function KeyList(gs: seq<Group>, kind: KeyKind): seq<string>
  {
    if gs == [] then [] else KeyList(gs[..|gs| - 1], kind) + [KeyOf(kind, gs[|gs| - 1])]
  }

  /** The keys of `ks` that are not array indices, in order. */
  function NonIndexKeys(ks: seq<string>): seq<string>
  {
    if ks == [] then [] else NonIndexKeys(ks[..|ks| - 1]) + (if IsIndexKey(ks[|ks| - 1]) then [] else [ks[|ks| - 1]])
  }

  /** The distinct elements of `ks` in order of first occurrence. */
  function FirstSeen(ks: seq<string>): seq<string>
  {
    if ks == [] then []
    else
      var p := FirstSeen(ks[..|ks| - 1]);
      if ks[|ks| - 1] in p then p else p + [ks[|ks| - 1]]
  }

  lemma {:induction false} FirstSeenMembers(ks: seq<string>)
    ensures forall k :: k in FirstSeen(ks) <==> k in ks
    ensures DistinctKeys(FirstSeen(ks))
    decreases |ks|
  {
    if ks != [] {
      FirstSeenMembers(ks[..|ks| - 1]);
      assert ks == ks[..|ks| - 1] + [ks[|ks| - 1]];
    }
  }

  lemma {:induction false} FlattenBucketsAppend(a: seq<Bucket>, b: seq<Bucket>)
    ensures FlattenBuckets(a + b) == FlattenBuckets(a) + FlattenBuckets(b)
    decreases |b|
  {
    if b == [] {
      assert a + b == a;
    } else {
      assert (a + b)[..|a + b| - 1] == a + b[..|b| - 1];
      FlattenBucketsAppend(a, b[..|b| - 1]);
    }
  }

  lemma FlattenBucketsSingle(x: Bucket)
    ensures FlattenBuckets([x]) == x.groups
  {
    assert [x][..0] == [];
  }

  lemma {:induction false} NonIndexKeysAppend(a: seq<string>, b: seq<string>)
    ensures NonIndexKeys(a + b) == NonIndexKeys(a) + NonIndexKeys(b)
    decreases |b|
  {
    if b == [] {
      assert a + b == a;
    } else {
      assert (a + b)[..|a + b| - 1] == a + b[..|b| - 1];
      NonIndexKeysAppend(a, b[..|b| - 1]);
    }
  }

  /** With distinct keys, the entry at position `i` is the one `GroupsOf` finds for its key. */
  lemma GroupsOfAt(b: seq<Bucket>, i: nat)
    requires DistinctKeys(Keys(b)) && i < |b|
    ensures GroupsOf(b, b[i].key) == b[i].groups
  {
    assert b[i].key in Keys(b);
  }

  /** Growing one entry by `g` adds `g` to the flattened contents. */
  lemma FlattenGrow(b: seq<Bucket>, i: nat, g: Group)
    requires i < |b|
    ensures multiset(FlattenBuckets(b[i := Bucket(b[i].key, b[i].groups + [g])]))
         == multiset(FlattenBuckets(b)) + multiset{g}
  {
    var x := Bucket(b[i].key, b[i].groups + [g]);
    assert b == b[..i] + [b[i]] + b[i + 1..];
    assert b[i := x] == b[..i] + [x] + b[i + 1..];
    FlattenBucketsAppend(b[..i] + [b[i]], b[i + 1..]);
    FlattenBucketsAppend(b[..i], [b[i]]);
    FlattenBucketsAppend(b[..i] + [x], b[i + 1..]);
    FlattenBucketsAppend(b[..i], [x]);
    FlattenBucketsSingle(b[i]);
    FlattenBucketsSingle(x);
    var pre, post := FlattenBuckets(b[..i]), FlattenBuckets(b[i + 1..]);
    assert FlattenBuckets(b[i := x]) == pre + b[i].groups + [g] + post;
    assert FlattenBuckets(b) == pre + b[i].groups + post;
  }

  /** Inserting one entry adds its groups to the flattened contents. */
  lemma FlattenInsert(b: seq<Bucket>, p: nat, x: Bucket)
    requires p <= |b|
    ensures multiset(FlattenBuckets(b[..p] + [x] + b[p..])) == multiset(FlattenBuckets(b)) + multiset(x.groups)
  {
    assert b == b[..p] + b[p..];
    FlattenBucketsAppend(b[..p] + [x], b[p..]);
    FlattenBucketsAppend(b[..p], [x]);
    FlattenBucketsAppend(b[..p], b[p..]);
    FlattenBucketsSingle(x);
  }

  /** Positions in a sequence with one element inserted at `p`. */
  lemma InsertAt<T>(s: seq<T>, p: nat, x: T)
    requires p <= |s|
    ensures |s[..p] + [x] + s[p..]| == |s| + 1
    ensures forall i | 0 <= i < p :: (s[..p] + [x] + s[p..])[i] == s[i]
    ensures (s[..p] + [x] + s[p..])[p] == x
    ensures forall i | p < i <= |s| :: (s[..p] + [x] + s[p..])[i] == s[i - 1]
  {
  }

  /** Pushing onto an existing key: the keys stay, that entry grows by `g`. */
  lemma PushExisting(b: seq<Bucket>, k: string, g: Group)
    requires k in Keys(b)
    ensures Push(b, k, g) == b[IndexOf(Keys(b), k) := Bucket(k, b[IndexOf(Keys(b), k)].groups + [g])]
    ensures Keys(Push(b, k, g)) == Keys(b)
    ensures multiset(FlattenBuckets(Push(b, k, g))) == multiset(FlattenBuckets(b)) + multiset{g}
    ensures forall k' :: GroupsOf(Push(b, k, g), k') == GroupsOf(b, k') + (if k' == k then [g] else [])
  {
    var i := IndexOf(Keys(b), k);
    var b' := b[i := Bucket(k, b[i].groups + [g])];
    assert Keys(b') == Keys(b);
    FlattenGrow(b, i, g);
    forall k' ensures GroupsOf(b', k') == GroupsOf(b, k') + (if k' == k then [g] else []) {
      if k' in Keys(b) {
        var j := IndexOf(Keys(b), k');
        assert IndexOf(Keys(b'), k') == j;
        assert j == i <==> k' == k;
      }
    }
  }

  /** Pushing a new key inserts a one-group entry at `InsertPos`. */
  lemma PushNewShape(b: seq<Bucket>, k: string, g: Group)
    requires k !in Keys(b)
    ensures Push(b, k, g) == b[..InsertPos(Keys(b), k)] + [Bucket(k, [g])] + b[InsertPos(Keys(b), k)..]
    ensures Keys(Push(b, k, g)) == Keys(b)[..InsertPos(Keys(b), k)] + [k] + Keys(b)[InsertPos(Keys(b), k)..]
    ensures multiset(FlattenBuckets(Push(b, k, g))) == multiset(FlattenBuckets(b)) + multiset{g}
  {
    var p := InsertPos(Keys(b), k);
    var x := Bucket(k, [g]);
    FlattenInsert(b, p, x);
    InsertAt(b, p, x);
    InsertAt(Keys(b), p, k);
  }

  /** Inserting a key that is not there keeps the keys distinct. */
  lemma InsertDistinct(ks: seq<string>, p: nat, k: string)
    requires p <= |ks| && DistinctKeys(ks) && k !in ks
    ensures DistinctKeys(ks[..p] + [k] + ks[p..])
  {
    InsertAt(ks, p, k);
  }

  /** Inserting a key at `InsertPos` keeps object order. */
  lemma InsertOrder(ks: seq<string>, k: string)
    requires ObjectOrder(ks)
    ensures ObjectOrder(ks[..InsertPos(ks, k)] + [k] + ks[InsertPos(ks, k)..])
  {
    var p := InsertPos(ks, k);
    var ks' := ks[..p] + [k] + ks[p..];
    InsertAt(ks, p, k);
    forall i, j | 0 <= i < j < |ks'| && IsIndexKey(ks'[j])
      ensures IsIndexKey(ks'[i]) && IndexValue(ks'[i]) <= IndexValue(ks'[j])
    {
      if i == p {
        assert ks'[j] == ks[j - 1];
        assert p < |ks| && IsIndexKey(ks[p]);
        if p < j - 1 {
          assert IndexValue(ks[p]) <= IndexValue(ks[j - 1]);
        }
      }
    }
  }

  /** Inserting a key at `InsertPos` appends it to the non-array-index keys, if it is one of them. */
  lemma InsertNonIndex(ks: seq<string>, k: string)
    ensures NonIndexKeys(ks[..InsertPos(ks, k)] + [k] + ks[InsertPos(ks, k)..])
         == NonIndexKeys(ks) + (if IsIndexKey(k) then [] else [k])
  {
    var p := InsertPos(ks, k);
    assert ks == ks[..p] + ks[p..];
    NonIndexKeysAppend(ks[..p] + [k], ks[p..]);
    NonIndexKeysAppend(ks[..p], [k]);
    NonIndexKeysAppend(ks[..p], ks[p..]);
    assert [k][..0] == [];
    if IsIndexKey(k) {
      NonIndexKeysIndex(ks[..p]);
    } else {
      assert ks[p..] == [];
      assert ks[..p] == ks;
    }
  }

  /** Array-index keys contribute nothing to the non-index keys. */
  lemma {:induction false} NonIndexKeysIndex(ks: seq<string>)
    requires forall i | 0 <= i < |ks| :: IsIndexKey(ks[i])
    ensures NonIndexKeys(ks) == []
    decreases |ks|
  {
    if ks != [] {
      NonIndexKeysIndex(ks[..|ks| - 1]);
    }
  }

  /** Inserting an entry under a new key: that key finds the entry, every other key what it found before. */
  lemma GroupsOfInsert(b: seq<Bucket>, p: nat, x: Bucket)
    requires p <= |b| && DistinctKeys(Keys(b)) && x.key !in Keys(b)
    ensures forall k' :: GroupsOf(b[..p] + [x] + b[p..], k') == if k' == x.key then x.groups else GroupsOf(b, k')
  {
    var ks := Keys(b);
    var b' := b[..p] + [x] + b[p..];
    InsertAt(b, p, x);
    assert Keys(b') == ks[..p] + [x.key] + ks[p..];
    InsertDistinct(ks, p, x.key);
    forall k' ensures GroupsOf(b', k') == if k' == x.key then x.groups else GroupsOf(b, k') {
      if k' == x.key {
        GroupsOfAt(b', p);
      } else if k' in ks {
        var i := IndexOf(ks, k');
        var i' := if i < p then i else i + 1;
        assert b'[i'] == b[i];
        GroupsOfAt(b', i');
        GroupsOfAt(b, i);
      } else {
        assert k' !in Keys(b');
      }
    }
  }

  /** Pushing keeps the keys distinct and every entry non-empty. */
  lemma PushWellFormed(b: seq<Bucket>, k: string, g: Group)
    requires WellFormed(b)
    ensures WellFormed(Push(b, k, g))
  {
    var ks := Keys(b);
    if k in ks {
      PushExisting(b, k, g);
      var i := IndexOf(ks, k);
      UpdateWellFormed(b, i, Bucket(k, b[i].groups + [g]));
    } else {
      PushNewShape(b, k, g);
      InsertWellFormed(b, InsertPos(ks, k), Bucket(k, [g]));
    }
  }

  /** Replacing an entry by a non-empty one under the same key keeps the dictionary well formed. */
  lemma UpdateWellFormed(b: seq<Bucket>, i: nat, x: Bucket)
    requires WellFormed(b) && i < |b| && x.key == b[i].key && |x.groups| > 0
    ensures WellFormed(b[i := x])
  {
    assert Keys(b[i := x]) == Keys(b);
  }

  /** Inserting a non-empty entry under a new key keeps the dictionary well formed. */
  lemma InsertWellFormed(b: seq<Bucket>, p: nat, x: Bucket)
    requires WellFormed(b) && p <= |b| && x.key !in Keys(b) && |x.groups| > 0
    ensures WellFormed(b[..p] + [x] + b[p..])
  {
    var ks := Keys(b);
    InsertAt(b, p, x);
    InsertAt(ks, p, x.key);
    InsertDistinct(ks, p, x.key);
    assert Keys(b[..p] + [x] + b[p..]) == ks[..p] + [x.key] + ks[p..];
  }

  /** Pushing keeps the keys in object order. */
  lemma PushOrder(b: seq<Bucket>, k: string, g: Group)
    requires ObjectOrder(Keys(b))
    ensures ObjectOrder(Keys(Push(b, k, g)))
  {
    if k in Keys(b) {
      PushExisting(b, k, g);
    } else {
      PushNewShape(b, k, g);
      InsertOrder(Keys(b), k);
    }
  }

  /** Pushing `g` under its own key keeps every group under its own key. */
  lemma PushKeyed(b: seq<Bucket>, kind: KeyKind, k: string, g: Group)
    requires Keyed(b, kind) && KeyOf(kind, g) == k
    ensures Keyed(Push(b, k, g), kind)
  {
    var ks := Keys(b);
    if k in ks {
      PushExisting(b, k, g);
      var i := IndexOf(ks, k);
      UpdateKeyed(b, kind, i, g);
    } else {
      PushNewShape(b, k, g);
      InsertKeyed(b, kind, InsertPos(ks, k), Bucket(k, [g]));
    }
  }

  /** Appending a group with the entry's key to entry `i` keeps every group under its own key. */
  lemma UpdateKeyed(b: seq<Bucket>, kind: KeyKind, i: nat, g: Group)
    requires Keyed(b, kind) && i < |b| && KeyOf(kind, g) == b[i].key
    ensures Keyed(b[i := Bucket(b[i].key, b[i].groups + [g])], kind)
  {
    var b' := b[i := Bucket(b[i].key, b[i].groups + [g])];
    forall j, h | 0 <= j < |b'| && h in b'[j].groups ensures KeyOf(kind, h) == b'[j].key {
      if j == i {
        assert h in b[i].groups || h == g;
      }
    }
  }

  /** Inserting an entry whose groups have its key keeps every group under its own key. */
  lemma InsertKeyed(b: seq<Bucket>, kind: KeyKind, p: nat, x: Bucket)
    requires Keyed(b, kind) && p <= |b|
    requires forall h | h in x.groups :: KeyOf(kind, h) == x.key
    ensures Keyed(b[..p] + [x] + b[p..], kind)
  {
    InsertAt(b, p, x);
  }

  /** The dictionary built from `gs` has distinct keys in object order and no
      empty entry, and files every group under its own key. */
  lemma {:induction false} PartitionShape(gs: seq<Group>, kind: KeyKind)
    ensures WellFormed(Partition(gs, kind))
    ensures ObjectOrder(Keys(Partition(gs, kind)))
    ensures Keyed(Partition(gs, kind), kind)
    decreases |gs|
  {
    if gs != [] {
      var init, g := gs[..|gs| - 1], gs[|gs| - 1];
      var b := Partition(init, kind);
      PartitionShape(init, kind);
      PushWellFormed(b, KeyOf(kind, g), g);
      PushOrder(b, KeyOf(kind, g), g);
      PushKeyed(b, kind, KeyOf(kind, g), g);
    }
  }

  /** Pushing adds `g` to the contents. */
  lemma PushFlatten(b: seq<Bucket>, k: string, g: Group)
    ensures multiset(FlattenBuckets(Push(b, k, g))) == multiset(FlattenBuckets(b)) + multiset{g}
  {
    if k in Keys(b) {
      PushExisting(b, k, g);
    } else {
      PushNewShape(b, k, g);
    }
  }

  /** Pushing adds `g` to the end of the groups of `k` and changes no other key's groups. */
  lemma PushGroupsOf(b: seq<Bucket>, k: string, g: Group, k': string)
    requires DistinctKeys(Keys(b))
    ensures GroupsOf(Push(b, k, g), k') == GroupsOf(b, k') + (if k' == k then [g] else [])
  {
    if k in Keys(b) {
      PushExisting(b, k, g);
    } else {
      PushNewShape(b, k, g);
      GroupsOfInsert(b, InsertPos(Keys(b), k), Bucket(k, [g]));
    }
  }

  /** Pushing under `k` adds `k` to the keys and no other key. */
  lemma PushHasKey(b: seq<Bucket>, k: string, g: Group, k': string)
    ensures k' in Keys(Push(b, k, g)) <==> k' in Keys(b) || k' == k
  {
    if k in Keys(b) {
      PushExisting(b, k, g);
    } else {
      PushNewShape(b, k, g);
      InsertAt(Keys(b), InsertPos(Keys(b), k), k);
    }
  }

  /** A new key that is not an array index goes to the end of the non-index keys. */
  lemma PushNonIndex(b: seq<Bucket>, k: string, g: Group)
    ensures NonIndexKeys(Keys(Push(b, k, g)))
         == NonIndexKeys(Keys(b)) + (if k in Keys(b) || IsIndexKey(k) then [] else [k])
  {
    if k in Keys(b) {
      PushExisting(b, k, g);
    } else {
      PushNewShape(b, k, g);
      InsertNonIndex(Keys(b), k);
    }
  }

  /** The dictionary built from `gs` holds exactly the groups of `gs`. */
  lemma {:induction false} PartitionFlatten(gs: seq<Group>, kind: KeyKind)
    ensures multiset(FlattenBuckets(Partition(gs, kind))) == multiset(gs)
    decreases |gs|
  {
    if gs != [] {
      var init, g := gs[..|gs| - 1], gs[|gs| - 1];
      assert multiset(gs) == multiset(init) + multiset{g} by {
        assert gs == init + [g];
      }
      PartitionFlatten(init, kind);
      PushFlatten(Partition(init, kind), KeyOf(kind, g), g);
    }
  }

  /** The dictionary built from `gs` files under `k` the groups whose key is
      `k`, in their order in `gs`. */
  lemma {:induction false} PartitionGroupsOf(gs: seq<Group>, kind: KeyKind, k: string)
    ensures GroupsOf(Partition(gs, kind), k) == WithKeyOf(gs, kind, k)
    decreases |gs|
  {
    if gs != [] {
      var init, g := gs[..|gs| - 1], gs[|gs| - 1];
      PartitionGroupsOf(init, kind, k);
      PartitionShape(init, kind);
      PushGroupsOf(Partition(init, kind), KeyOf(kind, g), g, k);
    }
  }

  /** The keys of the dictionary built from `gs` are the keys of its groups. */
  lemma {:induction false} PartitionHasKey(gs: seq<Group>, kind: KeyKind, k: string)
    ensures k in Keys(Partition(gs, kind)) <==> k in KeyList(gs, kind)
    decreases |gs|
  {
    if gs != [] {
      var init, g := gs[..|gs| - 1], gs[|gs| - 1];
      PartitionHasKey(init, kind, k);
      PushHasKey(Partition(init, kind), KeyOf(kind, g), g, k);
    }
  }

  /** The keys of the dictionary built from `gs` that are not array indices
      are listed in the order they first occur among the groups' keys. */
  lemma {:induction false} PartitionNonIndex(gs: seq<Group>, kind: KeyKind)
    ensures NonIndexKeys(Keys(Partition(gs, kind))) == FirstSeen(NonIndexKeys(KeyList(gs, kind)))
    decreases |gs|
  {
    if gs != [] {
      var init, g := gs[..|gs| - 1], gs[|gs| - 1];
      var b := Partition(init, kind);
      var k := KeyOf(kind, g);
      PartitionNonIndex(init, kind);
      PartitionHasKey(init, kind, k);
      PushNonIndex(b, k, g);
      FirstSeenStep(Keys(b), KeyList(init, kind), k, Keys(Push(b, k, g)));
    }
  }

  /** One step of `PartitionNonIndex`, on the key lists alone. */
  lemma FirstSeenStep(ks: seq<string>, kl: seq<string>, k: string, ks': seq<string>)
    requires NonIndexKeys(ks) == FirstSeen(NonIndexKeys(kl))
    requires k in ks <==> k in kl
    requires NonIndexKeys(ks') == NonIndexKeys(ks) + (if k in ks || IsIndexKey(k) then [] else [k])
    ensures NonIndexKeys(ks') == FirstSeen(NonIndexKeys(kl + [k]))
  {
    var nk := NonIndexKeys(kl);
    NonIndexKeysAppend(kl, [k]);
    assert [k][..0] == [];
    if IsIndexKey(k) {
      assert NonIndexKeys(kl + [k]) == nk;
    } else {
      assert NonIndexKeys(kl + [k]) == nk + [k];
      FirstSeenMembers(nk);
      NonIndexKeysSub(kl);
      if k in kl {
        var j :| 0 <= j < |kl| && kl[j] == k;
        NonIndexKeysMember(kl, j);
      }
      assert (nk + [k])[..|nk|] == nk;
    }
  }

  lemma {:induction false} NonIndexKeysMember(ks: seq<string>, j: nat)
    requires j < |ks| && !IsIndexKey(ks[j])
    ensures ks[j] in NonIndexKeys(ks)
    decreases |ks|
  {
    if j < |ks| - 1 {
      NonIndexKeysMember(ks[..|ks| - 1], j);
    }
  }

  lemma {:induction false} NonIndexKeysSub(ks: seq<string>)
    ensures forall k | k in NonIndexKeys(ks) :: k in ks
    decreases |ks|
  {
    if ks != [] {
      NonIndexKeysSub(ks[..|ks| - 1]);
    }
  }
  /** Filing keeps the order of `gs`: the groups under one key are those of
      `gs` with that key, so a descending headcount order survives. */
  lemma {:induction false} WithKeyOfDescending(gs: seq<Group>, kind: KeyKind, k: string)
    requires Sorting.Descending(gs, Headcount)
    ensures forall x | x in WithKeyOf(gs, kind, k) :: x in gs && KeyOf(kind, x) == k
    ensures Sorting.Descending(WithKeyOf(gs, kind, k), Headcount)
    decreases |gs|
  {
    if gs != [] {
      var init, g := gs[..|gs| - 1], gs[|gs| - 1];
      WithKeyOfDescending(init, kind, k);
      var w := WithKeyOf(init, kind, k);
      if KeyOf(kind, g) == k {
        forall i | 0 <= i < |w|
          ensures Headcount(w[i]) >= Headcount(g)
        {
          assert w[i] in init;
          var j :| 0 <= j < |init| && init[j] == w[i];
          assert gs[j] == w[i];
        }
      }
    }
  }

  /** Bucketing a headcount-sorted list leaves every bucket headcount-sorted. */
  lemma BucketsKeepOrder(gs: seq<Group>, kind: KeyKind, k: string)
    requires Sorting.Descending(gs, Headcount)
    ensures Sorting.Descending(GroupsOf(Partition(gs, kind), k), Headcount)
  {
    PartitionGroupsOf(gs, kind, k);
    WithKeyOfDescending(gs, kind, k);
  }
}
