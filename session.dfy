/** One session (one pass of the driver's `while` loop): the remaining groups
    are bucketed by year, each year's groups by department cluster, and the
    buckets are packed one after another into labs, a lab being used at most
    once in the session. */
module Session {
  import opened Domain
  import opened Resolver
  import opened Grouping
  import opened Packing

  /** The groups of the year buckets `years` in the order a session visits
      them: year after year, and within a year cluster bucket after cluster
      bucket. */
  function VisitOrder(clusters: seq<Cluster>, years: seq<Bucket>): seq<Group>
  {
    if years == [] then []
    else VisitOrder(clusters, years[..|years| - 1])
         + FlattenBuckets(Partition(years[|years| - 1].groups, ByCluster(clusters)))
  }

  /** The order in which a session visits the groups of `pool`. */
  function Visit(clusters: seq<Cluster>, pool: seq<Group>): seq<Group>
  {
    VisitOrder(clusters, Partition(pool, ByYear))
  }

  /** The variables of one session: the records opened so far, the lab ids
      in use (`usedLabsThisSession`) and the group ids placed
      (`groupsAllocatedThisSession`). */
  datatype Pass = Pass(records: seq<Record>, used: set<string>, placed: set<string>)

  /** The session's variables after packing the cluster buckets `buckets`
      of year `year`, one after another, from `st`: each bucket is packed by
      the reference packer with the labs in use so far taken. */
  function PackClusters(labs: seq<Lab>, year: string, buckets: seq<Bucket>, st: Pass): Pass
  {
    if buckets == [] then st
    else
      var before := PackClusters(labs, year, buckets[..|buckets| - 1], st);
      var b := buckets[|buckets| - 1];
      var p := PackSpec(labs, before.used, year, b.key, b.groups);
      Pass(before.records + p.recs, p.used, before.placed + p.placed)
  }

  /** The session's variables after the year buckets `years`, each one's
      groups bucketed by cluster and packed in `Object.keys` order. */
  function PackYears(labs: seq<Lab>, clusters: seq<Cluster>, years: seq<Bucket>): Pass
  {
    if years == [] then Pass([], {}, {})
    else
      var y := years[|years| - 1];
      PackClusters(labs, y.key, Partition(y.groups, ByCluster(clusters)), PackYears(labs, clusters, years[..|years| - 1]))
  }

  /** What one session does with the pool `pool`: the records it opens, in
      order, the labs it uses and the groups it places. */
  function SessionSpec(labs: seq<Lab>, clusters: seq<Cluster>, pool: seq<Group>): Pass
  {
    PackYears(labs, clusters, Partition(pool, ByYear))
  }

  /** Visiting the buckets of `years` meets every group of them once. */
  lemma {:induction false} VisitOrderPermutes(clusters: seq<Cluster>, years: seq<Bucket>)
    ensures multiset(VisitOrder(clusters, years)) == multiset(FlattenBuckets(years))
    decreases |years|
  {
    if years != [] {
      VisitOrderPermutes(clusters, years[..|years| - 1]);
      PartitionFlatten(years[|years| - 1].groups, ByCluster(clusters));
    }
  }

  /** A session visits every group of the pool exactly once. */
  lemma VisitPermutes(clusters: seq<Cluster>, pool: seq<Group>)
    ensures multiset(Visit(clusters, pool)) == multiset(pool)
  {
    VisitOrderPermutes(clusters, Partition(pool, ByYear));
    PartitionFlatten(pool, ByYear);
  }

  /** Every group of a record has the record's year and resolves to its cluster. */
  predicate Homogeneous(clusters: seq<Cluster>, r: Record)
  {
    forall g | g in r.groups :: g.year == r.year && Resolve(clusters, g.departments) == r.cluster
  }

  /** What the records of a session satisfy after the groups `order` were
      visited and the groups `placed` placed. */
  ghost predicate SessionSoFar(labs: seq<Lab>, clusters: seq<Cluster>, order: seq<Group>,
                               records: seq<Record>, placed: set<string>)
  {
    && (forall r | r in records :: r.lab in labs && Filled(r) && Homogeneous(clusters, r))
    && LabsDistinct(records)
    && OpenedFirstFit(labs, {}, records)
    && Flatten(records) == Keep(order, placed)
    && placed <= Ids(order)
    && Unplaced(labs, LabIds(records), order, placed)
  }

  /** Runs one session over `pool`, the groups not yet allocated, in
      headcount order. Returns the records opened, in the order they were
      opened, and the ids of the groups placed. */
  method RunSession(labs: seq<Lab>, clusters: seq<Cluster>, pool: seq<Group>)
    returns (records: seq<Record>, placed: set<string>)
    requires Headcounts(pool) && UniqueIds(pool)
    ensures forall r | r in records :: r.lab in labs && Filled(r) && Homogeneous(clusters, r)
    ensures LabsDistinct(records)
    ensures OpenedFirstFit(labs, {}, records)
    ensures Flatten(records) == Keep(Visit(clusters, pool), placed)
    ensures placed <= Ids(pool)
    ensures forall g | g in pool && g.id !in placed :: FirstFit(labs, LabIds(records), g.count).None?
    ensures Tight(records)
    ensures var st := SessionSpec(labs, clusters, pool); records == st.records && placed == st.placed
  {
    records, placed := [], {};
    var used: set<string> := {};
    var years := BucketBy(pool, ByYear);
    assert multiset(FlattenBuckets(years)) == multiset(pool) && Keyed(years, ByYear)
        && DistinctKeys(Keys(years)) by {
      PartitionFlatten(pool, ByYear);
      PartitionShape(pool, ByYear);
    }
    ghost var order: seq<Group> := [];
    assert years[..0] == [];
    assert Keep(order, placed) == [] by { KeepNothing(order); }
    for y := 0 to |years|
      invariant SessionLoop(labs, clusters, years, y, order, records, used, placed)
    {
      YearFacts(pool, years, y, clusters, order, records);
      ghost var before := records;
      records, used, placed := PackYear(labs, clusters, pool, years[y], order, records, used, placed);
      YearStep(labs, clusters, years, y, order, before, records, used, placed);
      order := order + FlattenBuckets(Partition(years[y].groups, ByCluster(clusters)));
    }
    PrefixAll(years);
    SessionEnd(labs, clusters, pool, order, records, placed);
  }

  /** The variables of the year loop of a session after the year buckets `years[..y]`. */
  ghost predicate SessionLoop(labs: seq<Lab>, clusters: seq<Cluster>, years: seq<Bucket>, y: nat,
                              order: seq<Group>, records: seq<Record>, used: set<string>, placed: set<string>)
  {
    && y <= |years|
    && used == LabIds(records)
    && order == VisitOrder(clusters, years[..y])
    && SessionSoFar(labs, clusters, order, records, placed)
    && Tight(records)
    && (forall r | r in records :: r.year in Keys(years)[..y])
    && Pass(records, used, placed) == PackYears(labs, clusters, years[..y])
  }

  /** Year bucket `y`: its groups, after those visited so far, are groups of
      the pool with the bucket's year, and no record so far has that year. */
  lemma YearFacts(pool: seq<Group>, years: seq<Bucket>, y: nat, clusters: seq<Cluster>,
                  order: seq<Group>, records: seq<Record>)
    requires multiset(FlattenBuckets(years)) == multiset(pool) && Keyed(years, ByYear) && DistinctKeys(Keys(years))
    requires y < |years| && order == VisitOrder(clusters, years[..y])
    requires forall r | r in records :: r.year in Keys(years)[..y]
    ensures multiset(order) + multiset(years[y].groups) <= multiset(pool)
    ensures forall g | g in years[y].groups :: g in pool && g.year == years[y].key
    ensures forall r | r in records :: r.year != years[y].key
  {
    VisitOrderPermutes(clusters, years[..y]);
    BucketInPart(years, y, ByYear, pool, order);
    FreshKey(Keys(years), y);
  }

  /** Packing year bucket `y` moves the year loop to `y + 1`. */
  lemma YearStep(labs: seq<Lab>, clusters: seq<Cluster>, years: seq<Bucket>, y: nat, order: seq<Group>,
                 before: seq<Record>, records: seq<Record>, used: set<string>, placed: set<string>)
    requires y < |years|
    requires forall r | r in before :: r.year in Keys(years)[..y]
    requires used == LabIds(records)
    requires SessionSoFar(labs, clusters, order + FlattenBuckets(Partition(years[y].groups, ByCluster(clusters))), records, placed)
    requires Tight(records) && forall r | r in records :: r in before || r.year == years[y].key
    requires order == VisitOrder(clusters, years[..y])
    requires Pass(records, used, placed)
          == PackClusters(labs, years[y].key, Partition(years[y].groups, ByCluster(clusters)),
                          PackYears(labs, clusters, years[..y]))
    ensures SessionLoop(labs, clusters, years, y + 1,
                        order + FlattenBuckets(Partition(years[y].groups, ByCluster(clusters))), records, used, placed)
  {
    YearJoin(before, records, Keys(years), y);
    assert years[..y + 1][..y] == years[..y];
    VisitOrderSnoc(clusters, years, y);
  }

  /** Packs the cluster buckets of one year bucket, in key order (the loop
      over `Object.keys(groupsByDeptGroup)`), after the groups `start`. */
  method PackYear(labs: seq<Lab>, clusters: seq<Cluster>, pool: seq<Group>, year: Bucket, ghost start: seq<Group>,
                  records0: seq<Record>, used0: set<string>, placed0: set<string>)
    returns (records: seq<Record>, used: set<string>, placed: set<string>)
    requires Headcounts(pool) && UniqueIds(pool)
    requires multiset(start) + multiset(year.groups) <= multiset(pool)
    requires forall g | g in year.groups :: g in pool && g.year == year.key
    requires used0 == LabIds(records0)
    requires SessionSoFar(labs, clusters, start, records0, placed0)
    requires Tight(records0) && forall r | r in records0 :: r.year != year.key
    ensures used == LabIds(records)
    ensures SessionSoFar(labs, clusters, start + FlattenBuckets(Partition(year.groups, ByCluster(clusters))), records, placed)
    ensures Tight(records) && forall r | r in records :: r in records0 || r.year == year.key
    ensures Pass(records, used, placed)
         == PackClusters(labs, year.key, Partition(year.groups, ByCluster(clusters)), Pass(records0, used0, placed0))
  {
    records, used, placed := records0, used0, placed0;
    var buckets := BucketBy(year.groups, ByCluster(clusters));
    assert multiset(FlattenBuckets(buckets)) == multiset(year.groups) && Keyed(buckets, ByCluster(clusters))
        && DistinctKeys(Keys(buckets)) by {
      PartitionFlatten(year.groups, ByCluster(clusters));
      PartitionShape(year.groups, ByCluster(clusters));
    }
    ghost var order := start;
    assert buckets[..0] == [];
    for c := 0 to |buckets|
      invariant YearSoFar(labs, clusters, year.key, start, buckets, c, records0, used0, placed0, order, records, used, placed)
    {
      var bucket := buckets[c];
      BucketFacts(pool, year, start, buckets, c, clusters, order);
      var recs, used', placed' := PackBucket(labs, used, bucket.groups, year.key, bucket.key);
      ClusterStep(labs, clusters, year.key, start, buckets, c, records0, used0, placed0, order, records, used, placed,
                  recs, used', placed');
      records, used, placed := records + recs, used', placed + placed';
      order := order + bucket.groups;
    }
    PrefixAll(buckets);
  }

  /** The variables of the cluster loop of one year after the cluster
      buckets `buckets[..c]`, which came after the groups `start`. */
  ghost predicate YearSoFar(labs: seq<Lab>, clusters: seq<Cluster>, year: string, start: seq<Group>,
                            buckets: seq<Bucket>, c: nat, records0: seq<Record>, used0: set<string>,
                            placed0: set<string>, order: seq<Group>,
                            records: seq<Record>, used: set<string>, placed: set<string>)
  {
    && c <= |buckets|
    && used == LabIds(records)
    && order == start + FlattenBuckets(buckets[..c])
    && SessionSoFar(labs, clusters, order, records, placed)
    && Tight(records)
    && (forall r | r in records :: r in records0 || (r.year == year && r.cluster in Keys(buckets)[..c]))
    && Pass(records, used, placed) == PackClusters(labs, year, buckets[..c], Pass(records0, used0, placed0))
  }

  /** Cluster bucket `c` of a year: its groups, after those visited so far,
      are groups of the pool with unique ids, and they all carry the year and
      resolve to the bucket's key. */
  lemma BucketFacts(pool: seq<Group>, year: Bucket, start: seq<Group>, buckets: seq<Bucket>, c: nat,
                    clusters: seq<Cluster>, order: seq<Group>)
    requires Headcounts(pool) && UniqueIds(pool)
    requires multiset(start) + multiset(year.groups) <= multiset(pool)
    requires forall g | g in year.groups :: g in pool && g.year == year.key
    requires multiset(FlattenBuckets(buckets)) == multiset(year.groups) && Keyed(buckets, ByCluster(clusters))
    requires c < |buckets| && order == start + FlattenBuckets(buckets[..c])
    ensures UniqueIds(order + buckets[c].groups) && UniqueIds(buckets[c].groups) && Headcounts(buckets[c].groups)
    ensures forall g | g in buckets[c].groups :: g.year == year.key && Resolve(clusters, g.departments) == buckets[c].key
  {
    var bucket := buckets[c];
    BucketInPart(buckets, c, ByCluster(clusters), year.groups, FlattenBuckets(buckets[..c]));
    AppendAssoc(start, FlattenBuckets(buckets[..c]), bucket.groups);
    SubPool(start, FlattenBuckets(buckets[..c]) + bucket.groups, year.groups, pool);
    UniqueIdsSub(order + bucket.groups, pool);
    UniqueIdsSplit(order, bucket.groups);
  }

  /** Packing cluster bucket `c` moves the cluster loop to `c + 1`. */
  lemma ClusterStep(labs: seq<Lab>, clusters: seq<Cluster>, year: string, start: seq<Group>,
                    buckets: seq<Bucket>, c: nat, records0: seq<Record>, used0: set<string>,
                    placed0: set<string>, order: seq<Group>,
                    records: seq<Record>, used: set<string>, placed: set<string>,
                    recs: seq<Record>, used': set<string>, placed': set<string>)
    requires c < |buckets| && DistinctKeys(Keys(buckets))
    requires YearSoFar(labs, clusters, year, start, buckets, c, records0, used0, placed0, order, records, used, placed)
    requires forall r | r in records0 :: r.year != year
    requires UniqueIds(order + buckets[c].groups)
    requires forall g | g in buckets[c].groups :: g.year == year && Resolve(clusters, g.departments) == buckets[c].key
    requires used' == used + LabIds(recs)
    requires forall r | r in recs :: RecordOf(labs, used, year, buckets[c].key, r)
    requires LabsDistinct(recs) && OpenedFirstFit(labs, used, recs)
    requires Flatten(recs) == Keep(buckets[c].groups, placed') && placed' <= Ids(buckets[c].groups)
    requires forall g | g in buckets[c].groups && g.id !in placed' :: FirstFit(labs, used', g.count).None?
    requires Tight(recs)
    requires var st := PackSpec(labs, used, year, buckets[c].key, buckets[c].groups);
      recs == st.recs && used' == st.used && placed' == st.placed
    ensures YearSoFar(labs, clusters, year, start, buckets, c + 1, records0, used0, placed0,
                      order + buckets[c].groups, records + recs, used', placed + placed')
  {
    var bucket := buckets[c];
    PackStep(labs, clusters, order, records, placed, bucket.groups, year, bucket.key, recs, used', placed');
    BucketJoin(records0, records, recs, year, Keys(buckets), c, labs, used);
    BucketsPrefix(buckets, c);
    AppendAssoc(start, FlattenBuckets(buckets[..c]), bucket.groups);
    assert buckets[..c + 1][..c] == buckets[..c];
  }

  /** A key of a list of distinct keys is not among the keys before it. */
  lemma FreshKey(keys: seq<string>, k: nat)
    requires k < |keys| && DistinctKeys(keys)
    ensures keys[k] !in keys[..k]
  {
    forall i | 0 <= i < k ensures keys[..k][i] != keys[k] { }
  }

  /** Two tight lists of records whose meeting point joins different buckets
      form a tight list. */
  lemma TightConcat(a: seq<Record>, b: seq<Record>)
    requires Tight(a) && Tight(b)
    requires a != [] && b != [] ==>
      !(a[|a| - 1].year == b[0].year && a[|a| - 1].cluster == b[0].cluster)
    ensures Tight(a + b)
  {
    var ab := a + b;
    forall j | 0 < j < |ab| ensures Follows(ab[j - 1], ab[j]) {
      if j < |a| {
        assert Follows(a[j - 1], a[j]);
      } else if j > |a| {
        assert Follows(b[j - 1 - |a|], b[j - |a|]);
      }
    }
  }

  /** The records of cluster bucket `c` of a year join the records so far:
      the last record so far belongs to an earlier year or an earlier
      cluster bucket, so the list stays tight. */
  lemma BucketJoin(records0: seq<Record>, records: seq<Record>, recs: seq<Record>, year: string,
                   keys: seq<string>, c: nat, labs: seq<Lab>, used0: set<string>)
    requires c < |keys| && DistinctKeys(keys)
    requires Tight(records) && Tight(recs)
    requires forall r | r in records0 :: r.year != year
    requires forall r | r in records :: r in records0 || (r.year == year && r.cluster in keys[..c])
    requires forall r | r in recs :: RecordOf(labs, used0, year, keys[c], r)
    ensures Tight(records + recs)
    ensures forall r | r in records + recs :: r in records0 || (r.year == year && r.cluster in keys[..c + 1])
  {
    FreshKey(keys, c);
    if records != [] && recs != [] {
      assert records[|records| - 1] in records && recs[0] in recs;
    }
    TightConcat(records, recs);
    assert keys[..c + 1] == keys[..c] + [keys[c]];
  }

  /** After packing year `y`, every record belongs to one of the first `y + 1` years. */
  lemma YearJoin(before: seq<Record>, records: seq<Record>, keys: seq<string>, y: nat)
    requires y < |keys|
    requires forall r | r in before :: r.year in keys[..y]
    requires forall r | r in records :: r in before || r.year == keys[y]
    ensures forall r | r in records :: r.year in keys[..y + 1]
  {
    assert keys[..y + 1] == keys[..y] + [keys[y]];
  }

  /** Within a pool, a part `b` of `y` after `a` is still within the pool. */
  lemma SubPool(a: seq<Group>, b: seq<Group>, y: seq<Group>, pool: seq<Group>)
    requires multiset(a) + multiset(y) <= multiset(pool) && multiset(b) <= multiset(y)
    ensures multiset(a + b) <= multiset(pool)
  {
  }

  lemma PrefixAll<T>(s: seq<T>)
    ensures s[..|s|] == s
  {
  }

  /** Visiting one more year bucket visits its cluster buckets after the earlier years. */
  lemma VisitOrderSnoc(clusters: seq<Cluster>, years: seq<Bucket>, y: nat)
    requires y < |years|
    ensures VisitOrder(clusters, years[..y + 1])
         == VisitOrder(clusters, years[..y]) + FlattenBuckets(Partition(years[y].groups, ByCluster(clusters)))
  {
    assert years[..y + 1][..y] == years[..y];
  }

  /** The groups of the first `k + 1` buckets are those of the first `k`
      and then those of bucket `k`, and are among the groups of all buckets. */
  lemma BucketsPrefix(b: seq<Bucket>, k: nat)
    requires k < |b|
    ensures FlattenBuckets(b[..k + 1]) == FlattenBuckets(b[..k]) + b[k].groups
    ensures multiset(FlattenBuckets(b[..k + 1])) <= multiset(FlattenBuckets(b))
  {
    assert b[..k + 1][..k] == b[..k];
    BucketsPrefixIn(b, k + 1);
  }

  lemma BucketsPrefixIn(b: seq<Bucket>, k: nat)
    requires k <= |b|
    ensures multiset(FlattenBuckets(b[..k])) <= multiset(FlattenBuckets(b))
  {
    PrefixSplit(b, k);
    FlattenBucketsAppend(b[..k], b[k..]);
  }

  lemma PrefixSplit<T>(b: seq<T>, k: nat)
    requires k <= |b|
    ensures b == b[..k] + b[k..]
  {
  }

  /** The groups of bucket `k` of a partition of `gs`, after those of the
      buckets before it, are among the groups of `gs`; they all have the
      bucket's key. */
  lemma BucketInPart(b: seq<Bucket>, k: nat, kind: KeyKind, gs: seq<Group>, before: seq<Group>)
    requires multiset(FlattenBuckets(b)) == multiset(gs) && Keyed(b, kind) && k < |b|
    requires multiset(before) == multiset(FlattenBuckets(b[..k]))
    ensures multiset(before + b[k].groups) <= multiset(gs)
    ensures forall g | g in b[k].groups :: g in gs && KeyOf(kind, g) == b[k].key
  {
    BucketsPrefix(b, k);
    forall g | g in b[k].groups ensures g in gs {
      assert g in multiset(FlattenBuckets(b));
    }
  }

  /** Packing one more bucket keeps what the session's records satisfy. */
  lemma PackStep(labs: seq<Lab>, clusters: seq<Cluster>, order: seq<Group>, records: seq<Record>, placed: set<string>,
                 bucket: seq<Group>, year: string, cluster: string,
                 recs: seq<Record>, used: set<string>, placed': set<string>)
    requires SessionSoFar(labs, clusters, order, records, placed)
    requires UniqueIds(order + bucket)
    requires forall g | g in bucket :: g.year == year && Resolve(clusters, g.departments) == cluster
    requires used == LabIds(records) + LabIds(recs)
    requires forall r | r in recs :: RecordOf(labs, LabIds(records), year, cluster, r)
    requires LabsDistinct(recs) && OpenedFirstFit(labs, LabIds(records), recs)
    requires Flatten(recs) == Keep(bucket, placed') && placed' <= Ids(bucket)
    requires Unplaced(labs, used, bucket, placed')
    ensures used == LabIds(records + recs)
    ensures SessionSoFar(labs, clusters, order + bucket, records + recs, placed + placed')
  {
    var all := records + recs;
    assert used == LabIds(all) by { LabIdsConcat(records, recs); }
    assert forall r | r in all :: r.lab in labs && Filled(r) && Homogeneous(clusters, r) by {
      RecordsFromBucket(clusters, recs, bucket, placed', year, cluster, labs, LabIds(records));
    }
    assert LabsDistinct(all) by {
      DistinctConcat(records, recs);
    }
    assert OpenedFirstFit(labs, {}, all) by {
      OpenedConcat(labs, records, recs);
    }
    assert Ids(order) !! Ids(bucket) by {
      UniqueIdsSplit(order, bucket);
    }
    assert Flatten(all) == Keep(order + bucket, placed + placed') by {
      FlattenAppend(records, recs);
      KeepUnion(order, bucket, placed, placed');
    }
    assert placed + placed' <= Ids(order + bucket) by {
      IdsConcat(order, bucket);
    }
    assert Unplaced(labs, used, order + bucket, placed + placed') by {
      UnplacedConcat(labs, LabIds(records), used, order, bucket, placed, placed');
    }
  }

  /** The lab ids of two record lists together. */
  lemma {:induction false} LabIdsConcat(a: seq<Record>, b: seq<Record>)
    ensures LabIds(a + b) == LabIds(a) + LabIds(b)
    decreases |b|
  {
    if b == [] {
      assert a + b == a;
    } else {
      var b' := b[..|b| - 1];
      assert (a + b)[..|a + b| - 1] == a + b';
      LabIdsConcat(a, b');
    }
  }

  lemma IdsConcat(a: seq<Group>, b: seq<Group>)
    ensures Ids(a + b) == Ids(a) + Ids(b)
  {
    assert forall g | g in a + b :: g in a || g in b;
  }

  /** The records a bucket opens hold only groups of that bucket, so they
      carry the bucket's year and cluster. */
  lemma RecordsFromBucket(clusters: seq<Cluster>, recs: seq<Record>, bucket: seq<Group>, placed: set<string>,
                          year: string, cluster: string, labs: seq<Lab>, used0: set<string>)
    requires forall r | r in recs :: RecordOf(labs, used0, year, cluster, r)
    requires Flatten(recs) == Keep(bucket, placed)
    requires forall g | g in bucket :: g.year == year && Resolve(clusters, g.departments) == cluster
    ensures forall r | r in recs :: r.lab in labs && Filled(r) && Homogeneous(clusters, r)
  {
    forall r, g | r in recs && g in r.groups ensures g in bucket {
      FlattenMember(recs, g);
      KeepDropMembers(bucket, placed, g);
    }
  }

  /** Records of a later bucket use labs not used by earlier buckets. */
  lemma DistinctConcat(a: seq<Record>, b: seq<Record>)
    requires LabsDistinct(a) && LabsDistinct(b)
    requires forall r | r in b :: r.lab.id !in LabIds(a)
    ensures LabsDistinct(a + b)
  {
    var ab := a + b;
    forall i, j | 0 <= i < j < |ab| ensures ab[i].lab.id != ab[j].lab.id {
      if i < |a| && j >= |a| {
        assert ab[j] == b[j - |a|] && b[j - |a|] in b;
        LabIdsMember(a, ab[i].lab.id);
      } else if i >= |a| {
        assert ab[i] == b[i - |a|] && ab[j] == b[j - |a|];
      }
    }
  }

  /** First-fit openings of a later bucket, counted from the labs of the
      earlier ones, are first-fit openings of the session. */
  lemma OpenedConcat(labs: seq<Lab>, a: seq<Record>, b: seq<Record>)
    requires OpenedFirstFit(labs, {}, a) && OpenedFirstFit(labs, LabIds(a), b)
    ensures OpenedFirstFit(labs, {}, a + b)
  {
    var ab := a + b;
    forall j | 0 <= j < |ab| ensures OpenedAt(labs, {}, ab, j) {
      if j < |a| {
        assert OpenedAt(labs, {}, a, j);
        assert ab[..j] == a[..j] && ab[j] == a[j];
      } else {
        var k := j - |a|;
        assert OpenedAt(labs, LabIds(a), b, k);
        assert ab[..j] == a + b[..k] && ab[j] == b[k];
        LabIdsConcat(a, b[..k]);
        assert {} + LabIds(ab[..j]) == LabIds(a) + LabIds(b[..k]);
      }
    }
  }

  /** Selecting the union of two disjoint id sets from two sequences with
      disjoint ids selects each set from its own sequence. */
  lemma KeepUnion(a: seq<Group>, b: seq<Group>, p: set<string>, q: set<string>)
    requires Ids(a) !! Ids(b) && p <= Ids(a) && q <= Ids(b)
    ensures Keep(a + b, p + q) == Keep(a, p) + Keep(b, q)
  {
    KeepAppend(a, b, p + q);
    KeepCongruent(a, p + q, p);
    KeepCongruent(b, p + q, q);
  }

  /** Groups left out of earlier buckets stay without a lab as more labs are
      taken, and so do those left out of the new bucket. */
  lemma UnplacedConcat(labs: seq<Lab>, used: set<string>, more: set<string>, a: seq<Group>, b: seq<Group>,
                       p: set<string>, q: set<string>)
    requires used <= more && Unplaced(labs, used, a, p) && Unplaced(labs, more, b, q)
    requires q <= Ids(b) && Ids(a) !! Ids(b)
    ensures Unplaced(labs, more, a + b, p + q)
  {
    forall g | g in a + b && g.id !in p + q ensures FirstFit(labs, more, g.count).None? {
      if g in a {
        FirstFitStaysNone(labs, used, more, g.count);
      }
    }
  }

  /** After the last bucket the session's records satisfy its contract. */
  lemma SessionEnd(labs: seq<Lab>, clusters: seq<Cluster>, pool: seq<Group>, order: seq<Group>,
                   records: seq<Record>, placed: set<string>)
    requires order == Visit(clusters, pool)
    requires SessionSoFar(labs, clusters, order, records, placed)
    ensures placed <= Ids(pool)
    ensures forall g | g in pool && g.id !in placed :: FirstFit(labs, LabIds(records), g.count).None?
  {
    VisitPermutes(clusters, pool);
    assert forall g :: g in pool <==> g in order by {
      forall g ensures g in pool <==> g in order {
        assert g in pool <==> g in multiset(pool);
      }
    }
  }
}
