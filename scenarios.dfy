/** Worked runs of one session on small inputs, each showing what the
    reference session produces: the groups of a bucket share a lab while
    they fit, a later group fills the seats left, a second group that does
    not fit waits for the next session, and a group larger than every lab
    is never placed. */
module Scenarios {
  import opened Domain
  import opened Resolver
  import opened Grouping
  import opened Packing
  import opened Session

  /** Two groups with the same key land in one bucket, in order. */
  lemma OneBucket(g1: Group, g2: Group, kind: KeyKind, k: string)
    requires KeyOf(kind, g1) == k && KeyOf(kind, g2) == k
    ensures Partition([g1, g2], kind) == [Bucket(k, [g1, g2])]
  {
    var b := Partition([g1], kind);
    assert [g1][..0] == [] && [g1, g2][..1] == [g1];
    assert Partition([], kind) == [];
    assert b == Push([], k, g1);
    assert Keys([]) == [];
    assert InsertPos([], k) == 0;
    assert b == [Bucket(k, [g1])];
    assert Keys(b) == [k];
    assert IndexOf(Keys(b), k) == 0;
    assert Partition([g1, g2], kind) == Push(b, k, g2);
    assert [g1] + [g2] == [g1, g2];
  }

  /** A session over groups of one year and one cluster packs them as one bucket. */
  lemma OneBucketSession(labs: seq<Lab>, clusters: seq<Cluster>, g1: Group, g2: Group, cluster: string)
    requires g1.year == g2.year
    requires Resolve(clusters, g1.departments) == cluster && Resolve(clusters, g2.departments) == cluster
    ensures var p := PackSpec(labs, {}, g1.year, cluster, [g1, g2]);
      SessionSpec(labs, clusters, [g1, g2]) == Pass(p.recs, p.used, p.placed)
  {
    OneBucket(g1, g2, ByYear, g1.year);
    OneBucket(g1, g2, ByCluster(clusters), cluster);
    var years := [Bucket(g1.year, [g1, g2])];
    assert years[..0] == [];
    var buckets := [Bucket(cluster, [g1, g2])];
    assert buckets[..0] == [];
    assert PackYears(labs, clusters, years) == PackClusters(labs, g1.year, buckets, Pass([], {}, {}));
    var p := PackSpec(labs, {}, g1.year, cluster, [g1, g2]);
    assert [] + p.recs == p.recs && {} + p.placed == p.placed;
  }

  /** Two labs of 60 seats and two groups of 30 of one year and department:
      both groups go to the first lab, and the second lab stays closed. */
  lemma SharedLab()
    ensures var a, b := Lab("a", "A", 60), Lab("b", "B", 60);
      var g1, g2 := Group("g1", "1", "CSE", "A", 30), Group("g2", "1", "CSE", "B", 30);
      SessionSpec([a, b], [], [g1, g2]) == Pass([Record(a, "1", "CSE", [g1, g2])], {"a"}, {"g1", "g2"})
  {
    var a, b := Lab("a", "A", 60), Lab("b", "B", 60);
    var g1, g2 := Group("g1", "1", "CSE", "A", 30), Group("g2", "1", "CSE", "B", 30);
    OneBucketSession([a, b], [], g1, g2, "CSE");
    assert [g1, g2][..1] == [g1] && [g1][..0] == [];
    var r1 := Record(a, "1", "CSE", [g1]);
    assert PackSpec([a, b], {}, "1", "CSE", [g1]) == Packer([r1], {"a"}, {"g1"}, 30);
    assert PackSpec([a, b], {}, "1", "CSE", [g1, g2]) == Packer([Grown(r1, g2)], {"a"}, {"g1", "g2"}, 0);
    assert [g1] + [g2] == [g1, g2];
  }

  /** A lab of 60 seats and groups of 40 and 10 of one bucket: the 10 take
      seats left by the 40 in the same lab. */
  lemma FillRoomLeft()
    ensures var a := Lab("a", "A", 60);
      var g1, g2 := Group("g1", "2", "IT", "A", 40), Group("g2", "2", "IT", "B", 10);
      SessionSpec([a], [], [g1, g2]) == Pass([Record(a, "2", "IT", [g1, g2])], {"a"}, {"g1", "g2"})
  {
    var a := Lab("a", "A", 60);
    var g1, g2 := Group("g1", "2", "IT", "A", 40), Group("g2", "2", "IT", "B", 10);
    OneBucketSession([a], [], g1, g2, "IT");
    assert [g1, g2][..1] == [g1] && [g1][..0] == [];
    var r1 := Record(a, "2", "IT", [g1]);
    assert PackSpec([a], {}, "2", "IT", [g1]) == Packer([r1], {"a"}, {"g1"}, 20);
    assert PackSpec([a], {}, "2", "IT", [g1, g2]) == Packer([Grown(r1, g2)], {"a"}, {"g1", "g2"}, 10);
    assert [g1] + [g2] == [g1, g2];
  }

  /** Two groups of 30 of one bucket and one lab of 30: the first fills the
      lab, and the second finds no lab free in this session. */
  lemma OverflowFirstSession()
    ensures var a := Lab("a", "A", 30);
      var g1, g2 := Group("g1", "1", "ME", "A", 30), Group("g2", "1", "ME", "B", 30);
      SessionSpec([a], [], [g1, g2]) == Pass([Record(a, "1", "ME", [g1])], {"a"}, {"g1"})
  {
    var a := Lab("a", "A", 30);
    var g1, g2 := Group("g1", "1", "ME", "A", 30), Group("g2", "1", "ME", "B", 30);
    OneBucketSession([a], [], g1, g2, "ME");
    assert [g1, g2][..1] == [g1] && [g1][..0] == [];
    var r1 := Record(a, "1", "ME", [g1]);
    assert PackSpec([a], {}, "1", "ME", [g1]) == Packer([r1], {"a"}, {"g1"}, 0);
    assert FirstFit([a], {"a"}, 30) == None;
  }

  /** A session over a single group packs it as one bucket. */
  lemma OneGroupSession(labs: seq<Lab>, clusters: seq<Cluster>, g: Group)
    ensures var p := PackSpec(labs, {}, g.year, Resolve(clusters, g.departments), [g]);
      SessionSpec(labs, clusters, [g]) == Pass(p.recs, p.used, p.placed)
  {
    var cluster := Resolve(clusters, g.departments);
    assert [g][..0] == [];
    assert Partition([g], ByYear) == [Bucket(g.year, [g])];
    assert Partition([g], ByCluster(clusters)) == [Bucket(cluster, [g])];
    var years := [Bucket(g.year, [g])];
    assert years[..0] == [];
    var buckets := [Bucket(cluster, [g])];
    assert buckets[..0] == [];
    assert PackYears(labs, clusters, years) == PackClusters(labs, g.year, buckets, Pass([], {}, {}));
    var p := PackSpec(labs, {}, g.year, cluster, [g]);
    assert [] + p.recs == p.recs && {} + p.placed == p.placed;
  }

  /** The second session of the overflow run: the group left over gets the
      lab, which is free again. */
  lemma OverflowSecondSession()
    ensures var a := Lab("a", "A", 30);
      var g2 := Group("g2", "1", "ME", "B", 30);
      SessionSpec([a], [], [g2]) == Pass([Record(a, "1", "ME", [g2])], {"a"}, {"g2"})
  {
    var a := Lab("a", "A", 30);
    var g2 := Group("g2", "1", "ME", "B", 30);
    OneGroupSession([a], [], g2);
    assert [g2][..0] == [];
  }

  /** One lab of 30 and one group of 30: one record fills the lab. */
  lemma ExactFit()
    ensures var a := Lab("a", "A", 30);
      var g := Group("g", "3", "EE", "A", 30);
      var st := SessionSpec([a], [], [g]);
      st.records == [Record(a, "3", "EE", [g])] && Room(st.records[0]) == 0
  {
    var a := Lab("a", "A", 30);
    var g := Group("g", "3", "EE", "A", 30);
    OneGroupSession([a], [], g);
    assert [g][..0] == [];
    assert Load([g]) == 30;
  }

  /** One lab of 10 and one group of 50: the session opens no lab and places
      nothing, so the driver stops with the group unallocated. */
  lemma Unsatisfiable()
    ensures var a := Lab("a", "A", 10);
      var g := Group("g", "1", "CSE", "A", 50);
      SessionSpec([a], [], [g]) == Pass([], {}, {})
  {
    var a := Lab("a", "A", 10);
    var g := Group("g", "1", "CSE", "A", 50);
    OneGroupSession([a], [], g);
    assert [g][..0] == [];
  }
}
