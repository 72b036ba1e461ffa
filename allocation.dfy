/** The allocation driver (`allocateStudents`): labs are sorted by capacity
    and groups by headcount, both descending, and sessions are run on the
    groups not yet allocated until none remain or a session places nothing. */
module Allocation {
  import opened Domain
  import opened Resolver
  import opened Sorting
  import opened Grouping
  import opened Packing
  import opened Session

  /** What a run produces: a refusal when there are no labs or no groups,
      or the sessions (each a list of records), the groups left
      unallocated in headcount order, and the session number (1-based)
      stamped on each allocated group's id. */
  datatype Outcome =
    | Rejected
    | Allocation(sessions: seq<seq<Record>>, unallocated: seq<Group>, stamps: map<string, nat>)

  /** One session's records: at least one, each in one of `labs`, filled
      within capacity and holding one year and one cluster, no lab twice,
      each lab the first fit when it was opened, and a new lab opened for a
      bucket only when the group opening it did not fit in the seats left in
      the bucket's previous lab. */
  ghost predicate SessionOK(labs: seq<Lab>, clusters: seq<Cluster>, rs: seq<Record>)
  {
    && rs != []
    && (forall r | r in rs :: r.lab in labs && Filled(r) && Homogeneous(clusters, r))
    && LabsDistinct(rs)
    && OpenedFirstFit(labs, {}, rs)
    && Tight(rs)
  }

  /** The groups still waiting when session `k` starts: the sorted groups
      without those placed by the sessions before it. */
  function Waiting(sorted: seq<Group>, sessions: seq<seq<Record>>, k: nat): seq<Group>
    requires k <= |sessions|
  {
    Drop(sorted, Ids(AllGroups(sessions[..k])))
  }

  /** Every session is what the reference session does with the groups
      waiting when it starts. */
  predicate Replays(labs: seq<Lab>, clusters: seq<Cluster>, sorted: seq<Group>, sessions: seq<seq<Record>>)
  {
    forall k | 0 <= k < |sessions| :: sessions[k] == SessionSpec(labs, clusters, Waiting(sorted, sessions, k)).records
  }

  /** Every group placed in `rs` carries the session number `n`. */
  ghost predicate Stamped(stamps: map<string, nat>, rs: seq<Record>, n: nat)
  {
    forall g | g in Flatten(rs) :: g.id in stamps && stamps[g.id] == n
  }

  /** No lab has room for any of `gs`. */
  predicate TooLarge(labs: seq<Lab>, gs: seq<Group>)
  {
    forall g | g in gs :: forall l | l in labs :: l.capacity < g.count
  }

  /** The driver's state between sessions. */
  ghost predicate DriverState(labs: seq<Lab>, clusters: seq<Cluster>, sorted: seq<Group>,
                              sessions: seq<seq<Record>>, remaining: seq<Group>, stamps: map<string, nat>)
  {
    && multiset(AllGroups(sessions)) + multiset(remaining) == multiset(sorted)
    && remaining == Drop(sorted, stamps.Keys)
    && stamps.Keys == Ids(AllGroups(sessions))
    && (forall k | 0 <= k < |sessions| :: SessionOK(labs, clusters, sessions[k]) && Stamped(stamps, sessions[k], k + 1))
    && |sessions| + |remaining| <= |sorted|
    && Replays(labs, clusters, sorted, sessions)
  }

  /** What a completed run promises: every group is allocated once or left
      over; the leftovers are the groups never stamped, in headcount order;
      the stamps are exactly the allocated ids, each carrying the number of
      its session; there are no more sessions than groups; every session is
      well formed over the capacity-sorted labs and is exactly the reference
      session run on the groups still waiting; the run stopped because no
      group was waiting or because a session would place nothing; and a
      group is left over exactly when no lab is large enough for it. */
  ghost predicate Allocated(labs: seq<Lab>, groups: seq<Group>, clusters: seq<Cluster>,
                            sessions: seq<seq<Record>>, unallocated: seq<Group>, stamps: map<string, nat>)
  {
    && multiset(AllGroups(sessions)) + multiset(unallocated) == multiset(groups)
    && unallocated == Drop(SortDesc(groups, Headcount), stamps.Keys)
    && stamps.Keys == Ids(AllGroups(sessions))
    && |sessions| <= |groups|
    && (forall k | 0 <= k < |sessions| ::
          SessionOK(SortDesc(labs, Capacity), clusters, sessions[k]) && Stamped(stamps, sessions[k], k + 1))
    && Replays(SortDesc(labs, Capacity), clusters, SortDesc(groups, Headcount), sessions)
    && (unallocated == [] || SessionSpec(SortDesc(labs, Capacity), clusters, unallocated).records == [])
    && (forall g | g in groups :: g in unallocated <==> forall l | l in labs :: l.capacity < g.count)
  }

  method Allocate(labs: seq<Lab>, groups: seq<Group>, clusters: seq<Cluster>) returns (out: Outcome)
    requires Headcounts(groups) && UniqueIds(groups)
    ensures out.Rejected? <==> labs == [] || groups == []
    ensures out.Allocation? ==> Allocated(labs, groups, clusters, out.sessions, out.unallocated, out.stamps)
  {
    if |labs| == 0 || |groups| == 0 {
      return Rejected;
    }
    var sortedLabs := SortDesc(labs, Capacity);
    var sortedGroups := SortDesc(groups, Headcount);
    assert UniqueIds(sortedGroups) && Headcounts(sortedGroups) by {
      Sorted(labs, groups);
    }
    var remaining := sortedGroups;
    var sessions: seq<seq<Record>> := [];
    var stamps: map<string, nat> := map[];
    var current := 0;
    DriverStart(sortedLabs, clusters, sortedGroups);
    while |remaining| > 0
      invariant current == |sessions|
      invariant DriverState(sortedLabs, clusters, sortedGroups, sessions, remaining, stamps)
      decreases |remaining|
    {
      assert UniqueIds(remaining) && Headcounts(remaining) by {
        PoolOK(sortedGroups, remaining, AllGroups(sessions));
      }
      var records, placed := RunSession(sortedLabs, clusters, remaining);
      SessionNonEmpty(sortedLabs, clusters, remaining, records, placed);
      if |records| > 0 {
        SessionStep(sortedLabs, clusters, sortedGroups, sessions, remaining, stamps, records, placed, current + 1);
        DropShrinks(remaining, placed);
        stamps := Stamp(stamps, placed, current + 1);
        sessions := sessions + [records];
        current := current + 1;
        remaining := Drop(remaining, placed);
      } else {
        StallTooLarge(sortedLabs, clusters, remaining, records, placed);
        break;
      }
    }
    out := Allocation(sessions, remaining, stamps);
    Finish(labs, groups, clusters, sessions, remaining, stamps);
  }

  /** The sorted groups keep the groups' unique ids and headcounts. */
  lemma Sorted(labs: seq<Lab>, groups: seq<Group>)
    requires Headcounts(groups) && UniqueIds(groups)
    ensures UniqueIds(SortDesc(groups, Headcount)) && Headcounts(SortDesc(groups, Headcount))
  {
    var sorted := SortDesc(groups, Headcount);
    SortDescSorted(groups, Headcount);
    UniqueIdsSub(sorted, groups);
    forall g | g in sorted ensures g.count >= 0 {
      assert g in multiset(groups);
    }
  }

  /** Before the first session nothing is allocated. */
  lemma DriverStart(labs: seq<Lab>, clusters: seq<Cluster>, sorted: seq<Group>)
    ensures DriverState(labs, clusters, sorted, [], sorted, map[])
  {
    var none: map<string, nat> := map[];
    assert none.Keys == {};
    DropNothing(sorted);
  }

  /** A run that ends, with every group allocated or the rest too large for
      every lab, keeps its promise. */
  lemma Finish(labs: seq<Lab>, groups: seq<Group>, clusters: seq<Cluster>,
               sessions: seq<seq<Record>>, remaining: seq<Group>, stamps: map<string, nat>)
    requires DriverState(SortDesc(labs, Capacity), clusters, SortDesc(groups, Headcount), sessions, remaining, stamps)
    requires TooLarge(SortDesc(labs, Capacity), remaining)
    requires remaining == [] || SessionSpec(SortDesc(labs, Capacity), clusters, remaining).records == []
    ensures Allocated(labs, groups, clusters, sessions, remaining, stamps)
  {
    SortDescSorted(labs, Capacity);
    SortDescSorted(groups, Headcount);
    Unallocated(labs, SortDesc(labs, Capacity), groups, SortDesc(groups, Headcount), sessions, remaining);
  }

  /** The stamps after a session numbered `n` placed the groups `placed`
      (`group.session = currentSession + 1`). */
  function Stamp(stamps: map<string, nat>, placed: set<string>, n: nat): (r: map<string, nat>)
    ensures r.Keys == stamps.Keys + placed
    ensures forall id | id in placed :: r[id] == n
    ensures forall id | id in stamps && id !in placed :: r[id] == stamps[id]
  {
    stamps + map id | id in placed :: n
  }

  /** The groups still to allocate are groups of the run, with their ids unique. */
  lemma PoolOK(sorted: seq<Group>, remaining: seq<Group>, done: seq<Group>)
    requires UniqueIds(sorted) && Headcounts(sorted)
    requires multiset(done) + multiset(remaining) == multiset(sorted)
    ensures UniqueIds(remaining) && Headcounts(remaining)
  {
    UniqueIdsSub(remaining, sorted);
    forall g | g in remaining ensures g.count >= 0 {
      assert g in multiset(sorted);
    }
  }

  /** A session opens a record exactly when it places a group. */
  lemma SessionNonEmpty(labs: seq<Lab>, clusters: seq<Cluster>, pool: seq<Group>, records: seq<Record>, placed: set<string>)
    requires forall r | r in records :: Filled(r)
    requires Flatten(records) == Keep(Visit(clusters, pool), placed) && placed <= Ids(pool)
    ensures records == [] <==> placed == {}
  {
    var visit := Visit(clusters, pool);
    if records != [] {
      FlattenLength(records);
      var g := Flatten(records)[0];
      KeepDropMembers(visit, placed, g);
    }
    if placed != {} {
      var id :| id in placed;
      var g :| g in pool && g.id == id;
      VisitPermutes(clusters, pool);
      assert g in multiset(visit);
      KeepDropMembers(visit, placed, g);
    }
  }

  /** A session that places nothing opens no lab, so each remaining group
      found no lab at all: it is larger than every lab. */
  lemma StallTooLarge(labs: seq<Lab>, clusters: seq<Cluster>, pool: seq<Group>, records: seq<Record>, placed: set<string>)
    requires records == [] && placed == {}
    requires forall g | g in pool && g.id !in placed :: FirstFit(labs, LabIds(records), g.count).None?
    ensures TooLarge(labs, pool)
  {
    forall g | g in pool ensures forall l | l in labs :: l.capacity < g.count {
      FirstFitNoneUnused(labs, g.count);
    }
  }

  /** One session that placed the groups `placed` moves the run to the next state. */
  lemma SessionStep(labs: seq<Lab>, clusters: seq<Cluster>, sorted: seq<Group>,
                    sessions: seq<seq<Record>>, remaining: seq<Group>, stamps: map<string, nat>,
                    records: seq<Record>, placed: set<string>, n: nat)
    requires DriverState(labs, clusters, sorted, sessions, remaining, stamps)
    requires n == |sessions| + 1
    requires records != [] && placed != {}
    requires forall r | r in records :: r.lab in labs && Filled(r) && Homogeneous(clusters, r)
    requires LabsDistinct(records) && OpenedFirstFit(labs, {}, records)
    requires Flatten(records) == Keep(Visit(clusters, remaining), placed)
    requires placed <= Ids(remaining)
    requires Tight(records) && records == SessionSpec(labs, clusters, remaining).records
    ensures DriverState(labs, clusters, sorted, sessions + [records], Drop(remaining, placed),
                        Stamp(stamps, placed, n))
  {
    var stamps' := Stamp(stamps, placed, n);
    assert placed !! stamps.Keys && stamps'.Keys == stamps.Keys + placed by {
      FreshIds(sorted, remaining, stamps, placed, n);
    }
    assert multiset(Flatten(records)) == multiset(Keep(remaining, placed)) by {
      VisitPermutes(clusters, remaining);
      KeepPermutation(Visit(clusters, remaining), remaining, placed);
    }
    assert Ids(Flatten(records)) == placed by {
      IdsKeep(Visit(clusters, remaining), placed, clusters, remaining);
    }
    StepGroups(sorted, sessions, remaining, stamps.Keys, records, placed);
    StepSessions(labs, clusters, sessions, stamps, records, placed, n);
    StepReplays(labs, clusters, sorted, sessions, records);
  }

  /** A new session that is the reference session on the groups still
      waiting keeps every session a replay. */
  lemma StepReplays(labs: seq<Lab>, clusters: seq<Cluster>, sorted: seq<Group>,
                    sessions: seq<seq<Record>>, records: seq<Record>)
    requires Replays(labs, clusters, sorted, sessions)
    requires records == SessionSpec(labs, clusters, Drop(sorted, Ids(AllGroups(sessions)))).records
    ensures Replays(labs, clusters, sorted, sessions + [records])
  {
    var sessions' := sessions + [records];
    forall k | 0 <= k < |sessions'|
      ensures sessions'[k] == SessionSpec(labs, clusters, Waiting(sorted, sessions', k)).records
    {
      assert sessions'[..k] == sessions[..k];
      if k == |sessions| {
        assert sessions[..k] == sessions;
      }
    }
  }

  /** The ids a session places are not stamped yet, and stamping them adds them to the stamped ids. */
  lemma FreshIds(sorted: seq<Group>, remaining: seq<Group>, stamps: map<string, nat>, placed: set<string>, n: nat)
    requires remaining == Drop(sorted, stamps.Keys) && placed <= Ids(remaining)
    ensures placed !! stamps.Keys
    ensures Stamp(stamps, placed, n).Keys == stamps.Keys + placed
  {
    forall id | id in placed ensures id !in stamps.Keys {
      var g :| g in remaining && g.id == id;
      KeepDropMembers(sorted, stamps.Keys, g);
    }
  }

  /** The groups of a new session leave the remaining groups and join the allocated ones. */
  lemma StepGroups(sorted: seq<Group>, sessions: seq<seq<Record>>, remaining: seq<Group>, keys: set<string>,
                   records: seq<Record>, placed: set<string>)
    requires multiset(AllGroups(sessions)) + multiset(remaining) == multiset(sorted)
    requires remaining == Drop(sorted, keys)
    requires keys == Ids(AllGroups(sessions))
    requires |sessions| + |remaining| <= |sorted|
    requires multiset(Flatten(records)) == multiset(Keep(remaining, placed))
    requires Ids(Flatten(records)) == placed && placed != {} && placed <= Ids(remaining)
    ensures multiset(AllGroups(sessions + [records])) + multiset(Drop(remaining, placed)) == multiset(sorted)
    ensures Drop(remaining, placed) == Drop(sorted, keys + placed)
    ensures keys + placed == Ids(AllGroups(sessions + [records]))
    ensures |sessions + [records]| + |Drop(remaining, placed)| <= |sorted|
  {
    StepPool(sorted, sessions, remaining, records, placed);
    StepKeys(sorted, sessions, remaining, keys, records, placed);
  }

  /** The placed groups leave the pool for the new session, and the pool shrinks. */
  lemma StepPool(sorted: seq<Group>, sessions: seq<seq<Record>>, remaining: seq<Group>,
                 records: seq<Record>, placed: set<string>)
    requires multiset(AllGroups(sessions)) + multiset(remaining) == multiset(sorted)
    requires |sessions| + |remaining| <= |sorted|
    requires multiset(Flatten(records)) == multiset(Keep(remaining, placed))
    requires placed != {} && placed <= Ids(remaining)
    ensures multiset(AllGroups(sessions + [records])) + multiset(Drop(remaining, placed)) == multiset(sorted)
    ensures |sessions + [records]| + |Drop(remaining, placed)| <= |sorted|
  {
    assert AllGroups(sessions + [records]) == AllGroups(sessions) + Flatten(records) by {
      assert (sessions + [records])[..|sessions|] == sessions;
    }
    KeepDropSplit(remaining, placed);
    DropShrinks(remaining, placed);
  }

  /** After the session the pool is the sorted groups without every stamped
      id, and the stamped ids are the ids of every allocated group. */
  lemma StepKeys(sorted: seq<Group>, sessions: seq<seq<Record>>, remaining: seq<Group>, keys: set<string>,
                 records: seq<Record>, placed: set<string>)
    requires remaining == Drop(sorted, keys)
    requires keys == Ids(AllGroups(sessions))
    requires Ids(Flatten(records)) == placed
    ensures Drop(remaining, placed) == Drop(sorted, keys + placed)
    ensures keys + placed == Ids(AllGroups(sessions + [records]))
  {
    assert AllGroups(sessions + [records]) == AllGroups(sessions) + Flatten(records) by {
      assert (sessions + [records])[..|sessions|] == sessions;
    }
    DropDrop(sorted, keys, placed);
    IdsConcat(AllGroups(sessions), Flatten(records));
  }

  /** The earlier sessions keep their stamps, and the new one is stamped with its number. */
  lemma StepSessions(labs: seq<Lab>, clusters: seq<Cluster>, sessions: seq<seq<Record>>, stamps: map<string, nat>,
                     records: seq<Record>, placed: set<string>, n: nat)
    requires n == |sessions| + 1
    requires forall k | 0 <= k < |sessions| :: SessionOK(labs, clusters, sessions[k]) && Stamped(stamps, sessions[k], k + 1)
    requires records != [] && Tight(records)
    requires forall r | r in records :: r.lab in labs && Filled(r) && Homogeneous(clusters, r)
    requires LabsDistinct(records) && OpenedFirstFit(labs, {}, records)
    requires placed !! stamps.Keys && Ids(Flatten(records)) == placed
    ensures forall k | 0 <= k < |sessions| + 1 ::
      SessionOK(labs, clusters, (sessions + [records])[k])
      && Stamped(Stamp(stamps, placed, n), (sessions + [records])[k], k + 1)
  {
    var stamps' := Stamp(stamps, placed, n);
    var sessions' := sessions + [records];
    forall k | 0 <= k < |sessions'|
      ensures SessionOK(labs, clusters, sessions'[k]) && Stamped(stamps', sessions'[k], k + 1)
    {
      if k < |sessions| {
        assert sessions'[k] == sessions[k];
        StampedKept(stamps, placed, n, sessions[k], k + 1);
      } else {
        assert sessions'[k] == records;
        assert forall g | g in Flatten(records) :: g.id in Ids(Flatten(records));
      }
    }
  }

  /** Stamping fresh ids keeps the stamps of earlier sessions. */
  lemma StampedKept(stamps: map<string, nat>, placed: set<string>, m: nat, rs: seq<Record>, n: nat)
    requires placed !! stamps.Keys && Stamped(stamps, rs, n)
    ensures Stamped(Stamp(stamps, placed, m), rs, n)
  {
  }

  /** The ids of the groups of `s` selected by `ids` are `ids`, when every one names a group of `s`. */
  lemma IdsKeep(s: seq<Group>, ids: set<string>, clusters: seq<Cluster>, pool: seq<Group>)
    requires s == Visit(clusters, pool) && ids <= Ids(pool)
    ensures Ids(Keep(s, ids)) == ids
  {
    VisitPermutes(clusters, pool);
    forall id | id in ids ensures id in Ids(Keep(s, ids)) {
      var g :| g in pool && g.id == id;
      assert g in multiset(s);
      KeepDropMembers(s, ids, g);
    }
    forall g | g in Keep(s, ids) ensures g.id in ids {
      KeepDropMembers(s, ids, g);
    }
  }

  /** Dropping no id drops nothing. */
  lemma {:induction false} DropNothing(s: seq<Group>)
    ensures Drop(s, {}) == s
    decreases |s|
  {
    if s != [] {
      DropNothing(s[..|s| - 1]);
    }
  }

  /** Dropping `a` and then `b` drops `a + b`. */
  lemma {:induction false} DropDrop(s: seq<Group>, a: set<string>, b: set<string>)
    ensures Drop(Drop(s, a), b) == Drop(s, a + b)
    decreases |s|
  {
    if s != [] {
      var init, x := s[..|s| - 1], s[|s| - 1];
      DropDrop(init, a, b);
      var d := Drop(init, a);
      assert Drop(s, a + b) == Drop(init, a + b) + (if x.id in a + b then [] else [x]);
      if x.id !in a {
        assert Drop(s, a) == d + [x];
        assert (d + [x])[..|d|] == d;
        assert Drop(d + [x], b) == Drop(d, b) + (if x.id in b then [] else [x]);
      } else {
        assert Drop(s, a) == d;
      }
    }
  }

  /** Dropping at least one id of `s` makes it shorter. */
  lemma DropShrinks(s: seq<Group>, ids: set<string>)
    requires ids != {} && ids <= Ids(s)
    ensures |Drop(s, ids)| < |s|
  {
    var id :| id in ids;
    var g :| g in s && g.id == id;
    KeepDropMembers(s, ids, g);
    KeepDropSplit(s, ids);
    assert |multiset(Keep(s, ids))| + |multiset(Drop(s, ids))| == |multiset(s)|;
  }

  /** At the end, the unallocated groups are exactly the groups larger than every lab. */
  lemma Unallocated(labs: seq<Lab>, sortedLabs: seq<Lab>, groups: seq<Group>, sorted: seq<Group>,
                    sessions: seq<seq<Record>>, remaining: seq<Group>)
    requires multiset(sortedLabs) == multiset(labs) && multiset(sorted) == multiset(groups)
    requires multiset(AllGroups(sessions)) + multiset(remaining) == multiset(sorted)
    requires forall k | 0 <= k < |sessions| :: forall r | r in sessions[k] :: r.lab in sortedLabs && Filled(r)
    requires TooLarge(sortedLabs, remaining)
    ensures forall g | g in groups :: g in remaining <==> forall l | l in labs :: l.capacity < g.count
  {
    forall g | g in groups ensures g in remaining <==> forall l | l in labs :: l.capacity < g.count {
      assert g in multiset(sorted);
      if g in remaining {
        SameLabs(labs, sortedLabs, g);
      } else {
        assert g in multiset(AllGroups(sessions));
        var l := PlacedFits(sortedLabs, sessions, g);
        assert l in multiset(labs);
      }
    }
  }

  /** A group larger than every lab of the sorted list is larger than every lab. */
  lemma SameLabs(labs: seq<Lab>, sortedLabs: seq<Lab>, g: Group)
    requires multiset(sortedLabs) == multiset(labs)
    requires forall l | l in sortedLabs :: l.capacity < g.count
    ensures forall l | l in labs :: l.capacity < g.count
  {
    forall l | l in labs ensures l.capacity < g.count {
      assert l in multiset(sortedLabs);
    }
  }

  /** A placed group sits in a lab with room for it. */
  lemma PlacedFits(labs: seq<Lab>, sessions: seq<seq<Record>>, g: Group) returns (l: Lab)
    requires forall k | 0 <= k < |sessions| :: forall r | r in sessions[k] :: r.lab in labs && Filled(r)
    requires g in AllGroups(sessions)
    ensures l in labs && g.count <= l.capacity
  {
    AllGroupsMember(sessions, g);
    var s :| s in sessions && g in Flatten(s);
    FlattenMember(s, g);
    var r :| r in s && g in r.groups;
    var k :| 0 <= k < |sessions| && sessions[k] == s;
    l := r.lab;
  }
}
