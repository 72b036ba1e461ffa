/** Packing stage: the groups of one (year, cluster) bucket are placed, in
    bucket order, into labs opened first-fit from the capacity-sorted lab
    list. A lab opened for a bucket stays the current lab until a group does
    not fit in what is left of it; a lab is opened at most once per session. */
module Packing {
  import opened Domain

  /** The first lab, in list order, that is not used yet and has room for
      `count` students (`find` over the labs with `!used.has(lab.id) &&
      lab.capacity >= count`). */
  function FirstFit(labs: seq<Lab>, used: set<string>, count: int): Option<Lab>
  {
    if labs == [] then None
    else if labs[0].id !in used && labs[0].capacity >= count then Some(labs[0])
    else FirstFit(labs[1..], used, count)
  }

  /** `FirstFit` picks an unused lab with room, the first one in list order,
      and finds none exactly when every lab is used or too small. */
  lemma FirstFitFirst(labs: seq<Lab>, used: set<string>, count: int)
    ensures FirstFit(labs, used, count).Some? ==>
      var l := FirstFit(labs, used, count).value;
      l in labs && l.id !in used && l.capacity >= count
    ensures FirstFit(labs, used, count).None? <==>
      forall l | l in labs :: l.id in used || l.capacity < count
    ensures forall i | 0 <= i < |labs| && labs[i].id !in used && labs[i].capacity >= count ::
      (forall j | 0 <= j < i :: labs[j].id in used || labs[j].capacity < count) ==>
        FirstFit(labs, used, count) == Some(labs[i])
  {
    FirstFitFound(labs, used, count);
    FirstFitEarliest(labs, used, count);
  }

  /** What `FirstFit` finds is an unused lab with room; it finds nothing only
      when every lab is used or too small. */
  lemma {:induction false} FirstFitFound(labs: seq<Lab>, used: set<string>, count: int)
    ensures FirstFit(labs, used, count).Some? ==>
      var l := FirstFit(labs, used, count).value;
      l in labs && l.id !in used && l.capacity >= count
    ensures FirstFit(labs, used, count).None? <==>
      forall l | l in labs :: l.id in used || l.capacity < count
    decreases |labs|
  {
    if labs != [] && !(labs[0].id !in used && labs[0].capacity >= count) {
      FirstFitFound(labs[1..], used, count);
      assert labs == [labs[0]] + labs[1..];
    }
  }

  /** A lab with room that is unused, with every earlier lab used or too
      small, is the one `FirstFit` finds. */
  lemma {:induction false} FirstFitEarliest(labs: seq<Lab>, used: set<string>, count: int)
    ensures forall i | 0 <= i < |labs| && labs[i].id !in used && labs[i].capacity >= count ::
      (forall j | 0 <= j < i :: labs[j].id in used || labs[j].capacity < count) ==>
        FirstFit(labs, used, count) == Some(labs[i])
    decreases |labs|
  {
    if labs != [] && !(labs[0].id !in used && labs[0].capacity >= count) {
      FirstFitEarliest(labs[1..], used, count);
      forall i | 0 < i < |labs| ensures labs[i] == labs[1..][i - 1] { }
    }
  }

  /** Once no lab fits, none fits after more labs are used. */
  lemma {:induction false} FirstFitStaysNone(labs: seq<Lab>, used: set<string>, more: set<string>, count: int)
    requires used <= more && FirstFit(labs, used, count).None?
    ensures FirstFit(labs, more, count).None?
    decreases |labs|
  {
    if labs != [] {
      FirstFitStaysNone(labs[1..], used, more, count);
    }
  }

  /** With no lab used, nothing fits exactly when the group is larger than every lab. */
  lemma FirstFitNoneUnused(labs: seq<Lab>, count: int)
    ensures FirstFit(labs, {}, count).None? <==> forall l | l in labs :: l.capacity < count
  {
    FirstFitFirst(labs, {}, count);
  }

  /** The labs not used when a bucket starts (`availableLabs`), in list order. */
  function Unused(labs: seq<Lab>, used: set<string>): (r: seq<Lab>)
    ensures forall l :: l in r <==> l in labs && l.id !in used
  {
    if labs == [] then []
    else (if labs[0].id in used then [] else [labs[0]]) + Unused(labs[1..], used)
  }

  /** Searching the bucket's snapshot of unused labs, with the labs used since
      also excluded, finds the same lab as searching all labs. */
  lemma {:induction false} FirstFitUnused(labs: seq<Lab>, used0: set<string>, used: set<string>, count: int)
    requires used0 <= used
    ensures FirstFit(Unused(labs, used0), used, count) == FirstFit(labs, used, count)
    decreases |labs|
  {
    if labs != [] {
      FirstFitUnused(labs[1..], used0, used, count);
      var rest := Unused(labs[1..], used0);
      if labs[0].id !in used0 {
        assert Unused(labs, used0) == [labs[0]] + rest;
        assert ([labs[0]] + rest)[0] == labs[0];
        assert ([labs[0]] + rest)[1..] == rest;
      } else {
        assert Unused(labs, used0) == [] + rest == rest;
        assert labs[0].id in used;
      }
    }
  }

  /** Opening a record for `r` adds its lab's id to the labs in use. */
  lemma LabIdsAppend(rs: seq<Record>, r: Record)
    ensures LabIds(rs + [r]) == LabIds(rs) + {r.lab.id}
  {
    assert (rs + [r])[..|rs|] == rs;
  }

  /** One more group of a bucket with unique ids: placing it extends the
      placed selection by it, skipping it leaves the selection as it was. */
  lemma KeepStep(bucket: seq<Group>, i: nat, placed: set<string>)
    requires UniqueIds(bucket) && i < |bucket| && placed <= Ids(bucket[..i])
    ensures Keep(bucket[..i + 1], placed + {bucket[i].id}) == Keep(bucket[..i], placed) + [bucket[i]]
    ensures Keep(bucket[..i + 1], placed) == Keep(bucket[..i], placed)
    ensures placed + {bucket[i].id} <= Ids(bucket[..i + 1])
    ensures bucket[..i + 1] == bucket[..i] + [bucket[i]]
  {
    var g := bucket[i];
    UniqueIdsFresh(bucket, i);
    assert bucket[..i + 1][..i] == bucket[..i];
    assert g.id !in placed;
    KeepCongruent(bucket[..i], placed, placed + {g.id});
    assert bucket[..i + 1] == bucket[..i] + [g];
  }

  /** The records a bucket opens, each first-fit at the time it was opened:
      record `j`'s lab is the first lab not used before it (by the labs
      `used0` of earlier buckets or by records `0 .. j - 1`) with room for the
      record's first group. */
  ghost predicate OpenedFirstFit(labs: seq<Lab>, used0: set<string>, recs: seq<Record>)
  {
    forall j | 0 <= j < |recs| :: OpenedAt(labs, used0, recs, j)
  }

  /** Record `j` of `recs` was opened first-fit. */
  ghost predicate OpenedAt(labs: seq<Lab>, used0: set<string>, recs: seq<Record>, j: nat)
    requires j < |recs|
  {
    |recs[j].groups| > 0 && FirstFit(labs, used0 + LabIds(recs[..j]), recs[j].groups[0].count) == Some(recs[j].lab)
  }

  /** What every record of a bucket satisfies: a lab from the list, not used
      by an earlier bucket, labelled with the bucket, filled within capacity. */
  predicate RecordOf(labs: seq<Lab>, used0: set<string>, year: string, cluster: string, r: Record)
  {
    r.lab in labs && r.lab.id !in used0 && r.year == year && r.cluster == cluster && Filled(r)
  }

  /** The groups among `done` left out by `placed` found no lab with `used` taken. */
  ghost predicate Unplaced(labs: seq<Lab>, used: set<string>, done: seq<Group>, placed: set<string>)
  {
    forall g | g in done && g.id !in placed :: FirstFit(labs, used, g.count).None?
  }

  /** The seats left in a record's lab. */
  function Room(r: Record): int
  {
    r.lab.capacity - Load(r.groups)
  }

  /** Record `next` follows `prev` as the source's current-lab rule allows:
      within one bucket a new lab is opened only for a group that does not
      fit in the seats the current lab has left. */
  predicate Follows(prev: Record, next: Record)
  {
    prev.year == next.year && prev.cluster == next.cluster ==>
      |next.groups| > 0 && Room(prev) < next.groups[0].count
  }

  /** Every record follows the one before it. */
  predicate Tight(rs: seq<Record>)
  {
    forall j | 0 < j < |rs| :: Follows(rs[j - 1], rs[j])
  }

  /** The packer's variables: the records opened, the lab ids in use, the ids
      placed, and `remainingCapacity`. */
  datatype Packer = Packer(recs: seq<Record>, used: set<string>, placed: set<string>, room: int)

  /** One step of the packer on group `g` (the body of `deptGroups.forEach`):
      without a current lab, or when `g` does not fit in what is left of it,
      `g` opens the first lab that fits it or is skipped; otherwise it joins
      the current lab. */
  function PackNext(labs: seq<Lab>, year: string, cluster: string, st: Packer, g: Group): Packer
  {
    if st.recs == [] || st.room < g.count then
      match FirstFit(labs, st.used, g.count)
      case None => st
      case Some(lab) =>
        Packer(st.recs + [Record(lab, year, cluster, [g])], st.used + {lab.id}, st.placed + {g.id}, lab.capacity - g.count)
    else
      Packer(st.recs[..|st.recs| - 1] + [Grown(st.recs[|st.recs| - 1], g)], st.used, st.placed + {g.id}, st.room - g.count)
  }

  /** The packer's variables after the groups `done`, starting with the lab
      ids `used0` taken by earlier buckets. */
  function PackSpec(labs: seq<Lab>, used0: set<string>, year: string, cluster: string, done: seq<Group>): Packer
  {
    if done == [] then Packer([], used0, {}, 0)
    else PackNext(labs, year, cluster, PackSpec(labs, used0, year, cluster, done[..|done| - 1]), done[|done| - 1])
  }

  /** The state of a bucket after its groups `done`: the records opened, the
      lab ids in use, the ids placed and the room left in the current record. */
  ghost predicate Packed(labs: seq<Lab>, used0: set<string>, year: string, cluster: string, done: seq<Group>,
                         recs: seq<Record>, used: set<string>, placed: set<string>, remaining: int)
  {
    && used == used0 + LabIds(recs)
    && (forall r | r in recs :: RecordOf(labs, used0, year, cluster, r))
    && LabsDistinct(recs)
    && OpenedFirstFit(labs, used0, recs)
    && (recs != [] ==> remaining == recs[|recs| - 1].lab.capacity - Load(recs[|recs| - 1].groups))
    && Flatten(recs) == Keep(done, placed)
    && placed <= Ids(done)
    && Unplaced(labs, used, done, placed)
  }

  /** Places the groups of one bucket (the inner `deptGroups.forEach`).
      Returns the records opened, the lab ids in use afterwards and the ids of
      the groups placed. */
  method PackBucket(labs: seq<Lab>, used0: set<string>, bucket: seq<Group>, year: string, cluster: string)
    returns (recs: seq<Record>, used: set<string>, placed: set<string>)
    requires Headcounts(bucket) && UniqueIds(bucket)
    ensures used == used0 + LabIds(recs)
    ensures forall r | r in recs :: RecordOf(labs, used0, year, cluster, r)
    ensures LabsDistinct(recs)
    ensures OpenedFirstFit(labs, used0, recs)
    ensures Flatten(recs) == Keep(bucket, placed)
    ensures placed <= Ids(bucket)
    ensures forall g | g in bucket && g.id !in placed :: FirstFit(labs, used, g.count).None?
    ensures Tight(recs)
    ensures var st := PackSpec(labs, used0, year, cluster, bucket);
      recs == st.recs && used == st.used && placed == st.placed
  {
    recs, used, placed := [], used0, {};
    var available := Unused(labs, used0);
    if available == [] {
      forall g | g in bucket ensures FirstFit(labs, used, g.count).None? {
        FirstFitUnused(labs, used0, used, g.count);
      }
      KeepNothing(bucket);
      SpecNoLab(labs, used0, year, cluster, bucket);
      return;
    }
    var remaining := 0;
    KeepNothing([]);
    assert bucket[..0] == [];
    for i := 0 to |bucket|
      invariant Packed(labs, used0, year, cluster, bucket[..i], recs, used, placed, remaining)
      invariant Tracked(labs, used0, year, cluster, bucket[..i], recs, used, placed, remaining)
    {
      var g := bucket[i];
      if recs == [] || remaining < g.count {
        FirstFitUnused(labs, used0, used, g.count);
        var fit := FirstFit(available, used, g.count);
        if fit.Some? {
          var r := Record(fit.value, year, cluster, [g]);
          StepOpen(labs, used0, year, cluster, bucket, i, recs, used, placed, remaining, r);
          TrackOpen(labs, used0, year, cluster, bucket, i, recs, used, placed, remaining, r);
          recs := recs + [r];
          used := used + {fit.value.id};
          remaining := fit.value.capacity - g.count;
          placed := placed + {g.id};
        } else {
          StepSkip(labs, used0, year, cluster, bucket, i, recs, used, placed, remaining);
          TrackSkip(labs, used0, year, cluster, bucket, i, recs, used, placed, remaining);
        }
      } else {
        StepGrow(labs, used0, year, cluster, bucket, i, recs, used, placed, remaining);
        assert |recs[|recs| - 1].groups| > 0 by { SplitLast(recs); }
        TrackGrow(labs, used0, year, cluster, bucket, i, recs, used, placed, remaining);
        recs := recs[..|recs| - 1] + [Grown(recs[|recs| - 1], g)];
        remaining := remaining - g.count;
        placed := placed + {g.id};
      }
    }
    assert bucket[..|bucket|] == bucket;
  }

  /** The loop's variables are the reference packer's after the groups
      `done`, and the records opened so far are tight. */
  ghost predicate Tracked(labs: seq<Lab>, used0: set<string>, year: string, cluster: string, done: seq<Group>,
                          recs: seq<Record>, used: set<string>, placed: set<string>, remaining: int)
  {
    PackSpec(labs, used0, year, cluster, done) == Packer(recs, used, placed, remaining) && Tight(recs)
  }

  /** Opening a record for `bucket[i]` is the reference packer's step. */
  lemma TrackOpen(labs: seq<Lab>, used0: set<string>, year: string, cluster: string, bucket: seq<Group>, i: nat,
                  recs: seq<Record>, used: set<string>, placed: set<string>, remaining: int, r: Record)
    requires i < |bucket| && Tracked(labs, used0, year, cluster, bucket[..i], recs, used, placed, remaining)
    requires recs == [] || remaining < bucket[i].count
    requires recs != [] ==> remaining == Room(recs[|recs| - 1])
    requires FirstFit(labs, used, bucket[i].count) == Some(r.lab) && r == Record(r.lab, year, cluster, [bucket[i]])
    ensures Tracked(labs, used0, year, cluster, bucket[..i + 1], recs + [r], used + {r.lab.id},
                    placed + {bucket[i].id}, r.lab.capacity - bucket[i].count)
  {
    SpecStep(labs, used0, year, cluster, bucket, i);
    TightOpen(recs, r, remaining);
  }

  /** Skipping `bucket[i]` when no lab fits it is the reference packer's step. */
  lemma TrackSkip(labs: seq<Lab>, used0: set<string>, year: string, cluster: string, bucket: seq<Group>, i: nat,
                  recs: seq<Record>, used: set<string>, placed: set<string>, remaining: int)
    requires i < |bucket| && Tracked(labs, used0, year, cluster, bucket[..i], recs, used, placed, remaining)
    requires recs == [] || remaining < bucket[i].count
    requires FirstFit(labs, used, bucket[i].count).None?
    ensures Tracked(labs, used0, year, cluster, bucket[..i + 1], recs, used, placed, remaining)
  {
    SpecStep(labs, used0, year, cluster, bucket, i);
  }

  /** Adding `bucket[i]` to the current record is the reference packer's step. */
  lemma TrackGrow(labs: seq<Lab>, used0: set<string>, year: string, cluster: string, bucket: seq<Group>, i: nat,
                  recs: seq<Record>, used: set<string>, placed: set<string>, remaining: int)
    requires i < |bucket| && Tracked(labs, used0, year, cluster, bucket[..i], recs, used, placed, remaining)
    requires recs != [] && bucket[i].count <= remaining && |recs[|recs| - 1].groups| > 0
    ensures Tracked(labs, used0, year, cluster, bucket[..i + 1],
                    recs[..|recs| - 1] + [Grown(recs[|recs| - 1], bucket[i])], used,
                    placed + {bucket[i].id}, remaining - bucket[i].count)
  {
    SpecStep(labs, used0, year, cluster, bucket, i);
    TightGrow(recs, bucket[i]);
  }

  /** The packer's state after one more group is one step from the state before it. */
  lemma SpecStep(labs: seq<Lab>, used0: set<string>, year: string, cluster: string, bucket: seq<Group>, i: nat)
    requires i < |bucket|
    ensures PackSpec(labs, used0, year, cluster, bucket[..i + 1])
         == PackNext(labs, year, cluster, PackSpec(labs, used0, year, cluster, bucket[..i]), bucket[i])
  {
    assert bucket[..i + 1][..i] == bucket[..i];
  }

  /** With no lab free for any group, the packer opens nothing and places nothing. */
  lemma {:induction false} SpecNoLab(labs: seq<Lab>, used0: set<string>, year: string, cluster: string, done: seq<Group>)
    requires forall g | g in done :: FirstFit(labs, used0, g.count).None?
    ensures PackSpec(labs, used0, year, cluster, done) == Packer([], used0, {}, 0)
    decreases |done|
  {
    if done != [] {
      assert done[|done| - 1] in done;
      SpecNoLab(labs, used0, year, cluster, done[..|done| - 1]);
    }
  }

  /** Opening a record for a group that does not fit the current record keeps the records tight. */
  lemma TightOpen(recs: seq<Record>, r: Record, remaining: int)
    requires Tight(recs) && |r.groups| > 0
    requires recs != [] ==> remaining == Room(recs[|recs| - 1]) && remaining < r.groups[0].count
    ensures Tight(recs + [r])
  {
    var rs := recs + [r];
    forall j | 0 < j < |rs| ensures Follows(rs[j - 1], rs[j]) {
      if j < |recs| {
        assert Follows(recs[j - 1], recs[j]);
      }
    }
  }

  /** Adding a group to the current record keeps the records tight. */
  lemma TightGrow(recs: seq<Record>, g: Group)
    requires Tight(recs) && recs != [] && |recs[|recs| - 1].groups| > 0
    ensures Tight(recs[..|recs| - 1] + [Grown(recs[|recs| - 1], g)])
  {
    var last := recs[|recs| - 1];
    var rs := recs[..|recs| - 1] + [Grown(last, g)];
    forall j | 0 < j < |rs| ensures Follows(rs[j - 1], rs[j]) {
      assert Follows(recs[j - 1], recs[j]);
      if j == |rs| - 1 {
        assert rs[j].groups[0] == last.groups[0];
      }
    }
  }

  /** The placement rule: group `bucket[i]` is placed exactly when, on its
      turn, the current record has room for it, or a lab not yet in use has
      room for it. */
  lemma PackRule(labs: seq<Lab>, used0: set<string>, year: string, cluster: string, bucket: seq<Group>, i: nat)
    requires UniqueIds(bucket) && i < |bucket|
    ensures var st := PackSpec(labs, used0, year, cluster, bucket[..i]);
      var g := bucket[i];
      (g.id in PackSpec(labs, used0, year, cluster, bucket).placed
       <==> (st.recs != [] && g.count <= st.room) || FirstFit(labs, st.used, g.count).Some?)
  {
    var g := bucket[i];
    SpecPlacedIds(labs, used0, year, cluster, bucket[..i]);
    UniqueIdsFresh(bucket, i);
    SpecStep(labs, used0, year, cluster, bucket, i);
    SpecPlacedLater(labs, used0, year, cluster, bucket, i, |bucket|);
    assert bucket[..|bucket|] == bucket;
  }

  /** The packer places only ids of the groups it has seen. */
  lemma {:induction false} SpecPlacedIds(labs: seq<Lab>, used0: set<string>, year: string, cluster: string, done: seq<Group>)
    ensures PackSpec(labs, used0, year, cluster, done).placed <= Ids(done)
    decreases |done|
  {
    if done != [] {
      var init := done[..|done| - 1];
      SpecPlacedIds(labs, used0, year, cluster, init);
      assert forall g | g in init :: g in done;
    }
  }

  /** Later groups neither place nor unplace group `bucket[i]`. */
  lemma {:induction false} SpecPlacedLater(labs: seq<Lab>, used0: set<string>, year: string, cluster: string,
                                           bucket: seq<Group>, i: nat, m: nat)
    requires UniqueIds(bucket) && i < m <= |bucket|
    ensures bucket[i].id in PackSpec(labs, used0, year, cluster, bucket[..m]).placed
        <==> bucket[i].id in PackSpec(labs, used0, year, cluster, bucket[..i + 1]).placed
    decreases m
  {
    if m > i + 1 {
      SpecPlacedLater(labs, used0, year, cluster, bucket, i, m - 1);
      SpecStep(labs, used0, year, cluster, bucket, m - 1);
      UniqueIdsFresh(bucket, m - 1);
      assert bucket[i] in bucket[..m - 1];
    }
  }

  /** Taking more labs, or placing more groups, keeps the unplaced groups
      without a lab; the next group stays out only when no lab fits it. */
  lemma UnplacedStep(labs: seq<Lab>, used: set<string>, more: set<string>, done: seq<Group>, g: Group,
                     placed: set<string>, placed': set<string>)
    requires used <= more && placed <= placed' && Unplaced(labs, used, done, placed)
    requires g.id in placed' || FirstFit(labs, more, g.count).None?
    ensures Unplaced(labs, more, done + [g], placed')
  {
    forall h | h in done + [g] && h.id !in placed' ensures FirstFit(labs, more, h.count).None? {
      if h != g {
        FirstFitStaysNone(labs, used, more, h.count);
      }
    }
  }

  /** The group `bucket[i]` opens a record in the first lab that fits it. */
  lemma StepOpen(labs: seq<Lab>, used0: set<string>, year: string, cluster: string, bucket: seq<Group>, i: nat,
                 recs: seq<Record>, used: set<string>, placed: set<string>, remaining: int, r: Record)
    requires Headcounts(bucket) && UniqueIds(bucket) && i < |bucket|
    requires Packed(labs, used0, year, cluster, bucket[..i], recs, used, placed, remaining)
    requires FirstFit(labs, used, bucket[i].count) == Some(r.lab)
    requires r == Record(r.lab, year, cluster, [bucket[i]])
    ensures Packed(labs, used0, year, cluster, bucket[..i + 1], recs + [r], used + {r.lab.id},
                   placed + {bucket[i].id}, r.lab.capacity - bucket[i].count)
  {
    var g, rs := bucket[i], recs + [r];
    assert g.count >= 0 by { assert g in bucket; }
    assert Flatten(rs) == Flatten(recs) + [g] by {
      OpenRecord(labs, used0, year, cluster, recs, used, g, r);
    }
    assert Flatten(rs) == Keep(bucket[..i + 1], placed + {g.id}) && placed + {g.id} <= Ids(bucket[..i + 1]) by {
      KeepStep(bucket, i, placed);
    }
    assert Unplaced(labs, used + {r.lab.id}, bucket[..i + 1], placed + {g.id}) by {
      KeepStep(bucket, i, placed);
      UnplacedStep(labs, used, used + {r.lab.id}, bucket[..i], g, placed, placed + {g.id});
    }
    assert rs[|rs| - 1] == r && Load(r.groups) == g.count by { assert r.groups == [g]; }
    OpenRecord(labs, used0, year, cluster, recs, used, g, r);
  }

  /** The group `bucket[i]` needs a new lab and none fits it: it is skipped. */
  lemma StepSkip(labs: seq<Lab>, used0: set<string>, year: string, cluster: string, bucket: seq<Group>, i: nat,
                 recs: seq<Record>, used: set<string>, placed: set<string>, remaining: int)
    requires UniqueIds(bucket) && i < |bucket|
    requires Packed(labs, used0, year, cluster, bucket[..i], recs, used, placed, remaining)
    requires FirstFit(labs, used, bucket[i].count).None?
    ensures Packed(labs, used0, year, cluster, bucket[..i + 1], recs, used, placed, remaining)
  {
    var g := bucket[i];
    assert Unplaced(labs, used, bucket[..i + 1], placed) by {
      KeepStep(bucket, i, placed);
      UnplacedStep(labs, used, used, bucket[..i], g, placed, placed);
    }
    KeepStep(bucket, i, placed);
  }

  /** The group `bucket[i]` fits in what is left of the current record and joins it. */
  lemma StepGrow(labs: seq<Lab>, used0: set<string>, year: string, cluster: string, bucket: seq<Group>, i: nat,
                 recs: seq<Record>, used: set<string>, placed: set<string>, remaining: int)
    requires Headcounts(bucket) && UniqueIds(bucket) && i < |bucket|
    requires Packed(labs, used0, year, cluster, bucket[..i], recs, used, placed, remaining)
    requires recs != [] && bucket[i].count <= remaining
    ensures Packed(labs, used0, year, cluster, bucket[..i + 1], recs[..|recs| - 1] + [Grown(recs[|recs| - 1], bucket[i])],
                   used, placed + {bucket[i].id}, remaining - bucket[i].count)
  {
    var g := bucket[i];
    var init, last := recs[..|recs| - 1], recs[|recs| - 1];
    var rs := init + [Grown(last, g)];
    assert g.count >= 0 by { assert g in bucket; }
    SplitLast(recs);
    assert Flatten(rs) == Flatten(recs) + [g] by {
      GrowRecord(labs, used0, year, cluster, init, last, remaining, g);
    }
    assert Flatten(rs) == Keep(bucket[..i + 1], placed + {g.id}) && placed + {g.id} <= Ids(bucket[..i + 1]) by {
      KeepStep(bucket, i, placed);
    }
    assert Unplaced(labs, used, bucket[..i + 1], placed + {g.id}) by {
      KeepStep(bucket, i, placed);
      UnplacedStep(labs, used, used, bucket[..i], g, placed, placed + {g.id});
    }
    assert rs[|rs| - 1] == Grown(last, g);
    GrowRecord(labs, used0, year, cluster, init, last, remaining, g);
  }

  /** Opening a record for `g` in the first lab that fits keeps the packing invariants. */
  lemma OpenRecord(labs: seq<Lab>, used0: set<string>, year: string, cluster: string,
                   recs: seq<Record>, used: set<string>, g: Group, r: Record)
    requires used == used0 + LabIds(recs)
    requires forall x | x in recs :: RecordOf(labs, used0, year, cluster, x)
    requires LabsDistinct(recs) && OpenedFirstFit(labs, used0, recs)
    requires g.count >= 0 && FirstFit(labs, used, g.count) == Some(r.lab)
    requires r == Record(r.lab, year, cluster, [g])
    ensures used + {r.lab.id} == used0 + LabIds(recs + [r])
    ensures forall x | x in recs + [r] :: RecordOf(labs, used0, year, cluster, x)
    ensures LabsDistinct(recs + [r]) && OpenedFirstFit(labs, used0, recs + [r])
    ensures Flatten(recs + [r]) == Flatten(recs) + [g]
  {
    FirstFitFirst(labs, used, g.count);
    LabIdsAppend(recs, r);
    OpenRecordOf(labs, used0, year, cluster, r, g);
    OpenDistinct(recs, r);
    OpenFirstFit(labs, used0, recs, r);
    FlattenSnoc(recs, r);
  }

  /** A record opened in an unused lab with room for its one group is a record of the bucket. */
  lemma OpenRecordOf(labs: seq<Lab>, used0: set<string>, year: string, cluster: string, r: Record, g: Group)
    requires r.lab in labs && r.lab.id !in used0 && 0 <= g.count <= r.lab.capacity
    requires r == Record(r.lab, year, cluster, [g])
    ensures RecordOf(labs, used0, year, cluster, r)
  {
    assert Load([g]) == g.count;
  }

  /** A record opened in a lab not in use keeps the labs distinct. */
  lemma OpenDistinct(recs: seq<Record>, r: Record)
    requires LabsDistinct(recs) && r.lab.id !in LabIds(recs)
    ensures LabsDistinct(recs + [r])
  {
    var rs := recs + [r];
    forall j | 0 <= j < |recs| ensures rs[j].lab.id != r.lab.id {
      LabIdsMember(recs, recs[j].lab.id);
    }
  }

  /** A record opened in the first lab that fits keeps every record first-fit. */
  lemma OpenFirstFit(labs: seq<Lab>, used0: set<string>, recs: seq<Record>, r: Record)
    requires OpenedFirstFit(labs, used0, recs)
    requires |r.groups| > 0 && FirstFit(labs, used0 + LabIds(recs), r.groups[0].count) == Some(r.lab)
    ensures OpenedFirstFit(labs, used0, recs + [r])
  {
    var rs := recs + [r];
    assert rs[..|recs|] == recs;
    forall j | 0 <= j < |rs| ensures OpenedAt(labs, used0, rs, j) {
      if j < |recs| {
        assert OpenedAt(labs, used0, recs, j);
        assert rs[..j] == recs[..j] && rs[j] == recs[j];
      }
    }
  }

  /** A nonempty list of records is its records but the last, then the last. */
  lemma SplitLast(recs: seq<Record>)
    requires recs != []
    ensures recs == recs[..|recs| - 1] + [recs[|recs| - 1]]
    ensures recs[|recs| - 1] in recs
  {
  }

  /** Adding `g` to the current record `last` keeps the record invariants of the bucket. */
  lemma GrowRecord(labs: seq<Lab>, used0: set<string>, year: string, cluster: string,
                   init: seq<Record>, last: Record, remaining: int, g: Group)
    requires forall r | r in init + [last] :: RecordOf(labs, used0, year, cluster, r)
    requires LabsDistinct(init + [last]) && OpenedFirstFit(labs, used0, init + [last])
    requires remaining == last.lab.capacity - Load(last.groups)
    requires 0 <= g.count <= remaining
    ensures forall r | r in init + [Grown(last, g)] :: RecordOf(labs, used0, year, cluster, r)
    ensures LabsDistinct(init + [Grown(last, g)]) && OpenedFirstFit(labs, used0, init + [Grown(last, g)])
    ensures remaining - g.count == last.lab.capacity - Load(Grown(last, g).groups)
    ensures LabIds(init + [Grown(last, g)]) == LabIds(init + [last])
    ensures Flatten(init + [Grown(last, g)]) == Flatten(init + [last]) + [g]
  {
    assert last in init + [last];
    GrowFilled(labs, used0, year, cluster, last, remaining, g);
    GrowLabIds(init, last, g);
    GrowDistinct(init, last, g);
    GrowFirstFit(labs, used0, init, last, g);
    GrowFlatten(init, last, g);
    GrowRecords(labs, used0, year, cluster, init, last, g);
  }

  /** The current record with `g` added. */
  function Grown(last: Record, g: Group): Record
  {
    Record(last.lab, last.year, last.cluster, last.groups + [g])
  }

  /** Adding `g` to the current record when it fits keeps it filled within
      capacity and keeps `remaining` the room left in it. */
  lemma GrowFilled(labs: seq<Lab>, used0: set<string>, year: string, cluster: string,
                   last: Record, remaining: int, g: Group)
    requires RecordOf(labs, used0, year, cluster, last)
    requires remaining == last.lab.capacity - Load(last.groups)
    requires 0 <= g.count <= remaining
    ensures RecordOf(labs, used0, year, cluster, Grown(last, g))
    ensures remaining - g.count == last.lab.capacity - Load(Grown(last, g).groups)
  {
    var r := Grown(last, g);
    assert Load(r.groups) == Load(last.groups) + g.count;
    assert forall x | x in r.groups :: x in last.groups || x == g;
  }

  /** Adding `g` to the current record keeps the lab ids in use. */
  lemma GrowLabIds(init: seq<Record>, last: Record, g: Group)
    ensures LabIds(init + [Grown(last, g)]) == LabIds(init + [last])
  {
    LabIdsAppend(init, Grown(last, g));
    LabIdsAppend(init, last);
  }

  /** Adding `g` to the current record keeps the labs distinct. */
  lemma GrowDistinct(init: seq<Record>, last: Record, g: Group)
    requires LabsDistinct(init + [last])
    ensures LabsDistinct(init + [Grown(last, g)])
  {
    var before, after := init + [last], init + [Grown(last, g)];
    forall j | 0 <= j < |after| ensures after[j].lab == before[j].lab { }
  }

  /** Adding `g` to the current record keeps every lab the first fit it was. */
  lemma GrowFirstFit(labs: seq<Lab>, used0: set<string>, init: seq<Record>, last: Record, g: Group)
    requires OpenedFirstFit(labs, used0, init + [last])
    ensures OpenedFirstFit(labs, used0, init + [Grown(last, g)])
  {
    var r := Grown(last, g);
    var before, after := init + [last], init + [r];
    assert after[..|init|] == init && before[..|init|] == init;
    forall j | 0 <= j < |after| ensures OpenedAt(labs, used0, after, j) {
      assert OpenedAt(labs, used0, before, j);
      if j < |init| {
        assert after[..j] == before[..j] && after[j] == before[j];
      } else {
        assert r.groups[0] == last.groups[0];
      }
    }
  }

  /** Adding `g` to the current record appends `g` to the placed groups. */
  lemma GrowFlatten(init: seq<Record>, last: Record, g: Group)
    ensures Flatten(init + [Grown(last, g)]) == Flatten(init + [last]) + [g]
  {
    FlattenSnoc(init, Grown(last, g));
    FlattenSnoc(init, last);
    AppendAssoc(Flatten(init), last.groups, [g]);
  }

  /** Adding `g` to the current record keeps every record a record of the bucket. */
  lemma GrowRecords(labs: seq<Lab>, used0: set<string>, year: string, cluster: string,
                    init: seq<Record>, last: Record, g: Group)
    requires forall x | x in init :: RecordOf(labs, used0, year, cluster, x)
    requires RecordOf(labs, used0, year, cluster, Grown(last, g))
    ensures forall x | x in init + [Grown(last, g)] :: RecordOf(labs, used0, year, cluster, x)
  {
  }
}
