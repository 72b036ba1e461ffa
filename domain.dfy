/** The values the lab-allocation engine works on: labs, student groups,
    department clusters and allocation records, with the sequence helpers
    (selection by id, headcount totals) that the other modules share. */
module Domain {

  datatype Option<T> = None | Some(value: T)

  /** A lab (room) with its total number of seats. */
  datatype Lab = Lab(id: string, name: string, capacity: int)

  /** A student group. `year` is the form's key ("1", "2" or "3"),
      `departments` the free department text, `count` the headcount. */
  datatype Group = Group(id: string, year: string, departments: string, section: string, count: int)

  /** A department cluster: a name and the department tokens it stands for. */
  datatype Cluster = Cluster(name: string, departments: seq<string>)

  /** One lab opened for one (year, cluster) bucket in one session, holding
      the groups placed in it in the order they were placed. */
  datatype Record = Record(lab: Lab, year: string, cluster: string, groups: seq<Group>)

  /** Sort keys: a lab's capacity and a group's headcount. */
  function Capacity(l: Lab): int { l.capacity }
  function Headcount(g: Group): int { g.count }

  function Ids(s: seq<Group>): set<string>
  {
    set g | g in s :: g.id
  }

  /** Every group has a non-negative headcount (the add-group form refuses
      counts <= 0 before `parseInt`, which can still round a fraction down to 0). */
  predicate Headcounts(s: seq<Group>)
  {
    forall g | g in s :: g.count >= 0
  }

  /** No two groups of `s` share an id, and no group occurs twice. */
  ghost predicate UniqueIds(s: seq<Group>)
  {
    && (forall g, h | g in s && h in s && g.id == h.id :: g == h)
    && (forall g | g in s :: multiset(s)[g] == 1)
  }

  /** The groups of `s` whose id is in `ids`, in their order in `s`. */
  function Keep(s: seq<Group>, ids: set<string>): seq<Group>
  {
    if s == [] then []
    else Keep(s[..|s| - 1], ids) + (if s[|s| - 1].id in ids then [s[|s| - 1]] else [])
  }

  /** The groups of `s` whose id is not in `ids`, in their order in `s`
      (the driver's `filter` on the ids allocated in a session). */
  function Drop(s: seq<Group>, ids: set<string>): seq<Group>
  {
    if s == [] then []
    else Drop(s[..|s| - 1], ids) + (if s[|s| - 1].id in ids then [] else [s[|s| - 1]])
  }

  /** Total headcount of a sequence of groups. */
  function Load(s: seq<Group>): (r: int)
    ensures Headcounts(s) ==> r >= 0
  {
    if s == [] then 0 else Load(s[..|s| - 1]) + s[|s| - 1].count
  }

  /** All groups placed in a list of records, record after record. */
  function Flatten(rs: seq<Record>): seq<Group>
  {
    if rs == [] then [] else Flatten(rs[..|rs| - 1]) + rs[|rs| - 1].groups
  }

  /** All groups placed in a list of sessions, session after session. */
  function AllGroups(sessions: seq<seq<Record>>): seq<Group>
  {
    if sessions == [] then [] else AllGroups(sessions[..|sessions| - 1]) + Flatten(sessions[|sessions| - 1])
  }

  /** The ids of the labs opened by `rs`. */
  function LabIds(rs: seq<Record>): set<string>
  {
    if rs == [] then {} else LabIds(rs[..|rs| - 1]) + {rs[|rs| - 1].lab.id}
  }

  /** Every record's lab id is among the lab ids, and only those are. */
  lemma {:induction false} LabIdsMember(rs: seq<Record>, id: string)
    ensures id in LabIds(rs) <==> exists j | 0 <= j < |rs| :: rs[j].lab.id == id
    decreases |rs|
  {
    if rs != [] {
      var init := rs[..|rs| - 1];
      LabIdsMember(init, id);
      if exists j | 0 <= j < |init| :: init[j].lab.id == id {
        var j :| 0 <= j < |init| && init[j].lab.id == id;
        assert rs[j] == init[j];
      }
    }
  }

  /** No lab id is used by two records. */
  predicate LabsDistinct(rs: seq<Record>)
  {
    forall i, j | 0 <= i < j < |rs| :: rs[i].lab.id != rs[j].lab.id
  }

  /** A record is filled within capacity: it holds at least one group, every
      one of them fits the lab, and their total headcount fits the lab. */
  predicate Filled(r: Record)
  {
    && |r.groups| > 0
    && Load(r.groups) <= r.lab.capacity
    && forall g | g in r.groups :: 0 <= g.count <= r.lab.capacity
  }

  /** `Keep` selects exactly the groups whose id is in `ids`, and `Drop` the others. */
  lemma {:induction false} KeepDropMembers(s: seq<Group>, ids: set<string>, g: Group)
    ensures g in Keep(s, ids) <==> g in s && g.id in ids
    ensures g in Drop(s, ids) <==> g in s && g.id !in ids
    decreases |s|
  {
    if s != [] {
      KeepDropMembers(s[..|s| - 1], ids, g);
      assert s == s[..|s| - 1] + [s[|s| - 1]];
    }
  }

  /** Selections are no longer than what they select from. */
  lemma {:induction false} KeepDropLength(s: seq<Group>, ids: set<string>)
    ensures |Keep(s, ids)| <= |s| && |Drop(s, ids)| <= |s|
    decreases |s|
  {
    if s != [] {
      KeepDropLength(s[..|s| - 1], ids);
    }
  }

  lemma {:induction false} KeepAppend(a: seq<Group>, b: seq<Group>, ids: set<string>)
    ensures Keep(a + b, ids) == Keep(a, ids) + Keep(b, ids)
    decreases |b|
  {
    if b == [] {
      assert a + b == a;
    } else {
      var b' := b[..|b| - 1];
      assert (a + b)[..|a + b| - 1] == a + b';
      KeepAppend(a, b', ids);
    }
  }

  lemma {:induction false} KeepDropSplit(s: seq<Group>, ids: set<string>)
    ensures multiset(Keep(s, ids)) + multiset(Drop(s, ids)) == multiset(s)
    decreases |s|
  {
    if s != [] {
      KeepDropSplit(s[..|s| - 1], ids);
      assert s == s[..|s| - 1] + [s[|s| - 1]];
    }
  }

  /** `Keep` only looks at the ids that occur in `s`. */
  lemma {:induction false} KeepCongruent(s: seq<Group>, p: set<string>, q: set<string>)
    requires forall g | g in s :: g.id in p <==> g.id in q
    ensures Keep(s, p) == Keep(s, q)
    decreases |s|
  {
    if s != [] {
      KeepCongruent(s[..|s| - 1], p, q);
    }
  }

  /** Selecting no ids selects nothing. */
  lemma {:induction false} KeepNothing(s: seq<Group>)
    ensures Keep(s, {}) == []
    decreases |s|
  {
    if s != [] {
      KeepNothing(s[..|s| - 1]);
    }
  }

  /** Removing the element at `j` removes it from the selection, if it was selected. */
  lemma KeepRemove(b: seq<Group>, j: nat, ids: set<string>)
    requires j < |b|
    ensures multiset(Keep(b, ids))
         == multiset(Keep(b[..j] + b[j + 1..], ids)) + (if b[j].id in ids then multiset{b[j]} else multiset{})
  {
    var x := b[j];
    assert b == b[..j] + [x] + b[j + 1..];
    KeepAppend(b[..j] + [x], b[j + 1..], ids);
    KeepAppend(b[..j], [x], ids);
    KeepAppend(b[..j], b[j + 1..], ids);
    assert [x][..0] == [];
  }

  /** Selecting by id commutes with reordering. */
  lemma {:induction false} KeepPermutation(a: seq<Group>, b: seq<Group>, ids: set<string>)
    requires multiset(a) == multiset(b)
    ensures multiset(Keep(a, ids)) == multiset(Keep(b, ids))
    decreases |a|
  {
    if a == [] {
      assert |b| == |multiset(b)| == 0;
    } else {
      var x := a[|a| - 1];
      var a' := a[..|a| - 1];
      assert x in multiset(b) by {
        assert x in a;
      }
      var j :| 0 <= j < |b| && b[j] == x;
      var b' := b[..j] + b[j + 1..];
      assert multiset(a') == multiset(b') by {
        assert a == a' + [x];
        RemoveAt(b, j);
      }
      KeepPermutation(a', b', ids);
      KeepRemove(b, j, ids);
      assert a[..|a| - 1] + a[|a|..] == a';
      KeepRemove(a, |a| - 1, ids);
    }
  }

  /** Removing the element at `j` removes one copy of it from the multiset. */
  lemma RemoveAt<T>(b: seq<T>, j: nat)
    requires j < |b|
    ensures multiset(b[..j] + b[j + 1..]) == multiset(b) - multiset{b[j]}
  {
    assert b == b[..j] + [b[j]] + b[j + 1..];
  }

  /** A sub-multiset of a sequence with unique ids has unique ids. */
  lemma UniqueIdsSub(a: seq<Group>, b: seq<Group>)
    requires UniqueIds(b) && multiset(a) <= multiset(b)
    ensures UniqueIds(a)
  {
    forall g | g in a ensures multiset(a)[g] == 1 {
      assert g in multiset(b);
    }
  }

  /** The two halves of a sequence with unique ids share no id. */
  lemma UniqueIdsSplit(a: seq<Group>, b: seq<Group>)
    requires UniqueIds(a + b)
    ensures UniqueIds(a) && UniqueIds(b) && Ids(a) !! Ids(b)
  {
    UniqueIdsSub(a, a + b);
    UniqueIdsSub(b, a + b);
    forall g, h | g in a && h in b
      ensures g.id != h.id
    {
      assert multiset(a + b)[g] == multiset(a)[g] + multiset(b)[g];
      assert g in multiset(a) && h in multiset(b);
    }
  }

  /** In a sequence with unique ids, no group before position `i` has the id of `s[i]`. */
  lemma UniqueIdsFresh(s: seq<Group>, i: nat)
    requires UniqueIds(s) && i < |s|
    ensures s[i].id !in Ids(s[..i])
  {
    assert s == s[..i] + s[i..];
    UniqueIdsSplit(s[..i], s[i..]);
    assert s[i] in s[i..];
  }

  lemma {:induction false} FlattenAppend(a: seq<Record>, b: seq<Record>)
    ensures Flatten(a + b) == Flatten(a) + Flatten(b)
    decreases |b|
  {
    if b == [] {
      assert a + b == a;
    } else {
      var b' := b[..|b| - 1];
      assert (a + b)[..|a + b| - 1] == a + b';
      FlattenAppend(a, b');
    }
  }

  /** Opening one more record appends its groups. */
  lemma FlattenSnoc(rs: seq<Record>, r: Record)
    ensures Flatten(rs + [r]) == Flatten(rs) + r.groups
  {
    assert (rs + [r])[..|rs|] == rs;
  }

  lemma AppendAssoc<T>(a: seq<T>, b: seq<T>, c: seq<T>)
    ensures a + (b + c) == (a + b) + c
  {
  }

  /** A group placed in some record of `rs` appears in `Flatten(rs)`, and conversely. */
  lemma {:induction false} FlattenMember(rs: seq<Record>, g: Group)
    ensures g in Flatten(rs) <==> exists r | r in rs :: g in r.groups
    decreases |rs|
  {
    if rs != [] {
      FlattenMember(rs[..|rs| - 1], g);
      assert rs == rs[..|rs| - 1] + [rs[|rs| - 1]];
    }
  }

  /** Records that each hold a group hold at least as many groups as there are records. */
  lemma {:induction false} FlattenLength(rs: seq<Record>)
    requires forall r | r in rs :: |r.groups| > 0
    ensures |Flatten(rs)| >= |rs|
    decreases |rs|
  {
    if rs != [] {
      FlattenLength(rs[..|rs| - 1]);
    }
  }

  lemma {:induction false} AllGroupsMember(sessions: seq<seq<Record>>, g: Group)
    ensures g in AllGroups(sessions) <==> exists s | s in sessions :: g in Flatten(s)
    decreases |sessions|
  {
    if sessions != [] {
      var init, last := sessions[..|sessions| - 1], sessions[|sessions| - 1];
      AllGroupsMember(init, g);
      assert sessions == init + [last];
      if g in Flatten(last) {
        assert last in sessions;
      }
      if exists s | s in sessions :: g in Flatten(s) {
        var s :| s in sessions && g in Flatten(s);
        assert s == last || s in init;
      }
    }
  }
}
