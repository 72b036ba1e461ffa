# Lab allocation engine

This project models the allocation engine of the lab-allocation page: the
`allocateStudents` handler, which assigns student groups to computer labs over
as many sessions as it needs. It also models the cluster resolver that handler
relies on, and the comma-separated department tokens of the cluster form.

One run works like this:

- A run with no lab or no group is refused.
- Labs are sorted by descending capacity and groups by descending headcount.
  Both sorts are stable.
- Each session then proceeds in four steps:
  - the groups still waiting are bucketed by year;
  - each year's groups are bucketed by department cluster, which is the first
    configured cluster with a token that occurs in the group's department text,
    or else the text itself;
  - each bucket is packed first-fit into labs not yet used in that session: a
    group is added to the current lab while it fits, and otherwise a new lab is
    opened for it;
  - a group that needs a new lab and finds none is skipped.
- The groups placed in a session carry its number (index + 1) and leave the
  pool.
- The run stops when the pool is empty. It also stops when a session places
  nothing; the groups still waiting are then unallocated.

Buckets are plain JavaScript objects walked with `Object.keys`. The model
follows that order: array-index keys (such as the year keys "1", "2" and "3")
come first in ascending numeric order, then the other keys in the order they
were first set.

Modules:

- `Domain` holds the values (`Lab`, `Group`, `Cluster`, `Record`) and the
  selection helpers `Keep` and `Drop`.
- `Resolver` holds the cluster lookup, plus the split-and-trim of the cluster
  form.
- `Sorting` holds the stable descending sort.
- `Grouping` holds the object-keyed bucketing.
- `Packing` holds first-fit and the per-bucket packing loop.
- `Session` holds one session, both as the loops of the source and as the
  reference function `SessionSpec`.
- `Allocation` holds the driver over sessions.
- `Scenarios` holds worked sessions on small inputs.

The packing loop, the session loops and the driver loop are methods with loop
invariants. The packing loop is proved equal to the reference packer
`PackSpec`, which takes one step per group, as the source does (open the
first lab that fits, skip, or join the current lab). The session loops are
proved equal to `SessionSpec`, which runs `PackSpec` bucket after bucket in
`Object.keys` order. The driver is proved to produce, for each session, exactly
what `SessionSpec` gives on the groups still waiting when it starts. It stops
only when no group is waiting or when that function would place nothing.
Capacity, one use of each lab per session, the partition of the groups, and
"unallocated exactly when larger than every lab" are proved about the same
loops.

## Model

| member | source | states |
|---|---|---|
| Allocation.Allocate | src/app/allocate/page.js:113-256 | A run is rejected exactly when there is no lab or no group. Otherwise every group is either in exactly one session or in the unallocated list (multiset partition). Leftovers are the unstamped groups, in headcount order. The stamps are exactly the allocated ids, and each carries its session's index + 1. There are at most as many sessions as groups. Every session is non-empty and uses each lab id at most once. Every record is within capacity and holds one year and one cluster. Labs open first-fit over the capacity-sorted labs, and a bucket opens a new lab only for a group that does not fit the seats left in its previous one. Session k is exactly `SessionSpec` on the sorted groups not placed by sessions 1..k-1. The run ends with no group waiting, or with a pool on which `SessionSpec` opens nothing. A group is unallocated exactly when it is larger than every lab. |
| Allocation.Finish | src/app/allocate/page.js:247-256 | When the loop ends with the pool empty or with only groups larger than every lab, the driver state gives the whole promise of `Allocate`. |
| Allocation.Stamp | src/app/allocate/page.js:233-235 | After a session numbered n, the stamped ids are the earlier ones plus the placed ones. Placed ids carry n, and the other ids keep their number. |
| Allocation.SessionNonEmpty | src/app/allocate/page.js:242-252 | A session opens a record exactly when it places a group, so the check "records were pushed" and the check "something was allocated" agree. |
| Allocation.StallTooLarge | src/app/allocate/page.js:250-252 | A session that places nothing leaves only groups larger than every lab. |
| Allocation.SessionStep | src/app/allocate/page.js:242-249 | Appending a session, stamping its groups and filtering them out of the pool keeps the driver invariant. |
| Allocation.StepReplays | src/app/allocate/page.js:144-249 | A new session that is `SessionSpec` on the groups still waiting keeps every session equal to `SessionSpec` on the groups waiting when it started. |
| Allocation.StepGroups | src/app/allocate/page.js:243-249 | The placed groups move from the pool to the allocated groups. The new pool is the sorted groups minus all stamped ids. Sessions plus pool never outnumber the groups. |
| Allocation.StepPool | src/app/allocate/page.js:243-249 | The placed groups leave the pool and join the new session, the groups still add up to the sorted groups, and the pool strictly shrinks. |
| Allocation.StepKeys | src/app/allocate/page.js:233-249 | After a session the pool is the sorted groups without every stamped id, and the stamped ids are the ids of all allocated groups. |
| Allocation.StepSessions | src/app/allocate/page.js:233-245 | Earlier sessions keep their stamps, and the new session is stamped with its own number. |
| Allocation.FreshIds | src/app/allocate/page.js:233-235 | A session only places ids that were not stamped before. |
| Allocation.DropDrop | src/app/allocate/page.js:247-249 | Filtering out one set of ids and then another is the same as filtering out their union. |
| Allocation.DropShrinks | src/app/allocate/page.js:247-252 | Filtering out a non-empty set of pool ids shortens the pool, so the loop ends within as many passes as there are groups. |
| Allocation.Unallocated | src/app/allocate/page.js:194-256 | A group is left over exactly when no lab has room for it. |
| Allocation.Sorted | src/app/allocate/page.js:133 | Sorting the groups keeps their unique ids and non-negative headcounts. |
| Session.RunSession | src/app/allocate/page.js:149-240 | One session's records and placed ids are exactly those of `SessionSpec`. Each record is in a lab, filled within capacity, and of one year and one resolved cluster. Lab ids are distinct and every lab is first-fit when opened. Within a bucket a new lab opens only for a group larger than the seats left in the previous lab. The placed groups, record after record, are the placed ids in visit order (years ascending, clusters in `Object.keys` order). Every unplaced group of the pool fits no lab left unused. |
| Session.PackYear | src/app/allocate/page.js:164-239 | Packing the cluster buckets of one year, in `Object.keys` order, gives the variables `PackClusters` gives and extends the session invariant over those buckets' groups. |
| Session.YearStep | src/app/allocate/page.js:164-239 | Packing one more year bucket keeps the session loop's invariant, including agreement with `PackYears`. |
| Session.ClusterStep | src/app/allocate/page.js:178-238 | Packing one more cluster bucket keeps the year loop's invariant, including agreement with `PackClusters`. |
| Session.VisitPermutes | src/app/allocate/page.js:155-179 | The year and cluster bucketing visits every pool group exactly once. |
| Session.VisitOrderPermutes | src/app/allocate/page.js:164-179 | Visiting a list of year buckets cluster by cluster meets exactly the groups of those buckets. |
| Packing.PackBucket | src/app/allocate/page.js:178-238 | The loop's records, labs in use and placed ids are exactly those of the reference packer `PackSpec`. The records of one bucket use labs unused before the bucket, are labelled with the bucket's year and cluster, and are filled within capacity. Their lab ids are distinct and each is the first fit when opened. A lab after the first is opened only for a group larger than the seats left in the one before. The labs in use grow by exactly their ids. The groups placed, in order, are the bucket's placed groups in bucket order. A group left out fits no lab still unused. |
| Packing.PackRule | src/app/allocate/page.js:193-236 | A group of the bucket is placed exactly when, on its turn, the current lab has seats left for it, or an unused lab has room for it. |
| Packing.TrackOpen | src/app/allocate/page.js:193-210 | Opening the first lab that fits a group that does not fit the current lab is the reference packer's step, and keeps the records tight. |
| Packing.TrackSkip | src/app/allocate/page.js:211-213 | Skipping a group that needs a lab and finds none is the reference packer's step, and the current lab stays. |
| Packing.TrackGrow | src/app/allocate/page.js:216-236 | Adding a group that fits the seats left to the current lab is the reference packer's step. |
| Packing.SpecNoLab | src/app/allocate/page.js:181-186 | With no lab free for any group of a bucket, the reference packer opens and places nothing, as the skipped bucket does. |
| Packing.SpecPlacedLater | src/app/allocate/page.js:216-236 | A group's placement is decided on its own turn. Later groups of the bucket neither place it nor take it back. |
| Packing.TightOpen | src/app/allocate/page.js:193-203 | A lab opened for a group that does not fit the seats left keeps the records tight. |
| Packing.TightGrow | src/app/allocate/page.js:216-232 | Adding a group to the current lab keeps the records tight. |
| Packing.FirstFitFirst | src/app/allocate/page.js:194-198 | The lab found is unused and has room. Every lab before it is used or too small. None is found exactly when every lab is used or too small. |
| Packing.FirstFitFound | src/app/allocate/page.js:194-198 | A found lab is in the list, unused and large enough. None is found exactly when every lab is used or too small. |
| Packing.FirstFitEarliest | src/app/allocate/page.js:194-198 | An unused lab with room, with every earlier lab used or too small, is the one found. |
| Packing.FirstFitStaysNone | src/app/allocate/page.js:203-213 | Once no lab fits a group, none fits after more labs are taken. |
| Packing.FirstFitNoneUnused | src/app/allocate/page.js:194-198 | With no lab used, nothing fits exactly when the group is larger than every lab. |
| Packing.Unused | src/app/allocate/page.js:181-183 | The snapshot of available labs holds exactly the labs whose id is not in use. |
| Packing.FirstFitUnused | src/app/allocate/page.js:181-198 | Searching the bucket's snapshot, while also excluding labs used since it was taken, finds the same lab as searching all labs. |
| Packing.StepOpen | src/app/allocate/page.js:193-236 | Opening a record in the first lab that fits and placing the group in it keeps the packing invariant. |
| Packing.StepSkip | src/app/allocate/page.js:211-213 | Skipping a group that fits no lab keeps the packing invariant. |
| Packing.StepGrow | src/app/allocate/page.js:216-236 | Adding a group to the current lab when it fits the room left keeps the packing invariant, including the room left. |
| Packing.OpenRecord | src/app/allocate/page.js:199-210 | A newly opened record is a record of the bucket. The labs stay distinct and first-fit, and the lab's id joins the ids in use. |
| Packing.GrowRecord | src/app/allocate/page.js:216-236 | Adding a group to the current record keeps it within capacity and keeps the room left exact. The labs in use do not change, and the group joins the placed groups. |
| Packing.GrowFilled | src/app/allocate/page.js:216-232 | A group that fits the room left keeps its record within capacity, and the room left shrinks by its headcount. |
| Packing.OpenFirstFit | src/app/allocate/page.js:194-203 | A record opened in the first lab that fits keeps every record first-fit. |
| Packing.OpenDistinct | src/app/allocate/page.js:196-203 | A lab not yet in use keeps the session's lab ids distinct. |
| Grouping.BucketBy | src/app/allocate/page.js:155-175 | The bucketing loop builds the dictionary `Partition` describes. |
| Grouping.PartitionShape | src/app/allocate/page.js:155-175 | The dictionary built by `push` has distinct keys and no empty entry. Its keys are in `Object.keys` order: array indices first and ascending. Every group is filed under its own key. |
| Grouping.PartitionFlatten | src/app/allocate/page.js:155-175 | The dictionary holds exactly the groups pushed. |
| Grouping.PartitionGroupsOf | src/app/allocate/page.js:155-175 | The entry for a key holds the groups with that key, in their original order. |
| Grouping.PartitionHasKey | src/app/allocate/page.js:155-175 | The dictionary's keys are exactly the keys of its groups. |
| Grouping.PartitionNonIndex | src/app/allocate/page.js:168-178 | Keys that are not array indices, such as cluster names, are walked in the order first seen. |
| Grouping.BucketsKeepOrder | src/app/allocate/page.js:155-175 | Bucketing a headcount-sorted list leaves every bucket in descending headcount order. |
| Grouping.WithKeyOfDescending | src/app/allocate/page.js:168-175 | The groups with one key are groups of the list with that key, and they keep a descending headcount order. |
| Grouping.PushOrder | src/app/allocate/page.js:157-160 | Adding a key to an object keeps the keys in `Object.keys` order. |
| Grouping.PushGroupsOf | src/app/allocate/page.js:157-160 | A push appends the group under its key and leaves every other key's groups alone. |
| Grouping.InsertPos | src/app/allocate/page.js:157-160 | A new array-index key goes after the smaller index keys and before the larger ones. Any other new key goes last. |
| Sorting.SortDescSorted | src/app/allocate/page.js:131-133 | The sort returns a permutation of its input, in descending key order. |
| Sorting.SortDescStable | src/app/allocate/page.js:131-133 | Elements with equal keys keep their input order. |
| Sorting.InsertSorted | src/app/allocate/page.js:131-133 | Inserting into a descending list keeps it descending. |
| Sorting.InsertStable | src/app/allocate/page.js:131-133 | Inserting an element appends it after the elements of its own key, and leaves the others alone. |
| Resolver.FindCluster | src/app/allocate/page.js:137-139 | The index found is a position in the cluster list. |
| Resolver.Resolve | src/app/allocate/page.js:135-141 | Models the cluster `find` and its fallback to the department text. `ResolveFirstMatch` states its contract. |
| Resolver.Contains | src/app/allocate/page.js:138 | Models `dept.includes(d)`. `ContainsIffOccurs` states its contract. |
| Resolver.FindClusterFirst | src/app/allocate/page.js:137-139 | The cluster found matches, and no earlier cluster does. None is found exactly when no cluster matches. |
| Resolver.ResolveFirstMatch | src/app/allocate/page.js:135-141 | With no match, the text resolves to itself. Otherwise it resolves to the first matching cluster's name, or to itself when that name is empty. |
| Resolver.PartialTokenMatches | src/app/allocate/page.js:138 | Matching is by substring: the token "CS" claims the text "CSE, IT". |
| Resolver.EmptyTokenMatchesAll | src/app/allocate/page.js:138 | A cluster with an empty token matches every department text. |
| Resolver.ContainsIffOccurs | src/app/allocate/page.js:138 | `includes` is occurrence at some position. |
| Resolver.JoinSplit | src/app/allocate/page.js:89-90 | Joining the comma-split pieces gives back the text. |
| Resolver.SplitJoin | src/app/allocate/page.js:89-90 | Splitting a join of comma-free pieces gives back the pieces. |
| Resolver.SplitNoComma | src/app/allocate/page.js:89-90 | No piece of a split contains a comma. |
| Resolver.SplitCount | src/app/allocate/page.js:89-90 | A split has one piece more than the text has commas. |
| Resolver.SplitOnComma | src/app/allocate/page.js:89-90 | Models `split(",")`. `JoinSplit`, `SplitJoin`, `SplitNoComma` and `SplitCount` state its contract. |
| Resolver.Trim | src/app/allocate/page.js:91 | Models `trim()`. `TrimExact` states its contract. |
| Resolver.TrimExact | src/app/allocate/page.js:91 | Trim removes only white space from the two ends. What is left is empty, or starts and ends with a character that is not white space. |
| Resolver.Tokens | src/app/allocate/page.js:89-91 | There is one token per comma-separated field, one more than the text has commas. Each token is its field with only white space removed from the two ends. No token holds a comma, and each token is empty or has no white space at either end. |
| Resolver.TrimFields | src/app/allocate/page.js:91 | Each trimmed field is the field with only white space removed from its two ends. |
| Resolver.TrailingCommaMatchesAll | src/app/allocate/page.js:89-91 | A trailing comma in the cluster form yields an empty token, so that cluster claims every department text. |
| Domain.KeepDropSplit | src/app/allocate/page.js:247-249 | The kept and the filtered-out groups together are the original groups. |
| Domain.KeepDropMembers | src/app/allocate/page.js:247-249 | `Keep` selects exactly the groups with a listed id, and `Drop` the others. |
| Domain.KeepPermutation | src/app/allocate/page.js:247-249 | Selecting by id commutes with reordering. |
| Domain.Keep | src/app/allocate/page.js:233-235 | The groups whose id is in the session's allocated set, in pool order. `KeepDropMembers` and `KeepDropSplit` state its contract. |
| Domain.Drop | src/app/allocate/page.js:247-249 | Models `remainingGroups.filter(g => !groupsAllocatedThisSession.has(g.id))`. `KeepDropMembers`, `KeepDropSplit` and `Allocation.DropShrinks` state its contract. |
| Packing.FirstFit | src/app/allocate/page.js:194-198 | Models `availableLabs.find(...)`. `FirstFitFirst` states its contract. |
| Packing.Grown | src/app/allocate/page.js:225-232 | The current record with one more group. `GrowFilled` and `GrowRecord` state its contract. |
| Packing.PackNext | src/app/allocate/page.js:192-237 | One turn of `deptGroups.forEach`: with no current lab, or too few seats left in it, the group opens the first unused lab that fits it or is skipped with the current lab kept; otherwise it joins the current lab. `TrackOpen`, `TrackSkip` and `TrackGrow` prove the loop takes this step, and `PackRule` states its placement rule. |
| Packing.PackSpec | src/app/allocate/page.js:186-237 | The reference packer: one step per group of the bucket. `PackRule` states its contract, and `PackBucket` is proved equal to it. |
| Grouping.Push | src/app/allocate/page.js:157-160 | Models creating a missing entry and pushing the group onto it. `PushOrder` and `PushGroupsOf` state its contract. |
| Grouping.Partition | src/app/allocate/page.js:155-175 | The dictionary after all pushes. `PartitionShape`, `PartitionFlatten`, `PartitionGroupsOf` and `PartitionNonIndex` state its contract. |
| Grouping.KeyOf | src/app/allocate/page.js:157-170 | The year, or the resolved cluster name, that a group is filed under. |
| Sorting.SortDesc | src/app/allocate/page.js:131-133 | Models the stable descending sort. `SortDescSorted` and `SortDescStable` state its contract. |
| Sorting.Insert | src/app/allocate/page.js:131-133 | One insertion step of the sort. `InsertSorted` and `InsertStable` state its contract. |
| Session.Visit | src/app/allocate/page.js:155-179 | The order in which a session meets the pool's groups. `VisitPermutes` states its contract. |
| Session.PackClusters | src/app/allocate/page.js:178-239 | The cluster loop of one year: each cluster bucket packed by `PackSpec` with the labs used so far in the session taken. `PackYear` is proved equal to it. |
| Session.PackYears | src/app/allocate/page.js:164-240 | The year loop of one session: each year's cluster buckets packed by `PackClusters`, years in `Object.keys` order. `RunSession` is proved equal to it. |
| Allocation.Waiting | src/app/allocate/page.js:247-249 | The groups waiting when session k starts: the sorted groups without those placed by the earlier sessions. `Allocation.StepKeys` and `Allocation.StepReplays` tie it to the driver's `remainingGroups`. |
| Session.SessionSpec | src/app/allocate/page.js:149-240 | The reference session: `PackSpec` run bucket after bucket, years in `Object.keys` order and clusters in `Object.keys` order within a year. `RunSession` is proved equal to it. |
| Scenarios.SharedLab | src/app/allocate/page.js:193-236 | Labs of 60 and 60, and two groups of 30 of one bucket: one record, the first lab holding both groups. |
| Scenarios.FillRoomLeft | src/app/allocate/page.js:193-236 | One lab of 60, and groups of 40 and 10 of one bucket: the 10 take seats left by the 40. |
| Scenarios.OverflowFirstSession | src/app/allocate/page.js:193-236 | One lab of 30, and two groups of 30 of one bucket: the first session places only the first group. |
| Scenarios.OverflowSecondSession | src/app/allocate/page.js:144-236 | The group left over gets the same lab in the next session. |
| Scenarios.ExactFit | src/app/allocate/page.js:193-236 | One lab of 30 and one group of 30: one record, with no seat left. |
| Scenarios.Unsatisfiable | src/app/allocate/page.js:194-213 | One lab of 10 and one group of 50: the session opens nothing and places nothing. |
| Scenarios.OneBucketSession | src/app/allocate/page.js:155-238 | A session over two groups of one year and one cluster is one run of the packer over them. |
| Scenarios.OneGroupSession | src/app/allocate/page.js:155-238 | A session over a single group is one run of the packer over it. |

## Left out

- The React state, the form handlers for labs, groups and clusters, the tabs, and the rendering are not modelled. Only the data they hand to the engine is.
- Ids from `Date.now()` are not modelled. `Allocate` requires pairwise-distinct group ids, which the engine's `Set` of ids and its `filter` rely on.
- Allocate: requires non-negative headcounts. The add-group form refuses counts at or below zero before `parseInt`, so a stored count is never negative. `NaN` counts are not modelled, and nor is the `parseInt` rounding itself.
- The `available` and `allocated` fields reset at lines 119-129 are not modelled: the engine never reads them. The `session` and `allocated` flags it sets on each group are modelled as the `stamps` map from group id to session number.
- A record holds the whole placed `Group`, where the source copies its id, departments, section and count. The lab is kept whole, where the source keeps its id and name.
- Year keys are the form's strings. Keys inherited from `Object.prototype` are not modelled.
- The error and success messages and the three-second timers are not modelled. The `Rejected` outcome stands for the refusal message, and the `unallocated` list for the warning's count.
- Resolver.Tokens: the split and trim of the cluster form are modelled and their properties proved. The driver takes the clusters as given values, so the form handler around the split is not part of this model.
- Allocation.Allocate: the order of the year buckets follows `Object.keys`, so the years "1", "2" and "3" are visited in ascending numeric order. The model follows the code.
- Strings are sequences of Unicode characters, where JavaScript compares UTF-16 code units. `includes`, `split(",")` and `trim()` agree on well-formed text, so only text with lone surrogates could behave differently.
- Headcounts and capacities are JavaScript numbers (doubles), exact only up to 2^53. The model uses unbounded `int`, so it does not model rounding of larger values.
