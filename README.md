# subnet-allocator: a Dafny model of the CIDR bookkeeping engine

The subnet allocator hands out IPv4 address blocks to projects. It keeps two
independent pools, one for normal subnets and one for Kubernetes clusters.
Each pool is a table of available blocks. Each allocation is recorded in a
table of allocations. To allocate, the allocator picks an available block,
takes it out of the pool, carves the requested ranges from it and puts the
unused parts back.

This project models that engine and proves what it does to the pool.

- `arith.dfy` (module `Arith`): powers of two and the division facts the
  block arithmetic needs.
- `cidr.dfy` (module `CidrBlock`): a block in prefix notation (section 3.1 of
  RFC 4632). A block is a prefix length from 0 to 32 plus a network number
  that fits the prefix, so its base address is aligned by construction. The
  module defines containment (`subnet_of`), disjointness, capacity, the
  children of a block at a longer prefix (`subnets(new_prefix=n)`), halving
  and partitions.
- `cidr_utils.dfy` (module `CidrUtils`): `split_cidr` and
  `find_available_cidr`. It also has the live `hierarchical_split`, which
  lists every level of the binary split tree with the parent first. The
  single-path `hierarchical_split` and `validate_cidr_hierarchy` from the
  commented-out part of the file are here too.
- `pool.dfy` (module `Pool`): an in-memory store that stands in for the
  database. A `Store` object holds one available table and one allocated
  table per resource class. Each table is a sequence that the store's
  methods replace. Removal deletes every row of the block and is silent when
  the block is absent. Inserting an available block that is already listed
  changes nothing.
- `allocate_normal.dfy` (module `AllocateNormal`): `NormalAllocator.allocate`.
  It picks the first block in table order and descends into low halves. It
  returns each high half to the pool, tagged with the block it was split
  from.
- `allocate_kubernetes.dfy` (module `AllocateKubernetes`):
  `KubernetesAllocator.allocate`. It uses the stable sort by prefix length,
  the three splits, the containment checks, and the three record and
  restock loops.
- `allocate_cidr.dfy` (module `AllocateCidr`): the script allocator
  `CIDRAllocator`. It picks the first block that contains a requested one,
  works out the blocks to record and updates the store.
- `wrappers.dfy` (module `Wrappers`): `Option` and `Result`. `None` returns
  are `None`. Raised exceptions are `Err` values of an error datatype per
  module.

Each orchestrator is a class holding the store. Its `Allocate` method states
the whole new state of both pools in terms of specification functions
(`Chosen`, `ParentOf`, `PlanFor`, `PoolAfter`, `Restocked`, `Records`). The
lemmas next to those functions state what the source promises.

- **Normal allocator: conservation.** The allocated block and the returned
  halves partition the removed parent, and no other row changes.
- **Kubernetes allocator: coinciding ranges.** Primary, services and pods
  are all the parent, and everything put back overlaps them.

The model follows the code as written, including where it departs from
what an allocator of this kind evidently means to do:

- **Selection.** The normal and script paths take the first qualifying
  block in table order, not the tightest fit. The Kubernetes path takes the
  first block of shortest prefix, which is the loosest fit.
- **Splitting.** The live splitter returns every level of the split tree,
  not only the blocks along one path down to the target.
- **Kubernetes ranges.** Services and pods are both split from primary, and
  primary is the parent itself, so the three ranges coincide instead of
  being carved one after the other without overlap.
- **Removing an absent block.** This is a silent no-op, not a `NotFound`
  error.
- **Store calls.** Each store call commits on its own, so a failure after
  the removal keeps the removal. An allocation is not all-or-nothing.

## Model

| member | source | states |
|---|---|---|
| CidrBlock.Capacity | subnet-allocator/logic/cidr_utils.py:6 | the number of addresses of the parsed network, at least one; the measure that `AppendedCapacity` shows the normal allocator conserves |
| CidrBlock.InAddressSpace | subnet-allocator/logic/cidr_utils.py:6 | every block, from its base address to its last address, lies inside the 32-bit IPv4 address space |
| CidrBlock.SubnetOf | subnet-allocator/logic/cidr_utils.py:82 | `child.subnet_of(parent)`: the child starts no earlier and ends no later than the parent; `SubnetOfMeansAddresses` shows this is containment of every address |
| CidrBlock.SubnetOfMeansAddresses | subnet-allocator/logic/cidr_utils.py:82 | `subnet_of` holds exactly when every address of the child is an address of the parent |
| CidrBlock.DisjointMeansNoCommonAddress | subnet-allocator/logic/cidr_utils.py:82 | two blocks are disjoint exactly when no address lies in both |
| CidrBlock.SubnetOfPrefix | subnet-allocator/logic/cidr_utils.py:82 | a block that contains another has a prefix no longer than the other's |
| CidrBlock.SubnetOfByPrefix | subnet-allocator/logic/cidr_utils.py:82 | containment in mask terms: the child's prefix is at least the parent's, and the child's network bits masked to the parent's prefix are the parent's network bits (both directions) |
| CidrBlock.SubnetOfTransitive | subnet-allocator/logic/cidr_utils.py:82 | containment is transitive |
| CidrBlock.NestedOrDisjoint | subnet-allocator/logic/cidr_utils.py:82 | two CIDR blocks are always nested one way or the other, or disjoint; they never overlap partially |
| CidrBlock.Subnets | subnet-allocator/logic/cidr_utils.py:7 | `subnets(new_prefix=n)` yields 2^(n - prefix) blocks, each of prefix n |
| CidrBlock.ChildBase | subnet-allocator/logic/cidr_utils.py:7 | the i-th child starts i child-sizes above the parent's base address |
| CidrBlock.SubnetsAscending | subnet-allocator/logic/cidr_utils.py:7 | each child ends before any later child starts |
| CidrBlock.SubnetsInside | subnet-allocator/logic/cidr_utils.py:7 | every child lies inside the parent |
| CidrBlock.SubnetsCover | subnet-allocator/logic/cidr_utils.py:7 | every address of the parent lies in some child |
| CidrBlock.SubnetsPartition | subnet-allocator/logic/cidr_utils.py:4-7 | the children are in ascending order and partition the parent: inside it, pairwise disjoint, covering it, with capacities summing to its capacity |
| CidrBlock.SubnetsSelf | subnet-allocator/logic/cidr_utils.py:7 | splitting a block at its own prefix yields the block alone |
| CidrBlock.LowFacts | subnet-allocator/logic/allocate_normal.py:31 | the first child at any longer prefix starts at the parent's base address and lies inside it |
| CidrBlock.LowLow | subnet-allocator/logic/allocate_normal.py:28-43 | descending to the first child twice reaches the same block as descending once to the final prefix |
| CidrBlock.Halve | subnet-allocator/logic/allocate_normal.py:29 | `split()` of a block below /32 gives two blocks one prefix longer, the first being the low block at that prefix |
| CidrBlock.HalvePartition | subnet-allocator/logic/allocate_normal.py:29 | the two halves partition the block |
| CidrBlock.HighFacts | subnet-allocator/logic/allocate_normal.py:36-37 | the second half starts one half-size above the base, lies inside the block and is disjoint from the first half |
| CidrBlock.HalveLow | subnet-allocator/logic/allocate_normal.py:29-31 | the halves of the low block at prefix k are the low block at k + 1 and its sibling |
| CidrBlock.PartitionReplaceFirst | subnet-allocator/logic/allocate_normal.py:29-43 | replacing the first part of a partition by its two halves (low first, high last) gives a partition of the same whole |
| CidrUtils.SplitCidr | subnet-allocator/logic/cidr_utils.py:4-7 | `split_cidr` succeeds exactly when the block is a /32 or the new prefix lies between the block's and 32; otherwise it raises the matching ValueError. On success it gives 2^(n - prefix) blocks of prefix n, or the /32 itself |
| CidrUtils.SplitCidrPartition | subnet-allocator/logic/cidr_utils.py:4-7 | whatever `split_cidr` yields is in ascending address order and partitions the block |
| CidrUtils.SplitCidrIsSubnets | subnet-allocator/logic/cidr_utils.py:4-7 | within the address width `split_cidr` yields exactly the children at the new prefix |
| CidrUtils.FirstIndex | subnet-allocator/logic/cidr_utils.py:11-15 | the position found meets the criterion and no earlier one does; there is none exactly when no entry meets it |
| CidrUtils.FirstIndexAt | subnet-allocator/logic/cidr_utils.py:11-14 | a position that meets the criterion after none did is the one the search finds |
| CidrUtils.FirstOf | subnet-allocator/logic/cidr_utils.py:9-15 | the block found is an entry at the first position meeting the criterion; None exactly when no entry meets it |
| CidrUtils.FindAvailableCidr | subnet-allocator/logic/cidr_utils.py:9-15 | the search loop returns the first block in list order whose prefix is at most the required one, and None exactly when no block qualifies |
| CidrUtils.Level | subnet-allocator/logic/cidr_utils.py:28-36 | one level of the split loop: the children of the parent at a prefix, 2^(k - parent prefix) of them, the /32 level repeated past 32 |
| CidrUtils.LevelsBelow | subnet-allocator/logic/cidr_utils.py:28-36 | the levels the loop appends to `all_subnets`, from the parent's prefix down to one above the target; `LevelsBelowLength` gives its length |
| CidrUtils.SplitTree | subnet-allocator/logic/cidr_utils.py:24-41 | the returned list: every level, then the final level; `SplitTreeFirst`, `SplitTreeShape` and `SplitTreeInside` show it starts with the parent and stays inside it |
| CidrUtils.LevelStep | subnet-allocator/logic/cidr_utils.py:31-32 | splitting block i of one level of the split tree one prefix further gives the matching slice of the next level (two blocks, or one at /32) |
| CidrUtils.LevelsBelowLength | subnet-allocator/logic/cidr_utils.py:28-36 | the levels accumulated before prefix k number 2^(k - prefix) - 1 blocks (and grow by the /32 level for every round past 32) |
| CidrUtils.SplitTreeFirst | subnet-allocator/logic/cidr_utils.py:24-41 | the live `hierarchical_split` lists the parent first |
| CidrUtils.SplitTreeShape | subnet-allocator/logic/cidr_utils.py:24-41 | for d = target - prefix, the result has 2^(d+1) - 1 entries and its last 2^d entries are `split_cidr(parent, target)` |
| CidrUtils.SplitTreeInside | subnet-allocator/logic/cidr_utils.py:24-41 | every entry of the result lies inside the parent |
| CidrUtils.HierarchicalSplitOf | subnet-allocator/logic/cidr_utils.py:17-41 | `hierarchical_split` raises exactly when the parent's prefix exceeds the target; otherwise it returns a non-empty list headed by the parent |
| CidrUtils.SplitSoFarStep | subnet-allocator/logic/cidr_utils.py:30-32 | after each `split_cidr` of the inner loop, `new_subnets` is the next level's prefix covering the blocks split so far |
| CidrUtils.HierarchicalSplit | subnet-allocator/logic/cidr_utils.py:17-41 | the while loop keeps `current_subnets` equal to the level at `current_prefix` and `all_subnets` equal to all earlier levels in order. Its result is the split tree, or the ValueError |
| CidrUtils.SinglePath | subnet-allocator/logic/cidr_utils.py:68-76 | the single-path variant's list is never empty and starts with the low block at the target prefix |
| CidrUtils.SinglePathStep | subnet-allocator/logic/cidr_utils.py:72-74 | one round (split `subnets[0]` one prefix further) turns the list for prefix k into the list for k + 1 |
| CidrUtils.SinglePathSplit | subnet-allocator/logic/cidr_utils.py:61-76 | the single-path loop raises when the parent's prefix exceeds the target, and otherwise returns the list for the target prefix |
| CidrUtils.SinglePathHalves | subnet-allocator/logic/cidr_utils.py:68-76 | below 32 it returns two blocks of the target prefix; the first has the parent's base address, both lie inside the parent, and together they partition the block one prefix up |
| CidrUtils.ValidateCidrHierarchy | subnet-allocator/logic/cidr_utils.py:78-82 | the check holds exactly when every address of the child is an address of the parent |
| CidrUtils.ValidateCidrHierarchyOrder | subnet-allocator/logic/cidr_utils.py:78-82 | the check is reflexive and antisymmetric: a block passes against itself, and two blocks that pass both ways are equal |
| Pool.Blocks | subnet-allocator/db/db_conn.py:34-38 | the `cidr_range` column lists the rows' blocks in table order |
| Pool.Tagged | subnet-allocator/logic/allocate_normal.py:36-37 | the rows built for a list of blocks carry exactly those blocks, each with the given parent tag |
| Pool.Without | subnet-allocator/db/db_conn.py:51-57 | the DELETE never grows the table; `WithoutMembers` shows exactly the rows for other blocks remain |
| Pool.Insert | subnet-allocator/db/db_conn.py:59-66 | the insert keeps every existing row in place and adds at most one at the end; `InsertMembers` and `InsertIdempotent` give its members and idempotence |
| Pool.InsertAll | subnet-allocator/logic/allocate_kubernetes.py:71-76 | inserts made one after the other keep the old table as a prefix; `InsertAllMembers` gives its members |
| Pool.WithoutMembers | subnet-allocator/db/db_conn.py:51-57 | after the DELETE exactly the rows of other blocks remain, and nothing changes when the block is absent |
| Pool.InsertMembers | subnet-allocator/db/db_conn.py:59-66 | after an insert the listed blocks are the old ones plus the new block |
| Pool.InsertIdempotent | subnet-allocator/db/db_conn.py:59-66 | inserting the same row twice is inserting it once (ON DUPLICATE KEY) |
| Pool.InsertAllMembers | subnet-allocator/logic/allocate_kubernetes.py:71-76 | after a run of inserts the listed blocks are the old ones plus the inserted ones |
| Pool.InsertAllAppend | subnet-allocator/logic/allocate_kubernetes.py:68-76 | two consecutive runs of inserts are one run over the concatenated list |
| Pool.InsertAllFresh | subnet-allocator/db/db_conn.py:59-66 | rows whose blocks are new and pairwise distinct are simply appended |
| Pool.WithoutDisjoint | subnet-allocator/db/db_conn.py:51-57 | removing a block keeps a pairwise disjoint table pairwise disjoint |
| Pool.WithoutCapacity | subnet-allocator/db/db_conn.py:51-57 | removing a listed block from a disjoint table lowers its address count by exactly that block's |
| Pool.WithoutApart | subnet-allocator/db/db_conn.py:51-57 | what remains after removing a listed block from a disjoint table is disjoint from it |
| Pool.Store.constructor | subnet-allocator/db/db_conn.py:9-19 | a store starts with the given available tables and empty allocated tables |
| Pool.Store.GetAvailableCidrs | subnet-allocator/db/db_conn.py:34-38 | returns the blocks of the class's available table in table order and changes nothing |
| Pool.Store.InsertAllocated | subnet-allocator/db/db_conn.py:40-49 | appends exactly one record to the class's allocated table; every other table is unchanged |
| Pool.Store.RemoveAvailableCidr | subnet-allocator/db/db_conn.py:51-57 | deletes the block's rows from the class's available table; every other table is unchanged |
| Pool.Store.InsertAvailable | subnet-allocator/db/db_conn.py:59-66 | inserts the row unless the block is already listed; every other table is unchanged |
| Pool.InsertEachAvailable | subnet-allocator/logic/allocate_kubernetes.py:71-72 | a loop of `insert_available` calls leaves the class's table as the run of inserts over the tagged blocks, in order, and touches nothing else |
| AllocateNormal.Bisect | subnet-allocator/logic/allocate_normal.py:29 | `current_block.split()` read as `subnets()`: the two halves, or the /32 alone; `BisectSplits` ties it to `split_cidr` one prefix down |
| AllocateNormal.BisectSplits | subnet-allocator/logic/allocate_normal.py:29 | `current_block.split()` is `split_cidr` one prefix further down |
| AllocateNormal.DescentRows | subnet-allocator/logic/allocate_normal.py:28-43 | the descent returns one row per split step, `required_prefix - parent.prefix` of them |
| AllocateNormal.DescentRowAt | subnet-allocator/logic/allocate_normal.py:36-43 | row k is the high half of the low block at prefix parent.prefix + k, tagged with that block (`current_block`) |
| AllocateNormal.DescentStep | subnet-allocator/logic/allocate_normal.py:29-43 | one loop step descends to the low half (`subnets[0]`) and inserting `subnets[1:]` extends the returned rows by that step's row |
| AllocateNormal.DescentPartition | subnet-allocator/logic/allocate_normal.py:25-46 | the allocated block and the returned halves partition the parent |
| AllocateNormal.DescentPartitionStep | subnet-allocator/logic/allocate_normal.py:29-43 | each step refines the partition: the current block gives way to its two halves |
| AllocateNormal.LastSplit | subnet-allocator/logic/allocate_normal.py:28-38 | `subnets` stays unset exactly when the parent already has the required prefix |
| AllocateNormal.DescentLast | subnet-allocator/logic/allocate_normal.py:36-42 | the last row returned is the high half of the block split last |
| AllocateNormal.RemainingAsWritten | subnet-allocator/logic/allocate_normal.py:63 | `subnets[1:]` as written: the unbound-variable error when no split ran; `RemainingAsWrittenFailsOnExactFit` shows when that happens |
| AllocateNormal.Remaining | subnet-allocator/logic/allocate_normal.py:63 | `subnets[1:]` with the exact fit reading as empty; `RemainingIsLastSibling` shows it is the high half of the last split |
| AllocateNormal.RemainingIsLastSibling | subnet-allocator/logic/allocate_normal.py:63 | `remaining_subnets` is only the last step's unused half, not everything returned to the pool; it is empty with no split or when the descent ended at /32 |
| AllocateNormal.RemainingAsWrittenFailsOnExactFit | subnet-allocator/logic/allocate_normal.py:63 | reading `subnets[1:]` after the loop fails exactly on the exact fit, and otherwise agrees with the intended remainder |
| AllocateNormal.Chosen | subnet-allocator/logic/allocate_normal.py:13-17 | the chosen block is in the normal pool with prefix at most the required one; there is none exactly when every block's prefix is longer |
| AllocateNormal.PoolAfter | subnet-allocator/logic/allocate_normal.py:25-46 | the normal pool after an allocation: the parent deleted, the descent's rows inserted in order; `PoolConservation` and `AppendedCapacity` state what it keeps |
| AllocateNormal.DescentFacts | subnet-allocator/logic/allocate_normal.py:25-46 | the returned halves lie inside the parent, are pairwise disjoint and disjoint from the allocated block, and with it hold exactly the parent's addresses |
| AllocateNormal.PoolConservation | subnet-allocator/logic/allocate_normal.py:25-46 | conservation: on a disjoint pool holding the parent, the new pool is the old one without the parent plus the returned rows. It stays pairwise disjoint, none of its rows meets the allocated block, every other row is kept, and the pool plus the allocated block hold as many addresses as before |
| AllocateNormal.AppendedDisjoint | subnet-allocator/logic/allocate_normal.py:25-46 | the remaining rows and the returned halves are pairwise disjoint and none meets the allocated block |
| AllocateNormal.AppendedCapacity | subnet-allocator/logic/allocate_normal.py:25-46 | the remaining rows, the returned halves and the allocated block hold as many addresses as the old pool |
| AllocateNormal.DescentAppended | subnet-allocator/logic/allocate_normal.py:36-42 | the returned halves are new to the pool, so every insert appends |
| AllocateNormal.NormalAllocator.constructor | subnet-allocator/logic/allocate_normal.py:6-7 | the allocator works on the given store |
| AllocateNormal.NormalAllocator.Allocate | subnet-allocator/logic/allocate_normal.py:9-64 | with no qualifying block it raises and changes nothing. Otherwise it allocates the block of the required prefix at the chosen parent's base address (the parent itself on an exact fit) and reports line 63's remaining subnets with the exact fit corrected to none, leaves the pool as the parent removed plus the returned halves, writes exactly one 'subnet' record tagged with the parent, and leaves the Kubernetes tables alone |
| AllocateNormal.NormalAllocator.AllocateAsWritten | subnet-allocator/logic/allocate_normal.py:9-64 | allocate as written: on an exact fit it ends in the unbound-variable error after the parent was removed and the record written; otherwise it returns what `Allocate` returns, with the same new state |
| AllocateNormal.NormalAllocator.Descend | subnet-allocator/logic/allocate_normal.py:19-46 | the split loop runs at most `required_prefix - parent.prefix` times. It ends with the low block at the required prefix and the last split in `subnets`, and inserts exactly the descent's rows into the normal pool |
| AllocateKubernetes.Max3 | subnet-allocator/logic/allocate_kubernetes.py:20 | the threshold is the largest of the three prefixes |
| AllocateKubernetes.InsertByPrefix | subnet-allocator/logic/allocate_kubernetes.py:56 | one step of the stable sort: one entry longer; `InsertByPrefixPermutes` and `InsertByPrefixSorted` give its contents and order |
| AllocateKubernetes.SortByPrefix | subnet-allocator/logic/allocate_kubernetes.py:56 | `sorted(..., key=prefixlen)`, same length; `SortByPrefixSorts` shows it is a permutation ordered by prefix, `SortByPrefixStable` that it is stable, and `SortByPrefixHead` that its head is the first block of least prefix |
| AllocateKubernetes.InsertByPrefixPermutes | subnet-allocator/logic/allocate_kubernetes.py:56 | inserting into the sorted list adds exactly that entry |
| AllocateKubernetes.InsertByPrefixSorted | subnet-allocator/logic/allocate_kubernetes.py:56 | inserting into a list sorted by prefix keeps it sorted |
| AllocateKubernetes.SortByPrefixSorts | subnet-allocator/logic/allocate_kubernetes.py:56 | `sorted(..., key=prefixlen)` yields the same entries (as a multiset) ordered by prefix length |
| AllocateKubernetes.WithPrefix | subnet-allocator/logic/allocate_kubernetes.py:56 | the entries of one prefix length in list order, never more than the list holds; the measure of stability for `sorted` |
| AllocateKubernetes.InsertByPrefixStable | subnet-allocator/logic/allocate_kubernetes.py:56 | inserting an entry puts it ahead of the entries of its own prefix length and keeps the order of every prefix length |
| AllocateKubernetes.SortByPrefixStable | subnet-allocator/logic/allocate_kubernetes.py:56 | the sort is stable: for every prefix length, the entries of that length come out in the order they went in |
| AllocateKubernetes.SortByPrefixHead | subnet-allocator/logic/allocate_kubernetes.py:56 | the sorted list starts with a block of minimum prefix, the first such in table order (stability) |
| AllocateKubernetes.ParentOf | subnet-allocator/logic/allocate_kubernetes.py:55-59 | the block `_find_parent_cidr` picks; `ParentChoice` shows it is the first of the sorted list within the threshold |
| AllocateKubernetes.FindParentCidr | subnet-allocator/logic/allocate_kubernetes.py:55-59 | `_find_parent_cidr` returns the first block of the sorted list whose prefix is at most the threshold |
| AllocateKubernetes.ParentChoice | subnet-allocator/logic/allocate_kubernetes.py:55-59 | there is no parent exactly when every prefix exceeds the threshold. Otherwise the parent has prefix at most the threshold and the minimum prefix of all blocks, and is the first block of that prefix in table order |
| AllocateKubernetes.PlanFor | subnet-allocator/logic/allocate_kubernetes.py:26-41 | the three splits and three containment checks; `RolesCoincide` shows when they succeed and that all three ranges are the parent |
| AllocateKubernetes.RolesCoincide | subnet-allocator/logic/allocate_kubernetes.py:26-41 | the splits succeed exactly when no prefix is shorter than the parent's (the only error is the splitter's ValueError), the hierarchy check never fails, and primary, services and pods are all the parent itself |
| AllocateKubernetes.ReinsertedOverlap | subnet-allocator/logic/allocate_kubernetes.py:68-76 | every block put back lies inside the recorded primary range and so overlaps it; at least one is put back whenever the primary prefix is longer than the parent's |
| AllocateKubernetes.Returned | subnet-allocator/logic/allocate_kubernetes.py:71-76 | the blocks put back: every split list without its first entry; `ReinsertedOverlap` shows they all overlap the primary range |
| AllocateKubernetes.Restocked | subnet-allocator/logic/allocate_kubernetes.py:68-76 | the available table after the three insert loops; `RestockedInsertsReturned` shows it is the returned blocks inserted in order |
| AllocateKubernetes.Records | subnet-allocator/logic/allocate_kubernetes.py:61-66 | the three records written: primary, services and pods, with no parent tag |
| AllocateKubernetes.RestockedInsertsReturned | subnet-allocator/logic/allocate_kubernetes.py:68-76 | the three insert loops amount to inserting the returned blocks in order: primary's, then services', then pods' |
| AllocateKubernetes.AllocationSucceeds | subnet-allocator/logic/allocate_kubernetes.py:18-41 | allocation gets past selection and validation exactly when some block of minimum prefix has prefix at most each of the three |
| AllocateKubernetes.KubernetesAllocator.constructor | subnet-allocator/logic/allocate_kubernetes.py:7-8 | the allocator works on the given store |
| AllocateKubernetes.KubernetesAllocator.Allocate | subnet-allocator/logic/allocate_kubernetes.py:10-53 | with no parent, or a failing split or check, it raises and changes nothing. Otherwise it removes the parent, appends the three records, restocks the three lists minus their heads, and returns the three ranges; the normal tables are unchanged |
| AllocateKubernetes.KubernetesAllocator.SplitAndValidate | subnet-allocator/logic/allocate_kubernetes.py:25-41 | the three splits, the heads taken from them and the three containment checks give exactly the plan |
| AllocateKubernetes.KubernetesAllocator.UpdateAllocations | subnet-allocator/logic/allocate_kubernetes.py:61-66 | exactly three records are appended, in the order primary, services, pods, with the same project, host VPC and user; nothing else changes |
| AllocateKubernetes.KubernetesAllocator.UpdateAvailableSubnets | subnet-allocator/logic/allocate_kubernetes.py:68-76 | every entry but the first of each list is inserted into the Kubernetes pool, list by list; nothing else changes |
| AllocateCidr.ContainingOf | subnet-allocator/scripts/allocate_cidr.py:40-46 | the block `_find_available_cidr` returns; `ContainingChoice` shows it is the first available block that contains the requested one |
| AllocateCidr.ContainingChoice | subnet-allocator/scripts/allocate_cidr.py:40-46 | the chosen block contains the requested one and no earlier block does; there is none exactly when no block contains it |
| AllocateCidr.KubernetesCidrs | subnet-allocator/scripts/allocate_cidr.py:48-52 | the pod, service and cluster ranges, each split from the one before; `KubernetesChain` gives when they exist and that all three are the parent |
| AllocateCidr.KubernetesChain | subnet-allocator/scripts/allocate_cidr.py:48-52 | the ranges form the chain pod inside parent, service inside pod, cluster inside service. They exist exactly when all three prefixes are given and none is shorter than the parent's, and then each is the parent |
| AllocateCidr.PlanFor | subnet-allocator/scripts/allocate_cidr.py:17-25 | the original block and the blocks to record; `PlanShape` gives their shape per resource class |
| AllocateCidr.PlanShape | subnet-allocator/scripts/allocate_cidr.py:17-25 | the original block is an available block containing the request; a normal allocation records it unchanged, a Kubernetes one three times; with no containing block the result is the error |
| AllocateCidr.Records | subnet-allocator/scripts/allocate_cidr.py:63-71 | one record per new block, in list order, each with the environment's project, VPC and user, tagged 'GKE' for Kubernetes and 'VM' otherwise |
| AllocateCidr.RecordsSnoc | subnet-allocator/scripts/allocate_cidr.py:63-71 | one more loop iteration appends exactly the record of the next block |
| AllocateCidr.AsWrittenLosesBlock | subnet-allocator/scripts/allocate_cidr.py:57-71 | for every plan that succeeds the original block was available and is gone after the removal, and there is a block to record, so the missing `os` is reached |
| AllocateCidr.CidrAllocator.constructor | subnet-allocator/scripts/allocate_cidr.py:12-13 | the allocator works on the given store |
| AllocateCidr.CidrAllocator.Allocate | subnet-allocator/scripts/allocate_cidr.py:15-38 | on a failing plan it returns the error status and changes nothing. On success it returns the recorded list and the original block, removes that block, and appends one record per new block; the other class is untouched |
| AllocateCidr.CidrAllocator.AllocateAsWritten | subnet-allocator/scripts/allocate_cidr.py:15-38 | as written: a failing plan returns its error and changes nothing; a succeeding one removes the original block and then returns the NameError status with no record written |
| AllocateCidr.CidrAllocator.FindAvailableCidr | subnet-allocator/scripts/allocate_cidr.py:40-46 | the loop returns the first available block of the class that contains the requested block, or None |
| AllocateCidr.CidrAllocator.HandleKubernetesAllocation | subnet-allocator/scripts/allocate_cidr.py:48-52 | the three chained splits give exactly the pod, service and cluster heads, or the first error |
| AllocateCidr.CidrAllocator.UpdateDatabase | subnet-allocator/scripts/allocate_cidr.py:57-71 | removes the original block, then appends one record per new block in order; the other class is untouched |
| AllocateCidr.CidrAllocator.UpdateDatabaseAsWritten | subnet-allocator/scripts/allocate_cidr.py:57-71 | as written: the removal happens, then the first `os.getenv` raises, so no record is written whenever there is a block to record |

## Left out

- Transactions, sessions, commit and rollback are not modelled. Each store
  method is one atomic step, as each DatabaseConnection call commits on its
  own. The outer `with transaction()` blocks therefore give no atomicity
  here either.
- Table order is modelled as insertion order: a DELETE keeps the other
  rows in order and an INSERT appends. `get_available_cidrs` runs a SELECT
  without ORDER BY, so the database does not promise this order. A "first
  block" in the model is the first in insertion order. The selection lemmas
  (`FirstIndexAt`, `ParentChoice`, `ContainingChoice`) hold for whatever
  order the query returns.
- Concurrency and isolation between simultaneous allocation requests are
  not modelled, because the model is sequential.
- The SQLAlchemy engine, credentials, SQL text and logging are not
  modelled. The store is the in-memory `Pool.Store`. The `modify_date`
  refresh on a duplicate insert is left out, because the store has no
  timestamps.
- Blocks are well-formed values, not strings. The following are therefore
  left out:
  - `ip_network` parse errors and its strict host-bit check;
  - the `int(requested_cidr.split('/')[1])` of `_find_available_cidr`. Its
    value is never used, but it raises IndexError for a bare address and
    ValueError for netmask notation, two forms that `ip_network` accepts.
    Those failures are not modelled;
  - string formatting.
- IPv6 and mixed address families are left out. The width is fixed at 32.
- `validate_cidr_hierarchy` is imported from `logic/cidr_utils.py` but exists
  there only in comments, so the imports in `allocate_kubernetes.py` and
  `allocate_cidr.py` fail as written. It is modelled as the commented-out
  `child.subnet_of(parent)`.
- `allocate_normal.py` calls `.prefix` and `.split()` on strings. They are
  modelled as the prefix length and as `subnets()` (two halves, or the block
  alone for a /32).
- `allocate_normal.py` passes a third argument (the parent tag) to
  `insert_available` and a seventh (the parent) to `insert_allocated`.
  `db/db_conn.py` accepts neither. The model keeps both as the
  `AvailableRow.parent` and `AllocationRecord.parent` fields. The
  Kubernetes and script paths store no tag (`None`).
- A missing key in the `requirements` dict and `prefixes=None` for a
  Kubernetes request are not modelled separately. The Kubernetes prefixes
  are parameters. In the script, a `None` prefix is the `MissingPrefix`
  error.
- `os.getenv` values are the `Environment` parameter of
  `CidrAllocator.UpdateDatabase`. An unset variable (NULL) is not
  distinguished.
- The clock (`datetime.now().isoformat()`) is the `timestamp` parameter.
- Raised exceptions carry no message text. Each is a constructor of the
  module's error datatype.
- The argparse `__main__` block and the JSON output of `allocate_cidr.py`
  are left out. So are `scripts/validate_input.py` and
  `scripts/generate_output.py`, because they are command-line and report
  code.
- Negative prefixes follow the code path by path. The normal allocator
  finds no block whose prefix is at most a negative one, so it raises
  `NoAvailableCidr`. The Kubernetes allocator does the same when all three
  prefixes are negative, since their maximum is then negative. Otherwise it
  may still find no parent and raise `NoAvailableCidr`. Once a parent is
  found, a negative prefix reaches the splitter and comes out as its
  ValueError (`SplitFailed(TargetShorterThanParent)`). The script path
  behaves the same way once a containing block is found.
  Prefixes above 32 follow the behaviour of `subnets()`: a /32 splits into
  itself, and a shorter block cannot be split past 32. The normal allocator
  then stops descending at /32.
- The optional corrected Kubernetes carving (services first, then pods from
  the leftover siblings) is not modelled. The model keeps the code as
  written and states the overlap as lemmas (`RolesCoincide`,
  `ReinsertedOverlap`).

## Findings

| source | as written | input that shows it | evidently intended | confidence | as-written member | corrected member |
|---|---|---|---|---|---|---|
| subnet-allocator/logic/allocate_normal.py:63 | `remaining_subnets` reads `subnets[1:]`, but `subnets` is assigned only inside the split loop | a normal pool holding 10.0.0.0/24 and `required_prefix` 24: the loop never runs and the response raises UnboundLocalError after the parent was removed and the record written | an exact fit reports no remaining subnets | not executed | AllocateNormal.NormalAllocator.AllocateAsWritten | AllocateNormal.NormalAllocator.Allocate |
| subnet-allocator/scripts/allocate_cidr.py:66-70 | `_update_database` calls `os.getenv`, but the script never imports `os` | a normal pool holding 10.0.0.0/16 and a request for 10.0.1.0/24: the block is removed, then NameError is raised before any record is written, and the result is an error | the environment values are read and one record is written per allocated block | not executed | AllocateCidr.CidrAllocator.AllocateAsWritten | AllocateCidr.CidrAllocator.Allocate |
