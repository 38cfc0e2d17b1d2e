/** logic/allocate_kubernetes.py: the Kubernetes allocator. It picks the
    available block with the shortest prefix that can hold the largest of the
    three required prefixes, splits it for the primary range and then splits
    the primary range for the services and pods ranges, records the three
    ranges and puts every other block of the three splits back into the pool.

    Because the live hierarchical_split lists its input first, the three
    ranges it records are all the chosen block itself, and the blocks it puts
    back all lie inside that block; RolesCoincide and ReinsertedOverlap state
    this. */
module AllocateKubernetes {
  import opened Wrappers
  import opened CidrBlock
  import opened CidrUtils
  import opened Pool

  /** Why allocate raises. */
  datatype KubernetesError =
    | NoAvailableCidr            // no block is short enough
    | SplitFailed(reason: SplitError)
    | HierarchyInvalid           // one of the three subnet_of checks failed

  /** The dictionary allocate returns. */
  datatype KubernetesAllocation = KubernetesAllocation(primary: Cidr, services: Cidr, pods: Cidr, hostVpc: string)

  /** max(a, b, c). */
  function Max3(a: int, b: int, c: int): (r: int)
    ensures r >= a && r >= b && r >= c
    ensures r == a || r == b || r == c
  {
    if a >= b && a >= c then a else if b >= c then b else c
  }

  /** list[1:]: everything but the first entry, nothing for an empty list. */
  function AfterFirst(s: seq<Cidr>): seq<Cidr> {
    if s == [] then [] else s[1..]
  }

  // ---------------------------------------------------------------------
  // sorted(available_cidrs, key=prefixlen): a stable sort by prefix length
  // ---------------------------------------------------------------------

  /** The prefixes never decrease along the list. */
  predicate PrefixSorted(s: seq<Cidr>) {
    forall i, j :: 0 <= i < j < |s| ==> s[i].prefix <= s[j].prefix
  }

  /** Places x in front of the first entry whose prefix is at least x's, so
      that x comes before every entry of equal prefix. */
  function InsertByPrefix(x: Cidr, s: seq<Cidr>): (r: seq<Cidr>)
    ensures |r| == |s| + 1
  {
    if s == [] || x.prefix <= s[0].prefix then [x] + s
    else [s[0]] + InsertByPrefix(x, s[1..])
  }

  /** The list sorted by prefix length; of two entries with equal prefix the
      one earlier in the list stays earlier, as with Python's sorted. */
  function SortByPrefix(s: seq<Cidr>): (r: seq<Cidr>)
    ensures |r| == |s|
  {
    if s == [] then [] else InsertByPrefix(s[0], SortByPrefix(s[1..]))
  }

  lemma {:induction false} InsertByPrefixPermutes(x: Cidr, s: seq<Cidr>)
    ensures multiset(InsertByPrefix(x, s)) == multiset{x} + multiset(s)
  {
    if s != [] && x.prefix > s[0].prefix {
      InsertByPrefixPermutes(x, s[1..]);
      assert s == [s[0]] + s[1..];
    }
  }

  /** A lower bound that x and every entry of s respect holds for every entry
      of the result. */
  lemma {:induction false} InsertByPrefixBound(x: Cidr, s: seq<Cidr>, lo: int)
    requires lo <= x.prefix && forall i :: 0 <= i < |s| ==> lo <= s[i].prefix
    ensures forall i :: 0 <= i < |s| + 1 ==> lo <= InsertByPrefix(x, s)[i].prefix
  {
    if s != [] && x.prefix > s[0].prefix {
      var t := s[1..];
      assert forall i :: 0 <= i < |t| ==> t[i] == s[i + 1];
      InsertByPrefixBound(x, t, lo);
    }
  }

  lemma SortedCons(a: Cidr, r: seq<Cidr>)
    requires PrefixSorted(r) && forall i :: 0 <= i < |r| ==> a.prefix <= r[i].prefix
    ensures PrefixSorted([a] + r)
  {
    var u := [a] + r;
    forall i, j | 0 <= i < j < |u| ensures u[i].prefix <= u[j].prefix {
      assert u[j] == r[j - 1];
      if i > 0 {
        assert u[i] == r[i - 1];
      }
    }
  }

  lemma {:induction false} InsertByPrefixSorted(x: Cidr, s: seq<Cidr>)
    requires PrefixSorted(s)
    ensures PrefixSorted(InsertByPrefix(x, s))
  {
    if s == [] || x.prefix <= s[0].prefix {
      assert forall i :: 0 <= i < |s| ==> s[0].prefix <= s[i].prefix;
      SortedCons(x, s);
    } else {
      var t := s[1..];
      assert forall i :: 0 <= i < |t| ==> t[i] == s[i + 1];
      assert PrefixSorted(t);
      InsertByPrefixSorted(x, t);
      InsertByPrefixBound(x, t, s[0].prefix);
      SortedCons(s[0], InsertByPrefix(x, t));
    }
  }

  /** The sort yields an ordering of the same entries by prefix. */
  lemma {:induction false} SortByPrefixSorts(s: seq<Cidr>)
    ensures PrefixSorted(SortByPrefix(s))
    ensures multiset(SortByPrefix(s)) == multiset(s)
  {
    if s != [] {
      SortByPrefixSorts(s[1..]);
      InsertByPrefixSorted(s[0], SortByPrefix(s[1..]));
      InsertByPrefixPermutes(s[0], SortByPrefix(s[1..]));
      assert s == [s[0]] + s[1..];
    }
  }

  /** The entries of s of prefix length q, in list order. */
  function WithPrefix(s: seq<Cidr>, q: int): (r: seq<Cidr>)
    ensures |r| <= |s|
  {
    if s == [] then []
    else (if s[0].prefix == q then [s[0]] else []) + WithPrefix(s[1..], q)
  }

  /** WithPrefix of a list with one more entry in front. */
  lemma WithPrefixCons(a: Cidr, r: seq<Cidr>, q: int)
    ensures WithPrefix([a] + r, q) == (if a.prefix == q then [a] else []) + WithPrefix(r, q)
  {
    assert ([a] + r)[1..] == r;
  }

  /** x lands before every entry of its own prefix length and the other
      entries keep their order. */
  lemma {:induction false} InsertByPrefixStable(x: Cidr, s: seq<Cidr>, q: int)
    ensures WithPrefix(InsertByPrefix(x, s), q) == (if x.prefix == q then [x] else []) + WithPrefix(s, q)
  {
    if s == [] || x.prefix <= s[0].prefix {
      WithPrefixCons(x, s, q);
    } else {
      var t := s[1..];
      assert s == [s[0]] + t;
      WithPrefixCons(s[0], InsertByPrefix(x, t), q);
      WithPrefixCons(s[0], t, q);
      InsertByPrefixStable(x, t, q);
      if x.prefix == q {
        assert s[0].prefix != q;
      }
    }
  }

  /** The sort is stable: for every prefix length, the entries of that length
      come out in the order they went in. */
  lemma {:induction false} SortByPrefixStable(s: seq<Cidr>, q: int)
    ensures WithPrefix(SortByPrefix(s), q) == WithPrefix(s, q)
  {
    if s != [] {
      SortByPrefixStable(s[1..], q);
      InsertByPrefixStable(s[0], SortByPrefix(s[1..]), q);
    }
  }

  /** The head of the sorted list is the first entry, in list order, of the
      shortest prefix. */
  lemma {:induction false} SortByPrefixHead(s: seq<Cidr>)
    requires |s| > 0
    ensures forall i :: 0 <= i < |s| ==> SortByPrefix(s)[0].prefix <= s[i].prefix
    ensures exists k :: 0 <= k < |s| && s[k] == SortByPrefix(s)[0] &&
                        forall j :: 0 <= j < k ==> s[j].prefix > s[k].prefix
  {
    var t := s[1..];
    var h := SortByPrefix(s)[0];
    if t == [] {
      assert SortByPrefix(s) == [s[0]];
      assert s[0] == h;
    } else {
      SortByPrefixHead(t);
      SortByPrefixSorts(t);
      var g := SortByPrefix(t)[0];
      var k' :| 0 <= k' < |t| && t[k'] == g && forall j :: 0 <= j < k' ==> t[j].prefix > t[k'].prefix;
      InsertByPrefixSorted(s[0], SortByPrefix(t));
      if s[0].prefix <= g.prefix {
        assert h == s[0];
        forall i | 0 <= i < |s| ensures h.prefix <= s[i].prefix {
          if i > 0 {
            assert s[i] == t[i - 1];
          }
        }
        assert s[0] == h;
      } else {
        assert h == g;
        forall i | 0 <= i < |s| ensures h.prefix <= s[i].prefix {
          if i > 0 {
            assert s[i] == t[i - 1];
          }
        }
        assert s[k' + 1] == h;
        forall j | 0 <= j < k' + 1 ensures s[j].prefix > s[k' + 1].prefix {
          if j > 0 {
            assert s[j] == t[j - 1];
          }
        }
      }
    }
  }

  /** The block _find_parent_cidr returns: the first of the sorted list whose
      prefix is at most the threshold. */
  function ParentOf(available: seq<Cidr>, minPrefix: int): Option<Cidr> {
    FirstOf(SortByPrefix(available), PrefixAtMost(minPrefix))
  }

  /** _find_parent_cidr(available, min_prefix): the search loop over the
      sorted list is the loop of find_available_cidr. */
  method FindParentCidr(available: seq<Cidr>, minPrefix: int) returns (r: Option<Cidr>)
    ensures r == ParentOf(available, minPrefix)
  {
    var sorted := SortByPrefix(available);
    r := FindAvailableCidr(sorted, minPrefix);
  }

  /** The parent is the shortest-prefix block, the first of them in store
      order, provided its prefix is at most the threshold; otherwise there is
      none. */
  lemma {:induction false} ParentChoice(available: seq<Cidr>, minPrefix: int)
    ensures ParentOf(available, minPrefix).None? <==>
              forall i :: 0 <= i < |available| ==> available[i].prefix > minPrefix
    ensures ParentOf(available, minPrefix).Some? ==>
              var b := ParentOf(available, minPrefix).value;
              && b.prefix <= minPrefix
              && (forall i :: 0 <= i < |available| ==> b.prefix <= available[i].prefix)
              && exists k :: 0 <= k < |available| && available[k] == b &&
                             forall j :: 0 <= j < k ==> available[j].prefix > b.prefix
  {
    var sorted := SortByPrefix(available);
    var q := PrefixAtMost(minPrefix);
    if available != [] {
      SortByPrefixHead(available);
      SortByPrefixSorts(available);
      var h := sorted[0];
      if h.prefix <= minPrefix {
        FirstIndexAt(sorted, q, 0);
        assert ParentOf(available, minPrefix) == Some(h);
      } else {
        forall i | 0 <= i < |sorted| ensures !Meets(sorted[i], q) {
          if i > 0 {
            assert sorted[0].prefix <= sorted[i].prefix;
          }
        }
        assert ParentOf(available, minPrefix).None?;
      }
    }
  }

  // ---------------------------------------------------------------------
  // The three splits
  // ---------------------------------------------------------------------

  /** The three split lists and the range taken from each. */
  datatype Plan = Plan(
    primarySubnets: seq<Cidr>, servicesSubnets: seq<Cidr>, podsSubnets: seq<Cidr>,
    primary: Cidr, services: Cidr, pods: Cidr)

  /** Lines 26 to 41 of allocate: split the parent for the primary range,
      split the primary range for the services and pods ranges, and check
      the three containments. */
  function PlanFor(parent: Cidr, primaryPrefix: int, servicesPrefix: int, podsPrefix: int)
    : Result<Plan, KubernetesError>
  {
    match HierarchicalSplitOf(parent, primaryPrefix)
    case Err(e) => Err(SplitFailed(e))
    case Ok(ps) =>
      var primary := ps[0];
      match HierarchicalSplitOf(primary, servicesPrefix)
      case Err(e) => Err(SplitFailed(e))
      case Ok(ss) =>
        match HierarchicalSplitOf(primary, podsPrefix)
        case Err(e) => Err(SplitFailed(e))
        case Ok(ds) =>
          if !(ValidateCidrHierarchy(parent, primary) && ValidateCidrHierarchy(primary, ss[0]) &&
               ValidateCidrHierarchy(primary, ds[0]))
          then Err(HierarchyInvalid)
          else Ok(Plan(ps, ss, ds, primary, ss[0], ds[0]))
  }

  /** The splits succeed exactly when none of the three prefixes is shorter
      than the parent's, the hierarchy check never fails, and the primary,
      services and pods ranges are all the parent itself. */
  lemma RolesCoincide(parent: Cidr, primaryPrefix: int, servicesPrefix: int, podsPrefix: int)
    ensures PlanFor(parent, primaryPrefix, servicesPrefix, podsPrefix).Ok? <==>
              parent.prefix <= primaryPrefix && parent.prefix <= servicesPrefix && parent.prefix <= podsPrefix
    ensures PlanFor(parent, primaryPrefix, servicesPrefix, podsPrefix).Err? ==>
              PlanFor(parent, primaryPrefix, servicesPrefix, podsPrefix).error == SplitFailed(TargetShorterThanParent)
    ensures PlanFor(parent, primaryPrefix, servicesPrefix, podsPrefix).Ok? ==>
              var plan := PlanFor(parent, primaryPrefix, servicesPrefix, podsPrefix).value;
              && plan.primary == parent && plan.services == parent && plan.pods == parent
              && plan.primarySubnets == SplitTree(parent, primaryPrefix)
              && plan.servicesSubnets == SplitTree(parent, servicesPrefix)
              && plan.podsSubnets == SplitTree(parent, podsPrefix)
  {
    ValidateCidrHierarchyOrder(parent, parent);
  }

  /** Every block the allocator puts back lies inside the parent, which is
      also the recorded primary range, so none of them is disjoint from it;
      and there is at least one such block whenever the primary prefix is
      longer than the parent's. */
  lemma ReinsertedOverlap(parent: Cidr, primaryPrefix: int, servicesPrefix: int, podsPrefix: int)
    requires PlanFor(parent, primaryPrefix, servicesPrefix, podsPrefix).Ok?
    ensures var plan := PlanFor(parent, primaryPrefix, servicesPrefix, podsPrefix).value;
            forall b :: b in Returned(plan) ==> SubnetOf(b, plan.primary) && !Disjoint(b, plan.primary)
    ensures parent.prefix < primaryPrefix ==>
              |AfterFirst(PlanFor(parent, primaryPrefix, servicesPrefix, podsPrefix).value.primarySubnets)| > 0
  {
    RolesCoincide(parent, primaryPrefix, servicesPrefix, podsPrefix);
    var plan := PlanFor(parent, primaryPrefix, servicesPrefix, podsPrefix).value;
    SplitTreeInside(parent, primaryPrefix);
    SplitTreeInside(parent, servicesPrefix);
    SplitTreeInside(parent, podsPrefix);
    AfterFirstInside(plan.primarySubnets, parent);
    AfterFirstInside(plan.servicesSubnets, parent);
    AfterFirstInside(plan.podsSubnets, parent);
    if parent.prefix < primaryPrefix {
      LevelsBelowFirst(parent, primaryPrefix);
      assert |SplitTree(parent, primaryPrefix)| > 1;
    }
  }

  lemma AfterFirstInside(s: seq<Cidr>, p: Cidr)
    requires forall i :: 0 <= i < |s| ==> SubnetOf(s[i], p)
    ensures forall b :: b in AfterFirst(s) ==> SubnetOf(b, p)
  {
    forall b | b in AfterFirst(s) ensures SubnetOf(b, p) {
      var i :| 0 <= i < |AfterFirst(s)| && AfterFirst(s)[i] == b;
      assert s[i + 1] == b;
    }
  }

  /** The blocks the allocator puts back, in insertion order. */
  function Returned(plan: Plan): seq<Cidr> {
    AfterFirst(plan.primarySubnets) + AfterFirst(plan.servicesSubnets) + AfterFirst(plan.podsSubnets)
  }

  /** The available table after _update_available_subnets: three rounds of
      insert_available, without a parent tag. */
  function Restocked(rows: seq<AvailableRow>, plan: Plan): seq<AvailableRow> {
    InsertAll(InsertAll(InsertAll(rows, Tagged(AfterFirst(plan.primarySubnets), None)),
                        Tagged(AfterFirst(plan.servicesSubnets), None)),
              Tagged(AfterFirst(plan.podsSubnets), None))
  }

  /** The three rounds amount to inserting the returned blocks in order. */
  lemma RestockedInsertsReturned(rows: seq<AvailableRow>, plan: Plan)
    ensures Restocked(rows, plan) == InsertAll(rows, Tagged(Returned(plan), None))
  {
    var a, b, c := AfterFirst(plan.primarySubnets), AfterFirst(plan.servicesSubnets), AfterFirst(plan.podsSubnets);
    assert Tagged(a + b + c, None) == Tagged(a, None) + Tagged(b, None) + Tagged(c, None);
    InsertAllAppend(rows, Tagged(a, None), Tagged(b, None));
    InsertAllAppend(rows, Tagged(a, None) + Tagged(b, None), Tagged(c, None));
  }

  /** The three records of _update_allocations, in order. */
  function Records(project: string, hostVpc: string, user: string, plan: Plan): seq<AllocationRecord> {
    [AllocationRecord(project, hostVpc, plan.primary, Primary, user, None),
     AllocationRecord(project, hostVpc, plan.services, Services, user, None),
     AllocationRecord(project, hostVpc, plan.pods, Pods, user, None)]
  }

  /** When allocate succeeds: there is a block whose prefix is at most the
      largest of the three, and the first shortest one has a prefix at most
      the smallest of the three. */
  lemma AllocationSucceeds(available: seq<Cidr>, primaryPrefix: int, servicesPrefix: int, podsPrefix: int)
    ensures var parent := ParentOf(available, Max3(primaryPrefix, servicesPrefix, podsPrefix));
            (parent.Some? && PlanFor(parent.value, primaryPrefix, servicesPrefix, podsPrefix).Ok?) <==>
              exists k :: 0 <= k < |available| &&
                (forall i :: 0 <= i < |available| ==> available[k].prefix <= available[i].prefix) &&
                available[k].prefix <= primaryPrefix && available[k].prefix <= servicesPrefix &&
                available[k].prefix <= podsPrefix
  {
    var m := Max3(primaryPrefix, servicesPrefix, podsPrefix);
    var parent := ParentOf(available, m);
    ParentChoice(available, m);
    if parent.Some? {
      RolesCoincide(parent.value, primaryPrefix, servicesPrefix, podsPrefix);
      var k :| 0 <= k < |available| && available[k] == parent.value &&
               forall j :: 0 <= j < k ==> available[j].prefix > parent.value.prefix;
      forall k2 | 0 <= k2 < |available| && (forall i :: 0 <= i < |available| ==> available[k2].prefix <= available[i].prefix)
        ensures available[k2].prefix == parent.value.prefix
      {
        assert available[k2].prefix <= available[k].prefix;
      }
    } else {
      forall k | 0 <= k < |available| ensures available[k].prefix > primaryPrefix {
        assert available[k].prefix > m;
      }
    }
  }

  class KubernetesAllocator {
    const db: Store

    constructor (db: Store)
      ensures this.db == db
    {
      this.db := db;
    }

    /** allocate(project, host_vpc, requirements, user), with the three
        entries of requirements as parameters. */
    method Allocate(project: string, hostVpc: string, primaryPrefix: int, servicesPrefix: int, podsPrefix: int,
                    user: string)
      returns (r: Result<KubernetesAllocation, KubernetesError>)
      modifies db
      ensures var parent := ParentOf(Blocks(old(db.Available(Kubernetes))), Max3(primaryPrefix, servicesPrefix, podsPrefix));
              parent.None? ==>
                r == Err(NoAvailableCidr) &&
                db.Available(Kubernetes) == old(db.Available(Kubernetes)) &&
                db.Allocated(Kubernetes) == old(db.Allocated(Kubernetes))
      ensures var parent := ParentOf(Blocks(old(db.Available(Kubernetes))), Max3(primaryPrefix, servicesPrefix, podsPrefix));
              parent.Some? && PlanFor(parent.value, primaryPrefix, servicesPrefix, podsPrefix).Err? ==>
                r == Err(PlanFor(parent.value, primaryPrefix, servicesPrefix, podsPrefix).error) &&
                db.Available(Kubernetes) == old(db.Available(Kubernetes)) &&
                db.Allocated(Kubernetes) == old(db.Allocated(Kubernetes))
      ensures var parent := ParentOf(Blocks(old(db.Available(Kubernetes))), Max3(primaryPrefix, servicesPrefix, podsPrefix));
              parent.Some? && PlanFor(parent.value, primaryPrefix, servicesPrefix, podsPrefix).Ok? ==>
                var plan := PlanFor(parent.value, primaryPrefix, servicesPrefix, podsPrefix).value;
                r == Ok(KubernetesAllocation(plan.primary, plan.services, plan.pods, hostVpc)) &&
                db.Available(Kubernetes) == Restocked(Without(old(db.Available(Kubernetes)), parent.value), plan) &&
                db.Allocated(Kubernetes) == old(db.Allocated(Kubernetes)) + Records(project, hostVpc, user, plan)
      ensures db.Available(Normal) == old(db.Available(Normal))
      ensures db.Allocated(Normal) == old(db.Allocated(Normal))
    {
      var available := db.GetAvailableCidrs(Kubernetes);
      var parentCidr := FindParentCidr(available, Max3(primaryPrefix, servicesPrefix, podsPrefix));
      if parentCidr.None? {
        return Err(NoAvailableCidr);
      }
      var parent := parentCidr.value;
      var plan := SplitAndValidate(parent, primaryPrefix, servicesPrefix, podsPrefix);
      if plan.Err? {
        return Err(plan.error);
      }
      var p := plan.value;
      db.RemoveAvailableCidr(Kubernetes, parent);
      UpdateAllocations(project, hostVpc, p.primary, p.services, p.pods, user);
      UpdateAvailableSubnets(p.primarySubnets, p.servicesSubnets, p.podsSubnets);
      return Ok(KubernetesAllocation(p.primary, p.services, p.pods, hostVpc));
    }

    /** Lines 26 to 41 of allocate: the three hierarchical splits, the ranges
        taken from them and the three containment checks. */
    method SplitAndValidate(parent: Cidr, primaryPrefix: int, servicesPrefix: int, podsPrefix: int)
      returns (r: Result<Plan, KubernetesError>)
      ensures r == PlanFor(parent, primaryPrefix, servicesPrefix, podsPrefix)
    {
      var primarySubnets := HierarchicalSplit(parent, primaryPrefix);
      if primarySubnets.Err? {
        return Err(SplitFailed(primarySubnets.error));
      }
      var primaryCidr := primarySubnets.value[0];
      var servicesSubnets := HierarchicalSplit(primaryCidr, servicesPrefix);
      if servicesSubnets.Err? {
        return Err(SplitFailed(servicesSubnets.error));
      }
      var servicesCidr := servicesSubnets.value[0];
      var podsSubnets := HierarchicalSplit(primaryCidr, podsPrefix);
      if podsSubnets.Err? {
        return Err(SplitFailed(podsSubnets.error));
      }
      var podsCidr := podsSubnets.value[0];
      if !(ValidateCidrHierarchy(parent, primaryCidr) && ValidateCidrHierarchy(primaryCidr, servicesCidr) &&
           ValidateCidrHierarchy(primaryCidr, podsCidr)) {
        return Err(HierarchyInvalid);
      }
      return Ok(Plan(primarySubnets.value, servicesSubnets.value, podsSubnets.value,
                     primaryCidr, servicesCidr, podsCidr));
    }

    /** _update_allocations: three records without a parent, in the order
        primary, services, pods. */
    method UpdateAllocations(project: string, hostVpc: string, primary: Cidr, services: Cidr, pods: Cidr,
                             user: string)
      modifies db
      ensures db.Allocated(Kubernetes) ==
                old(db.Allocated(Kubernetes)) + [AllocationRecord(project, hostVpc, primary, Primary, user, None),
                                                 AllocationRecord(project, hostVpc, services, Services, user, None),
                                                 AllocationRecord(project, hostVpc, pods, Pods, user, None)]
      ensures db.Allocated(Normal) == old(db.Allocated(Normal))
      ensures forall c :: db.Available(c) == old(db.Available(c))
    {
      db.InsertAllocated(Kubernetes, AllocationRecord(project, hostVpc, primary, Primary, user, None));
      db.InsertAllocated(Kubernetes, AllocationRecord(project, hostVpc, services, Services, user, None));
      db.InsertAllocated(Kubernetes, AllocationRecord(project, hostVpc, pods, Pods, user, None));
    }

    /** _update_available_subnets: every entry but the first of each list
        goes back to the Kubernetes pool, list by list. */
    method UpdateAvailableSubnets(primarySubnets: seq<Cidr>, servicesSubnets: seq<Cidr>, podsSubnets: seq<Cidr>)
      modifies db
      ensures db.Available(Kubernetes) ==
                InsertAll(InsertAll(InsertAll(old(db.Available(Kubernetes)), Tagged(AfterFirst(primarySubnets), None)),
                                    Tagged(AfterFirst(servicesSubnets), None)),
                          Tagged(AfterFirst(podsSubnets), None))
      ensures db.Available(Normal) == old(db.Available(Normal))
      ensures forall c :: db.Allocated(c) == old(db.Allocated(c))
    {
      InsertEachAvailable(db, Kubernetes, AfterFirst(primarySubnets), None);
      InsertEachAvailable(db, Kubernetes, AfterFirst(servicesSubnets), None);
      InsertEachAvailable(db, Kubernetes, AfterFirst(podsSubnets), None);
    }
  }
}
