/** scripts/allocate_cidr.py: CIDRAllocator, which takes a requested block,
    finds the first available block of the resource class that contains it,
    works out the blocks to record and updates the store; every failure is
    reported as an error result instead of an exception.

    The environment lookups of _update_database (os.getenv, with `os` never
    imported) and the clock of allocate are parameters here; the model of the
    code as written is AllocateAsWritten. */
module AllocateCidr {
  import opened Wrappers
  import opened CidrBlock
  import opened CidrUtils
  import opened Pool

  /** The exceptions allocate turns into {'status': 'error'}. */
  datatype AllocError =
    | NoContainingCidr             // no available block contains the requested one
    | MissingPrefix                // a Kubernetes prefix (or the whole mapping) is None
    | SplitFailed(reason: SplitError)
    | NameUnbound                  // `os` is not defined in _update_database

  /** The dictionary allocate returns. */
  datatype Outcome =
    | Success(allocatedCidrs: seq<Cidr>, originalCidr: Cidr, timestamp: string)
    | Error(error: AllocError)

  /** The values of GCP_PROJECT, HOST_VPC and GITLAB_USER_EMAIL. */
  datatype Environment = Environment(project: string, hostVpc: string, user: string)

  /** The block _find_available_cidr returns. */
  function ContainingOf(available: seq<Cidr>, requested: Cidr): Option<Cidr> {
    FirstOf(available, Contains(requested))
  }

  /** The chosen block contains the requested one and no earlier block does;
      there is none exactly when no block contains the requested one. */
  lemma ContainingChoice(available: seq<Cidr>, requested: Cidr)
    ensures ContainingOf(available, requested).None? <==>
              forall i :: 0 <= i < |available| ==> !SubnetOf(requested, available[i])
    ensures ContainingOf(available, requested).Some? ==>
              exists k :: 0 <= k < |available| && available[k] == ContainingOf(available, requested).value &&
                          SubnetOf(requested, available[k]) &&
                          forall j :: 0 <= j < k ==> !SubnetOf(requested, available[j])
  {
    var q := Contains(requested);
    if ContainingOf(available, requested).Some? {
      var k :| 0 <= k < |available| && available[k] == ContainingOf(available, requested).value &&
               FirstIndex(available, q) == Some(k);
      assert Meets(available[k], q);
      assert forall j :: 0 <= j < k ==> !Meets(available[j], q);
    }
  }

  /** _handle_kubernetes_allocation(parent, prefixes): the pod range split
      from the parent, the service range from the pod range and the cluster
      range from the service range, each the first entry of its split. */
  function KubernetesCidrs(parent: Cidr, pod: Option<int>, service: Option<int>, cluster: Option<int>)
    : Result<seq<Cidr>, AllocError>
  {
    if pod.None? then Err(MissingPrefix)
    else match HierarchicalSplitOf(parent, pod.value)
      case Err(e) => Err(SplitFailed(e))
      case Ok(ps) =>
        if service.None? then Err(MissingPrefix)
        else match HierarchicalSplitOf(ps[0], service.value)
          case Err(e) => Err(SplitFailed(e))
          case Ok(ss) =>
            if cluster.None? then Err(MissingPrefix)
            else match HierarchicalSplitOf(ss[0], cluster.value)
              case Err(e) => Err(SplitFailed(e))
              case Ok(cs) => Ok([ps[0], ss[0], cs[0]])
  }

  /** The three ranges form the chain pod inside parent, service inside pod,
      cluster inside service. They exist exactly when all three prefixes are
      given and none is shorter than the parent's, and then every one of them
      is the parent itself. */
  lemma KubernetesChain(parent: Cidr, pod: Option<int>, service: Option<int>, cluster: Option<int>)
    ensures KubernetesCidrs(parent, pod, service, cluster).Ok? <==>
              pod.Some? && service.Some? && cluster.Some? &&
              parent.prefix <= pod.value && parent.prefix <= service.value && parent.prefix <= cluster.value
    ensures KubernetesCidrs(parent, pod, service, cluster).Ok? ==>
              var r := KubernetesCidrs(parent, pod, service, cluster).value;
              && |r| == 3
              && SubnetOf(r[0], parent) && SubnetOf(r[1], r[0]) && SubnetOf(r[2], r[1])
              && r == [parent, parent, parent]
  {
  }

  /** What allocate decides before touching the store: the original block and
      the blocks to record. */
  function PlanFor(available: seq<Cidr>, cidrType: ResourceClass, requested: Cidr,
                   pod: Option<int>, service: Option<int>, cluster: Option<int>)
    : Result<(Cidr, seq<Cidr>), AllocError>
  {
    match ContainingOf(available, requested)
    case None => Err(NoContainingCidr)
    case Some(b) =>
      if cidrType == Kubernetes then
        match KubernetesCidrs(b, pod, service, cluster)
        case Err(e) => Err(e)
        case Ok(cs) => Ok((b, cs))
      else Ok((b, [b]))
  }

  /** A normal allocation records the containing block unchanged; a
      Kubernetes one records the containing block three times. Either way
      the original block contains the requested one. */
  lemma PlanShape(available: seq<Cidr>, cidrType: ResourceClass, requested: Cidr,
                  pod: Option<int>, service: Option<int>, cluster: Option<int>)
    ensures PlanFor(available, cidrType, requested, pod, service, cluster).Ok? ==>
              var (b, cs) := PlanFor(available, cidrType, requested, pod, service, cluster).value;
              && b in available && SubnetOf(requested, b)
              && (cidrType == Normal ==> cs == [b])
              && (cidrType == Kubernetes ==> cs == [b, b, b])
    ensures ContainingOf(available, requested).None? ==>
              PlanFor(available, cidrType, requested, pod, service, cluster) == Err(NoContainingCidr)
  {
    ContainingChoice(available, requested);
    match ContainingOf(available, requested)
    case None =>
    case Some(b) =>
      KubernetesChain(b, pod, service, cluster);
  }

  /** The records _update_database writes, in list order. */
  function Records(env: Environment, cidrType: ResourceClass, cidrs: seq<Cidr>): (r: seq<AllocationRecord>)
    ensures |r| == |cidrs|
    ensures forall i :: 0 <= i < |r| ==>
              r[i] == AllocationRecord(env.project, env.hostVpc, cidrs[i], RoleOf(cidrType), env.user, None)
  {
    seq(|cidrs|, i requires 0 <= i < |cidrs| =>
          AllocationRecord(env.project, env.hostVpc, cidrs[i], RoleOf(cidrType), env.user, None))
  }

  /** 'GKE' for Kubernetes, 'VM' otherwise. */
  function RoleOf(cidrType: ResourceClass): Role {
    if cidrType == Kubernetes then Gke else Vm
  }

  lemma RecordsSnoc(env: Environment, cidrType: ResourceClass, cidrs: seq<Cidr>, i: nat)
    requires i < |cidrs|
    ensures Records(env, cidrType, cidrs[..i + 1]) ==
            Records(env, cidrType, cidrs[..i]) +
            [AllocationRecord(env.project, env.hostVpc, cidrs[i], RoleOf(cidrType), env.user, None)]
  {
    var a := Records(env, cidrType, cidrs[..i + 1]);
    var b := Records(env, cidrType, cidrs[..i]) +
             [AllocationRecord(env.project, env.hostVpc, cidrs[i], RoleOf(cidrType), env.user, None)];
    assert |a| == |b|;
    forall k | 0 <= k < |a| ensures a[k] == b[k] {
      if k < i {
        assert cidrs[..i + 1][k] == cidrs[..i][k];
      }
    }
  }

  /** The other resource class. */
  function Other(c: ResourceClass): ResourceClass {
    if c == Kubernetes then Normal else Kubernetes
  }

  /** As written, a plan that succeeds still ends in an error: the original
      block has left the pool although no record holds it. */
  lemma AsWrittenLosesBlock(rows: seq<AvailableRow>, cidrType: ResourceClass, requested: Cidr,
                            pod: Option<int>, service: Option<int>, cluster: Option<int>)
    ensures PlanFor(Blocks(rows), cidrType, requested, pod, service, cluster).Ok? ==>
              var b := PlanFor(Blocks(rows), cidrType, requested, pod, service, cluster).value.0;
              b in Blocks(rows) && b !in Blocks(Without(rows, b)) &&
              |PlanFor(Blocks(rows), cidrType, requested, pod, service, cluster).value.1| > 0
  {
    PlanShape(Blocks(rows), cidrType, requested, pod, service, cluster);
    if PlanFor(Blocks(rows), cidrType, requested, pod, service, cluster).Ok? {
      var b := PlanFor(Blocks(rows), cidrType, requested, pod, service, cluster).value.0;
      WithoutMembers(rows, b);
      var w := Without(rows, b);
      forall i | 0 <= i < |w| ensures Blocks(w)[i] != b {
        assert w[i] in w;
      }
    }
  }

  class CidrAllocator {
    const db: Store

    constructor (db: Store)
      ensures this.db == db
    {
      this.db := db;
    }

    /** allocate(cidr_type, requested_cidr, prefixes), with the environment
        of _update_database and the clock as parameters. */
    method Allocate(cidrType: ResourceClass, requested: Cidr, pod: Option<int>, service: Option<int>,
                    cluster: Option<int>, env: Environment, timestamp: string)
      returns (r: Outcome)
      modifies db
      ensures var plan := PlanFor(Blocks(old(db.Available(cidrType))), cidrType, requested, pod, service, cluster);
              plan.Err? ==>
                r == Error(plan.error) &&
                db.Available(cidrType) == old(db.Available(cidrType)) &&
                db.Allocated(cidrType) == old(db.Allocated(cidrType))
      ensures var plan := PlanFor(Blocks(old(db.Available(cidrType))), cidrType, requested, pod, service, cluster);
              plan.Ok? ==>
                r == Success(plan.value.1, plan.value.0, timestamp) &&
                db.Available(cidrType) == Without(old(db.Available(cidrType)), plan.value.0) &&
                db.Allocated(cidrType) == old(db.Allocated(cidrType)) + Records(env, cidrType, plan.value.1)
      ensures db.Available(Other(cidrType)) == old(db.Available(Other(cidrType)))
      ensures db.Allocated(Other(cidrType)) == old(db.Allocated(Other(cidrType)))
    {
      var parent := FindAvailableCidr(requested, cidrType);
      if parent.None? {
        return Error(NoContainingCidr);
      }
      var original := parent.value;
      var newCidrs: seq<Cidr>;
      if cidrType == Kubernetes {
        var cs := HandleKubernetesAllocation(original, pod, service, cluster);
        if cs.Err? {
          return Error(cs.error);
        }
        newCidrs := cs.value;
      } else {
        newCidrs := [original];
      }
      UpdateDatabase(cidrType, original, newCidrs, env);
      return Success(newCidrs, original, timestamp);
    }

    /** allocate as written: once a block is found and the blocks to record
        are known, _update_database removes the block and then fails on the
        undefined `os`, so the result is an error and nothing is recorded. */
    method AllocateAsWritten(cidrType: ResourceClass, requested: Cidr, pod: Option<int>, service: Option<int>,
                             cluster: Option<int>, timestamp: string)
      returns (r: Outcome)
      modifies db
      ensures var plan := PlanFor(Blocks(old(db.Available(cidrType))), cidrType, requested, pod, service, cluster);
              plan.Err? ==>
                r == Error(plan.error) &&
                db.Available(cidrType) == old(db.Available(cidrType))
      ensures var plan := PlanFor(Blocks(old(db.Available(cidrType))), cidrType, requested, pod, service, cluster);
              plan.Ok? ==>
                r == Error(NameUnbound) &&
                db.Available(cidrType) == Without(old(db.Available(cidrType)), plan.value.0)
      ensures db.Allocated(cidrType) == old(db.Allocated(cidrType))
      ensures db.Available(Other(cidrType)) == old(db.Available(Other(cidrType)))
      ensures db.Allocated(Other(cidrType)) == old(db.Allocated(Other(cidrType)))
    {
      var parent := FindAvailableCidr(requested, cidrType);
      if parent.None? {
        return Error(NoContainingCidr);
      }
      var original := parent.value;
      var newCidrs: seq<Cidr>;
      if cidrType == Kubernetes {
        var cs := HandleKubernetesAllocation(original, pod, service, cluster);
        if cs.Err? {
          return Error(cs.error);
        }
        newCidrs := cs.value;
      } else {
        newCidrs := [original];
      }
      PlanShape(Blocks(old(db.Available(cidrType))), cidrType, requested, pod, service, cluster);
      var failure := UpdateDatabaseAsWritten(cidrType, original, newCidrs);
      if failure.Some? {
        return Error(failure.value);
      }
      return Success(newCidrs, original, timestamp);
    }

    /** _find_available_cidr(requested_cidr, cidr_type): the first available
        block of the class that contains the requested block. */
    method FindAvailableCidr(requested: Cidr, cidrType: ResourceClass) returns (r: Option<Cidr>)
      ensures r == ContainingOf(Blocks(db.Available(cidrType)), requested)
    {
      var available := db.GetAvailableCidrs(cidrType);
      var i := 0;
      while i < |available|
        invariant 0 <= i <= |available|
        invariant forall j :: 0 <= j < i ==> !Meets(available[j], Contains(requested))
      {
        if ValidateCidrHierarchy(available[i], requested) {
          FirstIndexAt(available, Contains(requested), i);
          return Some(available[i]);
        }
        i := i + 1;
      }
      return None;
    }

    /** _handle_kubernetes_allocation(parent, prefixes). */
    method HandleKubernetesAllocation(parent: Cidr, pod: Option<int>, service: Option<int>, cluster: Option<int>)
      returns (r: Result<seq<Cidr>, AllocError>)
      ensures r == KubernetesCidrs(parent, pod, service, cluster)
    {
      if pod.None? {
        return Err(MissingPrefix);
      }
      var ps := HierarchicalSplit(parent, pod.value);
      if ps.Err? {
        return Err(SplitFailed(ps.error));
      }
      var podCidr := ps.value[0];
      if service.None? {
        return Err(MissingPrefix);
      }
      var ss := HierarchicalSplit(podCidr, service.value);
      if ss.Err? {
        return Err(SplitFailed(ss.error));
      }
      var serviceCidr := ss.value[0];
      if cluster.None? {
        return Err(MissingPrefix);
      }
      var cs := HierarchicalSplit(serviceCidr, cluster.value);
      if cs.Err? {
        return Err(SplitFailed(cs.error));
      }
      var clusterCidr := cs.value[0];
      return Ok([podCidr, serviceCidr, clusterCidr]);
    }

    /** _update_database(cidr_type, original, new_cidrs) with the environment
        values given: remove the original block, then one record per new
        block, in order. */
    method UpdateDatabase(cidrType: ResourceClass, original: Cidr, newCidrs: seq<Cidr>, env: Environment)
      modifies db
      ensures db.Available(cidrType) == Without(old(db.Available(cidrType)), original)
      ensures db.Allocated(cidrType) == old(db.Allocated(cidrType)) + Records(env, cidrType, newCidrs)
      ensures db.Available(Other(cidrType)) == old(db.Available(Other(cidrType)))
      ensures db.Allocated(Other(cidrType)) == old(db.Allocated(Other(cidrType)))
    {
      db.RemoveAvailableCidr(cidrType, original);
      ghost var before := db.Allocated(cidrType);
      var i := 0;
      while i < |newCidrs|
        invariant 0 <= i <= |newCidrs|
        invariant db.Available(cidrType) == Without(old(db.Available(cidrType)), original)
        invariant db.Allocated(cidrType) == before + Records(env, cidrType, newCidrs[..i])
        invariant db.Available(Other(cidrType)) == old(db.Available(Other(cidrType)))
        invariant db.Allocated(Other(cidrType)) == old(db.Allocated(Other(cidrType)))
      {
        var record := AllocationRecord(env.project, env.hostVpc, newCidrs[i], RoleOf(cidrType), env.user, None);
        db.InsertAllocated(cidrType, record);
        RecordsSnoc(env, cidrType, newCidrs, i);
        i := i + 1;
      }
      assert newCidrs[..i] == newCidrs;
    }

    /** _update_database as written: the removal happens, then the first
        os.getenv raises; with no new blocks the loop never looks it up. */
    method UpdateDatabaseAsWritten(cidrType: ResourceClass, original: Cidr, newCidrs: seq<Cidr>)
      returns (failure: Option<AllocError>)
      modifies db
      ensures failure == if |newCidrs| > 0 then Some(NameUnbound) else None
      ensures db.Available(cidrType) == Without(old(db.Available(cidrType)), original)
      ensures db.Allocated(cidrType) == old(db.Allocated(cidrType))
      ensures db.Available(Other(cidrType)) == old(db.Available(Other(cidrType)))
      ensures db.Allocated(Other(cidrType)) == old(db.Allocated(Other(cidrType)))
    {
      db.RemoveAvailableCidr(cidrType, original);
      if |newCidrs| > 0 {
        return Some(NameUnbound);
      }
      return None;
    }
  }
}
