/** logic/allocate_normal.py: NormalAllocator.allocate picks the first normal
    block wide enough for the request, removes it from the pool, and
    descends into its low half until the required prefix is reached. Each step
    returns the high half to the pool, tagged with the block it was split
    from. */
module AllocateNormal {
  import opened Wrappers
  import opened CidrBlock
  import opened CidrUtils
  import opened Pool

  /** The ValueError raised when no block qualifies, and the UnboundLocalError
      that reading `subnets` raises when the loop never ran. */
  datatype NormalError = NoAvailableCidr | UnboundSubnets

  /** The dictionary allocate returns. */
  datatype NormalAllocation = NormalAllocation(
    project: string, hostVpc: string, allocatedCidr: Cidr, remainingSubnets: seq<Cidr>)

  /** current_block.split(), read as network.subnets(): the two halves of the
      block, or the block alone for a /32. */
  function Bisect(b: Cidr): seq<Cidr> {
    if b.prefix < Width then Halve(b) else [b]
  }

  /** Bisect is split_cidr one prefix further down. */
  lemma BisectSplits(b: Cidr)
    ensures SplitCidr(b, b.prefix + 1) == Ok(Bisect(b))
  {
    if b.prefix < Width {
      SplitCidrIsSubnets(b, b.prefix + 1);
    }
  }

  /** The rows the descent from p to prefix t returns to the pool, in insertion
      order: for every prefix k from p's up to t - 1, the high half of the low
      block at k, tagged with that block. */
  function DescentRows(p: Cidr, t: nat): (r: seq<AvailableRow>)
    requires p.prefix <= t <= Width
    ensures |r| == t - p.prefix
    decreases t - p.prefix
  {
    if t == p.prefix then []
    else DescentRows(p, t - 1) + [AvailableRow(High(Low(p, t - 1)), Some(Low(p, t - 1)))]
  }

  /** Row k of the descent is the high half of the low block at prefix
      p.prefix + k, tagged with that block. */
  lemma {:induction false} DescentRowAt(p: Cidr, t: nat, k: nat)
    requires p.prefix <= t <= Width && k < t - p.prefix
    ensures DescentRows(p, t)[k] == AvailableRow(High(Low(p, p.prefix + k)), Some(Low(p, p.prefix + k)))
    decreases t - p.prefix
  {
    if k < t - 1 - p.prefix {
      DescentRowAt(p, t - 1, k);
    }
  }

  /** One step of the descent: the low half of the low block at prefix k is the
      low block one prefix further, and inserting the unused half extends the
      returned rows by one (by none at a /32). */
  lemma DescentStep(p: Cidr, base: seq<AvailableRow>, k: nat)
    requires p.prefix <= k <= Width
    ensures Bisect(Low(p, k))[0] == Low(p, Min(k + 1, Width))
    ensures InsertAll(InsertAll(base, DescentRows(p, k)), Tagged(Bisect(Low(p, k))[1..], Some(Low(p, k)))) ==
            InsertAll(base, DescentRows(p, Min(k + 1, Width)))
  {
    var c := Low(p, k);
    var rows := DescentRows(p, k);
    var news := Tagged(Bisect(c)[1..], Some(c));
    if k < Width {
      HalveLow(p, k);
      assert news == [AvailableRow(High(c), Some(c))];
      assert DescentRows(p, k + 1) == rows + news;
    } else {
      assert news == [];
      assert rows + news == rows;
    }
    InsertAllAppend(base, rows, news);
  }

  /** The allocated block and the returned halves partition the parent. */
  lemma {:induction false} DescentPartition(p: Cidr, t: nat)
    requires p.prefix <= t <= Width
    ensures Partition([Low(p, t)] + Blocks(DescentRows(p, t)), p)
    decreases t - p.prefix
  {
    if t == p.prefix {
      LowSelf(p);
      PartitionSingleton(p);
      assert [Low(p, t)] + Blocks(DescentRows(p, t)) == [p];
    } else {
      DescentPartition(p, t - 1);
      DescentPartitionStep(p, t);
    }
  }

  /** One more step of the descent refines the partition: the low block at
      t - 1 gives way to its two halves. */
  lemma DescentPartitionStep(p: Cidr, t: nat)
    requires p.prefix < t <= Width
    requires Partition([Low(p, t - 1)] + Blocks(DescentRows(p, t - 1)), p)
    ensures Partition([Low(p, t)] + Blocks(DescentRows(p, t)), p)
  {
    var x := Low(p, t - 1);
    HalveLow(p, t - 1);
    var h := Halve(x);
    HalvePartition(x);
    assert h == [Low(p, t), High(x)];
    var rest := Blocks(DescentRows(p, t - 1));
    PartitionReplaceFirst(x, rest, p, Low(p, t), High(x));
    BlocksAppend(DescentRows(p, t - 1), [AvailableRow(High(x), Some(x))]);
    assert Blocks(DescentRows(p, t)) == rest + [High(x)];
    assert [Low(p, t)] + rest + [High(x)] == [Low(p, t)] + (rest + [High(x)]);
  }

  /** The value of `subnets` once the loop is over: the last split made, or
      nothing when the parent already has the required prefix and the loop
      never runs. */
  function LastSplit(p: Cidr, requiredPrefix: int): (r: Option<seq<Cidr>>)
    requires p.prefix <= requiredPrefix
    ensures r.None? <==> requiredPrefix == p.prefix
  {
    if requiredPrefix == p.prefix then None
    else Some(Bisect(Low(p, Min(requiredPrefix - 1, Width))))
  }

  /** When the low half reaches the required prefix at step `step`, that
      step's block, split and rows are the ones the whole descent ends with. */
  lemma DescentStop(p: Cidr, requiredPrefix: int, step: nat)
    requires p.prefix + step < requiredPrefix
    requires Min(Min(p.prefix + step, Width) + 1, Width) == requiredPrefix
    ensures Min(requiredPrefix, Width) == Min(Min(p.prefix + step, Width) + 1, Width)
    ensures LastSplit(p, requiredPrefix) == LastSplit(p, p.prefix + step + 1)
  {
    assert p.prefix + step < Width;
  }

  /** remaining_subnets as written: subnets[1:], an UnboundLocalError when no
      split ran. */
  function RemainingAsWritten(p: Cidr, requiredPrefix: int): (r: Result<seq<Cidr>, NormalError>)
    requires p.prefix <= requiredPrefix
  {
    match LastSplit(p, requiredPrefix)
    case None => Err(UnboundSubnets)
    case Some(s) => Ok(s[1..])
  }

  /** remaining_subnets with the exact fit handled: the unused halves of the
      last split, none when no split ran. */
  function Remaining(p: Cidr, requiredPrefix: int): (r: seq<Cidr>)
    requires p.prefix <= requiredPrefix
  {
    match LastSplit(p, requiredPrefix)
    case None => []
    case Some(s) => s[1..]
  }

  /** The last row of the descent to prefix t holds the high half of the low
      block at t - 1. */
  lemma DescentLast(p: Cidr, t: nat)
    requires p.prefix < t <= Width
    ensures Blocks(DescentRows(p, t))[t - p.prefix - 1..] == [High(Low(p, t - 1))]
  {
    var rows := DescentRows(p, t);
    assert rows == DescentRows(p, t - 1) + [AvailableRow(High(Low(p, t - 1)), Some(Low(p, t - 1)))];
    assert rows[|rows| - 1].block == High(Low(p, t - 1));
  }

  /** The reported remainder is only the block returned by the last step, not
      the halves returned by the earlier ones; it is empty when no split ran or
      when the descent ended at a /32 before the required prefix. */
  lemma RemainingIsLastSibling(p: Cidr, requiredPrefix: int)
    requires p.prefix <= requiredPrefix
    ensures p.prefix < requiredPrefix <= Width ==>
              Remaining(p, requiredPrefix) ==
              Blocks(DescentRows(p, requiredPrefix))[requiredPrefix - p.prefix - 1..]
    ensures requiredPrefix == p.prefix || requiredPrefix > Width ==> Remaining(p, requiredPrefix) == []
  {
    if p.prefix < requiredPrefix <= Width {
      HalveLow(p, requiredPrefix - 1);
      DescentLast(p, requiredPrefix);
    }
  }

  /** The source reads `subnets` after the loop even when the loop never ran:
      with the exact fit the response fails although the parent was removed
      and the record written; otherwise the two readings agree. */
  lemma RemainingAsWrittenFailsOnExactFit(p: Cidr, requiredPrefix: int)
    requires p.prefix <= requiredPrefix
    ensures RemainingAsWritten(p, requiredPrefix).Err? <==> requiredPrefix == p.prefix
    ensures requiredPrefix > p.prefix ==> RemainingAsWritten(p, requiredPrefix) == Ok(Remaining(p, requiredPrefix))
  {
  }

  /** The block find_available_cidr picks from the normal pool, if any. */
  function Chosen(rows: seq<AvailableRow>, requiredPrefix: int): (r: Option<Cidr>)
    ensures r.Some? ==> r.value in Blocks(rows) && r.value.prefix <= requiredPrefix
    ensures r.None? <==> forall i :: 0 <= i < |rows| ==> rows[i].block.prefix > requiredPrefix
  {
    FirstOf(Blocks(rows), PrefixAtMost(requiredPrefix))
  }

  /** The pool after the descent from p to prefix t. */
  function PoolAfter(rows: seq<AvailableRow>, p: Cidr, t: nat): seq<AvailableRow>
    requires p.prefix <= t <= Width
  {
    InsertAll(Without(rows, p), DescentRows(p, t))
  }

  /** The returned halves lie inside the parent, are pairwise disjoint and
      disjoint from the allocated block, and with it hold exactly the
      parent's addresses. */
  lemma DescentFacts(p: Cidr, t: nat)
    requires p.prefix <= t <= Width
    ensures var d := Blocks(DescentRows(p, t));
            && (forall i :: 0 <= i < |d| ==> SubnetOf(d[i], p) && Disjoint(Low(p, t), d[i]))
            && (forall i, j :: 0 <= i < j < |d| ==> Disjoint(d[i], d[j]))
            && Capacity(Low(p, t)) + TotalCapacity(d) == Capacity(p)
  {
    DescentPartition(p, t);
    PartitionHead(Low(p, t), Blocks(DescentRows(p, t)), p);
  }

  /** Conservation: when the normal pool is pairwise disjoint and contains
      the parent p, the descent appends exactly its rows to what is left; the
      pool stays disjoint, none of its blocks meets the allocated block,
      every other row is kept, and the pool plus the allocated block hold as
      many addresses as before. */
  lemma PoolConservation(rows: seq<AvailableRow>, p: Cidr, t: nat)
    requires DisjointRows(rows) && p in Blocks(rows) && p.prefix <= t <= Width
    ensures PoolAfter(rows, p, t) == Without(rows, p) + DescentRows(p, t)
    ensures DisjointRows(PoolAfter(rows, p, t))
    ensures forall i :: 0 <= i < |PoolAfter(rows, p, t)| ==>
              Disjoint(PoolAfter(rows, p, t)[i].block, Low(p, t))
    ensures TotalCapacity(Blocks(PoolAfter(rows, p, t))) + Capacity(Low(p, t)) == TotalCapacity(Blocks(rows))
    ensures forall x :: x in rows && x.block != p ==> x in PoolAfter(rows, p, t)
  {
    DescentAppended(rows, p, t);
    AppendedDisjoint(rows, p, t);
    AppendedCapacity(rows, p, t);
    WithoutMembers(rows, p);
  }

  /** The remaining rows and the returned halves are pairwise disjoint and
      none of them meets the allocated block. */
  lemma AppendedDisjoint(rows: seq<AvailableRow>, p: Cidr, t: nat)
    requires DisjointRows(rows) && p in Blocks(rows) && p.prefix <= t <= Width
    ensures DisjointRows(Without(rows, p) + DescentRows(p, t))
    ensures forall i :: 0 <= i < |Without(rows, p) + DescentRows(p, t)| ==>
              Disjoint((Without(rows, p) + DescentRows(p, t))[i].block, Low(p, t))
  {
    var news := DescentRows(p, t);
    DescentFacts(p, t);
    WithoutApart(rows, p);
    WithoutDisjoint(rows, p);
    assert forall i :: 0 <= i < |news| ==> news[i].block == Blocks(news)[i];
    LowFacts(p, t);
    ConservationDisjoint(Without(rows, p), news, p, Low(p, t));
  }

  /** The remaining rows, the returned halves and the allocated block hold as
      many addresses as the pool did. */
  lemma AppendedCapacity(rows: seq<AvailableRow>, p: Cidr, t: nat)
    requires DisjointRows(rows) && p in Blocks(rows) && p.prefix <= t <= Width
    ensures TotalCapacity(Blocks(Without(rows, p) + DescentRows(p, t))) + Capacity(Low(p, t)) ==
            TotalCapacity(Blocks(rows))
  {
    var w := Without(rows, p);
    var news := DescentRows(p, t);
    DescentFacts(p, t);
    BlocksAppend(w, news);
    TotalCapacityAppend(Blocks(w), Blocks(news));
    WithoutCapacity(rows, p);
  }

  /** The returned halves are new to the pool, so they are simply appended. */
  lemma DescentAppended(rows: seq<AvailableRow>, p: Cidr, t: nat)
    requires DisjointRows(rows) && p in Blocks(rows) && p.prefix <= t <= Width
    ensures PoolAfter(rows, p, t) == Without(rows, p) + DescentRows(p, t)
  {
    var w := Without(rows, p);
    var news := DescentRows(p, t);
    var d := Blocks(news);
    DescentFacts(p, t);
    WithoutApart(rows, p);
    forall i | 0 <= i < |news| ensures news[i].block !in Blocks(w) {
      assert d[i] == news[i].block && SubnetOf(d[i], p);
      forall k | 0 <= k < |w| ensures w[k].block != news[i].block {
        assert Disjoint(w[k].block, p);
      }
    }
    forall i, j | 0 <= i < j < |news| ensures news[i].block != news[j].block {
      assert Disjoint(d[i], d[j]);
    }
    InsertAllFresh(w, news);
  }

  lemma ConservationDisjoint(w: seq<AvailableRow>, news: seq<AvailableRow>, p: Cidr, a: Cidr)
    requires DisjointRows(w)
    requires forall i :: 0 <= i < |w| ==> Disjoint(w[i].block, p)
    requires SubnetOf(a, p)
    requires forall i :: 0 <= i < |news| ==> SubnetOf(news[i].block, p) && Disjoint(a, news[i].block)
    requires forall i, j :: 0 <= i < j < |news| ==> Disjoint(news[i].block, news[j].block)
    ensures DisjointRows(w + news)
    ensures forall i :: 0 <= i < |w + news| ==> Disjoint((w + news)[i].block, a)
  {
    var s := w + news;
    var n := |w|;
    forall i, j | 0 <= i < j < |s| ensures Disjoint(s[i].block, s[j].block) {
      if j < n {
        assert s[i] == w[i] && s[j] == w[j];
      } else if i < n {
        assert s[i] == w[i] && s[j] == news[j - n];
        DisjointInside(news[j - n].block, p, w[i].block);
      } else {
        assert s[i] == news[i - n] && s[j] == news[j - n];
      }
    }
    forall i | 0 <= i < |s| ensures Disjoint(s[i].block, a) {
      if i < n {
        assert s[i] == w[i];
        DisjointInside(a, p, w[i].block);
      } else {
        assert s[i] == news[i - n];
      }
    }
  }

  class NormalAllocator {
    const db: Store

    constructor (db: Store)
      ensures this.db == db
    {
      this.db := db;
    }

    /** allocate(project, host_vpc, required_prefix, user), with the response's
        remaining_subnets corrected to be empty on an exact fit, where the
        source reads an unbound `subnets` (AllocateAsWritten). */
    method Allocate(project: string, hostVpc: string, requiredPrefix: int, user: string)
      returns (r: Result<NormalAllocation, NormalError>)
      modifies db
      ensures Chosen(old(db.Available(Normal)), requiredPrefix).None? ==>
                r == Err(NoAvailableCidr) &&
                db.Available(Normal) == old(db.Available(Normal)) &&
                db.Allocated(Normal) == old(db.Allocated(Normal))
      ensures Chosen(old(db.Available(Normal)), requiredPrefix).Some? ==>
                var p := Chosen(old(db.Available(Normal)), requiredPrefix).value;
                var t := Min(requiredPrefix, Width);
                r == Ok(NormalAllocation(project, hostVpc, Low(p, t), Remaining(p, requiredPrefix))) &&
                db.Available(Normal) == PoolAfter(old(db.Available(Normal)), p, t) &&
                db.Allocated(Normal) ==
                  old(db.Allocated(Normal)) + [AllocationRecord(project, hostVpc, Low(p, t), Subnet, user, Some(p))]
      ensures db.Available(Kubernetes) == old(db.Available(Kubernetes))
      ensures db.Allocated(Kubernetes) == old(db.Allocated(Kubernetes))
    {
      var available := db.GetAvailableCidrs(Normal);
      var parentCidr := FindAvailableCidr(available, requiredPrefix);
      if parentCidr.None? {
        return Err(NoAvailableCidr);
      }
      var parent := parentCidr.value;
      db.RemoveAvailableCidr(Normal, parent);
      var allocatedCidr, subnets := Descend(parent, requiredPrefix);
      db.InsertAllocated(Normal, AllocationRecord(project, hostVpc, allocatedCidr, Subnet, user, Some(parent)));
      var remaining := match subnets
        case None => []
        case Some(s) => s[1..];
      return Ok(NormalAllocation(project, hostVpc, allocatedCidr, remaining));
    }

    /** allocate as written: on an exact fit the loop never binds `subnets`,
        so building the response raises UnboundLocalError after the parent
        was removed and the record written; otherwise it is Allocate. */
    method AllocateAsWritten(project: string, hostVpc: string, requiredPrefix: int, user: string)
      returns (r: Result<NormalAllocation, NormalError>)
      modifies db
      ensures Chosen(old(db.Available(Normal)), requiredPrefix).None? ==>
                r == Err(NoAvailableCidr) &&
                db.Available(Normal) == old(db.Available(Normal)) &&
                db.Allocated(Normal) == old(db.Allocated(Normal))
      ensures Chosen(old(db.Available(Normal)), requiredPrefix).Some? ==>
                var p := Chosen(old(db.Available(Normal)), requiredPrefix).value;
                var t := Min(requiredPrefix, Width);
                (p.prefix == requiredPrefix ==> r == Err(UnboundSubnets)) &&
                (p.prefix < requiredPrefix ==>
                   r == Ok(NormalAllocation(project, hostVpc, Low(p, t), Remaining(p, requiredPrefix)))) &&
                db.Available(Normal) == PoolAfter(old(db.Available(Normal)), p, t) &&
                db.Allocated(Normal) ==
                  old(db.Allocated(Normal)) + [AllocationRecord(project, hostVpc, Low(p, t), Subnet, user, Some(p))]
      ensures db.Available(Kubernetes) == old(db.Available(Kubernetes))
      ensures db.Allocated(Kubernetes) == old(db.Allocated(Kubernetes))
    {
      var available := db.GetAvailableCidrs(Normal);
      var parentCidr := FindAvailableCidr(available, requiredPrefix);
      if parentCidr.None? {
        return Err(NoAvailableCidr);
      }
      var parent := parentCidr.value;
      db.RemoveAvailableCidr(Normal, parent);
      var allocatedCidr, subnets := Descend(parent, requiredPrefix);
      db.InsertAllocated(Normal, AllocationRecord(project, hostVpc, allocatedCidr, Subnet, user, Some(parent)));
      if subnets.None? {
        return Err(UnboundSubnets);
      }
      return Ok(NormalAllocation(project, hostVpc, allocatedCidr, subnets.value[1..]));
    }

    /** The split loop of allocate, once the parent is removed: split the
        current block, stop at the required prefix, otherwise descend into
        the low half; every step returns the unused half to the pool, tagged
        with the block just split. Also returns the last value of `subnets`. */
    method Descend(parent: Cidr, requiredPrefix: int) returns (allocatedCidr: Cidr, subnets: Option<seq<Cidr>>)
      requires parent.prefix <= requiredPrefix
      modifies db
      ensures allocatedCidr == Low(parent, Min(requiredPrefix, Width))
      ensures subnets == LastSplit(parent, requiredPrefix)
      ensures db.Available(Normal) ==
                InsertAll(old(db.Available(Normal)), DescentRows(parent, Min(requiredPrefix, Width)))
      ensures db.Allocated(Normal) == old(db.Allocated(Normal))
      ensures db.Available(Kubernetes) == old(db.Available(Kubernetes))
      ensures db.Allocated(Kubernetes) == old(db.Allocated(Kubernetes))
    {
      ghost var base := db.Available(Normal);
      var depth := requiredPrefix - parent.prefix;
      var current := parent;
      var taken: Option<Cidr> := None;
      subnets := None;
      var step := 0;
      LowSelf(parent);
      while step < depth
        invariant 0 <= step <= depth
        invariant current == Low(parent, Min(parent.prefix + step, Width))
        invariant taken.None?
        invariant subnets == LastSplit(parent, parent.prefix + step)
        invariant db.Available(Normal) == InsertAll(base, DescentRows(parent, Min(parent.prefix + step, Width)))
        invariant db.Allocated(Normal) == old(db.Allocated(Normal))
        invariant db.Available(Kubernetes) == old(db.Available(Kubernetes))
        invariant db.Allocated(Kubernetes) == old(db.Allocated(Kubernetes))
        decreases depth - step
      {
        ghost var k := Min(parent.prefix + step, Width);
        var parts := Bisect(current);
        subnets := Some(parts);
        var candidate := parts[0];
        DescentStep(parent, base, k);
        if candidate.prefix == requiredPrefix {
          taken := Some(candidate);
          InsertEachAvailable(db, Normal, parts[1..], Some(current));
          DescentStop(parent, requiredPrefix, step);
          break;
        } else {
          InsertEachAvailable(db, Normal, parts[1..], Some(current));
          current := candidate;
        }
        step := step + 1;
      }
      allocatedCidr := if taken.Some? then taken.value else current;
    }
  }
}
