/** The helpers of logic/cidr_utils.py: split_cidr, find_available_cidr, the
    live hierarchical_split, and the commented-out single-path
    hierarchical_split and validate_cidr_hierarchy. */
module CidrUtils {
  import opened Arith
  import opened Wrappers
  import opened CidrBlock

  /** The ValueErrors that splitting raises. */
  datatype SplitError =
    | NewPrefixShorter         // subnets(new_prefix=n) with n shorter than the block's prefix
    | NewPrefixTooLong         // subnets(new_prefix=n) with n beyond 32
    | TargetShorterThanParent  // hierarchical_split with the parent's prefix beyond the target

  function Min(a: int, b: int): int {
    if a <= b then a else b
  }

  /** split_cidr(parent, n), that is network.subnets(new_prefix=n). A /32 yields
      itself whatever n is; otherwise n must lie between the block's prefix
      and 32. */
  function SplitCidr(p: Cidr, n: int): (r: Result<seq<Cidr>, SplitError>)
    ensures r.Ok? <==> p.prefix == Width || p.prefix <= n <= Width
    ensures r.Err? ==> r.error == (if n < p.prefix then NewPrefixShorter else NewPrefixTooLong)
    ensures r.Ok? && p.prefix < Width ==>
              |r.value| == Pow2(n - p.prefix) &&
              forall i :: 0 <= i < |r.value| ==> r.value[i].prefix == n
    ensures p.prefix == Width ==> r == Ok([p])
  {
    if p.prefix == Width then Ok([p])
    else if n < p.prefix then Err(NewPrefixShorter)
    else if n > Width then Err(NewPrefixTooLong)
    else Ok(Subnets(p, n))
  }

  /** Whatever split_cidr yields is in ascending address order and partitions
      the block. */
  lemma SplitCidrPartition(p: Cidr, n: int)
    ensures SplitCidr(p, n).Ok? ==> Ascending(SplitCidr(p, n).value) && Partition(SplitCidr(p, n).value, p)
  {
    if p.prefix == Width {
      PartitionSingleton(p);
    } else if p.prefix <= n <= Width {
      SubnetsPartition(p, n);
    }
  }

  /** Within the address width, split_cidr gives exactly the children. */
  lemma SplitCidrIsSubnets(p: Cidr, n: nat)
    requires p.prefix <= n <= Width
    ensures SplitCidr(p, n) == Ok(Subnets(p, n))
  {
    if p.prefix == Width {
      SubnetsSelf(p);
    }
  }

  /** What a selector asks of an available block. */
  datatype Criterion =
    | PrefixAtMost(n: int)  // network.prefixlen <= n
    | Contains(c: Cidr)     // the requested c is a subnet of the block

  predicate Meets(b: Cidr, q: Criterion) {
    match q
    case PrefixAtMost(n) => b.prefix <= n
    case Contains(c) => SubnetOf(c, b)
  }

  /** The position of the first block that meets the criterion. */
  function FirstIndex(s: seq<Cidr>, q: Criterion): (r: Option<nat>)
    ensures r.Some? ==> r.value < |s| && Meets(s[r.value], q)
    ensures r.Some? ==> forall j :: 0 <= j < r.value ==> !Meets(s[j], q)
    ensures r.None? <==> forall i :: 0 <= i < |s| ==> !Meets(s[i], q)
  {
    if s == [] then None
    else if Meets(s[0], q) then Some(0)
    else match FirstIndex(s[1..], q)
      case None => None
      case Some(k) =>
        assert forall j :: 1 <= j < k + 1 ==> s[j] == s[1..][j - 1];
        Some(k + 1)
  }

  /** A position that meets the criterion after none did is the first one. */
  lemma FirstIndexAt(s: seq<Cidr>, q: Criterion, k: nat)
    requires k < |s| && Meets(s[k], q)
    requires forall j :: 0 <= j < k ==> !Meets(s[j], q)
    ensures FirstIndex(s, q) == Some(k)
  {
  }

  /** The first block that meets the criterion, if any. */
  function FirstOf(s: seq<Cidr>, q: Criterion): (r: Option<Cidr>)
    ensures r.None? <==> forall i :: 0 <= i < |s| ==> !Meets(s[i], q)
    ensures r.Some? ==> exists k :: 0 <= k < |s| && s[k] == r.value && FirstIndex(s, q) == Some(k)
  {
    match FirstIndex(s, q)
    case None => None
    case Some(k) => Some(s[k])
  }

  /** find_available_cidr: the first block of the list whose prefix is at most
      the required one, or None. */
  method FindAvailableCidr(available: seq<Cidr>, requiredPrefix: int) returns (r: Option<Cidr>)
    ensures r == FirstOf(available, PrefixAtMost(requiredPrefix))
  {
    var i := 0;
    while i < |available|
      invariant 0 <= i <= |available|
      invariant forall j :: 0 <= j < i ==> !Meets(available[j], PrefixAtMost(requiredPrefix))
    {
      if available[i].prefix <= requiredPrefix {
        FirstIndexAt(available, PrefixAtMost(requiredPrefix), i);
        return Some(available[i]);
      }
      i := i + 1;
    }
    return None;
  }

  /** How many blocks one block splits into at the next prefix: two, or
      itself alone once the prefix is 32. */
  function Fan(k: int): nat {
    if k < Width then 2 else 1
  }

  /** Level k of the split tree of p: the children of p at prefix k. Past
      prefix 32 every level repeats the /32 level, since a /32 splits into
      itself. */
  function Level(p: Cidr, k: int): (r: seq<Cidr>)
    requires p.prefix <= k
    ensures |r| == Pow2(Min(k, Width) - p.prefix)
  {
    Subnets(p, Min(k, Width))
  }

  /** Levels p.prefix up to k - 1, one after the other. */
  function LevelsBelow(p: Cidr, k: int): seq<Cidr>
    requires p.prefix <= k
    decreases k - p.prefix
  {
    if k == p.prefix then [] else LevelsBelow(p, k - 1) + Level(p, k - 1)
  }

  /** The result of the live hierarchical_split(p, t): every level of the
      binary split tree from p down to prefix t, the parent first. */
  function SplitTree(p: Cidr, t: int): seq<Cidr>
    requires p.prefix <= t
  {
    LevelsBelow(p, t) + Level(p, t)
  }

  /** Child j of the i-th child of p is child 2i + j of p one prefix further. */
  lemma ChildOfChild(p: Cidr, k: nat, i: nat, j: nat)
    requires p.prefix <= k < Width && i < Pow2(k - p.prefix) && j < 2
    ensures 2 * i + j < Pow2(k + 1 - p.prefix)
    ensures Child(Child(p, k, i), k + 1, j) == Child(p, k + 1, 2 * i + j)
  {
    var kk := Pow2(k - p.prefix);
    assert Pow2(k + 1 - p.prefix) == kk * 2;
    MulLt(i, kk, 2);
    MulDistrib(p.net, kk, i, 2);
  }

  /** Splitting block i of level k one prefix further gives the matching slice
      of level k + 1. */
  lemma LevelStep(p: Cidr, k: int, i: nat)
    requires p.prefix <= k && i < |Level(p, k)|
    ensures |Level(p, k + 1)| == Fan(k) * |Level(p, k)|
    ensures (Fan(k) * i + Fan(k)) <= |Level(p, k + 1)|
    ensures SplitCidr(Level(p, k)[i], k + 1) == Ok(Level(p, k + 1)[Fan(k) * i .. Fan(k) * i + Fan(k)])
  {
    if k < Width {
      LevelStepWithin(p, k, i);
    } else {
      assert Level(p, k + 1) == Level(p, k);
      assert Level(p, k)[i].prefix == Width;
      assert Level(p, k + 1)[i .. i + 1] == [Level(p, k)[i]];
    }
  }

  lemma LevelStepWithin(p: Cidr, k: nat, i: nat)
    requires p.prefix <= k < Width && i < Pow2(k - p.prefix)
    ensures |Level(p, k + 1)| == 2 * Pow2(k - p.prefix)
    ensures SplitCidr(Level(p, k)[i], k + 1) == Ok(Level(p, k + 1)[2 * i .. 2 * i + 2])
  {
    assert Min(k, Width) == k && Min(k + 1, Width) == k + 1;
    var c := Child(p, k, i);
    assert Level(p, k)[i] == c;
    SplitCidrIsSubnets(c, k + 1);
    var pair := Subnets(c, k + 1);
    var next := Level(p, k + 1);
    assert |pair| == 2;
    ChildOfChild(p, k, i, 0);
    ChildOfChild(p, k, i, 1);
    assert pair[0] == next[2 * i];
    assert pair[1] == next[2 * i + 1];
    assert pair == next[2 * i .. 2 * i + 2];
  }

  lemma {:induction false} LevelsBelowFirst(p: Cidr, k: int)
    requires p.prefix < k
    ensures |LevelsBelow(p, k)| > 0 && LevelsBelow(p, k)[0] == p
    decreases k - p.prefix
  {
    if k - 1 == p.prefix {
      SubnetsSelf(p);
      assert LevelsBelow(p, k) == [] + Level(p, p.prefix);
    } else {
      LevelsBelowFirst(p, k - 1);
    }
  }

  lemma {:induction false} LevelsBelowLength(p: Cidr, k: int)
    requires p.prefix <= k
    ensures k <= Width ==> |LevelsBelow(p, k)| == Pow2(k - p.prefix) - 1
    ensures k > Width ==>
              |LevelsBelow(p, k)| == Pow2(Width - p.prefix) - 1 + (k - Width) * Pow2(Width - p.prefix)
    decreases k - p.prefix
  {
    if k > p.prefix {
      LevelsBelowLength(p, k - 1);
      var q := Pow2(Width - p.prefix);
      assert |LevelsBelow(p, k)| == |LevelsBelow(p, k - 1)| + |Level(p, k - 1)|;
      if k - 1 > Width {
        assert |Level(p, k - 1)| == q;
        MulSucc(k - 1 - Width, q);
      } else if k - 1 == Width {
        assert |Level(p, k - 1)| == q;
        assert (k - Width) * q == q;
      } else {
        assert |Level(p, k - 1)| == Pow2(k - 1 - p.prefix);
        assert Pow2(k - p.prefix) == 2 * Pow2(k - 1 - p.prefix);
      }
    }
  }

  lemma {:induction false} LevelsBelowInside(p: Cidr, k: int)
    requires p.prefix <= k
    ensures forall i :: 0 <= i < |LevelsBelow(p, k)| ==> SubnetOf(LevelsBelow(p, k)[i], p)
    decreases k - p.prefix
  {
    if k > p.prefix {
      LevelsBelowInside(p, k - 1);
      LevelInside(p, k - 1);
    }
  }

  lemma LevelInside(p: Cidr, k: int)
    requires p.prefix <= k
    ensures forall i :: 0 <= i < |Level(p, k)| ==> SubnetOf(Level(p, k)[i], p)
  {
    SubnetsPartition(p, Min(k, Width));
  }

  /** The live splitter returns the parent as its first entry. */
  lemma SplitTreeFirst(p: Cidr, t: int)
    requires p.prefix <= t
    ensures |SplitTree(p, t)| > 0 && SplitTree(p, t)[0] == p
  {
    if t == p.prefix {
      SubnetsSelf(p);
    } else {
      LevelsBelowFirst(p, t);
    }
  }

  /** For d = t - p.prefix within the address width, the live splitter returns
      2^(d+1) - 1 blocks, and its last 2^d entries are split_cidr(p, t). */
  lemma SplitTreeShape(p: Cidr, t: int)
    requires p.prefix <= t <= Width
    ensures |SplitTree(p, t)| == 2 * Pow2(t - p.prefix) - 1
    ensures SplitCidr(p, t) == Ok(SplitTree(p, t)[|SplitTree(p, t)| - Pow2(t - p.prefix)..])
  {
    LevelsBelowLength(p, t);
    SplitCidrIsSubnets(p, t);
    var s := SplitTree(p, t);
    assert s[|LevelsBelow(p, t)|..] == Level(p, t);
  }

  /** Every entry of the live splitter's result lies inside the parent. */
  lemma SplitTreeInside(p: Cidr, t: int)
    requires p.prefix <= t
    ensures forall i :: 0 <= i < |SplitTree(p, t)| ==> SubnetOf(SplitTree(p, t)[i], p)
  {
    LevelsBelowInside(p, t);
    LevelInside(p, t);
    var s := SplitTree(p, t);
    var n := |LevelsBelow(p, t)|;
    forall i | 0 <= i < |s| ensures SubnetOf(s[i], p) {
      if i < n {
        assert s[i] == LevelsBelow(p, t)[i];
      } else {
        assert s[i] == Level(p, t)[i - n];
      }
    }
  }

  /** hierarchical_split(p, t) as a value: a ValueError when p is narrower
      than the target, the split tree otherwise. */
  function HierarchicalSplitOf(p: Cidr, t: int): (r: Result<seq<Cidr>, SplitError>)
    ensures r.Err? <==> p.prefix > t
    ensures r.Err? ==> r.error == TargetShorterThanParent
    ensures r.Ok? ==> |r.value| > 0 && r.value[0] == p
  {
    if p.prefix > t then
      Err(TargetShorterThanParent)
    else
      SplitTreeFirst(p, t);
      Ok(SplitTree(p, t))
  }

  /** The first i blocks of level k, each split one prefix further. */
  ghost function SplitSoFar(p: Cidr, k: int, i: nat): seq<Cidr>
    requires p.prefix <= k && i <= |Level(p, k)|
  {
    LevelStep(p, k, 0);
    MulLe(i, |Level(p, k)|, Fan(k));
    Level(p, k + 1)[..Fan(k) * i]
  }

  lemma SplitSoFarStep(p: Cidr, k: int, i: nat)
    requires p.prefix <= k && i < |Level(p, k)|
    ensures SplitCidr(Level(p, k)[i], k + 1).Ok?
    ensures SplitSoFar(p, k, i) + SplitCidr(Level(p, k)[i], k + 1).value == SplitSoFar(p, k, i + 1)
  {
    LevelStep(p, k, i);
    var f, lv := Fan(k), Level(p, k + 1);
    MulSucc(i, f);
    assert lv[..f * i] + lv[f * i .. f * i + f] == lv[..f * i + f];
  }

  lemma SplitSoFarAll(p: Cidr, k: int)
    requires p.prefix <= k
    ensures SplitSoFar(p, k, |Level(p, k)|) == Level(p, k + 1)
  {
    LevelStep(p, k, 0);
  }

  /** The live hierarchical_split: each round splits every block of the
      current level into the next one and appends the current level to the
      output; the last level is appended at the end. */
  method HierarchicalSplit(p: Cidr, target: int) returns (r: Result<seq<Cidr>, SplitError>)
    ensures r == HierarchicalSplitOf(p, target)
  {
    if p.prefix > target {
      return Err(TargetShorterThanParent);
    }
    var all: seq<Cidr> := [];
    var current: seq<Cidr> := [p];
    var cp: int := p.prefix;
    SubnetsSelf(p);
    while cp < target
      invariant p.prefix <= cp <= target
      invariant current == Level(p, cp)
      invariant all == LevelsBelow(p, cp)
      decreases target - cp
    {
      var next: seq<Cidr> := [];
      var i := 0;
      while i < |current|
        invariant 0 <= i <= |current|
        invariant next == SplitSoFar(p, cp, i)
      {
        SplitSoFarStep(p, cp, i);
        var parts := SplitCidr(current[i], cp + 1);
        next := next + parts.value;
        i := i + 1;
      }
      SplitSoFarAll(p, cp);
      all := all + current;
      current := next;
      cp := cp + 1;
    }
    all := all + current;
    return Ok(all);
  }

  /** What the commented-out single-path hierarchical_split returns for
      p.prefix <= t: the parent itself when no split is needed, otherwise the
      two halves of the low block one prefix above the target (a single /32
      once the target is beyond 32). */
  function SinglePath(p: Cidr, t: int): (r: seq<Cidr>)
    requires p.prefix <= t
    ensures |r| > 0 && r[0] == Low(p, Min(t, Width))
  {
    if t == p.prefix then
      LowSelf(p);
      [p]
    else if t <= Width then
      HalveLow(p, t - 1);
      Halve(Low(p, t - 1))
    else
      [Low(p, Width)]
  }

  lemma SinglePathStep(p: Cidr, k: int)
    requires p.prefix <= k
    ensures SplitCidr(SinglePath(p, k)[0], k + 1) == Ok(SinglePath(p, k + 1))
  {
    if k < Width {
      SplitCidrIsSubnets(Low(p, k), k + 1);
    }
  }

  /** The commented-out single-path hierarchical_split: each round keeps only
      the split of the first block. */
  method SinglePathSplit(p: Cidr, target: int) returns (r: Result<seq<Cidr>, SplitError>)
    ensures p.prefix > target ==> r == Err(TargetShorterThanParent)
    ensures p.prefix <= target ==> r == Ok(SinglePath(p, target))
  {
    if p.prefix > target {
      return Err(TargetShorterThanParent);
    }
    var subnets: seq<Cidr> := [p];
    var cp: int := p.prefix;
    while cp < target
      invariant p.prefix <= cp <= target
      invariant subnets == SinglePath(p, cp)
      decreases target - cp
    {
      SinglePathStep(p, cp);
      var parts := SplitCidr(subnets[0], cp + 1);
      subnets := parts.value;
      cp := cp + 1;
    }
    return Ok(subnets);
  }

  /** Below the address width the single-path variant gives two halves at the
      target prefix: the first has the parent's base address, both lie inside
      the parent, and together they make up the block one prefix up. */
  lemma SinglePathHalves(p: Cidr, t: nat)
    requires p.prefix < t <= Width
    ensures |SinglePath(p, t)| == 2
    ensures SinglePath(p, t)[0].prefix == t && SinglePath(p, t)[1].prefix == t
    ensures Base(SinglePath(p, t)[0]) == Base(p)
    ensures SubnetOf(SinglePath(p, t)[0], p) && SubnetOf(SinglePath(p, t)[1], p)
    ensures Partition(SinglePath(p, t), Low(p, t - 1))
  {
    var h := Halve(Low(p, t - 1));
    HalvePartition(Low(p, t - 1));
    LowFacts(p, t - 1);
    LowFacts(Low(p, t - 1), t);
    assert SubnetOf(h[0], Low(p, t - 1)) && SubnetOf(h[1], Low(p, t - 1));
    SubnetOfTransitive(h[0], Low(p, t - 1), p);
    SubnetOfTransitive(h[1], Low(p, t - 1), p);
  }

  /** validate_cidr_hierarchy(parent, child): child.subnet_of(parent), which
      holds exactly when every address of the child is one of the parent. */
  function ValidateCidrHierarchy(parent: Cidr, child: Cidr): (r: bool)
    ensures r <==> forall a :: Holds(child, a) ==> Holds(parent, a)
  {
    SubnetOfMeansAddresses(child, parent);
    SubnetOf(child, parent)
  }

  /** Every block passes the hierarchy check against itself, and two blocks
      that pass it both ways are the same block. */
  lemma ValidateCidrHierarchyOrder(x: Cidr, y: Cidr)
    ensures ValidateCidrHierarchy(x, x)
    ensures ValidateCidrHierarchy(x, y) && ValidateCidrHierarchy(y, x) ==> x == y
  {
    if SubnetOf(x, y) && SubnetOf(y, x) {
      SubnetOfPrefix(x, y);
      SubnetOfPrefix(y, x);
      SamePrefixSameBase(x, y);
    }
  }
}
