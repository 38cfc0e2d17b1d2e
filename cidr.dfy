/** IPv4 CIDR blocks as values, in prefix notation (section 3.1 of RFC 4632),
    with the containment, disjointness, capacity and subdivision operations
    that the allocator borrows from Python's ipaddress module.

    A block is identified by its prefix length and its network number, the
    leading `prefix` bits of its base address. The base address is the network
    number followed by 32 - prefix zero bits, so the host bits of the base are
    zero by construction: 10.0.0.0/16 is Block(0x0A00, 16). */
module CidrBlock {
  import opened Arith

  /** Address width of IPv4. */
  const Width: nat := 32

  /** Number of IPv4 addresses. */
  const AddressSpace: nat := 0x1_0000_0000

  lemma AddressSpaceIsPow2()
    ensures Pow2(Width) == AddressSpace
  {
    assert Pow2(8) == 0x100;
    assert Pow2(16) == 0x1_0000;
    assert Pow2(24) == 0x100_0000;
  }

  /** Number of addresses in a block of the given prefix length. */
  function Size(prefix: nat): (r: nat)
    requires prefix <= Width
    ensures r >= 1
  {
    Pow2(Width - prefix)
  }

  lemma SizeHalf(p: nat)
    requires p < Width
    ensures Size(p) == 2 * Size(p + 1)
  {
  }

  lemma SizeScale(p: nat, n: nat)
    requires p <= n <= Width
    ensures Size(p) == Pow2(n - p) * Size(n)
  {
    Pow2Add(n - p, Width - n);
  }

  lemma SizeMonotone(p: nat, n: nat)
    requires p <= n <= Width
    ensures Size(n) <= Size(p)
  {
    Pow2Monotone(Width - n, Width - p);
  }

  datatype Block = Block(net: nat, prefix: nat) {
    /** The prefix fits the address width and the network number fits the prefix. */
    predicate WellFormed() {
      prefix <= Width && net < Pow2(prefix)
    }
  }

  /** A well-formed IPv4 network, what ipaddress.ip_network accepts with strict=True. */
  type Cidr = b: Block | b.WellFormed() witness Block(0, 0)

  /** Number of addresses in the block (its num_addresses). */
  function Capacity(b: Cidr): (r: nat)
    ensures r >= 1
  {
    Size(b.prefix)
  }

  /** The first address of the block (its network_address). */
  function Base(b: Cidr): nat {
    MulNonneg(b.net, Size(b.prefix));
    b.net * Size(b.prefix)
  }

  /** The last address of the block (its broadcast_address). */
  function Broadcast(b: Cidr): nat {
    Base(b) + Capacity(b) - 1
  }

  /** Every block lies inside the 32-bit address space. */
  lemma InAddressSpace(b: Cidr)
    ensures Base(b) + Capacity(b) <= AddressSpace
  {
    MulLt(b.net, Pow2(b.prefix), Size(b.prefix));
    SizeScale(0, b.prefix);
    AddressSpaceIsPow2();
  }

  /** Address a lies inside block b. */
  predicate Holds(b: Cidr, a: nat) {
    Base(b) <= a <= Broadcast(b)
  }

  /** c.subnet_of(p): the network and broadcast addresses of c lie inside p. */
  predicate SubnetOf(c: Cidr, p: Cidr) {
    Base(p) <= Base(c) && Broadcast(c) <= Broadcast(p)
  }

  /** The two blocks share no address. */
  predicate Disjoint(x: Cidr, y: Cidr) {
    Broadcast(x) < Base(y) || Broadcast(y) < Base(x)
  }

  /** Containment means every address of the child is an address of the parent. */
  lemma SubnetOfMeansAddresses(c: Cidr, p: Cidr)
    ensures SubnetOf(c, p) <==> forall a :: Holds(c, a) ==> Holds(p, a)
  {
    if forall a :: Holds(c, a) ==> Holds(p, a) {
      assert Holds(c, Base(c));
      assert Holds(c, Broadcast(c));
    }
  }

  /** Disjointness means no address is in both blocks. */
  lemma DisjointMeansNoCommonAddress(x: Cidr, y: Cidr)
    ensures Disjoint(x, y) <==> !exists a :: Holds(x, a) && Holds(y, a)
  {
    if !Disjoint(x, y) {
      var a := if Base(x) <= Base(y) then Base(y) else Base(x);
      assert Holds(x, a) && Holds(y, a);
    }
  }

  /** A containing block is at least as large, so its prefix is no longer. */
  lemma SubnetOfPrefix(c: Cidr, p: Cidr)
    requires SubnetOf(c, p)
    ensures p.prefix <= c.prefix
  {
    if c.prefix < p.prefix {
      SizeScale(c.prefix, p.prefix);
      Pow2Monotone(1, p.prefix - c.prefix);
      MulLe(2, Pow2(p.prefix - c.prefix), Size(p.prefix));
    }
  }

  /** Containment in prefix terms: the child's prefix is at least the parent's
      and the child's network number, shifted right by the difference, is the
      parent's network number (the child's base masked to the parent's prefix
      is the parent's base). */
  lemma SubnetOfByPrefix(c: Cidr, p: Cidr)
    ensures SubnetOf(c, p) <==>
              p.prefix <= c.prefix && Shr(c.net, c.prefix - p.prefix) == p.net
  {
    if SubnetOf(c, p) {
      SubnetOfPrefix(c, p);
      var k, t := Pow2(c.prefix - p.prefix), Size(c.prefix);
      SizeScale(p.prefix, c.prefix);
      MulCancelBracket(c.net, p.net, k, t);
      DivUnique(c.net, k, p.net);
    }
    if p.prefix <= c.prefix && Shr(c.net, c.prefix - p.prefix) == p.net {
      var k, t := Pow2(c.prefix - p.prefix), Size(c.prefix);
      SizeScale(p.prefix, c.prefix);
      DivBracket(c.net, k);
      MulBracket(c.net, p.net, k, t);
    }
  }

  lemma SubnetOfTransitive(x: Cidr, y: Cidr, z: Cidr)
    requires SubnetOf(x, y) && SubnetOf(y, z)
    ensures SubnetOf(x, z)
  {
  }

  /** A block inside x is disjoint from everything x is disjoint from. */
  lemma DisjointInside(c: Cidr, x: Cidr, y: Cidr)
    requires SubnetOf(c, x) && Disjoint(x, y)
    ensures Disjoint(c, y) && Disjoint(y, c)
  {
  }

  lemma EnclosingWellFormed(y: Cidr, q: nat)
    requires q <= y.prefix
    ensures Block(Shr(y.net, y.prefix - q), q).WellFormed()
  {
    var k := Pow2(y.prefix - q);
    Pow2Add(q, y.prefix - q);
    DivBracket(y.net, k);
    if y.net / k >= Pow2(q) {
      MulLe(Pow2(q), y.net / k, k);
    }
  }

  /** The block of prefix q that contains y (y.supernet(new_prefix=q)). */
  function Enclosing(y: Cidr, q: nat): (r: Cidr)
    requires q <= y.prefix
    ensures r.prefix == q && SubnetOf(y, r)
  {
    EnclosingWellFormed(y, q);
    var r: Cidr := Block(Shr(y.net, y.prefix - q), q);
    SubnetOfByPrefix(y, r);
    r
  }

  /** Two CIDR blocks are either nested or disjoint; they never overlap partially. */
  lemma NestedOrDisjoint(x: Cidr, y: Cidr)
    ensures SubnetOf(x, y) || SubnetOf(y, x) || Disjoint(x, y)
    decreases if x.prefix > y.prefix then 1 else 0
  {
    if x.prefix > y.prefix {
      NestedOrDisjoint(y, x);
    } else {
      var s := Size(x.prefix);
      var e := Enclosing(y, x.prefix);
      if e.net < x.net {
        MulLt(e.net, x.net, s);
      } else if e.net > x.net {
        MulLt(x.net, e.net, s);
      } else {
        assert e == x;
      }
    }
  }

  /** Total number of addresses in a list of blocks. */
  function TotalCapacity(s: seq<Cidr>): nat {
    if s == [] then 0 else Capacity(s[0]) + TotalCapacity(s[1..])
  }

  lemma {:induction false} TotalCapacityAppend(s: seq<Cidr>, t: seq<Cidr>)
    ensures TotalCapacity(s + t) == TotalCapacity(s) + TotalCapacity(t)
  {
    if s != [] {
      assert (s + t)[0] == s[0];
      assert (s + t)[1..] == s[1..] + t;
      TotalCapacityAppend(s[1..], t);
    } else {
      assert s + t == t;
    }
  }

  lemma TotalCapacityCons(x: Cidr, s: seq<Cidr>)
    ensures TotalCapacity([x] + s) == Capacity(x) + TotalCapacity(s)
  {
    assert ([x] + s)[0] == x && ([x] + s)[1..] == s;
  }

  lemma {:induction false} TotalCapacityUniform(s: seq<Cidr>, n: nat)
    requires n <= Width
    requires forall i :: 0 <= i < |s| ==> s[i].prefix == n
    ensures TotalCapacity(s) == |s| * Size(n)
  {
    if s != [] {
      var tail := s[1..];
      assert forall i :: 0 <= i < |tail| ==> tail[i] == s[i + 1];
      TotalCapacityUniform(tail, n);
      assert TotalCapacity(s) == Size(n) + |tail| * Size(n);
      MulSucc(|tail|, Size(n));
    }
  }

  /** The parts are pairwise disjoint, each lies inside the whole, together
      they hold every address of the whole, and their capacities add up to
      the capacity of the whole. */
  ghost predicate Partition(parts: seq<Cidr>, whole: Cidr) {
    && (forall i :: 0 <= i < |parts| ==> SubnetOf(parts[i], whole))
    && (forall i, j :: 0 <= i < j < |parts| ==> Disjoint(parts[i], parts[j]))
    && (forall a :: Holds(whole, a) ==> exists i :: 0 <= i < |parts| && Holds(parts[i], a))
    && TotalCapacity(parts) == Capacity(whole)
  }

  /** Each block ends before the next one starts. */
  predicate Ascending(s: seq<Cidr>) {
    forall i, j :: 0 <= i < j < |s| ==> Broadcast(s[i]) < Base(s[j])
  }

  /** A block is a partition of itself. */
  lemma PartitionSingleton(b: Cidr)
    ensures Partition([b], b)
  {
    assert [b][1..] == [];
    forall a | Holds(b, a) ensures exists i :: 0 <= i < 1 && Holds([b][i], a) {
      assert Holds([b][0], a);
    }
  }

  /** What a partition with a distinguished first part says about that part
      and the others. */
  lemma PartitionHead(x: Cidr, rest: seq<Cidr>, w: Cidr)
    requires Partition([x] + rest, w)
    ensures SubnetOf(x, w)
    ensures forall k :: 0 <= k < |rest| ==> SubnetOf(rest[k], w) && Disjoint(x, rest[k])
    ensures forall i, j :: 0 <= i < j < |rest| ==> Disjoint(rest[i], rest[j])
    ensures Capacity(x) + TotalCapacity(rest) == Capacity(w)
  {
    var s := [x] + rest;
    assert s[0] == x && s[1..] == rest;
    forall k | 0 <= k < |rest| ensures SubnetOf(rest[k], w) && Disjoint(x, rest[k]) {
      assert s[k + 1] == rest[k];
      assert SubnetOf(s[k + 1], w) && Disjoint(s[0], s[k + 1]);
    }
    forall i, j | 0 <= i < j < |rest| ensures Disjoint(rest[i], rest[j]) {
      assert s[i + 1] == rest[i] && s[j + 1] == rest[j];
      assert Disjoint(s[i + 1], s[j + 1]);
    }
  }

  /** Splitting the first part of a partition into two gives a partition again,
      with the low piece first and the high piece last. */
  lemma PartitionReplaceFirst(x: Cidr, rest: seq<Cidr>, w: Cidr, lo: Cidr, hi: Cidr)
    requires Partition([x] + rest, w) && Partition([lo, hi], x)
    ensures Partition([lo] + rest + [hi], w)
  {
    PartitionHead(x, rest, w);
    assert SubnetOf(lo, x) && SubnetOf(hi, x) && Disjoint(lo, hi) by {
      var q := [lo, hi];
      assert q[0] == lo && q[1] == hi;
      assert SubnetOf(q[0], x) && SubnetOf(q[1], x) && Disjoint(q[0], q[1]);
    }
    ReplaceInside(x, rest, w, lo, hi);
    ReplaceDisjoint(x, rest, lo, hi);
    ReplaceCovers(x, rest, w, lo, hi);
    ReplaceCapacity(x, rest, lo, hi);
  }

  lemma ReplaceInside(x: Cidr, rest: seq<Cidr>, w: Cidr, lo: Cidr, hi: Cidr)
    requires SubnetOf(x, w) && SubnetOf(lo, x) && SubnetOf(hi, x)
    requires forall k :: 0 <= k < |rest| ==> SubnetOf(rest[k], w)
    ensures forall i :: 0 <= i < |[lo] + rest + [hi]| ==> SubnetOf(([lo] + rest + [hi])[i], w)
  {
    var s := [lo] + rest + [hi];
    forall i | 0 <= i < |s| ensures SubnetOf(s[i], w) {
      if 0 < i < |s| - 1 {
        assert s[i] == rest[i - 1];
      }
    }
  }

  lemma ReplaceDisjoint(x: Cidr, rest: seq<Cidr>, lo: Cidr, hi: Cidr)
    requires SubnetOf(lo, x) && SubnetOf(hi, x) && Disjoint(lo, hi)
    requires forall k :: 0 <= k < |rest| ==> Disjoint(x, rest[k])
    requires forall i, j :: 0 <= i < j < |rest| ==> Disjoint(rest[i], rest[j])
    ensures forall i, j :: 0 <= i < j < |[lo] + rest + [hi]| ==>
              Disjoint(([lo] + rest + [hi])[i], ([lo] + rest + [hi])[j])
  {
    var s := [lo] + rest + [hi];
    var n := |s|;
    assert s[0] == lo && s[n - 1] == hi;
    forall i, j | 0 <= i < j < n ensures Disjoint(s[i], s[j]) {
      if i == 0 && j == n - 1 {
      } else if i == 0 {
        assert s[j] == rest[j - 1];
        DisjointInside(lo, x, rest[j - 1]);
      } else if j == n - 1 {
        assert s[i] == rest[i - 1];
        DisjointInside(hi, x, rest[i - 1]);
      } else {
        assert s[i] == rest[i - 1] && s[j] == rest[j - 1];
      }
    }
  }

  lemma ReplaceCovers(x: Cidr, rest: seq<Cidr>, w: Cidr, lo: Cidr, hi: Cidr)
    requires forall a :: Holds(w, a) ==> exists i :: 0 <= i < |[x] + rest| && Holds(([x] + rest)[i], a)
    requires forall a :: Holds(x, a) ==> exists i :: 0 <= i < |[lo, hi]| && Holds([lo, hi][i], a)
    ensures forall a :: Holds(w, a) ==>
              exists i :: 0 <= i < |[lo] + rest + [hi]| && Holds(([lo] + rest + [hi])[i], a)
  {
    var old_ := [x] + rest;
    var s := [lo] + rest + [hi];
    forall a | Holds(w, a) ensures exists i :: 0 <= i < |s| && Holds(s[i], a) {
      var k :| 0 <= k < |old_| && Holds(old_[k], a);
      if k == 0 {
        var m :| 0 <= m < 2 && Holds([lo, hi][m], a);
        if m == 0 {
          assert Holds(s[0], a);
        } else {
          assert Holds(s[|s| - 1], a);
        }
      } else {
        assert s[k] == old_[k];
        assert Holds(s[k], a);
      }
    }
  }

  lemma ReplaceCapacity(x: Cidr, rest: seq<Cidr>, lo: Cidr, hi: Cidr)
    requires TotalCapacity([lo, hi]) == Capacity(x)
    ensures TotalCapacity([lo] + rest + [hi]) == TotalCapacity([x] + rest)
  {
    assert [lo, hi] == [lo] + [hi];
    TotalCapacityAppend([lo], rest);
    TotalCapacityAppend([lo] + rest, [hi]);
    TotalCapacityAppend([lo], [hi]);
    TotalCapacityAppend([x], rest);
    assert [lo][1..] == [] && [hi][1..] == [] && [x][1..] == [];
  }

  lemma ChildWellFormed(p: Cidr, n: nat, i: nat)
    requires p.prefix <= n <= Width && i < Pow2(n - p.prefix)
    ensures Block(p.net * Pow2(n - p.prefix) + i, n).WellFormed()
  {
    var k := Pow2(n - p.prefix);
    MulLt(p.net, Pow2(p.prefix), k);
    Pow2Add(p.prefix, n - p.prefix);
  }

  /** The i-th of the 2^(n - p.prefix) children of p at prefix n. */
  function Child(p: Cidr, n: nat, i: nat): (r: Cidr)
    requires p.prefix <= n <= Width && i < Pow2(n - p.prefix)
    ensures r.prefix == n
  {
    ChildWellFormed(p, n, i);
    Block(p.net * Pow2(n - p.prefix) + i, n)
  }

  /** The i-th child starts i child sizes above the parent's base. */
  lemma ChildBase(p: Cidr, n: nat, i: nat)
    requires p.prefix <= n <= Width && i < Pow2(n - p.prefix)
    ensures Base(Child(p, n, i)) == Base(p) + i * Size(n)
  {
    var k, t := Pow2(n - p.prefix), Size(n);
    SizeScale(p.prefix, n);
    MulDistrib(p.net, k, i, t);
  }

  /** network.subnets(new_prefix=n): the children of p at prefix n in
      ascending address order. */
  function Subnets(p: Cidr, n: nat): (r: seq<Cidr>)
    requires p.prefix <= n <= Width
    ensures |r| == Pow2(n - p.prefix)
    ensures forall i :: 0 <= i < |r| ==> r[i].prefix == n
  {
    seq(Pow2(n - p.prefix), i requires 0 <= i < Pow2(n - p.prefix) => Child(p, n, i))
  }

  lemma SubnetsAscending(p: Cidr, n: nat, i: nat, j: nat)
    requires p.prefix <= n <= Width && i < j < Pow2(n - p.prefix)
    ensures Broadcast(Subnets(p, n)[i]) < Base(Subnets(p, n)[j])
  {
    var c, d := Subnets(p, n)[i], Subnets(p, n)[j];
    assert c == Child(p, n, i) && d == Child(p, n, j);
    ChildBase(p, n, i);
    ChildBase(p, n, j);
    var b, t := Base(p), Size(n);
    MulLt(i, j, t);
    assert Broadcast(c) == b + i * t + t - 1;
    assert Base(d) == b + j * t;
  }

  lemma SubnetsInside(p: Cidr, n: nat, i: nat)
    requires p.prefix <= n <= Width && i < Pow2(n - p.prefix)
    ensures SubnetOf(Subnets(p, n)[i], p)
  {
    ChildBase(p, n, i);
    SizeScale(p.prefix, n);
    MulLe(0, i, Size(n));
    MulLt(i, Pow2(n - p.prefix), Size(n));
  }

  lemma SubnetsCover(p: Cidr, n: nat, a: nat) returns (k: nat)
    requires p.prefix <= n <= Width && Holds(p, a)
    ensures k < |Subnets(p, n)| && Holds(Subnets(p, n)[k], a)
  {
    var sz, count := Size(n), Pow2(n - p.prefix);
    SizeScale(p.prefix, n);
    DivInRange(a - Base(p), sz, count);
    k := (a - Base(p)) / sz;
    ChildBase(p, n, k);
    var c := Subnets(p, n)[k];
    assert c == Child(p, n, k) && c.prefix == n;
    assert Base(c) == Base(p) + k * sz && Broadcast(c) == Base(c) + sz - 1;
  }

  /** The children are in ascending address order and partition the parent. */
  lemma SubnetsPartition(p: Cidr, n: nat)
    requires p.prefix <= n <= Width
    ensures Ascending(Subnets(p, n))
    ensures Partition(Subnets(p, n), p)
  {
    var s := Subnets(p, n);
    forall i, j | 0 <= i < j < |s| ensures Broadcast(s[i]) < Base(s[j]) {
      SubnetsAscending(p, n, i, j);
    }
    forall i | 0 <= i < |s| ensures SubnetOf(s[i], p) {
      SubnetsInside(p, n, i);
    }
    forall a | Holds(p, a) ensures exists i :: 0 <= i < |s| && Holds(s[i], a) {
      var k := SubnetsCover(p, n, a);
    }
    TotalCapacityUniform(s, n);
    SizeScale(p.prefix, n);
  }

  /** The low sub-block of p at prefix n: same base address, longer prefix. */
  function Low(p: Cidr, n: nat): (r: Cidr)
    requires p.prefix <= n <= Width
    ensures r.prefix == n
  {
    Child(p, n, 0)
  }

  /** The low sub-block starts where p starts and lies inside p. */
  lemma LowFacts(p: Cidr, n: nat)
    requires p.prefix <= n <= Width
    ensures Base(Low(p, n)) == Base(p) && SubnetOf(Low(p, n), p)
  {
    ChildBase(p, n, 0);
    SizeMonotone(p.prefix, n);
  }

  /** Blocks of equal prefix and equal base address are equal. */
  lemma SamePrefixSameBase(x: Cidr, y: Cidr)
    requires x.prefix == y.prefix && Base(x) == Base(y)
    ensures x == y
  {
    if x.net < y.net {
      MulLt(x.net, y.net, Size(x.prefix));
    } else if x.net > y.net {
      MulLt(y.net, x.net, Size(x.prefix));
    }
  }

  /** The low sub-block at the block's own prefix is the block. */
  lemma LowSelf(p: Cidr)
    ensures Low(p, p.prefix) == p
  {
    LowFacts(p, p.prefix);
    SamePrefixSameBase(Low(p, p.prefix), p);
  }

  /** Descending in two steps reaches the same low block as descending in one. */
  lemma LowLow(p: Cidr, a: nat, b: nat)
    requires p.prefix <= a <= b <= Width
    ensures Low(Low(p, a), b) == Low(p, b)
  {
    LowFacts(p, a);
    LowFacts(Low(p, a), b);
    LowFacts(p, b);
    SamePrefixSameBase(Low(Low(p, a), b), Low(p, b));
  }

  /** Splitting a block at its own prefix gives the block alone. */
  lemma SubnetsSelf(p: Cidr)
    ensures Subnets(p, p.prefix) == [p]
  {
    LowSelf(p);
    assert Subnets(p, p.prefix)[0] == Low(p, p.prefix);
  }

  /** network.subnets(): the low and the high half of a block. */
  function Halve(b: Cidr): (r: seq<Cidr>)
    requires b.prefix < Width
    ensures |r| == 2 && r[0] == Low(b, b.prefix + 1)
    ensures r[1].prefix == b.prefix + 1
  {
    Subnets(b, b.prefix + 1)
  }

  /** The two halves partition the block. */
  lemma HalvePartition(b: Cidr)
    requires b.prefix < Width
    ensures Partition(Halve(b), b)
  {
    SubnetsPartition(b, b.prefix + 1);
  }

  /** The high half of a block. */
  function High(b: Cidr): (r: Cidr)
    requires b.prefix < Width
    ensures r.prefix == b.prefix + 1
  {
    Halve(b)[1]
  }

  /** The high half starts one half-size above the block's base, lies inside
      the block and is disjoint from the low half. */
  lemma HighFacts(b: Cidr)
    requires b.prefix < Width
    ensures Base(High(b)) == Base(b) + Size(b.prefix + 1)
    ensures SubnetOf(High(b), b) && Disjoint(Low(b, b.prefix + 1), High(b))
  {
    ChildBase(b, b.prefix + 1, 1);
    var h := Halve(b);
    HalvePartition(b);
    assert SubnetOf(h[1], b) && Disjoint(h[0], h[1]);
  }

  /** The halves of the low block at prefix k are the low block at k + 1 and
      the high half. */
  lemma HalveLow(p: Cidr, k: nat)
    requires p.prefix <= k < Width
    ensures Halve(Low(p, k)) == [Low(p, k + 1), High(Low(p, k))]
  {
    LowLow(p, k, k + 1);
  }
}
