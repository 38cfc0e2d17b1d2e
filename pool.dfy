/** An in-memory stand-in for the database of db/db_conn.py. Each resource
    class has a table of available blocks, keyed by the block and tagged with
    the block it was split from, and a table of allocation records. */
module Pool {
  import opened Wrappers
  import opened CidrBlock

  /** cidr_type: 'kubernetes' selects the Kubernetes tables, anything else the
      normal ones. */
  datatype ResourceClass = Normal | Kubernetes

  /** The subnet_allocated_to column of an allocation record. */
  datatype Role = Subnet | Primary | Services | Pods | Gke | Vm

  /** A row of an available table. */
  datatype AvailableRow = AvailableRow(block: Cidr, parent: Option<Cidr>)

  /** A row of an allocated table. */
  datatype AllocationRecord = AllocationRecord(
    project: string, hostVpc: string, block: Cidr, role: Role, user: string, parent: Option<Cidr>)

  /** The cidr_range column of a table of available rows. */
  function Blocks(rows: seq<AvailableRow>): (r: seq<Cidr>)
    ensures |r| == |rows| && forall i :: 0 <= i < |rows| ==> r[i] == rows[i].block
  {
    seq(|rows|, i requires 0 <= i < |rows| => rows[i].block)
  }

  lemma BlocksAppend(x: seq<AvailableRow>, y: seq<AvailableRow>)
    ensures Blocks(x + y) == Blocks(x) + Blocks(y)
  {
  }

  /** Rows for the given blocks, all with the same parent tag. */
  function Tagged(blocks: seq<Cidr>, parent: Option<Cidr>): (r: seq<AvailableRow>)
    ensures Blocks(r) == blocks
    ensures forall i :: 0 <= i < |r| ==> r[i].parent == parent
  {
    seq(|blocks|, i requires 0 <= i < |blocks| => AvailableRow(blocks[i], parent))
  }

  /** DELETE ... WHERE cidr_range = b: every row for b goes, the others stay in
      order. */
  function Without(rows: seq<AvailableRow>, b: Cidr): (r: seq<AvailableRow>)
    ensures |r| <= |rows|
  {
    if rows == [] then []
    else (if rows[0].block == b then [] else [rows[0]]) + Without(rows[1..], b)
  }

  /** Exactly the rows for other blocks remain; nothing happens when b is not
      listed. */
  lemma {:induction false} WithoutMembers(rows: seq<AvailableRow>, b: Cidr)
    ensures forall x :: x in Without(rows, b) <==> x in rows && x.block != b
    ensures b !in Blocks(rows) ==> Without(rows, b) == rows
  {
    if rows != [] {
      var tail := rows[1..];
      var head := if rows[0].block == b then [] else [rows[0]];
      WithoutMembers(tail, b);
      assert Without(rows, b) == head + Without(tail, b);
      assert rows == [rows[0]] + tail;
      forall x ensures x in Without(rows, b) <==> x in rows && x.block != b {
        assert x in head + Without(tail, b) <==> x in head || x in Without(tail, b);
      }
      if b !in Blocks(rows) {
        assert rows[0].block != b;
        assert b !in Blocks(tail) by {
          assert forall i :: 0 <= i < |tail| ==> tail[i].block == Blocks(rows)[i + 1];
        }
      }
    }
  }

  /** INSERT ... ON DUPLICATE KEY UPDATE: a block that is already listed keeps
      its row, any other block is appended. */
  function Insert(rows: seq<AvailableRow>, row: AvailableRow): (r: seq<AvailableRow>)
    ensures |rows| <= |r| <= |rows| + 1 && r[..|rows|] == rows
  {
    if row.block in Blocks(rows) then rows else rows + [row]
  }

  /** After an insert the block is listed, along with everything listed before. */
  lemma InsertMembers(rows: seq<AvailableRow>, row: AvailableRow)
    ensures forall b :: b in Blocks(Insert(rows, row)) <==> b in Blocks(rows) || b == row.block
  {
    if row.block !in Blocks(rows) {
      BlocksAppend(rows, [row]);
      assert Blocks(rows + [row]) == Blocks(rows) + [row.block];
    }
  }

  /** Inserting the same row twice is inserting it once. */
  lemma InsertIdempotent(rows: seq<AvailableRow>, row: AvailableRow)
    ensures Insert(Insert(rows, row), row) == Insert(rows, row)
  {
    InsertMembers(rows, row);
  }

  /** Rows inserted one after the other, as the loops of insert_available do. */
  function InsertAll(rows: seq<AvailableRow>, news: seq<AvailableRow>): (r: seq<AvailableRow>)
    ensures |rows| <= |r| && r[..|rows|] == rows
    decreases |news|
  {
    if news == [] then rows
    else Insert(InsertAll(rows, news[..|news| - 1]), news[|news| - 1])
  }

  lemma {:induction false} InsertAllMembers(rows: seq<AvailableRow>, news: seq<AvailableRow>)
    ensures forall b :: b in Blocks(InsertAll(rows, news)) <==> b in Blocks(rows) || b in Blocks(news)
    decreases |news|
  {
    if news != [] {
      var front := news[..|news| - 1];
      InsertAllMembers(rows, front);
      InsertMembers(InsertAll(rows, front), news[|news| - 1]);
      assert news == front + [news[|news| - 1]];
      BlocksAppend(front, [news[|news| - 1]]);
      assert Blocks(news) == Blocks(front) + [news[|news| - 1].block];
    }
  }

  lemma {:induction false} InsertAllAppend(rows: seq<AvailableRow>, xs: seq<AvailableRow>, ys: seq<AvailableRow>)
    ensures InsertAll(rows, xs + ys) == InsertAll(InsertAll(rows, xs), ys)
    decreases |ys|
  {
    if ys == [] {
      assert xs + ys == xs;
    } else {
      var f := ys[..|ys| - 1];
      assert (xs + ys)[..|xs + ys| - 1] == xs + f;
      InsertAllAppend(rows, xs, f);
    }
  }

  /** Rows whose blocks are new to the table and distinct from each other are
      simply appended. */
  lemma {:induction false} InsertAllFresh(rows: seq<AvailableRow>, news: seq<AvailableRow>)
    requires forall i :: 0 <= i < |news| ==> news[i].block !in Blocks(rows)
    requires forall i, j :: 0 <= i < j < |news| ==> news[i].block != news[j].block
    ensures InsertAll(rows, news) == rows + news
    decreases |news|
  {
    if news == [] {
    } else {
      var f, last := news[..|news| - 1], news[|news| - 1];
      InsertAllFresh(rows, f);
      assert last.block !in Blocks(rows + f) by {
        BlocksAppend(rows, f);
        forall i | 0 <= i < |f| ensures Blocks(f)[i] != last.block {
          assert f[i] == news[i];
        }
      }
      assert rows + news == (rows + f) + [last];
    }
  }

  /** The blocks of the rows are pairwise disjoint (so also distinct). */
  predicate DisjointRows(rows: seq<AvailableRow>) {
    forall i, j :: 0 <= i < j < |rows| ==> Disjoint(rows[i].block, rows[j].block)
  }

  lemma DisjointRowsTail(rows: seq<AvailableRow>)
    requires DisjointRows(rows) && rows != []
    ensures DisjointRows(rows[1..])
    ensures forall i :: 0 <= i < |rows[1..]| ==> Disjoint(rows[0].block, rows[1..][i].block)
  {
    var tail := rows[1..];
    forall i, j | 0 <= i < j < |tail| ensures Disjoint(tail[i].block, tail[j].block) {
      assert Disjoint(rows[i + 1].block, rows[j + 1].block);
    }
    forall i | 0 <= i < |tail| ensures Disjoint(rows[0].block, tail[i].block) {
      assert Disjoint(rows[0].block, rows[i + 1].block);
    }
  }

  /** Removing a block keeps a disjoint table disjoint. */
  lemma {:induction false} WithoutDisjoint(rows: seq<AvailableRow>, b: Cidr)
    requires DisjointRows(rows)
    ensures DisjointRows(Without(rows, b))
  {
    if rows != [] {
      var tail := rows[1..];
      DisjointRowsTail(rows);
      WithoutDisjoint(tail, b);
      var w := Without(tail, b);
      if rows[0].block != b {
        var r := [rows[0]] + w;
        assert Without(rows, b) == r;
        forall i, j | 0 <= i < j < |r| ensures Disjoint(r[i].block, r[j].block) {
          if i == 0 {
            WithoutMembers(tail, b);
            assert r[j] == w[j - 1] && r[j] in tail;
            var m :| 0 <= m < |tail| && tail[m] == r[j];
          } else {
            assert r[i] == w[i - 1];
            assert r[j] == w[j - 1];
            assert Disjoint(w[i - 1].block, w[j - 1].block);
          }
        }
      }
    }
  }

  /** Removing a block listed once lowers the total capacity by the block's. */
  lemma {:induction false} WithoutCapacity(rows: seq<AvailableRow>, b: Cidr)
    requires DisjointRows(rows) && b in Blocks(rows)
    ensures TotalCapacity(Blocks(Without(rows, b))) + Capacity(b) == TotalCapacity(Blocks(rows))
  {
    var head, tail := rows[0], rows[1..];
    DisjointRowsTail(rows);
    assert rows == [head] + tail;
    BlocksAppend([head], tail);
    TotalCapacityCons(head.block, Blocks(tail));
    if head.block == b {
      assert b !in Blocks(tail) by {
        forall i | 0 <= i < |tail| ensures tail[i].block != b {
          assert rows[i + 1] == tail[i];
          assert Disjoint(rows[0].block, rows[i + 1].block);
        }
      }
      WithoutMembers(tail, b);
      assert Without(rows, b) == tail;
    } else {
      assert b in Blocks(tail) by {
        var k :| 0 <= k < |rows| && Blocks(rows)[k] == b;
        assert k > 0 && Blocks(tail)[k - 1] == b;
      }
      WithoutCapacity(tail, b);
      var w := Without(tail, b);
      assert Without(rows, b) == [head] + w;
      BlocksAppend([head], w);
      TotalCapacityCons(head.block, Blocks(w));
    }
  }

  /** What remains after removing a listed block is disjoint from it. */
  lemma WithoutApart(rows: seq<AvailableRow>, b: Cidr)
    requires DisjointRows(rows) && b in Blocks(rows)
    ensures forall i :: 0 <= i < |Without(rows, b)| ==> Disjoint(Without(rows, b)[i].block, b)
  {
    var w := Without(rows, b);
    var k :| 0 <= k < |rows| && rows[k].block == b;
    forall i | 0 <= i < |w| ensures Disjoint(w[i].block, b) {
      WithoutMembers(rows, b);
      assert w[i] in rows && w[i].block != b;
      var m :| 0 <= m < |rows| && rows[m] == w[i];
      assert m != k;
      if m < k {
        assert Disjoint(rows[m].block, rows[k].block);
      } else {
        assert Disjoint(rows[k].block, rows[m].block);
      }
    }
  }

  /** The pool of one resource class and the allocation records. Every method
      stands for one DatabaseConnection call, each committing on its own. */
  class Store {
    var availableNormal: seq<AvailableRow>
    var availableKubernetes: seq<AvailableRow>
    var allocatedNormal: seq<AllocationRecord>
    var allocatedKubernetes: seq<AllocationRecord>

    constructor (normal: seq<AvailableRow>, kubernetes: seq<AvailableRow>)
      ensures Available(Normal) == normal && Available(Kubernetes) == kubernetes
      ensures Allocated(Normal) == [] && Allocated(Kubernetes) == []
    {
      availableNormal := normal;
      availableKubernetes := kubernetes;
      allocatedNormal := [];
      allocatedKubernetes := [];
    }

    /** The available table of a resource class. */
    function Available(c: ResourceClass): seq<AvailableRow>
      reads this
    {
      match c
      case Normal => availableNormal
      case Kubernetes => availableKubernetes
    }

    /** The allocated table of a resource class. */
    function Allocated(c: ResourceClass): seq<AllocationRecord>
      reads this
    {
      match c
      case Normal => allocatedNormal
      case Kubernetes => allocatedKubernetes
    }

    /** get_available_cidrs: the blocks of the available table, in table order. */
    method GetAvailableCidrs(c: ResourceClass) returns (r: seq<Cidr>)
      ensures r == Blocks(Available(c))
    {
      r := Blocks(Available(c));
    }

    /** insert_allocated: appends one record to the allocated table. */
    method InsertAllocated(c: ResourceClass, record: AllocationRecord)
      modifies this
      ensures Allocated(c) == old(Allocated(c)) + [record]
      ensures forall d :: d != c ==> Allocated(d) == old(Allocated(d))
      ensures forall d :: Available(d) == old(Available(d))
    {
      match c
      case Normal => allocatedNormal := allocatedNormal + [record];
      case Kubernetes => allocatedKubernetes := allocatedKubernetes + [record];
    }

    /** remove_available_cidr: deletes the rows of the block, if any. */
    method RemoveAvailableCidr(c: ResourceClass, b: Cidr)
      modifies this
      ensures Available(c) == Without(old(Available(c)), b)
      ensures forall d :: d != c ==> Available(d) == old(Available(d))
      ensures forall d :: Allocated(d) == old(Allocated(d))
    {
      match c
      case Normal => availableNormal := Without(availableNormal, b);
      case Kubernetes => availableKubernetes := Without(availableKubernetes, b);
    }

    /** insert_available: adds the block unless it is already listed. */
    method InsertAvailable(c: ResourceClass, b: Cidr, parent: Option<Cidr>)
      modifies this
      ensures Available(c) == Insert(old(Available(c)), AvailableRow(b, parent))
      ensures forall d :: d != c ==> Available(d) == old(Available(d))
      ensures forall d :: Allocated(d) == old(Allocated(d))
    {
      match c
      case Normal => availableNormal := Insert(availableNormal, AvailableRow(b, parent));
      case Kubernetes => availableKubernetes := Insert(availableKubernetes, AvailableRow(b, parent));
    }
  }

  lemma TaggedSnoc(blocks: seq<Cidr>, i: nat, parent: Option<Cidr>)
    requires i < |blocks|
    ensures Tagged(blocks[..i + 1], parent) == Tagged(blocks[..i], parent) + [AvailableRow(blocks[i], parent)]
  {
  }

  /** A loop of insert_available calls over a list of blocks, all with the same
      parent tag. */
  method InsertEachAvailable(store: Store, c: ResourceClass, blocks: seq<Cidr>, parent: Option<Cidr>)
    modifies store
    ensures store.Available(c) == InsertAll(old(store.Available(c)), Tagged(blocks, parent))
    ensures forall d :: d != c ==> store.Available(d) == old(store.Available(d))
    ensures forall d :: store.Allocated(d) == old(store.Allocated(d))
  {
    var i := 0;
    while i < |blocks|
      invariant 0 <= i <= |blocks|
      invariant store.Available(c) == InsertAll(old(store.Available(c)), Tagged(blocks[..i], parent))
      invariant forall d :: d != c ==> store.Available(d) == old(store.Available(d))
      invariant forall d :: store.Allocated(d) == old(store.Allocated(d))
    {
      store.InsertAvailable(c, blocks[i], parent);
      TaggedSnoc(blocks, i, parent);
      InsertAllAppend(old(store.Available(c)), Tagged(blocks[..i], parent), [AvailableRow(blocks[i], parent)]);
      i := i + 1;
    }
    assert blocks[..i] == blocks;
  }
}
