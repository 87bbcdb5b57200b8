/** The read-only operations of dns_index.cc over the whole index: the
    record counts, check(), and unserialize's reading of the node table. */
module IndexReports {
  import opened Keys
  import opened Records
  import opened Slots
  import opened Wrappers
  import opened BlockSpec
  import opened BlockLemmas
  import opened BlockProps
  import opened IndexSpec
  import opened IndexOps

  // ---------------------------------------------------------------------
  // getNumberRecords / getNumberFreeRecords

  /** The used slots of the blocks of nodes ns, summed in node order. */
  function RecordsOver(store: map<U32, Block>, ns: seq<Node>): nat
    requires Sized(store)
    decreases |ns|
  {
    if ns == [] then 0
    else RecordsOver(store, ns[..|ns| - 1]) + UsedCount(BlockOf(store, ns[|ns| - 1].id))
  }

  /** A block's getNumFreeRecords: numBlocks minus its used slots. */
  function FreeOf(b: Block): (n: nat)
    requires |b| == NumSlots
    ensures n + UsedCount(b) == NumSlots
    ensures n == 0 <==> forall i :: 0 <= i < |b| ==> Used(b[i])
  {
    UsedCountBounds(b);
    NumSlots - UsedCount(b)
  }

  /** The free slots of the blocks of nodes ns, summed in node order. */
  function FreeOver(store: map<U32, Block>, ns: seq<Node>): nat
    requires Sized(store)
    decreases |ns|
  {
    if ns == [] then 0
    else FreeOver(store, ns[..|ns| - 1]) + FreeOf(BlockOf(store, ns[|ns| - 1].id))
  }

  /** getNumberRecords */
  function NumberRecords(db: Db): nat
    requires Sized(db.store)
  {
    RecordsOver(db.store, db.nodes)
  }

  /** getNumberFreeRecords */
  function NumberFreeRecords(db: Db): nat
    requires Sized(db.store)
  {
    FreeOver(db.store, db.nodes)
  }

  lemma {:induction false} CountsOver(store: map<U32, Block>, ns: seq<Node>)
    requires Sized(store)
    ensures RecordsOver(store, ns) + FreeOver(store, ns) == |ns| * NumSlots
    decreases |ns|
  {
    if ns != [] {
      CountsOver(store, ns[..|ns| - 1]);
      assert |ns| * NumSlots == (|ns| - 1) * NumSlots + NumSlots;
    }
  }

  /** Every slot of every node's block is counted once, as a record or as
      free: the two counts add up to numBlocks per node, so neither
      exceeds it. */
  lemma CountsTotal(db: Db)
    requires Sized(db.store)
    ensures NumberRecords(db) + NumberFreeRecords(db) == |db.nodes| * NumSlots
    ensures NumberRecords(db) <= |db.nodes| * NumSlots
  {
    CountsOver(db.store, db.nodes);
  }

  lemma {:induction false} RecordsConcat(store: map<U32, Block>, a: seq<Node>, b: seq<Node>)
    requires Sized(store)
    ensures RecordsOver(store, a + b) == RecordsOver(store, a) + RecordsOver(store, b)
    decreases |b|
  {
    if b == [] {
      assert a + b == a;
    } else {
      var b0 := b[..|b| - 1];
      assert (a + b)[..|a + b| - 1] == a + b0;
      assert (a + b)[|a + b| - 1] == b[|b| - 1];
      RecordsConcat(store, a, b0);
      assert RecordsOver(store, a + b) == RecordsOver(store, a + b0) + UsedCount(BlockOf(store, b[|b| - 1].id));
    }
  }

  /** The count depends only on the blocks the nodes name. */
  lemma {:induction false} RecordsSame(st: map<U32, Block>, st': map<U32, Block>, ns: seq<Node>)
    requires Sized(st) && Sized(st')
    requires forall i :: 0 <= i < |ns| ==> BlockOf(st', ns[i].id) == BlockOf(st, ns[i].id)
    ensures RecordsOver(st', ns) == RecordsOver(st, ns)
    decreases |ns|
  {
    if ns != [] {
      RecordsSame(st, st', ns[..|ns| - 1]);
    }
  }

  /** Rewriting a block no node of ns names leaves their count alone. */
  lemma RecordsSameExcept(st: map<U32, Block>, ns: seq<Node>, id: U32, b: Block)
    requires Sized(st) && |b| == NumSlots
    requires forall i :: 0 <= i < |ns| ==> ns[i].id != id
    ensures Sized(st[id := b])
    ensures RecordsOver(st[id := b], ns) == RecordsOver(st, ns)
  {
    RecordsSame(st, st[id := b], ns);
  }

  /** The count split around node n. */
  lemma RecordsAround(st: map<U32, Block>, ns: seq<Node>, n: nat)
    requires Sized(st) && n < |ns|
    ensures RecordsOver(st, ns)
      == RecordsOver(st, ns[..n]) + UsedCount(BlockOf(st, ns[n].id)) + RecordsOver(st, ns[n + 1..])
  {
    assert ns == ns[..n] + [ns[n]] + ns[n + 1..];
    RecordsConcat(st, ns[..n] + [ns[n]], ns[n + 1..]);
    RecordsConcat(st, ns[..n], [ns[n]]);
    assert [ns[n]][..0] == [];
  }

  /** Rewriting the block of node n changes the count by the difference of
      that block's used slots alone. */
  lemma RecordsReplace(db: Db, n: nat, b: Block)
    requires Sized(db.store) && IdsDistinct(db.nodes) && n < |db.nodes| && |b| == NumSlots
    ensures var st := db.store[db.nodes[n].id := b];
      RecordsOver(st, db.nodes) + UsedCount(BlockOf(db.store, db.nodes[n].id))
      == RecordsOver(db.store, db.nodes) + UsedCount(b)
  {
    var ns, id := db.nodes, db.nodes[n].id;
    var pre, post := ns[..n], ns[n + 1..];
    assert forall i :: 0 <= i < |pre| ==> pre[i].id != id by {
      forall i | 0 <= i < |pre| ensures pre[i].id != id {
        assert pre[i] == ns[i];
      }
    }
    assert forall i :: 0 <= i < |post| ==> post[i].id != id by {
      forall i | 0 <= i < |post| ensures post[i].id != id {
        assert post[i] == ns[n + 1 + i];
      }
    }
    RecordsSameExcept(db.store, pre, id, b);
    RecordsSameExcept(db.store, post, id, b);
    RecordsAround(db.store, ns, n);
    RecordsAround(db.store[id := b], ns, n);
  }

  // ---------------------------------------------------------------------
  // check()

  /** One line check() prints: about the node table, or a block's report
      for node i. */
  datatype IndexReport = Table(table: TableError) | InBlock(node: nat, report: CheckError)

  function BlockReports(store: map<U32, Block>, ns: seq<Node>): seq<IndexReport>
    requires Sized(store)
    decreases |ns|
  {
    if ns == [] then []
    else
      var es := Check(BlockOf(store, ns[|ns| - 1].id));
      BlockReports(store, ns[..|ns| - 1]) + seq(|es|, j requires 0 <= j < |es| => InBlock(|ns| - 1, es[j]))
  }

  /** check(): the two table loops' reports, then each node's block check
      in node order. */
  function IndexCheck(db: Db): seq<IndexReport>
    requires Sized(db.store)
  {
    TableReports(TableErrors(db.nodes)) + BlockReports(db.store, db.nodes)
  }

  /** The table lines of check(), in order. */
  function TableReports(te: seq<TableError>): seq<IndexReport>
  {
    seq(|te|, j requires 0 <= j < |te| => Table(te[j]))
  }

  lemma {:induction false} BlockReportsSpec(store: map<U32, Block>, ns: seq<Node>, r: IndexReport)
    requires Sized(store)
    ensures r in BlockReports(store, ns) <==>
      r.InBlock? && r.node < |ns| && r.report in Check(BlockOf(store, ns[r.node].id))
    decreases |ns|
  {
    if ns != [] {
      var init := ns[..|ns| - 1];
      BlockReportsSpec(store, init, r);
      var es := Check(BlockOf(store, ns[|ns| - 1].id));
      var tail := seq(|es|, j requires 0 <= j < |es| => InBlock(|ns| - 1, es[j]));
      assert r in tail <==> r.InBlock? && r.node == |ns| - 1 && r.report in es by {
        if r in tail {
          var j :| 0 <= j < |tail| && tail[j] == r;
        }
        if r.InBlock? && r.node == |ns| - 1 && r.report in es {
          var j :| 0 <= j < |es| && es[j] == r.report;
          assert tail[j] == r;
        }
      }
      if r.InBlock? && r.node < |init| {
        assert init[r.node] == ns[r.node];
      }
    }
  }

  /** What check() prints: a table line exactly for each TableErrors entry,
      and a line for node i exactly for each report of its block's check. */
  lemma IndexCheckSpec(db: Db, r: IndexReport)
    requires Sized(db.store)
    ensures r in IndexCheck(db) <==>
      (r.Table? && r.table in TableErrors(db.nodes))
      || (r.InBlock? && r.node < |db.nodes| && r.report in Check(BlockOf(db.store, db.nodes[r.node].id)))
  {
    BlockReportsSpec(db.store, db.nodes, r);
    var te := TableErrors(db.nodes);
    var head := TableReports(te);
    if r in head {
      var j :| 0 <= j < |head| && head[j] == r;
    }
    if r.Table? && r.table in te {
      var j :| 0 <= j < |te| && te[j] == r.table;
      assert head[j] == r;
    }
  }

  /** A consistent index of which no block holds DOMAIN_MIN draws no
      report from check(); a silent check means the table is ordered and no
      block has a hole. */
  lemma CheckQuiet(db: Db)
    requires Sized(db.store)
    ensures Consistent(db) && !Holds(db, DomainMin()) ==> IndexCheck(db) == []
    ensures IndexCheck(db) == [] ==>
      Ordered(db.nodes) && forall i :: 0 <= i < |db.nodes| ==> NoHoles(BlockOf(db.store, db.nodes[i].id))
  {
    TableErrorsSpec(db.nodes);
    if Consistent(db) && !Holds(db, DomainMin()) {
      forall r
        ensures r !in IndexCheck(db)
      {
        IndexCheckSpec(db, r);
        if r.InBlock? && r.node < |db.nodes| {
          var s := BlockOf(db.store, db.nodes[r.node].id);
          CheckReports(s, r.report);
        }
      }
      EmptyIfFirstAbsent(IndexCheck(db));
    }
    if IndexCheck(db) == [] {
      forall e
        ensures e !in TableErrors(db.nodes)
      {
        IndexCheckSpec(db, Table(e));
      }
      EmptyIfFirstAbsent(TableErrors(db.nodes));
      forall i | 0 <= i < |db.nodes|
        ensures NoHoles(BlockOf(db.store, db.nodes[i].id))
      {
        var s := BlockOf(db.store, db.nodes[i].id);
        CheckHoles(s);
        forall j: nat
          ensures Hole(j) !in Check(s)
        {
          IndexCheckSpec(db, InBlock(i, Hole(j)));
        }
      }
    }
  }

  lemma EmptyIfFirstAbsent<T>(s: seq<T>)
    requires s == [] || s[0] !in s
    ensures s == []
  {
  }

  // ---------------------------------------------------------------------
  // serialize / unserialize

  /** unserialize(file): nothing changes when the file does not exist;
      otherwise the node table is the file's and current_id is one more
      than its largest id.  A file shorter than its count says, or with a
      key field that is not zero padded, is the Abort case (the source
      reads past the mapping). */
  function UnserializeOf(db: Db, file: Option<seq<Byte>>): Outcome<Db>
  {
    match file
    case None => Done(db)
    case Some(b) =>
      match ParseIndex(b)
      case None => Abort
      case Some(ns) => Done(db.(nodes := ns, currentId := NextId(ns)))
  }

  /** Reading back the file serialize wrote gives the same node table, and
      a current_id above every id of it, the blocks untouched. */
  lemma SerializeRoundTrip(db: Db)
    requires |db.nodes| < 0x1_0000_0000 && MaxId(db.nodes) < 0xFFFF_FFFF
    ensures UnserializeOf(db, Some(IndexBytes(db.nodes))).Done?
    ensures var db' := UnserializeOf(db, Some(IndexBytes(db.nodes))).value;
      db'.nodes == db.nodes && db'.store == db.store
      && forall i :: 0 <= i < |db'.nodes| ==> db'.nodes[i].id < db'.currentId
  {
    IndexRoundTrip(db.nodes);
  }

  /** Where every id is below current_id, the reloaded current_id never
      exceeds the one the table was saved with. */
  lemma ReloadedIdBelow(db: Db)
    requires db.nodes != [] && IdsBelow(db.nodes, db.currentId)
    ensures NextId(db.nodes) <= db.currentId
  {
    MaxIdAttained(db.nodes);
  }

  lemma {:induction false} MaxIdAttained(ns: seq<Node>)
    requires ns != []
    ensures exists k :: 0 <= k < |ns| && ns[k].id == MaxId(ns)
    decreases |ns|
  {
    var init := ns[..|ns| - 1];
    if init == [] || ns[|ns| - 1].id > MaxId(init) {
      assert ns[|ns| - 1].id == MaxId(ns);
    } else {
      MaxIdAttained(init);
      var k :| 0 <= k < |init| && init[k].id == MaxId(init);
      assert ns[k] == init[k];
    }
  }
}
