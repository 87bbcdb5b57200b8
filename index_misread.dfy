/** getNumberRecords and getNumberFreeRecords of dns_index.cc as written,
    where each loop reads the block of node nodes[i].dnsblock_id rather
    than that of node i, set against the intended counts. */
module IndexMisread {
  import opened Keys
  import opened Records
  import opened Wrappers
  import opened BlockSpec
  import opened BlockProps
  import opened IndexSpec
  import opened IndexOps
  import opened IndexReports
  import PermSums
  import DomainCodec

  /** Each node's block id, as an index into the node table. */
  function Ids(ns: seq<Node>): (r: seq<nat>)
    ensures |r| == |ns| && forall i :: 0 <= i < |ns| ==> r[i] == ns[i].id as nat
  {
    seq(|ns|, i requires 0 <= i < |ns| => ns[i].id as nat)
  }

  /** The used slots of each node's block, in node order. */
  function UsedCounts(store: map<U32, Block>, ns: seq<Node>): (r: seq<nat>)
    requires Sized(store)
    ensures |r| == |ns|
    decreases |ns|
  {
    if ns == [] then []
    else UsedCounts(store, ns[..|ns| - 1]) + [UsedCount(BlockOf(store, ns[|ns| - 1].id))]
  }

  /** The free slots of each node's block, in node order. */
  function FreeCounts(store: map<U32, Block>, ns: seq<Node>): (r: seq<nat>)
    requires Sized(store)
    ensures |r| == |ns|
    decreases |ns|
  {
    if ns == [] then []
    else FreeCounts(store, ns[..|ns| - 1]) + [FreeOf(BlockOf(store, ns[|ns| - 1].id))]
  }

  /** getNumberRecords as written: for each node of ns the loop hands its
      dnsblock_id to DnsIndex::getBlock, whose argument is a node index, so
      it adds the used slots of node nodes[dnsblock_id]'s block.  A block
      id that is no node index reads past the vector: the Abort case. */
  function RecordsAsWritten(store: map<U32, Block>, nodes: seq<Node>, ns: seq<Node>): Outcome<nat>
    requires Sized(store)
  {
    PermSums.SumThrough(UsedCounts(store, nodes), Ids(ns))
  }

  /** getNumberFreeRecords as written, with the same misread. */
  function FreeAsWritten(store: map<U32, Block>, nodes: seq<Node>, ns: seq<Node>): Outcome<nat>
    requires Sized(store)
  {
    PermSums.SumThrough(FreeCounts(store, nodes), Ids(ns))
  }

  /** The corrected counts are the plain sums of the per-node counts. */
  lemma OverIsSum(store: map<U32, Block>, ns: seq<Node>)
    requires Sized(store)
    ensures RecordsOver(store, ns) == PermSums.Sum(UsedCounts(store, ns))
    ensures FreeOver(store, ns) == PermSums.Sum(FreeCounts(store, ns))
  {
    RecordsIsSum(store, ns);
    FreeIsSum(store, ns);
  }

  lemma {:induction false} RecordsIsSum(store: map<U32, Block>, ns: seq<Node>)
    requires Sized(store)
    ensures RecordsOver(store, ns) == PermSums.Sum(UsedCounts(store, ns))
    decreases |ns|
  {
    if ns != [] {
      var p := ns[..|ns| - 1];
      RecordsIsSum(store, p);
      PermSums.SumSnoc(UsedCounts(store, p), UsedCount(BlockOf(store, ns[|ns| - 1].id)));
    }
  }

  lemma {:induction false} FreeIsSum(store: map<U32, Block>, ns: seq<Node>)
    requires Sized(store)
    ensures FreeOver(store, ns) == PermSums.Sum(FreeCounts(store, ns))
    decreases |ns|
  {
    if ns != [] {
      var p := ns[..|ns| - 1];
      FreeIsSum(store, p);
      PermSums.SumSnoc(FreeCounts(store, p), FreeOf(BlockOf(store, ns[|ns| - 1].id)));
    }
  }

  /** The loops as written fail exactly when some node's block id is no
      node index. */
  lemma AsWrittenAborts(store: map<U32, Block>, nodes: seq<Node>, ns: seq<Node>)
    requires Sized(store)
    ensures RecordsAsWritten(store, nodes, ns) == Abort
      <==> exists i :: 0 <= i < |ns| && ns[i].id as int >= |nodes|
    ensures FreeAsWritten(store, nodes, ns) == Abort
      <==> exists i :: 0 <= i < |ns| && ns[i].id as int >= |nodes|
  {
    var s := Ids(ns);
    PermSums.SumThroughSpec(UsedCounts(store, nodes), s);
    PermSums.SumThroughSpec(FreeCounts(store, nodes), s);
    if exists i :: 0 <= i < |ns| && ns[i].id as int >= |nodes| {
      var i :| 0 <= i < |ns| && ns[i].id as int >= |nodes|;
      assert s[i] >= |nodes|;
    }
  }

  /** Where the block ids of the table are distinct and each below the
      number of nodes (a permutation of the node indices, as in every
      table the constructor and the splits build), the misread reads every
      block exactly once and the counts as written are the right ones. */
  lemma AsWrittenAgrees(store: map<U32, Block>, ns: seq<Node>)
    requires Sized(store) && IdsDistinct(ns)
    requires forall i :: 0 <= i < |ns| ==> ns[i].id as int < |ns|
    ensures RecordsAsWritten(store, ns, ns) == Done(RecordsOver(store, ns))
    ensures FreeAsWritten(store, ns, ns) == Done(FreeOver(store, ns))
  {
    PermSums.SumThroughSpec(UsedCounts(store, ns), Ids(ns));
    PermSums.SumThroughSpec(FreeCounts(store, ns), Ids(ns));
    OverIsSum(store, ns);
    PermSums.PermSum(UsedCounts(store, ns), Ids(ns));
    PermSums.PermSum(FreeCounts(store, ns), Ids(ns));
  }

  /** The tables the constructor and the splits build have one node per
      block id handed out: the constructor's one node with current_id 1,
      and each split adds a node and takes the next id (short of the last
      32-bit id, where current_id wraps). */
  lemma TableTracksIds(db: Db, d: DomainCodec.CString, rec: IPv4Record)
    requires Sized(db.store) && |db.nodes| == db.currentId as int && db.currentId < 0xFFFF_FFFF
    ensures |InitialDb(db.store).nodes| == InitialDb(db.store).currentId as int
    ensures var o := AddDomainOf(db, d);
      o.Done? ==> |o.value.1.nodes| == o.value.1.currentId as int
    ensures var o := AddIp4RecordOf(db, d, rec);
      o.Done? ==> |o.value.nodes| == o.value.currentId as int
  {
    DomainTracksIds(db, d);
    IpTracksIds(db, d, rec);
  }

  /** addDomain keeps one node per id handed out. */
  lemma DomainTracksIds(db: Db, d: DomainCodec.CString)
    requires Sized(db.store) && |db.nodes| == db.currentId as int && db.currentId < 0xFFFF_FFFF
    ensures var o := AddDomainOf(db, d);
      o.Done? ==> |o.value.1.nodes| == o.value.1.currentId as int
  {
    match DomainCodec.DomainKey(d)
    case None =>
    case Some(key) =>
      var n := LookupNode(db.nodes, key);
      if n >= 0 {
        var r := AddAt(db, n, key);
        if r.0 == ResNoSpaceLeft {
          SplitGrows(r.1, n);
          var o := SplitNode(r.1, n);
          if o.Done? {
            var m := LookupNode(o.value.nodes, key);
            if m >= 0 {
              var r2 := AddAt(o.value, m, key);
            }
          }
        }
      }
  }

  /** addIp4Record keeps one node per id handed out. */
  lemma IpTracksIds(db: Db, d: DomainCodec.CString, rec: IPv4Record)
    requires Sized(db.store) && |db.nodes| == db.currentId as int && db.currentId < 0xFFFF_FFFF
    ensures var o := AddIp4RecordOf(db, d, rec);
      o.Done? ==> |o.value.nodes| == o.value.currentId as int
  {
    match DomainCodec.DomainKey(d)
    case None =>
    case Some(key) =>
      var n := LookupNode(db.nodes, key);
      if n >= 0 {
        var a := AddIpAt(db, n, key, rec);
        if a.Done? && !a.value.0 {
          SplitGrows(a.value.1, n);
          var o := SplitNode(a.value.1, n);
          if o.Done? {
            var m := LookupNode(o.value.nodes, key);
            if m >= 0 {
              var a2 := AddIpAt(o.value, m, key, rec);
            }
          }
        }
      }
  }

  /** A split adds one node and takes one id. */
  lemma SplitGrows(db: Db, n: nat)
    requires Sized(db.store) && n < |db.nodes| && |db.nodes| == db.currentId as int && db.currentId < 0xFFFF_FFFF
    ensures var o := SplitNode(db, n);
      o.Done? ==> |o.value.nodes| == o.value.currentId as int
  {
    var id, nw := db.nodes[n].id, db.currentId;
    match Split(BlockOf(db.store, id), BlockOf(db.store, nw))
    case Abort =>
    case Done((kept, t)) =>
      var f := FirstHeader(t);
      if f >= 0 {
        assert |SplitNodes(db.nodes, n, t[f].key, nw)| == |db.nodes| + 1;
      }
  }

  /** On such a table getNumberRecords and getNumberFreeRecords as written
      give the right totals. */
  lemma BuiltCountsAgree(db: Db)
    requires Consistent(db) && |db.nodes| == db.currentId as int
    ensures RecordsAsWritten(db.store, db.nodes, db.nodes) == Done(NumberRecords(db))
    ensures FreeAsWritten(db.store, db.nodes, db.nodes) == Done(NumberFreeRecords(db))
  {
    AsWrittenAgrees(db.store, db.nodes);
  }

  /** The misread shows on an index file whose one node names block 5:
      unserialize accepts it, the counts as written read nodes[5] of a
      one-node table, while the corrected counts are those of block 5. */
  lemma CountsMisread(store: map<U32, Block>)
    requires Sized(store)
    ensures var ns := [Node(DomainMin(), DomainMax(), 5)];
      var o := UnserializeOf(InitialDb(store), Some(IndexBytes(ns)));
      o.Done? && o.value.nodes == ns
      && RecordsAsWritten(o.value.store, ns, ns) == Abort && FreeAsWritten(o.value.store, ns, ns) == Abort
      && NumberRecords(o.value) + NumberFreeRecords(o.value) == NumSlots
  {
    var ns := [Node(DomainMin(), DomainMax(), 5)];
    IndexRoundTrip(ns);
    var db := UnserializeOf(InitialDb(store), Some(IndexBytes(ns))).value;
    assert ns[..0] == [];
    CountsTotal(db);
  }
}
