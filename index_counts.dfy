/** getNumberRecords across addDomain of dns_index.cc: every domain the
    index answers OK for costs exactly one slot, whether or not the block
    had to be split first. */
module IndexCounts {
  import opened Keys
  import opened Records
  import opened Wrappers
  import opened BlockSpec
  import opened BlockLemmas
  import opened BlockProps
  import opened IndexSpec
  import opened IndexOps
  import opened IndexProofs
  import opened IndexReports
  import DomainCodec

  /** blk->addDomain on node n: one used slot more exactly on OK. */
  lemma AtCounts(db: Db, n: nat, key: Key)
    requires Sized(db.store) && IdsDistinct(db.nodes) && n < |db.nodes|
    requires WF(BlockOf(db.store, db.nodes[n].id))
    ensures NumberRecords(AddAt(db, n, key).1) == NumberRecords(db) + (if AddAt(db, n, key).0 == ResOK then 1 else 0)
  {
    var s := BlockOf(db.store, db.nodes[n].id);
    AddDomainKeepsWF(s, key);
    RecordsReplace(db, n, AddDomain(s, key).1);
  }

  /** Replacing the middle part of a node table, with the blocks of the
      nodes before and after it unchanged, changes the count by the
      middle parts alone. */
  lemma {:induction false} RecordsSplice(st: map<U32, Block>, st2: map<U32, Block>,
                                         pre: seq<Node>, mid: seq<Node>, mid2: seq<Node>, post: seq<Node>)
    requires Sized(st) && Sized(st2)
    requires forall i :: 0 <= i < |pre| ==> BlockOf(st2, pre[i].id) == BlockOf(st, pre[i].id)
    requires forall i :: 0 <= i < |post| ==> BlockOf(st2, post[i].id) == BlockOf(st, post[i].id)
    ensures RecordsOver(st2, pre + mid2 + post) + RecordsOver(st, mid)
      == RecordsOver(st, pre + mid + post) + RecordsOver(st2, mid2)
  {
    RecordsSame(st, st2, pre);
    RecordsSame(st, st2, post);
    RecordsConcat(st, pre + mid, post);
    RecordsConcat(st, pre, mid);
    RecordsConcat(st2, pre + mid2, post);
    RecordsConcat(st2, pre, mid2);
  }

  /** The count over a table of one or two nodes. */
  lemma RecordsPair(st: map<U32, Block>, a: Node, b: Node)
    requires Sized(st)
    ensures RecordsOver(st, [a]) == UsedCount(BlockOf(st, a.id))
    ensures RecordsOver(st, [a, b]) == UsedCount(BlockOf(st, a.id)) + UsedCount(BlockOf(st, b.id))
  {
    assert [a, b][..1] == [a];
  }

  /** A split moves the used slots of node n's block into its two parts
      and leaves every other node's block alone. */
  lemma SplitRecords(db: Db, n: nat, k: Key, o: Block, t: Block, db2: Db)
    requires Sized(db.store) && IdsDistinct(db.nodes) && IdsBelow(db.nodes, db.currentId)
    requires SplitInto(db, n, k, o, t, db2)
    ensures Sized(db2.store)
    ensures RecordsOver(db2.store, db2.nodes) + UsedCount(BlockOf(db.store, db.nodes[n].id))
      == RecordsOver(db.store, db.nodes) + UsedCount(o) + UsedCount(t)
  {
    var ns, st, st2 := db.nodes, db.store, db2.store;
    var a, b := ns[n].(max := k), Node(k, ns[n].max, db.currentId);
    var pre, post := ns[..n], ns[n + 1..];
    assert ns == pre + [ns[n]] + post;
    SplitBlockAt(db, n, k, o, t, db2, n);
    SplitBlockAt(db, n, k, o, t, db2, n + 1);
    forall i | 0 <= i < |pre|
      ensures BlockOf(st2, pre[i].id) == BlockOf(st, pre[i].id)
    {
      SplitBlockAt(db, n, k, o, t, db2, i);
    }
    forall i | 0 <= i < |post|
      ensures BlockOf(st2, post[i].id) == BlockOf(st, post[i].id)
    {
      SplitBlockAt(db, n, k, o, t, db2, n + 2 + i);
    }
    RecordsSplice(st, st2, pre, [ns[n]], [a, b], post);
    RecordsPair(st, ns[n], ns[n]);
    RecordsPair(st2, a, b);
  }

  /** The redo after the split of the full block n: when it succeeds the
      index has one used slot more than before the split. */
  lemma RedoCounts(db: Db, n: nat, key: Key)
    requires Consistent(db) && db.currentId < 0xFFFF_FFFF && Less(key, DomainMax())
    requires n < |db.nodes| && n == LookupNode(db.nodes, key)
    requires forall i :: 0 <= i < NumSlots ==> Slots.Used(BlockOf(db.store, db.nodes[n].id)[i])
    requires !HasHeader(BlockOf(db.store, db.nodes[n].id), key)
    ensures SplitNode(db, n).Done?
    ensures RetryAdd(SplitNode(db, n).value, key).Done? ==>
      var r := RetryAdd(SplitNode(db, n).value, key).value;
      r.0 == ResOK && NumberRecords(r.1) == NumberRecords(db) + 1
  {
    var ns := db.nodes;
    var s := BlockOf(db.store, ns[n].id);
    var nw := db.currentId;
    FullSplits(s);
    SplitFacts(db, n);
    var pos := SplitPos(s);
    var k := s[pos].key;
    var o, t := Lower(s, pos), Upper(s, pos);
    var db2 := SplitNode(db, n).value;
    SplitNodesShape(ns, n, k, nw);
    assert SplitInto(db, n, k, o, t, db2);
    SplitRecords(db, n, k, o, t, db2);
    SplitRedo(db, n, key);
    if RetryAdd(db2, key).Done? {
      LookupAfterSplit(ns, n, k, nw, key);
      var m := LookupNode(db2.nodes, key);
      SplitBlockAt(db, n, k, o, t, db2, m);
      SplitIds(db, n, k, o, t, db2);
      AtCounts(db2, m, key);
    }
  }

  /** addDomain on a consistent index: getNumberRecords goes up by one
      when it answers OK, and stays as it was for any other answer. */
  lemma AddDomainCounts(db: Db, d: DomainCodec.CString)
    requires Consistent(db) && db.currentId < 0xFFFF_FFFF
    ensures AddDomainOf(db, d).Done? ==>
      var r := AddDomainOf(db, d).value;
      NumberRecords(r.1) == NumberRecords(db) + (if r.0 == ResOK then 1 else 0)
  {
    if DomainCodec.DomainKey(d).Some? {
      var key := DomainCodec.DomainKey(d).value;
      DomainCodec.KeyBelowMax(d);
      LookupCovered(db.nodes, key);
      var n := LookupNode(db.nodes, key);
      AtCounts(db, n, key);
      var r := AddAt(db, n, key);
      if r.0 == ResNoSpaceLeft {
        NoSpaceCounts(db, n, key);
      }
    }
  }

  /** addDomain's split branch: the block of node n is full and lacks key. */
  lemma NoSpaceCounts(db: Db, n: nat, key: Key)
    requires Consistent(db) && db.currentId < 0xFFFF_FFFF && Less(key, DomainMax())
    requires n < |db.nodes| && n == LookupNode(db.nodes, key)
    requires AddAt(db, n, key).0 == ResNoSpaceLeft
    ensures SplitNode(AddAt(db, n, key).1, n).Done?
    ensures var db1 := AddAt(db, n, key).1;
      RetryAdd(SplitNode(db1, n).value, key).Done? ==>
      var r := RetryAdd(SplitNode(db1, n).value, key).value;
      r.0 == ResOK && NumberRecords(r.1) == NumberRecords(db) + 1
  {
    LookupCovered(db.nodes, key);
    InsertKeeps(db, n, key);
    AtCounts(db, n, key);
    var db1 := AddAt(db, n, key).1;
    assert BlockOf(db1.store, db1.nodes[n].id) == BlockOf(db.store, db.nodes[n].id);
    RedoCounts(db1, n, key);
  }
}
