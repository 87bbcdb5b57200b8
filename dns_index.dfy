/** The DnsIndex class of dns_index.cc and its Iterator (dns_db.h): the
    node table, current_id and the block files behind them, changed in
    place.  Every method is proved to leave the state (and return the
    value) that the IndexOps / IndexReports function of the same operation
    computes; what those functions do to the stored domains is proved in
    IndexProofs, IndexIpProofs and IndexReports. */
module DnsIndexes {
  import opened Keys
  import opened Records
  import opened Wrappers
  import opened Slots
  import opened BlockSpec
  import opened IndexSpec
  import opened IndexOps
  import opened IndexReports
  import DomainCodec

  /** The do/while of the block iterator: the first used slot from i on. */
  method NextUsedFrom(s: Block, i: nat) returns (j: nat)
    requires i <= |s|
    ensures j == NextUsed(s, i)
  {
    j := i;
    while j < |s| && s[j].Free?
      invariant i <= j <= |s|
      invariant NextUsed(s, j) == NextUsed(s, i)
      decreases |s| - j
    {
      j := j + 1;
    }
  }

  /** The nodes read so far, then the ones still to read (None once a
      node fails to read). */
  function Joined(pre: seq<Node>, o: Option<seq<Node>>): Option<seq<Node>>
  {
    match o
    case None => None
    case Some(rest) => Some(pre + rest)
  }

  lemma JoinEmpty(o: Option<seq<Node>>)
    ensures Joined([], o) == o
  {
    if o.Some? {
      assert [] + o.value == o.value;
    }
  }

  lemma JoinStep(pre: seq<Node>, n: Node, o: Option<seq<Node>>)
    ensures Joined(pre, match o case None => None case Some(rest) => Some([n] + rest)) == Joined(pre + [n], o)
  {
    if o.Some? {
      assert pre + ([n] + o.value) == pre + [n] + o.value;
    }
  }

  lemma OrderStep(ns: seq<Node>, i: nat)
    requires 1 <= i < |ns|
    ensures OrderErrors(ns, i) ==
      (if !Less(ns[i - 1].min, ns[i].min) || !Eq(ns[i - 1].max, ns[i].min) then [OutOfOrder(i)] else [])
      + OrderErrors(ns, i + 1)
  {
  }

  lemma Regroup<T>(a: seq<T>, x: seq<T>, r: seq<T>)
    ensures a + (x + r) == (a + x) + r
  {
  }

  /** One node read: the first 74 bytes of what is left, then the rest. */
  lemma ReadStep(b: seq<Byte>, at: nat, end: nat, c: nat)
    requires at + NodeSize * c == end <= |b| && c > 0
    ensures at + NodeSize <= end && (at + NodeSize) + NodeSize * (c - 1) == end
    ensures NodesOf(b[at..end], c) ==
      match NodeOf(b[at..at + NodeSize])
      case None => None
      case Some(n) =>
        match NodesOf(b[at + NodeSize..end], c - 1)
        case None => None
        case Some(rest) => Some([n] + rest)
  {
    var seg := b[at..end];
    assert seg[..NodeSize] == b[at..at + NodeSize];
    assert seg[NodeSize..] == b[at + NodeSize..end];
  }

  /** The sort of addBlock keeps the node it was given. */
  lemma SortKeeps(ns: seq<Node>, x: Node)
    ensures exists k :: 0 <= k < |ns| + 1 && SortByMin(ns + [x])[k] == x
  {
    SortByMinSame(ns + [x]);
    assert x in multiset(ns + [x]);
    assert x in SortByMin(ns + [x]);
  }

  class DnsIndex {
    var nodes: seq<Node>
    var currentId: U32
    /** The block files, as database->getBlock(id) reads and writes them. */
    var store: map<U32, Block>

    function State(): Db
      reads this
    {
      Db(nodes, currentId, store)
    }

    /** Every block file has numBlocks slots. */
    ghost predicate Valid()
      reads this
    {
      Sized(store)
    }

    /** DnsIndex(db): one node [all 0x00, all 0xFF) on block 0, and
        current_id = 1; st is the database's block files. */
    constructor (st: map<U32, Block>)
      requires Sized(st)
      ensures Valid() && State() == InitialDb(st)
    {
      nodes := [Node(DomainMin(), DomainMax(), 0)];
      currentId := 1;
      store := st;
    }

    /** lookupNode: the first node with min <= key < max; -1 where the
        source asserts. */
    method LookupNode(key: Key) returns (n: int)
      ensures n == IndexSpec.LookupNode(nodes, key)
    {
      var i := 0;
      while i < |nodes|
        invariant 0 <= i <= |nodes|
        invariant FindNode(nodes, key, i) == IndexSpec.LookupNode(nodes, key)
      {
        if LessEq(nodes[i].min, key) && Less(key, nodes[i].max) {
          return i;
        }
        i := i + 1;
      }
      return -1;
    }

    /** setBlkMinMax(n, vmin, vmax): a None bound is the null pointer and
        leaves that bound as it is. */
    method SetBlkMinMax(n: nat, vmin: Option<Key>, vmax: Option<Key>)
      requires n < |nodes|
      modifies this
      ensures nodes == old(nodes)[n := Node(if vmin.Some? then vmin.value else old(nodes[n].min),
                                            if vmax.Some? then vmax.value else old(nodes[n].max),
                                            old(nodes[n].id))]
      ensures currentId == old(currentId) && store == old(store)
    {
      if vmin.Some? {
        nodes := nodes[n := nodes[n].(min := vmin.value)];
      }
      if vmax.Some? {
        nodes := nodes[n := nodes[n].(max := vmax.value)];
      }
    }

    /** getBlkMax(n, v) */
    method GetBlkMax(n: nat) returns (v: Key)
      requires n < |nodes|
      ensures v == nodes[n].max
    {
      v := nodes[n].max;
    }

    /** getBlkMin(n, v) */
    method GetBlkMin(n: nat) returns (v: Key)
      requires n < |nodes|
      ensures v == nodes[n].min
    {
      v := nodes[n].min;
    }

    /** addBlock(id, vmin, vmax): push the node, sort by min, and return
        the first index carrying id; the assert after the loop cannot fire,
        since the sort keeps the pushed node. */
    method AddBlock(id: U32, vmin: Key, vmax: Key) returns (i: nat)
      modifies this
      ensures nodes == AddBlockNodes(old(nodes), id, vmin, vmax)
      ensures i < |nodes| && nodes[i].id == id
      ensures forall j :: 0 <= j < i ==> nodes[j].id != id
      ensures currentId == old(currentId) && store == old(store)
    {
      var node := Node(vmin, vmax, id);
      SortKeeps(nodes, node);
      nodes := SortByMin(nodes + [node]);
      i := 0;
      while nodes[i].id != id
        invariant i < |nodes|
        invariant exists k :: i <= k < |nodes| && nodes[k].id == id
        invariant forall j :: 0 <= j < i ==> nodes[j].id != id
        decreases |nodes| - i
      {
        i := i + 1;
      }
    }

    /** blk->addDomain(domint) on node n's block, written back. */
    method BlockAddDomain(n: nat, key: Key) returns (res: QueryError)
      requires Valid() && n < |nodes|
      modifies this
      ensures Valid()
      ensures (res, State()) == AddAt(old(State()), n, key)
    {
      var id := nodes[n].id;
      var a := BlockSpec.AddDomain(BlockOf(store, id), key);
      store := store[id := a.1];
      res := a.0;
    }

    /** blk->addDomainIpv4(domint, record) on node n's block, written back;
        Abort where the block's own assert fires. */
    method BlockAddIp(n: nat, key: Key, rec: IPv4Record) returns (o: Outcome<bool>)
      requires Valid() && n < |nodes|
      modifies this
      ensures Valid()
      ensures var r := AddIpAt(old(State()), n, key, rec);
        (o.Abort? <==> r.Abort?) && (o.Done? ==> o.value == r.value.0 && State() == r.value.1)
    {
      var id := nodes[n].id;
      var a := AddDomainIpv4(BlockOf(store, id), key, rec);
      if a.Abort? {
        return Abort;
      }
      store := store[id := a.value.1];
      o := Done(a.value.0);
    }

    /** The split of addDomain and addIp4Record at node n: take id
        current_id++, split the block into it, add the node [its first
        domain, max of n), and end node n at that domain.  aborted is
        splitBlock's or getMinDomain's assert. */
    method SplitAt(n: nat) returns (aborted: bool)
      requires Valid() && n < |nodes|
      modifies this
      ensures Valid()
      ensures aborted <==> SplitNode(old(State()), n).Abort?
      ensures !aborted ==> State() == SplitNode(old(State()), n).value
    {
      var id := nodes[n].id;
      var nw := currentId;
      currentId := (currentId as int + 1) % 0x1_0000_0000;
      var sp := Split(BlockOf(store, id), BlockOf(store, nw));
      if sp.Abort? {
        return true;
      }
      var kept, t := sp.value.0, sp.value.1;
      store := store[id := kept][nw := t];
      var nodemax := GetBlkMax(n);
      var f := FirstHeader(t);
      if f < 0 {
        return true;
      }
      var dommax := t[f].key;
      var at := AddBlock(nw, dommax, nodemax);
      SetBlkMinMax(n, None, Some(dommax));
      aborted := false;
    }

    /** addDomain(domain) */
    method AddDomain(d: DomainCodec.CString) returns (r: Outcome<QueryError>)
      requires Valid()
      modifies this
      ensures Valid()
      ensures var o := AddDomainOf(old(State()), d);
        (r.Abort? <==> o.Abort?) && (r.Done? ==> r.value == o.value.0 && State() == o.value.1)
    {
      var k := DomainCodec.Domain2Idom(d);
      if k.None? {
        return Done(ResDomainTooLong);
      }
      var key := k.value;
      var n := LookupNode(key);
      if n < 0 {
        return Abort;
      }
      var res := BlockAddDomain(n, key);
      if res != ResNoSpaceLeft {
        return Done(res);
      }
      ghost var db1 := State();
      var aborted := SplitAt(n);
      if aborted {
        return Abort;
      }
      ghost var db2 := State();
      n := LookupNode(key);
      if n < 0 {
        return Abort;
      }
      res := BlockAddDomain(n, key);
      if res == ResNoSpaceLeft {
        return Abort;
      }
      assert RetryAdd(db2, key) == Done((res, State()));
      r := Done(res);
    }

    /** hasDomain(domain) */
    method HasDomain(d: DomainCodec.CString) returns (o: Outcome<bool>)
      requires Valid()
      ensures o == HasDomainOf(State(), d)
    {
      var k := DomainCodec.Domain2Idom(d);
      if k.None? {
        return Done(false);
      }
      var n := LookupNode(k.value);
      if n < 0 {
        return Abort;
      }
      o := Done(BlockSpec.HasDomain(BlockOf(store, nodes[n].id), k.value));
    }

    /** addIp4Record(domain, record): aborted is one of the asserts firing. */
    method AddIp4Record(d: DomainCodec.CString, rec: IPv4Record) returns (aborted: bool)
      requires Valid()
      modifies this
      ensures Valid()
      ensures var o := AddIp4RecordOf(old(State()), d, rec);
        aborted == o.Abort? && (!aborted ==> State() == o.value)
    {
      var k := DomainCodec.Domain2Idom(d);
      if k.None? {
        return false;
      }
      var key := k.value;
      var n := LookupNode(key);
      if n < 0 {
        return true;
      }
      var o := BlockAddIp(n, key, rec);
      if o.Abort? {
        return true;
      }
      if o.value {
        return false;
      }
      aborted := SplitAt(n);
      if aborted {
        return;
      }
      ghost var db2 := State();
      n := LookupNode(key);
      if n < 0 {
        return true;
      }
      o := BlockAddIp(n, key, rec);
      assert o.Done? && o.value ==> RetryIp(db2, key, rec) == Done(State());
      aborted := o.Abort? || !o.value;
    }

    /** serialize(file): the bytes written. */
    method Serialize() returns (file: seq<Byte>)
      ensures file == IndexBytes(nodes)
    {
      file := U32Bytes(|nodes| % 0x1_0000_0000);
      var i := 0;
      while i < |nodes|
        invariant 0 <= i <= |nodes|
        invariant file + NodesBytes(nodes[i..]) == IndexBytes(nodes)
      {
        assert nodes[i..][1..] == nodes[i + 1..];
        file := file + NodeBytes(nodes[i]);
        i := i + 1;
      }
    }

    /** unserialize(file): file is None where fileExists is false.  The
        node loop, then the loop for the biggest id. */
    method Unserialize(file: Option<seq<Byte>>) returns (aborted: bool)
      modifies this
      ensures var o := UnserializeOf(old(State()), file);
        aborted == o.Abort? && (!aborted ==> State() == o.value)
    {
      if file.None? {
        return false;
      }
      var b := file.value;
      nodes := [];
      if |b| < 4 {
        return true;
      }
      var count := U32Of(b[..4]);
      if |b| < 4 + NodeSize * count {
        return true;
      }
      aborted := ReadNodes(b, count);
      if aborted {
        return;
      }
      var cur := BiggestId();
      currentId := (cur as int + 1) % 0x1_0000_0000;
    }

    /** The loop of unserialize for the biggest id. */
    method BiggestId() returns (cur: U32)
      ensures cur == MaxId(nodes)
    {
      cur := 0;
      var j := 0;
      while j < |nodes|
        invariant 0 <= j <= |nodes|
        invariant cur == MaxId(nodes[..j])
      {
        assert nodes[..j + 1][..j] == nodes[..j];
        if nodes[j].id > cur {
          cur := nodes[j].id;
        }
        j := j + 1;
      }
      assert nodes[..j] == nodes;
    }

    /** The node loop of unserialize: count nodes of 74 bytes after the
        count field; aborted where a key field is not a zero-padded key. */
    method ReadNodes(b: seq<Byte>, count: nat) returns (aborted: bool)
      requires 4 + NodeSize * count <= |b|
      modifies this
      ensures aborted <==> NodesOf(b[4..4 + NodeSize * count], count).None?
      ensures !aborted ==> nodes == NodesOf(b[4..4 + NodeSize * count], count).value
      ensures currentId == old(currentId) && store == old(store)
    {
      var end := 4 + NodeSize * count;
      ghost var all := NodesOf(b[4..end], count);
      nodes := [];
      JoinEmpty(all);
      var at := 4;
      var i := 0;
      while i < count
        invariant 0 <= i <= count && at <= end && at + NodeSize * (count - i) == end
        invariant all == Joined(nodes, NodesOf(b[at..end], count - i))
        invariant currentId == old(currentId) && store == old(store)
      {
        ReadStep(b, at, end, count - i);
        var nd := NodeOf(b[at..at + NodeSize]);
        if nd.None? {
          return true;
        }
        JoinStep(nodes, nd.value, NodesOf(b[at + NodeSize..end], count - i - 1));
        nodes := nodes + [nd.value];
        at := at + NodeSize;
        i := i + 1;
      }
      assert b[at..end] == [];
      assert nodes + [] == nodes;
      aborted := false;
    }

    /** check(): the two table loops, then each node's block check. */
    method Check() returns (reports: seq<IndexReport>)
      requires Valid()
      ensures reports == IndexCheck(State())
    {
      var te := TableCheck();
      var blocks := BlocksCheck();
      reports := TableReports(te) + blocks;
    }

    /** The range loop and the order loop of check(). */
    method TableCheck() returns (te: seq<TableError>)
      ensures te == TableErrors(nodes)
    {
      var re := RangeCheck();
      var oe := OrderCheck();
      te := re + oe;
    }

    /** The loop that reports empty ranges. */
    method RangeCheck() returns (te: seq<TableError>)
      ensures te == RangeErrors(nodes, 0)
    {
      te := [];
      var i := 0;
      while i < |nodes|
        invariant 0 <= i <= |nodes|
        invariant te + RangeErrors(nodes, i) == RangeErrors(nodes, 0)
      {
        ghost var te0 := te;
        var empty := !Less(nodes[i].min, nodes[i].max);
        assert RangeErrors(nodes, i) == (if empty then [EmptyRange(i)] else []) + RangeErrors(nodes, i + 1);
        if empty {
          te := te + [EmptyRange(i)];
        }
        assert te0 + RangeErrors(nodes, i) == te + RangeErrors(nodes, i + 1);
        i := i + 1;
      }
    }

    /** The loop that reports nodes out of order. */
    method OrderCheck() returns (te: seq<TableError>)
      ensures te == OrderErrors(nodes, 1)
    {
      te := [];
      var i := 1;
      while i < |nodes|
        invariant 1 <= i <= |nodes| || (i == 1 && nodes == [])
        invariant te + OrderErrors(nodes, i) == OrderErrors(nodes, 1)
      {
        var bad := !Less(nodes[i - 1].min, nodes[i].min) || !Eq(nodes[i - 1].max, nodes[i].min);
        OrderStep(nodes, i);
        var found: seq<TableError> := if bad then [OutOfOrder(i)] else [];
        Regroup(te, found, OrderErrors(nodes, i + 1));
        te := te + found;
        i := i + 1;
      }
    }

    /** The block loop of check(). */
    method BlocksCheck() returns (blocks: seq<IndexReport>)
      requires Valid()
      ensures blocks == BlockReports(store, nodes)
    {
      blocks := [];
      var i := 0;
      while i < |nodes|
        invariant 0 <= i <= |nodes|
        invariant blocks == BlockReports(store, nodes[..i])
      {
        assert nodes[..i + 1][..i] == nodes[..i];
        var es := BlockSpec.Check(BlockOf(store, nodes[i].id));
        blocks := blocks + seq(|es|, j requires 0 <= j < |es| => InBlock(i, es[j]));
        i := i + 1;
      }
      assert nodes[..i] == nodes;
    }

    /** getNumberRecords(): the used slots of every node's block. */
    method GetNumberRecords() returns (ret: nat)
      requires Valid()
      ensures ret == NumberRecords(State())
    {
      ret := 0;
      var i := 0;
      while i < |nodes|
        invariant 0 <= i <= |nodes|
        invariant ret == RecordsOver(store, nodes[..i])
      {
        assert nodes[..i + 1][..i] == nodes[..i];
        ret := ret + UsedCount(BlockOf(store, nodes[i].id));
        i := i + 1;
      }
      assert nodes[..i] == nodes;
    }

    /** getNumberFreeRecords(): the free slots of every node's block. */
    method GetNumberFreeRecords() returns (ret: nat)
      requires Valid()
      ensures ret == NumberFreeRecords(State())
    {
      ret := 0;
      var i := 0;
      while i < |nodes|
        invariant 0 <= i <= |nodes|
        invariant ret == FreeOver(store, nodes[..i])
      {
        assert nodes[..i + 1][..i] == nodes[..i];
        ret := ret + FreeOf(BlockOf(store, nodes[i].id));
        i := i + 1;
      }
      assert nodes[..i] == nodes;
    }
  }

  /** DnsIndex::Iterator: node p, and the slot q its block iterator is at. */
  class IndexIterator {
    const idx: DnsIndex
    var p: nat
    var q: nat

    /** getBlock(p): the slots of node p's block. */
    function Current(): Block
      reads this, idx
      requires Sized(idx.store) && p < |idx.nodes|
    {
      BlockOf(idx.store, idx.nodes[p].id)
    }

    /** Iterator(i, n, 0, db): node n, its block iterator from slot 0 on. */
    constructor (i: DnsIndex, n: nat)
      requires Sized(i.store) && n < |i.nodes|
      ensures idx == i && p == n && q == NextUsed(BlockOf(i.store, i.nodes[n].id), 0)
    {
      var first := NextUsedFrom(BlockOf(i.store, i.nodes[n].id), 0);
      idx := i;
      p := n;
      q := first;
    }

    /** next(): at the end of this block go to node p + 1, from slot 0;
        otherwise step the block iterator.  The block iterator's end() is
        the corrected one (AtEnd); the source reads past the node table
        where the second requires fails. */
    method Next()
      requires Sized(idx.store) && p < |idx.nodes|
      requires AtEnd(Current(), q) ==> p + 1 < |idx.nodes|
      modifies this
      ensures p < |idx.nodes|
      ensures AtEnd(old(Current()), old(q)) ==>
        p == old(p) + 1 && q == NextUsed(Current(), 0)
      ensures !AtEnd(old(Current()), old(q)) ==>
        p == old(p) && q == NextUsed(Current(), old(q) + 1)
    {
      var at := q >= NumSlots;
      var e := 0;
      if !at {
        e := NextUsedFrom(Current(), q + 1);
        at := e == NumSlots;
      }
      if at {
        p := p + 1;
        q := NextUsedFrom(Current(), 0);
      } else {
        q := e;
      }
    }

    /** end(): the block iterator is at its end and p is the last node. */
    method End() returns (b: bool)
      requires Sized(idx.store) && p < |idx.nodes|
      ensures b <==> AtEnd(Current(), q) && p == |idx.nodes| - 1
    {
      var at := q >= NumSlots;
      if !at {
        var e := NextUsedFrom(Current(), q + 1);
        at := e == NumSlots;
      }
      b := at && p == |idx.nodes| - 1;
    }
  }

  /** No used slot after slot q of node p's block, in node order. */
  ghost predicate NothingAfter(db: Db, p: nat, q: nat)
    requires Sized(db.store) && p < |db.nodes|
  {
    (forall j :: q < j < NumSlots ==> !Used(BlockOf(db.store, db.nodes[p].id)[j]))
    && forall i, j :: p < i < |db.nodes| && 0 <= j < NumSlots ==> !Used(BlockOf(db.store, db.nodes[i].id)[j])
  }

  ghost predicate HasUsed(s: Block)
  {
    exists j :: 0 <= j < |s| && Used(s[j])
  }

  /** What end() promises: when it holds no used slot is left to visit;
      and when nothing is left it holds, unless the next node's block is
      empty (then end() is false with nothing left). */
  lemma IterEnd(db: Db, p: nat, q: nat)
    requires Sized(db.store) && p < |db.nodes|
    ensures AtEnd(BlockOf(db.store, db.nodes[p].id), q) && p == |db.nodes| - 1
      ==> NothingAfter(db, p, q)
    ensures NothingAfter(db, p, q)
      && (p + 1 < |db.nodes| ==> HasUsed(BlockOf(db.store, db.nodes[p + 1].id)))
      ==> AtEnd(BlockOf(db.store, db.nodes[p].id), q) && p == |db.nodes| - 1
  {
    var s := BlockOf(db.store, db.nodes[p].id);
    if !AtEnd(s, q) {
      assert Used(s[NextUsed(s, q + 1)]);
    }
  }

  /** A fresh database, block 0 zeroed: the iterator over the index stops
      at the end of block 0 already in its constructor, and the block
      iterator's end() as written then reads past the block.  The
      corrected end() answers true, and the index iterator is at its end. */
  lemma FreshEndReadsPast(st: map<U32, Block>)
    requires Sized(st) && (0 in st ==> st[0] == EmptyBlock(NumSlots))
    ensures var s := BlockOf(InitialDb(st).store, InitialDb(st).nodes[0].id);
      NextUsed(s, 0) == NumSlots
      && EndAsWritten(s, NextUsed(s, 0)) == Abort
      && AtEnd(s, NextUsed(s, 0)) && |InitialDb(st).nodes| == 1
  {
    var s := BlockOf(st, 0);
    assert s == EmptyBlock(NumSlots);
    if NextUsed(s, 0) < NumSlots {
      assert Used(s[NextUsed(s, 0)]);
    }
  }
}
