/** The operations of dns_index.cc as functions of the index state: the
    node table, the next block id and the blocks the nodes name.  The
    DnsIndex class (dns_index.dfy) is proved to compute these functions on
    its fields; the lemmas here say what they do to the set of domains the
    database holds. */
module IndexOps {
  import opened Keys
  import opened Records
  import opened Slots
  import opened Wrappers
  import opened BlockSpec
  import opened BlockLemmas
  import opened BlockProps
  import opened IndexSpec
  import DomainCodec
  import DnsBlocks

  /** numBlocks: the slots of one block file. */
  const NumSlots: nat := DnsBlocks.NumSlots

  /** Every block file has NumSlots slots. */
  predicate Sized(store: map<U32, Block>)
  {
    forall id :: id in store ==> |store[id]| == NumSlots
  }

  /** database->getBlock(id): the contents of block file id; a file the
      database has not created yet reads as zeroed slots. */
  function BlockOf(store: map<U32, Block>, id: U32): (b: Block)
    requires Sized(store)
    ensures |b| == NumSlots
  {
    if id in store then store[id] else EmptyBlock(NumSlots)
  }

  /** The state of a DnsIndex: nodes, current_id and the blocks behind it. */
  datatype Db = Db(nodes: seq<Node>, currentId: U32, store: map<U32, Block>)

  /** DnsIndex(db): one node over all keys, block 0; current_id = 1. */
  function InitialDb(store: map<U32, Block>): Db
  {
    Db(InitialNodes(), 1, store)
  }

  // ---------------------------------------------------------------------
  // The invariant of a well-kept index

  /** Each block id is named by one node at most. */
  predicate IdsDistinct(ns: seq<Node>)
  {
    forall i, j :: 0 <= i < j < |ns| ==> ns[i].id != ns[j].id
  }

  /** Every node's id was handed out before current_id. */
  predicate IdsBelow(ns: seq<Node>, cur: U32)
  {
    forall i :: 0 <= i < |ns| ==> ns[i].id < cur
  }

  /** The ids still to be handed out name zeroed blocks. */
  predicate FreshEmpty(store: map<U32, Block>, cur: U32)
  {
    forall id :: id in store && id >= cur ==> store[id] == EmptyBlock(NumSlots)
  }

  /** Every header of block s lies in node n's range. */
  predicate KeysIn(s: Block, n: Node)
  {
    forall i :: 0 <= i < |s| && s[i].Domain? ==> Covers(n, s[i].key)
  }

  /** Every node's block is well formed and holds only keys of its range. */
  predicate BlocksOk(ns: seq<Node>, store: map<U32, Block>)
    requires Sized(store)
  {
    forall i :: 0 <= i < |ns| ==> WF(BlockOf(store, ns[i].id)) && KeysIn(BlockOf(store, ns[i].id), ns[i])
  }

  predicate Consistent(db: Db)
  {
    Sized(db.store) && Tiled(db.nodes) && IdsDistinct(db.nodes) && IdsBelow(db.nodes, db.currentId)
    && FreshEmpty(db.store, db.currentId) && BlocksOk(db.nodes, db.store)
  }

  /** Whether some node's block holds a header for key: the set of domains
      the database stores. */
  ghost predicate Holds(db: Db, key: Key)
    requires Sized(db.store)
  {
    exists i :: 0 <= i < |db.nodes| && HasHeader(BlockOf(db.store, db.nodes[i].id), key)
  }

  /** A fresh index is consistent when block 0 is well formed without a
      DOMAIN_MAX header and the block files above 0 are still zeroed, and
      it holds what block 0 holds. */
  lemma InitialConsistent(store: map<U32, Block>)
    requires Sized(store) && WF(BlockOf(store, 0)) && !HasHeader(BlockOf(store, 0), DomainMax())
    requires forall id :: id in store && id >= 1 ==> store[id] == EmptyBlock(NumSlots)
    ensures Consistent(InitialDb(store))
    ensures forall key :: Holds(InitialDb(store), key) <==> HasHeader(BlockOf(store, 0), key)
  {
    InitialTiled();
    var n := InitialNodes()[0];
    forall i | 0 <= i < NumSlots && BlockOf(store, 0)[i].Domain?
      ensures Covers(n, BlockOf(store, 0)[i].key)
    {
      var k := BlockOf(store, 0)[i].key;
      MinMaxBounds(k);
    }
  }

  // ---------------------------------------------------------------------
  // lookupNode and hasDomain

  /** hasDomain: false for a domain the codec refuses; Abort where
      lookupNode's assert fires. */
  function HasDomainOf(db: Db, d: DomainCodec.CString): Outcome<bool>
    requires Sized(db.store)
  {
    match DomainCodec.DomainKey(d)
    case None => Done(false)
    case Some(key) =>
      var n := LookupNode(db.nodes, key);
      if n < 0 then Abort else Done(HasDomain(BlockOf(db.store, db.nodes[n].id), key))
  }

  // ---------------------------------------------------------------------
  // addDomain

  /** blk->addDomain(domint) on node n's block, the block written back. */
  function AddAt(db: Db, n: nat, key: Key): (r: (QueryError, Db))
    requires Sized(db.store) && n < |db.nodes|
    ensures Sized(r.1.store) && r.1.nodes == db.nodes && r.1.currentId == db.currentId
  {
    var id := db.nodes[n].id;
    var a := AddDomain(BlockOf(db.store, id), key);
    (a.0, db.(store := db.store[id := a.1]))
  }

  /** The split of addDomain and addIp4Record: block current_id++ takes
      the upper part of node n's block, the new node runs from its first
      domain to node n's old max, and node n now ends there.  Abort where
      splitBlock's or getMinDomain's assert fires. */
  function SplitNode(db: Db, n: nat): (o: Outcome<Db>)
    requires Sized(db.store) && n < |db.nodes|
    ensures o.Done? ==> Sized(o.value.store)
  {
    var id := db.nodes[n].id;
    var nw := db.currentId;
    match Split(BlockOf(db.store, id), BlockOf(db.store, nw))
    case Abort => Abort
    case Done((kept, t)) =>
      var f := FirstHeader(t);
      if f < 0 then Abort
      else
        Done(Db(SplitNodes(db.nodes, n, t[f].key, nw), (nw + 1) % 0x1_0000_0000,
                db.store[id := kept][nw := t]))
  }

  /** The redo after a split: look the key up again and add it there; the
      assert that the block now has room is the Abort case. */
  function RetryAdd(db: Db, key: Key): Outcome<(QueryError, Db)>
    requires Sized(db.store)
  {
    var n := LookupNode(db.nodes, key);
    if n < 0 then Abort
    else
      var r := AddAt(db, n, key);
      if r.0 == ResNoSpaceLeft then Abort else Done(r)
  }

  /** The one case where splitBlock leaves no room for the redo: the
      block is full, its split point is slot 0 (so every slot below the last
      16 belongs to its first domain's chain) and the key is not below that
      first domain, so the redo meets the same full block again. */
  predicate SplitsWhole(s: Block, key: Key)
    requires |s| >= 16
  {
    (forall i :: 0 <= i < |s| ==> Used(s[i])) && !HasHeader(s, key)
    && SplitPos(s) == 0 && s[0].Domain? && !Less(key, s[0].key)
  }

  /** SplitsWhole of the block lookupNode picks for key. */
  predicate RedoFull(db: Db, key: Key)
    requires Sized(db.store)
  {
    var n := LookupNode(db.nodes, key);
    0 <= n < |db.nodes| && SplitsWhole(BlockOf(db.store, db.nodes[n].id), key)
  }

  /** addDomain(domain): resDomainTooLong for a domain the codec refuses;
      otherwise the result of the block's addDomain, after one split when
      the block was full. */
  function AddDomainOf(db: Db, d: DomainCodec.CString): Outcome<(QueryError, Db)>
    requires Sized(db.store)
  {
    match DomainCodec.DomainKey(d)
    case None => Done((ResDomainTooLong, db))
    case Some(key) =>
      var n := LookupNode(db.nodes, key);
      if n < 0 then Abort
      else
        var r := AddAt(db, n, key);
        if r.0 != ResNoSpaceLeft then Done(r)
        else
          match SplitNode(r.1, n)
          case Abort => Abort
          case Done(db2) => RetryAdd(db2, key)
  }

  // ---------------------------------------------------------------------
  // addIp4Record

  /** blk->addDomainIpv4(domint, record) on node n's block, the block
      written back. */
  function AddIpAt(db: Db, n: nat, key: Key, rec: IPv4Record): (r: Outcome<(bool, Db)>)
    requires Sized(db.store) && n < |db.nodes|
    ensures r.Done? ==> Sized(r.value.1.store) && r.value.1.nodes == db.nodes && r.value.1.currentId == db.currentId
  {
    var id := db.nodes[n].id;
    match AddDomainIpv4(BlockOf(db.store, id), key, rec)
    case Abort => Abort
    case Done((ok, b)) => Done((ok, db.(store := db.store[id := b])))
  }

  /** The redo of addIp4Record after the split; the assert around it is
      the Abort case when the record is refused again. */
  function RetryIp(db: Db, key: Key, rec: IPv4Record): (o: Outcome<Db>)
    requires Sized(db.store)
    ensures o.Done? ==> Sized(o.value.store)
  {
    var n := LookupNode(db.nodes, key);
    if n < 0 then Abort
    else
      match AddIpAt(db, n, key, rec)
      case Abort => Abort
      case Done((ok, db')) => if ok then Done(db') else Abort
  }

  /** addIp4Record(domain, record): nothing changes for a domain the codec
      refuses; otherwise the record goes to the block of the domain's node,
      and when that block refuses it the block is split as in addDomain
      and the record added again. */
  function AddIp4RecordOf(db: Db, d: DomainCodec.CString, rec: IPv4Record): (o: Outcome<Db>)
    requires Sized(db.store)
    ensures o.Done? ==> Sized(o.value.store)
  {
    match DomainCodec.DomainKey(d)
    case None => Done(db)
    case Some(key) =>
      var n := LookupNode(db.nodes, key);
      if n < 0 then Abort
      else
        match AddIpAt(db, n, key, rec)
        case Abort => Abort
        case Done((ok, db1)) =>
          if ok then Done(db1)
          else
            match SplitNode(db1, n)
            case Abort => Abort
            case Done(db2) => RetryIp(db2, key, rec)
  }

  /** The one case where addIp4Record of a stored domain fails its assert:
      the block refuses the record and its split point is slot 0, so the
      redo meets the same block again. */
  predicate IpRedoFull(db: Db, key: Key, rec: IPv4Record)
    requires Sized(db.store)
  {
    var n := LookupNode(db.nodes, key);
    0 <= n < |db.nodes|
    && var s := BlockOf(db.store, db.nodes[n].id);
    AddDomainIpv4(s, key, rec) == Done((false, s)) && SplitPos(s) == 0
  }

  /** getIpsv4 of the domain: the live records of the header lookupDomain
      finds in the block of the domain's node (none when it finds no
      header). */
  function DomainRecords(db: Db, key: Key): seq<IPv4Record>
    requires Sized(db.store)
  {
    var n := LookupNode(db.nodes, key);
    if 0 <= n < |db.nodes| then
      var s := BlockOf(db.store, db.nodes[n].id);
      var p := LookupDomain(s, key);
      if p >= 0 && s[p].Domain? then ChainRecords(s, p) else []
    else []
  }
}
