/** What addIp4Record of dns_index.cc does to a consistent index: the
    invariant and the set of stored domains are kept, a domain that is not
    stored is refused through the assert, and for a stored domain the record
    joins the domain's records. */
module IndexIpProofs {
  import opened Keys
  import opened Records
  import opened Slots
  import opened Wrappers
  import opened BlockSpec
  import opened BlockLemmas
  import opened IpLemmas
  import opened BlockProps
  import opened IndexSpec
  import opened IndexOps
  import opened IndexProofs
  import DomainCodec

  /** rec took a place among the records c, the others kept in order: c2. */
  ghost predicate RecordJoined(c: seq<IPv4Record>, rec: IPv4Record, c2: seq<IPv4Record>)
  {
    exists k :: 0 <= k <= |c| && c2 == c[..k] + LiveRecs([rec]) + c[k..]
  }

  // ---------------------------------------------------------------------
  // One block

  /** addDomainIpv4 keeps a well-formed block well formed and leaves its
      domains as they were. */
  lemma IpHeaders(s: Block, key: Key, rec: IPv4Record, retry: bool)
    requires WF(s)
    ensures AddIp(s, key, rec, retry).Done?
    ensures var b := AddIp(s, key, rec, retry).value.1;
      WF(b) && |b| == |s| && HeaderKeys(b) == HeaderKeys(s)
  {
    AddIpKeepsWF(s, key, rec, retry);
    OutcomeHeaders(s, key, rec, AddIp(s, key, rec, retry));
  }

  lemma OutcomeHeaders(s: Block, key: Key, rec: IPv4Record, r: Outcome<(bool, Block)>)
    requires IpOutcome(s, key, rec, r)
    ensures HeaderKeys(r.value.1) == HeaderKeys(s)
  {
    var (ok, t) := r.value;
    if ok {
      if exists j, z :: 0 <= j < |s| && 0 <= z < |Recs(s[j])| && Recs(s[j])[z].ip == 0
                        && t == s[j := WithRec(s[j], z, rec)] {
        var j, z :| 0 <= j < |s| && 0 <= z < |Recs(s[j])| && Recs(s[j])[z].ip == 0
                    && t == s[j := WithRec(s[j], z, rec)];
        SameShapeCounts(s, j, WithRec(s[j], z, rec));
      } else {
        var e, u :| 0 < e <= u < |s| && InsertOk(s, e, u, NewCont(rec)) && t == InsertAt(s, e, u, NewCont(rec));
        InsertHeaderKeys(s, e, u, NewCont(rec));
      }
    }
  }

  /** Two blocks with the same domains agree on every key and on the
      range their domains lie in. */
  lemma SameHeaders(s: Block, b: Block, nd: Node)
    requires HeaderKeys(b) == HeaderKeys(s)
    ensures forall k :: HasHeader(b, k) <==> HasHeader(s, k)
    ensures KeysIn(s, nd) ==> KeysIn(b, nd)
  {
    forall k
      ensures HasHeader(b, k) <==> HasHeader(s, k)
    {
      HeaderKeysIn(s, k);
      HeaderKeysIn(b, k);
    }
    if KeysIn(s, nd) {
      forall i | 0 <= i < |b| && b[i].Domain?
        ensures Covers(nd, b[i].key)
      {
        assert HasHeader(b, b[i].key);
        var j :| 0 <= j < |s| && s[j].Domain? && s[j].key == b[i].key;
      }
    }
  }

  /** In a sorted block each key heads one slot at most. */
  lemma HeaderUnique(s: Block, i: nat, j: nat)
    requires Sorted(s) && i < |s| && j < |s| && s[i].Domain? && s[j].Domain? && s[i].key == s[j].key
    ensures i == j
  {
    if i != j {
      LessIrreflexive(s[i].key);
    }
  }

  /** A record taken for a domain of a well-formed block joins the records
      getIpsv4 reads at the header lookupDomain finds. */
  lemma JoinAt(b: Block, key: Key, rec: IPv4Record)
    requires WF(b) && HasHeader(b, key) && AddIp(b, key, rec, true).Done? && AddIp(b, key, rec, true).value.0
    ensures var q := LookupDomain(b, key);
      var b' := AddIp(b, key, rec, true).value.1;
      var q' := LookupDomain(b', key);
      0 <= q < |b| && b[q].Domain? && 0 <= q' < |b'| && b'[q'].Domain?
      && RecordJoined(ChainRecords(b, q), rec, ChainRecords(b', q'))
  {
    AddIpRecords(b, key, rec, true);
    IpHeaders(b, key, rec, true);
    var q := LookupDomain(b, key);
    var b' := AddIp(b, key, rec, true).value.1;
    assert HasHeader(b', key);
    LookupWF(b', key);
    HeaderUnique(b', q, LookupDomain(b', key));
  }

  /** The records of a stored domain are those of its header in the block
      of its node. */
  lemma RecordsOfStored(db: Db, key: Key)
    requires Consistent(db) && Less(key, DomainMax()) && Holds(db, key)
    ensures var n := LookupNode(db.nodes, key);
      0 <= n < |db.nodes|
      && var s := BlockOf(db.store, db.nodes[n].id);
      var p := LookupDomain(s, key);
      HasHeader(s, key) && 0 <= p < |s| && s[p].Domain? && s[p].key == key
      && DomainRecords(db, key) == ChainRecords(s, p)
  {
    LookupHolds(db, key);
    var n := LookupNode(db.nodes, key);
    LookupWF(BlockOf(db.store, db.nodes[n].id), key);
  }

  // ---------------------------------------------------------------------
  // One node

  /** addDomainIpv4 on a node's block keeps the index consistent and its
      domains as they were. */
  lemma IpAtKeeps(db: Db, n: nat, key: Key, rec: IPv4Record)
    requires Consistent(db) && n < |db.nodes|
    ensures AddIpAt(db, n, key, rec).Done?
    ensures var db' := AddIpAt(db, n, key, rec).value.1;
      Consistent(db') && forall k :: Holds(db', k) <==> Holds(db, k)
  {
    var s := BlockOf(db.store, db.nodes[n].id);
    IpHeaders(s, key, rec, true);
    var b := AddIp(s, key, rec, true).value.1;
    SameHeaders(s, b, db.nodes[n]);
    ReplaceConsistent(db, n, b);
    var db' := AddIpAt(db, n, key, rec).value.1;
    forall k
      ensures Holds(db', k) <==> Holds(db, k)
    {
      HoldsReplace(db, n, b, key, false, k);
    }
  }

  /** A block without a split point makes the split abort. */
  lemma SplitAborts(db: Db, n: nat)
    requires Sized(db.store) && FreshEmpty(db.store, db.currentId) && n < |db.nodes|
    requires WF(BlockOf(db.store, db.nodes[n].id)) && SplitPos(BlockOf(db.store, db.nodes[n].id)) < 0
    ensures SplitNode(db, n) == Abort
  {
    var s := BlockOf(db.store, db.nodes[n].id);
    assert NumSlots % 16 == 0;
    SplitPosSpec(s);
    SplitSpec(s);
    assert BlockOf(db.store, db.currentId) == EmptyBlock(NumSlots);
  }

  /** What IpSplit establishes about the split db2 of node n's block s. */
  ghost predicate SplitState(db: Db, n: nat, key: Key, s: Block, db2: Db)
  {
    Sized(db.store) && n < |db.nodes| && s == BlockOf(db.store, db.nodes[n].id)
    && var pos := SplitPos(s);
    0 <= pos < NumSlots - 16 && s[pos].Domain? && Covers(db.nodes[n], s[pos].key)
    && (pos > 0 ==> Less(db.nodes[n].min, s[pos].key))
    && SplitOk(s, (Lower(s, pos), Upper(s, pos)))
    && SplitInto(db, n, s[pos].key, Lower(s, pos), Upper(s, pos), db2) && Sized(db2.store)
    && LookupNode(db2.nodes, key) == (if Less(key, s[pos].key) then n else n + 1)
  }

  /** The split of addIp4Record on node n's block, which has a split
      point: the shape of the new index, where the key is looked up next,
      and that the stored domains stay. */
  lemma IpSplit(db: Db, n: nat, key: Key)
    requires Consistent(db) && db.currentId < 0xFFFF_FFFF
    requires n < |db.nodes| && n == LookupNode(db.nodes, key)
    requires SplitPos(BlockOf(db.store, db.nodes[n].id)) >= 0
    ensures SplitNode(db, n).Done?
    ensures SplitState(db, n, key, BlockOf(db.store, db.nodes[n].id), SplitNode(db, n).value)
    ensures forall k :: Holds(SplitNode(db, n).value, k) <==> Holds(db, k)
  {
    var ns := db.nodes;
    var s := BlockOf(db.store, ns[n].id);
    SplitFacts(db, n);
    var pos := SplitPos(s);
    var k := s[pos].key;
    var db2 := SplitNode(db, n).value;
    SplitNodesShape(ns, n, k, db.currentId);
    assert SplitInto(db, n, k, Lower(s, pos), Upper(s, pos), db2);
    LookupAfterSplit(ns, n, k, db.currentId, key);
    SplitKeepsHolds(db, n, s, pos, db2);
  }

  // ---------------------------------------------------------------------
  // getIpsv4 across the split

  lemma {:induction false} ContRecsLower(s: Block, pos: nat, i: nat)
    requires pos < |s| && s[pos].Domain? && i <= pos
    ensures ContRecsFrom(Lower(s, pos), i) == ContRecsFrom(s, i)
    decreases pos - i
  {
    var o := Lower(s, pos);
    if i < pos {
      assert o[i] == s[i];
      ContRecsLower(s, pos, i + 1);
    } else {
      assert !o[i].Cont?;
    }
  }

  lemma {:induction false} ContRecsUpper(s: Block, pos: nat, i: nat)
    requires pos <= |s| && i <= |s| - pos
    ensures ContRecsFrom(Upper(s, pos), i) == ContRecsFrom(s, i + pos)
    decreases |s| - pos - i
  {
    var t := Upper(s, pos);
    if i < |s| - pos {
      assert t[i] == s[i + pos];
      ContRecsUpper(s, pos, i + 1);
    } else if i < |t| {
      assert !t[i].Cont?;
    }
  }

  /** A header left below the split point keeps its records. */
  lemma ChainLower(s: Block, pos: nat, p: nat)
    requires pos < |s| && s[pos].Domain? && p < pos && s[p].Domain?
    ensures Lower(s, pos)[p] == s[p] && ChainRecords(Lower(s, pos), p) == ChainRecords(s, p)
  {
    ContRecsLower(s, pos, p + 1);
  }

  /** A header moved to the new block keeps its records. */
  lemma ChainUpper(s: Block, pos: nat, p: nat)
    requires pos <= p < |s| && s[p].Domain?
    ensures Upper(s, pos)[p - pos] == s[p] && ChainRecords(Upper(s, pos), p - pos) == ChainRecords(s, p)
  {
    ContRecsUpper(s, pos, p - pos + 1);
  }

  // ---------------------------------------------------------------------
  // addIp4Record

  /** addIp4Record on a consistent index: nothing changes for a domain the
      codec refuses; whenever it returns, the index is consistent and
      stores the same domains as before. */
  lemma AddIpKeeps(db: Db, d: DomainCodec.CString, rec: IPv4Record)
    requires Consistent(db) && db.currentId < 0xFFFF_FFFF
    ensures DomainCodec.DomainKey(d).None? ==> AddIp4RecordOf(db, d, rec) == Done(db)
    ensures AddIp4RecordOf(db, d, rec).Done? ==>
      var db' := AddIp4RecordOf(db, d, rec).value;
      Consistent(db') && forall k :: Holds(db', k) <==> Holds(db, k)
  {
    if DomainCodec.DomainKey(d).Some? {
      var key := DomainCodec.DomainKey(d).value;
      DomainCodec.KeyBelowMax(d);
      LookupHolds(db, key);
      var n := LookupNode(db.nodes, key);
      var s := BlockOf(db.store, db.nodes[n].id);
      IpAtKeeps(db, n, key, rec);
      var (ok, db1) := AddIpAt(db, n, key, rec).value;
      if !ok {
        IpHeaders(s, key, rec, true);
        AddIpRefused(s, key, rec);
        assert BlockOf(db1.store, db1.nodes[n].id) == s;
        if SplitPos(s) < 0 {
          SplitAborts(db1, n);
        } else {
          IpSplit(db1, n, key);
          RetryKeeps(db1, n, key, rec, s, SplitNode(db1, n).value);
        }
      }
    }
  }

  /** The redo of AddIpKeeps after the split. */
  lemma RetryKeeps(db1: Db, n: nat, key: Key, rec: IPv4Record, s: Block, db2: Db)
    requires Consistent(db1) && db1.currentId < 0xFFFF_FFFF && Less(key, DomainMax())
    requires n < |db1.nodes| && n == LookupNode(db1.nodes, key) && Covers(db1.nodes[n], key)
    requires s == BlockOf(db1.store, db1.nodes[n].id) && AddDomainIpv4(s, key, rec) == Done((false, s))
    requires SplitState(db1, n, key, s, db2)
    ensures RetryIp(db2, key, rec).Done? ==>
      var db' := RetryIp(db2, key, rec).value;
      Consistent(db') && forall k :: Holds(db', k) <==> Holds(db2, k)
  {
    var nd := db1.nodes[n];
    var pos := SplitPos(s);
    var k := s[pos].key;
    var m := LookupNode(db2.nodes, key);
    if !Less(key, k) && pos == 0 {
      SplitBlockAt(db1, n, k, Lower(s, pos), Upper(s, pos), db2, m);
      assert Upper(s, pos) == s;
      RedoRefused(db2, m, key, rec, s);
    } else {
      if Less(key, k) {
        BelowSplitKey(nd, key, k);
      }
      RedoKeeps(db1, n, s, pos, db2, key, rec);
    }
  }

  /** A split that keeps the index consistent, and the redo on it. */
  lemma RedoKeeps(db1: Db, n: nat, s: Block, pos: nat, db2: Db, key: Key, rec: IPv4Record)
    requires Consistent(db1) && n < |db1.nodes|
    requires s == BlockOf(db1.store, db1.nodes[n].id) && pos < |s| && s[pos].Domain?
    requires Less(db1.nodes[n].min, s[pos].key) && Less(s[pos].key, db1.nodes[n].max)
    requires SplitOk(s, (Lower(s, pos), Upper(s, pos)))
    requires SplitInto(db1, n, s[pos].key, Lower(s, pos), Upper(s, pos), db2)
    requires 0 <= LookupNode(db2.nodes, key) < |db2.nodes|
    ensures Consistent(db2)
    ensures RetryIp(db2, key, rec).Done? ==>
      var db' := RetryIp(db2, key, rec).value;
      Consistent(db') && forall k :: Holds(db', k) <==> Holds(db2, k)
  {
    SplitConsistent(db1, n, s, pos, db2);
    IpAtKeeps(db2, LookupNode(db2.nodes, key), key, rec);
  }

  /** A key of node nd below k puts nd's minimum below k. */
  lemma BelowSplitKey(nd: Node, key: Key, k: Key)
    requires Covers(nd, key) && Less(key, k)
    ensures Less(nd.min, k)
  {
    LessEqIsLessOrEq(nd.min, key);
    if nd.min != key {
      LessTrans(nd.min, key, k);
    }
  }

  /** A domain that is not stored (any but DOMAIN_MIN) is refused twice,
      and the assert after the split fails. */
  lemma AddIpUnknown(db: Db, d: DomainCodec.CString, rec: IPv4Record)
    requires Consistent(db) && db.currentId < 0xFFFF_FFFF
    requires DomainCodec.DomainKey(d).Some? && DomainCodec.DomainKey(d).value != DomainMin()
    requires !Holds(db, DomainCodec.DomainKey(d).value)
    ensures AddIp4RecordOf(db, d, rec).Abort?
  {
    var key := DomainCodec.DomainKey(d).value;
    DomainCodec.KeyBelowMax(d);
    LookupHolds(db, key);
    var n := LookupNode(db.nodes, key);
    var s := BlockOf(db.store, db.nodes[n].id);
    AddIpMissing(s, key, rec, true);
    IpAtKeeps(db, n, key, rec);
    var db1 := AddIpAt(db, n, key, rec).value.1;
    assert BlockOf(db1.store, db1.nodes[n].id) == s;
    if SplitPos(s) < 0 {
      SplitAborts(db1, n);
    } else {
      IpSplit(db1, n, key);
      UnknownRedo(SplitNode(db1, n).value, key, rec);
    }
  }

  /** After the split the domain is still not stored, so the redo is
      refused as well. */
  lemma UnknownRedo(db2: Db, key: Key, rec: IPv4Record)
    requires Sized(db2.store) && 0 <= LookupNode(db2.nodes, key) < |db2.nodes|
    requires key != DomainMin() && !Holds(db2, key)
    ensures RetryIp(db2, key, rec).Abort?
  {
    var m := LookupNode(db2.nodes, key);
    var b := BlockOf(db2.store, db2.nodes[m].id);
    assert !HasHeader(b, key);
    AddIpMissing(b, key, rec, true);
  }

  /** For a stored domain: the assert fails exactly in IpRedoFull, and
      otherwise the record joins the domain's records. */
  lemma AddIpJoins(db: Db, d: DomainCodec.CString, rec: IPv4Record)
    requires Consistent(db) && db.currentId < 0xFFFF_FFFF
    requires DomainCodec.DomainKey(d).Some? && Holds(db, DomainCodec.DomainKey(d).value)
    ensures AddIp4RecordOf(db, d, rec).Abort? <==> IpRedoFull(db, DomainCodec.DomainKey(d).value, rec)
    ensures AddIp4RecordOf(db, d, rec).Done? ==>
      var key := DomainCodec.DomainKey(d).value;
      RecordJoined(DomainRecords(db, key), rec, DomainRecords(AddIp4RecordOf(db, d, rec).value, key))
  {
    var key := DomainCodec.DomainKey(d).value;
    DomainCodec.KeyBelowMax(d);
    RecordsOfStored(db, key);
    var n := LookupNode(db.nodes, key);
    var s := BlockOf(db.store, db.nodes[n].id);
    IpHeaders(s, key, rec, true);
    var r1 := AddIpAt(db, n, key, rec).value;
    if r1.0 {
      JoinAtNode(db, n, key, rec);
    } else {
      AddIpRefused(s, key, rec);
      RefusedRedo(db, n, key, rec, s);
    }
  }

  /** AddIpJoins once the block has refused the record. */
  lemma RefusedRedo(db: Db, n: nat, key: Key, rec: IPv4Record, s: Block)
    requires Consistent(db) && db.currentId < 0xFFFF_FFFF
    requires n < |db.nodes| && n == LookupNode(db.nodes, key)
    requires s == BlockOf(db.store, db.nodes[n].id) && AddDomainIpv4(s, key, rec) == Done((false, s))
    requires forall i :: 0 <= i < |s| ==> Used(s[i])
    requires 0 <= LookupDomain(s, key) < |s|
    requires s[LookupDomain(s, key)].Domain? && s[LookupDomain(s, key)].key == key
    ensures var db1 := AddIpAt(db, n, key, rec).value.1;
      SplitNode(db1, n).Done?
      && (RetryIp(SplitNode(db1, n).value, key, rec).Abort? <==> SplitPos(s) == 0)
      && (RetryIp(SplitNode(db1, n).value, key, rec).Done? ==>
            RecordJoined(ChainRecords(s, LookupDomain(s, key)), rec,
                         DomainRecords(RetryIp(SplitNode(db1, n).value, key, rec).value, key)))
  {
    IpAtKeeps(db, n, key, rec);
    var db1 := AddIpAt(db, n, key, rec).value.1;
    assert BlockOf(db1.store, db1.nodes[n].id) == s;
    FullSplits(s);
    IpSplit(db1, n, key);
    RetryJoins(db1, n, key, rec, s, SplitNode(db1, n).value);
  }

  /** A record taken on node n's block for a domain it stores joins the
      domain's records. */
  lemma JoinAtNode(db: Db, n: nat, key: Key, rec: IPv4Record)
    requires Sized(db.store) && n < |db.nodes| && n == LookupNode(db.nodes, key)
    requires WF(BlockOf(db.store, db.nodes[n].id)) && HasHeader(BlockOf(db.store, db.nodes[n].id), key)
    requires AddIpAt(db, n, key, rec).Done? && AddIpAt(db, n, key, rec).value.0
    ensures RecordJoined(DomainRecords(db, key), rec, DomainRecords(AddIpAt(db, n, key, rec).value.1, key))
  {
    var s := BlockOf(db.store, db.nodes[n].id);
    LookupWF(s, key);
    JoinAt(s, key, rec);
    var db' := AddIpAt(db, n, key, rec).value.1;
    assert BlockOf(db'.store, db'.nodes[n].id) == AddIp(s, key, rec, true).value.1;
  }

  /** A header p and the split point pos of a sorted block: p stays below
      the split exactly when its key is below the first key moved. */
  lemma SideOfSplit(s: Block, pos: nat, p: nat)
    requires Sorted(s) && pos < |s| && p < |s| && s[pos].Domain? && s[p].Domain?
    ensures Less(s[p].key, s[pos].key) <==> p < pos
  {
    if p == pos {
      LessIrreflexive(s[p].key);
    } else if p > pos {
      LessAsym(s[pos].key, s[p].key);
    }
  }

  /** A well-formed block with a stored domain and a free last slot takes
      the record. */
  lemma TakenWithRoom(b: Block, key: Key, rec: IPv4Record)
    requires WF(b) && HasHeader(b, key) && |b| > 0 && !Used(b[|b| - 1])
    ensures AddIp(b, key, rec, true).Done? && AddIp(b, key, rec, true).value.0
  {
    AddIpKeepsWF(b, key, rec, true);
    if !AddIp(b, key, rec, true).value.0 {
      AddIpRefused(b, key, rec);
    }
  }

  /** The redo lands on part bb of the split block, which holds the
      domain's header at q and has room: the record is taken and joins the
      records of that header. */
  lemma JoinInPart(db2: Db, m: nat, key: Key, rec: IPv4Record, bb: Block, q: nat)
    requires Sized(db2.store) && m < |db2.nodes| && m == LookupNode(db2.nodes, key)
    requires bb == BlockOf(db2.store, db2.nodes[m].id) && WF(bb)
    requires q < |bb| && bb[q].Domain? && bb[q].key == key && !Used(bb[|bb| - 1])
    ensures RetryIp(db2, key, rec).Done?
    ensures RecordJoined(ChainRecords(bb, q), rec, DomainRecords(RetryIp(db2, key, rec).value, key))
  {
    assert HasHeader(bb, key);
    TakenWithRoom(bb, key, rec);
    LookupWF(bb, key);
    HeaderUnique(bb, q, LookupDomain(bb, key));
    JoinAtNode(db2, m, key, rec);
  }

  /** The redo of AddIpJoins after the split. */
  lemma RetryJoins(db1: Db, n: nat, key: Key, rec: IPv4Record, s: Block, db2: Db)
    requires Consistent(db1) && db1.currentId < 0xFFFF_FFFF
    requires n < |db1.nodes| && n == LookupNode(db1.nodes, key)
    requires s == BlockOf(db1.store, db1.nodes[n].id) && AddDomainIpv4(s, key, rec) == Done((false, s))
    requires 0 <= LookupDomain(s, key) < |s|
    requires s[LookupDomain(s, key)].Domain? && s[LookupDomain(s, key)].key == key
    requires SplitState(db1, n, key, s, db2)
    ensures RetryIp(db2, key, rec).Abort? <==> SplitPos(s) == 0
    ensures RetryIp(db2, key, rec).Done? ==>
      RecordJoined(ChainRecords(s, LookupDomain(s, key)), rec, DomainRecords(RetryIp(db2, key, rec).value, key))
  {
    var pos := SplitPos(s);
    var m := LookupNode(db2.nodes, key);
    SplitBlockAt(db1, n, s[pos].key, Lower(s, pos), Upper(s, pos), db2, m);
    SideOfSplit(s, pos, LookupDomain(s, key));
    PartsHaveRoom(s, pos);
    if pos == 0 {
      assert Upper(s, pos) == s;
      RedoRefused(db2, m, key, rec, s);
    } else {
      RedoJoins(db2, m, key, rec, s, pos);
    }
  }

  /** The redo meets the block that refused the record. */
  lemma RedoRefused(db2: Db, m: nat, key: Key, rec: IPv4Record, s: Block)
    requires Sized(db2.store) && m < |db2.nodes| && m == LookupNode(db2.nodes, key)
    requires s == BlockOf(db2.store, db2.nodes[m].id) && AddDomainIpv4(s, key, rec) == Done((false, s))
    ensures RetryIp(db2, key, rec).Abort?
  {
  }

  /** The redo lands on the part of the split block that holds the header
      of key. */
  lemma RedoJoins(db2: Db, m: nat, key: Key, rec: IPv4Record, s: Block, pos: nat)
    requires Sized(db2.store) && m < |db2.nodes| && m == LookupNode(db2.nodes, key)
    requires 0 < pos < |s| - 1 && s[pos].Domain?
    requires 0 <= LookupDomain(s, key) < |s|
    requires s[LookupDomain(s, key)].Domain? && s[LookupDomain(s, key)].key == key
    requires Less(key, s[pos].key) <==> LookupDomain(s, key) < pos
    requires BlockOf(db2.store, db2.nodes[m].id) == if Less(key, s[pos].key) then Lower(s, pos) else Upper(s, pos)
    requires WF(Lower(s, pos)) && WF(Upper(s, pos))
    requires !Used(Lower(s, pos)[|s| - 1]) && !Used(Upper(s, pos)[|s| - 1])
    ensures RetryIp(db2, key, rec).Done?
    ensures RecordJoined(ChainRecords(s, LookupDomain(s, key)), rec, DomainRecords(RetryIp(db2, key, rec).value, key))
  {
    var p := LookupDomain(s, key);
    if p < pos {
      RedoLow(db2, m, key, rec, s, pos, p);
    } else {
      RedoHigh(db2, m, key, rec, s, pos, p);
    }
  }

  lemma RedoLow(db2: Db, m: nat, key: Key, rec: IPv4Record, s: Block, pos: nat, p: nat)
    requires Sized(db2.store) && m < |db2.nodes| && m == LookupNode(db2.nodes, key)
    requires p < pos < |s| - 1 && s[pos].Domain? && s[p].Domain? && s[p].key == key
    requires BlockOf(db2.store, db2.nodes[m].id) == Lower(s, pos) && WF(Lower(s, pos)) && !Used(Lower(s, pos)[|s| - 1])
    ensures RetryIp(db2, key, rec).Done?
    ensures RecordJoined(ChainRecords(s, p), rec, DomainRecords(RetryIp(db2, key, rec).value, key))
  {
    ChainLower(s, pos, p);
    JoinInPart(db2, m, key, rec, Lower(s, pos), p);
  }

  lemma RedoHigh(db2: Db, m: nat, key: Key, rec: IPv4Record, s: Block, pos: nat, p: nat)
    requires Sized(db2.store) && m < |db2.nodes| && m == LookupNode(db2.nodes, key)
    requires 0 < pos <= p < |s| && s[p].Domain? && s[p].key == key
    requires BlockOf(db2.store, db2.nodes[m].id) == Upper(s, pos) && WF(Upper(s, pos)) && !Used(Upper(s, pos)[|s| - 1])
    ensures RetryIp(db2, key, rec).Done?
    ensures RecordJoined(ChainRecords(s, p), rec, DomainRecords(RetryIp(db2, key, rec).value, key))
  {
    ChainUpper(s, pos, p);
    JoinInPart(db2, m, key, rec, Upper(s, pos), p - pos);
  }
}
