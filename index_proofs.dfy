/** What addDomain, hasDomain and addIp4Record of dns_index.cc do to a
    consistent index: the invariant is kept, hasDomain answers for the set
    of stored domains, and addDomain adds exactly its domain to that set. */
module IndexProofs {
  import opened Keys
  import opened Records
  import opened Slots
  import opened Wrappers
  import opened BlockSpec
  import opened BlockLemmas
  import opened BlockProps
  import opened IndexSpec
  import opened IndexOps
  import DomainCodec

  // ---------------------------------------------------------------------
  // Lookup in a consistent index

  /** lookupNode finds the one node whose range holds the key, and no
      other node's block has a header for it. */
  lemma LookupHolds(db: Db, key: Key)
    requires Consistent(db) && Less(key, DomainMax())
    ensures 0 <= LookupNode(db.nodes, key) < |db.nodes|
    ensures Holds(db, key) <==>
      HasHeader(BlockOf(db.store, db.nodes[LookupNode(db.nodes, key)].id), key)
  {
    LookupCovered(db.nodes, key);
    var n := LookupNode(db.nodes, key);
    if Holds(db, key) {
      var i :| 0 <= i < |db.nodes| && HasHeader(BlockOf(db.store, db.nodes[i].id), key);
      var s := BlockOf(db.store, db.nodes[i].id);
      var j :| 0 <= j < |s| && s[j].Domain? && s[j].key == key;
      assert Covers(db.nodes[i], key);
    }
  }

  /** hasDomain never fails its lookup on a consistent index, and it
      answers true exactly for a domain the codec accepts and the index
      holds. */
  lemma HasDomainHolds(db: Db, d: DomainCodec.CString)
    requires Consistent(db)
    ensures HasDomainOf(db, d).Done?
    ensures HasDomainOf(db, d).value <==>
      DomainCodec.DomainKey(d).Some? && Holds(db, DomainCodec.DomainKey(d).value)
  {
    if DomainCodec.DomainKey(d).Some? {
      var key := DomainCodec.DomainKey(d).value;
      DomainCodec.KeyBelowMax(d);
      LookupHolds(db, key);
      var n := LookupNode(db.nodes, key);
      SpotSorted(BlockOf(db.store, db.nodes[n].id), key);
    }
  }

  // ---------------------------------------------------------------------
  // Writing back one node's block

  /** Writing block b for node n changes no other node's block. */
  lemma OthersUnchanged(db: Db, n: nat, b: Block, j: nat)
    requires Sized(db.store) && IdsDistinct(db.nodes) && n < |db.nodes| && j < |db.nodes| && j != n
    requires |b| == NumSlots
    ensures BlockOf(db.store[db.nodes[n].id := b], db.nodes[j].id) == BlockOf(db.store, db.nodes[j].id)
  {
  }

  /** Writing back a well-formed block holding keys of node n's range keeps
      the index consistent. */
  lemma ReplaceConsistent(db: Db, n: nat, b: Block)
    requires Consistent(db) && n < |db.nodes|
    requires |b| == NumSlots && WF(b) && KeysIn(b, db.nodes[n])
    ensures Consistent(db.(store := db.store[db.nodes[n].id := b]))
  {
    var st := db.store[db.nodes[n].id := b];
    forall j | 0 <= j < |db.nodes|
      ensures WF(BlockOf(st, db.nodes[j].id)) && KeysIn(BlockOf(st, db.nodes[j].id), db.nodes[j])
    {
      if j != n {
        OthersUnchanged(db, n, b, j);
      }
    }
  }

  /** When block b of node n holds what the old block s held, plus key if
      extra, the index holds what it held, plus key if extra. */
  lemma HoldsReplace(db: Db, n: nat, b: Block, key: Key, extra: bool, k: Key)
    requires Sized(db.store) && IdsDistinct(db.nodes) && n < |db.nodes| && |b| == NumSlots
    requires HasHeader(b, k) <==> HasHeader(BlockOf(db.store, db.nodes[n].id), k) || (extra && k == key)
    ensures Holds(db.(store := db.store[db.nodes[n].id := b]), k) <==> Holds(db, k) || (extra && k == key)
  {
    var db' := db.(store := db.store[db.nodes[n].id := b]);
    if Holds(db', k) {
      var j :| 0 <= j < |db.nodes| && HasHeader(BlockOf(db'.store, db.nodes[j].id), k);
      if j != n {
        OthersUnchanged(db, n, b, j);
      }
    }
    if Holds(db, k) {
      var j :| 0 <= j < |db.nodes| && HasHeader(BlockOf(db.store, db.nodes[j].id), k);
      if j != n {
        OthersUnchanged(db, n, b, j);
        assert HasHeader(BlockOf(db'.store, db.nodes[j].id), k);
      } else {
        assert HasHeader(BlockOf(db'.store, db.nodes[n].id), k);
      }
    }
    if extra && k == key {
      assert HasHeader(BlockOf(db'.store, db.nodes[n].id), k);
    }
  }

  /** The headers addDomain leaves: the old ones, plus the key on success. */
  lemma AddedHeaders(s: Block, key: Key, k: Key)
    requires WF(s)
    ensures HasHeader(AddDomain(s, key).1, k) <==> HasHeader(s, k) || (AddDomain(s, key).0 == ResOK && k == key)
  {
    AddDomainKeepsWF(s, key);
    var b := AddDomain(s, key).1;
    if AddDomain(s, key).0 == ResOK {
      var x :| 0 <= x <= |s| && HeaderKeys(b) == HeaderKeys(s[..x]) + [key] + HeaderKeys(s[x..])
                            && HeaderKeys(s) == HeaderKeys(s[..x]) + HeaderKeys(s[x..]);
      HeaderKeysIn(b, k);
      HeaderKeysIn(s, k);
    }
  }

  /** The block addDomain leaves keeps to node n's range when the key does. */
  lemma AddedKeysIn(s: Block, key: Key, n: Node)
    requires WF(s) && KeysIn(s, n) && Covers(n, key)
    ensures KeysIn(AddDomain(s, key).1, n)
  {
    var b := AddDomain(s, key).1;
    forall i | 0 <= i < |b| && b[i].Domain?
      ensures Covers(n, b[i].key)
    {
      AddedHeaders(s, key, b[i].key);
    }
  }

  /** One attempt of addDomain on the node n covering key: the index stays
      consistent; ALREADY_EXISTS exactly when the block had the key; no
      space only when every slot of the block is used; and the index
      holds what it held, plus key on success. */
  lemma InsertKeeps(db: Db, n: nat, key: Key)
    requires Consistent(db) && n < |db.nodes| && Covers(db.nodes[n], key)
    ensures Consistent(AddAt(db, n, key).1)
    ensures AddAt(db, n, key).0 in {ResOK, ResNoSpaceLeft, ResAlreadyExists}
    ensures AddAt(db, n, key).0 == ResAlreadyExists <==> HasHeader(BlockOf(db.store, db.nodes[n].id), key)
    ensures AddAt(db, n, key).0 == ResNoSpaceLeft ==>
      AddAt(db, n, key).1.store == db.store[db.nodes[n].id := BlockOf(db.store, db.nodes[n].id)]
      && forall i :: 0 <= i < NumSlots ==> Used(BlockOf(db.store, db.nodes[n].id)[i])
    ensures forall k :: Holds(AddAt(db, n, key).1, k) <==>
      Holds(db, k) || (AddAt(db, n, key).0 == ResOK && k == key)
  {
    var s := BlockOf(db.store, db.nodes[n].id);
    var r := AddDomain(s, key);
    AddDomainKeepsWF(s, key);
    AddedKeysIn(s, key, db.nodes[n]);
    ReplaceConsistent(db, n, r.1);
    SpotSorted(s, key);
    if r.0 == ResNoSpaceLeft {
      AddDomainNoSpace(s, key);
    }
    forall k
      ensures Holds(AddAt(db, n, key).1, k) <==> Holds(db, k) || (r.0 == ResOK && k == key)
    {
      AddedHeaders(s, key, k);
      HoldsReplace(db, n, r.1, key, r.0 == ResOK, k);
    }
  }

  /** A full block cannot take a key it lacks. */
  lemma FullRefuses(s: Block, key: Key)
    requires WF(s) && !HasHeader(s, key)
    requires forall i :: 0 <= i < |s| ==> Used(s[i])
    ensures AddDomain(s, key).0 == ResNoSpaceLeft
  {
    AddDomainKeepsWF(s, key);
    SpotSorted(s, key);
    UsedCountBounds(s);
    UsedCountBounds(AddDomain(s, key).1);
  }

  // ---------------------------------------------------------------------
  // The split of a full block

  /** splitBlock of a full block of node nd into a zeroed block: it
      cannot abort; the split point pos holds a header of nd's range,
      above nd's minimum unless pos is 0; slots [0, pos) stay and the rest
      moves to the front of the new block. */
  lemma SplitPoint(s: Block, nd: Node)
    requires WF(s) && |s| == NumSlots && KeysIn(s, nd)
    requires SplitPos(s) >= 0
    ensures var pos := SplitPos(s);
      0 <= pos < NumSlots - 16 && s[pos].Domain? && Covers(nd, s[pos].key)
      && (pos > 0 ==> Less(nd.min, s[pos].key))
      && Split(s, EmptyBlock(NumSlots)) == Done((Lower(s, pos), Upper(s, pos)))
      && SplitOk(s, (Lower(s, pos), Upper(s, pos)))
      && Upper(s, pos)[0] == s[pos]
  {
    assert NumSlots % 16 == 0;
    SplitSpec(s);
    SplitPosSpec(s);
    assert s[SplitPos(s)].Domain?;
    assert s[0].Domain?;
    var pos := SplitPos(s);
    SplitIntoEmpty(s, pos);
    assert Covers(nd, s[pos].key);
    if pos > 0 {
      assert Covers(nd, s[0].key) && Less(s[0].key, s[pos].key);
      LessEqIsLessOrEq(nd.min, s[0].key);
      if nd.min != s[0].key {
        LessTrans(nd.min, s[0].key, s[pos].key);
      }
    }
  }

  /** A full well-formed block has a split point. */
  lemma FullSplits(s: Block)
    requires WF(s) && |s| == NumSlots && forall i :: 0 <= i < |s| ==> Used(s[i])
    ensures SplitPos(s) >= 0
  {
    assert NumSlots % 16 == 0;
    SplitPosSpec(s);
    assert s[0].Domain?;
  }

  /** The split addDomain and addIp4Record make of node n's block:
      block current_id, still zeroed, takes the upper part, and node n is
      split at the key of its first header. */
  lemma SplitFacts(db: Db, n: nat)
    requires Sized(db.store) && FreshEmpty(db.store, db.currentId) && n < |db.nodes| && db.currentId < 0xFFFF_FFFF
    requires WF(BlockOf(db.store, db.nodes[n].id)) && KeysIn(BlockOf(db.store, db.nodes[n].id), db.nodes[n])
    requires SplitPos(BlockOf(db.store, db.nodes[n].id)) >= 0
    ensures var s := BlockOf(db.store, db.nodes[n].id);
      var pos := SplitPos(s);
      0 <= pos < NumSlots - 16 && s[pos].Domain? && Covers(db.nodes[n], s[pos].key)
      && (pos > 0 ==> Less(db.nodes[n].min, s[pos].key))
      && SplitOk(s, (Lower(s, pos), Upper(s, pos)))
      && SplitNode(db, n) == Done(Db(SplitNodes(db.nodes, n, s[pos].key, db.currentId), db.currentId + 1,
           db.store[db.nodes[n].id := Lower(s, pos)][db.currentId := Upper(s, pos)]))
  {
    var s := BlockOf(db.store, db.nodes[n].id);
    SplitPoint(s, db.nodes[n]);
    var pos := SplitPos(s);
    SplitNodeIs(db, n, s, Lower(s, pos), Upper(s, pos));
  }

  /** Slots [0, pos) of s, zero-padded: what splitBlock leaves. */
  function Lower(s: Block, pos: nat): Block
    requires pos <= |s|
  {
    s[..pos] + EmptyBlock(|s| - pos)
  }

  /** Slots [pos, N) of s, zero-padded: what splitBlock moves. */
  function Upper(s: Block, pos: nat): Block
    requires pos <= |s|
  {
    s[pos..] + EmptyBlock(pos)
  }

  /** SplitNode spelled out, once the split of the block is known. */
  lemma SplitNodeIs(db: Db, n: nat, s: Block, o: Block, t: Block)
    requires Sized(db.store) && n < |db.nodes| && db.currentId < 0xFFFF_FFFF
    requires FreshEmpty(db.store, db.currentId)
    requires s == BlockOf(db.store, db.nodes[n].id)
    requires Split(s, EmptyBlock(NumSlots)) == Done((o, t)) && |t| > 0 && t[0].Domain?
    ensures SplitNode(db, n) == Done(Db(SplitNodes(db.nodes, n, t[0].key, db.currentId), db.currentId + 1,
           db.store[db.nodes[n].id := o][db.currentId := t]))
  {
    assert BlockOf(db.store, db.currentId) == EmptyBlock(NumSlots);
    assert FirstHeader(t) == 0;
  }

  /** The part splitBlock leaves holds keys of [min, k). */
  lemma LowerKeysIn(s: Block, pos: nat, nd: Node)
    requires Sorted(s) && KeysIn(s, nd) && pos < |s| && s[pos].Domain?
    ensures KeysIn(s[..pos] + EmptyBlock(|s| - pos), nd.(max := s[pos].key))
  {
    var o := s[..pos] + EmptyBlock(|s| - pos);
    forall j | 0 <= j < |o| && o[j].Domain?
      ensures Covers(nd.(max := s[pos].key), o[j].key)
    {
      assert j < pos && o[j] == s[j];
    }
  }

  /** The part splitBlock moves holds keys of [k, max). */
  lemma UpperKeysIn(s: Block, pos: nat, nd: Node, id: U32)
    requires Sorted(s) && KeysIn(s, nd) && pos < |s| && s[pos].Domain?
    ensures KeysIn(s[pos..] + EmptyBlock(pos), Node(s[pos].key, nd.max, id))
  {
    var t := s[pos..] + EmptyBlock(pos);
    forall j | 0 <= j < |t| && t[j].Domain?
      ensures Covers(Node(s[pos].key, nd.max, id), t[j].key)
    {
      assert j < |s| - pos && t[j] == s[pos + j];
      LessEqIsLessOrEq(s[pos].key, t[j].key);
    }
  }

  /** db2 is db with node n split at k into block current_id: node n
      keeps [min, k) and block o, the new node right after it takes
      [k, max) and block t, and current_id moves on. */
  ghost predicate SplitInto(db: Db, n: nat, k: Key, o: Block, t: Block, db2: Db)
  {
    n < |db.nodes| && db.currentId < 0xFFFF_FFFF && |o| == NumSlots && |t| == NumSlots
    && db2.nodes == db.nodes[..n] + [db.nodes[n].(max := k), Node(k, db.nodes[n].max, db.currentId)] + db.nodes[n + 1..]
    && db2.currentId == db.currentId + 1
    && db2.store == db.store[db.nodes[n].id := o][db.currentId := t]
  }

  /** Node i of the table after the split, and the block it names. */
  lemma SplitBlockAt(db: Db, n: nat, k: Key, o: Block, t: Block, db2: Db, i: nat)
    requires Sized(db.store) && IdsDistinct(db.nodes) && IdsBelow(db.nodes, db.currentId)
    requires SplitInto(db, n, k, o, t, db2) && i < |db2.nodes|
    ensures Sized(db2.store)
    ensures i < n ==> db2.nodes[i] == db.nodes[i] && BlockOf(db2.store, db2.nodes[i].id) == BlockOf(db.store, db.nodes[i].id)
    ensures i == n ==> db2.nodes[i] == db.nodes[n].(max := k) && BlockOf(db2.store, db2.nodes[i].id) == o
    ensures i == n + 1 ==> db2.nodes[i] == Node(k, db.nodes[n].max, db.currentId) && BlockOf(db2.store, db2.nodes[i].id) == t
    ensures n + 1 < i ==> db2.nodes[i] == db.nodes[i - 1] && BlockOf(db2.store, db2.nodes[i].id) == BlockOf(db.store, db.nodes[i - 1].id)
  {
    if i < n {
      assert db2.nodes[i] == db.nodes[i];
    } else if n + 1 < i {
      assert db2.nodes[i] == db.nodes[i - 1];
    }
  }

  /** The split keeps the set of domains the index holds, when the two
      parts hold between them the headers of node n's block. */
  lemma HoldsSplit(db: Db, n: nat, k: Key, o: Block, t: Block, db2: Db, key: Key)
    requires Sized(db.store) && IdsDistinct(db.nodes) && IdsBelow(db.nodes, db.currentId)
    requires SplitInto(db, n, k, o, t, db2)
    requires HasHeader(BlockOf(db.store, db.nodes[n].id), key) <==> HasHeader(o, key) || HasHeader(t, key)
    ensures Sized(db2.store) && (Holds(db2, key) <==> Holds(db, key))
  {
    SplitBlockAt(db, n, k, o, t, db2, 0);
    if Holds(db2, key) {
      var i :| 0 <= i < |db2.nodes| && HasHeader(BlockOf(db2.store, db2.nodes[i].id), key);
      HoldsFromSplit(db, n, k, o, t, db2, key, i);
    }
    if Holds(db, key) {
      var j :| 0 <= j < |db.nodes| && HasHeader(BlockOf(db.store, db.nodes[j].id), key);
      HoldsIntoSplit(db, n, k, o, t, db2, key, j);
    }
  }

  lemma HoldsFromSplit(db: Db, n: nat, k: Key, o: Block, t: Block, db2: Db, key: Key, i: nat)
    requires Sized(db.store) && IdsDistinct(db.nodes) && IdsBelow(db.nodes, db.currentId)
    requires SplitInto(db, n, k, o, t, db2)
    requires HasHeader(o, key) || HasHeader(t, key) ==> HasHeader(BlockOf(db.store, db.nodes[n].id), key)
    requires i < |db2.nodes| && Sized(db2.store) && HasHeader(BlockOf(db2.store, db2.nodes[i].id), key)
    ensures Holds(db, key)
  {
    SplitBlockAt(db, n, k, o, t, db2, i);
    if n + 1 < i {
      assert HasHeader(BlockOf(db.store, db.nodes[i - 1].id), key);
    } else if n <= i {
      assert HasHeader(BlockOf(db.store, db.nodes[n].id), key);
    } else {
      assert HasHeader(BlockOf(db.store, db.nodes[i].id), key);
    }
  }

  lemma HoldsIntoSplit(db: Db, n: nat, k: Key, o: Block, t: Block, db2: Db, key: Key, j: nat)
    requires Sized(db.store) && IdsDistinct(db.nodes) && IdsBelow(db.nodes, db.currentId)
    requires SplitInto(db, n, k, o, t, db2)
    requires HasHeader(BlockOf(db.store, db.nodes[n].id), key) ==> HasHeader(o, key) || HasHeader(t, key)
    requires j < |db.nodes| && HasHeader(BlockOf(db.store, db.nodes[j].id), key)
    ensures Sized(db2.store) && Holds(db2, key)
  {
    SplitBlockAt(db, n, k, o, t, db2, 0);
    if j < n {
      SplitBlockAt(db, n, k, o, t, db2, j);
      assert HasHeader(BlockOf(db2.store, db2.nodes[j].id), key);
    } else if j == n {
      SplitBlockAt(db, n, k, o, t, db2, n);
      SplitBlockAt(db, n, k, o, t, db2, n + 1);
      if HasHeader(o, key) {
        assert HasHeader(BlockOf(db2.store, db2.nodes[n].id), key);
      } else {
        assert HasHeader(BlockOf(db2.store, db2.nodes[n + 1].id), key);
      }
    } else {
      SplitBlockAt(db, n, k, o, t, db2, j + 1);
      assert HasHeader(BlockOf(db2.store, db2.nodes[j + 1].id), key);
    }
  }

  /** A header of s is in one of the two parts of its split, and back. */
  lemma SplitHeaders(s: Block, pos: nat, key: Key)
    requires pos < |s|
    ensures HasHeader(s, key) <==> HasHeader(Lower(s, pos), key) || HasHeader(Upper(s, pos), key)
  {
    var o := Lower(s, pos);
    var t := Upper(s, pos);
    if HasHeader(s, key) {
      var i :| 0 <= i < |s| && s[i].Domain? && s[i].key == key;
      if i < pos {
        assert o[i] == s[i];
      } else {
        assert t[i - pos] == s[i];
      }
    }
    if HasHeader(o, key) {
      var i :| 0 <= i < |o| && o[i].Domain? && o[i].key == key;
      assert i < pos && o[i] == s[i];
    }
    if HasHeader(t, key) {
      var i :| 0 <= i < |t| && t[i].Domain? && t[i].key == key;
      assert i < |s| - pos && t[i] == s[pos + i];
    }
  }

  /** The split keeps the stored domains. */
  lemma SplitKeepsHolds(db: Db, n: nat, s: Block, pos: nat, db2: Db)
    requires Sized(db.store) && IdsDistinct(db.nodes) && IdsBelow(db.nodes, db.currentId) && n < |db.nodes|
    requires s == BlockOf(db.store, db.nodes[n].id) && pos < |s| && s[pos].Domain?
    requires SplitInto(db, n, s[pos].key, Lower(s, pos), Upper(s, pos), db2)
    ensures Sized(db2.store) && forall k :: Holds(db2, k) <==> Holds(db, k)
  {
    SplitBlockAt(db, n, s[pos].key, Lower(s, pos), Upper(s, pos), db2, 0);
    forall k | true
      ensures Holds(db2, k) <==> Holds(db, k)
    {
      SplitHeaders(s, pos, k);
      HoldsSplit(db, n, s[pos].key, Lower(s, pos), Upper(s, pos), db2, k);
    }
  }

  /** A split at a header above node n's minimum keeps the index
      consistent. */
  lemma SplitConsistent(db: Db, n: nat, s: Block, pos: nat, db2: Db)
    requires Consistent(db) && n < |db.nodes|
    requires s == BlockOf(db.store, db.nodes[n].id) && pos < |s| && s[pos].Domain?
    requires Less(db.nodes[n].min, s[pos].key) && Less(s[pos].key, db.nodes[n].max)
    requires SplitOk(s, (Lower(s, pos), Upper(s, pos)))
    requires SplitInto(db, n, s[pos].key, Lower(s, pos), Upper(s, pos), db2)
    ensures Consistent(db2)
  {
    var k := s[pos].key;
    SplitTiled(db.nodes, n, k, db.currentId, db2.nodes);
    SplitBlockAt(db, n, k, Lower(s, pos), Upper(s, pos), db2, 0);
    SplitIds(db, n, k, Lower(s, pos), Upper(s, pos), db2);
    SplitBlocks(db, n, s, pos, db2);
    SplitFresh(db, n, k, Lower(s, pos), Upper(s, pos), db2);
  }

  lemma SplitIds(db: Db, n: nat, k: Key, o: Block, t: Block, db2: Db)
    requires Sized(db.store) && IdsDistinct(db.nodes) && IdsBelow(db.nodes, db.currentId)
    requires SplitInto(db, n, k, o, t, db2)
    ensures IdsDistinct(db2.nodes) && IdsBelow(db2.nodes, db2.currentId)
  {
    var r := db2.nodes;
    forall i, j | 0 <= i < j < |r|
      ensures r[i].id != r[j].id
    {
      SplitBlockAt(db, n, k, o, t, db2, i);
      SplitBlockAt(db, n, k, o, t, db2, j);
    }
    forall i | 0 <= i < |r|
      ensures r[i].id < db2.currentId
    {
      SplitBlockAt(db, n, k, o, t, db2, i);
    }
  }

  lemma SplitBlocks(db: Db, n: nat, s: Block, pos: nat, db2: Db)
    requires Sized(db.store) && IdsDistinct(db.nodes) && IdsBelow(db.nodes, db.currentId) && n < |db.nodes|
    requires BlocksOk(db.nodes, db.store)
    requires s == BlockOf(db.store, db.nodes[n].id) && pos < |s| && s[pos].Domain?
    requires WF(Lower(s, pos)) && WF(Upper(s, pos))
    requires SplitInto(db, n, s[pos].key, Lower(s, pos), Upper(s, pos), db2)
    ensures Sized(db2.store) && BlocksOk(db2.nodes, db2.store)
  {
    var k := s[pos].key;
    var r := db2.nodes;
    SplitBlockAt(db, n, k, Lower(s, pos), Upper(s, pos), db2, 0);
    forall i | 0 <= i < |r|
      ensures WF(BlockOf(db2.store, r[i].id)) && KeysIn(BlockOf(db2.store, r[i].id), r[i])
    {
      SplitBlockAt(db, n, k, Lower(s, pos), Upper(s, pos), db2, i);
      if i == n {
        LowerKeysIn(s, pos, db.nodes[n]);
      } else if i == n + 1 {
        UpperKeysIn(s, pos, db.nodes[n], db.currentId);
      }
    }
  }

  lemma SplitFresh(db: Db, n: nat, k: Key, o: Block, t: Block, db2: Db)
    requires Sized(db.store) && IdsBelow(db.nodes, db.currentId) && FreshEmpty(db.store, db.currentId)
    requires SplitInto(db, n, k, o, t, db2)
    ensures FreshEmpty(db2.store, db2.currentId)
  {
    forall id | id in db2.store && id >= db2.currentId
      ensures db2.store[id] == EmptyBlock(NumSlots)
    {
      assert id != db.currentId && id != db.nodes[n].id;
    }
  }

  /** What splitBlock leaves has free slots; so has what it moves, unless
      it moves the whole block. */
  lemma PartsHaveRoom(s: Block, pos: nat)
    requires pos < |s| - 1
    ensures !Used(Lower(s, pos)[|s| - 1])
    ensures pos > 0 ==> !Used(Upper(s, pos)[|s| - 1])
  {
  }

  /** The redo on a consistent index where the block for key has room and
      lacks key: it adds key. */
  lemma RetryRoom(db: Db, key: Key)
    requires Consistent(db) && Less(key, DomainMax())
    requires 0 <= LookupNode(db.nodes, key) < |db.nodes|
    requires var b := BlockOf(db.store, db.nodes[LookupNode(db.nodes, key)].id);
      !Used(b[NumSlots - 1]) && !HasHeader(b, key)
    ensures RetryAdd(db, key).Done?
    ensures var r := RetryAdd(db, key).value;
      r.0 == ResOK && Consistent(r.1) && forall k :: Holds(r.1, k) <==> Holds(db, k) || k == key
  {
    var m := LookupNode(db.nodes, key);
    InsertKeeps(db, m, key);
  }

  /** addDomain's redo after splitting the full block n that lacks key:
      it aborts exactly when the block SplitsWhole; otherwise it adds the
      key, and the index stays consistent and holds key besides what it
      held. */
  lemma SplitRedo(db: Db, n: nat, key: Key)
    requires Consistent(db) && db.currentId < 0xFFFF_FFFF && Less(key, DomainMax())
    requires n < |db.nodes| && n == LookupNode(db.nodes, key)
    requires forall i :: 0 <= i < NumSlots ==> Used(BlockOf(db.store, db.nodes[n].id)[i])
    requires !HasHeader(BlockOf(db.store, db.nodes[n].id), key)
    ensures SplitNode(db, n).Done?
    ensures RetryAdd(SplitNode(db, n).value, key).Abort? <==> SplitsWhole(BlockOf(db.store, db.nodes[n].id), key)
    ensures RetryAdd(SplitNode(db, n).value, key).Done? ==>
      var r := RetryAdd(SplitNode(db, n).value, key).value;
      r.0 == ResOK && Consistent(r.1) && forall k :: Holds(r.1, k) <==> Holds(db, k) || k == key
  {
    var ns := db.nodes;
    var s := BlockOf(db.store, ns[n].id);
    var nw := db.currentId;
    FullSplits(s);
    SplitFacts(db, n);
    var pos := SplitPos(s);
    var k := s[pos].key;
    var db2 := SplitNode(db, n).value;
    SplitNodesShape(ns, n, k, nw);
    assert SplitInto(db, n, k, Lower(s, pos), Upper(s, pos), db2);
    LookupAfterSplit(ns, n, k, nw, key);
    SplitBlockAt(db, n, k, Lower(s, pos), Upper(s, pos), db2, 0);
    RedoOn(db, n, key, s, pos, db2);
  }

  /** The redo on the split index db2. */
  lemma RedoOn(db: Db, n: nat, key: Key, s: Block, pos: nat, db2: Db)
    requires Consistent(db) && Less(key, DomainMax())
    requires n < |db.nodes| && Covers(db.nodes[n], key)
    requires s == BlockOf(db.store, db.nodes[n].id) && !HasHeader(s, key)
    requires forall i :: 0 <= i < |s| ==> Used(s[i])
    requires pos == SplitPos(s) && pos < NumSlots - 16 && s[pos].Domain?
    requires Covers(db.nodes[n], s[pos].key) && (pos > 0 ==> Less(db.nodes[n].min, s[pos].key))
    requires SplitOk(s, (Lower(s, pos), Upper(s, pos)))
    requires SplitInto(db, n, s[pos].key, Lower(s, pos), Upper(s, pos), db2) && Sized(db2.store)
    requires LookupNode(db2.nodes, key) == if Less(key, s[pos].key) then n else n + 1
    ensures RetryAdd(db2, key).Abort? <==> SplitsWhole(s, key)
    ensures RetryAdd(db2, key).Done? ==>
      var r := RetryAdd(db2, key).value;
      r.0 == ResOK && Consistent(r.1) && forall k :: Holds(r.1, k) <==> Holds(db, k) || k == key
  {
    var nd := db.nodes[n];
    var k := s[pos].key;
    var m := LookupNode(db2.nodes, key);
    SplitBlockAt(db, n, k, Lower(s, pos), Upper(s, pos), db2, m);
    SplitHeaders(s, pos, key);
    if !Less(key, k) && pos == 0 {
      assert Upper(s, pos) == s;
      FullRefuses(s, key);
    } else {
      if Less(key, k) {
        LessEqIsLessOrEq(nd.min, key);
        if nd.min != key {
          LessTrans(nd.min, key, k);
        }
      }
      SplitConsistent(db, n, s, pos, db2);
      SplitKeepsHolds(db, n, s, pos, db2);
      PartsHaveRoom(s, pos);
      RetryRoom(db2, key);
    }
  }

  // ---------------------------------------------------------------------
  // addDomain

  /** addDomain on a consistent index: resDomainTooLong, index untouched,
      for a domain the codec refuses; an assert fails exactly when the
      redo finds no room (RedoFull); otherwise the index stays consistent,
      ALREADY_EXISTS comes back exactly for a stored domain and OK for a
      new one, and the stored domains afterwards are the old ones plus
      this one. */
  lemma AddDomainKeeps(db: Db, d: DomainCodec.CString)
    requires Consistent(db) && db.currentId < 0xFFFF_FFFF
    ensures DomainCodec.DomainKey(d).None? ==> AddDomainOf(db, d) == Done((ResDomainTooLong, db))
    ensures DomainCodec.DomainKey(d).Some? ==>
      (AddDomainOf(db, d).Abort? <==> RedoFull(db, DomainCodec.DomainKey(d).value))
    ensures DomainCodec.DomainKey(d).Some? && AddDomainOf(db, d).Done? ==>
      var key := DomainCodec.DomainKey(d).value;
      var r := AddDomainOf(db, d).value;
      Consistent(r.1)
      && (r.0 == ResAlreadyExists <==> Holds(db, key)) && (r.0 == ResOK <==> !Holds(db, key))
      && forall k :: Holds(r.1, k) <==> Holds(db, k) || k == key
  {
    if DomainCodec.DomainKey(d).Some? {
      var key := DomainCodec.DomainKey(d).value;
      DomainCodec.KeyBelowMax(d);
      LookupHolds(db, key);
      var n := LookupNode(db.nodes, key);
      var s := BlockOf(db.store, db.nodes[n].id);
      InsertKeeps(db, n, key);
      var r := AddAt(db, n, key);
      SpotSorted(s, key);
      if r.0 == ResNoSpaceLeft {
        var db1 := r.1;
        assert BlockOf(db1.store, db1.nodes[n].id) == s;
        SplitRedo(db1, n, key);
      } else if RedoFull(db, key) {
        FullRefuses(s, key);
      }
    }
  }
}
