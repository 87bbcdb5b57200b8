/** Properties of addDomainIpv4 and getIpsv4 on the block model: the
    invariant is kept, the record joins the domain's chain, and a refusal
    leaves a full block as it was. */
module IpLemmas {
  import opened Keys
  import opened Records
  import opened Slots
  import opened Wrappers
  import opened BlockSpec
  import opened BlockLemmas

  // ---------------------------------------------------------------------
  // lookupDomain

  /** What lookupDomain can find: the header of the key, or, for the
      all-zero key only, some other slot whose first record is empty. */
  lemma LookupFinds(s: Block, key: Key)
    ensures var p := LookupDomain(s, key);
      p >= 0 ==>
        (s[p].Domain? && s[p].key == key)
        || (!s[p].Domain? && key == DomainMin() && Recs(s[p])[0].ip == 0)
  {
    var p := LookupDomain(s, key);
    if p >= 0 { KeyBytesOf(s[p], key); }
  }

  /** For every key but DOMAIN_MIN, lookupDomain finds a slot exactly when
      a header holds the key, and then it finds that header. */
  lemma LookupIsHeader(s: Block, key: Key)
    requires key != DomainMin()
    ensures LookupDomain(s, key) >= 0 <==> HasHeader(s, key)
    ensures LookupDomain(s, key) >= 0 ==>
      s[LookupDomain(s, key)].Domain? && s[LookupDomain(s, key)].key == key
  {
    LookupFinds(s, key);
    if HasHeader(s, key) {
      var i :| 0 <= i < |s| && s[i].Domain? && s[i].key == key;
      KeyBytesOf(s[i], key);
    }
  }

  /** A block that agrees on a prefix holding the match gives the same match. */
  lemma LookupPrefix(s: Block, m: Block, key: Key, e: nat)
    requires e <= |s| == |m| && m[..e] == s[..e]
    requires 0 <= LookupDomain(s, key) < e
    ensures LookupDomain(m, key) == LookupDomain(s, key)
  {
    var p := LookupDomain(s, key);
    assert m[p] == s[..e][p];
    forall j | 0 <= j < p ensures KeyBytes(m[j]) != key {
      assert m[j] == s[..e][j];
    }
  }

  /** In a sorted block the search for a key that has a header stops at it. */
  lemma SpotAtHeader(s: Block, key: Key, p: nat)
    requires Sorted(s) && p < |s| && s[p].Domain? && s[p].key == key
    ensures StopAt(s, key, 0) == p && Spot(s, key) == SpotResult(AlreadyExists, p)
    ensures RoomPoint(s, key, p) == ChainEnd(s, p + 1)
  {
    LessIrreflexive(key);
    StopAtIs(s, key, p);
  }

  // ---------------------------------------------------------------------
  // The three ways addDomainIpv4 stores a record

  /** Replacing a slot by one of the same kind and key keeps the invariant
      and the header keys. */
  lemma SameShapeKeepsWF(s: Block, j: nat, sl: Slot)
    requires WF(s) && j < |s|
    requires sl.Free? == s[j].Free? && sl.Domain? == s[j].Domain? && sl.Cont? == s[j].Cont?
    requires sl.Domain? ==> sl.key == s[j].key
    ensures WF(s[j := sl])
  {
    var t := s[j := sl];
    assert forall i :: 0 <= i < |s| ==>
      t[i].Domain? == s[i].Domain? && t[i].Free? == s[i].Free? && t[i].Cont? == s[i].Cont?
      && (t[i].Domain? ==> t[i].key == s[i].key);
  }

  lemma SameShapeCounts(s: Block, j: nat, sl: Slot)
    requires j < |s|
    requires sl.Free? == s[j].Free? && sl.Domain? == s[j].Domain?
    requires sl.Domain? ==> sl.key == s[j].key
    ensures HeaderKeys(s[j := sl]) == HeaderKeys(s)
    ensures UsedCount(s[j := sl]) == UsedCount(s)
  {
    var t := s[j := sl];
    assert UsedBits(t) == UsedBits(s);
    HeaderKeysSplit(s, j);
    HeaderKeysSplit(t, j);
    assert t[..j] == s[..j];
    SameShapeTail(s, j, sl);
  }

  lemma SameShapeTail(s: Block, j: nat, sl: Slot)
    requires j < |s|
    requires sl.Domain? == s[j].Domain? && (sl.Domain? ==> sl.key == s[j].key)
    ensures HeaderKeys(s[j := sl][j..]) == HeaderKeys(s[j..])
  {
    var t := s[j := sl];
    assert t[j..][1..] == s[j..][1..];
  }

  /** The chain of header p ends at e, and every slot before e is used. */
  ghost predicate ChainAt(s: Block, p: nat, e: nat)
  {
    p < e <= |s| && s[p].Domain? && e == ChainEnd(s, p + 1)
    && forall i :: 0 <= i < e ==> Used(s[i])
  }

  lemma ChainAtWF(s: Block, p: nat)
    requires WF(s) && p < |s| && s[p].Domain?
    ensures ChainAt(s, p, ChainEnd(s, p + 1))
  {
    UsedBefore(s, p);
  }

  /** Claiming the free slot u for a continuation at e, the slots from e
      to u moving up one: e == u is the free slot right after the chain,
      e < u the slot makeRoomMove freed. */
  lemma ContInsertOk(s: Block, e: nat, u: nat, rec: IPv4Record)
    requires 0 < e <= u < |s| && s[u].Free? && forall i :: 0 <= i < u ==> Used(s[i])
    ensures InsertOk(s, e, u, NewCont(rec))
  {
  }

  lemma ClaimKeepsWF(s: Block, e: nat, u: nat, rec: IPv4Record)
    requires WF(s) && InsertOk(s, e, u, NewCont(rec))
    ensures WF(InsertAt(s, e, u, NewCont(rec)))
    ensures HeaderKeys(InsertAt(s, e, u, NewCont(rec))) == HeaderKeys(s)
    ensures UsedCount(InsertAt(s, e, u, NewCont(rec))) == UsedCount(s) + 1
  {
    InsertKeepsWF(s, e, u, NewCont(rec));
    ContInsertCounts(s, e, u, rec);
  }

  /** A continuation adds a used slot and no header. */
  lemma ContInsertCounts(s: Block, e: nat, u: nat, rec: IPv4Record)
    requires e <= u < |s| && s[u].Free?
    ensures HeaderKeys(InsertAt(s, e, u, NewCont(rec))) == HeaderKeys(s)
    ensures UsedCount(InsertAt(s, e, u, NewCont(rec))) == UsedCount(s) + 1
  {
    InsertHeaderKeys(s, e, u, NewCont(rec));
    InsertUsedCount(s, e, u, NewCont(rec));
    ContAddsNoKey(HeaderKeys(InsertAt(s, e, u, NewCont(rec))), HeaderKeys(s), HeaderKeys(s[..e]), HeaderKeys(s[e..]), NewCont(rec));
  }

  lemma ContAddsNoKey(kt: seq<Key>, ks: seq<Key>, a: seq<Key>, b: seq<Key>, sl: Slot)
    requires sl.Cont? && kt == a + (if sl.Domain? then [sl.key] else []) + b && ks == a + b
    ensures kt == ks
  {
    assert a + [] + b == a + b;
  }

  // ---------------------------------------------------------------------
  // The retry after makeRoomMove

  /** The retry without further recursion, after the move shifted the
      slots from the chain end e to the free slot f, claims slot e. */
  lemma RetryClaims(s: Block, key: Key, rec: IPv4Record, p: nat, e: nat, f: nat)
    requires p == LookupDomain(s, key) && ChainAt(s, p, e)
    requires FirstWithRoom(s, p, e) < 0
    requires e < f < |s| && s[f].Free?
    ensures AddIp(Shift(s, e, f), key, rec, false)
      == Done((true, Shift(s, e, f)[e := NewCont(rec)]))
  {
    var m := Shift(s, e, f);
    assert m[..e] == s[..e];
    LookupPrefix(s, m, key, e);
    forall i | p + 1 <= i < e ensures m[i].Cont? { assert m[i] == s[i]; }
    assert ChainEnd(m, p + 1) == e by { ChainEndIs(m, p + 1, e); }
    forall i | p <= i < e ensures FirstZeroIp(Recs(m[i])) < 0 { assert m[i] == s[i]; }
    FirstWithRoomNone(m, p, e);
  }

  lemma ChainEndIs(s: Block, i: nat, e: nat)
    requires i <= e <= |s| && (forall j :: i <= j < e ==> s[j].Cont?) && (e < |s| ==> !s[e].Cont?)
    ensures ChainEnd(s, i) == e
    decreases e - i
  {
    if i < e { ChainEndIs(s, i + 1, e); }
  }

  lemma FirstWithRoomNone(s: Block, lo: nat, hi: nat)
    requires lo <= hi <= |s| && forall i :: lo <= i < hi ==> FirstZeroIp(Recs(s[i])) < 0
    ensures FirstWithRoom(s, lo, hi) == -1
    decreases hi - lo
  {
    if lo < hi { FirstWithRoomNone(s, lo + 1, hi); }
  }

  /** Where the retry calls makeRoomMove, the move point is the end of
      the chain, a header or the end of the block. */
  lemma RetryRoom(s: Block, key: Key, p: nat, e: nat)
    requires p < |s| && Spot(s, key) == SpotResult(AlreadyExists, p) && e == ChainEnd(s, p + 1)
    requires RoomPoint(s, key, p) == e && !(e < |s| && s[e].Free?)
    ensures MakeRoom(s, key)
      == if e == |s| || FirstFreeIn(s, e + 1, |s|) < 0 then Done(s)
         else Done(Shift(s, e, FirstFreeIn(s, e + 1, |s|)))
  {
    assert e < |s| ==> s[e].Domain?;
  }

  /** An attempt without retry that finds no room changes nothing. */
  lemma NoRoomFalse(s: Block, key: Key, rec: IPv4Record, p: nat, e: nat)
    requires p == LookupDomain(s, key) && e == ChainEnd(s, p + 1)
    requires FirstWithRoom(s, p, e) < 0 && !(e < |s| && s[e].Free?)
    ensures AddIp(s, key, rec, false) == Done((false, s))
  {
  }

  /** The retry branch: makeRoomMove's asserts hold, and the second attempt
      either claims the slot the move freed or, when no free slot follows,
      gives up with the block unchanged. */
  lemma RetryOutcome(s: Block, key: Key, rec: IPv4Record, p: nat, e: nat)
    requires WF(s) && p == LookupDomain(s, key) && ChainAt(s, p, e) && s[p].key == key
    requires FirstWithRoom(s, p, e) < 0 && !(e < |s| && s[e].Free?)
    ensures var f := if e < |s| then FirstFreeIn(s, e + 1, |s|) else -1;
      AddIp(s, key, rec, true)
        == if f < 0 then Done((false, s)) else Done((true, InsertAt(s, e, f, NewCont(rec))))
  {
    SpotAtHeader(s, key, p);
    RetryRoom(s, key, p, e);
    var f := if e < |s| then FirstFreeIn(s, e + 1, |s|) else -1;
    if f >= 0 {
      RetryClaims(s, key, rec, p, e, f);
      ShiftThenWrite(s, e, f, NewCont(rec));
    } else {
      NoRoomFalse(s, key, rec, p, e);
    }
  }

  /** Where the retry claims slot e, the insertion is one that keeps the
      invariant. */
  lemma RetryInsertOk(s: Block, p: nat, e: nat, f: nat, rec: IPv4Record)
    requires WF(s) && ChainAt(s, p, e) && e < |s| && !s[e].Free? && f == FirstFreeIn(s, e + 1, |s|) && e < f
    ensures InsertOk(s, e, f, NewCont(rec))
  {
  }

  // ---------------------------------------------------------------------
  // addDomainIpv4 keeps the block invariant

  /** The ways addDomainIpv4 leaves the block: unchanged and false, one
      record entry of chain slot j written in place, or a continuation
      inserted at the chain end e in front of free slot u. */
  ghost predicate IpOutcome(s: Block, key: Key, rec: IPv4Record, r: Outcome<(bool, Block)>)
  {
    r.Done? &&
    var (ok, t) := r.value;
    (!ok && t == s)
    || (ok && exists j, z :: 0 <= j < |s| && 0 <= z < |Recs(s[j])| && Recs(s[j])[z].ip == 0
                             && t == s[j := WithRec(s[j], z, rec)])
    || (ok && exists e, u :: 0 < e <= u < |s| && InsertOk(s, e, u, NewCont(rec))
                             && t == InsertAt(s, e, u, NewCont(rec)))
  }

  /** On a well-formed block addDomainIpv4's asserts hold and the result is
      well formed. */
  lemma AddIpKeepsWF(s: Block, key: Key, rec: IPv4Record, retry: bool)
    requires WF(s)
    ensures AddIp(s, key, rec, retry).Done?
    ensures WF(AddIp(s, key, rec, retry).value.1)
    ensures IpOutcome(s, key, rec, AddIp(s, key, rec, retry))
  {
    var p := LookupDomain(s, key);
    if p >= 0 {
      var e := ChainEnd(s, p + 1);
      var j := FirstWithRoom(s, p, e);
      if j >= 0 {
        InPlaceKeepsWF(s, key, rec, retry, p, e, j);
      } else {
        AppendKeepsWF(s, key, rec, retry, p, e);
      }
    }
  }

  lemma InPlaceKeepsWF(s: Block, key: Key, rec: IPv4Record, retry: bool, p: nat, e: nat, j: nat)
    requires WF(s) && p == LookupDomain(s, key) && e == ChainEnd(s, p + 1) && j == FirstWithRoom(s, p, e)
    ensures AddIp(s, key, rec, retry).Done?
    ensures WF(AddIp(s, key, rec, retry).value.1)
    ensures IpOutcome(s, key, rec, AddIp(s, key, rec, retry))
  {
    var z := FirstZeroIp(Recs(s[j]));
    SameShapeKeepsWF(s, j, WithRec(s[j], z, rec));
    assert AddIp(s, key, rec, retry) == Done((true, s[j := WithRec(s[j], z, rec)]));
  }

  lemma AppendKeepsWF(s: Block, key: Key, rec: IPv4Record, retry: bool, p: nat, e: nat)
    requires WF(s) && p == LookupDomain(s, key) && e == ChainEnd(s, p + 1) && FirstWithRoom(s, p, e) < 0
    ensures AddIp(s, key, rec, retry).Done?
    ensures WF(AddIp(s, key, rec, retry).value.1)
    ensures IpOutcome(s, key, rec, AddIp(s, key, rec, retry))
  {
    LookupFinds(s, key);
    assert s[p].Domain?;
    ChainAtWF(s, p);
    if e < |s| && s[e].Free? {
      ClaimAtEnd(s, key, rec, retry, p, e);
    } else if retry {
      RetryOutcome(s, key, rec, p, e);
      var f := if e < |s| then FirstFreeIn(s, e + 1, |s|) else -1;
      if f >= 0 {
        RetryInsertOk(s, p, e, f, rec);
        InsertOutcome(s, key, rec, e, f, AddIp(s, key, rec, retry));
      }
    }
  }

  lemma ClaimAtEnd(s: Block, key: Key, rec: IPv4Record, retry: bool, p: nat, e: nat)
    requires WF(s) && p == LookupDomain(s, key) && ChainAt(s, p, e) && FirstWithRoom(s, p, e) < 0
    requires e < |s| && s[e].Free?
    ensures AddIp(s, key, rec, retry) == Done((true, InsertAt(s, e, e, NewCont(rec))))
    ensures WF(InsertAt(s, e, e, NewCont(rec)))
    ensures IpOutcome(s, key, rec, AddIp(s, key, rec, retry))
  {
    WriteIsInsert(s, e, NewCont(rec));
    ContInsertOk(s, e, e, rec);
    InsertOutcome(s, key, rec, e, e, AddIp(s, key, rec, retry));
  }

  lemma InsertOutcome(s: Block, key: Key, rec: IPv4Record, e: nat, u: nat, r: Outcome<(bool, Block)>)
    requires WF(s) && 0 < e && InsertOk(s, e, u, NewCont(rec))
    requires r == Done((true, InsertAt(s, e, u, NewCont(rec))))
    ensures WF(r.value.1) && IpOutcome(s, key, rec, r)
  {
    ClaimKeepsWF(s, e, u, rec);
  }

  // ---------------------------------------------------------------------
  // Which header lookupDomain finds in a well-formed block

  /** A DOMAIN_MIN header can only be the first slot: no header is below
      it and the first slot cannot be a continuation. */
  lemma MinHeaderFirst(s: Block, i: nat)
    requires WF(s) && i < |s| && s[i].Domain? && s[i].key == DomainMin()
    ensures i == 0
  {
    UsedBefore(s, i);
    MinMaxBounds(s[0].key);
    LessEqIsLessOrEq(DomainMin(), s[0].key);
    LessAsym(DomainMin(), s[0].key);
    LessIrreflexive(DomainMin());
  }

  /** In a well-formed block lookupDomain finds the header of every key
      that has one. */
  lemma LookupWF(s: Block, key: Key)
    requires WF(s) && HasHeader(s, key)
    ensures LookupDomain(s, key) >= 0
    ensures s[LookupDomain(s, key)].Domain? && s[LookupDomain(s, key)].key == key
  {
    if key == DomainMin() {
      var i :| 0 <= i < |s| && s[i].Domain? && s[i].key == key;
      MinHeaderFirst(s, i);
      KeyBytesOf(s[0], key);
    } else {
      LookupIsHeader(s, key);
    }
  }

  // ---------------------------------------------------------------------
  // The records of a chain after addDomainIpv4

  lemma {:induction false} LiveRecsConcat(a: seq<IPv4Record>, b: seq<IPv4Record>)
    ensures LiveRecs(a + b) == LiveRecs(a) + LiveRecs(b)
  {
    if a == [] {
      assert a + b == b;
    } else {
      var ab := a + b;
      assert ab[0] == a[0] && ab[1..] == a[1..] + b;
      LiveRecsConcat(a[1..], b);
      var h := if a[0].ip != 0 then [a[0]] else [];
      assert LiveRecs(ab) == h + (LiveRecs(a[1..]) + LiveRecs(b));
      Assoc(h, LiveRecs(a[1..]), LiveRecs(b));
    }
  }

  /** Filling the first empty entry z puts the record, when live, between
      the live records before z and those after it. */
  lemma LiveRecsWrite(rs: seq<IPv4Record>, z: nat, rec: IPv4Record)
    requires z < |rs| && rs[z].ip == 0
    ensures LiveRecs(rs[z := rec]) == LiveRecs(rs[..z]) + (LiveRecs([rec]) + LiveRecs(rs[z + 1..]))
    ensures LiveRecs(rs) == LiveRecs(rs[..z]) + LiveRecs(rs[z + 1..])
  {
    assert rs[z := rec] == rs[..z] + ([rec] + rs[z + 1..]);
    LiveRecsConcat(rs[..z], [rec] + rs[z + 1..]);
    LiveRecsConcat([rec], rs[z + 1..]);
    assert rs == rs[..z] + ([rs[z]] + rs[z + 1..]);
    LiveRecsConcat(rs[..z], [rs[z]] + rs[z + 1..]);
    LiveRecsConcat([rs[z]], rs[z + 1..]);
    assert LiveRecs([rs[z]]) == [] + LiveRecs([]);
  }

  /** A freshly made continuation holds just the record. */
  lemma NewContLive(rec: IPv4Record)
    ensures LiveRecs(Recs(NewCont(rec))) == LiveRecs([rec])
  {
    var rs := Recs(NewCont(rec));
    LiveRecsNone(rs[1..]);
    assert LiveRecs([rec]) == (if rec.ip != 0 then [rec] else []) + LiveRecs([]);
  }

  lemma {:induction false} LiveRecsNone(rs: seq<IPv4Record>)
    requires forall i :: 0 <= i < |rs| ==> rs[i].ip == 0
    ensures LiveRecs(rs) == []
  {
    if rs != [] { LiveRecsNone(rs[1..]); }
  }

  /** The continuation records from i depend only on the slots from i. */
  lemma ContRecsSame(s: Block, t: Block, i: nat)
    requires i <= |s| == |t| && forall k :: i <= k < |s| ==> t[k] == s[k]
    ensures ContRecsFrom(t, i) == ContRecsFrom(s, i)
    decreases |s| - i
  {
    if i < |s| { ContRecsSame(s, t, i + 1); }
  }

  /** The live records of slots [i, j). */
  ghost function Seg(s: Block, i: nat, j: nat): seq<IPv4Record>
    requires i <= j <= |s|
    decreases j - i
  {
    if i == j then [] else LiveRecs(Recs(s[i])) + Seg(s, i + 1, j)
  }

  lemma SegSame(s: Block, t: Block, i: nat, j: nat)
    requires i <= j <= |s| == |t| && forall k :: i <= k < j ==> t[k] == s[k]
    ensures Seg(t, i, j) == Seg(s, i, j)
    decreases j - i
  {
    if i < j { SegSame(s, t, i + 1, j); }
  }

  /** A run of continuations from i through j splits at j. */
  lemma ContRecsSplit(s: Block, i: nat, j: nat)
    requires i <= j < |s| && forall k :: i <= k <= j ==> s[k].Cont?
    ensures ContRecsFrom(s, i) == Seg(s, i, j) + (LiveRecs(Recs(s[j])) + ContRecsFrom(s, j + 1))
    decreases j - i
  {
    if i < j {
      ContRecsSplit(s, i + 1, j);
      Assoc(LiveRecs(Recs(s[i])), Seg(s, i + 1, j), LiveRecs(Recs(s[j])) + ContRecsFrom(s, j + 1));
    }
  }

  /** Sequence bookkeeping for a write in the middle of a chain: cs and ct
      differ in one part, l and l', and l' is l with n inserted. */
  lemma Splice<T>(cs: seq<T>, ct: seq<T>, h: seq<T>, g: seq<T>, l: seq<T>, l': seq<T>,
                  x: seq<T>, n: seq<T>, y: seq<T>, r: seq<T>)
    requires cs == h + (g + (l + r)) && ct == h + (g + (l' + r))
    requires l == x + y && l' == x + (n + y)
    ensures |h| + |g| + |x| <= |cs|
    ensures ct == cs[..|h| + |g| + |x|] + n + cs[|h| + |g| + |x|..]
  {
    var k := |h| + |g| + |x|;
    assert cs == (h + g + x) + (y + r);
    assert cs[..k] == h + g + x && cs[k..] == y + r;
  }

  /** A continuation at the end e of a run from i, with no continuation
      after it, appends its live records. */
  lemma ContRecsUpTo(s: Block, t: Block, i: nat, e: nat)
    requires |s| == |t| && i <= e < |t|
    requires forall k :: i <= k < e ==> t[k] == s[k] && s[k].Cont?
    requires !s[e].Cont? && t[e].Cont? && (e + 1 < |t| ==> !t[e + 1].Cont?)
    ensures ContRecsFrom(t, i) == ContRecsFrom(s, i) + LiveRecs(Recs(t[e]))
    decreases e - i
  {
    if i < e {
      ContRecsUpTo(s, t, i + 1, e);
      Assoc(LiveRecs(Recs(s[i])), ContRecsFrom(s, i + 1), LiveRecs(Recs(t[e])));
    }
  }

  /** Writing the record into the first empty entry of chain slot j puts
      it among the domain's records and keeps all the others, in order. */
  lemma ChainRecordsInPlace(s: Block, p: nat, j: nat, z: nat, rec: IPv4Record)
    requires p < |s| && s[p].Domain? && p <= j < ChainEnd(s, p + 1)
    requires z < |Recs(s[j])| && Recs(s[j])[z].ip == 0
    ensures var t := s[j := WithRec(s[j], z, rec)];
      var c := ChainRecords(s, p);
      t[p].Domain? && t[p].key == s[p].key
      && exists k :: 0 <= k <= |c| && ChainRecords(t, p) == c[..k] + LiveRecs([rec]) + c[k..]
  {
    var t := s[j := WithRec(s[j], z, rec)];
    var c := ChainRecords(s, p);
    var k := InPlaceAt(s, t, p, j, z, rec);
    assert ChainRecords(t, p) == c[..k] + LiveRecs([rec]) + c[k..];
  }

  /** The position the record takes among the domain's records. */
  lemma InPlaceAt(s: Block, t: Block, p: nat, j: nat, z: nat, rec: IPv4Record) returns (k: nat)
    requires p < |s| && s[p].Domain? && p <= j < ChainEnd(s, p + 1)
    requires z < |Recs(s[j])| && Recs(s[j])[z].ip == 0
    requires t == s[j := WithRec(s[j], z, rec)]
    ensures t[p].Domain?
    ensures k <= |ChainRecords(s, p)|
    ensures ChainRecords(t, p) == ChainRecords(s, p)[..k] + LiveRecs([rec]) + ChainRecords(s, p)[k..]
  {
    var rs := Recs(s[j]);
    var h, g, r := InPlaceParts(s, t, p, j, z, rec);
    LiveRecsWrite(rs, z, rec);
    var x, n, y := LiveRecs(rs[..z]), LiveRecs([rec]), LiveRecs(rs[z + 1..]);
    Splice(ChainRecords(s, p), ChainRecords(t, p), h, g, LiveRecs(rs), LiveRecs(rs[z := rec]), x, n, y, r);
    k := |h| + |g| + |x|;
  }

  /** The domain's records before and after the write, as the part before
      slot j, slot j's live records and the part after it. */
  lemma InPlaceParts(s: Block, t: Block, p: nat, j: nat, z: nat, rec: IPv4Record)
    returns (h: seq<IPv4Record>, g: seq<IPv4Record>, r: seq<IPv4Record>)
    requires p < |s| && s[p].Domain? && p <= j < ChainEnd(s, p + 1) && z < |Recs(s[j])|
    requires t == s[j := WithRec(s[j], z, rec)]
    ensures t[p].Domain?
    ensures ChainRecords(s, p) == h + (g + (LiveRecs(Recs(s[j])) + r))
    ensures ChainRecords(t, p) == h + (g + (LiveRecs(Recs(s[j])[z := rec]) + r))
  {
    if j == p {
      ContRecsSame(s, t, p + 1);
      h, g, r := [], [], ContRecsFrom(s, p + 1);
    } else {
      ContRecsSplit(s, p + 1, j);
      ReplaceInRun(s, t, p + 1, j, WithRec(s[j], z, rec));
      assert t[p] == s[p];
      h, g, r := LiveRecs(Recs(s[p])), Seg(s, p + 1, j), ContRecsFrom(s, j + 1);
    }
  }

  /** A run of continuations from i through j with slot j replaced by
      another continuation. */
  lemma ReplaceInRun(s: Block, t: Block, i: nat, j: nat, sl: Slot)
    requires i <= j < |s| && sl.Cont? && t == s[j := sl] && forall k :: i <= k < j ==> s[k].Cont?
    ensures ContRecsFrom(t, i) == Seg(s, i, j) + (LiveRecs(Recs(sl)) + ContRecsFrom(s, j + 1))
  {
    assert forall k :: i <= k < j ==> t[k] == s[k];
    ContRecsSplit(t, i, j);
    SegSame(s, t, i, j);
    ContRecsSame(s, t, j + 1);
  }

  /** Inserting a continuation at the chain end e, in front of free slot u. */
  lemma ChainRecordsAppend(s: Block, p: nat, e: nat, u: nat, rec: IPv4Record)
    requires NoHoles(s) && p < |s| && s[p].Domain? && e == ChainEnd(s, p + 1) && e <= u < |s| && s[u].Free?
    ensures var t := InsertAt(s, e, u, NewCont(rec));
      t[p] == s[p] && ChainRecords(t, p) == ChainRecords(s, p) + LiveRecs([rec])
  {
    var t := InsertAt(s, e, u, NewCont(rec));
    InsertAtIndex(s, e, u, NewCont(rec));
    assert e + 1 < |t| ==> !t[e + 1].Cont?;
    ContRecsUpTo(s, t, p + 1, e);
    NewContLive(rec);
    Assoc(LiveRecs(Recs(s[p])), ContRecsFrom(s, p + 1), LiveRecs([rec]));
  }

  /** The live records are the entries with ip != 0. */
  lemma {:induction false} LiveRecsMembers(rs: seq<IPv4Record>)
    ensures forall r :: r in LiveRecs(rs) <==> r in rs && r.ip != 0
  {
    if rs != [] {
      LiveRecsMembers(rs[1..]);
      assert forall r :: r in rs <==> r == rs[0] || r in rs[1..];
    }
  }

  // ---------------------------------------------------------------------
  // What addDomainIpv4 does to the domain's records

  /** The record took a place among the domain's records (getIpsv4 of the
      header p), all others kept in order, and the header is still p. */
  ghost predicate Joined(s: Block, p: nat, rec: IPv4Record, t: Block)
    requires p < |s| && s[p].Domain?
  {
    var c := ChainRecords(s, p);
    p < |t| && t[p].Domain? && t[p].key == s[p].key
    && exists k :: 0 <= k <= |c| && ChainRecords(t, p) == c[..k] + LiveRecs([rec]) + c[k..]
  }

  /** Adding a record for a domain of a well-formed block: the header is
      found, the records join its chain when the call reports success, the
      block is unchanged when it reports failure, and the domains stay. */
  lemma AddIpRecords(s: Block, key: Key, rec: IPv4Record, retry: bool)
    requires WF(s) && HasHeader(s, key)
    ensures var p := LookupDomain(s, key);
      0 <= p < |s| && s[p].Domain? && s[p].key == key
      && RecordsOk(s, p, rec, AddIp(s, key, rec, retry))
  {
    LookupWF(s, key);
    var p := LookupDomain(s, key);
    var e := ChainEnd(s, p + 1);
    var j := FirstWithRoom(s, p, e);
    if j >= 0 {
      InPlaceRecords(s, key, rec, retry, p, e, j);
    } else {
      AppendBranchRecords(s, key, rec, retry, p, e);
    }
  }

  /** The promise of AddIpRecords for the outcome r of the call. */
  ghost predicate RecordsOk(s: Block, p: nat, rec: IPv4Record, r: Outcome<(bool, Block)>)
    requires p < |s| && s[p].Domain?
  {
    r.Done? && |r.value.1| == |s|
    && HeaderKeys(r.value.1) == HeaderKeys(s)
    && (r.value.0 ==> Joined(s, p, rec, r.value.1))
    && (!r.value.0 ==> r.value.1 == s)
  }

  lemma InPlaceRecords(s: Block, key: Key, rec: IPv4Record, retry: bool, p: nat, e: nat, j: nat)
    requires p == LookupDomain(s, key) && s[p].Domain? && e == ChainEnd(s, p + 1)
    requires j == FirstWithRoom(s, p, e)
    ensures RecordsOk(s, p, rec, AddIp(s, key, rec, retry))
  {
    var z := FirstZeroIp(Recs(s[j]));
    var sl := WithRec(s[j], z, rec);
    assert AddIp(s, key, rec, retry) == Done((true, s[j := sl]));
    ChainRecordsInPlace(s, p, j, z, rec);
    SameShapeCounts(s, j, sl);
  }

  lemma AppendBranchRecords(s: Block, key: Key, rec: IPv4Record, retry: bool, p: nat, e: nat)
    requires WF(s) && p == LookupDomain(s, key) && s[p].Domain? && s[p].key == key
    requires e == ChainEnd(s, p + 1) && FirstWithRoom(s, p, e) < 0
    ensures RecordsOk(s, p, rec, AddIp(s, key, rec, retry))
  {
    ChainAtWF(s, p);
    if e < |s| && s[e].Free? {
      WriteIsInsert(s, e, NewCont(rec));
      AppendRecords(s, p, e, e, rec, AddIp(s, key, rec, retry));
    } else if retry {
      RetryOutcome(s, key, rec, p, e);
      var f := if e < |s| then FirstFreeIn(s, e + 1, |s|) else -1;
      if f >= 0 {
        AppendRecords(s, p, e, f, rec, AddIp(s, key, rec, retry));
      }
    } else {
      NoRoomFalse(s, key, rec, p, e);
    }
  }

  lemma AppendRecords(s: Block, p: nat, e: nat, u: nat, rec: IPv4Record, r: Outcome<(bool, Block)>)
    requires NoHoles(s) && p < |s| && s[p].Domain? && e == ChainEnd(s, p + 1) && e <= u < |s| && s[u].Free?
    requires r == Done((true, InsertAt(s, e, u, NewCont(rec))))
    ensures RecordsOk(s, p, rec, r)
  {
    ChainRecordsAppend(s, p, e, u, rec);
    ContInsertCounts(s, e, u, rec);
    JoinedAtEnd(s, p, rec, r.value.1);
  }

  lemma JoinedAtEnd(s: Block, p: nat, rec: IPv4Record, t: Block)
    requires p < |s| == |t| && s[p].Domain? && t[p] == s[p]
    requires ChainRecords(t, p) == ChainRecords(s, p) + LiveRecs([rec])
    ensures Joined(s, p, rec, t)
  {
    var c := ChainRecords(s, p);
    assert c[..|c|] == c && c[|c|..] == [];
    assert ChainRecords(t, p) == c[..|c|] + LiveRecs([rec]) + c[|c|..];
  }

  /** A refused record leaves the block as it was; for a domain that is
      present the refusal means the block is full. */
  lemma AddIpRefused(s: Block, key: Key, rec: IPv4Record)
    requires WF(s) && AddIp(s, key, rec, true).Done? && !AddIp(s, key, rec, true).value.0
    ensures AddIp(s, key, rec, true).value.1 == s
    ensures HasHeader(s, key) ==> forall i :: 0 <= i < |s| ==> Used(s[i])
  {
    AddIpKeepsWF(s, key, rec, true);
    if HasHeader(s, key) {
      LookupWF(s, key);
      var p := LookupDomain(s, key);
      ChainAtWF(s, p);
      RefusedFull(s, key, rec, p, ChainEnd(s, p + 1));
    }
  }

  /** Where the chain has room or a free slot follows it, the record is
      taken. */
  lemma TakenWhenRoom(s: Block, key: Key, rec: IPv4Record, retry: bool, p: nat, e: nat)
    requires p == LookupDomain(s, key) && e == ChainEnd(s, p + 1)
    ensures FirstWithRoom(s, p, e) >= 0 ==> AddIp(s, key, rec, retry).Done? && AddIp(s, key, rec, retry).value.0
    ensures FirstWithRoom(s, p, e) < 0 && e < |s| && s[e].Free? ==>
      AddIp(s, key, rec, retry).Done? && AddIp(s, key, rec, retry).value.0
  {
  }

  lemma RefusedFull(s: Block, key: Key, rec: IPv4Record, p: nat, e: nat)
    requires WF(s) && p == LookupDomain(s, key) && ChainAt(s, p, e) && s[p].key == key
    requires AddIp(s, key, rec, true) == Done((false, s))
    ensures forall i :: 0 <= i < |s| ==> Used(s[i])
  {
    TakenWhenRoom(s, key, rec, true, p, e);
    assert FirstWithRoom(s, p, e) < 0 && !(e < |s| && s[e].Free?);
    RetryOutcome(s, key, rec, p, e);
    NoFreeAfterChain(s, p, e);
  }

  lemma NoFreeAfterChain(s: Block, p: nat, e: nat)
    requires ChainAt(s, p, e) && !(e < |s| && s[e].Free?)
    requires e < |s| ==> FirstFreeIn(s, e + 1, |s|) < 0
    ensures forall i :: 0 <= i < |s| ==> Used(s[i])
  {
  }

  /** A domain missing from the block is refused and nothing changes (for
      every key but DOMAIN_MIN, see AddIpMinOnEmpty). */
  lemma AddIpMissing(s: Block, key: Key, rec: IPv4Record, retry: bool)
    requires key != DomainMin() && !HasHeader(s, key)
    ensures AddIp(s, key, rec, retry) == Done((false, s))
  {
    LookupIsHeader(s, key);
  }

  /** The all-zero key matches the key bytes of a zeroed slot: on an empty
      block addDomainIpv4 reports success for DOMAIN_MIN, which has no
      header, and writes the record into free slot 0, where no reader
      sees it. */
  lemma AddIpMinOnEmpty(n: nat, rec: IPv4Record)
    requires n >= 1
    ensures var s := EmptyBlock(n);
      var t := s[0 := WithRec(EmptySlot(), 0, rec)];
      !HasHeader(s, DomainMin())
      && AddIp(s, DomainMin(), rec, true) == Done((true, t))
      && t[0].Free? && !HasHeader(t, DomainMin())
  {
    var s := EmptyBlock(n);
    EmptySlotKeyBytes();
    assert LookupDomain(s, DomainMin()) == 0;
    assert FirstWithRoom(s, 0, ChainEnd(s, 1)) == 0;
  }
}
