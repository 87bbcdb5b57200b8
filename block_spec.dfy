/** The operations of dns_block.cc as functions of the slot sequence of a
    block.  The DnsBlock class (dns_block.dfy) is proved to compute these
    on its slot array, and the index (dns_index.dfy) applies them to the
    blocks it owns. */
module BlockSpec {
  import opened Keys
  import opened Records
  import opened Slots
  import opened Wrappers
  import Bitmaps

  type Block = seq<Slot>

  /** A block file as fallocate leaves it: every slot zero. */
  function EmptyBlock(n: nat): (b: Block)
    ensures |b| == n && forall i :: 0 <= i < n ==> b[i] == EmptySlot()
  {
    seq(n, _ => EmptySlot())
  }

  /** Bit i is set iff slot i is used: what updateBM writes to the bitmap. */
  function UsedBits(s: Block): (bs: seq<bool>)
    ensures |bs| == |s| && forall i :: 0 <= i < |s| ==> bs[i] == Used(s[i])
  {
    seq(|s|, i requires 0 <= i < |s| => Used(s[i]))
  }

  /** Number of used slots (getNumRecords, through the bitmap). */
  function UsedCount(s: Block): nat
  {
    Bitmaps.Count(UsedBits(s))
  }

  /** Keys of the domain headers, in slot order. */
  function HeaderKeys(s: Block): seq<Key>
  {
    if s == [] then []
    else (if s[0].Domain? then [s[0].key] else []) + HeaderKeys(s[1..])
  }

  predicate HasHeader(s: Block, k: Key)
  {
    exists i :: 0 <= i < |s| && s[i].Domain? && s[i].key == k
  }

  // ---------------------------------------------------------------------
  // Block invariant

  /** Headers appear in strictly increasing key order. */
  predicate Sorted(s: Block)
  {
    forall i, j :: 0 <= i < j < |s| && s[i].Domain? && s[j].Domain? ==> Less(s[i].key, s[j].key)
  }

  /** A continuation slot follows a used slot (the "hole" check). */
  predicate NoHoles(s: Block)
  {
    forall i :: 0 <= i < |s| && s[i].Cont? ==> i > 0 && Used(s[i - 1])
  }

  /** Used slots form a prefix of the block. */
  predicate UsedPrefix(s: Block)
  {
    forall i, j :: 0 <= i < j < |s| && s[i].Free? ==> s[j].Free?
  }

  predicate WF(s: Block)
  {
    Sorted(s) && NoHoles(s) && UsedPrefix(s)
  }

  // ---------------------------------------------------------------------
  // lookupEmptyDomainSpot, linear branch

  datatype SpotCode = EmptyFound | NoEmptySpot | AlreadyExists

  /** The code as the source's int: EMPTY_FOUND 0, NO_EMPTY_SPOT -1,
      ALREADY_EXISTS -2. */
  function SpotValue(c: SpotCode): int
  {
    match c
    case EmptyFound => 0
    case NoEmptySpot => -1
    case AlreadyExists => -2
  }

  datatype SpotResult = SpotResult(code: SpotCode, pos: nat)

  /** The first header at or after i whose key is not less than key: where
      the scan stops. */
  function StopAt(s: Block, key: Key, i: nat): (h: nat)
    requires i <= |s|
    ensures i <= h <= |s|
    ensures forall j :: i <= j < h && s[j].Domain? ==> Less(s[j].key, key)
    ensures h < |s| ==> s[h].Domain? && !Less(s[h].key, key)
    decreases |s| - i
  {
    if i == |s| then i
    else if s[i].Domain? && !Less(s[i].key, key) then i
    else StopAt(s, key, i + 1)
  }

  /** The last header before h, or -1. */
  function LastHeaderBefore(s: Block, h: nat): (l: int)
    requires h <= |s|
    ensures -1 <= l < h
    ensures l >= 0 ==> s[l].Domain?
    ensures forall j :: l < j < h ==> !s[j].Domain?
  {
    if h == 0 then -1
    else if s[h - 1].Domain? then h - 1
    else LastHeaderBefore(s, h - 1)
  }

  /** The first free slot in [lo, hi), or -1. */
  function FirstFreeIn(s: Block, lo: nat, hi: nat): (f: int)
    requires lo <= hi <= |s|
    ensures f == -1 || (lo <= f < hi && s[f].Free?)
    ensures forall j :: lo <= j < hi && (f == -1 || j < f) ==> !s[j].Free?
    decreases hi - lo
  {
    if lo == hi then -1
    else if s[lo].Free? then lo
    else FirstFreeIn(s, lo + 1, hi)
  }

  /** lookupEmptyDomainSpot(key, &pos): the scan stops at the first header
      not less than key; if that header is the key, ALREADY_EXISTS there;
      otherwise the first free slot after the last (smaller) header before
      it, or NO_EMPTY_SPOT with pos 0. */
  function Spot(s: Block, key: Key): (r: SpotResult)
    ensures r.code == AlreadyExists ==> r.pos < |s| && s[r.pos].Domain? && s[r.pos].key == key
    ensures r.code == EmptyFound ==> r.pos < |s| && s[r.pos].Free?
    ensures r.code == EmptyFound ==> forall j :: 0 <= j < r.pos && s[j].Domain? ==> Less(s[j].key, key)
    ensures r.code == EmptyFound ==> forall j :: r.pos < j < |s| && s[j].Domain? ==> j >= StopAt(s, key, 0)
    ensures r.code == NoEmptySpot ==> r.pos == 0
  {
    var h := StopAt(s, key, 0);
    if h < |s| && s[h].key == key then SpotResult(AlreadyExists, h)
    else
      var f := FirstFreeIn(s, LastHeaderBefore(s, h) + 1, h);
      if f >= 0 then SpotResult(EmptyFound, f) else SpotResult(NoEmptySpot, 0)
  }

  /** hasDomain */
  predicate HasDomain(s: Block, key: Key)
  {
    Spot(s, key).code == AlreadyExists
  }

  // ---------------------------------------------------------------------
  // makeRoomMove

  /** The first slot at or after i that is not a continuation. */
  function ChainEnd(s: Block, i: nat): (e: nat)
    requires i <= |s|
    ensures i <= e <= |s|
    ensures forall j :: i <= j < e ==> s[j].Cont?
    ensures e < |s| ==> !s[e].Cont?
    decreases |s| - i
  {
    if i == |s| || !s[i].Cont? then i else ChainEnd(s, i + 1)
  }

  /** makeRoomMove's first loop, from p0: the first header not less than
      key, or the end of its chain when its key is the key. */
  function RoomPoint(s: Block, key: Key, p0: nat): (p: nat)
    requires p0 <= |s|
    ensures p0 <= p <= |s|
  {
    var h := StopAt(s, key, p0);
    if h < |s| && s[h].key == key then ChainEnd(s, h + 1) else h
  }

  /** memmove(&b[p+1], &b[p], (f-p) slots); memset(&b[p], 0). */
  function Shift(s: Block, p: nat, f: nat): (s': Block)
    requires p < f < |s|
    ensures |s'| == |s|
    ensures s'[p] == EmptySlot()
    ensures forall j :: 0 <= j < p ==> s'[j] == s[j]
    ensures forall j :: p < j <= f ==> s'[j] == s[j - 1]
    ensures forall j :: f < j < |s| ==> s'[j] == s[j]
  {
    s[..p] + [EmptySlot()] + s[p..f] + s[f + 1..]
  }

  /** makeRoomMove: shift the run from p up to the first free slot after it
      one place right, freeing slot p; nothing changes when p is the end of
      the block or no free slot follows.  The two source asserts are the
      Abort cases. */
  function MakeRoom(s: Block, key: Key): Outcome<Block>
  {
    var sp := Spot(s, key);
    if sp.code == EmptyFound then Abort
    else MakeRoomAt(s, RoomPoint(s, key, sp.pos))
  }

  /** makeRoomMove once its first loop has stopped at p. */
  function MakeRoomAt(s: Block, p: nat): Outcome<Block>
    requires p <= |s|
  {
    if p < |s| && !s[p].Domain? then Abort
    else if p == |s| then Done(s)
    else
      var f := FirstFreeIn(s, p + 1, |s|);
      if f < 0 then Done(s) else Done(Shift(s, p, f))
  }

  // ---------------------------------------------------------------------
  // addDomain

  datatype QueryError = ResOK | ResNoSpaceLeft | ResAlreadyExists | ResDomainTooLong | ResErrOther

  /** memset(place, 0); header = flagUsed|flagDomain; key copied. */
  function NewHeader(key: Key): (sl: Slot)
    ensures sl.Domain? && sl.key == key && Recs(sl) == [ZeroRecord, ZeroRecord]
  {
    Domain(key, [ZeroRecord, ZeroRecord])
  }

  /** addDomain: ALREADY_EXISTS leaves the block alone; EMPTY_FOUND places
      a fresh header; NO_EMPTY_SPOT makes room once and searches again. */
  function AddDomain(s: Block, key: Key): (r: (QueryError, Block))
    ensures |r.1| == |s|
    ensures r.0 in {ResOK, ResNoSpaceLeft, ResAlreadyExists}
    ensures r.0 == ResAlreadyExists <==> HasDomain(s, key)
    ensures r.0 != ResOK ==> r.1 == s
    ensures r.0 == ResOK ==> HasHeader(r.1, key)
  {
    var sp := Spot(s, key);
    if sp.code == AlreadyExists then (ResAlreadyExists, s)
    else if sp.code == EmptyFound then
      var s' := s[sp.pos := NewHeader(key)];
      assert s'[sp.pos].key == key;
      (ResOK, s')
    else
      var m := MakeRoom(s, key);
      assert m.Done? && (m.value == s || Spot(m.value, key).code == EmptyFound)
        by { MakeRoomAfterNoSpot(s, key); }
      var sp2 := Spot(m.value, key);
      if sp2.code == NoEmptySpot then (ResNoSpaceLeft, m.value)
      else
        var s' := m.value[sp2.pos := NewHeader(key)];
        assert s'[sp2.pos].key == key;
        (ResOK, s')
  }

  /** Where addDomain calls makeRoomMove, its asserts hold, and a move
      always leaves an empty spot for the key. */
  lemma MakeRoomAfterNoSpot(s: Block, key: Key)
    requires Spot(s, key).code == NoEmptySpot
    ensures MakeRoom(s, key).Done?
    ensures MakeRoom(s, key).value == s || Spot(MakeRoom(s, key).value, key).code == EmptyFound
  {
    var h := StopAt(s, key, 0);
    assert RoomPoint(s, key, 0) == h;
    if h < |s| {
      var f := FirstFreeIn(s, h + 1, |s|);
      if f >= 0 {
        var m := Shift(s, h, f);
        assert MakeRoom(s, key) == Done(m);
        ShiftStop(s, key, h, f);
        MovedRoom(m, key, h);
      }
    }
  }

  /** After the move the stop header sits at h + 1 and slot h is free. */
  lemma ShiftStop(s: Block, key: Key, h: nat, f: nat)
    requires h == StopAt(s, key, 0) && h < f < |s|
    ensures StopAt(Shift(s, h, f), key, 0) == h + 1
  {
    StopAtIs(Shift(s, h, f), key, h + 1);
  }

  lemma MovedRoom(m: Block, key: Key, h: nat)
    requires h < |m| && m[h].Free? && StopAt(m, key, 0) == h + 1
    requires h + 1 < |m| ==> m[h + 1].key != key
    ensures Spot(m, key).code == EmptyFound
  {
    var l := LastHeaderBefore(m, h + 1);
    assert FirstFreeIn(m, l + 1, h + 1) >= 0;
  }

  /** StopAt is pinned down by its contract. */
  lemma StopAtIs(s: Block, key: Key, h: nat)
    requires h <= |s|
    requires forall j :: 0 <= j < h && s[j].Domain? ==> Less(s[j].key, key)
    requires h < |s| ==> s[h].Domain? && !Less(s[h].key, key)
    ensures StopAt(s, key, 0) == h
  {
  }

  // ---------------------------------------------------------------------
  // lookupDomain, getIpsv4, addDomainIpv4

  /** lookupDomain: the first slot, of any kind, whose 35 key bytes equal
      the key, or -1. */
  function LookupDomain(s: Block, key: Key): (p: int)
    ensures -1 <= p < |s|
    ensures p >= 0 ==> KeyBytes(s[p]) == key
    ensures forall j :: 0 <= j < |s| && (p < 0 || j < p) ==> KeyBytes(s[j]) != key
  {
    LookupFrom(s, key, 0)
  }

  function LookupFrom(s: Block, key: Key, i: nat): (p: int)
    requires i <= |s|
    ensures p == -1 || i <= p < |s|
    ensures p >= 0 ==> KeyBytes(s[p]) == key
    ensures forall j :: i <= j < |s| && (p < 0 || j < p) ==> KeyBytes(s[j]) != key
    decreases |s| - i
  {
    if i == |s| then -1
    else if KeyBytes(s[i]) == key then i
    else LookupFrom(s, key, i + 1)
  }

  /** The records of a slot with ip != 0, in entry order. */
  function LiveRecs(rs: seq<IPv4Record>): (live: seq<IPv4Record>)
  {
    if rs == [] then []
    else (if rs[0].ip != 0 then [rs[0]] else []) + LiveRecs(rs[1..])
  }

  /** The live records of the continuation slots from i on. */
  function ContRecsFrom(s: Block, i: nat): seq<IPv4Record>
    requires i <= |s|
    decreases |s| - i
  {
    if i == |s| || !s[i].Cont? then []
    else LiveRecs(Recs(s[i])) + ContRecsFrom(s, i + 1)
  }

  /** getIpsv4(p): the live records of header p and of the continuation
      slots that follow it. */
  function ChainRecords(s: Block, p: nat): seq<IPv4Record>
    requires p < |s| && s[p].Domain?
  {
    LiveRecs(Recs(s[p])) + ContRecsFrom(s, p + 1)
  }

  /** The first record entry with ip == 0, or -1. */
  function FirstZeroIp(rs: seq<IPv4Record>): (i: int)
    ensures -1 <= i < |rs|
    ensures i >= 0 ==> rs[i].ip == 0
    ensures forall j :: 0 <= j < |rs| && (i < 0 || j < i) ==> rs[j].ip != 0
  {
    if rs == [] then -1
    else if rs[0].ip == 0 then 0
    else var t := FirstZeroIp(rs[1..]); if t < 0 then -1 else t + 1
  }

  /** The first slot in [lo, hi) with a record entry whose ip is 0, or -1. */
  function FirstWithRoom(s: Block, lo: nat, hi: nat): (j: int)
    requires lo <= hi <= |s|
    ensures j == -1 || (lo <= j < hi && FirstZeroIp(Recs(s[j])) >= 0)
    ensures forall i :: lo <= i < hi && (j < 0 || i < j) ==> FirstZeroIp(Recs(s[i])) < 0
    decreases hi - lo
  {
    if lo == hi then -1
    else if FirstZeroIp(Recs(s[lo])) >= 0 then lo
    else FirstWithRoom(s, lo + 1, hi)
  }

  /** A continuation slot holding one record (memset, flagUsed, records[0]). */
  function NewCont(rec: IPv4Record): (sl: Slot)
    ensures sl.Cont? && Recs(sl) == [rec, ZeroRecord, ZeroRecord, ZeroRecord, ZeroRecord]
  {
    Cont([rec, ZeroRecord, ZeroRecord, ZeroRecord, ZeroRecord])
  }

  /** addDomainIpv4_int(key, rec, retry): false when no slot's bytes match;
      else the first ip == 0 entry along the chain takes the record; else a
      free slot right after the chain becomes a continuation; else, when
      retry is set, makeRoomMove and one more attempt without retry. */
  function AddIp(s: Block, key: Key, rec: IPv4Record, retry: bool): (o: Outcome<(bool, Block)>)
    ensures o.Done? ==> |o.value.1| == |s|
    ensures o.Done? && !o.value.0 ==> LookupDomain(s, key) < 0 || retry || o.value.1 == s
    decreases if retry then 1 else 0
  {
    var p := LookupDomain(s, key);
    if p < 0 then Done((false, s))
    else
      var e := ChainEnd(s, p + 1);
      var j := FirstWithRoom(s, p, e);
      if j >= 0 then Done((true, s[j := WithRec(s[j], FirstZeroIp(Recs(s[j])), rec)]))
      else if e < |s| && s[e].Free? then Done((true, s[e := NewCont(rec)]))
      else if retry then
        match MakeRoom(s, key)
        case Abort => Abort
        case Done(m) => AddIp(m, key, rec, false)
      else Done((false, s))
  }

  /** addDomainIpv4 */
  function AddDomainIpv4(s: Block, key: Key, rec: IPv4Record): Outcome<(bool, Block)>
  {
    AddIp(s, key, rec, true)
  }

  // ---------------------------------------------------------------------
  // splitBlock

  /** The first header in [lo, hi), or -1. */
  function FirstHeaderIn(s: Block, lo: int, hi: int): (p: int)
    requires 0 <= lo && hi <= |s|
    ensures p == -1 || (lo <= p < hi && s[p].Domain?)
    ensures forall j :: lo <= j < hi && (p < 0 || j < p) ==> !s[j].Domain?
    decreases hi - lo
  {
    if lo >= hi then -1
    else if s[lo].Domain? then lo
    else FirstHeaderIn(s, lo + 1, hi)
  }

  /** The smallest start splitBlock's loop reaches from start. */
  function LowestStart(start: nat, step: nat): (lo: nat)
    requires step > 0
    ensures lo <= start && lo < step
    decreases start
  {
    if start < step then start else LowestStart(start - step, step)
  }

  /** splitBlock's search: for start, start - N/16, ... while start >= 0,
      the first header in [start, N - 16). */
  function SplitSearch(s: Block, start: int): (p: int)
    requires |s| >= 16
    ensures p == -1 || (0 <= p < |s| - 16 && s[p].Domain?)
    decreases start + 1
  {
    if start < 0 then -1
    else
      var p := FirstHeaderIn(s, start, |s| - 16);
      if p >= 0 then p
      else SplitSearch(s, start - |s| / 16)
  }

  /** The search fails only when no probe finds a header, that is when
      none lies between the lowest probe and N - 16. */
  lemma {:induction false} SplitSearchSpec(s: Block, start: int)
    requires |s| >= 16
    ensures SplitSearch(s, start) < 0 <==>
      start < 0 || forall j :: LowestStart(start, |s| / 16) <= j < |s| - 16 ==> !s[j].Domain?
    decreases start + 1
  {
    if start >= 0 && FirstHeaderIn(s, start, |s| - 16) < 0 {
      SplitSearchSpec(s, start - |s| / 16);
    }
  }

  /** The split point: first probe at 8N/16. */
  function SplitPos(s: Block): (p: int)
    requires |s| >= 16
  {
    SplitSearch(s, 8 * |s| / 16)
  }

  /** With N a multiple of 16 the probes are 8N/16, 7N/16, ..., 0: the
      search fails only when no header lies below N - 16, and a header in
      the second half (below N - 16) keeps the first half in this block. */
  lemma SplitPosSpec(s: Block)
    requires |s| >= 16 && |s| % 16 == 0
    ensures SplitPos(s) == -1 || (0 <= SplitPos(s) < |s| - 16 && s[SplitPos(s)].Domain?)
    ensures SplitPos(s) < 0 <==> forall j :: 0 <= j < |s| - 16 ==> !s[j].Domain?
    ensures FirstHeaderIn(s, |s| / 2, |s| - 16) >= 0 ==> SplitPos(s) == FirstHeaderIn(s, |s| / 2, |s| - 16)
  {
    var k := |s| / 16;
    assert 8 * |s| / 16 == 8 * k == |s| / 2;
    LowestMultiple(8, k);
    SplitSearchSpec(s, 8 * k);
  }

  lemma {:induction false} LowestMultiple(m: nat, k: nat)
    requires k > 0
    ensures LowestStart(m * k, k) == 0
  {
    if m > 0 {
      assert m * k - k == (m - 1) * k;
      LowestMultiple(m - 1, k);
    }
  }

  /** splitBlock(t): slots [pos, N) of this block go to the front of the
      new block t and are zeroed here, pos being the split point; the
      assert on pos is the Abort case. */
  function Split(s: Block, t: Block): (o: Outcome<(Block, Block)>)
    requires |s| >= 16 && |t| == |s|
    ensures o.Done? ==> |o.value.0| == |s| && |o.value.1| == |s|
  {
    var pos := SplitPos(s);
    if pos < 0 then Abort
    else Done((s[..pos] + EmptyBlock(|s| - pos), s[pos..] + t[|s| - pos..]))
  }

  // ---------------------------------------------------------------------
  // getMinDomain / getMaxDomain

  /** The first header index (getMinDomain's scan), or -1. */
  function FirstHeader(s: Block): (p: int)
    ensures p == -1 || (0 <= p < |s| && s[p].Domain?)
    ensures forall j :: 0 <= j < |s| && (p < 0 || j < p) ==> !s[j].Domain?
  {
    FirstHeaderIn(s, 0, |s|)
  }

  /** The last header index (getMaxDomain's scan), or -1. */
  function LastHeader(s: Block): (p: int)
    ensures p == -1 || (0 <= p < |s| && s[p].Domain?)
    ensures forall j :: 0 <= j < |s| && p < j ==> !s[j].Domain?
  {
    LastHeaderBefore(s, |s|)
  }

  // ---------------------------------------------------------------------
  // check

  datatype CheckError = Unsorted(at: nat) | Hole(at: nat)

  /** check() from slot i, with the saved key prev and whether slot i - 1
      was free.  prev is replaced only when a header is reported unsorted. */
  function CheckFrom(s: Block, i: nat, prev: Key, lastEmpty: bool): seq<CheckError>
    requires i <= |s|
    decreases |s| - i
  {
    if i == |s| then []
    else
      var unsorted := s[i].Domain? && !Less(prev, s[i].key);
      var hole := s[i].Cont? && lastEmpty;
      (if unsorted then [Unsorted(i)] else [])
      + (if hole then [Hole(i)] else [])
      + CheckFrom(s, i + 1, if unsorted then s[i].key else prev, !Used(s[i]))
  }

  /** check(): the reports it prints, in order; prev starts as all zero
      bytes and the block may not start with a continuation. */
  function Check(s: Block): seq<CheckError>
  {
    CheckFrom(s, 0, DomainMin(), true)
  }

  // ---------------------------------------------------------------------
  // Iterator

  /** The first slot at or after i that is not free (neither flag), or N. */
  function NextUsed(s: Block, i: nat): (j: nat)
    requires i <= |s|
    ensures i <= j <= |s|
    ensures forall q :: i <= q < j ==> s[q].Free?
    ensures j < |s| ==> Used(s[j])
    decreases |s| - i
  {
    if i == |s| || Used(s[i]) then i else NextUsed(s, i + 1)
  }

  /** end() as written: its do/while starts at p + 1 and stops only on a
      used slot or on endptr, slot N.  From p == N it starts past endptr,
      never meets it and reads on past the block (Abort). */
  function EndAsWritten(s: Block, p: nat): Outcome<bool>
  {
    if p < |s| then Done(NextUsed(s, p + 1) == |s|) else Abort
  }

  /** end() with the test it misses: an iterator already at endptr is at
      its end. */
  function AtEnd(s: Block, p: nat): bool
  {
    p >= |s| || NextUsed(s, p + 1) == |s|
  }
}
