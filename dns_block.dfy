/** The DnsBlock class of dns_block.cc: one block file of NumSlots 64-byte
    slots, mapped in memory, with the occupancy bitmap kept beside it.
    Every method is proved to compute the BlockSpec function of the same
    name on the slot contents, so the properties proved about those
    functions hold of the class. */
module DnsBlocks {
  import opened Keys
  import opened Records
  import opened Slots
  import opened Wrappers
  import opened BlockSpec
  import opened BlockLemmas
  import opened IpLemmas
  import Bitmaps

  /** blockSize: a block file is 1 MiB. */
  const BlockBytes: nat := 1024 * 1024

  /** numBlocks: the number of slots in a block file. */
  const NumSlots: nat := BlockBytes / SlotSize

  /** acc followed by the live records of rs: the loops over the two (or
      five) record entries that push every entry with ip != 0. */
  method AppendLive(acc: seq<IPv4Record>, rs: seq<IPv4Record>) returns (r: seq<IPv4Record>)
    ensures r == acc + LiveRecs(rs)
  {
    r := acc;
    var i := 0;
    while i < |rs|
      invariant 0 <= i <= |rs|
      invariant r == acc + LiveRecs(rs[..i])
    {
      assert rs[..i + 1] == rs[..i] + [rs[i]];
      LiveRecsConcat(rs[..i], [rs[i]]);
      assert LiveRecs([rs[i]]) == (if rs[i].ip != 0 then [rs[i]] else []) + LiveRecs([]);
      if rs[i].ip != 0 {
        r := r + [rs[i]];
      }
      i := i + 1;
    }
    assert rs[..i] == rs;
  }

  /** One continuation slot of getIpsv4's loop. */
  lemma ChainStep(s: Block, q: nat, acc: seq<IPv4Record>)
    requires q < |s| && s[q].Cont?
    ensures acc + ContRecsFrom(s, q) == acc + LiveRecs(Recs(s[q])) + ContRecsFrom(s, q + 1)
  {
  }

  /** lookupEmptyDomainSpot's loop from slot i with last_empty le, as a
      function: the result it returns from there. */
  ghost function SpotScan(s: Block, key: Key, i: nat, le: int): SpotResult
    requires i <= |s|
    decreases |s| - i
  {
    if i == |s| then SpotEnd(le)
    else
      var le1 := if s[i].Free? && le < 0 then i else le;
      if s[i].Domain? then
        if Less(s[i].key, key) then SpotScan(s, key, i + 1, -1)
        else if s[i].key == key then SpotResult(AlreadyExists, i)
        else SpotEnd(le1)
      else SpotScan(s, key, i + 1, le1)
  }

  /** The code and position after the loop. */
  function SpotEnd(le: int): SpotResult
  {
    if le >= 0 then SpotResult(EmptyFound, le) else SpotResult(NoEmptySpot, 0)
  }

  /** The scan computes Spot: from any slot i before the stop, with
      last_empty the first free slot after the last header before i. */
  lemma SpotScanIsSpot(s: Block, key: Key, i: nat, le: int)
    requires i <= |s| && StopAt(s, key, i) == StopAt(s, key, 0)
    requires le == FirstFreeIn(s, LastHeaderBefore(s, i) + 1, i)
    ensures SpotScan(s, key, i, le) == Spot(s, key)
    decreases |s| - i
  {
    if i == |s| || (s[i].Domain? && !Less(s[i].key, key)) {
      SpotAtStop(s, key, i, le);
    } else {
      var le' := if s[i].Domain? then -1 else if s[i].Free? && le < 0 then i else le;
      SpotScanStep(s, key, i, le, le');
      SpotScanNext(s, key, i, le, le');
      SpotScanIsSpot(s, key, i + 1, le');
    }
  }

  lemma SpotScanNext(s: Block, key: Key, i: nat, le: int, le': int)
    requires i < |s| && !(s[i].Domain? && !Less(s[i].key, key))
    requires le' == if s[i].Domain? then -1 else if s[i].Free? && le < 0 then i else le
    ensures SpotScan(s, key, i, le) == SpotScan(s, key, i + 1, le')
  {
  }

  lemma SpotAtStop(s: Block, key: Key, i: nat, le: int)
    requires i <= |s| && StopAt(s, key, i) == StopAt(s, key, 0)
    requires le == FirstFreeIn(s, LastHeaderBefore(s, i) + 1, i)
    requires i == |s| || (s[i].Domain? && !Less(s[i].key, key))
    ensures SpotScan(s, key, i, le) == Spot(s, key)
  {
    SpotScanEnd(s, key, i, le);
    SpotScanStops(s, key, i, le);
  }

  lemma SpotScanStops(s: Block, key: Key, i: nat, le: int)
    requires i <= |s|
    requires i == |s| || (s[i].Domain? && !Less(s[i].key, key))
    ensures SpotScan(s, key, i, le) ==
      if i < |s| && s[i].key == key then SpotResult(AlreadyExists, i) else SpotEnd(le)
  {
  }

  /** One slot of lookupEmptyDomainSpot's scan that is not its stop: a
      smaller header resets last_empty, the first free slot after it sets it. */
  lemma SpotScanStep(s: Block, key: Key, i: nat, le: int, le': int)
    requires i < |s| && StopAt(s, key, i) == StopAt(s, key, 0)
    requires le == FirstFreeIn(s, LastHeaderBefore(s, i) + 1, i)
    requires !(s[i].Domain? && !Less(s[i].key, key))
    requires le' == if s[i].Domain? then -1 else if s[i].Free? && le < 0 then i else le
    ensures StopAt(s, key, i + 1) == StopAt(s, key, 0)
    ensures le' == FirstFreeIn(s, LastHeaderBefore(s, i + 1) + 1, i + 1)
  {
    if !s[i].Domain? {
      FirstFreeSnoc(s, LastHeaderBefore(s, i) + 1, i);
    }
  }

  /** Where the scan stops, Spot is decided by the slot there and by
      last_empty. */
  lemma SpotScanEnd(s: Block, key: Key, i: nat, le: int)
    requires i <= |s| && StopAt(s, key, i) == StopAt(s, key, 0)
    requires le == FirstFreeIn(s, LastHeaderBefore(s, i) + 1, i)
    requires i == |s| || (s[i].Domain? && !Less(s[i].key, key))
    ensures Spot(s, key) ==
      if i < |s| && s[i].key == key then SpotResult(AlreadyExists, i) else SpotEnd(le)
  {
  }

  /** Extending the range of FirstFreeIn by one slot. */
  lemma {:induction false} FirstFreeSnoc(s: Block, lo: nat, hi: nat)
    requires lo <= hi < |s|
    ensures FirstFreeIn(s, lo, hi + 1) ==
      if FirstFreeIn(s, lo, hi) >= 0 then FirstFreeIn(s, lo, hi)
      else if s[hi].Free? then hi else -1
    decreases hi - lo
  {
    if lo < hi {
      FirstFreeSnoc(s, lo + 1, hi);
    }
  }

  /** makeRoomMove's outcome once its stop point p is known. */
  lemma MakeRoomVia(s: Block, key: Key, p: nat)
    requires Spot(s, key).code != EmptyFound && p == RoomPoint(s, key, Spot(s, key).pos)
    ensures MakeRoom(s, key) == MakeRoomAt(s, p)
  {
  }

  /** splitBlock turned blocks s and t into o and n, aborted telling
      whether the source's assert on the split point failed. */
  ghost predicate SplitIs(s: Block, t: Block, aborted: bool, o: Block, n: Block)
  {
    |s| >= 16 && |t| == |s|
    && (aborted <==> Split(s, t).Abort?)
    && (aborted ==> o == s && n == t)
    && (!aborted ==> Split(s, t) == Done((o, n)))
  }

  /** Split's result, given the two blocks splitBlock leaves behind. */
  lemma SplitResult(s: Block, t: Block, pos: int, o: Block, n: Block)
    requires |s| >= 16 && |t| == |s| && pos == SplitPos(s)
    requires pos < 0 ==> o == s && n == t
    requires pos >= 0 ==> o == s[..pos] + EmptyBlock(|s| - pos) && n == s[pos..] + t[|s| - pos..]
    ensures SplitIs(s, t, pos < 0, o, n)
  {
  }

  /** addDomain's outcome in the terms of its three spot codes; the
      asserts it makes hold. */
  lemma AddDomainAt(s: Block, key: Key)
    ensures var sp := Spot(s, key);
      (sp.code == AlreadyExists ==> AddDomain(s, key) == (ResAlreadyExists, s))
      && (sp.code == EmptyFound ==> s[sp.pos].Free? && AddDomain(s, key) == (ResOK, s[sp.pos := NewHeader(key)]))
    ensures Spot(s, key).code == NoEmptySpot ==>
      MakeRoom(s, key).Done?
      && var m := MakeRoom(s, key).value;
      var sp := Spot(m, key);
      sp.code != AlreadyExists
      && (sp.code == NoEmptySpot ==> AddDomain(s, key) == (ResNoSpaceLeft, m))
      && (sp.code == EmptyFound ==> m[sp.pos].Free? && AddDomain(s, key) == (ResOK, m[sp.pos := NewHeader(key)]))
  {
    if Spot(s, key).code == NoEmptySpot {
      MakeRoomAfterNoSpot(s, key);
    }
  }

  /** addDomainIpv4_int's outcome once the chain of the matching slot p has
      been walked to its end e. */
  lemma AddIpAt(s: Block, key: Key, rec: IPv4Record, retry: bool)
    ensures var p := LookupDomain(s, key);
      p >= 0 ==>
      var e := ChainEnd(s, p + 1);
      var j := FirstWithRoom(s, p, e);
      (j >= 0 ==> AddIp(s, key, rec, retry) == Done((true, s[j := WithRec(s[j], FirstZeroIp(Recs(s[j])), rec)])))
      && (j < 0 && e < |s| && s[e].Free? ==> AddIp(s, key, rec, retry) == Done((true, s[e := NewCont(rec)])))
      && (j < 0 && !(e < |s| && s[e].Free?) && !retry ==> AddIp(s, key, rec, retry) == Done((false, s)))
      && (j < 0 && !(e < |s| && s[e].Free?) && retry ==>
          AddIp(s, key, rec, retry) == match MakeRoom(s, key) case Abort => Abort case Done(m) => AddIp(m, key, rec, false))
  {
  }

  /** Writing a record entry keeps the kind of every slot. */
  lemma WithRecBits(s: Block, j: nat, i: nat, rec: IPv4Record)
    requires j < |s| && i < |Recs(s[j])|
    ensures UsedBits(s[j := WithRec(s[j], i, rec)]) == UsedBits(s)
  {
    assert forall k :: 0 <= k < |s| ==> Used(s[j := WithRec(s[j], i, rec)][k]) == Used(s[k]);
  }

  /** One slot of check(): the reports made there, then the rest. */
  lemma CheckStep(s: Block, i: nat, prev: Key, lastEmpty: bool,
                  e0: seq<CheckError>, e1: seq<CheckError>, prev': Key, lastEmpty': bool)
    requires i < |s|
    requires var unsorted := s[i].Domain? && !Less(prev, s[i].key);
      e1 == e0 + (if unsorted then [Unsorted(i)] else []) + (if s[i].Cont? && lastEmpty then [Hole(i)] else [])
      && prev' == (if unsorted then s[i].key else prev) && lastEmpty' == !Used(s[i])
    ensures e0 + CheckFrom(s, i, prev, lastEmpty) == e1 + CheckFrom(s, i + 1, prev', lastEmpty')
  {
    var unsorted := s[i].Domain? && !Less(prev, s[i].key);
    var a: seq<CheckError> := if unsorted then [Unsorted(i)] else [];
    var b: seq<CheckError> := if s[i].Cont? && lastEmpty then [Hole(i)] else [];
    var r := CheckFrom(s, i + 1, prev', lastEmpty');
    assert CheckFrom(s, i, prev, lastEmpty) == a + b + r;
    ConcatAssoc(e0, a, b, r);
  }

  lemma ConcatAssoc<T>(e: seq<T>, a: seq<T>, b: seq<T>, r: seq<T>)
    ensures e + (a + b + r) == e + a + b + r
  {
  }

  class DnsBlock {
    /** blockptr[0 .. numBlocks): the mapped block file. */
    var slots: array<Slot>
    var bitmap: Bitmaps.Bitmap
    var blockId: int

    /** The block has numBlocks slots and its bitmap mirrors their flagUsed
        bits, as updateBM leaves it. */
    ghost predicate Valid()
      reads this, slots, bitmap
    {
      slots.Length == NumSlots && bitmap.Bits() == UsedBits(slots[..])
    }

    /** DnsBlock(file, blkid): contents is the mapped file (all zero when
        the file is newly created); the bitmap is built by updateBM. */
    constructor (contents: Block, blkid: int)
      requires |contents| == NumSlots
      ensures Valid() && slots[..] == contents && blockId == blkid
      ensures fresh(slots) && fresh(bitmap)
    {
      slots := new Slot[|contents|](i requires 0 <= i < |contents| => contents[i]);
      bitmap := new Bitmaps.Bitmap(NumSlots);
      blockId := blkid;
      new;
      UpdateBM();
    }

    /** updateBM: bit i := (header & flagUsed) != 0 for every slot. */
    method UpdateBM()
      requires slots.Length == bitmap.NumBits()
      modifies bitmap
      ensures |bitmap.bitm| == old(|bitmap.bitm|)
      ensures bitmap.Bits() == UsedBits(slots[..])
    {
      var i := 0;
      while i < slots.Length
        invariant 0 <= i <= slots.Length
        invariant |bitmap.bitm| == old(|bitmap.bitm|)
        invariant forall q :: 0 <= q < i ==> bitmap.Bits()[q] == Used(slots[q])
      {
        HeaderFlags(slots[i]);
        bitmap.SetBit(i, if HasFlag(Header(slots[i]), FlagUsed) then 1 else 0);
        i := i + 1;
      }
    }

    /** lookupDomain: the first slot whose 35 key bytes equal key, or -1. */
    method LookupDomain(key: Key) returns (p: int)
      ensures p == BlockSpec.LookupDomain(slots[..], key)
    {
      ghost var s := slots[..];
      var i := 0;
      while i < slots.Length
        invariant 0 <= i <= slots.Length
        invariant LookupFrom(s, key, i) == BlockSpec.LookupDomain(s, key)
      {
        if KeyBytes(slots[i]) == key {
          return i;
        }
        i := i + 1;
      }
      return -1;
    }

    /** getIpsv4(p): the records with ip != 0 of header p and of the
        continuation slots after it; the source asserts p is a header. */
    method GetIpsv4(p: nat) returns (ret: seq<IPv4Record>)
      requires p < slots.Length && slots[p].Domain?
      ensures ret == ChainRecords(slots[..], p)
    {
      ghost var s := slots[..];
      ret := AppendLive([], Recs(slots[p]));
      var q := p + 1;
      while q < slots.Length && slots[q].Cont?
        invariant p < q <= slots.Length
        invariant ChainRecords(s, p) == ret + ContRecsFrom(s, q)
        decreases slots.Length - q
      {
        ChainStep(s, q, ret);
        ret := AppendLive(ret, Recs(slots[q]));
        q := q + 1;
      }
    }

    /** lookupEmptyDomainSpot, the linear scan. */
    method LookupEmptyDomainSpot(key: Key) returns (r: SpotResult)
      ensures r == Spot(slots[..], key)
    {
      ghost var s := slots[..];
      SpotScanIsSpot(s, key, 0, -1);
      var lastEmpty := -1;
      var i := 0;
      while i < slots.Length
        invariant 0 <= i <= slots.Length
        invariant SpotScan(s, key, i, lastEmpty) == SpotScan(s, key, 0, -1)
      {
        var sl := slots[i];
        if !Used(sl) && lastEmpty < 0 {
          lastEmpty := i;
        }
        if sl.Domain? {
          if Less(sl.key, key) {
            lastEmpty := -1;
          } else {
            if sl.key == key {
              return SpotResult(AlreadyExists, i);
            }
            break;
          }
        }
        i := i + 1;
      }
      r := if lastEmpty >= 0 then SpotResult(EmptyFound, lastEmpty) else SpotResult(NoEmptySpot, 0);
    }

    /** hasDomain */
    method HasDomain(key: Key) returns (b: bool)
      ensures b == BlockSpec.HasDomain(slots[..], key)
    {
      var r := LookupEmptyDomainSpot(key);
      b := r.code == AlreadyExists;
    }

    /** memmove(&b[p + 1], &b[p], (f - p) slots); memset(&b[p], 0). */
    method MoveDown(p: nat, f: nat)
      requires p < f < slots.Length
      modifies slots
      ensures slots[..] == Shift(old(slots[..]), p, f)
    {
      ghost var s := slots[..];
      var k := f;
      while k > p
        invariant p <= k <= f
        invariant forall j :: 0 <= j <= k ==> slots[j] == s[j]
        invariant forall j :: k < j <= f ==> slots[j] == s[j - 1]
        invariant forall j :: f < j < slots.Length ==> slots[j] == s[j]
      {
        slots[k] := slots[k - 1];
        k := k - 1;
      }
      slots[p] := EmptySlot();
      assert slots[..] == Shift(s, p, f);
    }

    /** makeRoomMove's first loop, from p0: stop at the first header not
        less than key, and run to the end of its chain when it is key. */
    method RoomScan(key: Key, p0: nat) returns (p: nat)
      requires p0 <= slots.Length
      ensures p == RoomPoint(slots[..], key, p0)
    {
      ghost var s := slots[..];
      p := p0;
      while p < slots.Length
        invariant p0 <= p <= slots.Length
        invariant StopAt(s, key, p) == StopAt(s, key, p0)
      {
        if slots[p].Domain? && !Less(slots[p].key, key) {
          if slots[p].key == key {
            ghost var h := p;
            p := p + 1;
            while p < slots.Length && slots[p].Cont?
              invariant h < p <= slots.Length
              invariant ChainEnd(s, p) == ChainEnd(s, h + 1)
            {
              p := p + 1;
            }
          }
          return;
        }
        p := p + 1;
      }
    }

    /** makeRoomMove's second part, from a header p: find the first free
        slot after p, move the slots from p up to it one place down, and
        update the two bits that change. */
    method ShiftFrom(p: nat)
      requires Valid() && p < slots.Length && slots[p].Domain?
      modifies slots, bitmap
      ensures Valid()
      ensures MakeRoomAt(old(slots[..]), p) == Done(slots[..])
    {
      ghost var s := slots[..];
      var tomove := 1;
      var q := p + 1;
      while q < slots.Length
        invariant p < q <= slots.Length && tomove == q - p
        invariant FirstFreeIn(s, q, slots.Length) == FirstFreeIn(s, p + 1, slots.Length)
      {
        if slots[q].Free? {
          break;
        }
        tomove := tomove + 1;
        q := q + 1;
      }
      if q == slots.Length {
        return;
      }
      MoveDown(p, q);
      ShiftedBits(s, slots[..], p, q);
      SetTwoBits(p, q);
    }

    /** The bitmap after a move from p to f: bit f set, then bit p cleared. */
    method SetTwoBits(p: nat, f: nat)
      requires p < f < bitmap.NumBits()
      requires slots.Length == bitmap.NumBits()
      requires UsedBits(slots[..]) == bitmap.Bits()[p := false][f := true]
      modifies bitmap
      ensures bitmap.Bits() == UsedBits(slots[..])
    {
      ghost var b := bitmap.Bits();
      assert b[p := false][f := true] == b[f := true][p := false];
      bitmap.SetBit(f, 1);
      bitmap.SetBit(p, 0);
    }

    /** makeRoomMove(key): aborted is the failure of one of its two
        asserts, and then nothing has changed. */
    method MakeRoomMove(key: Key) returns (aborted: bool)
      requires Valid()
      modifies slots, bitmap
      ensures Valid()
      ensures aborted <==> MakeRoom(old(slots[..]), key).Abort?
      ensures aborted ==> slots[..] == old(slots[..])
      ensures !aborted ==> slots[..] == MakeRoom(old(slots[..]), key).value
    {
      ghost var s := slots[..];
      var sp := LookupEmptyDomainSpot(key);
      if sp.code == EmptyFound {
        return true;
      }
      var p := RoomScan(key, sp.pos);
      MakeRoomVia(s, key, p);
      if p < slots.Length && !slots[p].Domain? {
        return true;
      }
      aborted := false;
      if p == slots.Length {
        return;
      }
      ShiftFrom(p);
    }

    /** memset(place, 0); header = flagUsed|flagDomain; key copied;
        bitmap->setBit(spot, true). */
    method PlaceHeader(pos: nat, key: Key)
      requires Valid() && pos < slots.Length && slots[pos].Free?
      modifies slots, bitmap
      ensures Valid()
      ensures slots[..] == old(slots[..])[pos := NewHeader(key)]
    {
      ghost var m := slots[..];
      slots[pos] := NewHeader(key);
      bitmap.SetBit(pos, 1);
      assert UsedBits(slots[..]) == UsedBits(m)[pos := true];
    }

    /** addDomain(key); the two asserts on the way are proved to hold. */
    method AddDomain(key: Key) returns (r: QueryError)
      requires Valid()
      modifies slots, bitmap
      ensures Valid()
      ensures (r, slots[..]) == BlockSpec.AddDomain(old(slots[..]), key)
    {
      ghost var s := slots[..];
      AddDomainAt(s, key);
      var sp := LookupEmptyDomainSpot(key);
      if sp.code == NoEmptySpot {
        var aborted := MakeRoomMove(key);
        sp := LookupEmptyDomainSpot(key);
        assert sp.code != AlreadyExists;
        if sp.code == NoEmptySpot {
          return ResNoSpaceLeft;
        }
      } else if sp.code == AlreadyExists {
        return ResAlreadyExists;
      }
      PlaceHeader(sp.pos, key);
      r := ResOK;
    }

    /** The record loop over one slot of the chain: the first entry with
        ip == 0 takes the record. */
    method TakeEntry(q: nat, rec: IPv4Record) returns (taken: bool)
      requires q < slots.Length
      modifies slots
      ensures taken <==> FirstZeroIp(Recs(old(slots[q]))) >= 0
      ensures taken ==> slots[..] == old(slots[..])[q := WithRec(old(slots[q]), FirstZeroIp(Recs(old(slots[q]))), rec)]
      ensures !taken ==> slots[..] == old(slots[..])
    {
      ghost var s := slots[..];
      var rs := Recs(slots[q]);
      var i := 0;
      while i < |rs|
        invariant 0 <= i <= |rs|
        invariant slots[..] == s
        invariant forall j :: 0 <= j < i ==> rs[j].ip != 0
      {
        if rs[i].ip == 0 {
          slots[q] := WithRec(slots[q], i, rec);
          return true;
        }
        i := i + 1;
      }
      return false;
    }

    /** addDomainIpv4_int's do-while over the chain of header p: the first
        slot with an entry whose ip is 0 takes the record; otherwise q is
        the slot after the chain. */
    method FillChain(p: nat, rec: IPv4Record) returns (taken: bool, q: nat)
      requires p < slots.Length
      modifies slots
      ensures var s, e := old(slots[..]), ChainEnd(old(slots[..]), p + 1);
        var j := FirstWithRoom(s, p, e);
        (taken <==> j >= 0)
        && (taken ==> slots[..] == s[j := WithRec(s[j], FirstZeroIp(Recs(s[j])), rec)])
        && (!taken ==> slots[..] == s && q == e)
    {
      ghost var s := slots[..];
      ghost var e := ChainEnd(s, p + 1);
      q := p;
      taken := TakeEntry(p, rec);
      if taken {
        return;
      }
      q := p + 1;
      while q < slots.Length && slots[q].Cont?
        invariant p < q <= e
        invariant slots[..] == s
        invariant FirstWithRoom(s, p, e) == FirstWithRoom(s, q, e)
        decreases slots.Length - q
      {
        taken := TakeEntry(q, rec);
        if taken {
          return;
        }
        q := q + 1;
      }
    }

    /** memset(ptr, 0); header = flagUsed; records[0] = rec; updateBM(). */
    method AppendCont(q: nat, rec: IPv4Record)
      requires Valid() && q < slots.Length
      modifies slots, bitmap
      ensures Valid()
      ensures slots[..] == old(slots[..])[q := NewCont(rec)]
    {
      slots[q] := NewCont(rec);
      UpdateBM();
    }

    /** addDomainIpv4_int(key, rec, retry). */
    method AddDomainIpv4Int(key: Key, rec: IPv4Record, retry: bool) returns (o: Outcome<bool>)
      requires Valid()
      modifies slots, bitmap
      ensures Valid()
      ensures AddIp(old(slots[..]), key, rec, retry) == if o.Done? then Done((o.value, slots[..])) else Abort
      decreases if retry then 1 else 0
    {
      ghost var s := slots[..];
      var p := LookupDomain(key);
      if p < 0 {
        return Done(false);
      }
      var taken, q := FillChain(p, rec);
      AddIpAt(s, key, rec, retry);
      if taken {
        ghost var j := FirstWithRoom(s, p, ChainEnd(s, p + 1));
        WithRecBits(s, j, FirstZeroIp(Recs(s[j])), rec);
        return Done(true);
      }
      if q < slots.Length && slots[q].Free? {
        AppendCont(q, rec);
        return Done(true);
      } else if retry {
        var aborted := MakeRoomMove(key);
        if aborted {
          return Abort;
        }
        o := AddDomainIpv4Int(key, rec, false);
      } else {
        o := Done(false);
      }
    }

    /** addDomainIpv4 */
    method AddDomainIpv4(key: Key, rec: IPv4Record) returns (o: Outcome<bool>)
      requires Valid()
      modifies slots, bitmap
      ensures Valid()
      ensures BlockSpec.AddDomainIpv4(old(slots[..]), key, rec) == if o.Done? then Done((o.value, slots[..])) else Abort
    {
      o := AddDomainIpv4Int(key, rec, true);
    }

    /** splitBlock's search: from start = 8N/16 down by N/16 while start
        >= 0, the first header in [start, N - 16). */
    method SplitScan() returns (pos: int)
      requires slots.Length >= 16
      ensures pos == SplitPos(slots[..])
    {
      ghost var s := slots[..];
      var n := slots.Length;
      pos := -1;
      var start := 8 * n / 16;
      while start >= 0
        invariant SplitSearch(s, start) == SplitPos(s)
        decreases start
      {
        var i := start;
        while i < n - 16
          invariant start <= i
          invariant FirstHeaderIn(s, i, n - 16) == FirstHeaderIn(s, start, n - 16)
        {
          if slots[i].Domain? {
            return i;
          }
          i := i + 1;
        }
        start := start - n / 16;
      }
    }

    /** memcpy(newblk, &blockptr[pos], regs_after slots). */
    method CopyTail(newblk: DnsBlock, pos: nat)
      requires pos <= slots.Length == newblk.slots.Length && newblk.slots != slots
      modifies newblk.slots
      ensures newblk.slots[..] == slots[pos..] + old(newblk.slots[..])[slots.Length - pos..]
    {
      ghost var t := newblk.slots[..];
      var n := slots.Length;
      var k := 0;
      while k < n - pos
        invariant 0 <= k <= n - pos
        invariant forall j :: 0 <= j < k ==> newblk.slots[j] == slots[pos + j]
        invariant forall j :: k <= j < n ==> newblk.slots[j] == t[j]
      {
        newblk.slots[k] := slots[pos + k];
        k := k + 1;
      }
      assert newblk.slots[..] == slots[pos..] + t[n - pos..];
    }

    /** memset(&blockptr[pos], 0, regs_after slots). */
    method ZeroFrom(pos: nat)
      requires pos <= slots.Length
      modifies slots
      ensures slots[..] == old(slots[..])[..pos] + EmptyBlock(slots.Length - pos)
    {
      ghost var s := slots[..];
      var k := pos;
      while k < slots.Length
        invariant pos <= k <= slots.Length
        invariant forall j :: 0 <= j < pos ==> slots[j] == s[j]
        invariant forall j :: pos <= j < k ==> slots[j] == EmptySlot()
        invariant forall j :: k <= j < slots.Length ==> slots[j] == s[j]
      {
        slots[k] := EmptySlot();
        k := k + 1;
      }
      assert slots[..] == s[..pos] + EmptyBlock(slots.Length - pos);
    }

    /** splitBlock(domint, newblk): domint is unused; aborted is the
        failure of the assert on pos, and then nothing has changed. */
    method SplitBlock(newblk: DnsBlock) returns (aborted: bool)
      requires Valid() && newblk.Valid()
      requires newblk.slots != slots && newblk.bitmap != bitmap
      modifies slots, bitmap, newblk.slots, newblk.bitmap
      ensures Valid() && newblk.Valid()
      ensures SplitIs(old(slots[..]), old(newblk.slots[..]), aborted, slots[..], newblk.slots[..])
    {
      var pos := SplitScan();
      if pos < 0 {
        SplitResult(slots[..], newblk.slots[..], pos, slots[..], newblk.slots[..]);
        return true;
      }
      MoveTail(newblk, pos);
      aborted := false;
    }

    /** splitBlock once pos is found: the tail moves to newblk, is zeroed
        here, and both bitmaps are rebuilt. */
    method MoveTail(newblk: DnsBlock, pos: nat)
      requires Valid() && newblk.Valid() && pos == SplitPos(slots[..])
      requires newblk.slots != slots && newblk.bitmap != bitmap
      modifies slots, bitmap, newblk.slots, newblk.bitmap
      ensures Valid() && newblk.Valid()
      ensures SplitIs(old(slots[..]), old(newblk.slots[..]), false, slots[..], newblk.slots[..])
    {
      ghost var s, t := slots[..], newblk.slots[..];
      CopyTail(newblk, pos);
      ghost var n := newblk.slots[..];
      ZeroFrom(pos);
      ghost var o := slots[..];
      UpdateBM();
      newblk.UpdateBM();
      assert slots[..] == o && newblk.slots[..] == n;
      SplitResult(s, t, pos, o, n);
    }

    /** getMinDomain: the key of the first header; the source asserts
        there is one. */
    method GetMinDomain() returns (o: Outcome<Key>)
      ensures o == if FirstHeader(slots[..]) < 0 then Abort else Done(slots[FirstHeader(slots[..])].key)
    {
      ghost var s := slots[..];
      var i := 0;
      while i < slots.Length
        invariant 0 <= i <= slots.Length
        invariant FirstHeaderIn(s, i, |s|) == FirstHeader(s)
      {
        if slots[i].Domain? {
          return Done(slots[i].key);
        }
        i := i + 1;
      }
      return Abort;
    }

    /** getMaxDomain: the key of the last header; the source asserts
        there is one. */
    method GetMaxDomain() returns (o: Outcome<Key>)
      ensures o == if LastHeader(slots[..]) < 0 then Abort else Done(slots[LastHeader(slots[..])].key)
    {
      ghost var s := slots[..];
      var i := slots.Length - 1;
      while i >= 0
        invariant -1 <= i < slots.Length
        invariant LastHeaderBefore(s, i + 1) == LastHeader(s)
      {
        if slots[i].Domain? {
          return Done(slots[i].key);
        }
        i := i - 1;
      }
      return Abort;
    }

    /** check(): the reports it prints, in order. */
    method Check() returns (errs: seq<CheckError>)
      ensures errs == BlockSpec.Check(slots[..])
    {
      ghost var s := slots[..];
      var prev := DomainMin();
      var lastEmpty := true;
      errs := [];
      var i := 0;
      while i < slots.Length
        invariant 0 <= i <= slots.Length
        invariant errs + CheckFrom(s, i, prev, lastEmpty) == BlockSpec.Check(s)
      {
        ghost var e0, p0, l0 := errs, prev, lastEmpty;
        var unsorted := slots[i].Domain? && !Less(prev, slots[i].key);
        if unsorted {
          errs := errs + [Unsorted(i)];
          prev := slots[i].key;
        }
        var hole := slots[i].Cont? && lastEmpty;
        if hole {
          errs := errs + [Hole(i)];
        }
        lastEmpty := !Used(slots[i]);
        CheckStep(s, i, p0, l0, e0, errs, prev, lastEmpty);
        i := i + 1;
      }
    }

    /** getNumRecords: the bitmap's count of used slots. */
    method GetNumRecords() returns (n: int)
      requires Valid()
      ensures n == UsedCount(slots[..])
    {
      n := bitmap.BitCount();
    }

    /** getNumFreeRecords: numBlocks minus the used count; 0 exactly when
        every slot is used. */
    method GetNumFreeRecords() returns (n: int)
      requires Valid()
      ensures n == NumSlots - UsedCount(slots[..])
      ensures n >= 0 && (n == 0 <==> forall i :: 0 <= i < slots.Length ==> Used(slots[i]))
    {
      var c := bitmap.BitCount();
      UsedCountBounds(slots[..]);
      n := NumSlots - c;
    }
  }

  /** DnsBlock::Iterator: the slot index p of a block. */
  class BlockIterator {
    const block: DnsBlock
    var p: nat

    /** Iterator(blkid, n): from slot n, skip the slots with neither flag. */
    constructor (blk: DnsBlock, n: nat)
      requires n <= blk.slots.Length
      ensures block == blk && p == NextUsed(blk.slots[..], n)
    {
      block := blk;
      var q := n;
      while q < blk.slots.Length && blk.slots[q].Free?
        invariant n <= q <= blk.slots.Length
        invariant NextUsed(blk.slots[..], q) == NextUsed(blk.slots[..], n)
        decreases blk.slots.Length - q
      {
        q := q + 1;
      }
      p := q;
    }

    /** next(): step once, then skip the slots with neither flag. The
        source reads past the block when p is already at its end. */
    method Next()
      requires p < block.slots.Length
      modifies this
      ensures p == NextUsed(block.slots[..], old(p) + 1)
    {
      var q := p + 1;
      while q < block.slots.Length && block.slots[q].Free?
        invariant old(p) < q <= block.slots.Length
        invariant NextUsed(block.slots[..], q) == NextUsed(block.slots[..], old(p) + 1)
        decreases block.slots.Length - q
      {
        q := q + 1;
      }
      p := q;
    }

    /** end(): whether no used slot follows p.  The source's loop misses
        an iterator already at endptr (EndAsWritten); this one first tests
        for it and answers true. */
    method End() returns (b: bool)
      ensures b == AtEnd(block.slots[..], p)
      ensures b <==> forall j :: p < j < block.slots.Length ==> !Used(block.slots[j])
    {
      if p >= block.slots.Length {
        return true;
      }
      var i := p + 1;
      while i < block.slots.Length && block.slots[i].Free?
        invariant p < i <= block.slots.Length
        invariant NextUsed(block.slots[..], i) == NextUsed(block.slots[..], p + 1)
        decreases block.slots.Length - i
      {
        i := i + 1;
      }
      b := i == block.slots.Length;
    }
  }
}
