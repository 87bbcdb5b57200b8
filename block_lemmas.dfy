/** Properties of the block operations of BlockSpec: the block invariant
    is kept, the insertion spot is the one the sorted order calls for, and
    records and headers are conserved by moves and splits. */
module BlockLemmas {
  import opened Keys
  import opened Records
  import opened Slots
  import opened Wrappers
  import opened BlockSpec
  import Bitmaps

  // ---------------------------------------------------------------------
  // Counting helpers

  lemma {:induction false} HeaderKeysConcat(a: Block, b: Block)
    ensures HeaderKeys(a + b) == HeaderKeys(a) + HeaderKeys(b)
  {
    if a == [] {
      assert a + b == b;
    } else {
      var ab := a + b;
      assert ab[0] == a[0] && ab[1..] == a[1..] + b;
      HeaderKeysConcat(a[1..], b);
      var x := if a[0].Domain? then [a[0].key] else [];
      assert HeaderKeys(ab) == x + (HeaderKeys(a[1..]) + HeaderKeys(b));
      Assoc(x, HeaderKeys(a[1..]), HeaderKeys(b));
    }
  }

  lemma UsedCountConcat(a: Block, b: Block)
    ensures UsedCount(a + b) == UsedCount(a) + UsedCount(b)
  {
    assert UsedBits(a + b) == UsedBits(a) + UsedBits(b);
    Bitmaps.CountConcat(UsedBits(a), UsedBits(b));
  }

  lemma {:induction false} HeaderKeysNoHeader(s: Block)
    requires forall i :: 0 <= i < |s| ==> !s[i].Domain?
    ensures HeaderKeys(s) == []
  {
    if s != [] { HeaderKeysNoHeader(s[1..]); }
  }

  lemma {:induction false} CountNone(bs: seq<bool>)
    requires forall i :: 0 <= i < |bs| ==> !bs[i]
    ensures Bitmaps.Count(bs) == 0
  {
    if bs != [] { CountNone(bs[1..]); }
  }

  lemma {:induction false} CountAll(bs: seq<bool>)
    requires forall i :: 0 <= i < |bs| ==> bs[i]
    ensures Bitmaps.Count(bs) == |bs|
  {
    if bs != [] { CountAll(bs[1..]); }
  }

  lemma {:induction false} HeaderKeysIn(s: Block, k: Key)
    ensures k in HeaderKeys(s) <==> HasHeader(s, k)
  {
    if s != [] {
      HeaderKeysIn(s[1..], k);
      if HasHeader(s[1..], k) {
        var i :| 0 <= i < |s[1..]| && s[1..][i].Domain? && s[1..][i].key == k;
        assert s[i + 1] == s[1..][i];
      }
      if HasHeader(s, k) && !(s[0].Domain? && s[0].key == k) {
        var i :| 0 <= i < |s| && s[i].Domain? && s[i].key == k;
        assert s[1..][i - 1] == s[i];
      }
    }
  }

  /** The whole block is free / used. */
  lemma FreeBlockCounts(s: Block)
    requires forall i :: 0 <= i < |s| ==> s[i].Free?
    ensures UsedCount(s) == 0 && HeaderKeys(s) == []
  {
    CountNone(UsedBits(s));
    HeaderKeysNoHeader(s);
  }

  /** getNumRecords() + getNumFreeRecords() == numBlocks: the used count
      never exceeds the slot count, and equals it only for a full block. */
  lemma UsedCountBounds(s: Block)
    ensures UsedCount(s) <= |s|
    ensures UsedCount(s) == |s| <==> forall i :: 0 <= i < |s| ==> Used(s[i])
  {
    if forall i :: 0 <= i < |s| ==> Used(s[i]) {
      CountAll(UsedBits(s));
    } else {
      var i :| 0 <= i < |s| && !Used(s[i]);
      assert s == s[..i] + [s[i]] + s[i + 1..];
      UsedCountConcat(s[..i] + [s[i]], s[i + 1..]);
      UsedCountConcat(s[..i], [s[i]]);
      assert UsedBits([s[i]]) == [false];
    }
  }

  // ---------------------------------------------------------------------
  // lookupEmptyDomainSpot against the sorted order

  /** Slot j is a place for key: free, every header before it smaller and
      every header after it larger. */
  ghost predicate Fits(s: Block, key: Key, j: nat)
  {
    j < |s| && s[j].Free?
    && (forall i :: 0 <= i < j && s[i].Domain? ==> Less(s[i].key, key))
    && (forall i :: j < i < |s| && s[i].Domain? ==> Less(key, s[i].key))
  }

  /** In a sorted block the search reports ALREADY_EXISTS exactly when a
      header holds the key (at that header); otherwise it reports
      EMPTY_FOUND at the first slot that fits, and NO_EMPTY_SPOT exactly
      when no slot fits. */
  lemma SpotSorted(s: Block, key: Key)
    requires Sorted(s)
    ensures HasDomain(s, key) <==> HasHeader(s, key)
    ensures !HasHeader(s, key) ==>
      (Spot(s, key).code == EmptyFound <==> exists j :: Fits(s, key, j))
    ensures !HasHeader(s, key) && Spot(s, key).code == EmptyFound ==>
      Fits(s, key, Spot(s, key).pos) && forall j :: 0 <= j < Spot(s, key).pos ==> !Fits(s, key, j)
  {
    var h := StopAt(s, key, 0);
    var l := LastHeaderBefore(s, h);
    if HasHeader(s, key) {
      var i :| 0 <= i < |s| && s[i].Domain? && s[i].key == key;
      LessIrreflexive(key);
      StopAtIs(s, key, i);
    } else {
      var sp := Spot(s, key);
      if h < |s| {
        assert s[h].key != key;
        LessTotal(s[h].key, key);
      }
      // Every slot that fits lies strictly between l and h.
      forall j: nat | Fits(s, key, j) ensures l < j < h {
        if h < |s| { LessAsym(key, s[h].key); }
        if l >= 0 { LessAsym(key, s[l].key); }
      }
      if sp.code == EmptyFound {
        var f := sp.pos;
        assert l < f < h;
        forall i | f < i < |s| && s[i].Domain? ensures Less(key, s[i].key) {
          assert i >= h;
          if i > h {
            LessTrans(key, s[h].key, s[i].key);
          }
        }
        assert Fits(s, key, f);
      }
    }
  }

  // ---------------------------------------------------------------------
  // Inserting a used slot in front of the first free slot

  /** Slot sl goes to position x; slots x .. u - 1 move up one; the free
      slot u disappears.  Inserting at the free slot itself is x == u. */
  function InsertAt(s: Block, x: nat, u: nat, sl: Slot): (s': Block)
    requires x <= u < |s|
    ensures |s'| == |s|
  {
    s[..x] + [sl] + s[x..u] + s[u + 1..]
  }

  /** The conditions under which such an insertion keeps the invariant. */
  ghost predicate InsertOk(s: Block, x: nat, u: nat, sl: Slot)
  {
    x <= u < |s| && s[u].Free? && Used(sl)
    && (forall j :: 0 <= j < u ==> Used(s[j]))
    && (sl.Cont? ==> x > 0)
    && (sl.Domain? ==> forall j :: 0 <= j < |s| && s[j].Domain? ==>
          (j < x ==> Less(s[j].key, sl.key)) && (j >= x ==> Less(sl.key, s[j].key)))
  }

  lemma InsertAtIndex(s: Block, x: nat, u: nat, sl: Slot)
    requires x <= u < |s|
    ensures forall j :: 0 <= j < x ==> InsertAt(s, x, u, sl)[j] == s[j]
    ensures InsertAt(s, x, u, sl)[x] == sl
    ensures forall j :: x < j <= u ==> InsertAt(s, x, u, sl)[j] == s[j - 1]
    ensures forall j :: u < j < |s| ==> InsertAt(s, x, u, sl)[j] == s[j]
  {
  }

  lemma InsertSorted(s: Block, x: nat, u: nat, sl: Slot)
    requires Sorted(s) && InsertOk(s, x, u, sl)
    ensures Sorted(InsertAt(s, x, u, sl))
  {
    var t := InsertAt(s, x, u, sl);
    InsertAtIndex(s, x, u, sl);
    forall i, j | 0 <= i < j < |t| && t[i].Domain? && t[j].Domain?
      ensures Less(t[i].key, t[j].key)
    {
      var i' := if i < x then i else if i <= u then i - 1 else i;
      var j' := if j < x then j else if j <= u then j - 1 else j;
      if i == x {
        assert t[j] == s[j'] && j' >= x;
      } else if j == x {
        assert t[i] == s[i'] && i' < x;
      } else {
        assert t[i] == s[i'] && t[j] == s[j'] && i' < j';
      }
    }
  }

  lemma InsertNoHoles(s: Block, x: nat, u: nat, sl: Slot)
    requires WF(s) && InsertOk(s, x, u, sl)
    ensures NoHoles(InsertAt(s, x, u, sl))
  {
    var t := InsertAt(s, x, u, sl);
    InsertAtIndex(s, x, u, sl);
    forall i | 0 <= i < |t| && t[i].Cont? ensures i > 0 && Used(t[i - 1]) {
      if i < x {
        assert t[i] == s[i] && t[i - 1] == s[i - 1];
      } else if x + 1 < i <= u {
        assert t[i] == s[i - 1] && t[i - 1] == s[i - 2];
      }
    }
  }

  lemma InsertUsedPrefix(s: Block, x: nat, u: nat, sl: Slot)
    requires WF(s) && InsertOk(s, x, u, sl)
    ensures UsedPrefix(InsertAt(s, x, u, sl))
  {
    var t := InsertAt(s, x, u, sl);
    InsertAtIndex(s, x, u, sl);
    assert forall j :: 0 <= j <= u ==> Used(t[j]);
    assert forall j :: u < j < |s| ==> t[j].Free?;
  }

  lemma InsertCounts(s: Block, x: nat, u: nat, sl: Slot)
    requires x <= u < |s| && s[u].Free? && Used(sl)
    ensures HeaderKeys(InsertAt(s, x, u, sl))
      == HeaderKeys(s[..x]) + (if sl.Domain? then [sl.key] else []) + HeaderKeys(s[x..])
    ensures HeaderKeys(s) == HeaderKeys(s[..x]) + HeaderKeys(s[x..])
    ensures UsedCount(InsertAt(s, x, u, sl)) == UsedCount(s) + 1
  {
    InsertHeaderKeys(s, x, u, sl);
    InsertUsedCount(s, x, u, sl);
  }

  lemma InsertHeaderKeys(s: Block, x: nat, u: nat, sl: Slot)
    requires x <= u < |s| && s[u].Free?
    ensures HeaderKeys(InsertAt(s, x, u, sl))
      == HeaderKeys(s[..x]) + (if sl.Domain? then [sl.key] else []) + HeaderKeys(s[x..])
    ensures HeaderKeys(s) == HeaderKeys(s[..x]) + HeaderKeys(s[x..])
  {
    HeaderKeysSplit(s, x);
    HeaderKeysDropFree(s, x, u);
    InsertHeaderKeysParts(s, x, u, sl);
    HeaderKeysSingle(sl);
  }

  lemma InsertHeaderKeysParts(s: Block, x: nat, u: nat, sl: Slot)
    requires x <= u < |s|
    ensures HeaderKeys(InsertAt(s, x, u, sl))
      == HeaderKeys(s[..x]) + HeaderKeys([sl]) + (HeaderKeys(s[x..u]) + HeaderKeys(s[u + 1..]))
  {
    var a, b, c := s[..x], s[x..u], s[u + 1..];
    assert InsertAt(s, x, u, sl) == (a + [sl]) + (b + c);
    HeaderKeysConcat(a + [sl], b + c);
    HeaderKeysConcat(a, [sl]);
    HeaderKeysConcat(b, c);
  }

  lemma HeaderKeysSingle(sl: Slot)
    ensures HeaderKeys([sl]) == (if sl.Domain? then [sl.key] else [])
  {
    assert HeaderKeys([sl]) == (if sl.Domain? then [sl.key] else []) + HeaderKeys([]);
  }

  lemma HeaderKeysSplit(s: Block, x: nat)
    requires x <= |s|
    ensures HeaderKeys(s) == HeaderKeys(s[..x]) + HeaderKeys(s[x..])
  {
    assert s == s[..x] + s[x..];
    HeaderKeysConcat(s[..x], s[x..]);
  }

  lemma HeaderKeysDropFree(s: Block, x: nat, u: nat)
    requires x <= u < |s| && s[u].Free?
    ensures HeaderKeys(s[x..]) == HeaderKeys(s[x..u]) + HeaderKeys(s[u + 1..])
  {
    assert s[x..] == s[x..u] + ([s[u]] + s[u + 1..]);
    HeaderKeysConcat(s[x..u], [s[u]] + s[u + 1..]);
    HeaderKeysConcat([s[u]], s[u + 1..]);
    assert HeaderKeys([s[u]]) == [];
  }

  lemma InsertUsedCount(s: Block, x: nat, u: nat, sl: Slot)
    requires x <= u < |s| && s[u].Free? && Used(sl)
    ensures UsedCount(InsertAt(s, x, u, sl)) == UsedCount(s) + 1
  {
    var a, b, c := s[..x], s[x..u], s[u + 1..];
    assert UsedBits([sl]) == [true];
    assert UsedBits([s[u]]) == [false];
    assert s == a + b + [s[u]] + c;
    UsedCountConcat(a + b + [s[u]], c);
    UsedCountConcat(a + b, [s[u]]);
    UsedCountConcat(a, b);
    assert UsedCount(s) == UsedCount(a) + UsedCount(b) + UsedCount(c);
    UsedCountConcat(a + [sl] + b, c);
    UsedCountConcat(a + [sl], b);
    UsedCountConcat(a, [sl]);
  }

  lemma InsertKeepsWF(s: Block, x: nat, u: nat, sl: Slot)
    requires WF(s) && InsertOk(s, x, u, sl)
    ensures WF(InsertAt(s, x, u, sl))
  {
    InsertSorted(s, x, u, sl);
    InsertNoHoles(s, x, u, sl);
    InsertUsedPrefix(s, x, u, sl);
  }

  /** Shifting p .. f - 1 up and then writing slot p is one insertion. */
  lemma ShiftThenWrite(s: Block, p: nat, f: nat, sl: Slot)
    requires p < f < |s|
    ensures Shift(s, p, f)[p := sl] == InsertAt(s, p, f, sl)
  {
    InsertAtIndex(s, p, f, sl);
  }

  /** Writing a free slot in place is an insertion with x == u. */
  lemma WriteIsInsert(s: Block, u: nat, sl: Slot)
    requires u < |s|
    ensures s[u := sl] == InsertAt(s, u, u, sl)
  {
    InsertAtIndex(s, u, u, sl);
  }

  /** Every slot up to a used one is used. */
  lemma UsedBefore(s: Block, i: nat)
    requires UsedPrefix(s) && i < |s| && Used(s[i])
    ensures forall j :: 0 <= j <= i ==> Used(s[j])
  {
  }

  // ---------------------------------------------------------------------
  // addDomain

  /** What a successful addDomain promises about the new block. */
  ghost predicate Added(s: Block, key: Key, s': Block)
  {
    !HasHeader(s, key)
    && (exists x :: 0 <= x <= |s| && HeaderKeys(s') == HeaderKeys(s[..x]) + [key] + HeaderKeys(s[x..])
                                  && HeaderKeys(s) == HeaderKeys(s[..x]) + HeaderKeys(s[x..]))
    && UsedCount(s') == UsedCount(s) + 1
    && HasDomain(s', key)
  }

  /** The slots before the stop point are used when the search found no
      free slot between the last smaller header and it. */
  lemma UsedBeforeStop(s: Block, key: Key)
    requires WF(s)
    ensures var h := StopAt(s, key, 0);
      FirstFreeIn(s, LastHeaderBefore(s, h) + 1, h) < 0 ==> forall j :: 0 <= j < h ==> Used(s[j])
  {
    var h := StopAt(s, key, 0);
    var l := LastHeaderBefore(s, h);
    if l >= 0 { UsedBefore(s, l); }
  }

  /** The stop header, when it is not the key, is greater than the key, and
      so is every header after it. */
  lemma AfterStop(s: Block, key: Key)
    requires Sorted(s)
    ensures var h := StopAt(s, key, 0);
      h < |s| && s[h].key != key ==> forall j :: h <= j < |s| && s[j].Domain? ==> Less(key, s[j].key)
  {
    var h := StopAt(s, key, 0);
    if h < |s| && s[h].key != key {
      LessTotal(s[h].key, key);
      forall j | h < j < |s| && s[j].Domain? ensures Less(key, s[j].key) {
        LessTrans(key, s[h].key, s[j].key);
      }
    }
  }

  /** A header for a key absent from the block, inserted where the order
      allows, gives a well-formed block in which addDomain succeeded. */
  lemma InsertedHeader(s: Block, key: Key, x: nat, u: nat)
    requires WF(s) && InsertOk(s, x, u, NewHeader(key))
    ensures WF(InsertAt(s, x, u, NewHeader(key)))
    ensures Added(s, key, InsertAt(s, x, u, NewHeader(key)))
  {
    var sl := NewHeader(key);
    var t := InsertAt(s, x, u, sl);
    InsertKeepsWF(s, x, u, sl);
    InsertCounts(s, x, u, sl);
    LessIrreflexive(key);
    InsertAtIndex(s, x, u, sl);
    assert t[x].Domain? && t[x].key == key;
    SpotSorted(s, key);
    SpotSorted(t, key);
  }

  lemma AddDomainPlaced(s: Block, key: Key)
    requires WF(s) && Spot(s, key).code == EmptyFound
    ensures WF(AddDomain(s, key).1) && Added(s, key, AddDomain(s, key).1)
  {
    var u := Spot(s, key).pos;
    PlacedInsertOk(s, key);
    WriteIsInsert(s, u, NewHeader(key));
    InsertedHeader(s, key, u, u);
  }

  lemma PlacedInsertOk(s: Block, key: Key)
    requires WF(s) && Spot(s, key).code == EmptyFound
    ensures InsertOk(s, Spot(s, key).pos, Spot(s, key).pos, NewHeader(key))
  {
    var u := Spot(s, key).pos;
    var h := StopAt(s, key, 0);
    var l := LastHeaderBefore(s, h);
    assert u == FirstFreeIn(s, l + 1, h);
    forall j | 0 <= j < u ensures Used(s[j]) {
      if l >= 0 && j <= l { UsedBefore(s, l); }
    }
    AfterStop(s, key);
  }

  /** After the move of addDomain, the second search lands on the freed
      slot, and that insertion may happen. */
  lemma MovedSpot(s: Block, key: Key, h: nat, f: int)
    requires WF(s) && Spot(s, key).code == NoEmptySpot
    requires h == StopAt(s, key, 0) && h < |s| && f == FirstFreeIn(s, h + 1, |s|) && f >= 0
    ensures Spot(Shift(s, h, f), key) == SpotResult(EmptyFound, h)
    ensures InsertOk(s, h, f, NewHeader(key))
  {
    var m := Shift(s, h, f);
    var l := LastHeaderBefore(s, h);
    ShiftStop(s, key, h, f);
    LastHeaderBeforeShifted(s, m, h, l);
    assert FirstFreeIn(s, l + 1, h) < 0;
    assert FirstFreeIn(m, l + 1, h + 1) == h;
    MovedInsertOk(s, key, h, f);
  }

  lemma MovedInsertOk(s: Block, key: Key, h: nat, f: int)
    requires WF(s) && Spot(s, key).code == NoEmptySpot
    requires h == StopAt(s, key, 0) && h < |s| && f == FirstFreeIn(s, h + 1, |s|) && f >= 0
    ensures InsertOk(s, h, f, NewHeader(key))
  {
    UsedBeforeStop(s, key);
    assert forall j :: 0 <= j < f ==> Used(s[j]);
    AfterStop(s, key);
  }

  lemma AddDomainMoved(s: Block, key: Key)
    requires WF(s) && Spot(s, key).code == NoEmptySpot
    ensures WF(AddDomain(s, key).1)
    ensures AddDomain(s, key).0 == ResOK ==> Added(s, key, AddDomain(s, key).1)
  {
    MakeRoomAfterNoSpot(s, key);
    var h := StopAt(s, key, 0);
    assert RoomPoint(s, key, 0) == h;
    assert MakeRoom(s, key) == MakeRoomAt(s, h);
    if h < |s| {
      var f := FirstFreeIn(s, h + 1, |s|);
      if f >= 0 {
        assert MakeRoomAt(s, h) == Done(Shift(s, h, f));
        MovedSpot(s, key, h, f);
        ShiftThenWrite(s, h, f, NewHeader(key));
        InsertedHeader(s, key, h, f);
      }
    }
  }

  /** addDomain keeps the block invariant; on success the key had no
      header, its header now sits in key order among the others, one more
      slot is used and hasDomain now reports the key. */
  lemma AddDomainKeepsWF(s: Block, key: Key)
    requires WF(s)
    ensures WF(AddDomain(s, key).1)
    ensures AddDomain(s, key).0 == ResOK ==> Added(s, key, AddDomain(s, key).1)
  {
    var sp := Spot(s, key);
    if sp.code == EmptyFound {
      AddDomainPlaced(s, key);
    } else if sp.code == NoEmptySpot {
      AddDomainMoved(s, key);
    }
  }

  lemma LastHeaderBeforeShifted(s: Block, m: Block, h: nat, l: int)
    requires h < |s| == |m| && m[..h] == s[..h] && m[h].Free?
    requires l == LastHeaderBefore(s, h)
    ensures LastHeaderBefore(m, h + 1) == l
  {
    assert LastHeaderBefore(m, h + 1) == LastHeaderBefore(m, h);
    LastHeaderBeforePrefix(s, m, h);
  }

  lemma {:induction false} LastHeaderBeforePrefix(s: Block, m: Block, h: nat)
    requires h <= |s| && h <= |m| && m[..h] == s[..h]
    ensures LastHeaderBefore(m, h) == LastHeaderBefore(s, h)
  {
    if h > 0 {
      assert m[h - 1] == m[..h][h - 1] == s[..h][h - 1] == s[h - 1];
      assert m[..h - 1] == s[..h - 1] by {
        assert m[..h - 1] == m[..h][..h - 1];
        assert s[..h - 1] == s[..h][..h - 1];
      }
      LastHeaderBeforePrefix(s, m, h - 1);
    }
  }

  /** When the search finds no spot but a free slot follows the stop
      header, the move makes room and addDomain succeeds. */
  lemma MoveMakesRoom(s: Block, key: Key)
    requires Spot(s, key).code == NoEmptySpot
    ensures var h := StopAt(s, key, 0);
      h < |s| && FirstFreeIn(s, h + 1, |s|) >= 0 ==> AddDomain(s, key).0 == ResOK
  {
    MakeRoomAfterNoSpot(s, key);
    var h := StopAt(s, key, 0);
    assert RoomPoint(s, key, 0) == h;
    if h < |s| && FirstFreeIn(s, h + 1, |s|) >= 0 {
      var f := FirstFreeIn(s, h + 1, |s|);
      assert Shift(s, h, f)[h] != s[h];
    }
  }

  /** In a well-formed block addDomain reports no space only when every
      slot is used, and then leaves the block as it was. */
  lemma AddDomainNoSpace(s: Block, key: Key)
    requires WF(s) && AddDomain(s, key).0 == ResNoSpaceLeft
    ensures AddDomain(s, key).1 == s
    ensures forall i :: 0 <= i < |s| ==> Used(s[i])
    ensures UsedCount(s) == |s|
  {
    var h := StopAt(s, key, 0);
    assert Spot(s, key).code == NoEmptySpot;
    MoveMakesRoom(s, key);
    UsedBeforeStop(s, key);
    UsedCountBounds(s);
  }

  // ---------------------------------------------------------------------
  // makeRoomMove

  /** The used slots of a block, in slot order. */
  function Packed(s: Block): seq<Slot>
  {
    if s == [] then [] else (if Used(s[0]) then [s[0]] else []) + Packed(s[1..])
  }

  lemma {:induction false} PackedConcat(a: Block, b: Block)
    ensures Packed(a + b) == Packed(a) + Packed(b)
  {
    if a == [] {
      assert a + b == b;
    } else {
      var ab := a + b;
      assert ab[0] == a[0] && ab[1..] == a[1..] + b;
      PackedConcat(a[1..], b);
      var x := if Used(a[0]) then [a[0]] else [];
      assert Packed(ab) == x + (Packed(a[1..]) + Packed(b));
      Assoc(x, Packed(a[1..]), Packed(b));
    }
  }

  lemma Assoc<T>(x: seq<T>, y: seq<T>, z: seq<T>)
    ensures x + (y + z) == (x + y) + z
  {
  }

  /** Moving the run p .. f - 1 into the free slot f keeps the used slots
      and their order. */
  lemma ShiftPacked(s: Block, p: nat, f: nat)
    requires p < f < |s| && s[f].Free?
    ensures Packed(Shift(s, p, f)) == Packed(s)
  {
    ShiftPackedParts(s, p, f);
    SplitPackedParts(s, p, f);
  }

  lemma ShiftPackedParts(s: Block, p: nat, f: nat)
    requires p < f < |s|
    ensures Packed(Shift(s, p, f)) == Packed(s[..p]) + (Packed(s[p..f]) + Packed(s[f + 1..]))
  {
    var a, b, c := s[..p], s[p..f], s[f + 1..];
    assert Shift(s, p, f) == a + ([EmptySlot()] + (b + c));
    PackedConcat(a, [EmptySlot()] + (b + c));
    PackedConcat([EmptySlot()], b + c);
    PackedConcat(b, c);
  }

  lemma SplitPackedParts(s: Block, p: nat, f: nat)
    requires p < f < |s| && s[f].Free?
    ensures Packed(s) == Packed(s[..p]) + (Packed(s[p..f]) + Packed(s[f + 1..]))
  {
    PackedSplit(s, p);
    PackedSplitTail(s, p, f);
    PackedDropFree(s, f);
  }

  lemma PackedSplit(s: Block, p: nat)
    requires p <= |s|
    ensures Packed(s) == Packed(s[..p]) + Packed(s[p..])
  {
    assert s == s[..p] + s[p..];
    PackedConcat(s[..p], s[p..]);
  }

  lemma PackedSplitTail(s: Block, p: nat, f: nat)
    requires p <= f <= |s|
    ensures Packed(s[p..]) == Packed(s[p..f]) + Packed(s[f..])
  {
    assert s[p..] == s[p..f] + s[f..];
    PackedConcat(s[p..f], s[f..]);
  }

  lemma PackedDropFree(s: Block, f: nat)
    requires f < |s| && s[f].Free?
    ensures Packed(s[f..]) == Packed(s[f + 1..])
  {
    assert s[f..] == [s[f]] + s[f + 1..];
    PackedConcat([s[f]], s[f + 1..]);
    assert Packed([s[f]]) == [];
  }

  lemma ShiftUsedBits(s: Block, p: nat, f: nat)
    requires p < f < |s| && Used(s[p]) && s[f].Free? && forall j :: p < j < f ==> Used(s[j])
    ensures UsedBits(Shift(s, p, f)) == UsedBits(s)[p := false][f := true]
  {
  }

  /** What makeRoomMove does when it changes the block: the run from the
      stop point p (a header) up to the first free slot f after it moves
      one slot right, and slot p is freed. */
  lemma MakeRoomIsShift(s: Block, key: Key)
    requires MakeRoom(s, key).Done? && MakeRoom(s, key).value != s
    ensures var p := RoomPoint(s, key, Spot(s, key).pos);
      p < |s| && s[p].Domain?
      && var f := FirstFreeIn(s, p + 1, |s|);
      p < f && MakeRoom(s, key).value == Shift(s, p, f)
  {
  }

  /** The bitmap update of makeRoomMove: bit p cleared, bit p + tomove set. */
  lemma ShiftedBits(s: Block, m: Block, p: nat, f: int)
    requires p < |s| && s[p].Domain? && f == FirstFreeIn(s, p + 1, |s|) && p < f
    requires m == Shift(s, p, f)
    ensures UsedBits(m) == UsedBits(s)[p := false][f := true]
  {
    ShiftUsedBits(s, p, f);
  }

  /** makeRoomMove keeps the used slots and their order. */
  lemma MakeRoomPacked(s: Block, key: Key)
    requires MakeRoom(s, key).Done?
    ensures Packed(MakeRoom(s, key).value) == Packed(s)
  {
    if MakeRoom(s, key).value != s {
      MakeRoomIsShift(s, key);
      var p := RoomPoint(s, key, Spot(s, key).pos);
      var f := FirstFreeIn(s, p + 1, |s|);
      ShiftPacked(s, p, f);
    }
  }

  /** makeRoomMove keeps the headers sorted and opens no hole. */
  lemma MakeRoomKeepsOrder(s: Block, key: Key)
    requires Sorted(s) && NoHoles(s) && MakeRoom(s, key).Done?
    ensures Sorted(MakeRoom(s, key).value) && NoHoles(MakeRoom(s, key).value)
  {
    var m := MakeRoom(s, key).value;
    if m != s {
      MakeRoomIsShift(s, key);
      var p := RoomPoint(s, key, Spot(s, key).pos);
      var f := FirstFreeIn(s, p + 1, |s|);
      ShiftKeepsOrder(s, p, f);
    }
  }

  lemma ShiftKeepsOrder(s: Block, p: nat, f: nat)
    requires Sorted(s) && NoHoles(s) && p < f < |s| && s[p].Domain? && s[f].Free?
    ensures Sorted(Shift(s, p, f)) && NoHoles(Shift(s, p, f))
  {
    var m := Shift(s, p, f);
    forall i, j | 0 <= i < j < |m| && m[i].Domain? && m[j].Domain?
      ensures Less(m[i].key, m[j].key)
    {
      var i' := if p < i <= f then i - 1 else i;
      var j' := if p < j <= f then j - 1 else j;
      assert m[i] == s[i'] && m[j] == s[j'] && i' < j';
    }
    forall i | 0 <= i < |m| && m[i].Cont? ensures i > 0 && Used(m[i - 1]) {
      if i < p {
        assert m[i] == s[i] && m[i - 1] == s[i - 1];
      } else if p + 1 < i <= f {
        assert m[i] == s[i - 1] && m[i - 1] == s[i - 2];
      } else if f + 1 < i {
        assert m[i] == s[i] && m[i - 1] == s[i - 1];
      }
    }
  }
}
