/** Properties of splitBlock, getMinDomain/getMaxDomain, check and the
    block iterator on the block model. */
module BlockProps {
  import opened Keys
  import opened Slots
  import opened Wrappers
  import opened BlockSpec
  import opened BlockLemmas

  // ---------------------------------------------------------------------
  // splitBlock

  /** A well-formed block cut at pos, the rest zeroed, is well formed. */
  lemma PrefixWF(s: Block, pos: nat)
    requires WF(s) && pos <= |s|
    ensures WF(s[..pos] + EmptyBlock(|s| - pos))
  {
    var o := s[..pos] + EmptyBlock(|s| - pos);
    assert forall i :: 0 <= i < pos ==> o[i] == s[i];
    assert forall i :: pos <= i < |s| ==> o[i].Free?;
  }

  /** The slots from header pos on, moved to the front of a zeroed block,
      form a well-formed block. */
  lemma SuffixWF(s: Block, pos: nat)
    requires WF(s) && pos < |s| && s[pos].Domain?
    ensures WF(s[pos..] + EmptyBlock(pos))
  {
    var n := s[pos..] + EmptyBlock(pos);
    assert forall i :: 0 <= i < |s| - pos ==> n[i] == s[pos + i];
    assert forall i :: |s| - pos <= i < |s| ==> n[i].Free?;
    forall i, j | 0 <= i < j < |n| && n[i].Domain? && n[j].Domain?
      ensures Less(n[i].key, n[j].key)
    {
      assert j < |s| - pos;
      assert n[i] == s[pos + i] && n[j] == s[pos + j];
    }
  }

  /** The counts split with the block, whatever zeroed slots pad the
      two halves. */
  lemma SplitCounts(s: Block, pos: nat, e: Block, f: Block)
    requires pos <= |s|
    requires forall i :: 0 <= i < |e| ==> e[i].Free?
    requires forall i :: 0 <= i < |f| ==> f[i].Free?
    ensures HeaderKeys(s[..pos] + e) + HeaderKeys(s[pos..] + f) == HeaderKeys(s)
    ensures UsedCount(s[..pos] + e) + UsedCount(s[pos..] + f) == UsedCount(s)
  {
    assert s[..pos] + s[pos..] == s;
    PartsCounts(s, s[..pos], s[pos..], e, f);
  }

  lemma PartsCounts(s: Block, a: Block, b: Block, e: Block, f: Block)
    requires a + b == s
    requires forall i :: 0 <= i < |e| ==> e[i].Free?
    requires forall i :: 0 <= i < |f| ==> f[i].Free?
    ensures HeaderKeys(a + e) + HeaderKeys(b + f) == HeaderKeys(s)
    ensures UsedCount(a + e) + UsedCount(b + f) == UsedCount(s)
  {
    PadCounts(a, e);
    PadCounts(b, f);
    HeaderKeysConcat(a, b);
    UsedCountConcat(a, b);
  }

  /** Zeroed slots appended to a block add no key and no used slot. */
  lemma PadCounts(a: Block, e: Block)
    requires forall i :: 0 <= i < |e| ==> e[i].Free?
    ensures HeaderKeys(a + e) == HeaderKeys(a) && UsedCount(a + e) == UsedCount(a)
  {
    HeaderKeysConcat(a, e);
    UsedCountConcat(a, e);
    FreeBlockCounts(e);
    EmptyRight(HeaderKeys(a));
  }

  lemma EmptyRight<T>(a: seq<T>)
    ensures a + [] == a
  {
  }

  /** splitBlock into a fresh block, on a well-formed block with N a
      multiple of 16: it aborts exactly when no header lies below N - 16;
      otherwise both halves are well formed, the new block starts with a
      header, every domain and every used slot is kept, and the domains
      left behind are all smaller than the first one moved. */
  lemma SplitSpec(s: Block)
    requires WF(s) && |s| >= 16 && |s| % 16 == 0
    ensures Split(s, EmptyBlock(|s|)).Abort? <==> forall j :: 0 <= j < |s| - 16 ==> !s[j].Domain?
    ensures Split(s, EmptyBlock(|s|)).Done? ==> SplitOk(s, Split(s, EmptyBlock(|s|)).value)
  {
    SplitPosSpec(s);
    var pos := SplitPos(s);
    SplitIntoEmpty(s, pos);
    if pos >= 0 {
      SplitHalves(s, pos);
    }
  }

  /** Split into a zeroed block, spelled out. */
  lemma SplitIntoEmpty(s: Block, pos: int)
    requires |s| >= 16 && pos == SplitPos(s) && pos < |s|
    ensures pos < 0 ==> Split(s, EmptyBlock(|s|)) == Abort
    ensures pos >= 0 ==> Split(s, EmptyBlock(|s|)) == Done((s[..pos] + EmptyBlock(|s| - pos), s[pos..] + EmptyBlock(pos)))
  {
    if pos >= 0 {
      EmptyTail(|s|, pos);
    }
  }

  lemma EmptyTail(n: nat, k: nat)
    requires k <= n
    ensures EmptyBlock(n)[n - k..] == EmptyBlock(k)
  {
  }

  /** What a successful split promises of the two halves (o, n). */
  ghost predicate SplitOk(s: Block, r: (Block, Block))
  {
    var (o, n) := r;
    WF(o) && WF(n) && |n| > 0 && n[0].Domain?
    && HeaderKeys(o) + HeaderKeys(n) == HeaderKeys(s)
    && UsedCount(o) + UsedCount(n) == UsedCount(s)
    && (forall i :: 0 <= i < |o| && o[i].Domain? ==> Less(o[i].key, n[0].key))
  }

  lemma SplitHalves(s: Block, pos: nat)
    requires WF(s) && pos < |s| && s[pos].Domain?
    ensures SplitOk(s, (s[..pos] + EmptyBlock(|s| - pos), s[pos..] + EmptyBlock(pos)))
  {
    PrefixWF(s, pos);
    SuffixWF(s, pos);
    SplitCounts(s, pos, EmptyBlock(|s| - pos), EmptyBlock(pos));
    SplitOrder(s, pos);
  }

  lemma SplitOrder(s: Block, pos: nat)
    requires Sorted(s) && pos < |s| && s[pos].Domain?
    ensures var o, n := s[..pos] + EmptyBlock(|s| - pos), s[pos..] + EmptyBlock(pos);
      n[0] == s[pos] && forall i :: 0 <= i < |o| && o[i].Domain? ==> Less(o[i].key, n[0].key)
  {
    var o := s[..pos] + EmptyBlock(|s| - pos);
    assert forall i :: 0 <= i < pos ==> o[i] == s[i];
    assert forall i :: pos <= i < |s| ==> o[i].Free?;
  }

  // ---------------------------------------------------------------------
  // getMinDomain / getMaxDomain

  /** In a sorted block the first header holds the smallest key and the
      last header the largest. */
  lemma MinMaxSorted(s: Block)
    requires Sorted(s)
    ensures FirstHeader(s) >= 0 ==> forall i :: 0 <= i < |s| && s[i].Domain? ==> LessEq(s[FirstHeader(s)].key, s[i].key)
    ensures LastHeader(s) >= 0 ==> forall i :: 0 <= i < |s| && s[i].Domain? ==> LessEq(s[i].key, s[LastHeader(s)].key)
    ensures FirstHeader(s) < 0 <==> LastHeader(s) < 0
    ensures FirstHeader(s) < 0 <==> HeaderKeys(s) == []
  {
    forall i | 0 <= i < |s| && s[i].Domain? ensures LessEq(s[FirstHeader(s)].key, s[i].key) {
      LessEqIsLessOrEq(s[FirstHeader(s)].key, s[i].key);
    }
    forall i | 0 <= i < |s| && s[i].Domain? ensures LessEq(s[i].key, s[LastHeader(s)].key) {
      LessEqIsLessOrEq(s[i].key, s[LastHeader(s)].key);
    }
    if FirstHeader(s) < 0 {
      HeaderKeysNoHeader(s);
    } else {
      HeaderKeysIn(s, s[FirstHeader(s)].key);
    }
  }

  // ---------------------------------------------------------------------
  // check

  /** check's saved key stays DOMAIN_MIN: it starts there, and it is only
      replaced by a key that is not greater than itself. */
  lemma CheckFromMin(s: Block, i: nat, lastEmpty: bool, e: CheckError)
    requires i <= |s| && lastEmpty == (i == 0 || !Used(s[i - 1]))
    ensures e in CheckFrom(s, i, DomainMin(), lastEmpty) <==>
      i <= e.at < |s| &&
      ((e.Unsorted? && s[e.at].Domain? && s[e.at].key == DomainMin())
       || (e.Hole? && s[e.at].Cont? && (e.at == 0 || !Used(s[e.at - 1]))))
    decreases |s| - i
  {
    if i < |s| {
      MinIsLeast(s, i);
      CheckFromMin(s, i + 1, !Used(s[i]), e);
    }
  }

  /** The one-step view: a header is reported against DOMAIN_MIN exactly
      when it is DOMAIN_MIN, and the saved key is DOMAIN_MIN again after it. */
  lemma MinIsLeast(s: Block, i: nat)
    requires i < |s|
    ensures s[i].Domain? ==> (!Less(DomainMin(), s[i].key) <==> s[i].key == DomainMin())
    ensures s[i].Domain? && !Less(DomainMin(), s[i].key) ==> s[i].key == DomainMin()
  {
    if s[i].Domain? {
      MinMaxBounds(s[i].key);
      LessIrreflexive(DomainMin());
    }
  }

  /** What check reports: a hole for every continuation at slot 0 or after
      a free slot, and an unsorted record only for a DOMAIN_MIN header. */
  lemma CheckReports(s: Block, e: CheckError)
    ensures e in Check(s) <==>
      e.at < |s| &&
      ((e.Unsorted? && s[e.at].Domain? && s[e.at].key == DomainMin())
       || (e.Hole? && s[e.at].Cont? && (e.at == 0 || !Used(s[e.at - 1]))))
  {
    CheckFromMin(s, 0, true, e);
  }

  /** check reports no hole exactly when the block has no holes. */
  lemma CheckHoles(s: Block)
    ensures (forall i: nat :: Hole(i) !in Check(s)) <==> NoHoles(s)
  {
    if forall i: nat :: Hole(i) !in Check(s) {
      forall i | 0 <= i < |s| && s[i].Cont? ensures i > 0 && Used(s[i - 1]) {
        CheckReports(s, Hole(i));
      }
    }
    if NoHoles(s) {
      forall i: nat ensures Hole(i) !in Check(s) {
        CheckReports(s, Hole(i));
      }
    }
  }

  /** check is silent on a disordered block: two headers in the wrong
      order, neither DOMAIN_MIN, draw no report, because the saved key
      never moves off DOMAIN_MIN. */
  lemma CheckMissesDisorder(a: Key, b: Key)
    requires Less(a, b) && a != DomainMin()
    ensures !Sorted([NewHeader(b), NewHeader(a)])
    ensures Check([NewHeader(b), NewHeader(a)]) == []
  {
    var s := [NewHeader(b), NewHeader(a)];
    LessAsym(a, b);
    MinMaxBounds(a);
    MinMaxBounds(b);
    LessAsym(a, DomainMin());
    assert b != DomainMin();
    assert s[0].key == b && s[1].key == a && !Less(b, a);
    assert CheckFrom(s, 2, DomainMin(), false) == [];
    assert CheckFrom(s, 1, DomainMin(), false) == [];
    assert CheckFrom(s, 0, DomainMin(), true) == [];
  }

  // ---------------------------------------------------------------------
  // Iterator

  /** The slots the block iterator stops at from slot i on: the
      constructor's scan, then one next() after each. */
  ghost function Visits(s: Block, i: nat): seq<nat>
    requires i <= |s|
    decreases |s| - i
  {
    var j := NextUsed(s, i);
    if j == |s| then [] else [j] + Visits(s, j + 1)
  }

  /** The iterator stops at every used slot, header or continuation, and
      at nothing else, in increasing order. */
  lemma {:induction false} VisitsUsed(s: Block, i: nat)
    requires i <= |s|
    ensures forall q :: q in Visits(s, i) <==> i <= q < |s| && Used(s[q])
    ensures forall a, b :: 0 <= a < b < |Visits(s, i)| ==> Visits(s, i)[a] < Visits(s, i)[b]
    decreases |s| - i
  {
    var j := NextUsed(s, i);
    if j < |s| {
      VisitsUsed(s, j + 1);
      var v := Visits(s, i);
      assert v == [j] + Visits(s, j + 1);
      forall a, b | 0 <= a < b < |v| ensures v[a] < v[b] {
        if a == 0 { assert v[b] in Visits(s, j + 1); }
      }
    }
  }

  /** end() as written answers the intended question before the end of
      the block, and reads past the block exactly when p is at its end. */
  lemma EndAsWrittenSpec(s: Block, p: nat)
    requires p <= |s|
    ensures EndAsWritten(s, p) == Abort <==> p == |s|
    ensures p < |s| ==> EndAsWritten(s, p) == Done(AtEnd(s, p))
    ensures AtEnd(s, p) <==> forall j :: p < j < |s| ==> !Used(s[j])
  {
    if !AtEnd(s, p) {
      assert Used(s[NextUsed(s, p + 1)]);
    }
  }

  /** On a zeroed block the constructor's scan from slot 0 stops at
      endptr, and end() as written then reads past the block, where the
      intended end() is true. */
  lemma EmptyEndReadsPast(n: nat)
    ensures NextUsed(EmptyBlock(n), 0) == n
    ensures EndAsWritten(EmptyBlock(n), n) == Abort && AtEnd(EmptyBlock(n), n)
  {
  }
}
