/** The BlockManager of block_manager.cc: a cache of open blocks kept in
    a std::map ordered by block id, each entry a shared pointer whose
    use count says who else holds the block.  A block is constructed by
    getNewBlock, which is not modelled: its result is a parameter. */
module BlockCache {

  /** BlockManager_flush_trigger and BlockManager_flush_maximum. */
  const FlushTrigger: nat := 32
  const FlushMaximum: nat := 16

  /** ~0 as an unsigned long: the victim search's starting minimum. */
  const NoMin: nat := 0xFFFF_FFFF_FFFF_FFFF

  type U64 = t: int | 0 <= t <= NoMin

  /** A block object, as the shared pointer's target. */
  type Handle = nat

  /** One map entry: the id, the shared pointer b with its use_count, and
      CachedBlock's t, which starts at 0. */
  datatype Cached = Cached(id: int, b: Handle, uses: nat, t: U64)

  /** std::map order: ids strictly increasing. */
  predicate Sorted(bs: seq<Cached>)
  {
    forall i, j :: 0 <= i < j < |bs| ==> bs[i].id < bs[j].id
  }

  /** The map itself holds one reference to every block. */
  predicate Held(bs: seq<Cached>)
  {
    forall i :: 0 <= i < |bs| ==> bs[i].uses >= 1
  }

  /** Only the map holds it: use_count() == 1. */
  predicate Evictable(c: Cached)
  {
    c.uses == 1
  }

  /** blocks.find(id): the first entry at or after i with that id, or -1. */
  function FindId(bs: seq<Cached>, id: int, i: nat): (k: int)
    requires i <= |bs|
    ensures k == -1 || (i <= k < |bs| && bs[k].id == id)
    ensures forall j :: i <= j < |bs| && (k < 0 || j < k) ==> bs[j].id != id
    decreases |bs| - i
  {
    if i == |bs| then -1 else if bs[i].id == id then i else FindId(bs, id, i + 1)
  }

  /** Where emplace puts a new id: before the first larger one. */
  function InsertPos(bs: seq<Cached>, id: int, i: nat): (p: nat)
    requires i <= |bs|
    ensures i <= p <= |bs|
    ensures forall j :: i <= j < p ==> bs[j].id <= id
    ensures p < |bs| ==> bs[p].id > id
    decreases |bs| - i
  {
    if i == |bs| || bs[i].id > id then i else InsertPos(bs, id, i + 1)
  }

  function Insert(bs: seq<Cached>, e: Cached): (r: seq<Cached>)
    ensures |r| == |bs| + 1
    ensures multiset(r) == multiset(bs) + multiset{e}
  {
    var p := InsertPos(bs, e.id, 0);
    assert bs == bs[..p] + bs[p..];
    bs[..p] + [e] + bs[p..]
  }

  /** emplace keeps the map ordered and makes the new id findable. */
  lemma InsertSorted(bs: seq<Cached>, e: Cached)
    requires Sorted(bs) && Held(bs) && FindId(bs, e.id, 0) < 0 && e.uses >= 1
    ensures Sorted(Insert(bs, e)) && Held(Insert(bs, e))
    ensures e in Insert(bs, e)
  {
    var p := InsertPos(bs, e.id, 0);
    var r := Insert(bs, e);
    assert forall k :: 0 <= k < |r| ==> r[k] == (if k < p then bs[k] else if k == p then e else bs[k - 1]);
    assert r[p] == e;
    assert forall j :: 0 <= j < |bs| ==> bs[j].id != e.id;
    forall i, j | 0 <= i < j < |r|
      ensures r[i].id < r[j].id
    {
      var a := if i < p then i else if i == p then -1 else i - 1;
      var b := if j < p then j else if j == p then -1 else j - 1;
      if a >= 0 && b >= 0 {
        assert bs[a].id < bs[b].id;
      }
    }
  }

  // ---------------------------------------------------------------------
  // The victim search

  /** The search loop from entry i on, holding candidate cand with
      minimum min: an entry replaces the candidate when its t is below
      min and only the map holds it. */
  function VictimFrom(bs: seq<Cached>, i: nat, cand: int, min: U64): (int, U64)
    requires i <= |bs|
    decreases |bs| - i
  {
    if i == |bs| then (cand, min)
    else if bs[i].t < min && Evictable(bs[i]) then VictimFrom(bs, i + 1, i, bs[i].t)
    else VictimFrom(bs, i + 1, cand, min)
  }

  function Victim(bs: seq<Cached>): (int, U64)
  {
    VictimFrom(bs, 0, -1, NoMin)
  }

  /** What the search knows after looking at the first i entries. */
  ghost predicate Searched(bs: seq<Cached>, i: nat, cand: int, min: U64)
  {
    i <= |bs|
    && (cand < 0 ==> cand == -1 && min == NoMin)
    && (cand >= 0 ==> cand < i && Evictable(bs[cand]) && bs[cand].t == min && min < NoMin)
    && (forall j :: 0 <= j < i && Evictable(bs[j]) ==> min <= bs[j].t)
    && (forall j :: 0 <= j < cand && Evictable(bs[j]) ==> min < bs[j].t)
  }

  lemma {:induction false} VictimFromSpec(bs: seq<Cached>, i: nat, cand: int, min: U64)
    requires Searched(bs, i, cand, min)
    ensures Searched(bs, |bs|, VictimFrom(bs, i, cand, min).0, VictimFrom(bs, i, cand, min).1)
    decreases |bs| - i
  {
    if i < |bs| {
      if bs[i].t < min && Evictable(bs[i]) {
        VictimFromSpec(bs, i + 1, i, bs[i].t);
      } else {
        VictimFromSpec(bs, i + 1, cand, min);
      }
    }
  }

  /** The victim is an entry only the map holds with the smallest t, the
      first such in id order; the search reports none (min stays ~0)
      exactly when every such entry has t == ~0. */
  lemma VictimSpec(bs: seq<Cached>)
    ensures var (c, m) := Victim(bs);
      (m == NoMin <==> forall j :: 0 <= j < |bs| && Evictable(bs[j]) ==> bs[j].t == NoMin)
      && (m != NoMin ==>
            0 <= c < |bs| && Evictable(bs[c]) && bs[c].t == m
            && (forall j :: 0 <= j < |bs| && Evictable(bs[j]) ==> m <= bs[j].t)
            && (forall j :: 0 <= j < c && Evictable(bs[j]) ==> m < bs[j].t))
  {
    VictimFromSpec(bs, 0, -1, NoMin);
  }

  /** Every t stays 0 in the source, so the victim is the evictable block
      with the lowest id. */
  lemma VictimLowestId(bs: seq<Cached>)
    requires forall j :: 0 <= j < |bs| ==> bs[j].t == 0
    requires exists j :: 0 <= j < |bs| && Evictable(bs[j])
    ensures var (c, m) := Victim(bs);
      m == 0 && 0 <= c < |bs| && Evictable(bs[c])
      && forall j :: 0 <= j < c ==> !Evictable(bs[j])
  {
    VictimSpec(bs);
    var j :| 0 <= j < |bs| && Evictable(bs[j]);
    assert bs[j].t != NoMin;
  }

  // ---------------------------------------------------------------------
  // flushUnusedBlocks

  function RemoveAt(bs: seq<Cached>, p: nat): (r: seq<Cached>)
    requires p < |bs|
    ensures |r| == |bs| - 1
  {
    bs[..p] + bs[p + 1..]
  }

  /** flushUnusedBlocks' effect: while more than 16 entries, erase the
      victim, stopping when there is none. */
  function Flushed(bs: seq<Cached>): (r: seq<Cached>)
    ensures |r| <= |bs|
    decreases |bs|
  {
    if |bs| > FlushMaximum then
      var (c, m) := Victim(bs);
      if m != NoMin then
        VictimSpec(bs);
        Flushed(RemoveAt(bs, c))
      else bs
    else bs
  }

  /** The entries somebody besides the map holds, in order. */
  function Pinned(bs: seq<Cached>): seq<Cached>
  {
    if bs == [] then [] else PinnedHead(bs[0]) + Pinned(bs[1..])
  }

  function PinnedHead(c: Cached): seq<Cached>
  {
    if Evictable(c) then [] else [c]
  }

  lemma {:induction false} PinnedConcat(a: seq<Cached>, b: seq<Cached>)
    ensures Pinned(a + b) == Pinned(a) + Pinned(b)
    decreases |a|
  {
    if a != [] {
      assert (a + b)[0] == a[0];
      assert (a + b)[1..] == a[1..] + b;
      PinnedConcat(a[1..], b);
    } else {
      assert a + b == b;
    }
  }

  lemma {:induction false} PinnedMember(bs: seq<Cached>, x: Cached)
    ensures x in Pinned(bs) <==> x in bs && !Evictable(x)
    decreases |bs|
  {
    if bs != [] {
      PinnedMember(bs[1..], x);
      assert bs == [bs[0]] + bs[1..];
    }
  }

  lemma RemoveEvictable(bs: seq<Cached>, p: nat)
    requires p < |bs| && Evictable(bs[p])
    ensures Pinned(RemoveAt(bs, p)) == Pinned(bs)
  {
    var a, x, b := bs[..p], bs[p], bs[p + 1..];
    assert bs == a + ([x] + b);
    assert Pinned([x]) == [] by {
      assert [x][1..] == [];
    }
    PinnedConcat(a, [x] + b);
    PinnedConcat([x], b);
    assert Pinned([x] + b) == Pinned(b);
    PinnedConcat(a, b);
  }

  /** Erasing an entry keeps the map ordered and every reference count. */
  lemma RemoveKeeps(bs: seq<Cached>, p: nat)
    requires p < |bs|
    ensures Sorted(bs) ==> Sorted(RemoveAt(bs, p))
    ensures Held(bs) ==> Held(RemoveAt(bs, p))
    ensures forall x :: x in RemoveAt(bs, p) ==> x in bs
  {
    var r := RemoveAt(bs, p);
    assert forall k :: 0 <= k < |r| ==> r[k] == (if k < p then bs[k] else bs[k + 1]);
  }

  /** flushUnusedBlocks erases only entries nobody else holds: the other
      entries are all still there in order; it keeps the map ordered; and
      it stops with at most 16 entries or with no victim left. */
  lemma {:induction false} FlushedSpec(bs: seq<Cached>)
    ensures Pinned(Flushed(bs)) == Pinned(bs)
    ensures forall x :: x in Flushed(bs) ==> x in bs
    ensures Sorted(bs) ==> Sorted(Flushed(bs))
    ensures Held(bs) ==> Held(Flushed(bs))
    ensures |Flushed(bs)| <= FlushMaximum || Victim(Flushed(bs)).1 == NoMin
    decreases |bs|
  {
    if |bs| > FlushMaximum {
      var (c, m) := Victim(bs);
      if m != NoMin {
        VictimSpec(bs);
        FlushedSpec(RemoveAt(bs, c));
        RemoveEvictable(bs, c);
        RemoveKeeps(bs, c);
      }
    }
  }

  /** After a miss: the new entry (held by the map and by getBlock's local
      copy during the flush) when the map has grown past 32, flushed. */
  function AfterMiss(bs: seq<Cached>, id: int, made: Handle): seq<Cached>
  {
    var ins := Insert(bs, Cached(id, made, 2, 0));
    if |ins| > FlushTrigger then Flushed(ins) else ins
  }

  /** The flush never erases the block getBlock has just added, so the
      final blocks.at(id) finds it; no entry somebody else holds is lost,
      and nothing but the new entry appears. */
  lemma MissKeeps(bs: seq<Cached>, id: int, made: Handle)
    requires Sorted(bs) && Held(bs) && FindId(bs, id, 0) < 0
    ensures var r := AfterMiss(bs, id, made);
      Sorted(r) && Held(r)
      && FindId(r, id, 0) >= 0 && r[FindId(r, id, 0)] == Cached(id, made, 2, 0)
    ensures forall c :: c in Pinned(bs) ==> c in AfterMiss(bs, id, made)
    ensures forall c :: c in AfterMiss(bs, id, made) ==> c in bs || c == Cached(id, made, 2, 0)
  {
    var e := Cached(id, made, 2, 0);
    var ins := Insert(bs, e);
    InsertSorted(bs, e);
    var r := AfterMiss(bs, id, made);
    assert forall c :: c in ins <==> c in bs || c == e by {
      forall c ensures c in ins <==> c in bs || c == e {
        assert c in ins <==> c in multiset(ins);
        assert c in bs <==> c in multiset(bs);
      }
    }
    forall c | c in Pinned(bs) ensures c in r {
      PinnedMember(bs, c);
      if |ins| > FlushTrigger {
        FlushedSpec(ins);
        PinnedMember(ins, c);
        PinnedMember(r, c);
      }
    }
    assert e in r by {
      if |ins| > FlushTrigger {
        FlushedSpec(ins);
        PinnedMember(ins, e);
        PinnedMember(r, e);
      }
    }
    if |ins| > FlushTrigger {
      FlushedSpec(ins);
    }
    var j :| 0 <= j < |r| && r[j] == e;
    var k := FindId(r, id, 0);
    assert k >= 0;
    assert r[k].id == r[j].id;
    assert k == j;
  }

  class BlockManager {
    var blocks: seq<Cached>

    ghost predicate Valid()
      reads this
    {
      Sorted(blocks) && Held(blocks)
    }

    constructor ()
      ensures Valid() && blocks == []
    {
      blocks := [];
    }

    /** getBlock(id): the cached block, one reference more; on a miss a
        new entry for made (what getNewBlock returns), the flush above 32
        entries, and the new block. */
    method GetBlock(id: int, made: Handle) returns (h: Handle)
      requires Valid()
      modifies this
      ensures Valid()
      ensures var k := FindId(old(blocks), id, 0);
        if k >= 0 then
          h == old(blocks)[k].b && blocks == old(blocks)[k := old(blocks)[k].(uses := old(blocks)[k].uses + 1)]
        else
          h == made && blocks == AfterMiss(old(blocks), id, made)
    {
      var k := FindId(blocks, id, 0);
      if k < 0 {
        MissKeeps(blocks, id, made);
        InsertSorted(blocks, Cached(id, made, 2, 0));
        blocks := Insert(blocks, Cached(id, made, 2, 0));
        if |blocks| > FlushTrigger {
          FlushUnusedBlocks();
        }
        // the local copy goes and the returned copy comes: uses stays 2
        k := FindId(blocks, id, 0);
        return blocks[k].b;
      }
      h := blocks[k].b;
      blocks := blocks[k := blocks[k].(uses := blocks[k].uses + 1)];
    }

    /** A holder of the block with this id drops its shared pointer. */
    method Release(id: int)
      requires Valid()
      requires FindId(blocks, id, 0) >= 0 && blocks[FindId(blocks, id, 0)].uses >= 2
      modifies this
      ensures Valid()
      ensures var k := FindId(old(blocks), id, 0);
        blocks == old(blocks)[k := old(blocks)[k].(uses := old(blocks)[k].uses - 1)]
    {
      var k := FindId(blocks, id, 0);
      blocks := blocks[k := blocks[k].(uses := blocks[k].uses - 1)];
    }

    /** flushUnusedBlocks() */
    method FlushUnusedBlocks()
      requires Valid()
      modifies this
      ensures Valid()
      ensures blocks == Flushed(old(blocks))
    {
      while |blocks| > FlushMaximum
        invariant Valid()
        invariant Flushed(blocks) == Flushed(old(blocks))
        decreases |blocks|
      {
        var cand, min := FindVictim();
        VictimSpec(blocks);
        if min != NoMin {
          RemoveKeeps(blocks, cand);
          blocks := blocks[..cand] + blocks[cand + 1..];
        } else {
          break;
        }
      }
    }

    /** The candidate loop: min starts at ~0. */
    method FindVictim() returns (cand: int, min: U64)
      ensures (cand, min) == Victim(blocks)
    {
      cand, min := -1, NoMin;
      var i := 0;
      while i < |blocks|
        invariant 0 <= i <= |blocks|
        invariant VictimFrom(blocks, i, cand, min) == Victim(blocks)
      {
        if blocks[i].t < min {
          if blocks[i].uses == 1 {
            cand := i;
            min := blocks[i].t;
          }
        }
        i := i + 1;
      }
    }
  }
}
