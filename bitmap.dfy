/** The occupancy bitmap of bitmap.cc and dns_db.h: a vector of 32-bit
    words; bit `pos` lives in word pos / 32 at offset pos % 32. */
module Bitmaps {

  const WordBits: nat := 32

  /** One `unsigned int` of the vector, viewed as its 32 bits, least
      significant first (bit k is (w >> k) & 1). */
  type Word = w: seq<bool> | |w| == WordBits witness ZeroWord()

  function ZeroWord(): (w: seq<bool>)
    ensures |w| == WordBits && forall k :: 0 <= k < WordBits ==> !w[k]
  {
    seq(WordBits, _ => false)
  }

  /** ~0: every bit set. */
  function OnesWord(): (w: seq<bool>)
    ensures |w| == WordBits && forall k :: 0 <= k < WordBits ==> w[k]
  {
    seq(WordBits, _ => true)
  }

  /** Number of true entries. */
  function Count(bs: seq<bool>): (n: nat)
    ensures n <= |bs|
  {
    if bs == [] then 0 else (if bs[0] then 1 else 0) + Count(bs[1..])
  }

  /** __builtin_popcount */
  function Popcount(w: Word): nat
  {
    Count(w)
  }

  lemma {:induction false} CountConcat(a: seq<bool>, b: seq<bool>)
    ensures Count(a + b) == Count(a) + Count(b)
  {
    if a == [] {
      assert a + b == b;
    } else {
      assert (a + b)[1..] == a[1..] + b;
      CountConcat(a[1..], b);
    }
  }

  /** The flat bit sequence of a word vector. */
  function BitsOf(ws: seq<Word>): (bs: seq<bool>)
    ensures |bs| == WordBits * |ws|
  {
    seq(WordBits * |ws|, i requires 0 <= i < WordBits * |ws| => ws[i / WordBits][i % WordBits])
  }

  lemma BitsOfSnoc(ws: seq<Word>, w: Word)
    ensures BitsOf(ws + [w]) == BitsOf(ws) + w
  {
    var l, r := BitsOf(ws + [w]), BitsOf(ws) + w;
    assert |l| == |r|;
    forall i | 0 <= i < |l| ensures l[i] == r[i] {
      if i >= WordBits * |ws| {
        assert i / WordBits == |ws|;
        assert i % WordBits == i - WordBits * |ws|;
      }
    }
  }

  class Bitmap {
    var bitm: seq<Word>

    /** The bitmap as a flat sequence of bits. */
    function Bits(): (bs: seq<bool>)
      reads this
      ensures |bs| == NumBits()
    {
      BitsOf(bitm)
    }

    function NumBits(): nat
      reads this
    {
      WordBits * |bitm|
    }

    /** Bitmap(numBits): numBits / 32 zeroed words. */
    constructor (numBits: nat)
      ensures |bitm| == numBits / WordBits
      ensures forall i :: 0 <= i < |bitm| ==> bitm[i] == ZeroWord()
      ensures forall q :: 0 <= q < NumBits() ==> !Bits()[q]
    {
      bitm := seq(numBits / WordBits, _ => ZeroWord());
    }

    /** getBit */
    function GetBit(pos: nat): (b: bool)
      reads this
      requires pos < NumBits()
      ensures b == Bits()[pos]
    {
      bitm[pos / WordBits][pos % WordBits]
    }

    /** setBit: set the bit when `value` is non-zero, clear it otherwise. */
    method SetBit(pos: nat, value: int)
      requires pos < NumBits()
      modifies this
      ensures |bitm| == old(|bitm|)
      ensures Bits() == old(Bits())[pos := value != 0]
    {
      var idx, off := pos / WordBits, pos % WordBits;
      bitm := bitm[idx := bitm[idx][off := value != 0]];
      ghost var nb := old(Bits())[pos := value != 0];
      assert |Bits()| == |nb|;
      forall q | 0 <= q < |nb| ensures Bits()[q] == nb[q] {
        if q / WordBits == idx && q % WordBits == off { assert q == pos; }
      }
    }

    /** clear(): a vector of the same size, every word zero. */
    method Clear()
      modifies this
      ensures |bitm| == old(|bitm|)
      ensures forall q :: 0 <= q < NumBits() ==> !Bits()[q]
    {
      bitm := seq(|bitm|, _ => ZeroWord());
    }

    /** getFirst(value): the smallest position whose bit equals `value`, or -1. */
    method GetFirst(value: bool) returns (r: int)
      ensures -1 <= r < NumBits()
      ensures r == -1 <==> forall q :: 0 <= q < NumBits() ==> Bits()[q] != value
      ensures r >= 0 ==> Bits()[r] == value && forall q :: 0 <= q < r ==> Bits()[q] != value
    {
      var idx := 0;
      while idx < |bitm|
        invariant 0 <= idx <= |bitm|
        invariant forall q :: 0 <= q < WordBits * idx ==> Bits()[q] != value
      {
        var off := 0;
        while off < WordBits
          invariant 0 <= off <= WordBits
          invariant forall q :: 0 <= q < WordBits * idx + off ==> Bits()[q] != value
        {
          assert Bits()[WordBits * idx + off] == bitm[idx][off];
          if bitm[idx][off] == value {
            return WordBits * idx + off;
          }
          off := off + 1;
        }
        idx := idx + 1;
      }
      return -1;
    }

    /** The positions getRight(pos, ·) inspects: every word from pos / 32 on,
        but in each of them only the offsets from pos % 32 up. */
    ghost predicate Scanned(pos: nat, q: nat)
      reads this
    {
      pos / WordBits <= q / WordBits < |bitm| && q % WordBits >= pos % WordBits
    }

    /** getRight(pos, value): the first inspected position whose bit equals
        `value`, or -1.  A word that equals the mask (all bits differ from
        `value`) is skipped without looking at its bits. */
    method GetRight(pos: nat, value: bool) returns (r: int)
      ensures r >= 0 ==> pos <= r < NumBits() && Scanned(pos, r) && Bits()[r] == value
      ensures r >= 0 ==> forall q :: 0 <= q < r && Scanned(pos, q) ==> Bits()[q] != value
      ensures r == -1 <==> forall q :: 0 <= q < NumBits() && Scanned(pos, q) ==> Bits()[q] != value
      ensures r >= -1
    {
      var mask := if value then ZeroWord() else OnesWord();
      var idx := pos / WordBits;
      while idx < |bitm|
        invariant pos / WordBits <= idx
        invariant forall q :: 0 <= q < NumBits() && Scanned(pos, q) && q / WordBits < idx ==> Bits()[q] != value
      {
        if bitm[idx] == mask {
          forall q | 0 <= q < NumBits() && Scanned(pos, q) && q / WordBits == idx
            ensures Bits()[q] != value
          {
            assert Bits()[q] == bitm[idx][q % WordBits];
          }
          idx := idx + 1;
          continue;
        }
        var off := pos % WordBits;
        while off < WordBits
          invariant pos % WordBits <= off <= WordBits
          invariant forall q :: 0 <= q < NumBits() && Scanned(pos, q) && q / WordBits < idx ==> Bits()[q] != value
          invariant forall q :: 0 <= q < NumBits() && Scanned(pos, q) && q / WordBits == idx && q % WordBits < off ==> Bits()[q] != value
        {
          assert Bits()[WordBits * idx + off] == bitm[idx][off];
          if bitm[idx][off] == value {
            r := WordBits * idx + off;
            assert Scanned(pos, r);
            return;
          }
          off := off + 1;
        }
        idx := idx + 1;
      }
      return -1;
    }

    /** bitCount(): the sum of the words' popcounts. */
    method BitCount() returns (r: int)
      ensures r == Count(Bits())
    {
      r := 0;
      var i := 0;
      while i < |bitm|
        invariant 0 <= i <= |bitm|
        invariant r == Count(BitsOf(bitm[..i]))
      {
        BitsOfSnoc(bitm[..i], bitm[i]);
        assert bitm[..i + 1] == bitm[..i] + [bitm[i]];
        CountConcat(BitsOf(bitm[..i]), bitm[i]);
        r := r + Popcount(bitm[i]);
        i := i + 1;
      }
      assert bitm[..i] == bitm;
    }
  }

  /** getRight restarts every word at offset pos % 32: with words
      [0x00000000, 0x00000001], position 32 holds a set bit at or after
      pos = 1 that getRight(1, true) never inspects. */
  lemma GetRightSkipsLowOffsets(b: Bitmap)
    requires b.bitm == [ZeroWord(), ZeroWord()[0 := true]]
    ensures b.Bits()[32] && !b.Scanned(1, 32)
    ensures forall q :: 0 <= q < b.NumBits() && b.Scanned(1, q) ==> !b.Bits()[q]
  {
    forall q | 0 <= q < b.NumBits() && b.Scanned(1, q) ensures !b.Bits()[q] {
      assert b.Bits()[q] == b.bitm[q / WordBits][q % WordBits];
    }
  }
}
