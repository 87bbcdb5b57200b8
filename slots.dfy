/** One 64-byte slot of a block file (InternalBlock in dns_db.h): a header
    byte and a 63-byte payload that is either a domain key with two
    records or three padding bytes with five records. */
module Slots {
  import opened Keys
  import opened Records
  import opened Wrappers

  const FlagUsed: Byte := 0x80
  const FlagDomain: Byte := 0x40

  /** sizeof(InternalBlock) */
  const SlotSize: nat := 64
  const DomainRecs: nat := 2
  const ContRecs: nat := 5

  /** The three kinds of slot the header byte distinguishes: neither flag
      (free), flagUsed|flagDomain (a domain header) and flagUsed alone (a
      continuation of the header before it).  A free slot keeps the
      five-record view of its payload, which is what addDomainIpv4 writes
      to when the key bytes of a free slot happen to match. */
  datatype SlotData =
    | Free(frecs: seq<IPv4Record>)
    | Domain(key: Key, drecs: seq<IPv4Record>)
    | Cont(crecs: seq<IPv4Record>)

  predicate Shaped(d: SlotData)
  {
    match d
    case Free(r) => |r| == ContRecs
    case Domain(_, r) => |r| == DomainRecs
    case Cont(r) => |r| == ContRecs
  }

  type Slot = d: SlotData | Shaped(d)
    witness Free([ZeroRecord, ZeroRecord, ZeroRecord, ZeroRecord, ZeroRecord])

  /** A slot after memset(0). */
  function EmptySlot(): (sl: Slot)
    ensures sl.Free? && forall i :: 0 <= i < ContRecs ==> sl.frecs[i] == ZeroRecord
  {
    Free([ZeroRecord, ZeroRecord, ZeroRecord, ZeroRecord, ZeroRecord])
  }

  predicate Used(sl: Slot) { !sl.Free? }

  /** The record array the code indexes: data.domain.records for a
      header, data.records.records otherwise. */
  function Recs(sl: Slot): (rs: seq<IPv4Record>)
    ensures |rs| == if sl.Domain? then DomainRecs else ContRecs
  {
    match sl
    case Free(r) => r
    case Domain(_, r) => r
    case Cont(r) => r
  }

  /** The slot with record entry i replaced. */
  function WithRec(sl: Slot, i: nat, r: IPv4Record): (sl': Slot)
    requires i < |Recs(sl)|
    ensures sl'.Free? == sl.Free? && sl'.Domain? == sl.Domain? && sl'.Cont? == sl.Cont?
    ensures sl.Domain? ==> sl'.key == sl.key
    ensures Recs(sl') == Recs(sl)[i := r]
  {
    match sl
    case Free(rs) => Free(rs[i := r])
    case Domain(k, rs) => Domain(k, rs[i := r])
    case Cont(rs) => Cont(rs[i := r])
  }

  /** The header byte. */
  function Header(sl: Slot): Byte
  {
    match sl
    case Free(_) => 0
    case Domain(_, _) => FlagUsed + FlagDomain
    case Cont(_) => FlagUsed
  }

  /** (b & flag) != 0 for a single-bit flag. */
  predicate HasFlag(b: Byte, flag: Byte)
    requires flag == FlagUsed || flag == FlagDomain
  {
    (b / flag) % 2 == 1
  }

  /** The header flags agree with the kind of slot. */
  lemma HeaderFlags(sl: Slot)
    ensures HasFlag(Header(sl), FlagUsed) <==> Used(sl)
    ensures HasFlag(Header(sl), FlagDomain) <==> sl.Domain?
  {
  }

  function Zeros(n: nat): (z: seq<Byte>)
    ensures |z| == n && forall i :: 0 <= i < n ==> z[i] == 0
  {
    seq(n, _ => 0)
  }

  /** The 64 bytes of a slot as they sit in the block file.  The domain
      form fills 1 + 35 + 24 = 60 bytes and leaves 4 zero bytes; the
      record form fills 1 + 3 + 60 = 64. */
  function SlotBytes(sl: Slot): (b: seq<Byte>)
    ensures |b| == SlotSize
    ensures b[0] == Header(sl)
  {
    match sl
    case Free(r) => [Header(sl)] + Zeros(3) + RecordsBytes(r)
    case Domain(k, r) => [Header(sl)] + k + RecordsBytes(r) + Zeros(4)
    case Cont(r) => [Header(sl)] + Zeros(3) + RecordsBytes(r)
  }

  /** Reads a slot back from its bytes; a header whose key bytes are not
      zero-padded is not a key this model represents. */
  function SlotOf(b: seq<Byte>): Option<Slot>
    requires |b| == SlotSize
  {
    if !HasFlag(b[0], FlagUsed) then Some(Free(RecordsOf(b[4..64], ContRecs)))
    else if HasFlag(b[0], FlagDomain) then
      (if ZeroPadded(b[1..36]) then Some(Domain(b[1..36], RecordsOf(b[36..60], DomainRecs))) else None)
    else Some(Cont(RecordsOf(b[4..64], ContRecs)))
  }

  lemma SlotRoundTrip(sl: Slot)
    ensures SlotOf(SlotBytes(sl)) == Some(sl)
  {
    HeaderFlags(sl);
    match sl
    case Free(r) => RecordFormRoundTrip(sl);
    case Cont(r) => RecordFormRoundTrip(sl);
    case Domain(k, r) => DomainFormRoundTrip(sl);
  }

  lemma RecordFormRoundTrip(sl: Slot)
    requires !sl.Domain?
    ensures SlotBytes(sl)[4..64] == RecordsBytes(Recs(sl))
    ensures RecordsOf(SlotBytes(sl)[4..64], ContRecs) == Recs(sl)
  {
    var b := SlotBytes(sl);
    assert b == [Header(sl)] + Zeros(3) + RecordsBytes(Recs(sl));
    assert b[4..64] == RecordsBytes(Recs(sl));
    RecordsRoundTrip(Recs(sl));
  }

  lemma DomainFormRoundTrip(sl: Slot)
    requires sl.Domain?
    ensures SlotBytes(sl)[1..36] == sl.key
    ensures RecordsOf(SlotBytes(sl)[36..60], DomainRecs) == Recs(sl)
  {
    var b := SlotBytes(sl);
    assert b == [Header(sl)] + sl.key + RecordsBytes(Recs(sl)) + Zeros(4);
    assert b[1..36] == sl.key;
    assert b[36..60] == RecordsBytes(Recs(sl));
    RecordsRoundTrip(Recs(sl));
  }

  /** data.domain.domain: the 35 payload bytes memcmp looks at, whatever
      the kind of slot. */
  function KeyBytes(sl: Slot): (k: seq<Byte>)
    ensures |k| == KeySize
  {
    SlotBytes(sl)[1..36]
  }

  /** On a header the key bytes are its key; on any other slot they start
      with a zero padding byte, so among the zero-padded keys only
      DOMAIN_MIN can equal them, and then the first record of the slot has
      ip == 0. */
  lemma KeyBytesOf(sl: Slot, k: Key)
    ensures sl.Domain? ==> KeyBytes(sl) == sl.key
    ensures !sl.Domain? && KeyBytes(sl) == k ==> k == DomainMin() && Recs(sl)[0].ip == 0
  {
    if !sl.Domain? && KeyBytes(sl) == k {
      var r := Recs(sl);
      assert SlotBytes(sl) == [Header(sl)] + Zeros(3) + RecordsBytes(r);
      assert k[0] == SlotBytes(sl)[1] == 0;
      assert forall j :: 0 <= j < KeySize ==> k[j] == 0;
      assert RecordsBytes(r)[8..12] == U32Bytes(r[0].ip) by {
        assert RecordsBytes(r)[..12] == RecordBytes(r[0]);
      }
      var sb := SlotBytes(sl);
      forall j | 8 <= j < 12 ensures RecordsBytes(r)[j] == 0 {
        assert RecordsBytes(r)[j] == sb[4 + j] == KeyBytes(sl)[3 + j];
      }
      assert U32Bytes(r[0].ip) == [0, 0, 0, 0];
      U32RoundTrip(r[0].ip);
    }
  }

  /** A zeroed slot reads as the all-zero key: the bytes lookupDomain
      compares for DOMAIN_MIN. */
  lemma EmptySlotKeyBytes()
    ensures KeyBytes(EmptySlot()) == DomainMin()
  {
    var sl := EmptySlot();
    var b := SlotBytes(sl);
    ZeroRecordsBytes(Recs(sl));
    assert b == [0] + Zeros(3) + RecordsBytes(Recs(sl));
    assert forall j :: 0 <= j < SlotSize ==> b[j] == 0;
    assert forall j :: 0 <= j < KeySize ==> KeyBytes(sl)[j] == b[j + 1];
  }

  lemma {:induction false} ZeroRecordsBytes(rs: seq<IPv4Record>)
    requires forall i :: 0 <= i < |rs| ==> rs[i] == ZeroRecord
    ensures forall j :: 0 <= j < |RecordsBytes(rs)| ==> RecordsBytes(rs)[j] == 0
  {
    if rs != [] {
      ZeroRecordsBytes(rs[1..]);
      assert RecordBytes(rs[0]) == [0, 0, 0, 0, 0, 0, 0, 0, 0, 0, 0, 0];
    }
  }
}
