/** The IPv4 record of record.h and its little-endian 12-byte layout. */
module Records {
  import opened Keys

  type U32 = x: int | 0 <= x < 0x1_0000_0000

  /** IPv4_Record: two 32-bit timestamps and a 32-bit address.  Equality of
      the datatype is the field-wise operator== of record.h. */
  datatype IPv4Record = IPv4Record(firstSeen: U32, lastSeen: U32, ip: U32)

  /** A zeroed record; ip == 0 marks a record entry as empty. */
  const ZeroRecord: IPv4Record := IPv4Record(0, 0, 0)

  const RecordSize: nat := 12

  /** A 32-bit value as it sits in memory on the little-endian targets the
      packed layout assumes. */
  function U32Bytes(x: U32): (b: seq<Byte>)
    ensures |b| == 4
  {
    [x % 256, (x / 256) % 256, (x / 65536) % 256, x / 16777216]
  }

  function U32Of(b: seq<Byte>): U32
    requires |b| == 4
  {
    (b[0] as int) + 256 * (b[1] as int) + 65536 * (b[2] as int) + 16777216 * (b[3] as int)
  }

  lemma U32RoundTrip(x: U32)
    ensures U32Of(U32Bytes(x)) == x
  {
    var q1, q2, q3 := x / 256, x / 65536, x / 16777216;
    DivMod256(x);
    DivMod256(q1);
    DivMod256(q2);
    assert q1 / 256 == q2;
    assert q2 / 256 == q3;
  }

  lemma DivMod256(x: nat)
    ensures x == 256 * (x / 256) + x % 256
  {
  }

  /** first_seen, last_seen, ip in declaration order. */
  function RecordBytes(r: IPv4Record): (b: seq<Byte>)
    ensures |b| == RecordSize
  {
    U32Bytes(r.firstSeen) + U32Bytes(r.lastSeen) + U32Bytes(r.ip)
  }

  function RecordOf(b: seq<Byte>): IPv4Record
    requires |b| == RecordSize
  {
    IPv4Record(U32Of(b[0..4]), U32Of(b[4..8]), U32Of(b[8..12]))
  }

  lemma RecordRoundTrip(r: IPv4Record)
    ensures RecordOf(RecordBytes(r)) == r
  {
    var b := RecordBytes(r);
    assert b[0..4] == U32Bytes(r.firstSeen);
    assert b[4..8] == U32Bytes(r.lastSeen);
    assert b[8..12] == U32Bytes(r.ip);
    U32RoundTrip(r.firstSeen);
    U32RoundTrip(r.lastSeen);
    U32RoundTrip(r.ip);
  }

  /** Several records laid out back to back. */
  function RecordsBytes(rs: seq<IPv4Record>): (b: seq<Byte>)
    ensures |b| == RecordSize * |rs|
  {
    if rs == [] then [] else RecordBytes(rs[0]) + RecordsBytes(rs[1..])
  }

  function RecordsOf(b: seq<Byte>, n: nat): (rs: seq<IPv4Record>)
    requires |b| == RecordSize * n
    ensures |rs| == n
  {
    if n == 0 then [] else [RecordOf(b[..RecordSize])] + RecordsOf(b[RecordSize..], n - 1)
  }

  lemma {:induction false} RecordsRoundTrip(rs: seq<IPv4Record>)
    ensures RecordsOf(RecordsBytes(rs), |rs|) == rs
  {
    if rs != [] {
      var b := RecordsBytes(rs);
      assert b[..RecordSize] == RecordBytes(rs[0]);
      assert b[RecordSize..] == RecordsBytes(rs[1..]);
      RecordRoundTrip(rs[0]);
      RecordsRoundTrip(rs[1..]);
    }
  }
}
