/** Fixed-width domain keys and the comparison macros of dns_db.h.
    A key is the 35-byte internal form produced by the domain codec: the bytes
    of the name, one TLD index byte and zero fill. */
module Keys {

  type Byte = x: int | 0 <= x < 256

  /** MAX_DNS_SIZE */
  const KeySize: nat := 35

  /** Once a zero byte occurs, every later byte is zero (the codec zero-fills). */
  predicate ZeroPadded(k: seq<Byte>)
  {
    forall i, j :: 0 <= i < j < |k| && k[i] == 0 ==> k[j] == 0
  }

  /** The keys the engine stores: 35 zero-padded bytes. */
  type Key = k: seq<Byte> | |k| == KeySize && ZeroPadded(k)
    witness DomainMinBytes()

  function DomainMinBytes(): (k: seq<Byte>)
    ensures |k| == KeySize && ZeroPadded(k)
  {
    seq(KeySize, _ => 0)
  }

  /** DOMAIN_MIN: thirty-five 0x00 bytes. */
  function DomainMin(): (k: Key)
    ensures forall i :: 0 <= i < KeySize ==> k[i] == 0
  {
    DomainMinBytes()
  }

  /** The top of the key space: thirty-five 0xFF bytes, the max the DnsIndex
      constructor memsets (~0) into its first node.  The DOMAIN_MAX macro
      spells its bytes as the octal escape \255 (0xAD) but nothing uses it. */
  function DomainMax(): (k: Key)
    ensures forall i :: 0 <= i < KeySize ==> k[i] == 255
  {
    seq(KeySize, _ => 255)
  }

  /** strncmp(a + i, b + i, n - i) as C defines it: bytes compare as unsigned
      char, and the comparison stops at the first position where they differ
      or where both hold the terminating zero.  Only the sign matters. */
  function StrNCmpFrom(a: seq<Byte>, b: seq<Byte>, i: nat, n: nat): int
    requires n <= |a| && n <= |b| && i <= n
    decreases n - i
  {
    if i == n then 0
    else if a[i] != b[i] then a[i] - b[i]
    else if a[i] == 0 then 0
    else StrNCmpFrom(a, b, i + 1, n)
  }

  function StrNCmp(a: seq<Byte>, b: seq<Byte>): int
    requires |a| == KeySize && |b| == KeySize
  {
    StrNCmpFrom(a, b, 0, KeySize)
  }

  /** less(a, b) */
  predicate Less(a: Key, b: Key) { StrNCmp(a, b) < 0 }

  /** less_eq(a, b) */
  predicate LessEq(a: Key, b: Key) { StrNCmp(a, b) <= 0 }

  /** eq(a, b) */
  predicate Eq(a: Key, b: Key) { StrNCmp(a, b) == 0 }

  /** Reference order: lexicographic order on unsigned bytes, position by position. */
  ghost predicate LexLess(a: seq<Byte>, b: seq<Byte>)
  {
    exists d :: 0 <= d < |a| && d < |b| && a[..d] == b[..d] && a[d] < b[d]
  }

  /** The first position at which two keys differ (or KeySize). */
  function FirstDiff(a: seq<Byte>, b: seq<Byte>, i: nat): (d: nat)
    requires |a| == KeySize && |b| == KeySize && i <= KeySize
    ensures i <= d <= KeySize
    ensures forall j :: i <= j < d ==> a[j] == b[j]
    ensures d < KeySize ==> a[d] != b[d]
    decreases KeySize - i
  {
    if i == KeySize || a[i] != b[i] then i else FirstDiff(a, b, i + 1)
  }

  /** strncmp's sign from position i is decided by the first difference after i,
      unless a shared zero byte comes first. */
  lemma {:induction false} StrNCmpFromDiff(a: Key, b: Key, i: nat)
    requires i <= KeySize
    requires forall j :: 0 <= j < i ==> a[j] == b[j] && a[j] != 0
    ensures var d := FirstDiff(a, b, i);
      StrNCmpFrom(a, b, i, KeySize) < 0 <==> (d < KeySize && a[d] < b[d])
    ensures var d := FirstDiff(a, b, i);
      StrNCmpFrom(a, b, i, KeySize) == 0 <==> d == KeySize
    decreases KeySize - i
  {
    if i < KeySize && a[i] == b[i] {
      if a[i] == 0 {
        // both keys are zero from here on
        assert forall j :: i <= j < KeySize ==> a[j] == 0 && b[j] == 0;
        assert FirstDiff(a, b, i) == KeySize by { FirstDiffAllEqual(a, b, i); }
      } else {
        StrNCmpFromDiff(a, b, i + 1);
      }
    }
  }

  lemma {:induction false} FirstDiffAllEqual(a: seq<Byte>, b: seq<Byte>, i: nat)
    requires |a| == KeySize && |b| == KeySize && i <= KeySize
    requires forall j :: i <= j < KeySize ==> a[j] == b[j]
    ensures FirstDiff(a, b, i) == KeySize
    decreases KeySize - i
  {
    if i < KeySize { FirstDiffAllEqual(a, b, i + 1); }
  }

  /** For zero-padded keys, `less` (a strncmp over 35 bytes) is exactly the
      lexicographic unsigned-byte order, and `eq` is byte equality. */
  lemma LessIsLex(a: Key, b: Key)
    ensures Less(a, b) <==> LexLess(a, b)
    ensures Eq(a, b) <==> a == b
  {
    StrNCmpFromDiff(a, b, 0);
    var d := FirstDiff(a, b, 0);
    if d < KeySize {
      PrefixEqual(a, b, d);
      assert a[d] < b[d] ==> LexLess(a, b);
    } else {
      FirstDiffAllEqualKeys(a, b);
    }
    LexLessFirstDiff(a, b);
  }

  lemma PrefixEqual(a: seq<Byte>, b: seq<Byte>, d: nat)
    requires d <= |a| && d <= |b|
    requires forall j :: 0 <= j < d ==> a[j] == b[j]
    ensures a[..d] == b[..d]
  {
  }

  lemma LexLessFirstDiff(a: Key, b: Key)
    ensures LexLess(a, b) ==> FirstDiff(a, b, 0) < KeySize && a[FirstDiff(a, b, 0)] < b[FirstDiff(a, b, 0)]
  {
    if LexLess(a, b) {
      var e :| 0 <= e < |a| && e < |b| && a[..e] == b[..e] && a[e] < b[e];
      FirstDiffIs(a, b, e);
    }
  }

  lemma FirstDiffAllEqualKeys(a: seq<Byte>, b: seq<Byte>)
    requires |a| == KeySize && |b| == KeySize && FirstDiff(a, b, 0) == KeySize
    ensures a == b
  {
  }

  /** A position before which two keys agree and at which they differ is their first difference. */
  lemma FirstDiffIs(a: seq<Byte>, b: seq<Byte>, e: nat)
    requires |a| == KeySize && |b| == KeySize && e < KeySize
    requires a[..e] == b[..e] && a[e] != b[e]
    ensures FirstDiff(a, b, 0) == e
  {
    assert forall j :: 0 <= j < e ==> a[j] == a[..e][j];
  }

  /** `less` is a strict total order on keys. */
  lemma LessIrreflexive(a: Key)
    ensures !Less(a, a)
  {
    LessIsLex(a, a);
  }

  lemma LessTotal(a: Key, b: Key)
    ensures a == b || Less(a, b) || Less(b, a)
  {
    StrNCmpFromDiff(a, b, 0);
    StrNCmpFromDiff(b, a, 0);
    FirstDiffSym(a, b, 0);
  }

  lemma LessAsym(a: Key, b: Key)
    ensures !(Less(a, b) && Less(b, a))
  {
    StrNCmpFromDiff(a, b, 0);
    StrNCmpFromDiff(b, a, 0);
    FirstDiffSym(a, b, 0);
  }

  lemma {:induction false} FirstDiffSym(a: seq<Byte>, b: seq<Byte>, i: nat)
    requires |a| == KeySize && |b| == KeySize && i <= KeySize
    ensures FirstDiff(a, b, i) == FirstDiff(b, a, i)
    decreases KeySize - i
  {
    if i < KeySize && a[i] == b[i] { FirstDiffSym(a, b, i + 1); }
  }

  lemma LessTrans(a: Key, b: Key, c: Key)
    requires Less(a, b) && Less(b, c)
    ensures Less(a, c)
  {
    LessIsLex(a, b);
    LessIsLex(b, c);
    var d1 :| 0 <= d1 < |a| && d1 < |b| && a[..d1] == b[..d1] && a[d1] < b[d1];
    var d2 :| 0 <= d2 < |b| && d2 < |c| && b[..d2] == c[..d2] && b[d2] < c[d2];
    LexTrans(a, b, c, d1, d2);
    LessIsLex(a, c);
  }

  lemma LexTrans(a: Key, b: Key, c: Key, d1: nat, d2: nat)
    requires d1 < KeySize && a[..d1] == b[..d1] && a[d1] < b[d1]
    requires d2 < KeySize && b[..d2] == c[..d2] && b[d2] < c[d2]
    ensures LexLess(a, c)
  {
    var d := if d1 < d2 then d1 else d2;
    forall j | 0 <= j < d ensures a[j] == c[j] {
      assert a[..d1][j] == b[..d1][j];
      assert b[..d2][j] == c[..d2][j];
    }
    PrefixEqual(a, c, d);
    if d1 < d2 { assert b[..d2][d1] == c[..d2][d1]; }
    if d2 < d1 { assert a[..d1][d2] == b[..d1][d2]; }
    assert a[d] < c[d];
  }

  /** DOMAIN_MIN is below or equal to every key; every key is at most DOMAIN_MAX. */
  lemma MinMaxBounds(k: Key)
    ensures LessEq(DomainMin(), k)
    ensures k != DomainMin() ==> Less(DomainMin(), k)
    ensures k != DomainMax() ==> Less(k, DomainMax())
  {
    StrNCmpFromDiff(DomainMin(), k, 0);
    StrNCmpFromDiff(k, DomainMax(), 0);
    if k != DomainMin() {
      var d := FirstDiff(DomainMin(), k, 0);
      if d == KeySize { FirstDiffAllEqualKeys(DomainMin(), k); }
    }
    if k != DomainMax() {
      var d := FirstDiff(k, DomainMax(), 0);
      if d == KeySize { FirstDiffAllEqualKeys(k, DomainMax()); }
    }
  }

  /** Derived macro: less_eq is less or equal. */
  lemma LessEqIsLessOrEq(a: Key, b: Key)
    ensures LessEq(a, b) <==> (Less(a, b) || a == b)
  {
    LessIsLex(a, b);
  }
}
