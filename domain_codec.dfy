/** The domain codec of util.cc: a domain name "local.tld" becomes a
    35-byte key holding the local part, one byte naming the TLD by its
    position in tld_domains, and zero fill. */
module DomainCodec {
  import opened Keys
  import opened Wrappers

  /** A C string: the bytes before its terminating zero. */
  type CString = s: seq<Byte> | forall i :: 0 <= i < |s| ==> s[i] != 0

  const Dot: Byte := 46

  /** The longest local part a key can hold: one byte is left for the TLD. */
  const MaxLocal: nat := KeySize - 1

  /** tld_domains, as bytes: entry 0 is the empty TLD. */
  const TldDomains: seq<CString> := [
    [],  // ""
    [99, 111, 109],  // "com"
    [111, 114, 103],  // "org"
    [110, 101, 116],  // "net"
    [105, 110, 116],  // "int"
    [101, 100, 117],  // "edu"
    [103, 111, 118],  // "gov"
    [109, 105, 108],  // "mil"
    [98, 105, 122],  // "biz"
    [105, 110, 102, 111],  // "info"
    [97, 116],  // "at"
    [99, 97],  // "ca"
    [100, 101],  // "de"
    [101, 115],  // "es"
    [114, 117],  // "ru"
    [117, 115],  // "us"
    [102, 114]  // "fr"
  ]

  /** Only entry 0 is empty, and no two entries are equal, so a TLD has at
      most one index. */
  lemma TldTable()
    ensures |TldDomains| == 17
    ensures forall i :: 0 <= i < |TldDomains| ==> (TldDomains[i] == [] <==> i == 0)
    ensures forall i, j :: 0 <= i < j < |TldDomains| ==> TldDomains[i] != TldDomains[j]
  {
    forall i, j | 0 <= i < j < |TldDomains|
      ensures TldDomains[i] != TldDomains[j]
    {
      var a, b := TldDomains[i], TldDomains[j];
      if |a| == |b| && |a| > 0 {
        assert a[0] != b[0] || a[1] != b[1];
      }
    }
  }

  // ---------------------------------------------------------------------
  // domain2idom

  /** strstr(domain, "."): the first dot at or after i, or -1. */
  function FirstDot(d: seq<Byte>, i: nat): (p: int)
    requires i <= |d|
    ensures p == -1 || (i <= p < |d| && d[p] == Dot)
    ensures forall j :: i <= j < |d| && (p < 0 || j < p) ==> d[j] != Dot
    decreases |d| - i
  {
    if i == |d| then -1
    else if d[i] == Dot then i
    else FirstDot(d, i + 1)
  }

  /** The first table index at or after i whose entry equals t, or -1. */
  function TldIndexFrom(t: seq<Byte>, i: nat): (n: int)
    requires i <= |TldDomains|
    ensures n == -1 || (i <= n < |TldDomains| && TldDomains[n] == t)
    ensures forall j :: i <= j < |TldDomains| && (n < 0 || j < n) ==> TldDomains[j] != t
    decreases |TldDomains| - i
  {
    if i == |TldDomains| then -1
    else if TldDomains[i] == t then i
    else TldIndexFrom(t, i + 1)
  }

  function Zeros(n: nat): (z: seq<Byte>)
    ensures |z| == n && forall i :: 0 <= i < n ==> z[i] == 0
  {
    seq(n, _ => 0)
  }

  /** The key for local part l and TLD index t. */
  function IdomKey(l: CString, t: Byte): (k: Key)
    requires |l| <= MaxLocal
    ensures k[..|l|] == l && k[|l|] == t
    ensures forall j :: |l| < j < KeySize ==> k[j] == 0
  {
    var k := l + [t] + Zeros(MaxLocal - |l|);
    assert forall j :: 0 <= j < |l| ==> k[j] == l[j];
    assert forall j :: |l| < j < KeySize ==> k[j] == 0;
    assert k[..|l|] == l;
    k
  }

  /** domain2idom(domain, intdom): None where it returns false. */
  function DomainKey(d: CString): Option<Key>
  {
    var dot := FirstDot(d, 0);
    if dot < 0 || dot > MaxLocal then None
    else
      var t := TldIndexFrom(d[dot + 1..], 0);
      if t < 0 then None else Some(IdomKey(d[..dot], t))
  }

  /** domain2idom as the code runs it: strstr, the table loop, then
      memset, memcpy and the TLD byte. */
  method Domain2Idom(d: CString) returns (r: Option<Key>)
    ensures r == DomainKey(d)
  {
    var dot := FindDot(d);
    if dot < 0 {
      return None;
    }
    var length := dot;
    if length > MaxLocal {
      return None;
    }
    var tldn := FindTld(d[dot + 1..]);
    if tldn < 0 {
      return None;
    }
    var k := FillKey(d[..length], tldn);
    return Some(k);
  }

  /** strstr(domain, ".") */
  method FindDot(d: CString) returns (p: int)
    ensures p == FirstDot(d, 0)
  {
    p := 0;
    while p < |d| && d[p] != Dot
      invariant 0 <= p <= |d|
      invariant FirstDot(d, p) == FirstDot(d, 0)
    {
      p := p + 1;
    }
    if p == |d| {
      p := -1;
    }
  }

  /** The loop comparing dot + 1 with each table entry. */
  method FindTld(t: CString) returns (n: int)
    ensures n == TldIndexFrom(t, 0)
  {
    n := -1;
    var i := 0;
    while i < |TldDomains|
      invariant 0 <= i <= |TldDomains|
      invariant TldIndexFrom(t, i) == TldIndexFrom(t, 0)
    {
      if t == TldDomains[i] {
        return i;
      }
      i := i + 1;
    }
  }

  /** memset(intdom, 0, 35); memcpy(intdom, domain, length);
      intdom[length] = tldn. */
  method FillKey(l: CString, t: Byte) returns (k: Key)
    requires |l| <= MaxLocal
    ensures k == IdomKey(l, t)
  {
    var buf := Zeros(KeySize);
    var j := 0;
    while j < |l|
      invariant 0 <= j <= |l|
      invariant buf == l[..j] + Zeros(KeySize - j)
    {
      buf := buf[j := l[j]];
      assert l[..j + 1] == l[..j] + [l[j]];
      j := j + 1;
    }
    buf := buf[|l| := t];
    assert buf == IdomKey(l, t);
    k := buf;
  }

  /** No dot: rejected. */
  lemma RejectsNoDot(d: CString)
    requires forall i :: 0 <= i < |d| ==> d[i] != Dot
    ensures DomainKey(d) == None
  {
  }

  /** With p the first dot: accepted exactly when the local part has at
      most 34 bytes and everything after the dot is in the table, and then
      the key is the local part, the TLD's index and zero fill. */
  lemma DomainKeyAt(d: CString, p: nat)
    requires p < |d| && d[p] == Dot && forall i :: 0 <= i < p ==> d[i] != Dot
    ensures DomainKey(d).Some? <==> p <= MaxLocal && d[p + 1..] in TldDomains
    ensures DomainKey(d).Some? ==>
      var k := DomainKey(d).value;
      k[..p] == d[..p] && k[p] < |TldDomains| && TldDomains[k[p]] == d[p + 1..]
      && forall j :: p < j < KeySize ==> k[j] == 0
  {
    assert FirstDot(d, 0) == p;
    if d[p + 1..] in TldDomains {
      var t := TldIndexFrom(d[p + 1..], 0);
      assert t >= 0;
    }
  }

  // ---------------------------------------------------------------------
  // idom2domain

  /** strlen over the key: the index of its first zero byte, or 35. */
  function StrLen(k: Key): (n: nat)
    ensures n <= KeySize
    ensures forall j :: 0 <= j < n ==> k[j] != 0
    ensures n < KeySize ==> k[n] == 0
  {
    StrLenFrom(k, 0)
  }

  function StrLenFrom(k: Key, i: nat): (n: nat)
    requires i <= KeySize
    ensures i <= n <= KeySize
    ensures forall j :: i <= j < n ==> k[j] != 0
    ensures n < KeySize ==> k[n] == 0
    decreases KeySize - i
  {
    if i == KeySize || k[i] == 0 then i else StrLenFrom(k, i + 1)
  }

  /** strlen is the first zero. */
  lemma {:induction false} StrLenAt(k: Key, i: nat, n: nat)
    requires i <= n <= KeySize
    requires forall j :: i <= j < n ==> k[j] != 0
    requires n < KeySize ==> k[n] == 0
    ensures StrLenFrom(k, i) == n
    decreases n - i
  {
    if i < n {
      StrLenAt(k, i + 1, n);
    }
  }

  /** The length idom2domain takes: all 35 bytes when the last is not
      zero, otherwise strlen. */
  function EffLen(k: Key): (n: nat)
    ensures n <= KeySize
  {
    if k[KeySize - 1] != 0 then KeySize else StrLen(k)
  }

  /** idom2domain reads intdom[length - 1] and indexes tld_domains with it:
      the length taken (a non-empty strlen, or all 35 bytes) must be at
      least 1 and the TLD byte it ends with must be in the table. */
  predicate Decodable(k: Key)
  {
    EffLen(k) >= 1 && k[EffLen(k) - 1] < |TldDomains|
  }

  /** idom2domain(intdom, domain): the bytes before the TLD byte, a dot,
      then the TLD's name. */
  function DomainName(k: Key): (d: CString)
    requires Decodable(k)
  {
    var n := EffLen(k);
    k[..n - 1] + [Dot] + TldDomains[k[n - 1]]
  }

  method Idom2Domain(k: Key) returns (d: CString)
    requires Decodable(k)
    ensures d == DomainName(k)
  {
    var length := KeySize;
    if k[KeySize - 1] == 0 {
      length := 0;
      while length < KeySize && k[length] != 0
        invariant 0 <= length <= KeySize
        invariant StrLenFrom(k, length) == StrLen(k)
      {
        length := length + 1;
      }
    }
    var ext := k[length - 1];
    d := k[..length - 1] + [Dot];
    d := d + TldDomains[ext];
  }

  /** A key whose first p + 1 bytes are nonzero and whose rest is zero
      decodes with length p + 1. */
  lemma EffLenAt(k: Key, p: nat)
    requires p < KeySize
    requires forall j :: 0 <= j <= p ==> k[j] != 0
    requires forall j :: p < j < KeySize ==> k[j] == 0
    ensures EffLen(k) == p + 1
  {
    if p < MaxLocal {
      assert k[KeySize - 1] == 0;
      StrLenAt(k, 0, p + 1);
    }
  }

  /** The key for local part l and a non-empty TLD t decodes to l, a dot
      and the TLD's name. */
  lemma DecodeKey(l: CString, t: Byte)
    requires |l| <= MaxLocal && 0 < t < |TldDomains|
    ensures Decodable(IdomKey(l, t)) && DomainName(IdomKey(l, t)) == l + [Dot] + TldDomains[t]
  {
    var k := IdomKey(l, t);
    assert forall j :: 0 <= j < |l| ==> k[j] == l[j] by {
      assert k[..|l|] == l;
    }
    EffLenAt(k, |l|);
  }

  /** Decoding undoes encoding for every accepted domain whose TLD is not
      empty (the dot is not its last byte). */
  lemma RoundTrip(d: CString)
    requires DomainKey(d).Some? && d[|d| - 1] != Dot
    ensures Decodable(DomainKey(d).value) && DomainName(DomainKey(d).value) == d
  {
    var p := FirstDot(d, 0);
    var l: CString, tld: CString := d[..p], d[p + 1..];
    var t := TldIndexFrom(tld, 0);
    assert DomainKey(d).value == IdomKey(l, t);
    assert t != 0 by {
      assert TldDomains[t] == tld && |tld| > 0;
    }
    DecodeKey(l, t);
    SplitAt(d, p);
  }

  lemma SplitAt(s: seq<Byte>, p: nat)
    requires p < |s|
    ensures s == s[..p] + [s[p]] + s[p + 1..]
  {
  }

  /** Two accepted domains with non-empty TLDs have the same key only if
      they are the same domain. */
  lemma KeysDistinct(d1: CString, d2: CString)
    requires DomainKey(d1).Some? && d1[|d1| - 1] != Dot
    requires DomainKey(d2).Some? && d2[|d2| - 1] != Dot
    requires d1 != d2
    ensures DomainKey(d1) != DomainKey(d2)
  {
    RoundTrip(d1);
    RoundTrip(d2);
  }

  /** Every accepted domain's key lies below DOMAIN_MAX: the byte after the
      local part is a table index, far from 0xFF. */
  lemma KeyBelowMax(d: CString)
    requires DomainKey(d).Some?
    ensures Less(DomainKey(d).value, DomainMax())
  {
    var p := FirstDot(d, 0);
    var l: CString := d[..p];
    var t := TldIndexFrom(d[p + 1..], 0);
    var k := IdomKey(l, t);
    assert DomainKey(d).value == k;
    TldTable();
    assert k[|l|] == t < 17 && DomainMax()[|l|] == 255;
    MinMaxBounds(k);
  }
}
