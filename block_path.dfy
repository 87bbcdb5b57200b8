/** Block-file naming in dns_db.cc: to_string(n, n_digits) and the path
    getNewBlock builds for a block id. */
module BlockFiles {

  /** std::to_string(d) for one decimal digit d. */
  function DigitChar(d: nat): (c: char)
    requires d < 10
    ensures '0' <= c <= '9' && c as int - '0' as int == d
  {
    ('0' as int + d) as char
  }

  predicate IsDigit(c: char) { '0' <= c <= '9' }

  /** The decimal value of a string of digits. */
  function Value(s: string): nat
    requires forall i :: 0 <= i < |s| ==> IsDigit(s[i])
  {
    if s == [] then 0
    else
      var c := s[|s| - 1];
      assert IsDigit(c);
      10 * Value(s[..|s| - 1]) + (c as int - '0' as int)
  }

  /** The number of decimal digits of n, zero having none. */
  function NumDigits(n: nat): nat
  {
    if n == 0 then 0 else 1 + NumDigits(n / 10)
  }

  function Pow10(k: nat): (p: nat)
    ensures p >= 1
  {
    if k == 0 then 1 else 10 * Pow10(k - 1)
  }

  function Max(a: int, b: int): int { if a < b then b else a }

  /** to_string(n, k) as a value: while k > 0 or n > 0, prepend the last
      digit of n and drop it, counting k down. */
  function Padded(n: nat, k: int): string
    decreases n + Max(k, 0)
  {
    if k > 0 || n > 0 then Padded(n / 10, k - 1) + [DigitChar(n % 10)] else ""
  }

  /** to_string(n, n_digits): the loop condition `n_digits-- > 0 || n > 0`
      counts n_digits down on every test. */
  method ToString(n: nat, nDigits: int) returns (r: string)
    ensures r == Padded(n, nDigits)
  {
    r := "";
    var m: nat, k: int := n, nDigits;
    while k > 0 || m > 0
      invariant Padded(n, nDigits) == Padded(m, k) + r
      decreases m + Max(k, 0)
    {
      r := [DigitChar(m % 10)] + r;
      m, k := m / 10, k - 1;
    }
  }

  /** The result is all digits, reads back as n, and has max(k, digits of
      n) characters: zero padding on the left, never truncation. */
  lemma {:induction false} PaddedSpec(n: nat, k: int)
    ensures forall i :: 0 <= i < |Padded(n, k)| ==> IsDigit(Padded(n, k)[i])
    ensures Value(Padded(n, k)) == n
    ensures |Padded(n, k)| == Max(k, NumDigits(n))
    decreases n + Max(k, 0)
  {
    if k > 0 || n > 0 {
      PaddedSpec(n / 10, k - 1);
      var s := Padded(n, k);
      assert s[..|s| - 1] == Padded(n / 10, k - 1);
    }
  }

  /** to_string(0, 0) is the empty string. */
  lemma PaddedEmpty()
    ensures Padded(0, 0) == ""
  {
  }

  /** A number below 10^k has at most k digits. */
  lemma {:induction false} DigitsBelow(n: nat, k: nat)
    requires n < Pow10(k)
    ensures NumDigits(n) <= k
  {
    if n > 0 {
      DigitsBelow(n / 10, k - 1);
    }
  }

  lemma {:induction false} Pow10Add(a: nat, b: nat)
    ensures Pow10(a + b) == Pow10(a) * Pow10(b)
  {
    if a > 0 {
      Pow10Add(a - 1, b);
    }
  }

  /** The width of a block file name. */
  const NameDigits: nat := 16

  /** The unsigned int the int blockid becomes when passed to to_string. */
  function Unsigned(blockid: int): (u: nat)
    requires -0x8000_0000 <= blockid < 0x8000_0000
    ensures u < 0x1_0000_0000
  {
    if blockid < 0 then blockid + 0x1_0000_0000 else blockid
  }

  /** The file name is exactly 16 digits for every id: unsigned ints stay
      below 10^16. */
  lemma NameWidth(blockid: int)
    requires -0x8000_0000 <= blockid < 0x8000_0000
    ensures |Padded(Unsigned(blockid), NameDigits)| == NameDigits
  {
    Pow10Add(2, 2);
    Pow10Add(4, 4);
    Pow10Add(8, 8);
    DigitsBelow(Unsigned(blockid), NameDigits);
    PaddedSpec(Unsigned(blockid), NameDigits);
  }

  /** getNewBlock's path: db_path/<last digit>/<second-to-last digit>/<name>.blk */
  function BlockPathOf(dbPath: string, blockid: int): string
    requires -0x8000_0000 <= blockid < 0x8000_0000
  {
    var name := Padded(Unsigned(blockid), NameDigits);
    NameWidth(blockid);
    var dir1 := name[|name| - 1..] + "/";
    var dir2 := name[|name| - 2..|name| - 1] + "/";
    dbPath + "/" + dir1 + dir2 + name + ".blk"
  }

  /** getNewBlock's string building. */
  method BlockPath(dbPath: string, blockid: int) returns (path: string)
    requires -0x8000_0000 <= blockid < 0x8000_0000
    ensures path == BlockPathOf(dbPath, blockid)
    ensures var name := Padded(Unsigned(blockid), NameDigits);
      |name| == NameDigits
      && path == dbPath + "/" + [name[NameDigits - 1]] + "/" + [name[NameDigits - 2]] + "/" + name + ".blk"
  {
    var filename := ToString(Unsigned(blockid), NameDigits);
    NameWidth(blockid);
    var dir1 := filename[|filename| - 1..] + "/";
    var dir2 := filename[|filename| - 2..|filename| - 1] + "/";
    path := dbPath + "/" + dir1 + dir2 + filename + ".blk";
  }

  /** Two block ids in the same database directory never share a file. */
  lemma PathsDistinct(dbPath: string, a: int, b: int)
    requires -0x8000_0000 <= a < 0x8000_0000 && -0x8000_0000 <= b < 0x8000_0000
    requires a != b
    ensures BlockPathOf(dbPath, a) != BlockPathOf(dbPath, b)
  {
    var na, nb := Padded(Unsigned(a), NameDigits), Padded(Unsigned(b), NameDigits);
    NameWidth(a);
    NameWidth(b);
    PaddedSpec(Unsigned(a), NameDigits);
    PaddedSpec(Unsigned(b), NameDigits);
    var pa, pb := BlockPathOf(dbPath, a), BlockPathOf(dbPath, b);
    var lo := |dbPath| + 5;
    assert pa[lo..lo + NameDigits] == na;
    assert pb[lo..lo + NameDigits] == nb;
  }
}
