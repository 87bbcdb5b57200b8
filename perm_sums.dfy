/** Sums over a table read through a list of indices.  When the indices
    are distinct and as many as the table's entries, each below that
    number, they are a permutation of the positions and the sum read
    through them is the table's own sum. */
module PermSums {
  import opened Wrappers

  /** The indices are all below m. */
  predicate Below(s: seq<nat>, m: nat)
  {
    forall i :: 0 <= i < |s| ==> s[i] < m
  }

  /** No index occurs twice. */
  predicate Distinct(s: seq<nat>)
  {
    forall i, j :: 0 <= i < j < |s| ==> s[i] != s[j]
  }

  /** c[0] + ... + c[|c| - 1] */
  function Sum(c: seq<nat>): nat
    decreases |c|
  {
    if c == [] then 0 else Sum(c[..|c| - 1]) + c[|c| - 1]
  }

  lemma SumSnoc(c: seq<nat>, x: nat)
    ensures Sum(c + [x]) == Sum(c) + x
  {
    assert (c + [x])[..|c|] == c;
  }

  /** c[s[0]] + ... + c[s[|s| - 1]] */
  function SumAt(c: seq<nat>, s: seq<nat>): nat
    requires Below(s, |c|)
    decreases |s|
  {
    if s == [] then 0 else SumAt(c, s[..|s| - 1]) + c[s[|s| - 1]]
  }

  /** c read through s and summed, failing at an index past the table. */
  function SumThrough(c: seq<nat>, s: seq<nat>): Outcome<nat>
    decreases |s|
  {
    if s == [] then Done(0)
    else
      match SumThrough(c, s[..|s| - 1])
      case Abort => Abort
      case Done(t) => if s[|s| - 1] >= |c| then Abort else Done(t + c[s[|s| - 1]])
  }

  /** Reading through s fails exactly when an index is past the table, and
      otherwise sums the entries it names. */
  lemma {:induction false} SumThroughSpec(c: seq<nat>, s: seq<nat>)
    ensures SumThrough(c, s) == Abort <==> !Below(s, |c|)
    ensures Below(s, |c|) ==> SumThrough(c, s) == Done(SumAt(c, s))
    decreases |s|
  {
    if s != [] {
      var p := s[..|s| - 1];
      SumThroughSpec(c, p);
      if !Below(p, |c|) {
        var i :| 0 <= i < |p| && p[i] >= |c|;
        assert s[i] == p[i];
      }
      if Below(s, |c|) {
        assert Below(p, |c|);
      }
    }
  }

  lemma {:induction false} SumAtConcat(c: seq<nat>, a: seq<nat>, b: seq<nat>)
    requires Below(a, |c|) && Below(b, |c|)
    ensures Below(a + b, |c|)
    ensures SumAt(c, a + b) == SumAt(c, a) + SumAt(c, b)
    decreases |b|
  {
    if b != [] {
      var b' := b[..|b| - 1];
      assert (a + b)[..|a + b| - 1] == a + b';
      SumAtConcat(c, a, b');
    } else {
      assert a + b == a;
    }
  }

  /** Entries past every index do not matter. */
  lemma {:induction false} SumAtPrefix(c: seq<nat>, n: nat, s: seq<nat>)
    requires n <= |c| && Below(s, n)
    ensures SumAt(c, s) == SumAt(c[..n], s)
    decreases |s|
  {
    if s != [] {
      SumAtPrefix(c, n, s[..|s| - 1]);
    }
  }

  /** s without any occurrence of v. */
  function Remove(s: seq<nat>, v: nat): seq<nat>
    decreases |s|
  {
    if s == [] then []
    else if s[|s| - 1] == v then Remove(s[..|s| - 1], v)
    else Remove(s[..|s| - 1], v) + [s[|s| - 1]]
  }

  /** Removing v keeps every other index, drops one entry when v was
      there and none otherwise, and keeps the indices distinct. */
  lemma {:induction false} RemoveSpec(s: seq<nat>, v: nat)
    requires Distinct(s)
    ensures forall x :: x in Remove(s, v) <==> x in s && x != v
    ensures Distinct(Remove(s, v))
    ensures |Remove(s, v)| == if v in s then |s| - 1 else |s|
    decreases |s|
  {
    if s != [] {
      var p, x := s[..|s| - 1], s[|s| - 1];
      assert s == p + [x];
      RemoveSpec(p, v);
      assert x !in p;
      if x != v {
        var t := Remove(p, v);
        assert x !in t;
        assert forall i, j :: 0 <= i < j < |t + [x]| ==> (t + [x])[i] != (t + [x])[j] by {
          forall i, j | 0 <= i < j < |t + [x]| ensures (t + [x])[i] != (t + [x])[j] {
            if j == |t| {
              assert (t + [x])[i] == t[i];
            } else {
              assert (t + [x])[i] == t[i] && (t + [x])[j] == t[j];
            }
          }
        }
      }
    }
  }

  /** Pigeonhole: distinct indices below m are at most m many. */
  lemma {:induction false} Pigeonhole(s: seq<nat>, m: nat)
    requires Distinct(s) && Below(s, m)
    ensures |s| <= m
    decreases m
  {
    if s != [] {
      assert s[0] < m;
      var t := Remove(s, m - 1);
      RemoveSpec(s, m - 1);
      forall i | 0 <= i < |t| ensures t[i] < m - 1 {
        assert t[i] in t;
        var j :| 0 <= j < |s| && s[j] == t[i];
      }
      Pigeonhole(t, m - 1);
    }
  }

  /** m distinct indices below m reach every position below m. */
  lemma Onto(s: seq<nat>, m: nat, v: nat)
    requires Distinct(s) && Below(s, m) && |s| == m && v < m
    ensures v in s
  {
    if v !in s {
      var t := seq(|s|, i requires 0 <= i < |s| => if s[i] > v then s[i] - 1 else s[i]);
      forall i, j | 0 <= i < j < |t| ensures t[i] != t[j] {
        assert s[i] != v && s[j] != v;
      }
      forall i | 0 <= i < |t| ensures t[i] < m - 1 {
        assert s[i] != v;
      }
      Pigeonhole(t, m - 1);
      assert false;
    }
  }

  /** Taking out the entry at k leaves distinct indices below m, none of
      them the one taken out. */
  lemma DropAt(s: seq<nat>, m: nat, k: nat)
    requires Distinct(s) && Below(s, m) && k < |s|
    ensures var t := s[..k] + s[k + 1..];
      Distinct(t) && Below(t, m) && forall i :: 0 <= i < |t| ==> t[i] != s[k]
  {
    var t := s[..k] + s[k + 1..];
    assert forall i :: 0 <= i < |t| ==> t[i] == s[if i < k then i else i + 1];
  }

  /** Reading through a + [n] + b adds c[n] to reading through a + b. */
  lemma SumAtSplit(c: seq<nat>, a: seq<nat>, n: nat, b: seq<nat>)
    requires Below(a, |c|) && Below(b, |c|) && n < |c|
    ensures Below(a + [n] + b, |c|) && Below(a + b, |c|)
    ensures SumAt(c, a + [n] + b) == SumAt(c, a + b) + c[n]
  {
    SumAtConcat(c, a, b);
    SumAtConcat(c, a + [n], b);
    SumAtConcat(c, a, [n]);
    assert SumAt(c, [n]) == c[n] by {
      assert [n][..0] == [];
    }
  }

  /** Taking out the position of the last entry: what is left reads the
      rest of the table, and is again a permutation of its positions. */
  lemma PermStep(c: seq<nat>, s: seq<nat>) returns (t: seq<nat>)
    requires Distinct(s) && Below(s, |c|) && |s| == |c| && c != []
    ensures Distinct(t) && Below(t, |c| - 1) && |t| == |c| - 1
    ensures SumAt(c, s) == SumAt(c, t) + c[|c| - 1]
  {
    var n := |c| - 1;
    Onto(s, |c|, n);
    var k :| 0 <= k < |s| && s[k] == n;
    var a, b := s[..k], s[k + 1..];
    assert s == a + [n] + b;
    DropAt(s, |c|, k);
    t := a + b;
    SumAtSplit(c, a, n, b);
  }

  /** A permutation of the positions sums the table. */
  lemma {:induction false} PermSum(c: seq<nat>, s: seq<nat>)
    requires Distinct(s) && Below(s, |c|) && |s| == |c|
    ensures SumAt(c, s) == Sum(c)
    decreases |c|
  {
    if c != [] {
      var n := |c| - 1;
      var t := PermStep(c, s);
      PermSum(c[..n], t);
      SumAtPrefix(c, n, t);
    }
  }
}
