/** The node table of dns_index.cc as values: each node names the block
    holding the domains in [min, max).  The DnsIndex class (dns_index.dfy)
    is proved to compute these functions on its fields. */
module IndexSpec {
  import opened Keys
  import opened Records
  import opened Wrappers

  /** DnsIndex::Node: min and max (35 bytes each) and dnsblock_id. */
  datatype Node = Node(min: Key, max: Key, id: U32)

  /** Node n potentially holds key: less_eq(min, key) && less(key, max). */
  predicate Covers(n: Node, key: Key)
  {
    LessEq(n.min, key) && Less(key, n.max)
  }

  /** lookupNode's loop from node i: the first node covering key, or -1
      where the source asserts. */
  function FindNode(ns: seq<Node>, key: Key, i: nat): (n: int)
    requires i <= |ns|
    ensures n == -1 || (i <= n < |ns| && Covers(ns[n], key))
    ensures forall j :: i <= j < |ns| && (n < 0 || j < n) ==> !Covers(ns[j], key)
    decreases |ns| - i
  {
    if i == |ns| then -1 else if Covers(ns[i], key) then i else FindNode(ns, key, i + 1)
  }

  function LookupNode(ns: seq<Node>, key: Key): int
  {
    FindNode(ns, key, 0)
  }

  // ---------------------------------------------------------------------
  // The tiling the constructor sets up and check() looks for

  /** What check() looks for: every range non-empty, each node starting
      where the previous one ends, the minimums increasing. */
  predicate Ordered(ns: seq<Node>)
  {
    (forall i :: 0 <= i < |ns| ==> Less(ns[i].min, ns[i].max))
    && (forall i :: 0 < i < |ns| ==> Less(ns[i - 1].min, ns[i].min) && Eq(ns[i - 1].max, ns[i].min))
  }

  /** The nodes tile [DOMAIN_MIN, DOMAIN_MAX). */
  predicate Tiled(ns: seq<Node>)
  {
    |ns| > 0 && ns[0].min == DomainMin() && ns[|ns| - 1].max == DomainMax() && Ordered(ns)
  }

  /** The index the constructor builds: one node with block 0. */
  function InitialNodes(): seq<Node>
  {
    [Node(DomainMin(), DomainMax(), 0)]
  }

  lemma InitialTiled()
    ensures Tiled(InitialNodes())
  {
    MinBelowMax();
  }

  lemma MinBelowMax()
    ensures Less(DomainMin(), DomainMax())
  {
    Keys.MinMaxBounds(DomainMax());
    assert DomainMax()[0] != 0;
  }

  /** A tiled index covers every key below DOMAIN_MAX with exactly one
      node, so lookupNode's assert never fires for such a key. */
  lemma LookupCovered(ns: seq<Node>, key: Key)
    requires Tiled(ns) && Less(key, DomainMax())
    ensures 0 <= LookupNode(ns, key) < |ns|
    ensures forall j :: 0 <= j < |ns| && Covers(ns[j], key) ==> j == LookupNode(ns, key)
  {
    Keys.MinMaxBounds(key);
    CoveredFrom(ns, key, 0);
    var n := LookupNode(ns, key);
    forall j | 0 <= j < |ns| && Covers(ns[j], key)
      ensures j == n
    {
      if n < j {
        BelowLaterMin(ns, n, j);
        Keys.LessEqIsLessOrEq(ns[j].min, key);
        Keys.LessEqIsLessOrEq(ns[n + 1].min, ns[j].min);
        LessEqTrans(ns[n].max, ns[j].min, key);
        LessNotGe(key, ns[n].max);
      }
    }
  }

  /** From node i on, some node covers key when min_i <= key. */
  lemma {:induction false} CoveredFrom(ns: seq<Node>, key: Key, i: nat)
    requires Tiled(ns) && Less(key, DomainMax()) && i < |ns| && LessEq(ns[i].min, key)
    ensures LookupNode(ns, key) >= 0
    decreases |ns| - i
  {
    if Less(key, ns[i].max) {
      assert Covers(ns[i], key);
    } else {
      if i + 1 == |ns| {
        LessNotGe(key, DomainMax());
        assert false;
      }
      Keys.LessIsLex(ns[i].max, ns[i + 1].min);
      LessEqNotLess(key, ns[i].max);
      CoveredFrom(ns, key, i + 1);
    }
  }

  /** The maximum of node n is at most the minimum of every later node. */
  lemma {:induction false} BelowLaterMin(ns: seq<Node>, n: nat, j: nat)
    requires Ordered(ns) && n < j < |ns|
    ensures LessEq(ns[n].max, ns[j].min)
    decreases j - n
  {
    Keys.LessIsLex(ns[j - 1].max, ns[j].min);
    Keys.LessEqIsLessOrEq(ns[j - 1].max, ns[j].min);
    if n < j - 1 {
      BelowLaterMin(ns, n, j - 1);
      Keys.LessEqIsLessOrEq(ns[n].max, ns[j - 1].min);
      Keys.LessEqIsLessOrEq(ns[n].max, ns[j].min);
      LessEqTrans(ns[n].max, ns[j - 1].min, ns[j - 1].max);
      LessEqTrans(ns[n].max, ns[j - 1].max, ns[j].min);
    }
  }

  lemma LessEqTrans(a: Key, b: Key, c: Key)
    requires LessEq(a, b) && LessEq(b, c)
    ensures LessEq(a, c)
  {
    Keys.LessEqIsLessOrEq(a, b);
    Keys.LessEqIsLessOrEq(b, c);
    Keys.LessEqIsLessOrEq(a, c);
    if Less(a, b) && Less(b, c) {
      Keys.LessTrans(a, b, c);
    }
  }

  lemma LessNotGe(a: Key, b: Key)
    ensures Less(a, b) <==> !LessEq(b, a)
  {
    Keys.LessEqIsLessOrEq(b, a);
    Keys.LessAsym(a, b);
    Keys.LessTotal(a, b);
    Keys.LessIrreflexive(a);
  }

  lemma LessEqNotLess(a: Key, b: Key)
    ensures LessEq(b, a) <==> !Less(a, b)
  {
    LessNotGe(a, b);
  }

  // ---------------------------------------------------------------------
  // addBlock: push_back, then std::sort by Node::lessthan

  /** x placed after every node whose minimum is not above its own. */
  function InsertNode(ns: seq<Node>, x: Node): (r: seq<Node>)
    ensures |r| == |ns| + 1
  {
    if ns == [] then [x]
    else if Less(x.min, ns[|ns| - 1].min) then InsertNode(ns[..|ns| - 1], x) + [ns[|ns| - 1]]
    else ns + [x]
  }

  /** The nodes ordered by minimum, as std::sort leaves them; where two
      minimums are equal this insertion sort keeps the older node first,
      one of the orders std::sort may leave. */
  function SortByMin(ns: seq<Node>): (r: seq<Node>)
    ensures |r| == |ns|
  {
    if ns == [] then [] else InsertNode(SortByMin(ns[..|ns| - 1]), ns[|ns| - 1])
  }

  lemma {:induction false} InsertNodeSame(ns: seq<Node>, x: Node)
    ensures multiset(InsertNode(ns, x)) == multiset(ns) + multiset{x}
  {
    if ns != [] && Less(x.min, ns[|ns| - 1].min) {
      InsertNodeSame(ns[..|ns| - 1], x);
      assert ns == ns[..|ns| - 1] + [ns[|ns| - 1]];
    }
  }

  lemma {:induction false} SortByMinSame(ns: seq<Node>)
    ensures multiset(SortByMin(ns)) == multiset(ns)
  {
    if ns != [] {
      SortByMinSame(ns[..|ns| - 1]);
      InsertNodeSame(SortByMin(ns[..|ns| - 1]), ns[|ns| - 1]);
      assert ns == ns[..|ns| - 1] + [ns[|ns| - 1]];
    }
  }

  /** Minimums never decrease. */
  predicate SortedByMin(ns: seq<Node>)
  {
    forall i, j :: 0 <= i < j < |ns| ==> LessEq(ns[i].min, ns[j].min)
  }

  lemma {:induction false} InsertNodeSorted(ns: seq<Node>, x: Node)
    requires SortedByMin(ns)
    ensures SortedByMin(InsertNode(ns, x))
    decreases |ns|
  {
    if ns != [] {
      var init, last := ns[..|ns| - 1], ns[|ns| - 1];
      if Less(x.min, last.min) {
        InsertNodeSorted(init, x);
        var r0 := InsertNode(init, x);
        InsertNodeSame(init, x);
        var r := r0 + [last];
        forall i | 0 <= i < |r0|
          ensures LessEq(r0[i].min, last.min)
        {
          assert r0[i] in multiset(r0);
          if r0[i] == x {
            Keys.LessEqIsLessOrEq(x.min, last.min);
          } else {
            assert r0[i] in multiset(init);
            var k :| 0 <= k < |init| && init[k] == r0[i];
            assert ns[k] == r0[i];
          }
        }
      } else {
        var r := ns + [x];
        forall i | 0 <= i < |ns|
          ensures LessEq(ns[i].min, x.min)
        {
          LessEqNotLess(x.min, last.min);
          if i < |ns| - 1 {
            LessEqTrans(ns[i].min, last.min, x.min);
          }
        }
      }
    }
  }

  lemma {:induction false} SortByMinSorted(ns: seq<Node>)
    ensures SortedByMin(SortByMin(ns))
  {
    if ns != [] {
      SortByMinSorted(ns[..|ns| - 1]);
      InsertNodeSorted(SortByMin(ns[..|ns| - 1]), ns[|ns| - 1]);
    }
  }

  /** std::sort's promise: the same nodes, minimums in order. */
  lemma SortByMinSpec(ns: seq<Node>)
    ensures SortedByMin(SortByMin(ns)) && multiset(SortByMin(ns)) == multiset(ns)
  {
    SortByMinSorted(ns);
    SortByMinSame(ns);
  }

  /** Strictly increasing minimums. */
  predicate StrictByMin(ns: seq<Node>)
  {
    forall i :: 0 < i < |ns| ==> Less(ns[i - 1].min, ns[i].min)
  }

  /** Sorting nodes already in strict order changes nothing. */
  lemma {:induction false} SortStrictIdentity(ns: seq<Node>)
    requires StrictByMin(ns)
    ensures SortByMin(ns) == ns
  {
    if ns != [] {
      var init, last := ns[..|ns| - 1], ns[|ns| - 1];
      StrictPrefix(ns);
      SortStrictIdentity(init);
      if init != [] {
        Keys.LessAsym(ns[|ns| - 2].min, last.min);
      }
      InsertAtEnd(init, last);
      SortUnfold(ns);
    }
  }

  lemma StrictPrefix(ns: seq<Node>)
    requires StrictByMin(ns) && ns != []
    ensures StrictByMin(ns[..|ns| - 1])
  {
  }

  lemma SortUnfold(ns: seq<Node>)
    requires ns != []
    ensures SortByMin(ns) == InsertNode(SortByMin(ns[..|ns| - 1]), ns[|ns| - 1])
  {
  }

  lemma InsertAtEnd(ns: seq<Node>, x: Node)
    requires ns != [] ==> !Less(x.min, ns[|ns| - 1].min)
    ensures InsertNode(ns, x) == ns + [x]
  {
  }

  /** addBlock's node table: the new node appended, then sorted. */
  function AddBlockNodes(ns: seq<Node>, id: U32, vmin: Key, vmax: Key): seq<Node>
  {
    SortByMin(ns + [Node(vmin, vmax, id)])
  }

  /** In strictly ordered nodes, a node whose minimum is at least that of
      node n and below that of node n + 1 (if any) is placed right after
      node n. */
  lemma {:induction false} InsertAfter(ns: seq<Node>, x: Node, n: nat)
    requires StrictByMin(ns) && n < |ns|
    requires !Less(x.min, ns[n].min) && (n + 1 < |ns| ==> Less(x.min, ns[n + 1].min))
    ensures InsertNode(ns, x) == ns[..n + 1] + [x] + ns[n + 1..]
    decreases |ns|
  {
    var init, last := ns[..|ns| - 1], ns[|ns| - 1];
    if n + 1 < |ns| {
      assert StrictByMin(init);
      InsertAfter(init, x, n);
      assert init[..n + 1] == ns[..n + 1];
      assert init[n + 1..] + [last] == ns[n + 1..];
      if n + 1 < |ns| - 1 {
        StrictLess(ns, n + 1, |ns| - 1);
        Keys.LessTrans(x.min, ns[n + 1].min, last.min);
      }
    } else {
      assert ns[..n + 1] == ns && ns[n + 1..] == [];
    }
  }

  lemma {:induction false} StrictLess(ns: seq<Node>, i: nat, j: nat)
    requires StrictByMin(ns) && i < j < |ns|
    ensures Less(ns[i].min, ns[j].min)
    decreases j - i
  {
    if i < j - 1 {
      StrictLess(ns, i, j - 1);
      Keys.LessTrans(ns[i].min, ns[j - 1].min, ns[j].min);
    }
  }

  /** SortByMin of ns + [x] is InsertNode(SortByMin(ns), x). */
  lemma SortAppend(ns: seq<Node>, x: Node)
    ensures SortByMin(ns + [x]) == InsertNode(SortByMin(ns), x)
  {
    assert (ns + [x])[..|ns|] == ns;
  }

  // ---------------------------------------------------------------------
  // A split: addBlock(nw, dommax, max_n), then setBlkMinMax(n, 0, dommax)

  /** The node table after a split of node n at key k, the new node taking
      block nw: addBlock then the change of node n's max, at index n. */
  function SplitNodes(ns: seq<Node>, n: nat, k: Key, nw: U32): seq<Node>
    requires n < |ns|
  {
    var added := AddBlockNodes(ns, nw, k, ns[n].max);
    if n < |added| then added[n := added[n].(max := k)] else added
  }

  /** Ordered nodes have strictly increasing minimums. */
  lemma OrderedStrict(ns: seq<Node>)
    requires Ordered(ns)
    ensures StrictByMin(ns)
  {
  }

  /** Splitting node n at a key strictly inside its range keeps the tiling:
      node n keeps [min, k), the new node takes [k, max) and sits right
      after it, and nothing else moves. */
  lemma SplitKeepsTiled(ns: seq<Node>, n: nat, k: Key, nw: U32)
    requires Tiled(ns) && n < |ns|
    requires Less(ns[n].min, k) && Less(k, ns[n].max)
    ensures SplitNodes(ns, n, k, nw)
      == ns[..n] + [ns[n].(max := k), Node(k, ns[n].max, nw)] + ns[n + 1..]
    ensures Tiled(SplitNodes(ns, n, k, nw))
  {
    OrderedStrict(ns);
    if n + 1 < |ns| {
      Keys.LessIsLex(ns[n].max, ns[n + 1].min);
    }
    Keys.LessEqIsLessOrEq(ns[n].min, k);
    SplitShape(ns, n, k, nw);
    SplitTiled(ns, n, k, nw, SplitNodes(ns, n, k, nw));
  }

  /** The shape of a split of ordered nodes at a key of node n's range,
      k possibly its minimum. */
  lemma SplitNodesShape(ns: seq<Node>, n: nat, k: Key, nw: U32)
    requires Ordered(ns) && n < |ns|
    requires LessEq(ns[n].min, k) && Less(k, ns[n].max)
    ensures SplitNodes(ns, n, k, nw)
      == ns[..n] + [ns[n].(max := k), Node(k, ns[n].max, nw)] + ns[n + 1..]
  {
    OrderedStrict(ns);
    if n + 1 < |ns| {
      Keys.LessIsLex(ns[n].max, ns[n + 1].min);
    }
    SplitShape(ns, n, k, nw);
  }

  /** The shape of the table after a split at a key k not below node n's
      minimum (k may equal it: the split then leaves node n empty). */
  lemma SplitShape(ns: seq<Node>, n: nat, k: Key, nw: U32)
    requires StrictByMin(ns) && n < |ns|
    requires LessEq(ns[n].min, k) && (n + 1 < |ns| ==> Less(k, ns[n + 1].min))
    ensures SplitNodes(ns, n, k, nw)
      == ns[..n] + [ns[n].(max := k), Node(k, ns[n].max, nw)] + ns[n + 1..]
  {
    var x := Node(k, ns[n].max, nw);
    LessNotGe(k, ns[n].min);
    SortAppend(ns, x);
    SortStrictIdentity(ns);
    InsertAfter(ns, x, n);
    SetMax(ns, n, x, k);
  }

  lemma SetMax(ns: seq<Node>, n: nat, x: Node, k: Key)
    requires n < |ns|
    ensures var a := ns[..n + 1] + [x] + ns[n + 1..];
      a[n := a[n].(max := k)] == ns[..n] + [ns[n].(max := k), x] + ns[n + 1..]
  {
    var a := ns[..n + 1] + [x] + ns[n + 1..];
    assert a[n] == ns[n];
  }

  lemma SplitTiled(ns: seq<Node>, n: nat, k: Key, nw: U32, r: seq<Node>)
    requires Tiled(ns) && n < |ns|
    requires Less(ns[n].min, k) && Less(k, ns[n].max)
    requires r == ns[..n] + [ns[n].(max := k), Node(k, ns[n].max, nw)] + ns[n + 1..]
    ensures Tiled(r)
  {
    forall i | 0 <= i < |r|
      ensures Less(r[i].min, r[i].max)
    {
      SplitAt(ns, n, k, nw, r, i);
    }
    forall i | 0 < i < |r|
      ensures Less(r[i - 1].min, r[i].min) && Eq(r[i - 1].max, r[i].min)
    {
      SplitPair(ns, n, k, nw, r, i);
    }
  }

  /** Node i of the split table: one of ns, or one of the two halves. */
  lemma SplitAt(ns: seq<Node>, n: nat, k: Key, nw: U32, r: seq<Node>, i: nat)
    requires Ordered(ns) && n < |ns| && i < |ns| + 1
    requires Less(ns[n].min, k) && Less(k, ns[n].max)
    requires r == ns[..n] + [ns[n].(max := k), Node(k, ns[n].max, nw)] + ns[n + 1..]
    ensures i < n ==> r[i] == ns[i]
    ensures i == n ==> r[i] == ns[n].(max := k)
    ensures i == n + 1 ==> r[i] == Node(k, ns[n].max, nw)
    ensures n + 1 < i ==> r[i] == ns[i - 1]
    ensures Less(r[i].min, r[i].max)
  {
  }

  lemma SplitPair(ns: seq<Node>, n: nat, k: Key, nw: U32, r: seq<Node>, i: nat)
    requires Ordered(ns) && n < |ns| && 0 < i < |ns| + 1
    requires Less(ns[n].min, k) && Less(k, ns[n].max)
    requires r == ns[..n] + [ns[n].(max := k), Node(k, ns[n].max, nw)] + ns[n + 1..]
    ensures Less(r[i - 1].min, r[i].min) && Eq(r[i - 1].max, r[i].min)
  {
    SplitAt(ns, n, k, nw, r, i - 1);
    SplitAt(ns, n, k, nw, r, i);
    if i == n + 1 {
      Keys.LessIsLex(k, k);
    } else if i == n + 2 {
      Keys.LessIsLex(ns[n].max, ns[n + 1].min);
    }
  }

  /** After a split of node n at k (k in [min_n, max_n)), a key node n
      covered is found in node n below k and in the new node n + 1 from k
      on: the nodes before n are unchanged and did not cover it. */
  lemma LookupAfterSplit(ns: seq<Node>, n: nat, k: Key, nw: U32, key: Key)
    requires Ordered(ns) && n < |ns| && LookupNode(ns, key) == n
    requires LessEq(ns[n].min, k) && Less(k, ns[n].max)
    ensures LookupNode(SplitNodes(ns, n, k, nw), key) == if Less(key, k) then n else n + 1
  {
    OrderedStrict(ns);
    if n + 1 < |ns| {
      Keys.LessIsLex(ns[n].max, ns[n + 1].min);
    }
    SplitShape(ns, n, k, nw);
    LookupInSplit(ns, n, k, nw, key, SplitNodes(ns, n, k, nw));
  }

  lemma LookupInSplit(ns: seq<Node>, n: nat, k: Key, nw: U32, key: Key, r: seq<Node>)
    requires n < |ns| && LookupNode(ns, key) == n && LessEq(ns[n].min, k)
    requires r == ns[..n] + [ns[n].(max := k), Node(k, ns[n].max, nw)] + ns[n + 1..]
    ensures LookupNode(r, key) == if Less(key, k) then n else n + 1
  {
    assert forall j :: 0 <= j < n ==> r[j] == ns[j];
    assert r[n] == ns[n].(max := k);
    LessNotGe(key, k);
    if Less(key, k) {
      FindNodeAt(r, key, n);
    } else {
      assert r[n + 1] == Node(k, ns[n].max, nw);
      FindNodeAt(r, key, n + 1);
    }
  }

  /** The lookup lands on i when i covers the key and no earlier node does. */
  lemma FindNodeAt(ns: seq<Node>, key: Key, i: nat)
    requires i < |ns| && Covers(ns[i], key)
    requires forall j :: 0 <= j < i ==> !Covers(ns[j], key)
    ensures LookupNode(ns, key) == i
  {
  }

  // ---------------------------------------------------------------------
  // serialize / unserialize: a 32-bit count, then the packed nodes

  /** sizeof(Node) in the packed layout: min, max, dnsblock_id. */
  const NodeSize: nat := 2 * KeySize + 4

  function NodeBytes(n: Node): (b: seq<Byte>)
    ensures |b| == NodeSize
  {
    n.min + n.max + U32Bytes(n.id)
  }

  function NodesBytes(ns: seq<Node>): (b: seq<Byte>)
    ensures |b| == NodeSize * |ns|
  {
    if ns == [] then [] else NodeBytes(ns[0]) + NodesBytes(ns[1..])
  }

  /** serialize's file: nodes.size() as a uint32_t, then each node. */
  function IndexBytes(ns: seq<Node>): (b: seq<Byte>)
    ensures |b| == 4 + NodeSize * |ns|
  {
    U32Bytes(|ns| % 0x1_0000_0000) + NodesBytes(ns)
  }

  /** A node read back from its 74 bytes; None when a key field is not a
      zero-padded key. */
  function NodeOf(b: seq<Byte>): (o: Option<Node>)
    requires |b| == NodeSize
  {
    var lo, hi := b[..KeySize], b[KeySize..2 * KeySize];
    if ZeroPadded(lo) && ZeroPadded(hi) then
      Some(Node(lo, hi, U32Of(b[2 * KeySize..])))
    else None
  }

  function NodesOf(b: seq<Byte>, count: nat): (o: Option<seq<Node>>)
    requires |b| == NodeSize * count
    ensures o.Some? ==> |o.value| == count
  {
    if count == 0 then Some([])
    else
      match NodeOf(b[..NodeSize])
      case None => None
      case Some(n) =>
        match NodesOf(b[NodeSize..], count - 1)
        case None => None
        case Some(rest) => Some([n] + rest)
  }

  /** unserialize's reading: the count, then that many nodes; None when the
      file is shorter than the count says or holds something that is not
      a key. */
  function ParseIndex(b: seq<Byte>): Option<seq<Node>>
  {
    if |b| < 4 then None
    else
      var count := U32Of(b[..4]);
      if |b| < 4 + NodeSize * count then None
      else NodesOf(b[4..4 + NodeSize * count], count)
  }

  lemma NodeRoundTrip(n: Node)
    ensures NodeOf(NodeBytes(n)) == Some(n)
  {
    var b := NodeBytes(n);
    assert b[..KeySize] == n.min;
    assert b[KeySize..2 * KeySize] == n.max;
    assert b[2 * KeySize..] == U32Bytes(n.id);
    U32RoundTrip(n.id);
  }

  lemma {:induction false} NodesRoundTrip(ns: seq<Node>)
    ensures NodesOf(NodesBytes(ns), |ns|) == Some(ns)
  {
    if ns != [] {
      var b := NodesBytes(ns);
      assert b[..NodeSize] == NodeBytes(ns[0]);
      assert b[NodeSize..] == NodesBytes(ns[1..]);
      NodeRoundTrip(ns[0]);
      NodesRoundTrip(ns[1..]);
      assert [ns[0]] + ns[1..] == ns;
    }
  }

  /** Reading back what serialize wrote gives the same table, for every
      table whose size fits the 32-bit count. */
  lemma IndexRoundTrip(ns: seq<Node>)
    requires |ns| < 0x1_0000_0000
    ensures ParseIndex(IndexBytes(ns)) == Some(ns)
  {
    var b := IndexBytes(ns);
    assert b[..4] == U32Bytes(|ns|);
    U32RoundTrip(|ns|);
    assert b[4..4 + NodeSize * |ns|] == NodesBytes(ns);
    NodesRoundTrip(ns);
  }

  /** The largest id of the table, 0 for an empty one; unserialize's
      current_id is one more (NextId). */
  function MaxId(ns: seq<Node>): (m: U32)
    ensures forall i :: 0 <= i < |ns| ==> ns[i].id <= m
    ensures ns == [] ==> m == 0
  {
    if ns == [] then 0
    else
      var m := MaxId(ns[..|ns| - 1]);
      if ns[|ns| - 1].id > m then ns[|ns| - 1].id else m
  }

  /** Unless some node has the largest unsigned id, the next id is above
      every id of the table; it is 0 only after that wrap-around. */
  function NextId(ns: seq<Node>): (r: U32)
    ensures MaxId(ns) < 0xFFFF_FFFF ==> forall i :: 0 <= i < |ns| ==> ns[i].id < r
    ensures r == 0 <==> MaxId(ns) == 0xFFFF_FFFF
  {
    (MaxId(ns) + 1) % 0x1_0000_0000
  }

  // ---------------------------------------------------------------------
  // check(): the first two loops

  /** What check() prints a line for: a node whose range is empty, and a
      node out of order with (or not starting where ends) its predecessor. */
  datatype TableError = EmptyRange(at: nat) | OutOfOrder(at: nat)

  function RangeErrors(ns: seq<Node>, i: nat): seq<TableError>
    requires i <= |ns|
    decreases |ns| - i
  {
    if i == |ns| then []
    else (if !Less(ns[i].min, ns[i].max) then [EmptyRange(i)] else []) + RangeErrors(ns, i + 1)
  }

  function OrderErrors(ns: seq<Node>, i: nat): seq<TableError>
    requires 1 <= i <= |ns| || (i == 1 && ns == [])
    decreases |ns| - i
  {
    if i >= |ns| then []
    else
      (if !Less(ns[i - 1].min, ns[i].min) || !Eq(ns[i - 1].max, ns[i].min) then [OutOfOrder(i)] else [])
      + OrderErrors(ns, i + 1)
  }

  /** The table part of check(): the range loop's reports, then the order
      loop's. */
  function TableErrors(ns: seq<Node>): seq<TableError>
  {
    RangeErrors(ns, 0) + OrderErrors(ns, 1)
  }

  lemma {:induction false} RangeErrorsSpec(ns: seq<Node>, i: nat)
    requires i <= |ns|
    ensures RangeErrors(ns, i) == [] <==> forall j :: i <= j < |ns| ==> Less(ns[j].min, ns[j].max)
    ensures forall e :: e in RangeErrors(ns, i) ==> e.EmptyRange? && i <= e.at < |ns| && !Less(ns[e.at].min, ns[e.at].max)
    decreases |ns| - i
  {
    if i < |ns| {
      RangeErrorsSpec(ns, i + 1);
    }
  }

  lemma {:induction false} OrderErrorsSpec(ns: seq<Node>, i: nat)
    requires 1 <= i <= |ns| || (i == 1 && ns == [])
    ensures OrderErrors(ns, i) == [] <==>
      forall j :: i <= j < |ns| ==> Less(ns[j - 1].min, ns[j].min) && Eq(ns[j - 1].max, ns[j].min)
    ensures forall e :: e in OrderErrors(ns, i) ==> e.OutOfOrder? && i <= e.at < |ns|
    decreases |ns| - i
  {
    if i < |ns| {
      OrderErrorsSpec(ns, i + 1);
    }
  }

  /** check() prints nothing about the table exactly when it is ordered. */
  lemma TableErrorsSpec(ns: seq<Node>)
    ensures TableErrors(ns) == [] <==> Ordered(ns)
  {
    RangeErrorsSpec(ns, 0);
    OrderErrorsSpec(ns, 1);
  }
}
