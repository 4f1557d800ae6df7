/** Tree construction (huffman.c:94-115, repeated for decoding at 181-202):
    one leaf per used symbol is inserted in ascending symbol order, then the
    two nodes that heap_remove_min hands out are merged, first one on the
    left, until at most one node is left. */
module TreeBuild {
  import opened Common
  import opened Trees
  import opened MinHeap
  import opened Frequency

  /** The occupied heap after the leaf loop has looked at symbols 0 .. i-1. */
  function LeafPhase(freq: seq<nat>, i: nat): (s: seq<Tree>)
    requires |freq| == SymbolCount && i <= SymbolCount
    ensures |s| <= i
  {
    if i == 0 then []
    else if freq[i - 1] != 0 then Inserted(LeafPhase(freq, i - 1), Leaf(i - 1, freq[i - 1]))
    else LeafPhase(freq, i - 1)
  }

  /** Symbols with a zero frequency add nothing to the heap. */
  lemma {:induction false} LeafPhaseSkipsZeros(freq: seq<nat>, i: nat, j: nat)
    requires |freq| == SymbolCount && i <= j <= SymbolCount
    requires forall k :: i <= k < j ==> freq[k] == 0
    ensures LeafPhase(freq, j) == LeafPhase(freq, i)
    decreases j
  {
    if i < j {
      LeafPhaseSkipsZeros(freq, i, j - 1);
    }
  }

  /** One turn of the merge loop: remove a, remove b, insert a new node over
      them with a on the left. */
  function MergeStep(s: seq<Tree>): (r: seq<Tree>)
    requires |s| >= 2
    ensures |r| == |s| - 1
  {
    var first := RemovedMin(s);
    var second := RemovedMin(first.1);
    Inserted(second.1, Node(first.0.count + second.0.count, first.0, second.0))
  }

  /** The merge loop `while (h.count > 1)`: it ends with one node exactly when
      it starts with at least one. */
  function Merge(s: seq<Tree>): (r: seq<Tree>)
    ensures |r| == if |s| == 0 then 0 else 1
    decreases |s|
  {
    if |s| <= 1 then s else Merge(MergeStep(s))
  }

  /** The root the build yields from a frequency table; None is the NULL root. */
  function HuffmanTree(freq: seq<nat>): (r: Option<Tree>)
    requires |freq| == SymbolCount
    ensures r.None? <==> LeafPhase(freq, SymbolCount) == []
    ensures r.Some? ==> Merge(LeafPhase(freq, SymbolCount)) == [r.value]
  {
    var s := Merge(LeafPhase(freq, SymbolCount));
    if |s| == 0 then None else Some(RemovedMin(s).0)
  }

  // ---------------------------------------------------------------------
  // What a heap of subtrees holds, regardless of its order
  // ---------------------------------------------------------------------

  /** The leaf symbols of all the subtrees in a heap. */
  function ForestSymbols(s: seq<Tree>): multiset<Byte>
  {
    if s == [] then multiset{} else ForestSymbols(s[..|s| - 1]) + Symbols(s[|s| - 1])
  }

  /** The total weight of all the subtrees in a heap. */
  function ForestWeight(s: seq<Tree>): nat
  {
    if s == [] then 0 else ForestWeight(s[..|s| - 1]) + s[|s| - 1].count
  }

  /** One unfolding of ForestSymbols, stated apart so that the proof below
      sees only this instance. */
  lemma ForestSymbolsSnoc(s: seq<Tree>)
    requires s != []
    ensures ForestSymbols(s) == ForestSymbols(s[..|s| - 1]) + Symbols(s[|s| - 1])
  {
  }

  lemma {:induction false} ForestSymbolsConcat(a: seq<Tree>, b: seq<Tree>)
    ensures ForestSymbols(a + b) == ForestSymbols(a) + ForestSymbols(b)
    decreases |b|
  {
    if b == [] {
      assert a + b == a;
    } else {
      var n := |b| - 1;
      ForestSymbolsConcat(a, b[..n]);
      var ab := a + b;
      assert ab[..|ab| - 1] == a + b[..n];
      assert ab[|ab| - 1] == b[n];
      ForestSymbolsSnoc(ab);
      ForestSymbolsSnoc(b);
      var x, y, z := ForestSymbols(a), ForestSymbols(b[..n]), Symbols(b[n]);
      assert ForestSymbols(ab) == (x + y) + z;
      assert ForestSymbols(b) == y + z;
      assert (x + y) + z == x + (y + z);
    }
  }

  lemma {:induction false} ForestWeightConcat(a: seq<Tree>, b: seq<Tree>)
    ensures ForestWeight(a + b) == ForestWeight(a) + ForestWeight(b)
    decreases |b|
  {
    if b == [] {
      assert a + b == a;
    } else {
      var n := |b| - 1;
      ForestWeightConcat(a, b[..n]);
      var ab := a + b;
      assert ab[..|ab| - 1] == a + b[..n];
      assert ab[|ab| - 1] == b[n];
    }
  }

  lemma ForestConcat(a: seq<Tree>, b: seq<Tree>)
    ensures ForestSymbols(a + b) == ForestSymbols(a) + ForestSymbols(b)
    ensures ForestWeight(a + b) == ForestWeight(a) + ForestWeight(b)
  {
    ForestSymbolsConcat(a, b);
    ForestWeightConcat(a, b);
  }

  /** Taking one subtree out of the middle of a heap. */
  lemma ForestSymbolsRemove(a: seq<Tree>, x: Tree, b: seq<Tree>)
    ensures ForestSymbols(a + [x] + b) == ForestSymbols(a + b) + Symbols(x)
  {
    ForestSymbolsConcat(a + [x], b);
    ForestSymbolsConcat(a, [x]);
    ForestSymbolsConcat(a, b);
    assert [x][..0] == [];
  }

  lemma ForestWeightRemove(a: seq<Tree>, x: Tree, b: seq<Tree>)
    ensures ForestWeight(a + [x] + b) == ForestWeight(a + b) + x.count
  {
    ForestWeightConcat(a + [x], b);
    ForestWeightConcat(a, [x]);
    ForestWeightConcat(a, b);
    assert [x][..0] == [];
  }

  /** Reordering the heap changes neither its symbols nor its weight. */
  lemma {:induction false} ForestPermutation(s: seq<Tree>, t: seq<Tree>)
    requires multiset(s) == multiset(t)
    ensures ForestSymbols(s) == ForestSymbols(t)
    ensures ForestWeight(s) == ForestWeight(t)
    decreases |s|
  {
    if s == [] {
      assert |t| == |multiset(t)| == 0;
    } else {
      var n := |s| - 1;
      var x := s[n];
      assert s == s[..n] + [x];
      assert x in multiset(t) by {
        assert x in multiset(s);
      }
      var k :| 0 <= k < |t| && t[k] == x;
      var before, after := t[..k], t[k + 1..];
      assert t == before + [x] + after;
      RemoveOne(s[..n], x, before, after);
      ForestPermutation(s[..n], before + after);
      ForestSymbolsRemove(before, x, after);
      ForestWeightRemove(before, x, after);
    }
  }

  /** Taking the same element out of two equal multisets. */
  lemma RemoveOne(s: seq<Tree>, x: Tree, before: seq<Tree>, after: seq<Tree>)
    requires multiset(s + [x]) == multiset(before + [x] + after)
    ensures multiset(s) == multiset(before + after)
  {
    assert multiset(s + [x]) == multiset(s) + multiset{x};
    assert multiset(before + [x] + after) == multiset(before) + multiset{x} + multiset(after);
    assert multiset(before + after) == multiset(before) + multiset(after);
    var m, m' := multiset(s), multiset(before + after);
    assert m + multiset{x} == m' + multiset{x};
    assert m == (m + multiset{x}) - multiset{x};
    assert m' == (m' + multiset{x}) - multiset{x};
  }

  /** Every subtree in the heap is well weighted and its leaves carry their
      frequencies. */
  ghost predicate Wellformed(s: seq<Tree>, freq: seq<nat>)
    requires |freq| == SymbolCount
  {
    forall k :: 0 <= k < |s| ==> WellWeighted(s[k]) && LeavesMatch(s[k], freq)
  }

  lemma WellformedPermutation(s: seq<Tree>, t: seq<Tree>, freq: seq<nat>)
    requires |freq| == SymbolCount
    requires multiset(s) <= multiset(t) && Wellformed(t, freq)
    ensures Wellformed(s, freq)
  {
    forall k | 0 <= k < |s|
      ensures WellWeighted(s[k]) && LeavesMatch(s[k], freq)
    {
      assert s[k] in multiset(t);
    }
  }

  /** Inserting a node adds its symbols and weight to the heap's. */
  lemma InsertedContents(s: seq<Tree>, node: Tree)
    ensures ForestSymbols(Inserted(s, node)) == ForestSymbols(s) + Symbols(node)
    ensures ForestWeight(Inserted(s, node)) == ForestWeight(s) + node.count
    ensures multiset(Inserted(s, node)) == multiset(s + [node])
  {
    InsertedPermutes(s, node);
    ForestPermutation(Inserted(s, node), s + [node]);
    ForestConcat(s, [node]);
    assert [node][..0] == [];
  }

  /** The leaf loop leaves one leaf per used symbol, of total weight the sum of
      the frequencies looked at so far. */
  lemma LeafPhaseContents(freq: seq<nat>, i: nat)
    requires |freq| == SymbolCount && i <= SymbolCount
    ensures Wellformed(LeafPhase(freq, i), freq)
    ensures ForestSymbols(LeafPhase(freq, i)) == UsedSymbols(freq, i)
    ensures ForestWeight(LeafPhase(freq, i)) == Sum(freq[..i])
  {
    LeafPhaseWellformed(freq, i);
    LeafPhaseSymbols(freq, i);
    LeafPhaseWeight(freq, i);
  }

  lemma {:induction false} LeafPhaseWellformed(freq: seq<nat>, i: nat)
    requires |freq| == SymbolCount && i <= SymbolCount
    ensures Wellformed(LeafPhase(freq, i), freq)
  {
    if i > 0 {
      LeafPhaseWellformed(freq, i - 1);
      if freq[i - 1] != 0 {
        var s, leaf := LeafPhase(freq, i - 1), Leaf(i - 1, freq[i - 1]);
        InsertedContents(s, leaf);
        LeafAdded(s, Inserted(s, leaf), leaf, freq);
      }
    }
  }

  lemma {:induction false} LeafPhaseSymbols(freq: seq<nat>, i: nat)
    requires |freq| == SymbolCount && i <= SymbolCount
    ensures ForestSymbols(LeafPhase(freq, i)) == UsedSymbols(freq, i)
  {
    if i > 0 {
      LeafPhaseSymbols(freq, i - 1);
      if freq[i - 1] != 0 {
        InsertedContents(LeafPhase(freq, i - 1), Leaf(i - 1, freq[i - 1]));
      }
    }
  }

  lemma {:induction false} LeafPhaseWeight(freq: seq<nat>, i: nat)
    requires |freq| == SymbolCount && i <= SymbolCount
    ensures ForestWeight(LeafPhase(freq, i)) == Sum(freq[..i])
  {
    if i > 0 {
      LeafPhaseWeight(freq, i - 1);
      SumPrefix(freq, i);
      if freq[i - 1] != 0 {
        InsertedContents(LeafPhase(freq, i - 1), Leaf(i - 1, freq[i - 1]));
      }
    }
  }

  lemma SumPrefix(t: seq<nat>, i: nat)
    requires 0 < i <= |t|
    ensures Sum(t[..i]) == Sum(t[..i - 1]) + t[i - 1]
  {
    assert t[..i][..i - 1] == t[..i - 1];
  }

  /** A heap that holds the nodes of a well-formed heap and one more leaf
      carrying its symbol's frequency is well formed. */
  lemma LeafAdded(s: seq<Tree>, t: seq<Tree>, leaf: Tree, freq: seq<nat>)
    requires |freq| == SymbolCount
    requires leaf.Leaf? && leaf.count == freq[leaf.value] != 0
    requires Wellformed(s, freq) && multiset(t) == multiset(s + [leaf])
    ensures Wellformed(t, freq)
  {
    assert Wellformed(s + [leaf], freq);
    WellformedPermutation(t, s + [leaf], freq);
  }

  /** Taking `m` out of a heap takes its symbols and weight out of the heap's. */
  lemma RemovalContents(s: seq<Tree>, m: Tree, rest: seq<Tree>)
    requires multiset(rest) + multiset{m} == multiset(s)
    ensures ForestSymbols(s) == ForestSymbols(rest) + Symbols(m)
    ensures ForestWeight(s) == ForestWeight(rest) + m.count
  {
    assert multiset(rest + [m]) == multiset(rest) + multiset{m};
    ForestPermutation(s, rest + [m]);
    ForestConcat(rest, [m]);
    assert [m][..0] == [];
  }

  /** The pieces of one merge turn: the two nodes removed, the heaps after
      each removal, and the new node. */
  lemma MergeStepParts(s: seq<Tree>) returns (a: Tree, rest: seq<Tree>, b: Tree, rest': seq<Tree>, node: Tree)
    requires |s| >= 2
    ensures multiset(rest) + multiset{a} == multiset(s)
    ensures multiset(rest') + multiset{b} == multiset(rest)
    ensures node == Node(a.count + b.count, a, b)
    ensures multiset(MergeStep(s)) == multiset(rest') + multiset{node}
  {
    var r1 := RemovedMin(s);
    var r2 := RemovedMin(r1.1);
    a, rest, b, rest' := r1.0, r1.1, r2.0, r2.1;
    node := Node(a.count + b.count, a, b);
    assert multiset(rest) + multiset{a} == multiset(s) by {
      RemovedMinPermutes(s);
    }
    assert multiset(rest') + multiset{b} == multiset(rest) by {
      RemovedMinPermutes(rest);
    }
    assert MergeStep(s) == Inserted(rest', node);
    InsertedPermutes(rest', node);
  }

  /** One merge turn keeps the symbols, the weight and the well-formedness. */
  lemma MergeStepContents(s: seq<Tree>, freq: seq<nat>)
    requires |freq| == SymbolCount && |s| >= 2 && Wellformed(s, freq)
    ensures Wellformed(MergeStep(s), freq)
    ensures ForestSymbols(MergeStep(s)) == ForestSymbols(s)
    ensures ForestWeight(MergeStep(s)) == ForestWeight(s)
  {
    var a, rest, b, rest', node := MergeStepParts(s);
    MergeTotals(s, a, rest, b, rest', node, MergeStep(s));
    MergeWellformed(s, a, rest, b, rest', node, MergeStep(s), freq);
  }

  lemma MergeTotals(s: seq<Tree>, a: Tree, rest: seq<Tree>, b: Tree, rest': seq<Tree>, node: Tree, after: seq<Tree>)
    requires multiset(rest) + multiset{a} == multiset(s)
    requires multiset(rest') + multiset{b} == multiset(rest)
    requires node == Node(a.count + b.count, a, b)
    requires multiset(after) == multiset(rest') + multiset{node}
    ensures ForestSymbols(after) == ForestSymbols(s)
    ensures ForestWeight(after) == ForestWeight(s)
  {
    RemovalContents(s, a, rest);
    RemovalContents(rest, b, rest');
    RemovalContents(after, node, rest');
    var x, y, z := ForestSymbols(rest'), Symbols(a), Symbols(b);
    assert ForestSymbols(s) == (x + z) + y;
    assert ForestSymbols(after) == x + (y + z);
  }

  lemma MergeWellformed(s: seq<Tree>, a: Tree, rest: seq<Tree>, b: Tree, rest': seq<Tree>, node: Tree, after: seq<Tree>, freq: seq<nat>)
    requires |freq| == SymbolCount && Wellformed(s, freq)
    requires multiset(rest) + multiset{a} == multiset(s)
    requires multiset(rest') + multiset{b} == multiset(rest)
    requires node == Node(a.count + b.count, a, b)
    requires multiset(after) == multiset(rest') + multiset{node}
    ensures Wellformed(after, freq)
  {
    forall k | 0 <= k < |after|
      ensures WellWeighted(after[k]) && LeavesMatch(after[k], freq)
    {
      assert after[k] in multiset(after);
      if after[k] != node {
        assert after[k] in multiset(rest');
        assert after[k] in multiset(rest);
        assert after[k] in multiset(s);
      } else {
        assert a in multiset(s);
        assert b in multiset(rest);
        assert b in multiset(s);
      }
    }
  }

  lemma {:induction false} MergeContents(s: seq<Tree>, freq: seq<nat>)
    requires |freq| == SymbolCount && Wellformed(s, freq)
    ensures Wellformed(Merge(s), freq)
    ensures ForestSymbols(Merge(s)) == ForestSymbols(s)
    ensures ForestWeight(Merge(s)) == ForestWeight(s)
    decreases |s|
  {
    if |s| > 1 {
      MergeStepContents(s, freq);
      MergeContents(MergeStep(s), freq);
    }
  }

  /** The heap holds a single node after the merge loop exactly when some
      frequency is nonzero; otherwise the root is NULL. */
  lemma HuffmanTreeExists(freq: seq<nat>)
    requires |freq| == SymbolCount
    ensures HuffmanTree(freq).None? <==> forall b: Byte :: freq[b] == 0
  {
    var leaves := LeafPhase(freq, SymbolCount);
    LeafPhaseContents(freq, SymbolCount);
    MergeContents(leaves, freq);
    var s := Merge(leaves);
    if |s| == 1 {
      LeftmostIsSymbol(s[0]);
      assert s[..0] == [];
      assert Leftmost(s[0]) in ForestSymbols(s);
      UsedSymbolsExactly(freq, SymbolCount, Leftmost(s[0]));
    } else {
      assert leaves == [];
      forall b: Byte
        ensures freq[b] == 0
      {
        UsedSymbolsExactly(freq, SymbolCount, b);
      }
    }
  }

  /** The root is a full binary tree whose merged nodes weigh the sum of their
      children, with one leaf per used symbol carrying its frequency; it
      weighs the sum of all frequencies. */
  lemma HuffmanTreeContents(freq: seq<nat>)
    requires |freq| == SymbolCount && HuffmanTree(freq).Some?
    ensures var t := HuffmanTree(freq).value;
      && WellWeighted(t) && LeavesMatch(t, freq)
      && Symbols(t) == UsedSymbols(freq, SymbolCount)
      && t.count == Sum(freq)
  {
    var leaves := LeafPhase(freq, SymbolCount);
    LeafPhaseContents(freq, SymbolCount);
    MergeContents(leaves, freq);
    assert freq[..SymbolCount] == freq;
    var s := Merge(leaves);
    assert |s| == 1 && s[..0] == [];
    assert ForestSymbols(s) == Symbols(s[0]);
    assert ForestWeight(s) == s[0].count;
  }

  /** Every code is at most 255 bits: the root is at most 255 deep, since a
      full binary tree over at most 256 leaves is. */
  lemma HuffmanTreeDepth(freq: seq<nat>)
    requires |freq| == SymbolCount
    ensures HuffmanTree(freq).Some? ==> Depth(HuffmanTree(freq).value) < MaxCodeLen
  {
    if HuffmanTree(freq).Some? {
      HuffmanTreeContents(freq);
      UsedSymbolsSize(freq, SymbolCount);
      DepthBelowLeafCount(HuffmanTree(freq).value);
    }
  }

  /** The leaf loop of huffman.c:97-101: a fresh heap receives one leaf per
      nonzero frequency, in ascending symbol order. */
  method InsertLeaves(freq: seq<nat>) returns (h: Heap)
    requires |freq| == SymbolCount
    ensures fresh(h) && fresh(h.slots) && h.Valid()
    ensures h.Elems() == LeafPhase(freq, SymbolCount)
  {
    h := new Heap();
    for i := 0 to SymbolCount
      invariant h.Valid() && fresh(h.slots)
      invariant h.Elems() == LeafPhase(freq, i)
    {
      if freq[i] != 0 {
        h.Insert(Leaf(i, freq[i]));
      }
      assert h.Elems() == LeafPhase(freq, i + 1);
    }
  }

  /** One turn of the merge loop (huffman.c:106-112): remove two nodes, and
      insert a new node over them, the first removed on the left. */
  method MergeOnce(h: Heap)
    requires h.Valid() && h.count > 1
    modifies h, h.slots
    ensures h.Valid() && h.Elems() == MergeStep(old(h.Elems()))
  {
    ghost var s := h.Elems();
    var a := h.RemoveMin();
    ghost var rest := h.Elems();
    var b := h.RemoveMin();
    ghost var rest' := h.Elems();
    h.Insert(Node(a.count + b.count, a, b));
    MergeTurn(s, a, rest, b, rest', h.Elems());
  }

  /** One turn of the merge loop, told by what each heap call returned;
      stated apart so that the proof does not see the heap's frame. */
  lemma MergeTurn(s: seq<Tree>, a: Tree, rest: seq<Tree>, b: Tree, rest': seq<Tree>, after: seq<Tree>)
    requires |s| >= 2 && (a, rest) == RemovedMin(s) && (b, rest') == RemovedMin(rest)
    requires after == Inserted(rest', Node(a.count + b.count, a, b))
    ensures after == MergeStep(s)
  {
  }

  /** The merge loop `while (h.count > 1)` of huffman.c:105-113. */
  method MergeAll(h: Heap)
    requires h.Valid()
    modifies h, h.slots
    ensures h.Valid() && h.Elems() == Merge(old(h.Elems()))
  {
    ghost var start := h.Elems();
    while h.count > 1
      invariant h.Valid()
      invariant Merge(h.Elems()) == Merge(start)
      decreases h.count
    {
      ghost var s := h.Elems();
      MergeOnce(h);
      assert Merge(s) == Merge(MergeStep(s));
    }
  }

  /** The build of huffman.c:94-115 (and 181-202) on a heap object: the root
      is the last node left, or NULL when no symbol is used. */
  method BuildTree(freq: seq<nat>) returns (root: Option<Tree>)
    requires |freq| == SymbolCount
    ensures root == HuffmanTree(freq)
    ensures root.None? <==> forall b: Byte :: freq[b] == 0
  {
    var h := InsertLeaves(freq);
    MergeAll(h);
    if h.count > 0 {
      var r := h.RemoveMin();
      root := Some(r);
    } else {
      root := None;
    }
    HuffmanTreeExists(freq);
  }
}
