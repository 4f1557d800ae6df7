/** The Huffman tree (HuffNode, huffman.c:9-13). */
module Trees {
  import opened Common

  /** A tree node. `Leaf` is a node whose two child pointers are NULL and whose
      `value` is the symbol; `Node` is a node built by merging two others (its
      `value` field is set to 0 and never read, so it is not kept here). */
  datatype Tree = Leaf(value: Byte, count: nat) | Node(count: nat, left: Tree, right: Tree)

  /** The child pointer followed on `bit` (1 = right, 0 = left); NULL below a leaf. */
  function Child(t: Tree, bit: Bit): (c: Option<Tree>)
    ensures c.Some? <==> t.Node?
  {
    match t
    case Leaf(_, _) => None
    case Node(_, l, r) => Some(if bit == 1 then r else l)
  }

  /** The symbols of the leaves, one occurrence per leaf. */
  function Symbols(t: Tree): multiset<Byte>
  {
    match t
    case Leaf(v, _) => multiset{v}
    case Node(_, l, r) => Symbols(l) + Symbols(r)
  }

  /** Number of edges on the longest root-to-leaf path. */
  function Depth(t: Tree): nat
  {
    match t
    case Leaf(_, _) => 0
    case Node(_, l, r) => 1 + (if Depth(l) < Depth(r) then Depth(r) else Depth(l))
  }

  /** Every merged node weighs the sum of its two children. */
  ghost predicate WellWeighted(t: Tree)
  {
    match t
    case Leaf(_, _) => true
    case Node(c, l, r) => c == l.count + r.count && WellWeighted(l) && WellWeighted(r)
  }

  /** Every leaf carries the nonzero frequency of its symbol. */
  ghost predicate LeavesMatch(t: Tree, freq: seq<nat>)
    requires |freq| == SymbolCount
  {
    match t
    case Leaf(v, c) => c == freq[v] && c != 0
    case Node(_, l, r) => LeavesMatch(l, freq) && LeavesMatch(r, freq)
  }

  /** Following `path` from `t`, one child per bit, ends exactly at a leaf holding `v`. */
  ghost predicate LeadsTo(t: Tree, path: Code, v: Byte)
    decreases t
  {
    match t
    case Leaf(w, _) => path == [] && w == v
    case Node(_, l, r) => path != [] && LeadsTo(if path[0] == 1 then r else l, path[1..], v)
  }

  /** The symbol of the leaf reached by always going left. */
  function Leftmost(t: Tree): Byte
  {
    match t
    case Leaf(v, _) => v
    case Node(_, l, _) => Leftmost(l)
  }

  /** The length of the all-left path from `t` to its leftmost leaf. */
  function LeftDepth(t: Tree): (d: nat)
    ensures d <= Depth(t)
    ensures d == 0 <==> t.Leaf?
  {
    match t
    case Leaf(_, _) => 0
    case Node(_, l, _) => 1 + LeftDepth(l)
  }

  /** The node `k` steps down the all-left path. */
  function LeftPath(t: Tree, k: nat): (n: Tree)
    requires k <= LeftDepth(t)
    ensures LeftDepth(n) == LeftDepth(t) - k
    ensures Leftmost(n) == Leftmost(t)
  {
    if k == 0 then t else LeftPath(t.left, k - 1)
  }

  /** The all-left walk ends at one of the tree's own leaves. */
  lemma {:induction false} LeftmostIsSymbol(t: Tree)
    ensures Leftmost(t) in Symbols(t)
  {
    match t
    case Leaf(_, _) =>
    case Node(_, l, _) => LeftmostIsSymbol(l);
  }

  /** A leaf holds one symbol; a merged node holds at least two. */
  lemma SymbolCountOfShape(t: Tree)
    ensures t.Leaf? <==> |Symbols(t)| == 1
    ensures t.Node? <==> |Symbols(t)| >= 2
  {
    if t.Node? {
      LeftmostIsSymbol(t.left);
      LeftmostIsSymbol(t.right);
      assert |Symbols(t)| == |Symbols(t.left)| + |Symbols(t.right)|;
    }
  }

  /** A path that leads to `v` ends at one of the tree's leaves and is no
      longer than the tree is deep. */
  lemma {:induction false} LeadsToLeaf(t: Tree, path: Code, v: Byte)
    requires LeadsTo(t, path, v)
    ensures v in Symbols(t)
    ensures |path| <= Depth(t)
    decreases t
  {
    match t
    case Leaf(_, _) =>
    case Node(_, l, r) =>
      LeadsToLeaf(if path[0] == 1 then r else l, path[1..], v);
  }

  /** A full binary tree with n leaves is at most n - 1 deep. */
  lemma {:induction false} DepthBelowLeafCount(t: Tree)
    ensures Depth(t) < |Symbols(t)|
  {
    match t
    case Leaf(_, _) =>
    case Node(_, l, r) =>
      DepthBelowLeafCount(l);
      DepthBelowLeafCount(r);
      assert |Symbols(t)| == |Symbols(l)| + |Symbols(r)|;
  }

  /** A path that ends at a leaf cannot be extended: no leaf path is a proper
      prefix of another, and equal paths reach the same leaf. */
  lemma {:induction false} LeafPathsPrefixFree(t: Tree, p: Code, q: Code, u: Byte, v: Byte)
    requires LeadsTo(t, p, u) && LeadsTo(t, p + q, v)
    ensures q == [] && u == v
    decreases t
  {
    match t
    case Leaf(_, _) =>
      assert p == [];
      assert p + q == q;
    case Node(_, l, r) =>
      assert (p + q)[0] == p[0] && (p + q)[1..] == p[1..] + q;
      LeafPathsPrefixFree(if p[0] == 1 then r else l, p[1..], q, u, v);
  }

  /** The all-zero path of length LeftDepth(t) leads to the leftmost leaf. */
  lemma {:induction false} ZerosLeadToLeftmost(t: Tree)
    ensures LeadsTo(t, Zeros(LeftDepth(t)), Leftmost(t))
  {
    match t
    case Leaf(_, _) =>
    case Node(_, l, _) =>
      ZerosLeadToLeftmost(l);
      assert Zeros(LeftDepth(t))[1..] == Zeros(LeftDepth(l));
  }
}
