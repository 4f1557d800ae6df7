/** Code assignment, assign_codes (huffman.c:57-72) and its call on the root
    (huffman.c:117-119). */
module CodeAssign {
  import opened Common
  import opened Trees
  import opened Frequency
  import opened TreeBuild

  /** assign_codes(node, codes, temp, len), with `path` the first `len` bits
      of `temp`: a leaf stores the path as its symbol's code; an inner node
      labels its left subtree with 0 and then its right subtree with 1. The
      path buffer has MAX_CODE_LEN cells and `temp[len]` is written at every
      node, so every path the recursion reaches must stay below that. */
  function AssignCodes(t: Tree, path: Code, table: seq<Code>): (r: seq<Code>)
    requires |table| == SymbolCount
    requires |path| + Depth(t) < MaxCodeLen
    ensures |r| == SymbolCount
    decreases t
  {
    match t
    case Leaf(v, _) => table[v := path]
    case Node(_, left, right) => AssignCodes(right, path + [1], AssignCodes(left, path + [0], table))
  }

  /** `BitCode table[SYMBOL_COUNT] = {0}` followed by
      `if (root) assign_codes(root, table, buffer, 0)`. */
  function CodeTable(root: Option<Tree>): (table: seq<Code>)
    requires root.Some? ==> Depth(root.value) < MaxCodeLen
    ensures |table| == SymbolCount
  {
    var empty := Repeat([], SymbolCount);
    if root.None? then empty else AssignCodes(root.value, [], empty)
  }

  /** The code table the encoder derives from a frequency table. */
  function HuffmanCodes(freq: seq<nat>): (table: seq<Code>)
    requires |freq| == SymbolCount
    ensures |table| == SymbolCount
  {
    HuffmanTreeDepth(freq);
    CodeTable(HuffmanTree(freq))
  }

  /** Each symbol of the subtree receives `path` followed by its own path
      below the subtree. */
  lemma {:induction false} AssignCodesPaths(t: Tree, path: Code, table: seq<Code>, v: Byte)
    requires |table| == SymbolCount && |path| + Depth(t) < MaxCodeLen
    requires v in Symbols(t)
    ensures var r := AssignCodes(t, path, table);
      |r[v]| >= |path| && r[v][..|path|] == path && LeadsTo(t, r[v][|path|..], v)
    decreases t
  {
    match t
    case Leaf(w, _) =>
    case Node(_, left, right) =>
      var mid := AssignCodes(left, path + [0], table);
      var r := AssignCodes(right, path + [1], mid);
      if v in Symbols(right) {
        AssignCodesPaths(right, path + [1], mid, v);
        ExtendPath(t, path, 1, r[v], v);
      } else {
        AssignCodesPaths(left, path + [0], table, v);
        AssignCodesKeeps(right, path + [1], mid, v);
        ExtendPath(t, path, 0, r[v], v);
      }
  }

  /** A code that starts with `path + [b]` and continues with a path from
      the child on `b` continues after `path` with a path from the node.
      This is LeadsTo's Node case on the suffix; it is a helper of
      AssignCodesPaths, where it keeps the sequence slicing out of that proof. */
  lemma ExtendPath(t: Tree, path: Code, b: Bit, c: Code, v: Byte)
    requires t.Node? && |c| >= |path| + 1 && c[..|path| + 1] == path + [b]
    requires LeadsTo(if b == 1 then t.right else t.left, c[|path| + 1..], v)
    ensures c[..|path|] == path && LeadsTo(t, c[|path|..], v)
  {
    assert c[|path|] == c[..|path| + 1][|path|] == b;
    assert c[|path|..][1..] == c[|path| + 1..];
  }

  /** Entries of symbols outside the subtree are left as they were. */
  lemma {:induction false} AssignCodesKeeps(t: Tree, path: Code, table: seq<Code>, v: Byte)
    requires |table| == SymbolCount && |path| + Depth(t) < MaxCodeLen
    requires v !in Symbols(t)
    ensures AssignCodes(t, path, table)[v] == table[v]
    decreases t
  {
    match t
    case Leaf(w, _) =>
    case Node(_, left, right) =>
      AssignCodesKeeps(left, path + [0], table, v);
      AssignCodesKeeps(right, path + [1], AssignCodes(left, path + [0], table), v);
  }

  /** Used symbols get the path to their leaf; unused symbols keep the
      zero-length entry of the initial table. */
  lemma HuffmanCodesLead(freq: seq<nat>, v: Byte)
    requires |freq| == SymbolCount
    ensures freq[v] != 0 ==> HuffmanTree(freq).Some? && LeadsTo(HuffmanTree(freq).value, HuffmanCodes(freq)[v], v)
    ensures freq[v] == 0 ==> HuffmanCodes(freq)[v] == []
  {
    HuffmanTreeExists(freq);
    HuffmanTreeDepth(freq);
    UsedSymbolsExactly(freq, SymbolCount, v);
    var root := HuffmanTree(freq);
    if root.Some? {
      HuffmanTreeContents(freq);
      if freq[v] != 0 {
        AssignCodesPaths(root.value, [], Repeat([], SymbolCount), v);
        var code := HuffmanCodes(freq)[v];
        assert code[0..] == code;
      } else {
        AssignCodesKeeps(root.value, [], Repeat([], SymbolCount), v);
      }
    }
  }

  /** No used symbol's code is a prefix of another used symbol's code, and
      distinct used symbols have distinct codes. */
  lemma HuffmanCodesPrefixFree(freq: seq<nat>, u: Byte, v: Byte, q: Code)
    requires |freq| == SymbolCount && freq[u] != 0 && freq[v] != 0
    requires HuffmanCodes(freq)[v] == HuffmanCodes(freq)[u] + q
    ensures u == v && q == []
  {
    HuffmanCodesLead(freq, u);
    HuffmanCodesLead(freq, v);
    LeafPathsPrefixFree(HuffmanTree(freq).value, HuffmanCodes(freq)[u], q, u, v);
  }

  /** Every code is shorter than MAX_CODE_LEN, so `temp` and `bits` never
      overflow. */
  lemma HuffmanCodesFit(freq: seq<nat>, v: Byte)
    requires |freq| == SymbolCount
    ensures |HuffmanCodes(freq)[v]| < MaxCodeLen
  {
    HuffmanCodesLead(freq, v);
    HuffmanTreeDepth(freq);
    if freq[v] != 0 {
      LeadsToLeaf(HuffmanTree(freq).value, HuffmanCodes(freq)[v], v);
    }
  }

  /** With at most one used symbol every code is empty (a root that is a leaf
      gets length 0); with two or more, every used symbol gets at least one bit. */
  lemma HuffmanCodesLength(freq: seq<nat>, v: Byte)
    requires |freq| == SymbolCount
    ensures |UsedSymbols(freq, SymbolCount)| <= 1 ==> HuffmanCodes(freq)[v] == []
    ensures |UsedSymbols(freq, SymbolCount)| >= 2 && freq[v] != 0 ==> |HuffmanCodes(freq)[v]| >= 1
  {
    HuffmanCodesLead(freq, v);
    if freq[v] != 0 {
      var t := HuffmanTree(freq).value;
      HuffmanTreeContents(freq);
      SymbolCountOfShape(t);
    }
  }
}
