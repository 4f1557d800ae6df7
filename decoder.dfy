/** The decoding walk (huffman.c:203-216): `current` starts at the root and
    follows one child per payload bit; on reaching a leaf the leaf's symbol
    is written and `current` goes back to the root. */
module Decoder {
  import opened Common
  import opened Trees
  import opened Packing

  /** The decoder between two bits: still running, at node `current` (None
      is a NULL pointer) with `output` written so far, or stopped by a
      dereference of a NULL `current`. */
  datatype Outcome = Crashed | Running(current: Option<Tree>, output: seq<Byte>)

  /** One bit of the walk: `current = bit ? current->right : current->left`,
      then the leaf check. */
  function Step(root: Option<Tree>, o: Outcome, bit: Bit): (r: Outcome)
    ensures r.Crashed? <==> o.Crashed? || o.current.None?
    ensures r.Running? ==> o.output <= r.output && |r.output| <= |o.output| + 1
    ensures r.Running? && |r.output| == |o.output| + 1 ==>
      r.current == root && r.output[|o.output|] in Symbols(o.current.value)
    ensures r.Running? && |r.output| == |o.output| ==> r.current == Child(o.current.value, bit)
  {
    match o
    case Crashed => Crashed
    case Running(current, output) =>
      if current.None? then Crashed
      else
        var next := Child(current.value, bit);
        if next.Some? && next.value.Leaf? then Running(root, output + [next.value.value])
        else Running(next, output)
  }

  /** The walk over a run of bits. */
  function Walk(root: Option<Tree>, o: Outcome, bits: seq<Bit>): (r: Outcome)
    ensures o.Crashed? ==> r.Crashed?
    ensures r.Running? ==> o.output <= r.output && |r.output| <= |o.output| + |bits|
    decreases |bits|
  {
    if bits == [] then o else Walk(root, Step(root, o, bits[0]), bits[1..])
  }

  /** The decoding of a whole payload from the root. */
  function Decode(root: Option<Tree>, payload: seq<Byte>): (r: Outcome)
    ensures root.None? ==> (r.Crashed? <==> payload != [])
    ensures r.Running? ==> |r.output| <= 8 * |payload|
  {
    Walk(root, Running(root, []), Unpacked(payload))
  }

  lemma {:induction false} WalkConcat(root: Option<Tree>, o: Outcome, a: seq<Bit>, b: seq<Bit>)
    ensures Walk(root, o, a + b) == Walk(root, Walk(root, o, a), b)
    decreases |a|
  {
    if a == [] {
      assert a + b == b;
    } else {
      assert (a + b)[0] == a[0] && (a + b)[1..] == a[1..] + b;
      WalkConcat(root, Step(root, o, a[0]), a[1..], b);
    }
  }

  lemma WalkSnoc(root: Option<Tree>, o: Outcome, a: seq<Bit>, x: Bit)
    ensures Walk(root, o, a + [x]) == Step(root, Walk(root, o, a), x)
  {
    WalkConcat(root, o, a, [x]);
  }

  /** huffman.c:205-216 over a payload. A NULL dereference ends the run: the
      remaining bits are still read but change nothing. */
  method DecodePayload(root: Option<Tree>, payload: seq<Byte>) returns (o: Outcome)
    ensures o == Decode(root, payload)
  {
    var current := root;
    var output: seq<Byte> := [];
    var crashed := false;
    for j := 0 to |payload|
      invariant Walk(root, Running(root, []), Unpacked(payload[..j])) == if crashed then Crashed else Running(current, output)
    {
      var ch := payload[j];
      UnpackedSnoc(payload, j);
      WalkConcat(root, Running(root, []), Unpacked(payload[..j]), ByteBits(ch));
      current, output, crashed := DecodeByte(root, ch, current, output, crashed);
    }
    assert payload[..|payload|] == payload;
    o := if crashed then Crashed else Running(current, output);
  }

  /** The bit loop of huffman.c:208-215 on one payload byte, from bit 7 down
      to bit 0, continuing from the walk's state before the byte. */
  method DecodeByte(root: Option<Tree>, ch: Byte, current0: Option<Tree>, output0: seq<Byte>, crashed0: bool)
    returns (current: Option<Tree>, output: seq<Byte>, crashed: bool)
    ensures (if crashed then Crashed else Running(current, output))
      == Walk(root, if crashed0 then Crashed else Running(current0, output0), ByteBits(ch))
  {
    current, output, crashed := current0, output0, crashed0;
    ghost var start := if crashed0 then Crashed else Running(current0, output0);
    assert ByteBits(ch)[..0] == [];
    var i: int := 7;
    while i >= 0
      invariant -1 <= i <= 7
      invariant Walk(root, start, ByteBits(ch)[..7 - i]) == if crashed then Crashed else Running(current, output)
    {
      var bit := BitAt(ch, i);
      ByteBitsPrefix(ch, i);
      WalkSnoc(root, start, ByteBits(ch)[..7 - i], bit);
      if !crashed {
        if current.None? {
          crashed := true;
        } else {
          current := Child(current.value, bit);
          if current.Some? && current.value.Leaf? {
            output := output + [current.value.value];
            current := root;
          }
        }
      }
      i := i - 1;
    }
    assert ByteBits(ch)[..8] == ByteBits(ch);
  }

  /** The payload read up to byte `j`, then byte `j`. */
  lemma UnpackedSnoc(payload: seq<Byte>, j: nat)
    requires j < |payload|
    ensures Unpacked(payload[..j + 1]) == Unpacked(payload[..j]) + ByteBits(payload[j])
  {
    assert payload[..j + 1] == payload[..j] + [payload[j]];
    UnpackedConcat(payload[..j], [payload[j]]);
    assert Unpacked([payload[j]]) == ByteBits(payload[j]) + Unpacked([]);
  }

  /** Reading bit `i` of a byte, from bit 7 down, extends the bits read so far. */
  lemma ByteBitsPrefix(ch: Byte, i: nat)
    requires i < 8
    ensures ByteBits(ch)[..8 - i] == ByteBits(ch)[..7 - i] + [BitAt(ch, i)]
  {
  }

  // ---------------------------------------------------------------------
  // What the walk does on a tree with at least two leaves
  // ---------------------------------------------------------------------

  /** With a root that is an inner node, `current` is an inner node between
      any two bits, so no NULL child is ever followed. */
  lemma {:induction false} WalkStaysOnNodes(t: Tree, n: Tree, output: seq<Byte>, bits: seq<Bit>)
    requires t.Node? && n.Node?
    ensures var r := Walk(Some(t), Running(Some(n), output), bits);
      r.Running? && r.current.Some? && r.current.value.Node?
    decreases |bits|
  {
    if bits != [] {
      var o := Step(Some(t), Running(Some(n), output), bits[0]);
      WalkStaysOnNodes(t, o.current.value, o.output, bits[1..]);
    }
  }

  /** Following a leaf's path from an inner node writes the leaf's symbol and
      returns to the root. */
  lemma {:induction false} WalkPath(root: Option<Tree>, n: Tree, path: Code, v: Byte, output: seq<Byte>)
    requires n.Node? && LeadsTo(n, path, v)
    ensures Walk(root, Running(Some(n), output), path) == Running(root, output + [v])
    decreases n
  {
    var c := Child(n, path[0]).value;
    if c.Leaf? {
      assert path[1..] == [];
    } else {
      WalkPath(root, c, path[1..], v, output);
    }
  }

  /** Starting at an inner node, fewer zero bits than its all-left depth
      write nothing and stop on the inner node that many steps down the
      all-left path. */
  lemma {:induction false} WalkShortZeros(root: Option<Tree>, n: Tree, k: nat, output: seq<Byte>)
    requires k < LeftDepth(n)
    ensures var r := Walk(root, Running(Some(n), output), Zeros(k));
      r.Running? && r.output == output && r.current == Some(LeftPath(n, k)) && r.current.value.Node?
    decreases n
  {
    if k > 0 {
      WalkShortZeros(root, n.left, k - 1, output);
    }
  }

  /** From the root, `k` zero bits write the leftmost symbol once every
      LeftDepth(root) bits and stop on an inner node. */
  lemma {:induction false} WalkZeros(t: Tree, k: nat, output: seq<Byte>)
    requires t.Node?
    ensures var r := Walk(Some(t), Running(Some(t), output), Zeros(k));
      && r.Running? && r.current.Some? && r.current.value.Node?
      && r.output == output + Repeat(Leftmost(t), k / LeftDepth(t))
    decreases k
  {
    var d := LeftDepth(t);
    if k < d {
      WalkShortZeros(Some(t), t, k, output);
      DivUnique(k, d, 0, k);
    } else {
      var rest := k - d;
      WalkLeftmostRound(t, rest, output);
      assert d + rest == k;
      WalkZeros(t, rest, output + [Leftmost(t)]);
      RepeatOneMore(output, Leftmost(t), k, d);
    }
  }

  /** The first LeftDepth(t) zero bits from the root write the leftmost
      symbol and return to the root. */
  lemma WalkLeftmostRound(t: Tree, rest: nat, output: seq<Byte>)
    requires t.Node?
    ensures Walk(Some(t), Running(Some(t), output), Zeros(LeftDepth(t) + rest))
      == Walk(Some(t), Running(Some(t), output + [Leftmost(t)]), Zeros(rest))
  {
    var d := LeftDepth(t);
    assert Zeros(d + rest) == Zeros(d) + Zeros(rest);
    WalkConcat(Some(t), Running(Some(t), output), Zeros(d), Zeros(rest));
    ZerosLeadToLeftmost(t);
    WalkPath(Some(t), t, Zeros(d), Leftmost(t), output);
  }

  lemma RepeatOneMore(output: seq<Byte>, x: Byte, k: nat, d: nat)
    requires 0 < d <= k
    ensures output + [x] + Repeat(x, (k - d) / d) == output + Repeat(x, k / d)
  {
    DivMinusDivisor(k, d);
    assert [x] + Repeat(x, (k - d) / d) == Repeat(x, k / d);
  }

  lemma DivMinusDivisor(k: nat, d: nat)
    requires 0 < d <= k
    ensures (k - d) / d + 1 == k / d
  {
    var q, r := (k - d) / d, (k - d) % d;
    assert k - d == d * q + r;
    assert k == d * (q + 1) + r;
    DivUnique(k, d, q + 1, r);
  }

  lemma DivUnique(k: int, d: int, m: int, r: int)
    requires d > 0 && 0 <= r < d && k == d * m + r
    ensures k / d == m
  {
    var m', r' := k / d, k % d;
    assert k == d * m' + r';
    if m' < m {
      MulAtLeast(d, m - m');
    } else if m' > m {
      MulAtLeast(d, m' - m);
    }
  }

  /** A product fact stated apart so that the solver proves it without the
      rest of DivUnique's nonlinear context. */
  lemma MulAtLeast(d: int, x: int)
    requires d > 0 && x >= 1
    ensures d * x >= d
  {
  }
}
