/** The min-heap of tree nodes keyed by `count` (Heap, heap_insert and
    heap_remove_min, huffman.c:16-19, 28-54).

    The two sift loops are first written as functions on the occupied prefix
    `array[0..count)`, step for step as the source runs them; the class methods
    are proved to compute exactly those functions, and the heap properties are
    lemmas about the functions. */
module MinHeap {
  import opened Common
  import opened Trees

  /** The slot above `i`; `i` is one of its two children `2p + 1`, `2p + 2`. */
  function Parent(i: nat): (p: nat)
    requires i > 0
    ensures p < i && (i == 2 * p + 1 || i == 2 * p + 2)
  {
    (i - 1) / 2
  }

  /** Every node weighs no more than its children. */
  ghost predicate HeapOrdered(s: seq<Tree>)
  {
    forall i :: 0 < i < |s| ==> s[Parent(i)].count <= s[i].count
  }

  // ---------------------------------------------------------------------
  // heap_insert
  // ---------------------------------------------------------------------

  /** The sift-up loop of heap_insert from slot `idx`: while the parent is
      heavier than `node`, the parent moves down into `idx`; ties stop the
      climb. `s[idx]` itself is never read. */
  function SiftUp(s: seq<Tree>, idx: nat, node: Tree): (r: seq<Tree>)
    requires idx < |s|
    ensures |r| == |s|
    decreases idx
  {
    if idx == 0 then s[0 := node]
    else if s[Parent(idx)].count <= node.count then s[idx := node]
    else SiftUp(s[idx := s[Parent(idx)]], Parent(idx), node)
  }

  /** The occupied prefix after heap_insert(h, node). */
  function Inserted(s: seq<Tree>, node: Tree): (r: seq<Tree>)
    ensures |r| == |s| + 1
  {
    SiftUp(s + [node], |s|, node)
  }

  /** The slot the climb starts from is a hole: what it holds does not matter. */
  lemma SiftUpIgnoresHole(s: seq<Tree>, idx: nat, node: Tree, junk: Tree)
    requires idx < |s|
    ensures SiftUp(s[idx := junk], idx, node) == SiftUp(s, idx, node)
  {
    if idx != 0 && s[Parent(idx)].count > node.count {
      assert s[idx := junk][idx := s[Parent(idx)]] == s[idx := s[Parent(idx)]];
    }
  }

  /** heap_insert adds `node` and loses nothing. */
  lemma {:induction false} SiftUpPermutes(s: seq<Tree>, idx: nat, node: Tree)
    requires idx < |s|
    ensures multiset(SiftUp(s, idx, node)) == multiset(s[idx := node])
    decreases idx
  {
    if idx != 0 && s[Parent(idx)].count > node.count {
      var p := Parent(idx);
      SiftUpPermutes(s[idx := s[p]], p, node);
    }
  }

  lemma InsertedPermutes(s: seq<Tree>, node: Tree)
    ensures multiset(Inserted(s, node)) == multiset(s) + multiset{node}
  {
    SiftUpPermutes(s + [node], |s|, node);
    assert (s + [node])[|s| := node] == s + [node];
  }

  /** The state of the sift-up loop with the hole at `idx`: heap order holds
      everywhere except on the edge into the hole, the hole's parent is no
      heavier than the hole's children, and `node` is no heavier than them. */
  ghost predicate ClimbInvariant(t: seq<Tree>, idx: nat, node: Tree)
    requires idx < |t|
  {
    && (forall i :: 0 < i < |t| && i != idx ==> t[Parent(i)].count <= t[i].count)
    && (forall c :: 0 < c < |t| && Parent(c) == idx ==> node.count <= t[c].count)
    && (idx > 0 ==> forall c :: 0 < c < |t| && Parent(c) == idx ==> t[Parent(idx)].count <= t[c].count)
  }

  lemma {:induction false} SiftUpRestoresOrder(t: seq<Tree>, idx: nat, node: Tree)
    requires idx < |t| && ClimbInvariant(t, idx, node)
    ensures HeapOrdered(SiftUp(t, idx, node))
    decreases idx
  {
    if idx == 0 {
    } else if t[Parent(idx)].count <= node.count {
    } else {
      var p := Parent(idx);
      var t' := t[idx := t[p]];
      assert p < idx;
      forall i | 0 < i < |t'| && i != p
        ensures t'[Parent(i)].count <= t'[i].count
      {
        if i == idx {
        } else if Parent(i) == idx {
          assert t'[Parent(i)] == t[p];
        } else {
          assert t'[i] == t[i] && t'[Parent(i)] == t[Parent(i)];
        }
      }
      forall c | 0 < c < |t'| && Parent(c) == p
        ensures node.count <= t'[c].count
      {
        if c != idx {
          assert t[p].count <= t[c].count;
        }
      }
      if p > 0 {
        forall c | 0 < c < |t'| && Parent(c) == p
          ensures t'[Parent(p)].count <= t'[c].count
        {
          assert t[Parent(p)].count <= t[p].count;
          if c != idx {
            assert t[p].count <= t[c].count;
          }
        }
      }
      SiftUpRestoresOrder(t', p, node);
    }
  }

  /** heap_insert keeps a heap ordered (huffman.c:28-37). */
  lemma InsertedKeepsOrder(s: seq<Tree>, node: Tree)
    requires HeapOrdered(s)
    ensures HeapOrdered(Inserted(s, node))
  {
    var t := s + [node];
    assert ClimbInvariant(t, |s|, node) by {
      forall c | 0 < c < |t| && Parent(c) == |s|
        ensures false
      {
      }
    }
    SiftUpRestoresOrder(t, |s|, node);
  }

  // ---------------------------------------------------------------------
  // heap_remove_min
  // ---------------------------------------------------------------------

  /** `smallest` as lines 45-47 compute it: the lighter of `idx` and its
      children, where children are compared with the CURRENT occupant of
      `idx` and a tie keeps the earlier candidate. */
  function Smallest(s: seq<Tree>, idx: nat): (k: nat)
    requires idx < |s|
    ensures k == idx || (idx < k < |s| && Parent(k) == idx)
  {
    var l, r := 2 * idx + 1, 2 * idx + 2;
    var k := if l < |s| && s[l].count < s[idx].count then l else idx;
    if r < |s| && s[r].count < s[k].count then r else k
  }

  /** The sift-down loop of heap_remove_min from `idx`, then `array[idx] = last`.
      Each step copies the lighter child up and continues from that child,
      whose own (unchanged) occupant is what its children are compared with;
      `last` takes no part in the comparisons. */
  function SiftDown(s: seq<Tree>, idx: nat, last: Tree): (r: seq<Tree>)
    requires idx < |s|
    ensures |r| == |s|
    decreases |s| - idx
  {
    var k := Smallest(s, idx);
    if k == idx then s[idx := last] else SiftDown(s[idx := s[k]], k, last)
  }

  /** heap_remove_min on the occupied prefix `s`: the old `array[0]`, and the new
      occupied prefix (`count` one smaller). */
  function RemovedMin(s: seq<Tree>): (r: (Tree, seq<Tree>))
    requires |s| > 0
    ensures |r.1| == |s| - 1
  {
    var n := |s| - 1;
    (s[0], if n == 0 then [] else SiftDown(s[..n], 0, s[n]))
  }

  lemma {:induction false} SiftDownPermutes(s: seq<Tree>, idx: nat, last: Tree)
    requires idx < |s|
    ensures multiset(SiftDown(s, idx, last)) == multiset(s[idx := last])
    decreases |s| - idx
  {
    var k := Smallest(s, idx);
    if k != idx {
      SiftDownPermutes(s[idx := s[k]], k, last);
    }
  }

  /** What RemoveMin promises about the function it computes, gathered in one
      place so that the method's proof does not unfold the heap order. */
  lemma RemovedMinFacts(s: seq<Tree>)
    requires |s| > 0
    ensures multiset(RemovedMin(s).1) + multiset{RemovedMin(s).0} == multiset(s)
    ensures HeapOrdered(s) ==> forall i :: 0 <= i < |s| ==> RemovedMin(s).0.count <= s[i].count
  {
    RemovedMinPermutes(s);
    if HeapOrdered(s) {
      RemovedMinOfOrdered(s);
    }
  }

  /** heap_remove_min takes out the node it returns and nothing else. */
  lemma RemovedMinPermutes(s: seq<Tree>)
    requires |s| > 0
    ensures multiset(RemovedMin(s).1) + multiset{RemovedMin(s).0} == multiset(s)
  {
    var n := |s| - 1;
    assert s == s[..n] + [s[n]];
    if n > 0 {
      SiftDownPermutes(s[..n], 0, s[n]);
      assert s[..n] == [s[0]] + s[1..n];
      assert s[..n][0 := s[n]] == [s[n]] + s[1..n];
    }
  }

  /** In a heap-ordered array the root is no heavier than any node. */
  lemma {:induction false} RootIsLightest(s: seq<Tree>, i: nat)
    requires HeapOrdered(s) && i < |s|
    ensures s[0].count <= s[i].count
    decreases i
  {
    if i > 0 {
      RootIsLightest(s, Parent(i));
    }
  }

  /** heap_remove_min returns a lightest node when the heap was ordered; the
      last node is then dropped at the root without being sifted, because
      the root's children are compared with the removed minimum. */
  lemma RemovedMinOfOrdered(s: seq<Tree>)
    requires HeapOrdered(s) && |s| > 0
    ensures forall i :: 0 <= i < |s| ==> RemovedMin(s).0.count <= s[i].count
    ensures |s| > 1 ==> RemovedMin(s).1 == [s[|s| - 1]] + s[1..|s| - 1]
  {
    forall i | 0 <= i < |s|
      ensures s[0].count <= s[i].count
    {
      RootIsLightest(s, i);
    }
    var n := |s| - 1;
    if n > 0 {
      var t := s[..n];
      if 1 < n { assert Parent(1) == 0; }
      if 2 < n { assert Parent(2) == 0; }
      assert Smallest(t, 0) == 0;
      assert t[0 := s[n]] == [s[n]] + s[1..n];
    }
  }

  /** Inserting weights 1, 2, 3, 4 gives [1, 2, 3, 4]; one removal leaves
      [4, 2, 3], which is no longer heap-ordered, and the next removal returns
      the node of weight 4 although one of weight 2 remains. */
  lemma RemovalBreaksOrder()
    ensures var w1, w2, w3, w4 := Leaf(1, 1), Leaf(2, 2), Leaf(3, 3), Leaf(4, 4);
            var s := Inserted(Inserted(Inserted(Inserted([], w1), w2), w3), w4);
            && s == [w1, w2, w3, w4]
            && RemovedMin(s) == (w1, [w4, w2, w3])
            && !HeapOrdered(RemovedMin(s).1)
            && RemovedMin(RemovedMin(s).1).0 == w4
  {
    var w1, w2, w3, w4 := Leaf(1, 1), Leaf(2, 2), Leaf(3, 3), Leaf(4, 4);
    assert Inserted([], w1) == [w1];
    assert Parent(1) == 0 && Parent(2) == 0 && Parent(3) == 1;
    assert Inserted([w1], w2) == [w1, w2];
    assert Inserted([w1, w2], w3) == [w1, w2, w3];
    assert Inserted([w1, w2, w3], w4) == [w1, w2, w3, w4];
    var s := [w1, w2, w3, w4];
    assert s[..3] == [w1, w2, w3];
    assert Smallest([w1, w2, w3], 0) == 0;
    assert SiftDown([w1, w2, w3], 0, w4) == [w4, w2, w3];
    assert RemovedMin(s) == (w1, [w4, w2, w3]);
    var u := [w4, w2, w3];
    assert u[Parent(1)].count > u[1].count;
    assert u[..2] == [w4, w2];
  }

  // ---------------------------------------------------------------------
  // The heap object
  // ---------------------------------------------------------------------

  /** `Heap`: a fixed array of SYMBOL_COUNT slots of which `array[0..count)`
      are occupied. */
  class Heap {
    const slots: array<Tree>
    var count: nat

    ghost predicate Valid()
      reads this
    {
      slots.Length == SymbolCount && count <= SymbolCount
    }

    /** The occupied slots. */
    ghost function Elems(): seq<Tree>
      reads this, slots
      requires Valid()
    {
      slots[..count]
    }

    /** `Heap h = {.count = 0}` */
    constructor ()
      ensures Valid() && fresh(slots) && Elems() == []
    {
      slots := new Tree[SymbolCount];
      count := 0;
    }

    /** heap_insert(h, node) (huffman.c:28-37). */
    method Insert(node: Tree)
      requires Valid() && count < SymbolCount
      modifies this`count, slots
      ensures Valid()
      ensures Elems() == Inserted(old(Elems()), node)
      ensures multiset(Elems()) == multiset(old(Elems())) + multiset{node}
      ensures old(HeapOrdered(Elems())) ==> HeapOrdered(Elems())
    {
      ghost var s := Elems();
      var idx := count;
      count := count + 1;
      SiftUpIgnoresHole(s + [node], idx, node, slots[idx]);
      assert slots[..count] == (s + [node])[idx := slots[idx]];
      while idx > 0
        invariant Valid() && count == |s| + 1 && idx < count
        invariant SiftUp(slots[..count], idx, node) == Inserted(s, node)
      {
        var parent := (idx - 1) / 2;
        if slots[parent].count <= node.count {
          break;
        }
        slots[idx] := slots[parent];
        idx := parent;
      }
      slots[idx] := node;
      InsertedPermutes(s, node);
      if HeapOrdered(s) {
        InsertedKeepsOrder(s, node);
      }
    }

    /** heap_remove_min(h) (huffman.c:40-54). */
    method RemoveMin() returns (min: Tree)
      requires Valid() && count > 0
      modifies this`count, slots
      ensures Valid()
      ensures (min, Elems()) == RemovedMin(old(Elems()))
      ensures multiset(Elems()) + multiset{min} == multiset(old(Elems()))
      ensures old(HeapOrdered(Elems())) ==> forall i :: 0 <= i < |old(Elems())| ==> min.count <= old(Elems())[i].count
    {
      ghost var s := Elems();
      min := slots[0];
      count := count - 1;
      var last := slots[count];
      assert slots[..count] == s[..count];
      SiftDownLast(last);
      RemovedMinFacts(s);
    }

    /** The sift-down loop of heap_remove_min (huffman.c:43-52) with `last`
        the node taken from the end: the lighter child moves up into the
        hole until no child is lighter, then `last` fills the hole. */
    method SiftDownLast(last: Tree)
      requires Valid()
      modifies slots
      ensures Valid()
      ensures count > 0 ==> Elems() == SiftDown(old(Elems()), 0, last)
    {
      ghost var s := Elems();
      var idx := 0;
      while true
        invariant Valid()
        invariant count == 0 ==> idx == 0
        invariant count > 0 ==> idx < count && SiftDown(slots[..count], idx, last) == SiftDown(s, 0, last)
        decreases count - idx
      {
        var l, r, smallest := 2 * idx + 1, 2 * idx + 2, idx;
        if l < count && slots[l].count < slots[smallest].count {
          smallest := l;
        }
        if r < count && slots[r].count < slots[smallest].count {
          smallest := r;
        }
        ghost var t := slots[..count];
        assert count > 0 ==> smallest == Smallest(t, idx);
        if smallest == idx {
          break;
        }
        slots[idx] := slots[smallest];
        assert slots[..count] == t[idx := t[smallest]];
        idx := smallest;
      }
      ghost var t := slots[..count];
      slots[idx] := last;
      assert count > 0 ==> slots[..count] == t[idx := last];
    }
  }
}
