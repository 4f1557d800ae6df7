/** The program as a whole (huffman.c:82-222) with the files replaced by byte
    sequences: compression writes the header and the packed payload;
    decompression reads the header, rebuilds the tree and walks the payload. */
module Codec {
  import opened Common
  import opened Trees
  import opened Frequency
  import opened TreeBuild
  import opened CodeAssign
  import opened Header
  import opened Packing
  import opened Decoder
  import opened MinHeap

  /** The contents of `encoded.bin` for a given `input.txt`. */
  function EncodeSpec(input: seq<Byte>): (container: seq<Byte>)
    ensures |container| >= IntSize
    ensures input == [] ==> container == LittleEndian(0, IntSize)
  {
    var freq := Histogram(input);
    HeaderRecordsSound(freq, SymbolCount);
    HeaderBytes(freq) + PackBits(Encoded(input, HuffmanCodes(freq)))
  }

  /** What decoding does with the contents of `encoded.bin`. */
  function DecodeSpec(container: seq<Byte>): (r: Outcome)
    requires HeaderFits(container)
    ensures r.Running? ==> |r.output| <= 8 * (|container| - IntSize)
  {
    var parsed := ParseHeader(container);
    Decode(HuffmanTree(parsed.0), parsed.1)
  }

  /** The encoding half of main (huffman.c:89-157). */
  method Compress(input: seq<Byte>) returns (container: seq<Byte>)
    ensures container == EncodeSpec(input)
  {
    var freq := CountFrequencies(input);
    var root := BuildTree(freq);
    HuffmanTreeDepth(freq);
    var table := CodeTable(root);
    var header := WriteHeader(freq);
    var payload := Pack(input, table);
    container := header + payload;
  }

  /** The decoding half of main (huffman.c:171-216). */
  method Decompress(container: seq<Byte>) returns (result: Outcome)
    requires HeaderFits(container)
    ensures result == DecodeSpec(container)
  {
    var freq, payload := ReadHeader(container);
    var root := BuildTree(freq);
    result := DecodePayload(root, payload);
  }

  /** The input holds at least two different bytes. */
  predicate TwoSymbols(input: seq<Byte>)
  {
    exists i, j :: 0 <= i < |input| && 0 <= j < |input| && input[i] != input[j]
  }

  // ---------------------------------------------------------------------
  // Properties of the encoder's frequency table
  // ---------------------------------------------------------------------

  lemma {:induction false} OccurrencesBound(s: seq<Byte>, b: Byte)
    ensures Occurrences(s, b) <= |s|
  {
    if s != [] {
      OccurrencesBound(s[..|s| - 1], b);
    }
  }

  /** Every frequency of an input shorter than 2^64 bytes fits an
      `unsigned long long`. */
  lemma HistogramFits(input: seq<Byte>)
    requires |input| < Pow256(FrequencySize)
    ensures forall b: Byte :: Histogram(input)[b] < Pow256(FrequencySize)
  {
    forall b: Byte
      ensures Histogram(input)[b] < Pow256(FrequencySize)
    {
      OccurrencesBound(input, b);
    }
  }

  /** A merged node has two leaves with different symbols, when no symbol
      has two leaves. */
  lemma NodeHasTwoSymbols(t: Tree) returns (u: Byte, v: Byte)
    requires t.Node?
    ensures u in Symbols(t) && v in Symbols(t)
    ensures u == v ==> Symbols(t)[u] >= 2
  {
    u, v := Leftmost(t.left), Leftmost(t.right);
    LeftmostIsSymbol(t.left);
    LeftmostIsSymbol(t.right);
  }

  /** The root is an inner node exactly when the input holds two different
      bytes; otherwise it is a leaf (one distinct byte) or NULL (no input). */
  lemma RootShape(input: seq<Byte>)
    ensures var root := HuffmanTree(Histogram(input));
      TwoSymbols(input) <==> root.Some? && root.value.Node?
    ensures HuffmanTree(Histogram(input)).None? <==> input == []
  {
    var freq := Histogram(input);
    var root := HuffmanTree(freq);
    HuffmanTreeExists(freq);
    forall b: Byte
      ensures freq[b] != 0 <==> b in input
      ensures UsedSymbols(freq, SymbolCount)[b] == if b in input then 1 else 0
    {
      OccurrencesPositive(input, b);
      UsedSymbolsExactly(freq, SymbolCount, b);
    }
    if input != [] {
      assert freq[input[0]] != 0;
    }
    if TwoSymbols(input) {
      var i, j :| 0 <= i < |input| && 0 <= j < |input| && input[i] != input[j];
      HuffmanTreeContents(freq);
      assert input[i] in Symbols(root.value) && input[j] in Symbols(root.value);
    }
    if root.Some? && root.value.Node? {
      HuffmanTreeContents(freq);
      var u, v := NodeHasTwoSymbols(root.value);
      var i :| 0 <= i < |input| && input[i] == u;
      var j :| 0 <= j < |input| && input[j] == v;
    }
  }

  // ---------------------------------------------------------------------
  // Decoding what was encoded
  // ---------------------------------------------------------------------

  /** Walking the code bits of a sequence of symbols from the root writes
      exactly those symbols and ends back at the root. */
  lemma {:induction false} WalkEncoded(t: Tree, table: seq<Code>, input: seq<Byte>, output: seq<Byte>)
    requires t.Node? && |table| == SymbolCount
    requires forall k :: 0 <= k < |input| ==> LeadsTo(t, table[input[k]], input[k])
    ensures Walk(Some(t), Running(Some(t), output), Encoded(input, table)) == Running(Some(t), output + input)
  {
    if input != [] {
      var init, x := input[..|input| - 1], input[|input| - 1];
      assert Encoded(input, table) == Encoded(init, table) + table[x];
      assert forall k :: 0 <= k < |init| ==> init[k] == input[k];
      WalkEncoded(t, table, init, output);
      WalkOneMore(t, output, Encoded(init, table), init, table[x], x);
      assert output + init + [x] == output + input;
    }
  }

  /** After the codes of `init`, walking the code of `x` writes `x` too. */
  lemma WalkOneMore(t: Tree, output: seq<Byte>, bits: seq<Bit>, init: seq<Byte>, code: Code, x: Byte)
    requires t.Node? && LeadsTo(t, code, x)
    requires Walk(Some(t), Running(Some(t), output), bits) == Running(Some(t), output + init)
    ensures Walk(Some(t), Running(Some(t), output), bits + code) == Running(Some(t), output + init + [x])
  {
    WalkConcat(Some(t), Running(Some(t), output), bits, code);
    WalkPath(Some(t), t, code, x, output + init);
  }

  /** The decoder reads back the encoder's frequency table, so it rebuilds
      the encoder's tree and walks exactly the packed payload. */
  lemma DecoderRebuildsTree(input: seq<Byte>)
    requires |input| < Pow256(FrequencySize)
    ensures HeaderFits(EncodeSpec(input))
    ensures var freq := Histogram(input);
      DecodeSpec(EncodeSpec(input)) == Decode(HuffmanTree(freq), PackBits(Encoded(input, HuffmanCodes(freq))))
  {
    var freq := Histogram(input);
    HistogramFits(input);
    HeaderRoundTrip(freq, PackBits(Encoded(input, HuffmanCodes(freq))));
  }

  /** Decoding the packed codes of `input` from an inner-node root writes the
      input and then walks the padding bits. */
  lemma DecodePacked(t: Tree, codes: seq<Code>, input: seq<Byte>)
    requires t.Node? && |codes| == SymbolCount
    requires forall k :: 0 <= k < |input| ==> LeadsTo(t, codes[input[k]], input[k])
    ensures var bits := Encoded(input, codes);
      Decode(Some(t), PackBits(bits)) == Walk(Some(t), Running(Some(t), input), Zeros(Padding(|bits|)))
  {
    var bits := Encoded(input, codes);
    WalkEncoded(t, codes, input, []);
    UnpackPack(bits);
    WalkConcat(Some(t), Running(Some(t), []), bits, Zeros(Padding(|bits|)));
    assert [] + input == input;
  }

  /** Decoding the encoding of an input with two or more different bytes
      yields the input followed by as many copies of the leftmost symbol as
      the padding bits of the last byte spell, never more than seven; it never
      follows a NULL child. */
  lemma RoundTripTwoSymbols(input: seq<Byte>)
    requires |input| < Pow256(FrequencySize) && TwoSymbols(input)
    ensures HeaderFits(EncodeSpec(input))
    ensures var freq := Histogram(input);
      var padding := Padding(|Encoded(input, HuffmanCodes(freq))|);
      var result := DecodeSpec(EncodeSpec(input));
      && HuffmanTree(freq).Some? && HuffmanTree(freq).value.Node?
      && result.Running? && result.current.Some? && result.current.value.Node?
      && result.output == input + Repeat(Leftmost(HuffmanTree(freq).value), PaddingSymbols(HuffmanTree(freq).value, padding))
  {
    var freq := Histogram(input);
    var codes := HuffmanCodes(freq);
    RootShape(input);
    var t := HuffmanTree(freq).value;
    forall k | 0 <= k < |input|
      ensures LeadsTo(t, codes[input[k]], input[k])
    {
      OccurrencesPositive(input, input[k]);
      HuffmanCodesLead(freq, input[k]);
    }
    DecoderRebuildsTree(input);
    DecodePacked(t, codes, input);
    var pad := Padding(|Encoded(input, codes)|);
    WalkZeros(t, pad, input);
  }

  /** How many symbols `padding` zero bits decode to from the root: one per
      LeftDepth(t) bits, so never more than the padding itself. */
  function PaddingSymbols(t: Tree, padding: nat): (k: nat)
    requires t.Node? && padding < 8
    ensures k < 8
  {
    padding / LeftDepth(t)
  }

  /** With at most one distinct byte every code is empty, so the payload is
      empty and decoding writes nothing: a run of one repeated byte comes
      back empty. */
  lemma RoundTripOneSymbol(input: seq<Byte>)
    requires |input| < Pow256(FrequencySize) && !TwoSymbols(input)
    ensures var freq := Histogram(input);
      && Encoded(input, HuffmanCodes(freq)) == []
      && HeaderFits(EncodeSpec(input))
      && DecodeSpec(EncodeSpec(input)) == Running(HuffmanTree(freq), [])
  {
    var freq := Histogram(input);
    var codes := HuffmanCodes(freq);
    RootShape(input);
    forall k | 0 <= k < |input|
      ensures codes[input[k]] == []
    {
      OccurrencesPositive(input, input[k]);
      HuffmanCodesLead(freq, input[k]);
    }
    assert Encoded(input, codes) == [];
    assert EncodeSpec(input) == HeaderBytes(freq) + [];
    HistogramFits(input);
    HeaderRoundTrip(freq, []);
  }

  // ---------------------------------------------------------------------
  // A worked example
  // ---------------------------------------------------------------------

  /** The input "aaab". */
  const Example: seq<Byte> := [97, 97, 97, 98]

  lemma ExampleFrequencies()
    ensures Histogram(Example)[97] == 3 && Histogram(Example)[98] == 1
    ensures forall k :: 0 <= k < SymbolCount && k != 97 && k != 98 ==> Histogram(Example)[k] == 0
  {
    var s := Example;
    assert s[..3] == [97, 97, 97] && s[..3][..2] == [97, 97] && s[..3][..2][..1] == [97];
    assert [97][..0] == [];
    assert Occurrences([97], 97) == 1 && Occurrences([97], 98) == 0;
    assert Occurrences([97, 97], 97) == 2 && Occurrences([97, 97], 98) == 0;
    assert Occurrences([97, 97, 97], 97) == 3 && Occurrences([97, 97, 97], 98) == 0;
    assert Occurrences(s, 97) == 3 && Occurrences(s, 98) == 1;
    forall k | 0 <= k < SymbolCount && k != 97 && k != 98
      ensures Histogram(s)[k] == 0
    {
      OccurrencesPositive(s, k);
    }
  }

  /** Leaves enter the heap as a(3) then b(1); b climbs to the root, is
      removed first and becomes the left child. */
  lemma ExampleTree()
    ensures HuffmanTree(Histogram(Example)) == Some(Node(4, Leaf(98, 1), Leaf(97, 3)))
  {
    var freq := Histogram(Example);
    ExampleFrequencies();
    var a, b := Leaf(97, 3), Leaf(98, 1);
    LeafPhaseSkipsZeros(freq, 0, 97);
    LeafPhaseSkipsZeros(freq, 99, SymbolCount);
    assert LeafPhase(freq, 98) == [a];
    assert SiftUp([a, b], 1, b) == [b, a];
    assert LeafPhase(freq, 99) == [b, a];
    assert SiftDown([b], 0, a) == [a];
    assert Merge([b, a]) == [Node(4, b, a)];
  }

  lemma ExampleBits()
    ensures var codes := HuffmanCodes(Histogram(Example));
      codes[97] == [1] && codes[98] == [0] && Encoded(Example, codes) == [1, 1, 1, 0]
  {
    ExampleTree();
    var codes := HuffmanCodes(Histogram(Example));
    assert codes[97] == [1] && codes[98] == [0];
    var s := Example;
    assert s[..3] == [97, 97, 97] && s[..3][..2] == [97, 97] && s[..3][..2][..1] == [97];
    assert [97][..0] == [];
    assert Encoded([97], codes) == [1];
    assert Encoded([97, 97], codes) == [1, 1];
    assert Encoded([97, 97, 97], codes) == [1, 1, 1];
  }

  /** The four code bits of "aaab" fill one byte as 11100000. */
  lemma ExamplePayload()
    ensures PackBits(Encoded(Example, HuffmanCodes(Histogram(Example)))) == [0xE0]
  {
    ExampleBits();
    var bits: seq<Bit> := [1, 1, 1, 0];
    assert bits[..3] == [1, 1, 1] && bits[..3][..2] == [1, 1] && bits[..3][..2][..1] == [1];
    assert [1][..0] == [];
    assert BitsValue([1]) == 1;
    assert BitsValue([1, 1]) == 3;
    assert BitsValue([1, 1, 1]) == 7;
    assert BitsValue(bits) == 14;
    BitsValueZeros(bits, 4);
    assert ShiftLeft(14, 4) == 224;
    assert PackBits(bits) == [BitsValue(bits + Zeros(4))];
  }

  lemma ExampleHasTwoSymbols()
    ensures TwoSymbols(Example)
  {
    assert Example[0] != Example[3];
  }

  lemma ExampleExtra(t: Tree)
    requires t == Node(4, Leaf(98, 1), Leaf(97, 3))
    ensures Example + Repeat(Leftmost(t), PaddingSymbols(t, Padding(4))) == [97, 97, 97, 98, 98, 98, 98, 98]
  {
    assert PaddingSymbols(t, Padding(4)) == 4;
  }

  /** The round trip on an input whose tree and number of code bits are known. */
  lemma RoundTripWith(input: seq<Byte>, t: Tree, n: nat)
    requires |input| < Pow256(FrequencySize) && TwoSymbols(input)
    requires HuffmanTree(Histogram(input)) == Some(t)
    requires |Encoded(input, HuffmanCodes(Histogram(input)))| == n
    ensures t.Node? && HeaderFits(EncodeSpec(input))
    ensures DecodeSpec(EncodeSpec(input)).Running?
    ensures DecodeSpec(EncodeSpec(input)).output == input + Repeat(Leftmost(t), PaddingSymbols(t, Padding(n)))
  {
    RoundTripTwoSymbols(input);
  }

  /** "aaab": b gets code 0 and a gets code 1, the single payload byte is
      11100000, and its four padding bits decode to four more b's. */
  lemma PaddingExample()
    ensures HeaderFits(EncodeSpec(Example))
    ensures DecodeSpec(EncodeSpec(Example)).Running?
    ensures DecodeSpec(EncodeSpec(Example)).output == [97, 97, 97, 98, 98, 98, 98, 98]
  {
    var t := Node(4, Leaf(98, 1), Leaf(97, 3));
    ExampleTree();
    ExampleBits();
    ExampleHasTwoSymbols();
    RoundTripWith(Example, t, 4);
    ExampleExtra(t);
  }
}
