/** The bit packer of the encoder (huffman.c:140-157) and the bit order in
    which the decoder reads payload bytes back (huffman.c:207-209). */
module Packing {
  import opened Common

  /** The number a run of bits spells, most significant bit first: the value
      `out_byte` holds after shifting them in one at a time. */
  function BitsValue(bits: seq<Bit>): (v: nat)
    ensures v < Pow2(|bits|)
  {
    if bits == [] then 0 else 2 * BitsValue(bits[..|bits| - 1]) + bits[|bits| - 1]
  }

  /** Bit `i` of `ch`, counted from the least significant: `(ch >> i) & 1`,
      with the shift by `i` taken as `i` shifts by one. */
  function BitAt(ch: nat, i: nat): (b: Bit)
    ensures ch < Pow2(i) ==> b == 0
  {
    if i == 0 then ch % 2 else BitAt(ch / 2, i - 1)
  }

  /** `x << k` on an unbounded value: `k` doublings. */
  function ShiftLeft(x: nat, k: nat): (r: nat)
    ensures r == x * Pow2(k)
  {
    if k == 0 then x else 2 * ShiftLeft(x, k - 1)
  }

  /** The padding `out_byte <<= (8 - bits_used)` adds after `n` payload bits:
      none when `n` is a multiple of 8. */
  function Padding(n: nat): (p: nat)
    ensures p < 8 && (n + p) % 8 == 0
  {
    (8 - n % 8) % 8
  }

  /** The bytes the packer writes for a bit string: each full group of eight
      bits, most significant first, and a last partial group shifted left
      and filled with zeros. */
  function PackBits(bits: seq<Bit>): (bytes: seq<Byte>)
    ensures |bytes| == (|bits| + 7) / 8
    decreases |bits|
  {
    if bits == [] then []
    else if |bits| <= 8 then
      var padded := bits + Zeros(8 - |bits|);
      assert Pow2(|padded|) == 256;
      [BitsValue(padded)]
    else
      assert Pow2(|bits[..8]|) == 256;
      [BitsValue(bits[..8])] + PackBits(bits[8..])
  }

  /** The bits the decoder reads from one byte, bit 7 first. */
  function ByteBits(ch: Byte): (bits: seq<Bit>)
    ensures |bits| == 8
  {
    seq(8, k requires 0 <= k < 8 => BitAt(ch, 7 - k))
  }

  /** The bits the decoder reads from the whole payload, byte by byte. */
  function Unpacked(bytes: seq<Byte>): (bits: seq<Bit>)
    ensures |bits| == 8 * |bytes|
  {
    if bytes == [] then [] else ByteBits(bytes[0]) + Unpacked(bytes[1..])
  }

  /** The payload is read byte after byte. */
  lemma {:induction false} UnpackedConcat(a: seq<Byte>, b: seq<Byte>)
    ensures Unpacked(a + b) == Unpacked(a) + Unpacked(b)
  {
    if a == [] {
      assert a + b == b;
    } else {
      assert (a + b)[0] == a[0] && (a + b)[1..] == a[1..] + b;
      UnpackedConcat(a[1..], b);
    }
  }

  // ---------------------------------------------------------------------
  // Arithmetic of shifting bits in and out
  // ---------------------------------------------------------------------

  /** Reading bit `i` of a shifted-in value gives back the bit shifted in
      `i` places before the end. */
  lemma {:induction false} BitAtValue(bits: seq<Bit>, i: nat)
    requires i < |bits|
    ensures BitAt(BitsValue(bits), i) == bits[|bits| - 1 - i]
  {
    var init, x := bits[..|bits| - 1], bits[|bits| - 1];
    var v := BitsValue(init);
    assert BitsValue(bits) == 2 * v + x;
    if i > 0 {
      BitAtValue(init, i - 1);
      assert (2 * v + x) / 2 == v;
      assert init[|init| - 1 - (i - 1)] == bits[|bits| - 1 - i];
    }
  }

  /** Decoding a byte's bits recovers the eight bits it was packed from. */
  lemma ByteBitsOfValue(bits: seq<Bit>)
    requires |bits| == 8
    ensures BitsValue(bits) < 256 && ByteBits(BitsValue(bits)) == bits
  {
    assert Pow2(8) == 256;
    forall k | 0 <= k < 8
      ensures ByteBits(BitsValue(bits))[k] == bits[k]
    {
      BitAtValue(bits, 7 - k);
    }
  }

  /** Shifting a value left by `k` places appends `k` zero bits. */
  lemma {:induction false} BitsValueZeros(bits: seq<Bit>, k: nat)
    ensures BitsValue(bits + Zeros(k)) == ShiftLeft(BitsValue(bits), k)
  {
    if k == 0 {
      assert bits + Zeros(k) == bits;
    } else {
      var b := bits + Zeros(k);
      assert b[|b| - 1] == 0;
      assert b[..|b| - 1] == bits + Zeros(k - 1);
      BitsValueZeros(bits, k - 1);
    }
  }

  lemma PaddingSkipsByte(n: nat)
    ensures Padding(n + 8) == Padding(n)
  {
    var q, r := n / 8, n % 8;
    assert n + 8 == 8 * (q + 1) + r;
    assert (n + 8) % 8 == r;
  }

  /** A prefix made of whole bytes packs on its own. */
  lemma {:induction false} PackBitsConcat(a: seq<Bit>, b: seq<Bit>)
    requires |a| % 8 == 0
    ensures PackBits(a + b) == PackBits(a) + PackBits(b)
    decreases |a|
  {
    if a == [] {
      assert a + b == b;
    } else if b == [] {
      assert a + b == a;
    } else {
      assert |a| >= 8;
      assert (a + b)[..8] == a[..8];
      assert (a + b)[8..] == a[8..] + b;
      PackBitsConcat(a[8..], b);
      if |a| == 8 {
        assert a + Zeros(0) == a;
        assert a[..8] == a && a[8..] == [];
      }
    }
  }

  /** Unpacking what was packed gives the bits back followed by the zero
      padding of the last byte. */
  lemma {:induction false} UnpackPack(bits: seq<Bit>)
    ensures Unpacked(PackBits(bits)) == bits + Zeros(Padding(|bits|))
    decreases |bits|
  {
    if bits == [] {
    } else if |bits| <= 8 {
      UnpackLastByte(bits);
    } else {
      var first, rest := bits[..8], bits[8..];
      UnpackPack(rest);
      UnpackFirstByte(bits);
      PaddingSkipsByte(|rest|);
      JoinFirstByte(bits, first, rest, Zeros(Padding(|bits|)));
    }
  }

  lemma JoinFirstByte(bits: seq<Bit>, first: seq<Bit>, rest: seq<Bit>, z: seq<Bit>)
    requires |first| <= |bits| && first == bits[..|first|] && rest == bits[|first|..]
    ensures first + (rest + z) == bits + z
  {
    assert bits == first + rest;
  }

  lemma UnpackLastByte(bits: seq<Bit>)
    requires 0 < |bits| <= 8
    ensures Unpacked(PackBits(bits)) == bits + Zeros(Padding(|bits|))
  {
    var padded := bits + Zeros(8 - |bits|);
    ByteBitsOfValue(padded);
    assert PackBits(bits) == [BitsValue(padded)];
    assert Unpacked(PackBits(bits)) == ByteBits(BitsValue(padded)) + Unpacked([]);
    PaddingOfShort(|bits|);
  }

  lemma PaddingOfShort(n: nat)
    requires 0 < n <= 8
    ensures Padding(n) == 8 - n
  {
    if n < 8 {
      assert n % 8 == n;
      assert (8 - n) % 8 == 8 - n;
    } else {
      assert n % 8 == 0;
    }
  }

  lemma UnpackFirstByte(bits: seq<Bit>)
    requires |bits| > 8
    ensures Unpacked(PackBits(bits)) == bits[..8] + Unpacked(PackBits(bits[8..]))
  {
    ByteBitsOfValue(bits[..8]);
    var bytes := PackBits(bits);
    assert bytes == [BitsValue(bits[..8])] + PackBits(bits[8..]);
    assert bytes[1..] == PackBits(bits[8..]);
  }

  // ---------------------------------------------------------------------
  // The encoder loop
  // ---------------------------------------------------------------------

  /** The code bits of the input, symbol after symbol. */
  function Encoded(input: seq<Byte>, table: seq<Code>): (bits: seq<Bit>)
    requires |table| == SymbolCount
    ensures bits == [] <==> forall k :: 0 <= k < |input| ==> table[input[k]] == []
    ensures (forall k :: 0 <= k < |input| ==> table[input[k]] != []) ==> |bits| >= |input|
  {
    if input == [] then []
    else
      var init := input[..|input| - 1];
      assert forall k :: 0 <= k < |init| ==> init[k] == input[k];
      Encoded(init, table) + table[input[|input| - 1]]
  }

  /** What the packer's variables hold once it has taken in the bits
      `full + tail`: the bytes written are the packed whole bytes `full`,
      and `out_byte` holds the `bits_used` bits `tail` after them. */
  ghost predicate PackerState(full: seq<Bit>, tail: seq<Bit>, payload: seq<Byte>, outByte: nat, bitsUsed: nat)
  {
    && |full| % 8 == 0 && payload == PackBits(full)
    && |tail| == bitsUsed < 8 && outByte == BitsValue(tail)
  }

  /** huffman.c:140-157: each code bit is shifted into `out_byte`, a byte is
      written whenever `bits_used` reaches 8, and a last partial byte is
      shifted into place and written. The shifts act on an `unsigned char`,
      so their results are taken modulo 256. */
  method Pack(input: seq<Byte>, table: seq<Code>) returns (payload: seq<Byte>)
    requires |table| == SymbolCount
    ensures payload == PackBits(Encoded(input, table))
  {
    payload := [];
    var outByte: nat := 0;
    var bitsUsed: nat := 0;
    ghost var full: seq<Bit>, tail: seq<Bit> := [], [];
    for j := 0 to |input|
      invariant full + tail == Encoded(input[..j], table)
      invariant PackerState(full, tail, payload, outByte, bitsUsed)
    {
      var code := table[input[j]];
      ghost var before := Encoded(input[..j], table);
      assert input[..j + 1][..j] == input[..j];
      assert before + code[..0] == before;
      for i := 0 to |code|
        invariant full + tail == before + code[..i]
        invariant PackerState(full, tail, payload, outByte, bitsUsed)
      {
        var b := code[i];
        ShiftStep(full, tail, payload, outByte, bitsUsed, b);
        AppendBit(full, tail, before, code[..i], b);
        assert code[..i + 1] == code[..i] + [b];
        outByte := (outByte * 2 + b) % 256;
        bitsUsed := bitsUsed + 1;
        if bitsUsed == 8 {
          payload := payload + [outByte];
          bitsUsed := 0;
          outByte := 0;
          full, tail := full + (tail + [b]), [];
        } else {
          tail := tail + [b];
        }
      }
      assert code[..|code|] == code;
    }
    assert input[..|input|] == input;
    Flush(full, tail, payload, outByte, bitsUsed);
    if bitsUsed > 0 {
      outByte := ShiftLeft(outByte, 8 - bitsUsed) % 256;
      payload := payload + [outByte];
    }
  }

  /** One turn of the inner loop keeps the packer's state in step with the
      bits taken in. */
  lemma ShiftStep(full: seq<Bit>, tail: seq<Bit>, payload: seq<Byte>, outByte: nat, bitsUsed: nat, b: Bit)
    requires PackerState(full, tail, payload, outByte, bitsUsed)
    ensures var o, u := (outByte * 2 + b) % 256, bitsUsed + 1;
      if u == 8 then PackerState(full + (tail + [b]), [], payload + [o], 0, 0)
      else PackerState(full, tail + [b], payload, o, u)
  {
    ShiftInBit(tail, b);
    if bitsUsed + 1 == 8 {
      ByteComplete(full, tail + [b]);
    }
  }

  /** After the last symbol: a partial byte, if any, is shifted into place
      and written, and the bytes written are the packed bits. */
  lemma Flush(full: seq<Bit>, tail: seq<Bit>, payload: seq<Byte>, outByte: nat, bitsUsed: nat)
    requires PackerState(full, tail, payload, outByte, bitsUsed)
    ensures bitsUsed > 0 ==> payload + [ShiftLeft(outByte, 8 - bitsUsed) % 256] == PackBits(full + tail)
    ensures bitsUsed == 0 ==> payload == PackBits(full + tail)
  {
    if bitsUsed > 0 {
      PackLastByte(full, tail, 8 - bitsUsed);
    } else {
      assert full + tail == full;
    }
  }

  /** One bit shifted into a byte that holds fewer than eight. */
  lemma ShiftInBit(tail: seq<Bit>, b: Bit)
    requires |tail| < 8
    ensures (BitsValue(tail) * 2 + b) % 256 == BitsValue(tail + [b])
  {
    var v := BitsValue(tail);
    BitsValueBelow128(tail);
    BitsValueSnoc(tail, b);
    SmallMod(v * 2 + b);
  }

  lemma BitsValueBelow128(bits: seq<Bit>)
    requires |bits| < 8
    ensures BitsValue(bits) < 128
  {
    PowMonotone(|bits|, 7);
    assert Pow2(7) == 128;
  }

  lemma BitsValueSnoc(bits: seq<Bit>, b: Bit)
    ensures BitsValue(bits + [b]) == BitsValue(bits) * 2 + b
  {
    assert (bits + [b])[..|bits|] == bits;
  }

  /** A value below 256 is its own remainder; stated apart so that the
      solver proves it without the bit sequences in view. */
  lemma SmallMod(x: int)
    requires 0 <= x < 256
    ensures x % 256 == x
  {
  }

  /** Reducing a byte-sized value modulo 256, stated apart so that the solver
      proves it without the shift's definition in view. */
  lemma ModOfByte(x: int, y: int)
    requires x == y && 0 <= y < 256
    ensures x % 256 == y
  {
  }

  lemma AppendBit(full: seq<Bit>, tail: seq<Bit>, e: seq<Bit>, c: seq<Bit>, b: Bit)
    requires full + tail == e + c
    ensures full + (tail + [b]) == e + (c + [b])
  {
    assert full + (tail + [b]) == (full + tail) + [b];
    assert e + (c + [b]) == (e + c) + [b];
  }

  /** A completed byte is written after the ones before it. */
  lemma ByteComplete(full: seq<Bit>, tail: seq<Bit>)
    requires |full| % 8 == 0 && |tail| == 8
    ensures PackBits(full) + [BitsValue(tail)] == PackBits(full + tail)
    ensures |full + tail| % 8 == 0
  {
    PackBitsConcat(full, tail);
    PackShort(tail, 0);
    assert tail + Zeros(0) == tail;
    assert (|full| + 8) % 8 == 0;
  }

  /** The last partial byte, shifted left into place. */
  lemma PackLastByte(full: seq<Bit>, tail: seq<Bit>, k: nat)
    requires |full| % 8 == 0 && 0 < |tail| && |tail| + k == 8
    ensures PackBits(full) + [ShiftLeft(BitsValue(tail), k) % 256] == PackBits(full + tail)
  {
    PackBitsConcat(full, tail);
    LastByteValue(tail, k);
    PackShort(tail, k);
  }

  /** Shifting the last bits into place is appending zero bits. */
  lemma LastByteValue(tail: seq<Bit>, k: nat)
    requires |tail| + k == 8
    ensures ShiftLeft(BitsValue(tail), k) % 256 == BitsValue(tail + Zeros(k))
  {
    BitsValueZeros(tail, k);
    ByteValueBound(tail + Zeros(k));
    ModOfByte(ShiftLeft(BitsValue(tail), k), BitsValue(tail + Zeros(k)));
  }

  lemma ByteValueBound(bits: seq<Bit>)
    requires |bits| == 8
    ensures BitsValue(bits) < 256
  {
    assert Pow2(8) == 256;
  }

  lemma PackShort(tail: seq<Bit>, k: nat)
    requires 0 < |tail| && |tail| + k == 8
    ensures PackBits(tail) == [BitsValue(tail + Zeros(k))]
  {
  }

  lemma {:induction false} PowMonotone(m: nat, n: nat)
    requires m <= n
    ensures Pow2(m) <= Pow2(n)
  {
    if m < n {
      PowMonotone(m, n - 1);
    }
  }
}
