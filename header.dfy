/** The header of the encoded file: the number of used symbols as an `int`,
    then one record per used symbol, its byte and its frequency as an
    `unsigned long long` (written at huffman.c:128-137, read back at
    huffman.c:171-179). Both integers are taken as little-endian, 4 and 8
    bytes wide. */
module Header {
  import opened Common
  import opened Frequency

  /** sizeof(int) */
  const IntSize: nat := 4
  /** sizeof(unsigned long long) */
  const FrequencySize: nat := 8
  /** One record: the symbol byte and its frequency. */
  const RecordSize: nat := 9

  /** 256^n, the number of values `n` bytes can hold. */
  function Pow256(n: nat): (r: nat)
    ensures r >= 1
  {
    Pow2(8 * n)
  }

  lemma Pow256Step(n: nat)
    requires n > 0
    ensures Pow256(n) == 256 * Pow256(n - 1)
  {
    var m := 8 * (n - 1);
    assert Pow2(m + 8) == 2 * Pow2(m + 7) == 4 * Pow2(m + 6) == 8 * Pow2(m + 5) == 16 * Pow2(m + 4);
    assert Pow2(m + 4) == 2 * Pow2(m + 3) == 4 * Pow2(m + 2) == 8 * Pow2(m + 1) == 16 * Pow2(m);
  }

  /** The `n` bytes that store `x` in memory, least significant first. A
      value too wide for `n` bytes keeps only its low `n` bytes. */
  function LittleEndian(x: nat, n: nat): (bytes: seq<Byte>)
    ensures |bytes| == n
  {
    if n == 0 then [] else [x % 256] + LittleEndian(x / 256, n - 1)
  }

  /** The unsigned value of bytes stored least significant first. */
  function FromLittleEndian(bytes: seq<Byte>): (v: nat)
    ensures bytes != [] ==> v % 256 == bytes[0]
  {
    if bytes == [] then 0 else bytes[0] + 256 * FromLittleEndian(bytes[1..])
  }

  /** `n` bytes hold a value below 256^n. */
  lemma {:induction false} FromLittleEndianBound(bytes: seq<Byte>)
    ensures FromLittleEndian(bytes) < Pow256(|bytes|)
  {
    if bytes != [] {
      Pow256Step(|bytes|);
      FromLittleEndianBound(bytes[1..]);
    }
  }

  /** The signed `int` four bytes hold, in two's complement. */
  function IntValue(bytes: seq<Byte>): (v: int)
    requires |bytes| == IntSize
    ensures -0x8000_0000 <= v < 0x8000_0000
    ensures v < 0 <==> bytes[3] >= 128
  {
    FromLittleEndianInt(bytes);
    var u := FromLittleEndian(bytes);
    if u >= 0x8000_0000 then u - 0x1_0000_0000 else u
  }

  /** Four bytes hold their weighted sum; the last one is the most significant. */
  lemma FromLittleEndianInt(bytes: seq<Byte>)
    requires |bytes| == IntSize
    ensures FromLittleEndian(bytes) == bytes[0] as int + 0x100 * (bytes[1] as int)
      + 0x1_0000 * (bytes[2] as int) + 0x100_0000 * (bytes[3] as int)
  {
    var b1 := bytes[1..];
    var b2 := b1[1..];
    var b3 := b2[1..];
    assert b3[1..] == [];
    assert FromLittleEndian(b3) == bytes[3];
    assert FromLittleEndian(b2) == bytes[2] + 256 * FromLittleEndian(b3);
    assert FromLittleEndian(b1) == bytes[1] + 256 * FromLittleEndian(b2);
  }

  lemma {:induction false} LittleEndianRoundTrip(x: nat, n: nat)
    requires x < Pow256(n)
    ensures FromLittleEndian(LittleEndian(x, n)) == x
  {
    if n > 0 {
      Pow256Step(n);
      LittleEndianRoundTrip(x / 256, n - 1);
      assert LittleEndian(x, n)[1..] == LittleEndian(x / 256, n - 1);
    }
  }

  /** One (symbol, frequency) pair of the header. */
  datatype Record = Record(symbol: Byte, frequency: nat)

  /** The records the writing loop emits for the symbols below `i`: one per
      nonzero frequency, in ascending symbol order. */
  function HeaderRecords(freq: seq<nat>, i: nat): (records: seq<Record>)
    requires |freq| == SymbolCount && i <= SymbolCount
    ensures |records| <= i
  {
    if i == 0 then []
    else if freq[i - 1] != 0 then HeaderRecords(freq, i - 1) + [Record(i - 1, freq[i - 1])]
    else HeaderRecords(freq, i - 1)
  }

  /** The bytes of a run of records, each written as its symbol byte
      followed by the eight bytes of its frequency. */
  function RecordBytes(records: seq<Record>): (bytes: seq<Byte>)
    ensures |bytes| == RecordSize * |records|
  {
    if records == [] then []
    else [records[0].symbol] + LittleEndian(records[0].frequency, FrequencySize) + RecordBytes(records[1..])
  }

  /** The whole header for a frequency table. */
  function HeaderBytes(freq: seq<nat>): (h: seq<Byte>)
    requires |freq| == SymbolCount
    ensures |h| == IntSize + RecordSize * |UsedSymbols(freq, SymbolCount)|
    ensures |h| <= IntSize + RecordSize * SymbolCount
  {
    HeaderRecordsCount(freq, SymbolCount);
    var records := HeaderRecords(freq, SymbolCount);
    LittleEndian(|records|, IntSize) + RecordBytes(records)
  }

  lemma {:induction false} RecordBytesConcat(a: seq<Record>, b: seq<Record>)
    ensures RecordBytes(a + b) == RecordBytes(a) + RecordBytes(b)
  {
    if a != [] {
      assert (a + b)[0] == a[0] && (a + b)[1..] == a[1..] + b;
      RecordBytesConcat(a[1..], b);
    } else {
      assert a + b == b;
    }
  }

  /** huffman.c:128-137: count the used symbols, write the count, then write
      a record for each used symbol in ascending order. */
  method WriteHeader(freq: seq<nat>) returns (header: seq<Byte>)
    requires |freq| == SymbolCount
    ensures header == HeaderBytes(freq)
  {
    var used := 0;
    for i := 0 to SymbolCount
      invariant used == |HeaderRecords(freq, i)|
    {
      CountStep(freq, i);
      if freq[i] != 0 {
        used := used + 1;
      }
    }
    header := LittleEndian(used, IntSize);
    for i := 0 to SymbolCount
      invariant header == LittleEndian(used, IntSize) + RecordBytes(HeaderRecords(freq, i))
    {
      RecordBytesStep(freq, i);
      if freq[i] != 0 {
        header := header + ([i] + LittleEndian(freq[i], FrequencySize));
      }
    }
  }

  /** One turn of the counting loop counts symbol i exactly when it is used.
      Dafny proves this by unfolding HeaderRecords once; it is kept as a
      separate lemma so that WriteHeader's loop does not unfold it itself. */
  lemma CountStep(freq: seq<nat>, i: nat)
    requires |freq| == SymbolCount && i < SymbolCount
    ensures |HeaderRecords(freq, i + 1)| == |HeaderRecords(freq, i)| + if freq[i] != 0 then 1 else 0
  {
  }

  /** One turn of the writing loop adds the bytes of symbol `i`'s record,
      if it has one. */
  lemma RecordBytesStep(freq: seq<nat>, i: nat)
    requires |freq| == SymbolCount && i < SymbolCount
    ensures RecordBytes(HeaderRecords(freq, i + 1)) == RecordBytes(HeaderRecords(freq, i)) +
      (if freq[i] != 0 then [i] + LittleEndian(freq[i], FrequencySize) else [])
  {
    if freq[i] != 0 {
      var r := Record(i, freq[i]);
      RecordBytesConcat(HeaderRecords(freq, i), [r]);
      assert RecordBytes([r]) == [i] + LittleEndian(freq[i], FrequencySize) + RecordBytes([]);
    }
  }

  // ---------------------------------------------------------------------
  // Reading the header back
  // ---------------------------------------------------------------------

  /** The header is long enough for the count and for every record the
      count announces (a negative count announces none). */
  predicate HeaderFits(bytes: seq<Byte>)
  {
    |bytes| >= IntSize &&
    var used := IntValue(bytes[..IntSize]);
    used <= 0 || |bytes| >= IntSize + RecordSize * used
  }

  /** `k` turns of the reading loop: each reads a symbol byte and an eight-byte
      frequency and stores the frequency in the table; returns the table and
      the bytes after the records. */
  function ReadRecords(bytes: seq<Byte>, k: nat, table: seq<nat>): (r: (seq<nat>, seq<Byte>))
    requires |bytes| >= RecordSize * k && |table| == SymbolCount
    ensures |r.0| == SymbolCount
  {
    if k == 0 then (table, bytes)
    else ReadRecords(bytes[RecordSize..], k - 1, table[bytes[0] := FromLittleEndian(bytes[1..RecordSize])])
  }

  /** Each turn of the reading loop consumes exactly one record. */
  lemma {:induction false} ReadRecordsRest(bytes: seq<Byte>, k: nat, table: seq<nat>)
    requires |bytes| >= RecordSize * k && |table| == SymbolCount
    ensures ReadRecords(bytes, k, table).1 == bytes[RecordSize * k..]
    decreases k
  {
    if k > 0 {
      ReadRecordsRest(bytes[RecordSize..], k - 1, table[bytes[0] := FromLittleEndian(bytes[1..RecordSize])]);
      assert bytes[RecordSize..][RecordSize * (k - 1)..] == bytes[RecordSize * k..];
    }
  }

  /** huffman.c:171-179 on a header that fits: the table (zeroed first) with
      every record stored in it, and the payload that follows. */
  function ParseHeader(bytes: seq<Byte>): (r: (seq<nat>, seq<Byte>))
    requires HeaderFits(bytes)
    ensures |r.0| == SymbolCount
    ensures |r.1| <= |bytes| - IntSize && r.1 == bytes[|bytes| - |r.1|..]
  {
    var used := IntValue(bytes[..IntSize]);
    ReadRecordsRest(bytes[IntSize..], if used < 0 then 0 else used, Repeat<nat>(0, SymbolCount));
    ReadRecords(bytes[IntSize..], if used < 0 then 0 else used, Repeat<nat>(0, SymbolCount))
  }

  /** The reading loop on a frequency array. */
  method ReadHeader(bytes: seq<Byte>) returns (freq: seq<nat>, payload: seq<Byte>)
    requires HeaderFits(bytes)
    ensures (freq, payload) == ParseHeader(bytes)
  {
    var used := IntValue(bytes[..IntSize]);
    var frequency := new nat[SymbolCount](_ => 0);
    assert frequency[..] == Repeat<nat>(0, SymbolCount);
    var pos := IntSize;
    var i := 0;
    while i < used
      invariant 0 <= i && (used < 0 ==> i == 0) && (used >= 0 ==> i <= used)
      invariant pos == IntSize + RecordSize * i <= |bytes| && (used >= 0 ==> |bytes| >= pos + RecordSize * (used - i))
      invariant ReadRecords(bytes[pos..], if used < 0 then 0 else used - i, frequency[..]) == ParseHeader(bytes)
    {
      var c := bytes[pos];
      var f := FromLittleEndian(bytes[pos + 1..pos + RecordSize]);
      ReadOneRecord(bytes, pos, used - i, frequency[..]);
      frequency[c] := f;
      pos := pos + RecordSize;
      i := i + 1;
    }
    freq := frequency[..];
    payload := bytes[pos..];
  }

  /** One turn of the reading loop at byte `pos`: the record there is stored
      and reading goes on after it. */
  lemma ReadOneRecord(bytes: seq<Byte>, pos: nat, k: nat, table: seq<nat>)
    requires k > 0 && |bytes| >= pos + RecordSize * k && |table| == SymbolCount
    ensures ReadRecords(bytes[pos..], k, table)
      == ReadRecords(bytes[pos + RecordSize..], k - 1, table[bytes[pos] := FromLittleEndian(bytes[pos + 1..pos + RecordSize])])
  {
    assert bytes[pos..][1..RecordSize] == bytes[pos + 1..pos + RecordSize];
    assert bytes[pos..][RecordSize..] == bytes[pos + RecordSize..];
  }

  // ---------------------------------------------------------------------
  // What the header says about the table
  // ---------------------------------------------------------------------

  /** The table after storing each record in turn. */
  function Store(records: seq<Record>, table: seq<nat>): (r: seq<nat>)
    requires |table| == SymbolCount
    ensures |r| == SymbolCount
  {
    if records == [] then table
    else Store(records[1..], table[records[0].symbol := records[0].frequency])
  }

  lemma {:induction false} StoreSnoc(records: seq<Record>, x: Record, table: seq<nat>)
    requires |table| == SymbolCount
    ensures Store(records + [x], table) == Store(records, table)[x.symbol := x.frequency]
  {
    if records != [] {
      var head := records[0];
      assert (records + [x])[1..] == records[1..] + [x];
      StoreSnoc(records[1..], x, table[head.symbol := head.frequency]);
    } else {
      assert records + [x] == [x];
    }
  }

  /** Storing the records of the symbols below `i` into a zero table
      restores exactly those frequencies. */
  lemma {:induction false} StoreHeaderRecords(freq: seq<nat>, i: nat)
    requires |freq| == SymbolCount && i <= SymbolCount
    ensures Store(HeaderRecords(freq, i), Repeat<nat>(0, SymbolCount)) == seq(SymbolCount, b requires 0 <= b < SymbolCount => if b < i then freq[b] else 0)
  {
    if i > 0 {
      StoreHeaderRecords(freq, i - 1);
      if freq[i - 1] != 0 {
        StoreSnoc(HeaderRecords(freq, i - 1), Record(i - 1, freq[i - 1]), Repeat<nat>(0, SymbolCount));
      }
    }
  }

  /** Reading back the bytes of records whose frequencies fit eight bytes
      stores exactly those records and stops right after them. */
  lemma {:induction false} ReadRecordBytes(records: seq<Record>, rest: seq<Byte>, table: seq<nat>)
    requires |table| == SymbolCount
    requires forall k :: 0 <= k < |records| ==> records[k].frequency < Pow256(FrequencySize)
    ensures ReadRecords(RecordBytes(records) + rest, |records|, table) == (Store(records, table), rest)
  {
    if records != [] {
      var head := records[0];
      var enc := LittleEndian(head.frequency, FrequencySize);
      var after := RecordBytes(records[1..]) + rest;
      assert RecordBytes(records) + rest == [head.symbol] + enc + after;
      RecordSlices(head.symbol, enc, after);
      LittleEndianRoundTrip(head.frequency, FrequencySize);
      ReadRecordBytes(records[1..], rest, table[head.symbol := head.frequency]);
    } else {
      assert RecordBytes(records) + rest == rest;
    }
  }

  /** Where the fields of one record sit in the bytes. */
  lemma RecordSlices(symbol: Byte, enc: seq<Byte>, after: seq<Byte>)
    requires |enc| == FrequencySize
    ensures var bytes := [symbol] + enc + after;
      bytes[0] == symbol && bytes[1..RecordSize] == enc && bytes[RecordSize..] == after
  {
  }

  lemma {:induction false} HeaderRecordsSound(freq: seq<nat>, i: nat)
    requires |freq| == SymbolCount && i <= SymbolCount
    ensures forall k :: 0 <= k < |HeaderRecords(freq, i)| ==>
      var r := HeaderRecords(freq, i)[k]; r.symbol < i && r.frequency == freq[r.symbol] != 0
  {
    if i > 0 {
      HeaderRecordsSound(freq, i - 1);
    }
  }

  lemma {:induction false} HeaderRecordsCount(freq: seq<nat>, i: nat)
    requires |freq| == SymbolCount && i <= SymbolCount
    ensures |HeaderRecords(freq, i)| == |UsedSymbols(freq, i)|
  {
    if i > 0 {
      HeaderRecordsCount(freq, i - 1);
    }
  }

  lemma {:induction false} HeaderRecordsAscending(freq: seq<nat>, i: nat)
    requires |freq| == SymbolCount && i <= SymbolCount
    ensures forall j, k :: 0 <= j < k < |HeaderRecords(freq, i)| ==>
      HeaderRecords(freq, i)[j].symbol < HeaderRecords(freq, i)[k].symbol
  {
    if i > 0 {
      HeaderRecordsAscending(freq, i - 1);
      HeaderRecordsSound(freq, i - 1);
    }
  }

  lemma {:induction false} HeaderRecordsComplete(freq: seq<nat>, i: nat)
    requires |freq| == SymbolCount && i <= SymbolCount
    ensures forall b: Byte :: b < i && freq[b] != 0 ==> Record(b, freq[b]) in HeaderRecords(freq, i)
  {
    if i > 0 {
      HeaderRecordsComplete(freq, i - 1);
    }
  }

  /** The count written first is the number of used symbols, and the records
      list every used symbol with its frequency, in strictly ascending
      symbol order. */
  lemma HeaderRecordsOrdered(freq: seq<nat>, i: nat)
    requires |freq| == SymbolCount && i <= SymbolCount
    ensures |HeaderRecords(freq, i)| == |UsedSymbols(freq, i)|
    ensures forall j, k :: 0 <= j < k < |HeaderRecords(freq, i)| ==>
      HeaderRecords(freq, i)[j].symbol < HeaderRecords(freq, i)[k].symbol
    ensures forall k :: 0 <= k < |HeaderRecords(freq, i)| ==>
      HeaderRecords(freq, i)[k].frequency == freq[HeaderRecords(freq, i)[k].symbol] != 0
    ensures forall b: Byte :: b < i && freq[b] != 0 ==> Record(b, freq[b]) in HeaderRecords(freq, i)
  {
    HeaderRecordsCount(freq, i);
    HeaderRecordsAscending(freq, i);
    HeaderRecordsSound(freq, i);
    HeaderRecordsComplete(freq, i);
  }

  /** The symbol count, written as an `int`, reads back unchanged. */
  lemma CountRoundTrip(n: nat)
    requires n <= SymbolCount
    ensures IntValue(LittleEndian(n, IntSize)) == n
  {
    Pow256Step(1);
    Pow256Step(2);
    Pow256Step(3);
    Pow256Step(4);
    assert Pow256(IntSize) == 0x1_0000_0000;
    LittleEndianRoundTrip(n, IntSize);
  }

  /** Reading back what the writer wrote, whatever payload follows, gives
      the original table and that payload, as long as every frequency fits
      an `unsigned long long`. */
  lemma HeaderRoundTrip(freq: seq<nat>, payload: seq<Byte>)
    requires |freq| == SymbolCount
    requires forall b: Byte :: freq[b] < Pow256(FrequencySize)
    ensures HeaderFits(HeaderBytes(freq) + payload)
    ensures ParseHeader(HeaderBytes(freq) + payload) == (freq, payload)
  {
    var records := HeaderRecords(freq, SymbolCount);
    var bytes := HeaderBytes(freq) + payload;
    var n := |records|;
    assert bytes[..IntSize] == LittleEndian(n, IntSize);
    CountRoundTrip(n);
    assert bytes[IntSize..] == RecordBytes(records) + payload;
    HeaderRecordsSound(freq, SymbolCount);
    ReadRecordBytes(records, payload, Repeat<nat>(0, SymbolCount));
    StoreAllRecords(freq);
    assert HeaderFits(bytes);
  }

  /** Storing every record of the header in a zeroed table gives back the
      whole frequency table. */
  lemma StoreAllRecords(freq: seq<nat>)
    requires |freq| == SymbolCount
    ensures Store(HeaderRecords(freq, SymbolCount), Repeat<nat>(0, SymbolCount)) == freq
  {
    StoreHeaderRecords(freq, SymbolCount);
  }
}
