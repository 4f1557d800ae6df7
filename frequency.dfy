/** The frequency scan of the encoder (huffman.c:89-91). */
module Frequency {
  import opened Common

  /** How many times `b` occurs in `s`. */
  function Occurrences(s: seq<Byte>, b: Byte): nat
  {
    if s == [] then 0
    else Occurrences(s[..|s| - 1], b) + (if s[|s| - 1] == b then 1 else 0)
  }

  /** The frequency table of `s`: entry b is the number of occurrences of b. */
  function Histogram(s: seq<Byte>): (h: seq<nat>)
    ensures |h| == SymbolCount
  {
    seq(SymbolCount, b requires 0 <= b < SymbolCount => Occurrences(s, b))
  }

  /** A byte is counted exactly when it occurs. */
  lemma {:induction false} OccurrencesPositive(s: seq<Byte>, b: Byte)
    ensures Occurrences(s, b) > 0 <==> b in s
  {
    if s != [] {
      var init := s[..|s| - 1];
      OccurrencesPositive(init, b);
      assert s == init + [s[|s| - 1]];
    }
  }

  /** Sum of a table after one entry grew by one. */
  lemma {:induction false} SumIncrement(t: seq<nat>, k: nat)
    requires k < |t|
    ensures Sum(t[k := t[k] + 1]) == Sum(t) + 1
  {
    var n := |t| - 1;
    var u := t[k := t[k] + 1];
    assert u[..n] == if k < n then t[..n][k := t[k] + 1] else t[..n];
    if k < n {
      SumIncrement(t[..n], k);
    }
  }

  /** The frequencies add up to the length of the input. */
  lemma {:induction false} HistogramSum(s: seq<Byte>)
    ensures Sum(Histogram(s)) == |s|
  {
    if s == [] {
      ZeroTableSum(SymbolCount);
      assert Histogram(s) == seq(SymbolCount, _ => 0);
    } else {
      var init, x := s[..|s| - 1], s[|s| - 1];
      HistogramSum(init);
      assert Histogram(s) == Histogram(init)[x := Histogram(init)[x] + 1];
      SumIncrement(Histogram(init), x);
    }
  }

  lemma {:induction false} ZeroTableSum(n: nat)
    ensures Sum(seq(n, _ => 0)) == 0
  {
    if n > 0 {
      assert seq(n, _ => 0)[..n - 1] == seq(n - 1, _ => 0);
      ZeroTableSum(n - 1);
    }
  }

  /** The symbols below `i` whose frequency is nonzero, each once: the
      symbols that get a leaf, and the entries the header lists. */
  function UsedSymbols(freq: seq<nat>, i: nat): multiset<Byte>
    requires |freq| == SymbolCount && i <= SymbolCount
  {
    if i == 0 then multiset{}
    else if freq[i - 1] != 0 then UsedSymbols(freq, i - 1) + multiset{i - 1}
    else UsedSymbols(freq, i - 1)
  }

  /** UsedSymbols holds exactly the nonzero entries below `i`, once each. */
  lemma {:induction false} UsedSymbolsExactly(freq: seq<nat>, i: nat, b: Byte)
    requires |freq| == SymbolCount && i <= SymbolCount
    ensures UsedSymbols(freq, i)[b] == if b < i && freq[b] != 0 then 1 else 0
  {
    if i > 0 {
      UsedSymbolsExactly(freq, i - 1, b);
    }
  }

  lemma {:induction false} UsedSymbolsSize(freq: seq<nat>, i: nat)
    requires |freq| == SymbolCount && i <= SymbolCount
    ensures |UsedSymbols(freq, i)| <= i
  {
    if i > 0 {
      UsedSymbolsSize(freq, i - 1);
    }
  }

  /** The scan: a zeroed table of SYMBOL_COUNT counters, incremented once per
      input byte. */
  method CountFrequencies(input: seq<Byte>) returns (freq: seq<nat>)
    ensures freq == Histogram(input)
    ensures forall b: Byte :: freq[b] > 0 <==> b in input
    ensures Sum(freq) == |input|
  {
    var frequency := new nat[SymbolCount](_ => 0);
    var j := 0;
    while j < |input|
      invariant 0 <= j <= |input|
      invariant forall b :: 0 <= b < SymbolCount ==> frequency[b] == Occurrences(input[..j], b)
    {
      var ch := input[j];
      assert input[..j + 1][..j] == input[..j];
      frequency[ch] := frequency[ch] + 1;
      j := j + 1;
    }
    assert input[..j] == input;
    freq := frequency[..];
    forall b: Byte
      ensures freq[b] > 0 <==> b in input
    {
      OccurrencesPositive(input, b);
    }
    HistogramSum(input);
  }
}
