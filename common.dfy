/** Basic types shared by every component of the codec. */
module Common {

  /** One byte, the C `unsigned char`; also the alphabet of the codec. */
  type Byte = x: int | 0 <= x < 256

  /** One bit of a code or of the payload. The code table of the source stores
      the characters '0' and '1'; the packer subtracts '0', so only 0 and 1 matter. */
  type Bit = x: int | 0 <= x < 2

  /** A code: the bits of a root-to-leaf path, first bit first. */
  type Code = seq<Bit>

  datatype Option<+T> = None | Some(value: T)

  /** SYMBOL_COUNT: size of the alphabet, of the frequency table and of the heap array. */
  const SymbolCount: nat := 256

  /** MAX_CODE_LEN: capacity of the `bits` buffer of a BitCode and of the `temp` path buffer. */
  const MaxCodeLen: nat := 256

  /** Sum of a table of counts. */
  function Sum(s: seq<nat>): nat
  {
    if s == [] then 0 else Sum(s[..|s| - 1]) + s[|s| - 1]
  }

  /** `n` copies of `x`. */
  function Repeat<T>(x: T, n: nat): (r: seq<T>)
    ensures |r| == n
    ensures forall i :: 0 <= i < n ==> r[i] == x
  {
    if n == 0 then [] else [x] + Repeat(x, n - 1)
  }

  /** `n` zero bits. */
  function Zeros(n: nat): (r: seq<Bit>)
    ensures |r| == n
    ensures forall i :: 0 <= i < n ==> r[i] == 0
  {
    if n == 0 then [] else [0] + Zeros(n - 1)
  }

  function Pow2(n: nat): (r: nat)
    ensures r >= 1
  {
    if n == 0 then 1 else 2 * Pow2(n - 1)
  }
}
