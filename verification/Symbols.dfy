/** The records the Huffman code construction sorts and rewrites in place. */
module Symbols {
  import opened Bits

  /** One element of the symbol array: the key is a frequency first, later a weight, a parent
      index, a depth and finally a code length. */
  datatype SymFreq = SymFreq(key: u16, sym: u16)

  function Keys(a: seq<SymFreq>): (k: seq<nat>)
    ensures |k| == |a| && forall i :: 0 <= i < |a| ==> k[i] == a[i].key
  {
    seq(|a|, i requires 0 <= i < |a| => a[i].key)
  }
}
