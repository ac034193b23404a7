/** Bit counts of a binary file as unsigned 64-bit words; sums and differences wrap around. */
module Sizes {
  import opened Bits

  type Size = n: nat | n < TWO_TO_64

  function FromBytes(bytes: nat): (s: Size)
    ensures bytes < 0x2000_0000_0000_0000 ==> s == 8 * bytes
  {
    (8 * bytes) % TWO_TO_64
  }

  function Plus(a: Size, b: Size): Size {
    if a + b < TWO_TO_64 then a + b else a + b - TWO_TO_64
  }

  function Minus(a: Size, b: Size): Size {
    if a >= b then a - b else a - b + TWO_TO_64
  }

  function BitOffset(s: Size): nat {
    s % 8
  }

  function ByteCount(s: Size): nat {
    s / 8
  }

  function ClipToByte(s: Size): Size {
    s - s % 8
  }

  /** Wrapping addition is addition of residues, so it never depends on grouping. */
  lemma PlusIsModular(a: Size, b: Size, c: Size)
    ensures Plus(a, b) == (a + b) % TWO_TO_64
    ensures Plus(Plus(a, b), c) == Plus(a, Plus(b, c))
    ensures Minus(Plus(a, b), a) == b
  {
  }

  /** Bytes are counted as bits before or after they are added, wherever the counts wrap. */
  lemma FromBytesAdds(m: nat, n: nat)
    ensures FromBytes(m + n) == Plus(FromBytes(m), FromBytes(n))
    ensures FromBytes(1) == 8
  {
    SumWraps(8 * m, 8 * n);
  }

  /** Adding wrapped numbers is wrapping their sum. */
  lemma SumWraps(a: nat, b: nat)
    ensures Plus(a % TWO_TO_64, b % TWO_TO_64) == (a + b) % TWO_TO_64
  {
    var r, s := a % TWO_TO_64, b % TWO_TO_64;
    assert (a + b) % TWO_TO_64 == (r + s) % TWO_TO_64;
  }
}
