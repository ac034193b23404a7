/** Bit fields of byte sequences, and the integers they stand for. */
module Numbers {
  import opened Bits

  /** An integer result: the signed alternative holds negative values only. */
  datatype Number = UnsignedNumber(u: nat) | SignedNumber(s: int) {
    function Value(): int {
      match this
      case UnsignedNumber(u) => u
      case SignedNumber(s) => s
    }

    /** Held in 64 bits, in the alternative that its sign asks for. */
    predicate Canonical() {
      match this
      case UnsignedNumber(u) => u < TWO_TO_64
      case SignedNumber(s) => -0x8000_0000_0000_0000 <= s < 0
    }

    /** Equality of numbers: the alternatives are never equal to one another. */
    predicate Equals(other: Number) {
      match (this, other)
      case (UnsignedNumber(a), UnsignedNumber(b)) => a == b
      case (SignedNumber(a), SignedNumber(b)) => a == b
      case (_, _) => false
    }
  }

  /** Numbers compare by value, whichever alternative holds them. */
  lemma EqualsIsByValue(a: Number, b: Number)
    requires a.Canonical() && b.Canonical()
    ensures a.Equals(b) <==> a.Value() == b.Value()
  {
  }

  /** The constructor from a signed 64-bit integer. */
  function FromSigned(v: int): Number {
    if v < 0 then SignedNumber(v) else UnsignedNumber(v)
  }

  /** Bit `i` of the bytes, most significant bit of each byte first. */
  function Bit(bytes: seq<byte>, i: nat): nat
    requires i < 8 * |bytes|
  {
    Shr(bytes[i / 8], 7 - i % 8) % 2
  }

  /** The number written by the `n` bits from bit `p` on, most significant first. */
  function BitsValue(bytes: seq<byte>, p: nat, n: nat): nat
    requires p + n <= 8 * |bytes|
  {
    if n == 0 then 0 else 2 * BitsValue(bytes, p, n - 1) + Bit(bytes, p + n - 1)
  }

  function BigValue(bytes: seq<byte>): nat {
    if bytes == [] then 0
    else 256 * BigValue(bytes[..|bytes| - 1]) + bytes[|bytes| - 1]
  }

  function LittleValue(bytes: seq<byte>): nat {
    if bytes == [] then 0 else bytes[0] + 256 * LittleValue(bytes[1..])
  }

  function LittleBytes(v: nat, n: nat): (r: seq<byte>)
    ensures |r| == n
  {
    if n == 0 then [] else [v % 256] + LittleBytes(v / 256, n - 1)
  }

  /** The integer that `size` bits stand for in two's complement. */
  function TwosComplement(v: nat, size: nat): int
    requires size >= 1
  {
    if v < Pow2(size - 1) then v else v - Pow2(size)
  }

  lemma {:induction false} BitsBound(bytes: seq<byte>, p: nat, n: nat)
    requires p + n <= 8 * |bytes|
    ensures BitsValue(bytes, p, n) < Pow2(n)
  {
    if n > 0 {
      BitsBound(bytes, p, n - 1);
    }
  }

  lemma {:induction false} BitsConcat(bytes: seq<byte>, p: nat, m: nat, n: nat)
    requires p + m + n <= 8 * |bytes|
    ensures BitsValue(bytes, p, m + n) == Shl(BitsValue(bytes, p, m), n) + BitsValue(bytes, p + m, n)
  {
    if n > 0 {
      BitsConcat(bytes, p, m, n - 1);
      assert p + (m + n) - 1 == p + m + n - 1;
    }
  }

  lemma {:induction false} ShrNext(v: nat, k: nat)
    ensures Shr(v, k + 1) == Shr(v, k) / 2
  {
    if k > 0 {
      ShrNext(v / 2, k - 1);
    }
  }

  lemma {:induction false} ShrMonotone(v: nat, k: nat)
    ensures Shr(v, k) <= v
  {
    if k > 0 {
      ShrMonotone(v / 2, k - 1);
    }
  }

  /** Bits within one byte: drop the lower ones, mask off the higher ones. */
  lemma {:induction false} ByteBits(bytes: seq<byte>, i: nat, o: nat, n: nat)
    requires i < |bytes| && o + n <= 8
    ensures BitsValue(bytes, 8 * i + o, n) == Shr(bytes[i], 8 - o - n) % Pow2(n)
  {
    if n > 0 {
      ByteBits(bytes, i, o, n - 1);
      var y := Shr(bytes[i], 8 - o - n);
      ShrNext(bytes[i], 8 - o - n);
      ModDouble(y, Pow2(n - 1));
      assert (8 * i + o + n - 1) / 8 == i && (8 * i + o + n - 1) % 8 == o + n - 1;
    }
  }

  lemma {:induction false} BitsOfSlice(file: seq<byte>, k: nat, len: nat, o: nat, n: nat)
    requires k + len <= |file| && o + n <= 8 * len
    ensures BitsValue(file, 8 * k + o, n) == BitsValue(file[k..k + len], o, n)
  {
    if n > 0 {
      BitsOfSlice(file, k, len, o, n - 1);
      assert (8 * k + o + n - 1) / 8 == k + (o + n - 1) / 8;
    }
  }

  /** Eight more bits that are a whole byte. */
  lemma {:induction false} BitsAppendByte(bytes: seq<byte>, i: nat, p: nat)
    requires i < |bytes| && p <= 8 * i
    ensures BitsValue(bytes, p, 8 * i + 8 - p) == BitsValue(bytes, p, 8 * i - p) * 256 + bytes[i]
  {
    BitsConcat(bytes, p, 8 * i - p, 8);
    ByteBits(bytes, i, 0, 8);
    BytePowers();
    ShlByte(BitsValue(bytes, p, 8 * i - p), 0);
  }

  lemma {:induction false} BigValueOfBits(bytes: seq<byte>)
    ensures BitsValue(bytes, 0, 8 * |bytes|) == BigValue(bytes)
  {
    if bytes != [] {
      var n := |bytes| - 1;
      BigValueOfBits(bytes[..n]);
      BitsOfSlice(bytes, 0, n, 0, 8 * n);
      BitsAppendByte(bytes, n, 0);
    }
  }

  lemma {:induction false} LittleSnoc(bytes: seq<byte>, x: byte)
    ensures LittleValue(bytes + [x]) == LittleValue(bytes) + Shl(x, 8 * |bytes|)
  {
    if bytes != [] {
      assert (bytes + [x])[1..] == bytes[1..] + [x];
      LittleSnoc(bytes[1..], x);
      ShlByte(x, 8 * (|bytes| - 1));
    }
  }

  lemma {:induction false} LittleBound(bytes: seq<byte>)
    ensures LittleValue(bytes) < Pow2(8 * |bytes|)
  {
    if bytes != [] {
      LittleBound(bytes[1..]);
      PowSum(8, 8 * (|bytes| - 1));
      BytePowers();
    }
  }

  /** Reading little endian undoes writing little endian, at every width. */
  lemma {:induction false} LittleRoundTrip(v: nat, n: nat)
    requires v < Pow2(8 * n)
    ensures LittleValue(LittleBytes(v, n)) == v
  {
    if n > 0 {
      PowSum(8, 8 * (n - 1));
      BytePowers();
      LittleRoundTrip(v / 256, n - 1);
      assert LittleBytes(v, n)[1..] == LittleBytes(v / 256, n - 1);
    }
  }

  /** Two's complement covers the signed range of its width and keeps the residue. */
  lemma {:induction false} TwosComplementRange(v: nat, size: nat)
    requires size >= 1 && v < Pow2(size)
    ensures 0 - Pow2(size - 1) <= TwosComplement(v, size) < Pow2(size - 1)
    ensures TwosComplement(v, size) == v || TwosComplement(v, size) == v - Pow2(size)
    ensures TwosComplement(v, size) < 0 <==> v / Pow2(size - 1) == 1
  {
    var m := Pow2(size - 1);
    ModUnique(v, m, if v < m then 0 else 1, if v < m then v else v - m);
  }

  /** Bytes of one length are told apart by the numbers they write, in either order. */
  lemma {:induction false} BigInjective(a: seq<byte>, b: seq<byte>)
    requires |a| == |b|
    ensures BigValue(a) == BigValue(b) <==> a == b
  {
    if a != [] {
      var n := |a| - 1;
      BigInjective(a[..n], b[..n]);
      assert a == a[..n] + [a[n]] && b == b[..n] + [b[n]];
    }
  }

  lemma {:induction false} LittleInjective(a: seq<byte>, b: seq<byte>)
    requires |a| == |b|
    ensures LittleValue(a) == LittleValue(b) <==> a == b
  {
    if a != [] {
      LittleInjective(a[1..], b[1..]);
      assert a == [a[0]] + a[1..] && b == [b[0]] + b[1..];
    }
  }
}
