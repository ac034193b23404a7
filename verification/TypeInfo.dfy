/** Reading one integer out of the bytes of a file at any bit position. */
module IntegerReads {
  import opened Bits
  import opened Numbers
  import opened Options

  /** The number of bytes that `size` bits at bit offset `o` touch. */
  function SpanBytes(o: nat, size: nat): nat {
    (o + size) / 8 + (if (o + size) % 8 != 0 then 1 else 0)
  }

  /** The number that whole bytes write. */
  function BytesValue(bytes: seq<byte>, order: ByteOrder): nat {
    if order == LittleEndian then LittleValue(bytes) else BigValue(bytes)
  }

  /** The word the read assembles from the touched bytes `w`. */
  function RawValue(w: seq<byte>, o: nat, size: nat, order: ByteOrder): nat
    requires o < 8 && 1 <= size <= 64 && |w| == SpanBytes(o, size)
  {
    if order == LittleEndian then LittleValue(w) else RawBig(w, o, size)
  }

  /**
    * Big endian, as written: the last partial byte is shifted down by the number of bits it
    * holds, and a field inside one byte that starts at bit 0 is never read.
    */
  function RawBig(w: seq<byte>, o: nat, size: nat): nat
    requires o < 8 && 1 <= size <= 64 && |w| == SpanBytes(o, size)
  {
    var finalBits := (o + size) % 8;
    if |w| == 1 && o == 0 && finalBits != 0 then 0
    else if |w| == 1 || finalBits == 0 then BitsValue(w, o, size)
    else Or(Shl(BitsValue(w, o, size - finalBits), finalBits), Shr(w[|w| - 1], finalBits))
  }

  /** The number that a word and a signedness stand for, by the sign-fill of the source. */
  function WordNumber(v: nat, size: nat, sign: Signedness): Number
    requires 1 <= size <= 64
  {
    if sign == Signed && And(v, Pow2(size - 1)) != 0 then
      FromSigned(AsInt64(if size != 64 then Or(v, SignFill(size)) else v))
    else
      UnsignedNumber(v)
  }

  /** `~((1 << size) - 1)` */
  function SignFill(size: nat): nat
    requires size <= 64
  {
    PowMonotone(size, 64);
    WordPower();
    TWO_TO_64 - Pow2(size)
  }

  function AsInt64(v: nat): int {
    if v < 0x8000_0000_0000_0000 then v else v - TWO_TO_64
  }

  method DecodeBits(buffer: array<byte>, at: nat, o: nat, size: nat, order: ByteOrder) returns (value: nat)
    requires o < 8 && 1 <= size <= 64
    requires at + SpanBytes(o, size) <= buffer.Length
    requires order == LittleEndian ==> o == 0 && size % 8 == 0
    ensures value == RawValue(buffer[at..at + SpanBytes(o, size)], o, size, order)
    ensures value < TWO_TO_64
  {
    var finalBits := (o + size) % 8;
    var byteCount := SpanBytes(o, size);
    ghost var w := buffer[at..at + byteCount];
    var index;
    value, index := DecodeHead(buffer, at, o, size);
    value, index := DecodeWholeBytes(buffer, at, o, size, order, value, index);
    AssembledBig(w, o, size);
    if finalBits != 0 && byteCount != 1 {
      value := Or(Shl64(value, finalBits), Shr(buffer[at + index], finalBits));
    }
    RawFits(w, o, size, order);
  }

  /** The bits of the first byte, when the field starts inside it. */
  method DecodeHead(buffer: array<byte>, at: nat, o: nat, size: nat) returns (value: nat, index: nat)
    requires o < 8 && 1 <= size <= 64
    requires at + SpanBytes(o, size) <= buffer.Length
    ensures index == if o != 0 then 1 else 0
    ensures value == BigSoFar(buffer[at..at + SpanBytes(o, size)], o, size, index)
  {
    value, index := 0, 0;
    if o != 0 {
      var mask := Pow2(8 - o) - 1;
      var shift := 8 - (if size + o < 8 then size + o else 8);
      value := Shr(And(buffer[at], mask), shift);
      HeadBits(buffer[at..at + SpanBytes(o, size)], o, 8 - o - shift);
      index := 1;
    }
  }

  /** The loop over the bytes that the field covers whole. */
  method DecodeWholeBytes(buffer: array<byte>, at: nat, o: nat, size: nat, order: ByteOrder, head: nat, first: nat)
    returns (value: nat, index: nat)
    requires o < 8 && 1 <= size <= 64
    requires at + SpanBytes(o, size) <= buffer.Length
    requires order == LittleEndian ==> o == 0 && size % 8 == 0
    requires first == if o != 0 then 1 else 0
    requires head == BigSoFar(buffer[at..at + SpanBytes(o, size)], o, size, first)
    ensures index == WholeBytesEnd(o, size)
    ensures order == LittleEndian ==> value == LittleValue(buffer[at..at + SpanBytes(o, size)])
    ensures order != LittleEndian ==> value == BigSoFar(buffer[at..at + SpanBytes(o, size)], o, size, index)
  {
    var finalBits := (o + size) % 8;
    var byteCount := SpanBytes(o, size);
    ghost var w := buffer[at..at + byteCount];
    value, index := head, first;
    while index < byteCount - 1 || (index == byteCount - 1 && finalBits == 0)
      invariant first <= index <= byteCount
      invariant order == LittleEndian ==> value == LittleValue(w[..index])
      invariant order != LittleEndian ==> value == BigSoFar(w, o, size, index)
      invariant index <= WholeBytesEnd(o, size)
      decreases byteCount - index
    {
      assert buffer[at + index] == w[index];
      if order == LittleEndian {
        LittleStep(w, index);
        value := Or(value, Shl64(buffer[at + index], 8 * index));
      } else {
        BigStep(w, o, size, index);
        value := Or(Shl64(value, 8), buffer[at + index]);
      }
      index := index + 1;
    }
    assert finalBits == 0 ==> w[..index] == w;
  }

  /** How many bytes have been taken when only a partial last one can be left. */
  function WholeBytesEnd(o: nat, size: nat): (r: nat)
    requires o < 8 && 1 <= size
    ensures r <= SpanBytes(o, size)
  {
    if (o + size) % 8 == 0 || (o != 0 && SpanBytes(o, size) == 1) then SpanBytes(o, size)
    else SpanBytes(o, size) - 1
  }

  /** The bits of the first `index` bytes, from the field's start up to its end. */
  function BigSoFar(w: seq<byte>, o: nat, size: nat, index: nat): nat
    requires o < 8 && index <= |w| == SpanBytes(o, size)
  {
    if index == 0 then 0
    else BitsValue(w, o, if 8 * index - o <= size then 8 * index - o else size)
  }

  /** Masking off the skipped bits of the first byte leaves the field's first bits. */
  lemma {:induction false} HeadBits(w: seq<byte>, o: nat, n: nat)
    requires |w| >= 1 && 0 < o < 8 && o + n <= 8
    ensures BitsValue(w, o, n) == Shr(And(w[0], Pow2(8 - o) - 1), 8 - o - n)
  {
    ByteBits(w, 0, o, n);
    MaskedBits(w[0], 8 - o - n, n);
  }

  lemma {:induction false} MaskedBits(b: byte, k: nat, n: nat)
    ensures Shr(And(b, Pow2(k + n) - 1), k) == Shr(b, k) % Pow2(n)
  {
    AndLow(b, k + n);
    ShrMod(b, k, n);
  }

  lemma {:induction false} ShrMod(v: nat, k: nat, n: nat)
    ensures Shr(v % Pow2(k + n), k) == Shr(v, k) % Pow2(n)
  {
    if k > 0 {
      var m := Pow2(k + n - 1);
      ModDouble(v, m);
      assert v % Pow2(k + n) / 2 == v / 2 % m;
      ShrMod(v / 2, k - 1, n);
    }
  }

  /** One whole byte more in big endian: nothing is shifted out of the word. */
  lemma {:induction false} BigStep(w: seq<byte>, o: nat, size: nat, index: nat)
    requires o < 8 && 1 <= size <= 64 && index < |w| == SpanBytes(o, size)
    requires index > 0 || o == 0
    requires index < |w| - 1 || (o + size) % 8 == 0
    ensures Or(Shl64(BigSoFar(w, o, size, index), 8), w[index]) == BigSoFar(w, o, size, index + 1)
  {
    assert 8 * index + 8 - o <= size;
    var v := BigSoFar(w, o, size, index);
    assert v == BitsValue(w, o, 8 * index - o);
    BitsBound(w, o, 8 * index - o);
    NoLoss(v, 8 * index - o, 8);
    BytePowers();
    OrDisjoint(v, 8, w[index]);
    ShlByte(v, 0);
    BitsAppendByte(w, index, o);
  }

  /** Shifting an `n`-bit number by `k` bits loses nothing while the sum stays within 64. */
  lemma {:induction false} NoLoss(v: nat, n: nat, k: nat)
    requires v < Pow2(n) && n + k <= 64
    ensures Shl64(v, k) == Shl(v, k)
  {
    ShlBound(v, n, k);
    PowMonotone(n + k, 64);
    WordPower();
  }

  lemma {:induction false} LittleStep(w: seq<byte>, index: nat)
    requires index < |w| <= 8
    ensures Or(LittleValue(w[..index]), Shl64(w[index], 8 * index)) == LittleValue(w[..index + 1])
  {
    BytePowers();
    NoLoss(w[index], 8, 8 * index);
    LittleBound(w[..index]);
    OrDisjoint(w[index], 8 * index, LittleValue(w[..index]));
    OrCommutes(LittleValue(w[..index]), Shl(w[index], 8 * index));
    assert w[..index + 1] == w[..index] + [w[index]];
    LittleSnoc(w[..index], w[index]);
  }

  /** What is left to do after the whole bytes, in big endian. */
  lemma {:induction false} AssembledBig(w: seq<byte>, o: nat, size: nat)
    requires o < 8 && 1 <= size <= 64 && |w| == SpanBytes(o, size)
    ensures var f, end := (o + size) % 8, WholeBytesEnd(o, size);
            RawBig(w, o, size) ==
            if f != 0 && |w| != 1 then Or(Shl64(BigSoFar(w, o, size, end), f), Shr(w[end], f))
            else BigSoFar(w, o, size, end)
  {
    var f := (o + size) % 8;
    if f != 0 && |w| != 1 {
      assert 8 * (|w| - 1) - o == size - f;
      BitsBound(w, o, size - f);
      NoLoss(BitsValue(w, o, size - f), size - f, f);
    }
  }

  lemma {:induction false} OrBound(a: nat, b: nat, n: nat)
    requires a < Pow2(n) && b < Pow2(n)
    ensures Or(a, b) < Pow2(n)
  {
    if n > 0 {
      OrBound(a / 2, b / 2, n - 1);
    }
  }

  lemma {:induction false} RawFits(w: seq<byte>, o: nat, size: nat, order: ByteOrder)
    requires o < 8 && 1 <= size <= 64 && |w| == SpanBytes(o, size)
    requires order == LittleEndian ==> o == 0 && size % 8 == 0
    ensures RawValue(w, o, size, order) < TWO_TO_64
  {
    WordPower();
    PowMonotone(size, 64);
    if order == LittleEndian {
      LittleBound(w);
    } else {
      RawBigFits(w, o, size);
    }
  }

  lemma {:induction false} RawBigFits(w: seq<byte>, o: nat, size: nat)
    requires o < 8 && 1 <= size <= 64 && |w| == SpanBytes(o, size)
    ensures RawBig(w, o, size) < Pow2(64)
  {
    var f := (o + size) % 8;
    if |w| == 1 || f == 0 {
      BitsBound(w, o, size);
      PowMonotone(size, 64);
      assert RawBig(w, o, size) == 0 || RawBig(w, o, size) == BitsValue(w, o, size);
    } else {
      var high := BitsValue(w, o, size - f);
      BitsBound(w, o, size - f);
      OrFits(high, size - f, f, w[|w| - 1]);
      assert RawBig(w, o, size) == Or(Shl(high, f), Shr(w[|w| - 1], f));
    }
  }

  lemma {:induction false} OrFits(v: nat, n: nat, f: nat, last: byte)
    requires v < Pow2(n) && n + f <= 64
    ensures Or(Shl(v, f), Shr(last, f)) < Pow2(64)
  {
    ShlBound(v, n, f);
    PowMonotone(n + f, 64);
    ShrMonotone(last, f);
    BytePowers();
    PowMonotone(8, 64);
    OrBound(Shl(v, f), Shr(last, f), 64);
  }

  /** The layouts for which the big-endian read is right. */
  predicate ReadsExactly(o: nat, size: nat) {
    if SpanBytes(o, size) == 1 then o != 0 || size == 8
    else (o + size) % 8 == 0 || (o + size) % 8 == 4
  }

  /** On these layouts the read gives the number written by the field's bits. */
  lemma {:induction false} RawBigExact(w: seq<byte>, o: nat, size: nat)
    requires o < 8 && 1 <= size <= 64 && |w| == SpanBytes(o, size)
    requires ReadsExactly(o, size)
    ensures RawBig(w, o, size) == BitsValue(w, o, size)
  {
    if |w| > 1 && (o + size) % 8 == 4 {
      FinalBits(w, o, size);
      BytePowers();
      ShrBelow(w[|w| - 1], 4, 4);
      OrDisjoint(BitsValue(w, o, size - 4), 4, Shr(w[|w| - 1], 4));
    }
  }

  /** The field's last partial byte holds its last bits on top. */
  lemma {:induction false} FinalBits(w: seq<byte>, o: nat, size: nat)
    requires o < 8 && 1 <= size <= 64 && |w| == SpanBytes(o, size) > 1
    requires (o + size) % 8 != 0
    ensures var f := (o + size) % 8;
            BitsValue(w, o, size) == Shl(BitsValue(w, o, size - f), f) + Shr(w[|w| - 1], 8 - f)
  {
    var f := (o + size) % 8;
    BitsConcat(w, o, size - f, f);
    assert o + (size - f) == 8 * (|w| - 1);
    TopBits(w, |w| - 1, f);
  }

  /** The first bits of a byte are what is left after shifting the others out. */
  lemma {:induction false} TopBits(w: seq<byte>, i: nat, f: nat)
    requires i < |w| && f <= 8
    ensures BitsValue(w, 8 * i, f) == Shr(w[i], 8 - f)
  {
    ByteBits(w, i, 0, f);
    BytePowers();
    ShrBelow(w[i], 8 - f, f);
    ModUnique(Shr(w[i], 8 - f), Pow2(f), 0, Shr(w[i], 8 - f));
  }

  lemma {:induction false} ShrBelow(v: nat, k: nat, n: nat)
    requires v < Pow2(k + n)
    ensures Shr(v, k) < Pow2(n)
  {
    if k > 0 {
      ShrBelow(v / 2, k - 1, n);
    }
  }

  /**
    * What is read on every layout, by bits: after the bits up to the last byte, those on top of
    * the last byte, but as many as it has to spare, or-ed in.
    */
  lemma {:induction false} RawBigBits(w: seq<byte>, o: nat, size: nat)
    requires o < 8 && 1 <= size <= 64 && |w| == SpanBytes(o, size)
    ensures var last, f := |w| - 1, (o + size) % 8;
      RawBig(w, o, size) ==
      if last == 0 then if o == 0 && f != 0 then 0 else BitsValue(w, o, size)
      else if f == 0 then BitsValue(w, o, size)
      else Or(Shl(BitsValue(w, o, 8 * last - o), f), BitsValue(w, 8 * last, 8 - f))
  {
    var last, f := |w| - 1, (o + size) % 8;
    if last > 0 && f != 0 {
      TopBits(w, last, 8 - f);
      assert size - f == 8 * last - o;
    }
  }

  /** On every other layout some file is read wrong: zero bytes and then 0xFF. */
  lemma {:induction false} RawBigWrong(o: nat, size: nat) returns (w: seq<byte>)
    requires o < 8 && 1 <= size <= 64 && !ReadsExactly(o, size)
    ensures |w| == SpanBytes(o, size)
    ensures RawBig(w, o, size) != BitsValue(w, o, size)
  {
    w := seq(SpanBytes(o, size) - 1, _ => 0) + [0xFF];
    if |w| == 1 {
      assert w == [0xFF];
      WrongInOneByte(size);
    } else {
      WrongLastByte(w, o, size);
    }
  }

  lemma {:induction false} WrongInOneByte(size: nat)
    requires 1 <= size < 8
    ensures BitsValue([0xFF], 0, size) != 0
  {
    BytePowers();
    ByteBits([0xFF], 0, 0, size);
    ShrAllOnes(8, 8 - size);
    ModUnique(Pow2(size) - 1, Pow2(size), 0, Pow2(size) - 1);
    PowMonotone(1, size);
  }

  lemma {:induction false} WrongLastByte(w: seq<byte>, o: nat, size: nat)
    requires o < 8 && 1 <= size <= 64 && |w| == SpanBytes(o, size) > 1
    requires (o + size) % 8 != 0 && (o + size) % 8 != 4
    requires w[|w| - 1] == 0xFF && forall i :: 0 <= i < |w| - 1 ==> w[i] == 0
    ensures RawBig(w, o, size) != BitsValue(w, o, size)
  {
    var f := (o + size) % 8;
    assert BitsValue(w, o, size - f) == 0 by {
      assert 8 * (|w| - 1) == o + (size - f);
      ZeroBits(w, o, size - f);
    }
    FinalBits(w, o, size);
    ShlOne(f);
    BytePowers();
    ShrAllOnes(8, f);
    ShrAllOnes(8, 8 - f);
    PowDistinct(f, 8 - f);
  }

  lemma {:induction false} ShrAllOnes(n: nat, k: nat)
    requires k <= n
    ensures Shr(Pow2(n) - 1, k) == Pow2(n - k) - 1
  {
    if k > 0 {
      ShrAllOnes(n - 1, k - 1);
    }
  }

  lemma {:induction false} PowDistinct(a: nat, b: nat)
    requires a != b
    ensures Pow2(a) != Pow2(b)
  {
    if a < b {
      PowMonotone(a + 1, b);
    } else {
      PowMonotone(b + 1, a);
    }
  }

  lemma {:induction false} ZeroBits(w: seq<byte>, p: nat, n: nat)
    requires p + n <= 8 * |w|
    requires forall i :: p / 8 <= i && 8 * i < p + n ==> w[i] == 0
    ensures BitsValue(w, p, n) == 0
  {
    if n > 0 {
      ZeroBits(w, p, n - 1);
      assert w[(p + n - 1) / 8] == 0;
      ShrMonotone(0, 7 - (p + n - 1) % 8);
    }
  }

  /** The big-endian read is right on every file exactly for the layouts above. */
  lemma {:induction false} RawBigIff(o: nat, size: nat)
    requires o < 8 && 1 <= size <= 64
    ensures (forall w: seq<byte> | |w| == SpanBytes(o, size) :: RawBig(w, o, size) == BitsValue(w, o, size))
            <==> ReadsExactly(o, size)
  {
    if ReadsExactly(o, size) {
      forall w: seq<byte> | |w| == SpanBytes(o, size)
        ensures RawBig(w, o, size) == BitsValue(w, o, size)
      {
        RawBigExact(w, o, size);
      }
    } else {
      var w := RawBigWrong(o, size);
    }
  }

  /** A word of the field's width becomes its two's-complement or plain value. */
  lemma {:induction false} WordNumberValue(v: nat, size: nat, sign: Signedness)
    requires 1 <= size <= 64 && v < Pow2(size)
    ensures WordNumber(v, size, sign).Value() == if sign == Signed then TwosComplement(v, size) else v
    ensures WordNumber(v, size, sign).Canonical()
  {
    PowMonotone(size, 64);
    WordPower();
    SignBit(v, size);
    if sign == Signed && v >= Pow2(size - 1) {
      if size == 64 {
        assert TWO_TO_64 == 2 * Pow2(63);
      } else {
        OrSignFill(v, size);
        PowMonotone(size, 63);
        assert TWO_TO_64 == 2 * Pow2(63);
        assert v + SignFill(size) >= TWO_TO_64 - Pow2(size) >= Pow2(63);
      }
    }
  }

  lemma {:induction false} SignBit(v: nat, size: nat)
    requires size >= 1 && v < Pow2(size)
    ensures And(v, Pow2(size - 1)) != 0 <==> v >= Pow2(size - 1)
  {
    AndBit(v, size - 1);
    ShrBelow(v, size - 1, 1);
    ShlOne(size - 1);
    TopBit(v, size - 1);
  }

  lemma {:induction false} TopBit(v: nat, k: nat)
    requires v < Pow2(k + 1)
    ensures Shr(v, k) == if v >= Pow2(k) then 1 else 0
  {
    if k > 0 {
      TopBit(v / 2, k - 1);
    }
  }

  lemma {:induction false} OrSignFill(v: nat, size: nat)
    requires 1 <= size < 64 && v < Pow2(size)
    ensures Or(v, SignFill(size)) == v + SignFill(size)
  {
    WordPower();
    PowMonotone(size, 64);
    ShlAllOnes(64, size);
    OrDisjoint(Pow2(64 - size) - 1, size, v);
    OrCommutes(v, SignFill(size));
  }

  lemma {:induction false} ShlAllOnes(n: nat, k: nat)
    requires k <= n
    ensures Shl(Pow2(n - k) - 1, k) == Pow2(n) - Pow2(k)
  {
    if k > 0 {
      ShlAllOnes(n - 1, k - 1);
    }
  }
}
