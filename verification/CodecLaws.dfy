/** The UTF-8 encoder, and what encoding and decoding do to one another. */
module CodecLaws {
  import opened Bits
  import opened Codecs

  predicate IsHigh(u: CodeUnit) {
    0xd800 <= u <= 0xdbff
  }

  predicate IsLow(u: CodeUnit) {
    0xdc00 <= u <= 0xdfff
  }

  /** A pair of surrogates stands at `i`. */
  predicate PairAt(s: seq<CodeUnit>, i: nat)
    requires i < |s|
  {
    i + 1 < |s| && IsHigh(s[i]) && IsLow(s[i + 1])
  }

  /**
    * The code point of a surrogate pair as it is computed: the carry of 0x10000 is or-ed in, so
    * it is lost when bit 6 of the high surrogate already has that place.
    */
  function PairPoint(high: CodeUnit, low: CodeUnit): nat
    requires IsHigh(high) && IsLow(low)
  {
    var sum := (high - 0xd800) * 0x400 + (low - 0xdc00);
    if (high / 64) % 2 == 0 then sum + 0x10000 else sum
  }

  /** The UTF-8 bytes of a code point, by the table of section 3 of RFC 3629. */
  function Utf8Of(c: nat): (r: seq<byte>)
    requires c < 0x20_0000
    ensures |r| == if c < 0x80 then 1 else if c < 0x800 then 2 else if c < 0x10000 then 3 else 4
  {
    if c < 0x80 then [c]
    else if c < 0x800 then [0xc0 + c / 0x40, 0x80 + c % 0x40]
    else if c < 0x10000 then [0xe0 + c / 0x1000, 0x80 + c / 0x40 % 0x40, 0x80 + c % 0x40]
    else [0xf0 + c / 0x40000, 0x80 + c / 0x1000 % 0x40, 0x80 + c / 0x40 % 0x40, 0x80 + c % 0x40]
  }

  function EncodeStream(s: seq<CodeUnit>): seq<byte> {
    if s == [] then []
    else if PairAt(s, 0) then Utf8Of(PairPoint(s[0], s[1])) + EncodeStream(s[2..])
    else Utf8Of(s[0]) + EncodeStream(s[1..])
  }

  method Encode(buffer: seq<CodeUnit>, output: ByteString) returns (status: Status)
    modifies output
    ensures output.bytes == old(output.bytes) + EncodeStream(buffer)
    ensures status == Success
  {
    var i := 0;
    assert buffer[0..] == buffer;
    while i < |buffer|
      invariant 0 <= i <= |buffer|
      invariant output.bytes + EncodeStream(buffer[i..]) == old(output.bytes) + EncodeStream(buffer)
    {
      var codePoint;
      EncodeStep(buffer, i);
      ghost var before, from := output.bytes, i;
      if PairAt(buffer, i) {
        codePoint := CombinePair(buffer[i], buffer[i + 1]);
        i := i + 1;
      } else {
        codePoint := buffer[i];
      }
      var bytes := EncodedBytes(codePoint);
      i := i + 1;
      output.bytes := output.bytes + bytes;
      AppendAssociates(before, bytes, EncodeStream(buffer[i..]), EncodeStream(buffer[from..]));
    }
    assert output.bytes + EncodeStream(buffer[i..]) == output.bytes;
    status := Success;
  }

  lemma AppendAssociates(a: seq<byte>, b: seq<byte>, c: seq<byte>, bc: seq<byte>)
    requires bc == b + c
    ensures a + b + c == a + bc
  {
  }

  lemma {:induction false} EncodeStep(s: seq<CodeUnit>, i: nat)
    requires i < |s|
    ensures EncodeStream(s[i..]) ==
            if PairAt(s, i) then Utf8Of(PairPoint(s[i], s[i + 1])) + EncodeStream(s[i + 2..])
            else Utf8Of(s[i]) + EncodeStream(s[i + 1..])
  {
    assert s[i..][1..] == s[i + 1..];
    if PairAt(s, i) {
      assert s[i..][2..] == s[i + 2..];
    }
  }

  /** A growable byte vector owned by a caller. */
  class ByteString {
    var bytes: seq<byte>

    constructor ()
      ensures bytes == []
    {
      bytes := [];
    }
  }

  /** `((high & 0x3ff) << 10) | (low & 0x3ff) + 0x10000` */
  method CombinePair(high: CodeUnit, low: CodeUnit) returns (codePoint: nat)
    requires IsHigh(high) && IsLow(low)
    ensures codePoint == PairPoint(high, low)
    ensures codePoint < 0x20_0000
  {
    var h := MaskLow10(high);
    var l := MaskLow10(low);
    SurrogateBits(high, low);
    codePoint := OrCarry(h, l);
  }

  lemma SurrogateBits(high: CodeUnit, low: CodeUnit)
    requires IsHigh(high) && IsLow(low)
    ensures high % 0x400 == high - 0xd800 && low % 0x400 == low - 0xdc00
    ensures (high - 0xd800) / 64 % 2 == high / 64 % 2
  {
  }

  method OrCarry(h: nat, l: nat) returns (r: nat)
    requires h < 0x400 && l < 0x400
    ensures r == h * 0x400 + l + if h / 64 % 2 == 0 then 0x10000 else 0
  {
    CarryInto(h, l);
    r := Or(Shl(h, 10), l + 0x10000);
  }

  lemma {:induction false} CarryInto(h: nat, l: nat)
    requires h < 0x400 && l < 0x400
    ensures Or(Shl(h, 10), l + 0x10000) == h * 0x400 + l + if h / 64 % 2 == 0 then 0x10000 else 0
  {
    var top, rest := h / 64, h % 64;
    TenBits();
    Pow16();
    ShlMultiplies(h, 10);
    ShlMultiplies(top, 16);
    ShlMultiplies(top + 1, 16);
    ShlMultiplies(1, 16);
    ShlMultiplies(rest, 10);
    OrSplit(top, 1, 16, Shl(rest, 10), l);
    OrDisjoint(rest, 10, l);
    OrWithOne(top);
  }

  lemma {:induction false} Pow16()
    ensures Pow2(16) == 0x10000
  {
    BytePowers();
    PowSum(8, 8);
  }

  lemma {:induction false} OrWithOne(a: nat)
    ensures Or(a, 1) == if a % 2 == 0 then a + 1 else a
  {
    if a > 0 {
      OrCommutes(a / 2, 0);
    }
  }

  /** The high and the low part of a number are or-ed apart from one another. */
  lemma {:induction false} OrSplit(p: nat, q: nat, k: nat, r: nat, s: nat)
    requires r < Pow2(k) && s < Pow2(k)
    ensures Or(Shl(p, k) + r, Shl(q, k) + s) == Shl(Or(p, q), k) + Or(r, s)
  {
    if k > 0 {
      OrSplit(p, q, k - 1, r / 2, s / 2);
      var a, b := Shl(p, k) + r, Shl(q, k) + s;
      assert a / 2 == Shl(p, k - 1) + r / 2 && b / 2 == Shl(q, k - 1) + s / 2;
      assert a % 2 == r % 2 && b % 2 == s % 2;
      OrHalves(a, b);
      OrHalves(r, s);
    }
  }

  lemma {:induction false} OrHalves(a: nat, b: nat)
    ensures Or(a, b) == 2 * Or(a / 2, b / 2) + if a % 2 == 1 || b % 2 == 1 then 1 else 0
  {
    OrCommutes(a / 2, 0);
  }

  /** The bytes appended for a code point, by shifts and masks. */
  method EncodedBytes(c: nat) returns (bytes: seq<byte>)
    requires c < 0x20_0000
    ensures bytes == Utf8Of(c)
  {
    var c6 := ShiftRight6(c);
    var c12 := ShiftRight6(c6);
    var c18 := ShiftRight6(c12);
    if c < 0x80 {
      bytes := [c];
    } else if c < 0x800 {
      var b0 := LeadByte(c6, 6, 5);
      var b1 := TailByte(c);
      bytes := [b0, b1];
    } else if c < 0x10000 {
      var b0 := LeadByte(c12, 14, 4);
      var b1 := TailByte(c6);
      var b2 := TailByte(c);
      bytes := [b0, b1, b2];
    } else {
      var b0 := LeadByte(c18, 30, 3);
      var b1 := TailByte(c12);
      var b2 := TailByte(c6);
      var b3 := TailByte(c);
      bytes := [b0, b1, b2, b3];
    }
  }

  method ShiftRight6(c: nat) returns (r: nat)
    ensures r == c / 0x40
  {
    ShrBy5(c, 1);
    assert Shr(c / 32, 1) == c / 64;
    r := Shr(c, 6);
  }

  /** A lead byte: the tag in the high bits, or-ed with the `k` bits below it. */
  method LeadByte(shifted: nat, tag: nat, k: nat) returns (b: byte)
    requires (tag, k) == (6, 5) || (tag, k) == (14, 4) || (tag, k) == (30, 3)
    requires shifted < if k == 5 then 32 else if k == 4 then 16 else 8
    ensures b == shifted + if tag == 6 then 0xc0 else if tag == 14 then 0xe0 else 0xf0
  {
    BytePowers();
    OrDisjoint(tag, k, shifted);
    ShlMultiplies(tag, k);
    b := Or(Shl(tag, k), shifted);
  }

  method TailByte(shifted: nat) returns (b: byte)
    ensures b == 0x80 + shifted % 64
  {
    var low := MaskLow6(shifted);
    OrBelow64(2, low);
    b := Or(Shl(2, 6), low);
  }

  /** One encoded code point decodes to its units, whatever follows. */
  lemma {:induction false} DecodeOfEncoded(c: nat, rest: seq<byte>)
    requires c < 0x20_0000
    ensures DecodeStream(Utf8Of(c) + rest) == DecodeStream(rest).After(ToUtf16(c))
  {
    var s, n := Utf8Of(c) + rest, |Utf8Of(c)|;
    assert s[..n] == Utf8Of(c) && s[n..] == rest;
    assert forall i :: 0 <= i < n ==> s[i] == Utf8Of(c)[i];
    assert SequenceLength(s[0]) == n && Continues(s, n);
    PointOfEncoded(c, s);
  }

  lemma {:induction false} PointOfEncoded(c: nat, s: seq<byte>)
    requires c < 0x20_0000 && Utf8Of(c) <= s
    ensures CodePoint(s, |Utf8Of(c)|, |Utf8Of(c)|) == c
  {
    var n := |Utf8Of(c)|;
    assert forall i :: 0 <= i < n ==> s[i] == Utf8Of(c)[i];
    Digits(c);
    if n == 2 {
      PointOf2(s, c / 0x40, c % 0x40);
    } else if n == 3 {
      PointOf3(s, c / 0x1000, c / 0x40 % 0x40, c % 0x40);
    } else if n == 4 {
      PointOf4(s, c / 0x40000, c / 0x1000 % 0x40, c / 0x40 % 0x40, c % 0x40);
    }
  }

  lemma {:induction false} PointOf2(s: seq<byte>, d0: nat, d1: nat)
    requires |s| >= 2 && d0 < 32 && d1 < 64 && s[0] == 0xc0 + d0 && s[1] == 0x80 + d1
    ensures CodePoint(s, 2, 2) == 64 * d0 + d1
  {
    assert CodePoint(s, 2, 1) == d0;
  }

  lemma {:induction false} PointOf3(s: seq<byte>, d0: nat, d1: nat, d2: nat)
    requires |s| >= 3 && d0 < 16 && d1 < 64 && d2 < 64
    requires s[0] == 0xe0 + d0 && s[1] == 0x80 + d1 && s[2] == 0x80 + d2
    ensures CodePoint(s, 3, 3) == 64 * (64 * d0 + d1) + d2
  {
    assert CodePoint(s, 3, 1) == d0;
    assert CodePoint(s, 3, 2) == 64 * d0 + d1;
  }

  lemma {:induction false} PointOf4(s: seq<byte>, d0: nat, d1: nat, d2: nat, d3: nat)
    requires |s| >= 4 && d0 < 8 && d1 < 64 && d2 < 64 && d3 < 64
    requires s[0] == 0xf0 + d0 && s[1] == 0x80 + d1 && s[2] == 0x80 + d2 && s[3] == 0x80 + d3
    ensures CodePoint(s, 4, 4) == 64 * (64 * (64 * d0 + d1) + d2) + d3
  {
    assert CodePoint(s, 4, 1) == d0;
    assert CodePoint(s, 4, 2) == 64 * d0 + d1;
    assert CodePoint(s, 4, 3) == 64 * (64 * d0 + d1) + d2;
  }

  /** A code point from its digits to the base 64. */
  lemma Digits(c: nat)
    ensures c / 0x1000 == 64 * (c / 0x40000) + c / 0x1000 % 0x40
    ensures c / 0x40 == 64 * (c / 0x1000) + c / 0x40 % 0x40
    ensures c == 64 * (c / 0x40) + c % 0x40
  {
  }

  /** What a string of units comes back as after encoding and decoding. */
  function ThereAndBack(s: seq<CodeUnit>): seq<CodeUnit> {
    if s == [] then []
    else if PairAt(s, 0) then ToUtf16(PairPoint(s[0], s[1])) + ThereAndBack(s[2..])
    else ToUtf16(s[0]) + ThereAndBack(s[1..])
  }

  /** Everything that is encoded decodes, with nothing left pending. */
  lemma {:induction false} DecodeEncode(s: seq<CodeUnit>)
    ensures DecodeStream(EncodeStream(s)) == Decoded(ThereAndBack(s), [])
    decreases |s|
  {
    if s != [] {
      if PairAt(s, 0) {
        DecodeEncode(s[2..]);
        DecodeOfEncoded(PairPoint(s[0], s[1]), EncodeStream(s[2..]));
      } else {
        DecodeEncode(s[1..]);
        DecodeOfEncoded(s[0], EncodeStream(s[1..]));
      }
    }
  }

  /** No unit is U+FFFF and no pair has a high surrogate with bit 6 set. */
  predicate SafeUnits(s: seq<CodeUnit>) {
    forall i :: 0 <= i < |s| ==> s[i] != 0xffff && (PairAt(s, i) ==> s[i] / 64 % 2 == 0)
  }

  lemma {:induction false} ThereAndBackGrows(s: seq<CodeUnit>)
    ensures |ThereAndBack(s)| >= |s|
    decreases |s|
  {
    if s != [] {
      ThereAndBackGrows(if PairAt(s, 0) then s[2..] else s[1..]);
    }
  }

  /**
    * Encoding and then decoding gives back exactly the strings with no U+FFFF and no pair that
    * loses its carry; unpaired surrogates are among them.
    */
  lemma {:induction false} RoundTripIff(s: seq<CodeUnit>)
    ensures DecodeStream(EncodeStream(s)) == Decoded(s, []) <==> SafeUnits(s)
  {
    DecodeEncode(s);
    BackIff(s);
  }

  lemma {:induction false} BackIff(s: seq<CodeUnit>)
    ensures ThereAndBack(s) == s <==> SafeUnits(s)
    decreases |s|
  {
    if s != [] {
      var n := if PairAt(s, 0) then 2 else 1;
      BackIff(s[n..]);
      ThereAndBackGrows(s[n..]);
      SafeTail(s, n);
      assert s == s[..n] + s[n..];
      if n == 2 {
        PairIff(s[0], s[1]);
        assert s[..2] == [s[0], s[1]];
        SamePrefix(ToUtf16(PairPoint(s[0], s[1])), s[..2], ThereAndBack(s[2..]), s[2..]);
      } else if s[0] != 0xffff {
        assert s[..1] == [s[0]] == ToUtf16(s[0]);
        SamePrefix(ToUtf16(s[0]), s[..1], ThereAndBack(s[1..]), s[1..]);
      }
    }
  }

  /** A pair comes back as it was exactly when bit 6 of its high unit is clear. */
  lemma PairIff(high: CodeUnit, low: CodeUnit)
    requires IsHigh(high) && IsLow(low)
    ensures |ToUtf16(PairPoint(high, low))| == 2
    ensures ToUtf16(PairPoint(high, low)) == [high, low] <==> high / 64 % 2 == 0
  {
    var c := PairPoint(high, low);
    var h, l := high - 0xd800, low - 0xdc00;
    if high / 64 % 2 == 0 {
      assert c - 0x10000 == h * 0x400 + l;
    } else {
      assert h >= 64;
      assert c - 0x10000 == (h - 64) * 0x400 + l;
      assert (c - 0x10000) / 0x400 == h - 64;
    }
  }

  lemma SamePrefix<T>(a: seq<T>, b: seq<T>, x: seq<T>, y: seq<T>)
    requires |a| == |b|
    ensures a + x == b + y <==> a == b && x == y
  {
    if a + x == b + y {
      assert a == (a + x)[..|a|] && b == (b + y)[..|b|];
      assert x == (a + x)[|a|..] && y == (b + y)[|b|..];
    }
  }

  /** A string is safe when its first group and the rest are; a pair's low unit starts none. */
  lemma {:induction false} SafeTail(s: seq<CodeUnit>, n: nat)
    requires s != [] && n == if PairAt(s, 0) then 2 else 1
    ensures SafeUnits(s) <==> s[0] != 0xffff && (n == 2 ==> s[0] / 64 % 2 == 0) && SafeUnits(s[n..])
  {
    var t := s[n..];
    assert forall i :: 0 <= i < |t| ==> t[i] == s[i + n] && PairAt(t, i) == PairAt(s, i + n);
    if SafeUnits(s) {
      forall i | 0 <= i < |t|
        ensures t[i] != 0xffff && (PairAt(t, i) ==> t[i] / 64 % 2 == 0)
      {
        assert s[i + n] == t[i];
      }
    }
    if s[0] != 0xffff && (n == 2 ==> s[0] / 64 % 2 == 0) && SafeUnits(t) {
      forall i | 0 <= i < |s|
        ensures s[i] != 0xffff && (PairAt(s, i) ==> s[i] / 64 % 2 == 0)
      {
        if i >= n {
          assert t[i - n] == s[i];
        }
      }
    }
  }

  /** Two strings that meet inside a surrogate pair. */
  predicate CutsPair(a: seq<CodeUnit>, b: seq<CodeUnit>) {
    a != [] && b != [] && IsHigh(a[|a| - 1]) && IsLow(b[0])
  }

  /** The encoder keeps no state: cutting its input changes the output exactly inside a pair. */
  lemma {:induction false} EncodeSplitIff(a: seq<CodeUnit>, b: seq<CodeUnit>)
    ensures EncodeStream(a) + EncodeStream(b) == EncodeStream(a + b) <==> !CutsPair(a, b)
    decreases |a|
  {
    if a == [] {
      assert a + b == b;
    } else if PairAt(a, 0) {
      EncodeSplitIff(a[2..], b);
      assert (a + b)[2..] == a[2..] + b;
      AppendIff(Utf8Of(PairPoint(a[0], a[1])), EncodeStream(a[2..]), EncodeStream(b), EncodeStream(a[2..] + b));
    } else if |a| == 1 && CutsPair(a, b) {
      PairIsShorter(a[0], b[0]);
      assert (a + b)[2..] == b[1..] && a[1..] == [];
    } else {
      EncodeSplitIff(a[1..], b);
      assert (a + b)[1..] == a[1..] + b;
      AppendIff(Utf8Of(a[0]), EncodeStream(a[1..]), EncodeStream(b), EncodeStream(a[1..] + b));
    }
  }

  lemma AppendIff(head: seq<byte>, a: seq<byte>, b: seq<byte>, whole: seq<byte>)
    ensures head + a + b == head + whole <==> a + b == whole
  {
    SamePrefix(head, head, a + b, whole);
    assert head + a + b == head + (a + b);
  }

  /** A pair takes at most four bytes, its halves apart take six. */
  lemma PairIsShorter(high: CodeUnit, low: CodeUnit)
    requires IsHigh(high) && IsLow(low)
    ensures |Utf8Of(PairPoint(high, low))| <= 4
    ensures |Utf8Of(high)| + |Utf8Of(low)| == 6
    ensures !PairAt([low], 0)
  {
  }
}
