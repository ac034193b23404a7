/**
  * The converter against the standards: the well-formed octet sequences of section 4 of
  * RFC 3629 and the UTF-16 of section 2.1 of RFC 2781.
  */
module CodecRfc {
  import opened Bits
  import opened Codecs
  import opened CodecLaws

  /** A Unicode scalar value: any code point but the surrogates. */
  type Scalar = c: int | 0 <= c < 0xd800 || 0xe000 <= c < 0x11_0000

  /** Section 2.1 of RFC 2781. */
  function Utf16Of(c: Scalar): (r: seq<CodeUnit>)
    ensures |r| == if c < 0x10000 then 1 else 2
  {
    if c < 0x10000 then [c]
    else [0xd800 + (c - 0x10000) / 0x400, 0xdc00 + (c - 0x10000) % 0x400]
  }

  function Utf16Text(cs: seq<Scalar>): seq<CodeUnit> {
    if cs == [] then [] else Utf16Of(cs[0]) + Utf16Text(cs[1..])
  }

  function Utf8Text(cs: seq<Scalar>): seq<byte> {
    if cs == [] then [] else Utf8Of(cs[0]) + Utf8Text(cs[1..])
  }

  /** The length of the `UTF8-char` of section 4 of RFC 3629 at the front, or zero. */
  function CharLength(s: seq<byte>): (n: nat)
    ensures n <= |s|
  {
    if |s| >= 1 && s[0] <= 0x7f then 1
    else if |s| >= 2 && 0xc2 <= s[0] <= 0xdf && IsContinuation(s[1]) then 2
    else if |s| >= 3 && Utf8Three(s[0], s[1]) && IsContinuation(s[2]) then 3
    else if |s| >= 4 && Utf8Four(s[0], s[1]) && IsContinuation(s[2]) && IsContinuation(s[3]) then 4
    else 0
  }

  predicate Utf8Three(a: byte, b: byte) {
    || (a == 0xe0 && 0xa0 <= b <= 0xbf)
    || (0xe1 <= a <= 0xec && IsContinuation(b))
    || (a == 0xed && 0x80 <= b <= 0x9f)
    || (0xee <= a <= 0xef && IsContinuation(b))
  }

  predicate Utf8Four(a: byte, b: byte) {
    || (a == 0xf0 && 0x90 <= b <= 0xbf)
    || (0xf1 <= a <= 0xf3 && IsContinuation(b))
    || (a == 0xf4 && 0x80 <= b <= 0x8f)
  }

  /** The `UTF8-octets` of section 4 of RFC 3629. */
  predicate WellFormed(s: seq<byte>) {
    s == [] || (CharLength(s) > 0 && WellFormed(s[CharLength(s)..]))
  }

  /** The scalar value of one well-formed character. */
  function ScalarAt(s: seq<byte>): (c: Scalar)
    requires CharLength(s) > 0
    ensures Utf8Of(c) == s[..CharLength(s)]
  {
    var n := CharLength(s);
    if n == 1 then
      assert s[..1] == [s[0]];
      s[0]
    else if n == 2 then
      assert s[..2] == [s[0], s[1]];
      TwoDigits(s[0] - 0xc0, s[1] - 0x80)
    else if n == 3 then
      assert s[..3] == [s[0], s[1], s[2]];
      ThreeDigits(s[0] - 0xe0, s[1] - 0x80, s[2] - 0x80)
    else
      assert s[..4] == [s[0], s[1], s[2], s[3]];
      FourDigits(s[0] - 0xf0, s[1] - 0x80, s[2] - 0x80, s[3] - 0x80)
  }

  function TwoDigits(d0: nat, d1: nat): (c: Scalar)
    requires 2 <= d0 < 32 && d1 < 64
    ensures Utf8Of(c) == [0xc0 + d0, 0x80 + d1]
  {
    64 * d0 + d1
  }

  function ThreeDigits(d0: nat, d1: nat, d2: nat): (c: Scalar)
    requires d0 < 16 && d1 < 64 && d2 < 64
    requires d0 == 0 ==> d1 >= 32
    requires d0 == 13 ==> d1 < 32
    ensures Utf8Of(c) == [0xe0 + d0, 0x80 + d1, 0x80 + d2]
  {
    var c := 0x1000 * d0 + 0x40 * d1 + d2;
    assert c / 0x40 == 64 * d0 + d1;
    c
  }

  function FourDigits(d0: nat, d1: nat, d2: nat, d3: nat): (c: Scalar)
    requires d0 < 5 && d1 < 64 && d2 < 64 && d3 < 64
    requires d0 == 0 ==> d1 >= 16
    requires d0 == 4 ==> d1 < 16
    ensures Utf8Of(c) == [0xf0 + d0, 0x80 + d1, 0x80 + d2, 0x80 + d3]
  {
    var c := 0x40000 * d0 + 0x1000 * d1 + 0x40 * d2 + d3;
    assert c / 0x40 == 0x1000 * d0 + 64 * d1 + d2;
    assert c / 0x1000 == 64 * d0 + d1;
    c
  }

  /** The scalar values of a well-formed sequence. */
  function Scalars(s: seq<byte>): (cs: seq<Scalar>)
    requires WellFormed(s)
    ensures Utf8Text(cs) == s
  {
    if s == [] then []
    else
      var n := CharLength(s);
      assert s == s[..n] + s[n..];
      [ScalarAt(s)] + Scalars(s[n..])
  }

  lemma {:induction false} EncodedCharLength(c: Scalar, rest: seq<byte>)
    ensures CharLength(Utf8Of(c) + rest) == |Utf8Of(c)|
  {
    var s := Utf8Of(c) + rest;
    assert forall i :: 0 <= i < |Utf8Of(c)| ==> s[i] == Utf8Of(c)[i];
  }

  /** The well-formed sequences are exactly the encodings of scalar values. */
  lemma {:induction false} EncodedIsWellFormed(cs: seq<Scalar>)
    ensures WellFormed(Utf8Text(cs))
  {
    if cs != [] {
      var rest := Utf8Text(cs[1..]);
      EncodedIsWellFormed(cs[1..]);
      EncodedCharLength(cs[0], rest);
      assert (Utf8Of(cs[0]) + rest)[|Utf8Of(cs[0])|..] == rest;
    }
  }

  function DecodedText(cs: seq<Scalar>): seq<CodeUnit> {
    if cs == [] then [] else ToUtf16(cs[0]) + DecodedText(cs[1..])
  }

  lemma {:induction false} DecodeText(cs: seq<Scalar>)
    ensures DecodeStream(Utf8Text(cs)) == Decoded(DecodedText(cs), [])
  {
    if cs != [] {
      DecodeText(cs[1..]);
      DecodeOfEncoded(cs[0], Utf8Text(cs[1..]));
    }
  }

  lemma {:induction false} DecodedTextIff(cs: seq<Scalar>)
    ensures |DecodedText(cs)| >= |Utf16Text(cs)|
    ensures DecodedText(cs) == Utf16Text(cs) <==> 0xffff !in cs
  {
    if cs != [] {
      var t := cs[1..];
      DecodedTextIff(t);
      assert cs == [cs[0]] + t;
      if cs[0] != 0xffff {
        SamePrefix(ToUtf16(cs[0]), Utf16Of(cs[0]), DecodedText(t), Utf16Text(t));
      }
    }
  }

  /**
    * A well-formed sequence always decodes, and to the UTF-16 of its scalar values exactly when
    * U+FFFF is not among them.
    */
  lemma {:induction false} DecodeWellFormed(s: seq<byte>)
    requires WellFormed(s)
    ensures DecodeStream(s).Decoded? && DecodeStream(s).pending == []
    ensures DecodeStream(s).units == Utf16Text(Scalars(s)) <==> 0xffff !in Scalars(s)
  {
    DecodeText(Scalars(s));
    DecodedTextIff(Scalars(s));
  }

  /** What the encoder makes of one scalar value: an even plane from 2 on comes out a plane lower. */
  function EncodedScalar(c: Scalar): nat {
    if c >= 0x10000 && c / 0x10000 % 2 == 0 then c - 0x10000 else c
  }

  lemma {:induction false} EncodeOfUtf16(c: Scalar, rest: seq<CodeUnit>)
    ensures EncodedScalar(c) < 0x20_0000
    ensures EncodeStream(Utf16Of(c) + rest) == Utf8Of(EncodedScalar(c)) + EncodeStream(rest)
  {
    var s := Utf16Of(c) + rest;
    if c < 0x10000 {
      assert s[0] == c && s[1..] == rest;
    } else {
      assert s[0] == Utf16Of(c)[0] && s[1] == Utf16Of(c)[1] && s[2..] == rest;
      PairOfScalar(c, s[0], s[1]);
    }
  }

  lemma PairOfScalar(c: Scalar, high: CodeUnit, low: CodeUnit)
    requires c >= 0x10000
    requires high == 0xd800 + (c - 0x10000) / 0x400 && low == 0xdc00 + (c - 0x10000) % 0x400
    ensures IsHigh(high) && IsLow(low)
    ensures PairPoint(high, low) == EncodedScalar(c)
  {
    var d := c - 0x10000;
    assert (high - 0xd800) * 0x400 + (low - 0xdc00) == d;
    PlaneBit(d, high);
  }

  /** Bit 6 of the high unit is the lowest bit of the plane, less one. */
  lemma PlaneBit(d: nat, high: nat)
    requires high == 0xd800 + d / 0x400
    ensures high / 64 % 2 == d / 0x10000 % 2
  {
    assert high / 64 == 864 + d / 0x400 / 64;
    assert d / 0x400 / 64 == d / 0x10000;
  }

  /** The character is not of an even supplementary plane. */
  predicate KeepsCarry(c: Scalar) {
    c < 0x10000 || c / 0x10000 % 2 == 1
  }

  predicate AllKeepCarry(cs: seq<Scalar>) {
    forall c :: c in cs ==> KeepsCarry(c)
  }

  /** A character's encoding is its own exactly when its carry is kept. */
  lemma {:induction false} EncodedScalarIff(c: Scalar)
    ensures |Utf8Of(EncodedScalar(c))| == |Utf8Of(c)|
    ensures Utf8Of(EncodedScalar(c)) == Utf8Of(c) <==> KeepsCarry(c)
  {
    if Utf8Of(EncodedScalar(c)) == Utf8Of(c) {
      PointOfEncoded(c, Utf8Of(c));
      PointOfEncoded(EncodedScalar(c), Utf8Of(c));
    }
  }

  /** Encoding is right on exactly the texts with no character of an even supplementary plane. */
  lemma {:induction false} EncodeTextIff(cs: seq<Scalar>)
    ensures |EncodeStream(Utf16Text(cs))| == |Utf8Text(cs)|
    ensures EncodeStream(Utf16Text(cs)) == Utf8Text(cs) <==> AllKeepCarry(cs)
  {
    if cs != [] {
      var c, t := cs[0], cs[1..];
      EncodeTextIff(t);
      EncodeOfUtf16(c, Utf16Text(t));
      EncodedScalarIff(c);
      SamePrefix(Utf8Of(EncodedScalar(c)), Utf8Of(c), EncodeStream(Utf16Text(t)), Utf8Text(t));
      assert cs == [c] + t;
    }
  }

  lemma {:induction false} EncodeDecodedIff(cs: seq<Scalar>)
    ensures |EncodeStream(DecodedText(cs))| >= |Utf8Text(cs)|
    ensures EncodeStream(DecodedText(cs)) == Utf8Text(cs) <==> 0xffff !in cs && AllKeepCarry(cs)
  {
    if cs != [] {
      var c, t := cs[0], cs[1..];
      EncodeDecodedIff(t);
      var rest := EncodeStream(DecodedText(t));
      assert cs == [c] + t;
      if c == 0xffff {
        EncodeOfBadUnit(DecodedText(t));
      } else {
        assert ToUtf16(c) == Utf16Of(c);
        EncodeOfUtf16(c, DecodedText(t));
        EncodedScalarIff(c);
        SamePrefix(Utf8Of(EncodedScalar(c)), Utf8Of(c), rest, Utf8Text(t));
      }
    }
  }

  /** The two units that U+FFFF decodes to are encoded apart, as six bytes. */
  lemma {:induction false} EncodeOfBadUnit(rest: seq<CodeUnit>)
    ensures EncodeStream([0xffff, 0xdfff] + rest) == Utf8Of(0xffff) + (Utf8Of(0xdfff) + EncodeStream(rest))
  {
    var tail: seq<CodeUnit> := [0xdfff] + rest;
    assert tail[0] == 0xdfff && tail[1..] == rest;
    var s: seq<CodeUnit> := [0xffff, 0xdfff] + rest;
    assert s[0] == 0xffff && s[1..] == tail;
    assert EncodeStream(tail) == Utf8Of(0xdfff) + EncodeStream(rest);
    assert EncodeStream(s) == Utf8Of(0xffff) + EncodeStream(tail);
  }

  /**
    * Decoding and then encoding gives a well-formed sequence back exactly when it has neither
    * U+FFFF nor a character of an even supplementary plane.
    */
  lemma {:induction false} WellFormedRoundTripIff(s: seq<byte>)
    requires WellFormed(s)
    ensures EncodeStream(DecodeStream(s).units) == s <==> 0xffff !in Scalars(s) && AllKeepCarry(Scalars(s))
  {
    DecodeText(Scalars(s));
    EncodeDecodedIff(Scalars(s));
  }

  /**
    * The bytes at the front start no overlong form, no surrogate and nothing above U+10FFFF. A
    * second byte is looked at only if there is one.
    */
  predicate StrictHead(s: seq<byte>)
    requires s != []
  {
    && s[0] != 0xc0 && s[0] != 0xc1 && s[0] < 0xf5
    && (|s| >= 2 ==>
          && (s[0] == 0xe0 ==> s[1] >= 0xa0)
          && (s[0] == 0xed ==> s[1] < 0xa0)
          && (s[0] == 0xf0 ==> s[1] >= 0x90)
          && (s[0] == 0xf4 ==> s[1] < 0x90))
  }

  /** Every sequence of a stream, as the decoder cuts it, starts strictly. */
  predicate Strict(s: seq<byte>) {
    s == [] ||
    (StrictHead(s) && (0 < SequenceLength(s[0]) <= |s| ==> Strict(s[SequenceLength(s[0])..])))
  }

  /** A complete sequence is strict if it is the encoding of a scalar value and not overlong. */
  lemma StrictHeadIff(s: seq<byte>, n: nat)
    requires s != [] && 0 < n == SequenceLength(s[0]) <= |s| && Continues(s, n)
    ensures var c := CodePoint(s, n, n);
      StrictHead(s) <==> (c < 0xd800 || 0xe000 <= c < 0x11_0000) && |Utf8Of(c)| == n
  {
    if n == 2 {
      PointOf2(s, s[0] - 0xc0, s[1] - 0x80);
    } else if n == 3 {
      PointOf3(s, s[0] - 0xe0, s[1] - 0x80, s[2] - 0x80);
    } else if n == 4 {
      PointOf4(s, s[0] - 0xf0, s[1] - 0x80, s[2] - 0x80, s[3] - 0x80);
    }
  }

  lemma CharLengthIff(s: seq<byte>)
    requires s != []
    ensures var n := SequenceLength(s[0]);
      CharLength(s) == if 0 < n <= |s| && Continues(s, n) && StrictHead(s) then n else 0
  {
  }

  /**
    * The converter accepts a well-formed sequence and, of everything else, exactly what is cut
    * into complete sequences of which one is overlong, a surrogate or above U+10FFFF.
    */
  lemma {:induction false} WellFormedIff(s: seq<byte>)
    ensures WellFormed(s) <==> DecodeStream(s).Decoded? && DecodeStream(s).pending == [] && Strict(s)
    decreases |s|
  {
    if s == [] {
    } else {
      var n := SequenceLength(s[0]);
      CharLengthIff(s);
      if 0 < n <= |s| && Continues(s, n) {
        CodePointFits(s, n);
        WellFormedIff(s[n..]);
      }
    }
  }

  /** Each kind of ill-formed sequence that the converter accepts. */
  lemma IllFormedIsAccepted()
    ensures !WellFormed([0xc0, 0x80]) && DecodeStream([0xc0, 0x80]) == Decoded([0], [])
    ensures !WellFormed([0xed, 0xa0, 0x80]) && DecodeStream([0xed, 0xa0, 0x80]) == Decoded([0xd800], [])
    ensures !WellFormed([0xf4, 0x90, 0x80, 0x80])
    ensures DecodeStream([0xf4, 0x90, 0x80, 0x80]) == Decoded([0xdc00, 0xdc00], [])
  {
    var zero: seq<byte> := [0xc0, 0x80];
    var surrogate: seq<byte> := [0xed, 0xa0, 0x80];
    var above: seq<byte> := [0xf4, 0x90, 0x80, 0x80];
    PointOf2(zero, 0, 0);
    PointOf3(surrogate, 13, 32, 0);
    PointOf4(above, 4, 16, 0, 0);
    assert zero[2..] == [] && surrogate[3..] == [] && above[4..] == [];
  }
}
