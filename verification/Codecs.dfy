/** The streaming UTF-8 converter. */
module Codecs {
  import opened Bits

  type CodeUnit = u: int | 0 <= u < 0x10000

  /** What a stream decodes to: units and an undecoded suffix, or units before a bad byte. */
  datatype Decoded =
    | Decoded(units: seq<CodeUnit>, pending: seq<byte>)
    | Malformed(units: seq<CodeUnit>)
  {
    function After(before: seq<CodeUnit>): Decoded {
      match this
      case Decoded(units, pending) => Decoded(before + units, pending)
      case Malformed(units) => Malformed(before + units)
    }
  }

  datatype Status = Success | Error

  /** How one turn of the decoding loop ends. */
  datatype Outcome = Next | Stop | Fail

  /** The length of a sequence by its first byte; zero if no sequence starts with it. */
  function SequenceLength(head: byte): nat {
    if head < 0x80 then 1
    else if 0xc0 <= head < 0xe0 then 2
    else if 0xe0 <= head < 0xf0 then 3
    else if 0xf0 <= head < 0xf8 then 4
    else 0
  }

  predicate IsContinuation(b: byte) {
    0x80 <= b < 0xc0
  }

  /** All bytes of a sequence of `n` but the first continue it. */
  predicate Continues(s: seq<byte>, n: nat)
    requires n <= |s|
  {
    forall i :: 1 <= i < n ==> IsContinuation(s[i])
  }

  /** The bits of a first byte below the tag of a sequence of `n`. */
  function HeadBits(head: byte, n: nat): nat {
    if n == 1 then head % 128
    else if n == 2 then head % 64
    else if n == 3 then head % 32
    else head % 16
  }

  /** The code point that the first `i` bytes of a sequence of `n` have given so far. */
  function CodePoint(s: seq<byte>, n: nat, i: nat): nat
    requires 1 <= n <= 4 && 1 <= i <= |s|
  {
    if i == 1 then HeadBits(s[0], n) else 64 * CodePoint(s, n, i - 1) + s[i - 1] % 64
  }

  /**
    * Code units for a code point. The subtraction wraps for U+FFFF, which the comparison sends
    * to the surrogates; every other unit below U+10000 is passed on as it is.
    */
  function ToUtf16(codePoint: nat): seq<CodeUnit>
    requires codePoint < 0x20_0000
  {
    if codePoint < 0xffff then [codePoint]
    else if codePoint == 0xffff then [0xffff, 0xdfff]
    else [0xd800 + (codePoint - 0x10000) / 0x400, 0xdc00 + (codePoint - 0x10000) % 0x400]
  }

  lemma {:induction false} CodePointFits(s: seq<byte>, n: nat)
    requires 1 <= n <= 4 && n <= |s|
    requires n == SequenceLength(s[0])
    ensures CodePoint(s, n, n) < 0x20_0000
  {
    if n >= 2 {
      assert CodePoint(s, n, 1) < 64;
    }
    if n >= 3 {
      assert CodePoint(s, n, 2) < 0x1000;
    }
    if n == 4 {
      assert CodePoint(s, n, 1) < 16;
      assert CodePoint(s, n, 2) < 0x400;
      assert CodePoint(s, n, 3) < 0x10000;
    }
  }

  /** The whole stream at once. */
  function DecodeStream(s: seq<byte>): Decoded {
    if s == [] then Decoded([], [])
    else
      var n := SequenceLength(s[0]);
      if n == 0 then Malformed([])
      else if |s| < n then Decoded([], s)
      else if !Continues(s, n) then Malformed([])
      else
        CodePointFits(s, n);
        DecodeStream(s[n..]).After(ToUtf16(CodePoint(s, n, n)))
  }

  /** Bytes that a converter may be waiting to complete. */
  predicate Partial(s: seq<byte>) {
    s == [] || |s| < SequenceLength(s[0])
  }

  /** A growable UTF-16 string owned by a caller. */
  class UnitString {
    var units: seq<CodeUnit>

    constructor ()
      ensures units == []
    {
      units := [];
    }
  }

  class Utf8Converter {
    const temp: array<byte>
    var tempUsed: nat

    ghost predicate Valid()
      reads this, temp
    {
      && temp.Length == 4
      && tempUsed <= 3
      && Partial(Pending())
    }

    function Pending(): seq<byte>
      reads this, temp
      requires temp.Length == 4 && tempUsed <= 4
    {
      temp[..tempUsed]
    }

    constructor ()
      ensures Valid() && fresh(temp) && Pending() == []
    {
      temp := new byte[4](_ => 0);
      tempUsed := 0;
    }

    method Reset()
      requires Valid()
      modifies this
      ensures Valid() && Pending() == []
    {
      tempUsed := 0;
    }

    /** The bytes waiting from the last call, and then the given ones, as one stream. */
    method Decode(buffer: seq<byte>, output: UnitString) returns (status: Status)
      requires Valid()
      modifies this, temp, output
      ensures Valid()
      ensures var d := DecodeStream(old(Pending()) + buffer);
        && status == (if d.Decoded? then Success else Error)
        && output.units == old(output.units) + d.units
        && Pending() == if d.Decoded? then d.pending else if d.units == [] then old(Pending()) else []
    {
      var offset := 0;
      ghost var done: seq<CodeUnit> := [];
      ghost var all := DecodeStream(Pending() + buffer);
      assert buffer[0..] == buffer;
      AfterNothing(all);
      while tempUsed > 0 || offset < |buffer|
        invariant Valid() && offset <= |buffer|
        invariant output.units == old(output.units) + done
        invariant tempUsed > 0 ==> offset == 0
        invariant Pending() == if done == [] then old(Pending()) else []
        invariant all == DecodeStream(Pending() + buffer[offset..]).After(done)
        decreases |buffer| - offset, tempUsed
      {
        ghost var rest := Pending() + buffer[offset..];
        var outcome, units;
        outcome, offset, units := DecodeOne(buffer, offset);
        if outcome != Next {
          assert done + [] == done;
          return if outcome == Stop then Success else Error;
        }
        output.units := output.units + units;
        AfterAfter(DecodeStream(buffer[offset..]), units, done);
        done := done + units;
        assert [] + buffer[offset..] == buffer[offset..];
      }
      assert done + [] == done && Pending() + buffer[offset..] == [];
      return Success;
    }

    /** One turn of the loop: one sequence, or a partial one that is kept, or an error. */
    method DecodeOne(buffer: seq<byte>, offset: nat) returns (outcome: Outcome, next: nat, units: seq<CodeUnit>)
      requires Valid() && offset <= |buffer|
      requires tempUsed > 0 ==> offset == 0
      requires Pending() + buffer[offset..] != []
      modifies this, temp
      ensures Valid()
      ensures outcome == Next ==>
        && offset <= next <= |buffer| && Pending() == [] && units != []
        && (next == offset ==> old(tempUsed) > 0)
        && DecodeStream(old(Pending()) + buffer[offset..]) == DecodeStream(buffer[next..]).After(units)
      ensures outcome == Stop ==>
        DecodeStream(old(Pending()) + buffer[offset..]) == Decoded([], Pending())
      ensures outcome == Fail ==>
        Pending() == old(Pending()) && DecodeStream(Pending() + buffer[offset..]) == Malformed([])
    {
      ghost var rest := Pending() + buffer[offset..];
      next, units := offset, [];
      var head := if tempUsed > 0 then temp[0] else buffer[offset];
      assert head == rest[0];
      var numBytes := GetNumBytes(head);
      if numBytes == 0 {
        return Fail, next, units;
      }
      if numBytes > |buffer| - offset + tempUsed {
        KeepTail(buffer, offset);
        return Stop, next, units;
      }
      var good, codePoint := ReadSequence(buffer, offset, numBytes);
      if !good {
        return Fail, next, units;
      }
      CodePointFits(rest, numBytes);
      units := AppendedUnits(codePoint);
      next := offset + (numBytes - tempUsed);
      assert rest[numBytes..] == buffer[next..];
      tempUsed := 0;
      return Next, next, units;
    }

    /** Copies what is left of the buffer behind the waiting bytes. */
    method KeepTail(buffer: seq<byte>, offset: nat)
      requires Valid() && offset <= |buffer|
      requires var rest := Pending() + buffer[offset..]; rest != [] && |rest| < SequenceLength(rest[0])
      modifies this, temp
      ensures Valid() && Pending() == old(Pending()) + buffer[offset..]
    {
      var n := |buffer| - offset;
      forall i | 0 <= i < n {
        temp[tempUsed + i] := buffer[offset + i];
      }
      tempUsed := tempUsed + n;
      assert Pending() == old(Pending()) + buffer[offset..];
    }

    /** The inner loop: the code point of one sequence, if all its other bytes continue it. */
    method ReadSequence(buffer: seq<byte>, offset: nat, numBytes: nat) returns (good: bool, codePoint: nat)
      requires Valid() && offset <= |buffer| && 1 <= numBytes <= 4
      requires numBytes <= |buffer| - offset + tempUsed
      ensures var rest := Pending() + buffer[offset..];
        && good == Continues(rest, numBytes)
        && (good ==> codePoint == CodePoint(rest, numBytes, numBytes))
    {
      ghost var rest := Pending() + buffer[offset..];
      var head := if tempUsed > 0 then temp[0] else buffer[offset];
      codePoint := MaskHead(head, numBytes);
      for i := 1 to numBytes
        invariant Continues(rest, i)
        invariant codePoint == CodePoint(rest, numBytes, i)
      {
        var cur := if i < tempUsed then temp[i] else buffer[i - tempUsed + offset];
        assert cur == rest[i];
        var continues := TestContinuation(cur);
        if !continues {
          return false, codePoint;
        }
        codePoint := AddSixBits(codePoint, cur);
      }
      good := true;
    }
  }

  /** `GetNumBytes`, by the masks it tests. */
  method GetNumBytes(head: byte) returns (n: nat)
    ensures n == SequenceLength(head)
  {
    var one := TestHead1(head);
    if one { return 1; }
    var two := TestHead2(head);
    if two { return 2; }
    var three := TestHead3(head);
    if three { return 3; }
    var four := TestHead4(head);
    if four { return 4; }
    return 0;
  }

  method TestHead1(b: byte) returns (r: bool)
    ensures r <==> b < 0x80
  {
    r := (b as bv8) & 0x80 == 0;
  }

  method TestHead2(b: byte) returns (r: bool)
    ensures r <==> 0xc0 <= b < 0xe0
  {
    r := (b as bv8) & 0xe0 == 0xc0;
  }

  lemma ThreeOnes(v: bv8)
    ensures v & 0xf0 == 0xe0 <==> 0xe0 <= v < 0xf0
  {
  }

  method TestHead3(b: byte) returns (r: bool)
    ensures r <==> 0xe0 <= b < 0xf0
  {
    var v := b as bv8;
    ThreeOnes(v);
    r := v & 0xf0 == 0xe0;
  }

  method TestHead4(b: byte) returns (r: bool)
    ensures r <==> 0xf0 <= b < 0xf8
  {
    r := (b as bv8) & 0xf8 == 0xf0;
  }

  method TestContinuation(b: byte) returns (r: bool)
    ensures r == IsContinuation(b)
  {
    r := (b as bv8) & 0xc0 == 0x80;
  }

  /** A mask of low ones takes a remainder. */
  lemma {:induction false} AndLowIs(a: nat, k: nat, m: nat)
    requires m == Pow2(k)
    ensures And(a, m - 1) == a % m
  {
    AndLow(a, k);
  }

  lemma {:induction false} ShrBy5(v: nat, k: nat)
    ensures Shr(v, k + 5) == Shr(v / 32, k)
  {
    assert Shr(v, k + 5) == Shr(v / 2, k + 4);
    assert Shr(v / 2, k + 4) == Shr(v / 4, k + 3);
    assert Shr(v / 4, k + 3) == Shr(v / 8, k + 2);
    assert Shr(v / 8, k + 2) == Shr(v / 16, k + 1);
  }

  lemma {:induction false} ShrBy10(v: nat)
    ensures Shr(v, 10) == v / 1024
  {
    ShrBy5(v, 5);
    ShrBy5(v / 32, 0);
  }

  method AddSixBits(codePoint: nat, cur: byte) returns (r: nat)
    ensures r == 64 * codePoint + cur % 64
  {
    var low := MaskLow6(cur);
    OrBelow64(codePoint, low);
    r := Or(Shl(codePoint, 6), low);
  }

  /** `head & ((1 << (8 - n)) - 1)` */
  method MaskHead(head: byte, n: nat) returns (r: nat)
    requires 1 <= n <= 4
    ensures r == HeadBits(head, n)
  {
    BytePowers();
    AndLowIs(head, 8 - n, if n == 1 then 128 else if n == 2 then 64 else if n == 3 then 32 else 16);
    r := And(head, Pow2(8 - n) - 1);
  }

  method MaskLow6(c: nat) returns (r: nat)
    ensures r == c % 0x40
  {
    BytePowers();
    AndLowIs(c, 6, 64);
    r := And(c, 0x3f);
  }

  lemma {:induction false} OrBelow64(high: nat, low: nat)
    requires low < 64
    ensures Or(Shl(high, 6), low) == 64 * high + low
  {
    BytePowers();
    OrDisjoint(high, 6, low);
    ShlMultiplies(high, 6);
  }

  /** The units pushed for a code point, on 32-bit words cut to 16 bits. */
  method AppendedUnits(codePoint: nat) returns (units: seq<CodeUnit>)
    requires codePoint < 0x20_0000
    ensures units == ToUtf16(codePoint)
  {
    if codePoint < 0xffff {
      units := [codePoint % 0x10000];
    } else {
      var c := (codePoint - 0x10000) % 0x1_0000_0000;
      var high := HighUnit(c);
      var low := LowUnit(c);
      units := [high, low];
    }
  }

  method HighUnit(c: nat) returns (r: CodeUnit)
    requires c < 0x1f_0000 || c == 0xffff_ffff
    ensures r == if c == 0xffff_ffff then 0xffff else 0xd800 + c / 0x400
  {
    var shifted := ShiftRight10(c);
    var word := OrHighSurrogate(shifted);
    r := word % 0x10000;
  }

  method ShiftRight10(c: nat) returns (r: nat)
    ensures r == c / 0x400
  {
    ShrBy10(c);
    r := Shr(c, 10);
  }

  method OrHighSurrogate(x: nat) returns (r: nat)
    requires x < 0x800 || x == 0x3f_ffff
    ensures r == if x == 0x3f_ffff then 0x3f_ffff else 0xd800 + x
  {
    if x == 0x3f_ffff {
      TenBits();
      OrAllOnes(0xd800, 22);
    } else {
      OrD800(x);
    }
    r := Or(0xd800, x);
  }

  method LowUnit(c: nat) returns (r: CodeUnit)
    ensures r == 0xdc00 + c % 0x400
  {
    var low := MaskLow10(c);
    OrDC00(low);
    r := Or(0xdc00, low) % 0x10000;
  }

  method MaskLow10(c: nat) returns (r: nat)
    ensures r == c % 0x400
  {
    TenBits();
    AndLowIs(c, 10, 1024);
    r := And(c, 0x3ff);
  }

  lemma {:induction false} OrD800(low: nat)
    requires low < 0x800
    ensures Or(0xd800, low) == 0xd800 + low
  {
    TenBits();
    OrDisjoint(27, 11, low);
    ShlMultiplies(27, 11);
  }

  lemma {:induction false} OrDC00(low: nat)
    requires low < 0x400
    ensures Or(0xdc00, low) == 0xdc00 + low
  {
    TenBits();
    OrDisjoint(55, 10, low);
    ShlMultiplies(55, 10);
  }

  lemma {:induction false} TenBits()
    ensures Pow2(10) == 0x400 && Pow2(11) == 0x800 && Pow2(22) == 0x40_0000
  {
    BytePowers();
    PowSum(8, 2);
    PowSum(8, 3);
    PowSum(11, 11);
  }

  lemma {:induction false} OrAllOnes(a: nat, k: nat)
    requires a < Pow2(k)
    ensures Or(a, Pow2(k) - 1) == Pow2(k) - 1
  {
    if k > 0 {
      var m := Pow2(k - 1);
      assert (2 * m - 1) / 2 == m - 1 && (2 * m - 1) % 2 == 1;
      OrAllOnes(a / 2, k - 1);
    }
  }

  lemma {:induction false} AfterAfter(d: Decoded, a: seq<CodeUnit>, b: seq<CodeUnit>)
    ensures d.After(a).After(b) == d.After(b + a)
  {
    assert b + (a + d.units) == b + a + d.units;
  }

  /** Decoding a concatenation goes on from where its first part stopped. */
  lemma {:induction false} DecodeSplit(a: seq<byte>, b: seq<byte>)
    ensures DecodeStream(a + b) ==
            match DecodeStream(a)
            case Decoded(units, pending) => DecodeStream(pending + b).After(units)
            case Malformed(units) => Malformed(units)
    decreases |a|
  {
    if a == [] {
      assert a + b == b && [] + b == b;
      AfterNothing(DecodeStream(b));
    } else {
      var n := SequenceLength(a[0]);
      if n != 0 {
        if |a| < n {
          AfterNothing(DecodeStream(a + b));
        } else {
          assert (a + b)[n..] == a[n..] + b;
          assert forall i :: 0 <= i < n ==> (a + b)[i] == a[i];
          if Continues(a, n) {
            SameCodePoint(a, a + b, n, n);
            CodePointFits(a, n);
            var units := ToUtf16(CodePoint(a, n, n));
            DecodeSplit(a[n..], b);
            if DecodeStream(a[n..]).Decoded? {
              AfterAfter(DecodeStream(DecodeStream(a[n..]).pending + b), DecodeStream(a[n..]).units, units);
            }
          }
        }
      }
    }
  }

  lemma {:induction false} AfterNothing(d: Decoded)
    ensures d.After([]) == d
  {
    assert [] + d.units == d.units;
  }

  lemma {:induction false} SameCodePoint(s: seq<byte>, t: seq<byte>, n: nat, i: nat)
    requires 1 <= n <= 4 && 1 <= i <= |s| && i <= |t|
    requires forall j :: 0 <= j < i ==> s[j] == t[j]
    ensures CodePoint(s, n, i) == CodePoint(t, n, i)
    decreases i
  {
    if i > 1 {
      SameCodePoint(s, t, n, i - 1);
    }
  }

  /** What is left pending is the undecoded suffix of the stream, at most three bytes. */
  lemma {:induction false} PendingIsSuffix(s: seq<byte>)
    requires DecodeStream(s).Decoded?
    ensures var p := DecodeStream(s).pending;
      |p| <= 3 && |p| <= |s| && p == s[|s| - |p|..] && Partial(p)
    decreases |s|
  {
    if s != [] && |s| >= SequenceLength(s[0]) {
      PendingIsSuffix(s[SequenceLength(s[0])..]);
    }
  }

  /** A sequence as long as its first byte says, which all other bytes continue. */
  predicate WholeSequence(s: seq<byte>) {
    s != [] && |s| == SequenceLength(s[0]) && Continues(s, |s|)
  }

  /** Bytes with which decoding cannot go on, whatever follows them. */
  predicate Broken(s: seq<byte>) {
    s != [] && SequenceLength(s[0]) <= |s| && (SequenceLength(s[0]) > 0 ==> !Continues(s, SequenceLength(s[0])))
  }

  function UnitsOf(s: seq<byte>): seq<CodeUnit>
    requires WholeSequence(s)
  {
    CodePointFits(s, |s|);
    ToUtf16(CodePoint(s, |s|, |s|))
  }

  function AllUnits(parts: seq<seq<byte>>): seq<CodeUnit>
    requires forall i :: 0 <= i < |parts| ==> WholeSequence(parts[i])
  {
    if parts == [] then [] else UnitsOf(parts[0]) + AllUnits(parts[1..])
  }

  /**
    * A stream of whole sequences decodes to their units, up to its end, to a partial sequence,
    * which is kept whatever its bytes are, or to bytes that are no sequence. Every stream is one.
    */
  lemma {:induction false} DecodeParts(parts: seq<seq<byte>>, rest: seq<byte>)
    requires forall i :: 0 <= i < |parts| ==> WholeSequence(parts[i])
    ensures Partial(rest) ==> DecodeStream(Concat(parts) + rest) == Decoded(AllUnits(parts), rest)
    ensures Broken(rest) ==> DecodeStream(Concat(parts) + rest) == Malformed(AllUnits(parts))
  {
    if parts == [] {
      assert [] + rest == rest;
    } else {
      var first, more := parts[0], Concat(parts[1..]) + rest;
      DecodeParts(parts[1..], rest);
      ConcatFirst(first, parts[1..]);
      assert [first] + parts[1..] == parts;
      assert Concat(parts) + rest == first + more;
      DecodeFirst(first, more);
    }
  }

  lemma DecodeFirst(first: seq<byte>, rest: seq<byte>)
    requires WholeSequence(first)
    ensures DecodeStream(first + rest) == DecodeStream(rest).After(UnitsOf(first))
  {
    var s, n := first + rest, |first|;
    assert s[n..] == rest;
    assert forall i :: 0 <= i < n ==> s[i] == first[i];
    assert Continues(s, n);
    CodePointFits(s, n);
    SameCodePoint(first, s, n, n);
  }

  /** Every stream is whole sequences and one such rest. */
  lemma {:induction false} PartsOf(s: seq<byte>) returns (parts: seq<seq<byte>>, rest: seq<byte>)
    ensures forall i :: 0 <= i < |parts| ==> WholeSequence(parts[i])
    ensures Concat(parts) + rest == s && (Partial(rest) <==> !Broken(rest))
    decreases |s|
  {
    if Partial(s) || Broken(s) {
      parts, rest := [], s;
    } else {
      var n := SequenceLength(s[0]);
      var first, more := s[..n], s[n..];
      parts, rest := PartsOf(more);
      ConcatFirst(first, parts);
      assert first[0] == s[0] && WholeSequence(first);
      assert first + (Concat(parts) + rest) == s;
      parts := [first] + parts;
    }
  }

  lemma {:induction false} ConcatFirst(first: seq<byte>, parts: seq<seq<byte>>)
    ensures Concat([first] + parts) == first + Concat(parts)
  {
    var all := [first] + parts;
    if parts == [] {
      assert all[..0] == [] && Concat([]) + first == first + Concat([]);
    } else {
      assert all[..|all| - 1] == [first] + parts[..|parts| - 1];
      ConcatFirst(first, parts[..|parts| - 1]);
    }
  }

  /** The units of a code point tell it, but for U+FFFF, which comes out as two. */
  lemma UnitsTell(c: nat)
    requires c < 0x20_0000
    ensures c < 0xffff ==> ToUtf16(c) == [c]
    ensures c == 0xffff ==> ToUtf16(c) == [0xffff, 0xdfff]
    ensures c > 0xffff ==>
      && |ToUtf16(c)| == 2
      && 0xdc00 <= ToUtf16(c)[1] <= 0xdfff
      && c == 0x10000 + 0x400 * (ToUtf16(c)[0] as int - 0xd800) + (ToUtf16(c)[1] as int - 0xdc00)
  {
  }

  function Concat(chunks: seq<seq<byte>>): seq<byte> {
    if chunks == [] then [] else Concat(chunks[..|chunks| - 1]) + chunks[|chunks| - 1]
  }

  /**
    * Decodes chunk by chunk and stops at the first error: however a stream is cut, empty chunks
    * included, it decodes as it does in one piece.
    */
  method DecodeChunks(converter: Utf8Converter, chunks: seq<seq<byte>>, output: UnitString)
    returns (status: Status)
    requires converter.Valid() && converter.Pending() == []
    modifies converter, converter.temp, output
    ensures converter.Valid()
    ensures var d := DecodeStream(Concat(chunks));
      && status == (if d.Decoded? then Success else Error)
      && output.units == old(output.units) + d.units
      && (d.Decoded? ==> converter.Pending() == d.pending)
  {
    for i := 0 to |chunks|
      invariant converter.Valid()
      invariant Progress(DecodeStream(Concat(chunks[..i])), converter.Pending(), old(output.units), output.units)
    {
      ghost var so, before := DecodeStream(Concat(chunks[..i])), output.units;
      ChunkStep(chunks, i);
      ghost var d := DecodeStream(converter.Pending() + chunks[i]);
      status := converter.Decode(chunks[i], output);
      assert output.units == before + d.units;
      AppendUnits(old(output.units), so.units, d.units);
      if status == Error {
        LaterChunks(chunks, i + 1);
        return;
      }
    }
    assert chunks[..|chunks|] == chunks;
    status := Success;
  }

  /** All of a stream so far is decoded, into an output that already had `before` in it. */
  ghost predicate Progress(d: Decoded, pending: seq<byte>, before: seq<CodeUnit>, now: seq<CodeUnit>) {
    d.Decoded? && d.pending == pending && now == before + d.units
  }

  lemma AppendUnits(a: seq<CodeUnit>, b: seq<CodeUnit>, c: seq<CodeUnit>)
    ensures a + b + c == a + (b + c)
  {
  }

  lemma {:induction false} ChunkStep(chunks: seq<seq<byte>>, i: nat)
    requires i < |chunks| && DecodeStream(Concat(chunks[..i])).Decoded?
    ensures var d := DecodeStream(Concat(chunks[..i]));
      DecodeStream(Concat(chunks[..i + 1])) == DecodeStream(d.pending + chunks[i]).After(d.units)
  {
    assert chunks[..i + 1][..i] == chunks[..i];
    DecodeSplit(Concat(chunks[..i]), chunks[i]);
  }

  /** An error stays an error, with the same output, whatever follows. */
  lemma {:induction false} LaterChunks(chunks: seq<seq<byte>>, n: nat)
    requires n <= |chunks| && DecodeStream(Concat(chunks[..n])).Malformed?
    ensures DecodeStream(Concat(chunks)) == DecodeStream(Concat(chunks[..n]))
    decreases |chunks|
  {
    if n == |chunks| {
      assert chunks[..n] == chunks;
    } else {
      var init := chunks[..|chunks| - 1];
      assert init[..n] == chunks[..n];
      LaterChunks(init, n);
      DecodeSplit(Concat(init), chunks[|chunks| - 1]);
    }
  }
}
