/**
  * What the bytes of a file mean by the text of a definition file, with no types, settings, offsets
  * or windows in between, and that this is what the reference decoder says.
  */
module DefinitionMeaning {
  import opened Wrappers
  import opened Bits
  import opened Numbers
  import opened Errors
  import opened Options
  import opened FileSystem
  import opened Types
  import opened IntegerReads
  import opened IntegerFields
  import opened Objects
  import opened Trees
  import opened DefinitionText
  import opened DefinitionParser
  import opened DefinitionLaws
  import opened DefinitionTypes
  import opened ReferenceDecoder

  function Weight(k: nat): nat {
    if k == 0 then 1 else 256 * Weight(k - 1)
  }

  /** The first `n` of the bytes, each at the weight of its place. */
  function Weighed(bytes: seq<byte>, little: bool, n: nat): nat
    requires n <= |bytes|
  {
    if n == 0 then 0
    else Weighed(bytes, little, n - 1) + bytes[n - 1] * Weight(if little then n - 1 else |bytes| - n)
  }

  /** The integer that bytes write, in two's complement if it is signed. */
  function IntegerMeant(bytes: seq<byte>, signed: bool, little: bool): int {
    var v := Weighed(bytes, little, |bytes|);
    if signed && 2 * v >= Weight(|bytes|) then v - Weight(|bytes|) else v
  }

  /** Of the first `i` definitions, one with this name. */
  function DefinedAt(asts: seq<TypeAst>, i: nat, name: string): (r: Option<nat>)
    requires i <= |asts|
    ensures r.Some? ==> r.value < i && asts[r.value].name == name
    ensures r.None? ==> forall j :: 0 <= j < i ==> asts[j].name != name
  {
    if i == 0 then None
    else if asts[i - 1].name == name then Some(i - 1)
    else DefinedAt(asts, i - 1, name)
  }

  /** How many bytes the first `n` members of definition `i` take. */
  function BytesUpTo(asts: seq<TypeAst>, i: nat, n: nat): nat
    requires i < |asts| && n <= |asts[i].members|
    decreases i, n
  {
    if n == 0 then 0 else BytesUpTo(asts, i, n - 1) + MemberBytes(asts, i, n - 1)
  }

  function MemberBytes(asts: seq<TypeAst>, i: nat, k: nat): nat
    requires i < |asts| && k < |asts[i].members|
    decreases i, k
  {
    match DefinedAt(asts, i, asts[i].members[k].typeName)
    case Some(j) => BytesUpTo(asts, j, |asts[j].members|)
    case None => NameWidth(asts[i].members[k].typeName) / 8
  }

  /** What a value of definition `i` at a byte of a file means: its members, one after the other. */
  function Meant(asts: seq<TypeAst>, i: nat, file: FileBytes, at: nat): Tree
    requires i < |asts|
    decreases i, 1, 0
  {
    ObjectTree(MeantMembers(asts, i, |asts[i].members|, file, at))
  }

  function MeantMembers(asts: seq<TypeAst>, i: nat, n: nat, file: FileBytes, at: nat): map<string, Tree>
    requires i < |asts| && n <= |asts[i].members|
    decreases i, 0, n
  {
    if n == 0 then map[]
    else
      MeantMembers(asts, i, n - 1, file, at)[
        asts[i].members[n - 1].name := MeantMember(asts, i, n - 1, file, at + BytesUpTo(asts, i, n - 1))]
  }

  function MeantMember(asts: seq<TypeAst>, i: nat, k: nat, file: FileBytes, at: nat): Tree
    requires i < |asts| && k < |asts[i].members|
    decreases i, 0, k
  {
    match DefinedAt(asts, i, asts[i].members[k].typeName)
    case Some(j) => Meant(asts, j, file, at)
    case None => MeantInteger(asts[i].members[k], file, at)
  }

  /** Null for an integer that is not wholly in the file. */
  function MeantInteger(m: MemberAst, file: FileBytes, at: nat): Tree {
    var n := NameWidth(m.typeName) / 8;
    if at + n > |file| then NullTree else NumberTree(IntegerMeant(file[at..at + n], SignedMember(m), LittleMember(m)))
  }

  // Integers

  lemma {:induction false} WeightIsPow(k: nat)
    ensures Weight(k) == Pow2(8 * k)
  {
    if k > 0 {
      WeightIsPow(k - 1);
      PowSum(8, 8 * (k - 1));
      BytePowers();
    }
  }

  lemma {:induction false} WeighedLittle(bytes: seq<byte>, n: nat)
    requires n <= |bytes|
    ensures Weighed(bytes, true, n) == LittleValue(bytes[..n])
  {
    if n > 0 {
      WeighedLittle(bytes, n - 1);
      assert bytes[..n] == bytes[..n - 1] + [bytes[n - 1]];
      LittleSnoc(bytes[..n - 1], bytes[n - 1]);
      ShlMultiplies(bytes[n - 1], 8 * (n - 1));
      WeightIsPow(n - 1);
    }
  }

  lemma {:induction false} WeighedBig(bytes: seq<byte>, n: nat)
    requires n <= |bytes|
    ensures Weighed(bytes, false, n) == BigValue(bytes[..n]) * Weight(|bytes| - n)
  {
    if n > 0 {
      WeighedBig(bytes, n - 1);
      assert bytes[..n][..n - 1] == bytes[..n - 1];
      Horner(BigValue(bytes[..n - 1]), bytes[n - 1], Weight(|bytes| - n));
    }
  }

  lemma Horner(v: nat, b: nat, w: nat)
    ensures (256 * v + b) * w == v * (256 * w) + b * w
  {
  }

  /** Weighing the bytes gives the number that the reference decoder reads from them. */
  lemma WeighedIsValue(bytes: seq<byte>, t: Type)
    requires t.Integer?
    ensures Weighed(bytes, t.order == LittleEndian, |bytes|) == BytesValue(bytes, t.order)
  {
    assert bytes[..|bytes|] == bytes;
    if t.order == LittleEndian {
      WeighedLittle(bytes, |bytes|);
    } else {
      WeighedBig(bytes, |bytes|);
    }
  }

  lemma IntegerIsMeant(bytes: seq<byte>, t: Type)
    requires t.Integer? && bytes != []
    ensures IntegerOf(bytes, t) == IntegerMeant(bytes, t.sign == Signed, t.order == LittleEndian)
  {
    WeighedIsValue(bytes, t);
    WeightIsPow(|bytes|);
    assert Pow2(8 * |bytes|) == 2 * Pow2(8 * |bytes| - 1);
  }

  // Members

  lemma DefinedIsDeclared(asts: seq<TypeAst>, i: nat, name: string)
    requires i <= |asts|
    ensures DefinedAt(asts, i, name).Some? <==> Declares(asts[..i], name)
  {
    if DefinedAt(asts, i, name).Some? {
      assert asts[..i][DefinedAt(asts, i, name).value].name == name;
    }
  }

  lemma NameOnce(asts: seq<TypeAst>, i: nat, j: nat)
    requires WellScoped(asts) && i < j < |asts|
    ensures asts[i].name != asts[j].name
  {
    assert asts[..j][i].name == asts[i].name;
    assert DefinitionOk(asts[..j], asts[j]);
  }

  /** The type of a member is the definition or the integer that its text tells. */
  lemma MemberCases(asts: seq<TypeAst>, i: nat, k: nat)
    requires WellScoped(asts) && i < |asts| && k < |asts[i].members|
    ensures Elaborate(asts)[i].Definition? && |Elaborate(asts)[i].fields| == |asts[i].members|
    ensures var m, f := asts[i].members[k], Elaborate(asts)[i].fields[k];
      && f.name == m.name
      && WholeBytes(f.ty)
      && match DefinedAt(asts, i, m.typeName)
         case Some(j) => f.ty == Elaborate(asts)[j]
         case None => IsIntegerMember(f.ty, m)
  {
    var m := asts[i].members[k];
    MemberTypeIs(asts, i, k);
    ElaboratedTypes(asts, i);
    DefinedIsDeclared(asts, i, m.typeName);
    if Declares(asts[..i], m.typeName) {
      var j: nat :| j < i && asts[j].name == m.typeName && Elaborate(asts)[i].fields[k].ty == Elaborate(asts)[j];
      var named := DefinedAt(asts, i, m.typeName).value;
      if j != named {
        NameOnce(asts, if j < named then j else named, if j < named then named else j);
      }
    }
  }

  lemma FieldCount(asts: seq<TypeAst>, i: nat)
    requires i < |asts|
    ensures Elaborate(asts)[i].Definition? && |Elaborate(asts)[i].fields| == |asts[i].members|
  {
    ElaborateAt(asts, i);
    FieldsAt(Elaborate(asts[..i]), asts[i].members);
  }

  /** The members before a field take the bytes that the text gives them. */
  lemma {:induction false} BytesAreMeant(asts: seq<TypeAst>, i: nat, n: nat)
    requires WellScoped(asts) && i < |asts| && n <= |asts[i].members|
    ensures Elaborate(asts)[i].Definition? && |Elaborate(asts)[i].fields| == |asts[i].members|
    ensures TrueFieldsSize(Elaborate(asts)[i].fields[..n]) == 8 * BytesUpTo(asts, i, n)
    decreases i, n
  {
    FieldCount(asts, i);
    var fields := Elaborate(asts)[i].fields;
    if n == 0 {
      assert fields[..0] == [];
    } else {
      BytesAreMeant(asts, i, n - 1);
      MemberIsMeant(asts, i, n - 1);
      FieldsSizeSnoc(fields, n);
    }
  }

  lemma FieldsSizeSnoc(fields: seq<Field>, n: nat)
    requires 0 < n <= |fields|
    ensures TrueFieldsSize(fields[..n]) == TrueFieldsSize(fields[..n - 1]) + TrueSize(fields[n - 1].ty)
  {
    assert fields[..n][..n - 1] == fields[..n - 1];
  }

  lemma {:induction false} MemberIsMeant(asts: seq<TypeAst>, i: nat, k: nat)
    requires WellScoped(asts) && i < |asts| && k < |asts[i].members|
    ensures Elaborate(asts)[i].Definition? && |Elaborate(asts)[i].fields| == |asts[i].members|
    ensures TrueSize(Elaborate(asts)[i].fields[k].ty) == 8 * MemberBytes(asts, i, k)
    decreases i, k
  {
    MemberCases(asts, i, k);
    var named := DefinedAt(asts, i, asts[i].members[k].typeName);
    if named.Some? {
      var j, fields := named.value, Elaborate(asts)[named.value].fields;
      BytesAreMeant(asts, j, |asts[j].members|);
      assert fields[..|fields|] == fields;
    } else {
      WholeBytesExact(Elaborate(asts)[i].fields[k].ty.size);
    }
  }

  lemma StartIsMeant(asts: seq<TypeAst>, i: nat, k: nat)
    requires WellScoped(asts) && i < |asts| && k < |asts[i].members|
    ensures Elaborate(asts)[i].Definition? && |Elaborate(asts)[i].fields| == |asts[i].members|
    ensures BytesBefore(Elaborate(asts)[i].fields, k) == BytesUpTo(asts, i, k)
  {
    BytesAreMeant(asts, i, k);
  }

  lemma IntegerMemberIsMeant(t: Type, m: MemberAst, file: FileBytes, at: nat)
    requires IsIntegerMember(t, m) && WholeBytes(t)
    ensures Reference(file, at, t) == MeantInteger(m, file, at)
  {
    WholeBytesExact(t.size);
    var n := t.size / 8;
    if at + n <= |file| {
      IntegerIsMeant(file[at..at + n], t);
    }
  }

  /** One field has the name and the decoding that the text of its member gives. */
  predicate FieldMeant(asts: seq<TypeAst>, i: nat, k: nat, file: FileBytes, at: nat, fields: seq<Field>)
    requires i < |asts| && k < |asts[i].members| == |fields|
  {
    && fields[k].name == asts[i].members[k].name
    && Reference(file, at + BytesBefore(fields, k), fields[k].ty)
       == MeantMember(asts, i, k, file, at + BytesUpTo(asts, i, k))
  }

  lemma {:induction false} FieldsAreMeant(asts: seq<TypeAst>, i: nat, n: nat, file: FileBytes, at: nat,
                                          fields: seq<Field>)
    requires i < |asts| && n <= |asts[i].members| == |fields|
    requires forall k :: 0 <= k < |fields| ==> FieldMeant(asts, i, k, file, at, fields)
    ensures ReferenceFields(file, at, fields, n) == MeantMembers(asts, i, n, file, at)
  {
    if n > 0 {
      FieldsAreMeant(asts, i, n - 1, file, at, fields);
      assert FieldMeant(asts, i, n - 1, file, at, fields);
    }
  }

  /** The decoding of an accepted type is what the text of its definition means, in every file. */
  lemma {:induction false} MeantIsReference(asts: seq<TypeAst>, i: nat, file: FileBytes, at: nat)
    requires WellScoped(asts) && i < |asts|
    ensures Reference(file, at, Elaborate(asts)[i]) == Meant(asts, i, file, at)
    decreases i, 1
  {
    FieldCount(asts, i);
    var fields := Elaborate(asts)[i].fields;
    forall k | 0 <= k < |fields|
      ensures FieldMeant(asts, i, k, file, at, fields)
    {
      FieldIsMeant(asts, i, k, file, at, fields);
    }
    FieldsAreMeant(asts, i, |fields|, file, at, fields);
  }

  lemma {:induction false} FieldIsMeant(asts: seq<TypeAst>, i: nat, k: nat, file: FileBytes, at: nat,
                                        fields: seq<Field>)
    requires WellScoped(asts) && i < |asts| && k < |asts[i].members| == |fields|
    requires Elaborate(asts)[i].Definition? && Elaborate(asts)[i].fields == fields
    ensures FieldMeant(asts, i, k, file, at, fields)
    decreases i, 0
  {
    StartIsMeant(asts, i, k);
    MemberCases(asts, i, k);
    var m, start := asts[i].members[k], at + BytesUpTo(asts, i, k);
    var named := DefinedAt(asts, i, m.typeName);
    if named.Some? {
      MeantIsReference(asts, named.value, file, start);
    } else {
      IntegerMemberIsMeant(fields[k].ty, m, file, start);
    }
  }

  /**
    * The read of an integer member of an accepted file, at any byte: the bytes' meaning by the
    * name of its type and its options, or the error that the file ends before it.
    */
  lemma MemberRead(asts: seq<TypeAst>, i: nat, k: nat, file: FileBytes, at: nat)
    requires WellScoped(asts) && i < |asts| && k < |asts[i].members| && 8 * at < TWO_TO_64
    requires !Declares(asts[..i], asts[i].members[k].typeName)
    ensures Elaborate(asts)[i].Definition? && |Elaborate(asts)[i].fields| == |asts[i].members|
    ensures var m, t := asts[i].members[k], Elaborate(asts)[i].fields[k].ty;
      var n := NameWidth(m.typeName) / 8;
      && t.Integer?
      && match DecodeInteger(file, 8 * at, t)
         case Ok(v) =>
           at + n <= |file| && v.Value() == IntegerMeant(file[at..at + n], SignedMember(m), LittleMember(m))
         case Err(kind) => at + n > |file| && kind == UnexpectedEndOfStream
  {
    IntegerCase(asts, i, k);
    IntegerRead(Elaborate(asts)[i].fields[k].ty, asts[i].members[k], file, at);
  }

  lemma IntegerCase(asts: seq<TypeAst>, i: nat, k: nat)
    requires WellScoped(asts) && i < |asts| && k < |asts[i].members|
    requires !Declares(asts[..i], asts[i].members[k].typeName)
    ensures Elaborate(asts)[i].Definition? && |Elaborate(asts)[i].fields| == |asts[i].members|
    ensures var t := Elaborate(asts)[i].fields[k].ty; WholeBytes(t) && IsIntegerMember(t, asts[i].members[k])
  {
    DefinedIsDeclared(asts, i, asts[i].members[k].typeName);
    MemberCases(asts, i, k);
  }

  lemma IntegerRead(t: Type, m: MemberAst, file: FileBytes, at: nat)
    requires IsIntegerMember(t, m) && WholeBytes(t) && 8 * at < TWO_TO_64
    ensures var n := NameWidth(m.typeName) / 8;
      match DecodeInteger(file, 8 * at, t)
      case Ok(v) => at + n <= |file| && v.Value() == IntegerMeant(file[at..at + n], SignedMember(m), LittleMember(m))
      case Err(kind) => at + n > |file| && kind == UnexpectedEndOfStream
  {
    BytesFit(file, at, t);
    AlignedError(file, Place(8 * at, t));
    IntegerIsReference(file, at, t);
    IntegerMemberIsMeant(t, m, file, at);
  }

  /** What two bytes mean, in each sign and order. */
  lemma TwoBytes(b: byte, c: byte)
    ensures IntegerMeant([b, c], false, false) == 256 * b + c
    ensures IntegerMeant([b, c], false, true) == b + 256 * c
    ensures IntegerMeant([b, c], true, false) == if b >= 128 then 256 * b + c - 65536 else 256 * b + c
    ensures IntegerMeant([b, c], true, true) == if c >= 128 then b + 256 * c - 65536 else b + 256 * c
  {
    WeighedPair(b, c);
  }

  lemma WeighedPair(b: byte, c: byte)
    ensures Weight(0) == 1 && Weight(1) == 256 && Weight(2) == 65536
    ensures Weighed([b, c], false, 2) == 256 * b + c && Weighed([b, c], true, 2) == b + 256 * c
  {
    assert Weight(1) == 256 * Weight(0);
    assert Weighed([b, c], false, 1) == b * Weight(1) && Weighed([b, c], true, 1) == b * Weight(0);
  }

  // One path at a time

  /** Of the first `n` members, the last with this name. */
  function MemberAt(members: seq<MemberAst>, n: nat, name: string): (r: Option<nat>)
    requires n <= |members|
    ensures r.Some? ==> r.value < n
  {
    if n == 0 then None
    else if members[n - 1].name == name then Some(n - 1)
    else MemberAt(members, n - 1, name)
  }

  /** What the bytes at the end of a path mean, or why nothing can be read there. */
  function MeantAlong(asts: seq<TypeAst>, i: nat, file: FileBytes, at: nat, path: seq<string>): Result<Tree>
    requires i < |asts|
    decreases |path|
  {
    if path == [] then Ok(Meant(asts, i, file, at))
    else
      match MemberAt(asts[i].members, |asts[i].members|, path[0])
      case None => Ok(NullTree)
      case Some(k) =>
        var m, start := asts[i].members[k], at + BytesUpTo(asts, i, k);
        match DefinedAt(asts, i, m.typeName)
        case Some(j) => MeantAlong(asts, j, file, start, path[1..])
        case None =>
          if path[1..] != [] then Ok(NullTree)
          else if start + NameWidth(m.typeName) / 8 > |file| then Err(UnexpectedEndOfStream)
          else Ok(MeantInteger(m, file, start))
  }

  lemma {:induction false} MemberAtIsNamed(fields: seq<Field>, members: seq<MemberAst>, n: nat, name: string)
    requires n <= |members| == |fields| && forall k :: 0 <= k < n ==> fields[k].name == members[k].name
    ensures MemberAt(members, n, name) == if name in NameMap(fields, n) then Some(NameMap(fields, n)[name]) else None
  {
    if n > 0 {
      MemberAtIsNamed(fields, members, n - 1, name);
    }
  }

  lemma NamedMember(asts: seq<TypeAst>, i: nat, name: string)
    requires WellScoped(asts) && i < |asts|
    ensures var t, n := Elaborate(asts)[i], |asts[i].members|;
      && t.Definition? && |t.fields| == n
      && MemberAt(asts[i].members, n, name)
         == if name in NameMap(t.fields, n) then Some(NameMap(t.fields, n)[name]) else None
  {
    FieldCount(asts, i);
    forall k | 0 <= k < |asts[i].members|
      ensures Elaborate(asts)[i].fields[k].name == asts[i].members[k].name
    {
      MemberCases(asts, i, k);
    }
    MemberAtIsNamed(Elaborate(asts)[i].fields, asts[i].members, |asts[i].members|, name);
  }

  lemma IntegerAlong(t: Type, m: MemberAst, file: FileBytes, at: nat, path: seq<string>)
    requires IsIntegerMember(t, m) && WholeBytes(t)
    ensures ReferenceAlong(file, at, t, path) ==
            if path != [] then Ok(NullTree)
            else if at + NameWidth(m.typeName) / 8 > |file| then Err(UnexpectedEndOfStream)
            else Ok(MeantInteger(m, file, at))
  {
    IntegerMemberIsMeant(t, m, file, at);
  }

  /** Along every path the reference decoder finds what the text means there, errors included. */
  lemma {:induction false} AlongIsMeant(asts: seq<TypeAst>, i: nat, file: FileBytes, at: nat, path: seq<string>)
    requires WellScoped(asts) && i < |asts|
    ensures ReferenceAlong(file, at, Elaborate(asts)[i], path) == MeantAlong(asts, i, file, at, path)
    decreases |path|
  {
    FieldCount(asts, i);
    if path == [] {
      MeantIsReference(asts, i, file, at);
    } else {
      NamedMember(asts, i, path[0]);
      var named := MemberAt(asts[i].members, |asts[i].members|, path[0]);
      if named.Some? {
        var k := named.value;
        var m, start := asts[i].members[k], at + BytesUpTo(asts, i, k);
        StartIsMeant(asts, i, k);
        MemberCases(asts, i, k);
        if DefinedAt(asts, i, m.typeName).Some? {
          AlongIsMeant(asts, DefinedAt(asts, i, m.typeName).value, file, start, path[1..]);
        } else {
          IntegerAlong(Elaborate(asts)[i].fields[k].ty, m, file, start, path[1..]);
        }
      }
    }
  }

  // Where the objects lose track

  /** Some integer 2^61 bytes or more into the file is read, from where 64-bit positions wrap around to. */
  predicate Overruns(asts: seq<TypeAst>, i: nat, file: FileBytes, at: nat)
    requires i < |asts|
    decreases i
  {
    exists k :: 0 <= k < |asts[i].members| && MemberOverruns(asts, i, k, file, at + BytesUpTo(asts, i, k))
  }

  predicate MemberOverruns(asts: seq<TypeAst>, i: nat, k: nat, file: FileBytes, at: nat)
    requires i < |asts| && k < |asts[i].members|
    decreases i, 0
  {
    match DefinedAt(asts, i, asts[i].members[k].typeName)
    case Some(j) => Overruns(asts, j, file, at)
    case None =>
      at >= 0x2000_0000_0000_0000 && at % 0x2000_0000_0000_0000 + NameWidth(asts[i].members[k].typeName) / 8 <= |file|
  }

  lemma IntegerOverruns(t: Type, m: MemberAst, file: FileBytes, at: nat)
    requires IsIntegerMember(t, m) && WholeBytes(t)
    ensures Misreads(file, at, t) <==>
            at >= 0x2000_0000_0000_0000 && at % 0x2000_0000_0000_0000 + NameWidth(m.typeName) / 8 <= |file|
  {
    WholeBytesExact(t.size);
    WrappedIsModular(at);
    assert 8 * at % TWO_TO_64 == 8 * (at % 0x2000_0000_0000_0000);
  }

  /** A member's type is misread where its text overruns. */
  lemma {:induction false} MemberMisreadsIff(asts: seq<TypeAst>, i: nat, k: nat, t: Type, file: FileBytes, start: nat)
    requires WellScoped(asts) && i < |asts| && k < |asts[i].members| && WholeBytes(t)
    requires match DefinedAt(asts, i, asts[i].members[k].typeName)
             case Some(j) => t == Elaborate(asts)[j]
             case None => IsIntegerMember(t, asts[i].members[k])
    ensures Misreads(file, start, t) <==> MemberOverruns(asts, i, k, file, start)
    decreases i, 0
  {
    var m := asts[i].members[k];
    if DefinedAt(asts, i, m.typeName).Some? {
      MisreadsIffOverruns(asts, DefinedAt(asts, i, m.typeName).value, file, start);
    } else {
      IntegerOverruns(t, m, file, start);
    }
  }

  lemma {:induction false} FieldMisreadsIff(asts: seq<TypeAst>, i: nat, k: nat, file: FileBytes, at: nat)
    requires WellScoped(asts) && i < |asts| && k < |asts[i].members|
    ensures Elaborate(asts)[i].Definition? && |Elaborate(asts)[i].fields| == |asts[i].members|
    ensures FieldMisreads(file, at, Elaborate(asts)[i].fields, k) <==>
            MemberOverruns(asts, i, k, file, at + BytesUpTo(asts, i, k))
    decreases i, 1
  {
    StartIsMeant(asts, i, k);
    MemberCases(asts, i, k);
    MemberMisreadsIff(asts, i, k, Elaborate(asts)[i].fields[k].ty, file, at + BytesUpTo(asts, i, k));
  }

  /** The objects misread an integer of an accepted type exactly if the text has one that overruns. */
  lemma {:induction false} MisreadsIffOverruns(asts: seq<TypeAst>, i: nat, file: FileBytes, at: nat)
    requires WellScoped(asts) && i < |asts|
    ensures Misreads(file, at, Elaborate(asts)[i]) <==> Overruns(asts, i, file, at)
    decreases i, 2
  {
    FieldCount(asts, i);
    forall k | 0 <= k < |asts[i].members|
      ensures FieldMisreads(file, at, Elaborate(asts)[i].fields, k) <==>
              MemberOverruns(asts, i, k, file, at + BytesUpTo(asts, i, k))
    {
      FieldMisreadsIff(asts, i, k, file, at);
    }
  }
}
