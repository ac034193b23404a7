/** What the types of definition files look like, accepted or not. */
module DefinitionTypes {
  import opened Sizes
  import opened Options
  import opened Types
  import opened Objects
  import opened Trees
  import opened FileSystem
  import opened Errors
  import opened DefinitionText
  import opened DefinitionParser
  import opened DefinitionLaws

  /** Every integer is one, two, four or eight bytes wide. */
  predicate WholeBytes(t: Type) {
    match t
    case Integer(_, size, _, _) => size in {8, 16, 32, 64}
    case Definition(_, fields) => forall i :: 0 <= i < |fields| ==> WholeBytes(fields[i].ty)
    case Missing => true
  }

  /** At most `n` definitions lie within one another. */
  predicate NestsAtMost(t: Type, n: nat) {
    t.Definition? ==> n > 0 && forall i :: 0 <= i < |t.fields| ==> NestsAtMost(t.fields[i].ty, n - 1)
  }

  lemma {:induction false} NestsMore(t: Type, n: nat, more: nat)
    requires NestsAtMost(t, n) && n <= more
    ensures NestsAtMost(t, more)
  {
    if t.Definition? {
      forall i | 0 <= i < |t.fields|
        ensures NestsAtMost(t.fields[i].ty, more - 1)
      {
        NestsMore(t.fields[i].ty, n - 1, more - 1);
      }
    }
  }

  /** What a use of a type keeps of it, whatever the settings. */
  lemma InstantiateKeeps(t: Type, s: Settings)
    ensures StaticSize(Instantiate(t, s)) == StaticSize(t)
    ensures AliasName(Instantiate(t, s)) == AliasName(t)
    ensures WholeBytes(t) ==> WholeBytes(Instantiate(t, s))
    ensures t.Definition? ==> Instantiate(t, s) == t
  {
  }

  lemma UseOfTypes(known: seq<Type>, m: MemberAst, n: nat)
    requires forall t :: t in known ==> WholeBytes(t) && NestsAtMost(t, n)
    ensures WholeBytes(MemberType(known, m)) && NestsAtMost(MemberType(known, m), n)
  {
    TypeNamedSpec(known, m.typeName);
    TypeNamedSpec(BUILT_INS, m.typeName);
    if Lookup(known, m.typeName).Some? {
      var t := Lookup(known, m.typeName).value;
      if t !in known {
        BuiltInWhole(t);
      }
      InstantiateKeeps(t, UseSettings(t, m.options));
    }
  }

  lemma BuiltInWhole(t: Type)
    requires t in BUILT_INS
    ensures t.Integer? && WholeBytes(t)
  {
  }

  /** Accepted or not, a definition nests only those before it, and all integers are whole bytes. */
  lemma {:induction false} ElaboratedTypes(asts: seq<TypeAst>, i: nat)
    requires i < |asts|
    ensures WholeBytes(Elaborate(asts)[i])
    ensures NestsAtMost(Elaborate(asts)[i], i + 1)
  {
    var known, ms := Elaborate(asts[..i]), asts[i].members;
    ElaborateAt(asts, i);
    ElaboratePrefix(asts, i);
    FieldsAt(known, ms);
    forall j | 0 <= j < i
      ensures WholeBytes(known[j]) && NestsAtMost(known[j], i)
    {
      ElaboratedTypes(asts, j);
      NestsMore(known[j], j + 1, i);
    }
    forall k | 0 <= k < |ms|
      ensures WholeBytes(MemberType(known, ms[k])) && NestsAtMost(MemberType(known, ms[k]), i)
    {
      UseOfTypes(known, ms[k], i);
    }
  }

  /**
    * In an accepted file a member has the one earlier definition of its type name, or the integer
    * that its type name and its options tell.
    */
  lemma MemberTypeIs(asts: seq<TypeAst>, i: nat, k: nat)
    requires WellScoped(asts) && i < |asts| && k < |asts[i].members|
    ensures Elaborate(asts)[i].name == asts[i].name && |Elaborate(asts)[i].fields| == |asts[i].members|
    ensures var m, f := asts[i].members[k], Elaborate(asts)[i].fields[k];
      && f.name == m.name
      && if Declares(asts[..i], m.typeName)
         then exists j :: 0 <= j < i && asts[j].name == m.typeName && f.ty == Elaborate(asts)[j]
         else IntegerName(m.typeName) && IsIntegerMember(f.ty, m)
  {
    var known, m := Elaborate(asts[..i]), asts[i].members[k];
    ElaborateAt(asts, i);
    ElaboratePrefix(asts, i);
    FieldsAt(known, asts[i].members);
    assert MemberOk(asts[..i], asts[i].members, k);
    LookupIff(asts[..i], m.typeName);
    if Declares(asts[..i], m.typeName) {
      TypeNamedSpec(known, m.typeName);
      var j :| FirstAt(known, m.typeName, j) && known[j] == Lookup(known, m.typeName).value;
      ElaborateAt(asts, j);
      assert known[j] == Elaborate(asts)[j];
    } else {
      UseOfInteger(known, m);
    }
  }

  lemma UseIsResolved(known: seq<Type>, m: MemberAst)
    requires forall t :: t in known ==> Resolved(t)
    requires Lookup(known, m.typeName).Some?
    ensures Resolved(MemberType(known, m))
  {
    TypeNamedSpec(known, m.typeName);
    TypeNamedSpec(BUILT_INS, m.typeName);
    var t := Lookup(known, m.typeName).value;
    if t !in known {
      BuiltInWhole(t);
    }
  }

  /** No type of an accepted file has a null field, so all static sizes exist. */
  lemma {:induction false} AcceptedIsSized(asts: seq<TypeAst>, i: nat)
    requires WellScoped(asts) && i < |asts|
    ensures Resolved(Elaborate(asts)[i]) && StaticSize(Elaborate(asts)[i]).Some?
  {
    var known, ms := Elaborate(asts[..i]), asts[i].members;
    ElaborateAt(asts, i);
    ElaboratePrefix(asts, i);
    FieldsAt(known, ms);
    forall j | 0 <= j < i
      ensures Resolved(known[j])
    {
      AcceptedIsSized(asts, j);
    }
    forall k | 0 <= k < |ms|
      ensures Resolved(MemberType(known, ms[k]))
    {
      assert MemberOk(asts[..i], ms, k);
      LookupIff(asts[..i], ms[k].typeName);
      UseIsResolved(known, ms[k]);
    }
    ResolvedIffSized(Elaborate(asts)[i]);
  }

  /** No field of an accepted type hides another: each is found under its own name. */
  lemma AcceptedNames(asts: seq<TypeAst>, i: nat, k: nat)
    requires WellScoped(asts) && i < |asts| && k < |asts[i].members|
    ensures var fields := Elaborate(asts)[i].fields;
      && asts[i].members[k].name in NameMap(fields, |fields|)
      && NameMap(fields, |fields|)[asts[i].members[k].name] == k
  {
    var fields, ms := Elaborate(asts)[i].fields, asts[i].members;
    MemberTypeIs(asts, i, k);
    NameMapSpec(fields, |fields|, ms[k].name);
    var j := NameMap(fields, |fields|)[ms[k].name];
    MemberTypeIs(asts, i, j);
    assert MemberOk(asts[..i], ms, j) && MemberOk(asts[..i], ms, k);
  }

  /** No two fields of one definition share a name, however deep. */
  predicate NamesApart(t: Type) {
    t.Definition? ==>
      && (forall i, j :: 0 <= i < j < |t.fields| ==> t.fields[i].name != t.fields[j].name)
      && forall i :: 0 <= i < |t.fields| ==> NamesApart(t.fields[i].ty)
  }

  lemma UseOfNamesApart(known: seq<Type>, m: MemberAst)
    requires forall t :: t in known ==> NamesApart(t)
    ensures NamesApart(MemberType(known, m))
  {
    TypeNamedSpec(known, m.typeName);
    TypeNamedSpec(BUILT_INS, m.typeName);
    if Lookup(known, m.typeName).Some? && Lookup(known, m.typeName).value !in known {
      BuiltInWhole(Lookup(known, m.typeName).value);
    }
  }

  /** No definition of an accepted file has two fields of one name, however deep. */
  lemma {:induction false} AcceptedNamesApart(asts: seq<TypeAst>, i: nat)
    requires WellScoped(asts) && i < |asts|
    ensures NamesApart(Elaborate(asts)[i])
  {
    var known, ms := Elaborate(asts[..i]), asts[i].members;
    ElaborateAt(asts, i);
    ElaboratePrefix(asts, i);
    FieldsAt(known, ms);
    forall j | 0 <= j < i
      ensures NamesApart(known[j])
    {
      AcceptedNamesApart(asts, j);
    }
    forall k | 0 <= k < |ms|
      ensures NamesApart(MemberType(known, ms[k]))
    {
      UseOfNamesApart(known, ms[k]);
    }
    forall j, k | 0 <= j < k < |ms|
      ensures ms[j].name != ms[k].name
    {
      assert MemberOk(asts[..i], ms, k);
    }
  }

  // Alignment

  /** Every integer of a whole-byte type lies on whole bytes, however deep. */
  lemma {:induction false} LeavesAligned(pos: Size, t: Type)
    requires WholeBytes(t) && pos % 8 == 0
    ensures forall r :: r in Leaves(pos, t) ==> r.start % 8 == 0 && r.size in {8, 16, 32, 64}
    decreases t, 1, 0
  {
    if t.Definition? {
      FieldLeavesAligned(pos, t.fields, |t.fields|);
    }
  }

  lemma {:induction false} FieldLeavesAligned(pos: Size, fields: seq<Field>, n: nat)
    requires n <= |fields| && pos % 8 == 0
    requires forall i :: 0 <= i < |fields| ==> WholeBytes(fields[i].ty)
    ensures OffsetAt(pos, fields, n) % 8 == 0
    ensures forall r :: r in FieldLeaves(pos, fields, n) ==> r.start % 8 == 0 && r.size in {8, 16, 32, 64}
    decreases fields, 0, n
  {
    if n > 0 {
      FieldLeavesAligned(pos, fields, n - 1);
      LeavesAligned(OffsetAt(pos, fields, n - 1), fields[n - 1].ty);
      SizeAligned(fields[n - 1].ty);
      PlusAligned(OffsetAt(pos, fields, n - 1), StaticSize(fields[n - 1].ty).GetOr(0));
    }
  }

  lemma PlusAligned(a: Size, b: Size)
    requires a % 8 == 0 && b % 8 == 0
    ensures Plus(a, b) % 8 == 0
  {
  }

  lemma {:induction false} SizeAligned(t: Type)
    requires WholeBytes(t)
    ensures TrueSize(t) % 8 == 0 && StaticSize(t).GetOr(0) % 8 == 0
    decreases t, 1
  {
    if t.Definition? {
      FieldsSizeAligned(t.fields);
    }
  }

  lemma {:induction false} FieldsSizeAligned(fields: seq<Field>)
    requires forall i :: 0 <= i < |fields| ==> WholeBytes(fields[i].ty)
    ensures TrueFieldsSize(fields) % 8 == 0 && FieldsSize(fields).GetOr(0) % 8 == 0
    decreases fields, 0
  {
    if fields != [] {
      var init, last := fields[..|fields| - 1], fields[|fields| - 1].ty;
      FieldsSizeAligned(init);
      SizeAligned(last);
      PlusAligned(FieldsSize(init).GetOr(0), StaticSize(last).GetOr(0));
    }
  }

  /** From an aligned whole-byte value every path leads to aligned whole-byte values. */
  lemma {:induction false} PlacesAligned(p: Place, path: seq<string>)
    requires WholeBytes(p.ty) && p.pos % 8 == 0 && PlaceAt(p, path).Some?
    ensures var q := PlaceAt(p, path).value; WholeBytes(q.ty) && q.pos % 8 == 0
    decreases |path|
  {
    if path != [] {
      NameMapSpec(p.ty.fields, |p.ty.fields|, path[0]);
      FieldLeavesAligned(p.pos, p.ty.fields, NameMap(p.ty.fields, |p.ty.fields|)[path[0]]);
      PlacesAligned(Step(p, path[0]).value, path[1..]);
    }
  }

  /** An aligned whole-byte value fails to be read only by running past the file. */
  lemma AlignedError(file: FileBytes, p: Place)
    requires WholeBytes(p.ty) && p.pos % 8 == 0
    ensures ReadHere(file, p).Err? <==> p.ty.Integer? && p.pos + p.ty.size > 8 * |file|
    ensures ReadHere(file, p).Err? ==> ReadHere(file, p) == Err(UnexpectedEndOfStream)
  {
  }
}
