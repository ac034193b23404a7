/**
  * The semantic pass over a parsed definition file: it resolves type names, applies options and
  * builds the types. The functions say what the visitor's methods build and report.
  */
module DefinitionParser {
  import opened Wrappers
  import opened Errors
  import opened Options
  import opened OptionSets
  import opened Types
  import opened DefinitionText

  const BUILT_INS: seq<Type> := [
    Integer("byte", 8, Unsigned, OrderUnset),
    Integer("sbyte", 8, Signed, OrderUnset),
    Integer("int8", 8, Signed, OrderUnset),
    Integer("uint8", 8, Unsigned, OrderUnset),
    Integer("int16", 16, Signed, OrderUnset),
    Integer("uint16", 16, Unsigned, OrderUnset),
    Integer("int32", 32, Signed, OrderUnset),
    Integer("uint32", 32, Unsigned, OrderUnset),
    Integer("int64", 64, Signed, OrderUnset),
    Integer("uint64", 64, Unsigned, OrderUnset)
  ]

  /** An integer as its name alone tells it. */
  predicate NamedInteger(t: Type, name: string) {
    && t.Integer?
    && t.alias == name
    && t.size == NameWidth(name)
    && t.sign == (if UnsignedName(name) then Unsigned else Signed)
    && t.order == OrderUnset
  }

  /** The stem and the digits of the name of a numbered row. */
  function RowStem(i: nat): string {
    if i % 2 == 0 then "int" else "uint"
  }

  function RowWidth(i: nat): string {
    if i < 4 then "8" else if i < 6 then "16" else if i < 8 then "32" else "64"
  }

  lemma NumberedRowName(i: nat)
    requires 2 <= i < 10
    ensures BUILT_INS[i].Integer? && BUILT_INS[i].alias == RowStem(i) + RowWidth(i)
  {
  }

  lemma NumberedRow(i: nat)
    requires 2 <= i < 10
    ensures BUILT_INS[i].Integer? && BUILT_INS[i].alias == RowStem(i) + RowWidth(i)
    ensures IntegerName(BUILT_INS[i].alias) && NamedInteger(BUILT_INS[i], BUILT_INS[i].alias)
  {
    NumberedRowName(i);
    WidthOfName(RowStem(i), RowWidth(i));
    assert (RowStem(i) + RowWidth(i))[0] == if i % 2 == 0 then 'i' else 'u';
  }

  lemma BuiltInRow(i: nat)
    requires i < |BUILT_INS|
    ensures IntegerName(AliasName(BUILT_INS[i])) && NamedInteger(BUILT_INS[i], AliasName(BUILT_INS[i]))
  {
    if i < 2 {
      assert AliasName(BUILT_INS[i])[0] == if i == 0 then 'b' else 's';
    } else {
      NumberedRow(i);
    }
  }

  lemma NumberedNameRow(stem: string, width: string) returns (i: nat)
    requires (stem == "int" || stem == "uint") && WidthText(width)
    ensures i < |BUILT_INS| && AliasName(BUILT_INS[i]) == stem + width
  {
    i := (if width == "8" then 2 else if width == "16" then 4 else if width == "32" then 6 else 8) +
         if stem == "int" then 0 else 1;
    NumberedRow(i);
  }

  lemma IntegerNameRow(name: string) returns (i: nat)
    requires IntegerName(name)
    ensures i < |BUILT_INS| && AliasName(BUILT_INS[i]) == name
  {
    if name == "byte" || name == "sbyte" {
      i := if name == "byte" then 0 else 1;
    } else {
      var stem := if "int" <= name && WidthText(name[3..]) then "int" else "uint";
      i := NumberedNameRow(stem, name[|stem|..]);
      assert name == stem + name[|stem|..];
    }
  }

  /** The built-in types are exactly the integers of the ten names, as each name tells. */
  lemma BuiltInByName(name: string)
    ensures match TypeNamed(BUILT_INS, name)
            case None => !IntegerName(name)
            case Some(t) => IntegerName(name) && NamedInteger(t, name)
  {
    TypeNamedSpec(BUILT_INS, name);
    if TypeNamed(BUILT_INS, name).Some? {
      var i: nat :| FirstAt(BUILT_INS, name, i) && BUILT_INS[i] == TypeNamed(BUILT_INS, name).value;
      BuiltInRow(i);
    } else if IntegerName(name) {
      var i := IntegerNameRow(name);
    }
  }

  function Lookup(types: seq<Type>, name: string): Option<Type> {
    if TypeNamed(types, name).Some? then TypeNamed(types, name) else TypeNamed(BUILT_INS, name)
  }

  /** An option whose name is not known goes on as one without a name. */
  function OptionKind(o: OptionAst): OptionType {
    if o.name.Some? then GetOptionType(o.name.value) else UnknownOption
  }

  function OptionErrors(o: OptionAst): seq<ErrorInfo> {
    if o.name.Some? && OptionKind(o) == UnknownOption then [Fatal(UnknownOptionType)] else []
  }

  predicate Repeats(entries: seq<OptionEntry>, ty: OptionType) {
    ty != UnknownOption && exists e :: e in entries && e.ty == ty
  }

  /** The options of a list, without those whose type is named a second time. */
  function Entries(options: seq<OptionAst>): seq<OptionEntry> {
    if options == [] then []
    else
      var before, o := Entries(options[..|options| - 1]), options[|options| - 1];
      before + if Repeats(before, OptionKind(o)) then [] else [OptionEntry(OptionKind(o), o.expr)]
  }

  function OptionListErrors(options: seq<OptionAst>): seq<ErrorInfo> {
    if options == [] then []
    else
      var before, o := options[..|options| - 1], options[|options| - 1];
      OptionListErrors(before) +
      (OptionErrors(o) + if Repeats(Entries(before), OptionKind(o)) then [Fatal(DuplicateOption)] else [])
  }

  function UseSettings(t: Type, options: seq<OptionAst>): Settings {
    Built(OPTION_DATA, OptionTypes(t), UNSET, Entries(options))
  }

  /** The type of a member, or the null type if its type's name is not known. */
  function MemberType(known: seq<Type>, m: MemberAst): Type {
    match Lookup(known, m.typeName)
    case None => Missing
    case Some(t) => Instantiate(t, UseSettings(t, m.options))
  }

  function UseErrors(known: seq<Type>, m: MemberAst): seq<ErrorInfo> {
    match Lookup(known, m.typeName)
    case None => [Fatal(UnknownType)]
    case Some(t) =>
      OptionListErrors(m.options) + Fatals(BuildErrors(OPTION_DATA, OptionTypes(t), Entries(m.options)))
  }

  function Fields(known: seq<Type>, members: seq<MemberAst>): seq<Field> {
    if members == [] then []
    else
      var m := members[|members| - 1];
      Fields(known, members[..|members| - 1]) + [Field(m.name, MemberType(known, m))]
  }

  predicate HasMember(fields: seq<Field>, name: string) {
    exists f :: f in fields && f.name == name
  }

  /** A name used twice is an error; one that is also a type's is only warned about. */
  function NameErrors(known: seq<Type>, own: string, fields: seq<Field>, name: string): seq<ErrorInfo> {
    if HasMember(fields, name) then [Fatal(ShadowingMember)]
    else if Lookup(known, name).Some? || name == own then [ErrorInfo(ShadowingType, WarningLevel)]
    else []
  }

  function MembersErrors(known: seq<Type>, own: string, members: seq<MemberAst>): seq<ErrorInfo> {
    if members == [] then []
    else
      var before, m := members[..|members| - 1], members[|members| - 1];
      MembersErrors(known, own, before) + (UseErrors(known, m) + NameErrors(known, own, Fields(known, before), m.name))
  }

  lemma MembersStep(known: seq<Type>, own: string, members: seq<MemberAst>, i: nat)
    requires i < |members|
    ensures Fields(known, members[..i + 1])
            == Fields(known, members[..i]) + [Field(members[i].name, MemberType(known, members[i]))]
    ensures MembersErrors(known, own, members[..i + 1])
            == MembersErrors(known, own, members[..i]) +
               (UseErrors(known, members[i]) + NameErrors(known, own, Fields(known, members[..i]), members[i].name))
  {
    assert members[..i + 1][..i] == members[..i];
  }

  /** Each definition in turn, with those before it known. */
  function Elaborate(asts: seq<TypeAst>): (types: seq<Type>)
    ensures |types| == |asts| && forall t :: t in types ==> t.Definition?
  {
    if asts == [] then []
    else
      var known, a := Elaborate(asts[..|asts| - 1]), asts[|asts| - 1];
      known + [Definition(a.name, Fields(known, a.members))]
  }

  function Reported(asts: seq<TypeAst>): seq<ErrorInfo> {
    if asts == [] then []
    else
      var known, a := Elaborate(asts[..|asts| - 1]), asts[|asts| - 1];
      Reported(asts[..|asts| - 1]) +
      (MembersErrors(known, a.name, a.members) + if Lookup(known, a.name).Some? then [Fatal(ShadowingType)] else [])
  }

  class Visitor {
    const errors: ErrorCollection
    var types: seq<Type>
    var statements: seq<Field>

    constructor (errors: ErrorCollection)
      ensures this.errors == errors && types == [] && statements == []
    {
      this.errors, types, statements := errors, [], [];
    }

    method GetType(name: string) returns (r: Option<Type>)
      ensures r == Lookup(types, name)
      ensures TypeNamed(types, name).Some? ==> r == TypeNamed(types, name)
      ensures TypeNamed(types, name).None? ==>
        (r.Some? <==> IntegerName(name)) && (r.Some? ==> NamedInteger(r.value, name))
    {
      BuiltInByName(name);
      r := FindType(types, name);
      if r.None? {
        r := FindType(BUILT_INS, name);
      }
    }

    method FindMember(name: string) returns (found: bool)
      ensures found <==> HasMember(statements, name)
    {
      for i := 0 to |statements|
        invariant !HasMember(statements[..i], name)
      {
        if statements[i].name == name {
          assert statements[i] in statements;
          return true;
        }
        assert statements[..i + 1] == statements[..i] + [statements[i]];
      }
      assert statements[..|statements|] == statements;
      return false;
    }

    method VisitOption(o: OptionAst) returns (ty: OptionType, text: string)
      modifies errors
      ensures ty == OptionKind(o) && text == o.expr
      ensures ty == SignednessOption <==> Typed(o) && SignName(o.name.value)
      ensures ty == ByteOrderOption <==> Typed(o) && OrderName(o.name.value)
      ensures errors.errors == old(errors.errors) + if Misnamed(o) then [Fatal(UnknownOptionType)] else []
      ensures Reports(errors, old(errors.errors), old(errors.hasErrors), OptionErrors(o))
    {
      ty, text := UnknownOption, o.expr;
      if o.name.Some? {
        ty := GetOptionType(o.name.value);
        if ty == UnknownOption {
          errors.Add(Fatal(UnknownOptionType));
        }
      }
    }

    method VisitOptionList(options: seq<OptionAst>) returns (listed: OptionSet)
      requires options != []
      modifies errors
      ensures fresh(listed) && listed.Valid() && listed.options == Entries(options)
      ensures Reports(errors, old(errors.errors), old(errors.hasErrors), OptionListErrors(options))
      decreases |options|
    {
      var init, o := options[..|options| - 1], options[|options| - 1];
      if init != [] {
        listed := VisitOptionList(init);
      } else {
        listed := new OptionSet();
      }
      ghost var e0, b0 := errors.errors, errors.hasErrors;
      var ty, text := VisitOption(o);
      ghost var e1, b1 := errors.errors, errors.hasErrors;
      var added := listed.AddStatic(ty, text, errors);
      ReportsThen(errors, e0, b0, OptionErrors(o), e1, b1, if added then [] else [Fatal(DuplicateOption)]);
      ReportsThen(errors, old(errors.errors), old(errors.hasErrors), OptionListErrors(init), e0, b0,
                  OptionErrors(o) + if added then [] else [Fatal(DuplicateOption)]);
    }

    /** The settings of one use of a type. */
    method BuildOptions(table: seq<OptionRow>, valid: set<OptionType>, options: seq<OptionAst>)
      returns (settings: Settings)
      modifies errors
      ensures settings == Built(table, valid, UNSET, Entries(options))
      ensures Reports(errors, old(errors.errors), old(errors.hasErrors),
                      OptionListErrors(options) + Fatals(BuildErrors(table, valid, Entries(options))))
    {
      if options == [] {
        return UNSET;
      }
      var listed := VisitOptionList(options);
      ghost var e0, b0 := errors.errors, errors.hasErrors;
      var target := new OptionsObject();
      var ok := listed.BuildStaticOptions(table, valid, target, errors);
      FatalsHasFatal(BuildErrors(table, valid, Entries(options)));
      ReportsThen(errors, old(errors.errors), old(errors.hasErrors), OptionListErrors(options), e0, b0,
                  Fatals(BuildErrors(table, valid, Entries(options))));
      settings := target.Values();
    }

    method VisitCompleteType(m: MemberAst) returns (t: Type)
      modifies errors
      ensures t == MemberType(types, m)
      ensures Reports(errors, old(errors.errors), old(errors.hasErrors), UseErrors(types, m))
    {
      var found := GetType(m.typeName);
      if found.None? {
        errors.Add(Fatal(UnknownType));
        return Missing;
      }
      var settings := BuildOptions(OPTION_DATA, OptionTypes(found.value), m.options);
      t := Instantiate(found.value, settings);
    }

    /** One turn of the member loop: the field is kept even when its name is not. */
    method VisitTypeMember(own: string, m: MemberAst)
      modifies errors, this`statements
      ensures statements == old(statements) + [Field(m.name, MemberType(types, m))]
      ensures Reports(errors, old(errors.errors), old(errors.hasErrors),
                      UseErrors(types, m) + NameErrors(types, own, old(statements), m.name))
    {
      var t := VisitCompleteType(m);
      ghost var e0, b0 := errors.errors, errors.hasErrors;
      var shadowed := FindMember(m.name);
      var shadowing := GetType(m.name);
      if shadowed {
        errors.Add(Fatal(ShadowingMember));
      } else if shadowing.Some? || m.name == own {
        errors.Add(ErrorInfo(ShadowingType, WarningLevel));
      }
      ReportsThen(errors, old(errors.errors), old(errors.hasErrors), UseErrors(types, m), e0, b0,
                  NameErrors(types, own, statements, m.name));
      statements := statements + [Field(m.name, t)];
    }

    method VisitTypeDefinition(a: TypeAst) returns (t: Type)
      requires statements == []
      modifies errors, this`statements
      ensures statements == [] && t == Definition(a.name, Fields(types, a.members))
      ensures Reports(errors, old(errors.errors), old(errors.hasErrors), MembersErrors(types, a.name, a.members))
    {
      for i := 0 to |a.members|
        invariant statements == Fields(types, a.members[..i])
        invariant Reports(errors, old(errors.errors), old(errors.hasErrors),
                          MembersErrors(types, a.name, a.members[..i]))
      {
        ghost var e0, b0 := errors.errors, errors.hasErrors;
        MembersStep(types, a.name, a.members, i);
        VisitTypeMember(a.name, a.members[i]);
        ReportsThen(errors, old(errors.errors), old(errors.hasErrors), MembersErrors(types, a.name, a.members[..i]), e0, b0,
                    UseErrors(types, a.members[i])
                    + NameErrors(types, a.name, Fields(types, a.members[..i]), a.members[i].name));
      }
      assert a.members[..|a.members|] == a.members;
      t := Definition(a.name, statements);
      statements := [];
    }

    /** One turn of the main loop: the type is kept even when its name is not. */
    method VisitGlobalDefinition(a: TypeAst) returns (t: Type)
      requires statements == []
      modifies errors, this
      ensures statements == [] && t == Definition(a.name, Fields(old(types), a.members)) && types == old(types) + [t]
      ensures Reports(errors, old(errors.errors), old(errors.hasErrors),
                      MembersErrors(old(types), a.name, a.members) +
                      if Lookup(old(types), a.name).Some? then [Fatal(ShadowingType)] else [])
    {
      t := VisitTypeDefinition(a);
      ghost var e0, b0 := errors.errors, errors.hasErrors;
      var shadowed := GetType(a.name);
      if shadowed.Some? {
        errors.Add(Fatal(ShadowingType));
      }
      ReportsThen(errors, old(errors.errors), old(errors.hasErrors), MembersErrors(types, a.name, a.members), e0, b0,
                  if shadowed.Some? then [Fatal(ShadowingType)] else []);
      types := types + [t];
    }

    method VisitMain(asts: seq<TypeAst>) returns (defs: seq<Type>)
      requires statements == [] && types == []
      modifies errors, this
      ensures defs == types == Elaborate(asts)
      ensures Reports(errors, old(errors.errors), old(errors.hasErrors), Reported(asts))
    {
      defs := [];
      for i := 0 to |asts|
        invariant statements == [] && defs == types == Elaborate(asts[..i])
        invariant Reports(errors, old(errors.errors), old(errors.hasErrors), Reported(asts[..i]))
      {
        ghost var e0, b0, known := errors.errors, errors.hasErrors, types;
        assert asts[..i + 1][..i] == asts[..i];
        var t := VisitGlobalDefinition(asts[i]);
        ReportsThen(errors, old(errors.errors), old(errors.hasErrors), Reported(asts[..i]), e0, b0,
                    MembersErrors(known, asts[i].name, asts[i].members) +
                    if Lookup(known, asts[i].name).Some? then [Fatal(ShadowingType)] else []);
        defs := defs + [t];
      }
      assert asts[..|asts|] == asts;
    }
  }

  method FindType(types: seq<Type>, name: string) returns (r: Option<Type>)
    ensures r == TypeNamed(types, name)
  {
    for i := 0 to |types|
      invariant TypeNamed(types, name) == TypeNamed(types[i..], name)
    {
      assert types[i..][1..] == types[i + 1..];
      if AliasName(types[i]) == name {
        return Some(types[i]);
      }
    }
    return None;
  }

  /** Since an earlier state, exactly these have been added. */
  ghost predicate Reports(errors: ErrorCollection, before: seq<ErrorInfo>, had: bool, added: seq<ErrorInfo>)
    reads errors
  {
    && errors.errors == before + added
    && errors.hasErrors == (had || HasFatal(added))
  }

  /** Two reports one after the other are the report of both. */
  lemma ReportsThen(errors: ErrorCollection, e0: seq<ErrorInfo>, b0: bool, first: seq<ErrorInfo>,
                    e1: seq<ErrorInfo>, b1: bool, second: seq<ErrorInfo>)
    requires e1 == e0 + first && b1 == (b0 || HasFatal(first))
    requires Reports(errors, e1, b1, second)
    ensures Reports(errors, e0, b0, first + second)
  {
    HasFatalConcat(first, second);
    assert e0 + first + second == e0 + (first + second);
  }

  /** The pass succeeds when no error, now or before it, has been reported. */
  method ParseDefinitions(asts: seq<TypeAst>, errors: ErrorCollection) returns (ok: bool, defs: seq<Type>)
    modifies errors
    ensures defs == Elaborate(asts)
    ensures errors.errors == old(errors.errors) + Reported(asts)
    ensures ok <==> !old(errors.hasErrors) && !HasFatal(Reported(asts))
  {
    var visitor := new Visitor(errors);
    defs := visitor.VisitMain(asts);
    ok := !errors.hasErrors;
  }
}
