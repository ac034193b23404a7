/** Which definition files are accepted, and what the types of any definition file are like. */
module DefinitionLaws {
  import opened Wrappers
  import opened Errors
  import opened Options
  import opened OptionSets
  import opened Types
  import opened DefinitionText
  import opened DefinitionParser

  /** The option type whose value an option's text names. */
  function TextKind(text: string): OptionType {
    if SignText(text) then SignednessOption else if OrderText(text) then ByteOrderOption else UnknownOption
  }

  function TextValue(text: string): OptionValue {
    if text == "signed" then SignValue(Signed)
    else if text == "unsigned" then SignValue(Unsigned)
    else if text == "little" then OrderValue(LittleEndian)
    else OrderValue(BigEndian)
  }

  // Options

  /** What one option does, for either kind of type, and the error if it is rejected. */
  lemma OutcomeOfText(t: Type, kind: OptionType, text: string)
    requires t.Integer? || t.Definition?
    ensures EntryOutcome(OPTION_DATA, OptionTypes(t), OptionEntry(kind, text)) ==
            if SignText(text) && kind in {UnknownOption, SignednessOption} then
              Applied(SignednessOption, SignValue(if text == "signed" then Signed else Unsigned))
            else if OrderText(text) && kind in {UnknownOption, ByteOrderOption} then
              Applied(ByteOrderOption, OrderValue(if text == "little" then LittleEndian else BigEndian))
            else
              Rejected(if kind == UnknownOption then UnknownOptionValue else UnknownOptionValueTyped)
  {
    var types := if kind == UnknownOption then OptionTypes(t) else {kind};
    TextsDiffer(text);
    RealHits(types, text);
  }

  lemma TextsDiffer(text: string)
    ensures !(SignText(text) && OrderText(text)) && "signed" != "unsigned"
    ensures text == "signed" ==> text != "unsigned"
  {
    assert "signed"[0] == 's' && "unsigned"[0] == 'u' && "big"[0] == 'b' && "network"[0] == 'n' && "little"[0] == 'l';
  }

  /** The whole table by its texts: only a text of an allowed type has a meaning, and only one. */
  lemma RealHits(types: set<OptionType>, text: string)
    ensures Hits(OPTION_DATA, types, text) ==
            if TextKind(text) != UnknownOption && (types == {} || TextKind(text) in types)
            then [(TextKind(text), TextValue(text))] else []
  {
    var signs, orders := OPTION_DATA[0], OPTION_DATA[1];
    assert OPTION_DATA[..1] == [signs] && OPTION_DATA[..1][..0] == [];
    assert Hits(OPTION_DATA[..1], types, text) == RowHit(signs, types, text);
    assert Hits(OPTION_DATA, types, text) == RowHit(signs, types, text) + RowHit(orders, types, text);
    SignTexts(text);
    OrderTexts(text);
  }

  lemma SignTexts(text: string)
    ensures FirstNamed(OPTION_DATA[0].values, text) ==
            if TextKind(text) == SignednessOption then Some(TextValue(text)) else None
  {
    var values := OPTION_DATA[0].values;
    assert values[1..] == [("unsigned", SignValue(Unsigned))] && values[1..][1..] == [];
    assert FirstNamed(values[1..], text) == if text == "unsigned" then Some(SignValue(Unsigned)) else None;
    assert "signed"[0] == 's' && "unsigned"[0] == 'u' && "big"[0] == 'b' && "network"[0] == 'n' && "little"[0] == 'l';
  }

  lemma OrderTexts(text: string)
    ensures FirstNamed(OPTION_DATA[1].values, text) ==
            if TextKind(text) == ByteOrderOption then Some(TextValue(text)) else None
  {
    var values := OPTION_DATA[1].values;
    assert values[1..] == [("network", OrderValue(BigEndian)), ("little", OrderValue(LittleEndian))];
    assert values[1..][1..] == [("little", OrderValue(LittleEndian))] && values[1..][1..][1..] == [];
    assert FirstNamed(values[1..][1..], text) ==
           if text == "little" then Some(OrderValue(LittleEndian)) else None;
    assert "signed"[0] == 's' && "unsigned"[0] == 'u' && "big"[0] == 'b' && "network"[0] == 'n' && "little"[0] == 'l';
  }

  /** The option type of an option, by its name. */
  lemma KindOfName(o: OptionAst)
    ensures OptionKind(o) == if !Typed(o) then UnknownOption
                             else if SignName(o.name.value) then SignednessOption
                             else ByteOrderOption
  {
    assert "signedness"[0] == 's' && "byte_order"[0] == 'b' && "order"[0] == 'o';
  }

  /** The types among the entries are those among the options. */
  lemma {:induction false} EntryKinds(options: seq<OptionAst>, n: nat, kind: OptionType)
    requires n <= |options| && kind != UnknownOption
    ensures Repeats(Entries(options[..n]), kind) <==> exists j :: 0 <= j < n && OptionKind(options[j]) == kind
  {
    if n > 0 {
      EntryKinds(options, n - 1, kind);
      assert options[..n][..n - 1] == options[..n - 1];
      var before, o := Entries(options[..n - 1]), options[n - 1];
      var entry := OptionEntry(OptionKind(o), o.expr);
      assert Entries(options[..n]) == before + if Repeats(before, OptionKind(o)) then [] else [entry];
      if Repeats(before, kind) {
        var e :| e in before && e.ty == kind;
        assert e in Entries(options[..n]);
      } else if OptionKind(o) == kind {
        assert entry in Entries(options[..n]);
      }
    }
  }

  lemma RepeatsIsText(options: seq<OptionAst>, n: nat)
    requires n < |options|
    ensures Repeats(Entries(options[..n]), OptionKind(options[n])) <==> Repeated(options, n)
  {
    KindOfName(options[n]);
    forall j | 0 <= j < n
      ensures SameKind(options[j], options[n]) <==>
              OptionKind(options[n]) != UnknownOption && OptionKind(options[j]) == OptionKind(options[n])
    {
      KindOfName(options[j]);
    }
    if OptionKind(options[n]) != UnknownOption {
      EntryKinds(options, n, OptionKind(options[n]));
    }
  }

  lemma ListStep(options: seq<OptionAst>, n: nat)
    requires 0 < n <= |options|
    ensures OptionListErrors(options[..n]) == OptionListErrors(options[..n - 1]) + Fatals(NameReport(options, n - 1))
  {
    assert options[..n][..n - 1] == options[..n - 1];
    RepeatsIsText(options, n - 1);
    KindOfName(options[n - 1]);
    assert Fatals(NameReport(options, n - 1)) ==
           OptionErrors(options[n - 1]) + if Repeated(options, n - 1) then [Fatal(DuplicateOption)] else [];
  }

  /** What is reported while an option list is read. */
  lemma ListOfText(options: seq<OptionAst>)
    ensures OptionListErrors(options) == Fatals(Flat(NamePieces(options)))
  {
    ListOfFirst(options, |options|);
    assert options[..|options|] == options && NamePieces(options)[..|options|] == NamePieces(options);
  }

  lemma {:induction false} ListOfFirst(options: seq<OptionAst>, n: nat)
    requires n <= |options|
    ensures OptionListErrors(options[..n]) == Fatals(Flat(NamePieces(options)[..n]))
  {
    if n > 0 {
      ListOfFirst(options, n - 1);
      ListStep(options, n);
      FlatSnoc(NamePieces(options), n - 1);
      FatalsConcat(Flat(NamePieces(options)[..n - 1]), NameReport(options, n - 1));
    }
  }

  lemma EntryOfText(t: Type, o: OptionAst)
    requires t.Integer? || t.Definition?
    ensures EntryOutcome(OPTION_DATA, OptionTypes(t), OptionEntry(OptionKind(o), o.expr)) ==
            if ValueOk(o) then Applied(TextKind(o.expr), TextValue(o.expr))
            else Rejected(if Typed(o) then UnknownOptionValueTyped else UnknownOptionValue)
  {
    KindOfName(o);
    TextsDiffer(o.expr);
    OutcomeOfText(t, OptionKind(o), o.expr);
  }

  lemma BuildErrorsSnoc(table: seq<OptionRow>, valid: set<OptionType>, before: seq<OptionEntry>, e: OptionEntry)
    ensures BuildErrors(table, valid, before + [e]) ==
            BuildErrors(table, valid, before) +
            match EntryOutcome(table, valid, e) case Applied(_, _) => [] case Rejected(kind) => [kind]
  {
    assert (before + [e])[..|before|] == before;
  }

  lemma EntriesStep(options: seq<OptionAst>, n: nat)
    requires 0 < n <= |options|
    ensures var o := options[n - 1];
      Entries(options[..n]) ==
      Entries(options[..n - 1]) + if Repeated(options, n - 1) then [] else [OptionEntry(OptionKind(o), o.expr)]
  {
    assert options[..n][..n - 1] == options[..n - 1];
    RepeatsIsText(options, n - 1);
  }

  /** What is reported when one more option is applied. */
  lemma BuildStep(t: Type, options: seq<OptionAst>, n: nat, before: seq<OptionEntry>, after: seq<OptionEntry>)
    requires (t.Integer? || t.Definition?) && 0 < n <= |options|
    requires after == before + if Repeated(options, n - 1) then []
                               else [OptionEntry(OptionKind(options[n - 1]), options[n - 1].expr)]
    ensures BuildErrors(OPTION_DATA, OptionTypes(t), after) ==
            BuildErrors(OPTION_DATA, OptionTypes(t), before) + ValueReport(options, n - 1)
  {
    if !Repeated(options, n - 1) {
      EntryOfText(t, options[n - 1]);
      BuildErrorsSnoc(OPTION_DATA, OptionTypes(t), before,
                      OptionEntry(OptionKind(options[n - 1]), options[n - 1].expr));
    }
  }

  /** What is reported when the options are then applied. */
  lemma BuildOfText(t: Type, options: seq<OptionAst>)
    requires t.Integer? || t.Definition?
    ensures BuildErrors(OPTION_DATA, OptionTypes(t), Entries(options)) == Flat(ValuePieces(options))
  {
    var m := |options|;
    var prefixes := seq(m + 1, n requires 0 <= n <= m =>
      BuildErrors(OPTION_DATA, OptionTypes(t), Entries(options[..n])));
    forall n | 0 <= n < m
      ensures prefixes[n + 1] == prefixes[n] + ValuePieces(options)[n]
    {
      EntriesStep(options, n + 1);
      BuildStep(t, options, n + 1, Entries(options[..n]), Entries(options[..n + 1]));
    }
    FlatOfPrefixes(ValuePieces(options), prefixes);
    assert options[..m] == options;
  }

  /**
    * All that an option list reports, on any type, by its text; it reports nothing exactly when it
    * is right.
    */
  lemma OptionsIff(t: Type, options: seq<OptionAst>)
    requires t.Integer? || t.Definition?
    ensures var reported :=
        OptionListErrors(options) + Fatals(BuildErrors(OPTION_DATA, OptionTypes(t), Entries(options)));
      && reported == Fatals(OptionReports(options))
      && (!HasFatal(reported) <==> OptionsOk(options))
  {
    ListOfText(options);
    BuildOfText(t, options);
    FatalsConcat(Flat(NamePieces(options)), Flat(ValuePieces(options)));
    OptionReportsIff(options);
    FatalsHasFatal(OptionReports(options));
  }

  function AllEntries(options: seq<OptionAst>): (r: seq<OptionEntry>)
    ensures |r| == |options|
  {
    seq(|options|, i requires 0 <= i < |options| => OptionEntry(OptionKind(options[i]), options[i].expr))
  }

  lemma {:induction false} EntriesAll(options: seq<OptionAst>, n: nat)
    requires OptionsOk(options) && n <= |options|
    ensures Entries(options[..n]) == AllEntries(options[..n])
  {
    if n > 0 {
      EntriesAll(options, n - 1);
      assert options[..n][..n - 1] == options[..n - 1];
      RepeatsIsText(options, n - 1);
    }
  }

  /** Of right options on a type, the last of each option type decides. */
  lemma LastOptionWins(t: Type, options: seq<OptionAst>, ty: OptionType, i: int)
    requires t.Integer? && OptionsOk(options) && ty != UnknownOption && -1 <= i < |options|
    requires i >= 0 ==> TextKind(options[i].expr) == ty
    requires forall j :: i < j < |options| ==> TextKind(options[j].expr) != ty
    ensures UseSettings(t, options).Get(ty) == if i >= 0 then Some(TextValue(options[i].expr)) else UNSET.Get(ty)
  {
    assert options[..|options|] == options;
    EntriesAll(options, |options|);
    forall j | 0 <= j < |options|
      ensures EntryOutcome(OPTION_DATA, OptionTypes(t), AllEntries(options)[j])
              == Applied(TextKind(options[j].expr), TextValue(options[j].expr))
    {
      assert OptionOk(options[j]);
      EntryOfText(t, options[j]);
    }
    LastEntryWins(OPTION_DATA, OptionTypes(t), UNSET, AllEntries(options), ty, i);
  }

  /** The place of the last option of a type, or -1. */
  lemma {:induction false} LastOfKind(options: seq<OptionAst>, ty: OptionType) returns (i: int)
    requires ty != UnknownOption
    ensures -1 <= i < |options| && (i >= 0 ==> TextKind(options[i].expr) == ty)
    ensures forall j :: i < j < |options| ==> TextKind(options[j].expr) != ty
    ensures (if ty == SignednessOption then LastSign(options) else LastOrder(options)) ==
            if i >= 0 then Some(options[i].expr) else None
  {
    if options == [] {
      i := -1;
    } else {
      var n := |options| - 1;
      TextsDiffer(options[n].expr);
      if TextKind(options[n].expr) == ty {
        i := n;
      } else {
        i := LastOfKind(options[..n], ty);
      }
    }
  }

  /** An integer used with right options has the sign and the byte order that the text tells. */
  lemma UseOfInteger(known: seq<Type>, m: MemberAst)
    requires TypeNamed(known, m.typeName).None? && IntegerName(m.typeName) && OptionsOk(m.options)
    ensures IsIntegerMember(MemberType(known, m), m)
  {
    BuiltInByName(m.typeName);
    var t := Lookup(known, m.typeName).value;
    var i := LastOfKind(m.options, SignednessOption);
    LastOptionWins(t, m.options, SignednessOption, i);
    var j := LastOfKind(m.options, ByteOrderOption);
    LastOptionWins(t, m.options, ByteOrderOption, j);
    if i >= 0 {
      TextsDiffer(m.options[i].expr);
    }
    if j >= 0 {
      TextsDiffer(m.options[j].expr);
    }
  }

  /** An integer type of the width, the sign and the byte order that a member's text tells. */
  predicate IsIntegerMember(t: Type, m: MemberAst) {
    && t.Integer?
    && t.alias == m.typeName
    && t.size == NameWidth(m.typeName)
    && t.sign == (if SignedMember(m) then Signed else Unsigned)
    && t.order == match LastOrder(m.options)
                  case None => OrderUnset
                  case Some(text) => if text == "little" then LittleEndian else BigEndian
  }

  // Names

  /** The types of a prefix are the prefix of the types. */
  lemma {:induction false} ElaboratePrefix(asts: seq<TypeAst>, n: nat)
    requires n <= |asts|
    ensures Elaborate(asts[..n]) == Elaborate(asts)[..n]
    decreases |asts|
  {
    if n == |asts| {
      assert asts[..n] == asts;
    } else {
      var init := asts[..|asts| - 1];
      assert init[..n] == asts[..n];
      ElaboratePrefix(init, n);
    }
  }

  lemma ElaborateAt(asts: seq<TypeAst>, i: nat)
    requires i < |asts|
    ensures Elaborate(asts)[i] == Definition(asts[i].name, Fields(Elaborate(asts[..i]), asts[i].members))
  {
    ElaboratePrefix(asts, i + 1);
    ElaborateLast(asts[..i + 1], asts[..i], asts[i]);
  }

  lemma ElaborateLast(asts: seq<TypeAst>, init: seq<TypeAst>, last: TypeAst)
    requires asts != [] && init == asts[..|asts| - 1] && last == asts[|asts| - 1]
    ensures Elaborate(asts)[|init|] == Definition(last.name, Fields(Elaborate(init), last.members))
  {
  }

  lemma LookupIff(asts: seq<TypeAst>, name: string)
    ensures TypeNamed(Elaborate(asts), name).Some? <==> Declares(asts, name)
    ensures Lookup(Elaborate(asts), name).Some? <==> Known(asts, name)
  {
    var types := Elaborate(asts);
    BuiltInByName(name);
    TypeNamedSpec(types, name);
    forall i | 0 <= i < |asts|
      ensures AliasName(types[i]) == asts[i].name
    {
      ElaborateAt(asts, i);
    }
  }

  /** A type that is found is a built-in or a definition, never the null type. */
  lemma LookupKind(asts: seq<TypeAst>, name: string)
    requires Lookup(Elaborate(asts), name).Some?
    ensures var t := Lookup(Elaborate(asts), name).value; t in BUILT_INS || t in Elaborate(asts)
    ensures var t := Lookup(Elaborate(asts), name).value; t.Integer? || t.Definition?
  {
    TypeNamedSpec(Elaborate(asts), name);
    TypeNamedSpec(BUILT_INS, name);
  }

  lemma {:induction false} FieldsAt(known: seq<Type>, members: seq<MemberAst>)
    ensures |Fields(known, members)| == |members|
    ensures forall k :: 0 <= k < |members| ==>
      Fields(known, members)[k] == Field(members[k].name, MemberType(known, members[k]))
  {
    if members != [] {
      FieldsAt(known, members[..|members| - 1]);
    }
  }

  lemma HasMemberIff(known: seq<Type>, members: seq<MemberAst>, k: nat)
    requires k < |members|
    ensures HasMember(Fields(known, members[..k]), members[k].name) <==> NameTaken(members, k)
  {
    FieldsAt(known, members[..k]);
    if j :| 0 <= j < k && members[j].name == members[k].name {
      assert Fields(known, members[..k])[j] in Fields(known, members[..k]);
    }
  }

  // Reports

  lemma UseOfText(earlier: seq<TypeAst>, m: MemberAst)
    ensures UseErrors(Elaborate(earlier), m) == UseReports(earlier, m)
  {
    LookupIff(earlier, m.typeName);
    if Known(earlier, m.typeName) {
      LookupKind(earlier, m.typeName);
      OptionsIff(Lookup(Elaborate(earlier), m.typeName).value, m.options);
    }
  }

  lemma NameOfText(earlier: seq<TypeAst>, own: string, members: seq<MemberAst>, k: nat)
    requires k < |members|
    ensures var known := Elaborate(earlier);
      NameErrors(known, own, Fields(known, members[..k]), members[k].name)
      == MemberNameReports(earlier, own, members, k)
  {
    HasMemberIff(Elaborate(earlier), members, k);
    LookupIff(earlier, members[k].name);
  }

  lemma MembersSnoc(earlier: seq<TypeAst>, own: string, members: seq<MemberAst>, n: nat)
    requires 0 < n <= |members|
    ensures var known := Elaborate(earlier);
      MembersErrors(known, own, members[..n]) ==
      MembersErrors(known, own, members[..n - 1]) + MemberPieces(earlier, own, members)[n - 1]
  {
    MembersStep(Elaborate(earlier), own, members, n - 1);
    UseOfText(earlier, members[n - 1]);
    NameOfText(earlier, own, members, n - 1);
  }

  /** What the members of a type report, in order. */
  lemma MembersOfText(earlier: seq<TypeAst>, own: string, members: seq<MemberAst>)
    ensures MembersErrors(Elaborate(earlier), own, members) == Flat(MemberPieces(earlier, own, members))
  {
    var known, m := Elaborate(earlier), |members|;
    var prefixes := seq(m + 1, n requires 0 <= n <= m => MembersErrors(known, own, members[..n]));
    forall n | 0 <= n < m
      ensures prefixes[n + 1] == prefixes[n] + MemberPieces(earlier, own, members)[n]
    {
      MembersSnoc(earlier, own, members, n + 1);
    }
    FlatOfPrefixes(MemberPieces(earlier, own, members), prefixes);
    assert members[..m] == members;
  }

  lemma DefinitionOfText(earlier: seq<TypeAst>, a: TypeAst)
    ensures MembersErrors(Elaborate(earlier), a.name, a.members) +
            (if Lookup(Elaborate(earlier), a.name).Some? then [Fatal(ShadowingType)] else [])
            == DefinitionReports(earlier, a)
  {
    MembersOfText(earlier, a.name, a.members);
    LookupIff(earlier, a.name);
  }

  lemma ReportsSnoc(asts: seq<TypeAst>, n: nat)
    requires 0 < n <= |asts|
    ensures Reported(asts[..n]) == Reported(asts[..n - 1]) + FilePieces(asts)[n - 1]
  {
    assert asts[..n][..n - 1] == asts[..n - 1];
    DefinitionOfText(asts[..n - 1], asts[n - 1]);
  }

  /** Every report on every file, right or wrong, is what its text alone tells, in order. */
  lemma ReportsOfText(asts: seq<TypeAst>)
    ensures Reported(asts) == FileReports(asts)
  {
    var m := |asts|;
    var prefixes := seq(m + 1, n requires 0 <= n <= m => Reported(asts[..n]));
    forall n | 0 <= n < m
      ensures prefixes[n + 1] == prefixes[n] + FilePieces(asts)[n]
    {
      ReportsSnoc(asts, n + 1);
    }
    FlatOfPrefixes(FilePieces(asts), prefixes);
    assert asts[..m] == asts;
  }

  /**
    * A definition file is accepted exactly when its text is right: type names are distinct and
    * none is built in, the members of a type have distinct names, and each uses a built-in type
    * or one defined strictly earlier, with right options.
    */
  lemma AcceptedIff(asts: seq<TypeAst>)
    ensures !HasFatal(Reported(asts)) <==> WellScoped(asts)
  {
    ReportsOfText(asts);
    FileIff(asts);
  }
}
