/**
  * Definition files by their text alone: what the names of integers and options say, which files
  * are right, and what is reported of those that are not. Nothing here knows of types or settings.
  */
module DefinitionText {
  import opened Wrappers
  import opened Errors

  datatype OptionAst = OptionAst(name: Option<string>, expr: string)

  /** A data field. No options means that there is no option list. */
  datatype MemberAst = MemberAst(typeName: string, options: seq<OptionAst>, name: string)

  datatype TypeAst = TypeAst(name: string, members: seq<MemberAst>)

  // Integers

  predicate WidthText(s: string) {
    s == "8" || s == "16" || s == "32" || s == "64"
  }

  /** The names of the built-in integers. */
  predicate IntegerName(name: string) {
    || name == "byte"
    || name == "sbyte"
    || ("int" <= name && WidthText(name[3..]))
    || ("uint" <= name && WidthText(name[4..]))
  }

  /** The number that the digits at the end of a name write. */
  function EndNumber(name: string): nat {
    if name == "" || !('0' <= name[|name| - 1] <= '9') then 0
    else 10 * EndNumber(name[..|name| - 1]) + (name[|name| - 1] as nat - '0' as nat)
  }

  lemma EndDigit(stem: string, digit: char)
    requires '0' <= digit <= '9'
    ensures EndNumber(stem + [digit]) == 10 * EndNumber(stem) + (digit as nat - '0' as nat)
  {
    assert (stem + [digit])[..|stem|] == stem;
  }

  lemma WidthOfName(stem: string, width: string)
    requires (stem == "int" || stem == "uint") && WidthText(width)
    ensures IntegerName(stem + width) && NameWidth(stem + width) == EndNumber(stem + width)
    ensures EndNumber(stem + width) ==
            if width == "8" then 8 else if width == "16" then 16 else if width == "32" then 32 else 64
  {
    EndDigit(stem, width[0]);
    if |width| == 2 {
      EndDigit(stem + width[..1], width[1]);
      assert stem + width[..1] + [width[1]] == stem + width;
    } else {
      assert stem + [width[0]] == stem + width;
    }
    assert (stem + width)[|stem|..] == width;
    assert (stem + width)[..|stem|] == stem;
  }

  /** How many bits an integer of this name has. */
  function NameWidth(name: string): nat {
    if name == "byte" || name == "sbyte" then 8 else EndNumber(name)
  }

  predicate UnsignedName(name: string) {
    name == "byte" || "u" <= name
  }

  // Options

  predicate SignText(text: string) {
    text == "signed" || text == "unsigned"
  }

  predicate OrderText(text: string) {
    text == "big" || text == "network" || text == "little"
  }

  predicate SignName(name: string) {
    name == "signedness"
  }

  predicate OrderName(name: string) {
    name == "byte_order" || name == "order"
  }

  /** The option names a kind of option, signedness or byte order. */
  predicate Typed(o: OptionAst) {
    o.name.Some? && (SignName(o.name.value) || OrderName(o.name.value))
  }

  predicate Misnamed(o: OptionAst) {
    o.name.Some? && !Typed(o)
  }

  /** The text is a value of the kind named, or of either if none is. */
  predicate ValueOk(o: OptionAst) {
    if !Typed(o) then SignText(o.expr) || OrderText(o.expr)
    else if SignName(o.name.value) then SignText(o.expr)
    else OrderText(o.expr)
  }

  predicate SameKind(o: OptionAst, p: OptionAst) {
    Typed(o) && Typed(p) && (SignName(o.name.value) <==> SignName(p.name.value))
  }

  predicate Repeated(options: seq<OptionAst>, i: nat)
    requires i < |options|
  {
    exists j :: 0 <= j < i && SameKind(options[j], options[i])
  }

  predicate OptionOk(o: OptionAst) {
    !Misnamed(o) && ValueOk(o)
  }

  /** Options that are right and name no kind twice. Options without a name may repeat. */
  predicate OptionsOk(options: seq<OptionAst>) {
    forall i :: 0 <= i < |options| ==> OptionOk(options[i]) && !Repeated(options, i)
  }

  /** The last of the options that tells the sign. */
  function LastSign(options: seq<OptionAst>): Option<string> {
    if options == [] then None
    else if SignText(options[|options| - 1].expr) then Some(options[|options| - 1].expr)
    else LastSign(options[..|options| - 1])
  }

  /** The last of the options that tells the byte order. */
  function LastOrder(options: seq<OptionAst>): Option<string> {
    if options == [] then None
    else if OrderText(options[|options| - 1].expr) then Some(options[|options| - 1].expr)
    else LastOrder(options[..|options| - 1])
  }

  /** The last sign among its options decides, and without one the name of its type. */
  predicate SignedMember(m: MemberAst) {
    match LastSign(m.options)
    case Some(text) => text == "signed"
    case None => !UnsignedName(m.typeName)
  }

  predicate LittleMember(m: MemberAst) {
    LastOrder(m.options) == Some("little")
  }

  // Which files are right

  predicate Declares(asts: seq<TypeAst>, name: string) {
    exists i :: 0 <= i < |asts| && asts[i].name == name
  }

  predicate Known(earlier: seq<TypeAst>, name: string) {
    IntegerName(name) || Declares(earlier, name)
  }

  predicate NameTaken(members: seq<MemberAst>, k: nat)
    requires k < |members|
  {
    exists j :: 0 <= j < k && members[j].name == members[k].name
  }

  /** A member uses a built-in or an earlier type, with right options, under a name of its own. */
  predicate MemberOk(earlier: seq<TypeAst>, members: seq<MemberAst>, k: nat)
    requires k < |members|
  {
    Known(earlier, members[k].typeName) && OptionsOk(members[k].options) && !NameTaken(members, k)
  }

  predicate MembersOk(earlier: seq<TypeAst>, members: seq<MemberAst>) {
    forall k :: 0 <= k < |members| ==> MemberOk(earlier, members, k)
  }

  predicate DefinitionOk(earlier: seq<TypeAst>, a: TypeAst) {
    !Known(earlier, a.name) && MembersOk(earlier, a.members)
  }

  /** A definition file as its text alone says it is right. */
  predicate WellScoped(asts: seq<TypeAst>) {
    forall i :: 0 <= i < |asts| ==> DefinitionOk(asts[..i], asts[i])
  }

  // What is reported

  function Flat<T>(pieces: seq<seq<T>>): seq<T> {
    if pieces == [] then [] else Flat(pieces[..|pieces| - 1]) + pieces[|pieces| - 1]
  }

  /** Of an option: that its name is not known, or that it repeats a kind. */
  function NameReport(options: seq<OptionAst>, i: nat): seq<ErrorKind>
    requires i < |options|
  {
    if Misnamed(options[i]) then [UnknownOptionType]
    else if Repeated(options, i) then [DuplicateOption]
    else []
  }

  /** Of an option that repeats none: that its text is no value. */
  function ValueReport(options: seq<OptionAst>, i: nat): seq<ErrorKind>
    requires i < |options|
  {
    if Repeated(options, i) || ValueOk(options[i]) then []
    else if Typed(options[i]) then [UnknownOptionValueTyped]
    else [UnknownOptionValue]
  }

  function NamePieces(options: seq<OptionAst>): (r: seq<seq<ErrorKind>>)
    ensures |r| == |options|
  {
    seq(|options|, i requires 0 <= i < |options| => NameReport(options, i))
  }

  function ValuePieces(options: seq<OptionAst>): (r: seq<seq<ErrorKind>>)
    ensures |r| == |options|
  {
    seq(|options|, i requires 0 <= i < |options| => ValueReport(options, i))
  }

  /** All names of an option list come before all values. */
  function OptionReports(options: seq<OptionAst>): seq<ErrorKind> {
    Flat(NamePieces(options)) + Flat(ValuePieces(options))
  }

  /** The options of a type that is not known are not looked at. */
  function UseReports(earlier: seq<TypeAst>, m: MemberAst): seq<ErrorInfo> {
    if !Known(earlier, m.typeName) then [Fatal(UnknownType)] else Fatals(OptionReports(m.options))
  }

  /** A name used twice is an error; one that is also a type's is only warned about. */
  function MemberNameReports(earlier: seq<TypeAst>, own: string, members: seq<MemberAst>, k: nat): seq<ErrorInfo>
    requires k < |members|
  {
    if NameTaken(members, k) then [Fatal(ShadowingMember)]
    else if Known(earlier, members[k].name) || members[k].name == own then [ErrorInfo(ShadowingType, WarningLevel)]
    else []
  }

  function MemberPieces(earlier: seq<TypeAst>, own: string, members: seq<MemberAst>): (r: seq<seq<ErrorInfo>>)
    ensures |r| == |members|
  {
    seq(|members|, k requires 0 <= k < |members| =>
      UseReports(earlier, members[k]) + MemberNameReports(earlier, own, members, k))
  }

  function DefinitionReports(earlier: seq<TypeAst>, a: TypeAst): seq<ErrorInfo> {
    Flat(MemberPieces(earlier, a.name, a.members)) + if Known(earlier, a.name) then [Fatal(ShadowingType)] else []
  }

  function FilePieces(asts: seq<TypeAst>): (r: seq<seq<ErrorInfo>>)
    ensures |r| == |asts|
  {
    seq(|asts|, i requires 0 <= i < |asts| => DefinitionReports(asts[..i], asts[i]))
  }

  /** All that is reported of a file, in order. */
  function FileReports(asts: seq<TypeAst>): seq<ErrorInfo> {
    Flat(FilePieces(asts))
  }

  /** Some report is an error, not a warning. */
  predicate HasFatal(reported: seq<ErrorInfo>) {
    exists e :: e in reported && e.level == ErrorLevel.ErrorLevel
  }

  lemma HasFatalConcat(a: seq<ErrorInfo>, b: seq<ErrorInfo>)
    ensures HasFatal(a + b) <==> HasFatal(a) || HasFatal(b)
  {
    if HasFatal(a) {
      var e :| e in a && e.level == ErrorLevel.ErrorLevel;
      assert e in a + b;
    }
    if HasFatal(b) {
      var e :| e in b && e.level == ErrorLevel.ErrorLevel;
      assert e in a + b;
    }
  }

  lemma FatalsHasFatal(kinds: seq<ErrorKind>)
    ensures HasFatal(Fatals(kinds)) <==> kinds != []
  {
    if kinds != [] {
      assert Fatals(kinds)[0] in Fatals(kinds);
    }
  }

  /** A concatenation has an error exactly if one of its pieces has. */
  lemma {:induction false} FlatHasFatal(pieces: seq<seq<ErrorInfo>>, bad: seq<bool>)
    requires |bad| == |pieces| && forall i :: 0 <= i < |pieces| ==> bad[i] == HasFatal(pieces[i])
    ensures HasFatal(Flat(pieces)) <==> true in bad
  {
    if pieces != [] {
      var n := |pieces| - 1;
      FlatHasFatal(pieces[..n], bad[..n]);
      HasFatalConcat(Flat(pieces[..n]), pieces[n]);
      assert bad == bad[..n] + [bad[n]];
    }
  }

  lemma {:induction false} FlatEmpty<T>(pieces: seq<seq<T>>)
    ensures Flat(pieces) == [] <==> forall i :: 0 <= i < |pieces| ==> pieces[i] == []
  {
    if pieces != [] {
      FlatEmpty(pieces[..|pieces| - 1]);
    }
  }

  /** Lists that grow by one piece after the other end up as all of them. */
  lemma {:induction false} FlatOfPrefixes<T>(pieces: seq<seq<T>>, prefixes: seq<seq<T>>)
    requires |prefixes| == |pieces| + 1 && prefixes[0] == []
    requires forall n :: 0 <= n < |pieces| ==> prefixes[n + 1] == prefixes[n] + pieces[n]
    ensures prefixes[|pieces|] == Flat(pieces)
  {
    if pieces != [] {
      var n := |pieces| - 1;
      FlatOfPrefixes(pieces[..n], prefixes[..n + 1]);
      assert prefixes[n + 1] == prefixes[n] + pieces[n];
    }
  }

  lemma FlatSnoc<T>(pieces: seq<seq<T>>, n: nat)
    requires n < |pieces|
    ensures Flat(pieces[..n + 1]) == Flat(pieces[..n]) + pieces[n]
  {
    assert pieces[..n + 1][..n] == pieces[..n];
  }

  // Right files are those of which no error is reported

  /** Nothing is reported of an option list exactly when it is right. */
  lemma OptionReportsIff(options: seq<OptionAst>)
    ensures OptionReports(options) == [] <==> OptionsOk(options)
  {
    FlatEmpty(NamePieces(options));
    FlatEmpty(ValuePieces(options));
    forall i | 0 <= i < |options|
      ensures NamePieces(options)[i] == ValuePieces(options)[i] == [] <==> OptionOk(options[i]) && !Repeated(options, i)
    {
      OneOptionIff(options, i);
    }
  }

  lemma OneOptionIff(options: seq<OptionAst>, i: nat)
    requires i < |options|
    ensures NameReport(options, i) == ValueReport(options, i) == [] <==> OptionOk(options[i]) && !Repeated(options, i)
  {
  }

  lemma MemberIff(earlier: seq<TypeAst>, own: string, members: seq<MemberAst>, k: nat)
    requires k < |members|
    ensures HasFatal(UseReports(earlier, members[k]) + MemberNameReports(earlier, own, members, k))
            <==> !MemberOk(earlier, members, k)
  {
    HasFatalConcat(UseReports(earlier, members[k]), MemberNameReports(earlier, own, members, k));
    UseReportsIff(earlier, members[k]);
    NameReportsIff(earlier, own, members, k);
  }

  lemma UseReportsIff(earlier: seq<TypeAst>, m: MemberAst)
    ensures HasFatal(UseReports(earlier, m)) <==> !(Known(earlier, m.typeName) && OptionsOk(m.options))
  {
    OptionReportsIff(m.options);
    FatalsHasFatal(OptionReports(m.options));
    if !Known(earlier, m.typeName) {
      assert UseReports(earlier, m)[0] == Fatal(UnknownType);
    }
  }

  lemma NameReportsIff(earlier: seq<TypeAst>, own: string, members: seq<MemberAst>, k: nat)
    requires k < |members|
    ensures HasFatal(MemberNameReports(earlier, own, members, k)) <==> NameTaken(members, k)
  {
    if NameTaken(members, k) {
      assert MemberNameReports(earlier, own, members, k)[0] == Fatal(ShadowingMember);
    }
  }

  /** Members report no error exactly when each is right; warnings do not matter. */
  lemma MembersIff(earlier: seq<TypeAst>, own: string, members: seq<MemberAst>)
    ensures !HasFatal(Flat(MemberPieces(earlier, own, members))) <==> MembersOk(earlier, members)
  {
    var pieces := MemberPieces(earlier, own, members);
    var bad := seq(|members|, k requires 0 <= k < |members| => !MemberOk(earlier, members, k));
    forall k | 0 <= k < |members|
      ensures bad[k] == HasFatal(pieces[k])
    {
      MemberIff(earlier, own, members, k);
    }
    FlatHasFatal(pieces, bad);
    assert MembersOk(earlier, members) <==> true !in bad by {
      assert forall k :: 0 <= k < |members| ==> bad[k] == !MemberOk(earlier, members, k);
    }
  }

  lemma DefinitionIff(earlier: seq<TypeAst>, a: TypeAst)
    ensures !HasFatal(DefinitionReports(earlier, a)) <==> DefinitionOk(earlier, a)
  {
    MembersIff(earlier, a.name, a.members);
    var shadow := if Known(earlier, a.name) then [Fatal(ShadowingType)] else [];
    assert Known(earlier, a.name) ==> shadow[0] == Fatal(ShadowingType);
    HasFatalConcat(Flat(MemberPieces(earlier, a.name, a.members)), shadow);
  }

  /** No error is reported of a file exactly when it is right. */
  lemma FileIff(asts: seq<TypeAst>)
    ensures !HasFatal(FileReports(asts)) <==> WellScoped(asts)
  {
    var pieces := FilePieces(asts);
    var bad := seq(|asts|, i requires 0 <= i < |asts| => !DefinitionOk(asts[..i], asts[i]));
    forall i | 0 <= i < |asts|
      ensures bad[i] == HasFatal(pieces[i])
    {
      DefinitionIff(asts[..i], asts[i]);
    }
    FlatHasFatal(pieces, bad);
    assert WellScoped(asts) <==> true !in bad by {
      assert forall i :: 0 <= i < |asts| ==> bad[i] == !DefinitionOk(asts[..i], asts[i]);
    }
  }

  lemma WellScopedSnoc(asts: seq<TypeAst>)
    requires asts != []
    ensures WellScoped(asts) <==>
            WellScoped(asts[..|asts| - 1]) && DefinitionOk(asts[..|asts| - 1], asts[|asts| - 1])
  {
    var init := asts[..|asts| - 1];
    forall i | 0 <= i < |init|
      ensures DefinitionOk(init[..i], init[i]) <==> DefinitionOk(asts[..i], asts[i])
    {
      assert init[..i] == asts[..i];
    }
  }
}
