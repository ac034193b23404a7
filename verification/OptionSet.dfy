/** The options written on one use of a type, and how they are turned into settings. */
module OptionSets {
  import opened Wrappers
  import opened Errors
  import opened Options

  datatype OptionEntry = OptionEntry(ty: OptionType, text: string)

  datatype Outcome = Applied(ty: OptionType, value: OptionValue) | Rejected(kind: ErrorKind)

  /** What one entry does, whatever the settings are when its turn comes. */
  function EntryOutcome(table: seq<OptionRow>, valid: set<OptionType>, e: OptionEntry): Outcome {
    var hits := Hits(table, if e.ty == UnknownOption then valid else {e.ty}, e.text);
    if |hits| == 0 then
      Rejected(if e.ty == UnknownOption then UnknownOptionValue else UnknownOptionValueTyped)
    else if |hits| > 1 then
      Rejected(AmbiguousOption)
    else if valid != {} && hits[0].0 !in valid then
      Rejected(OptionInvalidForType)
    else if !HasKind(hits[0].0, hits[0].1) then
      Rejected(UnknownError)
    else
      Applied(hits[0].0, hits[0].1)
  }

  /** Why an entry is rejected, by the meanings its text has and how its type was told. */
  lemma RejectedIff(table: seq<OptionRow>, valid: set<OptionType>, e: OptionEntry)
    ensures var outcome, named := EntryOutcome(table, valid, e), e.ty != UnknownOption;
      var hits := Hits(table, if named then {e.ty} else valid, e.text);
      && (outcome == Rejected(UnknownOptionValue) <==> hits == [] && !named)
      && (outcome == Rejected(UnknownOptionValueTyped) <==> hits == [] && named)
      && (outcome == Rejected(AmbiguousOption) <==> |hits| > 1)
      && (outcome == Rejected(OptionInvalidForType) <==> |hits| == 1 && valid != {} && hits[0].0 !in valid)
      && (outcome == Rejected(UnknownError) <==>
          |hits| == 1 && !(valid != {} && hits[0].0 !in valid) && !HasKind(hits[0].0, hits[0].1))
      && (outcome.Applied? ==> |hits| == 1 && outcome == Applied(hits[0].0, hits[0].1))
  {
  }

  /** The settings after the entries, in order; rejected ones change nothing. */
  function Built(table: seq<OptionRow>, valid: set<OptionType>, s: Settings, entries: seq<OptionEntry>): Settings {
    if entries == [] then s
    else
      var before := Built(table, valid, s, entries[..|entries| - 1]);
      match EntryOutcome(table, valid, entries[|entries| - 1])
      case Applied(ty, value) => before.Put(ty, value)
      case Rejected(_) => before
  }

  /** One error for each rejected entry, in order. */
  function BuildErrors(table: seq<OptionRow>, valid: set<OptionType>, entries: seq<OptionEntry>): seq<ErrorKind> {
    if entries == [] then []
    else
      BuildErrors(table, valid, entries[..|entries| - 1]) +
      match EntryOutcome(table, valid, entries[|entries| - 1])
      case Applied(_, _) => []
      case Rejected(kind) => [kind]
  }

  /** Building one more entry is building it from what the others have built. */
  lemma BuiltSnoc(table: seq<OptionRow>, valid: set<OptionType>, s: Settings, entries: seq<OptionEntry>, i: nat)
    requires i < |entries|
    ensures Built(table, valid, s, entries[..i + 1])
            == Built(table, valid, Built(table, valid, s, entries[..i]), [entries[i]])
  {
    assert entries[..i + 1][..i] == entries[..i] && [entries[i]][..0] == [];
  }

  lemma ErrorsSnoc(table: seq<OptionRow>, valid: set<OptionType>, entries: seq<OptionEntry>, i: nat,
                   start: seq<ErrorInfo>, before: seq<ErrorInfo>, after: seq<ErrorInfo>)
    requires i < |entries|
    requires before == start + Fatals(BuildErrors(table, valid, entries[..i]))
    requires after == before + Fatals(BuildErrors(table, valid, [entries[i]]))
    ensures BuildErrors(table, valid, entries[..i + 1])
            == BuildErrors(table, valid, entries[..i]) + BuildErrors(table, valid, [entries[i]])
    ensures after == start + Fatals(BuildErrors(table, valid, entries[..i + 1]))
    ensures BuildErrors(table, valid, [entries[i]]) == [] <==> EntryOutcome(table, valid, entries[i]).Applied?
  {
    assert entries[..i + 1][..i] == entries[..i] && [entries[i]][..0] == [];
    FatalsConcat(BuildErrors(table, valid, entries[..i]), BuildErrors(table, valid, [entries[i]]));
  }

  class OptionSet {
    var options: seq<OptionEntry>
    var optionTypes: set<OptionType>

    /** The explicitly typed entries are exactly those recorded, each type once. */
    ghost predicate Valid()
      reads this
    {
      && optionTypes == (set e | e in options && e.ty != UnknownOption :: e.ty)
      && forall i, j :: 0 <= i < j < |options| ==>
           options[i].ty == options[j].ty ==> options[i].ty == UnknownOption
    }

    constructor ()
      ensures Valid() && options == []
    {
      options, optionTypes := [], {};
    }

    method AddStatic(ty: OptionType, text: string, errors: ErrorCollection) returns (ok: bool)
      requires Valid()
      modifies this, errors
      ensures Valid()
      ensures ok <==> ty == UnknownOption || forall e :: e in old(options) ==> e.ty != ty
      ensures options == old(options) + if ok then [OptionEntry(ty, text)] else []
      ensures errors.errors == old(errors.errors) + if ok then [] else [Fatal(DuplicateOption)]
      ensures errors.hasErrors == (old(errors.hasErrors) || !ok)
    {
      if ty != UnknownOption {
        if ty in optionTypes {
          errors.Add(Fatal(DuplicateOption));
          return false;
        }
        optionTypes := optionTypes + {ty};
      }
      options := options + [OptionEntry(ty, text)];
      return true;
    }

    method BuildStaticOptions(table: seq<OptionRow>, valid: set<OptionType>, target: OptionsObject,
                              errors: ErrorCollection) returns (ok: bool)
      modifies target, errors
      ensures target.Values() == Built(table, valid, old(target.Values()), options)
      ensures errors.errors == old(errors.errors) + Fatals(BuildErrors(table, valid, options))
      ensures ok <==> BuildErrors(table, valid, options) == []
      ensures errors.hasErrors == (old(errors.hasErrors) || !ok)
    {
      ok := true;
      for i := 0 to |options|
        invariant target.Values() == Built(table, valid, old(target.Values()), options[..i])
        invariant errors.errors == old(errors.errors) + Fatals(BuildErrors(table, valid, options[..i]))
        invariant ok <==> BuildErrors(table, valid, options[..i]) == []
        invariant errors.hasErrors == (old(errors.hasErrors) || !ok)
      {
        ghost var before := errors.errors;
        var added := AddOption(table, options[i], valid, target, errors);
        BuiltSnoc(table, valid, old(target.Values()), options, i);
        ErrorsSnoc(table, valid, options, i, old(errors.errors), before, errors.errors);
        if !added {
          ok := false;
        }
      }
      assert options[..|options|] == options;
    }
  }

  method AddOption(table: seq<OptionRow>, e: OptionEntry, valid: set<OptionType>, target: OptionsObject,
                   errors: ErrorCollection) returns (ok: bool)
    modifies target, errors
    ensures ok == EntryOutcome(table, valid, e).Applied?
    ensures target.Values() == Built(table, valid, old(target.Values()), [e])
    ensures errors.errors == old(errors.errors) + Fatals(BuildErrors(table, valid, [e]))
    ensures errors.hasErrors == (old(errors.hasErrors) || !ok)
  {
    assert [e][..0] == [];
    var r, ty, value := ParseOption(table, if e.ty == UnknownOption then valid else {e.ty}, Some(e.text));
    match r {
      case Success =>
        if valid != {} && ty !in valid {
          errors.Add(Fatal(OptionInvalidForType));
          return false;
        }
        ok := target.SetOption(ty, value);
        if !ok {
          errors.Add(Fatal(UnknownError));
        }
      case UnknownString =>
        errors.Add(Fatal(if e.ty == UnknownOption then UnknownOptionValue else UnknownOptionValueTyped));
        return false;
      case Ambiguous =>
        errors.Add(Fatal(AmbiguousOption));
        return false;
    }
  }

  /** Each option type ends at its last applied entry, or where it started if there is none. */
  lemma {:induction false} LastEntryWins(table: seq<OptionRow>, valid: set<OptionType>, s: Settings,
                                         entries: seq<OptionEntry>, ty: OptionType, i: int)
    requires -1 <= i < |entries|
    requires i >= 0 ==> EntryOutcome(table, valid, entries[i]).Applied? && EntryOutcome(table, valid, entries[i]).ty == ty
    requires forall j :: i < j < |entries| ==>
               EntryOutcome(table, valid, entries[j]).Applied? ==> EntryOutcome(table, valid, entries[j]).ty != ty
    ensures Built(table, valid, s, entries).Get(ty) ==
            if i >= 0 then Some(EntryOutcome(table, valid, entries[i]).value) else s.Get(ty)
  {
    if entries != [] {
      var n := |entries| - 1;
      if i < n {
        LastEntryWins(table, valid, s, entries[..n], ty, i);
      }
      LastOutcome(table, valid, s, entries, entries[..n], EntryOutcome(table, valid, entries[n]), ty);
    }
  }

  /** What the last entry does to the setting of one type. */
  lemma LastOutcome(table: seq<OptionRow>, valid: set<OptionType>, s: Settings, entries: seq<OptionEntry>,
                    init: seq<OptionEntry>, outcome: Outcome, ty: OptionType)
    requires entries != [] && init == entries[..|entries| - 1]
    requires outcome == EntryOutcome(table, valid, entries[|entries| - 1])
    ensures Built(table, valid, s, entries).Get(ty) ==
            if outcome.Applied? && outcome.ty == ty then Some(outcome.value) else Built(table, valid, s, init).Get(ty)
  {
  }

  function Rejections(table: seq<OptionRow>, valid: set<OptionType>, entries: seq<OptionEntry>): (r: seq<bool>) {
    seq(|entries|, i requires 0 <= i < |entries| => EntryOutcome(table, valid, entries[i]).Rejected?)
  }

  ghost function TrueIndices(s: seq<bool>): set<int> {
    set i | 0 <= i < |s| && s[i]
  }

  lemma TrueIndicesSnoc(s: seq<bool>, last: bool)
    ensures |TrueIndices(s + [last])| == |TrueIndices(s)| + if last then 1 else 0
  {
    assert TrueIndices(s + [last]) == TrueIndices(s) + if last then {|s|} else {};
  }

  /** There are as many errors as rejected entries. */
  lemma {:induction false} OneErrorEach(table: seq<OptionRow>, valid: set<OptionType>, entries: seq<OptionEntry>)
    ensures |BuildErrors(table, valid, entries)| == |TrueIndices(Rejections(table, valid, entries))|
  {
    if entries != [] {
      var n := |entries| - 1;
      OneErrorEach(table, valid, entries[..n]);
      var before, last := Rejections(table, valid, entries[..n]), EntryOutcome(table, valid, entries[n]).Rejected?;
      assert Rejections(table, valid, entries) == before + [last];
      TrueIndicesSnoc(before, last);
    }
  }

  /** A set of options builds without error exactly when every entry applies. */
  lemma {:induction false} NoErrorsIff(table: seq<OptionRow>, valid: set<OptionType>, entries: seq<OptionEntry>)
    ensures BuildErrors(table, valid, entries) == [] <==>
            forall i :: 0 <= i < |entries| ==> EntryOutcome(table, valid, entries[i]).Applied?
  {
    OneErrorEach(table, valid, entries);
    var rejections := Rejections(table, valid, entries);
    if TrueIndices(rejections) == {} {
      forall i | 0 <= i < |entries|
        ensures EntryOutcome(table, valid, entries[i]).Applied?
      {
        assert i !in TrueIndices(rejections);
        assert !rejections[i];
      }
    } else {
      var i :| i in TrueIndices(rejections);
      assert rejections[i];
    }
  }
}
