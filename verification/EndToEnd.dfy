/** From the text of a definition and the bytes of a file to the text of a dump. */
module EndToEnd {
  import opened Wrappers
  import opened Sizes
  import opened Errors
  import opened FileSystem
  import opened Buffered
  import opened Types
  import opened Objects
  import opened Trees
  import opened Histories
  import opened Session
  import opened DefinitionText
  import opened DefinitionParser
  import opened DefinitionLaws
  import opened DefinitionTypes
  import opened ReferenceDecoder
  import opened DefinitionMeaning
  import opened JsonText
  import opened JsonLayout
  import opened JsonDump

  /** The types of a definition that is accepted and not empty. */
  method CreateFromDefinition(asts: seq<TypeAst>, errors: ErrorCollection) returns (r: Option<seq<Type>>)
    modifies errors
    ensures r == if !old(errors.hasErrors) && WellScoped(asts) && asts != [] then Some(Elaborate(asts)) else None
    ensures errors.errors == old(errors.errors) + FileReports(asts) +
              if !old(errors.hasErrors) && WellScoped(asts) && asts == [] then [Fatal(NoTypes)] else []
  {
    ReportsOfText(asts);
    AcceptedIff(asts);
    var ok, defs := ParseDefinitions(asts, errors);
    if !ok {
      return None;
    }
    if defs == [] {
      errors.Add(Fatal(NoTypes));
      return None;
    }
    return Some(defs);
  }

  /** Every member name is one that a JSON string may hold unescaped, as every identifier is. */
  predicate IdentifiersOk(asts: seq<TypeAst>) {
    forall i, k :: 0 <= i < |asts| && 0 <= k < |asts[i].members| ==> NameOk(asts[i].members[k].name)
  }

  predicate FieldNamesOk(t: Type) {
    t.Definition? ==> forall k :: 0 <= k < |t.fields| ==> NameOk(t.fields[k].name) && FieldNamesOk(t.fields[k].ty)
  }

  lemma {:induction false} ElaboratedNames(asts: seq<TypeAst>, i: nat)
    requires IdentifiersOk(asts) && i < |asts|
    ensures FieldNamesOk(Elaborate(asts)[i])
  {
    var known, ms := Elaborate(asts[..i]), asts[i].members;
    ElaborateAt(asts, i);
    ElaboratePrefix(asts, i);
    FieldsAt(known, ms);
    forall j | 0 <= j < i
      ensures FieldNamesOk(known[j])
    {
      ElaboratedNames(asts, j);
    }
    forall k | 0 <= k < |ms|
      ensures FieldNamesOk(MemberType(known, ms[k]))
    {
      UseOfNames(known, ms[k]);
    }
  }

  lemma UseOfNames(known: seq<Type>, m: MemberAst)
    requires forall t :: t in known ==> FieldNamesOk(t)
    ensures FieldNamesOk(MemberType(known, m))
  {
    TypeNamedSpec(known, m.typeName);
    TypeNamedSpec(BUILT_INS, m.typeName);
    if Lookup(known, m.typeName).Some? && Lookup(known, m.typeName).value !in known {
      BuiltInWhole(Lookup(known, m.typeName).value);
    }
  }

  /** A document that shows a type's decoding has only names of its fields. */
  lemma {:induction false} ShownNames(d: Doc, file: FileBytes, pos: Size, t: Type, faulty: bool)
    requires Shows(d, Eager(file, pos, t), faulty) && FieldNamesOk(t)
    ensures NamesOk(d)
    decreases t
  {
    if d.DocObject? {
      forall i | 0 <= i < |d.members|
        ensures NameOk(d.members[i].0) && NamesOk(d.members[i].1)
      {
        var name := d.members[i].0;
        EagerFieldsSpec(file, pos, t.fields, |t.fields|, name);
        NameMapSpec(t.fields, |t.fields|, name);
        var k := NameMap(t.fields, |t.fields|)[name];
        ShownNames(d.members[i].1, file, OffsetAt(pos, t.fields, k), t.fields[k].ty, faulty);
      }
    }
  }

  /** What the dump of one accepted type over one file may be. */
  ghost predicate DumpOf(text: string, opts: JsonOptions, file: FileBytes, t: Type, faulty: bool) {
    exists d: Doc :: d.DocObject? && text == Render(d, opts, 0) && Shows(d, Eager(file, 0, t), faulty)
  }

  /** Parses a file by an accepted definition and dumps it. */
  method DumpFile(defs: seq<Type>, reader: FileReader, typeName: string, bufferSize: nat, opts: JsonOptions,
                  os: OutputStream) returns (r: Result<Type>)
    requires defs != [] && forall d :: d in defs ==> d.Definition? && Resolved(d)
    requires reader.Valid() && MIN_BUFFER <= bufferSize < MAX_BUFFER
    modifies reader, os
    ensures SelectType(defs, typeName).None? ==> r == Err(UnknownType)
    ensures r.Err? ==>
      && os.text == old(os.text)
      && (SelectType(defs, typeName).None? || (r.kind == IoError && reader.faults > old(reader.faults)))
    ensures FaultsGrow(reader, old(reader.faults))
    ensures r.Ok? ==>
      && SelectType(defs, typeName) == Some(r.value)
      && |old(os.text)| <= |os.text| && os.text[..|old(os.text)|] == old(os.text)
      && DumpOf(os.text[|old(os.text)|..], opts, reader.file, r.value, reader.faults > old(reader.faults))
  {
    var parsed := ParseFile(defs, reader, typeName, bufferSize);
    if parsed.Err? {
      return Err(parsed.kind);
    }
    var obj := parsed.value;
    SelectedIsOneOf(defs, typeName);
    DumpRoot(obj, reader, opts, os);
    return Ok(obj.ty);
  }

  lemma SelectedIsOneOf(defs: seq<Type>, name: string)
    requires defs != [] && SelectType(defs, name).Some?
    ensures SelectType(defs, name).value in defs
  {
    TypeNamedSpec(defs, name);
  }

  method DumpRoot(obj: FileObject, reader: FileReader, opts: JsonOptions, os: OutputStream)
    requires obj.Valid() && obj.Complete() && obj.Children() == {} && Resolved(obj.ty)
    requires obj.file.Coherent() && obj.file.reader == reader && obj.start == 0
    modifies obj, obj.file, obj.file.buffer, reader, os
    ensures |old(os.text)| <= |os.text| && os.text[..|old(os.text)|] == old(os.text)
    ensures DumpOf(os.text[|old(os.text)|..], opts, reader.file, obj.ty, reader.faults > old(reader.faults))
    ensures FaultsGrow(reader, old(reader.faults))
  {
    ghost var doc, pool;
    doc, pool := DumpJsonObject(os, opts, obj, 0, obj.file, {obj});
    assert os.text[|old(os.text)|..] == Render(doc, opts, 0);
  }

  /** The definition that a type name on the command line selects. */
  ghost predicate Selects(asts: seq<TypeAst>, typeName: string, i: int) {
    && 0 <= i < |asts|
    && if typeName == "" then i == |asts| - 1 else asts[i].name == typeName
  }

  /**
    * The program: what it prints is a dump by the selected definition, and unless a read fails
    * it prints something exactly when the definitions are right and one of them is selected.
    */
  method RunProgram(asts: seq<TypeAst>, typeName: string, reader: FileReader, bufferSize: nat, opts: JsonOptions,
                    os: OutputStream) returns (status: int)
    requires reader.Valid() && MIN_BUFFER <= bufferSize < MAX_BUFFER
    requires os.text == ""
    modifies reader, os
    ensures status == 0 ==>
      && WellScoped(asts)
      && exists i :: Selects(asts, typeName, i) &&
           DumpOf(os.text, opts, reader.file, Elaborate(asts)[i], reader.faults > old(reader.faults))
    ensures status != 0 ==> status == 1 && os.text == ""
    ensures status != 0 && reader.faults == old(reader.faults) ==>
      !WellScoped(asts) || forall i :: !Selects(asts, typeName, i)
    ensures FaultsGrow(reader, old(reader.faults))
  {
    var errors := new ErrorCollection();
    var defs := CreateFromDefinition(asts, errors);
    if defs.None? {
      return 1;
    }
    forall i | 0 <= i < |asts|
      ensures Resolved(Elaborate(asts)[i])
    {
      AcceptedIsSized(asts, i);
    }
    SelectIff(asts, typeName);
    var r := DumpFile(defs.value, reader, typeName, bufferSize, opts, os);
    if r.Err? {
      return 1;
    }
    assert os.text[0..] == os.text;
    return 0;
  }

  lemma SelectIff(asts: seq<TypeAst>, typeName: string)
    requires asts != []
    ensures var t := SelectType(Elaborate(asts), typeName);
      && (t.None? <==> forall i :: !Selects(asts, typeName, i))
      && (t.Some? ==> exists i :: Selects(asts, typeName, i) && Elaborate(asts)[i] == t.value)
  {
    var types := Elaborate(asts);
    forall i | 0 <= i < |asts|
      ensures AliasName(types[i]) == asts[i].name
    {
      ElaborateAt(asts, i);
    }
    TypeNamedSpec(types, typeName);
    if typeName == "" {
      assert Selects(asts, typeName, |asts| - 1);
    } else if TypeNamed(types, typeName).Some? {
      var i :| FirstAt(types, typeName, i) && types[i] == TypeNamed(types, typeName).value;
      assert Selects(asts, typeName, i);
    }
  }

  /**
    * The whole chain. A dump of a file by an accepted definition reads back as one document, and
    * that document is the reference decoding of the file's bytes, member for member.
    */
  lemma DumpIsReference(asts: seq<TypeAst>, i: nat, file: FileBytes, opts: JsonOptions, text: string, faulty: bool)
    requires WellScoped(asts) && IdentifiersOk(asts) && i < |asts|
    requires !Misreads(file, 0, Elaborate(asts)[i])
    requires DumpOf(text, opts, file, Elaborate(asts)[i], faulty)
    ensures ParseText(text).Some? && Shows(ParseText(text).value, Reference(file, 0, Elaborate(asts)[i]), faulty)
  {
    var t := Elaborate(asts)[i];
    var d: Doc :| d.DocObject? && text == Render(d, opts, 0) && Shows(d, Eager(file, 0, t), faulty);
    AcceptedIsSized(asts, i);
    ElaboratedTypes(asts, i);
    EagerIsReference(file, 0, t);
    ElaboratedNames(asts, i);
    ShownNames(d, file, 0, t, faulty);
    DumpRoundTrip(d, opts, 0);
  }

  /**
    * With a reader that does not fail, the dump of a file shows its reference decoding if and
    * only if no integer is misread in it.
    */
  lemma DumpIsReferenceIff(asts: seq<TypeAst>, i: nat, file: FileBytes, opts: JsonOptions, text: string)
    requires WellScoped(asts) && IdentifiersOk(asts) && i < |asts|
    requires DumpOf(text, opts, file, Elaborate(asts)[i], false)
    ensures ParseText(text).Some?
    ensures Shows(ParseText(text).value, Reference(file, 0, Elaborate(asts)[i]), false)
            <==> !Misreads(file, 0, Elaborate(asts)[i])
  {
    var t := Elaborate(asts)[i];
    var d: Doc :| d.DocObject? && text == Render(d, opts, 0) && Shows(d, Eager(file, 0, t), false);
    AcceptedIsSized(asts, i);
    ElaboratedTypes(asts, i);
    AcceptedNamesApart(asts, i);
    EagerIsReferenceIff(file, 0, t);
    ElaboratedNames(asts, i);
    ShownNames(d, file, 0, t, false);
    DumpRoundTrip(d, opts, 0);
    if Shows(d, Reference(file, 0, t), false) {
      ShowsOne(d, Eager(file, 0, t), Reference(file, 0, t));
    }
  }

  /**
    * The program by texts and bytes alone: what is printed for a definition and a file reads back
    * as what the text of the definition says that the bytes mean, up to failed reads.
    */
  lemma DumpIsMeant(asts: seq<TypeAst>, i: nat, file: FileBytes, opts: JsonOptions, text: string, faulty: bool)
    requires WellScoped(asts) && IdentifiersOk(asts) && i < |asts|
    requires !Overruns(asts, i, file, 0)
    requires DumpOf(text, opts, file, Elaborate(asts)[i], faulty)
    ensures ParseText(text).Some? && Shows(ParseText(text).value, Meant(asts, i, file, 0), faulty)
  {
    MisreadsIffOverruns(asts, i, file, 0);
    MeantIsReference(asts, i, file, 0);
    DumpIsReference(asts, i, file, opts, text, faulty);
  }

  /** Without faults, it does so if and only if no integer overruns. */
  lemma DumpIsMeantIff(asts: seq<TypeAst>, i: nat, file: FileBytes, opts: JsonOptions, text: string)
    requires WellScoped(asts) && IdentifiersOk(asts) && i < |asts|
    requires DumpOf(text, opts, file, Elaborate(asts)[i], false)
    ensures ParseText(text).Some?
    ensures Shows(ParseText(text).value, Meant(asts, i, file, 0), false) <==> !Overruns(asts, i, file, 0)
  {
    MisreadsIffOverruns(asts, i, file, 0);
    MeantIsReference(asts, i, file, 0);
    DumpIsReferenceIff(asts, i, file, opts, text);
  }

  /** And it is laid out by a count of open braces, whatever the definition and the file. */
  lemma DumpIsLaidOut(asts: seq<TypeAst>, i: nat, file: FileBytes, opts: JsonOptions, text: string, faulty: bool)
    requires IdentifiersOk(asts) && i < |asts|
    requires DumpOf(text, opts, file, Elaborate(asts)[i], faulty)
    ensures text == if opts.pretty then LaidOut(Bare(text, false), START, 0, opts.indent) else Bare(text, false)
  {
    var t := Elaborate(asts)[i];
    var d: Doc :| d.DocObject? && text == Render(d, opts, 0) && Shows(d, Eager(file, 0, t), faulty);
    ElaboratedNames(asts, i);
    ShownNames(d, file, 0, t, faulty);
    DumpLayout(d, opts, 0);
  }

  /**
    * Any history of accesses, cache clears and reparses, on the objects of a file that is parsed
    * by an accepted definition.
    */
  method RunHistory(asts: seq<TypeAst>, typeName: string, reader: FileReader, bufferSize: nat, ops: seq<Op>)
    returns (r: Result<FileObject>, objs: seq<FileObject>, log: seq<Entry>)
    requires WellScoped(asts) && asts != []
    requires reader.Valid() && MIN_BUFFER <= bufferSize < MAX_BUFFER
    modifies reader
    ensures r.Err? ==> (forall i :: !Selects(asts, typeName, i)) || reader.faults > old(reader.faults)
    ensures r.Ok? ==> reader.faults == old(reader.faults) + Faults(log)
    ensures FaultsGrow(reader, old(reader.faults))
    ensures r.Ok? ==>
      && objs != [] && objs[0] == r.value && |objs| == Reached(log)
      && r.value.start == 0 && r.value.file.reader == reader
      && (exists i :: Selects(asts, typeName, i) && r.value.ty == Elaborate(asts)[i])
      && Follows(ops, log, objs)
  {
    forall i | 0 <= i < |asts|
      ensures Resolved(Elaborate(asts)[i])
    {
      AcceptedIsSized(asts, i);
    }
    SelectIff(asts, typeName);
    objs, log := [], [];
    r := ParseFile(Elaborate(asts), reader, typeName, bufferSize);
    if r.Ok? {
      SelectedIsOneOf(Elaborate(asts), typeName);
      objs, log := Run(r.value, ops);
      if reader.reliable {
        FaultsNeedFailures(ops, log, objs);
      }
    }
  }

  /**
    * In any such history each request has the outcome that the reference decoder has for the
    * bytes at its path: the value, or the error that the file ends before it. Only a failing reader
    * may add an error of its own.
    */
  lemma HistoryIsReference(asts: seq<TypeAst>, i: nat, ops: seq<Op>, log: seq<Entry>, objs: seq<FileObject>, k: nat)
    requires WellScoped(asts) && i < |asts|
    requires Follows(ops, log, objs) && Reached(log) <= |objs| && k < |log| && log[k].Asked?
    requires PlaceOf(objs[0]) == Place(0, Elaborate(asts)[i])
    requires !Misreads(objs[0].file.reader.file, 0, Elaborate(asts)[i])
    ensures var reader, path := objs[0].file.reader, AskedPath(ops, log, k);
      || Outcome(log[k].answer) == ReferenceAlong(reader.file, 0, Elaborate(asts)[i], path)
      || (log[k].answer == Err(IoError) && !reader.reliable)
  {
    AcceptedIsSized(asts, i);
    ElaboratedTypes(asts, i);
    AlongIsReference(objs[0].file.reader.file, 0, Elaborate(asts)[i], AskedPath(ops, log, k));
    HistoryIsNavigation(ops, log, objs, k);
  }

  /** The same by the text of the definition and the bytes of the file alone. */
  lemma HistoryIsMeant(asts: seq<TypeAst>, i: nat, ops: seq<Op>, log: seq<Entry>, objs: seq<FileObject>, k: nat)
    requires WellScoped(asts) && i < |asts|
    requires Follows(ops, log, objs) && Reached(log) <= |objs| && k < |log| && log[k].Asked?
    requires PlaceOf(objs[0]) == Place(0, Elaborate(asts)[i])
    requires !Overruns(asts, i, objs[0].file.reader.file, 0)
    ensures var reader, path := objs[0].file.reader, AskedPath(ops, log, k);
      || Outcome(log[k].answer) == MeantAlong(asts, i, reader.file, 0, path)
      || (log[k].answer == Err(IoError) && !reader.reliable)
  {
    MisreadsIffOverruns(asts, i, objs[0].file.reader.file, 0);
    HistoryIsReference(asts, i, ops, log, objs, k);
    AlongIsMeant(asts, i, objs[0].file.reader.file, 0, AskedPath(ops, log, k));
  }

  /** Every object of a history over an accepted file, and every field asked for, is on whole bytes. */
  lemma HistoryIsAligned(asts: seq<TypeAst>, i: nat, ops: seq<Op>, log: seq<Entry>, objs: seq<FileObject>, k: nat)
    requires Follows(ops, log, objs) && Reached(log) <= |objs| && k < |log| && log[k].Asked?
    requires i < |asts| && PlaceOf(objs[0]) == Place(0, Elaborate(asts)[i])
    ensures log[k].obj.start % 8 == 0 && WholeBytes(log[k].obj.ty)
    ensures var field := Step(PlaceOf(log[k].obj), log[k].name);
      field.Some? ==> field.value.pos % 8 == 0 && WholeBytes(field.value.ty)
  {
    ElaboratedTypes(asts, i);
    FollowsPrefix(ops, log, objs, k);
    ObjectsAtPaths(ops[..k], log[..k], objs, ops[k].target);
    PlacesAligned(PlaceOf(objs[0]), Paths(ops[..k], log[..k])[ops[k].target]);
    if Step(PlaceOf(log[k].obj), log[k].name).Some? {
      PlacesAligned(PlaceOf(log[k].obj), [log[k].name]);
    }
  }

  /**
    * Over an accepted file and a reader that does not fail, a request fails exactly for an integer
    * whose bytes run past the file, and with no other error; a misaligned one is never met.
    */
  lemma HistoryErrors(asts: seq<TypeAst>, i: nat, ops: seq<Op>, log: seq<Entry>, objs: seq<FileObject>, k: nat)
    requires Follows(ops, log, objs) && Reached(log) <= |objs| && k < |log| && log[k].Asked?
    requires i < |asts| && PlaceOf(objs[0]) == Place(0, Elaborate(asts)[i])
    ensures var reader, field := objs[0].file.reader, PlaceAt(PlaceOf(objs[0]), AskedPath(ops, log, k));
      && (reader.reliable ==>
            (log[k].answer.Err? <==>
             field.Some? && field.value.ty.Integer? && field.value.pos + field.value.ty.size > 8 * |reader.file|))
      && (log[k].answer.Err? ==>
            log[k].answer.kind == UnexpectedEndOfStream || (log[k].answer.kind == IoError && !reader.reliable))
  {
    HistoryIsAligned(asts, i, ops, log, objs, k);
    AskedAtPlace(ops, log, objs, k);
    HistoryIsNavigation(ops, log, objs, k);
    var field := PlaceAt(PlaceOf(objs[0]), AskedPath(ops, log, k));
    if field.Some? {
      AlignedError(objs[0].file.reader.file, field.value);
    }
  }

  /** Without faults, all dumps of one file by one type read back as the same tree. */
  lemma DumpsAgree(t: Type, file: FileBytes, opts: JsonOptions, opts': JsonOptions, text: string, text': string,
                   tree: Tree, tree': Tree)
    requires FieldNamesOk(t)
    requires DumpOf(text, opts, file, t, false) && DumpOf(text', opts', file, t, false)
    requires ParseText(text).Some? && Shows(ParseText(text).value, tree, false)
    requires ParseText(text').Some? && Shows(ParseText(text').value, tree', false)
    ensures tree == tree' == Eager(file, 0, t)
  {
    var d: Doc :| d.DocObject? && text == Render(d, opts, 0) && Shows(d, Eager(file, 0, t), false);
    var d': Doc :| d'.DocObject? && text' == Render(d', opts', 0) && Shows(d', Eager(file, 0, t), false);
    ShownNames(d, file, 0, t, false);
    ShownNames(d', file, 0, t, false);
    DumpRoundTrip(d, opts, 0);
    DumpRoundTrip(d', opts', 0);
    ShowsOne(d, tree, Eager(file, 0, t));
    ShowsOne(d', tree', Eager(file, 0, t));
  }
}
