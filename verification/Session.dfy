/** Parsing a file, and any history of accesses to the objects it leads to. */
module Session {
  import opened Wrappers
  import opened Errors
  import opened FileSystem
  import opened Buffered
  import opened Types
  import opened Objects
  import opened Trees
  import opened Histories

  /** The definition a name selects: the first one that has it, or the last one for no name. */
  function SelectType(defs: seq<Type>, name: string): Option<Type>
    requires defs != []
  {
    if name == "" then Some(defs[|defs| - 1])
    else TypeNamed(defs, name)
  }

  /** The root object stands at the start of the file, wherever the reader was. */
  method ParseFile(defs: seq<Type>, reader: FileReader, typeName: string, bufferSize: nat)
    returns (r: Result<FileObject>)
    requires defs != [] && forall d :: d in defs ==> d.Definition? && Resolved(d)
    requires reader.Valid() && MIN_BUFFER <= bufferSize < MAX_BUFFER
    modifies reader
    ensures SelectType(defs, typeName).None? ==> r == Err(UnknownType)
    ensures r.Ok? ==>
      && SelectType(defs, typeName) == Some(r.value.ty)
      && fresh(r.value) && fresh(r.value.file) && fresh(r.value.file.buffer)
      && r.value.file.reader == reader && r.value.start == 0
      && r.value.Valid() && r.value.Complete() && r.value.Children() == {}
      && r.value.file.Coherent()
    ensures r.Err? ==> SelectType(defs, typeName).None? || (r.kind == IoError && !reader.reliable)
    ensures reader.faults == old(reader.faults) + if r == Err(IoError) then 1 else 0
  {
    var def := defs[|defs| - 1];
    if typeName != "" {
      var selected := FindDefinition(defs, typeName);
      if selected.None? {
        return Err(UnknownType);
      }
      def := selected.value;
    }
    ResolvedIffSized(def);
    var file := new BufferedFileReader(reader, bufferSize);
    var value, obj := ReadDefinition(def, file);
    if value.Err? {
      return Err(value.kind);
    }
    return Ok(obj);
  }

  method FindDefinition(defs: seq<Type>, name: string) returns (r: Option<Type>)
    requires forall d :: d in defs ==> d.Definition?
    ensures r == TypeNamed(defs, name)
    ensures r.Some? ==> r.value in defs
  {
    for i := 0 to |defs|
      invariant TypeNamed(defs, name) == TypeNamed(defs[i..], name)
    {
      assert defs[i..][1..] == defs[i + 1..] && defs[i] in defs;
      if defs[i].name == name {
        return Some(defs[i]);
      }
    }
    return None;
  }

  /** Any object a client can hold: laid out, right, and knowing only objects of the client's. */
  ghost predicate Held(o: FileObject, file: BufferedFileReader, objs: set<FileObject>)
    reads o
  {
    && o.file == file
    && o.Valid()
    && o.Complete()
    && Resolved(o.ty)
    && o.Children() <= objs
  }

  /** A set of objects closed under what each has cached. */
  ghost predicate Pool(objs: set<FileObject>, file: BufferedFileReader)
    reads objs
  {
    forall o :: o in objs ==> Held(o, file, objs)
  }

  /** The object has a value cached under a name, or no such field and gives null. */
  ghost predicate Recalls(o: FileObject, name: string, v: Value)
    reads o
  {
    if name in o.fieldNameMap
    then o.fieldNameMap[name] < |o.parsedFields| && o.parsedFields[o.fieldNameMap[name]].value == Some(v)
    else v == NullValue
  }

  /** No value is given up. */
  ghost predicate Keeps(before: seq<ParsedField>, after: seq<ParsedField>) {
    |before| == |after| && forall i :: 0 <= i < |before| && before[i].value.Some? ==> after[i] == before[i]
  }

  ghost predicate IsCached(o: FileObject, name: string)
    reads o
  {
    && name in o.fieldNameMap
    && o.fieldNameMap[name] < |o.parsedFields|
    && o.parsedFields[o.fieldNameMap[name]].value.Some?
  }

  ghost function CachedValue(o: FileObject, name: string): Value
    reads o
    requires IsCached(o, name)
  {
    o.parsedFields[o.fieldNameMap[name]].value.value
  }

  /** Whatever must be given again is cached. */
  ghost predicate Recalled(memory: map<(FileObject, string), Value>, objs: set<FileObject>)
    reads objs
  {
    forall key :: key in memory ==> key.0 in objs && Recalls(key.0, key.1, memory[key])
  }

  /** What a client holds and may rely on: right objects that recall what they have answered. */
  ghost predicate Holds(objs: seq<FileObject>, pool: set<FileObject>, file: BufferedFileReader,
                        memory: map<(FileObject, string), Value>)
    reads pool
  {
    && Pool(pool, file)
    && Recalled(memory, pool)
    && forall o :: o in objs ==> o in pool
  }

  /**
    * Every history: whatever is asked, cleared and reparsed, in any order and on any object
    * reached so far, each answer is that of the file, and a value once given is given again.
    */
  method Run(root: FileObject, ops: seq<Op>) returns (objs: seq<FileObject>, log: seq<Entry>)
    requires root.Valid() && root.Complete() && root.Children() == {} && Resolved(root.ty)
    requires root.file.Coherent()
    modifies root, root.file, root.file.buffer, root.file.reader
    ensures |objs| == Reached(log) && objs != [] && objs[0] == root
    ensures Follows(ops, log, objs)
    ensures root.file.reader.faults == old(root.file.reader.faults) + Faults(log)
    ensures root.file.Coherent()
    ensures forall o :: o in objs ==> o.file == root.file && o.Valid()
  {
    objs, log := [root], [];
    ghost var pool, memory := {root}, Memory([]);
    for i := 0 to |ops|
      invariant objs != [] && objs[0] == root && root.file.Coherent()
      invariant Holds(objs, pool, root.file, memory)
      invariant fresh(pool - {root})
      invariant root.file.reader.faults == old(root.file.reader.faults) + Faults(log)
      invariant Logged(ops[..i], log, objs, memory)
    {
      var entry, found;
      entry, found, pool := Turn(ops[i], objs, root.file, pool, memory);
      LogGrows(ops, i, log, objs, memory, entry, found);
      objs, log, memory := objs + found, log + [entry], Remember(memory, entry);
    }
    assert ops[..|ops|] == ops;
  }

  /** A log so far, with the objects held and what must be given again. */
  ghost predicate Logged(ops: seq<Op>, log: seq<Entry>, objs: seq<FileObject>,
                         memory: map<(FileObject, string), Value>)
  {
    Follows(ops, log, objs) && |objs| == Reached(log) && memory == Memory(log)
  }

  lemma LogGrows(ops: seq<Op>, i: nat, log: seq<Entry>, objs: seq<FileObject>, memory: map<(FileObject, string), Value>,
                 e: Entry, found: seq<FileObject>)
    requires i < |ops| && Logged(ops[..i], log, objs, memory)
    requires Obeys(ops[i], e, |objs|, memory, objs + found)
    requires found == if GivesObject(e) then [e.answer.value.obj] else []
    ensures Logged(ops[..i + 1], log + [e], objs + found, Remember(memory, e))
    ensures Faults(log + [e]) == Faults(log) + if IsFault(e) then 1 else 0
  {
    FollowsSnoc(ops[..i], log, objs, ops[i], e, found);
    LogSnoc(log, e);
    assert ops[..i] + [ops[i]] == ops[..i + 1];
  }

  /** One operation, if the client holds the object it is for; otherwise nothing. */
  method Turn(op: Op, objs: seq<FileObject>, file: BufferedFileReader, ghost pool: set<FileObject>,
              ghost memory: map<(FileObject, string), Value>)
    returns (entry: Entry, found: seq<FileObject>, ghost pool': set<FileObject>)
    requires Holds(objs, pool, file, memory) && file.Coherent()
    modifies pool, file, file.buffer, file.reader
    ensures file.Coherent()
    ensures pool <= pool' && fresh(pool' - pool)
    ensures Holds(objs + found, pool', file, Remember(memory, entry))
    ensures found == if GivesObject(entry) then [entry.answer.value.obj] else []
    ensures Obeys(op, entry, |objs|, memory, objs + found)
    ensures file.reader.faults == old(file.reader.faults) + if IsFault(entry) then 1 else 0
    ensures op.target >= |objs| ==> unchanged(pool) && unchanged(file, file.buffer, file.reader) && pool' == pool
    ensures op.target < |objs| && !op.Get? ==> Emptied(objs[op.target])
  {
    entry, found, pool' := Skipped, [], pool;
    if op.target < |objs| {
      var o := objs[op.target];
      assert o in pool && Held(o, file, pool);
      entry, found, pool' := Perform(op, o, pool, memory);
    }
  }

  /** The object is laid out and has nothing cached. */
  ghost predicate Emptied(o: FileObject)
    reads o
  {
    o.Valid() && o.Complete() && forall i :: 0 <= i < |o.parsedFields| ==> o.parsedFields[i].value == None
  }

  /** One operation on one of the client's objects. */
  method Perform(op: Op, o: FileObject, ghost pool: set<FileObject>, ghost memory: map<(FileObject, string), Value>)
    returns (entry: Entry, found: seq<FileObject>, ghost pool': set<FileObject>)
    requires o in pool && Pool(pool, o.file) && o.file.Coherent() && Recalled(memory, pool)
    modifies o, o.file, o.file.buffer, o.file.reader
    ensures o.file.Coherent()
    ensures pool <= pool' && fresh(pool' - pool) && Pool(pool', o.file)
    ensures Recalled(Remember(memory, entry), pool')
    ensures forall c :: c in found ==> c in pool'
    ensures CarriedOut(op, entry, o) && AnswerOk(entry, memory)
    ensures o.file.reader.faults == old(o.file.reader.faults) + if IsFault(entry) then 1 else 0
    ensures found == if GivesObject(entry) then [entry.answer.value.obj] else []
    ensures !op.Get? ==> Emptied(o)
  {
    assert Held(o, o.file, pool);
    found, pool' := [], pool;
    match op {
      case Get(_, name) =>
        var answer;
        answer, pool' := Ask(o, name, pool, memory);
        if answer.Ok? && answer.value.ObjectValue? {
          found := [answer.value.obj];
        }
        entry := Asked(o, name, answer);
      case Clear(_) =>
        ClearOne(o, pool, memory);
        entry := Cleared(o);
      case Reparse(_) =>
        var done := ReparseOne(o, pool, memory);
        entry := Reparsed(o, done);
    }
  }

  method ClearOne(o: FileObject, ghost pool: set<FileObject>, ghost memory: map<(FileObject, string), Value>)
    requires o in pool && Pool(pool, o.file) && Recalled(memory, pool)
    modifies o`parsedFields
    ensures Pool(pool, o.file) && Recalled(Forget(memory, o), pool) && Emptied(o)
  {
    assert Held(o, o.file, pool);
    o.ClearCache();
    forall c | c in pool
      ensures Held(c, o.file, pool)
    {
      assert old(Held(c, o.file, pool));
    }
  }

  method ReparseOne(o: FileObject, ghost pool: set<FileObject>, ghost memory: map<(FileObject, string), Value>)
    returns (done: Result<()>)
    requires o in pool && Pool(pool, o.file) && Recalled(memory, pool)
    modifies o
    ensures Pool(pool, o.file) && Recalled(Forget(memory, o), pool) && Emptied(o)
    ensures done == Ok(())
  {
    assert Held(o, o.file, pool);
    ResolvedIffSized(o.ty);
    done := o.ReparseObject();
    forall c | c in pool
      ensures Held(c, o.file, pool)
    {
      assert old(Held(c, o.file, pool));
    }
  }

  /** One access keeps the pool of objects closed and right, with at most one new object in it. */
  method Ask(o: FileObject, name: string, ghost pool: set<FileObject>, ghost memory: map<(FileObject, string), Value>)
    returns (answer: Result<Value>, ghost pool': set<FileObject>)
    requires o in pool && Pool(pool, o.file) && o.file.Coherent() && Recalled(memory, pool)
    modifies o`parsedFields, o.file, o.file.buffer, o.file.reader
    ensures o.file.Coherent()
    ensures pool <= pool' && fresh(pool' - pool) && Pool(pool', o.file)
    ensures Recalled(Remember(memory, Asked(o, name, answer)), pool')
    ensures o.ty.Definition? && AnswerOk(Asked(o, name, answer), memory)
    ensures answer.Ok? && answer.value.ObjectValue? ==> answer.value.obj in pool'
    ensures o.file.reader.faults == old(o.file.reader.faults) + if answer == Err(IoError) then 1 else 0
  {
    answer, pool' := AskField(o, name, pool);
    forall key | key in memory
      ensures key.0 in pool' && Recalls(key.0, key.1, memory[key])
    {
      assert old(Recalls(key.0, key.1, memory[key]));
    }
    assert Recalled(memory, pool');
    if (o, name) in memory {
      assert old(Recalls(o, name, memory[(o, name)]));
    }
  }

  /** The access itself: what was cached is given and kept, and what is given is cached. */
  method AskField(o: FileObject, name: string, ghost pool: set<FileObject>)
    returns (answer: Result<Value>, ghost pool': set<FileObject>)
    requires o in pool && Pool(pool, o.file) && o.file.Coherent()
    modifies o`parsedFields, o.file, o.file.buffer, o.file.reader
    ensures o.file.Coherent()
    ensures pool <= pool' && fresh(pool' - pool) && Pool(pool', o.file)
    ensures o.ty.Definition? && AnswerAgrees(o, name, answer)
    ensures answer.Ok? && answer.value.ObjectValue? ==> answer.value.obj in pool'
    ensures o.file.reader.faults == old(o.file.reader.faults) + if answer == Err(IoError) then 1 else 0
    ensures Keeps(old(o.parsedFields), o.parsedFields)
    ensures answer.Ok? ==> Recalls(o, name, answer.value)
    ensures name !in o.fieldNameMap ==> answer == Ok(NullValue)
    ensures old(IsCached(o, name)) ==> answer == Ok(old(CachedValue(o, name)))
  {
    assert Held(o, o.file, pool);
    answer := o.GetFieldValue(name);
    pool' := pool + o.Children();
    forall c | c in pool'
      ensures Held(c, o.file, pool')
    {
      if c in pool {
        assert old(Held(c, o.file, pool));
      }
    }
    NameMapSpec(o.ty.fields, |o.ty.fields|, name);
    AnswerFromRead(o, name, answer);
  }
}
