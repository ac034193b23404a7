/** Histories of what a client asks of the objects of one file, and what must hold of them. */
module Histories {
  import opened Wrappers
  import opened Errors
  import opened Objects
  import opened Trees

  /** What a client may do with an object it holds, told by the order it was first given. */
  datatype Op = Get(target: nat, name: string) | Clear(target: nat) | Reparse(target: nat)

  datatype Entry =
    | Skipped
    | Asked(obj: FileObject, name: string, answer: Result<Value>)
    | Cleared(obj: FileObject)
    | Reparsed(obj: FileObject, done: Result<()>)

  /** The objects a client holds after these entries: the root, and one for each object answered. */
  function Reached(log: seq<Entry>): (n: nat)
    ensures n > 0
  {
    if log == [] then 1
    else Reached(log[..|log| - 1]) + if GivesObject(log[|log| - 1]) then 1 else 0
  }

  predicate GivesObject(e: Entry) {
    e.Asked? && e.answer.Ok? && e.answer.value.ObjectValue?
  }

  /** How many requests were answered with the error of a failed read. */
  function Faults(log: seq<Entry>): nat {
    if log == [] then 0
    else Faults(log[..|log| - 1]) + if IsFault(log[|log| - 1]) then 1 else 0
  }

  predicate IsFault(e: Entry) {
    e.Asked? && e.answer == Err(IoError)
  }

  /** The values that must be given again: answered, and not forgotten since by a clear or reparse. */
  ghost function Memory(log: seq<Entry>): map<(FileObject, string), Value> {
    if log == [] then map[]
    else Remember(Memory(log[..|log| - 1]), log[|log| - 1])
  }

  ghost function Remember(memory: map<(FileObject, string), Value>, e: Entry): map<(FileObject, string), Value> {
    match e
    case Skipped => memory
    case Asked(obj, name, answer) => if answer.Ok? then memory[(obj, name) := answer.value] else memory
    case Cleared(obj) => Forget(memory, obj)
    case Reparsed(obj, _) => Forget(memory, obj)
  }

  ghost function Forget(memory: map<(FileObject, string), Value>, o: FileObject): map<(FileObject, string), Value> {
    map key | key in memory && key.0 != o :: memory[key]
  }

  /** An operation on an object held by then is carried out on that object, and no other is. */
  predicate CarriedOut(op: Op, e: Entry, o: FileObject) {
    match op
    case Get(_, name) => e.Asked? && e.obj == o && e.name == name
    case Clear(_) => e == Cleared(o)
    case Reparse(_) => e == Reparsed(o, Ok(()))
  }

  /** An answer is right, and the one given before if that is remembered. */
  ghost predicate AnswerOk(e: Entry, memory: map<(FileObject, string), Value>) {
    e.Asked? ==>
      && AnswerAgrees(e.obj, e.name, e.answer)
      && ((e.obj, e.name) in memory ==> e.answer == Ok(memory[(e.obj, e.name)]))
  }

  ghost predicate Obeys(op: Op, e: Entry, held: nat, memory: map<(FileObject, string), Value>, objs: seq<FileObject>) {
    && (if op.target < held then op.target < |objs| && CarriedOut(op, e, objs[op.target]) else e == Skipped)
    && (GivesObject(e) ==> held < |objs| && e.answer.value.obj == objs[held])
    && AnswerOk(e, memory)
  }

  ghost predicate Follows(ops: seq<Op>, log: seq<Entry>, objs: seq<FileObject>) {
    && |ops| == |log|
    && (log != [] ==>
         var n := |log| - 1;
         && Follows(ops[..n], log[..n], objs)
         && Obeys(ops[n], log[n], Reached(log[..n]), Memory(log[..n]), objs))
  }

  /** Objects held later change nothing about what was asked before. */
  lemma {:induction false} FollowsMore(ops: seq<Op>, log: seq<Entry>, objs: seq<FileObject>, found: seq<FileObject>)
    requires Follows(ops, log, objs)
    ensures Follows(ops, log, objs + found)
  {
    if log != [] {
      FollowsMore(ops[..|log| - 1], log[..|log| - 1], objs, found);
    }
  }

  lemma FollowsSnoc(ops: seq<Op>, log: seq<Entry>, objs: seq<FileObject>, op: Op, e: Entry, found: seq<FileObject>)
    requires Follows(ops, log, objs) && Obeys(op, e, Reached(log), Memory(log), objs + found)
    ensures Follows(ops + [op], log + [e], objs + found)
  {
    FollowsMore(ops, log, objs, found);
    assert (ops + [op])[..|log|] == ops && (log + [e])[..|log|] == log;
    assert (ops + [op])[|log|] == op && (log + [e])[|log|] == e;
    assert Obeys(op, e, Reached(log), Memory(log), objs + found);
  }

  lemma LogSnoc(log: seq<Entry>, e: Entry)
    ensures Reached(log + [e]) == Reached(log) + if GivesObject(e) then 1 else 0
    ensures Faults(log + [e]) == Faults(log) + if IsFault(e) then 1 else 0
    ensures Memory(log + [e]) == Remember(Memory(log), e)
  {
    assert (log + [e])[..|log|] == log;
  }

  lemma {:induction false} FollowsPrefix(ops: seq<Op>, log: seq<Entry>, objs: seq<FileObject>, k: nat)
    requires Follows(ops, log, objs) && k < |log|
    ensures Follows(ops[..k], log[..k], objs)
    ensures Obeys(ops[k], log[k], Reached(log[..k]), Memory(log[..k]), objs)
    ensures Reached(log[..k]) <= Reached(log)
  {
    var n := |log| - 1;
    if k < n {
      FollowsPrefix(ops[..n], log[..n], objs, k);
      assert ops[..n][..k] == ops[..k] && log[..n][..k] == log[..k];
    }
  }

  // Where the objects stand

  /** The path of names that led from the root to each object held. */
  function Paths(ops: seq<Op>, log: seq<Entry>): (r: seq<seq<string>>)
    requires |ops| == |log|
    ensures |r| == Reached(log) && r[0] == []
  {
    if log == [] then [[]]
    else
      var n := |log| - 1;
      var before := Paths(ops[..n], log[..n]);
      if !GivesObject(log[n]) then before
      else before + [(if ops[n].target < |before| then before[ops[n].target] else []) + [log[n].name]]
  }

  /** What one request of a history is about: a path from the root. */
  function AskedPath(ops: seq<Op>, log: seq<Entry>, k: nat): seq<string>
    requires k < |ops| == |log| && log[k].Asked?
  {
    var paths := Paths(ops[..k], log[..k]);
    (if ops[k].target < |paths| then paths[ops[k].target] else []) + [log[k].name]
  }

  /** Every object held stands at the place of its path, and reads through the root's reader. */
  lemma {:induction false} ObjectsAtPaths(ops: seq<Op>, log: seq<Entry>, objs: seq<FileObject>, j: nat)
    requires Follows(ops, log, objs) && j < Reached(log) <= |objs|
    ensures PlaceAt(PlaceOf(objs[0]), Paths(ops, log)[j]) == Some(PlaceOf(objs[j]))
    ensures objs[j].file == objs[0].file
  {
    if log != [] {
      var n := |log| - 1;
      if j < Reached(log[..n]) {
        ObjectsAtPaths(ops[..n], log[..n], objs, j);
      } else {
        var target := ops[n].target;
        ObjectsAtPaths(ops[..n], log[..n], objs, target);
        AnswerOutcome(log[n].obj, log[n].name, log[n].answer);
        PlaceAtSnoc(PlaceOf(objs[0]), Paths(ops[..n], log[..n])[target], log[n].name);
      }
    }
  }

  /** Each request is about the field of its name in the object that stands at the rest of its path. */
  lemma AskedAtPlace(ops: seq<Op>, log: seq<Entry>, objs: seq<FileObject>, k: nat)
    requires Follows(ops, log, objs) && Reached(log) <= |objs| && k < |log| && log[k].Asked?
    ensures PlaceAt(PlaceOf(objs[0]), AskedPath(ops, log, k)) == Step(PlaceOf(log[k].obj), log[k].name)
    ensures log[k].obj.file == objs[0].file && AnswerAgrees(log[k].obj, log[k].name, log[k].answer)
  {
    FollowsPrefix(ops, log, objs, k);
    ObjectsAtPaths(ops[..k], log[..k], objs, ops[k].target);
    PlaceAtSnoc(PlaceOf(objs[0]), Paths(ops[..k], log[..k])[ops[k].target], log[k].name);
  }

  /**
    * In any history each request has the outcome of its path: the value that the file has there,
    * the error of reading it, or null for a path that leads nowhere. Only a failing reader may
    * add an error of its own, and nothing but such a path is answered with null.
    */
  lemma HistoryIsNavigation(ops: seq<Op>, log: seq<Entry>, objs: seq<FileObject>, k: nat)
    requires Follows(ops, log, objs) && Reached(log) <= |objs| && k < |log| && log[k].Asked?
    ensures var root, reader, path := PlaceOf(objs[0]), objs[0].file.reader, AskedPath(ops, log, k);
      && (|| Outcome(log[k].answer) == ReadAlong(reader.file, root, path)
          || (log[k].answer == Err(IoError) && !reader.reliable))
      && (log[k].answer.Ok? ==> (log[k].answer.value == NullValue <==> PlaceAt(root, path).None?))
  {
    AskedAtPlace(ops, log, objs, k);
    AnswerOutcome(log[k].obj, log[k].name, log[k].answer);
  }

  /** The error of a failed read is no outcome of a file: only a reader that fails can bring it in. */
  lemma {:induction false} FaultsNeedFailures(ops: seq<Op>, log: seq<Entry>, objs: seq<FileObject>)
    requires Follows(ops, log, objs) && Reached(log) <= |objs| && objs[0].file.reader.reliable
    ensures Faults(log) == 0
  {
    if log != [] {
      var n := |log| - 1;
      FaultsNeedFailures(ops[..n], log[..n], objs);
      if log[n].Asked? {
        AskedAtPlace(ops, log, objs, n);
        FaultIsNoOutcome(log[n].obj, log[n].name, log[n].answer);
      }
    }
  }

  lemma FaultIsNoOutcome(o: FileObject, name: string, r: Result<Value>)
    requires AnswerAgrees(o, name, r) && o.file.reader.reliable
    ensures r != Err(IoError)
  {
    var p := Step(PlaceOf(o), name);
    if p.Some? && p.value.ty.Integer? {
      DecodeNeverFaults(o.file.reader.file, p.value.pos, p.value.ty);
    }
  }

  /** By the root's decoding: a value is its part at the path, and only a null part can fail to be read. */
  lemma HistoryIsEager(ops: seq<Op>, log: seq<Entry>, objs: seq<FileObject>, k: nat)
    requires Follows(ops, log, objs) && Reached(log) <= |objs| && k < |log| && log[k].Asked?
    ensures var part := TreeAt(Meaning(ObjectValue(objs[0])), AskedPath(ops, log, k));
      && (log[k].answer.Ok? ==> Meaning(log[k].answer.value) == part)
      && (log[k].answer.Err? ==>
            part == NullTree || (log[k].answer.kind == IoError && !objs[0].file.reader.reliable))
  {
    HistoryIsNavigation(ops, log, objs, k);
    ReadAlongIsTreeAt(objs[0].file.reader.file, PlaceOf(objs[0]), AskedPath(ops, log, k));
  }

  // What is given again

  /** Nothing between two entries makes an object forget. */
  predicate Undisturbed(log: seq<Entry>, o: FileObject, i: nat, k: nat)
    requires k <= |log|
  {
    forall j :: i < j < k ==> log[j] != Cleared(o) && (log[j].Reparsed? ==> log[j].obj != o)
  }

  lemma {:induction false} StillRemembered(ops: seq<Op>, log: seq<Entry>, objs: seq<FileObject>, i: nat)
    requires Follows(ops, log, objs) && i < |log|
    requires log[i].Asked? && log[i].answer.Ok? && Undisturbed(log, log[i].obj, i, |log|)
    ensures var key := (log[i].obj, log[i].name);
      key in Memory(log) && Memory(log)[key] == log[i].answer.value
  {
    var n := |log| - 1;
    if i < n {
      StillRemembered(ops[..n], log[..n], objs, i);
      RememberKeeps(Memory(log[..n]), log[n], log[i].obj, log[i].name);
    }
  }

  /** A right answer changes nothing that is remembered. */
  lemma RememberKeeps(memory: map<(FileObject, string), Value>, e: Entry, o: FileObject, name: string)
    requires (o, name) in memory && AnswerOk(e, memory)
    requires e != Cleared(o) && (e.Reparsed? ==> e.obj != o)
    ensures (o, name) in Remember(memory, e) && Remember(memory, e)[(o, name)] == memory[(o, name)]
  {
  }

  /**
    * What was answered once is answered again, whatever happens to the reader, until the object
    * is cleared or reparsed.
    */
  lemma SameAnswerAgain(ops: seq<Op>, log: seq<Entry>, objs: seq<FileObject>, i: nat, k: nat)
    requires Follows(ops, log, objs) && i < k < |log|
    requires log[i].Asked? && log[i].answer.Ok? && Undisturbed(log, log[i].obj, i, k)
    requires log[k].Asked? && log[k].obj == log[i].obj && log[k].name == log[i].name
    ensures log[k].answer == log[i].answer
  {
    FollowsPrefix(ops, log, objs, k);
    StillRemembered(ops[..k], log[..k], objs, i);
  }
}
