/** The eager decoding of a file: what every lazily read value must agree with. */
module Trees {
  import opened Wrappers
  import opened Sizes
  import opened Errors
  import opened FileSystem
  import opened Buffered
  import opened Types
  import opened IntegerFields
  import opened Objects

  datatype Tree = NullTree | NumberTree(value: int) | ObjectTree(fields: map<string, Tree>)

  /** Decodes a whole type at once; an integer that cannot be decoded is null. */
  function Eager(file: FileBytes, pos: Size, t: Type): Tree
    decreases t
  {
    match t
    case Integer(_, _, _, _) =>
      (match DecodeInteger(file, pos, t)
       case Ok(n) => NumberTree(n.Value())
       case Err(_) => NullTree)
    case Definition(_, fields) => ObjectTree(EagerFields(file, pos, fields, |fields|))
    case Missing => NullTree
  }

  function EagerFields(file: FileBytes, pos: Size, fields: seq<Field>, n: nat): map<string, Tree>
    requires n <= |fields|
    decreases fields, n
  {
    if n == 0 then map[]
    else
      EagerFields(file, pos, fields, n - 1)[
        fields[n - 1].name := Eager(file, OffsetAt(pos, fields, n - 1), fields[n - 1].ty)]
  }

  /** The decoded fields are those of the name table, each at its own static offset. */
  lemma {:induction false} EagerFieldsSpec(file: FileBytes, pos: Size, fields: seq<Field>, n: nat, name: string)
    requires n <= |fields|
    ensures name in EagerFields(file, pos, fields, n) <==> name in NameMap(fields, n)
    ensures name in NameMap(fields, n) ==>
      var i := NameMap(fields, n)[name];
      i < n && EagerFields(file, pos, fields, n)[name] == Eager(file, OffsetAt(pos, fields, i), fields[i].ty)
  {
    if n > 0 {
      EagerFieldsSpec(file, pos, fields, n - 1, name);
    }
  }

  /** A value as a tree: an object means the eager decoding of its own type and position. */
  function Meaning(v: Value): Tree {
    match v
    case NullValue => NullTree
    case NumberValue(n) => NumberTree(n.Value())
    case ObjectValue(o) => Eager(o.file.reader.file, o.start, o.ty)
  }

  lemma DenotesMeaning(v: Value, file: BufferedFileReader, pos: Size, t: Type)
    requires Denotes(v, file, pos, t)
    ensures Meaning(v) == Eager(file.reader.file, pos, t)
  {
  }

  /** Where in a file a value of a type stands, by the static offsets alone. */
  datatype Place = Place(pos: Size, ty: Type)

  /** The place of a field; of fields with one name, of the last. */
  function Step(p: Place, name: string): Option<Place> {
    if p.ty.Definition? && name in NameMap(p.ty.fields, |p.ty.fields|) then
      NameMapSpec(p.ty.fields, |p.ty.fields|, name);
      var i := NameMap(p.ty.fields, |p.ty.fields|)[name];
      Some(Place(OffsetAt(p.pos, p.ty.fields, i), p.ty.fields[i].ty))
    else None
  }

  /** The place that a path of names leads to. */
  function PlaceAt(p: Place, path: seq<string>): Option<Place>
    decreases |path|
  {
    if path == [] then Some(p)
    else
      match Step(p, path[0])
      case None => None
      case Some(q) => PlaceAt(q, path[1..])
  }

  lemma {:induction false} PlaceAtSnoc(p: Place, path: seq<string>, name: string)
    ensures PlaceAt(p, path + [name]) ==
            match PlaceAt(p, path)
            case None => None
            case Some(q) => Step(q, name)
    decreases |path|
  {
    if path == [] {
      assert [] + [name] == [name] && [name][1..] == [];
    } else {
      assert (path + [name])[1..] == path[1..] + [name];
      if Step(p, path[0]).Some? {
        PlaceAtSnoc(Step(p, path[0]).value, path[1..], name);
      }
    }
  }

  /** What the file has at a place: a value, or why it cannot be read. */
  function ReadHere(file: FileBytes, p: Place): Result<Tree> {
    match p.ty
    case Integer(_, _, _, _) =>
      (match DecodeInteger(file, p.pos, p.ty)
       case Ok(n) => Ok(NumberTree(n.Value()))
       case Err(kind) => Err(kind))
    case _ => Ok(Eager(file, p.pos, p.ty))
  }

  /** The same at the end of a path; null for a path that leads nowhere. */
  function ReadAlong(file: FileBytes, root: Place, path: seq<string>): Result<Tree> {
    match PlaceAt(root, path)
    case None => Ok(NullTree)
    case Some(p) => ReadHere(file, p)
  }

  /** What cannot be read is null in the eager decoding of everything around it. */
  lemma {:induction false} ReadAlongIsTreeAt(file: FileBytes, p: Place, path: seq<string>)
    ensures TreeAt(Eager(file, p.pos, p.ty), path) ==
            match ReadAlong(file, p, path)
            case Ok(tree) => tree
            case Err(_) => NullTree
    decreases |path|
  {
    if path != [] && p.ty.Definition? {
      EagerFieldsSpec(file, p.pos, p.ty.fields, |p.ty.fields|, path[0]);
      if Step(p, path[0]).Some? {
        ReadAlongIsTreeAt(file, Step(p, path[0]).value, path[1..]);
      }
    }
  }

  function PlaceOf(o: FileObject): Place {
    Place(o.start, o.ty)
  }

  /**
    * What asking an object for a name may return: null for a name without a field, and otherwise
    * the value at the field's place or the error of reading it, unless a read fails.
    */
  ghost predicate AnswerAgrees(o: FileObject, name: string, r: Result<Value>) {
    match Step(PlaceOf(o), name)
    case None => r == Ok(NullValue)
    case Some(p) =>
      match r
      case Ok(v) => Denotes(v, o.file, p.pos, p.ty)
      case Err(kind) => ReadHere(o.file.reader.file, p) == Err(kind) || (kind == IoError && !o.file.reader.reliable)
  }

  /** Every outcome of reading the field of a name is a right answer, and nothing else is. */
  lemma AnswerFromRead(o: FileObject, name: string, r: Result<Value>)
    requires NoNullTypes(o.ty) && Resolved(o.ty)
    requires var fields := o.ty.fields;
      if name in NameMap(fields, |fields|) then
        var i := NameMap(fields, |fields|)[name];
        i < |fields| && ReadAgrees(r, o.file, OffsetAt(o.start, fields, i), fields[i].ty)
      else r == Ok(NullValue)
    ensures AnswerAgrees(o, name, r)
  {
    var fields := o.ty.fields;
    if name in NameMap(fields, |fields|) {
      ResolvedIffSized(fields[NameMap(fields, |fields|)[name]].ty);
    }
  }

  /** An answer's meaning, or its error, as a result. */
  function Outcome(r: Result<Value>): Result<Tree> {
    match r
    case Ok(v) => Ok(Meaning(v))
    case Err(kind) => Err(kind)
  }

  /** A right answer has the outcome of the place asked for; only an unknown name gives null. */
  lemma AnswerOutcome(o: FileObject, name: string, r: Result<Value>)
    requires AnswerAgrees(o, name, r)
    ensures var file := o.file.reader.file;
      || Outcome(r) == (match Step(PlaceOf(o), name) case None => Ok(NullTree) case Some(p) => ReadHere(file, p))
      || (r == Err(IoError) && !o.file.reader.reliable)
    ensures r.Ok? ==> (r.value == NullValue <==> Step(PlaceOf(o), name).None?)
    ensures r.Ok? && r.value.ObjectValue? ==>
      r.value.obj.file == o.file && Step(PlaceOf(o), name) == Some(PlaceOf(r.value.obj))
  {
    if r.Ok? && Step(PlaceOf(o), name).Some? {
      var p := Step(PlaceOf(o), name).value;
      DenotesMeaning(r.value, o.file, p.pos, p.ty);
    }
  }

  /** The same by the eager decoding of the object asked. */
  lemma AnswerMeaning(o: FileObject, name: string, r: Result<Value>)
    requires o.ty.Definition? && AnswerAgrees(o, name, r)
    ensures var fields := EagerFields(o.file.reader.file, o.start, o.ty.fields, |o.ty.fields|);
      match r
      case Ok(v) =>
        && Meaning(v) == (if name in fields then fields[name] else NullTree)
        && (v == NullValue <==> name !in fields)
      case Err(kind) =>
        && name in fields
        && if o.file.reader.reliable then kind != IoError && fields[name] == NullTree
           else kind == IoError || fields[name] == NullTree
  {
    var file, p := o.file.reader.file, PlaceOf(o);
    EagerFieldsSpec(file, o.start, o.ty.fields, |o.ty.fields|, name);
    AnswerOutcome(o, name, r);
    if Step(p, name).Some? && Step(p, name).value.ty.Integer? {
      DecodeNeverFaults(file, Step(p, name).value.pos, Step(p, name).value.ty);
    }
  }

  lemma DecodeNeverFaults(file: FileBytes, pos: Size, t: Type)
    requires t.Integer?
    ensures DecodeInteger(file, pos, t) != Err(IoError)
  {
  }

  /** With a reader that never fails, two reads of one place agree, whenever they happen. */
  lemma ReadIsDetermined(r1: Result<Value>, r2: Result<Value>, file: BufferedFileReader, pos: Size, t: Type)
    requires file.reader.reliable && Readable(t)
    requires ReadAgrees(r1, file, pos, t) && ReadAgrees(r2, file, pos, t)
    ensures r1.Ok? == r2.Ok?
    ensures r1.Err? ==> r1 == r2
    ensures r1.Ok? ==> Meaning(r1.value) == Meaning(r2.value)
  {
    if r1.Ok? {
      DenotesMeaning(r1.value, file, pos, t);
    }
    if r2.Ok? {
      DenotesMeaning(r2.value, file, pos, t);
    }
  }

  /** The part of a tree that a path of names leads to. */
  function TreeAt(tree: Tree, path: seq<string>): Tree {
    if path == [] then tree
    else if tree.ObjectTree? && path[0] in tree.fields then TreeAt(tree.fields[path[0]], path[1..])
    else NullTree
  }

  /** One value is the answer that another gives to a name. */
  ghost predicate Answers(v: Value, name: string, answer: Value) {
    v.ObjectValue? && v.obj.ty.Definition? && AnswerAgrees(v.obj, name, Ok(answer))
  }

  /** Values got one from the other along a path of names. */
  ghost predicate Navigates(values: seq<Value>, path: seq<string>) {
    && |values| == |path| + 1
    && forall i :: 0 <= i < |path| ==> Answers(values[i], path[i], values[i + 1])
  }

  /** However it was reached, a value is the eager decoding of the first object at the path. */
  lemma {:induction false} NavigationIsEager(values: seq<Value>, path: seq<string>)
    requires Navigates(values, path)
    ensures Meaning(values[|path|]) == TreeAt(Meaning(values[0]), path)
  {
    if path != [] {
      assert Answers(values[0], path[0], values[1]);
      AnswerMeaning(values[0].obj, path[0], Ok(values[1]));
      assert Navigates(values[1..], path[1..]) by {
        forall i | 0 <= i < |path[1..]|
          ensures Answers(values[1..][i], path[1..][i], values[1..][i + 1])
        {
          assert Answers(values[i + 1], path[i + 1], values[i + 2]);
        }
      }
      NavigationIsEager(values[1..], path[1..]);
    }
  }
}
