/**
  * Parsed objects: a lazily filled, clearable cache of field values over the one reader that
  * an object shares with its parent and its children.
  */
module Objects {
  import opened Wrappers
  import opened Bits
  import opened Sizes
  import opened Errors
  import opened Numbers
  import opened Buffered
  import opened Types
  import opened IntegerFields

  datatype Value = NullValue | NumberValue(number: Number) | ObjectValue(obj: FileObject)

  datatype ParsedField = ParsedField(name: string, ty: Type, offset: Size, value: Option<Value>)

  /** No field has the null type. */
  predicate NoNullTypes(t: Type) {
    t.Definition? && forall i :: 0 <= i < |t.fields| ==> t.fields[i].ty != Missing
  }

  /** What a type must be for its `ReadValue` not to follow a null pointer. */
  predicate Readable(t: Type) {
    t.Integer? || NoNullTypes(t)
  }

  /** The name table after `n` fields: a later field takes the name over. */
  function NameMap(fields: seq<Field>, n: nat): map<string, nat>
    requires n <= |fields|
  {
    if n == 0 then map[] else NameMap(fields, n - 1)[fields[n - 1].name := n - 1]
  }

  /** The table holds exactly the names, each with its last field. */
  lemma {:induction false} NameMapSpec(fields: seq<Field>, n: nat, name: string)
    requires n <= |fields|
    ensures name in NameMap(fields, n) <==> exists i :: 0 <= i < n && fields[i].name == name
    ensures name in NameMap(fields, n) ==>
      && NameMap(fields, n)[name] < n
      && fields[NameMap(fields, n)[name]].name == name
      && forall i :: NameMap(fields, n)[name] < i < n ==> fields[i].name != name
  {
    if n > 0 {
      NameMapSpec(fields, n - 1, name);
    }
  }

  /**
    * A value is the one that the file's bytes give a type at a position. An object is told by
    * its own constant type, position and file, so nothing it caches can matter.
    */
  ghost predicate Denotes(v: Value, file: BufferedFileReader, pos: Size, t: Type) {
    match v
    case NullValue => false
    case NumberValue(n) => t.Integer? && DecodeInteger(file.reader.file, pos, t) == Ok(n)
    case ObjectValue(o) => t.Definition? && o.ty == t && o.start == pos && o.file == file && StaticSize(t).Some?
  }

  /** Every outcome of a read that the file and the reader's reliability leave possible. */
  ghost predicate ReadAgrees(r: Result<Value>, file: BufferedFileReader, pos: Size, t: Type) {
    match r
    case Ok(v) => Denotes(v, file, pos, t)
    case Err(kind) =>
      || (kind == IoError && !file.reader.reliable)
      || (t.Integer? && DecodeInteger(file.reader.file, pos, t) == Err(kind))
      || (t.Definition? && kind == FieldsMustBeStatic && StaticSize(t).None?)
  }

  class FileObject {
    const file: BufferedFileReader
    const ty: Type
    const start: Size
    var parsedFields: seq<ParsedField>
    var fieldNameMap: map<string, nat>

    predicate FieldLaidOut(info: ParsedField, i: nat)
      requires ty.Definition? && i < |ty.fields|
    {
      && info.name == ty.fields[i].name
      && info.ty == ty.fields[i].ty
      && info.offset == OffsetAt(start, ty.fields, i)
    }

    ghost predicate FieldOk(info: ParsedField, i: nat)
      requires ty.Definition? && i < |ty.fields|
    {
      FieldLaidOut(info, i) && (info.value.Some? ==> Denotes(info.value.value, file, info.offset, info.ty))
    }

    /** The layout is the type's, whatever is cached. */
    ghost predicate LaidOut()
      reads this
    {
      && NoNullTypes(ty)
      && |parsedFields| <= |ty.fields|
      && fieldNameMap == NameMap(ty.fields, |parsedFields|)
      && forall i :: 0 <= i < |parsedFields| ==> FieldLaidOut(parsedFields[i], i)
    }

    /** The layout is the type's, and whatever is cached is what the file holds there. */
    ghost predicate Valid()
      reads this
    {
      && NoNullTypes(ty)
      && |parsedFields| <= |ty.fields|
      && fieldNameMap == NameMap(ty.fields, |parsedFields|)
      && forall i :: 0 <= i < |parsedFields| ==> FieldOk(parsedFields[i], i)
    }

    /** Every field has been laid out. */
    ghost predicate Complete()
      reads this
    {
      ty.Definition? && |parsedFields| == |ty.fields|
    }

    /** The objects this one has cached. */
    ghost function Children(): set<FileObject>
      reads this
    {
      set i | 0 <= i < |parsedFields| && parsedFields[i].value.Some? && parsedFields[i].value.value.ObjectValue?
        :: parsedFields[i].value.value.obj
    }

    constructor (file: BufferedFileReader, ty: Type, start: Size)
      requires NoNullTypes(ty)
      ensures Valid() && parsedFields == []
      ensures this.file == file && this.ty == ty && this.start == start
    {
      this.file, this.ty, this.start := file, ty, start;
      parsedFields, fieldNameMap := [], map[];
    }

    /** Appends a field to the layout and to the name table. */
    method AddField(field: Field, offset: Size)
      requires Valid() && |parsedFields| < |ty.fields|
      requires field == ty.fields[|parsedFields|] && offset == OffsetAt(start, ty.fields, |parsedFields|)
      modifies this
      ensures Valid()
      ensures parsedFields == old(parsedFields) + [ParsedField(field.name, field.ty, offset, None)]
    {
      parsedFields := parsedFields + [ParsedField(field.name, field.ty, offset, None)];
      fieldNameMap := fieldNameMap[field.name := |parsedFields| - 1];
    }

    /** Lays the fields out afresh and forgets all values; fails iff the type has no static size. */
    method ReparseObject() returns (r: Result<()>)
      requires Valid()
      modifies this
      ensures Valid() && Children() == {}
      ensures forall i :: 0 <= i < |parsedFields| ==> parsedFields[i].value == None
      ensures r == if StaticSize(ty).Some? then Ok(()) else Err(FieldsMustBeStatic)
      ensures r.Ok? ==> Complete()
    {
      parsedFields, fieldNameMap := [], map[];
      var offset := start;
      var fields := ty.fields;
      for i := 0 to |fields|
        invariant |parsedFields| == i && Valid()
        invariant forall j :: 0 <= j < i ==> parsedFields[j].value == None
        invariant offset == OffsetAt(start, fields, i)
        invariant forall j :: 0 <= j < i ==> StaticSize(fields[j].ty).Some?
      {
        var field := fields[i];
        AddField(field, offset);
        var size := StaticSize(field.ty);
        if size.None? {
          SizeIff(fields);
          return Err(FieldsMustBeStatic);
        }
        offset := Plus(offset, size.value);
      }
      SizeIff(fields);
      return Ok(());
    }

    /** Forgets every cached value and keeps the layout. */
    method ClearCache()
      requires Valid()
      modifies this`parsedFields
      ensures Valid() && Children() == {}
      ensures forall i :: 0 <= i < |parsedFields| ==> parsedFields[i].value == None
      ensures Complete() == old(Complete())
      ensures |parsedFields| == |old(parsedFields)|
    {
      for i := 0 to |parsedFields|
        invariant |parsedFields| == |old(parsedFields)| && Valid()
        invariant forall j :: 0 <= j < i ==> parsedFields[j].value == None
      {
        parsedFields := parsedFields[i := parsedFields[i].(value := None)];
      }
    }

    /**
      * Makes sure a field's value is cached, by a seek and a read if it is not. What is cached is
      * what the reader's bytes give; with a window in step these are the file's.
      */
    method EnsureField(index: nat) returns (r: Result<()>)
      requires LaidOut() && file.Usable()
      requires index < |parsedFields| && Readable(ty.fields[index].ty)
      modifies this`parsedFields, file, file.buffer, file.reader
      ensures LaidOut() && file.Usable()
      ensures old(Valid() && file.Coherent()) ==> Valid() && file.Coherent()
      ensures |parsedFields| == |old(parsedFields)|
      ensures r.Ok? ==> parsedFields[index].value.Some?
      ensures r.Err? ==> parsedFields == old(parsedFields)
      ensures forall i :: 0 <= i < |parsedFields| && i != index ==> parsedFields[i] == old(parsedFields)[i]
      ensures old(parsedFields[index].value.Some?) ==>
        r.Ok? && parsedFields == old(parsedFields) && unchanged(file, file.buffer, file.reader)
      ensures file.reader.faults == old(file.reader.faults) + if r == Err(IoError) then 1 else 0
      ensures old(file.Coherent()) && r.Err? ==>
        ReadAgrees(Err(r.kind), file, OffsetAt(start, ty.fields, index), ty.fields[index].ty)
      ensures old(parsedFields[index].value.None?) && ty.fields[index].ty.Integer? ==>
        CachedAs(r, index, old(file.StreamFrom(OffsetAt(start, ty.fields, index))))
      ensures old(Valid()) ==> forall c :: c in Children() - old(Children()) ==>
        fresh(c) && c.Valid() && c.Complete() && c.Children() == {} && c.file == file && c.ty == ty.fields[index].ty
    {
      var info := parsedFields[index];
      assert FieldLaidOut(info, index);
      if info.value.Some? {
        return Ok(());
      }
      var temp := ReadFrom(info.offset, info.ty, file);
      if temp.Err? {
        return Err(temp.kind);
      }
      parsedFields := parsedFields[index := info.(value := Some(temp.value))];
      return Ok(());
    }

    /** An integer that was not cached: the value of the stream's bytes is, or their error is returned. */
    ghost predicate CachedAs(r: Result<()>, index: nat, stream: seq<byte>)
      reads this
      requires LaidOut() && index < |parsedFields| && ty.fields[index].ty.Integer?
    {
      var t := ty.fields[index].ty;
      var decoded := DecodeBytes(stream, BitOffset(OffsetAt(start, ty.fields, index)), t);
      match r
      case Ok(_) => decoded.Ok? && parsedFields[index].value == Some(NumberValue(decoded.value))
      case Err(kind) => decoded == Err(kind) || (kind == IoError && !file.reader.reliable)
    }

    /** What was read is what the file has exactly if the stream's bytes decode as the file does. */
    lemma CacheRightIff(index: nat, stream: seq<byte>)
      requires LaidOut() && index < |parsedFields| && ty.fields[index].ty.Integer?
      requires forall i :: 0 <= i < |parsedFields| && i != index ==> FieldOk(parsedFields[i], i)
      requires CachedAs(Ok(()), index, stream)
      ensures var t, pos := ty.fields[index].ty, OffsetAt(start, ty.fields, index);
        Valid() <==> DecodeBytes(stream, BitOffset(pos), t) == DecodeInteger(file.reader.file, pos, t)
    {
      assert FieldLaidOut(parsedFields[index], index);
      assert Valid() <==> FieldOk(parsedFields[index], index);
    }

    /** A field's value; null for a name that is not a field. */
    method GetFieldValue(name: string) returns (r: Result<Value>)
      requires Valid() && file.Coherent() && Resolved(ty)
      modifies this`parsedFields, file, file.buffer, file.reader
      ensures Valid() && file.Coherent()
      ensures |parsedFields| == |old(parsedFields)|
      ensures fieldNameMap == old(fieldNameMap)
      ensures name in fieldNameMap ==> fieldNameMap[name] < |parsedFields|
      ensures name !in fieldNameMap ==> r == Ok(NullValue)
      ensures file.reader.faults == old(file.reader.faults) + if r == Err(IoError) then 1 else 0
      ensures name in fieldNameMap ==>
        var i := fieldNameMap[name];
        i < |ty.fields| && ReadAgrees(r, file, OffsetAt(start, ty.fields, i), ty.fields[i].ty)
      ensures forall i :: 0 <= i < |parsedFields| && (name in fieldNameMap ==> i != fieldNameMap[name]) ==>
        parsedFields[i] == old(parsedFields)[i]
      ensures name in fieldNameMap && old(parsedFields)[fieldNameMap[name]].value.Some? ==>
        r == Ok(old(parsedFields)[fieldNameMap[name]].value.value) && unchanged(file, file.buffer, file.reader)
      ensures r.Ok? && name in fieldNameMap ==> parsedFields[fieldNameMap[name]].value == Some(r.value)
      ensures r.Ok? && r.value.ObjectValue? ==> r.value.obj in Children()
      ensures forall c :: c in Children() - old(Children()) ==>
        fresh(c) && c.Valid() && c.Complete() && c.Children() == {} && c.file == file && Resolved(c.ty)
    {
      NameMapSpec(ty.fields, |parsedFields|, name);
      if name !in fieldNameMap {
        return Ok(NullValue);
      }
      var index := fieldNameMap[name];
      assert Resolved(ty.fields[index].ty);
      var ensured := EnsureField(index);
      if ensured.Err? {
        return Err(ensured.kind);
      }
      assert FieldOk(parsedFields[index], index);
      return Ok(parsedFields[index].value.value);
    }
  }

  /** Reads a value of any type at the reader's position and moves past it. */
  method ReadValue(t: Type, reader: BufferedFileReader) returns (r: Result<Value>)
    requires reader.Usable() && Readable(t)
    modifies reader, reader.buffer, reader.reader
    ensures reader.Usable() && (old(reader.Ready()) ==> reader.Coherent())
    ensures old(reader.Ready()) || t.Definition? ==> ReadAgrees(r, reader, old(reader.Position()), t)
    ensures reader.reader.faults == old(reader.reader.faults) + if r == Err(IoError) then 1 else 0
    ensures t.Integer? && r.Ok? ==> r.value.NumberValue?
    ensures t.Integer? ==>
      ReadsAs(NumberOf(r), old(reader.Stream()), BitOffset(old(reader.Position())), t, reader.reader.reliable)
    ensures r.Ok? ==> StaticSize(t).Some? && reader.Position() == Plus(old(reader.Position()), StaticSize(t).value)
    ensures r.Ok? && r.value.ObjectValue? ==>
      var c := r.value.obj;
      fresh(c) && c.Valid() && c.Complete() && c.Children() == {} && c.file == reader && c.ty == t
  {
    if t.Integer? {
      var n := ReadInteger(t, reader);
      match n {
        case Ok(number) => return Ok(NumberValue(number));
        case Err(kind) => return Err(kind);
      }
    }
    var obj;
    r, obj := ReadDefinition(t, reader);
  }

  /** The two calls of `EnsureField`: a seek, and a read from there. */
  method ReadFrom(position: Size, t: Type, reader: BufferedFileReader) returns (r: Result<Value>)
    requires reader.Usable() && Readable(t)
    modifies reader, reader.buffer, reader.reader
    ensures reader.Usable() && (old(reader.Coherent()) ==> reader.Coherent())
    ensures old(reader.Coherent()) ==> ReadAgrees(r, reader, position, t)
    ensures reader.reader.faults == old(reader.reader.faults) + if r == Err(IoError) then 1 else 0
    ensures t.Integer? && r.Ok? ==> r.value.NumberValue?
    ensures t.Integer? ==>
      ReadsAs(NumberOf(r), old(reader.StreamFrom(position)), BitOffset(position), t, reader.reader.reliable)
    ensures t.Definition? ==> ReadAgrees(r, reader, position, t)
    ensures r.Ok? && r.value.ObjectValue? ==>
      var c := r.value.obj;
      fresh(c) && c.Valid() && c.Complete() && c.Children() == {} && c.file == reader && c.ty == t
  {
    var sought := reader.Seek(position);
    if !sought {
      return Err(IoError);
    }
    r := ReadValue(t, reader);
  }

  function NumberOf(r: Result<Value>): Result<Number>
    requires r.Ok? ==> r.value.NumberValue?
  {
    match r
    case Ok(v) => Ok(v.number)
    case Err(kind) => Err(kind)
  }

  /** `TypeDefinition::ReadValue`: lays out a new object and skips over it. */
  method ReadDefinition(t: Type, reader: BufferedFileReader) returns (r: Result<Value>, obj: FileObject)
    requires reader.Usable() && NoNullTypes(t)
    modifies reader, reader.reader
    ensures reader.Usable() && (old(reader.Coherent()) ==> reader.Coherent())
    ensures ReadAgrees(r, reader, old(reader.Position()), t)
    ensures reader.reader.faults == old(reader.reader.faults) + if r == Err(IoError) then 1 else 0
    ensures r.Ok? ==> r.value == ObjectValue(obj)
    ensures r.Ok? ==> reader.Position() == Plus(old(reader.Position()), StaticSize(t).value)
    ensures fresh(obj) && obj.Valid() && obj.Children() == {} && obj.file == reader && obj.ty == t
    ensures r.Ok? ==> obj.Complete()
  {
    var startPosition := reader.Position();
    obj := new FileObject(reader, t, startPosition);
    var parsed := obj.ReparseObject();
    if parsed.Err? {
      return Err(parsed.kind), obj;
    }
    var sought := reader.Seek(Plus(startPosition, StaticSize(t).value));
    if !sought {
      return Err(IoError), obj;
    }
    return Ok(ObjectValue(obj)), obj;
  }
}
