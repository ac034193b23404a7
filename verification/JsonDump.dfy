/** Dumping a parsed file, which reads its fields one after the other while it writes. */
module JsonDump {
  import opened Errors
  import opened FileSystem
  import opened Types
  import opened Buffered
  import opened Objects
  import opened Trees
  import opened Session
  import opened JsonText

  class OutputStream {
    var text: string

    constructor ()
      ensures text == ""
    {
      text := "";
    }

    method Write(s: string)
      modifies this
      ensures text == old(text) + s
    {
      text := text + s;
    }
  }

  predicate DistinctNames(members: seq<(string, Doc)>) {
    forall i, j :: 0 <= i < j < |members| ==> members[i].0 != members[j].0
  }

  /**
    * A document shows a tree: the same members in any order, each with its own value. Where
    * reads may fail, a null may stand for any value.
    */
  ghost predicate Shows(d: Doc, tree: Tree, faulty: bool) {
    match d
    case DocNull => faulty || tree == NullTree
    case DocNumber(v) => tree == NumberTree(v)
    case DocObject(members) =>
      && tree.ObjectTree?
      && DistinctNames(members)
      && (forall name :: name in tree.fields ==> exists i :: 0 <= i < |members| && members[i].0 == name)
      && forall i :: 0 <= i < |members| ==>
           && members[i].0 in tree.fields
           && Shows(members[i].1, tree.fields[members[i].0], faulty)
  }

  /** A document without faults shows one tree only. */
  lemma {:induction false} ShowsOne(d: Doc, a: Tree, b: Tree)
    requires Shows(d, a, false) && Shows(d, b, false)
    ensures a == b
    decreases d
  {
    if d.DocObject? {
      forall i | 0 <= i < |d.members|
        ensures a.fields[d.members[i].0] == b.fields[d.members[i].0]
      {
        ShowsOne(d.members[i].1, a.fields[d.members[i].0], b.fields[d.members[i].0]);
      }
      forall name
        ensures name in a.fields <==> name in b.fields
        ensures name in a.fields ==> a.fields[name] == b.fields[name]
      {
      }
      assert a.fields == b.fields;
    }
  }

  /** What may show a tree without faults may show it with some. */
  lemma {:induction false} ShowsMore(d: Doc, tree: Tree, faulty: bool, more: bool)
    requires Shows(d, tree, faulty) && (faulty ==> more)
    ensures Shows(d, tree, more)
    decreases d
  {
    if d.DocObject? {
      forall i | 0 <= i < |d.members|
        ensures Shows(d.members[i].1, tree.fields[d.members[i].0], more)
      {
        ShowsMore(d.members[i].1, tree.fields[d.members[i].0], faulty, more);
      }
    }
  }

  ghost predicate ListsOnce(names: seq<string>, keys: set<string>) {
    && (forall name :: name in names <==> name in keys)
    && forall i, j :: 0 <= i < j < |names| ==> names[i] != names[j]
  }

  /** The names of all fields, in no particular order. */
  method GetFieldNames(obj: FileObject) returns (names: seq<string>)
    ensures ListsOnce(names, obj.fieldNameMap.Keys)
  {
    names := [];
    var left := obj.fieldNameMap.Keys;
    while left != {}
      invariant forall name :: name in obj.fieldNameMap <==> name in left || name in names
      invariant forall name :: name in names ==> name !in left
      invariant forall i, j :: 0 <= i < j < |names| ==> names[i] != names[j]
      decreases left
    {
      var name :| name in left;
      names := names + [name];
      left := left - {name};
    }
  }

  /** What a dump may change and must keep. */
  ghost predicate World(file: BufferedFileReader, pool: set<FileObject>)
    reads file, file.buffer, file.reader, pool
  {
    file.Coherent() && Pool(pool, file)
  }

  /** Calls of the reader may have failed since, if it may fail at all. */
  ghost predicate FaultsGrow(reader: FileReader, before: nat)
    reads reader
  {
    before <= reader.faults && (reader.reliable ==> reader.faults == before)
  }

  method DumpJsonValue(os: OutputStream, opts: JsonOptions, value: Value, indent: nat, ghost t: Type,
                       file: BufferedFileReader, ghost pool: set<FileObject>)
    returns (ghost doc: Doc, ghost pool': set<FileObject>)
    requires World(file, pool)
    requires value.ObjectValue? ==> value.obj in pool && value.obj.ty == t
    modifies os, pool, file, file.buffer, file.reader
    ensures pool <= pool' && fresh(pool' - pool) && World(file, pool')
    ensures FaultsGrow(file.reader, old(file.reader.faults))
    ensures doc.DocObject? <==> value.ObjectValue?
    ensures os.text == old(os.text) + Render(doc, opts, indent)
    ensures Shows(doc, Meaning(value), file.reader.faults > old(file.reader.faults))
    decreases t, 5
  {
    pool' := pool;
    match value {
      case NullValue =>
        os.Write("null");
        doc := DocNull;
        assert Render(doc, opts, indent) == "null";
      case NumberValue(n) =>
        os.Write(Decimal(n.Value()));
        doc := DocNumber(n.Value());
        assert Render(doc, opts, indent) == Decimal(n.Value());
      case ObjectValue(obj) =>
        doc, pool' := DumpJsonObject(os, opts, obj, indent, file, pool);
    }
  }

  method DumpJsonObject(os: OutputStream, opts: JsonOptions, obj: FileObject, indent: nat,
                        file: BufferedFileReader, ghost pool: set<FileObject>)
    returns (ghost doc: Doc, ghost pool': set<FileObject>)
    requires World(file, pool) && obj in pool
    modifies os, pool, file, file.buffer, file.reader
    ensures pool <= pool' && fresh(pool' - pool) && World(file, pool')
    ensures FaultsGrow(file.reader, old(file.reader.faults))
    ensures doc.DocObject? && os.text == old(os.text) + Render(doc, opts, indent)
    ensures Shows(doc, Meaning(ObjectValue(obj)), file.reader.faults > old(file.reader.faults))
    decreases obj.ty, 4
  {
    os.Write("{");
    ghost var begun := os.text;
    var first;
    ghost var members;
    first, members, pool' := DumpFields(os, opts, obj, indent + opts.indent, file, pool);
    ghost var listed := os.text;
    WriteObjectEnd(os, opts, first, indent);
    doc := DocObject(members);
    TextOfObject(old(os.text), begun, listed, os.text, members, first, opts, indent);
  }

  /** What stands between the braces; `first` tells that it is nothing. */
  method DumpFields(os: OutputStream, opts: JsonOptions, obj: FileObject, indent: nat,
                    file: BufferedFileReader, ghost pool: set<FileObject>)
    returns (first: bool, ghost members: seq<(string, Doc)>, ghost pool': set<FileObject>)
    requires World(file, pool) && obj in pool
    modifies os, pool, file, file.buffer, file.reader
    ensures pool <= pool' && fresh(pool' - pool) && World(file, pool')
    ensures FaultsGrow(file.reader, old(file.reader.faults))
    ensures os.text == old(os.text) + Listed(members, opts, indent)
    ensures first <==> members == []
    ensures Shows(DocObject(members), Meaning(ObjectValue(obj)), file.reader.faults > old(file.reader.faults))
    decreases obj.ty, 3
  {
    assert Held(obj, file, pool);
    var names := GetFieldNames(obj);
    NamesOfTree(obj);
    members, pool' := DumpMembers(os, opts, obj, names, indent, Meaning(ObjectValue(obj)), file, pool);
    ShownObject(members, names, Meaning(ObjectValue(obj)), file.reader.faults > old(file.reader.faults));
    first := names == [];
  }

  /** The field loop. */
  method DumpMembers(os: OutputStream, opts: JsonOptions, obj: FileObject, names: seq<string>, indent: nat,
                     ghost tree: Tree, file: BufferedFileReader, ghost pool: set<FileObject>)
    returns (ghost members: seq<(string, Doc)>, ghost pool': set<FileObject>)
    requires World(file, pool) && obj in pool && obj.ty.Definition?
    requires tree == Meaning(ObjectValue(obj)) && ListsOnce(names, tree.fields.Keys)
    modifies os, pool, file, file.buffer, file.reader
    ensures pool <= pool' && fresh(pool' - pool) && World(file, pool')
    ensures FaultsGrow(file.reader, old(file.reader.faults))
    ensures |members| == |names| && AllShown(members, names, tree, file.reader.faults > old(file.reader.faults))
    ensures os.text == old(os.text) + Listed(members, opts, indent)
    decreases obj.ty, 2
  {
    pool', members := pool, [];
    var first := true;
    for i := 0 to |names|
      invariant pool <= pool' && fresh(pool' - pool) && World(file, pool')
      invariant FaultsGrow(file.reader, old(file.reader.faults))
      invariant first <==> i == 0
      invariant |members| == i && AllShown(members, names, tree, file.reader.faults > old(file.reader.faults))
      invariant os.text == old(os.text) + Listed(members, opts, indent)
    {
      ghost var m, before := ("", DocNull), file.reader.faults;
      m, pool' := DumpMember(os, opts, obj, names[i], first, indent, tree, file, pool');
      ShowsMore(m.1, tree.fields[m.0], file.reader.faults > before, file.reader.faults > old(file.reader.faults));
      AllShownMore(members, names, tree, before > old(file.reader.faults), file.reader.faults > old(file.reader.faults));
      MemberAdded(old(os.text), members, m, names, tree, file.reader.faults > old(file.reader.faults), opts, indent);
      members := members + [m];
      first := false;
    }
  }

  /** A member shows the field of its name. */
  ghost predicate Shown(m: (string, Doc), tree: Tree, faulty: bool) {
    tree.ObjectTree? && m.0 in tree.fields && Shows(m.1, tree.fields[m.0], faulty)
  }

  /** The names of an object that is laid out are those of its eager decoding. */
  lemma NamesOfTree(obj: FileObject)
    requires obj.Valid() && obj.Complete()
    ensures Meaning(ObjectValue(obj)).ObjectTree?
    ensures obj.fieldNameMap.Keys == Meaning(ObjectValue(obj)).fields.Keys
  {
    forall name
      ensures name in obj.fieldNameMap <==> name in Meaning(ObjectValue(obj)).fields
    {
      EagerFieldsSpec(obj.file.reader.file, obj.start, obj.ty.fields, |obj.ty.fields|, name);
    }
  }

  /** The first members, under the first names, all show their fields. */
  ghost predicate AllShown(members: seq<(string, Doc)>, names: seq<string>, tree: Tree, faulty: bool) {
    |members| <= |names| && forall j :: 0 <= j < |members| ==> members[j].0 == names[j] && Shown(members[j], tree, faulty)
  }

  lemma AllShownMore(members: seq<(string, Doc)>, names: seq<string>, tree: Tree, faulty: bool, more: bool)
    requires AllShown(members, names, tree, faulty) && (faulty ==> more)
    ensures AllShown(members, names, tree, more)
  {
    forall j | 0 <= j < |members|
      ensures Shown(members[j], tree, more)
    {
      assert Shown(members[j], tree, faulty);
      ShowsMore(members[j].1, tree.fields[members[j].0], faulty, more);
    }
  }

  function Listed(members: seq<(string, Doc)>, opts: JsonOptions, indent: nat): string {
    if members == [] then "" else Items(members, opts, indent)
  }

  function Listing(m: (string, Doc), first: bool, opts: JsonOptions, indent: nat): string {
    (if first then "" else ",") + Item(m, opts, indent)
  }

  lemma MemberAdded(before: string, members: seq<(string, Doc)>, m: (string, Doc), names: seq<string>, tree: Tree,
                    faulty: bool, opts: JsonOptions, indent: nat)
    requires AllShown(members, names, tree, faulty) && |members| < |names|
    requires m.0 == names[|members|] && Shown(m, tree, faulty)
    ensures AllShown(members + [m], names, tree, faulty)
    ensures before + Listed(members, opts, indent) + Listing(m, members == [], opts, indent)
            == before + Listed(members + [m], opts, indent)
  {
    if members == [] {
      assert [] + [m] == [m];
    } else {
      ItemsSnoc(members, m, opts, indent);
    }
  }

  lemma ShownObject(members: seq<(string, Doc)>, names: seq<string>, tree: Tree, faulty: bool)
    requires AllShown(members, names, tree, faulty) && |members| == |names|
    requires tree.ObjectTree? && ListsOnce(names, tree.fields.Keys)
    ensures Shows(DocObject(members), tree, faulty)
  {
    forall name | name in tree.fields
      ensures exists i :: 0 <= i < |members| && members[i].0 == name
    {
      var i :| 0 <= i < |names| && names[i] == name;
      assert members[i].0 == name;
    }
    assert forall i :: 0 <= i < |members| ==> Shown(members[i], tree, faulty);
  }

  function ObjectEnd(opts: JsonOptions, empty: bool, indent: nat): string {
    (if !empty && opts.pretty then "\n" + Spaces(indent) else "") + ("}" + if opts.pretty && indent == 0 then "\n" else "")
  }

  method WriteObjectEnd(os: OutputStream, opts: JsonOptions, first: bool, indent: nat)
    modifies os
    ensures os.text == old(os.text) + ObjectEnd(opts, first, indent)
  {
    if !first && opts.pretty {
      os.Write("\n" + Spaces(indent));
    }
    os.Write("}");
    if opts.pretty && indent == 0 {
      os.Write("\n");
    }
  }

  lemma TextOfObject(before: string, begun: string, listed: string, after: string, members: seq<(string, Doc)>,
                     empty: bool, opts: JsonOptions, indent: nat)
    requires begun == before + "{" && listed == begun + Listed(members, opts, indent + opts.indent)
    requires after == listed + ObjectEnd(opts, empty, indent) && (empty <==> members == [])
    ensures after == before + Render(DocObject(members), opts, indent)
  {
    var line := EndOfLine(DocObject(members), opts, indent);
    if members == [] {
      assert Render(DocObject(members), opts, indent) == "{" + "}" + line;
    } else {
      var items, gap := Items(members, opts, indent + opts.indent), Gap(opts, indent);
      assert "{" + items + gap + "}" + line == "{" + (items + (gap + ("}" + line)));
      assert before + "{" + items + (gap + ("}" + line)) == before + ("{" + (items + (gap + ("}" + line))));
    }
  }

  function KeyText(name: string, first: bool, opts: JsonOptions, indent: nat): string {
    (if first then "" else ",") + (if opts.pretty then "\n" + Spaces(indent) else "")
    + ("\"" + name + "\":" + if opts.pretty then " " else "")
  }

  /** The start of a member, up to its value. */
  method WriteKey(os: OutputStream, opts: JsonOptions, name: string, first: bool, indent: nat)
    modifies os
    ensures os.text == old(os.text) + KeyText(name, first, opts, indent)
  {
    if !first {
      os.Write(",");
    }
    if opts.pretty {
      os.Write("\n" + Spaces(indent));
    }
    os.Write("\"" + name + "\":");
    if opts.pretty {
      os.Write(" ");
    }
  }

  lemma TextOfItem(before: string, keyed: string, after: string, first: bool, m: (string, Doc), opts: JsonOptions,
                   indent: nat)
    requires keyed == before + KeyText(m.0, first, opts, indent) && after == keyed + Render(m.1, opts, indent)
    ensures after == before + Listing(m, first, opts, indent)
  {
    assert Key(m.0, opts) == "\"" + m.0 + "\":" + if opts.pretty then " " else "";
    Pieces(before, if first then "" else ",", Gap(opts, indent), Key(m.0, opts), Render(m.1, opts, indent));
  }

  lemma Pieces(before: string, comma: string, gap: string, key: string, value: string)
    ensures before + (comma + gap + key) + value == before + (comma + (gap + (key + value)))
  {
  }

  /** One turn of the field loop. */
  method DumpMember(os: OutputStream, opts: JsonOptions, obj: FileObject, name: string, first: bool, indent: nat,
                    ghost tree: Tree, file: BufferedFileReader, ghost pool: set<FileObject>)
    returns (ghost m: (string, Doc), ghost pool': set<FileObject>)
    requires World(file, pool) && obj in pool && obj.ty.Definition?
    requires tree == Meaning(ObjectValue(obj)) && name in tree.fields
    modifies os, pool, file, file.buffer, file.reader
    ensures pool <= pool' && fresh(pool' - pool) && World(file, pool')
    ensures FaultsGrow(file.reader, old(file.reader.faults))
    ensures m.0 == name && Shown(m, tree, file.reader.faults > old(file.reader.faults))
    ensures os.text == old(os.text) + Listing(m, first, opts, indent)
    decreases obj.ty, 1
  {
    WriteKey(os, opts, name, first, indent);
    ghost var keyed, doc := os.text, DocNull;
    doc, pool' := DumpField(os, opts, obj, name, indent, tree, file, pool);
    m := (name, doc);
    TextOfItem(old(os.text), keyed, os.text, first, m, opts, indent);
  }

  /** The value of a member. */
  method DumpField(os: OutputStream, opts: JsonOptions, obj: FileObject, name: string, indent: nat, ghost tree: Tree,
                   file: BufferedFileReader, ghost pool: set<FileObject>)
    returns (ghost doc: Doc, ghost pool': set<FileObject>)
    requires World(file, pool) && obj in pool && obj.ty.Definition?
    requires tree == Meaning(ObjectValue(obj)) && name in tree.fields
    modifies os, pool, file, file.buffer, file.reader
    ensures pool <= pool' && fresh(pool' - pool) && World(file, pool')
    ensures FaultsGrow(file.reader, old(file.reader.faults))
    ensures Shown((name, doc), tree, file.reader.faults > old(file.reader.faults))
    ensures os.text == old(os.text) + Render(doc, opts, indent)
    decreases obj.ty, 0
  {
    var value;
    ghost var t;
    value, t, pool' := FieldOrNull(obj, name, tree, file, pool);
    ghost var between := file.reader.faults;
    doc, pool' := DumpJsonValue(os, opts, value, indent, t, file, pool');
    ShowsMore(doc, Meaning(value), file.reader.faults > between, file.reader.faults > old(file.reader.faults));
    ShownField((name, doc), value, tree, file.reader.faults > old(file.reader.faults));
  }

  lemma ShownField(m: (string, Doc), value: Value, tree: Tree, faulty: bool)
    requires tree.ObjectTree? && m.0 in tree.fields
    requires Meaning(value) == tree.fields[m.0] || (value == NullValue && faulty)
    requires Shows(m.1, Meaning(value), faulty)
    ensures Shown(m, tree, faulty)
  {
  }

  /** `GetFieldValue` with errors left out: null for a field that cannot be read. */
  method FieldOrNull(obj: FileObject, name: string, ghost tree: Tree, file: BufferedFileReader,
                     ghost pool: set<FileObject>)
    returns (value: Value, ghost t: Type, ghost pool': set<FileObject>)
    requires World(file, pool) && obj in pool && obj.ty.Definition?
    requires tree == Meaning(ObjectValue(obj)) && name in tree.fields
    modifies pool, file, file.buffer, file.reader
    ensures pool <= pool' && fresh(pool' - pool) && World(file, pool')
    ensures FaultsGrow(file.reader, old(file.reader.faults))
    ensures value.ObjectValue? ==> value.obj in pool' && value.obj.ty == t
    ensures obj.ty decreases to t
    ensures Meaning(value) == tree.fields[name] || (value == NullValue && file.reader.faults > old(file.reader.faults))
  {
    assert Held(obj, file, pool);
    var answer;
    answer, pool' := AskField(obj, name, pool);
    AnswerMeaning(obj, name, answer);
    value := if answer.Ok? then answer.value else NullValue;
    EagerFieldsSpec(file.reader.file, obj.start, obj.ty.fields, |obj.ty.fields|, name);
    var i := NameMap(obj.ty.fields, |obj.ty.fields|)[name];
    t := obj.ty.fields[i].ty;
  }
}
