/** Types of a definition file, their static sizes and the layout of their fields. */
module Types {
  import opened Wrappers
  import opened Bits
  import opened Sizes
  import opened Options

  /** The widths for which the shifts of an integer read are defined. */
  type FieldSize = s: nat | 1 <= s <= 64 witness 8

  /** `Missing` is the null type of a field whose type name is not known. */
  datatype Type =
    | Integer(alias: string, size: FieldSize, sign: Signedness, order: ByteOrder)
    | Definition(name: string, fields: seq<Field>)
    | Missing

  datatype Field = Field(name: string, ty: Type)

  function AliasName(t: Type): string {
    match t
    case Integer(alias, _, _, _) => alias
    case Definition(name, _) => name
    case Missing => ""
  }

  /** The first type of the given name. */
  function TypeNamed(types: seq<Type>, name: string): Option<Type> {
    if types == [] then None
    else if AliasName(types[0]) == name then Some(types[0])
    else TypeNamed(types[1..], name)
  }

  ghost predicate FirstAt(types: seq<Type>, name: string, i: int) {
    0 <= i < |types| && AliasName(types[i]) == name && forall j :: 0 <= j < i ==> AliasName(types[j]) != name
  }

  lemma {:induction false} TypeNamedSpec(types: seq<Type>, name: string)
    ensures TypeNamed(types, name).None? ==> forall i :: 0 <= i < |types| ==> AliasName(types[i]) != name
    ensures TypeNamed(types, name).Some? ==>
      exists i :: FirstAt(types, name, i) && types[i] == TypeNamed(types, name).value
  {
    if types != [] && AliasName(types[0]) != name {
      TypeNamedSpec(types[1..], name);
      assert forall j :: 0 < j < |types| ==> types[j] == types[1..][j - 1];
      if TypeNamed(types, name).Some? {
        var i :| FirstAt(types[1..], name, i) && types[1..][i] == TypeNamed(types, name).value;
        assert FirstAt(types, name, i + 1);
      }
    } else if types != [] {
      assert FirstAt(types, name, 0);
    }
  }

  /** The options that a type declares valid; none for a definition. */
  function OptionTypes(t: Type): set<OptionType> {
    if t.Integer? then {SignednessOption, ByteOrderOption} else {}
  }

  /** A use of a type under some settings, which only an integer takes note of. */
  function Instantiate(t: Type, s: Settings): Type {
    match t
    case Integer(alias, size, sign, order) => Integer(alias, size, s.SignednessOr(sign), s.ByteOrderOr(order))
    case _ => t
  }

  function StaticSize(t: Type): Option<Size> {
    match t
    case Integer(_, size, _, _) => Some(size)
    case Definition(_, fields) => FieldsSize(fields)
    case Missing => None
  }

  function FieldsSize(fields: seq<Field>): Option<Size> {
    if fields == [] then Some(0)
    else
      match (FieldsSize(fields[..|fields| - 1]), StaticSize(fields[|fields| - 1].ty))
      case (Some(before), Some(last)) => Some(Plus(before, last))
      case _ => None
  }

  method CalculateSize(statements: seq<Field>) returns (size: Option<Size>)
    ensures size == FieldsSize(statements)
  {
    var total: Size := 0;
    for i := 0 to |statements|
      invariant FieldsSize(statements[..i]) == Some(total)
    {
      assert statements[..i + 1][..i] == statements[..i];
      var s := StaticSize(statements[i].ty);
      if s.None? {
        NoSizeStays(statements, i + 1);
        return None;
      }
      total := Plus(total, s.value);
    }
    assert statements[..|statements|] == statements;
    return Some(total);
  }

  lemma {:induction false} NoSizeStays(fields: seq<Field>, n: nat)
    requires n <= |fields| && FieldsSize(fields[..n]).None?
    ensures FieldsSize(fields).None?
    decreases |fields|
  {
    if n == |fields| {
      assert fields[..n] == fields;
    } else {
      assert fields[..|fields| - 1][..n] == fields[..n];
      NoSizeStays(fields[..|fields| - 1], n);
    }
  }

  /** A type has a static size exactly when every field's type has one. */
  lemma {:induction false} SizeIff(fields: seq<Field>)
    ensures FieldsSize(fields).Some? <==>
            forall i :: 0 <= i < |fields| ==> StaticSize(fields[i].ty).Some?
  {
    if fields != [] {
      SizeIff(fields[..|fields| - 1]);
    }
  }

  /** Where field `i` starts, by the running sum of the reparse loop. */
  function OffsetAt(start: Size, fields: seq<Field>, i: nat): Size
    requires i <= |fields|
  {
    if i == 0 then start
    else Plus(OffsetAt(start, fields, i - 1), StaticSize(fields[i - 1].ty).GetOr(0))
  }

  /** The field after the last one starts where the whole type ends. */
  lemma {:induction false} OffsetsEnd(start: Size, fields: seq<Field>, i: nat)
    requires i <= |fields| && FieldsSize(fields[..i]).Some?
    ensures OffsetAt(start, fields, i) == Plus(start, FieldsSize(fields[..i]).value)
  {
    if i > 0 {
      assert fields[..i][..i - 1] == fields[..i - 1];
      OffsetsEnd(start, fields, i - 1);
    }
  }

  /** No field type is missing, however deep. */
  predicate Resolved(t: Type) {
    match t
    case Integer(_, _, _, _) => true
    case Definition(_, fields) => forall i :: 0 <= i < |fields| ==> Resolved(fields[i].ty)
    case Missing => false
  }

  lemma {:induction false} ResolvedIffSized(t: Type)
    ensures Resolved(t) <==> StaticSize(t).Some?
  {
    if t.Definition? {
      forall i | 0 <= i < |t.fields|
        ensures Resolved(t.fields[i].ty) <==> StaticSize(t.fields[i].ty).Some?
      {
        ResolvedIffSized(t.fields[i].ty);
      }
      SizeIff(t.fields);
    }
  }

  /** The size in bits without a bound, which the static size keeps only modulo 2^64. */
  function TrueSize(t: Type): nat {
    match t
    case Integer(_, size, _, _) => size
    case Definition(_, fields) => TrueFieldsSize(fields)
    case Missing => 0
  }

  function TrueFieldsSize(fields: seq<Field>): nat {
    if fields == [] then 0
    else TrueFieldsSize(fields[..|fields| - 1]) + TrueSize(fields[|fields| - 1].ty)
  }

  lemma {:induction false} StaticSizeWraps(t: Type)
    requires Resolved(t)
    ensures StaticSize(t) == Some(TrueSize(t) % TWO_TO_64)
    decreases t, 1
  {
    if t.Definition? {
      FieldsSizeWraps(t.fields);
    }
  }

  lemma {:induction false} FieldsSizeWraps(fields: seq<Field>)
    requires forall i :: 0 <= i < |fields| ==> Resolved(fields[i].ty)
    ensures FieldsSize(fields) == Some(TrueFieldsSize(fields) % TWO_TO_64)
    decreases fields, 0
  {
    if fields != [] {
      var init, last := fields[..|fields| - 1], fields[|fields| - 1].ty;
      FieldsSizeWraps(init);
      StaticSizeWraps(last);
      SumWraps(TrueFieldsSize(init), TrueSize(last));
    }
  }

  /** A bit range of an integer somewhere inside a type. */
  datatype Range = Range(start: Size, size: FieldSize)

  /** The integers of a type placed at `pos`, in order, at the offsets the objects use. */
  function Leaves(pos: Size, t: Type): seq<Range>
    decreases t
  {
    match t
    case Integer(_, size, _, _) => [Range(pos, size)]
    case Definition(_, fields) => FieldLeaves(pos, fields, |fields|)
    case Missing => []
  }

  function FieldLeaves(pos: Size, fields: seq<Field>, n: nat): seq<Range>
    requires n <= |fields|
    decreases fields, n
  {
    if n == 0 then []
    else FieldLeaves(pos, fields, n - 1) + Leaves(OffsetAt(pos, fields, n - 1), fields[n - 1].ty)
  }

  /** The ranges follow one another from `from` to `to` with no gap and no overlap. */
  predicate Tiles(ranges: seq<Range>, from: nat, to: nat) {
    if ranges == [] then from == to
    else
      var last := ranges[|ranges| - 1];
      && last.start + last.size == to
      && Tiles(ranges[..|ranges| - 1], from, last.start)
  }

  lemma {:induction false} TilesConcat(a: seq<Range>, b: seq<Range>, from: nat, mid: nat, to: nat)
    requires Tiles(a, from, mid) && Tiles(b, mid, to)
    ensures Tiles(a + b, from, to)
  {
    if b == [] {
      assert a + b == a;
    } else {
      var n := |b| - 1;
      assert (a + b)[..|a + b| - 1] == a + b[..n];
      TilesConcat(a, b[..n], from, mid, b[n].start);
    }
  }

  function TotalSize(ranges: seq<Range>): nat {
    if ranges == [] then 0 else TotalSize(ranges[..|ranges| - 1]) + ranges[|ranges| - 1].size
  }

  lemma {:induction false} TilesTotal(ranges: seq<Range>, from: nat, to: nat)
    requires Tiles(ranges, from, to)
    ensures to == from + TotalSize(ranges)
  {
    if ranges != [] {
      TilesTotal(ranges[..|ranges| - 1], from, ranges[|ranges| - 1].start);
    }
  }

  lemma {:induction false} TotalConcat(a: seq<Range>, b: seq<Range>)
    ensures TotalSize(a + b) == TotalSize(a) + TotalSize(b)
  {
    if b == [] {
      assert a + b == a;
    } else {
      assert (a + b)[..|a + b| - 1] == a + b[..|b| - 1];
      TotalConcat(a, b[..|b| - 1]);
    }
  }

  lemma {:induction false} LeavesTotal(pos: Size, t: Type)
    ensures TotalSize(Leaves(pos, t)) == TrueSize(t)
    decreases t, 1, 0
  {
    match t
    case Integer(_, size, _, _) =>
      assert Leaves(pos, t)[..0] == [];
    case Definition(_, fields) =>
      FieldLeavesTotal(pos, fields, |fields|);
      assert fields[..|fields|] == fields;
    case Missing =>
  }

  lemma {:induction false} FieldLeavesTotal(pos: Size, fields: seq<Field>, n: nat)
    requires n <= |fields|
    ensures TotalSize(FieldLeaves(pos, fields, n)) == TrueFieldsSize(fields[..n])
    decreases fields, 0, n
  {
    if n > 0 {
      FieldLeavesTotal(pos, fields, n - 1);
      LeavesTotal(OffsetAt(pos, fields, n - 1), fields[n - 1].ty);
      TotalConcat(FieldLeaves(pos, fields, n - 1), Leaves(OffsetAt(pos, fields, n - 1), fields[n - 1].ty));
      assert fields[..n][..n - 1] == fields[..n - 1];
    }
  }

  lemma {:induction false} LeavesTile(pos: Size, t: Type)
    requires Resolved(t) && pos + TrueSize(t) < TWO_TO_64
    ensures Tiles(Leaves(pos, t), pos, pos + TrueSize(t))
    decreases t, 1, 0
  {
    match t
    case Integer(_, size, _, _) =>
      assert Leaves(pos, t)[..0] == [];
    case Definition(_, fields) =>
      assert fields[..|fields|] == fields;
      FieldLeavesTile(pos, fields, |fields|);
  }

  lemma {:induction false} FieldLeavesTile(pos: Size, fields: seq<Field>, n: nat)
    requires n <= |fields| && forall i :: 0 <= i < |fields| ==> Resolved(fields[i].ty)
    requires pos + TrueFieldsSize(fields[..n]) < TWO_TO_64
    ensures Tiles(FieldLeaves(pos, fields, n), pos, pos + TrueFieldsSize(fields[..n]))
    ensures OffsetAt(pos, fields, n) == pos + TrueFieldsSize(fields[..n])
    decreases fields, 0, n
  {
    if n > 0 {
      assert fields[..n][..n - 1] == fields[..n - 1];
      FieldLeavesTile(pos, fields, n - 1);
      var mid := OffsetAt(pos, fields, n - 1);
      LeavesTile(mid, fields[n - 1].ty);
      StaticSizeWraps(fields[n - 1].ty);
      TilesConcat(FieldLeaves(pos, fields, n - 1), Leaves(mid, fields[n - 1].ty),
                  pos, mid, pos + TrueFieldsSize(fields[..n]));
    }
  }

  /**
    * A type's integers tile its range, from its position to that plus its static size, exactly
    * when the range does not run past 2^64 bits.
    */
  lemma {:induction false} TilesIff(pos: Size, t: Type)
    requires Resolved(t)
    ensures StaticSize(t).Some?
    ensures Tiles(Leaves(pos, t), pos, Plus(pos, StaticSize(t).value)) <==> pos + TrueSize(t) < TWO_TO_64
  {
    StaticSizeWraps(t);
    var end := Plus(pos, StaticSize(t).value);
    if pos + TrueSize(t) < TWO_TO_64 {
      LeavesTile(pos, t);
    } else if Tiles(Leaves(pos, t), pos, end) {
      TilesTotal(Leaves(pos, t), pos, end);
      LeavesTotal(pos, t);
      assert false;
    }
  }
}
