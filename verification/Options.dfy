/** Option values of a type, and the table that gives them their names. */
module Options {
  import opened Wrappers

  datatype OptionType = UnknownOption | SignednessOption | ByteOrderOption
  datatype Signedness = SignUnset | Signed | Unsigned
  datatype ByteOrder = OrderUnset | LittleEndian | BigEndian

  /** A parsed option value: `std::any` over the enums the table holds. */
  datatype OptionValue = SignValue(sign: Signedness) | OrderValue(order: ByteOrder)

  datatype OptionRow = OptionRow(ty: OptionType, values: seq<(string, OptionValue)>)

  const OPTION_DATA: seq<OptionRow> := [
    OptionRow(SignednessOption, [("signed", SignValue(Signed)), ("unsigned", SignValue(Unsigned))]),
    OptionRow(ByteOrderOption, [("big", OrderValue(BigEndian)), ("network", OrderValue(BigEndian)),
                                ("little", OrderValue(LittleEndian))])
  ]

  datatype ParseResult = Success | InvalidValueType | UnknownString | Ambiguous

  function GetOptionType(name: string): OptionType {
    if name == "signedness" then SignednessOption
    else if name == "byte_order" || name == "order" then ByteOrderOption
    else UnknownOption
  }

  /** The values an `Options` object holds. */
  datatype Settings = Settings(signedness: Signedness, byteOrder: ByteOrder) {
    /** A set option wins over the given default; an unset one leaves it. */
    function SignednessOr(default: Signedness): Signedness {
      if signedness == SignUnset then default else signedness
    }

    function ByteOrderOr(default: ByteOrder): ByteOrder {
      if byteOrder == OrderUnset then default else byteOrder
    }

    function Get(ty: OptionType): Option<OptionValue> {
      match ty
      case SignednessOption => Some(SignValue(signedness))
      case ByteOrderOption => Some(OrderValue(byteOrder))
      case UnknownOption => None
    }

    function Put(ty: OptionType, value: OptionValue): Settings
      requires HasKind(ty, value)
    {
      match value
      case SignValue(v) => this.(signedness := v)
      case OrderValue(v) => this.(byteOrder := v)
    }
  }

  const UNSET := Settings(SignUnset, OrderUnset)

  /** The value has the type that the option holds. */
  predicate HasKind(ty: OptionType, value: OptionValue) {
    match ty
    case SignednessOption => value.SignValue?
    case ByteOrderOption => value.OrderValue?
    case UnknownOption => false
  }

  class OptionsObject {
    var signedness: Signedness
    var byteOrder: ByteOrder

    constructor ()
      ensures Values() == UNSET
    {
      signedness, byteOrder := SignUnset, OrderUnset;
    }

    function Values(): Settings
      reads this
    {
      Settings(signedness, byteOrder)
    }

    method SetOption(ty: OptionType, value: OptionValue) returns (ok: bool)
      modifies this
      ensures ok == HasKind(ty, value)
      ensures Values() == if ok then old(Values()).Put(ty, value) else old(Values())
    {
      match ty {
        case SignednessOption =>
          if value.SignValue? {
            signedness := value.sign;
            return true;
          }
          return false;
        case ByteOrderOption =>
          if value.OrderValue? {
            byteOrder := value.order;
            return true;
          }
          return false;
        case UnknownOption =>
          return false;
      }
    }
  }

  /** The value under the first entry of the given name. */
  function FirstNamed(values: seq<(string, OptionValue)>, name: string): Option<OptionValue> {
    if values == [] then None
    else if values[0].0 == name then Some(values[0].1)
    else FirstNamed(values[1..], name)
  }

  lemma {:induction false} FirstNamedIsNamed(values: seq<(string, OptionValue)>, name: string)
    ensures FirstNamed(values, name).Some? <==> exists i :: 0 <= i < |values| && values[i].0 == name
    ensures FirstNamed(values, name).Some? ==>
      exists i :: 0 <= i < |values| && values[i] == (name, FirstNamed(values, name).value)
  {
    if values != [] && values[0].0 != name {
      FirstNamedIsNamed(values[1..], name);
      if i: int :| 0 <= i < |values| && values[i].0 == name {
        assert values[1..][i - 1].0 == name;
      }
      if FirstNamed(values, name).Some? {
        var i :| 0 <= i < |values[1..]| && values[1..][i] == (name, FirstNamed(values, name).value);
        assert values[i + 1] == (name, FirstNamed(values, name).value);
      }
    } else if values != [] {
      assert values[0] == (name, FirstNamed(values, name).value);
    }
  }

  predicate Allowed(types: set<OptionType>, row: OptionRow) {
    types == {} || row.ty in types
  }

  /** One row's meaning of a name, if its type is allowed. */
  function RowHit(row: OptionRow, types: set<OptionType>, name: string): seq<(OptionType, OptionValue)> {
    if Allowed(types, row) && FirstNamed(row.values, name).Some?
    then [(row.ty, FirstNamed(row.values, name).value)] else []
  }

  /** Every meaning of a name among the allowed types, in table order. */
  function Hits(table: seq<OptionRow>, types: set<OptionType>, name: string): seq<(OptionType, OptionValue)> {
    if table == [] then []
    else Hits(table[..|table| - 1], types, name) + RowHit(table[|table| - 1], types, name)
  }

  lemma {:induction false} HitsOfPrefix(table: seq<OptionRow>, n: nat, types: set<OptionType>, name: string)
    requires n <= |table|
    ensures |Hits(table[..n], types, name)| <= |Hits(table, types, name)|
    decreases |table|
  {
    if n == |table| {
      assert table[..n] == table;
    } else {
      var init := table[..|table| - 1];
      assert init[..n] == table[..n];
      HitsOfPrefix(init, n, types, name);
    }
  }

  /** A value parses when exactly one allowed type gives its name a meaning. */
  method ParseOption(table: seq<OptionRow>, types: set<OptionType>, value: Option<string>)
    returns (r: ParseResult, ty: OptionType, parsed: OptionValue)
    ensures r == InvalidValueType <==> value.None?
    ensures value.Some? ==>
      && (r == UnknownString <==> |Hits(table, types, value.value)| == 0)
      && (r == Success <==> |Hits(table, types, value.value)| == 1)
      && (r == Ambiguous <==> |Hits(table, types, value.value)| > 1)
    ensures r == Success ==> (ty, parsed) == Hits(table, types, value.value)[0]
  {
    ty, parsed := UnknownOption, SignValue(SignUnset);
    if value.None? {
      return InvalidValueType, ty, parsed;
    }
    var name := value.value;
    var found := false;
    for i := 0 to |table|
      invariant found == (|Hits(table[..i], types, name)| == 1)
      invariant |Hits(table[..i], types, name)| <= 1
      invariant found ==> (ty, parsed) == Hits(table[..i], types, name)[0]
    {
      var row := table[i];
      assert table[..i + 1][..i] == table[..i];
      if Allowed(types, row) {
        var hit := FindNamed(row.values, name);
        if hit.Some? {
          if found {
            HitsOfPrefix(table, i + 1, types, name);
            return Ambiguous, ty, parsed;
          }
          ty, parsed, found := row.ty, hit.value, true;
        }
      }
    }
    assert table[..|table|] == table;
    r := if found then Success else UnknownString;
  }

  /** The inner loop of `ParseOption`. */
  method FindNamed(values: seq<(string, OptionValue)>, name: string) returns (r: Option<OptionValue>)
    ensures r == FirstNamed(values, name)
  {
    for i := 0 to |values|
      invariant FirstNamed(values, name) == FirstNamed(values[i..], name)
    {
      assert values[i..][1..] == values[i + 1..];
      if values[i].0 == name {
        return Some(values[i].1);
      }
    }
    r := None;
  }

  /** Naming the option type settles it: a table with one row a type is never ambiguous then. */
  lemma {:induction false} OneTypeIsUnambiguous(table: seq<OptionRow>, ty: OptionType, name: string)
    requires forall i, j :: 0 <= i < j < |table| ==> table[i].ty != table[j].ty
    ensures |Hits(table, {ty}, name)| <= 1
    ensures |Hits(table, {ty}, name)| == 1 ==> exists i :: 0 <= i < |table| && table[i].ty == ty
  {
    if table != [] {
      var n := |table| - 1;
      OneTypeIsUnambiguous(table[..n], ty, name);
      if |Hits(table[..n], {ty}, name)| == 1 {
        var i :| 0 <= i < n && table[..n][i].ty == ty;
        assert table[i].ty == ty;
      }
    }
  }

  /** No name of the real table is shared by two types, and every value has its row's type. */
  lemma OptionDataIsSound(types: set<OptionType>, name: string)
    ensures |Hits(OPTION_DATA, types, name)| <= 1
    ensures |Hits(OPTION_DATA, types, name)| == 1 ==>
      HasKind(Hits(OPTION_DATA, types, name)[0].0, Hits(OPTION_DATA, types, name)[0].1)
  {
    assert OPTION_DATA[..1] == [OPTION_DATA[0]] && OPTION_DATA[..1][..0] == [];
    assert Hits(OPTION_DATA[..1], types, name) == RowHit(OPTION_DATA[0], types, name);
    assert Hits(OPTION_DATA, types, name) == RowHit(OPTION_DATA[0], types, name) + RowHit(OPTION_DATA[1], types, name);
    FirstNamedIsNamed(OPTION_DATA[0].values, name);
    FirstNamedIsNamed(OPTION_DATA[1].values, name);
    assert "signed"[0] == 's' && "unsigned"[0] == 'u' && "big"[0] == 'b' && "network"[0] == 'n' && "little"[0] == 'l';
  }
}
