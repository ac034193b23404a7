/**
  * The JSON text that a dump writes, and a parser for the part of the grammar of RFC 8259
  * (sections 2 to 7) that dumps use, which reads every dump back.
  */
module JsonText {
  import opened Wrappers

  /** A document with its members in the order they are written. */
  datatype Doc = DocNull | DocNumber(value: int) | DocObject(members: seq<(string, Doc)>)

  datatype JsonOptions = JsonOptions(pretty: bool, indent: nat)

  function Spaces(n: nat): (r: string)
    ensures |r| == n && forall c :: c in r ==> c == ' '
  {
    seq(n, _ => ' ')
  }

  function DigitChar(d: nat): char
    requires d < 10
  {
    '0' + d as char
  }

  function Digits(n: nat): (r: string)
    ensures |r| > 0
  {
    if n < 10 then [DigitChar(n)] else Digits(n / 10) + [DigitChar(n % 10)]
  }

  function Decimal(v: int): string {
    if v < 0 then "-" + Digits(-v) else Digits(v)
  }

  /** A line break and an indentation, in a pretty dump. */
  function Gap(opts: JsonOptions, indent: nat): string {
    if opts.pretty then "\n" + Spaces(indent) else ""
  }

  /** The text of a value, with the line break that ends a pretty object at indentation 0. */
  function Render(d: Doc, opts: JsonOptions, indent: nat): string
    decreases d, 2
  {
    Body(d, opts, indent) + EndOfLine(d, opts, indent)
  }

  function EndOfLine(d: Doc, opts: JsonOptions, indent: nat): string {
    if d.DocObject? && opts.pretty && indent == 0 then "\n" else ""
  }

  function Body(d: Doc, opts: JsonOptions, indent: nat): string
    decreases d, 1
  {
    match d
    case DocNull => "null"
    case DocNumber(v) => Decimal(v)
    case DocObject(members) =>
      if members == [] then "{" + "}"
      else "{" + Items(members, opts, indent + opts.indent) + Gap(opts, indent) + "}"
  }

  /** Members with commas between them, each after a gap. */
  function Items(members: seq<(string, Doc)>, opts: JsonOptions, indent: nat): string
    requires members != []
    decreases members, 0
  {
    Item(members[0], opts, indent) +
    if |members| == 1 then "" else "," + Items(members[1..], opts, indent)
  }

  function Item(m: (string, Doc), opts: JsonOptions, indent: nat): string
    decreases m, 3
  {
    Gap(opts, indent) + (Key(m.0, opts) + Render(m.1, opts, indent))
  }

  function Key(name: string, opts: JsonOptions): string {
    "\"" + name + "\"" + ":" + if opts.pretty then " " else ""
  }

  /** Appending a member appends a comma and its text. */
  lemma {:induction false} ItemsSnoc(members: seq<(string, Doc)>, m: (string, Doc), opts: JsonOptions, indent: nat)
    requires members != []
    ensures Items(members + [m], opts, indent) == Items(members, opts, indent) + ("," + Item(m, opts, indent))
  {
    var all := members + [m];
    if |members| == 1 {
      assert all[1..] == [m];
    } else {
      assert all[1..] == members[1..] + [m];
      ItemsSnoc(members[1..], m, opts, indent);
    }
  }

  /** The characters that a string of section 7 may hold unescaped. */
  predicate NameChar(c: char) {
    c >= ' ' && c != '\"' && c != '\\'
  }

  predicate NameOk(name: string) {
    forall i :: 0 <= i < |name| ==> NameChar(name[i])
  }

  predicate NamesOk(d: Doc) {
    d.DocObject? ==> forall i :: 0 <= i < |d.members| ==> NameOk(d.members[i].0) && NamesOk(d.members[i].1)
  }

  predicate Ws(c: char) {
    c == ' ' || c == '\t' || c == '\n' || c == '\r'
  }

  function SkipWs(s: string): (r: string)
    ensures |r| <= |s|
  {
    if s != [] && Ws(s[0]) then SkipWs(s[1..]) else s
  }

  predicate IsDigit(c: char) {
    '0' <= c <= '9'
  }

  function DigitCount(s: string): (n: nat)
    ensures n <= |s|
    ensures forall i :: 0 <= i < n ==> IsDigit(s[i])
  {
    if s != [] && IsDigit(s[0]) then 1 + DigitCount(s[1..]) else 0
  }

  function DigitOf(c: char): nat
    requires IsDigit(c)
  {
    c as int - '0' as int
  }

  function DigitsValue(s: string): nat
    requires forall i :: 0 <= i < |s| ==> IsDigit(s[i])
  {
    if s == [] then 0
    else 10 * DigitsValue(s[..|s| - 1]) + DigitOf(s[|s| - 1])
  }

  /** An integer of section 6; a fraction or an exponent is not part of the subset. */
  function ParseNumber(s: string): (r: Option<(Doc, string)>)
    ensures r.Some? ==> |r.value.1| < |s|
  {
    var negative := s != [] && s[0] == '-';
    var u := if negative then s[1..] else s;
    var n := DigitCount(u);
    if n == 0 || (n > 1 && u[0] == '0') || (n < |u| && u[n] in ".eE") then None
    else
      var v: int := DigitsValue(u[..n]);
      Some((DocNumber(if negative then -v else v), u[n..]))
  }

  function NameLength(s: string): (n: nat)
    ensures n <= |s|
  {
    if s != [] && NameChar(s[0]) then 1 + NameLength(s[1..]) else 0
  }

  /** A value of section 3, after any white space. */
  function ParseValue(s: string): (r: Option<(Doc, string)>)
    ensures r.Some? ==> |r.value.1| < |s|
    decreases |s|, 0
  {
    var t := SkipWs(s);
    if |t| >= 4 && t[..4] == "null" then Some((DocNull, t[4..]))
    else if t != [] && t[0] == '{' then
      var u := SkipWs(t[1..]);
      if u != [] && u[0] == '}' then Some((DocObject([]), u[1..]))
      else
        match ParseMembers(t[1..])
        case Some((members, rest)) => Some((DocObject(members), rest))
        case None => None
    else ParseNumber(t)
  }

  /** The members of an object of section 4, up to and with the closing brace. */
  function ParseMembers(s: string): (r: Option<(seq<(string, Doc)>, string)>)
    ensures r.Some? ==> |r.value.1| < |s|
    decreases |s|, 2
  {
    match ParsePair(s)
    case None => None
    case Some((m, rest)) =>
      var t := SkipWs(rest);
      if t != [] && t[0] == '}' then Some(([m], t[1..]))
      else if t != [] && t[0] == ',' then
        match ParseMembers(t[1..])
        case Some((members, end)) => Some(([m] + members, end))
        case None => None
      else None
  }

  function ParsePair(s: string): (r: Option<((string, Doc), string)>)
    ensures r.Some? ==> |r.value.1| < |s|
    decreases |s|, 1
  {
    var t := SkipWs(s);
    if t == [] || t[0] != '\"' then None
    else
      var n := NameLength(t[1..]);
      var after := t[1 + n..];
      if after == [] || after[0] != '\"' then None
      else
        var colon := SkipWs(after[1..]);
        if colon == [] || colon[0] != ':' then None
        else
          match ParseValue(colon[1..])
          case Some((d, rest)) => Some(((t[1..1 + n], d), rest))
          case None => None
  }

  /** A whole text: one value with white space around it. */
  function ParseText(s: string): Option<Doc> {
    match ParseValue(s)
    case Some((d, rest)) => if SkipWs(rest) == [] then Some(d) else None
    case None => None
  }

  lemma {:induction false} SkipWsOver(w: string, t: string)
    requires forall i :: 0 <= i < |w| ==> Ws(w[i])
    ensures SkipWs(w + t) == SkipWs(t)
  {
    if w == [] {
      assert w + t == t;
    } else {
      assert (w + t)[0] == w[0] && (w + t)[1..] == w[1..] + t;
      SkipWsOver(w[1..], t);
    }
  }

  lemma {:induction false} SkipGap(opts: JsonOptions, indent: nat, t: string)
    ensures SkipWs(Gap(opts, indent) + t) == SkipWs(t)
  {
    SkipWsOver(Gap(opts, indent), t);
  }

  lemma {:induction false} NameLengthOver(name: string, t: string)
    requires NameOk(name) && t != [] && !NameChar(t[0])
    ensures NameLength(name + t) == |name|
  {
    if name == [] {
      assert name + t == t;
    } else {
      assert (name + t)[0] == name[0] && (name + t)[1..] == name[1..] + t;
      NameLengthOver(name[1..], t);
    }
  }

  lemma {:induction false} DigitCountOver(ds: string, t: string)
    requires forall i :: 0 <= i < |ds| ==> IsDigit(ds[i])
    requires t == [] || !IsDigit(t[0])
    ensures DigitCount(ds + t) == |ds|
  {
    if ds == [] {
      assert ds + t == t;
    } else {
      assert (ds + t)[0] == ds[0] && (ds + t)[1..] == ds[1..] + t;
      DigitCountOver(ds[1..], t);
    }
  }

  /** The digits of a number read back as it, with no leading zero. */
  lemma {:induction false} DigitsRoundTrip(n: nat)
    ensures forall i :: 0 <= i < |Digits(n)| ==> IsDigit(Digits(n)[i])
    ensures DigitsValue(Digits(n)) == n
    ensures |Digits(n)| > 1 ==> Digits(n)[0] != '0'
    ensures n > 0 ==> Digits(n)[0] != '0'
  {
    if n >= 10 {
      DigitsRoundTrip(n / 10);
      var init := Digits(n / 10);
      assert Digits(n)[..|Digits(n)| - 1] == init;
    }
  }

  /** What may follow a number without becoming part of it. */
  predicate Delimited(rest: string) {
    rest == [] || !(IsDigit(rest[0]) || rest[0] in ".eE")
  }

  lemma {:induction false} NumberRoundTrip(v: int, rest: string)
    requires Delimited(rest)
    ensures ParseNumber(Decimal(v) + rest) == Some((DocNumber(v), rest))
    ensures Decimal(v)[0] == '-' || IsDigit(Decimal(v)[0])
  {
    var m := if v < 0 then -v else v;
    DigitsRoundTrip(m);
    DigitCountOver(Digits(m), rest);
    var u := Digits(m) + rest;
    assert u[..|Digits(m)|] == Digits(m) && u[|Digits(m)|..] == rest;
    assert u[0] == Digits(m)[0];
    if v < 0 {
      assert Decimal(v) + rest == "-" + u;
      assert ("-" + u)[1..] == u;
    }
  }

  /** Steps of the parser, one for each rule it applies. */
  lemma {:induction false} PairStep(s: string, name: string, value: string, d: Doc, rest: string)
    requires SkipWs(s) == "\"" + (name + ("\"" + (":" + value)))
    requires NameOk(name) && ParseValue(value) == Some((d, rest))
    ensures ParsePair(s) == Some(((name, d), rest))
  {
    var colon := ":" + value;
    var after := "\"" + colon;
    var named := name + after;
    var t := "\"" + named;
    assert t[1..] == named;
    NameLengthOver(name, after);
    assert t[1 + |name|..] == after && t[1..1 + |name|] == name;
    assert after[1..] == colon && colon[1..] == value;
  }

  lemma {:induction false} LastMemberStep(s: string, m: (string, Doc), after: string, rest: string)
    requires ParsePair(s) == Some((m, after)) && SkipWs(after) == "}" + rest
    ensures ParseMembers(s) == Some(([m], rest))
  {
    assert ("}" + rest)[1..] == rest;
  }

  lemma {:induction false} MoreMembersStep(s: string, m: (string, Doc), after: string, more: string,
                                           members: seq<(string, Doc)>, rest: string)
    requires ParsePair(s) == Some((m, after)) && SkipWs(after) == "," + more
    requires ParseMembers(more) == Some((members, rest))
    ensures ParseMembers(s) == Some(([m] + members, rest))
  {
    assert ("," + more)[1..] == more;
  }

  lemma {:induction false} ObjectStep(text: string, members: seq<(string, Doc)>, rest: string)
    requires SkipWs(text) != [] && SkipWs(text)[0] != '}'
    requires ParseMembers(text) == Some((members, rest))
    ensures ParseValue("{" + text) == Some((DocObject(members), rest))
  {
    var s := "{" + text;
    assert s[0] == '{' && s[1..] == text;
    assert |s| >= 4 ==> s[..4][0] == '{';
  }

  lemma {:induction false} EmptyObjectStep(rest: string)
    ensures ParseValue("{" + ("}" + rest)) == Some((DocObject([]), rest))
  {
    var s := "{" + ("}" + rest);
    assert s[0] == '{' && s[1..] == "}" + rest && ("}" + rest)[1..] == rest;
    assert |s| >= 4 ==> s[..4][0] == '{';
  }

  lemma {:induction false} NumberStep(v: int, rest: string)
    requires Delimited(rest)
    ensures ParseValue(Decimal(v) + rest) == Some((DocNumber(v), rest))
  {
    NumberRoundTrip(v, rest);
    var s := Decimal(v) + rest;
    assert s[0] == Decimal(v)[0];
    assert |s| >= 4 ==> s[..4][0] == s[0];
  }

  lemma {:induction false} NullStep(rest: string)
    ensures ParseValue("null" + rest) == Some((DocNull, rest))
  {
    var s := "null" + rest;
    assert s[0] == 'n' && s[..4] == "null" && s[4..] == rest;
  }

  /** The text of a member, piece by piece. */
  lemma {:induction false} ItemPieces(m: (string, Doc), opts: JsonOptions, indent: nat, rest: string)
    ensures Item(m, opts, indent) + rest ==
            Gap(opts, indent) + ("\"" + (m.0 + ("\"" + (":" +
              ((if opts.pretty then " " else "") + (Body(m.1, opts, indent) + (EndOfLine(m.1, opts, indent) + rest)))))))
  {
  }

  lemma {:induction false} ItemsPieces(members: seq<(string, Doc)>, opts: JsonOptions, indent: nat, rest: string)
    requires members != []
    ensures Items(members, opts, indent) + rest ==
            Item(members[0], opts, indent) +
            if |members| == 1 then rest else "," + (Items(members[1..], opts, indent) + rest)
  {
  }

  lemma {:induction false} ObjectPieces(members: seq<(string, Doc)>, opts: JsonOptions, indent: nat, rest: string)
    requires members != []
    ensures Body(DocObject(members), opts, indent) + rest ==
            "{" + (Items(members, opts, indent + opts.indent) + (Gap(opts, indent) + ("}" + rest)))
  {
  }

  /** Every value that is written reads back, whatever delimited text follows it. */
  lemma {:induction false} ValueRoundTrip(d: Doc, opts: JsonOptions, indent: nat, rest: string)
    requires NamesOk(d) && Delimited(rest)
    ensures ParseValue(Body(d, opts, indent) + rest) == Some((d, rest))
    decreases d, 1
  {
    match d {
      case DocNull =>
        NullStep(rest);
      case DocNumber(v) =>
        NumberStep(v, rest);
      case DocObject(members) =>
        if members == [] {
          EmptyObjectStep(rest);
          assert Body(d, opts, indent) + rest == "{" + ("}" + rest);
        } else {
          var inner, close := indent + opts.indent, Gap(opts, indent) + ("}" + rest);
          MembersRoundTrip(members, opts, inner, indent, rest);
          ItemsStart(members, opts, inner, close);
          ObjectStep(Items(members, opts, inner) + close, members, rest);
          ObjectPieces(members, opts, indent, rest);
        }
    }
  }

  /** The first thing in a list of members is a name. */
  lemma {:induction false} ItemsStart(members: seq<(string, Doc)>, opts: JsonOptions, indent: nat, rest: string)
    requires members != []
    ensures var t := SkipWs(Items(members, opts, indent) + rest); t != [] && t[0] == '\"'
  {
    var m := members[0];
    var tail := if |members| == 1 then rest else "," + (Items(members[1..], opts, indent) + rest);
    ItemsPieces(members, opts, indent, rest);
    ItemPieces(m, opts, indent, tail);
    var t := "\"" + (m.0 + ("\"" + (":" +
      ((if opts.pretty then " " else "") + (Body(m.1, opts, indent) + (EndOfLine(m.1, opts, indent) + tail))))));
    SkipGap(opts, indent, t);
    assert t[0] == '\"';
  }

  lemma {:induction false} MembersRoundTrip(members: seq<(string, Doc)>, opts: JsonOptions, indent: nat, outer: nat,
                                            rest: string)
    requires members != []
    requires forall i :: 0 <= i < |members| ==> NameOk(members[i].0) && NamesOk(members[i].1)
    ensures ParseMembers(Items(members, opts, indent) + (Gap(opts, outer) + ("}" + rest))) == Some((members, rest))
    decreases members, 0
  {
    var m, close := members[0], Gap(opts, outer) + ("}" + rest);
    ItemsPieces(members, opts, indent, close);
    if |members| == 1 {
      LastMemberRoundTrip(m, opts, indent, outer, rest);
      assert members == [m];
    } else {
      MembersRoundTrip(members[1..], opts, indent, outer, rest);
      var more := Items(members[1..], opts, indent) + close;
      SkipComma(more);
      var after := PairRoundTrip(m, opts, indent, "," + more);
      MoreMembersStep(Item(m, opts, indent) + ("," + more), m, after, more, members[1..], rest);
      assert members == [m] + members[1..];
    }
  }

  lemma {:induction false} LastMemberRoundTrip(m: (string, Doc), opts: JsonOptions, indent: nat, outer: nat, rest: string)
    requires NameOk(m.0) && NamesOk(m.1)
    ensures ParseMembers(Item(m, opts, indent) + (Gap(opts, outer) + ("}" + rest))) == Some(([m], rest))
    decreases m, 4
  {
    var close := Gap(opts, outer) + ("}" + rest);
    var after := PairRoundTrip(m, opts, indent, close);
    SkipGap(opts, outer, "}" + rest);
    LastMemberStep(Item(m, opts, indent) + close, m, after, rest);
  }

  lemma {:induction false} SkipComma(more: string)
    ensures SkipWs("," + more) == "," + more && Delimited("," + more)
  {
  }

  lemma {:induction false} PairRoundTrip(m: (string, Doc), opts: JsonOptions, indent: nat, rest: string)
    returns (after: string)
    requires NameOk(m.0) && NamesOk(m.1) && Delimited(rest)
    ensures ParsePair(Item(m, opts, indent) + rest) == Some((m, after))
    ensures SkipWs(after) == SkipWs(rest)
    decreases m, 3
  {
    after := EndOfLine(m.1, opts, indent) + rest;
    var body := Body(m.1, opts, indent) + after;
    var value := (if opts.pretty then " " else "") + body;
    ItemPieces(m, opts, indent, rest);
    SkipGap(opts, indent, "\"" + (m.0 + ("\"" + (":" + value))));
    ValueRoundTrip(m.1, opts, indent, after);
    SpaceBefore(opts, body);
    PairStep(Item(m, opts, indent) + rest, m.0, value, m.1, after);
    SkipWsOver(EndOfLine(m.1, opts, indent), rest);
  }

  /** A space before a value does not change what it reads as. */
  lemma {:induction false} SpaceBefore(opts: JsonOptions, s: string)
    ensures ParseValue((if opts.pretty then " " else "") + s) == ParseValue(s)
  {
    SkipWsOver(if opts.pretty then " " else "", s);
  }

  /** Every dump, compact or pretty and at any indentation, reads back as what was dumped. */
  lemma {:induction false} DumpRoundTrip(d: Doc, opts: JsonOptions, indent: nat)
    requires NamesOk(d)
    ensures ParseText(Render(d, opts, indent)) == Some(d)
  {
    var end := EndOfLine(d, opts, indent);
    ValueRoundTrip(d, opts, indent, end);
    assert end + [] == end;
    SkipWsOver(end, []);
  }
}
