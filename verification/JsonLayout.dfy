/** The layout of a dump: only blanks tell a pretty dump from a compact one. */
module JsonLayout {
  import opened JsonText

  predicate Blank(c: char) {
    c == ' ' || c == '\n'
  }

  /** The text without its spaces and line breaks. */
  function Squeeze(s: string): string {
    if s == [] then ""
    else Squeeze(s[..|s| - 1]) + if Blank(s[|s| - 1]) then "" else [s[|s| - 1]]
  }

  lemma {:induction false} SqueezeConcat(a: string, b: string)
    ensures Squeeze(a + b) == Squeeze(a) + Squeeze(b)
  {
    if b == [] {
      assert a + b == a;
    } else {
      assert (a + b)[..|a + b| - 1] == a + b[..|b| - 1];
      SqueezeConcat(a, b[..|b| - 1]);
    }
  }

  lemma {:induction false} SqueezeBlanks(s: string)
    requires forall c :: c in s ==> Blank(c)
    ensures Squeeze(s) == ""
  {
    if s != [] {
      SqueezeBlanks(s[..|s| - 1]);
    }
  }

  lemma SqueezeGap(opts: JsonOptions, indent: nat)
    ensures Squeeze(Gap(opts, indent)) == ""
  {
    SqueezeBlanks(Gap(opts, indent));
  }

  lemma SqueezeKey(name: string, opts: JsonOptions, other: JsonOptions)
    ensures Squeeze(Key(name, opts)) == Squeeze(Key(name, other))
  {
    var quoted := "\"" + name + "\"" + ":";
    SqueezeConcat(quoted, if opts.pretty then " " else "");
    SqueezeConcat(quoted, if other.pretty then " " else "");
    SqueezeBlanks(if opts.pretty then " " else "");
    SqueezeBlanks(if other.pretty then " " else "");
  }

  /** Whatever the layouts, two dumps of one document differ in blanks only. */
  lemma {:induction false} LayoutIsBlanks(d: Doc, opts: JsonOptions, indent: nat, other: JsonOptions, indent': nat)
    ensures Squeeze(Render(d, opts, indent)) == Squeeze(Render(d, other, indent'))
    decreases d, 4
  {
    BodyIsBlanks(d, opts, indent, other, indent');
    SqueezeConcat(Body(d, opts, indent), EndOfLine(d, opts, indent));
    SqueezeConcat(Body(d, other, indent'), EndOfLine(d, other, indent'));
    SqueezeBlanks(EndOfLine(d, opts, indent));
    SqueezeBlanks(EndOfLine(d, other, indent'));
  }

  lemma {:induction false} BodyIsBlanks(d: Doc, opts: JsonOptions, indent: nat, other: JsonOptions, indent': nat)
    ensures Squeeze(Body(d, opts, indent)) == Squeeze(Body(d, other, indent'))
    decreases d, 3
  {
    if d.DocObject? && d.members != [] {
      ItemsAreBlanks(d.members, opts, indent + opts.indent, other, indent' + other.indent);
      SqueezeObject(d.members, opts, indent);
      SqueezeObject(d.members, other, indent');
    }
  }

  lemma SqueezeObject(members: seq<(string, Doc)>, opts: JsonOptions, indent: nat)
    requires members != []
    ensures Squeeze(Body(DocObject(members), opts, indent))
            == Squeeze("{") + Squeeze(Items(members, opts, indent + opts.indent)) + Squeeze("}")
  {
    var items := Items(members, opts, indent + opts.indent);
    SqueezeConcat("{", items);
    SqueezeConcat("{" + items, Gap(opts, indent));
    SqueezeGap(opts, indent);
    SqueezeConcat("{" + items + Gap(opts, indent), "}");
  }

  lemma {:induction false} ItemsAreBlanks(members: seq<(string, Doc)>, opts: JsonOptions, indent: nat,
                                          other: JsonOptions, indent': nat)
    requires members != []
    ensures Squeeze(Items(members, opts, indent)) == Squeeze(Items(members, other, indent'))
    decreases members, 0
  {
    ItemIsBlanks(members[0], opts, indent, other, indent');
    if |members| == 1 {
      assert Items(members, opts, indent) == Item(members[0], opts, indent);
      assert Items(members, other, indent') == Item(members[0], other, indent');
    } else {
      ItemsAreBlanks(members[1..], opts, indent, other, indent');
      SqueezeMore(members, opts, indent);
      SqueezeMore(members, other, indent');
    }
  }

  lemma SqueezeMore(members: seq<(string, Doc)>, opts: JsonOptions, indent: nat)
    requires |members| > 1
    ensures Squeeze(Items(members, opts, indent))
            == Squeeze(Item(members[0], opts, indent)) + (Squeeze(",") + Squeeze(Items(members[1..], opts, indent)))
  {
    SqueezeConcat(Item(members[0], opts, indent), "," + Items(members[1..], opts, indent));
    SqueezeConcat(",", Items(members[1..], opts, indent));
  }

  lemma {:induction false} ItemIsBlanks(m: (string, Doc), opts: JsonOptions, indent: nat,
                                        other: JsonOptions, indent': nat)
    ensures Squeeze(Item(m, opts, indent)) == Squeeze(Item(m, other, indent'))
    decreases m, 5
  {
    LayoutIsBlanks(m.1, opts, indent, other, indent');
    SqueezeKey(m.0, opts, other);
    SqueezeItem(m, opts, indent);
    SqueezeItem(m, other, indent');
  }

  lemma SqueezeItem(m: (string, Doc), opts: JsonOptions, indent: nat)
    ensures Squeeze(Item(m, opts, indent)) == Squeeze(Key(m.0, opts)) + Squeeze(Render(m.1, opts, indent))
  {
    SqueezeGap(opts, indent);
    SqueezeConcat(Gap(opts, indent), Key(m.0, opts) + Render(m.1, opts, indent));
    SqueezeConcat(Key(m.0, opts), Render(m.1, opts, indent));
  }

  predicate Tight(s: string) {
    forall c :: c in s ==> !Blank(c)
  }

  /** Squeezing leaves exactly the texts without blanks as they are. */
  lemma {:induction false} SqueezeTight(s: string)
    ensures |Squeeze(s)| <= |s| && (Squeeze(s) == s <==> Tight(s))
  {
    if s != [] {
      var init := s[..|s| - 1];
      SqueezeTight(init);
      assert s == init + [s[|s| - 1]];
    }
  }

  predicate NamesTight(d: Doc) {
    d.DocObject? ==> forall i :: 0 <= i < |d.members| ==> Tight(d.members[i].0) && NamesTight(d.members[i].1)
  }

  lemma {:induction false} DigitsTight(n: nat)
    ensures Tight(Digits(n))
  {
    if n >= 10 {
      DigitsTight(n / 10);
    }
  }

  /** A compact dump has a blank only inside a name. */
  lemma {:induction false} CompactTight(d: Doc, opts: JsonOptions, indent: nat)
    requires !opts.pretty
    ensures Tight(Render(d, opts, indent)) <==> NamesTight(d)
    decreases d, 3
  {
    match d
    case DocNull =>
    case DocNumber(v) =>
      DigitsTight(if v < 0 then -v else v);
    case DocObject(members) =>
      if members != [] {
        ItemsTight(members, opts, indent + opts.indent);
        TightObject(Items(members, opts, indent + opts.indent));
        assert Render(d, opts, indent) == "{" + Items(members, opts, indent + opts.indent) + "}";
      }
  }

  lemma TightObject(items: string)
    ensures Tight("{" + items + "}") <==> Tight(items)
  {
    assert forall c :: c in items ==> c in "{" + items + "}";
  }

  lemma {:induction false} ItemsTight(members: seq<(string, Doc)>, opts: JsonOptions, indent: nat)
    requires members != [] && !opts.pretty
    ensures Tight(Items(members, opts, indent)) <==>
            forall i :: 0 <= i < |members| ==> Tight(members[i].0) && NamesTight(members[i].1)
    decreases members, 0
  {
    ItemTight(members[0], opts, indent);
    if |members| > 1 {
      ItemsTight(members[1..], opts, indent);
      TightMore(Item(members[0], opts, indent), Items(members[1..], opts, indent));
    } else {
      assert Items(members, opts, indent) == Item(members[0], opts, indent);
    }
  }

  lemma TightMore(item: string, more: string)
    ensures Tight(item + ("," + more)) <==> Tight(item) && Tight(more)
  {
    assert forall c :: c in item || c in more ==> c in item + ("," + more);
  }

  lemma {:induction false} ItemTight(m: (string, Doc), opts: JsonOptions, indent: nat)
    requires !opts.pretty
    ensures Tight(Item(m, opts, indent)) <==> Tight(m.0) && NamesTight(m.1)
    decreases m, 4
  {
    var value := Render(m.1, opts, indent);
    CompactTight(m.1, opts, indent);
    assert Item(m, opts, indent) == "\"" + m.0 + "\":" + value;
    assert forall c :: c in m.0 || c in value ==> c in "\"" + m.0 + "\":" + value;
  }

  /**
    * Removing spaces and line breaks from a dump, whatever its layout, gives the compact dump
    * exactly when no name has a blank in it.
    */
  lemma {:induction false} SqueezedIsCompactIff(d: Doc, opts: JsonOptions, indent: nat, compact: JsonOptions)
    requires !compact.pretty
    ensures Squeeze(Render(d, opts, indent)) == Render(d, compact, 0) <==> NamesTight(d)
  {
    LayoutIsBlanks(d, opts, indent, compact, 0);
    SqueezeTight(Render(d, compact, 0));
    CompactTight(d, compact, 0);
  }

  // The layout by the text alone

  /** Where a scan of a text stands: within a name or not, how many braces are open, right after one or not. */
  datatype Scan = Scan(quoted: bool, depth: nat, empty: bool)

  const START := Scan(false, 0, false)

  function After(s: Scan, c: char): Scan {
    if c == '\"' then Scan(!s.quoted, s.depth, false)
    else if s.quoted then s
    else if c == '{' then Scan(false, s.depth + 1, true)
    else if c == '}' then Scan(false, if s.depth == 0 then 0 else s.depth - 1, false)
    else Scan(false, s.depth, false)
  }

  function ScanEnd(text: string, s: Scan): Scan {
    if text == [] then s else ScanEnd(text[1..], After(s, text[0]))
  }

  /**
    * One character with the blanks around it. Each name, and each brace that closes an object
    * which is not empty, starts a line, indented by `step` for every brace open around it; a space
    * follows a colon, and a line break a closing brace that is not indented.
    */
  function Spaced(s: Scan, c: char, base: nat, step: nat): string {
    if s.quoted then [c]
    else if c == '\"' then "\n" + Spaces(base + s.depth * step) + "\""
    else if c == ':' then ": "
    else if c == '}' && s.depth > 0 then
      var indent := base + (s.depth - 1) * step;
      (if s.empty then "" else "\n" + Spaces(indent)) + "}" + if indent == 0 then "\n" else ""
    else [c]
  }

  function LaidOut(text: string, s: Scan, base: nat, step: nat): string {
    if text == [] then []
    else Spaced(s, text[0], base, step) + LaidOut(text[1..], After(s, text[0]), base, step)
  }

  lemma {:induction false} LaidConcat(a: string, b: string, s: Scan, base: nat, step: nat)
    ensures LaidOut(a + b, s, base, step) == LaidOut(a, s, base, step) + LaidOut(b, ScanEnd(a, s), base, step)
    ensures ScanEnd(a + b, s) == ScanEnd(b, ScanEnd(a, s))
  {
    if a == [] {
      assert a + b == b;
    } else {
      assert (a + b)[1..] == a[1..] + b;
      LaidConcat(a[1..], b, After(s, a[0]), base, step);
    }
  }

  lemma {:induction false} NameLaidOut(name: string, s: Scan, base: nat, step: nat)
    requires NameOk(name) && s.quoted
    ensures LaidOut(name, s, base, step) == name && ScanEnd(name, s) == s
  {
    if name != [] {
      NameLaidOut(name[1..], s, base, step);
    }
  }

  /** A character that a scan only copies. */
  predicate Copied(c: char) {
    !Blank(c) && c != '\"' && c != '{' && c != '}' && c != ':'
  }

  lemma {:induction false} CopiedLaidOut(text: string, s: Scan, base: nat, step: nat)
    requires (forall i :: 0 <= i < |text| ==> Copied(text[i])) && !s.quoted && !s.empty
    ensures LaidOut(text, s, base, step) == text && ScanEnd(text, s) == s
  {
    if text != [] {
      CopiedLaidOut(text[1..], s, base, step);
    }
  }

  lemma {:induction false} DigitsCopied(n: nat)
    ensures forall i :: 0 <= i < |Digits(n)| ==> Copied(Digits(n)[i])
  {
    if n >= 10 {
      DigitsCopied(n / 10);
    }
  }

  lemma ScalarCopied(d: Doc, opts: JsonOptions, indent: nat)
    requires !d.DocObject?
    ensures forall i :: 0 <= i < |Render(d, opts, indent)| ==> Copied(Render(d, opts, indent)[i])
  {
    if d.DocNumber? {
      DigitsCopied(if d.value < 0 then -d.value else d.value);
    }
  }

  // Laying a compact text out

  const COMPACT := JsonOptions(false, 0)

  lemma OneLaidOut(c: char, s: Scan, base: nat, step: nat)
    ensures LaidOut([c], s, base, step) == Spaced(s, c, base, step) && ScanEnd([c], s) == After(s, c)
  {
    assert [c][1..] == [];
  }

  /** The text of a scan over a first character and the rest. */
  lemma HeadLaidOut(c: char, rest: string, s: Scan, base: nat, step: nat)
    ensures LaidOut([c] + rest, s, base, step) == Spaced(s, c, base, step) + LaidOut(rest, After(s, c), base, step)
    ensures ScanEnd([c] + rest, s) == ScanEnd(rest, After(s, c))
  {
    assert ([c] + rest)[1..] == rest;
  }

  lemma {:induction false} KeyLaidOut(name: string, s: Scan, base: nat, opts: JsonOptions, indent: nat)
    requires NameOk(name) && !s.quoted && opts.pretty && indent == base + s.depth * opts.indent
    ensures LaidOut(Key(name, COMPACT), s, base, opts.indent) == "\n" + Spaces(indent) + Key(name, opts)
    ensures ScanEnd(Key(name, COMPACT), s) == Scan(false, s.depth, false)
  {
    var inside, after := Scan(true, s.depth, false), Scan(false, s.depth, false);
    HeadLaidOut('\"', name + ['\"', ':'], s, base, opts.indent);
    LaidConcat(name, ['\"', ':'], inside, base, opts.indent);
    NameLaidOut(name, inside, base, opts.indent);
    HeadLaidOut('\"', [':'], inside, base, opts.indent);
    OneLaidOut(':', after, base, opts.indent);
    assert ['\"'] + [':'] == ['\"', ':'];
    KeyPieces(name, opts, "\n" + Spaces(indent));
  }

  lemma KeyPieces(name: string, opts: JsonOptions, line: string)
    requires opts.pretty
    ensures Key(name, COMPACT) == ['\"'] + (name + ['\"', ':'])
    ensures line + "\"" + (name + (['\"'] + ": ")) == line + Key(name, opts)
  {
  }

  lemma {:induction false} ValueLaidOut(d: Doc, s: Scan, base: nat, opts: JsonOptions, indent: nat)
    requires NamesOk(d) && !s.quoted && !s.empty && opts.pretty && indent == base + s.depth * opts.indent
    ensures LaidOut(Render(d, COMPACT, 0), s, base, opts.indent) == Render(d, opts, indent)
    ensures ScanEnd(Render(d, COMPACT, 0), s) == s
    decreases d, 3
  {
    if d.DocObject? {
      var inner := Scan(false, s.depth + 1, true);
      if d.members == [] {
        EmptyLaidOut(s, base, opts, indent);
      } else {
        assert base + (s.depth + 1) * opts.indent == indent + opts.indent;
        ItemsLaidOut(d.members, inner, base, opts, indent + opts.indent);
        ObjectLaidOut(d.members, s, base, opts, indent);
      }
    } else {
      ScalarCopied(d, COMPACT, 0);
      CopiedLaidOut(Render(d, COMPACT, 0), s, base, opts.indent);
    }
  }

  lemma EmptyLaidOut(s: Scan, base: nat, opts: JsonOptions, indent: nat)
    requires !s.quoted && !s.empty && opts.pretty && indent == base + s.depth * opts.indent
    ensures LaidOut(Render(DocObject([]), COMPACT, 0), s, base, opts.indent) == Render(DocObject([]), opts, indent)
    ensures ScanEnd(Render(DocObject([]), COMPACT, 0), s) == s
  {
    var inner := Scan(false, s.depth + 1, true);
    assert Render(DocObject([]), COMPACT, 0) == "{" + "}";
    LaidConcat("{", "}", s, base, opts.indent);
  }

  lemma ObjectLaidOut(members: seq<(string, Doc)>, s: Scan, base: nat, opts: JsonOptions, indent: nat)
    requires members != [] && !s.quoted && !s.empty && opts.pretty && indent == base + s.depth * opts.indent
    requires var inner := Scan(false, s.depth + 1, true);
      && LaidOut(Items(members, COMPACT, 0), inner, base, opts.indent) == Items(members, opts, indent + opts.indent)
      && ScanEnd(Items(members, COMPACT, 0), inner) == Scan(false, s.depth + 1, false)
    ensures var d := DocObject(members);
      && LaidOut(Render(d, COMPACT, 0), s, base, opts.indent) == Render(d, opts, indent)
      && ScanEnd(Render(d, COMPACT, 0), s) == s
  {
    var items := Items(members, COMPACT, 0);
    var inner, filled := Scan(false, s.depth + 1, true), Scan(false, s.depth + 1, false);
    HeadLaidOut('{', items + ['}'], s, base, opts.indent);
    LaidConcat(items, ['}'], inner, base, opts.indent);
    OneLaidOut('}', filled, base, opts.indent);
    ObjectText(members, opts, indent);
  }

  lemma ObjectText(members: seq<(string, Doc)>, opts: JsonOptions, indent: nat)
    requires members != [] && opts.pretty
    ensures Render(DocObject(members), COMPACT, 0) == ['{'] + (Items(members, COMPACT, 0) + ['}'])
    ensures Render(DocObject(members), opts, indent) ==
            ['{'] + (Items(members, opts, indent + opts.indent) +
                     ("\n" + Spaces(indent) + "}" + if indent == 0 then "\n" else ""))
  {
  }

  lemma {:induction false} ItemsLaidOut(members: seq<(string, Doc)>, s: Scan, base: nat, opts: JsonOptions, indent: nat)
    requires members != [] && !s.quoted && opts.pretty && indent == base + s.depth * opts.indent
    requires forall i :: 0 <= i < |members| ==> NameOk(members[i].0) && NamesOk(members[i].1)
    ensures LaidOut(Items(members, COMPACT, 0), s, base, opts.indent) == Items(members, opts, indent)
    ensures ScanEnd(Items(members, COMPACT, 0), s) == Scan(false, s.depth, false)
    decreases members, 0
  {
    ItemLaidOut(members[0], s, base, opts, indent);
    if |members| == 1 {
      assert Items(members, COMPACT, 0) == Item(members[0], COMPACT, 0);
    } else {
      var after := Scan(false, s.depth, false);
      ItemsLaidOut(members[1..], after, base, opts, indent);
      var more := Items(members[1..], COMPACT, 0);
      LaidConcat(Item(members[0], COMPACT, 0), "," + more, s, base, opts.indent);
      LaidConcat(",", more, after, base, opts.indent);
    }
  }

  lemma {:induction false} ItemLaidOut(m: (string, Doc), s: Scan, base: nat, opts: JsonOptions, indent: nat)
    requires !s.quoted && opts.pretty && indent == base + s.depth * opts.indent
    requires NameOk(m.0) && NamesOk(m.1)
    ensures LaidOut(Item(m, COMPACT, 0), s, base, opts.indent) == Item(m, opts, indent)
    ensures ScanEnd(Item(m, COMPACT, 0), s) == Scan(false, s.depth, false)
    decreases m, 4
  {
    var after := Scan(false, s.depth, false);
    KeyLaidOut(m.0, s, base, opts, indent);
    ValueLaidOut(m.1, after, base, opts, indent);
    LaidConcat(Key(m.0, COMPACT), Render(m.1, COMPACT, 0), s, base, opts.indent);
    ItemText(m, opts, indent);
  }

  lemma ItemText(m: (string, Doc), opts: JsonOptions, indent: nat)
    requires opts.pretty
    ensures Item(m, COMPACT, 0) == Key(m.0, COMPACT) + Render(m.1, COMPACT, 0)
    ensures Item(m, opts, indent) == "\n" + Spaces(indent) + Key(m.0, opts) + Render(m.1, opts, indent)
  {
  }

  // The compact text of any layout

  /** The text without the blanks outside its names. */
  function Bare(text: string, quoted: bool): string {
    if text == [] then []
    else
      (if !quoted && Blank(text[0]) then [] else [text[0]]) +
      Bare(text[1..], if text[0] == '\"' then !quoted else quoted)
  }

  predicate QuotedAfter(text: string, quoted: bool) {
    if text == [] then quoted else QuotedAfter(text[1..], if text[0] == '\"' then !quoted else quoted)
  }

  lemma {:induction false} QuotedConcat(a: string, b: string, quoted: bool)
    ensures QuotedAfter(a + b, quoted) == QuotedAfter(b, QuotedAfter(a, quoted))
  {
    if a == [] {
      assert a + b == b;
    } else {
      assert (a + b)[1..] == a[1..] + b;
      QuotedConcat(a[1..], b, if a[0] == '\"' then !quoted else quoted);
    }
  }

  lemma {:induction false} BareConcat(a: string, b: string, quoted: bool)
    ensures Bare(a + b, quoted) == Bare(a, quoted) + Bare(b, QuotedAfter(a, quoted))
    ensures QuotedAfter(a + b, quoted) == QuotedAfter(b, QuotedAfter(a, quoted))
  {
    QuotedConcat(a, b, quoted);
    if a == [] {
      assert a + b == b;
    } else {
      var head := if !quoted && Blank(a[0]) then [] else [a[0]];
      var after := if a[0] == '\"' then !quoted else quoted;
      BareConcat(a[1..], b, after);
      BareHead(a, quoted);
      BareHead(a + b, quoted);
      assert (a + b)[1..] == a[1..] + b;
      Associates(head, Bare(a[1..], after), Bare(b, QuotedAfter(a, quoted)));
    }
  }

  lemma BareHead(a: string, quoted: bool)
    requires a != []
    ensures Bare(a, quoted) ==
            (if !quoted && Blank(a[0]) then [] else [a[0]]) +
            Bare(a[1..], if a[0] == '\"' then !quoted else quoted)
  {
  }

  lemma Associates(a: string, b: string, c: string)
    ensures a + b + c == a + (b + c)
  {
  }

  /** Outside names blanks go and other characters stay. */
  lemma {:induction false} BareUnquoted(text: string)
    requires forall i :: 0 <= i < |text| ==> text[i] != '\"'
    ensures !QuotedAfter(text, false)
    ensures (forall i :: 0 <= i < |text| ==> Blank(text[i])) ==> Bare(text, false) == ""
    ensures (forall i :: 0 <= i < |text| ==> !Blank(text[i])) ==> Bare(text, false) == text
  {
    if text != [] {
      BareUnquoted(text[1..]);
    }
  }

  lemma {:induction false} BareName(name: string)
    requires NameOk(name)
    ensures Bare(name, true) == name && QuotedAfter(name, true)
  {
    if name != [] {
      BareName(name[1..]);
    }
  }

  lemma BareOne(c: char, quoted: bool)
    requires !Blank(c)
    ensures Bare([c], quoted) == [c] && QuotedAfter([c], quoted) == if c == '\"' then !quoted else quoted
  {
    assert [c][1..] == [];
  }

  lemma {:induction false} BareKey(name: string, opts: JsonOptions)
    requires NameOk(name)
    ensures Bare(Key(name, opts), false) == Key(name, COMPACT) && !QuotedAfter(Key(name, opts), false)
  {
    var space := if opts.pretty then " " else "";
    BareOne('\"', false);
    BareOne('\"', true);
    BareOne(':', false);
    BareName(name);
    BareUnquoted(space);
    BareConcat(['\"'], name + (['\"'] + ([':'] + space)), false);
    BareConcat(name, ['\"'] + ([':'] + space), true);
    BareConcat(['\"'], [':'] + space, true);
    BareConcat([':'], space, false);
    BareKeyPieces(name, opts, space);
  }

  lemma BareKeyPieces(name: string, opts: JsonOptions, space: string)
    requires space == if opts.pretty then " " else ""
    ensures Key(name, opts) == ['\"'] + (name + (['\"'] + ([':'] + space)))
    ensures Key(name, COMPACT) == ['\"'] + (name + (['\"'] + [':']))
  {
  }

  /** Without the blanks outside names, a dump in any layout is the compact one. */
  lemma {:induction false} BareIsCompact(d: Doc, opts: JsonOptions, indent: nat)
    requires NamesOk(d)
    ensures Bare(Render(d, opts, indent), false) == Render(d, COMPACT, 0)
    ensures !QuotedAfter(Render(d, opts, indent), false)
    decreases d, 3
  {
    if !d.DocObject? {
      ScalarCopied(d, opts, indent);
      BareUnquoted(Render(d, opts, indent));
    } else if d.members == [] {
      BareEmpty(opts, indent);
    } else {
      BareItems(d.members, opts, indent + opts.indent);
      BareObject(d.members, opts, indent, EndOfLine(d, opts, indent));
    }
  }

  lemma BareEmpty(opts: JsonOptions, indent: nat)
    ensures Bare(Render(DocObject([]), opts, indent), false) == Render(DocObject([]), COMPACT, 0)
    ensures !QuotedAfter(Render(DocObject([]), opts, indent), false)
  {
    var line := EndOfLine(DocObject([]), opts, indent);
    BareOne('{', false);
    BareOne('}', false);
    BareUnquoted(line);
    BareConcat(['{'], ['}'] + line, false);
    BareConcat(['}'], line, false);
    assert Render(DocObject([]), opts, indent) == ['{'] + (['}'] + line);
    assert Render(DocObject([]), COMPACT, 0) == ['{'] + ['}'];
  }

  lemma BareObject(members: seq<(string, Doc)>, opts: JsonOptions, indent: nat, line: string)
    requires members != [] && line == EndOfLine(DocObject(members), opts, indent)
    requires Bare(Items(members, opts, indent + opts.indent), false) == Items(members, COMPACT, 0)
    requires !QuotedAfter(Items(members, opts, indent + opts.indent), false)
    ensures Bare(Render(DocObject(members), opts, indent), false) == Render(DocObject(members), COMPACT, 0)
    ensures !QuotedAfter(Render(DocObject(members), opts, indent), false)
  {
    var items, gap := Items(members, opts, indent + opts.indent), Gap(opts, indent);
    BareOne('{', false);
    BareOne('}', false);
    BareUnquoted(gap);
    BareUnquoted(line);
    BareConcat(['{'], items + (gap + (['}'] + line)), false);
    BareConcat(items, gap + (['}'] + line), false);
    BareConcat(gap, ['}'] + line, false);
    BareConcat(['}'], line, false);
    BareObjectPieces(members, opts, indent, line);
  }

  lemma BareObjectPieces(members: seq<(string, Doc)>, opts: JsonOptions, indent: nat, line: string)
    requires members != [] && line == EndOfLine(DocObject(members), opts, indent)
    ensures Render(DocObject(members), opts, indent) ==
            ['{'] + (Items(members, opts, indent + opts.indent) + (Gap(opts, indent) + (['}'] + line)))
    ensures Render(DocObject(members), COMPACT, 0) == ['{'] + (Items(members, COMPACT, 0) + ['}'])
  {
  }

  lemma {:induction false} BareItems(members: seq<(string, Doc)>, opts: JsonOptions, indent: nat)
    requires members != [] && forall i :: 0 <= i < |members| ==> NameOk(members[i].0) && NamesOk(members[i].1)
    ensures Bare(Items(members, opts, indent), false) == Items(members, COMPACT, 0)
    ensures !QuotedAfter(Items(members, opts, indent), false)
    decreases members, 0
  {
    BareItem(members[0], opts, indent);
    if |members| == 1 {
      assert Items(members, opts, indent) == Item(members[0], opts, indent);
      assert Items(members, COMPACT, 0) == Item(members[0], COMPACT, 0);
    } else {
      BareItems(members[1..], opts, indent);
      BareOne(',', false);
      BareConcat(Item(members[0], opts, indent), [','] + Items(members[1..], opts, indent), false);
      BareConcat([','], Items(members[1..], opts, indent), false);
    }
  }

  lemma {:induction false} BareItem(m: (string, Doc), opts: JsonOptions, indent: nat)
    requires NameOk(m.0) && NamesOk(m.1)
    ensures Bare(Item(m, opts, indent), false) == Item(m, COMPACT, 0) && !QuotedAfter(Item(m, opts, indent), false)
    decreases m, 4
  {
    BareUnquoted(Gap(opts, indent));
    BareKey(m.0, opts);
    BareIsCompact(m.1, opts, indent);
    BareConcat(Gap(opts, indent), Key(m.0, opts) + Render(m.1, opts, indent), false);
    BareConcat(Key(m.0, opts), Render(m.1, opts, indent), false);
  }

  /**
    * The layout of every dump, by its text alone: a compact dump has no blank outside names, and a
    * pretty dump has exactly the blanks that a scan with a count of open braces puts there.
    */
  lemma DumpLayout(d: Doc, opts: JsonOptions, indent: nat)
    requires NamesOk(d)
    ensures var text := Render(d, opts, indent);
      text == if opts.pretty then LaidOut(Bare(text, false), START, indent, opts.indent) else Bare(text, false)
  {
    BareIsCompact(d, opts, indent);
    if opts.pretty {
      ValueLaidOut(d, START, indent, opts, indent);
    } else {
      CompactIsCompact(d, opts, indent);
    }
  }

  /** Without line breaks the indentation does not matter. */
  lemma {:induction false} CompactIsCompact(d: Doc, opts: JsonOptions, indent: nat)
    requires !opts.pretty
    ensures Render(d, opts, indent) == Render(d, COMPACT, 0)
    decreases d, 3
  {
    if d.DocObject? && d.members != [] {
      CompactItems(d.members, opts, indent + opts.indent);
    }
  }

  lemma {:induction false} CompactItems(members: seq<(string, Doc)>, opts: JsonOptions, indent: nat)
    requires members != [] && !opts.pretty
    ensures Items(members, opts, indent) == Items(members, COMPACT, 0)
    decreases members, 0
  {
    CompactItem(members[0], opts, indent);
    if |members| > 1 {
      CompactItems(members[1..], opts, indent);
    }
  }

  lemma {:induction false} CompactItem(m: (string, Doc), opts: JsonOptions, indent: nat)
    requires !opts.pretty
    ensures Item(m, opts, indent) == Item(m, COMPACT, 0)
    decreases m, 4
  {
    CompactIsCompact(m.1, opts, indent);
  }
}
