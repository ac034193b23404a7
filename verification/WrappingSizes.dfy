/** Accepted definition files whose types are larger than a bit count can say. */
module WrappingSizes {
  import opened Wrappers
  import opened Bits
  import opened Options
  import opened FileSystem
  import opened Types
  import opened IntegerFields
  import opened Trees
  import opened DefinitionText
  import opened DefinitionParser
  import opened DefinitionLaws
  import opened DefinitionTypes
  import opened ReferenceDecoder

  /** Names of growing length, none of them built in. */
  function LevelName(n: nat): (r: string)
    ensures |r| == n + 1 && r[0] == 'T'
  {
    if n == 0 then "T" else LevelName(n - 1) + "x"
  }

  /** Each level holds the one below twice; the lowest is one 64-bit integer. */
  function Doubling(n: nat): Type {
    if n == 0 then Definition(LevelName(0), [Field("a", Integer("uint64", 64, Unsigned, OrderUnset))])
    else Definition(LevelName(n), [Field("a", Doubling(n - 1)), Field("b", Doubling(n - 1))])
  }

  function DoublingAsts(n: nat): (r: seq<TypeAst>)
    ensures |r| == n + 1
  {
    if n == 0 then [TypeAst(LevelName(0), [MemberAst("uint64", [], "a")])]
    else
      DoublingAsts(n - 1) +
      [TypeAst(LevelName(n), [MemberAst(LevelName(n - 1), [], "a"), MemberAst(LevelName(n - 1), [], "b")])]
  }

  lemma LevelNameIsNew(name: string)
    requires name != [] && name[0] == 'T'
    ensures !IntegerName(name)
  {
  }

  lemma {:induction false} DoublingNames(n: nat, i: nat)
    requires i <= n
    ensures DoublingAsts(n)[i].name == LevelName(i)
  {
    if i < n {
      DoublingNames(n - 1, i);
    }
  }

  lemma DoublingDeclares(n: nat)
    ensures Declares(DoublingAsts(n), LevelName(n))
    ensures !Declares(DoublingAsts(n), LevelName(n + 1))
  {
    var asts := DoublingAsts(n);
    DoublingNames(n, n);
    assert asts[n].name == LevelName(n);
    forall i | 0 <= i < |asts|
      ensures asts[i].name != LevelName(n + 1)
    {
      DoublingNames(n, i);
    }
  }

  lemma DoublingStep(n: nat)
    requires n > 0
    ensures DefinitionOk(DoublingAsts(n - 1), DoublingAsts(n)[n])
  {
    var earlier, a := DoublingAsts(n - 1), DoublingAsts(n)[n];
    LevelNameIsNew(a.name);
    DoublingDeclares(n - 1);
    assert a.members == [MemberAst(LevelName(n - 1), [], "a"), MemberAst(LevelName(n - 1), [], "b")];
    assert Declares(earlier, LevelName(n - 1));
    assert MemberOk(earlier, a.members, 0);
    assert "a"[0] != "b"[0];
    assert MemberOk(earlier, a.members, 1);
  }

  lemma {:induction false} DoublingAccepted(n: nat)
    ensures WellScoped(DoublingAsts(n))
  {
    var asts := DoublingAsts(n);
    if n == 0 {
      LevelNameIsNew(asts[0].name);
      assert IntegerName("uint64") by {
        assert "uint64"[4..] == "64";
      }
      assert MemberOk([], asts[0].members, 0);
      assert asts[..0] == [];
    } else {
      assert asts[..n] == DoublingAsts(n - 1);
      DoublingAccepted(n - 1);
      DoublingStep(n);
    }
    WellScopedSnoc(asts);
  }

  lemma DoublingMember(n: nat, k: nat)
    requires n > 0 && k < 2
    ensures var t := Elaborate(DoublingAsts(n))[n];
      |t.fields| == 2 && t.fields[k] == Field(if k == 0 then "a" else "b", Elaborate(DoublingAsts(n - 1))[n - 1])
  {
    var asts := DoublingAsts(n);
    DoublingAccepted(n);
    MemberTypeIs(asts, n, k);
    assert asts[..n] == DoublingAsts(n - 1);
    DoublingDeclares(n - 1);
    var j :| 0 <= j < n && asts[j].name == LevelName(n - 1) &&
      Elaborate(asts)[n].fields[k].ty == Elaborate(asts)[j];
    DoublingNames(n, j);
    assert j == n - 1;
    ElaboratePrefix(asts, n);
  }

  lemma {:induction false} DoublingElaborated(n: nat)
    ensures Elaborate(DoublingAsts(n))[n] == Doubling(n)
  {
    if n == 0 {
      LowestLevel();
    } else {
      DoublingElaborated(n - 1);
      DoublingMember(n, 0);
      DoublingMember(n, 1);
      LevelIs(n, Elaborate(DoublingAsts(n))[n]);
    }
  }

  lemma LevelIs(n: nat, t: Type)
    requires n > 0 && t.Definition? && t.name == LevelName(n) && |t.fields| == 2
    requires t.fields[0] == Field("a", Doubling(n - 1)) && t.fields[1] == Field("b", Doubling(n - 1))
    ensures t == Doubling(n)
  {
    assert t.fields == Doubling(n).fields;
  }

  lemma LowestLevel()
    ensures Elaborate(DoublingAsts(0))[0] == Doubling(0)
  {
    var known: seq<Type> := [];
    var asts := DoublingAsts(0);
    var ms := asts[0].members;
    assert asts[..0] == [] && ms[..0] == [] && Elaborate(asts[..0]) == known;
    ElaborateAt(asts, 0);
    FieldsAt(known, ms);
    UnsignedWord(known);
    assert Fields(known, ms) == [Field("a", MemberType(known, ms[0]))];
  }

  lemma UnsignedWord(known: seq<Type>)
    requires known == []
    ensures MemberType(known, MemberAst("uint64", [], "a")) == Integer("uint64", 64, Unsigned, OrderUnset)
  {
    WidthOfName("uint", "64");
    assert "uint" + "64" == "uint64" && "u" <= "uint64" && "byte"[0] == 'b';
    UseOfInteger(known, MemberAst("uint64", [], "a"));
  }

  lemma {:induction false} DoublingSize(n: nat)
    ensures Resolved(Doubling(n)) && WholeBytes(Doubling(n)) && TrueSize(Doubling(n)) == Pow2(n + 6)
  {
    BytePowers();
    var fs := Doubling(n).fields;
    assert fs[..0] == [];
    if n == 0 {
      assert TrueFieldsSize(fs) == 64;
    } else {
      DoublingSize(n - 1);
      assert fs[..1] == [fs[0]] && fs[..1][..0] == [];
      assert TrueFieldsSize(fs[..1]) == Pow2(n + 5);
    }
  }

  lemma PowerWraps(n: nat)
    ensures Pow2(n + 6) > 0
    ensures Pow2(n + 6) % TWO_TO_64 == if n >= 58 then 0 else Pow2(n + 6)
  {
    WordPower();
    if n >= 58 {
      PowSum(64, n - 58);
      ModUnique(Pow2(n + 6), TWO_TO_64, Pow2(n - 58), 0);
    } else {
      PowMonotone(n + 7, 64);
    }
  }

  lemma DoublingWraps(n: nat)
    ensures TrueSize(Doubling(n)) > 0
    ensures StaticSize(Doubling(n)) == Some(if n >= 58 then 0 else TrueSize(Doubling(n)))
  {
    DoublingSize(n);
    PowerWraps(n);
    StaticSizeWraps(Doubling(n));
  }

  /**
    * An accepted file of fifty-nine or more small definitions gives a type that is not empty a
    * static size of zero; with fewer the static size of this type is the true one.
    */
  lemma SizeWrapsToZero(n: nat)
    ensures WellScoped(DoublingAsts(n))
    ensures var t := Elaborate(DoublingAsts(n))[n];
      && Resolved(t)
      && TrueSize(t) > 0
      && StaticSize(t) == Some(if n >= 58 then 0 else TrueSize(t))
  {
    DoublingAccepted(n);
    DoublingElaborated(n);
    DoublingSize(n);
    DoublingWraps(n);
  }

  /** Of the two halves the second starts `half` bytes later. */
  lemma HalvesStart(at: nat, n: nat, half: nat)
    requires n > 0 && half == TrueSize(Doubling(n - 1)) / 8
    ensures StartsPast(at, Doubling(n)) <==>
            StartsPast(at, Doubling(n - 1)) || StartsPast(at + half, Doubling(n - 1))
  {
    var fs := Doubling(n).fields;
    assert fs[..0] == [] && fs[..1] == [fs[0]] && fs[..1][..0] == [];
    assert BytesBefore(fs, 0) == 0 && BytesBefore(fs, 1) == half;
    assert FieldStartsPast(at, fs, 0) <==> StartsPast(at, Doubling(n - 1));
    assert FieldStartsPast(at, fs, 1) <==> StartsPast(at + half, Doubling(n - 1));
  }

  lemma {:induction false} DoublingStarts(at: nat, n: nat)
    ensures StartsPast(at, Doubling(n)) <==> 8 * at + Pow2(n + 6) >= TWO_TO_64 + 64
    decreases n
  {
    BytePowers();
    if n == 0 {
      var fs := Doubling(0).fields;
      assert fs[..0] == [];
      assert FieldStartsPast(at, fs, 0) <==> 8 * at >= TWO_TO_64;
    } else {
      var half := TrueSize(Doubling(n - 1)) / 8;
      DoublingSize(n - 1);
      SizeAligned(Doubling(n - 1));
      DoublingStarts(at, n - 1);
      DoublingStarts(at + half, n - 1);
      HalvesStart(at, n, half);
    }
  }

  /** Accepted types lie on both sides of the boundary; the 59th is the last that is read right. */
  lemma DoublingBoundary(n: nat)
    ensures StartsPast(0, Doubling(n)) <==> n >= 59
    ensures (forall file: FileBytes :: Eager(file, 0, Doubling(n)) == Reference(file, 0, Doubling(n))) <==> n < 59
  {
    DoublingPasses(n);
    DoublingSize(n);
    DoublingNamesApart(n);
    ReferenceOnAllFilesIff(Doubling(n));
  }

  lemma DoublingPasses(n: nat)
    ensures StartsPast(0, Doubling(n)) <==> n >= 59
  {
    DoublingStarts(0, n);
    WordPower();
    if n >= 59 {
      PowMonotone(65, n + 6);
    } else {
      PowMonotone(n + 6, 64);
    }
  }

  lemma {:induction false} DoublingNamesApart(n: nat)
    ensures NamesApart(Doubling(n))
  {
    if n > 0 {
      DoublingNamesApart(n - 1);
      assert "a"[0] != "b"[0];
    }
  }

  /** The integer that the first fields lead to. */
  function FirstLeaf(tree: Tree): Tree
    decreases tree
  {
    if tree.ObjectTree? && "a" in tree.fields then FirstLeaf(tree.fields["a"]) else tree
  }

  lemma {:induction false} FirstLeafOfDoubling(file: FileBytes, n: nat)
    requires |file| >= 8
    ensures FirstLeaf(Eager(file, 0, Doubling(n))).NumberTree?
  {
    EagerFieldsSpec(file, 0, Doubling(n).fields, |Doubling(n).fields|, "a");
    if n == 0 {
      DecodeMeaning(file, 0, Doubling(0).fields[0].ty);
    } else {
      FirstLeafOfDoubling(file, n - 1);
    }
  }

  lemma ReferenceOfDoubling(file: FileBytes, at: nat, n: nat)
    requires n > 0
    ensures Reference(file, at, Doubling(n)) == ObjectTree(map[
      "a" := Reference(file, at, Doubling(n - 1)),
      "b" := Reference(file, at + TrueSize(Doubling(n - 1)) / 8, Doubling(n - 1))])
  {
    var fs := Doubling(n).fields;
    assert fs[..0] == [] && fs[..1] == [fs[0]] && fs[..1][..0] == [];
    assert TrueFieldsSize(fs[..1]) == TrueSize(Doubling(n - 1));
    assert ReferenceFields(file, at, fs, 1) == map["a" := Reference(file, at, Doubling(n - 1))];
    assert Reference(file, at, Doubling(n)) == ObjectTree(ReferenceFields(file, at, fs, 2));
  }

  lemma {:induction false} FirstLeafPastEnd(file: FileBytes, at: nat, n: nat)
    requires at >= |file|
    ensures FirstLeaf(Reference(file, at, Doubling(n))) == NullTree
  {
    if n == 0 {
      var fs := Doubling(0).fields;
      assert fs[..0] == [];
      assert ReferenceFields(file, at, fs, 1) == map["a" := NullTree];
    } else {
      FirstLeafPastEnd(file, at, n - 1);
      ReferenceOfDoubling(file, at, n);
    }
  }

  /** The second half of a doubled type whose size has wrapped is the first half once more. */
  lemma SecondHalfIsFirst(file: FileBytes, n: nat)
    requires n >= 59
    ensures var t := Eager(file, 0, Doubling(n));
      && t.ObjectTree?
      && "a" in t.fields && t.fields["a"] == Eager(file, 0, Doubling(n - 1))
      && "b" in t.fields && t.fields["b"] == Eager(file, 0, Doubling(n - 1))
  {
    DoublingWraps(n - 1);
    var fs := Doubling(n).fields;
    assert OffsetAt(0, fs, 1) == 0;
    assert "a"[0] != "b"[0];
    assert EagerFields(file, 0, fs, 1)["a"] == Eager(file, 0, Doubling(n - 1));
    assert EagerFields(file, 0, fs, 2)["b"] == Eager(file, 0, Doubling(n - 1));
  }

  lemma HalfIsLong(file: FileBytes, n: nat)
    requires n >= 59
    ensures TrueSize(Doubling(n - 1)) / 8 >= |file|
  {
    DoublingSize(n - 1);
    WordPower();
    PowMonotone(64, n + 5);
    assert TrueSize(Doubling(n - 1)) >= TWO_TO_64;
  }

  /**
    * Past 2^64 bits the two decodings differ: on any file of eight bytes or more, the second
    * half of an accepted type is read from the start of the file again.
    */
  lemma WrapMisreads(file: FileBytes, n: nat)
    requires |file| >= 8 && n >= 59
    ensures var t := Eager(file, 0, Doubling(n));
      && t.ObjectTree?
      && "a" in t.fields && t.fields["a"] == Eager(file, 0, Doubling(n - 1))
      && "b" in t.fields && t.fields["b"] == Eager(file, 0, Doubling(n - 1))
    ensures Eager(file, 0, Doubling(n)) != Reference(file, 0, Doubling(n))
  {
    var half := TrueSize(Doubling(n - 1)) / 8;
    HalfIsLong(file, n);
    SecondHalfIsFirst(file, n);
    SecondHalfOfReference(file, n, half);
    DiffersPastEnd(file, half, n - 1);
  }

  lemma SecondHalfOfReference(file: FileBytes, n: nat, half: nat)
    requires n > 0 && half == TrueSize(Doubling(n - 1)) / 8
    ensures var t := Reference(file, 0, Doubling(n));
      t.ObjectTree? && "b" in t.fields && t.fields["b"] == Reference(file, half, Doubling(n - 1))
  {
    ReferenceOfDoubling(file, 0, n);
  }

  lemma DiffersPastEnd(file: FileBytes, at: nat, n: nat)
    requires |file| >= 8 && at >= |file|
    ensures Eager(file, 0, Doubling(n)) != Reference(file, at, Doubling(n))
  {
    FirstLeafOfDoubling(file, n);
    FirstLeafPastEnd(file, at, n);
  }
}
