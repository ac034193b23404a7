/**
  * A decoder of whole bytes with no bound on offsets, and for exactly which types the objects'
  * decoding is the same.
  */
module ReferenceDecoder {
  import opened Bits
  import opened Sizes
  import opened Numbers
  import opened Options
  import opened Errors
  import opened Wrappers
  import opened FileSystem
  import opened Types
  import opened IntegerReads
  import opened IntegerFields
  import opened Objects
  import opened Trees
  import opened DefinitionTypes

  /** The number that an integer type gives to its bytes. */
  function IntegerOf(bytes: seq<byte>, t: Type): int
    requires t.Integer? && bytes != []
  {
    var v := BytesValue(bytes, t.order);
    if t.sign == Signed then TwosComplement(v, 8 * |bytes|) else v
  }

  /** Decoding by whole bytes: each field right after the one before it, with no bound on offsets. */
  function Reference(file: FileBytes, at: nat, t: Type): Tree
    decreases t
  {
    match t
    case Integer(_, size, _, _) =>
      var n := size / 8;
      if n == 0 || at + n > |file| then NullTree else NumberTree(IntegerOf(file[at..at + n], t))
    case Definition(_, fields) => ObjectTree(ReferenceFields(file, at, fields, |fields|))
    case Missing => NullTree
  }

  function ReferenceFields(file: FileBytes, at: nat, fields: seq<Field>, n: nat): map<string, Tree>
    requires n <= |fields|
    decreases fields, n
  {
    if n == 0 then map[]
    else
      ReferenceFields(file, at, fields, n - 1)[
        fields[n - 1].name := Reference(file, at + BytesBefore(fields, n - 1), fields[n - 1].ty)]
  }

  function BytesBefore(fields: seq<Field>, n: nat): nat
    requires n <= |fields|
  {
    TrueFieldsSize(fields[..n]) / 8
  }

  lemma WholeBytesExact(size: FieldSize)
    requires size in {8, 16, 32, 64}
    ensures ReadsExactly(0, size) && size == 8 * (size / 8) && size / 8 > 0
  {
  }

  /** The bit position of a byte, as the objects' offsets wrap it. */
  function Wrapped(at: nat): Size {
    if 8 * at < TWO_TO_64 then 8 * at else Wrapped(at - TWO_TO_64 / 8)
  }

  lemma {:induction false} WrappedIsModular(at: nat)
    ensures Wrapped(at) == 8 * at % TWO_TO_64
  {
    if 8 * at >= TWO_TO_64 {
      WrappedIsModular(at - TWO_TO_64 / 8);
    }
  }

  lemma {:induction false} WrappedAligned(at: nat)
    ensures Wrapped(at) % 8 == 0
  {
    if 8 * at >= TWO_TO_64 {
      WrappedAligned(at - TWO_TO_64 / 8);
    }
  }

  lemma WrappedSum(at: nat, more: nat)
    ensures Plus(Wrapped(at), 8 * more % TWO_TO_64) == Wrapped(at + more)
  {
    WrappedIsModular(at);
    WrappedIsModular(at + more);
    SumWraps(8 * at, 8 * more);
  }

  lemma IntegerIsReference(file: FileBytes, at: nat, t: Type)
    requires t.Integer? && WholeBytes(t) && 8 * at < TWO_TO_64
    ensures Eager(file, 8 * at, t) == Reference(file, at, t)
  {
    WholeBytesExact(t.size);
    BytesFit(file, at, t);
    if at + t.size / 8 <= |file| {
      BytesOfField(file, at, t);
      ValueOfField(file, 8 * at, t, file[at..at + t.size / 8]);
    }
  }

  lemma BytesFit(file: FileBytes, at: nat, t: Type)
    requires t.Integer? && WholeBytes(t) && 8 * at < TWO_TO_64
    ensures DecodeInteger(file, 8 * at, t).Ok? <==> at + t.size / 8 <= |file|
  {
    DecodeMeaning(file, 8 * at, t);
    WholeBytesExact(t.size);
  }

  lemma ValueOfField(file: FileBytes, pos: Size, t: Type, bytes: seq<byte>)
    requires t.Integer? && WholeBytes(t) && pos % 8 == 0 && t.size == 8 * |bytes|
    requires pos + t.size <= 8 * |file|
    requires FieldValue(file, pos, t) == BytesValue(bytes, t.order)
    ensures Eager(file, pos, t) == NumberTree(IntegerOf(bytes, t))
  {
    DecodeMeaning(file, pos, t);
    WholeBytesExact(t.size);
  }

  lemma BytesOfField(file: FileBytes, at: nat, t: Type)
    requires t.Integer? && WholeBytes(t) && 8 * at < TWO_TO_64 && at + t.size / 8 <= |file|
    ensures FieldValue(file, 8 * at, t) == BytesValue(file[at..at + t.size / 8], t.order)
  {
    WholeBytesExact(t.size);
    if t.order != LittleEndian {
      AlignedBigEndian(file, 8 * at, t);
    }
  }

  /** Some integer of the type placed at byte `at` starts 2^64 bits or more into the file. */
  predicate StartsPast(at: nat, t: Type)
    decreases t
  {
    match t
    case Integer(_, _, _, _) => 8 * at >= TWO_TO_64
    case Definition(_, fields) =>
      exists k :: 0 <= k < |fields| && FieldStartsPast(at, fields, k)
    case Missing => false
  }

  predicate FieldStartsPast(at: nat, fields: seq<Field>, k: nat)
    requires k < |fields|
    decreases fields, k
  {
    StartsPast(at + BytesBefore(fields, k), fields[k].ty)
  }

  /** Some integer is read although it starts past 2^64 bits: where its offset has wrapped to, the file has bytes. */
  predicate Misreads(file: FileBytes, at: nat, t: Type)
    decreases t
  {
    match t
    case Integer(_, size, _, _) => 8 * at >= TWO_TO_64 && Wrapped(at) + size <= 8 * |file|
    case Definition(_, fields) =>
      exists k :: 0 <= k < |fields| && FieldMisreads(file, at, fields, k)
    case Missing => false
  }

  predicate FieldMisreads(file: FileBytes, at: nat, fields: seq<Field>, k: nat)
    requires k < |fields|
    decreases fields, k
  {
    Misreads(file, at + BytesBefore(fields, k), fields[k].ty)
  }

  lemma {:induction false} MisreadStartsPast(file: FileBytes, at: nat, t: Type)
    requires Misreads(file, at, t)
    ensures StartsPast(at, t)
    decreases t
  {
    if t.Definition? {
      var k: nat :| k < |t.fields| && FieldMisreads(file, at, t.fields, k);
      MisreadStartsPast(file, at + BytesBefore(t.fields, k), t.fields[k].ty);
      assert FieldStartsPast(at, t.fields, k);
    }
  }

  predicate Plain(fields: seq<Field>) {
    forall i :: 0 <= i < |fields| ==> Resolved(fields[i].ty) && WholeBytes(fields[i].ty)
  }

  lemma BytesAdd(fields: seq<Field>, n: nat)
    requires n < |fields| && Plain(fields)
    ensures 8 * BytesBefore(fields, n + 1) == 8 * BytesBefore(fields, n) + TrueSize(fields[n].ty)
  {
    assert fields[..n + 1][..n] == fields[..n];
    FieldsSizeAligned(fields[..n]);
    FieldsSizeAligned(fields[..n + 1]);
  }

  lemma NextStart(at: nat, before: nat, after: nat, size: nat)
    requires 8 * after == 8 * before + size
    ensures Plus(Wrapped(at + before), size % TWO_TO_64) == Wrapped(at + after)
  {
    assert size == 8 * (after - before);
    WrappedSum(at + before, after - before);
  }

  /** The running offsets are the true byte positions, wrapped. */
  lemma {:induction false} FieldStart(at: nat, fields: seq<Field>, n: nat)
    requires n <= |fields| && Plain(fields)
    ensures OffsetAt(Wrapped(at), fields, n) == Wrapped(at + BytesBefore(fields, n))
  {
    if n == 0 {
      assert fields[..0] == [];
    } else {
      var before, after, size := BytesBefore(fields, n - 1), BytesBefore(fields, n), TrueSize(fields[n - 1].ty);
      FieldStart(at, fields, n - 1);
      BytesAdd(fields, n - 1);
      StaticSizeWraps(fields[n - 1].ty);
      NextStart(at, before, after, size);
      assert OffsetAt(Wrapped(at), fields, n) == Plus(Wrapped(at + before), size % TWO_TO_64);
    }
  }

  lemma IntegerAgreesIff(file: FileBytes, at: nat, t: Type)
    requires t.Integer? && WholeBytes(t)
    ensures Eager(file, Wrapped(at), t) == Reference(file, at, t) <==> !Misreads(file, at, t)
  {
    WholeBytesExact(t.size);
    if 8 * at < TWO_TO_64 {
      IntegerIsReference(file, at, t);
    } else {
      WrappedAligned(at);
      DecodeMeaning(file, Wrapped(at), t);
      assert at >= |file|;
    }
  }

  /**
    * The objects' decoding, by wrapping bit offsets, windows of bytes and shifts, is the
    * reference decoding where no integer is misread.
    */
  lemma {:induction false} EagerIsReference(file: FileBytes, at: nat, t: Type)
    requires Resolved(t) && WholeBytes(t) && !Misreads(file, at, t)
    ensures Eager(file, Wrapped(at), t) == Reference(file, at, t)
    decreases t
  {
    match t
    case Integer(_, _, _, _) =>
      IntegerAgreesIff(file, at, t);
    case Definition(_, fields) =>
      forall k | 0 <= k < |fields|
        ensures FieldAgrees(file, at, fields, k)
      {
        assert !FieldMisreads(file, at, fields, k);
        EagerIsReference(file, at + BytesBefore(fields, k), fields[k].ty);
        FieldAgreesIff(file, at, fields, k, at + BytesBefore(fields, k));
      }
      FieldsAgree(file, at, fields, |fields|);
  }

  /** One field decodes as the reference does. */
  predicate FieldAgrees(file: FileBytes, at: nat, fields: seq<Field>, k: nat)
    requires k < |fields|
  {
    Eager(file, OffsetAt(Wrapped(at), fields, k), fields[k].ty)
    == Reference(file, at + BytesBefore(fields, k), fields[k].ty)
  }

  lemma FieldAgreesIff(file: FileBytes, at: nat, fields: seq<Field>, k: nat, start: nat)
    requires k < |fields| && Plain(fields) && start == at + BytesBefore(fields, k)
    ensures FieldAgrees(file, at, fields, k) <==>
            Eager(file, Wrapped(start), fields[k].ty) == Reference(file, start, fields[k].ty)
  {
    FieldStart(at, fields, k);
  }

  lemma {:induction false} FieldsAgree(file: FileBytes, at: nat, fields: seq<Field>, n: nat)
    requires n <= |fields| && forall k :: 0 <= k < |fields| ==> FieldAgrees(file, at, fields, k)
    ensures EagerFields(file, Wrapped(at), fields, n) == ReferenceFields(file, at, fields, n)
  {
    if n > 0 {
      FieldsAgree(file, at, fields, n - 1);
      assert FieldAgrees(file, at, fields, n - 1);
    }
  }

  lemma {:induction false} ReferenceFieldsSpec(file: FileBytes, at: nat, fields: seq<Field>, n: nat, name: string)
    requires n <= |fields|
    ensures name in ReferenceFields(file, at, fields, n) <==> name in NameMap(fields, n)
    ensures name in NameMap(fields, n) ==>
      var i := NameMap(fields, n)[name];
      && i < n
      && ReferenceFields(file, at, fields, n)[name] == Reference(file, at + BytesBefore(fields, i), fields[i].ty)
  {
    if n > 0 {
      ReferenceFieldsSpec(file, at, fields, n - 1, name);
    }
  }

  lemma FieldDiffers(file: FileBytes, at: nat, t: Type, k: nat)
    requires t.Definition? && NamesApart(t) && k < |t.fields|
    requires !FieldAgrees(file, at, t.fields, k)
    ensures Eager(file, Wrapped(at), t) != Reference(file, at, t)
  {
    OwnName(t, k);
    EagerFieldsSpec(file, Wrapped(at), t.fields, |t.fields|, t.fields[k].name);
    ReferenceFieldsSpec(file, at, t.fields, |t.fields|, t.fields[k].name);
  }

  lemma OwnName(t: Type, k: nat)
    requires t.Definition? && NamesApart(t) && k < |t.fields|
    ensures t.fields[k].name in NameMap(t.fields, |t.fields|)
    ensures NameMap(t.fields, |t.fields|)[t.fields[k].name] == k
  {
    NameMapSpec(t.fields, |t.fields|, t.fields[k].name);
  }

  /** Where names are distinct, one misread integer makes the whole differ. */
  lemma {:induction false} MisreadDiffers(file: FileBytes, at: nat, t: Type)
    requires Resolved(t) && WholeBytes(t) && NamesApart(t) && Misreads(file, at, t)
    ensures Eager(file, Wrapped(at), t) != Reference(file, at, t)
    decreases t
  {
    match t
    case Integer(_, _, _, _) =>
      IntegerAgreesIff(file, at, t);
    case Definition(_, fields) =>
      var k: nat :| k < |fields| && FieldMisreads(file, at, fields, k);
      MisreadDiffers(file, at + BytesBefore(fields, k), fields[k].ty);
      FieldAgreesIff(file, at, fields, k, at + BytesBefore(fields, k));
      FieldDiffers(file, at, t, k);
  }

  /** One file decodes as the reference does if and only if no integer is misread in it. */
  lemma EagerIsReferenceIff(file: FileBytes, at: nat, t: Type)
    requires Resolved(t) && WholeBytes(t) && NamesApart(t)
    ensures Eager(file, Wrapped(at), t) == Reference(file, at, t) <==> !Misreads(file, at, t)
  {
    if Misreads(file, at, t) {
      MisreadDiffers(file, at, t);
    } else {
      EagerIsReference(file, at, t);
    }
  }

  lemma {:induction false} PrefixSize(fields: seq<Field>, n: nat)
    requires n <= |fields|
    ensures TrueFieldsSize(fields[..n]) <= TrueFieldsSize(fields)
    decreases |fields|
  {
    if n == |fields| {
      assert fields[..n] == fields;
    } else {
      assert fields[..|fields| - 1][..n] == fields[..n];
      PrefixSize(fields[..|fields| - 1], n);
    }
  }

  /** In a type that ends within 2^64 bits no integer starts past them. The converse fails. */
  lemma {:induction false} FitsStartsBelow(at: nat, t: Type)
    requires Resolved(t) && WholeBytes(t) && 8 * at + TrueSize(t) <= TWO_TO_64
    ensures !StartsPast(at, t)
    decreases t
  {
    if t.Definition? {
      forall k | 0 <= k < |t.fields|
        ensures !FieldStartsPast(at, t.fields, k)
      {
        BytesAdd(t.fields, k);
        PrefixSize(t.fields, k + 1);
        FieldsSizeAligned(t.fields[..k + 1]);
        FitsStartsBelow(at + BytesBefore(t.fields, k), t.fields[k].ty);
      }
    }
  }

  // Past 2^64 bits

  /** The last bit position at which the first integer past 2^64 bits can start. */
  const NEAR: nat := TWO_TO_64 + 56

  /** A type of which no integer starts past 2^64 bits does not end far past them. */
  lemma {:induction false} EndsNear(at: nat, t: Type)
    requires WholeBytes(t) && Resolved(t) && !StartsPast(at, t) && 8 * at <= NEAR
    ensures 8 * at + TrueSize(t) <= NEAR
    decreases t, 1, 0
  {
    if t.Definition? {
      assert forall k :: 0 <= k < |t.fields| ==> (FieldStartsPast(at, t.fields, k) ==> StartsPast(at, t));
      FieldsEndNear(at, t.fields, |t.fields|);
      FieldsSizeAligned(t.fields);
      assert t.fields[..|t.fields|] == t.fields;
    }
  }

  lemma {:induction false} FieldsEndNear(at: nat, fields: seq<Field>, n: nat)
    requires n <= |fields| && Plain(fields) && 8 * at <= NEAR
    requires forall k :: 0 <= k < n ==> !FieldStartsPast(at, fields, k)
    ensures 8 * (at + BytesBefore(fields, n)) <= NEAR
    decreases fields, 0, n
  {
    if n == 0 {
      assert fields[..0] == [];
    } else {
      FieldsEndNear(at, fields, n - 1);
      assert !FieldStartsPast(at, fields, n - 1);
      EndsNear(at + BytesBefore(fields, n - 1), fields[n - 1].ty);
      BytesAdd(fields, n - 1);
    }
  }

  /** The first field with an integer past 2^64 bits starts near them. */
  lemma {:induction false} FirstPast(at: nat, fields: seq<Field>, n: nat) returns (k: nat, start: nat)
    requires n < |fields| && FieldStartsPast(at, fields, n)
    requires Plain(fields) && 8 * at <= NEAR
    ensures k < |fields| && start == at + BytesBefore(fields, k) && 8 * start <= NEAR
    ensures StartsPast(start, fields[k].ty)
  {
    if j: nat :| j < n && FieldStartsPast(at, fields, j) {
      k, start := FirstPast(at, fields, j);
    } else {
      k, start := n, at + BytesBefore(fields, n);
      FieldsEndNear(at, fields, n);
    }
  }

  /** The first integer past 2^64 bits is misread in every file of fifteen bytes or more. */
  lemma {:induction false} PastIsMisread(file: FileBytes, at: nat, t: Type)
    requires Resolved(t) && WholeBytes(t)
    requires StartsPast(at, t) && 8 * at <= NEAR && |file| >= 15
    ensures Misreads(file, at, t)
    decreases t
  {
    match t
    case Integer(_, _, _, _) =>
      assert Wrapped(at) == Wrapped(at - TWO_TO_64 / 8) == 8 * at - TWO_TO_64;
    case Definition(_, fields) =>
      var n: nat :| n < |fields| && FieldStartsPast(at, fields, n);
      var k, start := FirstPast(at, fields, n);
      PastIsMisread(file, start, fields[k].ty);
      assert FieldMisreads(file, at, fields, k);
  }

  /** For files of fifteen bytes or more the file makes no difference. */
  lemma MisreadIff(file: FileBytes, t: Type)
    requires Resolved(t) && WholeBytes(t) && |file| >= 15
    ensures Misreads(file, 0, t) <==> StartsPast(0, t)
  {
    if StartsPast(0, t) {
      PastIsMisread(file, 0, t);
    } else if Misreads(file, 0, t) {
      MisreadStartsPast(file, 0, t);
    }
  }

  /**
    * The objects decode every file as the reference does if and only if no integer of the type
    * starts 2^64 bits or more into it.
    */
  lemma ReferenceOnAllFilesIff(t: Type)
    requires Resolved(t) && WholeBytes(t) && NamesApart(t)
    ensures (forall file: FileBytes :: Eager(file, 0, t) == Reference(file, 0, t)) <==> !StartsPast(0, t)
  {
    if StartsPast(0, t) {
      var file: FileBytes := seq(15, _ => 0);
      MisreadIff(file, t);
      EagerIsReferenceIff(file, 0, t);
    } else {
      forall file: FileBytes
        ensures Eager(file, 0, t) == Reference(file, 0, t)
      {
        if Misreads(file, 0, t) {
          MisreadStartsPast(file, 0, t);
        }
        EagerIsReference(file, 0, t);
      }
    }
  }

  // One path at a time

  /** What the reference decoder has at the end of a path, or why nothing can be read there. */
  function ReferenceAlong(file: FileBytes, at: nat, t: Type, path: seq<string>): Result<Tree>
    decreases |path|
  {
    if path == [] then
      if t.Integer? && at + t.size / 8 > |file| then Err(UnexpectedEndOfStream) else Ok(Reference(file, at, t))
    else if t.Definition? && path[0] in NameMap(t.fields, |t.fields|) then
      NameMapSpec(t.fields, |t.fields|, path[0]);
      var i := NameMap(t.fields, |t.fields|)[path[0]];
      ReferenceAlong(file, at + BytesBefore(t.fields, i), t.fields[i].ty, path[1..])
    else Ok(NullTree)
  }

  /** It is the part of the reference decoding at the path, with null for what cannot be read. */
  lemma {:induction false} ReferenceAlongIsTreeAt(file: FileBytes, at: nat, t: Type, path: seq<string>)
    ensures TreeAt(Reference(file, at, t), path) ==
            match ReferenceAlong(file, at, t, path)
            case Ok(tree) => tree
            case Err(_) => NullTree
    decreases |path|
  {
    if path != [] && t.Definition? {
      ReferenceFieldsSpec(file, at, t.fields, |t.fields|, path[0]);
      if path[0] in NameMap(t.fields, |t.fields|) {
        var i := NameMap(t.fields, |t.fields|)[path[0]];
        ReferenceAlongIsTreeAt(file, at + BytesBefore(t.fields, i), t.fields[i].ty, path[1..]);
      }
    }
  }

  lemma HereIsReference(file: FileBytes, at: nat, t: Type)
    requires Resolved(t) && WholeBytes(t) && !Misreads(file, at, t)
    ensures ReadHere(file, Place(Wrapped(at), t)) == ReferenceAlong(file, at, t, [])
  {
    EagerIsReference(file, at, t);
    if t.Integer? {
      HereFailsIff(file, at, t);
    }
  }

  lemma HereFailsIff(file: FileBytes, at: nat, t: Type)
    requires t.Integer? && WholeBytes(t) && !Misreads(file, at, t)
    ensures ReadHere(file, Place(Wrapped(at), t)).Err? <==> at + t.size / 8 > |file|
    ensures ReadHere(file, Place(Wrapped(at), t)).Err? ==>
      ReadHere(file, Place(Wrapped(at), t)) == Err(UnexpectedEndOfStream)
  {
    WrappedAligned(at);
    WholeBytesExact(t.size);
    AlignedError(file, Place(Wrapped(at), t));
  }

  lemma StepWrapped(at: nat, t: Type, name: string, i: nat)
    requires t.Definition? && Resolved(t) && WholeBytes(t) && i < |t.fields|
    requires name in NameMap(t.fields, |t.fields|) && NameMap(t.fields, |t.fields|)[name] == i
    ensures Step(Place(Wrapped(at), t), name) == Some(Place(Wrapped(at + BytesBefore(t.fields, i)), t.fields[i].ty))
  {
    FieldStart(at, t.fields, i);
  }

  /** Along every path the objects find what the reference decoder finds, errors included. */
  lemma {:induction false} AlongIsReference(file: FileBytes, at: nat, t: Type, path: seq<string>)
    requires Resolved(t) && WholeBytes(t) && !Misreads(file, at, t)
    ensures ReadAlong(file, Place(Wrapped(at), t), path) == ReferenceAlong(file, at, t, path)
    decreases |path|
  {
    if path == [] {
      HereIsReference(file, at, t);
    } else if t.Definition? && path[0] in NameMap(t.fields, |t.fields|) {
      NameMapSpec(t.fields, |t.fields|, path[0]);
      var i := NameMap(t.fields, |t.fields|)[path[0]];
      assert !FieldMisreads(file, at, t.fields, i);
      StepWrapped(at, t, path[0], i);
      AlongIsReference(file, at + BytesBefore(t.fields, i), t.fields[i].ty, path[1..]);
    }
  }
}
