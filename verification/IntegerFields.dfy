/** Reading an integer field through the window cache. */
module IntegerFields {
  import opened Bits
  import opened Sizes
  import opened Errors
  import opened Numbers
  import opened Options
  import opened FileSystem
  import opened Buffered
  import opened IntegerReads
  import opened Types

  /** What an integer at a bit position of a file reads as, with no window and no history. */
  function DecodeInteger(file: FileBytes, pos: Size, t: Type): Result<Number>
    requires t.Integer?
  {
    var o, span := BitOffset(pos), SpanBytes(BitOffset(pos), t.size);
    if t.order == LittleEndian && (o != 0 || (o + t.size) % 8 != 0) then Err(LittleEndianAlign)
    else if pos + t.size > 8 * |file| then Err(UnexpectedEndOfStream)
    else
      var w := file[ByteCount(pos)..ByteCount(pos) + span];
      Ok(WordNumber(RawValue(w, o, t.size, t.order), t.size, t.sign))
  }

  /**
    * What an integer reads as from a stream of bytes that starts with the byte of its position,
    * wherever those bytes come from.
    */
  function DecodeBytes(stream: seq<byte>, o: nat, t: Type): Result<Number>
    requires t.Integer? && o < 8
  {
    var span := SpanBytes(o, t.size);
    if t.order == LittleEndian && (o != 0 || (o + t.size) % 8 != 0) then Err(LittleEndianAlign)
    else if |stream| < span then Err(UnexpectedEndOfStream)
    else Ok(WordNumber(RawValue(stream[..span], o, t.size, t.order), t.size, t.sign))
  }

  /** From the file's own bytes the stream decodes as the file. */
  lemma DecodeInStep(file: FileBytes, pos: Size, t: Type)
    requires t.Integer?
    ensures DecodeBytes(FileFrom(file, pos), BitOffset(pos), t) == DecodeInteger(file, pos, t)
  {
    FitsInBytes(file, pos, t.size);
    var k, span := ByteCount(pos), SpanBytes(BitOffset(pos), t.size);
    if k + span <= |file| {
      assert FileFrom(file, pos)[..span] == file[k..k + span];
    }
  }

  /** The read fits or not, in bytes as the code counts and in bits as the file has them. */
  lemma FitsInBytes(file: FileBytes, pos: Size, size: FieldSize)
    ensures pos + size <= 8 * |file| <==>
            ByteCount(pos) + SpanBytes(BitOffset(pos), size) <= |file|
    ensures 1 <= SpanBytes(BitOffset(pos), size) <= 9
    ensures BitOffset(pos) + size <= 8 * SpanBytes(BitOffset(pos), size)
    ensures 8 * SpanBytes(BitOffset(pos), size) < BitOffset(pos) + size + 8
  {
  }

  /** The number that a decoded integer stands for, by the bits or bytes it covers. */
  function FieldValue(file: FileBytes, pos: Size, t: Type): nat
    requires t.Integer? && pos + t.size <= 8 * |file|
    requires t.order == LittleEndian ==> pos % 8 == 0 && t.size % 8 == 0
  {
    if t.order == LittleEndian
    then LittleValue(file[pos / 8..pos / 8 + t.size / 8])
    else BitsValue(file, pos, t.size)
  }

  /**
    * Decoding fails exactly for a misaligned little-endian field or one that is not wholly in
    * the file; otherwise, on the layouts that are read exactly, it gives the two's complement or
    * plain value of the field's bits.
    */
  lemma {:induction false} DecodeMeaning(file: FileBytes, pos: Size, t: Type)
    requires t.Integer?
    ensures DecodeInteger(file, pos, t).Ok? <==>
            pos + t.size <= 8 * |file| && (t.order == LittleEndian ==> pos % 8 == 0 && t.size % 8 == 0)
    ensures DecodeInteger(file, pos, t) == Err(LittleEndianAlign) <==>
            t.order == LittleEndian && (pos % 8 != 0 || t.size % 8 != 0)
    ensures DecodeInteger(file, pos, t).Err? ==>
      DecodeInteger(file, pos, t).kind in {LittleEndianAlign, UnexpectedEndOfStream}
    ensures DecodeInteger(file, pos, t).Ok? && (t.order == LittleEndian || ReadsExactly(BitOffset(pos), t.size)) ==>
            var v := FieldValue(file, pos, t);
            && DecodeInteger(file, pos, t).value.Canonical()
            && DecodeInteger(file, pos, t).value.Value() == if t.sign == Signed then TwosComplement(v, t.size) else v
  {
    FitsInBytes(file, pos, t.size);
    if DecodeInteger(file, pos, t).Ok? {
      if t.order == LittleEndian || ReadsExactly(BitOffset(pos), t.size) {
        RawFieldValue(file, pos, t);
        WordNumberValue(FieldValue(file, pos, t), t.size, t.sign);
      }
    }
  }

  /** The word assembled from the field's bytes is the field's value and fits its width. */
  lemma {:induction false} RawFieldValue(file: FileBytes, pos: Size, t: Type)
    requires t.Integer? && pos + t.size <= 8 * |file|
    requires if t.order == LittleEndian then pos % 8 == 0 && t.size % 8 == 0
             else ReadsExactly(BitOffset(pos), t.size)
    ensures var span := SpanBytes(BitOffset(pos), t.size);
            && ByteCount(pos) + span <= |file|
            && RawValue(file[ByteCount(pos)..ByteCount(pos) + span], BitOffset(pos), t.size, t.order)
               == FieldValue(file, pos, t)
    ensures FieldValue(file, pos, t) < Pow2(t.size)
  {
    FitsInBytes(file, pos, t.size);
    var o, k, span := BitOffset(pos), ByteCount(pos), SpanBytes(BitOffset(pos), t.size);
    var w := file[k..k + span];
    if t.order == LittleEndian {
      LittleBound(w);
    } else {
      BitsOfSlice(file, k, span, o, t.size);
      RawBigExact(w, o, t.size);
      BitsBound(w, o, t.size);
    }
  }

  /** Whole bytes from a byte boundary on, most significant byte first. */
  lemma {:induction false} AlignedBigEndian(file: FileBytes, pos: Size, t: Type)
    requires t.Integer? && t.order != LittleEndian && pos + t.size <= 8 * |file|
    requires pos % 8 == 0 && t.size % 8 == 0
    ensures FieldValue(file, pos, t) == BigValue(file[pos / 8..pos / 8 + t.size / 8])
  {
    var n := t.size / 8;
    BitsOfSlice(file, pos / 8, n, 0, 8 * n);
    BigValueOfBits(file[pos / 8..pos / 8 + n]);
  }

  /** A window in step with its reader decodes what the file has. */
  lemma InStep(t: Type, reader: BufferedFileReader)
    requires t.Integer? && reader.Usable()
    ensures reader.Ready() ==>
      DecodeBytes(reader.Stream(), BitOffset(reader.Position()), t) == DecodeInteger(reader.reader.file, reader.Position(), t)
  {
    if reader.Ready() {
      reader.StreamInStep();
      DecodeInStep(reader.reader.file, reader.Position(), t);
    }
  }

  /** The result is the stream's, or an I/O fault of a reader that may have one. */
  ghost predicate ReadsAs(r: Result<Number>, stream: seq<byte>, o: nat, t: Type, reliable: bool)
    requires t.Integer? && o < 8
  {
    r == DecodeBytes(stream, o, t) || (r == Err(IoError) && !reliable)
  }

  /**
    * The result is what the stream gives; in step with the reader that is what the file has. A
    * successful read moves the position past the field.
    */
  method ReadInteger(t: Type, reader: BufferedFileReader) returns (r: Result<Number>)
    requires t.Integer?
    requires reader.Usable()
    modifies reader, reader.buffer, reader.reader
    ensures reader.Usable() && (old(reader.Ready()) ==> reader.Coherent())
    ensures ReadsAs(r, old(reader.Stream()), BitOffset(old(reader.Position())), t, reader.reader.reliable)
    ensures old(reader.Ready()) ==>
      r == DecodeInteger(reader.reader.file, old(reader.Position()), t) || (r == Err(IoError) && !reader.reader.reliable)
    ensures reader.reader.faults == old(reader.reader.faults) + if r == Err(IoError) then 1 else 0
    ensures r.Ok? ==> reader.Position() == Plus(old(reader.Position()), t.size)
  {
    r := ReadNumber(t, reader);
    if r.Ok? {
      var skipped := reader.Skip(t.size);
      if !skipped {
        return Err(IoError);
      }
    }
  }

  /** All of the read but the last step, which moves the position. */
  method ReadNumber(t: Type, reader: BufferedFileReader) returns (r: Result<Number>)
    requires t.Integer?
    requires reader.Usable()
    modifies reader, reader.buffer, reader.reader
    ensures reader.Usable() && (old(reader.Ready()) ==> reader.Ready())
    ensures reader.Position() == old(reader.Position()) && reader.Stream() == old(reader.Stream())
    ensures ReadsAs(r, reader.Stream(), BitOffset(reader.Position()), t, reader.reader.reliable)
    ensures old(reader.Ready()) ==>
      r == DecodeInteger(reader.reader.file, reader.Position(), t) || (r == Err(IoError) && !reader.reader.reliable)
    ensures reader.reader.faults == old(reader.reader.faults) + if r == Err(IoError) then 1 else 0
  {
    InStep(t, reader);
    var size := t.size;
    var bitOffset := BitOffset(reader.Position());
    var byteCount := SpanBytes(bitOffset, size);
    if t.order == LittleEndian && (bitOffset != 0 || (bitOffset + size) % 8 != 0) {
      return Err(LittleEndianAlign);
    }
    var ok, enough, value := ReadWord(reader, size, t.order, bitOffset, byteCount);
    if !ok {
      return Err(IoError);
    }
    if !enough {
      return Err(UnexpectedEndOfStream);
    }
    return Ok(WordNumber(value, size, t.sign));
  }

  /** Buffers the bytes of a field and assembles its word, if there are enough of them. */
  method ReadWord(reader: BufferedFileReader, size: FieldSize, order: ByteOrder, bitOffset: nat, byteCount: nat)
    returns (ok: bool, enough: bool, value: nat)
    requires reader.Usable()
    requires bitOffset == BitOffset(reader.Position()) && byteCount == SpanBytes(bitOffset, size)
    requires order == LittleEndian ==> bitOffset == 0 && size % 8 == 0
    modifies reader, reader.buffer, reader.reader
    ensures reader.Usable() && (old(reader.Ready()) ==> reader.Ready())
    ensures reader.Position() == old(reader.Position()) && reader.Stream() == old(reader.Stream())
    ensures !ok ==> !reader.reader.reliable
    ensures reader.reader.faults == old(reader.reader.faults) + if ok then 0 else 1
    ensures ok ==> enough == (byteCount <= |reader.Stream()|)
    ensures ok && enough ==> value == RawValue(reader.Stream()[..byteCount], bitOffset, size, order)
  {
    SpanBounds(bitOffset, size);
    var at, available;
    ok, at, available := BufferField(reader, size, byteCount);
    if !ok {
      return false, false, 0;
    }
    enough := available >= byteCount;
    if !enough {
      return true, false, 0;
    }
    value := DecodeFound(reader.buffer, at, bitOffset, size, order, reader.Stream()[..byteCount]);
  }

  /** The word of a field whose bytes have been found in the window. */
  method DecodeFound(buffer: array<byte>, at: nat, bitOffset: nat, size: FieldSize, order: ByteOrder,
                     ghost bytes: seq<byte>) returns (value: nat)
    requires bitOffset < 8 && |bytes| == SpanBytes(bitOffset, size)
    requires at + |bytes| <= buffer.Length && buffer[at..at + |bytes|] == bytes
    requires order == LittleEndian ==> bitOffset == 0 && size % 8 == 0
    ensures value == RawValue(bytes, bitOffset, size, order)
  {
    value := DecodeBits(buffer, at, bitOffset, size, order);
  }

  lemma SpanBounds(o: nat, size: FieldSize)
    requires o < 8
    ensures 1 <= SpanBytes(o, size) <= 9 && o + size <= 8 * SpanBytes(o, size) < o + size + 8
  {
  }

  /**
    * Buffers a field of `size` bits in `byteCount` bytes and finds it: `available` bytes, fewer
    * than asked for exactly when the stream ends first.
    */
  method BufferField(reader: BufferedFileReader, size: FieldSize, byteCount: nat)
    returns (ok: bool, at: nat, available: nat)
    requires reader.Usable()
    requires 1 <= byteCount <= 9 && 8 * byteCount < BitOffset(reader.Position()) + size + 8
    modifies reader, reader.buffer, reader.reader
    ensures reader.Usable() && (old(reader.Ready()) ==> reader.Ready())
    ensures reader.Position() == old(reader.Position()) && reader.Stream() == old(reader.Stream())
    ensures !ok ==> !reader.reader.reliable
    ensures reader.reader.faults == old(reader.reader.faults) + if ok then 0 else 1
    ensures ok ==> (available >= byteCount <==> byteCount <= |reader.Stream()|)
    ensures ok ==> at + available <= reader.buffer.Length
    ensures ok && available >= byteCount ==> reader.buffer[at..at + byteCount] == reader.Stream()[..byteCount]
  {
    at, available := 0, 0;
    ok := BufferEnough(reader, size, byteCount);
    if ok {
      ok, at, available := FindBuffered(reader, byteCount);
    }
  }

  /** The second step: where the bytes are. */
  method FindBuffered(reader: BufferedFileReader, byteCount: nat) returns (ok: bool, at: nat, available: nat)
    requires reader.Usable()
    requires reader.Available() >= byteCount || reader.Available() == |reader.Stream()|
    modifies reader, reader.buffer, reader.reader
    ensures reader.Usable() && (old(reader.Ready()) ==> reader.Ready())
    ensures reader.Position() == old(reader.Position()) && reader.Stream() == old(reader.Stream())
    ensures !ok ==> !reader.reader.reliable
    ensures reader.reader.faults == old(reader.reader.faults) + if ok then 0 else 1
    ensures ok ==> (available >= byteCount <==> byteCount <= |reader.Stream()|)
    ensures ok ==> at + available <= reader.buffer.Length
    ensures ok && available >= byteCount ==> reader.buffer[at..at + byteCount] == reader.Stream()[..byteCount]
  {
    ok, at, available := reader.GetBuffer();
    if ok && available >= byteCount {
      ghost var found := reader.buffer[at..at + available];
      FirstBytes(found, reader.Stream(), byteCount);
      assert reader.buffer[at..at + byteCount] == found[..byteCount];
    }
  }

  /** The first step: enough is buffered, or all there is. */
  method BufferEnough(reader: BufferedFileReader, size: FieldSize, byteCount: nat) returns (ok: bool)
    requires reader.Usable()
    requires 1 <= byteCount <= 9 && 8 * byteCount < BitOffset(reader.Position()) + size + 8
    modifies reader, reader.buffer, reader.reader
    ensures reader.Usable() && (old(reader.Ready()) ==> reader.Ready())
    ensures reader.Position() == old(reader.Position()) && reader.Stream() == old(reader.Stream())
    ensures !ok ==> !reader.reader.reliable
    ensures reader.reader.faults == old(reader.reader.faults) + if ok then 0 else 1
    ensures ok ==> reader.Available() >= byteCount || reader.Available() == |reader.Stream()|
  {
    reader.OffsetInByte();
    ok := reader.EnsureBuffer(size);
    reader.OffsetInByte();
  }

  lemma FirstBytes(found: seq<byte>, stream: seq<byte>, n: nat)
    requires |found| <= |stream| && found == stream[..|found|]
    ensures n <= |found| ==> found[..n] == stream[..n]
  {
  }
}
