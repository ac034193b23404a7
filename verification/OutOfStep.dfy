/**
  * What happens to a window whose reader has been moved by someone else: by a second parse over
  * the same reader, or by a read that failed after it had moved.
  */
module OutOfStep {
  import opened Wrappers
  import opened Bits
  import opened Sizes
  import opened Errors
  import opened Numbers
  import opened Options
  import opened FileSystem
  import opened Buffered
  import opened IntegerReads
  import opened Types
  import opened IntegerFields
  import opened Objects

  /** A right window gives its own bytes and goes on with those at the reader. */
  lemma StreamOfWindow(window: BufferedFileReader, position: Size)
    requires window.Sound() && window.InWindow(position)
    ensures var k, end := position / 8, window.startPosition / 8 + window.used;
      && k <= end <= |window.reader.file|
      && window.StreamFrom(position) == window.reader.file[k..end] + window.reader.file[window.reader.pos..]
  {
    window.InWindowBounds(position);
    var k, end, i := position / 8, window.startPosition / 8 + window.used, (position - window.startPosition) / 8;
    assert window.buffer[i..window.used] == window.reader.file[k..end];
  }

  /** Only the bytes of the field itself count. */
  lemma FirstBytesDecide(a: seq<byte>, b: seq<byte>, o: nat, t: Type)
    requires t.Integer? && o < 8
    requires var span := SpanBytes(o, t.size); |a| >= span && |b| >= span && a[..span] == b[..span]
    ensures DecodeBytes(a, o, t) == DecodeBytes(b, o, t)
  {
  }

  /** A field that the window has whole is read rightly, wherever the reader has been moved. */
  lemma WholeFieldIsRight(window: BufferedFileReader, position: Size, t: Type)
    requires t.Integer? && window.Sound() && window.InWindow(position)
    requires position / 8 + SpanBytes(BitOffset(position), t.size) <= window.startPosition / 8 + window.used
    ensures DecodeBytes(window.StreamFrom(position), BitOffset(position), t)
            == DecodeInteger(window.reader.file, position, t)
  {
    var file, o := window.reader.file, BitOffset(position);
    var k, end, span := position / 8, window.startPosition / 8 + window.used, SpanBytes(BitOffset(position), t.size);
    StreamOfWindow(window, position);
    assert (file[k..end] + file[window.reader.pos..])[..span] == file[k..k + span] == FileFrom(file, position)[..span];
    FirstBytesDecide(window.StreamFrom(position), FileFrom(file, position), o, t);
    DecodeInStep(file, position, t);
  }

  /** The word of whole bytes, which tells them apart. */
  lemma WordOfBytes(bytes: seq<byte>, t: Type)
    requires t.Integer? && t.size % 8 == 0 && |bytes| == t.size / 8
    ensures SpanBytes(0, t.size) == |bytes|
    ensures RawValue(bytes, 0, t.size, t.order) == BytesValue(bytes, t.order)
    ensures RawValue(bytes, 0, t.size, t.order) < Pow2(t.size)
  {
    LittleBound(bytes);
    BigValueOfBits(bytes);
    BitsBound(bytes, 0, 8 * |bytes|);
  }

  lemma SameWordIff(v: nat, w: nat, t: Type)
    requires t.Integer? && v < Pow2(t.size) && w < Pow2(t.size)
    ensures WordNumber(v, t.size, t.sign) == WordNumber(w, t.size, t.sign) <==> v == w
  {
    WordNumberValue(v, t.size, t.sign);
    WordNumberValue(w, t.size, t.sign);
  }

  /** Two streams give one value to whole bytes exactly if they agree on them or both end before. */
  lemma SameDecodingIff(a: seq<byte>, b: seq<byte>, t: Type)
    requires t.Integer? && t.size % 8 == 0
    ensures var n := t.size / 8;
      DecodeBytes(a, 0, t) == DecodeBytes(b, 0, t) <==>
      (|a| < n && |b| < n) || (|a| >= n && |b| >= n && a[..n] == b[..n])
  {
    var n := t.size / 8;
    assert SpanBytes(0, t.size) == n;
    if |a| >= n && |b| >= n {
      WordOfBytes(a[..n], t);
      WordOfBytes(b[..n], t);
      SameWordIff(RawValue(a[..n], 0, t.size, t.order), RawValue(b[..n], 0, t.size, t.order), t);
      BigInjective(a[..n], b[..n]);
      LittleInjective(a[..n], b[..n]);
    }
  }

  /** Going on at `q` is going on at `end`, as far as `n` bytes from `k` reach, if the bytes are the same. */
  lemma SameStreamIff(file: FileBytes, k: nat, end: nat, q: nat, n: nat)
    requires k <= end <= |file| && q <= |file| && k + n > end
    ensures var a, b, m := file[k..end] + file[q..], file[k..], k + n - end;
      (|a| >= n <==> q + m <= |file|) && (|b| >= n <==> end + m <= |file|) &&
      (|a| >= n && |b| >= n ==> (a[..n] == b[..n] <==> SameBytes(file, q, end, m)))
  {
    var a, b, m := file[k..end] + file[q..], file[k..], k + n - end;
    if |a| >= n && |b| >= n {
      if a[..n] == b[..n] {
        forall i | q <= i < q + m
          ensures file[i] == file[i - q + end]
        {
          assert a[..n][i - q + (end - k)] == b[..n][i - q + (end - k)];
        }
      }
      if SameBytes(file, q, end, m) {
        forall i | 0 <= i < n
          ensures a[..n][i] == b[..n][i]
        {
          if i >= end - k {
            assert file[i - (end - k) + q] == file[i - (end - k) + q - q + end];
          }
        }
      }
    }
  }

  /**
    * Whole bytes across the window's end are read rightly exactly if the file has, where the
    * reader has been moved to, the bytes that belong at the window's end, or too few in both places.
    */
  lemma AcrossIsRightIff(window: BufferedFileReader, position: Size, t: Type)
    requires t.Integer? && t.size % 8 == 0 && position % 8 == 0
    requires window.Sound() && window.InWindow(position)
    requires position / 8 + t.size / 8 > window.startPosition / 8 + window.used
    ensures var file, q, end := window.reader.file, window.reader.pos, window.startPosition / 8 + window.used;
      var m := position / 8 + t.size / 8 - end;
      DecodeBytes(window.StreamFrom(position), 0, t) == DecodeInteger(file, position, t) <==>
      (q + m > |file| && end + m > |file|) || (q + m <= |file| && SameBytes(file, q, end, m))
  {
    var file, k, end := window.reader.file, position / 8, window.startPosition / 8 + window.used;
    StreamOfWindow(window, position);
    DecodeInStep(file, position, t);
    SameDecodingIff(file[k..end] + file[window.reader.pos..], file[k..], t);
    SameStreamIff(file, k, end, window.reader.pos, t.size / 8);
  }

  // A history

  const WORD: Type := Integer("uint64", 64, Unsigned, OrderUnset)
  const WORDS: Type := Definition("words", [Field("a", WORD), Field("b", WORD)])

  /** Twenty-four bytes, each one its own offset. */
  function CountingFile(): (file: FileBytes)
    ensures |file| == 24 && forall i :: 0 <= i < 24 ==> file[i] == i
  {
    seq(24, i requires 0 <= i < 24 => i)
  }

  /** Eight bytes of which the first was in the window and the others come from further on. */
  function MixedBytes(): (bytes: seq<byte>)
    ensures |bytes| == 8
  {
    [8] + CountingFile()[16..23]
  }

  /** A window of nine bytes that a full read has filled. */
  method FilledWindow(reader: FileReader) returns (window: BufferedFileReader)
    requires reader.Valid() && reader.reliable && reader.file == CountingFile()
    modifies reader
    ensures fresh(window) && fresh(window.buffer) && window.reader == reader
    ensures window.Ready() && window.startPosition == 0 && window.used == window.buffer.Length == 9
  {
    window := new BufferedFileReader(reader, 9);
    var sought := window.Seek(0);
    var filled := window.EnsureBuffer(72);
  }

  /** An object of two words with nothing cached. */
  method NewWords(window: BufferedFileReader) returns (obj: FileObject)
    ensures fresh(obj) && obj.file == window && obj.ty == WORDS && obj.start == 0
    ensures obj.Valid() && obj.Complete() && forall i :: 0 <= i < 2 ==> obj.parsedFields[i].value == None
  {
    WordsAreSized();
    obj := new FileObject(window, WORDS, 0);
    var laidOut := obj.ReparseObject();
  }

  lemma WordsAreSized()
    ensures StaticSize(WORDS).Some?
    ensures OffsetAt(0, WORDS.fields, 1) == 64
  {
    ResolvedIffSized(WORDS);
  }

  /** The reader is moved by another window over it, as a second parse of the file moves it. */
  method MoveReader(reader: FileReader)
    requires reader.Valid() && reader.reliable && reader.file == CountingFile()
    modifies reader
    ensures reader.Valid() && reader.pos == 16
  {
    var other := new BufferedFileReader(reader, 9);
    var skipped := other.Seek(128);
  }

  /**
    * A history with no failing call in it: asked for the second word after the reader under the
    * window has been moved, the object answers with, and caches, a number the file does not hold.
    */
  method MisreadIsCached() returns (obj: FileObject, r: Result<()>)
    ensures obj.ty == WORDS && obj.start == 0 && obj.LaidOut() && obj.Complete()
    ensures obj.file.reader.file == CountingFile() && obj.file.reader.reliable
    ensures r.Ok? && obj.parsedFields[1].value == Some(NumberValue(UnsignedNumber(BigValue(MixedBytes()))))
    ensures DecodeInteger(CountingFile(), 64, WORD) == Ok(UnsignedNumber(BigValue(CountingFile()[8..16])))
    ensures BigValue(MixedBytes()) != BigValue(CountingFile()[8..16])
  {
    var reader := new FileReader(CountingFile(), 0, true, true);
    var window := FilledWindow(reader);
    obj := NewWords(window);
    MoveReader(reader);
    r := AskSecond(obj);
    SecondWord();
    MixedDiffers();
  }

  method AskSecond(obj: FileObject) returns (r: Result<()>)
    requires obj.ty == WORDS && obj.start == 0 && obj.Valid() && obj.Complete() && obj.parsedFields[1].value == None
    requires obj.file.Sound() && obj.file.startPosition == 0 && obj.file.used == 9
    requires obj.file.reader.file == CountingFile() && obj.file.reader.reliable && obj.file.reader.pos == 16
    modifies obj`parsedFields, obj.file, obj.file.buffer, obj.file.reader
    ensures obj.LaidOut() && obj.Complete()
    ensures r.Ok? && obj.parsedFields[1].value == Some(NumberValue(UnsignedNumber(BigValue(MixedBytes()))))
  {
    WordsAreSized();
    MixedStream(obj.file);
    r := obj.EnsureField(1);
  }

  /** What is read across the end of that window. */
  lemma MixedStream(window: BufferedFileReader)
    requires window.Sound() && window.startPosition == 0 && window.used == 9
    requires window.reader.file == CountingFile() && window.reader.pos == 16
    ensures DecodeBytes(window.StreamFrom(64), 0, WORD) == Ok(UnsignedNumber(BigValue(MixedBytes())))
  {
    StreamOfWindow(window, 64);
    var stream := window.StreamFrom(64);
    assert stream[..8] == MixedBytes();
    BigValueOfBits(MixedBytes());
  }

  lemma SecondWord()
    ensures DecodeInteger(CountingFile(), 64, WORD) == Ok(UnsignedNumber(BigValue(CountingFile()[8..16])))
  {
    var word := CountingFile()[8..16];
    DecodeInStep(CountingFile(), 64, WORD);
    assert FileFrom(CountingFile(), 64)[..8] == word;
    BigValueOfBits(word);
  }

  lemma MixedDiffers()
    ensures BigValue(MixedBytes()) != BigValue(CountingFile()[8..16])
  {
    assert MixedBytes()[7] == 22 && CountingFile()[8..16][7] == 15;
    BigInjective(MixedBytes(), CountingFile()[8..16]);
  }
}
