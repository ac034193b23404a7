/** The sliding-window cache that every parsed object of one file reads through. */
module Buffered {
  import opened Bits
  import opened Sizes
  import opened FileSystem

  /** A window larger than nine bytes holds any 64-bit field at any bit offset. */
  const MIN_BUFFER: nat := 9
  const MAX_BUFFER: nat := 0x100_0000_0000

  class BufferedFileReader {
    const reader: FileReader
    const buffer: array<byte>
    var startPosition: Size
    var bufferOffset: Size
    var used: nat

    /** What holds of the fields between any two calls, successful or not. */
    ghost predicate Shape()
      reads this
    {
      && MIN_BUFFER <= buffer.Length < MAX_BUFFER
      && used <= buffer.Length
      && startPosition % 8 == 0
      && bufferOffset <= 8 * used + 7
    }

    /** All that a call needs. Whether what it reads is right is another matter. */
    ghost predicate Usable()
      reads this, reader
    {
      Shape() && reader.Valid()
    }

    /** The window holds the file's bytes from `startPosition` on. */
    ghost predicate WindowMatches()
      reads this, buffer
      requires Shape()
    {
      && startPosition / 8 + used <= |reader.file|
      && forall i :: 0 <= i < used ==> buffer[i] == reader.file[startPosition / 8 + i]
    }

    /** The underlying reader stands at the end of the window, clamped to the file. */
    ghost predicate Synced()
      reads this, reader
    {
      reader.pos == Min(startPosition / 8 + used, |reader.file|)
    }

    /** A window that has bytes is right, wherever the underlying reader stands. */
    ghost predicate Sound()
      reads this, buffer, reader
    {
      Usable() && (used > 0 ==> WindowMatches())
    }

    /** A window that has bytes is right and can be extended. An empty one may be out of step. */
    ghost predicate Coherent()
      reads this, buffer, reader
    {
      Sound() && (used > 0 ==> Synced())
    }

    /** Coherent, and the underlying reader is in step: reading may go on from here. */
    ghost predicate Ready()
      reads this, buffer, reader
    {
      Coherent() && Synced()
    }

    constructor (reader: FileReader, bufferSize: nat)
      requires reader.Valid()
      requires MIN_BUFFER <= bufferSize < MAX_BUFFER
      ensures Coherent() && fresh(buffer)
      ensures this.reader == reader && Position() == 0 && used == 0
      ensures buffer.Length == bufferSize
    {
      this.reader := reader;
      buffer := new byte[bufferSize](_ => 0);
      startPosition, bufferOffset, used := 0, 0, 0;
    }

    function Position(): Size
      reads this
    {
      Plus(startPosition, bufferOffset)
    }

    /** The bytes buffered from the position on. */
    function Available(): int
      reads this
    {
      used - bufferOffset / 8
    }

    /** The buffered bytes from the position on. */
    ghost function FromPosition(): seq<byte>
      reads this, buffer
      requires Shape()
    {
      buffer[bufferOffset / 8..used]
    }

    /** All the bytes that reads from the position on will give, right or not. */
    ghost function Stream(): seq<byte>
      reads this, buffer, reader
      requires Usable()
    {
      FromPosition() + reader.file[reader.pos..]
    }

    predicate InWindow(position: Size)
      reads this
    {
      startPosition <= position && position < Plus(startPosition, FromBytes(used))
    }

    /** What the stream will be after a seek that succeeds. */
    ghost function StreamFrom(position: Size): seq<byte>
      reads this, buffer, reader
      requires Usable()
    {
      if InWindow(position) && position - startPosition <= 8 * used
      then buffer[(position - startPosition) / 8..used] + reader.file[reader.pos..]
      else FileFrom(reader.file, position)
    }

    /** The bytes of the file from the position on; negative past the end. */
    ghost function Left(): int
      reads this
    {
      |reader.file| - Position() / 8
    }

    /** The bits asked for are buffered, or everything up to the end of the file is. */
    ghost predicate Covers(size: Size)
      reads this
    {
      || 8 * Available() >= bufferOffset % 8 + size
      || Available() == if Left() > 0 then Left() else 0
    }

    /** No end of window or position wraps around while the window is coherent. */
    lemma NoWrap()
      requires Sound()
      ensures startPosition + 8 * used < TWO_TO_64
      ensures Position() == startPosition + bufferOffset
      ensures Position() / 8 == startPosition / 8 + bufferOffset / 8
      ensures Position() % 8 == bufferOffset % 8
    {
    }

    /** The bits within the first byte are the same for the position and for the buffer. */
    lemma OffsetInByte()
      requires Shape()
      ensures BitOffset(Position()) == bufferOffset % 8
    {
    }

    /** The buffered bytes at the position are the file's bytes there. */
    lemma AvailableBytes()
      requires Coherent()
      ensures 0 <= Available()
      ensures Available() > 0 ==> Available() <= Left()
      ensures Available() > 0 ==>
        forall i :: bufferOffset / 8 <= i < used ==>
          buffer[i] == reader.file[Position() / 8 + i - bufferOffset / 8]
    {
      NoWrap();
    }

    /** In step, what will be read is the file from the position on. */
    lemma StreamInStep()
      requires Ready()
      ensures Stream() == FileFrom(reader.file, Position())
    {
      NoWrap();
      if used > 0 {
        WindowSlice();
        Pieces(reader.file, Position() / 8, reader.pos);
      }
    }

    lemma WindowSlice()
      requires Ready() && used > 0
      ensures Position() / 8 <= reader.pos == startPosition / 8 + used
      ensures FromPosition() == reader.file[Position() / 8..reader.pos]
    {
      NoWrap();
    }

    /** Moves within the window without any read, and anywhere else by starting an empty window. */
    method Seek(position: Size) returns (ok: bool)
      requires Usable()
      modifies this, reader
      ensures Usable() && Position() == position
      ensures old(Sound()) ==> Sound()
      ensures old(Coherent()) ==> Coherent() && (ok ==> Ready())
      ensures ok ==> Stream() == old(StreamFrom(position))
      ensures !ok ==> used == 0 && !reader.reliable
      ensures reader.faults == old(reader.faults) + if ok then 0 else 1
      ensures old(InWindow(position)) ==>
        ok && startPosition == old(startPosition) && used == old(used) && reader.pos == old(reader.pos)
      ensures !old(InWindow(position)) ==> used == 0 && bufferOffset < 8 && (ok ==> Ready())
    {
      if startPosition <= position && position < Plus(startPosition, FromBytes(used)) {
        MoveTo(position);
        return true;
      }
      ok := Restart(position);
    }

    /** Moves within the window. */
    method MoveTo(position: Size)
      requires Usable() && InWindow(position)
      modifies this`bufferOffset
      ensures Usable() && Position() == position
      ensures old(Sound()) ==> Sound()
      ensures old(Coherent()) ==> Coherent() && Ready()
      ensures Stream() == old(StreamFrom(position))
    {
      InWindowBounds(position);
      bufferOffset := Minus(position, startPosition);
    }

    lemma InWindowBounds(position: Size)
      requires Shape() && InWindow(position)
      ensures 0 <= Minus(position, startPosition) == position - startPosition < 8 * used
      ensures Plus(startPosition, position - startPosition) == position
    {
    }

    /** Starts an empty window at the byte of a position. */
    method Restart(position: Size) returns (ok: bool)
      requires Usable()
      modifies this, reader
      ensures Coherent() && Position() == position && used == 0 && bufferOffset < 8
      ensures ok ==> Ready() && Stream() == FileFrom(reader.file, position)
      ensures !ok ==> !reader.reliable
      ensures reader.faults == old(reader.faults) + if ok then 0 else 1
    {
      startPosition := ClipToByte(position);
      bufferOffset := BitOffset(position);
      used := 0;
      var actual;
      ok, actual := reader.Seek(ByteCount(position));
    }

    method Skip(count: Size) returns (ok: bool)
      requires Usable()
      modifies this, reader
      ensures Usable() && Position() == Plus(old(Position()), count)
      ensures old(Coherent()) ==> Coherent() && (ok ==> Ready())
      ensures !ok ==> used == 0 && !reader.reliable
      ensures reader.faults == old(reader.faults) + if ok then 0 else 1
    {
      ok := Seek(Plus(Plus(startPosition, bufferOffset), count));
    }

    /** The `memmove` of a compaction. */
    method MoveToFront(count: nat)
      requires count <= buffer.Length
      modifies buffer
      ensures forall i :: 0 <= i < buffer.Length - count ==> buffer[i] == old(buffer[i + count])
    {
      forall i | 0 <= i < buffer.Length - count {
        buffer[i] := buffer[i + count];
      }
    }

    /** Moves the bytes from the position on to the front of the buffer. */
    method Compact() returns (count: nat)
      requires Usable()
      modifies this, buffer
      ensures Usable() && (old(Sound()) ==> Sound()) && (old(Ready()) ==> Ready())
      ensures Position() == old(Position()) && Available() == old(Available())
      ensures count == old(bufferOffset) / 8
      ensures bufferOffset == old(bufferOffset) % 8 && used == old(used) - count
      ensures forall i :: 0 <= i < used ==> buffer[i] == old(buffer[i + count])
    {
      count := ByteCount(bufferOffset);
      MoveToFront(count);
      Rebase(count);
    }

    /** Compacts the window if the bits would not fit behind it. */
    method MakeRoom(size: Size)
      requires Usable()
      requires size <= 8 * buffer.Length + 7
      modifies this, buffer
      ensures Usable() && (old(Ready()) ==> Ready())
      ensures Position() == old(Position()) && Available() == old(Available())
      ensures FromPosition() == old(FromPosition())
      ensures bufferOffset + size <= 8 * buffer.Length || bufferOffset < 8
      ensures old(bufferOffset) + size <= 8 * old(used) ==>
        startPosition == old(startPosition) && bufferOffset == old(bufferOffset) && used == old(used)
    {
      if Plus(bufferOffset, size) > FromBytes(buffer.Length) {
        var count := Compact();
        assert FromPosition() == old(FromPosition());
      }
    }

    /** Starts the window `count` bytes later, at the byte of the position. */
    method Rebase(count: nat)
      requires Shape() && count == bufferOffset / 8
      modifies this
      ensures Shape()
      ensures Position() == old(Position())
      ensures old(startPosition) + 8 * old(used) < TWO_TO_64 ==> startPosition / 8 == old(startPosition) / 8 + count
      ensures bufferOffset == old(bufferOffset) % 8 && used == old(used) - count
    {
      used := used - count;
      startPosition := Plus(startPosition, FromBytes(count));
      bufferOffset := BitOffset(bufferOffset);
    }

    /**
      * Buffers `size` bits from the position on, or up to the end of the file. The position
      * does not move, no byte buffered from it on is given up and bits that are there already
      * cost no read. What is appended is read where the underlying reader stands, which is the
      * right place for a reader in step only.
      */
    method EnsureBuffer(size: Size) returns (ok: bool)
      requires Usable()
      requires size <= 8 * buffer.Length + 7
      modifies this, buffer, reader
      ensures Usable() && (old(Ready()) ==> Ready())
      ensures Position() == old(Position()) && Stream() == old(Stream())
      ensures Available() >= old(Available())
      ensures old(Ready()) && ok ==> Covers(size) || Available() == buffer.Length
      ensures old(reader.pos) <= reader.pos
      ensures FromPosition() == old(FromPosition()) + reader.file[old(reader.pos)..reader.pos]
      ensures ok ==>
        8 * Available() >= bufferOffset % 8 + size || reader.pos == |reader.file| || Available() == buffer.Length
      ensures !ok ==> !reader.reliable
      ensures reader.faults == old(reader.faults) + if ok then 0 else 1
      ensures old(bufferOffset) + size <= 8 * old(used) ==>
        ok && startPosition == old(startPosition) && used == old(used) && reader.pos == old(reader.pos)
    {
      MakeRoom(size);
      ok := Fill(size);
      SameStream(old(FromPosition()), old(reader.pos));
      EndCovers(size);
    }

    /** Moving bytes from the file into the window does not change what will be read. */
    lemma SameStream(before: seq<byte>, q: nat)
      requires Usable() && q <= reader.pos && FromPosition() == before + reader.file[q..reader.pos]
      ensures Stream() == before + reader.file[q..]
    {
      Pieces(reader.file, q, reader.pos);
    }

    /** In step, having read to the end of the file is having all there is from the position on. */
    lemma EndCovers(size: Size)
      requires Shape()
      ensures Ready() && reader.pos == |reader.file| ==> Covers(size)
      ensures Ready() && 8 * Available() >= bufferOffset % 8 + size ==> Covers(size)
    {
      if Ready() {
        NoWrap();
      }
    }

    /** The read loop: on, until the bits are there, the file ends or the buffer is full. */
    method Fill(size: Size) returns (ok: bool)
      requires Usable()
      requires size <= 8 * buffer.Length + 7
      requires bufferOffset + size <= 8 * buffer.Length || bufferOffset < 8
      modifies this`used, buffer, reader
      ensures Usable() && (old(Ready()) ==> Ready())
      ensures used >= old(used) && reader.pos == old(reader.pos) + used - old(used)
      ensures FromPosition() == old(FromPosition()) + reader.file[old(reader.pos)..reader.pos]
      ensures ok ==>
        || bufferOffset + size <= 8 * used
        || reader.pos == |reader.file|
        || (used == buffer.Length && bufferOffset < 8)
      ensures !ok ==> !reader.reliable
      ensures reader.faults == old(reader.faults) + if ok then 0 else 1
      ensures bufferOffset + size <= 8 * old(used) ==> ok && used == old(used) && reader.pos == old(reader.pos)
    {
      while Plus(bufferOffset, size) > FromBytes(used)
        invariant Usable() && (old(Ready()) ==> Ready())
        invariant used >= old(used) && reader.pos == old(reader.pos) + used - old(used)
        invariant reader.faults == old(reader.faults)
        invariant FromPosition() == old(FromPosition()) + reader.file[old(reader.pos)..reader.pos]
        invariant bufferOffset + size <= 8 * old(used) ==> used == old(used)
        decreases buffer.Length - used
      {
        var got, count := Extend();
        if !got {
          return false;
        }
        if count == 0 {
          break;
        }
      }
      return true;
    }

    /**
      * One read of the loop above, into the free part of the buffer. A right window stays right
      * exactly if the file holds the same bytes where they belong as where they were read.
      */
    method Extend() returns (ok: bool, count: nat)
      requires Usable()
      modifies this`used, buffer, reader
      ensures Usable() && (old(Ready()) ==> Ready())
      ensures used == old(used) + (if ok then count else 0) && reader.pos == old(reader.pos) + used - old(used)
      ensures FromPosition() == old(FromPosition()) + reader.file[old(reader.pos)..reader.pos]
      ensures ok && count == 0 ==> used == buffer.Length || reader.pos == |reader.file|
      ensures old(WindowMatches()) ==>
        (WindowMatches() <==> SameBytes(reader.file, old(reader.pos), startPosition / 8 + old(used), used - old(used)))
      ensures !ok ==> !reader.reliable
      ensures reader.faults == old(reader.faults) + if ok then 0 else 1
    {
      ghost var before, q, was := used, reader.pos, FromPosition();
      ok, count := ReadOn();
      FromPositionGrows(was, before, q);
      if old(WindowMatches()) {
        MatchesIff(before, q);
      }
    }

    method ReadOn() returns (ok: bool, count: nat)
      requires Usable()
      modifies this`used, buffer, reader
      ensures Usable() && (old(Ready()) ==> Ready())
      ensures used == old(used) + (if ok then count else 0) && reader.pos == old(reader.pos) + used - old(used)
      ensures forall i :: 0 <= i < old(used) ==> buffer[i] == old(buffer[i])
      ensures forall i :: old(used) <= i < used ==> buffer[i] == reader.file[old(reader.pos) + i - old(used)]
      ensures ok && count == 0 ==> used == buffer.Length || reader.pos == |reader.file|
      ensures !ok ==> !reader.reliable
      ensures reader.faults == old(reader.faults) + if ok then 0 else 1
    {
      ok, count := reader.Read(buffer, used, buffer.Length - used);
      if ok {
        used := used + count;
      }
    }

    lemma FromPositionGrows(was: seq<byte>, before: nat, q: nat)
      requires Shape() && bufferOffset / 8 <= before <= used && q + used - before <= |reader.file|
      requires was == buffer[bufferOffset / 8..before]
      requires forall i :: before <= i < used ==> buffer[i] == reader.file[q + i - before]
      ensures FromPosition() == was + reader.file[q..q + used - before]
    {
    }

    /** A window whose bytes after the first `before` were read at `q` of the file. */
    lemma MatchesIff(before: nat, q: nat)
      requires Shape() && before <= used && q + used - before <= |reader.file|
      requires startPosition / 8 + before <= |reader.file|
      requires forall i :: 0 <= i < before ==> buffer[i] == reader.file[startPosition / 8 + i]
      requires forall i :: before <= i < used ==> buffer[i] == reader.file[q + i - before]
      ensures WindowMatches() <==> SameBytes(reader.file, q, startPosition / 8 + before, used - before)
    {
      if WindowMatches() {
        forall i | q <= i < q + used - before
          ensures reader.file[i] == reader.file[i - q + (startPosition / 8 + before)]
        {
          assert buffer[i - q + before] == reader.file[i];
        }
      }
      if SameBytes(reader.file, q, startPosition / 8 + before, used - before) {
        forall i | before <= i < used
          ensures buffer[i] == reader.file[startPosition / 8 + i]
        {
          assert reader.file[q + i - before] == reader.file[q + i - before - q + (startPosition / 8 + before)];
        }
      }
    }

    /**
      * The buffered bytes at the position: `size` of them from `buffer[at]` on. They are the
      * first of the stream; if there are none the stream has ended.
      */
    method GetBuffer() returns (ok: bool, at: nat, size: nat)
      requires Usable()
      modifies this, buffer, reader
      ensures Usable() && (old(Ready()) ==> Ready())
      ensures Position() == old(Position()) && Stream() == old(Stream())
      ensures Available() >= old(Available())
      ensures ok ==> at == bufferOffset / 8 && size == Available() && at + size <= buffer.Length
      ensures ok ==> buffer[at..at + size] == Stream()[..size]
      ensures ok && size == 0 ==> Stream() == []
      ensures !ok ==> !reader.reliable
      ensures reader.faults == old(reader.faults) + if ok then 0 else 1
    {
      ok := EnsureBuffer(1);
      if !ok {
        return false, 0, 0;
      }
      at := ByteCount(bufferOffset);
      size := used - ByteCount(bufferOffset);
      FirstOf(FromPosition(), reader.file[reader.pos..]);
      assert buffer[at..at + size] == FromPosition() && size == |FromPosition()|;
      assert Stream() == FromPosition() + reader.file[reader.pos..];
    }

    /** In step, what `GetBuffer` finds are the file's bytes from the position on. */
    lemma FoundInStep(at: nat, size: nat)
      requires Ready() && at + size <= buffer.Length && size <= |Stream()|
      requires buffer[at..at + size] == Stream()[..size] && size > 0
      ensures size <= Left() && Position() / 8 + size <= |reader.file|
      ensures buffer[at..at + size] == reader.file[Position() / 8..Position() / 8 + size]
    {
      StreamInStep();
    }
  }

  lemma FirstOf(a: seq<byte>, b: seq<byte>)
    ensures (a + b)[..|a|] == a
  {
  }

  lemma Pieces(file: seq<byte>, i: nat, j: nat)
    requires i <= j <= |file|
    ensures file[i..j] + file[j..] == file[i..]
  {
  }

  /** The file from the byte of a position on; nothing past its end. */
  function FileFrom(file: FileBytes, position: Size): seq<byte> {
    file[Min(position / 8, |file|)..]
  }

  /** The file holds the same `n` bytes at `from` as at `to`. */
  predicate SameBytes(file: FileBytes, from: nat, to: nat, n: nat)
    requires from + n <= |file|
  {
    to + n <= |file| && forall i :: from <= i < from + n ==> file[i] == file[i - from + to]
  }

  /**
    * Why a failed read must not move the underlying reader: appending `n` bytes read at `from` to
    * a window that ends at `end` keeps it right for every file exactly when the two are one.
    */
  lemma InStepIff(from: nat, end: nat, n: nat)
    requires n > 0 && from + n < 0x2000_0000_0000_0000
    ensures (forall file: FileBytes | from + n <= |file| :: SameBytes(file, from, end, n)) <==> from == end
  {
    if from != end {
      var file := seq(from + n, i => if i == from then 1 else 0);
      assert file[from] == 1 && (end < |file| ==> file[end] == 0);
    }
  }
}
