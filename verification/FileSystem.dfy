/**
  * The abstract file reader every layer is built on, a concrete one over memory, and the
  * loop that reads a file to its end.
  */
module FileSystem {
  import opened Wrappers
  import opened Bits

  /** Files are small enough that every bit position fits in 64 bits. */
  type FileBytes = f: seq<byte> | |f| < 0x2000_0000_0000_0000

  /**
    * What the reader contract lets a `Read` of at most `max` bytes at `pos` do: a success gives
    * at least one byte unless none is asked for or none is left.
    */
  ghost predicate ReadAllowed(file: FileBytes, reliable: bool, pos: nat, max: nat,
                              ok: bool, count: nat, pos': nat)
  {
    if ok then
      && count <= max
      && pos + count <= |file|
      && pos' == pos + count
      && (count == 0 ==> max == 0 || pos == |file|)
    else
      !reliable && pos' == pos
  }

  /** What the reader contract lets a `Seek` to `target` do: a success clamps to the file. */
  ghost predicate SeekAllowed(file: FileBytes, reliable: bool, target: nat, ok: bool, pos': nat) {
    if ok then pos' == Min(target, |file|)
    else !reliable && pos' <= |file|
  }

  function Min(a: nat, b: nat): nat {
    if a <= b then a else b
  }

  /**
    * Any reader that keeps the documented contract: reads may be short by any amount, the
    * size may be unknown and, unless the reader is `reliable`, any call may fail.
    */
  class FileReader {
    const file: FileBytes
    const reliable: bool
    const sizeKnown: bool
    var pos: nat
    /** How many calls have failed so far. */
    var faults: nat

    ghost predicate Valid()
      reads this
    {
      pos <= |file|
    }

    constructor (file: FileBytes, pos: nat, reliable: bool, sizeKnown: bool)
      requires pos <= |file|
      ensures Valid()
      ensures this.file == file && this.pos == pos
      ensures this.reliable == reliable && this.sizeKnown == sizeKnown && faults == 0
    {
      this.file, this.pos, this.reliable, this.sizeKnown, faults := file, pos, reliable, sizeKnown, 0;
    }

    function Size(): Option<nat> {
      if sizeKnown then Some(|file|) else None
    }

    method Read(buffer: array<byte>, at: nat, max: nat) returns (ok: bool, count: nat)
      requires Valid() && at + max <= buffer.Length
      modifies this, buffer
      ensures Valid()
      ensures ReadAllowed(file, reliable, old(pos), max, ok, count, pos)
      ensures faults == old(faults) + if ok then 0 else 1
      ensures ok ==> forall i :: at <= i < at + count ==> buffer[i] == file[old(pos) + i - at]
      ensures forall i :: 0 <= i < at || at + max <= i < buffer.Length ==> buffer[i] == old(buffer[i])
    {
      if !reliable {
        var fails: bool := *;
        if fails {
          // A failing read may already have written to the output.
          var junk: byte := *;
          forall i | at <= i < at + max {
            buffer[i] := junk;
          }
          faults := faults + 1;
          return false, 0;
        }
      }
      var available := Min(max, |file| - pos);
      count :| 0 <= count <= available && (count == 0 ==> available == 0);
      forall i | 0 <= i < count {
        buffer[at + i] := file[pos + i];
      }
      pos := pos + count;
      ok := true;
    }

    method Seek(target: nat) returns (ok: bool, actual: nat)
      requires Valid()
      modifies this
      ensures Valid()
      ensures SeekAllowed(file, reliable, target, ok, pos)
      ensures faults == old(faults) + if ok then 0 else 1
      ensures ok ==> actual == pos
    {
      if !reliable {
        var fails: bool := *;
        if fails {
          var anywhere: nat :| anywhere <= |file|;
          pos, faults := anywhere, faults + 1;
          return false, target;
        }
      }
      pos := Min(target, |file|);
      return true, pos;
    }

    /** One turn of the loop below: grows `ret`, reads into the new part and cuts it to what came. */
    method ReadMore(ret: array<byte>, read: nat) returns (ok: bool, ret': array<byte>, count: nat)
      requires Valid() && ret[..] == file[..pos]
      modifies this
      ensures Valid() && fresh(ret')
      ensures ok ==> ret'[..] == file[..pos] && pos == old(pos) + count
      ensures ok && count == 0 ==> read == 0 || pos == |file|
      ensures faults == old(faults) + if ok then 0 else 1
      ensures reliable ==> ok
    {
      var offset := ret.Length;
      ret' := Resize(ret, offset + read);
      assert forall i :: 0 <= i < offset ==> ret'[i] == ret[..][i];
      ok, count := Read(ret', offset, read);
      if ok {
        assert forall i :: 0 <= i < offset + count ==> ret'[i] == file[i];
        ret' := Resize(ret', offset + count);
      }
    }

    /**
      * Reads the whole file, whatever the start position, the known size and the way reads
      * are split. On failure the caller's buffer is left alone.
      */
    method ReadFully(buffer: ByteVector, readSize: nat) returns (ok: bool)
      requires Valid() && readSize > 0
      modifies this, buffer
      ensures Valid()
      ensures ok ==> buffer.data == file && pos == |file|
      ensures !ok ==> buffer.data == old(buffer.data)
      ensures faults == old(faults) + if ok then 0 else 1
      ensures reliable ==> ok
    {
      var sought, _ := Seek(0);
      if !sought {
        return false;
      }
      var ret := new byte[0];
      var size := Size();
      var first := true;
      while true
        invariant Valid() && fresh(ret)
        invariant ret[..] == file[..pos]
        invariant buffer.data == old(buffer.data) && faults == old(faults)
        invariant size == if first then Size() else None
        decreases first, |file| - pos
      {
        var read := size.GetOr(readSize);
        size := None;
        var got, count;
        got, ret, count := ReadMore(ret, read);
        if !got {
          return false;
        }
        if count == 0 {
          buffer.data := ret[..];
          return true;
        }
        first := false;
      }
    }
  }

  /** `std::vector::resize`: keeps what fits and fills the rest with zeros. */
  method Resize(a: array<byte>, n: nat) returns (r: array<byte>)
    ensures fresh(r) && r.Length == n
    ensures forall i :: 0 <= i < n && i < a.Length ==> r[i] == a[i]
  {
    r := new byte[n](i requires 0 <= i reads a => if i < a.Length then a[i] else 0);
  }

  /** A growable byte buffer owned by a caller. */
  class ByteVector {
    var data: seq<byte>

    constructor ()
      ensures data == []
    {
      data := [];
    }
  }

  /** The reader over an in-memory file: it never fails and never reads short. */
  class MemoryFileReader {
    const buffer: FileBytes
    var pos: nat

    ghost predicate Valid()
      reads this
    {
      pos <= |buffer|
    }

    constructor (buffer: FileBytes, pos: nat)
      requires pos <= |buffer|
      ensures Valid() && this.buffer == buffer && this.pos == pos
    {
      this.buffer, this.pos := buffer, pos;
    }

    method Read(output: array<byte>, at: nat, max: nat) returns (ok: bool, count: nat)
      requires Valid() && at + max <= output.Length
      modifies this, output
      ensures Valid() && ok
      ensures count == Min(max, |buffer| - old(pos))
      ensures ReadAllowed(buffer, true, old(pos), max, ok, count, pos)
      ensures forall i :: at <= i < at + count ==> output[i] == buffer[old(pos) + i - at]
      ensures forall i :: 0 <= i < at || at + max <= i < output.Length ==> output[i] == old(output[i])
    {
      count := Min(max, |buffer| - pos);
      forall i | 0 <= i < count {
        output[at + i] := buffer[pos + i];
      }
      pos := pos + count;
      ok := true;
    }

    method Seek(target: nat) returns (ok: bool, actual: nat)
      requires Valid()
      modifies this
      ensures Valid() && ok
      ensures SeekAllowed(buffer, true, target, ok, pos)
      ensures actual == pos
    {
      pos := Min(|buffer|, target);
      return true, pos;
    }
  }
}
