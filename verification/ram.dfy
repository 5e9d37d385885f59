/**
 * RAM (src/ram.js): `size` bytes behind a DataView, read and written as
 * little-endian 32-bit words. Offsets outside [0, size) are ignored (a read
 * yields 0); an offset among the last three bytes makes the DataView access
 * throw a RangeError.
 */
module RamDevice {
  import opened Common

  datatype Ram = Ram(bytes: seq<bv8>)

  /** `new RAM(size)`: all bytes zero. */
  function New(size: nat): (m: Ram)
    ensures |m.bytes| == size
    ensures forall i :: 0 <= i < size ==> m.bytes[i] == 0
  {
    Ram(seq(size, _ => 0))
  }

  /** `read(offset)`: the little-endian word at `offset`, or 0 out of range. */
  function Read(m: Ram, offset: int): (r: Result<bv32>)
    ensures offset < 0 || offset >= |m.bytes| ==> r == Ok(0)
    ensures 0 <= offset < |m.bytes| ==> (r.Err? <==> offset + 4 > |m.bytes|)
    ensures r.Err? ==> r.error == RangeError
  {
    if offset < 0 || offset >= |m.bytes| then Ok(0)
    else if offset + 4 > |m.bytes| then Err(RangeError)
    else Ok(LeWord(m.bytes[offset], m.bytes[offset + 1], m.bytes[offset + 2], m.bytes[offset + 3]))
  }

  /** `setUint32(offset, w, true)` for an offset already known to be in range. */
  function WriteWord(m: Ram, offset: int, w: bv32): (r: Result<Ram>)
    ensures offset < 0 || offset >= |m.bytes| ==> r == Ok(m)
    ensures 0 <= offset < |m.bytes| ==> (r.Err? <==> offset + 4 > |m.bytes|)
    ensures r.Err? ==> r.error == RangeError
    ensures r.Ok? ==> |r.value.bytes| == |m.bytes|
    ensures r.Ok? ==> forall i :: 0 <= i < |m.bytes| && !(offset <= i < offset + 4) ==> r.value.bytes[i] == m.bytes[i]
    ensures r.Ok? && 0 <= offset < |m.bytes| ==> forall j :: 0 <= j < 4 ==> r.value.bytes[offset + j] == ByteOf(w, j)
  {
    if offset < 0 || offset >= |m.bytes| then Ok(m)
    else if offset + 4 > |m.bytes| then Err(RangeError)
    else Ok(Ram(m.bytes[..offset] + LeBytes(w) + m.bytes[offset + 4..]))
  }

  /** `write(offset, value)`: the value is stored modulo 2^32. */
  function Write(m: Ram, offset: int, value: int): (r: Result<Ram>)
    ensures offset < 0 || offset >= |m.bytes| ==> r == Ok(m)
    ensures 0 <= offset < |m.bytes| ==> (r.Err? <==> offset + 4 > |m.bytes|)
    ensures r.Err? ==> r.error == RangeError
    ensures r.Ok? ==> |r.value.bytes| == |m.bytes|
    ensures r.Ok? ==> forall i :: 0 <= i < |m.bytes| && !(offset <= i < offset + 4) ==> r.value.bytes[i] == m.bytes[i]
    ensures r.Ok? && 0 <= offset < |m.bytes| ==> forall j :: 0 <= j < 4 ==> r.value.bytes[offset + j] == ByteOf(Wrap(value), j)
  {
    WriteWord(m, offset, Wrap(value))
  }

  // ---------------------------------------------------------------------------
  // Properties

  /** A fresh RAM reads 0 at every offset where a word fits (and out of range). */
  lemma FreshReadsZero(size: nat, offset: int)
    requires offset < 0 || offset + 4 <= size || offset >= size
    ensures Read(New(size), offset) == Ok(0)
  {
  }

  /** A word written where it fits reads back as the value modulo 2^32. */
  lemma WriteThenRead(m: Ram, offset: int, value: int)
    requires 0 <= offset && offset + 4 <= |m.bytes|
    ensures Write(m, offset, value).Ok?
    ensures Read(Write(m, offset, value).value, offset) == Ok(Wrap(value))
  {
    var w := Wrap(value);
    var r := Write(m, offset, value).value;
    assert r.bytes[offset] == ByteOf(w, 0) && r.bytes[offset + 1] == ByteOf(w, 1);
    assert r.bytes[offset + 2] == ByteOf(w, 2) && r.bytes[offset + 3] == ByteOf(w, 3);
    LeWordBytes(w);
  }

  /** Words stored little-endian: byte offset + j of RAM is byte j of the value. */
  lemma WriteLittleEndian(m: Ram, offset: int, value: int, j: int)
    requires 0 <= offset && offset + 4 <= |m.bytes| && 0 <= j < 4
    ensures Write(m, offset, value).Ok?
    ensures Write(m, offset, value).value.bytes[offset + j] == ByteOf(Wrap(value), j)
  {
  }

  /** A write leaves the words that do not overlap it as they were. */
  lemma WriteOtherWord(m: Ram, offset: int, value: int, other: int)
    requires 0 <= offset && offset + 4 <= |m.bytes|
    requires other + 4 <= offset || offset + 4 <= other
    ensures Write(m, offset, value).Ok?
    ensures Read(Write(m, offset, value).value, other) == Read(m, other)
  {
  }

  /** Out of range, a read yields 0 and a write changes nothing; neither fails. */
  lemma OutOfRange(m: Ram, offset: int, value: int)
    requires offset < 0 || offset >= |m.bytes|
    ensures Read(m, offset) == Ok(0)
    ensures Write(m, offset, value) == Ok(m)
  {
  }

  /** The last three offsets throw a RangeError, for reads and writes alike. */
  lemma TailRangeError(m: Ram, offset: int, value: int)
    requires |m.bytes| - 3 <= offset < |m.bytes| && 0 <= offset
    ensures Read(m, offset) == Err(RangeError)
    ensures Write(m, offset, value) == Err(RangeError)
  {
  }
}
