/**
 * ROM (src/rom.js): the constructor copies its data into a Uint32Array, so
 * every word is stored modulo 2^32; reads are word-aligned and writes are
 * ignored.
 */
module RomDevice {
  import opened Common

  datatype Rom = Rom(words: seq<bv32>)

  /** The size in bytes, four per word. */
  function Size(rom: Rom): nat
  {
    4 * |rom.words|
  }

  /** `new ROM(data)`. */
  function New(data: seq<int>): (rom: Rom)
    ensures |rom.words| == |data|
    ensures forall i :: 0 <= i < |data| ==> rom.words[i] == Wrap(data[i])
  {
    Rom(seq(|data|, i requires 0 <= i < |data| => Wrap(data[i])))
  }

  /** `read(offset)`: `undefined` (None) from an empty ROM; 0 outside the ROM or off a word
      boundary; otherwise the word at `offset / 4`. */
  function Read(rom: Rom, offset: int): (r: Option<bv32>)
    ensures r.None? <==> |rom.words| == 0
    ensures r.Some? && (offset < 0 || offset >= Size(rom) || offset % 4 != 0) ==> r.value == 0
    ensures |rom.words| > 0 && 0 <= offset < Size(rom) && offset % 4 == 0 ==> r == Some(rom.words[offset / 4])
  {
    if Size(rom) == 0 then None
    else if offset < 0 || offset >= Size(rom) then Some(0)
    else if offset % 4 != 0 then Some(0)
    else Some(rom.words[offset / 4])
  }

  /** `write(offset, value)`: a read-only device, so nothing changes and nothing fails. */
  function Write(rom: Rom, offset: int, value: int): (r: Rom)
    ensures Read(r, offset) == Read(rom, offset)
    ensures r.words == rom.words
  {
    rom
  }

  // ---------------------------------------------------------------------------
  // Properties

  /** Every word given to the constructor reads back, modulo 2^32, at four times its index. */
  lemma ReadsConstructorData(data: seq<int>, i: int)
    requires 0 <= i < |data|
    ensures Size(New(data)) == 4 * |data|
    ensures Read(New(data), 4 * i) == Some(Wrap(data[i]))
  {
    assert (4 * i) / 4 == i;
  }

  /** Unaligned or out-of-range offsets read 0; an empty ROM reads undefined everywhere. */
  lemma ReadZeroes(rom: Rom, offset: int)
    requires |rom.words| > 0
    requires offset < 0 || offset >= Size(rom) || offset % 4 != 0
    ensures Read(rom, offset) == Some(0)
  {
  }

  /** Writes never change what any offset reads. */
  lemma WriteInvisible(rom: Rom, offset: int, value: int, other: int)
    ensures Read(Write(rom, offset, value), other) == Read(rom, other)
  {
  }
}
