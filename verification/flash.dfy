/**
 * The flash device and its programmer (src/flash.js).
 *
 * The flash keeps a buffer with one 32-bit slot per BYTE of its size (a
 * `Uint32Array(sizeInBytes)`), reads word-aligned offsets from slot `offset / 4`,
 * and refuses direct writes. The programmer is a small register file bound to
 * one flash: a control register (bit 0 write enable, bit 1 auto-increment), an
 * offset register, a write-only value register that ANDs a word into the slot
 * at the current offset, and a write-only page-erase register.
 */
module FlashMemory {
  import opened Common

  const PAGE_SIZE: int := 4096
  const ERASED: bv32 := 0xFFFF_FFFF

  /** A flash of `size` bytes; `bounds` is the `options.bounds` switch. */
  datatype Flash = Flash(size: nat, buffer: seq<bv32>, bounds: bool)

  /** The buffer has exactly one slot per byte of the declared size. */
  ghost predicate Valid(f: Flash)
  {
    |f.buffer| == f.size
  }

  /** The programmer's registers. */
  datatype Programmer = Programmer(control: int, offset: int)

  /** A flash together with the programmer bound to it. */
  datatype FlashUnit = FlashUnit(flash: Flash, prog: Programmer)

  /** `new Flash(size, initialData)`: every slot erased, then slot i takes byte i of the data. */
  function New(size: nat, initial: seq<bv8>): (r: Result<Flash>)
    ensures r.Err? <==> |initial| > size
    ensures r.Err? ==> r.error == InitialDataTooLarge
    ensures r.Ok? ==> Valid(r.value) && r.value.size == size && r.value.bounds
    ensures r.Ok? ==> forall i :: 0 <= i < |initial| ==> r.value.buffer[i] == Widen(initial[i])
    ensures r.Ok? ==> forall i :: |initial| <= i < size ==> r.value.buffer[i] == ERASED
  {
    if |initial| > size then Err(InitialDataTooLarge)
    else Ok(Flash(size, seq(size, i requires 0 <= i < size => if i < |initial| then Widen(initial[i]) else ERASED), true))
  }

  /** `Flash.read(offset)`. */
  function Read(f: Flash, offset: int): (r: Result<Option<bv32>>)
    requires Valid(f)
    ensures f.size == 0 <==> r == Ok(None)
    ensures f.size > 0 && (offset < 0 || offset >= f.size) ==>
              r == if f.bounds then Err(FlashOutOfBounds) else Ok(Some(ERASED))
    ensures f.size > 0 && 0 <= offset < f.size && offset % 4 != 0 ==> r == Err(FlashUnaligned)
    ensures f.size > 0 && 0 <= offset < f.size && offset % 4 == 0 ==> r == Ok(Some(f.buffer[offset / 4]))
  {
    if f.size == 0 then Ok(None)
    else if offset < 0 || offset >= f.size then
      if f.bounds then Err(FlashOutOfBounds) else Ok(Some(ERASED))
    else if offset % 4 != 0 then Err(FlashUnaligned)
    else Ok(Some(f.buffer[offset / 4]))
  }

  /** `Flash.write(offset, value)`: direct writes are always refused. */
  function Write(f: Flash, offset: int, value: int): (r: Result<Flash>)
    ensures r == Err(FlashDirectWrite)
  {
    Err(FlashDirectWrite)
  }

  /** `getSnapshot()`: `size` bytes, each slot contributing its bytes little-endian. */
  function Snapshot(f: Flash): (s: seq<bv8>)
    requires Valid(f)
    ensures |s| == f.size
  {
    seq(f.size, i requires 0 <= i < f.size => ByteOf(f.buffer[i / 4], i % 4))
  }

  /** `getProgrammer()`: both registers start at zero. */
  function NewProgrammer(): (p: Programmer)
    ensures p.control == 0 && p.offset == 0
  {
    Programmer(0, 0)
  }

  /** `Programmer.read(address)`. */
  function ProgRead(p: Programmer, address: int): (r: Result<int>)
    ensures address == 0x00 ==> r == Ok(p.control)
    ensures address == 0x04 ==> r == Ok(p.offset)
    ensures address == 0x08 || address == 0x20 ==> r == Err(WriteOnlyRegister)
    ensures address !in {0x00, 0x04, 0x08, 0x20} ==> r == Err(ProgrammerAddress)
  {
    if address == 0x00 then Ok(p.control)
    else if address == 0x04 then Ok(p.offset)
    else if address == 0x08 || address == 0x20 then Err(WriteOnlyRegister)
    else Err(ProgrammerAddress)
  }

  /** The typed-array store `buffer[offset / 4] = w`: ignored unless `offset / 4` is a valid index. */
  function StoreSlot(buffer: seq<bv32>, offset: int, w: bv32): (b: seq<bv32>)
    ensures |b| == |buffer|
    ensures forall i :: 0 <= i < |buffer| && i * 4 != offset ==> b[i] == buffer[i]
    ensures 0 <= offset && offset % 4 == 0 && offset / 4 < |buffer| ==> b[offset / 4] == w
  {
    if 0 <= offset && offset % 4 == 0 && offset / 4 < |buffer| then buffer[offset / 4 := w] else buffer
  }

  /** `flash.read(offset) >>> 0`: an undefined read converts to 0. */
  function ToWord(v: Option<bv32>): bv32
  {
    match v
    case None => 0
    case Some(w) => w
  }

  /** The word a value write stores: the current word ANDed with the value, so bits can only be cleared. */
  function Clear(current: bv32, value: bv32): bv32
  {
    current & value
  }

  /** A write to the value register (0x08): program the word at the current offset.
      `value` is the written number after ToUint32, which is what the bitwise AND sees. */
  function ProgramWord(u: FlashUnit, value: bv32): (r: Result<FlashUnit>)
    requires Valid(u.flash)
    ensures !Has(u.prog.control, 1) ==> r == Err(WriteNotEnabled)
    ensures Has(u.prog.control, 1) && Read(u.flash, u.prog.offset).Err? ==> r == Err(Read(u.flash, u.prog.offset).error)
    ensures r.Ok? <==> Has(u.prog.control, 1) && Read(u.flash, u.prog.offset).Ok?
    ensures r.Ok? ==> Valid(r.value.flash) && r.value.flash.size == u.flash.size
    ensures r.Ok? ==> r.value.prog.control == u.prog.control
    ensures r.Ok? ==> r.value.prog.offset == if Has(u.prog.control, 2) then u.prog.offset + 4 else u.prog.offset
  {
    if !Has(u.prog.control, 1) then Err(WriteNotEnabled)
    else
      var current :- Read(u.flash, u.prog.offset);
      var word := Clear(ToWord(current), value);
      var f := u.flash.(buffer := StoreSlot(u.flash.buffer, u.prog.offset, word));
      var next := if Has(u.prog.control, 2) then u.prog.offset + 4 else u.prog.offset;
      Ok(FlashUnit(f, u.prog.(offset := next)))
  }

  /** `erasePage(pageNumber)`: slots (indexed by byte number!) of the page become 0xFF. */
  function ErasePage(f: Flash, page: int): (r: Result<Flash>)
    requires Valid(f)
    ensures r.Err? <==> page < 0 || page * PAGE_SIZE + PAGE_SIZE > f.size
    ensures r.Err? ==> r.error == PageOutOfRange
    ensures r.Ok? ==> Valid(r.value) && r.value.size == f.size && r.value.bounds == f.bounds
    ensures r.Ok? ==> forall i :: page * PAGE_SIZE <= i < page * PAGE_SIZE + PAGE_SIZE ==> r.value.buffer[i] == 0xFF
    ensures r.Ok? ==> forall i :: 0 <= i < f.size && !(page * PAGE_SIZE <= i < page * PAGE_SIZE + PAGE_SIZE) ==>
                        r.value.buffer[i] == f.buffer[i]
  {
    var start := page * PAGE_SIZE;
    var end := start + PAGE_SIZE;
    if start < 0 || end > f.size then Err(PageOutOfRange)
    else Ok(f.(buffer := seq(|f.buffer|, i requires 0 <= i < |f.buffer| =>
                                if start <= i < end then 0xFF else f.buffer[i])))
  }

  /** `Programmer.write(address, value)`. */
  function ProgWrite(u: FlashUnit, address: int, value: int): (r: Result<FlashUnit>)
    requires Valid(u.flash)
    ensures r.Ok? ==> Valid(r.value.flash) && r.value.flash.size == u.flash.size
    ensures address == 0x00 ==> r == Ok(u.(prog := u.prog.(control := value)))
    ensures address == 0x04 ==> r == Ok(u.(prog := u.prog.(offset := value)))
    ensures address == 0x08 ==> r == ProgramWord(u, Wrap(value))
    ensures address == 0x20 ==> (r.Ok? <==> Has(u.prog.control, 1) && ErasePage(u.flash, value).Ok?)
    ensures address == 0x20 && r.Ok? ==> r.value == u.(flash := ErasePage(u.flash, value).value)
    ensures address !in {0x00, 0x04, 0x08, 0x20} ==> r == Err(ProgrammerAddress)
  {
    if address == 0x00 then Ok(u.(prog := u.prog.(control := value)))
    else if address == 0x04 then Ok(u.(prog := u.prog.(offset := value)))
    else if address == 0x08 then ProgramWord(u, Wrap(value))
    else if address == 0x20 then
      if !Has(u.prog.control, 1) then Err(WriteNotEnabled)
      else
        var f :- ErasePage(u.flash, value);
        Ok(u.(flash := f))
    else Err(ProgrammerAddress)
  }

  // ---------------------------------------------------------------------------
  // Properties

  /** A fresh flash reads, at each aligned offset o, the BYTE at index o / 4 of the
      initial data (or the erased word past its end): slots hold one byte each. */
  lemma FreshRead(size: nat, initial: seq<bv8>, o: int)
    requires |initial| <= size && 0 <= o < size && o % 4 == 0
    ensures New(size, initial).Ok?
    ensures Read(New(size, initial).value, o) ==
              Ok(Some(if o / 4 < |initial| then Widen(initial[o / 4]) else ERASED))
  {
  }

  /** The snapshot decodes back to what `read` returns: bytes o..o+3 of the snapshot
      are the little-endian bytes of the word read at the aligned offset o. */
  lemma SnapshotMatchesRead(f: Flash, o: int)
    requires Valid(f) && 0 <= o < f.size && o % 4 == 0
    ensures Read(f, o) == Ok(Some(f.buffer[o / 4]))
    ensures forall j :: 0 <= j < 4 && o + j < f.size ==> Snapshot(f)[o + j] == ByteOf(ToWord(Read(f, o).value), j)
    ensures o + 4 <= f.size ==>
              LeWord(Snapshot(f)[o], Snapshot(f)[o + 1], Snapshot(f)[o + 2], Snapshot(f)[o + 3]) == ToWord(Read(f, o).value)
  {
    var w := f.buffer[o / 4];
    forall j | 0 <= j < 4 && o + j < f.size
      ensures Snapshot(f)[o + j] == ByteOf(w, j)
    {
      assert (o + j) / 4 == o / 4 && (o + j) % 4 == j;
    }
    if o + 4 <= f.size {
      LeWordBytes(w);
    }
  }

  /** A successful value write at an in-range offset ANDs the value into slot offset / 4,
      leaves every other slot alone, and moves the offset by 4 exactly when bit 1 is set. */
  lemma ProgramInRange(u: FlashUnit, v: int)
    requires Valid(u.flash) && Has(u.prog.control, 1)
    requires 0 <= u.prog.offset < u.flash.size && u.prog.offset % 4 == 0
    ensures ProgWrite(u, 0x08, v).Ok?
    ensures ProgWrite(u, 0x08, v).value.flash.buffer[u.prog.offset / 4] == u.flash.buffer[u.prog.offset / 4] & Wrap(v)
    ensures forall i :: 0 <= i < u.flash.size && i != u.prog.offset / 4 ==>
              ProgWrite(u, 0x08, v).value.flash.buffer[i] == u.flash.buffer[i]
    ensures ProgWrite(u, 0x08, v).value.prog.control == u.prog.control
    ensures ProgWrite(u, 0x08, v).value.prog.offset == if Has(u.prog.control, 2) then u.prog.offset + 4 else u.prog.offset
  {
  }

  /** With bounds checking on, a value write never turns a 0 bit into a 1: every slot
      afterwards is a bitwise subset of what it was. */
  lemma ProgramOnlyClearsBits(u: FlashUnit, v: int)
    requires Valid(u.flash) && u.flash.bounds
    requires ProgWrite(u, 0x08, v).Ok?
    ensures forall i :: 0 <= i < u.flash.size ==>
              ProgWrite(u, 0x08, v).value.flash.buffer[i] & !u.flash.buffer[i] == 0
  {
    var r := ProgWrite(u, 0x08, v).value;
    if u.flash.size > 0 {
      ProgramInRange(u, v);
    }
  }

  /** What a value write that passes both checks does when auto-increment is off. */
  lemma ProgramUnfold(u: FlashUnit, m: bv32)
    requires Valid(u.flash) && Has(u.prog.control, 1) && !Has(u.prog.control, 2)
    requires Read(u.flash, u.prog.offset).Ok?
    ensures ProgramWord(u, m) ==
              Ok(u.(flash := u.flash.(buffer := StoreSlot(u.flash.buffer, u.prog.offset,
                                                          Clear(ToWord(Read(u.flash, u.prog.offset).value), m)))))
  {
  }

  /** Clearing with the same value again changes nothing. */
  lemma ClearAgain(a: bv32, m: bv32)
    ensures Clear(Clear(a, m), m) == Clear(a, m)
  {
  }

  /** Storing the same word twice is storing it once. */
  lemma StoreSlotTwice(buffer: seq<bv32>, offset: int, w: bv32)
    ensures StoreSlot(StoreSlot(buffer, offset, w), offset, w) == StoreSlot(buffer, offset, w)
  {
  }

  /** Storing the word a slot already holds changes nothing. */
  lemma StoreSlotSame(buffer: seq<bv32>, offset: int, w: bv32)
    requires 0 <= offset && offset % 4 == 0 && offset / 4 < |buffer| ==> buffer[offset / 4] == w
    ensures StoreSlot(buffer, offset, w) == buffer
  {
  }

  /** Re-reading a word just programmed with mask m and masking it again gives the same
      word: first for an in-range aligned offset, then for an offset past either end (only
      readable with bounds checking off), then in general. */
  lemma ReprogramInRange(f: Flash, o: int, m: bv32)
    requires Valid(f) && 0 <= o < f.size && o % 4 == 0
    ensures var w := Clear(ToWord(Read(f, o).value), m);
            var g := f.(buffer := StoreSlot(f.buffer, o, w));
            Valid(g) && Read(g, o).Ok? && Clear(ToWord(Read(g, o).value), m) == w
  {
  }

  lemma ReprogramOutOfRange(f: Flash, o: int, m: bv32)
    requires Valid(f) && Read(f, o).Ok? && f.size > 0 && (o < 0 || o >= f.size)
    ensures var w := Clear(ToWord(Read(f, o).value), m);
            var g := f.(buffer := StoreSlot(f.buffer, o, w));
            Valid(g) && Read(g, o).Ok? && Clear(ToWord(Read(g, o).value), m) == w
  {
    var w := Clear(ToWord(Read(f, o).value), m);
    ReadIgnoresBufferOutOfRange(f, StoreSlot(f.buffer, o, w), o);
  }

  /** Past either end, what `read` returns depends on the size and the bounds switch only. */
  lemma ReadIgnoresBufferOutOfRange(f: Flash, b: seq<bv32>, o: int)
    requires Valid(f) && |b| == f.size && (o < 0 || o >= f.size)
    ensures Read(f.(buffer := b), o) == Read(f, o)
  {
  }

  lemma ReprogramWord(f: Flash, o: int, m: bv32)
    requires Valid(f) && Read(f, o).Ok?
    ensures var w := Clear(ToWord(Read(f, o).value), m);
            var g := f.(buffer := StoreSlot(f.buffer, o, w));
            Valid(g) && Read(g, o).Ok? && Clear(ToWord(Read(g, o).value), m) == w
  {
    if f.size == 0 {
    } else if 0 <= o < f.size && o % 4 == 0 {
      ReprogramInRange(f, o, m);
    } else {
      ReprogramOutOfRange(f, o, m);
    }
  }

  /** Programming the same (converted) value twice without auto-increment equals programming it once. */
  lemma ProgramWordIdempotent(u: FlashUnit, m: bv32)
    requires Valid(u.flash) && !Has(u.prog.control, 2)
    requires ProgramWord(u, m).Ok?
    ensures ProgramWord(ProgramWord(u, m).value, m) == ProgramWord(u, m)
  {
    var o := u.prog.offset;
    var w := Clear(ToWord(Read(u.flash, o).value), m);
    ProgramUnfold(u, m);
    var u1 := u.(flash := u.flash.(buffer := StoreSlot(u.flash.buffer, o, w)));
    ReprogramWord(u.flash, o, m);
    assert ProgramWord(u1, m) == Ok(u1) by {
      ProgramUnfold(u1, m);
      StoreSlotTwice(u.flash.buffer, o, w);
    }
  }

  /** Writing the same value twice to the value register without auto-increment is the
      same as writing it once. */
  lemma ProgramIdempotent(u: FlashUnit, v: int)
    requires Valid(u.flash) && !Has(u.prog.control, 2)
    requires ProgWrite(u, 0x08, v).Ok?
    ensures ProgWrite(ProgWrite(u, 0x08, v).value, 0x08, v) == ProgWrite(u, 0x08, v)
  {
    ProgramWordIdempotent(u, Wrap(v));
  }

  /** With bounds checking off, an aligned offset past the end still names a slot of the
      buffer (which has `size` slots); the write there stores the value itself, so a
      cleared bit can come back. A concrete 8-byte flash shows it. */
  lemma BoundsOffRestoresBits()
    ensures var u := FlashUnit(Flash(8, seq(8, i => 0), false), Programmer(1, 20));
            ProgWrite(u, 0x08, 0xFFFF_FFFF).Ok? &&
            u.flash.buffer[5] == 0 && ProgWrite(u, 0x08, 0xFFFF_FFFF).value.flash.buffer[5] == ERASED
  {
    var u := FlashUnit(Flash(8, seq(8, i => 0), false), Programmer(1, 20));
    assert Read(u.flash, 20) == Ok(Some(ERASED));
    assert Wrap(0xFFFF_FFFF) == ERASED by {
      WrapOfWord(ERASED);
    }
  }

  /** After a page erase, every aligned in-range read whose slot lies in the page yields
      0xFF (not an all-ones word), and every other read is as before. */
  lemma EraseThenRead(f: Flash, page: int, o: int)
    requires Valid(f) && ErasePage(f, page).Ok?
    requires 0 <= o < f.size && o % 4 == 0
    ensures page * PAGE_SIZE <= o / 4 < page * PAGE_SIZE + PAGE_SIZE ==> Read(ErasePage(f, page).value, o) == Ok(Some(0xFF))
    ensures !(page * PAGE_SIZE <= o / 4 < page * PAGE_SIZE + PAGE_SIZE) ==> Read(ErasePage(f, page).value, o) == Read(f, o)
  {
  }

  /** The control and offset registers read back whatever was last written to them. */
  lemma RegistersReadBack(u: FlashUnit, address: int, v: int)
    requires Valid(u.flash) && (address == 0x00 || address == 0x04)
    ensures ProgWrite(u, address, v).Ok?
    ensures ProgRead(ProgWrite(u, address, v).value.prog, address) == Ok(v)
  {
  }
}
