/**
 * The receive block (src/block_input.js): a circular byte buffer of `size`
 * bytes held in a RAM device, with start and end markers. `appendData`
 * writes bytes at the end marker one at a time, each by a read-modify-write
 * of the RAM word that holds it; the firmware reads the markers and the
 * buffer through the register map (start at 0x00, end at 0x04, size at 0x08,
 * buffer from 0x100) and advances the start marker by writing 0x00.
 */
module BlockInput {
  import opened Common
  import RamDevice

  const BUFFER_BASE: int := 0x100

  datatype Block = Block(size: nat, ram: RamDevice.Ram, start: int, end: int)

  /** The RAM has `size` bytes and the end marker lies inside it (0 for an empty buffer). */
  predicate Valid(b: Block)
  {
    |b.ram.bytes| == b.size && 0 <= b.end && (b.size == 0 ==> b.end == 0) && (b.size > 0 ==> b.end < b.size)
  }

  /** `new Block_Input(bus, size)`. */
  function New(size: nat): (b: Block)
    ensures Valid(b)
    ensures b.start == 0 && b.end == 0 && b.size == size
    ensures forall p :: 0 <= p < size ==> b.ram.bytes[p] == 0
  {
    Block(size, RamDevice.New(size), 0, 0)
  }

  /** `w` with byte `rem` replaced by `b`:
      `(w & ~(0xFF << rem*8)) | (b << rem*8)`. */
  function Splice(w: bv32, rem: nat, b: bv8): bv32
    requires rem < 4
  {
    if rem == 0 then (w & 0xFFFF_FF00) | Widen(b)
    else if rem == 1 then (w & 0xFFFF_00FF) | (Widen(b) << 8)
    else if rem == 2 then (w & 0xFF00_FFFF) | (Widen(b) << 16)
    else (w & 0x00FF_FFFF) | (Widen(b) << 24)
  }

  /** Where the byte at buffer position `p` lies within its word. */
  function WordOf(p: nat): (at: nat)
    ensures at <= p < at + 4 && at % 4 == 0
  {
    (p / 4) * 4
  }

  /** The read-modify-write of one byte: read the RAM word at `at`, splice `x` into byte
      `rem` of it and write it back. The RAM access throws a RangeError when the word runs
      past the end of the RAM. */
  function SpliceByte(m: RamDevice.Ram, at: nat, rem: nat, x: bv8): (r: Result<RamDevice.Ram>)
    requires rem < 4 && at < |m.bytes|
    ensures r.Err? <==> at + 4 > |m.bytes|
    ensures r.Err? ==> r.error == RangeError
    ensures r.Ok? ==> r.value.bytes == m.bytes[at + rem := x]
  {
    var current :- RamDevice.Read(m, at);
    // The spliced word is a signed number in JavaScript; `setUint32` stores its bit pattern.
    var ram := RamDevice.WriteWord(m, at, Splice(current, rem, x)).value;
    SpliceInPlace(m.bytes, at, rem, current, x);
    Ok(ram)
  }

  /** One step of the `appendData` loop: splice the byte into the word holding the end
      marker and advance the marker. The word can run past the end of the buffer only
      when `size` is not a multiple of 4. */
  function PutByte(b: Block, x: bv8): (r: Result<Block>)
    requires Valid(b) && b.size > 0
    ensures r.Err? <==> WordOf(b.end) + 4 > b.size
    ensures r.Err? ==> r.error == RangeError
    ensures r.Ok? ==> Valid(r.value) && r.value.size == b.size && r.value.start == b.start
    ensures r.Ok? ==> r.value.end == Next(b.end, b.size)
    ensures r.Ok? ==> r.value.ram.bytes == b.ram.bytes[b.end := x]
  {
    var ram :- SpliceByte(b.ram, WordOf(b.end), b.end % 4, x);
    // `(end + 1) % size`, which is Next(end, size) because end < size (`NextMod`).
    Ok(b.(ram := ram, end := Next(b.end, b.size)))
  }

  /** The `appendData` loop over the bytes still to be written. A RangeError ends it with
      the bytes before it already in place. */
  function Fill(b: Block, data: seq<bv8>): (r: Outcome<Block>)
    requires Valid(b) && |data| <= b.size
    ensures Valid(r.state) && r.state.size == b.size && r.state.start == b.start
    ensures r.Aborted? ==> r.error == RangeError && b.size % 4 != 0
    decreases |data|
  {
    if data == [] then Completed(b)
    else
      match PutByte(b, data[0])
      case Err(e) => Aborted(b, e)
      case Ok(next) => Fill(next, data[1..])
  }

  /** `appendData(data)`: refuses data longer than the buffer, before writing anything. */
  function Append(b: Block, data: seq<bv8>): (r: Outcome<Block>)
    requires Valid(b)
    ensures |data| > b.size ==> r == Aborted(b, DataTooLarge)
    ensures Valid(r.state) && r.state.size == b.size && r.state.start == b.start
  {
    if |data| > b.size then Aborted(b, DataTooLarge) else Fill(b, data)
  }

  /** `read(address)`: the markers and size, or a buffer word (little-endian, via the RAM). */
  function Read(b: Block, address: int): (r: Result<int>)
    requires Valid(b)
    ensures address == 0x00 ==> r == Ok(b.start)
    ensures address == 0x04 ==> r == Ok(b.end)
    ensures address == 0x08 ==> r == Ok(b.size)
    ensures address !in {0x00, 0x04, 0x08} ==>
              (r.Err? && r.error == InvalidAddress <==> !(BUFFER_BASE <= address < BUFFER_BASE + b.size))
    ensures address !in {0x00, 0x04, 0x08} && BUFFER_BASE <= address && address + 4 <= BUFFER_BASE + b.size ==>
              r.Ok? && Wrap(r.value) == RamDevice.Read(b.ram, address - BUFFER_BASE).value
    ensures address !in {0x00, 0x04, 0x08} && BUFFER_BASE <= address < BUFFER_BASE + b.size < address + 4 ==>
              r == Err(RangeError)
  {
    if address == 0x00 then Ok(b.start)
    else if address == 0x04 then Ok(b.end)
    else if address == 0x08 then Ok(b.size)
    else if BUFFER_BASE <= address < BUFFER_BASE + b.size then
      var w :- RamDevice.Read(b.ram, address - BUFFER_BASE);
      WrapOfWord(w);
      Ok(w as int)
    else Err(InvalidAddress)
  }

  /** `write(address, value)`: 0x00 advances the start marker by `value`, with JavaScript's
      truncating `%`; 0x04 is ignored; anything else throws. */
  function Write(b: Block, address: int, value: int): (r: Result<Block>)
    requires address == 0x00 ==> b.size > 0
    ensures address == 0x00 ==> r.Ok? && r.value == b.(start := r.value.start)
    ensures address == 0x00 ==> (b.start + value - r.value.start) % b.size == 0
    ensures address == 0x00 && b.start + value >= 0 ==> 0 <= r.value.start < b.size
    ensures address == 0x00 && b.start + value < 0 ==> r.value.start <= 0 < r.value.start + b.size
    ensures address == 0x04 ==> r == Ok(b)
    ensures address != 0x00 && address != 0x04 ==> r == Err(InvalidAddress)
  {
    if address == 0x00 then Ok(b.(start := JsRem(b.start + value, b.size)))
    else if address == 0x04 then Ok(b)
    else Err(InvalidAddress)
  }

  // ---------------------------------------------------------------------------
  // Properties

  lemma Splice0(b0: bv8, b1: bv8, b2: bv8, b3: bv8, x: bv8)
    ensures Splice(LeWord(b0, b1, b2, b3), 0, x) == LeWord(x, b1, b2, b3)
  {
  }

  lemma Splice1(b0: bv8, b1: bv8, b2: bv8, b3: bv8, x: bv8)
    ensures Splice(LeWord(b0, b1, b2, b3), 1, x) == LeWord(b0, x, b2, b3)
  {
  }

  lemma Splice2(b0: bv8, b1: bv8, b2: bv8, b3: bv8, x: bv8)
    ensures Splice(LeWord(b0, b1, b2, b3), 2, x) == LeWord(b0, b1, x, b3)
  {
  }

  lemma Splice3(b0: bv8, b1: bv8, b2: bv8, b3: bv8, x: bv8)
    ensures Splice(LeWord(b0, b1, b2, b3), 3, x) == LeWord(b0, b1, b2, x)
  {
  }

  /** Splicing replaces exactly the addressed byte of the word. */
  lemma SpliceBytes(bs: seq<bv8>, rem: nat, x: bv8)
    requires |bs| == 4 && rem < 4
    ensures LeBytes(Splice(LeWord(bs[0], bs[1], bs[2], bs[3]), rem, x)) == bs[rem := x]
  {
    var ns := bs[rem := x];
    if rem == 0 { Splice0(bs[0], bs[1], bs[2], bs[3], x); }
    else if rem == 1 { Splice1(bs[0], bs[1], bs[2], bs[3], x); }
    else if rem == 2 { Splice2(bs[0], bs[1], bs[2], bs[3], x); }
    else { Splice3(bs[0], bs[1], bs[2], bs[3], x); }
    assert Splice(LeWord(bs[0], bs[1], bs[2], bs[3]), rem, x) == LeWord(ns[0], ns[1], ns[2], ns[3]);
    LeBytesWord(ns[0], ns[1], ns[2], ns[3]);
  }

  /** Reading a RAM word, splicing a byte into it and writing it back changes that byte only. */
  lemma SpliceInPlace(bytes: seq<bv8>, at: nat, rem: nat, current: bv32, x: bv8)
    requires rem < 4 && at + 4 <= |bytes|
    requires current == LeWord(bytes[at], bytes[at + 1], bytes[at + 2], bytes[at + 3])
    ensures bytes[..at] + LeBytes(Splice(current, rem, x)) + bytes[at + 4..] == bytes[at + rem := x]
  {
    var word := bytes[at..at + 4];
    SpliceBytes(word, rem, x);
    var spliced := word[rem := x];
    var lhs := bytes[..at] + spliced + bytes[at + 4..];
    assert |lhs| == |bytes|;
    forall i | 0 <= i < |bytes|
      ensures lhs[i] == bytes[at + rem := x][i]
    {
      if i < at {
      } else if i < at + 4 {
        assert lhs[i] == spliced[i - at];
      } else {
        assert lhs[i] == bytes[i];
      }
    }
  }

  // Marker arithmetic, kept free of `%` so that the inductive proofs stay linear.

  /** The end marker after one more byte. */
  function Next(e: nat, size: nat): nat
  {
    if e + 1 == size then 0 else e + 1
  }

  /** The end marker after `n <= size` more bytes. */
  function Advance(e: nat, n: nat, size: nat): nat
  {
    if e + n < size then e + n else e + n - size
  }

  /** How far position `p` lies ahead of the end marker `e`, going round the buffer. */
  function Ahead(e: nat, p: nat, size: nat): (d: nat)
    requires e < size && p < size
    ensures d < size
  {
    if p >= e then p - e else p - e + size
  }

  lemma NextMod(e: nat, size: nat)
    requires e < size
    ensures Next(e, size) == (e + 1) % size
  {
    ModUnique(e + 1, size, if e + 1 == size then 1 else 0, Next(e, size));
  }

  lemma AdvanceMod(e: nat, n: nat, size: nat)
    requires e < size && n <= size
    ensures Advance(e, n, size) == (e + n) % size
  {
    ModUnique(e + n, size, if e + n < size then 0 else 1, Advance(e, n, size));
  }

  lemma AheadMod(e: nat, p: nat, size: nat)
    requires e < size && p < size
    ensures Ahead(e, p, size) == (p - e) % size
  {
    ModUnique(p - e, size, if p >= e then 0 else -1, Ahead(e, p, size));
  }

  /** With a buffer whose size is a multiple of 4 the word holding the end marker always
      fits, so every step of the append loop succeeds. */
  lemma EndWordFits(b: Block)
    requires Valid(b) && b.size > 0 && b.size % 4 == 0
    ensures WordOf(b.end) + 4 <= b.size
  {
    WordFits(b.end, b.size);
  }

  /** When the append loop completes, the end marker has moved on by the length of the
      data, round the buffer. */
  lemma {:induction false} FillEnd(b: Block, data: seq<bv8>)
    requires Valid(b) && |data| <= b.size && Fill(b, data).Completed?
    ensures Fill(b, data).state.end == Advance(b.end, |data|, b.size)
    decreases |data|
  {
    if data == [] {
      assert Fill(b, data) == Completed(b);
    } else {
      FillStep(b, data);
      FillEnd(PutByte(b, data[0]).value, data[1..]);
    }
  }

  /** The byte position p holds after `data` is written from end marker e onwards: data
      byte Ahead(e, p) if the data reaches that far, otherwise the byte it had before. */
  function Placed(before: seq<bv8>, e: nat, data: seq<bv8>, p: nat): bv8
    requires e < |before| && p < |before|
  {
    var d := Ahead(e, p, |before|);
    if d < |data| then data[d] else before[p]
  }

  /** In a completed append loop, byte d of the data lands at the position d steps ahead
      of the old end marker, positions further ahead keep their bytes, and every position
      written lies in a word that fits in the RAM. */
  lemma {:induction false} FillPlacement(b: Block, data: seq<bv8>, p: nat)
    requires Valid(b) && |data| <= b.size && Fill(b, data).Completed? && p < b.size
    ensures Fill(b, data).state.ram.bytes[p] == Placed(b.ram.bytes, b.end, data, p)
    ensures Ahead(b.end, p, b.size) < |data| ==> WordOf(p) + 4 <= b.size
    decreases |data|
  {
    if data == [] {
      assert Fill(b, data) == Completed(b);
    } else {
      FillStep(b, data);
      var next := PutByte(b, data[0]).value;
      FillPlacement(next, data[1..], p);
      PlacementStep(b.end, b.ram.bytes, data, next.ram.bytes, p);
    }
  }

  /** One turn of a completed append loop: the word at the end marker fits. */
  lemma FillStep(b: Block, data: seq<bv8>)
    requires Valid(b) && 0 < |data| <= b.size && Fill(b, data).Completed?
    ensures PutByte(b, data[0]).Ok?
    ensures Fill(b, data) == Fill(PutByte(b, data[0]).value, data[1..])
  {
  }

  /** One byte placed at the end marker, then the rest placed from the next position. */
  lemma PlacementStep(e: nat, before: seq<bv8>, data: seq<bv8>, middle: seq<bv8>, p: nat)
    requires e < |before| && p < |before| && 0 < |data| <= |before|
    requires middle == before[e := data[0]]
    ensures Placed(middle, Next(e, |before|), data[1..], p) == Placed(before, e, data, p)
    ensures p != e ==> Ahead(Next(e, |before|), p, |before|) == Ahead(e, p, |before|) - 1
  {
    var size := |before|;
    var d := Ahead(e, p, size);
    var d' := Ahead(Next(e, size), p, size);
    if p == e {
      assert d == 0 && d' == size - 1;
    } else {
      assert d' == d - 1;
    }
  }

  /** `appendData` on a buffer whose size is a multiple of 4 accepts all data that fits. */
  lemma AppendCompletes(b: Block, data: seq<bv8>)
    requires Valid(b) && |data| <= b.size && b.size % 4 == 0
    ensures Append(b, data).Completed?
  {
    AppendIsFill(b, data);
  }

  /** A completed `appendData` of n bytes leaves the end marker at (end + n) mod size. */
  lemma AppendEnd(b: Block, data: seq<bv8>)
    requires Valid(b) && Append(b, data).Completed?
    ensures |data| <= b.size
    ensures b.size > 0 ==> Append(b, data).state.end == (b.end + |data|) % b.size
  {
    AppendIsFill(b, data);
    FillEnd(b, data);
    if b.size > 0 {
      EndMod(Append(b, data).state.end, b.end, |data|, b.size);
    }
  }

  lemma EndMod(final: int, e: nat, n: nat, size: nat)
    requires e < size && n <= size && final == Advance(e, n, size)
    ensures final == (e + n) % size
  {
    AdvanceMod(e, n, size);
  }

  /** Position p of the buffer receives data byte Ahead(end, p), which is (p - end) mod
      size (`AheadMod`), when that is within the data, and keeps its byte otherwise. */
  lemma AppendPlacement(b: Block, data: seq<bv8>, p: nat)
    requires Valid(b) && Append(b, data).Completed? && p < b.size
    ensures Append(b, data).state.ram.bytes[p] == Placed(b.ram.bytes, b.end, data, p)
    ensures Ahead(b.end, p, b.size) < |data| ==> WordOf(p) + 4 <= b.size
  {
    AppendIsFill(b, data);
    FillPlacement(b, data, p);
  }

  lemma AppendIsFill(b: Block, data: seq<bv8>)
    requires Valid(b) && |data| <= b.size
    ensures Append(b, data) == Fill(b, data)
  {
  }

  /** Each appended byte is visible to the firmware through the buffer window, as byte
      `p % 4` of the little-endian word read at `0x100 + WordOf(p)`. */
  lemma AppendedByteVisible(b: Block, data: seq<bv8>, p: nat)
    requires Valid(b) && Append(b, data).Completed? && p < b.size
    requires Ahead(b.end, p, b.size) < |data|
    ensures Read(Append(b, data).state, BUFFER_BASE + WordOf(p)).Ok?
    ensures ByteOf(Wrap(Read(Append(b, data).state, BUFFER_BASE + WordOf(p)).value), p % 4) ==
              data[Ahead(b.end, p, b.size)]
  {
    AppendPlacement(b, data, p);
    var s := Append(b, data).state;
    ByteThroughWindow(s, p);
  }

  lemma WordFits(p: nat, size: nat)
    requires p < size && size % 4 == 0
    ensures WordOf(p) + 4 <= size
  {
    assert p / 4 < size / 4;
    assert (p / 4) * 4 + 4 == (p / 4 + 1) * 4;
  }

  /** Byte p of the buffer is byte `p % 4` of the word the window shows at `WordOf(p)`.
      When that word runs past the buffer (a size that is not a multiple of 4), the window
      read there throws a RangeError instead. */
  lemma ByteThroughWindow(b: Block, p: nat)
    requires Valid(b) && p < b.size
    ensures WordOf(p) + 4 <= b.size <==> Read(b, BUFFER_BASE + WordOf(p)).Ok?
    ensures WordOf(p) + 4 <= b.size ==>
              ByteOf(Wrap(Read(b, BUFFER_BASE + WordOf(p)).value), p % 4) == b.ram.bytes[p]
    ensures b.size < WordOf(p) + 4 ==> Read(b, BUFFER_BASE + WordOf(p)) == Err(RangeError)
  {
    var at, k := WordOf(p), p % 4;
    if at + 4 <= b.size {
      var bs := b.ram.bytes;
      ReadBufferWord(b, at);
      ByteOfWord(bs[at], bs[at + 1], bs[at + 2], bs[at + 3], k);
      assert at + k == p;
    }
  }

  /** Byte k of a little-endian word is the k-th byte it was packed from. */
  lemma ByteOfWord(b0: bv8, b1: bv8, b2: bv8, b3: bv8, k: nat)
    requires k < 4
    ensures ByteOf(LeWord(b0, b1, b2, b3), k) == [b0, b1, b2, b3][k]
  {
    LeBytesWord(b0, b1, b2, b3);
  }

  /** A buffer word read through the window is the RAM's little-endian word. */
  lemma ReadBufferWord(b: Block, at: nat)
    requires Valid(b) && at + 4 <= b.size
    ensures Read(b, BUFFER_BASE + at).Ok?
    ensures Wrap(Read(b, BUFFER_BASE + at).value) ==
              LeWord(b.ram.bytes[at], b.ram.bytes[at + 1], b.ram.bytes[at + 2], b.ram.bytes[at + 3])
  {
  }

  /** The word holding the end marker may run past a buffer whose size is not a multiple
      of 4: then the next byte cannot be stored and `appendData` throws a RangeError. */
  lemma RaggedTailAborts(ram: RamDevice.Ram, x: bv8)
    requires |ram.bytes| == 6
    ensures Append(Block(6, ram, 0, 4), [x]) == Aborted(Block(6, ram, 0, 4), RangeError)
  {
  }

  /** Advancing the start marker by a, then by c, lands on a position congruent, modulo
      the size, to advancing it by a + c; when the marker and both amounts are non-negative,
      JavaScript's `%` is the ordinary remainder and the two are equal. */
  lemma AdvanceTwice(b: Block, a: int, c: int)
    requires b.size > 0
    ensures (Write(Write(b, 0x00, a).value, 0x00, c).value.start - Write(b, 0x00, a + c).value.start) % b.size == 0
    ensures b.start >= 0 && a >= 0 && c >= 0 ==> Write(Write(b, 0x00, a).value, 0x00, c) == Write(b, 0x00, a + c)
  {
    var n := b.size;
    var s1 := Write(b, 0x00, a).value.start;
    var s2 := Write(Write(b, 0x00, a).value, 0x00, c).value.start;
    var s3 := Write(b, 0x00, a + c).value.start;
    MultipleSum(b.start + a + c - s3, b.start + a - s1, n);
    MultipleSum(s1 - b.start - a + b.start + a + c - s3, s1 + c - s2, n);
    assert s1 - b.start - a + b.start + a + c - s3 - (s1 + c - s2) == s2 - s3;
    if b.start >= 0 && a >= 0 && c >= 0 {
      var x := b.start + a;
      assert s1 == x % n;
      ModAdd(x, c, n);
      assert s2 == (x % n + c) % n;
    }
  }

  /** With mixed signs the two differ: in a 4-byte buffer, advancing by 6 and then by -5
      leaves the start at -3, while advancing by 1 leaves it at 1. */
  lemma AdvanceMixedSigns(ram: RamDevice.Ram)
    requires |ram.bytes| == 4
    ensures Write(Write(Block(4, ram, 0, 0), 0x00, 6).value, 0x00, -5).value.start == -3
    ensures Write(Block(4, ram, 0, 0), 0x00, 1).value.start == 1
  {
  }

  /** (x mod n + c) mod n == (x + c) mod n. */
  lemma ModAdd(x: nat, c: nat, n: nat)
    requires n > 0
    ensures (x % n + c) % n == (x + c) % n
  {
    var t := x % n + c;
    var r2 := t % n;
    assert t == (t / n) * n + r2;
    assert x == (x / n) * n + x % n;
    assert x + c == (x / n + t / n) * n + r2;
    ModUnique(x + c, n, x / n + t / n, r2);
  }
}
