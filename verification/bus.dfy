/**
 * The memory bus (src/bus.js): an ordered list of entries, each naming a device
 * and an inclusive address range, with word reads and sized writes routed
 * through them.
 *
 * Devices live in a table and entries refer to them by index, so the same
 * device attached twice is one device reached through two entries. A device's
 * `read` and `write` are given as functions over its state: `rd` may fail (the
 * bus swallows the failure), and `wr` yields the state the device is left in,
 * whether or not it threw.
 *
 * Three details of the code shape the model:
 *   - the overlap check in `attach` and the range filter in `read` look up the
 *     entry properties `start`, `end`, `devStart` and `devEnd`, which no entry
 *     has; they read as NaN, every comparison with NaN is false, and so neither
 *     check ever fires;
 *   - `read` packs four reads taken at absolute offsets a, a+4, a+8, a+12
 *     (a the word-aligned address), most significant first;
 *   - `write` visits every entry whose range contains the address, pre-reads
 *     the device and discards that word, and writes a freshly composed word.
 */
module MemoryBus {
  import opened Common

  /** A JavaScript number as the comparisons in the bus see it. */
  datatype JsNum = NaN | Finite(n: int)

  /** `<` on JavaScript numbers: false whenever either side is NaN. */
  predicate Lt(a: JsNum, b: JsNum)
  {
    a.Finite? && b.Finite? && a.n < b.n
  }

  /** `Math.max`: NaN if either argument is NaN. */
  function Max(a: JsNum, b: JsNum): JsNum
  {
    if a.NaN? || b.NaN? then NaN else if a.n >= b.n then a else b
  }

  /** `Math.min`: NaN if either argument is NaN. */
  function Min(a: JsNum, b: JsNum): JsNum
  {
    if a.NaN? || b.NaN? then NaN else if a.n <= b.n then a else b
  }

  /** A device object: its state and whether it has `read` and `write` functions. */
  datatype Device<D> = Device(state: D, hasRead: bool, hasWrite: bool)

  /** One attachment: a device (by index in the table) and its inclusive address range. */
  datatype Entry = Entry(device: nat, startAddress: int, endAddress: int)

  datatype Bus<D> = Bus(devices: seq<Device<D>>, entries: seq<Entry>)

  /** Every entry refers to a device of the table. */
  ghost predicate Valid<D>(b: Bus<D>)
  {
    forall e :: e in b.entries ==> e.device < |b.devices|
  }

  /** The numeric value of a property of an entry object; absent properties read as NaN. */
  function Property(e: Entry, name: string): JsNum
  {
    if name == "startAddress" then Finite(e.startAddress)
    else if name == "endAddress" then Finite(e.endAddress)
    else NaN
  }

  /** `new MemoryBus()`: no entries; the device table starts empty as well. */
  function New<D>(): (b: Bus<D>)
    ensures Valid(b) && b.entries == [] && b.devices == []
  {
    Bus([], [])
  }

  /** Creating a device object: it joins the table at index `|devices|`. */
  function AddDevice<D>(b: Bus<D>, d: Device<D>): (r: Bus<D>)
    requires Valid(b)
    ensures Valid(r) && r.entries == b.entries
    ensures |r.devices| == |b.devices| + 1
    ensures r.devices[..|b.devices|] == b.devices && r.devices[|b.devices|] == d
  {
    b.(devices := b.devices + [d])
  }

  /** The overlap test of `attach`, reading the properties `start` and `end`. */
  predicate Overlapping(entries: seq<Entry>, startAddress: int, endAddress: int)
  {
    exists e :: e in entries &&
      Lt(Max(Property(e, "start"), Finite(startAddress)), Min(Property(e, "end"), Finite(endAddress)))
  }

  /** `attach(device, startAddress, endAddress)`. */
  function Attach<D>(b: Bus<D>, device: nat, startAddress: int, endAddress: int): (r: Result<Bus<D>>)
    requires Valid(b) && device < |b.devices|
    ensures var d := b.devices[device];
            !d.hasRead || !d.hasWrite ==> r == Err(NotADevice)
    ensures var d := b.devices[device];
            d.hasRead && d.hasWrite ==>
              r == if startAddress > endAddress then Err(InvertedRange)
                   else Ok(b.(entries := b.entries + [Entry(device, startAddress, endAddress)]))
    ensures r.Ok? ==> Valid(r.value)
  {
    var d := b.devices[device];
    if !d.hasRead || !d.hasWrite then Err(NotADevice)
    else if Overlapping(b.entries, startAddress, endAddress) then Err(OverlappingRange)
    else if startAddress > endAddress then Err(InvertedRange)
    else Ok(b.(entries := b.entries + [Entry(device, startAddress, endAddress)]))
  }

  /** `Math.floor(address / 4) * 4` (Dafny's `/` by a positive divisor rounds down). */
  function Floor4(address: int): (a: int)
    ensures a % 4 == 0 && a <= address < a + 4
  {
    (address / 4) * 4
  }

  /** `(w0 << 24) | (w1 << 16) | (w2 << 8) | w3` on the ToInt32 bit patterns. */
  function Pack(w0: bv32, w1: bv32, w2: bv32, w3: bv32): bv32
  {
    (w0 << 24) | (w1 << 16) | (w2 << 8) | w3
  }

  /** The four reads `read` makes of one device for the aligned address, packed. */
  function ReadWord<D>(d: D, rd: (D, int) -> Result<Val>, aligned: int): Result<bv32>
  {
    var wordIndex := aligned / 4;
    var v0 :- rd(d, 4 * wordIndex);
    var v1 :- rd(d, 4 * (wordIndex + 1));
    var v2 :- rd(d, 4 * (wordIndex + 2));
    var v3 :- rd(d, 4 * (wordIndex + 3));
    Ok(Pack(ValWord(v0), ValWord(v1), ValWord(v2), ValWord(v3)))
  }

  /** What entry j's device yields for the aligned address. */
  function DeviceRead<D>(b: Bus<D>, rd: (D, int) -> Result<Val>, aligned: int, j: nat): Result<bv32>
    requires Valid(b) && j < |b.entries|
  {
    ReadWord(b.devices[b.entries[j].device].state, rd, aligned)
  }

  /** The range filter of `read`, reading the properties `devStart` and `devEnd`. */
  predicate Skipped(e: Entry, aligned: int)
  {
    Lt(Finite(aligned), Property(e, "devStart")) || Lt(Property(e, "devEnd"), Finite(aligned))
  }

  /** The entry loop of `read`, from entry k on. */
  function ReadFrom<D>(b: Bus<D>, rd: (D, int) -> Result<Val>, aligned: int, k: nat): (r: Result<bv32>)
    requires Valid(b) && k <= |b.entries|
    ensures r.Err? ==> r.error == NoDevice
    ensures r.Ok? <==> exists j :: k <= j < |b.entries| && DeviceRead(b, rd, aligned, j).Ok?
    decreases |b.entries| - k
  {
    if k == |b.entries| then Err(NoDevice)
    else
      var e := b.entries[k];
      // a skipped entry and one whose reads fail both pass on to the next entry
      var attempt := if Skipped(e, aligned) then Err(NoDevice) else DeviceRead(b, rd, aligned, k);
      match attempt
      case Ok(w) => Ok(w)
      case Err(_) => ReadFrom(b, rd, aligned, k + 1)
  }

  /** `read(address)`; the result is the bit pattern of the (signed) number returned. */
  function Read<D>(b: Bus<D>, rd: (D, int) -> Result<Val>, address: int): (r: Result<bv32>)
    requires Valid(b)
    ensures r.Err? ==> r.error == NoDevice
    ensures b.entries == [] ==> r == Err(NoDevice)
  {
    var start := Floor4(address);
    if address < start || address > start + 3 then Err(BusOutOfBounds)
    else
      var aligned := Floor4(address);
      if aligned < start || aligned > start + 3 then Err(BusOutOfBounds)
      else ReadFrom(b, rd, aligned, 0)
  }

  // ---------------------------------------------------------------------------
  // Writes

  /** A DataView store of `bytes` at byte `at` of the buffer `buf`; a RangeError unless it fits. */
  function Store(buf: seq<bv8>, at: int, bytes: seq<bv8>): (r: Result<seq<bv8>>)
    ensures r.Err? <==> at < 0 || at + |bytes| > |buf|
    ensures r.Err? ==> r.error == RangeError
    ensures r.Ok? ==> |r.value| == |buf|
    ensures r.Ok? ==> forall j :: 0 <= j < |buf| ==>
                        r.value[j] == if at <= j < at + |bytes| then bytes[j - at] else buf[j]
  {
    if at < 0 || at + |bytes| > |buf| then Err(RangeError)
    else Ok(buf[..at] + bytes + buf[at + |bytes|..])
  }

  /** The word `write` builds: a zeroed 4-byte buffer, the value stored at the byte offset
      (`setUint8`, little-endian `setUint16`, or `setUint32` at 0), read back little-endian. */
  function ComposeWord(value: int, size: int, offsetInWord: int): (r: Result<bv32>)
    requires size == 1 || size == 2 || size == 4
    ensures r.Err? <==> size != 4 && (offsetInWord < 0 || offsetInWord + size > 4)
    ensures r.Err? ==> r.error == RangeError
  {
    var zero: seq<bv8> := [0, 0, 0, 0];
    var buf :- if size == 1 then Store(zero, offsetInWord, [Low8(value)])
               else if size == 2 then Store(zero, offsetInWord, [Low8(value), Low8(value / 256)])
               else Store(zero, 0, LeBytes(Wrap(value)));
    Ok(LeWord(buf[0], buf[1], buf[2], buf[3]))
  }

  /** Whether the entry's inclusive range contains the address (the properties `write` reads exist). */
  predicate Covers(e: Entry, address: int)
  {
    !(address < e.startAddress || address > e.endAddress)
  }

  /** The device offset `write` uses for an entry: the aligned address relative to the range start. */
  function DeviceOffset(e: Entry, address: int): int
  {
    Floor4(address) - e.startAddress
  }

  /** One iteration of the loop in `write`, for entry k. */
  function Visit<D>(b: Bus<D>, rd: (D, int) -> Result<Val>, wr: (D, int, bv32) -> D,
                    address: int, value: int, size: int, k: nat): (r: Bus<D>)
    requires Valid(b) && k < |b.entries| && (size == 1 || size == 2 || size == 4)
    ensures Valid(r) && r.entries == b.entries && |r.devices| == |b.devices|
    ensures !Covers(b.entries[k], address) ==> r == b
    ensures forall i :: 0 <= i < |b.devices| && i != b.entries[k].device ==> r.devices[i] == b.devices[i]
    ensures var d := b.devices[b.entries[k].device];
            rd(d.state, 4 * (DeviceOffset(b.entries[k], address) / 4)).Err? ==> r == b
  {
    var e := b.entries[k];
    if !Covers(e, address) then b
    else
      var d := b.devices[e.device];
      var deviceOffset := DeviceOffset(e, address);
      var deviceWordIndex := deviceOffset / 4;
      match rd(d.state, 4 * deviceWordIndex)
      case Err(_) => b
      case Ok(_) =>
        match ComposeWord(value, size, JsRem(address, 4))
        case Err(_) => b
        case Ok(word) => b.(devices := b.devices[e.device := d.(state := wr(d.state, deviceOffset, word))])
  }

  /** The loop in `write`, from entry k on. */
  function WriteFrom<D>(b: Bus<D>, rd: (D, int) -> Result<Val>, wr: (D, int, bv32) -> D,
                        address: int, value: int, size: int, k: nat): (r: Bus<D>)
    requires Valid(b) && k <= |b.entries| && (size == 1 || size == 2 || size == 4)
    ensures Valid(r) && r.entries == b.entries && |r.devices| == |b.devices|
    ensures (forall j :: k <= j < |b.entries| ==> !Covers(b.entries[j], address)) ==> r == b
    decreases |b.entries| - k
  {
    if k == |b.entries| then b
    else WriteFrom(Visit(b, rd, wr, address, value, size, k), rd, wr, address, value, size, k + 1)
  }

  /** `write(address, value, size)`. */
  function Write<D>(b: Bus<D>, rd: (D, int) -> Result<Val>, wr: (D, int, bv32) -> D,
                    address: int, value: int, size: int): (r: Result<Bus<D>>)
    requires Valid(b)
    ensures r.Err? <==> size != 1 && size != 2 && size != 4
    ensures r.Err? ==> r.error == InvalidSize
    ensures r.Ok? ==> Valid(r.value) && r.value.entries == b.entries && |r.value.devices| == |b.devices|
  {
    if size != 1 && size != 2 && size != 4 then Err(InvalidSize)
    else Ok(WriteFrom(b, rd, wr, address, value, size, 0))
  }

  // ---------------------------------------------------------------------------
  // Properties of attach

  /** The overlap test never detects anything: the properties it compares do not exist. */
  lemma NeverOverlapping(entries: seq<Entry>, startAddress: int, endAddress: int)
    ensures !Overlapping(entries, startAddress, endAddress)
  {
    forall e | e in entries
      ensures !Lt(Max(Property(e, "start"), Finite(startAddress)), Min(Property(e, "end"), Finite(endAddress)))
    {
      assert Property(e, "start") == NaN;
    }
  }

  /** Overlapping ranges attach: [0, 10] and then [5, 15] of the same device both succeed,
      and the bus ends up with both entries in attach order. */
  lemma OverlappingRangesAttach<D>(d: D)
    ensures var b := AddDevice(New<D>(), Device(d, true, true));
            Attach(b, 0, 0, 10).Ok? &&
            Attach(Attach(b, 0, 0, 10).value, 0, 5, 15) == Ok(b.(entries := [Entry(0, 0, 10), Entry(0, 5, 15)]))
  {
    var b := AddDevice(New<D>(), Device(d, true, true));
    NeverOverlapping([], 0, 10);
    var b1 := Attach(b, 0, 0, 10).value;
    assert b1.entries == [Entry(0, 0, 10)];
    NeverOverlapping(b1.entries, 5, 15);
    assert b1.entries + [Entry(0, 5, 15)] == [Entry(0, 0, 10), Entry(0, 5, 15)];
    assert Attach(b1, 0, 5, 15) == Ok(b1.(entries := [Entry(0, 0, 10), Entry(0, 5, 15)]));
  }

  // ---------------------------------------------------------------------------
  // Properties of read

  /** Entry ranges never filter a read. */
  lemma NeverSkipped(e: Entry, aligned: int)
    ensures !Skipped(e, aligned)
  {
    assert Property(e, "devStart") == NaN;
    assert Property(e, "devEnd") == NaN;
  }

  lemma {:induction false} ReadFromFirst<D>(b: Bus<D>, rd: (D, int) -> Result<Val>, aligned: int, i: nat, k: nat)
    requires Valid(b) && i <= k < |b.entries|
    requires DeviceRead(b, rd, aligned, k).Ok?
    requires forall j :: i <= j < k ==> DeviceRead(b, rd, aligned, j).Err?
    ensures ReadFrom(b, rd, aligned, i) == DeviceRead(b, rd, aligned, k)
    decreases k - i
  {
    NeverSkipped(b.entries[i], aligned);
    if i < k {
      ReadFromFirst(b, rd, aligned, i + 1, k);
    }
  }

  /** `read` returns what the FIRST entry whose four device reads succeed yields; failing
      devices before it are passed over. */
  lemma ReadFirstSuccess<D>(b: Bus<D>, rd: (D, int) -> Result<Val>, address: int, k: nat)
    requires Valid(b) && k < |b.entries|
    requires DeviceRead(b, rd, Floor4(address), k).Ok?
    requires forall j :: 0 <= j < k ==> DeviceRead(b, rd, Floor4(address), j).Err?
    ensures Read(b, rd, address) == DeviceRead(b, rd, Floor4(address), k)
  {
    ReadFromFirst(b, rd, Floor4(address), 0, k);
  }

  /** `read` fails exactly when every entry's device fails one of its four reads
      (in particular when there are no entries). */
  lemma ReadFailsIffAllFail<D>(b: Bus<D>, rd: (D, int) -> Result<Val>, address: int)
    requires Valid(b)
    ensures Read(b, rd, address).Err? <==> forall j :: 0 <= j < |b.entries| ==> DeviceRead(b, rd, Floor4(address), j).Err?
    ensures Read(b, rd, address).Err? ==> Read(b, rd, address) == Err(NoDevice)
  {
  }

  lemma {:induction false} ReadFromRangesIgnored<D>(b: Bus<D>, b2: Bus<D>, rd: (D, int) -> Result<Val>, aligned: int, k: nat)
    requires Valid(b) && Valid(b2) && k <= |b.entries|
    requires b2.devices == b.devices && |b2.entries| == |b.entries|
    requires forall j :: 0 <= j < |b.entries| ==> b2.entries[j].device == b.entries[j].device
    ensures ReadFrom(b2, rd, aligned, k) == ReadFrom(b, rd, aligned, k)
    decreases |b.entries| - k
  {
    if k < |b.entries| {
      NeverSkipped(b.entries[k], aligned);
      NeverSkipped(b2.entries[k], aligned);
      ReadFromRangesIgnored(b, b2, rd, aligned, k + 1);
    }
  }

  /** The ranges of the entries play no part in `read`: two buses with the same devices
      attached in the same order read alike, whatever ranges they were attached with. */
  lemma ReadIgnoresRanges<D>(b: Bus<D>, b2: Bus<D>, rd: (D, int) -> Result<Val>, address: int)
    requires Valid(b) && Valid(b2)
    requires b2.devices == b.devices && |b2.entries| == |b.entries|
    requires forall j :: 0 <= j < |b.entries| ==> b2.entries[j].device == b.entries[j].device
    ensures Read(b2, rd, address) == Read(b, rd, address)
  {
    ReadFromRangesIgnored(b, b2, rd, Floor4(address), 0);
  }

  /** The four device reads are at the absolute offsets a, a+4, a+8 and a+12, for a the
      aligned address, and are packed most significant first. */
  lemma ReadWordOffsets<D>(d: D, rd: (D, int) -> Result<Val>, address: int)
    ensures var a := Floor4(address);
            ReadWord(d, rd, a).Ok? <==> rd(d, a).Ok? && rd(d, a + 4).Ok? && rd(d, a + 8).Ok? && rd(d, a + 12).Ok?
    ensures var a := Floor4(address);
            ReadWord(d, rd, a).Ok? ==>
              ReadWord(d, rd, a).value ==
                Pack(ValWord(rd(d, a).value), ValWord(rd(d, a + 4).value), ValWord(rd(d, a + 8).value), ValWord(rd(d, a + 12).value))
  {
    var a := Floor4(address);
    assert 4 * (a / 4) == a;
  }

  /** Packing puts the first read in the most significant byte: when every read is a single
      byte, the result's little-endian bytes are the reads in reverse order. */
  lemma PackBytes(w0: bv32, w1: bv32, w2: bv32, w3: bv32)
    requires w0 <= 0xFF && w1 <= 0xFF && w2 <= 0xFF && w3 <= 0xFF
    ensures ByteOf(Pack(w0, w1, w2, w3), 0) == ByteOf(w3, 0)
    ensures ByteOf(Pack(w0, w1, w2, w3), 1) == ByteOf(w2, 0)
    ensures ByteOf(Pack(w0, w1, w2, w3), 2) == ByteOf(w1, 0)
    ensures ByteOf(Pack(w0, w1, w2, w3), 3) == ByteOf(w0, 0)
  {
  }

  /** Only the low byte of the first read survives: its upper bytes are shifted out. */
  lemma PackDropsHighBytes(w0: bv32)
    ensures Pack(w0, 0, 0, 0) == (w0 & 0xFF) << 24
  {
  }

  // ---------------------------------------------------------------------------
  // Properties of word composition

  /** A 4-byte write passes the value modulo 2^32, whatever the byte offset. */
  lemma ComposeFull(value: int, offsetInWord: int)
    ensures ComposeWord(value, 4, offsetInWord) == Ok(Wrap(value))
  {
    LeWordBytes(Wrap(value));
  }

  /** A word a bus read returned, written back with size 4 as the signed number JavaScript
      holds it as, composes to the same word. */
  lemma ComposeSigned(w: bv32, offsetInWord: int)
    ensures ComposeWord(Signed(w), 4, offsetInWord) == Ok(w)
  {
    ComposeFull(Signed(w), offsetInWord);
    WrapSigned(w);
  }

  /** A 1-byte write places the low byte of the value at the byte offset, zeros elsewhere. */
  lemma ComposeByte(value: int, o: int)
    requires 0 <= o < 4
    ensures ComposeWord(value, 1, o).Ok?
    ensures forall j :: 0 <= j < 4 ==> ByteOf(ComposeWord(value, 1, o).value, j) == if j == o then Low8(value) else 0
  {
    var buf := Store([0, 0, 0, 0], o, [Low8(value)]).value;
    assert ComposeWord(value, 1, o) == Ok(LeWord(buf[0], buf[1], buf[2], buf[3]));
    BufferBytes(buf);
  }

  /** A 2-byte write at byte offset 0, 1 or 2 places the value's low half-word there,
      little-endian, with zeros elsewhere. */
  lemma ComposeHalf(value: int, o: int)
    requires 0 <= o <= 2
    ensures ComposeWord(value, 2, o).Ok?
    ensures forall j :: 0 <= j < 4 ==>
              ByteOf(ComposeWord(value, 2, o).value, j) ==
                if j == o then Low8(value) else if j == o + 1 then Low8(value / 256) else 0
  {
    var lo, hi := Low8(value), Low8(value / 256);
    var buf := Store([0, 0, 0, 0], o, [lo, hi]).value;
    assert ComposeWord(value, 2, o) == Ok(LeWord(buf[0], buf[1], buf[2], buf[3]));
    BufferBytes(buf);
  }

  /** The bytes of the word read back from a 4-byte buffer are the buffer. */
  lemma BufferBytes(buf: seq<bv8>)
    requires |buf| == 4
    ensures forall j :: 0 <= j < 4 ==> ByteOf(LeWord(buf[0], buf[1], buf[2], buf[3]), j) == buf[j]
  {
    LeBytesWord(buf[0], buf[1], buf[2], buf[3]);
  }

  // ---------------------------------------------------------------------------
  // Properties of write

  lemma {:induction false} WriteFromSkips<D>(b: Bus<D>, rd: (D, int) -> Result<Val>, wr: (D, int, bv32) -> D,
                                             address: int, value: int, size: int, i: nat, k: nat)
    requires Valid(b) && i <= k <= |b.entries| && (size == 1 || size == 2 || size == 4)
    requires forall j :: i <= j < k ==> !Covers(b.entries[j], address)
    ensures WriteFrom(b, rd, wr, address, value, size, i) == WriteFrom(b, rd, wr, address, value, size, k)
    decreases k - i
  {
    if i < k {
      WriteFromSkips(b, rd, wr, address, value, size, i + 1, k);
    }
  }

  /** A write to an address no entry covers changes nothing. */
  lemma WriteUncovered<D>(b: Bus<D>, rd: (D, int) -> Result<Val>, wr: (D, int, bv32) -> D,
                          address: int, value: int, size: int)
    requires Valid(b) && (size == 1 || size == 2 || size == 4)
    requires forall j :: 0 <= j < |b.entries| ==> !Covers(b.entries[j], address)
    ensures Write(b, rd, wr, address, value, size) == Ok(b)
  {
    WriteFromSkips(b, rd, wr, address, value, size, 0, |b.entries|);
  }

  /** With exactly one covering entry, `write` pre-reads its device at the word offset
      `4 * floor((a - start) / 4)` and, when that read and the composition succeed, writes the
      composed word at offset `a - start` (a the aligned address); otherwise nothing changes. */
  lemma WriteSingleEntry<D>(b: Bus<D>, rd: (D, int) -> Result<Val>, wr: (D, int, bv32) -> D,
                            address: int, value: int, size: int, k: nat)
    requires Valid(b) && (size == 1 || size == 2 || size == 4)
    requires k < |b.entries| && Covers(b.entries[k], address)
    requires forall j :: 0 <= j < |b.entries| && j != k ==> !Covers(b.entries[j], address)
    ensures var e := b.entries[k];
            var d := b.devices[e.device];
            var offset := Floor4(address) - e.startAddress;
            var pre := rd(d.state, 4 * (offset / 4));
            var word := ComposeWord(value, size, JsRem(address, 4));
            Write(b, rd, wr, address, value, size) ==
              Ok(if pre.Ok? && word.Ok? then b.(devices := b.devices[e.device := d.(state := wr(d.state, offset, word.value))])
                 else b)
  {
    WriteFromSkips(b, rd, wr, address, value, size, 0, k);
    var b1 := Visit(b, rd, wr, address, value, size, k);
    WriteFromSkips(b1, rd, wr, address, value, size, k + 1, |b.entries|);
  }

  /** Every covering entry is visited: a device attached through two entries whose ranges
      both contain the address is written through each of them in turn, first through the
      earlier entry. Each visit pre-reads the device as the previous visit left it and writes
      only when that read succeeds; a word that cannot be composed writes nothing at all. */
  lemma WriteVisitsEveryEntry<D>(d: D, rd: (D, int) -> Result<Val>, wr: (D, int, bv32) -> D,
                                 s1: int, e1: int, s2: int, e2: int, address: int, value: int, size: int)
    requires s1 <= address <= e1 && s2 <= address <= e2
    requires size == 1 || size == 2 || size == 4
    ensures var b := Bus([Device(d, true, true)], [Entry(0, s1, e1), Entry(0, s2, e2)]);
            var cw := ComposeWord(value, size, JsRem(address, 4));
            var o1, o2 := Floor4(address) - s1, Floor4(address) - s2;
            Write(b, rd, wr, address, value, size) ==
              if cw.Err? then Ok(b)
              else
                var d1 := if rd(d, 4 * (o1 / 4)).Ok? then wr(d, o1, cw.value) else d;
                var d2 := if rd(d1, 4 * (o2 / 4)).Ok? then wr(d1, o2, cw.value) else d1;
                Ok(b.(devices := [Device(d2, true, true)]))
  {
    var b := Bus([Device(d, true, true)], [Entry(0, s1, e1), Entry(0, s2, e2)]);
    var cw := ComposeWord(value, size, JsRem(address, 4));
    var o1, o2 := Floor4(address) - s1, Floor4(address) - s2;
    assert DeviceOffset(b.entries[0], address) == o1 && DeviceOffset(b.entries[1], address) == o2;
    var b1 := Visit(b, rd, wr, address, value, size, 0);
    var b2 := Visit(b1, rd, wr, address, value, size, 1);
    if cw.Ok? {
      var d1 := if rd(d, 4 * (o1 / 4)).Ok? then wr(d, o1, cw.value) else d;
      assert b1 == b.(devices := [Device(d1, true, true)]);
      var d2 := if rd(d1, 4 * (o2 / 4)).Ok? then wr(d1, o2, cw.value) else d1;
      assert b2 == b.(devices := [Device(d2, true, true)]);
    } else {
      assert b1 == b && b2 == b;
    }
    assert WriteFrom(b, rd, wr, address, value, size, 0) == WriteFrom(b1, rd, wr, address, value, size, 1);
    assert WriteFrom(b1, rd, wr, address, value, size, 1) == WriteFrom(b2, rd, wr, address, value, size, 2);
  }

  /** With word-sized writes to a device whose reads all succeed, both visits write the
      value modulo 2^32. */
  lemma WriteVisitsEveryEntryWord<D>(d: D, rd: (D, int) -> Result<Val>, wr: (D, int, bv32) -> D,
                                     s1: int, e1: int, s2: int, e2: int, address: int, value: int)
    requires s1 <= address <= e1 && s2 <= address <= e2
    requires forall x: D, o: int :: rd(x, o).Ok?
    ensures var b := Bus([Device(d, true, true)], [Entry(0, s1, e1), Entry(0, s2, e2)]);
            var w := Wrap(value);
            Write(b, rd, wr, address, value, 4) ==
              Ok(b.(devices := [Device(wr(wr(d, Floor4(address) - s1, w), Floor4(address) - s2, w), true, true)]))
  {
    var b := Bus([Device(d, true, true)], [Entry(0, s1, e1), Entry(0, s2, e2)]);
    var w := Wrap(value);
    ComposeFull(value, JsRem(address, 4));
    var b1 := Visit(b, rd, wr, address, value, 4, 0);
    assert b1 == b.(devices := [Device(wr(d, Floor4(address) - s1, w), true, true)]);
    var b2 := Visit(b1, rd, wr, address, value, 4, 1);
    assert b2 == b.(devices := [Device(wr(wr(d, Floor4(address) - s1, w), Floor4(address) - s2, w), true, true)]);
    WriteVisitsEveryEntry(d, rd, wr, s1, e1, s2, e2, address, value, 4);
  }

  lemma {:induction false} WriteFromFrame<D>(b: Bus<D>, rd: (D, int) -> Result<Val>, wr: (D, int, bv32) -> D,
                                             address: int, value: int, size: int, k: nat, i: nat)
    requires Valid(b) && k <= |b.entries| && (size == 1 || size == 2 || size == 4) && i < |b.devices|
    requires forall j :: k <= j < |b.entries| && Covers(b.entries[j], address) ==> b.entries[j].device != i
    ensures WriteFrom(b, rd, wr, address, value, size, k).devices[i] == b.devices[i]
    decreases |b.entries| - k
  {
    if k < |b.entries| {
      WriteFromFrame(Visit(b, rd, wr, address, value, size, k), rd, wr, address, value, size, k + 1, i);
    }
  }

  /** A device reached through no covering entry keeps its state. */
  lemma WriteFrame<D>(b: Bus<D>, rd: (D, int) -> Result<Val>, wr: (D, int, bv32) -> D,
                      address: int, value: int, size: int, i: nat)
    requires Valid(b) && (size == 1 || size == 2 || size == 4) && i < |b.devices|
    requires forall j :: 0 <= j < |b.entries| && Covers(b.entries[j], address) ==> b.entries[j].device != i
    ensures Write(b, rd, wr, address, value, size).value.devices[i] == b.devices[i]
  {
    WriteFromFrame(b, rd, wr, address, value, size, 0, i);
  }

  lemma {:induction false} WriteFromPreRead<D>(b: Bus<D>, rd1: (D, int) -> Result<Val>, rd2: (D, int) -> Result<Val>,
                                               wr: (D, int, bv32) -> D, address: int, value: int, size: int, k: nat)
    requires Valid(b) && k <= |b.entries| && (size == 1 || size == 2 || size == 4)
    requires forall x: D, o: int :: rd1(x, o).Ok? == rd2(x, o).Ok?
    ensures WriteFrom(b, rd1, wr, address, value, size, k) == WriteFrom(b, rd2, wr, address, value, size, k)
    decreases |b.entries| - k
  {
    if k < |b.entries| {
      VisitPreRead(b, rd1, rd2, wr, address, value, size, k);
      WriteFromPreRead(Visit(b, rd1, wr, address, value, size, k), rd1, rd2, wr, address, value, size, k + 1);
    }
  }

  lemma VisitPreRead<D>(b: Bus<D>, rd1: (D, int) -> Result<Val>, rd2: (D, int) -> Result<Val>,
                        wr: (D, int, bv32) -> D, address: int, value: int, size: int, k: nat)
    requires Valid(b) && k < |b.entries| && (size == 1 || size == 2 || size == 4)
    requires forall x: D, o: int :: rd1(x, o).Ok? == rd2(x, o).Ok?
    ensures Visit(b, rd1, wr, address, value, size, k) == Visit(b, rd2, wr, address, value, size, k)
  {
  }

  /** The pre-read word never contributes: two devices whose reads succeed and fail alike,
      whatever they return, receive the same writes. */
  lemma WriteIgnoresPreRead<D>(b: Bus<D>, rd1: (D, int) -> Result<Val>, rd2: (D, int) -> Result<Val>,
                               wr: (D, int, bv32) -> D, address: int, value: int, size: int)
    requires Valid(b)
    requires forall x: D, o: int :: rd1(x, o).Ok? == rd2(x, o).Ok?
    ensures Write(b, rd1, wr, address, value, size) == Write(b, rd2, wr, address, value, size)
  {
    if size == 1 || size == 2 || size == 4 {
      WriteFromPreRead(b, rd1, rd2, wr, address, value, size, 0);
    }
  }
}
