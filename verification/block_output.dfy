/**
 * The transmit block (src/block_output.js). Writing the start address
 * (0x00) and then a byte length (0x04) makes the device read the words from
 * the start address over the bus and emit them, synchronously within the
 * write, as a byte array: each word is split into its bytes, least
 * significant first. A separate `setValue`/`read` pair keeps arbitrary
 * values by address. The bus is a read function, and the emitted `data`
 * event is returned as an output.
 */
module BlockOutput {
  import opened Common

  /** `_length` is initialised and never used again. */
  datatype Block = Block(values: map<int, int>, startAddress: int, length: int)

  function New(): (b: Block)
    ensures b.values == map[] && b.startAddress == 0
  {
    Block(map[], 0, 0)
  }

  /** `setValue(address, value)`. */
  function SetValue(b: Block, address: int, value: int): (r: Block)
    ensures r.startAddress == b.startAddress
    ensures Read(r, address) == Some(value)
    ensures forall a :: a != address ==> Read(r, a) == Read(b, a)
  {
    b.(values := b.values[address := value])
  }

  /** `read(address)`: the value last set there, or `undefined` (None). */
  function Read(b: Block, address: int): (r: Option<int>)
    ensures r.Some? <==> address in b.values
  {
    if address in b.values then Some(b.values[address]) else None
  }

  /** `Math.ceil(length / 4)`: how many words cover `length` bytes. */
  function WordCount(length: nat): (n: nat)
    ensures 4 * n >= length && 4 * n < length + 4
  {
    (length + 3) / 4
  }

  /** The bytes a transmission of `length` bytes from `start` emits, given the words read:
      byte k is byte k mod 4 of word k div 4. */
  function Serialised(words: seq<bv32>, length: nat): (bytes: seq<bv8>)
    requires |words| >= WordCount(length)
    ensures |bytes| == length
  {
    seq(length, k requires 0 <= k < length => ByteOf(words[k / 4], k % 4))
  }

  /** The addresses of the words a transmission reads, in order. */
  function ReadAddresses(start: int, count: nat): (addrs: seq<int>)
    ensures |addrs| == count
  {
    seq(count, i => start + 4 * i)
  }

  /** Every word read succeeds up to (not including) word `count`. */
  predicate ReadsSucceed(start: int, count: nat, rd: int -> Result<bv32>)
  {
    forall i :: 0 <= i < count ==> rd(start + 4 * i).Ok?
  }

  /** The words read, given that they all succeed. */
  function WordsRead(start: int, count: nat, rd: int -> Result<bv32>): (words: seq<bv32>)
    requires ReadsSucceed(start, count, rd)
    ensures |words| == count
  {
    seq(count, i requires 0 <= i < count && ReadsSucceed(start, count, rd) => rd(start + 4 * i).value)
  }

  /** The inner loop of the serialisation: bytes 0..3 of `word` go to positions 4i..4i+3
      of the buffer, as far as the buffer reaches. */
  method StoreWord(buffer: seq<bv8>, i: nat, word: bv32) returns (out: seq<bv8>)
    ensures |out| == |buffer|
    ensures forall k :: 0 <= k < |buffer| ==>
              out[k] == if 4 * i <= k < 4 * i + 4 then ByteOf(word, k % 4) else buffer[k]
  {
    out := buffer;
    var j := 0;
    while j < 4 && i * 4 + j < |buffer|
      invariant 0 <= j <= 4
      invariant |out| == |buffer|
      invariant forall k :: 0 <= k < |buffer| ==>
                  out[k] == if 4 * i <= k < 4 * i + j then ByteOf(word, k % 4) else buffer[k]
    {
      WithinWord(i, j);
      out := out[i * 4 + j := ByteOf(word, j)];
      j := j + 1;
    }
  }

  lemma WithinWord(i: nat, j: nat)
    requires j < 4
    ensures (4 * i + j) / 4 == i && (4 * i + j) % 4 == j
  {
  }

  /** The serialisation loop of a write to 0x04: `new Uint8Array(length)`, then for each of
      the `ceil(length / 4)` words, a bus read and up to four byte stores. A failing read
      propagates out of the write and nothing is emitted. Returns the bytes and the trace
      of addresses read. */
  method Transmit(start: int, length: nat, rd: int -> Result<bv32>) returns (r: Result<seq<bv8>>, trace: seq<int>)
    ensures r.Ok? <==> ReadsSucceed(start, WordCount(length), rd)
    ensures r.Ok? ==> r.value == Serialised(WordsRead(start, WordCount(length), rd), length)
    ensures r.Ok? ==> trace == ReadAddresses(start, WordCount(length))
    ensures r.Err? ==>
              exists n :: 0 <= n < WordCount(length) && ReadsSucceed(start, n, rd) &&
                          trace == ReadAddresses(start, n + 1) && rd(start + 4 * n) == Err(r.error)
  {
    var buffer: seq<bv8> := seq(length, _ => 0);
    var count := WordCount(length);
    trace := [];
    var words: seq<bv32> := [];
    var i := 0;
    while i < count
      invariant 0 <= i <= count
      invariant |buffer| == length
      invariant trace == ReadAddresses(start, i)
      invariant ReadsSucceed(start, i, rd) && words == WordsRead(start, i, rd)
      invariant forall k :: 0 <= k < length ==>
                  buffer[k] == if k < 4 * i then ByteOf(words[k / 4], k % 4) else 0
    {
      var address := start + i * 4;
      trace := trace + [address];
      var word := rd(address);
      if word.Err? {
        r := Err(word.error);
        return;
      }
      buffer := StoreWord(buffer, i, word.value);
      words := words + [word.value];
      i := i + 1;
    }
    r := Ok(buffer);
  }

  /** `write(address, value)`: 0x00 sets the start address; 0x04 transmits `value` bytes
      from it and returns them as the emitted `data` event, leaving the device unchanged
      (a negative length is a RangeError from the byte array); other addresses throw. */
  method Write(b: Block, address: int, value: int, rd: int -> Result<bv32>)
    returns (r: Result<Block>, emitted: Option<seq<bv8>>, trace: seq<int>)
    ensures address == 0x00 ==> r == Ok(b.(startAddress := value)) && emitted == None && trace == []
    ensures address == 0x04 && value < 0 ==> r == Err(RangeError) && emitted == None && trace == []
    ensures address == 0x04 && value >= 0 ==>
              (r.Ok? <==> ReadsSucceed(b.startAddress, WordCount(value), rd)) &&
              (r.Ok? ==> r.value == b && emitted.Some? && |emitted.value| == value &&
                         emitted.value == Serialised(WordsRead(b.startAddress, WordCount(value), rd), value) &&
                         trace == ReadAddresses(b.startAddress, WordCount(value))) &&
              (r.Err? ==> emitted == None)
    ensures address != 0x00 && address != 0x04 ==> r == Err(InvalidAddress) && emitted == None && trace == []
  {
    emitted := None;
    trace := [];
    if address == 0x00 {
      r := Ok(b.(startAddress := value));
    } else if address == 0x04 {
      if value < 0 {
        r := Err(RangeError);
      } else {
        var bytes;
        bytes, trace := Transmit(b.startAddress, value, rd);
        if bytes.Ok? {
          r := Ok(b);
          emitted := Some(bytes.value);
        } else {
          r := Err(bytes.error);
        }
      }
    } else {
      r := Err(InvalidAddress);
    }
  }

  // ---------------------------------------------------------------------------
  // Properties

  /** Emitted byte k is byte k mod 4 of the word read at start + 4 * (k div 4). */
  lemma SerialisedByte(start: int, length: nat, rd: int -> Result<bv32>, k: nat)
    requires ReadsSucceed(start, WordCount(length), rd) && k < length
    ensures k / 4 < WordCount(length)
    ensures Serialised(WordsRead(start, WordCount(length), rd), length)[k] ==
              ByteOf(rd(start + 4 * (k / 4)).value, k % 4)
  {
  }

  /** The emitted bytes reassemble, four at a time and least significant first, into the
      words read. */
  lemma SerialisedRoundTrip(words: seq<bv32>, length: nat, i: nat)
    requires |words| >= WordCount(length) && 4 * i + 4 <= length
    ensures var bytes := Serialised(words, length);
            LeWord(bytes[4 * i], bytes[4 * i + 1], bytes[4 * i + 2], bytes[4 * i + 3]) == words[i]
  {
    SerialisedAt(words, length, i, 0);
    SerialisedAt(words, length, i, 1);
    SerialisedAt(words, length, i, 2);
    SerialisedAt(words, length, i, 3);
    LeWordBytes(words[i]);
  }

  lemma SerialisedAt(words: seq<bv32>, length: nat, i: nat, a: nat)
    requires |words| >= WordCount(length) && 4 * i + a < length && a < 4
    ensures i < |words|
    ensures Serialised(words, length)[4 * i + a] == ByteOf(words[i], a)
  {
    assert (4 * i + a) / 4 == i && (4 * i + a) % 4 == a;
  }
}
