/**
 * The GPIO port (src/GPIO.js). Its register layout follows the STM32F10x
 * GPIO block (RM0008, section 9.2): CRL at 0, CRH at 4, IDR in the word at
 * 8, BSRR at 16, BRR at 20, LCKR at 24. Only the input data word and the
 * output latch carry state; the set/reset arithmetic is the code's own, and
 * for BSRR it differs from RM0008 section 9.2.5 (see `BsrrSetClearsAll`).
 *
 * The `data` event a BSRR/BRR write emits is returned as an output value.
 */
module GpioPort {
  import opened Common

  /** `_externalDrive` is a JavaScript array indexed by pin, so any pin index may be
      stored; it is modelled as a map that starts with pins 0..7 floating (0). */
  datatype Gpio = Gpio(externalDrive: map<int, int>, output: bv32, idr: bv32)

  const BSRR: int := 16
  const BRR: int := 20

  /** Bit `j` of `w`. */
  predicate Test(w: bv32, j: bv5)
  {
    (w >> j) & 1 == 1
  }

  /** The single-bit mask `1 << k`. */
  function Bit(k: bv5): bv32
  {
    (1 as bv32) << k
  }

  function ClearBit(w: bv32, k: bv5): bv32
  {
    w & !Bit(k)
  }

  function SetBit(w: bv32, k: bv5): bv32
  {
    w | Bit(k)
  }

  /** The output latch after a BRR write of `w`: the low half sets, the high half resets. */
  function BrrLatch(o: bv32, w: bv32): bv32
  {
    (o | (w & 0xFFFF)) & !(w >> 16)
  }

  /** The output latch after a BSRR write of `w`, as the code computes it: both halves
      of `w` are complemented before use. */
  function BsrrLatch(o: bv32, w: bv32): bv32
  {
    (o | !(w & 0xFFFF)) & (w >> 16)
  }

  /** The bit `1 << pin+16` addresses: JavaScript takes the shift count modulo 32,
      so pins 16 and above wrap round to the low bits. */
  function PinBit(pin: int): (k: bv5)
    ensures (k as int - (pin + 16)) % 32 == 0
  {
    ((pin + 16) % 32) as bv5
  }

  function New(): (g: Gpio)
    ensures forall pin :: 0 <= pin < 8 <==> pin in g.externalDrive
    ensures forall pin :: pin in g.externalDrive ==> g.externalDrive[pin] == 0
    ensures g.output == 0 && g.idr == 0
  {
    Gpio(map[0 := 0, 1 := 0, 2 := 0, 3 := 0, 4 := 0, 5 := 0, 6 := 0, 7 := 0], 0, 0)
  }

  /** `setExternalDrive(pin, value)`: record the drive; pulled low (< 0) clears the pin's
      input bit, pulled high (> 0) sets it, floating (0) leaves it. */
  function SetExternalDrive(g: Gpio, pin: int, value: int): (r: Gpio)
    ensures r.externalDrive == g.externalDrive[pin := value]
    ensures r.output == g.output
    ensures value == 0 ==> r.idr == g.idr
  {
    var k := PinBit(pin);
    var idr :=
      if value < 0 then ClearBit(g.idr, k)
      else if value == 0 then g.idr
      else SetBit(g.idr, k);
    g.(externalDrive := g.externalDrive[pin := value], idr := idr)
  }

  /** `read(address)`: the input data word at 8, zero at the other listed registers. */
  function Read(g: Gpio, address: int): (r: Result<int>)
    ensures r.Err? <==> address !in {0, 4, 8, 10, 16, 20, 24}
    ensures r.Err? ==> r.error == InvalidAddress
    ensures r.Ok? && address != 8 ==> r.value == 0
    ensures address == 8 ==> r.Ok? && Wrap(r.value) == g.idr
  {
    if address == 8 then
      WrapSigned(g.idr);
      Ok(Signed(g.idr))
    else if address in {0, 4, 10, 16, 20, 24} then Ok(0)
    else Err(InvalidAddress)
  }

  /** `write(address, value)`: BSRR (16) and BRR (20) update the output latch and emit it;
      every other address is accepted and ignored. */
  function Write(g: Gpio, address: int, value: int): (r: (Gpio, Option<int>))
    ensures address != BSRR && address != BRR ==> r == (g, None)
    ensures address == BSRR || address == BRR ==>
              r.0 == g.(output := r.0.output) && r.1 == Some(Signed(r.0.output))
  {
    if address == BSRR || address == BRR then
      var out := if address == BSRR then BsrrLatch(g.output, Wrap(value)) else BrrLatch(g.output, Wrap(value));
      (g.(output := out), Some(Signed(out)))
    else (g, None)
  }

  // ---------------------------------------------------------------------------
  // Properties

  lemma AndNotBit(w: bv32, k: bv5, j: bv5)
    ensures Test(ClearBit(w, k), j) == (j != k && Test(w, j))
  {
  }

  lemma OrBit(w: bv32, k: bv5, j: bv5)
    ensures Test(SetBit(w, k), j) == (j == k || Test(w, j))
  {
  }

  /** setExternalDrive: the pin's input bit follows the sign of the drive (floating
      leaves it), and no other input bit changes. */
  lemma SetExternalDriveBits(g: Gpio, pin: int, value: int, j: bv5)
    ensures j == PinBit(pin) && value < 0 ==> !Test(SetExternalDrive(g, pin, value).idr, j)
    ensures j == PinBit(pin) && value > 0 ==> Test(SetExternalDrive(g, pin, value).idr, j)
    ensures j != PinBit(pin) || value == 0 ==> Test(SetExternalDrive(g, pin, value).idr, j) == Test(g.idr, j)
  {
    var k := PinBit(pin);
    if value < 0 {
      AndNotBit(g.idr, k, j);
    } else if value > 0 {
      OrBit(g.idr, k, j);
    }
  }

  /** For pins 0..15 the drive lands in the upper half-word of the input word. */
  lemma PinBitUpperHalf(pin: int)
    requires 0 <= pin < 16
    ensures PinBit(pin) >= 16 && PinBit(pin) as int == pin + 16
  {
  }

  lemma BrrBit(o: bv32, w: bv32, j: bv5)
    ensures j < 16 ==> Test(BrrLatch(o, w), j) == (!Test(w, j + 16) && (Test(w, j) || Test(o, j)))
    ensures j >= 16 ==> Test(BrrLatch(o, w), j) == Test(o, j)
  {
  }

  lemma BsrrBit(o: bv32, w: bv32, j: bv5)
    ensures j < 16 ==> Test(BsrrLatch(o, w), j) == (Test(w, j + 16) && (Test(o, j) || !Test(w, j)))
    ensures j >= 16 ==> !Test(BsrrLatch(o, w), j)
  {
  }

  /** A BRR write: for each low pin j, reset bit j+16 wins, else set bit j sets it, else
      it keeps its level; the upper half of the latch is untouched. The new latch is emitted. */
  lemma BrrWrite(g: Gpio, value: int, j: bv5)
    ensures Write(g, BRR, value).1 == Some(Signed(Write(g, BRR, value).0.output))
    ensures j < 16 ==>
              Test(Write(g, BRR, value).0.output, j) == (!Test(Wrap(value), j + 16) && (Test(Wrap(value), j) || Test(g.output, j)))
    ensures j >= 16 ==> Test(Write(g, BRR, value).0.output, j) == Test(g.output, j)
  {
    BrrBit(g.output, Wrap(value), j);
  }

  /** A BSRR write as the code computes it: low pin j ends up high iff bit j+16 of the value
      is set and (bit j of the value is clear or the pin was already high); the upper
      half of the latch is cleared. The new latch is emitted. */
  lemma BsrrWrite(g: Gpio, value: int, j: bv5)
    ensures Write(g, BSRR, value).1 == Some(Signed(Write(g, BSRR, value).0.output))
    ensures j < 16 ==>
              Test(Write(g, BSRR, value).0.output, j) == (Test(Wrap(value), j + 16) && (Test(g.output, j) || !Test(Wrap(value), j)))
    ensures j >= 16 ==> !Test(Write(g, BSRR, value).0.output, j)
  {
    BsrrBit(g.output, Wrap(value), j);
  }

  /** RM0008 section 9.2.5 has a BSRR write of BSy (low half only) set pin y; here any value
      with a clear upper half, a single set bit included, drives the whole latch to 0. */
  lemma BsrrSetClearsAll(g: Gpio, value: int)
    requires Wrap(value) & 0xFFFF_0000 == 0
    ensures Write(g, BSRR, value).0.output == 0
    ensures Write(g, BSRR, value).1 == Some(0)
  {
    var w := Wrap(value);
    assert BsrrLatch(g.output, w) == 0;
  }

  lemma LatchIdempotent(o: bv32, w: bv32)
    ensures BsrrLatch(BsrrLatch(o, w), w) == BsrrLatch(o, w)
    ensures BrrLatch(BrrLatch(o, w), w) == BrrLatch(o, w)
  {
  }

  /** Repeating a BSRR or BRR write leaves the latch where the first write put it. */
  lemma WriteIdempotent(g: Gpio, address: int, value: int)
    ensures Write(Write(g, address, value).0, address, value) == Write(g, address, value)
  {
    var w := Wrap(value);
    if address == BSRR {
      LatchIdempotent(g.output, w);
    } else if address == BRR {
      LatchIdempotent(g.output, w);
    }
  }
}
