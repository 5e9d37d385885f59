/**
 * The DMA controller (src/dma.js): five registers and a copy loop.
 *
 * Register map: 0x00 source address, 0x04 destination address, 0x08 transfer
 * length in bytes, 0x0C control (bit 0 busy/enable, bit 1 source increment,
 * bit 2 destination increment), 0x10 data size. Writing the control register
 * with bit 0 set starts a transfer at once; the transfer copies one word per
 * iteration (`bus.read(source)` then `bus.write(destination, value)`), moves
 * the addresses whose increment bit is set by the data size, and counts the
 * length down by the data size until it is no longer positive.
 *
 * The bus is abstract: `rd` is its `read` (which may fail) and `wr` its
 * `write` of a whole word (which cannot fail at size 4). Every bus access is
 * recorded in a trace, so the properties can speak about what was read and
 * written, in order.
 */
module DmaController {
  import opened Common

  /** The register file. `transferComplete` is the internal flag. */
  datatype Dma = Dma(sourceAddress: int, destAddress: int, transferLength: int,
                     control: int, dataSize: int, transferComplete: bool)

  /** One bus access: a read of `value` at `address`, or a write of `value` there. */
  datatype Access = BusRead(address: int, value: bv32) | BusWrite(address: int, value: bv32)

  /** The controller together with the bus state it acts on and the accesses made so far. */
  datatype Machine<B> = Machine(dma: Dma, bus: B, trace: seq<Access>)

  /** `new DMA(bus)`. */
  function New(): (d: Dma)
    ensures d.sourceAddress == 0 && d.destAddress == 0 && d.transferLength == 0
    ensures d.control == 0 && d.dataSize == 4 && !d.transferComplete
  {
    Dma(0, 0, 0, 0, 4, false)
  }

  /** `read(offset)`. */
  function Read(d: Dma, offset: int): (r: Result<int>)
    ensures offset == 0x00 ==> r == Ok(d.sourceAddress)
    ensures offset == 0x04 ==> r == Ok(d.destAddress)
    ensures offset == 0x08 ==> r == Ok(d.transferLength)
    ensures offset == 0x0C ==> r == Ok(d.control)
    ensures offset == 0x10 ==> r == Ok(d.dataSize)
    ensures r.Err? <==> offset !in {0x00, 0x04, 0x08, 0x0C, 0x10}
    ensures r.Err? ==> r.error == DmaOffset
  {
    if offset == 0x00 then Ok(d.sourceAddress)
    else if offset == 0x04 then Ok(d.destAddress)
    else if offset == 0x08 then Ok(d.transferLength)
    else if offset == 0x0C then Ok(d.control)
    else if offset == 0x10 then Ok(d.dataSize)
    else Err(DmaOffset)
  }

  /** `control & 0xFFFFFFFE`: the 32-bit pattern of `c` with bit 0 cleared, as the signed
      number a JavaScript bitwise operator yields. */
  function ClearBit0(c: int): (r: int)
    ensures -0x8000_0000 <= r < 0x8000_0000
  {
    var u := c % TWO32;
    var v := u - u % 2;
    if v < 0x8000_0000 then v else v - TWO32
  }

  /** Clearing bit 0 keeps every other bit of the 32-bit pattern: the pattern of the result
      is the pattern of `c` minus its lowest bit. */
  lemma ClearBit0Bits(c: int)
    ensures ClearBit0(c) % TWO32 == c % TWO32 - c % 2
    ensures !Has(ClearBit0(c), 1)
  {
    var u := c % TWO32;
    var h := (c / TWO32) * 0x8000_0000;
    assert c == 2 * h + u;
    EvenShift(h, u);
    var v := u - u % 2;
    assert 0 <= v < TWO32 && v % 2 == 0;
    if v >= 0x8000_0000 {
      assert (v - TWO32) % TWO32 == v;
      assert (v - TWO32) % 2 == 0;
    }
  }

  lemma EvenShift(h: int, u: int)
    ensures (2 * h + u) % 2 == u % 2
  {
  }

  /** Where the source address is after k iterations. */
  function SrcAt(d: Dma, k: nat): int
  {
    if Has(d.control, 2) then d.sourceAddress + k * d.dataSize else d.sourceAddress
  }

  /** Where the destination address is after k iterations. */
  function DstAt(d: Dma, k: nat): int
  {
    if Has(d.control, 4) then d.destAddress + k * d.dataSize else d.destAddress
  }

  /** One iteration of the copy loop: read at the source, write the value at the destination,
      advance. A failing read stops the iteration before anything changes. */
  function Iterate<B>(m: Machine<B>, rd: (B, int) -> Result<bv32>, wr: (B, int, bv32) -> B): (r: Result<Machine<B>>)
    ensures r.Err? <==> rd(m.bus, m.dma.sourceAddress).Err?
    ensures r.Ok? ==> r.value.dma == m.dma.(sourceAddress := SrcAt(m.dma, 1), destAddress := DstAt(m.dma, 1),
                                            transferLength := m.dma.transferLength - m.dma.dataSize)
  {
    var d := m.dma;
    var value :- rd(m.bus, d.sourceAddress);
    var bus := wr(m.bus, d.destAddress, value);
    var src := if Has(d.control, 2) then d.sourceAddress + d.dataSize else d.sourceAddress;
    var dst := if Has(d.control, 4) then d.destAddress + d.dataSize else d.destAddress;
    Ok(Machine(d.(sourceAddress := src, destAddress := dst, transferLength := d.transferLength - d.dataSize),
               bus, m.trace + [BusRead(d.sourceAddress, value), BusWrite(d.destAddress, value)]))
  }

  /** The `while (transferLength > 0)` loop. It terminates because the data size is positive
      whenever the loop runs; a failing read ends it with the in-progress state. */
  function Loop<B>(m: Machine<B>, rd: (B, int) -> Result<bv32>, wr: (B, int, bv32) -> B): (r: Outcome<Machine<B>>)
    requires m.dma.transferLength <= 0 || m.dma.dataSize > 0
    ensures r.state.dma.control == m.dma.control && r.state.dma.dataSize == m.dma.dataSize
    ensures r.state.dma.transferComplete == m.dma.transferComplete
    ensures r.Completed? ==> r.state.dma.transferLength <= 0
    decreases if m.dma.transferLength > 0 then m.dma.transferLength else 0
  {
    if m.dma.transferLength <= 0 then Completed(m)
    else match Iterate(m, rd, wr)
      case Err(e) => Aborted(m, e)
      case Ok(next) => Loop(next, rd, wr)
  }

  /** `performTransfer()`: the loop, then bit 0 of control cleared and the completion flag set. */
  function PerformTransfer<B>(m: Machine<B>, rd: (B, int) -> Result<bv32>, wr: (B, int, bv32) -> B): (r: Outcome<Machine<B>>)
    requires m.dma.transferLength <= 0 || m.dma.dataSize > 0
    ensures r.Completed? ==> r.state.dma.transferComplete && r.state.dma.control == ClearBit0(m.dma.control)
    ensures r.Aborted? ==> r.state.dma.transferComplete == m.dma.transferComplete && r.state.dma.control == m.dma.control
  {
    match Loop(m, rd, wr)
    case Completed(s) => Completed(s.(dma := s.dma.(control := ClearBit0(s.dma.control), transferComplete := true)))
    case Aborted(s, e) => Aborted(s, e)
  }

  /** `start()`. */
  function Start<B>(m: Machine<B>, rd: (B, int) -> Result<bv32>, wr: (B, int, bv32) -> B): (r: Outcome<Machine<B>>)
    requires Has(m.dma.control, 1) && m.dma.transferLength > 0 ==> m.dma.dataSize > 0
    ensures m.dma.transferLength == 0 ==> r == Aborted(m, ZeroLength)
    ensures m.dma.transferLength != 0 && !Has(m.dma.control, 1) ==> r == Completed(m)
  {
    if m.dma.transferLength == 0 then Aborted(m, ZeroLength)
    else if Has(m.dma.control, 1) then PerformTransfer(m.(dma := m.dma.(transferComplete := false)), rd, wr)
    else Completed(m)
  }

  /** `write(offset, value)`. A control write stores the value and then starts a transfer
      when bit 0 of the value is set. */
  function Write<B>(m: Machine<B>, rd: (B, int) -> Result<bv32>, wr: (B, int, bv32) -> B,
                    offset: int, value: int): (r: Outcome<Machine<B>>)
    requires offset == 0x0C && Has(value, 1) && m.dma.transferLength > 0 ==> m.dma.dataSize > 0
    ensures offset == 0x00 ==> r == Completed(m.(dma := m.dma.(sourceAddress := value)))
    ensures offset == 0x04 ==> r == Completed(m.(dma := m.dma.(destAddress := value)))
    ensures offset == 0x08 ==> r == Completed(m.(dma := m.dma.(transferLength := value)))
    ensures offset == 0x10 ==> r == Completed(m.(dma := m.dma.(dataSize := value)))
    ensures offset == 0x0C && !Has(value, 1) ==> r == Completed(m.(dma := m.dma.(control := value)))
    ensures offset == 0x0C && Has(value, 1) ==> r == Start(m.(dma := m.dma.(control := value)), rd, wr)
    ensures offset !in {0x00, 0x04, 0x08, 0x0C, 0x10} ==> r == Aborted(m, DmaOffset)
  {
    if offset == 0x00 then Completed(m.(dma := m.dma.(sourceAddress := value)))
    else if offset == 0x04 then Completed(m.(dma := m.dma.(destAddress := value)))
    else if offset == 0x08 then Completed(m.(dma := m.dma.(transferLength := value)))
    else if offset == 0x0C then
      var stored := m.(dma := m.dma.(control := value));
      if Has(value, 1) then Start(stored, rd, wr) else Completed(stored)
    else if offset == 0x10 then Completed(m.(dma := m.dma.(dataSize := value)))
    else Aborted(m, DmaOffset)
  }

  // ---------------------------------------------------------------------------
  // Reference definitions: how many iterations a transfer takes, and what a trace means

  /** The number of loop iterations for length L and data size ds: the least n with
      L - n * ds <= 0, that is ceil(L / ds) for positive L, and 0 otherwise. */
  function Iterations(L: int, ds: int): (n: nat)
    requires ds > 0
    ensures L <= 0 ==> n == 0
    ensures L > 0 ==> n >= 1 && L - n * ds <= 0 < L - (n - 1) * ds
    decreases if L > 0 then L else 0
  {
    if L <= 0 then 0 else 1 + Iterations(L - ds, ds)
  }

  /** The bus state after the writes of trace t, applied in order from `bus`. */
  function Replay<B>(wr: (B, int, bv32) -> B, bus: B, t: seq<Access>): B
    decreases |t|
  {
    if t == [] then bus
    else Replay(wr, if t[0].BusWrite? then wr(bus, t[0].address, t[0].value) else bus, t[1..])
  }

  /** Every read in trace t returned what the bus, replayed up to that point, yields. */
  predicate Consistent<B>(rd: (B, int) -> Result<bv32>, wr: (B, int, bv32) -> B, bus: B, t: seq<Access>)
    decreases |t|
  {
    t == [] ||
    ((t[0].BusRead? ==> rd(bus, t[0].address) == Ok(t[0].value)) &&
     Consistent(rd, wr, if t[0].BusWrite? then wr(bus, t[0].address, t[0].value) else bus, t[1..]))
  }

  /** Entries 2k and 2k+1 after `base` are a read at `src` and a write of the value read to `dst`. */
  predicate PairAt(t: seq<Access>, base: nat, k: nat, src: int, dst: int)
  {
    base + 2 * k + 1 < |t| &&
    t[base + 2 * k].BusRead? && t[base + 2 * k].address == src &&
    t[base + 2 * k + 1] == BusWrite(dst, t[base + 2 * k].value)
  }

  /** `r` is what k iterations of the loop make of `m`: the addresses and length advanced k
      times, k read/write pairs appended to the trace at the addresses of each iteration, and
      the bus state explained by replaying those accesses, whose reads are consistent. */
  ghost predicate Ran<B>(rd: (B, int) -> Result<bv32>, wr: (B, int, bv32) -> B, m: Machine<B>, r: Machine<B>, k: nat)
  {
    r.dma == m.dma.(sourceAddress := SrcAt(m.dma, k), destAddress := DstAt(m.dma, k),
                    transferLength := m.dma.transferLength - k * m.dma.dataSize) &&
    |r.trace| == |m.trace| + 2 * k && r.trace[..|m.trace|] == m.trace &&
    (forall j :: 0 <= j < k ==> PairAt(r.trace, |m.trace|, j, SrcAt(m.dma, j), DstAt(m.dma, j))) &&
    r.bus == Replay(wr, m.bus, r.trace[|m.trace|..]) &&
    Consistent(rd, wr, m.bus, r.trace[|m.trace|..])
  }

  // ---------------------------------------------------------------------------
  // Arithmetic of the loop counter

  /** When the data size divides the length (L = p * ds), the loop runs p times and the
      length ends at exactly 0. */
  lemma {:induction false} IterationsExact(p: nat, ds: int)
    requires ds > 0
    ensures Iterations(p * ds, ds) == p
    ensures p * ds - Iterations(p * ds, ds) * ds == 0
  {
    if p > 0 {
      assert p * ds - ds == (p - 1) * ds;
      IterationsExact(p - 1, ds);
    }
  }

  // ---------------------------------------------------------------------------
  // Properties of the loop

  /** The registers after one iteration (n), advanced k more times, are the registers of
      d advanced k + 1 times. */
  predicate OneStepOn(d: Dma, n: Dma)
  {
    n.control == d.control && n.dataSize == d.dataSize &&
    n.sourceAddress == SrcAt(d, 1) && n.destAddress == DstAt(d, 1)
  }

  lemma AtShift(d: Dma, n: Dma, k: nat)
    requires OneStepOn(d, n)
    ensures SrcAt(n, k) == SrcAt(d, k + 1) && DstAt(n, k) == DstAt(d, k + 1)
  {
    assert (k + 1) * d.dataSize == k * d.dataSize + d.dataSize;
  }

  /** Replaying and checking a read/write pair followed by more accesses. */
  lemma ReplayPair<B>(rd: (B, int) -> Result<bv32>, wr: (B, int, bv32) -> B, bus: B, src: int, dst: int, v: bv32, t: seq<Access>)
    ensures Replay(wr, bus, [BusRead(src, v), BusWrite(dst, v)] + t) == Replay(wr, wr(bus, dst, v), t)
    ensures Consistent(rd, wr, bus, [BusRead(src, v), BusWrite(dst, v)] + t) <==>
              rd(bus, src) == Ok(v) && Consistent(rd, wr, wr(bus, dst, v), t)
  {
    var u := [BusRead(src, v), BusWrite(dst, v)] + t;
    assert u[1..][1..] == t;
  }

  /** Zero iterations: the machine as it is. */
  lemma RanZero<B>(rd: (B, int) -> Result<bv32>, wr: (B, int, bv32) -> B, m: Machine<B>)
    ensures Ran(rd, wr, m, m, 0)
  {
    assert m.trace[|m.trace|..] == [];
  }

  /** What one successful iteration appends to the trace and does to the bus. */
  lemma IterateEffect<B>(m: Machine<B>, rd: (B, int) -> Result<bv32>, wr: (B, int, bv32) -> B)
    requires Iterate(m, rd, wr).Ok?
    ensures var v := rd(m.bus, m.dma.sourceAddress).value;
            Iterate(m, rd, wr).value.trace == m.trace + [BusRead(m.dma.sourceAddress, v), BusWrite(m.dma.destAddress, v)] &&
            Iterate(m, rd, wr).value.bus == wr(m.bus, m.dma.destAddress, v)
  {
  }

  /** The pairs of k iterations after one iteration, preceded by that iteration's pair, are
      the pairs of k + 1 iterations. */
  lemma TraceStep(t0: seq<Access>, t1: seq<Access>, t: seq<Access>, d: Dma, n: Dma, v: bv32, k: nat)
    requires OneStepOn(d, n)
    requires t1 == t0 + [BusRead(d.sourceAddress, v), BusWrite(d.destAddress, v)]
    requires |t| == |t1| + 2 * k && t[..|t1|] == t1
    requires forall j :: 0 <= j < k ==> PairAt(t, |t1|, j, SrcAt(n, j), DstAt(n, j))
    ensures |t| == |t0| + 2 * (k + 1) && t[..|t0|] == t0
    ensures forall j :: 0 <= j < k + 1 ==> PairAt(t, |t0|, j, SrcAt(d, j), DstAt(d, j))
    ensures t[|t0|..] == [BusRead(d.sourceAddress, v), BusWrite(d.destAddress, v)] + t[|t1|..]
  {
    var base := |t0|;
    assert t[..base] == t[..|t1|][..base];
    assert t[base] == t1[base] && t[base + 1] == t1[base + 1];
    forall j | 0 <= j < k + 1
      ensures PairAt(t, base, j, SrcAt(d, j), DstAt(d, j))
    {
      if j > 0 {
        AtShift(d, n, j - 1);
        assert PairAt(t, base + 2, j - 1, SrcAt(n, j - 1), DstAt(n, j - 1));
      }
    }
    assert t[base..] == t[base..base + 2] + t[base + 2..];
  }

  /** k iterations after one iteration are k + 1 iterations. */
  lemma RanStep<B>(rd: (B, int) -> Result<bv32>, wr: (B, int, bv32) -> B, m: Machine<B>, r: Machine<B>, k: nat)
    requires Iterate(m, rd, wr).Ok?
    requires Ran(rd, wr, Iterate(m, rd, wr).value, r, k)
    ensures Ran(rd, wr, m, r, k + 1)
  {
    var next := Iterate(m, rd, wr).value;
    var d := m.dma;
    var v := rd(m.bus, d.sourceAddress).value;
    IterateEffect(m, rd, wr);
    TraceStep(m.trace, next.trace, r.trace, d, next.dma, v, k);
    ReplayPair(rd, wr, m.bus, d.sourceAddress, d.destAddress, v, r.trace[|next.trace|..]);
    AtShift(d, next.dma, k);
    assert r.dma.transferLength == d.transferLength - (k + 1) * d.dataSize by {
      assert (k + 1) * d.dataSize == k * d.dataSize + d.dataSize;
    }
  }

  /** When the loop completes it has performed exactly Iterations(L, ds) read/write pairs. */
  lemma {:induction false} LoopCompleted<B>(m: Machine<B>, rd: (B, int) -> Result<bv32>, wr: (B, int, bv32) -> B)
    requires m.dma.dataSize > 0
    requires Loop(m, rd, wr).Completed?
    ensures Ran(rd, wr, m, Loop(m, rd, wr).state, Iterations(m.dma.transferLength, m.dma.dataSize))
    decreases if m.dma.transferLength > 0 then m.dma.transferLength else 0
  {
    var L, ds := m.dma.transferLength, m.dma.dataSize;
    if L <= 0 {
      assert Loop(m, rd, wr) == Completed(m);
      RanZero(rd, wr, m);
    } else {
      var next := Iterate(m, rd, wr).value;
      assert Loop(m, rd, wr) == Loop(next, rd, wr);
      LoopCompleted(next, rd, wr);
      RanStep(rd, wr, m, Loop(next, rd, wr).state, Iterations(L - ds, ds));
    }
  }

  /** When the loop aborts it has performed fewer pairs, k, and the read at the source
      address of iteration k failed with the error the loop reports. */
  lemma {:induction false} LoopAborted<B>(m: Machine<B>, rd: (B, int) -> Result<bv32>, wr: (B, int, bv32) -> B)
    requires m.dma.dataSize > 0
    requires Loop(m, rd, wr).Aborted?
    ensures exists k :: 0 <= k < Iterations(m.dma.transferLength, m.dma.dataSize) &&
              Ran(rd, wr, m, Loop(m, rd, wr).state, k) &&
              rd(Loop(m, rd, wr).state.bus, SrcAt(m.dma, k)) == Err(Loop(m, rd, wr).error)
    decreases if m.dma.transferLength > 0 then m.dma.transferLength else 0
  {
    var L, ds := m.dma.transferLength, m.dma.dataSize;
    assert L > 0;
    assert Iterations(L, ds) == 1 + Iterations(L - ds, ds);
    match Iterate(m, rd, wr)
    case Err(e) =>
      assert Loop(m, rd, wr) == Aborted(m, e);
      RanZero(rd, wr, m);
    case Ok(next) =>
      var r := Loop(next, rd, wr);
      assert Loop(m, rd, wr) == r;
      LoopAborted(next, rd, wr);
      var k :| 0 <= k < Iterations(L - ds, ds) && Ran(rd, wr, next, r.state, k) &&
               rd(r.state.bus, SrcAt(next.dma, k)) == Err(r.error);
      RanStep(rd, wr, m, r.state, k);
      AtShift(m.dma, next.dma, k);
      assert rd(r.state.bus, SrcAt(m.dma, k + 1)) == Err(r.error);
  }

  /** The loop performs exactly Iterations(L, ds) read/write pairs when every read succeeds,
      and otherwise stops at the first failing read, after fewer pairs, with the registers and
      bus as that many iterations left them. */
  lemma LoopRun<B>(m: Machine<B>, rd: (B, int) -> Result<bv32>, wr: (B, int, bv32) -> B)
    requires m.dma.dataSize > 0
    ensures Loop(m, rd, wr).Completed? ==>
              Ran(rd, wr, m, Loop(m, rd, wr).state, Iterations(m.dma.transferLength, m.dma.dataSize))
    ensures Loop(m, rd, wr).Aborted? ==>
              exists k :: 0 <= k < Iterations(m.dma.transferLength, m.dma.dataSize) &&
                Ran(rd, wr, m, Loop(m, rd, wr).state, k) &&
                rd(Loop(m, rd, wr).state.bus, SrcAt(m.dma, k)) == Err(Loop(m, rd, wr).error)
  {
    if Loop(m, rd, wr).Completed? {
      LoopCompleted(m, rd, wr);
    } else {
      LoopAborted(m, rd, wr);
    }
  }

  // ---------------------------------------------------------------------------
  // Properties of the register interface

  /** Source, destination, length and data size read back exactly what was last written;
      the other registers, the bus and the trace are untouched. */
  lemma RegistersReadBack<B>(m: Machine<B>, rd: (B, int) -> Result<bv32>, wr: (B, int, bv32) -> B,
                             offset: int, value: int, other: int)
    requires offset in {0x00, 0x04, 0x08, 0x10}
    requires other in {0x00, 0x04, 0x08, 0x0C, 0x10} && other != offset
    ensures Write(m, rd, wr, offset, value).Completed?
    ensures Read(Write(m, rd, wr, offset, value).state.dma, offset) == Ok(value)
    ensures Read(Write(m, rd, wr, offset, value).state.dma, other) == Read(m.dma, other)
    ensures Write(m, rd, wr, offset, value).state.bus == m.bus
    ensures Write(m, rd, wr, offset, value).state.trace == m.trace
  {
  }

  /** A control write with bit 0 clear is stored and read back, and touches no bus. */
  lemma ControlWithoutStart<B>(m: Machine<B>, rd: (B, int) -> Result<bv32>, wr: (B, int, bv32) -> B, value: int)
    requires !Has(value, 1)
    ensures Write(m, rd, wr, 0x0C, value).Completed?
    ensures Read(Write(m, rd, wr, 0x0C, value).state.dma, 0x0C) == Ok(value)
    ensures Write(m, rd, wr, 0x0C, value).state.bus == m.bus
    ensures Write(m, rd, wr, 0x0C, value).state.trace == m.trace
  {
  }

  /** Starting with a zero length fails before any bus access, but after the control
      value has been stored. */
  lemma StartZeroLength<B>(m: Machine<B>, rd: (B, int) -> Result<bv32>, wr: (B, int, bv32) -> B, value: int)
    requires Has(value, 1) && m.dma.transferLength == 0
    ensures Write(m, rd, wr, 0x0C, value) == Aborted(m.(dma := m.dma.(control := value)), ZeroLength)
  {
  }

  /** A control write with bit 0 set runs the transfer. If every read succeeds it performs
      Iterations(L, ds) read/write pairs (pair k reads source + k*ds, or the source itself when
      bit 1 is clear, and writes that value to destination + k*ds, or the destination itself
      when bit 2 is clear), leaves length L - n*ds <= 0, clears bit 0 of control and sets the
      completion flag. If a read fails the error propagates after fewer pairs, with the
      addresses and length of that iteration, control still holding the value written (bit 0
      set) and the completion flag false. */
  lemma Transfer<B>(m: Machine<B>, rd: (B, int) -> Result<bv32>, wr: (B, int, bv32) -> B, value: int)
    requires Has(value, 1) && m.dma.transferLength != 0 && m.dma.dataSize > 0
    ensures var m1 := m.(dma := m.dma.(control := value, transferComplete := false));
            var n := Iterations(m.dma.transferLength, m.dma.dataSize);
            var r := Write(m, rd, wr, 0x0C, value);
            r.Completed? ==>
              Loop(m1, rd, wr).Completed? && Ran(rd, wr, m1, Loop(m1, rd, wr).state, n) &&
              r.state == Loop(m1, rd, wr).state.(dma := Loop(m1, rd, wr).state.dma.(control := ClearBit0(value), transferComplete := true))
    ensures var m1 := m.(dma := m.dma.(control := value, transferComplete := false));
            var n := Iterations(m.dma.transferLength, m.dma.dataSize);
            var r := Write(m, rd, wr, 0x0C, value);
            r.Aborted? ==>
              r.state.dma.control == value && !r.state.dma.transferComplete &&
              exists k :: 0 <= k < n && Ran(rd, wr, m1, r.state, k) && rd(r.state.bus, SrcAt(m1.dma, k)) == Err(r.error)
  {
    var m1 := m.(dma := m.dma.(control := value, transferComplete := false));
    LoopRun(m1, rd, wr);
  }

  /** On completion the length is exactly 0 when the data size divides it. */
  lemma TransferExactLength<B>(m: Machine<B>, rd: (B, int) -> Result<bv32>, wr: (B, int, bv32) -> B, value: int, p: nat)
    requires Has(value, 1) && m.dma.dataSize > 0 && m.dma.transferLength == p * m.dma.dataSize && p > 0
    ensures Write(m, rd, wr, 0x0C, value).Completed? ==> Write(m, rd, wr, 0x0C, value).state.dma.transferLength == 0
  {
    Transfer(m, rd, wr, value);
    IterationsExact(p, m.dma.dataSize);
  }
}
