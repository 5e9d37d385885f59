/**
 * The CPU engine (src/cpu.js and src/arm_thumb_cpu.js).
 *
 * The base CPU only checks that it was given a bus and fixes the order of a
 * step: fetch, then decode, then execute, each of which (and reset) fails in
 * the base class. The Thumb CPU adds sixteen 32-bit registers, pc, sp, lr and
 * apsr, fetches the word the bus returns at pc, decodes exactly one
 * instruction (0xBF00, the NOP of the ARMv7-M Architecture Reference Manual,
 * encoding T1) and executes it by advancing pc by 2.
 *
 * The bus is a parameter: `fetch` receives the bus read function, which may
 * fail.
 */
module CpuCore {
  import opened Common

  const NOP: bv32 := 0xBF00
  const REGISTER_COUNT: nat := 16

  datatype Opcode = Nop

  /** A base-class CPU, or a Thumb CPU with its registers, the last fetched word
      (`currentInstruction`) and the last decoded opcode. */
  datatype Cpu =
    | GenericCpu
    | ThumbCpu(regs: seq<bv32>, pc: int, sp: int, lr: int, apsr: int,
               current: Option<bv32>, opcode: Option<Opcode>)

  datatype Arch = Generic | Thumb

  /** The architectural registers of a Thumb CPU, for comparing states. */
  datatype Registers = Registers(regs: seq<bv32>, pc: int, sp: int, lr: int, apsr: int)

  function RegistersOf(c: Cpu): Registers
    requires c.ThumbCpu?
  {
    Registers(c.regs, c.pc, c.sp, c.lr, c.apsr)
  }

  /** `new CPU(bus)` / `new ARMThumbCPU(bus)`; `hasBus` says whether a bus was given. */
  function New(arch: Arch, hasBus: bool): (r: Result<Cpu>)
    ensures r.Err? <==> !hasBus
    ensures r.Err? ==> r.error == MissingBus
    ensures r.Ok? && arch == Thumb ==>
              r.value.ThumbCpu? && |r.value.regs| == REGISTER_COUNT &&
              (forall i :: 0 <= i < REGISTER_COUNT ==> r.value.regs[i] == 0) &&
              r.value.pc == 0 && r.value.sp == 0 && r.value.lr == 0 && r.value.apsr == 0
    ensures r.Ok? && arch == Generic ==> r.value == GenericCpu
  {
    if !hasBus then Err(MissingBus)
    else if arch == Generic then Ok(GenericCpu)
    else Ok(ThumbCpu(seq(REGISTER_COUNT, _ => 0), 0, 0, 0, 0, None, None))
  }

  /** `fetch()`: `currentInstruction = bus.read(pc)`. */
  function Fetch(c: Cpu, rd: int -> Result<bv32>): (r: Result<Cpu>)
    ensures c.GenericCpu? ==> r == Err(NotImplemented)
    ensures c.ThumbCpu? ==> (r.Err? <==> rd(c.pc).Err?)
    ensures c.ThumbCpu? && r.Err? ==> r.error == rd(c.pc).error
  {
    match c
    case GenericCpu => Err(NotImplemented)
    case ThumbCpu(_, _, _, _, _, _, _) =>
      var word :- rd(c.pc);
      Ok(c.(current := Some(word)))
  }

  /** `decode()`: only the word 0xBF00 is known, as `nop`. */
  function Decode(c: Cpu): (r: Result<Cpu>)
    ensures c.GenericCpu? ==> r == Err(NotImplemented)
    ensures r.Err? && c.ThumbCpu? ==> r.error == UnknownOpcode
  {
    match c
    case GenericCpu => Err(NotImplemented)
    case ThumbCpu(_, _, _, _, _, _, _) =>
      if c.current == Some(NOP) then Ok(c.(opcode := Some(Nop))) else Err(UnknownOpcode)
  }

  /** `execute()`: `nop` advances pc by one Thumb instruction. */
  function Execute(c: Cpu): (r: Result<Cpu>)
    ensures c.GenericCpu? ==> r == Err(NotImplemented)
    ensures c.ThumbCpu? ==> (r.Ok? <==> c.opcode == Some(Nop))
    ensures r.Err? && c.ThumbCpu? ==> r.error == UnknownOpcode
  {
    match c
    case GenericCpu => Err(NotImplemented)
    case ThumbCpu(_, _, _, _, _, _, _) =>
      match c.opcode
      case Some(Nop) => Ok(c.(pc := c.pc + 2))
      case None => Err(UnknownOpcode)
  }

  /** `reset()`: registers, pc, sp, lr and apsr to zero. */
  function Reset(c: Cpu): (r: Result<Cpu>)
    ensures c.GenericCpu? ==> r == Err(NotImplemented)
    ensures c.ThumbCpu? ==> r.Ok? && r.value.ThumbCpu? && r.value.current == c.current && r.value.opcode == c.opcode
  {
    match c
    case GenericCpu => Err(NotImplemented)
    case ThumbCpu(_, _, _, _, _, _, _) =>
      Ok(c.(regs := seq(REGISTER_COUNT, _ => 0), pc := 0, sp := 0, lr := 0, apsr := 0))
  }

  /** `step()`: fetch, decode, execute; the first failure ends the step, leaving the effects
      of the phases that completed. */
  function Step(c: Cpu, rd: int -> Result<bv32>): (r: Outcome<Cpu>)
    ensures c.GenericCpu? ==> r == Aborted(c, NotImplemented)
    ensures c.ThumbCpu? ==> (r.Completed? <==> rd(c.pc) == Ok(NOP))
    ensures c.ThumbCpu? ==> r.state.ThumbCpu? && RegistersOf(r.state) == RegistersOf(c).(pc := r.state.pc)
    ensures c.ThumbCpu? ==> r.state.pc == if r.Completed? then c.pc + 2 else c.pc
  {
    match Fetch(c, rd)
    case Err(e) => Aborted(c, e)
    case Ok(fetched) =>
      match Decode(fetched)
      case Err(e) => Aborted(fetched, e)
      case Ok(decoded) =>
        match Execute(decoded)
        case Err(e) => Aborted(decoded, e)
        case Ok(executed) => Completed(executed)
  }

  /** n steps in a row, stopping at the first failure. */
  function Steps(c: Cpu, rd: int -> Result<bv32>, n: nat): (r: Outcome<Cpu>)
    ensures c.GenericCpu? && n > 0 ==> r == Aborted(c, NotImplemented)
    ensures c.ThumbCpu? ==> r.state.ThumbCpu? && RegistersOf(r.state) == RegistersOf(c).(pc := r.state.pc)
    ensures c.ThumbCpu? ==> c.pc <= r.state.pc <= c.pc + 2 * n && (r.state.pc - c.pc) % 2 == 0
    ensures c.ThumbCpu? && r.Completed? ==> r.state.pc == c.pc + 2 * n
    ensures c.ThumbCpu? && r.Aborted? ==> r.state.pc < c.pc + 2 * n
    decreases n
  {
    if n == 0 then Completed(c)
    else match Step(c, rd)
      case Completed(next) => Steps(next, rd, n - 1)
      case Aborted(s, e) => Aborted(s, e)
  }

  // ---------------------------------------------------------------------------
  // Properties

  /** A fresh CPU and a reset CPU have the same, all-zero, registers. */
  lemma ResetMatchesFresh(c: Cpu)
    requires c.ThumbCpu?
    ensures RegistersOf(Reset(c).value) == RegistersOf(New(Thumb, true).value)
  {
  }

  /** Resetting twice is resetting once. */
  lemma ResetIdempotent(c: Cpu)
    requires c.ThumbCpu?
    ensures Reset(Reset(c).value) == Reset(c)
  {
  }

  /** `fetch` changes only the current instruction, to what the bus returns at pc. */
  lemma FetchOnlyCurrent(c: Cpu, rd: int -> Result<bv32>)
    requires c.ThumbCpu? && rd(c.pc).Ok?
    ensures Fetch(c, rd) == Ok(c.(current := Some(rd(c.pc).value)))
  {
  }

  /** `decode` accepts exactly the fetched word 0xBF00. */
  lemma DecodeExactlyNop(c: Cpu)
    requires c.ThumbCpu?
    ensures Decode(c).Ok? <==> c.current == Some(NOP)
    ensures Decode(c).Ok? ==> Decode(c).value == c.(opcode := Some(Nop))
  {
  }

  /** A step over the word 0xBF00 advances pc by 2 and changes no register. */
  lemma StepNop(c: Cpu, rd: int -> Result<bv32>)
    requires c.ThumbCpu? && rd(c.pc) == Ok(NOP)
    ensures Step(c, rd).Completed?
    ensures Step(c, rd).state.pc == c.pc + 2
    ensures Step(c, rd).state.regs == c.regs && Step(c, rd).state.sp == c.sp
    ensures Step(c, rd).state.lr == c.lr && Step(c, rd).state.apsr == c.apsr
  {
  }

  /** Any other word fails the step in decode: execute does not run and no register,
      pc included, changes; only the fetched word is recorded. */
  lemma StepUnknown(c: Cpu, rd: int -> Result<bv32>, w: bv32)
    requires c.ThumbCpu? && rd(c.pc) == Ok(w) && w != NOP
    ensures Step(c, rd) == Aborted(c.(current := Some(w)), UnknownOpcode)
    ensures RegistersOf(Step(c, rd).state) == RegistersOf(c)
  {
  }

  /** A failing bus read fails the step in fetch, before decode, with nothing changed. */
  lemma StepFetchFault(c: Cpu, rd: int -> Result<bv32>)
    requires c.ThumbCpu? && rd(c.pc).Err?
    ensures Step(c, rd) == Aborted(c, rd(c.pc).error)
  {
  }

  /** The base class fails in its first phase. */
  lemma GenericStepFails(rd: int -> Result<bv32>)
    ensures Step(GenericCpu, rd) == Aborted(GenericCpu, NotImplemented)
    ensures Reset(GenericCpu) == Err(NotImplemented)
  {
  }

  /** Over memory that holds NOP everywhere, n steps advance pc by 2n and change no register. */
  lemma {:induction false} NopSled(c: Cpu, rd: int -> Result<bv32>, n: nat)
    requires c.ThumbCpu?
    requires forall a: int :: rd(a) == Ok(NOP)
    ensures Steps(c, rd, n).Completed?
    ensures Steps(c, rd, n).state.ThumbCpu?
    ensures Steps(c, rd, n).state.pc == c.pc + 2 * n
    ensures Steps(c, rd, n).state.regs == c.regs && Steps(c, rd, n).state.sp == c.sp
    ensures Steps(c, rd, n).state.lr == c.lr && Steps(c, rd, n).state.apsr == c.apsr
    decreases n
  {
    if n > 0 {
      StepNop(c, rd);
      NopSled(Step(c, rd).state, rd, n - 1);
    }
  }
}
