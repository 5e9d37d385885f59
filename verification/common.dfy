/**
 * Shared vocabulary of the emulator model: failure-compatible result types,
 * the error kinds the devices raise, and the handful of JavaScript number
 * conversions the devices rely on (ToUint32, the signed 32-bit reading of a
 * bit pattern, the truncating `%`), plus little-endian byte packing.
 */
module Common {

  /** An optional value; `None` stands for JavaScript's `undefined`/`null`. */
  datatype Option<+T> = None | Some(value: T)

  /** The kinds of exception the modelled code throws. */
  datatype Error =
    // flash.js
    | FlashOutOfBounds | FlashUnaligned | FlashDirectWrite
    | WriteNotEnabled | PageOutOfRange | WriteOnlyRegister | ProgrammerAddress
    | InitialDataTooLarge
    // bus.js
    | NotADevice | OverlappingRange | InvertedRange | BusOutOfBounds | NoDevice | InvalidSize
    // dma.js
    | DmaOffset | ZeroLength
    // cpu.js / arm_thumb_cpu.js
    | MissingBus | NotImplemented | UnknownOpcode
    // GPIO.js, block_input.js, block_output.js
    | InvalidAddress | DataTooLarge
    // DataView / typed-array construction
    | RangeError

  /** The outcome of an operation that either throws (leaving no trace) or returns a value. */
  datatype Result<+T> = Ok(value: T) | Err(error: Error) {
    predicate IsFailure() { Err? }
    function PropagateFailure<U>(): Result<U>
      requires Err?
    {
      Err(error)
    }
    function Extract(): T
      requires Ok?
    {
      value
    }
  }

  /** The outcome of an operation that may throw after it has already changed state:
      both alternatives carry the state the object is left in. */
  datatype Outcome<+S> = Completed(state: S) | Aborted(state: S, error: Error)

  /** A value a device `read` may hand back: a number, or `undefined`. */
  datatype Val = Undef | Num(n: int)

  const TWO32: int := 0x1_0000_0000

  /** ECMAScript ToUint32 restricted to integers: the low 32 bits of `x`. */
  function Wrap(x: int): bv32
  {
    (x % TWO32) as bv32
  }

  /** The number a JavaScript bitwise operator yields for the bit pattern `b` (ToInt32). */
  function Signed(b: bv32): int
  {
    var x := b as int;
    if x < 0x8000_0000 then x else x - TWO32
  }

  /** ToUint32 of a value a device returned; `undefined` converts to 0. */
  function ValWord(v: Val): bv32
  {
    match v
    case Undef => 0
    case Num(n) => Wrap(n)
  }

  /** `(x & bit) != 0` for a JavaScript number `x` and a one-bit mask `bit` (1, 2, 4, ...),
      as in `if (control & 0x02)`. ToUint32 keeps the low bits, so integer arithmetic suffices. */
  predicate Has(x: int, bit: nat)
    requires bit > 0
  {
    (x / bit) % 2 == 1
  }

  /** JavaScript's `%` on integers: the remainder truncates toward zero, so it has the
      sign of `a`, and it differs from `a` by a multiple of `n`. */
  function JsRem(a: int, n: int): (r: int)
    requires n > 0
    ensures (a - r) % n == 0
    ensures a >= 0 ==> 0 <= r < n
    ensures a < 0 ==> -n < r <= 0
  {
    if a >= 0 then
      ModUnique(a - a % n, n, a / n, 0);
      a % n
    else
      ModUnique(a + (-a) % n, n, -((-a) / n), 0);
      -((-a) % n)
  }

  lemma MulBounds(k: int, n: int)
    requires n > 0
    ensures k >= 1 ==> k * n >= n
    ensures k <= -1 ==> k * n <= -n
  {
    if k >= 1 {
      assert k * n == (k - 1) * n + n;
    } else if k <= -1 {
      assert k * n == (k + 1) * n - n;
    }
  }

  /** The remainder is determined by any quotient/remainder decomposition. */
  lemma ModUnique(a: int, n: int, q: int, r: int)
    requires n > 0 && 0 <= r < n && a == q * n + r
    ensures a % n == r
  {
    var q0 := a / n;
    assert a == q0 * n + a % n;
    assert (q - q0) * n == a % n - r;
    MulBounds(q - q0, n);
  }

  /** Sums and differences of multiples of `n` are multiples of `n`. */
  lemma MultipleSum(x: int, y: int, n: int)
    requires n > 0 && x % n == 0 && y % n == 0
    ensures (x + y) % n == 0 && (x - y) % n == 0
  {
    assert x == (x / n) * n && y == (y / n) * n;
    ModUnique(x + y, n, x / n + y / n, 0);
    ModUnique(x - y, n, x / n - y / n, 0);
  }

  /** Byte `k` (0 = least significant) of the word `w`. */
  function ByteOf(w: bv32, k: nat): bv8
    requires k < 4
  {
    if k == 0 then (w & 0xFF) as bv8
    else if k == 1 then ((w >> 8) & 0xFF) as bv8
    else if k == 2 then ((w >> 16) & 0xFF) as bv8
    else (w >> 24) as bv8
  }

  /** The word whose little-endian bytes are `b0`, `b1`, `b2`, `b3`. */
  function LeWord(b0: bv8, b1: bv8, b2: bv8, b3: bv8): bv32
  {
    (b0 as bv32) | ((b1 as bv32) << 8) | ((b2 as bv32) << 16) | ((b3 as bv32) << 24)
  }

  /** ECMAScript ToUint8, and equally `x & 0xFF`: the low byte of the number `x`. */
  function Low8(x: int): bv8
  {
    (x % 256) as bv8
  }

  /** A byte as a 32-bit word (zero-extended). */
  function Widen(b: bv8): bv32
  {
    b as bv32
  }

  /** The four bytes of `w` in little-endian order. */
  function LeBytes(w: bv32): (bs: seq<bv8>)
    ensures |bs| == 4
  {
    [ByteOf(w, 0), ByteOf(w, 1), ByteOf(w, 2), ByteOf(w, 3)]
  }

  /** A word read back as a number and converted with ToUint32 is the word again. */
  lemma WrapOfWord(b: bv32)
    ensures Wrap(b as int) == b
  {
    assert b as int % TWO32 == b as int;
  }

  lemma WrapPeriodic(x: int)
    requires 0 <= x < TWO32
    ensures Wrap(x - TWO32) == Wrap(x)
  {
    assert (x - TWO32) % TWO32 == x;
  }

  /** ToUint32 undoes the signed reading a bitwise operator produces. */
  lemma WrapSigned(b: bv32)
    ensures Wrap(Signed(b)) == b
  {
    WrapOfWord(b);
    WrapPeriodic(b as int);
  }

  /** Packing and unpacking little-endian words are inverse to each other. */
  lemma LeWordBytes(w: bv32)
    ensures LeWord(ByteOf(w, 0), ByteOf(w, 1), ByteOf(w, 2), ByteOf(w, 3)) == w
  {
  }

  lemma LeBytesWord(b0: bv8, b1: bv8, b2: bv8, b3: bv8)
    ensures LeBytes(LeWord(b0, b1, b2, b3)) == [b0, b1, b2, b3]
  {
  }
}
