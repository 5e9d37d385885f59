/**
 * The UART (src/uart.js): a received-data byte at offset 0, a constant
 * status register (0x02, transmit buffer empty) at offset 4, and a transmit
 * byte handed to the `onTransmit` callback. Whether a callback is installed
 * is a parameter of `write`; the byte it would be called with is returned.
 */
module UartDevice {
  import opened Common

  const STATUS_TX_EMPTY: int := 0x02

  /** The registers are JavaScript numbers; rx and tx always hold a byte value 0..255. */
  datatype Uart = Uart(rx: int, tx: int, status: int)

  /** `x & 0xFF` on an integer: the low byte, 0..255, also for negative numbers. */
  function LowByte(x: int): (b: int)
    ensures 0 <= b < 256 && (x - b) % 256 == 0
  {
    x % 256
  }

  function New(): (u: Uart)
    ensures u.rx == 0 && u.tx == 0 && u.status == STATUS_TX_EMPTY
  {
    Uart(0, 0, STATUS_TX_EMPTY)
  }

  /** `receive(data)`: keeps the low 8 bits. */
  function Receive(u: Uart, data: int): (r: Uart)
    ensures r.rx == LowByte(data)
    ensures r.tx == u.tx && r.status == u.status
  {
    u.(rx := LowByte(data))
  }

  /** `read(offset)`: the received byte at 0, the status at 4, 0 elsewhere. */
  function Read(u: Uart, offset: int): (r: int)
    ensures offset == 0 ==> r == u.rx
    ensures offset == 4 ==> r == u.status
    ensures offset != 0 && offset != 4 ==> r == 0
  {
    if offset == 0 then u.rx
    else if offset == 4 then u.status
    else 0
  }

  /** `write(offset, value)`: at offset 0 the low byte becomes `txData` and is passed to
      the transmit callback when one is installed; other offsets change nothing. */
  function Write(u: Uart, offset: int, value: int, hasCallback: bool): (r: (Uart, Option<int>))
    ensures offset == 0 ==> r.0 == u.(tx := r.0.tx) && r.0.tx == LowByte(value)
    ensures offset == 0 ==> r.1 == (if hasCallback then Some(r.0.tx) else None)
    ensures offset != 0 ==> r == (u, None)
  {
    if offset == 0 then
      var b := LowByte(value);
      (u.(tx := b), if hasCallback then Some(b) else None)
    else (u, None)
  }

  // ---------------------------------------------------------------------------
  // Properties

  /** The status register reads 0x02 after any sequence of operations. */
  predicate StatusIntact(u: Uart)
  {
    Read(u, 4) == STATUS_TX_EMPTY
  }

  lemma StatusNeverChanges(u: Uart, data: int, offset: int, value: int, hasCallback: bool)
    requires StatusIntact(u)
    ensures StatusIntact(New())
    ensures StatusIntact(Receive(u, data))
    ensures StatusIntact(Write(u, offset, value, hasCallback).0)
  {
  }

  /** What was received is what offset 0 reads: a byte congruent to the data modulo 256,
      and the data itself when it already is a byte. */
  lemma ReceiveThenRead(u: Uart, data: int)
    ensures 0 <= Read(Receive(u, data), 0) < 256
    ensures (data - Read(Receive(u, data), 0)) % 256 == 0
    ensures 0 <= data < 256 ==> Read(Receive(u, data), 0) == data
  {
  }

  /** The byte handed to the callback is the byte recorded as transmitted, and a write
      never disturbs the receive side. */
  lemma TransmitMatchesRecord(u: Uart, value: int)
    ensures Write(u, 0, value, true).1 == Some(Write(u, 0, value, true).0.tx)
    ensures Read(Write(u, 0, value, true).0, 0) == Read(u, 0)
  {
  }
}
