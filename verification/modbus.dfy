/*******************************************************************************
 *  Shared vocabulary of the Modbus client library: integer widths, the
 *  failure-compatible Option/Result wrappers, coils, the eight supported
 *  function codes, device exception codes and the error taxonomy.
 *******************************************************************************/

module Modbus {

  /** An unsigned 8-bit value (`u8`). */
  type byte = b: int | 0 <= b < 0x100

  /** An unsigned 16-bit value (`u16`): addresses, quantities, register values, transaction ids. */
  type u16 = w: int | 0 <= w < 0x1_0000

  datatype Option<+T> = None | Some(value: T)

  /** The library's `Result`; `:-` propagates an `Err` like Rust's `?`. */
  datatype Result<+T, +E> = Ok(value: T) | Err(error: E) {

    predicate IsFailure() {
      Err?
    }

    function PropagateFailure<U>(): Result<U, E>
      requires Err?
    {
      Err(error)
    }

    function Extract(): T
      requires Ok?
    {
      value
    }
  }

  /** `u16::wrapping_add(1)`: the successor of a transaction id. */
  function WrappingInc(x: u16): (y: u16)
    ensures x < 0xFFFF ==> y == x + 1
    ensures x == 0xFFFF ==> y == 0
    ensures y != x
  {
    (x + 1) % 0x1_0000
  }

  /**
   * A 16-bit value as two bytes, most significant first (`write_u16::<BigEndian>`):
   * the one byte pair that reads back as `w`.
   */
  function Be16(w: u16): (s: seq<byte>)
    ensures |s| == 2
    ensures Word(s[0], s[1]) == w
    ensures s[0] == w / 0x100 && s[1] == w % 0x100
  {
    assert Word(w / 0x100, w % 0x100) == w;
    var hi: byte, lo: byte :| Word(hi, lo) == w;
    [hi, lo]
  }

  /** The 16-bit value of a big-endian byte pair (`read_u16::<BigEndian>`). */
  function Word(hi: byte, lo: byte): u16
  {
    hi * 0x100 + lo
  }

  /** Splitting a word read from two bytes gives those bytes back. */
  lemma WordSplitsBack(hi: byte, lo: byte)
    ensures Be16(Word(hi, lo)) == [hi, lo]
  {
  }

  /** Two bytes spell `w` big-endian exactly when they read back as `w`. */
  lemma WordMatches(hi: byte, lo: byte, w: u16)
    ensures Word(hi, lo) == w <==> [hi, lo] == Be16(w)
  {
    WordSplitsBack(hi, lo);
  }

  /** `n as u16`: truncation to the low 16 bits. */
  function AsU16(n: nat): (q: u16)
    ensures n < 0x1_0000 ==> q == n
    ensures q <= n
  {
    n % 0x1_0000
  }

  /** A single bit status value (`Coil`, formerly `BitValue`). */
  datatype Coil = On | Off

  /** Wire value of a coil in a write-single-coil request (section 6.5 of the MODBUS Application Protocol Specification V1.1b3). */
  function CoilCode(c: Coil): (w: u16)
    ensures w == 0xFF00 <==> c == On
    ensures w == 0x0000 <==> c == Off
  {
    match c
    case On => 0xFF00
    case Off => 0x0000
  }

  /**
   * A request descriptor: one variant per supported operation with its
   * address, quantity, value or packed payload bytes.
   */
  datatype Function =
    | ReadCoils(addr: u16, count: u16)
    | ReadDiscreteInputs(addr: u16, count: u16)
    | ReadHoldingRegisters(addr: u16, count: u16)
    | ReadInputRegisters(addr: u16, count: u16)
    | WriteSingleCoil(addr: u16, value: u16)
    | WriteSingleRegister(addr: u16, value: u16)
    | WriteMultipleCoils(addr: u16, count: u16, values: seq<byte>)
    | WriteMultipleRegisters(addr: u16, count: u16, values: seq<byte>)

  predicate IsRead(f: Function) {
    f.ReadCoils? || f.ReadDiscreteInputs? || f.ReadHoldingRegisters? || f.ReadInputRegisters?
  }

  predicate IsWriteSingle(f: Function) {
    f.WriteSingleCoil? || f.WriteSingleRegister?
  }

  predicate IsWriteMultiple(f: Function) {
    f.WriteMultipleCoils? || f.WriteMultipleRegisters?
  }

  /** The function code of a request; none has the exception bit 0x80 set. */
  function Code(f: Function): (c: byte)
    ensures 1 <= c < 0x80
    ensures c == 0x01 <==> f.ReadCoils?
    ensures c == 0x02 <==> f.ReadDiscreteInputs?
    ensures c == 0x03 <==> f.ReadHoldingRegisters?
    ensures c == 0x04 <==> f.ReadInputRegisters?
    ensures c == 0x05 <==> f.WriteSingleCoil?
    ensures c == 0x06 <==> f.WriteSingleRegister?
    ensures c == 0x0F <==> f.WriteMultipleCoils?
    ensures c == 0x10 <==> f.WriteMultipleRegisters?
  {
    match f
    case ReadCoils(_, _) => 0x01
    case ReadDiscreteInputs(_, _) => 0x02
    case ReadHoldingRegisters(_, _) => 0x03
    case ReadInputRegisters(_, _) => 0x04
    case WriteSingleCoil(_, _) => 0x05
    case WriteSingleRegister(_, _) => 0x06
    case WriteMultipleCoils(_, _, _) => 0x0F
    case WriteMultipleRegisters(_, _, _) => 0x10
  }

  /** True when two requests are the same operation, whatever their arguments. */
  predicate SameOperation(f: Function, g: Function) {
    && f.ReadCoils? == g.ReadCoils?
    && f.ReadDiscreteInputs? == g.ReadDiscreteInputs?
    && f.ReadHoldingRegisters? == g.ReadHoldingRegisters?
    && f.ReadInputRegisters? == g.ReadInputRegisters?
    && f.WriteSingleCoil? == g.WriteSingleCoil?
    && f.WriteSingleRegister? == g.WriteSingleRegister?
    && f.WriteMultipleCoils? == g.WriteMultipleCoils?
    && f.WriteMultipleRegisters? == g.WriteMultipleRegisters?
  }

  /** Distinct operations never share a function code, so a reply's code identifies its operation. */
  lemma CodeIdentifiesOperation(f: Function, g: Function)
    ensures Code(f) == Code(g) <==> SameOperation(f, g)
  {
  }

  /** Exception codes a device may report (section 7 of the MODBUS Application Protocol Specification V1.1b3). */
  datatype ExceptionCode =
    | IllegalFunction
    | IllegalDataAddress
    | IllegalDataValue
    | SlaveOrServerFailure
    | Acknowledge
    | SlaveOrServerBusy
    | NegativeAcknowledge
    | MemoryParity
    | NotDefined
    | GatewayPath
    | GatewayTarget

  /** The wire byte of an exception code. */
  function ExceptionByte(e: ExceptionCode): (b: byte)
    ensures 0x01 <= b <= 0x0B
    ensures b == 0x01 <==> e == IllegalFunction
    ensures b == 0x02 <==> e == IllegalDataAddress
    ensures b == 0x03 <==> e == IllegalDataValue
    ensures b == 0x04 <==> e == SlaveOrServerFailure
    ensures b == 0x05 <==> e == Acknowledge
    ensures b == 0x06 <==> e == SlaveOrServerBusy
    ensures b == 0x07 <==> e == NegativeAcknowledge
    ensures b == 0x08 <==> e == MemoryParity
    ensures b == 0x09 <==> e == NotDefined
    ensures b == 0x0A <==> e == GatewayPath
    ensures b == 0x0B <==> e == GatewayTarget
  {
    match e
    case IllegalFunction => 0x01
    case IllegalDataAddress => 0x02
    case IllegalDataValue => 0x03
    case SlaveOrServerFailure => 0x04
    case Acknowledge => 0x05
    case SlaveOrServerBusy => 0x06
    case NegativeAcknowledge => 0x07
    case MemoryParity => 0x08
    case NotDefined => 0x09
    case GatewayPath => 0x0A
    case GatewayTarget => 0x0B
  }

  /** `ExceptionCode::from_u8`: the exception code a byte names, if any. */
  function ExceptionFromByte(b: byte): (r: Option<ExceptionCode>)
    ensures r.Some? <==> 0x01 <= b <= 0x0B
    ensures r.Some? ==> ExceptionByte(r.value) == b
  {
    if b == 0x01 then Some(IllegalFunction)
    else if b == 0x02 then Some(IllegalDataAddress)
    else if b == 0x03 then Some(IllegalDataValue)
    else if b == 0x04 then Some(SlaveOrServerFailure)
    else if b == 0x05 then Some(Acknowledge)
    else if b == 0x06 then Some(SlaveOrServerBusy)
    else if b == 0x07 then Some(NegativeAcknowledge)
    else if b == 0x08 then Some(MemoryParity)
    else if b == 0x09 then Some(NotDefined)
    else if b == 0x0A then Some(GatewayPath)
    else if b == 0x0B then Some(GatewayTarget)
    else None
  }

  /** Every exception code survives the trip to its wire byte and back. */
  lemma ExceptionByteRoundTrip(e: ExceptionCode)
    ensures ExceptionFromByte(ExceptionByte(e)) == Some(e)
  {
  }

  /** Why locally validated data was rejected. */
  datatype Reason =
    | UnexpectedReplySize
    | BytecountNotEven
    | SendBufferEmpty
    | RecvBufferEmpty
    | SendBufferTooBig

  /** Errors of the current API generation; `Io` stands for any socket failure. */
  datatype Error =
    | Exception(code: ExceptionCode)
    | Io
    | InvalidResponse
    | InvalidData(reason: Reason)
    | InvalidFunction

  /** Errors of the older API generation (`ModbusError`). */
  datatype ModbusError =
    | ModbusException(code: ExceptionCode)
    | IoError
    | InvalidResponseError
    | InvalidDataError

  /** Errors raised by collaborators that the older generation converts with `From`. */
  datatype ForeignError =
    | ExceptionCodeRaised(code: ExceptionCode)
    | IoFailed
    | DecodingFailed
    | EncodingFailed
    | ByteorderFailed

  /** The `From` conversions into `ModbusError`. */
  function FromForeign(e: ForeignError): (r: ModbusError)
    ensures r.InvalidDataError? <==> (e.DecodingFailed? || e.EncodingFailed? || e.ByteorderFailed?)
    ensures r.IoError? <==> e.IoFailed?
    ensures r.ModbusException? <==> e.ExceptionCodeRaised?
    ensures r.ModbusException? ==> r.code == e.code
    ensures !r.InvalidResponseError?
  {
    match e
    case ExceptionCodeRaised(code) => ModbusException(code)
    case IoFailed => IoError
    case DecodingFailed => InvalidDataError
    case EncodingFailed => InvalidDataError
    case ByteorderFailed => InvalidDataError
  }
}
