/*******************************************************************************
 *  The `Client` operations of the current API generation: each wraps one
 *  exchange of `Tcp` and converts between the payload bytes and coils or
 *  registers with the codec of `Binary`.
 *******************************************************************************/

module TcpClient {
  import opened Modbus
  import opened Binary
  import opened Tcp

  /**
   * Joins a successful read's payload of `2 * count` bytes into registers;
   * failures pass through unchanged. The payload's length is even, so joining
   * never fails.
   */
  function JoinRegisters(x: Exchange<seq<byte>, Error>, count: u16): (r: Exchange<seq<u16>, Error>)
    requires x.result.Ok? ==> |x.result.value| == 2 * count
    ensures r.next == x.next && r.sent == x.sent
    ensures r.result.Ok? <==> x.result.Ok?
    ensures r.result.Err? ==> r.result.error == x.result.error
    ensures r.result.Ok? ==> WordsOf(r.result.value, x.result.value)
  {
    match x.result
    case Ok(bytes) =>
      assert (2 * count) % 2 == 0;
      Exchange(PackBytes(bytes), x.next, x.sent)
    case Err(e) => Exchange(Err(e), x.next, x.sent)
  }

  /** `read_coils`: a bit read whose payload is unpacked into exactly `count` coils. */
  function ReadCoils(t: Transport, addr: u16, count: u16, wire: Wire): (r: Exchange<seq<Coil>, Error>)
    ensures Sequenced(t, r.next, r.sent)
    ensures r.sent.Some? <==> 1 <= count <= MaxPacketSize
    ensures count == 0 ==> r.result == Err(InvalidData(RecvBufferEmpty))
    ensures count > MaxPacketSize ==> r.result == Err(InvalidData(UnexpectedReplySize))
    ensures r.sent.Some? ==> FixedFrame(r.sent.value, 0x01, addr, count)
    ensures r.sent.Some? ==> ReadAnswered(r.result, wire, r.next.tid, 0x01, PackedSize(count))
    ensures r.result.Ok? ==> wire.Replies? && |r.result.value| == count && BitsOf(r.result.value, Payload(wire.bytes, PackedSize(count)))
  {
    var fun := Function.ReadCoils(addr, count);
    assert Code(fun) == 0x01 && IsRead(fun) && fun.addr == addr && fun.count == count && ExpectedBytes(fun) == PackedSize(count);
    var x := Read(t, fun, wire);
    var r := UnpackCoils(x, count);
    assert r.next == x.next && r.sent == x.sent;
    assert r.result.Ok? <==> x.result.Ok?;
    assert r.result.Err? ==> r.result.error == x.result.error;
    r
  }

  /** `read_discrete_inputs`: as `read_coils`, with function code 0x02. */
  function ReadDiscreteInputs(t: Transport, addr: u16, count: u16, wire: Wire): (r: Exchange<seq<Coil>, Error>)
    ensures Sequenced(t, r.next, r.sent)
    ensures r.sent.Some? <==> 1 <= count <= MaxPacketSize
    ensures count == 0 ==> r.result == Err(InvalidData(RecvBufferEmpty))
    ensures count > MaxPacketSize ==> r.result == Err(InvalidData(UnexpectedReplySize))
    ensures r.sent.Some? ==> FixedFrame(r.sent.value, 0x02, addr, count)
    ensures r.sent.Some? ==> ReadAnswered(r.result, wire, r.next.tid, 0x02, PackedSize(count))
    ensures r.result.Ok? ==> wire.Replies? && |r.result.value| == count && BitsOf(r.result.value, Payload(wire.bytes, PackedSize(count)))
  {
    var fun := Function.ReadDiscreteInputs(addr, count);
    assert Code(fun) == 0x02 && IsRead(fun) && fun.addr == addr && fun.count == count && ExpectedBytes(fun) == PackedSize(count);
    var x := Read(t, fun, wire);
    var r := UnpackCoils(x, count);
    assert r.next == x.next && r.sent == x.sent;
    assert r.result.Ok? <==> x.result.Ok?;
    assert r.result.Err? ==> r.result.error == x.result.error;
    r
  }

  /**
   * `read_holding_registers`: a register read whose payload is joined into
   * words.
   */
  function ReadHoldingRegisters(t: Transport, addr: u16, count: u16, wire: Wire): (r: Exchange<seq<u16>, Error>)
    ensures Sequenced(t, r.next, r.sent)
    ensures r.sent.Some? <==> 1 <= count <= MaxPacketSize
    ensures count == 0 ==> r.result == Err(InvalidData(RecvBufferEmpty))
    ensures count > MaxPacketSize ==> r.result == Err(InvalidData(UnexpectedReplySize))
    ensures r.sent.Some? ==> FixedFrame(r.sent.value, 0x03, addr, count)
    ensures r.sent.Some? ==> ReadAnswered(r.result, wire, r.next.tid, 0x03, 2 * count)
    ensures r.result.Ok? ==> wire.Replies? && WordsOf(r.result.value, Payload(wire.bytes, 2 * count))
  {
    var fun := Function.ReadHoldingRegisters(addr, count);
    assert Code(fun) == 0x03 && IsRead(fun) && fun.addr == addr && fun.count == count && ExpectedBytes(fun) == 2 * count;
    var x := Read(t, fun, wire);
    var r := JoinRegisters(x, count);
    assert r.next == x.next && r.sent == x.sent;
    assert r.result.Ok? <==> x.result.Ok?;
    assert r.result.Err? ==> r.result.error == x.result.error;
    r
  }

  /** `read_input_registers`: as `read_holding_registers`, with function code 0x04. */
  function ReadInputRegisters(t: Transport, addr: u16, count: u16, wire: Wire): (r: Exchange<seq<u16>, Error>)
    ensures Sequenced(t, r.next, r.sent)
    ensures r.sent.Some? <==> 1 <= count <= MaxPacketSize
    ensures count == 0 ==> r.result == Err(InvalidData(RecvBufferEmpty))
    ensures count > MaxPacketSize ==> r.result == Err(InvalidData(UnexpectedReplySize))
    ensures r.sent.Some? ==> FixedFrame(r.sent.value, 0x04, addr, count)
    ensures r.sent.Some? ==> ReadAnswered(r.result, wire, r.next.tid, 0x04, 2 * count)
    ensures r.result.Ok? ==> wire.Replies? && WordsOf(r.result.value, Payload(wire.bytes, 2 * count))
  {
    var fun := Function.ReadInputRegisters(addr, count);
    assert Code(fun) == 0x04 && IsRead(fun) && fun.addr == addr && fun.count == count && ExpectedBytes(fun) == 2 * count;
    var x := Read(t, fun, wire);
    var r := JoinRegisters(x, count);
    assert r.next == x.next && r.sent == x.sent;
    assert r.result.Ok? <==> x.result.Ok?;
    assert r.result.Err? ==> r.result.error == x.result.error;
    r
  }

  /**
   * A register read of more than 127 registers passes the count check and is
   * sent, but can never succeed: its expected byte count no longer fits the
   * one-byte count field of the reply.
   */
  lemma RegisterReadsAbove127Fail(t: Transport, addr: u16, count: u16, wire: Wire)
    requires 128 <= count <= MaxPacketSize
    ensures ReadHoldingRegisters(t, addr, count, wire).sent.Some?
    ensures ReadHoldingRegisters(t, addr, count, wire).result.Err?
    ensures ReadInputRegisters(t, addr, count, wire).sent.Some?
    ensures ReadInputRegisters(t, addr, count, wire).result.Err?
  {
  }

  /** `write_single_coil`: the coil travels as 0xFF00 or 0x0000. */
  function WriteSingleCoil(t: Transport, addr: u16, value: Coil, wire: Wire): (r: Exchange<(), Error>)
    ensures Sequenced(t, r.next, r.sent) && r.sent.Some?
    ensures FixedFrame(r.sent.value, 0x05, addr, CoilCode(value))
    ensures WriteAnswered(r.result, wire, r.next.tid, 0x05)
  {
    var fun := Function.WriteSingleCoil(addr, CoilCode(value));
    assert Code(fun) == 0x05 && IsWriteSingle(fun) && fun.addr == addr && fun.value == CoilCode(value);
    var r := WriteSingle(t, fun, wire);
    assert r.sent.Some?;
    r
  }

  /** `write_single_register`. */
  function WriteSingleRegister(t: Transport, addr: u16, value: u16, wire: Wire): (r: Exchange<(), Error>)
    ensures Sequenced(t, r.next, r.sent) && r.sent.Some?
    ensures FixedFrame(r.sent.value, 0x06, addr, value)
    ensures WriteAnswered(r.result, wire, r.next.tid, 0x06)
  {
    var fun := Function.WriteSingleRegister(addr, value);
    assert Code(fun) == 0x06 && IsWriteSingle(fun) && fun.addr == addr && fun.value == value;
    var r := WriteSingle(t, fun, wire);
    assert r.sent.Some?;
    r
  }

  /** A coil payload fits a frame exactly when there are at most 1976 coils. */
  lemma CoilPayloadLimit(n: nat)
    ensures 13 + PackedSize(n) <= MaxPacketSize <==> n <= 1976
  {
  }

  /**
   * `write_multiple_coils`: the coils packed eight to a byte. A frame holds at
   * most 247 payload bytes, so at most 1976 coils are sent; a sent frame's
   * quantity and byte count are never truncated.
   */
  function WriteMultipleCoils(t: Transport, addr: u16, values: seq<Coil>, wire: Wire): (r: Exchange<(), Error>)
    ensures Sequenced(t, r.next, r.sent)
    ensures r.sent.Some? <==> |values| <= 1976
    ensures r.sent.None? ==> r.result == Err(InvalidData(SendBufferTooBig))
    ensures r.sent.Some? ==> MultipleFrame(r.sent.value, 0x0F, addr, |values|, PackBits(values))
    ensures r.sent.Some? ==> WriteAnswered(r.result, wire, r.next.tid, 0x0F)
  {
    var fun := Function.WriteMultipleCoils(addr, AsU16(|values|), PackBits(values));
    assert |fun.values| == PackedSize(|values|);
    CoilPayloadLimit(|values|);
    var r := WriteMultiple(t, fun, wire);
    assert r.sent.Some? <==> |values| <= 1976;
    assert r.sent.Some? ==> fun.count == |values|;
    r
  }

  /**
   * `write_multiple_registers`: each register as two big-endian bytes. At most
   * 123 registers fit a frame; a sent frame's quantity and byte count are
   * never truncated.
   */
  function WriteMultipleRegisters(t: Transport, addr: u16, values: seq<u16>, wire: Wire): (r: Exchange<(), Error>)
    ensures Sequenced(t, r.next, r.sent)
    ensures r.sent.Some? <==> |values| <= 123
    ensures r.sent.None? ==> r.result == Err(InvalidData(SendBufferTooBig))
    ensures r.sent.Some? ==> MultipleFrame(r.sent.value, 0x10, addr, |values|, UnpackBytes(values))
    ensures r.sent.Some? ==> WriteAnswered(r.result, wire, r.next.tid, 0x10)
  {
    var fun := Function.WriteMultipleRegisters(addr, AsU16(|values|), UnpackBytes(values));
    assert |fun.values| == 2 * |values|;
    var r := WriteMultiple(t, fun, wire);
    assert r.sent.Some? <==> |values| <= 123;
    assert r.sent.Some? ==> fun.count == |values|;
    r
  }

  /** `set_uid`: only the unit id changes. */
  function SetUid(t: Transport, uid: byte): (t': Transport)
    ensures t'.uid == uid && t'.tid == t.tid
  {
    t.(uid := uid)
  }

  /**
   * After `set_uid(u)`, the frame of the next exchange, whichever it is,
   * carries unit id `u` and the successor of the current transaction id.
   */
  lemma SetUidStampsFrames(t: Transport, uid: byte, next: Transport, sent: Option<seq<byte>>)
    requires Sequenced(SetUid(t, uid), next, sent) && sent.Some?
    ensures next.uid == uid && next.tid == WrappingInc(t.tid)
    ensures sent.value[6] == uid && Word(sent.value[0], sent.value[1]) == WrappingInc(t.tid)
  {
  }

  /** The first frame a freshly connected transport sends carries transaction id 1. */
  lemma FirstRequestIsOne(uid: byte, next: Transport, sent: Option<seq<byte>>)
    requires Sequenced(Connect(uid), next, sent) && sent.Some?
    ensures next.tid == 1 && Word(sent.value[0], sent.value[1]) == 1
  {
  }

  /**
   * A device that answers a coil read under the request's transaction with
   * function code 0x81 and exception code 0x02 makes `read_coils` report an
   * illegal data address.
   */
  lemma ReadCoilsIllegalAddress(t: Transport, addr: u16, count: u16, reply: seq<byte>)
    requires 1 <= count <= MaxPacketSize && |reply| > 8
    requires Word(reply[0], reply[1]) == NewTid(t).tid && reply[2] == 0 && reply[3] == 0
    requires reply[7] == 0x81 && reply[8] == 0x02
    ensures ReadCoils(t, addr, count, Replies(reply)).result == Err(Exception(IllegalDataAddress))
  {
    var r := ReadCoils(t, addr, count, Replies(reply));
    ReceiveHead(reply, HeaderSize + 2 + PackedSize(count));
    assert ReadRefused(Replies(reply), r.next.tid, 0x01, PackedSize(count));
    assert ExceptionByte(r.result.error.code) == 0x02;
  }

  /** A reply that names another transaction is an invalid response, whatever else it carries. */
  lemma ReadCoilsOtherTransaction(t: Transport, addr: u16, count: u16, reply: seq<byte>)
    requires 1 <= count <= MaxPacketSize && |reply| > 8
    requires Word(reply[0], reply[1]) != NewTid(t).tid
    ensures ReadCoils(t, addr, count, Replies(reply)).result == Err(InvalidResponse)
  {
    var r := ReadCoils(t, addr, count, Replies(reply));
    var size := HeaderSize + 2 + PackedSize(count);
    ReceiveHead(reply, size);
    assert !ForTransaction(Receive(reply, size), r.next.tid);
  }

  /**
   * A register read answered under the request's transaction and function
   * code, but with a byte count other than twice the quantity, is a reply of
   * unexpected size.
   */
  lemma ReadHoldingRegistersWrongCount(t: Transport, addr: u16, count: u16, reply: seq<byte>)
    requires 1 <= count <= MaxPacketSize && |reply| > 8
    requires Word(reply[0], reply[1]) == NewTid(t).tid && reply[2] == 0 && reply[3] == 0
    requires reply[7] == 0x03 && reply[8] != 2 * count
    ensures ReadHoldingRegisters(t, addr, count, Replies(reply)).result == Err(InvalidData(UnexpectedReplySize))
  {
    var r := ReadHoldingRegisters(t, addr, count, Replies(reply));
    var size := HeaderSize + 2 + 2 * count;
    ReceiveHead(reply, size);
    assert WrongByteCount(Receive(reply, size), r.next.tid, 0x03, 2 * count);
  }

  /**
   * An acknowledgement under the request's transaction that echoes neither
   * the function code 0x06 nor its exception form 0x86 is an invalid response.
   */
  lemma WriteSingleRegisterWrongCode(t: Transport, addr: u16, value: u16, reply: seq<byte>)
    requires |reply| > 8
    requires Word(reply[0], reply[1]) == NewTid(t).tid && reply[2] == 0 && reply[3] == 0
    requires reply[7] != 0x06 && reply[7] != 0x86
    ensures WriteSingleRegister(t, addr, value, Replies(reply)).result == Err(InvalidResponse)
  {
    ReceiveHead(reply, AckSize);
  }
}
