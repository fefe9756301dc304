/*******************************************************************************
 *  The `Client` operations of the older API generation: each wraps one
 *  exchange of `LegacyTcp` and converts between payload bytes and coils or
 *  registers. Every operation needs the device's reply to be `Decodable`,
 *  since an unknown exception code makes this generation panic.
 *******************************************************************************/

module LegacyClient {
  import opened Modbus
  import opened Binary
  import Tcp
  import opened LegacyTcp

  /** Joins a successful read's `2 * count` payload bytes into registers, which never fails. */
  function JoinRegisters(x: Tcp.Exchange<seq<byte>, ModbusError>, count: u16): (r: Tcp.Exchange<seq<u16>, ModbusError>)
    requires x.result.Ok? ==> |x.result.value| == 2 * count
    ensures r.next == x.next && r.sent == x.sent
    ensures r.result.Ok? <==> x.result.Ok?
    ensures r.result.Err? ==> r.result.error == x.result.error
    ensures r.result.Ok? ==> WordsOf(r.result.value, x.result.value)
  {
    match x.result
    case Ok(bytes) =>
      assert (2 * count) % 2 == 0;
      Tcp.Exchange(LegacyTcp.PackBytes(bytes), x.next, x.sent)
    case Err(e) => Tcp.Exchange(Err(e), x.next, x.sent)
  }

  /** `read_coils`: at most 125 coils, unpacked from the payload. */
  function ReadCoils(c: Tcp.Transport, addr: u16, count: u16, wire: Tcp.Wire): (r: Tcp.Exchange<seq<Coil>, ModbusError>)
    requires 1 <= count <= MaxReadCount ==> Decodable(wire, Tcp.NewTid(c).tid, 0x01)
    ensures Tcp.Sequenced(c, r.next, r.sent)
    ensures r.sent.Some? <==> 1 <= count <= MaxReadCount
    ensures r.sent.None? ==> r.result == Err(InvalidDataError)
    ensures r.sent.Some? ==> Tcp.FixedFrame(r.sent.value, 0x01, addr, count)
    ensures r.sent.Some? ==> ReadAnswered(r.result, wire, r.next.tid, 0x01, PackedSize(count))
    ensures r.result.Ok? ==> wire.Replies? && |r.result.value| == count && BitsOf(r.result.value, Tcp.Payload(wire.bytes, PackedSize(count)))
  {
    var fun := Function.ReadCoils(addr, count);
    assert Code(fun) == 0x01 && IsRead(fun) && fun.addr == addr && fun.count == count && Tcp.ExpectedBytes(fun) == PackedSize(count);
    var x := Read(c, fun, wire);
    var r := Tcp.UnpackCoils(x, count);
    assert r.next == x.next && r.sent == x.sent;
    assert r.result.Ok? <==> x.result.Ok?;
    assert r.result.Err? ==> r.result.error == x.result.error;
    r
  }

  /** `read_discrete_inputs`: as `read_coils`, with function code 0x02. */
  function ReadDiscreteInputs(c: Tcp.Transport, addr: u16, count: u16, wire: Tcp.Wire): (r: Tcp.Exchange<seq<Coil>, ModbusError>)
    requires 1 <= count <= MaxReadCount ==> Decodable(wire, Tcp.NewTid(c).tid, 0x02)
    ensures Tcp.Sequenced(c, r.next, r.sent)
    ensures r.sent.Some? <==> 1 <= count <= MaxReadCount
    ensures r.sent.None? ==> r.result == Err(InvalidDataError)
    ensures r.sent.Some? ==> Tcp.FixedFrame(r.sent.value, 0x02, addr, count)
    ensures r.sent.Some? ==> ReadAnswered(r.result, wire, r.next.tid, 0x02, PackedSize(count))
    ensures r.result.Ok? ==> wire.Replies? && |r.result.value| == count && BitsOf(r.result.value, Tcp.Payload(wire.bytes, PackedSize(count)))
  {
    var fun := Function.ReadDiscreteInputs(addr, count);
    assert Code(fun) == 0x02 && IsRead(fun) && fun.addr == addr && fun.count == count && Tcp.ExpectedBytes(fun) == PackedSize(count);
    var x := Read(c, fun, wire);
    var r := Tcp.UnpackCoils(x, count);
    assert r.next == x.next && r.sent == x.sent;
    assert r.result.Ok? <==> x.result.Ok?;
    assert r.result.Err? ==> r.result.error == x.result.error;
    r
  }

  /** `read_holding_registers`: at most 125 registers, joined from the payload. */
  function ReadHoldingRegisters(c: Tcp.Transport, addr: u16, count: u16, wire: Tcp.Wire): (r: Tcp.Exchange<seq<u16>, ModbusError>)
    requires 1 <= count <= MaxReadCount ==> Decodable(wire, Tcp.NewTid(c).tid, 0x03)
    ensures Tcp.Sequenced(c, r.next, r.sent)
    ensures r.sent.Some? <==> 1 <= count <= MaxReadCount
    ensures r.sent.None? ==> r.result == Err(InvalidDataError)
    ensures r.sent.Some? ==> Tcp.FixedFrame(r.sent.value, 0x03, addr, count)
    ensures r.sent.Some? ==> ReadAnswered(r.result, wire, r.next.tid, 0x03, 2 * count)
    ensures r.result.Ok? ==> wire.Replies? && WordsOf(r.result.value, Tcp.Payload(wire.bytes, 2 * count))
  {
    var fun := Function.ReadHoldingRegisters(addr, count);
    assert Code(fun) == 0x03 && IsRead(fun) && fun.addr == addr && fun.count == count && Tcp.ExpectedBytes(fun) == 2 * count;
    var x := Read(c, fun, wire);
    var r := JoinRegisters(x, count);
    assert r.next == x.next && r.sent == x.sent;
    assert r.result.Ok? <==> x.result.Ok?;
    assert r.result.Err? ==> r.result.error == x.result.error;
    r
  }

  /** `read_input_registers`: as `read_holding_registers`, with function code 0x04. */
  function ReadInputRegisters(c: Tcp.Transport, addr: u16, count: u16, wire: Tcp.Wire): (r: Tcp.Exchange<seq<u16>, ModbusError>)
    requires 1 <= count <= MaxReadCount ==> Decodable(wire, Tcp.NewTid(c).tid, 0x04)
    ensures Tcp.Sequenced(c, r.next, r.sent)
    ensures r.sent.Some? <==> 1 <= count <= MaxReadCount
    ensures r.sent.None? ==> r.result == Err(InvalidDataError)
    ensures r.sent.Some? ==> Tcp.FixedFrame(r.sent.value, 0x04, addr, count)
    ensures r.sent.Some? ==> ReadAnswered(r.result, wire, r.next.tid, 0x04, 2 * count)
    ensures r.result.Ok? ==> wire.Replies? && WordsOf(r.result.value, Tcp.Payload(wire.bytes, 2 * count))
  {
    var fun := Function.ReadInputRegisters(addr, count);
    assert Code(fun) == 0x04 && IsRead(fun) && fun.addr == addr && fun.count == count && Tcp.ExpectedBytes(fun) == 2 * count;
    var x := Read(c, fun, wire);
    var r := JoinRegisters(x, count);
    assert r.next == x.next && r.sent == x.sent;
    assert r.result.Ok? <==> x.result.Ok?;
    assert r.result.Err? ==> r.result.error == x.result.error;
    r
  }

  /** `write_single_coil`: the coil travels as 0xFF00 or 0x0000. */
  function WriteSingleCoil(c: Tcp.Transport, addr: u16, value: Coil, wire: Tcp.Wire): (r: Tcp.Exchange<(), ModbusError>)
    requires Decodable(wire, Tcp.NewTid(c).tid, 0x05)
    ensures Tcp.Sequenced(c, r.next, r.sent) && r.sent.Some?
    ensures Tcp.FixedFrame(r.sent.value, 0x05, addr, CoilCode(value))
    ensures WriteAnswered(r.result, wire, r.next.tid, 0x05)
  {
    var fun := Function.WriteSingleCoil(addr, CoilCode(value));
    assert Code(fun) == 0x05 && IsWriteSingle(fun) && fun.addr == addr && fun.value == CoilCode(value);
    var r := WriteSingle(c, fun, wire);
    assert r.sent.Some?;
    r
  }

  /** `write_single_register`. */
  function WriteSingleRegister(c: Tcp.Transport, addr: u16, value: u16, wire: Tcp.Wire): (r: Tcp.Exchange<(), ModbusError>)
    requires Decodable(wire, Tcp.NewTid(c).tid, 0x06)
    ensures Tcp.Sequenced(c, r.next, r.sent) && r.sent.Some?
    ensures Tcp.FixedFrame(r.sent.value, 0x06, addr, value)
    ensures WriteAnswered(r.result, wire, r.next.tid, 0x06)
  {
    var fun := Function.WriteSingleRegister(addr, value);
    assert Code(fun) == 0x06 && IsWriteSingle(fun) && fun.addr == addr && fun.value == value;
    var r := WriteSingle(c, fun, wire);
    assert r.sent.Some?;
    r
  }

  /** A coil payload fits a 121-byte frame exactly when there are at most 864 coils. */
  lemma CoilPayloadLimit(n: nat)
    ensures 13 + PackedSize(n) <= MaxWriteCount <==> n <= 864
  {
  }

  /** `write_multiple_coils`: at most 864 coils, packed eight to a byte. */
  function WriteMultipleCoils(c: Tcp.Transport, addr: u16, values: seq<Coil>, wire: Tcp.Wire): (r: Tcp.Exchange<(), ModbusError>)
    requires |values| <= 864 ==> Decodable(wire, Tcp.NewTid(c).tid, 0x0F)
    ensures Tcp.Sequenced(c, r.next, r.sent)
    ensures r.sent.Some? <==> |values| <= 864
    ensures r.sent.None? ==> r.result == Err(InvalidDataError)
    ensures r.sent.Some? ==> Tcp.MultipleFrame(r.sent.value, 0x0F, addr, |values|, PackBits(values))
    ensures r.sent.Some? ==> WriteAnswered(r.result, wire, r.next.tid, 0x0F)
  {
    var fun := Function.WriteMultipleCoils(addr, AsU16(|values|), PackBits(values));
    assert |fun.values| == PackedSize(|values|);
    CoilPayloadLimit(|values|);
    var r := WriteMultiple(c, fun, wire);
    assert r.sent.Some? <==> |values| <= 864;
    assert r.sent.Some? ==> fun.count == |values|;
    r
  }

  /** `write_multiple_registers`: at most 54 registers fit a 121-byte frame. */
  function WriteMultipleRegisters(c: Tcp.Transport, addr: u16, values: seq<u16>, wire: Tcp.Wire): (r: Tcp.Exchange<(), ModbusError>)
    requires |values| <= 54 ==> Decodable(wire, Tcp.NewTid(c).tid, 0x10)
    ensures Tcp.Sequenced(c, r.next, r.sent)
    ensures r.sent.Some? <==> |values| <= 54
    ensures r.sent.None? ==> r.result == Err(InvalidDataError)
    ensures r.sent.Some? ==> Tcp.MultipleFrame(r.sent.value, 0x10, addr, |values|, UnpackBytes(values))
    ensures r.sent.Some? ==> WriteAnswered(r.result, wire, r.next.tid, 0x10)
  {
    var fun := Function.WriteMultipleRegisters(addr, AsU16(|values|), UnpackBytes(values));
    assert |fun.values| == 2 * |values|;
    var r := WriteMultiple(c, fun, wire);
    assert r.sent.Some? <==> |values| <= 54;
    assert r.sent.Some? ==> fun.count == |values|;
    r
  }

  /**
   * A register read answered under the request's transaction and function
   * code, but with a byte count other than twice the quantity, is invalid data;
   * a reply that names another transaction is an invalid response.
   */
  lemma ReadHoldingRegistersRejections(c: Tcp.Transport, addr: u16, count: u16, reply: seq<byte>)
    requires 1 <= count <= MaxReadCount && |reply| > 8 && reply[7] == 0x03
    ensures Decodable(Tcp.Replies(reply), Tcp.NewTid(c).tid, 0x03)
    ensures Word(reply[0], reply[1]) == Tcp.NewTid(c).tid && reply[2] == 0 && reply[3] == 0 && reply[8] != 2 * count ==>
      ReadHoldingRegisters(c, addr, count, Tcp.Replies(reply)).result == Err(InvalidDataError)
    ensures Word(reply[0], reply[1]) != Tcp.NewTid(c).tid ==>
      ReadHoldingRegisters(c, addr, count, Tcp.Replies(reply)).result == Err(InvalidResponseError)
  {
    Tcp.ReceiveHead(reply, 9);
    var size := Tcp.HeaderSize + 2 + 2 * count;
    Tcp.ReceiveHead(reply, size);
    var r := ReadHoldingRegisters(c, addr, count, Tcp.Replies(reply));
    if Word(reply[0], reply[1]) == Tcp.NewTid(c).tid && reply[2] == 0 && reply[3] == 0 && reply[8] != 2 * count {
      assert Tcp.WrongByteCount(Tcp.Receive(reply, size), r.next.tid, 0x03, 2 * count);
    }
    if Word(reply[0], reply[1]) != Tcp.NewTid(c).tid {
      assert !Tcp.ForTransaction(Tcp.Receive(reply, size), r.next.tid);
    }
  }
}
