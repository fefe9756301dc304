/*******************************************************************************
 *  Scoped coils and registers: objects that, when dropped, read their coil or
 *  register once and write back a value chosen by a drop function. Dropping
 *  never reports a failure: a failed read skips the write, and the write's
 *  own result is discarded.
 *******************************************************************************/

module Scoped {
  import opened Modbus
  import opened Binary
  import opened Tcp
  import TcpClient

  /** What a `ScopedCoil` writes back. */
  datatype CoilDropFunction = SetOn | SetOff | Toggle

  /** What a `ScopedRegister` writes back; `Fun` applies a caller-supplied function to the value read. */
  datatype RegisterDropFunction =
    | Zero
    | Increment
    | Decrement
    | Value(v: u16)
    | Fun(f: u16 -> u16)

  datatype ScopedCoil = ScopedCoil(address: u16, fun: CoilDropFunction)

  datatype ScopedRegister = ScopedRegister(address: u16, fun: RegisterDropFunction)

  /** `ScopedCoil::new`: no exchange happens, and creation cannot fail. */
  function NewScopedCoil(address: u16, fun: CoilDropFunction): (r: Result<ScopedCoil, Error>)
    ensures r.Ok? && r.value.address == address && r.value.fun == fun
  {
    Ok(ScopedCoil(address, fun))
  }

  /** `ScopedRegister::new`: no exchange happens, and creation cannot fail. */
  function NewScopedRegister(address: u16, fun: RegisterDropFunction): (r: Result<ScopedRegister, Error>)
    ensures r.Ok? && r.value.address == address
    ensures r.value.fun.Zero? == fun.Zero? && r.value.fun.Increment? == fun.Increment?
    ensures r.value.fun.Decrement? == fun.Decrement?
    ensures fun.Value? ==> r.value.fun == fun
    ensures fun.Fun? ==> r.value.fun.Fun? && r.value.fun.f == fun.f
  {
    Ok(ScopedRegister(address, fun))
  }

  /** The coil written back, given the coil read. */
  function CoilDropValue(fun: CoilDropFunction, read: Coil): (c: Coil)
    ensures fun.SetOn? ==> c == On
    ensures fun.SetOff? ==> c == Off
    ensures fun.Toggle? ==> c != read
  {
    match fun
    case SetOn => On
    case SetOff => Off
    case Toggle => (match read case On => Off case Off => On)
  }

  /** Toggling twice restores the coil; setting ignores what was read. */
  lemma CoilDropValueLaws(read: Coil, other: Coil)
    ensures CoilDropValue(Toggle, CoilDropValue(Toggle, read)) == read
    ensures CoilDropValue(SetOn, read) == CoilDropValue(SetOn, other)
    ensures CoilDropValue(SetOff, read) == CoilDropValue(SetOff, other)
  {
  }

  /**
   * The register value written back, given the value read. `value[0] + 1`
   * and `value[0] - 1` overflow at 0xFFFF and 0; the model takes the
   * wrapping result of a release build.
   */
  function RegisterDropValue(fun: RegisterDropFunction, read: u16): (v: u16)
    ensures fun.Zero? ==> v == 0
    ensures fun.Value? ==> v == fun.v
    ensures fun.Fun? ==> v == fun.f(read)
    ensures fun.Increment? ==> v == (read + 1) % 0x1_0000
    ensures fun.Decrement? ==> (v + 1) % 0x1_0000 == read
  {
    match fun
    case Zero => 0
    case Increment => if read == 0xFFFF then 0 else read + 1
    case Decrement => if read == 0 then 0xFFFF else read - 1
    case Value(v) => v
    case Fun(f) => f(read)
  }

  /** Incrementing and decrementing undo each other, across the wrap as well. */
  lemma IncrementDecrementInverse(v: u16)
    ensures RegisterDropValue(Decrement, RegisterDropValue(Increment, v)) == v
    ensures RegisterDropValue(Increment, RegisterDropValue(Decrement, v)) == v
  {
  }

  /**
   * The drop decision over any client: the coil to write back, if any. Only a
   * read that succeeds with exactly one coil leads to a write.
   */
  function CoilDropWrite(s: ScopedCoil, read: Result<seq<Coil>, Error>): (w: Option<Coil>)
    ensures w.Some? <==> read.Ok? && |read.value| == 1
    ensures w.Some? ==> w.value == CoilDropValue(s.fun, read.value[0])
  {
    if read.Ok? && |read.value| == 1 then Some(CoilDropValue(s.fun, read.value[0])) else None
  }

  /** As `CoilDropWrite`, for a register. */
  function RegisterDropWrite(s: ScopedRegister, read: Result<seq<u16>, Error>): (w: Option<u16>)
    ensures w.Some? <==> read.Ok? && |read.value| == 1
    ensures w.Some? ==> w.value == RegisterDropValue(s.fun, read.value[0])
  {
    if read.Ok? && |read.value| == 1 then Some(RegisterDropValue(s.fun, read.value[0])) else None
  }

  /** What a drop leaves behind: the transport and the frames it sent, in order. */
  datatype Dropped = Dropped(next: Transport, frames: seq<seq<byte>>)

  /** The coil a read reply of one coil reports. */
  function CoilRead(bytes: seq<byte>): (c: Coil)
    ensures c == On <==> Bit(Payload(bytes, 1)[0], 0)
  {
    CoilOf(Bit(Payload(bytes, 1)[0], 0))
  }

  /** The register a read reply of one register reports. */
  function RegisterRead(bytes: seq<byte>): (v: u16)
    ensures WordsOf([v], Payload(bytes, 2))
  {
    var p := Payload(bytes, 2);
    Word(p[0], p[1])
  }

  /** The write half of a coil drop, once the read produced `value`. */
  function CoilWriteBack(t: Transport, s: ScopedCoil, value: Coil, writeWire: Wire): (d: Dropped)
    ensures d.next == NewTid(t) && |d.frames| == 1
    ensures Stamped(d.frames[0], d.next.tid, t.uid)
    ensures FixedFrame(d.frames[0], 0x05, s.address, CoilCode(value))
  {
    var w := TcpClient.WriteSingleCoil(t, s.address, value, writeWire);
    assert w.sent.Some? && Sequenced(t, w.next, w.sent);
    Dropped(w.next, [w.sent.value])
  }

  /**
   * `Drop` for `ScopedCoil` over the TCP transport: read one coil; if the read
   * succeeds, write the drop value back to the same address. The write's
   * result is ignored, and nothing is reported.
   */
  function DropCoil(t: Transport, s: ScopedCoil, readWire: Wire, writeWire: Wire): (d: Dropped)
    ensures 1 <= |d.frames| <= 2 && d.next == AfterHeaders(t, |d.frames|)
    ensures Stamped(d.frames[0], NewTid(t).tid, t.uid) && FixedFrame(d.frames[0], 0x01, s.address, 1)
    ensures |d.frames| == 2 <==> ReadAccepted(readWire, NewTid(t).tid, 0x01, 1)
    ensures |d.frames| == 2 ==> Stamped(d.frames[1], d.next.tid, t.uid)
    ensures |d.frames| == 2 ==>
      readWire.Replies? && FixedFrame(d.frames[1], 0x05, s.address, CoilCode(CoilDropValue(s.fun, CoilRead(readWire.bytes))))
  {
    var read := TcpClient.ReadCoils(t, s.address, 1, readWire);
    assert read.sent.Some? && read.next == NewTid(t) && Stamped(read.sent.value, read.next.tid, t.uid);
    assert FixedFrame(read.sent.value, 0x01, s.address, 1);
    assert read.result.Ok? <==> ReadAccepted(readWire, NewTid(t).tid, 0x01, 1);
    match CoilDropWrite(s, read.result)
    case None =>
      assert AfterHeaders(t, 1) == NewTid(t);
      Dropped(read.next, [read.sent.value])
    case Some(value) =>
      assert readWire.Replies? && BitsOf(read.result.value, Payload(readWire.bytes, 1));
      assert read.result.value[0] == On <==> Bit(Payload(readWire.bytes, 1)[0], 0);
      assert read.result.value[0] == CoilRead(readWire.bytes);
      var w := CoilWriteBack(read.next, s, value, writeWire);
      assert AfterHeaders(t, 2) == NewTid(AfterHeaders(t, 1)) && AfterHeaders(t, 1) == NewTid(t);
      Dropped(w.next, [read.sent.value] + w.frames)
  }

  /** The write half of a register drop, once the read produced `value`. */
  function RegisterWriteBack(t: Transport, s: ScopedRegister, value: u16, writeWire: Wire): (d: Dropped)
    ensures d.next == NewTid(t) && |d.frames| == 1
    ensures Stamped(d.frames[0], d.next.tid, t.uid)
    ensures FixedFrame(d.frames[0], 0x06, s.address, value)
  {
    var w := TcpClient.WriteSingleRegister(t, s.address, value, writeWire);
    assert w.sent.Some? && Sequenced(t, w.next, w.sent);
    Dropped(w.next, [w.sent.value])
  }

  /** `Drop` for `ScopedRegister` over the TCP transport: read one holding register, write the drop value back. */
  function DropRegister(t: Transport, s: ScopedRegister, readWire: Wire, writeWire: Wire): (d: Dropped)
    ensures 1 <= |d.frames| <= 2 && d.next == AfterHeaders(t, |d.frames|)
    ensures Stamped(d.frames[0], NewTid(t).tid, t.uid) && FixedFrame(d.frames[0], 0x03, s.address, 1)
    ensures |d.frames| == 2 <==> ReadAccepted(readWire, NewTid(t).tid, 0x03, 2)
    ensures |d.frames| == 2 ==> Stamped(d.frames[1], d.next.tid, t.uid)
    ensures |d.frames| == 2 ==>
      readWire.Replies? && FixedFrame(d.frames[1], 0x06, s.address, RegisterDropValue(s.fun, RegisterRead(readWire.bytes)))
  {
    var read := TcpClient.ReadHoldingRegisters(t, s.address, 1, readWire);
    assert read.sent.Some? && read.next == NewTid(t) && Stamped(read.sent.value, read.next.tid, t.uid);
    assert FixedFrame(read.sent.value, 0x03, s.address, 1);
    assert read.result.Ok? <==> ReadAccepted(readWire, NewTid(t).tid, 0x03, 2);
    match RegisterDropWrite(s, read.result)
    case None =>
      assert AfterHeaders(t, 1) == NewTid(t);
      Dropped(read.next, [read.sent.value])
    case Some(value) =>
      assert readWire.Replies? && WordsOf(read.result.value, Payload(readWire.bytes, 2));
      assert read.result.value[0] == RegisterRead(readWire.bytes);
      var w := RegisterWriteBack(read.next, s, value, writeWire);
      assert AfterHeaders(t, 2) == NewTid(AfterHeaders(t, 1)) && AfterHeaders(t, 1) == NewTid(t);
      Dropped(w.next, [read.sent.value] + w.frames)
  }

  /** A device that stores coils and holding registers, serving reads of one item at known addresses. */
  datatype Device = Device(coils: map<u16, Coil>, registers: map<u16, u16>)

  /** Reading one coil from the device: unknown addresses are refused. */
  function DeviceReadCoil(d: Device, address: u16): (r: Result<seq<Coil>, Error>)
    ensures r.Ok? <==> address in d.coils
    ensures r.Ok? ==> r.value == [d.coils[address]]
  {
    if address in d.coils then Ok([d.coils[address]]) else Err(Exception(IllegalDataAddress))
  }

  /** Reading one holding register from the device. */
  function DeviceReadRegister(d: Device, address: u16): (r: Result<seq<u16>, Error>)
    ensures r.Ok? <==> address in d.registers
    ensures r.Ok? ==> r.value == [d.registers[address]]
  {
    if address in d.registers then Ok([d.registers[address]]) else Err(Exception(IllegalDataAddress))
  }

  /** Dropping a scoped coil against the device: only its own coil may change. */
  function DeviceDropCoil(d: Device, s: ScopedCoil): (d': Device)
    ensures d'.registers == d.registers
    ensures s.address in d.coils ==> d'.coils == d.coils[s.address := CoilDropValue(s.fun, d.coils[s.address])]
    ensures s.address !in d.coils ==> d' == d
  {
    match CoilDropWrite(s, DeviceReadCoil(d, s.address))
    case Some(v) => d.(coils := d.coils[s.address := v])
    case None => d
  }

  /** Dropping a scoped register against the device: only its own register may change. */
  function DeviceDropRegister(d: Device, s: ScopedRegister): (d': Device)
    ensures d'.coils == d.coils
    ensures s.address in d.registers ==>
      d'.registers == d.registers[s.address := RegisterDropValue(s.fun, d.registers[s.address])]
    ensures s.address !in d.registers ==> d' == d
  {
    match RegisterDropWrite(s, DeviceReadRegister(d, s.address))
    case Some(v) => d.(registers := d.registers[s.address := v])
    case None => d
  }

  /** The first documentation example: coil 10, read Off inside the scope, is On after it. */
  lemma CoilDocExample()
    ensures DeviceDropCoil(Device(map[10 := Off], map[]), ScopedCoil(10, SetOn)).coils[10] == On
  {
  }

  /** The second documentation example: register 10, holding 1, holds 6 after a drop adding 5. */
  lemma RegisterDocExample()
    ensures DeviceDropRegister(Device(map[], map[10 := 1]), ScopedRegister(10, Fun(v => ((v as int + 5) % 0x1_0000) as u16))).registers[10] == 6
  {
  }
}
