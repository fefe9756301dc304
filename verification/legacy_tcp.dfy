/*******************************************************************************
 *  The older API generation of the TCP client: the same exchanges as `Tcp`
 *  with tighter limits (125 items per read, 121 bytes per frame), errors of
 *  the `ModbusError` kind, and panics where the newer code returns errors.
 *  A panic becomes a precondition. The header travels through a serializer
 *  whose byte layout the model takes to be the big-endian MBAP layout of
 *  `Tcp.Pack`; the request frames and the codec are shared with `Tcp` and
 *  `Binary`, whose code this generation repeats.
 *******************************************************************************/

module LegacyTcp {
  import opened Modbus
  import opened Binary
  import Tcp

  /** `MODBUS_MAX_READ_COUNT`: the largest quantity a read may ask for. */
  const MaxReadCount: nat := 0x7D

  /** `MODBUS_MAX_WRITE_COUNT`: the largest write frame, header included, in bytes. */
  const MaxWriteCount: nat := 0x79

  /** `Ctx::new_with_port`: counter 0 and unit id 1. */
  function NewCtx(): (c: Tcp.Transport)
    ensures c.tid == 0 && c.uid == 1
  {
    Tcp.Connect(1)
  }

  /**
   * `Header::new(ctx, len)`: the next transaction id, protocol 0, the
   * context's unit id and `len - 7`. The subtraction would underflow below 7;
   * both callers pass more.
   */
  function HeaderNew(c: Tcp.Transport, len: u16): (h: Tcp.Header)
    requires len >= Tcp.HeaderSize
    ensures h.tid == (c.tid + 1) % 0x1_0000
    ensures h.pid == Tcp.ProtocolTcp && h.uid == c.uid && h.len == len - 7
  {
    Tcp.HeaderNew(c, len)
  }

  /**
   * The one panic a reply can cause: a reply that passes the header check and
   * signals an exception must carry a known exception code, or `unwrap` fails.
   */
  predicate KnownException(reply: seq<byte>, tid: u16, code: byte)
  {
    && |reply| > 8
    && (Tcp.ForTransaction(reply, tid) && reply[7] == code + 0x80 ==> 0x01 <= reply[8] <= 0x0B)
  }

  /**
   * The device's reply cannot make the client panic. The check reads only the
   * first nine bytes of the reply buffer, which do not depend on its size.
   */
  predicate Decodable(wire: Tcp.Wire, tid: u16, code: byte)
  {
    wire.Replies? ==> KnownException(Tcp.Receive(wire.bytes, 9), tid, code)
  }

  /** A decodable reply cannot make the client panic whatever the size of the buffer it is read into. */
  lemma DecodableBuffer(bytes: seq<byte>, size: nat, tid: u16, code: byte)
    requires size > 8 && Decodable(Tcp.Replies(bytes), tid, code)
    ensures KnownException(Tcp.Receive(bytes, size), tid, code)
  {
    var a, b := Tcp.Receive(bytes, 9), Tcp.Receive(bytes, size);
    assert a[0] == b[0] && a[1] == b[1] && a[2] == b[2] && a[3] == b[3];
    assert a[7] == b[7] && a[8] == b[8];
  }

  /** `validate_response_header`: same transaction id and protocol 0. */
  function ValidateResponseHeader(req: Tcp.Header, resp: Tcp.Header): (r: Result<(), ModbusError>)
    ensures r.Ok? <==> req.tid == resp.tid && resp.pid == Tcp.ProtocolTcp
    ensures r.Err? ==> r.error == InvalidResponseError
  {
    if req.tid != resp.tid || resp.pid != Tcp.ProtocolTcp then Err(InvalidResponseError) else Ok(())
  }

  /**
   * `validate_response_code`: as in the newer generation, except that an
   * exception byte outside 1..11 makes `unwrap` panic, so it is excluded.
   */
  function ValidateResponseCode(req: seq<byte>, resp: seq<byte>): (r: Result<(), ModbusError>)
    requires |req| > Tcp.HeaderSize && req[7] < 0x80
    requires |resp| > 8
    requires resp[7] == req[7] + 0x80 ==> 0x01 <= resp[8] <= 0x0B
    ensures r.Ok? <==> resp[7] == req[7]
    ensures r.Err? && r.error.ModbusException? <==> resp[7] == req[7] + 0x80
    ensures r.Err? && r.error.ModbusException? ==> ExceptionByte(r.error.code) == resp[8]
    ensures r.Err? && !r.error.ModbusException? ==> r.error == InvalidResponseError
  {
    if req[7] + 0x80 == resp[7] then
      Err(ModbusException(ExceptionFromByte(resp[8]).value))
    else if req[7] != resp[7] then Err(InvalidResponseError)
    else Ok(())
  }

  /** `get_reply_data`: byte count and length must fit the expected payload, or the data is invalid. */
  function GetReplyData(reply: seq<byte>, expected: nat): (r: Result<seq<byte>, ModbusError>)
    requires |reply| > 8
    ensures r.Ok? <==> reply[8] == expected && |reply| == Tcp.HeaderSize + 2 + expected
    ensures r.Ok? ==> r.value == reply[Tcp.HeaderSize + 2..] && |r.value| == expected
    ensures r.Err? ==> r.error == InvalidDataError
  {
    if reply[8] != expected || |reply| != Tcp.HeaderSize + expected + 2 then Err(InvalidDataError)
    else Ok(reply[Tcp.HeaderSize + 2..])
  }

  /**
   * How the reply to a sent read decides its result: an I/O error exactly
   * when the socket fails, success exactly when the reply is accepted, a
   * device exception carrying the reply's code exactly when it refuses;
   * otherwise a wrong byte count is invalid data and anything else an
   * invalid response.
   */
  predicate ReadAnswered<T>(result: Result<T, ModbusError>, wire: Tcp.Wire, tid: u16, code: byte, expected: nat)
  {
    && (result == Err(IoError) <==> !wire.Replies?)
    && (result.Ok? <==> Tcp.ReadAccepted(wire, tid, code, expected))
    && (result.Err? && result.error.ModbusException? <==> Tcp.ReadRefused(wire, tid, code, expected))
    && (result.Err? && result.error.ModbusException? ==>
          wire.Replies? && ExceptionByte(result.error.code) == Tcp.ExceptionAt(wire.bytes, Tcp.HeaderSize + 2 + expected))
    && (wire.Replies? && result.Err? && !result.error.ModbusException? ==>
          result.error == ReadRejection(Tcp.Receive(wire.bytes, Tcp.HeaderSize + 2 + expected), tid, code, expected))
  }

  /** The error of a read reply that is neither accepted nor a device exception. */
  function ReadRejection(reply: seq<byte>, tid: u16, code: byte, expected: nat): (e: ModbusError)
    ensures e == InvalidDataError || e == InvalidResponseError
  {
    if Tcp.WrongByteCount(reply, tid, code, expected) then InvalidDataError else InvalidResponseError
  }

  /**
   * As `ReadAnswered`, for the 12-byte acknowledgement of a sent write, which
   * has no byte count to check: every other rejection is an invalid response.
   */
  predicate WriteAnswered(result: Result<(), ModbusError>, wire: Tcp.Wire, tid: u16, code: byte)
  {
    && (result == Err(IoError) <==> !wire.Replies?)
    && (result.Ok? <==> Tcp.WriteAccepted(wire, tid, code))
    && (result.Err? && result.error.ModbusException? <==> Tcp.WriteRefused(wire, tid, code))
    && (result.Err? && result.error.ModbusException? ==>
          wire.Replies? && ExceptionByte(result.error.code) == Tcp.ExceptionAt(wire.bytes, Tcp.AckSize))
    && (wire.Replies? && result.Err? && !result.error.ModbusException? ==> result.error == InvalidResponseError)
  }

  /** The reply half of `read`. */
  function ReadReply(header: Tcp.Header, request: seq<byte>, reply: seq<byte>, expected: nat): (r: Result<seq<byte>, ModbusError>)
    requires |request| > Tcp.HeaderSize && request[7] < 0x80
    requires |reply| == Tcp.HeaderSize + 2 + expected
    requires header.pid == Tcp.ProtocolTcp
    requires KnownException(reply, header.tid, request[7])
    ensures r.Ok? <==> Tcp.AnswersRead(reply, header.tid, request[7], expected)
    ensures r.Ok? ==> r.value == reply[Tcp.HeaderSize + 2..]
    ensures r.Err? && r.error.ModbusException? <==> Tcp.Refuses(reply, header.tid, request[7])
    ensures r.Err? && r.error.ModbusException? ==> ExceptionByte(r.error.code) == reply[8]
    ensures r.Err? && !r.error.ModbusException? ==> r.error == ReadRejection(reply, header.tid, request[7], expected)
  {
    var resp := Tcp.Unpack(reply[..Tcp.HeaderSize]).value;
    assert resp.tid == Word(reply[0], reply[1]) && resp.pid == Word(reply[2], reply[3]);
    var _ :- ValidateResponseHeader(header, resp);
    assert Tcp.ForTransaction(reply, header.tid);
    var _ :- ValidateResponseCode(request, reply);
    assert reply[7] == request[7];
    GetReplyData(reply, expected)
  }

  /** The receiving side of `read`: socket failures are I/O errors, a reply is checked. */
  function ReadAnswer(header: Tcp.Header, request: seq<byte>, wire: Tcp.Wire, expected: nat): (r: Result<seq<byte>, ModbusError>)
    requires |request| > Tcp.HeaderSize && request[7] < 0x80
    requires header.pid == Tcp.ProtocolTcp
    requires Decodable(wire, header.tid, request[7])
    ensures ReadAnswered(r, wire, header.tid, request[7], expected)
    ensures r.Ok? ==> wire.Replies? && r.value == Tcp.Payload(wire.bytes, expected)
  {
    match wire
    case Replies(bytes) =>
      DecodableBuffer(bytes, Tcp.HeaderSize + 2 + expected, header.tid, request[7]);
      ReadReply(header, request, Tcp.Receive(bytes, Tcp.HeaderSize + 2 + expected), expected)
    case _ => Err(IoError)
  }

  /** The sending half of `read`, once the count check has passed. */
  function ReadSent(c: Tcp.Transport, fun: Function, wire: Tcp.Wire): (r: Tcp.Exchange<seq<byte>, ModbusError>)
    requires IsRead(fun) && 1 <= fun.count <= MaxReadCount
    requires Decodable(wire, Tcp.NewTid(c).tid, Code(fun))
    ensures r.next == Tcp.NewTid(c) && r.sent.Some? && Tcp.Stamped(r.sent.value, r.next.tid, c.uid)
    ensures Tcp.FixedFrame(r.sent.value, Code(fun), fun.addr, fun.count)
    ensures ReadAnswered(r.result, wire, r.next.tid, Code(fun), Tcp.ExpectedBytes(fun))
    ensures r.result.Ok? ==> wire.Replies? && r.result.value == Tcp.Payload(wire.bytes, Tcp.ExpectedBytes(fun))
  {
    var header := HeaderNew(c, Tcp.HeaderSize + 6);
    assert header.tid == Tcp.NewTid(c).tid && header.uid == c.uid && header.len == 6;
    var request := Tcp.ReadRequest(header, fun);
    var answer := ReadAnswer(header, request, wire, Tcp.ExpectedBytes(fun));
    assert ReadAnswered(answer, wire, header.tid, Code(fun), Tcp.ExpectedBytes(fun));
    Tcp.Exchange(answer, Tcp.NewTid(c), Some(request))
  }

  /**
   * `read`: a function that is not a read panics; a count outside 1..125 is
   * invalid data, found before a transaction id is consumed.
   */
  function Read(c: Tcp.Transport, fun: Function, wire: Tcp.Wire): (r: Tcp.Exchange<seq<byte>, ModbusError>)
    requires IsRead(fun)
    requires 1 <= fun.count <= MaxReadCount ==>
      Decodable(wire, Tcp.NewTid(c).tid, Code(fun))
    ensures Tcp.Sequenced(c, r.next, r.sent)
    ensures r.sent.Some? <==> 1 <= fun.count <= MaxReadCount
    ensures r.sent.None? ==> r.result == Err(InvalidDataError)
    ensures r.sent.Some? ==> Tcp.FixedFrame(r.sent.value, Code(fun), fun.addr, fun.count)
    ensures r.sent.Some? ==> ReadAnswered(r.result, wire, r.next.tid, Code(fun), Tcp.ExpectedBytes(fun))
    ensures r.result.Ok? ==> wire.Replies? && r.result.value == Tcp.Payload(wire.bytes, Tcp.ExpectedBytes(fun))
  {
    if fun.count < 1 || fun.count > MaxReadCount then Tcp.Exchange(Err(InvalidDataError), c, None)
    else ReadSent(c, fun, wire)
  }

  /** The reply half of `write`. */
  function WriteReply(header: Tcp.Header, frame: seq<byte>, reply: seq<byte>): (r: Result<(), ModbusError>)
    requires |frame| > Tcp.HeaderSize && frame[7] < 0x80
    requires |reply| == Tcp.AckSize
    requires header.pid == Tcp.ProtocolTcp
    requires KnownException(reply, header.tid, frame[7])
    ensures r.Ok? <==> Tcp.AnswersWrite(reply, header.tid, frame[7])
    ensures r.Err? && r.error.ModbusException? <==> Tcp.Refuses(reply, header.tid, frame[7])
    ensures r.Err? && r.error.ModbusException? ==> ExceptionByte(r.error.code) == reply[8]
    ensures r.Err? && !r.error.ModbusException? ==> r.error == InvalidResponseError
  {
    var resp := Tcp.Unpack(reply[..Tcp.HeaderSize]).value;
    assert resp.tid == Word(reply[0], reply[1]) && resp.pid == Word(reply[2], reply[3]);
    var _ :- ValidateResponseHeader(header, resp);
    assert Tcp.ForTransaction(reply, header.tid);
    ValidateResponseCode(frame, reply)
  }

  /** The receiving side of `write`. */
  function WriteAnswer(header: Tcp.Header, frame: seq<byte>, wire: Tcp.Wire): (r: Result<(), ModbusError>)
    requires |frame| > Tcp.HeaderSize && frame[7] < 0x80
    requires header.pid == Tcp.ProtocolTcp
    requires Decodable(wire, header.tid, frame[7])
    ensures WriteAnswered(r, wire, header.tid, frame[7])
  {
    match wire
    case Replies(bytes) =>
      DecodableBuffer(bytes, Tcp.AckSize, header.tid, frame[7]);
      WriteReply(header, frame, Tcp.Receive(bytes, Tcp.AckSize))
    case _ => Err(IoError)
  }

  /** The sending half of `write`, once the size check has passed. */
  function WriteSent(c: Tcp.Transport, buff: seq<byte>, wire: Tcp.Wire): (r: Tcp.Exchange<(), ModbusError>)
    requires Tcp.HeaderSize < |buff| <= MaxWriteCount && buff[7] < 0x80
    requires Decodable(wire, Tcp.NewTid(c).tid, buff[7])
    ensures r.next == Tcp.NewTid(c) && r.sent.Some? && Tcp.Stamped(r.sent.value, r.next.tid, c.uid)
    ensures Tcp.SameBody(r.sent.value, buff)
    ensures WriteAnswered(r.result, wire, r.next.tid, buff[7])
  {
    var header := HeaderNew(c, |buff| + 1);
    assert header.tid == Tcp.NewTid(c).tid && header.uid == c.uid && header.len == |buff| - 6;
    var frame := Tcp.StampOver(header, buff);
    var answer := WriteAnswer(header, frame, wire);
    assert WriteAnswered(answer, wire, header.tid, buff[7]);
    Tcp.Exchange(answer, Tcp.NewTid(c), Some(frame))
  }

  /**
   * `write`: an empty frame or one longer than 121 bytes, header included, is
   * invalid data, found before a transaction id is consumed. A frame of one to
   * seven bytes would make the function-code check index past its end; the
   * callers never build one.
   */
  function Write(c: Tcp.Transport, buff: seq<byte>, wire: Tcp.Wire): (r: Tcp.Exchange<(), ModbusError>)
    requires |buff| == 0 || (|buff| > Tcp.HeaderSize && buff[7] < 0x80)
    requires 0 < |buff| <= MaxWriteCount ==> Decodable(wire, Tcp.NewTid(c).tid, buff[7])
    ensures Tcp.Sequenced(c, r.next, r.sent)
    ensures r.sent.Some? <==> 0 < |buff| <= MaxWriteCount
    ensures r.sent.None? ==> r.result == Err(InvalidDataError)
    ensures r.sent.Some? ==> Tcp.SameBody(r.sent.value, buff)
    ensures r.sent.Some? ==> WriteAnswered(r.result, wire, r.next.tid, buff[7])
  {
    if |buff| < 1 || |buff| > MaxWriteCount then Tcp.Exchange(Err(InvalidDataError), c, None)
    else WriteSent(c, buff, wire)
  }

  /** `write_single`: a function other than the two single writes panics; the 12-byte frame always fits. */
  function WriteSingle(c: Tcp.Transport, fun: Function, wire: Tcp.Wire): (r: Tcp.Exchange<(), ModbusError>)
    requires IsWriteSingle(fun)
    requires Decodable(wire, Tcp.NewTid(c).tid, Code(fun))
    ensures Tcp.Sequenced(c, r.next, r.sent) && r.sent.Some?
    ensures Tcp.FixedFrame(r.sent.value, Code(fun), fun.addr, fun.value)
    ensures WriteAnswered(r.result, wire, r.next.tid, Code(fun))
  {
    var buff := Tcp.SingleBuffer(fun);
    var r := Write(c, buff, wire);
    assert r.sent.Some?;
    Tcp.FixedFrameKept(r.sent.value, buff, Code(fun), fun.addr, fun.value);
    r
  }

  /**
   * `write_multiple`: a function other than the two multiple writes panics;
   * at most 108 payload bytes fit, so the byte count is never truncated on a
   * frame that is sent.
   */
  function WriteMultiple(c: Tcp.Transport, fun: Function, wire: Tcp.Wire): (r: Tcp.Exchange<(), ModbusError>)
    requires IsWriteMultiple(fun)
    requires 13 + |fun.values| <= MaxWriteCount ==> Decodable(wire, Tcp.NewTid(c).tid, Code(fun))
    ensures Tcp.Sequenced(c, r.next, r.sent)
    ensures r.sent.Some? <==> |fun.values| <= 108
    ensures r.sent.None? ==> r.result == Err(InvalidDataError)
    ensures r.sent.Some? ==> Tcp.MultipleFrame(r.sent.value, Code(fun), fun.addr, fun.count, fun.values)
    ensures r.sent.Some? ==> WriteAnswered(r.result, wire, r.next.tid, Code(fun))
  {
    var buff := Tcp.MultipleBuffer(fun);
    var r := Write(c, buff, wire);
    if r.sent.Some? then
      Tcp.MultipleFrameKept(r.sent.value, buff, Code(fun), fun.addr, fun.count, fun.values);
      r
    else r
  }

  /** `pack_bytes` of this generation: the same joining, with an odd length reported as plain invalid data. */
  function PackBytes(bytes: seq<byte>): (r: Result<seq<u16>, ModbusError>)
    ensures r.Err? <==> |bytes| % 2 != 0
    ensures r.Err? ==> r.error == InvalidDataError
    ensures r.Ok? ==> WordsOf(r.value, bytes)
  {
    match Binary.PackBytes(bytes)
    case Ok(words) => Ok(words)
    case Err(_) => Err(InvalidDataError)
  }

  /** Both generations join the same words and reject the same inputs. */
  lemma PackBytesAgrees(bytes: seq<byte>)
    ensures PackBytes(bytes).Ok? <==> Binary.PackBytes(bytes).Ok?
    ensures PackBytes(bytes).Ok? ==> PackBytes(bytes).value == Binary.PackBytes(bytes).value
  {
  }

  /** The odd-length examples of the `pack_bytes` unit tests. */
  lemma PackBytesOddFails()
    ensures PackBytes([1]) == Err(InvalidDataError)
    ensures PackBytes([1, 2, 3]) == Err(InvalidDataError)
  {
  }
}
