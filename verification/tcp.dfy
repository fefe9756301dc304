/*******************************************************************************
 *  The Modbus TCP frame layer and request/response exchanges of the current
 *  API generation: the 7-byte MBAP header (section 3.1.3 of the MODBUS
 *  Messaging on TCP/IP Implementation Guide V1.0b), the wrapping transaction
 *  counter, request framing, response validation and reply-size checks.
 *
 *  The socket is replaced by a `Wire`: what the device sends back, or a
 *  failure of either direction. An exchange is a pure function from the
 *  transport state, the request and the wire to the result, the next
 *  transport state and the frame handed to the socket.
 *******************************************************************************/

module Tcp {
  import opened Modbus
  import opened Binary

  const ProtocolTcp: u16 := 0x0000
  const DefaultPort: u16 := 502
  const HeaderSize: nat := 7
  /** The largest Modbus TCP frame (section 4.1 of the MODBUS Application Protocol Specification V1.1b3). */
  const MaxPacketSize: nat := 260
  const DefaultUid: byte := 1
  /** Size of the buffer a write exchange reads its acknowledgement into. */
  const AckSize: nat := 12

  /** The MBAP header: transaction id, protocol id, length of what follows the length field, unit id. */
  datatype Header = Header(tid: u16, pid: u16, len: u16, uid: byte)

  /** `Header::pack`: tid, pid and len big-endian, then the unit id. */
  function Pack(h: Header): (buff: seq<byte>)
    ensures |buff| == HeaderSize
    ensures Word(buff[0], buff[1]) == h.tid && Word(buff[2], buff[3]) == h.pid
    ensures Word(buff[4], buff[5]) == h.len && buff[6] == h.uid
  {
    Be16(h.tid) + Be16(h.pid) + Be16(h.len) + [h.uid]
  }

  /** `Header::unpack`: a buffer shorter than a header runs out of bytes, an I/O error. */
  function Unpack(buff: seq<byte>): (r: Result<Header, Error>)
    ensures r.Err? <==> |buff| < HeaderSize
    ensures r.Err? ==> r.error == Io
  {
    if |buff| < HeaderSize then Err(Io)
    else Ok(Header(Word(buff[0], buff[1]), Word(buff[2], buff[3]), Word(buff[4], buff[5]), buff[6]))
  }

  /** Every header survives packing and unpacking. */
  lemma UnpackPack(h: Header)
    ensures Unpack(Pack(h)) == Ok(h)
  {
  }

  /** Unpacking reads exactly the first seven bytes: packing the result gives them back. */
  lemma PackUnpack(buff: seq<byte>)
    requires |buff| >= HeaderSize
    ensures Pack(Unpack(buff).value) == buff[..HeaderSize]
  {
    WordSplitsBack(buff[0], buff[1]);
    WordSplitsBack(buff[2], buff[3]);
    WordSplitsBack(buff[4], buff[5]);
  }

  /** The `serialize_header` unit test. */
  lemma SerializeHeaderExample()
    ensures Pack(Header(12816, 3930, 99, 68)) == [50, 16, 15, 90, 0, 99, 68]
    ensures Unpack([50, 16, 15, 90, 0, 99, 68]) == Ok(Header(12816, 3930, 99, 68))
  {
  }

  /** The per-connection state of a `Transport`; the TCP stream itself is not modelled. */
  datatype Transport = Transport(tid: u16, uid: byte)

  /** A freshly connected transport: counter 0 and the configured unit id (1 unless configured). */
  function Connect(uid: byte): (t: Transport)
    ensures t.tid == 0 && t.uid == uid
  {
    Transport(0, uid)
  }

  /** `new_tid`: the counter moves to its wrapping successor, which is the new transaction id. */
  function NewTid(t: Transport): (t': Transport)
    ensures t'.uid == t.uid
    ensures t.tid < 0xFFFF ==> t'.tid == t.tid + 1
    ensures t.tid == 0xFFFF ==> t'.tid == 0
  {
    t.(tid := WrappingInc(t.tid))
  }

  /** The transport after issuing `n` headers. */
  function AfterHeaders(t: Transport, n: nat): Transport
  {
    if n == 0 then t else NewTid(AfterHeaders(t, n - 1))
  }

  /** The transaction id counts requests modulo 2^16. */
  lemma {:induction false} TidCountsRequests(t: Transport, n: nat)
    ensures AfterHeaders(t, n).tid == (t.tid + n) % 0x1_0000
    ensures AfterHeaders(t, n).uid == t.uid
  {
    if n > 0 {
      TidCountsRequests(t, n - 1);
    }
  }

  /** A transaction id comes back only after 65536 requests, and then it does. */
  lemma TidPeriod(t: Transport, m: nat, n: nat)
    requires m < n
    ensures AfterHeaders(t, m).tid == AfterHeaders(t, n).tid <==> (n - m) % 0x1_0000 == 0
  {
    TidCountsRequests(t, m);
    TidCountsRequests(t, n);
  }

  /**
   * `Header::new`: the header of the next transaction, whose id is the
   * counter's successor (the transport itself advances by `NewTid`), with
   * protocol 0, the unit id, and a length field of `len - 7`: `len` counts the
   * whole frame plus one, so the field counts the bytes after itself.
   */
  function HeaderNew(t: Transport, len: u16): (h: Header)
    requires len >= HeaderSize
    ensures h.tid == NewTid(t).tid && h.pid == ProtocolTcp && h.uid == t.uid
    ensures h.len + HeaderSize == len
  {
    Header(NewTid(t).tid, ProtocolTcp, len - HeaderSize, t.uid)
  }

  /** What the socket does during one exchange. */
  datatype Wire =
    | Replies(bytes: seq<byte>)  // the request is written and these bytes come back
    | SendFails                  // `write_all` fails
    | ReceiveFails               // `read` fails

  /**
   * The reply buffer: `size` zero bytes overwritten by what the device sent,
   * as `stream.read` fills a `vec![0; size]`. Bytes beyond `size` are not read.
   */
  function Receive(bytes: seq<byte>, size: nat): (buf: seq<byte>)
    ensures |buf| == size
    ensures forall i :: 0 <= i < size ==> buf[i] == if i < |bytes| then bytes[i] else 0
  {
    seq(size, i requires 0 <= i < size => if i < |bytes| then bytes[i] else 0)
  }

  /** A reply of at least nine bytes fills the first nine bytes of any reply buffer of nine bytes or more. */
  lemma ReceiveHead(reply: seq<byte>, size: nat)
    requires |reply| > 8 && size > 8
    ensures forall i :: 0 <= i <= 8 ==> Receive(reply, size)[i] == reply[i]
  {
  }

  /** The placeholder a request buffer opens with, overwritten by the header before sending. */
  const Placeholder: seq<byte> := [0, 0, 0, 0, 0, 0, 0]

  /** One exchange: its result, the transport afterwards and the frame handed to the socket, if any. */
  datatype Exchange<+T, +E> = Exchange(result: Result<T, E>, next: Transport, sent: Option<seq<byte>>)

  /**
   * `frame` fits a Modbus TCP frame and opens with the header of transaction
   * `tid` for unit `uid`: protocol 0 and a length field that counts the bytes
   * after it (the unit id, the function code and the data).
   */
  predicate Stamped(frame: seq<byte>, tid: u16, uid: byte)
  {
    && HeaderSize < |frame| <= MaxPacketSize
    && Word(frame[0], frame[1]) == tid
    && Word(frame[2], frame[3]) == ProtocolTcp
    && Word(frame[4], frame[5]) == |frame| - 6
    && frame[6] == uid
  }

  /**
   * The transaction counter advances exactly when a frame goes to the socket,
   * and that frame carries the new id and the transport's unit id.
   */
  predicate Sequenced(t: Transport, next: Transport, sent: Option<seq<byte>>)
  {
    && (sent.None? ==> next == t)
    && (sent.Some? ==> next == NewTid(t) && Stamped(sent.value, next.tid, t.uid))
  }

  /** The header of a stamped frame, read back, names its transaction and unit and counts the bytes after the length field. */
  lemma StampedLength(frame: seq<byte>, tid: u16, uid: byte)
    requires Stamped(frame, tid, uid)
    ensures Unpack(frame) == Ok(Header(tid, ProtocolTcp, |frame| - 6, uid))
  {
  }

  /** `validate_response_header`: same transaction id, protocol 0; unit id and length are not compared. */
  function ValidateResponseHeader(req: Header, resp: Header): (r: Result<(), Error>)
    ensures r.Ok? <==> req.tid == resp.tid && resp.pid == ProtocolTcp
    ensures r.Err? ==> r.error == InvalidResponse
  {
    if req.tid != resp.tid || resp.pid != ProtocolTcp then Err(InvalidResponse) else Ok(())
  }

  /**
   * `validate_response_code`: the request's function code echoed is success;
   * the code plus 0x80 is a device exception, decoded from the next byte;
   * anything else is an invalid response. Function codes stay below 0x80, so
   * the addition cannot overflow; byte 8 is read only for an exception.
   */
  function ValidateResponseCode(req: seq<byte>, resp: seq<byte>): (r: Result<(), Error>)
    requires |req| > HeaderSize && req[HeaderSize] < 0x80
    requires |resp| > HeaderSize
    requires resp[7] == req[7] + 0x80 ==> |resp| > 8
    ensures r.Ok? <==> resp[7] == req[7]
    ensures r.Err? && r.error.Exception? <==> resp[7] == req[7] + 0x80 && 0x01 <= resp[8] <= 0x0B
    ensures r.Err? && r.error.Exception? ==> ExceptionByte(r.error.code) == resp[8]
    ensures r.Err? && !r.error.Exception? ==> r.error == InvalidResponse
  {
    if req[7] + 0x80 == resp[7] then
      match ExceptionFromByte(resp[8])
      case Some(code) => Err(Exception(code))
      case None => Err(InvalidResponse)
    else if req[7] == resp[7] then Ok(())
    else Err(InvalidResponse)
  }

  /** `get_reply_data`: the byte-count field and the total length must both fit the expected payload. */
  function GetReplyData(reply: seq<byte>, expected: nat): (r: Result<seq<byte>, Error>)
    requires |reply| > 8
    ensures r.Ok? <==> reply[8] == expected && |reply| == HeaderSize + 2 + expected
    ensures r.Ok? ==> r.value == reply[HeaderSize + 2..] && |r.value| == expected
    ensures r.Err? ==> r.error == InvalidData(UnexpectedReplySize)
  {
    if reply[8] != expected || |reply| != HeaderSize + expected + 2 then
      Err(InvalidData(UnexpectedReplySize))
    else
      Ok(reply[HeaderSize + 2..])
  }

  /** Payload bytes a read expects: one bit per coil or input, two bytes per register. */
  function ExpectedBytes(fun: Function): (n: nat)
    requires IsRead(fun)
    ensures fun.ReadCoils? || fun.ReadDiscreteInputs? ==> n == PackedSize(fun.count)
    ensures fun.ReadHoldingRegisters? || fun.ReadInputRegisters? ==> n == 2 * fun.count
  {
    if fun.ReadCoils? || fun.ReadDiscreteInputs? then PackedSize(fun.count) else 2 * fun.count
  }

  /** The reply's header names transaction `tid` under protocol 0, the two fields the header check compares. */
  predicate ForTransaction(reply: seq<byte>, tid: u16)
  {
    && |reply| >= 4
    && Word(reply[0], reply[1]) == tid
    && Word(reply[2], reply[3]) == ProtocolTcp
  }

  /**
   * A read reply the validators accept: transaction `tid`, protocol 0, the
   * request's function code, and a byte count equal to the expected payload,
   * which fills the rest of the reply exactly.
   */
  predicate AnswersRead(reply: seq<byte>, tid: u16, code: byte, expected: nat)
  {
    && |reply| == HeaderSize + 2 + expected
    && ForTransaction(reply, tid)
    && reply[7] == code
    && reply[8] == expected
  }

  /** An acknowledgement the validators accept: transaction `tid`, protocol 0, the request's function code. */
  predicate AnswersWrite(reply: seq<byte>, tid: u16, code: byte)
  {
    && |reply| > HeaderSize
    && ForTransaction(reply, tid)
    && reply[7] == code
  }

  /** The device replies, and the reply buffer of a read expecting `expected` payload bytes is accepted. */
  predicate ReadAccepted(wire: Wire, tid: u16, code: byte, expected: nat)
  {
    wire.Replies? && AnswersRead(Receive(wire.bytes, HeaderSize + 2 + expected), tid, code, expected)
  }

  /** The device replies, and the 12-byte acknowledgement buffer of a write is accepted. */
  predicate WriteAccepted(wire: Wire, tid: u16, code: byte)
  {
    wire.Replies? && AnswersWrite(Receive(wire.bytes, AckSize), tid, code)
  }

  /**
   * A reply the validators turn into a device exception: a matching header,
   * the request's function code plus 0x80, and a known exception code.
   */
  predicate Refuses(reply: seq<byte>, tid: u16, code: byte)
  {
    && |reply| > 8
    && ForTransaction(reply, tid)
    && reply[7] == code + 0x80
    && 0x01 <= reply[8] <= 0x0B
  }

  /**
   * A read reply that passes the header and function-code checks but whose
   * byte count is not the expected payload size.
   */
  predicate WrongByteCount(reply: seq<byte>, tid: u16, code: byte, expected: nat)
  {
    && |reply| > 8
    && ForTransaction(reply, tid)
    && reply[7] == code
    && reply[8] != expected
  }

  /** The device replies to a read with an exception. */
  predicate ReadRefused(wire: Wire, tid: u16, code: byte, expected: nat)
  {
    wire.Replies? && Refuses(Receive(wire.bytes, HeaderSize + 2 + expected), tid, code)
  }

  /** The device replies to a write with an exception. */
  predicate WriteRefused(wire: Wire, tid: u16, code: byte)
  {
    wire.Replies? && Refuses(Receive(wire.bytes, AckSize), tid, code)
  }

  /**
   * How the reply to a sent read decides its result: an I/O error exactly
   * when the socket fails; success exactly when the reply is accepted; a
   * device exception, carrying the reply's exception code, exactly when it
   * refuses; otherwise a wrong byte count is unexpected data and anything
   * else (another transaction, another protocol, another function code, an
   * unknown exception code) an invalid response.
   */
  predicate ReadAnswered<T>(result: Result<T, Error>, wire: Wire, tid: u16, code: byte, expected: nat)
  {
    && (result == Err(Io) <==> !wire.Replies?)
    && (result.Ok? <==> ReadAccepted(wire, tid, code, expected))
    && (result.Err? && result.error.Exception? <==> ReadRefused(wire, tid, code, expected))
    && (result.Err? && result.error.Exception? ==>
          wire.Replies? && ExceptionByte(result.error.code) == ExceptionAt(wire.bytes, HeaderSize + 2 + expected))
    && (wire.Replies? && result.Err? && !result.error.Exception? ==>
          result.error == ReadRejection(Receive(wire.bytes, HeaderSize + 2 + expected), tid, code, expected))
  }

  /** The error of a read reply that is neither accepted nor a device exception. */
  function ReadRejection(reply: seq<byte>, tid: u16, code: byte, expected: nat): (e: Error)
    ensures e == InvalidData(UnexpectedReplySize) || e == InvalidResponse
  {
    if WrongByteCount(reply, tid, code, expected) then InvalidData(UnexpectedReplySize) else InvalidResponse
  }

  /**
   * As `ReadAnswered`, for the acknowledgement of a sent write, which has no
   * byte count to check: every other rejection is an invalid response.
   */
  predicate WriteAnswered(result: Result<(), Error>, wire: Wire, tid: u16, code: byte)
  {
    && (result == Err(Io) <==> !wire.Replies?)
    && (result.Ok? <==> WriteAccepted(wire, tid, code))
    && (result.Err? && result.error.Exception? <==> WriteRefused(wire, tid, code))
    && (result.Err? && result.error.Exception? ==>
          wire.Replies? && ExceptionByte(result.error.code) == ExceptionAt(wire.bytes, AckSize))
    && (wire.Replies? && result.Err? && !result.error.Exception? ==> result.error == InvalidResponse)
  }

  /** The exception code byte of a reply (byte 8 of the reply buffer). */
  function ExceptionAt(bytes: seq<byte>, size: nat): (b: byte)
    requires size > 8
    ensures b == if 8 < |bytes| then bytes[8] else 0
  {
    Receive(bytes, size)[8]
  }

  /** The payload bytes of a read reply buffer sized for `expected` payload bytes. */
  function Payload(bytes: seq<byte>, expected: nat): (data: seq<byte>)
    ensures |data| == expected
    ensures forall i :: 0 <= i < expected ==>
      data[i] == if HeaderSize + 2 + i < |bytes| then bytes[HeaderSize + 2 + i] else 0
  {
    Receive(bytes, HeaderSize + 2 + expected)[HeaderSize + 2..]
  }

  /**
   * A request of twelve bytes: the header, then the function code, the
   * address and a quantity or value, both big-endian.
   */
  predicate FixedFrame(frame: seq<byte>, code: byte, addr: u16, word: u16)
  {
    && |frame| == 12
    && frame[7] == code
    && Word(frame[8], frame[9]) == addr
    && Word(frame[10], frame[11]) == word
  }

  /**
   * The body of a write-multiple frame after the header: function code,
   * address, quantity, a byte count equal to the payload's length, the payload.
   */
  predicate MultipleFrame(frame: seq<byte>, code: byte, addr: u16, count: u16, payload: seq<byte>)
  {
    && |frame| == 13 + |payload|
    && frame[7] == code
    && Word(frame[8], frame[9]) == addr
    && Word(frame[10], frame[11]) == count
    && frame[12] == |payload|
    && frame[13..] == payload
  }

  /** Two buffers of one length that agree after the header. */
  predicate SameBody(frame: seq<byte>, buff: seq<byte>)
  {
    && HeaderSize < |frame| == |buff|
    && frame[HeaderSize..] == buff[HeaderSize..]
  }

  /** Agreeing after the header means agreeing on every byte after it. */
  lemma SameBodyBytes(a: seq<byte>, b: seq<byte>)
    requires SameBody(a, b)
    ensures forall k :: HeaderSize <= k < |a| ==> a[k] == b[k]
    ensures |a| >= 13 ==> a[13..] == b[13..]
  {
    forall k | HeaderSize <= k < |a|
      ensures a[k] == b[k]
    {
      assert a[k] == a[HeaderSize..][k - HeaderSize];
      assert b[k] == b[HeaderSize..][k - HeaderSize];
    }
    if |a| >= 13 {
      assert a[13..] == a[HeaderSize..][6..];
      assert b[13..] == b[HeaderSize..][6..];
    }
  }

  /** A request body survives a header stamped over the buffer. */
  lemma FixedFrameKept(a: seq<byte>, b: seq<byte>, code: byte, addr: u16, word: u16)
    requires SameBody(a, b) && FixedFrame(b, code, addr, word)
    ensures FixedFrame(a, code, addr, word)
  {
    SameBodyBytes(a, b);
  }

  /** A write-multiple body survives a header stamped over the buffer. */
  lemma MultipleFrameKept(a: seq<byte>, b: seq<byte>, code: byte, addr: u16, count: u16, payload: seq<byte>)
    requires SameBody(a, b) && MultipleFrame(b, code, addr, count, payload)
    ensures MultipleFrame(a, code, addr, count, payload)
  {
    SameBodyBytes(a, b);
  }

  /**
   * A packed header whose length field counts `body` plus the unit id,
   * followed by `body`, is a stamped frame.
   */
  lemma PackedFrameStamped(h: Header, body: seq<byte>)
    requires h.pid == ProtocolTcp && h.len == |body| + 1
    requires 0 < |body| && HeaderSize + |body| <= MaxPacketSize
    ensures |Pack(h) + body| == HeaderSize + |body|
    ensures (Pack(h) + body)[HeaderSize..] == body
    ensures Stamped(Pack(h) + body, h.tid, h.uid)
  {
    var p := Pack(h);
    var frame := p + body;
    assert Word(p[0], p[1]) == h.tid && Word(p[2], p[3]) == 0 && Word(p[4], p[5]) == h.len && p[6] == h.uid;
    assert frame[..HeaderSize] == p;
    assert frame[0] == p[0] && frame[1] == p[1] && frame[2] == p[2];
    assert frame[3] == p[3] && frame[4] == p[4] && frame[5] == p[5];
    assert frame[6] == p[6];
    assert |frame| - 6 == h.len;
  }

  /**
   * The reply half of `read`: parse and match the header, check the function
   * code, extract the payload. The reply buffer always holds a whole header,
   * so parsing it cannot fail.
   */
  function ReadReply(header: Header, request: seq<byte>, reply: seq<byte>, expected: nat): (r: Result<seq<byte>, Error>)
    requires |request| > HeaderSize && request[HeaderSize] < 0x80
    requires |reply| == HeaderSize + 2 + expected
    requires header.pid == ProtocolTcp
    ensures r.Ok? <==> AnswersRead(reply, header.tid, request[HeaderSize], expected)
    ensures r.Ok? ==> r.value == reply[HeaderSize + 2..]
    ensures r.Err? && r.error.Exception? <==> Refuses(reply, header.tid, request[HeaderSize])
    ensures r.Err? && r.error.Exception? ==> ExceptionByte(r.error.code) == reply[8]
    ensures r.Err? && !r.error.Exception? ==> r.error == ReadRejection(reply, header.tid, request[HeaderSize], expected)
  {
    var resp := Unpack(reply[..HeaderSize]).value;
    var _ :- ValidateResponseHeader(header, resp);
    var _ :- ValidateResponseCode(request, reply);
    GetReplyData(reply, expected)
  }

  /** The receiving side of `read`: a failed send or receive is an I/O error, otherwise the reply is checked. */
  function ReadAnswer(header: Header, request: seq<byte>, wire: Wire, expected: nat): (r: Result<seq<byte>, Error>)
    requires |request| > HeaderSize && request[HeaderSize] < 0x80
    requires header.pid == ProtocolTcp
    ensures ReadAnswered(r, wire, header.tid, request[HeaderSize], expected)
    ensures r.Ok? ==> wire.Replies? && r.value == Payload(wire.bytes, expected)
  {
    match wire
    case Replies(bytes) => ReadReply(header, request, Receive(bytes, HeaderSize + 2 + expected), expected)
    case _ => Err(Io)
  }

  /** The 12-byte read request: header, function code, address, quantity. */
  function ReadRequest(header: Header, fun: Function): (request: seq<byte>)
    requires IsRead(fun) && header.pid == ProtocolTcp && header.len == 6
    ensures FixedFrame(request, Code(fun), fun.addr, fun.count)
    ensures Stamped(request, header.tid, header.uid)
  {
    var body := [Code(fun)] + Be16(fun.addr) + Be16(fun.count);
    PackedFrameStamped(header, body);
    var request := Pack(header) + body;
    assert request[7] == body[0] && request[8] == body[1] && request[9] == body[2];
    assert request[10] == body[3] && request[11] == body[4];
    request
  }

  /** The sending half of `read`, once the checks have passed: stamp a header, send the request, check the reply. */
  function ReadSent(t: Transport, fun: Function, wire: Wire): (r: Exchange<seq<byte>, Error>)
    requires IsRead(fun) && 1 <= fun.count <= MaxPacketSize
    ensures r.next == NewTid(t) && r.sent.Some? && Stamped(r.sent.value, r.next.tid, t.uid)
    ensures FixedFrame(r.sent.value, Code(fun), fun.addr, fun.count)
    ensures ReadAnswered(r.result, wire, r.next.tid, Code(fun), ExpectedBytes(fun))
    ensures r.result.Ok? ==> wire.Replies? && r.result.value == Payload(wire.bytes, ExpectedBytes(fun))
  {
    var header := HeaderNew(t, HeaderSize + 6);
    assert header.tid == NewTid(t).tid && header.uid == t.uid && header.len == 6;
    var request := ReadRequest(header, fun);
    var answer := ReadAnswer(header, request, wire, ExpectedBytes(fun));
    assert ReadAnswered(answer, wire, header.tid, Code(fun), ExpectedBytes(fun));
    Exchange(answer, NewTid(t), Some(request))
  }

  /**
   * `read`: the function, a non-zero count and the count limit are checked
   * before a header is made, so a refused request consumes no transaction id
   * and sends nothing. The limit bounds the count, not the byte count.
   */
  function Read(t: Transport, fun: Function, wire: Wire): (r: Exchange<seq<byte>, Error>)
    ensures Sequenced(t, r.next, r.sent)
    ensures r.sent.Some? <==> IsRead(fun) && 1 <= fun.count <= MaxPacketSize
    ensures !IsRead(fun) ==> r.result == Err(InvalidFunction)
    ensures IsRead(fun) && fun.count == 0 ==> r.result == Err(InvalidData(RecvBufferEmpty))
    ensures IsRead(fun) && fun.count > MaxPacketSize ==> r.result == Err(InvalidData(UnexpectedReplySize))
    ensures r.sent.Some? ==> FixedFrame(r.sent.value, Code(fun), fun.addr, fun.count)
    ensures r.sent.Some? ==> ReadAnswered(r.result, wire, r.next.tid, Code(fun), ExpectedBytes(fun))
    ensures r.result.Ok? ==> wire.Replies? && r.result.value == Payload(wire.bytes, ExpectedBytes(fun))
  {
    if !IsRead(fun) then Exchange(Err(InvalidFunction), t, None)
    else if fun.count < 1 then Exchange(Err(InvalidData(RecvBufferEmpty)), t, None)
    else if fun.count > MaxPacketSize then Exchange(Err(InvalidData(UnexpectedReplySize)), t, None)
    else ReadSent(t, fun, wire)
  }

  /**
   * The reply half of `write`: parse and match the header, check the function
   * code. The 12-byte acknowledgement buffer always holds a whole header.
   */
  function WriteReply(header: Header, frame: seq<byte>, reply: seq<byte>): (r: Result<(), Error>)
    requires |frame| > HeaderSize && frame[HeaderSize] < 0x80
    requires |reply| == AckSize
    requires header.pid == ProtocolTcp
    ensures r.Ok? <==> AnswersWrite(reply, header.tid, frame[HeaderSize])
    ensures r.Err? && r.error.Exception? <==> Refuses(reply, header.tid, frame[HeaderSize])
    ensures r.Err? && r.error.Exception? ==> ExceptionByte(r.error.code) == reply[8]
    ensures r.Err? && !r.error.Exception? ==> r.error == InvalidResponse
  {
    var resp := Unpack(reply).value;
    var _ :- ValidateResponseHeader(header, resp);
    ValidateResponseCode(frame, reply)
  }

  /** The receiving side of `write`. */
  function WriteAnswer(header: Header, frame: seq<byte>, wire: Wire): (r: Result<(), Error>)
    requires |frame| > HeaderSize && frame[HeaderSize] < 0x80
    requires header.pid == ProtocolTcp
    ensures WriteAnswered(r, wire, header.tid, frame[HeaderSize])
  {
    match wire
    case Replies(bytes) => WriteReply(header, frame, Receive(bytes, AckSize))
    case _ => Err(Io)
  }

  /** The packed header written over the first seven bytes of `buff`. */
  function StampOver(header: Header, buff: seq<byte>): (frame: seq<byte>)
    requires HeaderSize < |buff| <= MaxPacketSize
    requires header.pid == ProtocolTcp && header.len == |buff| - 6
    ensures SameBody(frame, buff) && frame[HeaderSize] == buff[HeaderSize]
    ensures Stamped(frame, header.tid, header.uid)
  {
    PackedFrameStamped(header, buff[HeaderSize..]);
    Pack(header) + buff[HeaderSize..]
  }

  /** The sending half of `write`, once the size checks have passed. */
  function WriteSent(t: Transport, buff: seq<byte>, wire: Wire): (r: Exchange<(), Error>)
    requires HeaderSize < |buff| <= MaxPacketSize && buff[HeaderSize] < 0x80
    ensures r.next == NewTid(t) && r.sent.Some? && Stamped(r.sent.value, r.next.tid, t.uid)
    ensures SameBody(r.sent.value, buff)
    ensures WriteAnswered(r.result, wire, r.next.tid, buff[HeaderSize])
  {
    var header := HeaderNew(t, |buff| + 1);
    assert header.tid == NewTid(t).tid && header.uid == t.uid && header.len == |buff| - 6;
    var frame := StampOver(header, buff);
    var answer := WriteAnswer(header, frame, wire);
    assert WriteAnswered(answer, wire, header.tid, buff[HeaderSize]);
    Exchange(answer, NewTid(t), Some(frame))
  }

  /**
   * `write`: sends a request whose first seven bytes are a placeholder for the
   * header, which is stamped over them once the size checks pass; the size
   * limit counts the header. Callers always pass a function code at byte 7.
   */
  function Write(t: Transport, buff: seq<byte>, wire: Wire): (r: Exchange<(), Error>)
    requires |buff| == 0 || (|buff| > HeaderSize && buff[HeaderSize] < 0x80)
    ensures Sequenced(t, r.next, r.sent)
    ensures r.sent.Some? <==> 0 < |buff| <= MaxPacketSize
    ensures |buff| == 0 ==> r.result == Err(InvalidData(SendBufferEmpty))
    ensures |buff| > MaxPacketSize ==> r.result == Err(InvalidData(SendBufferTooBig))
    ensures r.sent.Some? ==> SameBody(r.sent.value, buff)
    ensures r.sent.Some? ==> WriteAnswered(r.result, wire, r.next.tid, buff[HeaderSize])
  {
    if |buff| == 0 then Exchange(Err(InvalidData(SendBufferEmpty)), t, None)
    else if |buff| > MaxPacketSize then Exchange(Err(InvalidData(SendBufferTooBig)), t, None)
    else WriteSent(t, buff, wire)
  }

  /** The placeholder-headed buffer `write_single` builds. */
  function SingleBuffer(fun: Function): (buff: seq<byte>)
    requires IsWriteSingle(fun)
    ensures FixedFrame(buff, Code(fun), fun.addr, fun.value)
  {
    var body := [Code(fun)] + Be16(fun.addr) + Be16(fun.value);
    var buff := Placeholder + body;
    assert buff[7] == body[0] && buff[8] == body[1] && buff[9] == body[2];
    assert buff[10] == body[3] && buff[11] == body[4];
    buff
  }

  /** `write_single`: a 12-byte request carrying the address and one 16-bit value. */
  function WriteSingle(t: Transport, fun: Function, wire: Wire): (r: Exchange<(), Error>)
    ensures Sequenced(t, r.next, r.sent)
    ensures r.sent.Some? <==> IsWriteSingle(fun)
    ensures !IsWriteSingle(fun) ==> r.result == Err(InvalidFunction)
    ensures r.sent.Some? ==> FixedFrame(r.sent.value, Code(fun), fun.addr, fun.value)
    ensures r.sent.Some? ==> WriteAnswered(r.result, wire, r.next.tid, Code(fun))
  {
    if !IsWriteSingle(fun) then Exchange(Err(InvalidFunction), t, None)
    else
      var buff := SingleBuffer(fun);
      var r := Write(t, buff, wire);
      assert r.sent.Some?;
      FixedFrameKept(r.sent.value, buff, Code(fun), fun.addr, fun.value);
      r
  }

  /**
   * The placeholder-headed buffer `write_multiple` builds: address, quantity,
   * the byte count `values.len() as u8` and the payload.
   */
  function MultipleBuffer(fun: Function): (buff: seq<byte>)
    requires IsWriteMultiple(fun)
    ensures |buff| == 13 + |fun.values| && buff[HeaderSize] == Code(fun)
    ensures buff[12] == |fun.values| % 0x100
    ensures |fun.values| < 0x100 ==> MultipleFrame(buff, Code(fun), fun.addr, fun.count, fun.values)
  {
    var fixed := Placeholder + [Code(fun)] + Be16(fun.addr) + Be16(fun.count) + [|fun.values| % 0x100];
    assert |fixed| == 13;
    var buff := fixed + fun.values;
    assert buff[..13] == fixed;
    assert buff[13..] == fun.values;
    assert buff[7] == fixed[7] && buff[8] == fixed[8] && buff[9] == fixed[9];
    assert buff[10] == fixed[10] && buff[11] == fixed[11] && buff[12] == fixed[12];
    buff
  }

  /**
   * `write_multiple`: address, quantity, a one-byte byte count and the payload.
   * A frame that is actually sent is small enough that the byte count's cast
   * never truncates.
   */
  function WriteMultiple(t: Transport, fun: Function, wire: Wire): (r: Exchange<(), Error>)
    ensures Sequenced(t, r.next, r.sent)
    ensures r.sent.Some? <==> IsWriteMultiple(fun) && 13 + |fun.values| <= MaxPacketSize
    ensures !IsWriteMultiple(fun) ==> r.result == Err(InvalidFunction)
    ensures IsWriteMultiple(fun) && 13 + |fun.values| > MaxPacketSize ==>
      r.result == Err(InvalidData(SendBufferTooBig))
    ensures r.sent.Some? ==> MultipleFrame(r.sent.value, Code(fun), fun.addr, fun.count, fun.values)
    ensures r.sent.Some? ==> WriteAnswered(r.result, wire, r.next.tid, Code(fun))
  {
    if !IsWriteMultiple(fun) then Exchange(Err(InvalidFunction), t, None)
    else
      var buff := MultipleBuffer(fun);
      var r := Write(t, buff, wire);
      if r.sent.Some? then
        MultipleFrameKept(r.sent.value, buff, Code(fun), fun.addr, fun.count, fun.values);
        r
      else r
  }

  /** Unpacks a successful read's payload into `count` coils; failures pass through unchanged. */
  function UnpackCoils<E>(x: Exchange<seq<byte>, E>, count: u16): (r: Exchange<seq<Coil>, E>)
    requires x.result.Ok? ==> |x.result.value| == PackedSize(count)
    ensures r.next == x.next && r.sent == x.sent
    ensures r.result.Ok? <==> x.result.Ok?
    ensures r.result.Err? ==> r.result.error == x.result.error
    ensures r.result.Ok? ==> |r.result.value| == count && BitsOf(r.result.value, x.result.value)
  {
    match x.result
    case Ok(bytes) => Exchange(Ok(UnpackBits(bytes, count)), x.next, x.sent)
    case Err(e) => Exchange(Err(e), x.next, x.sent)
  }
}
