/*******************************************************************************
 *  The earliest transaction-id counter and header of the library: a context
 *  holding only the counter, a header that carries its function code and a
 *  zero length, and a two-entry function-code table.
 *******************************************************************************/

module TcpProtocol {
  import M = Modbus
  import Tcp

  const ProtocolModbusTcp: M.u16 := 0x0000

  /** The function codes this generation knows. */
  datatype FunctionCode = ReadCoils | ReadDiscreteInputs

  /** `fun as u8`: the enum discriminant. */
  function CodeValue(f: FunctionCode): (b: M.byte)
    ensures b == 0x01 <==> f == ReadCoils
    ensures b == 0x02 <==> f == ReadDiscreteInputs
  {
    match f
    case ReadCoils => 0x01
    case ReadDiscreteInputs => 0x02
  }

  /** `FunctionCode::from_u8`, derived by `enum_from_primitive`. */
  function CodeFromByte(b: M.byte): (r: M.Option<FunctionCode>)
    ensures r.Some? <==> b == 0x01 || b == 0x02
    ensures r.Some? ==> CodeValue(r.value) == b
  {
    if b == 0x01 then M.Some(ReadCoils)
    else if b == 0x02 then M.Some(ReadDiscreteInputs)
    else M.None
  }

  /** Every function code survives the trip to its byte and back. */
  lemma CodeRoundTrip(f: FunctionCode)
    ensures CodeFromByte(CodeValue(f)) == M.Some(f)
  {
  }

  /** The context: only the transaction counter. */
  datatype Ctx = Ctx(tid: M.u16)

  /** `Ctx::new`. */
  function NewCtx(): (c: Ctx)
    ensures c.tid == 0
  {
    Ctx(0)
  }

  /** `new_tid`: increment below `u16::MAX`, wrap to 0 at it; the new counter is the id handed out. */
  function NewTid(c: Ctx): (c': Ctx)
    ensures c'.tid == M.WrappingInc(c.tid)
  {
    if c.tid < 0xFFFF then Ctx(c.tid + 1) else Ctx(0)
  }

  /** The explicit wrap agrees with the newer transport's `wrapping_add(1)` counter. */
  lemma NewTidAgrees(c: Ctx, uid: M.byte)
    ensures NewTid(c).tid == Tcp.NewTid(Tcp.Transport(c.tid, uid)).tid
  {
  }

  /** A header of this generation: it records the function code and leaves the length at 0. */
  datatype Header = Header(tid: M.u16, pid: M.u16, len: M.u16, uid: M.byte, fun: M.byte)

  /** What `Header::new` leaves behind: the advanced context and the header. */
  datatype Created = Created(ctx: Ctx, header: Header)

  /** `Header::new`: consume a transaction id for a header with protocol 0, length 0, the unit id and the code. */
  function HeaderNew(c: Ctx, uid: M.byte, fun: FunctionCode): (r: Created)
    ensures r.ctx.tid == M.WrappingInc(c.tid)
    ensures r.header.tid == r.ctx.tid
    ensures r.header.pid == ProtocolModbusTcp && r.header.len == 0
    ensures r.header.uid == uid && CodeFromByte(r.header.fun) == M.Some(fun)
  {
    var next := NewTid(c);
    Created(next, Header(next.tid, ProtocolModbusTcp, 0, uid, CodeValue(fun)))
  }

  /** The context after `n` headers. */
  function AfterHeaders(c: Ctx, n: nat): Ctx
  {
    if n == 0 then c else HeaderNew(AfterHeaders(c, n - 1), 0, ReadCoils).ctx
  }

  /** A fresh context hands out 1, 2, ... : after `n` headers its counter is `n` modulo 2^16. */
  lemma {:induction false} HeadersCount(n: nat)
    ensures AfterHeaders(NewCtx(), n).tid == n % 0x1_0000
  {
    if n > 0 {
      HeadersCount(n - 1);
    }
  }

  /** The `header_tid_creation` unit test: ids 1 and 2 from a new context, and 0 after `u16::MAX`. */
  lemma HeaderTidCreation()
    ensures HeaderNew(NewCtx(), 0, ReadCoils).header.tid == 1
    ensures HeaderNew(HeaderNew(NewCtx(), 0, ReadCoils).ctx, 0, ReadCoils).header.tid == 2
    ensures HeaderNew(Ctx(0xFFFF), 0, ReadCoils).header.tid == 0
  {
  }
}
