# Modbus-TCP client engine, modelled in Dafny

This project models the protocol engine of a Rust Modbus client library (`modbus`, hirschenberger/modbus-rs). The engine builds Modbus-TCP request frames and checks the device's replies. It follows the MODBUS Application Protocol Specification V1.1b3 and section 3.1.3 of the MODBUS Messaging on TCP/IP Implementation Guide V1.0b.

The engine is pure byte framing and validation. The model replaces the TCP socket with a `Wire` parameter: the device replies with given bytes, or the send or the receive fails. Each exchange is a function of the transport state `{tid, uid}`, the request and the wire. It returns the result, the transport afterwards, and the frame handed to the socket, if any.

Modules, following the library's files:

- `Modbus` (`modbus.dfy`): integer widths and `Result`. Also the eight-variant `Function` request and its function codes, coil codes, the exception-code table, the two error types, and the older generation's `From` conversions.
- `Binary` (`binary.dfy`): the payload codec.
  - LSB-first coil packing and unpacking.
  - Big-endian splitting and joining of registers.
- `Tcp` (`tcp.dfy`): the current generation's transport.
  - The 7-byte MBAP header: pack, unpack, `Header::new`.
  - The wrapping transaction counter and the three reply validators.
  - `read` with its receive buffer, and `write`, `write_single`, `write_multiple`.
- `TcpClient` (`tcp_client.dfy`): the `Client` implementation of `tcp.rs` and `set_uid`.
- `TcpProtocol` (`tcp_protocol.dfy`): the earliest counter and header, from `tcp/protocol.rs`.
- `LegacyTcp` and `LegacyClient` (`legacy_tcp.dfy`, `legacy_client.dfy`): the older generation of `tcp/mod.rs`. It has a 125-item read limit and a 121-byte frame limit, its own `ModbusError`, and panics where the current code returns errors.
- `Scoped` (`scoped.dfy`): `ScopedCoil` and `ScopedRegister`. Dropping one reads its coil or register once and writes back a value chosen by its drop function. It covers the drop decision over any client, the drop over the TCP transport, and a device that stores values, used for the documentation examples.

Things every exchange contract states:
- Whether a frame was sent. A transport that sent nothing is unchanged.
- The tid advances by exactly one per sent frame.
- Each sent frame is `Stamped`: its header carries the new transaction id, protocol 0 and the unit id. Its length field equals the number of bytes after that field.
- The request body carries the function code, address and quantity or value. A write-multiple frame's byte-count field equals the payload length.
- The result is `Ok` exactly when the reply buffer passes all three validators.
- The result is a device exception exactly when the reply, under a matching header (the request's transaction id and protocol 0), carries the request's code plus 0x80 and a known exception byte.
- The result is an I/O error exactly when the send or the receive fails. A reply that arrives and is neither accepted nor an exception is an invalid response, except that a read reply with a matching header and code but a wrong byte count is unexpected data.

## Model

| member | source | states |
|---|---|---|
| `Modbus.WrappingInc` | src/tcp.rs:123-128 | The successor of a transaction id is one more, except that 0xFFFF is followed by 0; it never equals its input. |
| `Modbus.Be16` | src/tcp.rs:63-70 | A 16-bit value is written as two bytes, high byte first, that read back as the value. |
| `Modbus.WordSplitsBack` | src/tcp.rs:72-80 | Reading two bytes as a big-endian word and writing that word again gives the same two bytes. |
| `Modbus.WordMatches` | src/tcp.rs:63-80 | Two bytes read back as `w` exactly when they are the big-endian spelling of `w`. |
| `Modbus.AsU16` | src/tcp.rs:388-405 | `len() as u16` keeps a length below 65536 unchanged and never exceeds it. |
| `Modbus.CoilCode` | src/lib.rs:118-125 | On travels as 0xFF00 and Off as 0x0000, and each code identifies its coil. |
| `Modbus.Code` | src/lib.rs:30-41 | The eight requests map to 0x01 to 0x06, 0x0F and 0x10, each code for exactly its variant, all below 0x80. |
| `Modbus.CodeIdentifiesOperation` | src/lib.rs:31-41 | Two requests share a function code exactly when they are the same operation. |
| `Modbus.ExceptionByte` | src/lib.rs:51-67 | Each exception code has its own wire byte: `IllegalFunction` 0x01, `IllegalDataAddress` 0x02, and so on up to `GatewayTarget` 0x0B. |
| `Modbus.ExceptionFromByte` | src/lib.rs:51-67 | `from_u8` recognises a byte exactly when it lies in 0x01 to 0x0B, and returns the code with that byte. |
| `Modbus.ExceptionByteRoundTrip` | src/lib.rs:51-67 | Every exception code comes back from its wire byte. |
| `Modbus.FromForeign` | src/lib.rs:77-105 | Decoding, encoding and byteorder errors become `InvalidData`, an io error becomes `Io`, an exception code becomes `ModbusException` of the same code; none becomes `InvalidResponse`. |
| `Binary.PackedSize` | src/binary.rs:17-19 | The packed size of `n` bits is the least number of bytes holding them, ceil(n/8). |
| `Binary.UnpackBits` | src/binary.rs:5-15 | `unpack_bits` returns exactly `count` coils, coil i On iff bit i mod 8 of byte i/8 is set; it needs ceil(count/8) bytes. |
| `Binary.PackBits` | src/binary.rs:17-29 | `pack_bits` returns ceil(n/8) bytes. |
| `Binary.PackBitsBit` | src/binary.rs:17-29 | Bit i mod 8 of packed byte i/8 is set exactly when coil i exists and is On; the padding bits are clear. |
| `Binary.UnpackPackBits` | src/binary.rs:5-29 | Unpacking packed coils gives the coils back. |
| `Binary.PackUnpackBits` | src/binary.rs:5-29 | Packing the coils unpacked from bytes whose padding bits are clear gives the bytes back. |
| `Binary.UnpackBytes` | src/binary.rs:31-39 | `unpack_bytes` returns two bytes per register, the high byte of register k at 2k and the low byte at 2k+1. |
| `Binary.PackBytes` | src/binary.rs:41-54 | `pack_bytes` fails with `InvalidData(BytecountNotEven)` exactly on odd input; otherwise it returns one register per byte pair, 256·b[2k] + b[2k+1]. |
| `Binary.PackUnpackBytes` | src/binary.rs:31-54 | Registers split into bytes join back into the same registers. |
| `Binary.UnpackPackBytes` | src/binary.rs:31-54 | Bytes that join successfully split back into the same bytes. |
| `Binary.UnpackBytesIs` | src/binary.rs:31-39 | `unpack_bytes` gives the only byte sequence that reads back as the registers. |
| `Binary.PackBytesIs` | src/binary.rs:41-54 | `pack_bytes` gives the only registers a byte sequence spells. |
| `Binary.UnpackBitsExamples` | src/binary.rs:57-60 | Zero coils from no bytes or two zero bytes; one On from 0x01. |
| `Binary.UnpackBitsLowFirst` | src/binary.rs:61-62 | Two bits of 0x01 are On, Off and two bits of 0x02 are Off, On. |
| `Binary.UnpackBitsAlternate` | src/binary.rs:63 | Three bits of 0x05 are On, Off, On. |
| `Binary.UnpackBitsAllSet` | src/binary.rs:5-15 | Bytes whose first `count` bits are set unpack to `count` On coils. |
| `Binary.UnpackBitsSpansBytes` | src/binary.rs:64 | Ten bits of `[0xFF, 0x03]` are all On. |
| `Binary.PackBitsExamples` | src/binary.rs:68-74 | Nothing packs to nothing; On, Off, On Off, Off On and On On pack to 1, 0, 1, 2 and 3. |
| `Binary.PackBitsEight` | src/binary.rs:75-77 | Eight On coils pack to 0xFF and eight Off coils to 0. |
| `Binary.PackBitsNineOn` | src/binary.rs:76 | Nine On coils pack to `[0xFF, 0x01]`. |
| `Binary.PackBitsNineOff` | src/binary.rs:78 | Nine Off coils pack to `[0, 0]`. |
| `Binary.UnpackBytesExamples` | src/binary.rs:81-89 | The six `unpack_bytes` test cases. |
| `Binary.PackBytesExamples` | src/binary.rs:92-101 | Empty input joins to no registers, `[1, 0]` to 256, and `[1]` and `[1, 2, 3]` fail. |
| `Binary.PackBytesPairs` | src/binary.rs:98-99 | `[0, 1, 0, 2]` joins to `[1, 2]` and `[1, 1, 1, 2]` to `[257, 258]`. |
| `Tcp.Pack` | src/tcp.rs:63-70 | A packed header is 7 bytes: tid, pid and len big-endian, then the unit id. |
| `Tcp.Unpack` | src/tcp.rs:72-80 | Unpacking fails with an I/O error exactly when fewer than 7 bytes are given. |
| `Tcp.UnpackPack` | src/tcp.rs:63-80 | Every header survives packing and unpacking. |
| `Tcp.PackUnpack` | src/tcp.rs:63-80 | Unpacking reads exactly the first 7 bytes: packing the result gives them back. |
| `Tcp.SerializeHeaderExample` | src/tcp.rs:419-433 | Header {12816, 3930, 99, 68} and `[50, 16, 15, 90, 0, 99, 68]` convert into each other. |
| `Tcp.Connect` | src/tcp.rs:113-117 | A connected transport starts with tid 0 and the configured unit id. |
| `Tcp.NewTid` | src/tcp.rs:123-128 | The counter moves to tid+1, or to 0 after 0xFFFF, and the unit id stays. |
| `Tcp.TidCountsRequests` | src/tcp.rs:123-128 | After n headers the counter is (tid + n) mod 65536. |
| `Tcp.TidPeriod` | src/tcp.rs:123-128 | A transaction id recurs exactly after a multiple of 65536 requests. |
| `Tcp.HeaderNew` | src/tcp.rs:53-61 | A new header takes the next transaction id, protocol 0 and the unit id, and its length is the argument minus 7. |
| `Tcp.Receive` | src/tcp.rs:158-159 | The reply buffer has the pre-computed size; it holds the reply's first bytes and zeros beyond the reply. |
| `Tcp.StampedLength` | src/tcp.rs:247-251 | A stamped frame's header reads back as its transaction id, protocol 0, the frame length minus 6, and its unit id. |
| `Tcp.PackedFrameStamped` | src/tcp.rs:247-251 | A header of length body+1 written before a body gives a stamped frame that keeps the body. |
| `Tcp.ValidateResponseHeader` | src/tcp.rs:173-179 | A reply header is accepted exactly when its tid is the request's and its protocol is 0; uid and length are not compared. |
| `Tcp.ValidateResponseCode` | src/tcp.rs:181-192 | Ok exactly when the reply repeats the request's code. An exception exactly when the reply code is that code + 0x80 and byte 8 is a known exception byte, which it carries. `InvalidResponse` otherwise. |
| `Tcp.GetReplyData` | src/tcp.rs:194-204 | The payload is accepted exactly when byte 8 equals the expected count and the reply is 9 + expected long; it is the bytes after byte 8. |
| `Tcp.ExpectedBytes` | src/tcp.rs:131-138 | A bit read expects ceil(count/8) payload bytes, a register read 2·count. |
| `Tcp.ReadRequest` | src/tcp.rs:150-154 | A read request is a 12-byte stamped frame carrying code, address and count. |
| `Tcp.ReadReply` | src/tcp.rs:161-164 | The reply buffer yields its payload exactly when it answers the transaction with the request's code and the expected byte count, and an exception exactly when it refuses. Any other rejection is `InvalidData(UnexpectedReplySize)` when only the byte count is wrong, and `InvalidResponse` otherwise; never `Io`. |
| `Tcp.ReadAnswer` | src/tcp.rs:156-170 | The result is `Io` exactly when the send or the receive fails. A reply that arrives is validated as above, with the same error kinds, and its payload returned. |
| `Tcp.ReadSent` | src/tcp.rs:150-170 | Once the checks pass, one stamped 12-byte request is sent under the next tid and the answer is validated. |
| `Tcp.Read` | src/tcp.rs:130-171 | Non-reads give `InvalidFunction`, count 0 gives `RecvBufferEmpty`, count > 260 gives `UnexpectedReplySize`, all before a tid is used and with nothing sent. Otherwise exactly one request is sent. |
| `Tcp.WriteReply` | src/tcp.rs:258-260 | An acknowledgement is accepted exactly when it answers the transaction with the frame's code, and is an exception exactly when it refuses; any other acknowledgement is `InvalidResponse`. |
| `Tcp.WriteAnswer` | src/tcp.rs:253-266 | The result is `Io` exactly when the send or the receive fails. An acknowledgement that arrives is validated as above, so it is accepted, an exception or `InvalidResponse`. |
| `Tcp.StampOver` | src/tcp.rs:247-252 | Writing the header over the buffer changes only its first 7 bytes and gives a stamped frame. |
| `Tcp.WriteSent` | src/tcp.rs:247-266 | Once the size checks pass, the stamped frame is sent under the next tid and keeps the body. |
| `Tcp.Write` | src/tcp.rs:238-267 | An empty buffer gives `SendBufferEmpty` and one over 260 bytes `SendBufferTooBig`, both with nothing sent and the tid unchanged. Otherwise the frame is sent. |
| `Tcp.SingleBuffer` | src/tcp.rs:212-215 | The write-single buffer is 12 bytes carrying code, address and value. |
| `Tcp.WriteSingle` | src/tcp.rs:206-217 | Single writes always send a 12-byte frame with code, address and value; other functions give `InvalidFunction`. |
| `Tcp.MultipleBuffer` | src/tcp.rs:227-234 | The write-multiple buffer is 13 + payload bytes. Byte 12 is the payload length mod 256, the truncating `as u8`. |
| `Tcp.WriteMultiple` | src/tcp.rs:219-236 | A frame is sent exactly when 13 + payload ≤ 260; the sent frame carries code, address, quantity, the untruncated byte count and the payload. |
| `Tcp.UnpackCoils` | src/tcp.rs:354-363 | A successful read's payload becomes exactly `count` coils read from its bits; failures pass through. |
| `TcpClient.JoinRegisters` | src/tcp.rs:366-375 | A successful register read's payload joins into registers, big-endian; it never fails on the 2·count bytes `read` returns. |
| `TcpClient.ReadCoils` | src/tcp.rs:354-357 | `read_coils` sends one request for 1 to 260 coils; on success it returns exactly `count` coils from the reply's payload bits. |
| `TcpClient.ReadDiscreteInputs` | src/tcp.rs:360-363 | As `read_coils`, with function code 0x02. |
| `TcpClient.ReadHoldingRegisters` | src/tcp.rs:366-369 | `read_holding_registers` sends one request for 1 to 260 registers; on success it returns the payload joined into registers. |
| `TcpClient.ReadInputRegisters` | src/tcp.rs:372-375 | As `read_holding_registers`, with function code 0x04. |
| `TcpClient.RegisterReadsAbove127Fail` | src/tcp.rs:146-164 | A register read of 128 to 260 registers is sent but can never succeed, since the one-byte count field cannot equal 2·count. |
| `TcpClient.WriteSingleCoil` | src/tcp.rs:378-380 | One 12-byte frame carrying 0xFF00 or 0x0000 is always sent. |
| `TcpClient.WriteSingleRegister` | src/tcp.rs:383-385 | One 12-byte frame carrying the value is always sent. |
| `TcpClient.CoilPayloadLimit` | src/tcp.rs:388-395 | A coil payload fits a 260-byte frame exactly when there are at most 1976 coils. |
| `TcpClient.WriteMultipleCoils` | src/tcp.rs:388-395 | Up to 1976 coils are sent, packed, with the coil count; more give `SendBufferTooBig` with nothing sent. |
| `TcpClient.WriteMultipleRegisters` | src/tcp.rs:398-405 | Up to 123 registers are sent, split big-endian, with the register count; 124 or more give `SendBufferTooBig` with nothing sent. |
| `TcpClient.SetUid` | src/tcp.rs:408-410 | `set_uid` changes the unit id and nothing else. |
| `TcpClient.SetUidStampsFrames` | src/tcp.rs:408-410 | The next frame after `set_uid(u)` carries unit id u and the next transaction id. |
| `TcpClient.FirstRequestIsOne` | src/tcp.rs:113-128 | The first frame of a new transport carries transaction id 1. |
| `TcpClient.ReadCoilsIllegalAddress` | src/tcp.rs:181-186 | A coil read answered under its transaction with code 0x81 and exception byte 0x02 returns `Exception(IllegalDataAddress)`. |
| `TcpClient.ReadCoilsOtherTransaction` | src/tcp.rs:173-179 | A coil read answered under another transaction id is `InvalidResponse`, whatever the rest of the reply holds. |
| `TcpClient.ReadHoldingRegistersWrongCount` | src/tcp.rs:194-199 | A register read answered under its transaction and code, but with a byte count other than 2·count, is `InvalidData(UnexpectedReplySize)`. |
| `TcpClient.WriteSingleRegisterWrongCode` | src/tcp.rs:181-192 | A write acknowledged under its transaction with a code that is neither 0x06 nor 0x86 is `InvalidResponse`. |
| `TcpProtocol.CodeValue` | src/tcp/protocol.rs:9-12 | ReadCoils is 0x01 and ReadDiscreteInputs is 0x02. |
| `TcpProtocol.CodeFromByte` | src/tcp/protocol.rs:6-13 | `from_u8` recognises exactly 0x01 and 0x02 and returns the code with that value. |
| `TcpProtocol.CodeRoundTrip` | src/tcp/protocol.rs:6-13 | Every function code comes back from its byte. |
| `TcpProtocol.NewCtx` | src/tcp/protocol.rs:22-24 | A new context starts at tid 0. |
| `TcpProtocol.NewTid` | src/tcp/protocol.rs:29-37 | tid+1 below `u16::MAX` and 0 at it, which is the wrapping successor. |
| `TcpProtocol.NewTidAgrees` | src/tcp/protocol.rs:29-37 | This counter agrees with the `wrapping_add(1)` counter of `tcp.rs`. |
| `TcpProtocol.HeaderNew` | src/tcp/protocol.rs:49-57 | A header takes the next tid, protocol 0, length 0, the uid, and a code byte that reads back as the function code. |
| `TcpProtocol.HeadersCount` | src/tcp/protocol.rs:22-37 | After n headers from a new context the counter is n mod 65536. |
| `TcpProtocol.HeaderTidCreation` | src/tcp/protocol.rs:60-70 | Successive headers from a new context get tids 1 and 2; after `u16::MAX` the next gets 0. |
| `LegacyTcp.NewCtx` | src/tcp/mod.rs:44-48 | A connected context starts with tid 0 and unit id 1. |
| `LegacyTcp.HeaderNew` | src/tcp/mod.rs:78-85 | The header takes (tid+1) mod 65536, protocol 0, the uid and the argument minus 7. |
| `LegacyTcp.ValidateResponseHeader` | src/tcp/mod.rs:240-246 | Accepted exactly when the tids match and the protocol is 0; otherwise `InvalidResponse`. |
| `LegacyTcp.ValidateResponseCode` | src/tcp/mod.rs:248-257 | Ok exactly when the codes match. An exception exactly when the reply code is request + 0x80, carrying byte 8. `InvalidResponse` otherwise. The `unwrap` needs byte 8 known. |
| `LegacyTcp.GetReplyData` | src/tcp/mod.rs:259-269 | As in `tcp.rs`, with plain `InvalidData` on a size mismatch. |
| `LegacyTcp.ReadReply` | src/tcp/mod.rs:145-150 | The reply buffer yields its payload exactly when it answers with the request's code and byte count, and an exception exactly when it refuses. Any other rejection is `InvalidData` when only the byte count is wrong, and `InvalidResponse` otherwise. |
| `LegacyTcp.ReadAnswer` | src/tcp/mod.rs:141-155 | The result is `Io` exactly when the send or the receive fails. A reply that arrives is validated as above, with the same error kinds. |
| `LegacyTcp.ReadSent` | src/tcp/mod.rs:135-155 | One stamped 12-byte request is sent under the next tid and the answer validated. |
| `LegacyTcp.Read` | src/tcp/mod.rs:114-156 | A count outside 1..125 gives `InvalidData` before a tid is used; otherwise one request is sent. A non-read function panics and is excluded. |
| `LegacyTcp.WriteReply` | src/tcp/mod.rs:228-232 | The acknowledgement is accepted exactly when it answers with the frame's code, and is an exception exactly when it refuses; any other acknowledgement is `InvalidResponse`. |
| `LegacyTcp.WriteAnswer` | src/tcp/mod.rs:224-237 | The result is `Io` exactly when the send or the receive fails. An acknowledgement that arrives is accepted, an exception or `InvalidResponse`. |
| `LegacyTcp.WriteSent` | src/tcp/mod.rs:218-237 | The header is stamped over the buffer, which is sent under the next tid. |
| `LegacyTcp.Write` | src/tcp/mod.rs:214-238 | An empty buffer or one over 121 bytes gives `InvalidData` with nothing sent and the tid unchanged. |
| `LegacyTcp.WriteSingle` | src/tcp/mod.rs:182-194 | A single write always sends its 12-byte frame; other functions panic and are excluded. |
| `LegacyTcp.WriteMultiple` | src/tcp/mod.rs:196-212 | A frame is sent exactly when the payload is at most 108 bytes; it carries the untruncated byte count. |
| `LegacyTcp.PackBytes` | src/tcp/mod.rs:312-325 | Odd input gives `InvalidData`; even input joins into big-endian registers. |
| `LegacyTcp.PackBytesAgrees` | src/tcp/mod.rs:312-325 | Both generations' `pack_bytes` accept the same inputs and return the same registers. |
| `LegacyTcp.PackBytesOddFails` | src/tcp/mod.rs:413-414 | `[1]` and `[1, 2, 3]` fail. |
| `LegacyClient.JoinRegisters` | src/tcp/mod.rs:103-112 | A successful register read's payload joins into registers and never fails. |
| `LegacyClient.ReadCoils` | src/tcp/mod.rs:89-93 | One request for 1 to 125 coils; on success exactly `count` coils from the payload bits. |
| `LegacyClient.ReadDiscreteInputs` | src/tcp/mod.rs:95-100 | As `read_coils`, with function code 0x02. |
| `LegacyClient.ReadHoldingRegisters` | src/tcp/mod.rs:102-106 | One request for 1 to 125 registers; on success the payload joined into registers. |
| `LegacyClient.ReadInputRegisters` | src/tcp/mod.rs:108-112 | As `read_holding_registers`, with function code 0x04. |
| `LegacyClient.WriteSingleCoil` | src/tcp/mod.rs:158-161 | One 12-byte frame carrying 0xFF00 or 0x0000 is always sent. |
| `LegacyClient.WriteSingleRegister` | src/tcp/mod.rs:163-166 | One 12-byte frame carrying the value is always sent. |
| `LegacyClient.CoilPayloadLimit` | src/tcp/mod.rs:169-173 | A coil payload fits a 121-byte frame exactly when there are at most 864 coils. |
| `LegacyClient.WriteMultipleCoils` | src/tcp/mod.rs:168-173 | Up to 864 coils are sent, packed; more give `InvalidData` with nothing sent. |
| `LegacyClient.WriteMultipleRegisters` | src/tcp/mod.rs:175-180 | Up to 54 registers are sent; more give `InvalidData` with nothing sent. |
| `LegacyClient.ReadHoldingRegistersRejections` | src/tcp/mod.rs:240-269 | A register read reply with code 0x03 cannot panic. Under its transaction but with the wrong byte count it is `InvalidData`; under another transaction it is `InvalidResponse`. |
| `Scoped.NewScopedCoil` | src/scoped.rs:117-126 | Creation always succeeds with the given address and drop function, and involves no exchange. |
| `Scoped.NewScopedRegister` | src/scoped.rs:165-174 | Creation always succeeds with the given address and drop function, and involves no exchange. |
| `Scoped.CoilDropValue` | src/scoped.rs:96-105 | On writes On, Off writes Off, Toggle writes the opposite of the coil read. |
| `Scoped.CoilDropValueLaws` | src/scoped.rs:96-105 | Toggling twice restores the coil; On and Off ignore the value read. |
| `Scoped.RegisterDropValue` | src/scoped.rs:147-153 | Zero writes 0, Value(v) writes v, Fun(f) writes f(read), Increment writes read+1 and Decrement read−1, both wrapping. |
| `Scoped.IncrementDecrementInverse` | src/scoped.rs:149-150 | Increment and Decrement undo each other, across the wrap as well. |
| `Scoped.CoilDropWrite` | src/scoped.rs:92-110 | A write happens exactly when the read succeeds with one coil, and it carries the drop value. |
| `Scoped.RegisterDropWrite` | src/scoped.rs:143-158 | A write happens exactly when the read succeeds with one register, and it carries the drop value. |
| `Scoped.DropCoil` | src/scoped.rs:90-112 | Dropping over TCP sends a read of one coil at the address, then a write at the same address exactly when the read is accepted. The write carries the drop value of the coil in the reply. The tid advances once per frame, and nothing is reported. |
| `Scoped.DropRegister` | src/scoped.rs:141-160 | As `DropCoil`, for one holding register and a write-single-register frame. |
| `Scoped.DeviceDropCoil` | src/scoped.rs:90-112 | Against a device that stores coils, a drop changes only its own coil, to the drop value of what it held; an unknown address changes nothing. |
| `Scoped.DeviceDropRegister` | src/scoped.rs:141-160 | Against a device that stores registers, a drop changes only its own register, to the drop value of what it held. |
| `Scoped.CoilDocExample` | src/scoped.rs:5-27 | Coil 10, Off inside the scope, is On after a drop with `On`. |
| `Scoped.RegisterDocExample` | src/scoped.rs:29-54 | Register 10, holding 1, holds 6 after a drop with `v + 5`. |

## Left out

- Sockets: connecting, `Config` and timeouts, `close`, `try_clone`, and shutdown on drop (src/tcp.rs:18-43, 93-121, 269-279; src/tcp/mod.rs:30-52, 62-66). These are operating-system I/O. The `Wire` parameter stands for `write_all` and `read`.
- Partial reads: a reply shorter than the buffer leaves zeros, exactly as in the source's zero-initialised buffer (`Tcp.Receive`). A reply split over several reads is not modelled.
- Byte-writer failures: the `?` on `write_u8`/`write_u16` into a `Vec` is never taken, since writing to memory cannot fail.
- `read_device_info` (src/tcp.rs:281-349): it depends on a module that is not part of this model.
- The legacy header codec: `bincode` `encode`/`decode` (src/tcp/mod.rs:136, 146, 219, 229) is a foreign serializer. The model assumes its layout equals the big-endian layout of `tcp.rs` and reuses `Tcp.Pack`/`Tcp.Unpack`. The legacy modules also reuse `Tcp`'s request builders, since the bodies are byte-for-byte the same.
- The legacy codec functions `unpack_bits`, `pack_bits` and `unpack_bytes` (src/tcp/mod.rs:271-310) are textually the same as in src/binary.rs and are modelled once, in `Binary`. Only the legacy `pack_bytes` differs, in its error value.
- The legacy `Client` impl (src/tcp/mod.rs:327-361) only delegates to the `LegacyClient` functions.
- src/client.rs is a trait without behaviour. `ScopedCoil::mut_transport` only hands out the transport, which the model passes explicitly.
- Panics are preconditions, so the model covers only non-panicking runs:
  - the legacy generation's panic on a mismatched `Function` variant (`LegacyTcp.Read`, `LegacyTcp.WriteSingle`, `LegacyTcp.WriteMultiple`);
  - its `unwrap` of an unknown exception byte (the `Decodable` precondition of every legacy exchange);
  - the `len - 7` underflow in `Header::new` (`Tcp.HeaderNew`, `LegacyTcp.HeaderNew`);
  - `req[7] + 0x80` overflowing `u8`, which `Modbus.Code` shows cannot happen for the library's own requests.
- Scoped.RegisterDropValue: `value[0] + 1` at 0xFFFF and `value[0] - 1` at 0 panic in a debug build. The model takes the wrapping result of a release build.
- Scoped.RegisterDocExample: the example's closure `|v| v + 5` is modelled with the same wrap-around.
- The model keeps three behaviours of the code as written, although a caller might expect otherwise:
  - the 260 bound in `read` applies to the count, not to the bytes expected;
  - `SendBufferEmpty` cannot arise from `write_single` or `write_multiple`, whose buffers always hold the 7 header bytes;
  - register reads of 128 to 260 registers pass the check but can never succeed (`TcpClient.RegisterReadsAbove127Fail`).
- The `pack_bytes` test cases `[0, 0]`, `[0, 1]` and `[1, 1]` are not restated one by one. `Binary.PackBytes` and `Binary.PackBytesIs` cover every even-length input.
