# px4io driver — a Dafny model

This project models the host side of the px4io register protocol. A flight
controller uses it to talk to its I/O coprocessor over a serial line.

Every transaction is one fixed 68-byte packet each way:

- byte 0 holds the operation code (top two bits) and the register count (low six bits);
- byte 1 holds a CRC8;
- bytes 2 and 3 hold the register page and offset;
- 32 little-endian 16-bit register slots follow.

The CRC is table driven, with the table of the CRC-8 polynomial 0x07.

- It starts from the table entry of byte 0.
- It then takes one table step for the CRC slot, as though that slot held zero.
- It then folds bytes 2 onwards.

`calc_crc` passes twice the register count and `crc8_anon` doubles it again. A
packet's CRC therefore covers `4 + 4 * count` bytes. That fits the 68-byte frame
only for counts up to 16. A larger count makes the check index past the frame,
which is a panic in the original. The model keeps this behaviour as written: the
CRC is an `Option`, and `None` stands for the panic.

The driver owns one send packet and one receive packet. `packet_exchange(retries)`
works as follows:

- It clears the receive packet once.
- It then makes up to `retries` exchanges through the serial interface.
- A transport error ends the run with `Comm`.
- A reply with a CRC that checks and an opcode other than "corrupt" (0x40) and
  "error" (0x80) ends it with success.
- Any other reply calls for another attempt.
- When the attempts run out, the result is `ErrorResponse`.

The register operations build a request in the send packet and exchange it with
3 attempts: `set_registers`, `set_one_register`, `get_registers`,
`get_one_register` and `modify_register`.

Layout:

- `errors.dfy`: the driver's error kinds and `Result`.
- `protocol.dfy`: the operation codes of requests and replies.
- `packet.dfy`: the packet image, the CRC, and the class `IoPacket`, whose methods
  update a 68-byte array in place. They are specified by pure functions over the
  image.
- `serial.dfy`: the UART as a value, plus the class `SerialInterface`.
- `driver.dfy`:
  - the read-modify-write rule;
  - the attempt loop, with a specification function `Attempts`;
  - the register operations, as value-level functions (`Store`, `Fetch`,
    `ReadOne`, `WriteOne`, `Modify`) with their lemmas;
  - the class `IoMcuDriver`, whose methods are proved equal to those functions.

A panic in the original is modelled as the driver outcome `Panicked`.

Points of the code's behaviour the model keeps as they are:

- Register reads and writes make 3 attempts.
- `modify_register` computes `(value | set_bits) & !clear_bits`, so a bit in both
  masks ends up cleared.
- `read_many` reads up to 68 bytes and stops at the first read that yields no byte.
- No code path produces `Unresponsive`; an exhausted run gives `ErrorResponse`.
- A reply with opcode 0xC0 is accepted.

## Model

| member | source | states |
|---|---|---|
| Packet.Crc8TableIsPoly07 | src/interface/mod.rs:155-178 | every entry of the literal 256-entry table equals the CRC-8 (polynomial 0x07) of its index |
| Packet.IoPacket.TableLookup | src/interface/mod.rs:155-178 | a lookup in `CRC8_TABLE` yields the CRC-8 of the index |
| Packet.ValidRegisterCount | src/interface/mod.rs:119-121 | the count is the low six bits of the count/code byte (masked by 0x3F, mod.rs:183), so at most 63 |
| Packet.PacketCode | src/interface/mod.rs:124-130 | the code is one of 0x00/0x40/0x80/0xC0 (masked by 0xC0, mod.rs:181), and code and count together make up the whole count/code byte |
| Packet.Join | src/interface/mod.rs:47-61 | a register slot is read little-endian: its low byte first, then its high byte |
| Packet.JoinSplit | src/interface/mod.rs:47-61 | splitting a register value into bytes and joining them back gives the value |
| Packet.Crc8 | src/interface/mod.rs:143-153 | `crc8_anon` yields a CRC exactly when its span of 4 + 2·regValsLen bytes fits the buffer; otherwise it panics |
| Packet.Crc8AtSeed | src/interface/mod.rs:145-147 | the first two steps are the table entry of byte 0, then one step on a zero byte for the CRC slot |
| Packet.Crc8AtNext | src/interface/mod.rs:148-150 | each later step folds the next byte through the table |
| Packet.Crc8IsPlainFold | src/interface/mod.rs:143-153 | `crc8_anon` is the plain table CRC, from 0, of the covered bytes with the CRC slot read as zero |
| Packet.Crc8IgnoresCrcSlot | src/interface/mod.rs:143-153 | the CRC never depends on the byte stored in the CRC slot |
| Packet.Crc8ReadsOnlySpan | src/interface/mod.rs:143-153 | the CRC reads byte 0 and bytes 2 to 4 + 2·regValsLen, and nothing else |
| Packet.Crc8AtOfZeros | src/interface/mod.rs:156 | over all-zero bytes the running CRC stays 0, because the table maps 0 to 0 |
| Packet.PacketCrcSpan | src/interface/mod.rs:135-141 | `calc_crc` covers 4 + 4·count bytes; it succeeds iff count ≤ 16 and `is_crc_valid` panics iff count > 16 |
| Packet.Crc8Poly07Injective | src/interface/mod.rs:155-178 | distinct bytes have distinct table entries |
| Packet.Crc8AtDetects | src/interface/mod.rs:143-153 | two buffers differing in a single byte past the CRC slot have different running CRCs at every later position |
| Packet.TamperDetected | src/interface/mod.rs:112-115 | a packet that passes the check fails it once any one byte from 2 up to 4 + 4·count is changed |
| Packet.SeedDetects | src/interface/mod.rs:145-150 | two buffers differing only in byte 0 have different running CRCs at every later position |
| Packet.OpcodeTamperDetected | src/interface/mod.rs:112-115 | a packet that passes the check fails it once the opcode bits of byte 0 change (for example an error reply 0x80 turned into 0x00) |
| Packet.SetValuesOverflowPanics | src/interface/mod.rs:79-97 | with 17 to 32 values the frame declares a count whose CRC span runs past the packet, so computing its CRC panics |
| Packet.CrcSlotTamperDetected | src/interface/mod.rs:112-115 | a packet that passes the check fails it once its CRC byte is changed |
| Packet.UncoveredByteIgnored | src/interface/mod.rs:135-141 | a change to a byte at or past 4 + 4·count leaves the check's verdict as it was |
| Packet.Serialize | src/interface/mod.rs:47-61 | the serialised frame puts count/code, CRC, page and offset in bytes 0 to 3 |
| Packet.RegistersOfSerialize | src/interface/mod.rs:32-44 | reading the slots back from a serialised frame gives the registers it was built from |
| Packet.SerializeOfRegisters | src/interface/mod.rs:32-44 | every 68-byte image is the serialisation of its own header and register slots |
| Packet.CountByteLemma | src/interface/mod.rs:86-87 | with at most 16 values and an opcode whose count bits are clear, `(count as u8) \| mode` splits back into that count and that opcode |
| Packet.ZeroHeaderIsCrcValid | src/interface/mod.rs:112-115 | a packet whose four header bytes are zero passes the CRC check, whatever its registers |
| Packet.DefaultIsCrcValid | src/interface/mod.rs:68-76 | the default (all-zero) packet passes the CRC check, with opcode 0, count 0 and zero registers |
| Packet.ClearedIsCrcValid | src/interface/mod.rs:99-109 | a cleared packet passes the CRC check, with opcode 0, count 0 and every register 0x55aa |
| Packet.SetValuesHeader | src/interface/mod.rs:79-97 | after `set_values` the CRC checks, and the packet declares the value count, the given opcode, page and offset |
| Packet.SetValuesSpec | src/interface/mod.rs:79-97 | as above; also the values fill the first slots and every other slot keeps what it held |
| Packet.IoPacket.Default | src/interface/mod.rs:68-76 | a new packet is a fresh 68-byte image of zeros |
| Packet.IoPacket.FoldStep | src/interface/mod.rs:148-150 | one loop step of `crc8_anon` advances the running CRC by one byte |
| Packet.IoPacket.Crc8Anon | src/interface/mod.rs:143-153 | the loop computes `Crc8` of the buffer: None where the source would index past the end |
| Packet.IoPacket.CalcCrc | src/interface/mod.rs:135-141 | `calc_crc` is the CRC over the packet's own declared count, passed as twice the count |
| Packet.IoPacket.IsCrcValid | src/interface/mod.rs:112-115 | Some(stored CRC == computed CRC), or None where computing the CRC panics |
| Packet.IoPacket.Clear | src/interface/mod.rs:99-109 | leaves the header zero and every register slot 0x55aa |
| Packet.SetValuesWithCrc | src/interface/mod.rs:86-96 | the frame written before the CRC has a defined CRC, and storing it gives exactly the packet `SetValuesImage` describes |
| Packet.IoPacket.WriteFrame | src/interface/mod.rs:86-94 | writes count/code, a zero CRC, page, offset and the values into the first slots, keeping the other slots |
| Packet.IoPacket.SetValues | src/interface/mod.rs:79-97 | leaves the image `SetValuesImage` describes; `SetValuesSpec` gives its properties |
| Serial.ReadByte | src/interface/serial.rs:29 | one read consumes the next outcome; an exhausted input would block; nothing is written |
| Serial.WriteAll | src/interface/serial.rs:61 | a blocking write either logs every byte or fails and logs nothing; it never reads |
| Serial.ReadUpTo | src/interface/serial.rs:26-38 | the read loop returns at most `limit` bytes |
| Serial.ReadUpToSpec | src/interface/serial.rs:26-38 | the bytes read are the leading byte outcomes of the input, in order; it stops early only at (and consumes) the first would-block or fault; it never writes |
| Serial.ExchangeSpec | src/interface/serial.rs:54-67 | a failed write gives `Comm` with nothing read; otherwise all 68 bytes are written, and at most 68 bytes are read into the front of the receive packet while the rest stays as it was |
| Serial.SerialInterface.constructor | src/interface/serial.rs:19-23 | the interface wraps the given UART |
| Serial.SerialInterface.Setup | src/interface/serial.rs:49-52 | setup always succeeds |
| Serial.SerialInterface.ReadMany | src/interface/serial.rs:26-38 | fills the buffer from the front as `ReadUpTo` says, returns Ok with the count, and leaves the rest of the buffer alone |
| Serial.SerialInterface.ExchangePackets | src/interface/serial.rs:54-67 | writes the whole send packet, then reads into the receive packet, as `Exchange` says |
| RegisterBits.ModifiedValue | src/lib.rs:184-187 | the written-back value has every `clear_bits` bit clear and every other `set_bits` bit set |
| RegisterBits.ModifiedValueKeepsOtherBits | src/lib.rs:184-187 | bits in neither mask keep the value they had |
| RegisterBits.ModifyClearWins | src/lib.rs:184-187 | for every value and masks, a bit in both masks ends up cleared (the set happens before the clear); clearing first and then setting would give the same value only when the masks do not overlap |
| Driver.Failed | src/lib.rs:166-169 | a failed result carried to another result type keeps its error, or stays a panic |
| Driver.Attempts | src/lib.rs:104-126 | a run of n attempts starts between 1 and n exchanges (none when n = 0) |
| Driver.AttemptsUnfold | src/lib.rs:109-123 | one attempt either ends the run with its verdict or is followed by the rest of the run on the state it left |
| Driver.VerdictOutcomes | src/lib.rs:110-119 | a single attempt ends with `Comm` only on a transport error, with Ok only for an accepted reply, and with a panic only where the CRC check indexes past the packet; conversely an accepted reply always ends the run with Ok, and a rejected reply with a CRC check that completes always calls for another attempt |
| Driver.AcceptedCodes | src/lib.rs:114-118 | a reply is accepted exactly when its CRC checks and its opcode is 0x00 or 0xC0 |
| Driver.WriteFaultEndsRun | src/lib.rs:110-112 | a failed write ends the run at once with `Comm` and leaves the receive packet alone |
| Driver.AttemptsOutcomes | src/lib.rs:104-126 | a run never gives `Unresponsive`; it gives Ok only for an accepted reply, `ErrorResponse` only after every attempt was used, and a panic only for a count over 16 |
| Driver.AttemptsWrites | src/lib.rs:109-123 | the UART log gains exactly one whole send packet per attempt whose write succeeded |
| Driver.RecoversAfterTwoRejections | src/lib.rs:108-123 | two rejected replies followed by an accepted one end in Ok after exactly 3 attempts, each attempt reading into what the previous one left in the receive packet |
| Driver.NoRetriesNoExchange | src/lib.rs:104-126 | with zero retries nothing is exchanged and the result is `ErrorResponse` |
| Driver.SilentReplyAccepted | src/lib.rs:104-118 | if the device sends nothing, the first attempt still succeeds: the cleared receive packet passes the check |
| Driver.FullReplyDelivered | src/lib.rs:104-118 | a full accepted 68-byte reply is delivered intact on the first attempt, and exactly 68 input bytes are consumed |
| Driver.StoreSpec | src/lib.rs:87-101 | more than 16 values panic before sending, and for 17 to 32 values that panic is the CRC of the built frame running past the packet; otherwise the request checks, and carries the Write code, the count, page, offset, the values and the untouched other slots; Ok only for an accepted reply, never `Unresponsive` |
| Driver.FetchSpec | src/lib.rs:142-160 | the request is a CRC-valid read of count 0 for page/offset; the outcome satisfies `FetchOutcomeOk` |
| Driver.CopiedOutcomes | src/lib.rs:151-159 | on Ok the copy fills the buffer with the reply's first slots, and otherwise the buffer is unchanged; more than 32 slots panic |
| Driver.ReadOneSpec | src/lib.rs:162-170 | a one-register read yields a value only for an accepted reply, and that value is the reply's slot 0; it never gives `Unresponsive` |
| Driver.ModifySpec | src/lib.rs:177-188 | a failed read passes its error or panic through and writes nothing; a successful read writes back `(v \| set) & !clear` as a one-value Write request |
| Driver.IoMcuDriver.NewWithInterface | src/lib.rs:70-76 | both packets start as fresh default packets |
| Driver.IoMcuDriver.Setup | src/lib.rs:78-81 | setup delegates to the interface and succeeds |
| Driver.IoMcuDriver.ExchangeOnce | src/lib.rs:110-119 | one pass of the loop exchanges the packets and returns the attempt's verdict |
| Driver.IoMcuDriver.PacketExchange | src/lib.rs:104-126 | the outcome, UART and receive packet are those of `RetriedExchange`: clear once, then `Attempts` |
| Driver.IoMcuDriver.SetRegisters | src/lib.rs:87-101 | the outcome and new state are those of `Store` |
| Driver.IoMcuDriver.SetOneRegister | src/lib.rs:129-136 | the outcome and new state are those of `WriteOne`, a one-value `Store` |
| Driver.IoMcuDriver.GetRegisters | src/lib.rs:142-160 | the outcome, new state and buffer contents are those of `Fetch` |
| Driver.IoMcuDriver.GetOneRegister | src/lib.rs:162-170 | the outcome and new state are those of `ReadOne` |
| Driver.IoMcuDriver.ModifyRegister | src/lib.rs:177-188 | the outcome and new state are those of `Modify` |
| Driver.NewSerialDriver | src/lib.rs:40-54 | returns a driver around the UART, with default packets, because setup always succeeds |

## Left out

- The `DeviceInterface` trait (src/interface/mod.rs:7-23) is not modelled as an abstraction. The driver holds the only implementation, `SerialInterface`, directly.
- `discard_input` is declared by the trait but has no implementation in the repository, so there is nothing to model.
- The unsafe reinterpretation of the packet as bytes (`any_as_u8_slice`, `any_as_mut_u8_slice`) is replaced by an explicit serialisation with little-endian register slots. The byte order of the target is an assumption.
- The `embedded_hal` UART is a value. It has a queue of read outcomes and a queue of write outcomes. A failed blocking write logs nothing, so partial writes are not modelled. Every blocking write ends, in success or a fault; a `bwrite_all` that never returns is not modelled.
- The transport error type `CommE` is generic in the source. Here it is `CommError(code)`.
- The state a panicking call leaves behind is not modelled. For example, `set_values` partly fills the send packet before its CRC panics. The model returns `Panicked` with the previous state, since nothing runs after a panic.
- Packet.IoPacket.SetValues: requires at most 16 values and an opcode with its count bits clear. Larger value lists panic in the source, and that panic is modelled at `Driver.IoMcuDriver.SetRegisters` / `Driver.Store`. Every caller passes an opcode of 0x00 or 0x40.
- Driver.IoMcuDriver.PacketExchange: requires `retries <= 0xFF`, because the argument is a `u8`.
- The byte count that `exchange_packets` returns is not checked by the driver, and the model does not check it either.
- src/registers.rs is not part of this model: it holds register numbers only. The example programs are not part of it either.
- The placeholder unit test at src/lib.rs:191-196 is not part of this model.
