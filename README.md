# HAP-BLE protocol core of the STM32WB55 HomeKit accessory

This project models, in Dafny, the HomeKit Accessory Protocol over Bluetooth
Low Energy (HAP-BLE) layer of the `stm32wb55-homekit` firmware, and proves
properties of that model. The layer has two parts.

- **The HAP PDU codec** lives in the `homekit-ble` crate and is modelled in
  `homekit_ble.dfy`. It parses a request PDU. The first byte is a control
  byte, tested bit by bit. It is followed by the opcode, the transaction id
  and the little-endian 16-bit target instance id. The codec also frames a
  response: control byte 2, the transaction id, the status, then the
  optional little-endian length and the body. Frames are written into a
  caller's buffer; that write is an `array` method.
- **The Protocol Information service dispatcher** lives in the firmware and
  is modelled in `protocol.dfy`. It routes a write to the service on the
  opcode and then on the target instance id. It builds either the 6-byte
  service-signature body or the 53-byte characteristic-signature body. The
  53-byte body is five TLV items (type, length, value). The dispatcher
  frames the answer and delivers it as the new value of the *signature*
  characteristic.

Its supporting modules are:

- `bytes.dfy`: bytes and little-endian `u16`.
- `wrappers.dfy`: `Option`, `Result`, and `Outcome`, which adds "panicked with a message" to `Result`.
- `tlv.dfy`: the TLV layout.
- `gatt.dfy`: GATT services, characteristics, `contains_handle`, `set_value`.
- `hap_types.dfy`: HAP property flags, units, presentation formats.

Panics that input can reach are explicit `Panicked(message)` outcomes,
not preconditions:

- the `assert!` on continuation PDUs (homekit-ble/src/lib.rs:27-30)
- the `unimplemented!` on response PDUs (homekit-ble/src/lib.rs:55-56)
- the `panic!` on bodies longer than 65535 bytes (homekit-ble/src/lib.rs:155-157)
- the `set_value(...).expect`s in the dispatcher (stm32wb55-homekit/src/main.rs:985-987, 1058-1060)
- the `.expect` in `handle_event` (stm32wb55-homekit/src/main.rs:232-234)

Three other panics are proved unreachable at the firmware's fixed sizes:

- The `write_into(...).expect`s into the 50- and 70-byte buffers
  (stm32wb55-homekit/src/main.rs:980-982, 1053-1055). `Protocol.SendResponse`
  requires the frame to fit, and `Protocol.HandleRequest` proves that the
  11- and 58-byte frames do.
- The `assert_eq!(offset, 53)` (stm32wb55-homekit/src/main.rs:1041-1045) is a
  verified `assert` in `Protocol.WriteCharacteristicSignature`.
- A `Tlv::write_into` into too short a slice. `TlvCodec.WriteInto` requires
  room for the item, which holds at every call in the 53-byte body.

The radio coprocessor is a class `CharacteristicValueSink`. It records, in a
ghost sequence, the value updates sent to it. The dispatcher methods are
proved against value-level functions:

- `ReactionTo` / `RequestReaction` say whether a write is ignored, rejected, answered with a value, or aborted.
- The lemmas in `Protocol` state the routing table on raw bytes.

Some behaviour of the source that the model keeps as written:

- A characteristic-signature read addressed to an instance id that the
  service does not own makes `handle_attribute_modified` return `Err`
  (stm32wb55-homekit/src/main.rs:1004). `handle_event` `.expect`s that result
  (stm32wb55-homekit/src/main.rs:232-234), so the firmware panics. See
  `Protocol.UnknownCharacteristicPanicsEventLoop`.
- A control byte with bit 7 set (a continuation) panics
  (homekit-ble/src/lib.rs:27-30). So does one with bit 1 set and bits 2-3
  clear (a response; homekit-ble/src/lib.rs:55-56). `UnsupportedPduType` is
  returned only for nonzero bits 2-3 (homekit-ble/src/lib.rs:45-48), and its
  payload is bits 1-3 of the control byte.
- The 7-byte GATT presentation format value is `[format, 0, unit_lo,
  unit_hi, 1, 0, 0]` (stm32wb55-homekit/src/main.rs:1027-1035). Following
  section 3.3.3.5 of Vol 3, Part G of the Bluetooth Core Specification,
  byte 1 is the exponent, bytes 2-3 the unit, byte 4 the name space and
  bytes 5-6 the description.
- A buffer of at least 5 bytes parses as a request exactly when two
  conditions hold: its control byte has bits 1, 2, 3 and 7 clear, and its
  opcode byte is in 1..8. Bits 0, 4, 5 and 6 and trailing bytes are
  ignored. With bits 1, 2, 3 and 7 clear, a buffer of 1 to 4 bytes gives
  `BadLength` (homekit-ble/src/lib.rs:79-81). Other control bytes give the
  error or panic above whatever the length.

## Model

| member | source | states |
|---|---|---|
| Bytes.ToLe | stm32wb55-homekit/src/main.rs:1032 | two bytes that decode back to the value |
| Bytes.ToLeFromLe | homekit-ble/src/lib.rs:88 | `u16::from_le_bytes` loses nothing: encoding the decoded pair of bytes gives the pair back |
| HomekitBle.HapStatus.Code | homekit-ble/src/lib.rs:119-131 | status codes are 0..6, and 0 is exactly `Success` |
| HomekitBle.OpCode.Code | homekit-ble/src/lib.rs:202-213 | every opcode's wire value is in 1..8 |
| HomekitBle.OpCodeTryFrom | homekit-ble/src/lib.rs:215-235 | succeeds exactly on 1..8, with the opcode whose code is the byte; any other byte gives `UnknownOpCode(byte)` |
| HomekitBle.OpCodeRoundTrip | homekit-ble/src/lib.rs:218-234 | decoding an opcode's code gives the opcode back |
| HomekitBle.OpCodeCodeInjective | homekit-ble/src/lib.rs:221-229 | distinct opcodes have distinct wire values, so the mapping is one-to-one |
| HomekitBle.FragmentedOf | homekit-ble/src/lib.rs:21-25 | a continuation exactly when bit 7 of the control byte is set |
| HomekitBle.IidSizeOf | homekit-ble/src/lib.rs:32-36 | 64-bit instance ids exactly when bit 4 is set |
| HomekitBle.PduTypeOf | homekit-ble/src/lib.rs:38-42 | a response exactly when bit 1 is set |
| HomekitBle.Parse | homekit-ble/src/lib.rs:16-59 | empty gives `BadLength` first; bit 7 panics; bits 2-3 give `UnsupportedPduType(bits 1-3)`; a response panics; 1-4 bytes give `BadLength` before the opcode check; a bad opcode gives `UnknownOpCode`; otherwise opcode, tid, LE instance id and width are recovered |
| HomekitBle.ParseAfterControl | homekit-ble/src/lib.rs:76-99 | under 4 bytes is `BadLength`; otherwise success exactly for opcode bytes 1..8, with the fields at bytes 0, 1 and 2-3 |
| HomekitBle.RequestHeader | homekit-ble/src/lib.rs:83-88 | a request header is five bytes |
| HomekitBle.ParseRequestHeader | homekit-ble/src/lib.rs:16-99 | parsing an encoded request header, with any trailing bytes, returns exactly that request |
| HomekitBle.ParsedRequestIsHeader | homekit-ble/src/lib.rs:76-99 | every successful parse is a request, and bytes 1-4 are its header |
| HomekitBle.IgnoredControlBits | homekit-ble/src/lib.rs:21-48 | control bits 0, 4, 5, 6 and trailing bytes do not change the outcome or the parsed opcode, tid and instance id |
| HomekitBle.ParseServiceSignaturePdu | homekit-ble/src/lib.rs:242-253 | `[0,6,1,0x10,0,...]` parses as a 16-bit `ServiceSignatureRead` with tid 1 and instance id 0x10 |
| HomekitBle.ParsePduTooSmall | homekit-ble/src/lib.rs:256-261 | four zero bytes give `BadLength` |
| HomekitBle.Size | homekit-ble/src/lib.rs:178-191 | 3 exactly for an empty body, body length + 5 otherwise, and the length of the frame |
| HomekitBle.Frame | homekit-ble/src/lib.rs:161-172 | the bytes `write_into` puts in the buffer: 2, tid, status, then the LE length and the body when there is one; its properties are `FrameLayout` and `FrameInjective` |
| HomekitBle.FrameLayout | homekit-ble/src/lib.rs:161-172 | byte 0 is 2, byte 1 the tid, byte 2 the status; for a body, bytes 3-4 are its LE length and the rest is the body |
| HomekitBle.FrameInjective | homekit-ble/src/lib.rs:148-175 | a frame determines the response it was written from |
| HomekitBle.WriteInto | homekit-ble/src/lib.rs:148-175 | too small a buffer gives `InsufficientBuffer` and is untouched; an over-long body panics only after that check, with the buffer untouched; otherwise the first `Size` bytes are the frame and the rest is untouched |
| TlvCodec.FromU16 | stm32wb55-homekit/src/main.rs:1017-1018 | a `u16` item has that type and two value bytes that decode LE to the value |
| TlvCodec.Encode | stm32wb55-homekit/src/main.rs:1014-1039 | the assumed layout of `Tlv::write_into`: type byte, length byte, value; `Decode` is its reference inverse |
| TlvCodec.EncodeAll | stm32wb55-homekit/src/main.rs:1011-1039 | items written one after another at an advancing offset; `DecodeAll` is its reference inverse |
| TlvCodec.EncodeFive | stm32wb55-homekit/src/main.rs:1011-1039 | five items written at an advancing offset are their encodings back to back |
| TlvCodec.FiveItemsLayout | stm32wb55-homekit/src/main.rs:1011-1045 | items of 16, 2, 16, 2 and 7 value bytes fill exactly 53 bytes (the `offset == 53` assertion), each type, length and value at its fixed position |
| TlvCodec.ItemAt | stm32wb55-homekit/src/main.rs:1011-1039 | an item among other bytes sits as type, length, value at the offset where it was written |
| TlvCodec.Decode | stm32wb55-homekit/src/main.rs:1007-1045 | a decoded item and the rest re-encode to the input |
| TlvCodec.DecodeAll | stm32wb55-homekit/src/main.rs:1007-1045 | decoded items re-encode to exactly the input |
| TlvCodec.DecodeEncode | stm32wb55-homekit/src/main.rs:1007-1045 | decoding an encoded item returns it and what follows it |
| TlvCodec.DecodeAllEncodeAll | stm32wb55-homekit/src/main.rs:1007-1045 | items written back to back decode to exactly those items |
| TlvCodec.WriteInto | stm32wb55-homekit/src/main.rs:1014-1039 | writes the item's encoding at the offset, returns its length, leaves the rest of the buffer as it was |
| TlvCodec.Append | stm32wb55-homekit/src/main.rs:1014-1018 | `offset += write_into(&mut buffer[offset..])` extends the bytes written so far by the item's encoding |
| Gatt.ContainsHandle | stm32wb55-homekit/src/main.rs:438-450 | true exactly for the handles in the reference range `HandleRange` of the service, which are `handle <= h < handle + max` |
| Gatt.HandleRange | stm32wb55-homekit/src/main.rs:438-443 | a reference definition, not code of the source: the `max_num_attributes` handles reserved one by one from the service handle |
| Gatt.HandleRangeMembers | stm32wb55-homekit/src/main.rs:438-450 | the reference range holds exactly `first <= h < first + count` |
| Gatt.ContainsHandleDisjoint | stm32wb55-homekit/src/main.rs:441-443 | services laid out after one another never both contain a handle |
| Gatt.CharacteristicValueSink.UpdateCharacteristicValue | stm32wb55-homekit/src/main.rs:466-472 | the coprocessor receives the update after all earlier ones |
| Gatt.SetValue | stm32wb55-homekit/src/main.rs:461-475 | a value longer than `max_len` is refused with nothing sent; otherwise exactly one update of the whole value at offset 0 |
| HapTypes.HapProperty.Mask | stm32wb55-homekit/src/main.rs:586-597 | every flag is a single bit among the low ten |
| HapTypes.Bits | stm32wb55-homekit/src/main.rs:586-597 | the bits of a set of flags stay within the ten defined ones |
| HapTypes.BitsMember | stm32wb55-homekit/src/main.rs:586-597 | a flag's bit is set exactly when the flag is in the set |
| HapTypes.BitsInjective | stm32wb55-homekit/src/main.rs:586-597 | the bits determine the set of flags |
| HapTypes.Unit.Code | stm32wb55-homekit/src/main.rs:604-611 | the `#[repr(u16)]` discriminant of each unit; `UnitCodeInjective` shows they are distinct |
| HapTypes.SecureReadBits | stm32wb55-homekit/src/main.rs:591 | `SECURE_READ` alone is 0x0010 on the wire |
| HapTypes.DefaultUnit | stm32wb55-homekit/src/main.rs:613-617 | the default unit is `Unitless`, 0x2700 |
| HapTypes.UnitCodeInjective | stm32wb55-homekit/src/main.rs:604-611 | distinct units have distinct assigned numbers |
| HapTypes.GattFormat.Code | stm32wb55-homekit/src/main.rs:621-631 | the discriminant of each format, its format byte; `GattFormatCodeInjective` shows they are distinct |
| HapTypes.GattFormatCodeInjective | stm32wb55-homekit/src/main.rs:621-631 | distinct formats have distinct format bytes |
| Protocol.ServiceSignatureBodyItems | stm32wb55-homekit/src/main.rs:963-972 | the 6-byte body is the properties item 0x0004 then an empty linked-services item, and reads back as those two |
| Protocol.GattFormatValue | stm32wb55-homekit/src/main.rs:1027-1035 | seven bytes: format, 0, LE unit, 1, 0, 0 |
| Protocol.DefaultUnitFormatValue | stm32wb55-homekit/src/main.rs:1027-1035 | with the default unit the unit bytes are 0x00, 0x27 |
| Protocol.CharacteristicSignatureItems | stm32wb55-homekit/src/main.rs:1008-1039 | five items, each short enough for its length byte |
| Protocol.CharacteristicSignatureBody | stm32wb55-homekit/src/main.rs:1041-1045 | the body is exactly 53 bytes |
| Protocol.CharacteristicSignatureBodyLayout | stm32wb55-homekit/src/main.rs:1007-1045 | positions of the UUID (0x04), the LE service id (0x07), the service UUID (0x06), the LE property bits (0x0a) and the format (0x0C); the body reads back as those five items |
| Protocol.WriteCharacteristicSignature | stm32wb55-homekit/src/main.rs:1007-1045 | filling `response_data` at an advancing offset, with `gatt_format` filled in place, yields the 53-byte body |
| Protocol.FillGattFormat | stm32wb55-homekit/src/main.rs:1027-1035 | the fresh 7-byte `gatt_format` array holds the presentation format value |
| Protocol.Answer | stm32wb55-homekit/src/main.rs:1047-1060 | answered exactly when the frame fits the signature value, with the success frame; otherwise the `.expect` panics |
| Protocol.RequestReaction | stm32wb55-homekit/src/main.rs:962-1064 | the routing table on opcode, then instance id: a service-signature read to the service id and a characteristic-signature read to the signature or version id are answered, an unowned id of the latter is rejected, all else is ignored |
| Protocol.ReactionTo | stm32wb55-homekit/src/main.rs:958-1070 | the reaction to written bytes: parser panics abort, parse failures are ignored, requests go through the routing table |
| Protocol.SendResponse | stm32wb55-homekit/src/main.rs:974-987 | framing into the fixed buffer succeeds; the outcome and the single update are those of `Answer` |
| Protocol.HandleRequest | stm32wb55-homekit/src/main.rs:962-1066 | the outcome and the sink's updates are those of the routing table `RequestReaction` |
| Protocol.HandleAttributeModified | stm32wb55-homekit/src/main.rs:958-1070 | the outcome and the sink's updates are those of `ReactionTo` on the written bytes, always to the signature characteristic |
| Protocol.ParseErrorIsDropped | stm32wb55-homekit/src/main.rs:1065-1069 | a parse error gives `Ok` and no update |
| Protocol.ParsePanicPropagates | stm32wb55-homekit/src/main.rs:960 | a parser panic is not caught |
| Protocol.ServiceSignatureRead | stm32wb55-homekit/src/main.rs:964-991 | addressed to the service id it answers `[2,tid,0,6,0,0x0f,2,4,0,0x10,0]`; addressed elsewhere it is ignored |
| Protocol.ServiceSignatureAnswer | stm32wb55-homekit/src/main.rs:972-987 | the framed service-signature answer is `[2,tid,0,6,0,0x0f,2,4,0,0x10,0]` when 11 bytes fit the signature value |
| Protocol.CharacteristicSignatureFrame | stm32wb55-homekit/src/main.rs:1047-1060 | the answer is 58 bytes: `[2, tid, 0, 53, 0]` then the body |
| Protocol.CharacteristicSignatureRead | stm32wb55-homekit/src/main.rs:994-1060 | signature is tried before version; either is answered when 58 bytes fit, else the `.expect` panics; any other id is rejected with no update |
| Protocol.OtherOpCodesIgnored | stm32wb55-homekit/src/main.rs:1062-1063 | every other opcode gives `Ok` and no update |
| Protocol.AnswersEchoTransaction | stm32wb55-homekit/src/main.rs:974 | every answer is a success frame to a parsed signature read, echoes its tid and fits the signature value |
| Protocol.CreatedServiceAlwaysDelivers | stm32wb55-homekit/src/main.rs:913-950 | as `create_ble` sets it up, the service panics only where the parser does |
| Protocol.AsCreated | stm32wb55-homekit/src/main.rs:918-941 | the configuration `create_ble` builds: service 0x10 with 10 handles, characteristics 0x11 (data) and 0x12 (string), secure-read, unitless, 100-byte values |
| Protocol.CreatedSignatureOfSignature | stm32wb55-homekit/src/main.rs:916-924 | as set up, the signature's signature carries service id 0x0010, property bits 0x0010 and format `[0x1B,0,0x00,0x27,1,0,0]` |
| Protocol.ServiceSignatureScenario | stm32wb55-homekit/src/main.rs:964-991 | the parser's test PDU makes exactly one update of the signature characteristic, to the 11-byte answer |
| Protocol.EventReaction | stm32wb55-homekit/src/main.rs:228-236 | after `handle_event` nothing is ever returned as `Err`; its cases are `EventOutsideServiceIgnored` and `EventInsideService` |
| Protocol.HandleEvent | stm32wb55-homekit/src/main.rs:228-236 | the outcome and updates are those of `EventReaction` |
| Protocol.UnknownCharacteristicPanicsEventLoop | stm32wb55-homekit/src/main.rs:231-234 | a characteristic-signature read to an unowned id in the service's handle range panics the event handler |
| Protocol.EventOutsideServiceIgnored | stm32wb55-homekit/src/main.rs:231 | writes to handles outside the service are ignored |
| Protocol.EventInsideService | stm32wb55-homekit/src/main.rs:231-234 | writes inside the service's handle range react as `ReactionTo`, except that a rejection becomes the `.expect` panic |

## Left out

- Hardware and transport: clocks, RTC, IPCC interrupts, the global radio
  coprocessor, `perform_command`, `receive_event` and the run loops. They
  are hardware I/O and interrupt-driven concurrency.
- GATT and GAP setup: `Service::new`, `add_characteristic`,
  `add_descriptor`, `HapService::new`, `HapCharacteristic::build`,
  `init_gap_and_gatt` and `init_homekit`. These are sequences of foreign
  HCI calls. Their results (instance ids, UUIDs, properties, formats,
  capacities) are immutable data here. `Protocol.AsCreated` records the
  values `create_ble` passes.
- Device identity: `get_bd_addr`, `get_random_addr`, IRK and ERK. These are
  hardware registers and constants.
- Gatt.SetValue: a rejection of the update command by the coprocessor is
  not modelled (`perform_command` is foreign). Only the `max_len` guard can
  refuse.
- Logging with `rprintln!` has no effect on the model.
- The `AttReadPermitRequest` branch of `handle_event` and the other events
  are out of scope: it is a single foreign call.
- The `tlv` module of `homekit-ble` is not part of this model. `Tlv::new`
  and `write_into` are modelled by their layout: type byte, length byte,
  value. Its decoder is an independent reference for that layout.
- TlvCodec.FromU16: the byte order of a two-byte TLV value is assumed
  little-endian. It is not visible in the modelled files.
- Response-PDU decoding is `unimplemented!` in the source, so it is modelled
  only as that panic. Request bodies are never parsed.
- 64-bit instance ids are recorded as `IidSize.Bit64` but never used by the
  source.
- Gatt.ContainsHandle: the `u16` sum `handle + max_num_attributes` is
  assumed not to overflow (precondition `NoOverflow`). The wrapping or
  panicking sum is not modelled.
- The firmware's fixed `resp_buff` sizes (50 and 70 bytes) are a
  `capacity` parameter of `Protocol.SendResponse`. Its precondition says
  the frames fit, which `HandleRequest` proves for both sizes.
