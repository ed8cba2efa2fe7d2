/**
 * The HAP Protocol Information service of the accessory firmware: it answers
 * service-signature and characteristic-signature reads addressed to itself or
 * to its two characteristics, always by updating the value of its signature
 * characteristic.
 */
module Protocol {
  import opened Wrappers
  import opened Bytes
  import opened HomekitBle
  import opened TlvCodec
  import opened Gatt
  import opened HapTypes

  /** `ProtocolService`: the service and its version and signature characteristics. */
  datatype ProtocolService = ProtocolService(service: HapService, version: HapCharacteristic, signature: HapCharacteristic)

  /** `HapAccessory`: the services whose events the firmware handles. */
  datatype HapAccessory = HapAccessory(protocolService: ProtocolService)

  /** The panic messages of `.expect(msg)` on an `Err(())`: the message, then the `()` error. */
  const ServiceSignatureFailed: string := "Failed to set value for ServiceSignatureRead: ()"
  const CharacteristicSignatureFailed: string := "Failed to set value for CharacteristicSignatureRead: ()"
  const AttributeModifiedFailed: string := "Failed to handle AttributeModified event: ()"

  /**
   * The body of a service-signature read: the service-properties item (type
   * 0x0f) with the value 0x0004, "supports configuration", and an empty
   * linked-services item (type 0x10).
   */
  const ServiceSignatureBody: seq<byte> := [0x0f, 0x02, 0x04, 0x00, 0x10, 0x00]

  /** The service-signature body is exactly the two items, properties first. */
  lemma ServiceSignatureBodyItems()
    ensures ServiceSignatureBody == EncodeAll([FromU16(0x0f, 0x0004), Tlv(0x10, [])])
    ensures DecodeAll(ServiceSignatureBody) == Some([FromU16(0x0f, 0x0004), Tlv(0x10, [])])
  {
    var properties, linked := FromU16(0x0f, 0x0004), Tlv(0x10, []);
    var items := [properties, linked];
    assert properties == Tlv(0x0f, [0x04, 0x00]);
    assert items[1..] == [linked] && items[1..][1..] == [];
    assert EncodeAll([linked]) == Encode(linked) == [0x10, 0x00];
    assert EncodeAll(items) == Encode(properties) + [0x10, 0x00];
    DecodeAllEncodeAll(items);
  }

  /**
   * The 7-byte GATT Characteristic Presentation Format value of a
   * characteristic (section 3.3.3.5 of Vol 3, Part G of the Bluetooth Core
   * Specification): format, exponent 0, unit, name space 1, description 0.
   */
  function GattFormatValue(ch: HapCharacteristic): (v: seq<byte>)
    ensures |v| == 7 && v[0] == ch.format.Code() && v[1] == 0
    ensures FromLe(v[2], v[3]) == ch.unit.Code()
    ensures v[4] == 1 && v[5] == 0 && v[6] == 0
  {
    [ch.format.Code(), 0] + ToLe(ch.unit.Code()) + [1, 0, 0]
  }

  /** With the default unit the unit bytes are 0x00, 0x27. */
  lemma DefaultUnitFormatValue(ch: HapCharacteristic)
    requires ch.unit == DefaultUnit()
    ensures GattFormatValue(ch) == [ch.format.Code(), 0, 0x00, 0x27, 1, 0, 0]
  {
  }

  /** The items of a characteristic-signature read, in the order they are written. */
  function CharacteristicSignatureItems(ps: ProtocolService, ch: HapCharacteristic): (ts: seq<Tlv>)
    ensures |ts| == 5 && AllEncodable(ts)
  {
    [ Tlv(0x04, ch.uuid),                          // characteristic type
      FromU16(0x07, ps.service.instanceId),        // service instance id
      Tlv(0x06, ps.service.uuid),                  // service type
      FromU16(0x0a, BitsValue(ch.properties)),     // HAP properties
      Tlv(0x0C, GattFormatValue(ch)) ]             // GATT presentation format
  }

  /** The body of a characteristic-signature read: its items back to back. */
  function CharacteristicSignatureBody(ps: ProtocolService, ch: HapCharacteristic): (b: seq<byte>)
    ensures |b| == 53
  {
    var ts := CharacteristicSignatureItems(ps, ch);
    FiveItemsLayout(ts[0], ts[1], ts[2], ts[3], ts[4]);
    assert ts == [ts[0], ts[1], ts[2], ts[3], ts[4]];
    EncodeAll(ts)
  }

  /**
   * The 53-byte characteristic-signature body holds, at fixed positions,
   * the characteristic UUID, the service instance id, the service UUID, the
   * property bits and the presentation format, each behind its type and
   * length bytes; and it reads back as exactly those five items.
   */
  lemma CharacteristicSignatureBodyLayout(ps: ProtocolService, ch: HapCharacteristic)
    ensures var b := CharacteristicSignatureBody(ps, ch);
            b[0] == 0x04 && b[1] == 16 && b[2..18] == ch.uuid &&
            b[18] == 0x07 && b[19] == 2 && b[20..22] == ToLe(ps.service.instanceId) &&
            b[22] == 0x06 && b[23] == 16 && b[24..40] == ps.service.uuid &&
            b[40] == 0x0a && b[41] == 2 && b[42..44] == ToLe(BitsValue(ch.properties)) &&
            b[44] == 0x0C && b[45] == 7 && b[46..53] == GattFormatValue(ch)
    ensures DecodeAll(CharacteristicSignatureBody(ps, ch)) == Some(CharacteristicSignatureItems(ps, ch))
  {
    var ts := CharacteristicSignatureItems(ps, ch);
    assert ts == [ts[0], ts[1], ts[2], ts[3], ts[4]];
    FiveItemsLayout(ts[0], ts[1], ts[2], ts[3], ts[4]);
    DecodeAllEncodeAll(ts);
  }

  /** What handling one attribute write does, seen from outside. */
  datatype Reaction =
    | Ignored                    // returns Ok, nothing is sent
    | Rejected                   // returns Err, nothing is sent
    | Answered(value: seq<byte>) // returns Ok after setting the signature characteristic's value
    | Aborted(message: string)   // panics
  {
    function AsOutcome(): Outcome<(), ()>
    {
      match this
      case Ignored => Returned(Ok(()))
      case Rejected => Returned(Err(()))
      case Answered(_) => Returned(Ok(()))
      case Aborted(m) => Panicked(m)
    }

    /** The value updates sent to the coprocessor: one to `c` for an answer, none otherwise. */
    function Updates(c: Characteristic): seq<ValueUpdate>
    {
      if Answered? then [ValueUpdate(c.service, c.characteristic, 0, value)] else []
    }
  }

  /**
   * Answering with a success response carrying `body`: the framed response
   * becomes the signature characteristic's value, unless it is longer than
   * that value can be, when the `.expect` on `set_value` panics.
   */
  function Answer(ps: ProtocolService, tid: byte, body: seq<byte>, message: string): (r: Reaction)
    requires |body| <= 0xFFFF
    ensures r.Answered? <==> Size(HapResponse(tid, Success, body)) <= ps.signature.characteristic.maxLen
    ensures r.Answered? ==> r.value == Frame(HapResponse(tid, Success, body))
    ensures !r.Answered? ==> r == Aborted(message)
  {
    var value := Frame(HapResponse(tid, Success, body));
    if |value| > ps.signature.characteristic.maxLen then Aborted(message) else Answered(value)
  }

  /** The reaction to a request that parsed: route on the opcode, then on the instance id. */
  function RequestReaction(ps: ProtocolService, pdu: HapRequest): Reaction
  {
    match pdu.opCode
    case ServiceSignatureRead =>
      if pdu.charId == ps.service.instanceId then
        Answer(ps, pdu.tid, ServiceSignatureBody, ServiceSignatureFailed)
      else
        Ignored
    case CharacteristicSignatureRead =>
      if pdu.charId == ps.signature.instanceId then
        Answer(ps, pdu.tid, CharacteristicSignatureBody(ps, ps.signature), CharacteristicSignatureFailed)
      else if pdu.charId == ps.version.instanceId then
        Answer(ps, pdu.tid, CharacteristicSignatureBody(ps, ps.version), CharacteristicSignatureFailed)
      else
        Rejected
    case _ => Ignored
  }

  /**
   * The reaction of `ProtocolService::handle_attribute_modified` to the bytes
   * of an attribute write: a panic of the parser propagates, a PDU that does
   * not parse as a request is dropped, and a request is routed.
   */
  function ReactionTo(ps: ProtocolService, data: seq<byte>): Reaction
  {
    match Parse(data)
    case Panicked(m) => Aborted(m)
    case Returned(Err(_)) => Ignored
    case Returned(Ok(Response(_))) => Ignored
    case Returned(Ok(Request(pdu))) => RequestReaction(ps, pdu)
  }

  /** `ProtocolService::handle_attribute_modified`. */
  method HandleAttributeModified(ps: ProtocolService, modified: GattAttributeModified, sink: CharacteristicValueSink)
    returns (r: Outcome<(), ()>)
    modifies sink
    ensures r == ReactionTo(ps, modified.data).AsOutcome()
    ensures sink.updates == old(sink.updates) + ReactionTo(ps, modified.data).Updates(ps.signature.characteristic)
  {
    var parsed := Parse(modified.data);
    if parsed.Panicked? {
      return Panicked(parsed.message);
    }
    if !(parsed.result.Ok? && parsed.result.value.Request?) {
      // "Failed to parse HAP PDU."
      return Returned(Ok(()));
    }
    r := HandleRequest(ps, parsed.result.value.request, sink);
  }

  /** The body of `handle_attribute_modified` for a request that parsed. */
  method HandleRequest(ps: ProtocolService, pdu: HapRequest, sink: CharacteristicValueSink)
    returns (r: Outcome<(), ()>)
    modifies sink
    ensures r == RequestReaction(ps, pdu).AsOutcome()
    ensures sink.updates == old(sink.updates) + RequestReaction(ps, pdu).Updates(ps.signature.characteristic)
  {
    match pdu.opCode {
      case ServiceSignatureRead =>
        if pdu.charId == ps.service.instanceId {
          // We don't link to any services; the service supports configuration.
          var responseData := ServiceSignatureBody;
          r := SendResponse(ps, pdu.tid, responseData, 50, ServiceSignatureFailed, sink);
          return;
        }
      case CharacteristicSignatureRead =>
        var characteristic;
        if pdu.charId == ps.signature.instanceId {
          characteristic := ps.signature;
        } else if pdu.charId == ps.version.instanceId {
          characteristic := ps.version;
        } else {
          // "Characteristic with ID .. is not part of this service."
          return Returned(Err(()));
        }
        var responseData := WriteCharacteristicSignature(ps, characteristic);
        r := SendResponse(ps, pdu.tid, responseData, 70, CharacteristicSignatureFailed, sink);
        return;
      case _ =>
        // Ignore other op codes
    }
    return Returned(Ok(()));
  }

  /**
   * Frames a success response into a fresh `[0u8; capacity]` buffer (the
   * `.expect` on `write_into` never fires: the frame fits) and sets the
   * signature characteristic's value to the frame.
   */
  method SendResponse(ps: ProtocolService, tid: byte, body: seq<byte>, capacity: nat, message: string,
                      sink: CharacteristicValueSink)
    returns (r: Outcome<(), ()>)
    requires |body| <= 0xFFFF && Size(HapResponse(tid, Success, body)) <= capacity
    modifies sink
    ensures r == Answer(ps, tid, body, message).AsOutcome()
    ensures sink.updates == old(sink.updates) + Answer(ps, tid, body, message).Updates(ps.signature.characteristic)
  {
    var response := HapResponse(tid, Success, body);
    var respBuff := new byte[capacity](_ => 0);
    var written := HomekitBle.WriteInto(response, respBuff);
    assert written == Returned(Ok(()));
    var setResult := SetValue(ps.signature.characteristic, respBuff[..Size(response)], sink);
    if setResult.Err? {
      return Panicked(message);
    }
    return Returned(Ok(()));
  }

  /**
   * The part of `handle_attribute_modified` that fills the 53-byte
   * `response_data` array: five items written at an advancing offset, the
   * last one from a 7-byte `gatt_format` array filled in place; the offset
   * ends at exactly 53.
   */
  method WriteCharacteristicSignature(ps: ProtocolService, ch: HapCharacteristic) returns (body: seq<byte>)
    ensures body == CharacteristicSignatureBody(ps, ch)
  {
    var responseData := new byte[53](_ => 0);
    var offset := 0;

    // characteristic type
    var characteristicUuid := Tlv(0x04, ch.uuid);
    offset := Append(characteristicUuid, responseData, offset, []);
    // service id
    var serviceId := FromU16(0x07, ps.service.instanceId);
    offset := Append(serviceId, responseData, offset, Encode(characteristicUuid));
    // service type
    var serviceUuid := Tlv(0x06, ps.service.uuid);
    offset := Append(serviceUuid, responseData, offset, Encode(characteristicUuid) + Encode(serviceId));
    // properties
    var properties := FromU16(0x0a, BitsValue(ch.properties));
    offset := Append(properties, responseData, offset,
                     Encode(characteristicUuid) + Encode(serviceId) + Encode(serviceUuid));

    var gattFormat := FillGattFormat(ch);

    // GATT format
    var format := Tlv(0x0C, gattFormat[..]);
    offset := Append(format, responseData, offset,
                     Encode(characteristicUuid) + Encode(serviceId) + Encode(serviceUuid) + Encode(properties));

    assert offset == responseData.Length;
    assert responseData[..] == responseData[..offset];
    EncodeFive(characteristicUuid, serviceId, serviceUuid, properties, format);
    assert [characteristicUuid, serviceId, serviceUuid, properties, format] == CharacteristicSignatureItems(ps, ch);
    body := responseData[..];
  }

  /** The 7-byte `gatt_format` array, filled in place. */
  method FillGattFormat(ch: HapCharacteristic) returns (gattFormat: array<byte>)
    ensures fresh(gattFormat)
    ensures gattFormat[..] == GattFormatValue(ch)
  {
    gattFormat := new byte[7](_ => 0);
    gattFormat[0] := ch.format.Code();
    var unit := ToLe(ch.unit.Code());
    gattFormat[2] := unit[0];
    gattFormat[3] := unit[1];
    // namespace
    gattFormat[4] := 1;
  }

  /**
   * The reaction of `HapAccessory::handle_event` to an attribute-modified
   * event: only writes to a handle of the protocol service are passed on,
   * and an `Err` from it is turned into a panic by `.expect`.
   */
  function EventReaction(acc: HapAccessory, modified: GattAttributeModified): (r: Reaction)
    requires NoOverflow(acc.protocolService.service.service)
    ensures !r.Rejected?
  {
    var ps := acc.protocolService;
    if !ContainsHandle(ps.service.service, modified.attrHandle) then Ignored
    else
      var reaction := ReactionTo(ps, modified.data);
      if reaction.Rejected? then Aborted(AttributeModifiedFailed) else reaction
  }

  /** The `GattAttributeModified` branch of `HapAccessory::handle_event`. */
  method HandleEvent(acc: HapAccessory, modified: GattAttributeModified, sink: CharacteristicValueSink)
    returns (r: Outcome<(), ()>)
    requires NoOverflow(acc.protocolService.service.service)
    modifies sink
    ensures r == EventReaction(acc, modified).AsOutcome()
    ensures sink.updates == old(sink.updates) + EventReaction(acc, modified).Updates(acc.protocolService.signature.characteristic)
  {
    var ps := acc.protocolService;
    if ContainsHandle(ps.service.service, modified.attrHandle) {
      var handled := HandleAttributeModified(ps, modified, sink);
      if handled == Returned(Err(())) {
        return Panicked(AttributeModifiedFailed);
      }
      return handled;
    }
    return Returned(Ok(()));
  }

  // Properties of the dispatcher

  /** A write that the parser rejects is dropped: `Ok`, and nothing is sent. */
  lemma ParseErrorIsDropped(ps: ProtocolService, data: seq<byte>)
    requires Parse(data).Returned? && Parse(data).result.Err?
    ensures ReactionTo(ps, data) == Ignored
    ensures ReactionTo(ps, data).AsOutcome() == Returned(Ok(())) && ReactionTo(ps, data).Updates(ps.signature.characteristic) == []
  {
  }

  /** A panic of the parser (a continuation or a response PDU) is not caught. */
  lemma ParsePanicPropagates(ps: ProtocolService, data: seq<byte>)
    requires Parse(data).Panicked?
    ensures ReactionTo(ps, data) == Aborted(Parse(data).message)
  {
  }

  /**
   * A service-signature read addressed to the service's own instance id is
   * answered by the 11-byte frame: success, the transaction id echoed, and
   * the 6-byte body. Addressed to any other id it is ignored.
   */
  lemma ServiceSignatureRead(ps: ProtocolService, data: seq<byte>)
    requires |data| >= 5 && And(data[0], 0x8E) == 0 && data[1] == 6
    ensures FromLe(data[3], data[4]) == ps.service.instanceId && ps.signature.characteristic.maxLen >= 11 ==>
              ReactionTo(ps, data) == Answered([2, data[2], 0, 6, 0, 0x0f, 0x02, 0x04, 0x00, 0x10, 0x00])
    ensures FromLe(data[3], data[4]) != ps.service.instanceId ==> ReactionTo(ps, data) == Ignored
  {
    var pdu := Parse(data).result.value.request;
    OpCodeCodeInjective(pdu.opCode, OpCode.ServiceSignatureRead);
    assert ReactionTo(ps, data) == RequestReaction(ps, pdu);
    if pdu.charId == ps.service.instanceId && ps.signature.characteristic.maxLen >= 11 {
      ServiceSignatureAnswer(ps, pdu.tid);
    }
  }

  /** The framed service-signature answer. */
  lemma ServiceSignatureAnswer(ps: ProtocolService, tid: byte)
    requires ps.signature.characteristic.maxLen >= 11
    ensures Answer(ps, tid, ServiceSignatureBody, ServiceSignatureFailed) ==
            Answered([2, tid, 0, 6, 0, 0x0f, 0x02, 0x04, 0x00, 0x10, 0x00])
  {
    var frame := Frame(HapResponse(tid, Success, ServiceSignatureBody));
    assert frame == [2, tid, 0] + ToLe(6) + ServiceSignatureBody;
  }

  /** The answer to a characteristic-signature read: a 58-byte success frame around the 53-byte body. */
  lemma CharacteristicSignatureFrame(tid: byte, body: seq<byte>)
    requires |body| == 53
    ensures var f := Frame(HapResponse(tid, Success, body));
            |f| == 58 && f[..5] == [2, tid, 0, 53, 0] && f[5..] == body
  {
    var f := Frame(HapResponse(tid, Success, body));
    assert f == [2, tid, 0] + ToLe(53) + body;
  }

  /**
   * A characteristic-signature read is answered with the signature of the
   * signature characteristic if it is addressed to it, else with that of the
   * version characteristic if it is addressed to that one, and is rejected
   * (`Err`, nothing sent) if it is addressed to neither.
   */
  lemma CharacteristicSignatureRead(ps: ProtocolService, data: seq<byte>)
    requires |data| >= 5 && And(data[0], 0x8E) == 0 && data[1] == 1
    ensures var id, tid := FromLe(data[3], data[4]), data[2];
            var fits := ps.signature.characteristic.maxLen >= 58;
            (id == ps.signature.instanceId && fits ==>
               ReactionTo(ps, data) == Answered(Frame(HapResponse(tid, Success, CharacteristicSignatureBody(ps, ps.signature))))) &&
            (id != ps.signature.instanceId && id == ps.version.instanceId && fits ==>
               ReactionTo(ps, data) == Answered(Frame(HapResponse(tid, Success, CharacteristicSignatureBody(ps, ps.version))))) &&
            ((id == ps.signature.instanceId || id == ps.version.instanceId) && !fits ==>
               ReactionTo(ps, data) == Aborted(CharacteristicSignatureFailed)) &&
            (id != ps.signature.instanceId && id != ps.version.instanceId ==> ReactionTo(ps, data) == Rejected)
  {
    OpCodeCodeInjective(Parse(data).result.value.request.opCode, OpCode.CharacteristicSignatureRead);
  }

  /** Requests with any other opcode are ignored. */
  lemma OtherOpCodesIgnored(ps: ProtocolService, data: seq<byte>)
    requires |data| >= 5 && And(data[0], 0x8E) == 0 && 2 <= data[1] <= 8 && data[1] != 6
    ensures ReactionTo(ps, data) == Ignored
  {
    var op := Parse(data).result.value.request.opCode;
    assert op != OpCode.ServiceSignatureRead && op != OpCode.CharacteristicSignatureRead;
  }

  /**
   * Whatever is answered is a success response to the request that was
   * parsed, echoing its transaction id, and fits the signature value.
   */
  lemma AnswersEchoTransaction(ps: ProtocolService, data: seq<byte>)
    requires ReactionTo(ps, data).Answered?
    ensures Parse(data).Returned? && Parse(data).result.Ok? && Parse(data).result.value.Request?
    ensures var v, pdu := ReactionTo(ps, data).value, Parse(data).result.value.request;
            |v| <= ps.signature.characteristic.maxLen && |v| > 3 &&
            v[0] == 2 && v[1] == pdu.tid && v[2] == Success.Code() &&
            (pdu.opCode == OpCode.ServiceSignatureRead || pdu.opCode == OpCode.CharacteristicSignatureRead)
  {
    var pdu := Parse(data).result.value.request;
    var v := ReactionTo(ps, data).value;
    if pdu.opCode == OpCode.ServiceSignatureRead {
      FrameLayout(HapResponse(pdu.tid, Success, ServiceSignatureBody));
    } else {
      var ch := if pdu.charId == ps.signature.instanceId then ps.signature else ps.version;
      FrameLayout(HapResponse(pdu.tid, Success, CharacteristicSignatureBody(ps, ch)));
    }
  }

  /**
   * The protocol service as `ProtocolService::create_ble` sets it up: service
   * instance id 0x10 with 10 attribute handles, the signature characteristic
   * 0x11 (opaque data) and the version characteristic 0x12 (a string), both
   * secure-read, unitless, with values of up to 100 bytes.
   */
  predicate AsCreated(ps: ProtocolService)
  {
    ps.service.instanceId == 0x10 && ps.service.service.maxNumAttributes == 10 &&
    ps.signature.instanceId == 0x11 && ps.signature.properties == {SecureRead} &&
    ps.signature.format == GattFormat.Data && ps.signature.unit == DefaultUnit() &&
    ps.signature.characteristic.maxLen == 100 &&
    ps.version.instanceId == 0x12 && ps.version.properties == {SecureRead} &&
    ps.version.format == GattFormat.String && ps.version.unit == DefaultUnit() &&
    ps.version.characteristic.maxLen == 100
  }

  /** As set up, the service never fails to deliver an answer: it panics only where the parser does. */
  lemma CreatedServiceAlwaysDelivers(ps: ProtocolService, data: seq<byte>)
    requires AsCreated(ps)
    ensures ReactionTo(ps, data).Aborted? ==> Parse(data).Panicked?
  {
    // both answers, of 6 + 5 and 53 + 5 bytes, fit the 100-byte value
    assert |ServiceSignatureBody| == 6;
    assert |CharacteristicSignatureBody(ps, ps.signature)| == 53;
    assert |CharacteristicSignatureBody(ps, ps.version)| == 53;
  }

  /** As set up, the signature characteristic's own signature carries property bits 0x0010 and format 0x1B, unitless. */
  lemma CreatedSignatureOfSignature(ps: ProtocolService)
    requires AsCreated(ps)
    ensures var b := CharacteristicSignatureBody(ps, ps.signature);
            b[18] == 0x07 && b[19] == 2 && b[20] == 0x10 && b[21] == 0x00 &&
            b[40] == 0x0a && b[41] == 2 && b[42] == 0x10 && b[43] == 0x00 &&
            b[44] == 0x0C && b[45] == 7 && b[46..53] == [0x1B, 0, 0x00, 0x27, 1, 0, 0]
  {
    var b := CharacteristicSignatureBody(ps, ps.signature);
    CharacteristicSignatureBodyLayout(ps, ps.signature);
    SecureReadBits();
    DefaultUnitFormatValue(ps.signature);
    PairAt(b, 20, 0x10);
    PairAt(b, 42, 0x10);
  }

  /** Two bytes that spell a value in little-endian order, one by one. */
  lemma PairAt(b: seq<byte>, i: nat, v: uint16)
    requires i + 2 <= |b| && b[i..i + 2] == ToLe(v)
    ensures b[i] == v % 256 && b[i + 1] == v / 256
  {
    assert b[i] == b[i..i + 2][0] && b[i + 1] == b[i..i + 2][1];
  }

  /**
   * The service-signature scenario: a read with transaction id 1 addressed
   * to instance id 0x10 makes exactly one update, of the signature
   * characteristic, to the 11-byte answer.
   */
  lemma ServiceSignatureScenario(ps: ProtocolService)
    requires AsCreated(ps)
    ensures var data: seq<byte> := [0, 6, 1, 0x10, 0, 0, 0, 0, 0, 0, 0, 0, 0, 0, 0, 0];
            ReactionTo(ps, data).Updates(ps.signature.characteristic) ==
            [ValueUpdate(ps.signature.characteristic.service, ps.signature.characteristic.characteristic, 0,
                         [2, 1, 0, 6, 0, 0x0f, 0x02, 0x04, 0x00, 0x10, 0x00])]
  {
    var data: seq<byte> := [0, 6, 1, 0x10, 0, 0, 0, 0, 0, 0, 0, 0, 0, 0, 0, 0];
    assert And(data[0], 0x8E) == 0;
    ServiceSignatureRead(ps, data);
  }

  /**
   * A characteristic-signature read written to a handle of the protocol
   * service but addressed to an instance id it does not own (here 0x99)
   * makes the `handle_attribute_modified` call return `Err`, which
   * `handle_event` turns into a panic.
   */
  lemma UnknownCharacteristicPanicsEventLoop(acc: HapAccessory, handle: uint16, tid: byte)
    requires AsCreated(acc.protocolService)
    requires NoOverflow(acc.protocolService.service.service)
    requires ContainsHandle(acc.protocolService.service.service, handle)
    ensures EventReaction(acc, GattAttributeModified(handle, [0, 1, tid, 0x99, 0])) == Aborted(AttributeModifiedFailed)
  {
    var ps := acc.protocolService;
    var data: seq<byte> := [0, 1, tid, 0x99, 0];
    assert And(data[0], 0x8E) == 0;
    var pdu := Parse(data).result.value.request;
    OpCodeCodeInjective(pdu.opCode, OpCode.CharacteristicSignatureRead);
    assert pdu.charId == 0x99;
    assert ReactionTo(ps, data) == RequestReaction(ps, pdu) == Rejected;
  }

  /** Writes to handles outside the protocol service are not looked at. */
  lemma EventOutsideServiceIgnored(acc: HapAccessory, modified: GattAttributeModified)
    requires NoOverflow(acc.protocolService.service.service)
    requires !ContainsHandle(acc.protocolService.service.service, modified.attrHandle)
    ensures EventReaction(acc, modified) == Ignored
  {
  }

  /**
   * Writes to handles of the protocol service are handled as
   * `handle_attribute_modified` reacts to their bytes, except that a
   * rejection makes the `.expect` panic.
   */
  lemma EventInsideService(acc: HapAccessory, modified: GattAttributeModified)
    requires NoOverflow(acc.protocolService.service.service)
    requires ContainsHandle(acc.protocolService.service.service, modified.attrHandle)
    ensures ReactionTo(acc.protocolService, modified.data).Rejected? ==>
              EventReaction(acc, modified) == Aborted(AttributeModifiedFailed)
    ensures !ReactionTo(acc.protocolService, modified.data).Rejected? ==>
              EventReaction(acc, modified) == ReactionTo(acc.protocolService, modified.data)
  {
  }
}
