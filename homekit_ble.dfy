/**
 * The HAP-BLE PDU codec: parsing of request PDUs received in a BLE attribute
 * write, and framing of response PDUs into a caller-supplied buffer.
 */
module HomekitBle {
  import opened Wrappers
  import opened Bytes

  datatype Error = BadLength | UnsupportedPduType(code: byte) | UnknownOpCode(value: byte) | InsufficientBuffer

  /** Bit 7 of the control field. */
  datatype Fragmented = First | Continuation

  /** Bit 4 of the control field: the width of instance ids. */
  datatype IidSize = Bit16 | Bit64

  /** Bit 1 of the control field. */
  datatype PduType = Request | Response

  /** HAP status codes, table 7-37 of the HomeKit Accessory Protocol Specification. */
  datatype HapStatus =
    | Success
    | UnsupportedPdu
    | MaxProcedures
    | InsufficientAuthorization
    | InvalidInstanceId
    | InsufficientAuthentication
    | InvalidRequest
  {
    /** The status byte sent on the wire (`self.status as u8`). */
    function Code(): (c: byte)
      ensures c <= 6
      ensures (c == 0) == (this == Success)
    {
      match this
      case Success => 0x0
      case UnsupportedPdu => 0x1
      case MaxProcedures => 0x2
      case InsufficientAuthorization => 0x3
      case InvalidInstanceId => 0x4
      case InsufficientAuthentication => 0x5
      case InvalidRequest => 0x6
    }
  }

  /** HAP opcodes, table 7-8 of the HomeKit Accessory Protocol Specification, in declaration order. */
  datatype OpCode =
    | CharacteristicSignatureRead
    | CharacteristicWrite
    | CharacteristicRead
    | CharacteristicTimedWrite
    | CharacteristicExecuteWrite
    | ServiceSignatureRead
    | CharacteristicConfiguration
    | ProtocolConfiguration
  {
    /** The opcode byte a client sends for this operation: its position in the declaration, from 1. */
    function Code(): (c: byte)
      ensures 1 <= c <= 8
    {
      match this
      case CharacteristicSignatureRead => 1
      case CharacteristicWrite => 2
      case CharacteristicRead => 3
      case CharacteristicTimedWrite => 4
      case CharacteristicExecuteWrite => 5
      case ServiceSignatureRead => 6
      case CharacteristicConfiguration => 7
      case ProtocolConfiguration => 8
    }
  }

  /** `OpCode::try_from(value)`: the closed set 1..8, anything else is rejected with the byte. */
  function OpCodeTryFrom(value: byte): (r: Result<OpCode, Error>)
    ensures r.Ok? <==> 1 <= value <= 8
    ensures r.Ok? ==> r.value.Code() == value
    ensures r.Err? ==> r.error == UnknownOpCode(value)
  {
    match value
    case 1 => Ok(CharacteristicSignatureRead)
    case 2 => Ok(CharacteristicWrite)
    case 3 => Ok(CharacteristicRead)
    case 4 => Ok(CharacteristicTimedWrite)
    case 5 => Ok(CharacteristicExecuteWrite)
    case 6 => Ok(ServiceSignatureRead)
    case 7 => Ok(CharacteristicConfiguration)
    case 8 => Ok(ProtocolConfiguration)
    case other => Err(UnknownOpCode(other))
  }

  /** Decoding the wire value of an opcode gives that opcode back. */
  lemma OpCodeRoundTrip(op: OpCode)
    ensures OpCodeTryFrom(op.Code()) == Ok(op)
  {
  }

  /** Distinct opcodes have distinct wire values. */
  lemma OpCodeCodeInjective(op1: OpCode, op2: OpCode)
    requires op1.Code() == op2.Code()
    ensures op1 == op2
  {
    OpCodeRoundTrip(op1);
    OpCodeRoundTrip(op2);
  }

  /**
   * A parsed request. The header is all that is parsed: the optional request
   * body is never read, so it is not part of this record.
   */
  datatype HapRequest = HapRequest(iidSize: IidSize, opCode: OpCode, tid: byte, charId: uint16)

  /** A response: the transaction id of the request, a status and a body. `HapResponse::new`. */
  datatype HapResponse = HapResponse(tid: byte, status: HapStatus, data: seq<byte>)

  datatype HapPdu = Request(request: HapRequest) | Response(response: HapResponse)

  const ContinuationNotImplemented: string := "Continuation not yet implemented"
  const ResponseNotImplemented: string := "not implemented: Not yet implemented"
  const DataTooLong: string := "Data for HapResponse has to be < u16::MAX"

  function FragmentedOf(controlField: byte): Fragmented
  {
    if And(controlField, 0x80) == 0x80 then Fragmented.Continuation else Fragmented.First
  }

  function IidSizeOf(controlField: byte): IidSize
  {
    if And(controlField, 0x10) == 0x10 then Bit64 else Bit16
  }

  function PduTypeOf(controlField: byte): PduType
  {
    if And(controlField, 0x02) == 0x02 then PduType.Response else PduType.Request
  }

  /**
   * `HapPdu::parse`. The control byte is tested in this order: continuation
   * (an assertion failure), reserved bits 2-3 (an error carrying bits 1-3),
   * then request or response (responses are `unimplemented!`).
   */
  function Parse(data: seq<byte>): (r: Outcome<HapPdu, Error>)
    ensures |data| == 0 ==> r == Returned(Err(BadLength))
    ensures |data| > 0 && And(data[0], 0x80) != 0 ==> r == Panicked(ContinuationNotImplemented)
    ensures |data| > 0 && And(data[0], 0x80) == 0 && And(data[0], 0x0C) != 0 ==>
              r == Returned(Err(UnsupportedPduType(And(data[0], 0x0E) / 2)))
    ensures |data| > 0 && And(data[0], 0x8E) == 0x02 ==> r == Panicked(ResponseNotImplemented)
    ensures 0 < |data| < 5 && And(data[0], 0x8E) == 0 ==> r == Returned(Err(BadLength))
    ensures |data| >= 5 && And(data[0], 0x8E) == 0 && !(1 <= data[1] <= 8) ==>
              r == Returned(Err(UnknownOpCode(data[1])))
    ensures |data| >= 5 && And(data[0], 0x8E) == 0 && 1 <= data[1] <= 8 ==>
              r.Returned? && r.result.Ok? && r.result.value.Request? &&
              var req := r.result.value.request;
              req.opCode.Code() == data[1] && req.tid == data[2] &&
              req.charId == FromLe(data[3], data[4]) && req.iidSize == IidSizeOf(data[0])
  {
    if |data| == 0 then Returned(Err(BadLength))
    else
      var controlField := data[0];
      var fragmented := FragmentedOf(controlField);
      if fragmented != Fragmented.First then Panicked(ContinuationNotImplemented)
      else
        var iidSize := IidSizeOf(controlField);
        var requestType := PduTypeOf(controlField);
        if And(controlField, 0x0C) != 0 then
          // `(control_field & 0b1110) >> 1`
          Returned(Err(UnsupportedPduType(And(controlField, 0x0E) / 2)))
        else
          if requestType == PduType.Request then
            match ParseAfterControl(data[1..], iidSize)
            case Ok(request) => Returned(Ok(HapPdu.Request(request)))
            case Err(e) => Returned(Err(e))
          else
            Panicked(ResponseNotImplemented)
  }

  /** `HapRequest::parse_after_control`: the 4-byte request header after the control byte. */
  function ParseAfterControl(data: seq<byte>, iidSize: IidSize): (r: Result<HapRequest, Error>)
    ensures |data| < 4 ==> r == Err(BadLength)
    ensures |data| >= 4 ==> (r.Ok? <==> 1 <= data[0] <= 8)
    ensures |data| >= 4 && r.Err? ==> r.error == UnknownOpCode(data[0])
    ensures r.Ok? ==>
              r.value.opCode.Code() == data[0] && r.value.tid == data[1] &&
              r.value.charId == FromLe(data[2], data[3]) && r.value.iidSize == iidSize
  {
    if |data| < 4 then Err(BadLength)
    else
      match OpCodeTryFrom(data[0])
      case Err(e) => Err(e)
      case Ok(opCode) =>
        var tid := data[1];
        var charId := FromLe(data[2], data[3]);
        Ok(HapRequest(iidSize, opCode, tid, charId))
  }

  /** The control byte a client sends for an unfragmented request (bits 0, 5 and 6 clear). */
  function RequestControl(iidSize: IidSize): byte
  {
    if iidSize == Bit64 then 0x10 else 0x00
  }

  /** The five header bytes of a request PDU, as a client encodes it. */
  function RequestHeader(req: HapRequest): (bytes: seq<byte>)
    ensures |bytes| == 5
  {
    [RequestControl(req.iidSize), req.opCode.Code(), req.tid] + ToLe(req.charId)
  }

  /** Parsing an encoded request header recovers the request exactly, whatever follows it. */
  lemma ParseRequestHeader(req: HapRequest, trailing: seq<byte>)
    ensures Parse(RequestHeader(req) + trailing) == Returned(Ok(HapPdu.Request(req)))
  {
    var data := RequestHeader(req) + trailing;
    assert data[0] == RequestControl(req.iidSize);
    assert And(data[0], 0x8E) == 0 && IidSizeOf(data[0]) == req.iidSize;
    OpCodeCodeInjective(Parse(data).result.value.request.opCode, req.opCode);
    ToLeFromLe(data[3], data[4]);
  }

  /**
   * Every request that parses is a request header followed by anything: the
   * control byte agrees with the canonical one outside bits 0, 5 and 6.
   */
  lemma ParsedRequestIsHeader(data: seq<byte>)
    requires Parse(data).Returned? && Parse(data).result.Ok?
    ensures Parse(data).result.value.Request?
    ensures var req := Parse(data).result.value.request;
            |data| >= 5 && data[1..5] == RequestHeader(req)[1..5] &&
            And(data[0], 0x9E) == RequestControl(req.iidSize)
  {
    var req := Parse(data).result.value.request;
    ToLeFromLe(data[3], data[4]);
    assert data[1..5] == [data[1], data[2]] + [data[3], data[4]];
  }

  /**
   * Two parse outcomes agree on everything except the instance-id width: the
   * same panic, the same error, or requests with the same opcode, transaction
   * id and instance id.
   */
  predicate SameHeaderFields(r1: Outcome<HapPdu, Error>, r2: Outcome<HapPdu, Error>)
  {
    match (r1, r2)
    case (Panicked(m1), Panicked(m2)) => m1 == m2
    case (Returned(Err(e1)), Returned(Err(e2))) => e1 == e2
    case (Returned(Ok(Request(q1))), Returned(Ok(Request(q2)))) =>
      q1.opCode == q2.opCode && q1.tid == q2.tid && q1.charId == q2.charId
    case _ => false
  }

  /**
   * Bits 0, 4, 5 and 6 of the control byte and the bytes after the header have
   * no effect on the opcode, transaction id and instance id that are parsed.
   */
  lemma IgnoredControlBits(cf1: byte, cf2: byte, header: seq<byte>, trailing1: seq<byte>, trailing2: seq<byte>)
    requires And(cf1, 0x8E) == And(cf2, 0x8E)
    requires |header| == 4
    ensures SameHeaderFields(Parse([cf1] + header + trailing1), Parse([cf2] + header + trailing2))
  {
    var d1, d2 := [cf1] + header + trailing1, [cf2] + header + trailing2;
    assert d1[1..5] == d2[1..5] == header;
    assert And(d1[0], 0x80) == And(d2[0], 0x80) && And(d1[0], 0x0C) == And(d2[0], 0x0C);
    assert And(d1[0], 0x0E) == And(d2[0], 0x0E);
    var r1 := Parse(d1);
    if r1.Returned? && r1.result.Ok? {
      OpCodeCodeInjective(r1.result.value.request.opCode, Parse(d2).result.value.request.opCode);
    }
  }

  /** The parser's unit test on a service-signature read: opcode 6, transaction id 1, instance id 0x10. */
  lemma ParseServiceSignaturePdu()
    ensures Parse([0, 6, 1, 0x10, 0, 0, 0, 0, 0, 0, 0, 0, 0, 0, 0, 0]) ==
            Returned(Ok(HapPdu.Request(HapRequest(Bit16, ServiceSignatureRead, 1, 0x10))))
  {
    var data: seq<byte> := [0, 6, 1, 0x10, 0, 0, 0, 0, 0, 0, 0, 0, 0, 0, 0, 0];
    assert And(data[0], 0x8E) == 0 && And(data[0], 0x10) == 0;
    OpCodeCodeInjective(Parse(data).result.value.request.opCode, ServiceSignatureRead);
  }

  /** The parser's unit test on a PDU that is too small: four bytes are not a request. */
  lemma ParsePduTooSmall()
    ensures Parse([0, 0, 0, 0]) == Returned(Err(BadLength))
  {
    assert And(0, 0x8E) == 0;
  }

  /** `HapResponse::size`: 3 header bytes, plus a 2-byte length and the body when there is one. */
  function Size(response: HapResponse): (n: nat)
    ensures n >= 3 && (n == 3 <==> |response.data| == 0)
    ensures |response.data| > 0 ==> n == |response.data| + 5
    ensures |response.data| <= 0xFFFF ==> n == |Frame(response)|
  {
    var headerLen := 3;
    var bodyLen := if |response.data| > 0 then |response.data| + 2 else 0;
    headerLen + bodyLen
  }

  /**
   * The bytes of a response PDU: control field 2 (an unfragmented response),
   * transaction id, status, then the little-endian body length and the body
   * when the body is not empty.
   */
  function Frame(response: HapResponse): (bytes: seq<byte>)
    requires |response.data| <= 0xFFFF
  {
    [2, response.tid, response.status.Code()] +
    (if |response.data| > 0 then ToLe(|response.data|) + response.data else [])
  }

  /** The frame spells out each field of the response at its fixed position. */
  lemma FrameLayout(response: HapResponse)
    requires |response.data| <= 0xFFFF
    ensures var f := Frame(response);
            |f| == Size(response) && f[0] == 2 && f[1] == response.tid && f[2] == response.status.Code() &&
            (|response.data| > 0 ==> FromLe(f[3], f[4]) == |response.data| && f[5..] == response.data)
  {
    var f := Frame(response);
    if |response.data| > 0 {
      assert f[3..5] == ToLe(|response.data|);
      assert f[5..] == response.data;
    }
  }

  /** Two valid responses with the same frame are the same response. */
  lemma FrameInjective(r1: HapResponse, r2: HapResponse)
    requires |r1.data| <= 0xFFFF && |r2.data| <= 0xFFFF
    requires Frame(r1) == Frame(r2)
    ensures r1 == r2
  {
    FrameLayout(r1);
    FrameLayout(r2);
    assert r1.status.Code() == r2.status.Code();
    if |r1.data| == 0 {
      assert |Frame(r2)| == 3;
    } else {
      assert |Frame(r2)| != 3;
    }
  }

  /**
   * `HapResponse::write_into`. The capacity check comes first and leaves the
   * buffer as it was; a body longer than the 16-bit length field panics only
   * once the buffer is big enough; otherwise the frame occupies the first
   * `Size` bytes and the rest of the buffer is untouched.
   */
  method WriteInto(response: HapResponse, buffer: array<byte>) returns (r: Outcome<(), Error>)
    modifies buffer
    ensures Size(response) > buffer.Length ==>
              r == Returned(Err(InsufficientBuffer)) && buffer[..] == old(buffer[..])
    ensures Size(response) <= buffer.Length && |response.data| > 0xFFFF ==>
              r == Panicked(DataTooLong) && buffer[..] == old(buffer[..])
    ensures Size(response) <= buffer.Length && |response.data| <= 0xFFFF ==>
              r == Returned(Ok(())) &&
              buffer[..Size(response)] == Frame(response) &&
              buffer[Size(response)..] == old(buffer[Size(response)..])
  {
    var size := Size(response);
    if size > buffer.Length {
      return Returned(Err(InsufficientBuffer));
    }
    var len := |response.data|;
    if len > 0xFFFF {
      return Panicked(DataTooLong);
    }
    buffer[0] := 2;
    buffer[1] := response.tid;
    buffer[2] := response.status.Code();
    if len > 0 {
      buffer[3] := len % 256;         // `len as u8`
      buffer[4] := (len / 256) % 256; // `(len >> 8) as u8`
      // `copy_from_slice` of the body into `buffer[5..5 + len]`
      var i := 0;
      while i < len
        invariant 0 <= i <= len
        invariant buffer[..5] == [2, response.tid, response.status.Code()] + ToLe(len)
        invariant buffer[5..5 + i] == response.data[..i]
        invariant buffer[5 + len..] == old(buffer[5 + len..])
      {
        buffer[5 + i] := response.data[i];
        i := i + 1;
      }
      assert response.data[..i] == response.data;
      ghost var after := buffer[..];
      assert after[..size] == after[..5] + after[5..5 + len];
      assert Frame(response) == [2, response.tid, response.status.Code()] + ToLe(len) + response.data;
    } else {
      assert Frame(response) == [2, response.tid, response.status.Code()];
    }
    return Returned(Ok(()));
  }
}
