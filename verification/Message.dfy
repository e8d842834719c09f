/** The S7 message frame: a 10-byte header (12 in an answer), a parameter section and a data section. */
module Message {
  import opened Octets

  const PROTOCOL_ID: byte := 0x32
  const HEADER_SIZE := 10
  const ACK_HEADER_SIZE := 12

  const ROSCTR_JOB: byte := 0x01
  const ROSCTR_ACK: byte := 0x02
  const ROSCTR_ACK_DATA: byte := 0x03
  const ROSCTR_USERDATA: byte := 0x07

  const FUNC_SETUP: byte := 0xF0
  const FUNC_READ: byte := 0x04
  const FUNC_WRITE: byte := 0x05

  const RET_SUCCESS: byte := 0xFF
  const RET_ACCESS: byte := 0x03
  const RET_ADDRESS: byte := 0x05
  const RET_TYPE: byte := 0x06
  const RET_SIZE: byte := 0x07
  const RET_NOT_AVAILABLE: byte := 0x0A

  datatype Header = Header(
    rosctr: byte, redundancyId: u16, pduRef: u16, paramLength: u16, dataLength: u16,
    errorClass: byte, errorCode: byte)

  datatype HeaderError = ShortHeader | BadProtocolId | ShortAckHeader | PayloadLength

  datatype ParsedHeader = Parsed(header: Header, rest: bytes) | Unparsed(error: HeaderError)

  /** A header; None when a length does not fit its 16-bit field. */
  function EncodeS7Header(rosctr: byte, pduRef: u16, paramLen: int, dataLen: int): Option<bytes> {
    if 0 <= paramLen < 0x1_0000 && 0 <= dataLen < 0x1_0000 then
      Some([PROTOCOL_ID, rosctr, 0, 0] + PutU16(pduRef) + PutU16(paramLen) + PutU16(dataLen))
    else
      None
  }

  function EncodeMessage(rosctr: byte, pduRef: u16, param: bytes, data: bytes): Option<bytes> {
    match EncodeS7Header(rosctr, pduRef, |param|, |data|)
    case None => None
    case Some(header) => Some(header + param + data)
  }

  function EncodeAckData(pduRef: u16, errClass: byte, errCode: byte, param: bytes, data: bytes): Option<bytes> {
    match EncodeS7Header(ROSCTR_ACK_DATA, pduRef, |param|, |data|)
    case None => None
    case Some(header) => Some(header + [errClass, errCode] + param + data)
  }

  predicate IsAnswer(rosctr: byte) {
    rosctr == ROSCTR_ACK || rosctr == ROSCTR_ACK_DATA
  }

  /** The client's header parser. */
  function ParseS7Header(data: bytes): ParsedHeader {
    if |data| < HEADER_SIZE then Unparsed(ShortHeader)
    else if data[0] != PROTOCOL_ID then Unparsed(BadProtocolId)
    else if IsAnswer(data[1]) && |data| < ACK_HEADER_SIZE then Unparsed(ShortAckHeader)
    else
      var offset := if IsAnswer(data[1]) then ACK_HEADER_SIZE else HEADER_SIZE;
      var header := Header(data[1], U16(data, 2), U16(data, 4), U16(data, 6), U16(data, 8),
                           if IsAnswer(data[1]) then data[10] else 0,
                           if IsAnswer(data[1]) then data[11] else 0);
      if |data| - offset < header.paramLength + header.dataLength then Unparsed(PayloadLength)
      else Parsed(header, data[offset..])
  }

  datatype Incoming = Unreadable | Readable(rosctr: byte, pduRef: u16, param: bytes, data: bytes)

  /** The server's view of a PDU: its sections, or Unreadable when the header cannot be trusted. */
  function Receive(req: bytes): Incoming {
    if |req| < HEADER_SIZE || req[0] != PROTOCOL_ID then Unreadable
    else
      var paramLen, dataLen := U16(req, 6), U16(req, 8);
      if HEADER_SIZE + paramLen + dataLen != |req| then Unreadable
      else Readable(req[1], U16(req, 4),
                    req[HEADER_SIZE..HEADER_SIZE + paramLen], req[HEADER_SIZE + paramLen..])
  }

  lemma ReceiveLayout(req: bytes, head: bytes, param: bytes, data: bytes)
    requires |head| == 10 && head[0] == 0x32 && req == head + param + data
    requires |param| == (head[6] as int) * 0x100 + head[7] && |data| == (head[8] as int) * 0x100 + head[9]
    ensures Receive(req) == Readable(head[1], (head[4] as int) * 0x100 + head[5], param, data)
  {
    assert forall i :: 0 <= i < 10 ==> req[i] == head[i];
    assert req[10..10 + |param|] == param && req[10 + |param|..] == data;
  }

  lemma ReceivedLayout(req: bytes)
    requires Receive(req).Readable?
    ensures var got := Receive(req);
      |req| >= 10
      && req == [0x32, got.rosctr, req[2], req[3], got.pduRef / 0x100, got.pduRef % 0x100,
                 |got.param| / 0x100, |got.param| % 0x100, |got.data| / 0x100, |got.data| % 0x100]
                + got.param + got.data
  {
    var got := Receive(req);
    assert req == req[..10] + got.param + got.data;
    assert req[..10] == [req[0], req[1], req[2], req[3], req[4], req[5], req[6], req[7], req[8], req[9]];
  }

  /** The server takes exactly the PDUs with this layout: protocol ID 0x32, type, two bytes it does not look at,
      reference and section lengths with the high byte first, and both sections with nothing behind them. */
  lemma ReceiveExact(req: bytes, rosctr: byte, pduRef: u16, param: bytes, data: bytes)
    requires |param| < 0x1_0000 && |data| < 0x1_0000
    ensures Receive(req) == Readable(rosctr, pduRef, param, data) <==>
      |req| >= 10
      && req == [0x32, rosctr, req[2], req[3], pduRef / 0x100, pduRef % 0x100,
                 |param| / 0x100, |param| % 0x100, |data| / 0x100, |data| % 0x100] + param + data
  {
    hide Receive;
    if |req| >= 10 {
      var head: bytes := [0x32, rosctr, req[2], req[3], pduRef / 0x100, pduRef % 0x100,
                          |param| / 0x100, |param| % 0x100, |data| / 0x100, |data| % 0x100];
      if req == head + param + data {
        ReceiveLayout(req, head, param, data);
      }
    }
    if Receive(req) == Readable(rosctr, pduRef, param, data) {
      ReceivedLayout(req);
    }
  }

  /** What is wrong with a header the client cannot read, and what it reads of any other. Only answers of type 2 and 3
      have the two error bytes. */
  lemma HeaderExact(data: bytes)
    ensures var p, answer := ParseS7Header(data), |data| >= 10 && data[1] in {0x02, 0x03};
      var size := if answer then 12 else 10;
      && (p == Unparsed(ShortHeader) <==> |data| < 10)
      && (p == Unparsed(BadProtocolId) <==> |data| >= 10 && data[0] != 0x32)
      && (p == Unparsed(ShortAckHeader) <==> answer && data[0] == 0x32 && |data| < 12)
      && (p.Parsed? ==>
            && |data| >= size && p.rest == data[size..]
            && [p.header.rosctr] == data[1..2]
            && p.header.redundancyId == (data[2] as int) * 0x100 + data[3]
            && p.header.pduRef == (data[4] as int) * 0x100 + data[5]
            && p.header.paramLength == (data[6] as int) * 0x100 + data[7]
            && p.header.dataLength == (data[8] as int) * 0x100 + data[9]
            && [p.header.errorClass, p.header.errorCode] == (if answer then data[10..12] else [0, 0])
            && p.header.paramLength + p.header.dataLength <= |p.rest|)
      && (|data| >= size && data[0] == 0x32 && p != Unparsed(PayloadLength) ==> p.Parsed?)
      && (p == Unparsed(PayloadLength) ==>
            (data[6] as int) * 0x100 + data[7] + (data[8] as int) * 0x100 + data[9] > |data| - size)
  {
  }

  /** What the server reads of an encoded message is what was encoded. */
  lemma ReceiveUndoesEncode(rosctr: byte, pduRef: u16, param: bytes, data: bytes)
    requires |param| < 0x1_0000 && |data| < 0x1_0000
    ensures EncodeMessage(rosctr, pduRef, param, data).Some?
    ensures |EncodeMessage(rosctr, pduRef, param, data).value| == HEADER_SIZE + |param| + |data|
    ensures Receive(EncodeMessage(rosctr, pduRef, param, data).value) == Readable(rosctr, pduRef, param, data)
  {
    var out := EncodeMessage(rosctr, pduRef, param, data).value;
    assert out[HEADER_SIZE..HEADER_SIZE + |param|] == param;
    assert out[HEADER_SIZE + |param|..] == data;
  }

  /** The client reads these sections and this error of an Ack-Data answer. */
  ghost predicate IsAnswerWith(out: bytes, pduRef: u16, errClass: byte, errCode: byte, param: bytes, data: bytes) {
    var parsed := ParseS7Header(out);
    && parsed.Parsed? && parsed.header.rosctr == ROSCTR_ACK_DATA && parsed.header.pduRef == pduRef
    && parsed.header.errorClass == errClass && parsed.header.errorCode == errCode
    && parsed.header.paramLength as int == |param| && parsed.header.dataLength as int == |data|
    && parsed.rest == param + data
  }

  /** What the client reads of an Ack-Data answer is what the server put in it. */
  lemma ParseUndoesAckData(pduRef: u16, errClass: byte, errCode: byte, param: bytes, data: bytes)
    requires |param| < 0x1_0000 && |data| < 0x1_0000
    ensures var out := EncodeAckData(pduRef, errClass, errCode, param, data);
      && out.Some? && |out.value| == ACK_HEADER_SIZE + |param| + |data|
      && IsAnswerWith(out.value, pduRef, errClass, errCode, param, data)
  {
    var out := EncodeAckData(pduRef, errClass, errCode, param, data).value;
    assert out[ACK_HEADER_SIZE..] == param + data;
  }

  /** The same for a message without error bytes (a job or user data). */
  lemma ParseUndoesMessage(rosctr: byte, pduRef: u16, param: bytes, data: bytes)
    requires |param| < 0x1_0000 && |data| < 0x1_0000 && !IsAnswer(rosctr)
    ensures EncodeMessage(rosctr, pduRef, param, data).Some?
    ensures ParseS7Header(EncodeMessage(rosctr, pduRef, param, data).value)
         == Parsed(Header(rosctr, 0, pduRef, |param|, |data|, 0, 0), param + data)
  {
    var out := EncodeMessage(rosctr, pduRef, param, data).value;
    assert out[HEADER_SIZE..] == param + data;
  }
}
