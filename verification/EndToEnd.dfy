/** The client's transfers through both codecs against the server: what they do to the server's memory. */
module EndToEnd {
  import opened Octets
  import opened Message
  import opened VarSpecs
  import opened WriteData
  import opened Requests
  import opened Answers
  import opened Memory
  import opened VarItems
  import opened Session
  import opened ServerProperties
  import opened Client

  //
  // A connection to the server, with no other client or host call in between.
  //

  function ServerAfter(limit: PduLimit, s: State, history: seq<bytes>): State {
    if history == [] then s
    else HandlePdu(limit, ServerAfter(limit, s, history[..|history| - 1]), history[|history| - 1]).0
  }

  function ServerReply(limit: PduLimit, s: State, history: seq<bytes>): Reply {
    if history == [] then Lost(false)
    else
      match HandlePdu(limit, ServerAfter(limit, s, history[..|history| - 1]), history[|history| - 1]).1
      case Drop => Lost(false)
      case Answer(out) => Tsdu(out)
  }

  function ServerPeer(limit: PduLimit, s: State): Peer {
    history => ServerReply(limit, s, history)
  }

  lemma ServerStep(limit: PduLimit, s: State, sent: seq<bytes>, req: bytes)
    ensures var (s', r) := HandlePdu(limit, ServerAfter(limit, s, sent), req);
      && ServerAfter(limit, s, sent + [req]) == s'
      && ServerPeer(limit, s)(sent + [req]) == if r.Drop? then Lost(false) else Tsdu(r.out)
  {
    hide HandlePdu;
    var history := sent + [req];
    assert history[..|history| - 1] == sent;
  }

  //
  // Setup: both sides end up with the same PDU size.
  //

  function SetupJob(pduRef: u16, calling: u16, called: u16, pduSize: u16): bytes {
    EncodeMessage(ROSCTR_JOB, pduRef, [FUNC_SETUP, 0] + PutU16(calling) + PutU16(called) + PutU16(pduSize), []).value
  }

  datatype SetupOutcome = Negotiated(amqCalling: u16, amqCalled: u16, pduSize: u16) | SetupFailed

  /** What the client takes from the answer to its setup job. */
  function SetupResult(reply: bytes, pduRef: u16): SetupOutcome {
    match ParseS7Header(reply)
    case Unparsed(_) => SetupFailed
    case Parsed(h, rest) =>
      if h.pduRef != pduRef || h.errorClass != 0 || h.errorCode != 0 then SetupFailed
      else if |rest| < 8 || rest[0] != FUNC_SETUP then SetupFailed
      else Negotiated(U16(rest, 2), U16(rest, 4), U16(rest, 6))
  }

  lemma SetupBytes(calling: u16, called: u16, pduSize: u16)
    ensures var param := [FUNC_SETUP, 0] + PutU16(calling) + PutU16(called) + PutU16(pduSize);
      |param| == 8 && param[0] == FUNC_SETUP
      && U16(param, 2) == calling && U16(param, 4) == called && U16(param, 6) == pduSize
  {
  }

  /** Whatever the client asks for, it works with the PDU size the server works with: the smaller of the two. */
  lemma SetupAgrees(limit: PduLimit, s: State, sent: seq<bytes>, pduRef: u16, calling: u16, called: u16, asked: u16)
    ensures var before := ServerAfter(limit, s, sent);
      var req := SetupJob(pduRef, calling, called, asked);
      var reply := ServerPeer(limit, s)(sent + [req]);
      var p := ServerAfter(limit, s, sent + [req]).pduSize;
      && Granted(p, asked, limit) && ServerAfter(limit, s, sent + [req]) == before.(pduSize := p)
      && reply.Tsdu?
      && SetupResult(reply.data, pduRef) == Negotiated(GrantedAmq(calling), GrantedAmq(called), p)
  {
    hide Receive, EncodeMessage, EncodeAckData, ParseS7Header, ServerAfter, ReadAnswer, WriteAnswer, U16, PutU16;
    var param := [FUNC_SETUP, 0] + PutU16(calling) + PutU16(called) + PutU16(asked);
    SetupBytes(calling, called, asked);
    ReceiveUndoesEncode(ROSCTR_JOB, pduRef, param, []);
    var size := Min(asked, limit);
    var answer := [FUNC_SETUP, 0] + PutU16(GrantedAmq(calling)) + PutU16(GrantedAmq(called)) + PutU16(size);
    SetupBytes(GrantedAmq(calling), GrantedAmq(called), size);
    ParseUndoesAckData(pduRef, 0, 0, answer, []);
    assert answer + [] == answer;
    ServerStep(limit, s, sent, SetupJob(pduRef, calling, called, asked));
  }

  //
  // One chunk.
  //

  lemma ReadAnswerOfOne(s: State, pduRef: u16, param: bytes, spec: VarSpec)
    requires s.pduSize <= MAX_PDU && ParsedSpecs(param, FUNC_READ) == Some([spec]) && spec.syntax == SYNTAX_S7ANY
    ensures var item := ReadAny(s.mem, spec);
      var out := ReadAnswer(s, pduRef, param);
      out.Some? &&
      if 18 + |item.data| > s.pduSize then
        Interpret(out.value, pduRef) == Broken(HeaderRefused(CLASS_SUPPLIES, CODE_FRAMES))
      else var ex := Interpret(out.value, pduRef);
           ex.Sections? && ParsedItems(ex.param, ex.data) == Some([item])
  {
    hide ParsedSpecs, ReadAny, ReadAnswer, IsAnswerWith, Interpret, ParsedItems, Encoded, Faithful;
    ReadAnswerExact(s, pduRef, param);
    var results := ReadResults(s.mem, param);
    var item := ReadAny(s.mem, spec);
    assert results == [item];
    assert SizeSum(results, 1) == SizeSum(results, 0) + ResultSize(item, true) == 4 + |item.data|;
    if 18 + |item.data| > s.pduSize {
      InterpretAnswer(ReadAnswer(s, pduRef, param).value, pduRef, CLASS_SUPPLIES, CODE_FRAMES, [FUNC_READ], []);
    } else {
      EncodedSize(results, 1);
      InterpretAnswer(ReadAnswer(s, pduRef, param).value, pduRef, 0, 0, [FUNC_READ, 1], Encoded(results, 1));
    }
  }

  /** What the server's answer makes of one chunk of a read. */
  function ChunkOutcome(s: State, range: S7AnyAddress): Chunk
    requires InRange(range)
  {
    var item := ReadAny(s.mem, AddressSpec(range));
    if 0 < s.pduSize < 24 then Stop(ProtocolErr, 0, false)
    else if 18 + |item.data| > s.pduSize then Stop(Rejected, 0, false)
    else if item.returnCode != RET_SUCCESS then Stop(Rejected, item.returnCode, true)
    else Got(item.data)
  }

  /** The connection and the server agree on the PDU size, as after setup. */
  ghost predicate Agreed(limit: PduLimit, s: State, line: Line, sent: seq<bytes>) {
    line.connected && line.pduSize == ServerAfter(limit, s, sent).pduSize <= MAX_PDU
  }

  lemma ByteTarget(mem: Mem, range: S7AnyAddress)
    requires InRange(range)
    ensures var r := Resolve(mem, AddressSpec(range));
      r.Resolved? ==> r.target.size == range.size
  {
  }

  lemma ReadAnySmall(mem: Mem, range: S7AnyAddress)
    requires InRange(range)
    ensures |ReadAny(mem, AddressSpec(range)).data| <= range.size
  {
    hide Resolve, ReadAny;
    ReadAnySize(mem, AddressSpec(range));
    ByteTarget(mem, range);
  }

  lemma HandleRead(limit: PduLimit, s: State, req: bytes)
    requires Receive(req).Readable? && Receive(req).rosctr == ROSCTR_JOB
    requires ParsedSpecs(Receive(req).param, FUNC_READ).Some?
    ensures var got := Receive(req);
      HandlePdu(limit, s, req) == (s, AnswerOr(ReadAnswer(s, got.pduRef, got.param), got.pduRef, got.param))
  {
    hide Receive, ReadAnswer, NotImplemented, SetupAnswer, WriteAnswer;
    FirstByte(Receive(req).param);
  }

  lemma ReadServed(limit: PduLimit, s: State, line: Line, net: Net, range: S7AnyAddress)
    requires Agreed(limit, s, line, net.sent) && InRange(range)
    ensures var (net', c) := AskChunk(ServerPeer(limit, s), line, net, range.area, range.db, range.start, range.size);
      && ServerAfter(limit, s, net'.sent) == ServerAfter(limit, s, net.sent)
      && c == ChunkOutcome(ServerAfter(limit, s, net.sent), range)
  {
    hide Receive, ReadVarRequest, ParsedSpecs, ReadAnswer, ReadAny, ServerAfter, ServerPeer, Interpret, ParsedItems,
         HandlePdu, NextRef;
    var ref := NextRef(net.counter).1;
    var before := ServerAfter(limit, s, net.sent);
    ReadRequestDecodes(ref, [range]);
    ReadAnySmall(before.mem, range);
    var req := ReadVarRequest(ref, [range]).value;
    var got := Receive(req);
    assert ParsedSpecs(got.param, FUNC_READ).value == [AddressSpec(range)];
    ReadAnswerOfOne(before, ref, got.param, AddressSpec(range));
    HandleRead(limit, before, req);
    ServerStep(limit, s, net.sent, req);
    assert range == S7AnyAddress(range.area, range.db, range.start, range.size);
  }

  lemma WriteAnswerOfOne(mem: Mem, pduRef: u16, param: bytes, data: bytes, spec: VarSpec, item: WriteVarData)
    requires ParsedWrite(param, data) == Some(([spec], [item]))
    ensures var (mem', code) := WriteItem(mem, spec, item);
      var answer := WriteAnswer(mem, pduRef, param, data);
      && answer.Some? && answer.value.0 == mem' && answer.value.1.Some?
      && var ex := Interpret(answer.value.1.value, pduRef);
         ex.Sections?
         && ParsedWriteAnswer(ex.param, ex.data) == if code == RET_SUCCESS then Written else ItemRefused(0, code)
  {
    hide ParsedWrite, WriteItem, WriteVarResponse, IsAnswerWith, Interpret;
    var (mem', code) := WriteItem(mem, spec, item);
    assert WriteFrom(mem', [spec], [item], 1, [code]) == (mem', [code]);
    assert [] + [code] == [code];
    ParseUndoesWriteVarResponse(pduRef, [code]);
    InterpretAnswer(WriteVarResponse(pduRef, [code]).value, pduRef, 0, 0, [FUNC_WRITE, 1], [code]);
    assert FirstRefusal([code], 1) == Written;
  }

  lemma WriteFirstByte(param: bytes, data: bytes)
    requires ParsedWrite(param, data).Some?
    ensures |param| >= 2 && param[0] == FUNC_WRITE
  {
  }

  lemma HandleWrite(limit: PduLimit, s: State, req: bytes)
    requires Receive(req).Readable? && Receive(req).rosctr == ROSCTR_JOB
    requires ParsedWrite(Receive(req).param, Receive(req).data).Some?
    ensures var got := Receive(req);
      var (mem', out) := WriteAnswer(s.mem, got.pduRef, got.param, got.data).value;
      HandlePdu(limit, s, req) == (s.(mem := mem'), AnswerOr(out, got.pduRef, got.param))
  {
    hide Receive, ReadAnswer, NotImplemented, SetupAnswer, ParsedWrite;
    WriteFirstByte(Receive(req).param, Receive(req).data);
  }

  /** One chunk of a write: refused before it is sent when it is longer than the PDU, otherwise done and answered by the
      server's write of that one item. */
  lemma WriteServed(limit: PduLimit, s: State, line: Line, net: Net, area: byte, db: int, offset: int, value: bytes)
    requires Agreed(limit, s, line, net.sent) && |value| <= 8191 && InRange(S7AnyAddress(area, db, offset, |value|))
    ensures var (net', r) := AskWrite(ServerPeer(limit, s), line, net, area, db, offset, value);
      var before := ServerAfter(limit, s, net.sent);
      if 0 < line.pduSize < 28 + |value| + |value| % 2 then net'.sent == net.sent && r == WriteFailed(ExceedsPdu)
      else
        var (mem', code) := WriteItem(before.mem, AddressSpec(S7AnyAddress(area, db, offset, |value|)),
                                      WriteVarData(RET_SUCCESS, DATA_BYTE, |value| * 8, value));
        && ServerAfter(limit, s, net'.sent) == before.(mem := mem')
        && r == if code == RET_SUCCESS then WriteOk else WriteRefused(ItemRefused(0, code))
  {
    hide Receive, WriteVarRequest, ParsedWrite, WriteAnswer, WriteItem, ServerAfter, ServerPeer, Interpret,
         ParsedWriteAnswer, HandlePdu, NextRef, AddressSpec;
    var ref := NextRef(net.counter).1;
    var before := ServerAfter(limit, s, net.sent);
    var range := S7AnyAddress(area, db, offset, |value|);
    WriteRequestDecodes(ref, range, value);
    var req := WriteVarRequest(ref, range, value).value;
    var got := Receive(req);
    WriteAnswerOfOne(before.mem, ref, got.param, got.data, AddressSpec(range),
                     WriteVarData(RET_SUCCESS, DATA_BYTE, |value| * 8, value));
    HandleWrite(limit, before, req);
    ServerStep(limit, s, net.sent, req);
  }
}
