/** What holds of every answer the server gives, of every Write Var job, and of every run of client PDUs. */
module ServerProperties {
  import opened Octets
  import opened Message
  import opened VarSpecs
  import opened WriteData
  import opened Answers
  import opened Memory
  import opened VarItems
  import opened Session

  //
  // Read Var answers.
  //

  /** The items a Read Var job reads. */
  function ReadResults(mem: Mem, param: bytes): seq<ReadVarItem>
    requires ParsedSpecs(param, FUNC_READ).Some?
  {
    RangesAtDBReadItems(param);
    Results(mem, ParsedSpecs(param, FUNC_READ).value, ParsedRanges(param).value)
  }

  lemma {:induction false} ItemWithinSum(items: seq<ReadVarItem>, i: nat, n: nat)
    requires i < n <= |items|
    ensures 4 + |items[i].data| <= SizeSum(items, n)
    decreases n
  {
    if i < n - 1 {
      ItemWithinSum(items, i, n - 1);
    }
  }

  /** The job is refused exactly when its answer would be longer than the PDU size; otherwise the answer has exactly
      the counted length, no length field in it overflows, and the client reads back every item. */
  lemma ReadAnswerExact(s: State, pduRef: u16, param: bytes)
    requires s.pduSize <= MAX_PDU && ParsedSpecs(param, FUNC_READ).Some?
    ensures var results := ReadResults(s.mem, param);
      var total := 14 + SizeSum(results, |results|);
      var out := ReadAnswer(s, pduRef, param);
      && out.Some?
      && (total > s.pduSize ==>
            |out.value| == 13 && IsAnswerWith(out.value, pduRef, CLASS_SUPPLIES, CODE_FRAMES, [FUNC_READ], []))
      && (total <= s.pduSize ==>
            && |out.value| == total && 0 < |results| <= 0xFF
            && (forall i :: 0 <= i < |results| ==> Faithful(results[i]) && |results[i].data| * 8 <= 0xFFFF)
            && IsAnswerWith(out.value, pduRef, 0, 0, [FUNC_READ, |results|], Encoded(results, |results|))
            && ParsedItems([FUNC_READ, |results|], Encoded(results, |results|)) == Some(results))
  {
    hide ReadItem, Encoded, ParsedSpecs, ParsedRanges, EncodeAckData, IsAnswerWith, Faithful, ItemsFrom;
    RangesAtDBReadItems(param);
    FirstByte(param);
    var specs, ranges := ParsedSpecs(param, FUNC_READ).value, ParsedRanges(param).value;
    var results := ReadResults(s.mem, param);
    if 14 + SizeSum(results, |results|) > s.pduSize {
      assert param[..1] == [FUNC_READ];
      ParseUndoesAckData(pduRef, CLASS_SUPPLIES, CODE_FRAMES, [FUNC_READ], []);
    } else {
      forall i | 0 <= i < |results|
        ensures Faithful(results[i]) && |results[i].data| * 8 <= 0xFFFF
      {
        ItemWithinSum(results, i, |results|);
        ReadItemFaithful(s.mem, specs[i], ranges[i]);
      }
      ParseUndoesReadVarResponse(pduRef, results);
    }
  }

  //
  // Every PDU.
  //

  /** An answer the client's header parser takes, for this PDU reference, with nothing missing and nothing left over. */
  ghost predicate WellAnswered(out: bytes, pduRef: u16) {
    var parsed := ParseS7Header(out);
    && parsed.Parsed? && parsed.header.pduRef == pduRef
    && |parsed.rest| == parsed.header.paramLength + parsed.header.dataLength
  }

  ghost predicate IsHeaderError(out: bytes) {
    && ParseS7Header(out).Parsed?
    && (ParseS7Header(out).header.errorClass != 0 || ParseS7Header(out).header.errorCode != 0)
  }

  lemma AckDataAnswers(pduRef: u16, errClass: byte, errCode: byte, param: bytes, data: bytes)
    requires |param| < 0x1_0000 && |data| < 0x1_0000
    ensures var out := EncodeAckData(pduRef, errClass, errCode, param, data);
      out.Some? && WellAnswered(out.value, pduRef)
      && (IsHeaderError(out.value) <==> errClass != 0 || errCode != 0)
  {
    hide EncodeAckData, ParseS7Header;
    ParseUndoesAckData(pduRef, errClass, errCode, param, data);
  }

  /** Header error 0x8104 with the job's function code, if it has one. */
  lemma NotImplementedAnswers(pduRef: u16, param: bytes)
    ensures var out := NotImplemented(pduRef, param);
      && WellAnswered(out, pduRef) && IsHeaderError(out)
      && IsAnswerWith(out, pduRef, 0x81, 0x04, if |param| > 0 then [param[0]] else [], [])
  {
    hide EncodeAckData, WellAnswered, IsHeaderError, IsAnswerWith;
    var fn := if |param| > 0 then param[..1] else [];
    assert fn == if |param| > 0 then [param[0]] else [];
    AckDataAnswers(pduRef, CLASS_APP, CODE_NOT_IMPLEMENTED, fn, []);
    ParseUndoesAckData(pduRef, CLASS_APP, CODE_NOT_IMPLEMENTED, fn, []);
  }

  lemma UserdataAnswers(pduRef: u16, param: bytes)
    ensures WellAnswered(UserdataNotImplemented(pduRef, param), pduRef)
  {
    hide EncodeMessage, ParseS7Header, NotImplemented;
    NotImplementedAnswers(pduRef, param);
    if !(|param| < 8 || param[0] != 0x00 || param[1] != 0x01 || param[2] != 0x12) {
      var resp: bytes := [0x00, 0x01, 0x12, 0x08, 0x12, 0x80 + param[5] % 0x40, param[6], param[7], 0x00, 0x00,
                          CLASS_APP, CODE_NOT_IMPLEMENTED];
      ParseUndoesMessage(ROSCTR_USERDATA, pduRef, resp, [RET_NOT_AVAILABLE, 0x00, 0x00, 0x00]);
    }
  }

  lemma {:induction false} WriteFromCodes(mem: Mem, specs: seq<VarSpec>, items: seq<WriteVarData>, i: nat, codes: bytes)
    requires i <= |specs| == |items|
    ensures |WriteFrom(mem, specs, items, i, codes).1| == |codes| + |specs| - i
    decreases |specs| - i
  {
    hide WriteItem;
    if i < |specs| {
      var (mem', code) := WriteItem(mem, specs[i], items[i]);
      WriteFromCodes(mem', specs, items, i + 1, codes + [code]);
    }
  }

  lemma PutU16Length()
    ensures forall v: u16 :: |PutU16(v)| == 2
  {
  }

  lemma ReadAnswers(s: State, pduRef: u16, param: bytes)
    requires s.pduSize <= MAX_PDU && ReadAnswer(s, pduRef, param).Some?
    ensures WellAnswered(ReadAnswer(s, pduRef, param).value, pduRef)
  {
    hide ParseS7Header, Encoded, Results, ParsedItems, Faithful, SizeSum;
    ReadAnswerExact(s, pduRef, param);
  }

  /** No encoder fails once a job was understood, so no state change is followed by a refusal. */
  lemma JobsAnswer(limit: PduLimit, s: State, pduRef: u16, param: bytes, data: bytes)
    requires |param| > 0 && s.pduSize <= MAX_PDU
    ensures SetupAnswer(limit, pduRef, param).Some? ==>
      var (size, out) := SetupAnswer(limit, pduRef, param).value;
      size <= limit && out.Some? && WellAnswered(out.value, pduRef) && !IsHeaderError(out.value)
    ensures ReadAnswer(s, pduRef, param).Some? ==> WellAnswered(ReadAnswer(s, pduRef, param).value, pduRef)
    ensures WriteAnswer(s.mem, pduRef, param, data).Some? ==>
      var (mem', out) := WriteAnswer(s.mem, pduRef, param, data).value;
      out.Some? && WellAnswered(out.value, pduRef) && !IsHeaderError(out.value)
  {
    hide EncodeAckData, WellAnswered, IsHeaderError, ParsedSpecs, ParsedWrite, ReadAnswer, WriteFrom, U16, PutU16;
    if SetupAnswer(limit, pduRef, param).Some? {
      var req := ParseSetup(param).value;
      PutU16Length();
      AckDataAnswers(pduRef, 0, 0, [FUNC_SETUP, 0] + PutU16(GrantedAmq(req.amqCalling))
                                   + PutU16(GrantedAmq(req.amqCalled)) + PutU16(Min(req.pduSize, limit)), []);
    }
    if ReadAnswer(s, pduRef, param).Some? {
      ReadAnswers(s, pduRef, param);
    }
    if WriteAnswer(s.mem, pduRef, param, data).Some? {
      ParsedWriteLengths(param, data);
      var (specs, items) := ParsedWrite(param, data).value;
      WriteFromCodes(s.mem, specs, items, 0, []);
      var codes := WriteFrom(s.mem, specs, items, 0, []).1;
      AckDataAnswers(pduRef, 0, 0, [FUNC_WRITE, |codes|], codes);
    }
  }

  /** Exactly the PDUs whose header cannot be read drop the connection, and change nothing. Every other PDU gets one
      well-formed answer with its reference; an answer that reports a header error changed nothing; and the PDU size
      stays within the configured limit. */
  lemma HandleAnswersEveryReadablePdu(limit: PduLimit, s: State, req: bytes)
    requires s.pduSize <= limit
    ensures var (s', r) := HandlePdu(limit, s, req);
      && (r.Drop? <==> Receive(req).Unreadable?)
      && (r.Drop? ==> s' == s)
      && (r.Answer? ==> WellAnswered(r.out, Receive(req).pduRef) && (IsHeaderError(r.out) ==> s' == s))
      && (r.Answer? && Receive(req).rosctr != ROSCTR_JOB ==> s' == s)
      && s'.pduSize <= limit
  {
    hide Receive, SetupAnswer, ReadAnswer, WriteAnswer, NotImplemented, UserdataNotImplemented, WellAnswered,
         IsHeaderError, IsAnswerWith;
    if Receive(req).Readable? {
      var got := Receive(req);
      NotImplementedAnswers(got.pduRef, got.param);
      UserdataAnswers(got.pduRef, got.param);
      if got.rosctr == ROSCTR_JOB && |got.param| > 0 {
        JobsAnswer(limit, s, got.pduRef, got.param, got.data);
      }
    }
  }

  /** A job the server decodes: setup, Read Var or Write Var. */
  predicate Served(got: Incoming) {
    && got.Readable? && got.rosctr == ROSCTR_JOB && |got.param| > 0
    && (ParseSetup(got.param).Some? || ParsedSpecs(got.param, FUNC_READ).Some?
        || ParsedWrite(got.param, got.data).Some?)
  }

  /** A user data request as far as the server looks at it. */
  predicate UserdataRequest(got: Incoming) {
    && got.Readable? && got.rosctr == ROSCTR_USERDATA
    && |got.param| >= 8 && got.param[0] == 0x00 && got.param[1] == 0x01 && got.param[2] == 0x12
  }

  ghost predicate HasError(out: bytes, errClass: byte, errCode: byte) {
    var parsed := ParseS7Header(out);
    parsed.Parsed? && parsed.header.errorClass == errClass && parsed.header.errorCode == errCode
  }

  lemma AnswerHasError(out: bytes, pduRef: u16, errClass: byte, errCode: byte, param: bytes, data: bytes)
    requires IsAnswerWith(out, pduRef, errClass, errCode, param, data)
    ensures HasError(out, errClass, errCode)
  {
  }

  lemma ServedErrors(limit: PduLimit, s: State, pduRef: u16, param: bytes, data: bytes)
    requires |param| > 0 && s.pduSize <= MAX_PDU
    ensures ReadAnswer(s, pduRef, param).Some? ==>
      var out := ReadAnswer(s, pduRef, param).value;
      HasError(out, 0, 0) || HasError(out, CLASS_SUPPLIES, CODE_FRAMES)
    ensures SetupAnswer(limit, pduRef, param).Some? <==> ParseSetup(param).Some?
    ensures ReadAnswer(s, pduRef, param).Some? <==> ParsedSpecs(param, FUNC_READ).Some?
    ensures WriteAnswer(s.mem, pduRef, param, data).Some? <==> ParsedWrite(param, data).Some?
  {
    hide ParseS7Header, Encoded, Results, ParsedItems, Faithful, SizeSum, ParsedSpecs, ParsedWrite, IsAnswerWith,
         HasError, WriteFrom, WriteVarResponse, SetupResponse;
    if ParsedSpecs(param, FUNC_READ).Some? {
      ReadAnswerExact(s, pduRef, param);
      var out := ReadAnswer(s, pduRef, param).value;
      var results := ReadResults(s.mem, param);
      if 14 + SizeSum(results, |results|) > s.pduSize {
        AnswerHasError(out, pduRef, CLASS_SUPPLIES, CODE_FRAMES, [FUNC_READ], []);
      } else {
        AnswerHasError(out, pduRef, 0, 0, [FUNC_READ, |results|], Encoded(results, |results|));
      }
    } else {
      MalformedRead(s, pduRef, param);
    }
  }

  lemma FunctionCodes(param: bytes, data: bytes)
    ensures ParseSetup(param).Some? ==> |param| > 0 && param[0] == FUNC_SETUP
    ensures ParsedSpecs(param, FUNC_READ).Some? ==> |param| > 0 && param[0] == FUNC_READ
    ensures ParsedWrite(param, data).Some? ==> |param| > 0 && param[0] == FUNC_WRITE
  {
  }

  lemma UserdataHasNoHeaderError(pduRef: u16, param: bytes)
    requires |param| >= 8 && param[0] == 0x00 && param[1] == 0x01 && param[2] == 0x12
    ensures HasError(UserdataNotImplemented(pduRef, param), 0, 0)
  {
    hide EncodeMessage, ParseS7Header;
    var resp: bytes := [0x00, 0x01, 0x12, 0x08, 0x12, 0x80 + param[5] % 0x40, param[6], param[7], 0x00, 0x00,
                        CLASS_APP, CODE_NOT_IMPLEMENTED];
    ParseUndoesMessage(ROSCTR_USERDATA, pduRef, resp, [RET_NOT_AVAILABLE, 0x00, 0x00, 0x00]);
  }

  lemma ErrorUnique(out: bytes)
    ensures HasError(out, 0x81, 0x04) ==> !HasError(out, 0, 0) && !HasError(out, CLASS_SUPPLIES, CODE_FRAMES)
  {
  }

  lemma NoHeaderError(out: bytes)
    ensures HasError(out, 0x81, 0x04) ==> IsHeaderError(out)
  {
  }

  lemma ShortUserdata(pduRef: u16, param: bytes)
    requires !(|param| >= 8 && param[0] == 0x00 && param[1] == 0x01 && param[2] == 0x12)
    ensures UserdataNotImplemented(pduRef, param) == NotImplemented(pduRef, param)
  {
  }

  /** Header error 0x8104 goes to exactly the readable PDUs that are neither a job the server decodes nor a user data
      request. */
  lemma NotImplementedIff(limit: PduLimit, s: State, req: bytes)
    requires s.pduSize <= limit && Receive(req).Readable?
    ensures var r := HandlePdu(limit, s, req).1;
      r.Answer? && (HasError(r.out, 0x81, 0x04) <==> !Served(Receive(req)) && !UserdataRequest(Receive(req)))
  {
    hide Receive, SetupAnswer, ReadAnswer, WriteAnswer, NotImplemented, UserdataNotImplemented, IsAnswerWith, HasError,
         WellAnswered, IsHeaderError, ParsedSpecs, ParsedWrite, ParseSetup;
    var got := Receive(req);
    NotImplementedAnswers(got.pduRef, got.param);
    AnswerHasError(NotImplemented(got.pduRef, got.param), got.pduRef, 0x81, 0x04,
                   if |got.param| > 0 then [got.param[0]] else [], []);
    FunctionCodes(got.param, got.data);
    ErrorUnique(HandlePdu(limit, s, req).1.out);
    if UserdataRequest(got) {
      UserdataHasNoHeaderError(got.pduRef, got.param);
    } else if got.rosctr == ROSCTR_USERDATA {
      ShortUserdata(got.pduRef, got.param);
    } else if got.rosctr == ROSCTR_JOB && |got.param| > 0 {
      JobsAnswer(limit, s, got.pduRef, got.param, got.data);
      ServedErrors(limit, s, got.pduRef, got.param, got.data);
      NoHeaderError(HandlePdu(limit, s, req).1.out);
    }
  }

  //
  // The effect of a Write Var job.
  //

  lemma PatchKeepsShape(before: Mem, mem: Mem, t: Target, data: bytes)
    requires SameShape(before, mem) && InMem(before, t) && |data| == t.size
    ensures InMem(mem, t) && SameShape(before, Patch(mem, t, data))
  {
  }

  /** Applies, in item order, the effects of exactly the items accepted against the memory before the job. */
  function ApplyAccepted(before: Mem, mem: Mem, specs: seq<VarSpec>, items: seq<WriteVarData>, i: nat): Mem
    requires i <= |specs| == |items| && SameShape(before, mem)
    decreases |specs| - i
  {
    if i == |specs| then mem
    else if WriteCode(before, specs[i], items[i]) != RET_SUCCESS then ApplyAccepted(before, mem, specs, items, i + 1)
    else
      var t := Resolve(before, specs[i]).target;
      ResolvedInMem(before, specs[i]);
      PatchKeepsShape(before, mem, t, items[i].data);
      ApplyAccepted(before, Patch(mem, t, items[i].data), specs, items, i + 1)
  }

  lemma CodeByShape(a: Mem, b: Mem, spec: VarSpec, item: WriteVarData)
    requires SameShape(a, b)
    ensures WriteCode(a, spec, item) == WriteCode(b, spec, item)
  {
    hide ResolveIn;
    ResolveByShape(a, b, spec);
    ResolvedInMem(a, spec);
  }

  lemma {:induction false} WriteFromIsFold(before: Mem, mem: Mem, specs: seq<VarSpec>, items: seq<WriteVarData>,
                                           i: nat, codes: bytes)
    requires i <= |specs| == |items| && SameShape(before, mem)
    ensures WriteFrom(mem, specs, items, i, codes).0 == ApplyAccepted(before, mem, specs, items, i)
    ensures var all := WriteFrom(mem, specs, items, i, codes).1;
      && |all| == |codes| + |specs| - i
      && (forall j :: 0 <= j < |codes| ==> all[j] == codes[j])
      && (forall j :: i <= j < |specs| ==> all[|codes| + j - i] == WriteCode(before, specs[j], items[j]))
    decreases |specs| - i
  {
    hide Resolve, Patch, WriteCode;
    if i < |specs| {
      CodeByShape(before, mem, specs[i], items[i]);
      ResolveByShape(before, mem, specs[i]);
      WriteItemFrame(mem, specs[i], items[i]);
      var (mem', code) := WriteItem(mem, specs[i], items[i]);
      SameShapeTransitive(before, mem, mem');
      WriteFromIsFold(before, mem', specs, items, i + 1, codes + [code]);
    }
  }

  /** A Write Var job is the left fold, in item order, of the effects of exactly the items whose code is 0xFF; each
      item's code is the one it would get alone, whatever the items before it wrote. */
  lemma WriteJobIsFold(mem: Mem, specs: seq<VarSpec>, items: seq<WriteVarData>)
    requires |specs| == |items|
    ensures var (mem', codes) := WriteFrom(mem, specs, items, 0, []);
      && mem' == ApplyAccepted(mem, mem, specs, items, 0)
      && |codes| == |specs|
      && forall i :: 0 <= i < |specs| ==> codes[i] == WriteCode(mem, specs[i], items[i])
  {
    hide WriteFrom, ApplyAccepted, WriteCode;
    WriteFromIsFold(mem, mem, specs, items, 0, []);
  }

  /** A Write Var job sent to the server does just that, and is answered with those codes. */
  lemma WriteJobServed(limit: PduLimit, s: State, req: bytes)
    requires Receive(req).Readable? && Receive(req).rosctr == 0x01
    requires ParsedWrite(Receive(req).param, Receive(req).data).Some?
    ensures var got := Receive(req);
      var (specs, items) := ParsedWrite(got.param, got.data).value;
      var (s', r) := HandlePdu(limit, s, req);
      && |specs| == |items| <= 0xFF && s' == s.(mem := ApplyAccepted(s.mem, s.mem, specs, items, 0))
      && r.Answer?
      && exists codes: bytes ::
           && |codes| == |specs| && IsAnswerWith(r.out, got.pduRef, 0, 0, [0x05, |specs|], codes)
           && forall i :: 0 <= i < |specs| ==> codes[i] == WriteCode(s.mem, specs[i], items[i])
  {
    hide Receive, ParsedWrite, WriteFrom, ApplyAccepted, WriteCode, EncodeAckData, IsAnswerWith;
    var got := Receive(req);
    var (specs, items) := ParsedWrite(got.param, got.data).value;
    ParsedWriteLengths(got.param, got.data);
    FunctionCodes(got.param, got.data);
    WriteJobIsFold(s.mem, specs, items);
    var codes := WriteFrom(s.mem, specs, items, 0, []).1;
    ParseUndoesWriteVarResponse(got.pduRef, codes);
  }

  /** The results of a job: for each item, in order, that of its ranges if it is a DBREAD one, otherwise of its address.
      */
  ghost predicate ResultsOf(mem: Mem, param: bytes, results: seq<ReadVarItem>) {
    && ParsedSpecs(param, FUNC_READ).Some? && ParsedRanges(param).Some?
    && var specs, ranges := ParsedSpecs(param, FUNC_READ).value, ParsedRanges(param).value;
       && |results| == |specs| == |ranges|
       && forall i :: 0 <= i < |specs| ==>
            results[i] == if specs[i].syntax == 0xB0 then DbReadItem(mem, ranges[i]) else ReadAny(mem, specs[i])
  }

  lemma ReadResultsOf(mem: Mem, param: bytes)
    requires ParsedSpecs(param, FUNC_READ).Some?
    ensures ResultsOf(mem, param, ReadResults(mem, param))
  {
    hide ParsedSpecs, ParsedRanges, DbReadItem, ReadAny;
    RangesAtDBReadItems(param);
  }

  /** A Read Var job sent to the server changes nothing, and is answered with the results of its items, or refused. */
  lemma ReadJobServed(limit: PduLimit, s: State, req: bytes)
    requires s.pduSize <= limit && Receive(req).Readable? && Receive(req).rosctr == 0x01
    requires ParsedSpecs(Receive(req).param, FUNC_READ).Some?
    ensures var got := Receive(req);
      var (s', r) := HandlePdu(limit, s, req);
      var results := ReadResults(s.mem, got.param);
      && s' == s && r.Answer? && ResultsOf(s.mem, got.param, results)
      && (if 14 + SizeSum(results, |results|) > s.pduSize then
            IsAnswerWith(r.out, got.pduRef, 0x85, 0x00, [0x04], [])
          else
            0 < |results| <= 0xFF
            && IsAnswerWith(r.out, got.pduRef, 0, 0, [0x04, |results|], Encoded(results, |results|)))
  {
    hide Receive, ParsedSpecs, ReadAnswer, SizeSum, Encoded, IsAnswerWith, ReadResults, ParsedItems, Faithful,
         ResultsOf;
    var got := Receive(req);
    FirstByte(got.param);
    ReadResultsOf(s.mem, got.param);
    ReadAnswerExact(s, got.pduRef, got.param);
  }

  //
  // Runs.
  //

  /** What no client can change: the areas and their sizes, and what write-protected areas, timers and counters hold. */
  ghost predicate Kept(a: Mem, b: Mem) {
    && SameShape(a, b)
    && forall k :: k in a && (a[k].readOnly || TimerOrCounter(k.area)) ==> b[k] == a[k]
  }

  lemma KeptByNothing(mem: Mem)
    ensures Kept(mem, mem)
  {
  }

  lemma KeptTransitive(a: Mem, b: Mem, c: Mem)
    requires Kept(a, b) && Kept(b, c)
    ensures Kept(a, c)
  {
    SameShapeTransitive(a, b, c);
    forall k | k in a && (a[k].readOnly || TimerOrCounter(k.area)) ensures c[k] == a[k] {
      assert k in b;
    }
  }

  lemma WriteItemKeeps(mem: Mem, spec: VarSpec, item: WriteVarData)
    ensures Kept(mem, WriteItem(mem, spec, item).0)
  {
    hide WriteItem, Resolve;
    WriteItemFrame(mem, spec, item);
  }

  lemma {:induction false} WriteFromKeeps(mem: Mem, specs: seq<VarSpec>, items: seq<WriteVarData>, i: nat, codes: bytes)
    requires i <= |specs| == |items|
    ensures Kept(mem, WriteFrom(mem, specs, items, i, codes).0)
    decreases |specs| - i
  {
    hide WriteItem, Kept;
    KeptByNothing(mem);
    if i < |specs| {
      WriteItemKeeps(mem, specs[i], items[i]);
      var (mem', code) := WriteItem(mem, specs[i], items[i]);
      WriteFromKeeps(mem', specs, items, i + 1, codes + [code]);
      KeptTransitive(mem, mem', WriteFrom(mem', specs, items, i + 1, codes + [code]).0);
    }
  }

  lemma HandleKeeps(limit: PduLimit, s: State, req: bytes)
    ensures Kept(s.mem, HandlePdu(limit, s, req).0.mem)
  {
    hide Receive, SetupAnswer, ReadAnswer, ParsedWrite, WriteFrom, NotImplemented, UserdataNotImplemented,
         WriteVarResponse;
    if Receive(req).Readable? {
      var got := Receive(req);
      if |got.param| > 0 && ParsedWrite(got.param, got.data).Some? {
        ParsedWriteLengths(got.param, got.data);
        var (specs, items) := ParsedWrite(got.param, got.data).value;
        WriteFromKeeps(s.mem, specs, items, 0, []);
      }
    }
  }

  /** A server with any number of sessions: one memory, a PDU size per session. */
  datatype Server = Server(limit: PduLimit, mem: Mem, sizes: map<nat, nat>)

  datatype Event = Event(session: nat, pdu: bytes)

  /** A session starts with the configured PDU size. */
  function SizeOf(server: Server, session: nat): nat {
    if session in server.sizes then server.sizes[session] else server.limit
  }

  function Step(server: Server, e: Event): Server {
    var (s', r) := HandlePdu(server.limit, State(server.mem, SizeOf(server, e.session)), e.pdu);
    server.(mem := s'.mem, sizes := server.sizes[e.session := s'.pduSize])
  }

  function Run(server: Server, events: seq<Event>): Server
    decreases |events|
  {
    if events == [] then server else Run(Step(server, events[0]), events[1..])
  }

  /** The PDUs of one session, in order. */
  function PdusOf(events: seq<Event>, session: nat): seq<bytes> {
    if events == [] then []
    else (if events[0].session == session then [events[0].pdu] else []) + PdusOf(events[1..], session)
  }

  /** The PDU size of a session that handles these PDUs alone, in whatever memory. */
  function SizeAfter(limit: PduLimit, size: nat, pdus: seq<bytes>): nat
    decreases |pdus|
  {
    if pdus == [] then size else SizeAfter(limit, HandlePdu(limit, State(map[], size), pdus[0]).0.pduSize, pdus[1..])
  }

  lemma SizeIgnoresMemory(limit: PduLimit, a: Mem, b: Mem, size: nat, pdu: bytes)
    ensures HandlePdu(limit, State(a, size), pdu).0.pduSize == HandlePdu(limit, State(b, size), pdu).0.pduSize
  {
    hide Receive, SetupAnswer, ReadAnswer, WriteAnswer, NotImplemented, UserdataNotImplemented;
  }

  /** Sessions do not disturb each other: what PDU size a session has depends only on the PDUs it was sent itself, and
      before the first of them it is the configured limit. */
  lemma {:induction false} SessionsApart(server: Server, events: seq<Event>, session: nat)
    ensures SizeOf(Run(server, events), session)
         == SizeAfter(server.limit, SizeOf(server, session), PdusOf(events, session))
    ensures SizeOf(Server(server.limit, server.mem, map[]), session) == server.limit
    decreases |events|
  {
    hide HandlePdu;
    if events != [] {
      var e, next := events[0], Step(server, events[0]);
      SessionsApart(next, events[1..], session);
      if e.session == session {
        SizeIgnoresMemory(server.limit, server.mem, map[], SizeOf(server, session), e.pdu);
        assert PdusOf(events, session)[1..] == PdusOf(events[1..], session);
      } else {
        assert [] + PdusOf(events[1..], session) == PdusOf(events[1..], session);
      }
    }
  }

  /** The memory after these PDUs, from whatever sessions, in order. */
  function MemAfter(limit: PduLimit, mem: Mem, events: seq<Event>): Mem
    decreases |events|
  {
    if events == [] then mem else MemAfter(limit, HandlePdu(limit, State(mem, limit), events[0].pdu).0.mem, events[1..])
  }

  lemma MemIgnoresSize(limit: PduLimit, mem: Mem, a: nat, b: nat, pdu: bytes)
    ensures HandlePdu(limit, State(mem, a), pdu).0.mem == HandlePdu(limit, State(mem, b), pdu).0.mem
  {
    hide Receive, SetupAnswer, ReadAnswer, WriteAnswer, NotImplemented, UserdataNotImplemented;
  }

  /** All sessions work on one memory: it is as if one session had sent all PDUs in the order they came. */
  lemma {:induction false} MemoryShared(server: Server, events: seq<Event>)
    ensures Run(server, events).mem == MemAfter(server.limit, server.mem, events)
    decreases |events|
  {
    hide HandlePdu;
    if events != [] {
      MemIgnoresSize(server.limit, server.mem, SizeOf(server, events[0].session), server.limit, events[0].pdu);
      MemoryShared(Step(server, events[0]), events[1..]);
    }
  }

  ghost predicate SizesWithinLimit(server: Server) {
    forall i :: i in server.sizes ==> server.sizes[i] <= server.limit
  }

  /** Over every run of client PDUs on any number of sessions: no area appears, disappears or changes its size,
      write-protected areas, timers and counters keep their content, and every session's PDU size stays at or below the
      configured limit, itself at most 4096. */
  lemma {:induction false} RunKeeps(server: Server, events: seq<Event>)
    requires SizesWithinLimit(server)
    ensures Kept(server.mem, Run(server, events).mem)
    ensures Run(server, events).limit == server.limit <= 4096
    ensures SizesWithinLimit(Run(server, events))
    decreases |events|
  {
    hide HandlePdu, WellAnswered, IsHeaderError;
    if events != [] {
      var e := events[0];
      var s := State(server.mem, SizeOf(server, e.session));
      HandleKeeps(server.limit, s, e.pdu);
      HandleAnswersEveryReadablePdu(server.limit, s, e.pdu);
      var server' := Step(server, e);
      RunKeeps(server', events[1..]);
      KeptTransitive(server.mem, server'.mem, Run(server', events[1..]).mem);
    }
  }
}
