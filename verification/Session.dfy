/** One client connection of the server: its negotiated PDU size, and the answer to every PDU. */
module Session {
  import opened Octets
  import opened Message
  import opened VarSpecs
  import opened WriteData
  import opened Answers
  import opened Memory
  import opened VarItems

  const MIN_PDU := 240
  const MAX_PDU := 4096
  const DEFAULT_PDU := 480
  const MAX_AMQ := 2

  const CLASS_APP: byte := 0x81
  const CODE_NOT_IMPLEMENTED: byte := 0x04
  const CLASS_SUPPLIES: byte := 0x85
  const CODE_FRAMES: byte := 0x00

  /** A configured PDU size limit. */
  type PduLimit = n: int | MIN_PDU <= n <= MAX_PDU witness MIN_PDU

  /** The limit a configured size stands for; None for one that is refused. */
  function ConfiguredLimit(size: int): Option<PduLimit> {
    if size == 0 then Some(DEFAULT_PDU) else if MIN_PDU <= size <= MAX_PDU then Some(size) else None
  }

  /** Sizes from 240 to 4096 can be configured, and 0 stands for 480. */
  lemma LimitExact(size: int)
    ensures ConfiguredLimit(size).Some? <==> size == 0 || 240 <= size <= 4096
    ensures ConfiguredLimit(size).Some? ==> ConfiguredLimit(size).value == if size == 0 then 480 else size
  {
  }

  /** What a session works on: the shared memory and its own PDU size. */
  datatype State = State(mem: Mem, pduSize: nat)

  /** What the server does with a PDU: drop the connection, or answer. */
  datatype Reaction = Drop | Answer(out: bytes)

  //
  // Setup Communication.
  //

  datatype SetupRequest = SetupRequest(amqCalling: u16, amqCalled: u16, pduSize: u16)

  function ParseSetup(param: bytes): Option<SetupRequest> {
    if |param| < 8 || param[0] != FUNC_SETUP then None
    else Some(SetupRequest(U16(param, 2), U16(param, 4), U16(param, 6)))
  }

  function Min(a: int, b: int): int { if a < b then a else b }

  /** At least one and at most two jobs in parallel. */
  function GrantedAmq(asked: u16): (r: u16)
    ensures (asked == 0 ==> r == 1) && (1 <= asked <= 2 ==> r == asked) && (asked > 2 ==> r == 2)
  {
    if asked < 1 then 1 else if asked > MAX_AMQ then MAX_AMQ else asked
  }

  function SetupResponse(pduRef: u16, calling: u16, called: u16, pduSize: u16): Option<bytes> {
    EncodeAckData(pduRef, 0, 0, [FUNC_SETUP, 0] + PutU16(calling) + PutU16(called) + PutU16(pduSize), [])
  }

  /** The PDU size granted and the answer; None for a malformed job. */
  function SetupAnswer(limit: PduLimit, pduRef: u16, param: bytes): Option<(nat, Option<bytes>)> {
    match ParseSetup(param)
    case None => None
    case Some(req) =>
      var size := Min(req.pduSize, limit);
      Some((size, SetupResponse(pduRef, GrantedAmq(req.amqCalling), GrantedAmq(req.amqCalled), size)))
  }

  /** p is the smaller of what the client asks for and the configured limit. */
  ghost predicate Granted(p: int, asked: int, limit: int) {
    p <= asked && p <= limit && (p == asked || p == limit)
  }

  /** A setup job is understood exactly when it has its eight bytes; then it is granted the smaller size. */
  lemma SetupExact(limit: PduLimit, pduRef: u16, param: bytes)
    ensures var r := SetupAnswer(limit, pduRef, param);
      && (r.Some? <==> |param| >= 8 && param[0] == 0xF0)
      && (r.Some? ==> Granted(r.value.0, (param[6] as int) * 0x100 + param[7], limit) && r.value.1.Some?)
  {
  }

  //
  // Read Var.
  //

  function Results(mem: Mem, specs: seq<VarSpec>, ranges: seq<seq<DBRange>>): (r: seq<ReadVarItem>)
    requires |ranges| == |specs|
    ensures |r| == |specs| && forall i :: 0 <= i < |r| ==> r[i] == ReadItem(mem, specs[i], ranges[i])
  {
    seq(|specs|, i requires 0 <= i < |specs| => ReadItem(mem, specs[i], ranges[i]))
  }

  function Refusal(pduRef: u16, param: bytes): Option<bytes>
    requires |param| > 0
  {
    EncodeAckData(pduRef, CLASS_SUPPLIES, CODE_FRAMES, param[..1], [])
  }

  /** The simple form: read every item, then refuse the job if the answer is longer than the PDU size. */
  function ReadAnswer(s: State, pduRef: u16, param: bytes): Option<bytes> {
    if ParsedSpecs(param, FUNC_READ).None? then None
    else
      RangesAtDBReadItems(param);
      var results := Results(s.mem, ParsedSpecs(param, FUNC_READ).value, ParsedRanges(param).value);
      if 14 + SizeSum(results, |results|) > s.pduSize then Refusal(pduRef, param)
      else ReadVarResponse(pduRef, results)
  }

  /** One round of the server's loop: the item's answer and the bytes used with it, or none when it does not fit. A
      refused item is not checked here but at the end. */
  function ReadStep(s: State, spec: VarSpec, ranges: seq<DBRange>, last: bool, used: nat): (Option<ReadVarItem>, nat) {
    var item := ReadItem(s.mem, spec, ranges);
    var used' := used + ResultSize(item, last);
    var checked := spec.syntax == SYNTAX_DBREAD || Resolve(s.mem, spec).Resolved?;
    (if checked && used' > s.pduSize then None else Some(item), used')
  }

  /** The server's loop from item i on: the size is counted item by item and the job refused as soon as it is too long.
      */
  function ReadFrom(s: State, pduRef: u16, param: bytes, specs: seq<VarSpec>, ranges: seq<seq<DBRange>>,
                    i: nat, used: nat, results: seq<ReadVarItem>): Option<bytes>
    requires i <= |specs| == |ranges| && |param| > 0
    decreases |specs| - i
  {
    if i == |specs| then (if used > s.pduSize then Refusal(pduRef, param) else ReadVarResponse(pduRef, results))
    else
      var (r, used') := ReadStep(s, specs[i], ranges[i], i == |specs| - 1, used);
      if r.None? then Refusal(pduRef, param)
      else ReadFrom(s, pduRef, param, specs, ranges, i + 1, used', results + [r.value])
  }

  lemma {:induction false} SizeSumGrows(items: seq<ReadVarItem>, i: nat, j: nat)
    requires i <= j <= |items|
    ensures SizeSum(items, i) <= SizeSum(items, j)
    decreases j
  {
    if i < j {
      SizeSumGrows(items, i, j - 1);
    }
  }

  lemma {:induction false} ReadFromIsSimple(s: State, pduRef: u16, param: bytes, specs: seq<VarSpec>,
                                            ranges: seq<seq<DBRange>>, i: nat, used: nat, results: seq<ReadVarItem>)
    requires i <= |specs| == |ranges| && |param| > 0
    requires var all := Results(s.mem, specs, ranges);
      used == 14 + SizeSum(all, i) && |results| == i && forall j :: 0 <= j < i ==> results[j] == all[j]
    ensures var all := Results(s.mem, specs, ranges);
      ReadFrom(s, pduRef, param, specs, ranges, i, used, results)
        == if 14 + SizeSum(all, |all|) > s.pduSize then Refusal(pduRef, param) else ReadVarResponse(pduRef, all)
    decreases |specs| - i
  {
    hide ReadItem, Resolve, ReadVarResponse, Refusal, ResultSize;
    var all := Results(s.mem, specs, ranges);
    if i == |specs| {
      assert results == all;
    } else {
      SizeSumGrows(all, i + 1, |all|);
      var (r, used') := ReadStep(s, specs[i], ranges[i], i == |specs| - 1, used);
      if r.Some? {
        ReadFromIsSimple(s, pduRef, param, specs, ranges, i + 1, used', results + [r.value]);
      }
    }
  }

  /** The loop with its early exits gives the answer of the simple form. */
  lemma FastReadIsSimpleRead(s: State, pduRef: u16, param: bytes)
    requires ParsedSpecs(param, FUNC_READ).Some?
    ensures ParsedRanges(param).Some? && |param| > 0
    ensures |ParsedRanges(param).value| == |ParsedSpecs(param, FUNC_READ).value|
    ensures ReadFrom(s, pduRef, param, ParsedSpecs(param, FUNC_READ).value, ParsedRanges(param).value, 0, 14, [])
         == ReadAnswer(s, pduRef, param)
  {
    hide ReadFrom, ReadItem, Refusal, ReadVarResponse, ParsedRanges;
    RangesAtDBReadItems(param);
    ReadFromIsSimple(s, pduRef, param, ParsedSpecs(param, FUNC_READ).value, ParsedRanges(param).value, 0, 14, []);
  }

  //
  // Write Var.
  //

  /** The items from i on, one after the other: memory and the codes behind those already given. */
  function WriteFrom(mem: Mem, specs: seq<VarSpec>, items: seq<WriteVarData>, i: nat, codes: bytes): (Mem, bytes)
    requires i <= |specs| == |items|
    decreases |specs| - i
  {
    if i == |specs| then (mem, codes)
    else
      var (mem', code) := WriteItem(mem, specs[i], items[i]);
      WriteFrom(mem', specs, items, i + 1, codes + [code])
  }

  lemma ParsedWriteLengths(param: bytes, data: bytes)
    requires ParsedWrite(param, data).Some?
    ensures var (specs, items) := ParsedWrite(param, data).value;
      0 < |specs| == |items| <= 0xFF
  {
    hide DataFrom, JoinItems, SplitFrom;
    ParseIffWellFormed(param, FUNC_WRITE, ParseBodies(param, FUNC_WRITE).value);
    var specs := ParsedSpecs(param, FUNC_WRITE).value;
    DataKeepsDone(data, 0, |specs|, []);
  }

  /** Memory after the job and its answer; None for a malformed job. */
  function WriteAnswer(mem: Mem, pduRef: u16, param: bytes, data: bytes): Option<(Mem, Option<bytes>)> {
    match ParsedWrite(param, data)
    case None => None
    case Some((specs, items)) =>
      ParsedWriteLengths(param, data);
      var (mem', codes) := WriteFrom(mem, specs, items, 0, []);
      Some((mem', WriteVarResponse(pduRef, codes)))
  }

  //
  // Any PDU.
  //

  function NotImplemented(pduRef: u16, param: bytes): bytes {
    EncodeAckData(pduRef, CLASS_APP, CODE_NOT_IMPLEMENTED, if |param| > 0 then param[..1] else [], []).value
  }

  /** A user data response with parameter error 0x8104; a header error when the parameter is no user data request. */
  function UserdataNotImplemented(pduRef: u16, param: bytes): bytes {
    if |param| < 8 || param[0] != 0x00 || param[1] != 0x01 || param[2] != 0x12 then NotImplemented(pduRef, param)
    else
      EncodeMessage(ROSCTR_USERDATA, pduRef,
                    [0x00, 0x01, 0x12, 0x08, 0x12, 0x80 + param[5] % 0x40, param[6], param[7], 0x00, 0x00,
                     CLASS_APP, CODE_NOT_IMPLEMENTED],
                    [RET_NOT_AVAILABLE, 0x00, 0x00, 0x00]).value
  }

  function AnswerOr(out: Option<bytes>, pduRef: u16, param: bytes): Reaction {
    Answer(if out.Some? then out.value else NotImplemented(pduRef, param))
  }

  /** A job with a parameter section. */
  function HandleJob(limit: PduLimit, s: State, pduRef: u16, param: bytes, data: bytes): (State, Reaction)
    requires |param| > 0
  {
    if param[0] == FUNC_SETUP then
      match SetupAnswer(limit, pduRef, param)
      case None => (s, AnswerOr(None, pduRef, param))
      case Some((size, out)) => (s.(pduSize := size), AnswerOr(out, pduRef, param))
    else if param[0] == FUNC_READ then
      (s, AnswerOr(ReadAnswer(s, pduRef, param), pduRef, param))
    else if param[0] == FUNC_WRITE then
      match WriteAnswer(s.mem, pduRef, param, data)
      case None => (s, AnswerOr(None, pduRef, param))
      case Some((mem', out)) => (s.(mem := mem'), AnswerOr(out, pduRef, param))
    else
      (s, AnswerOr(None, pduRef, param))
  }

  function HandlePdu(limit: PduLimit, s: State, req: bytes): (State, Reaction) {
    match Receive(req)
    case Unreadable => (s, Drop)
    case Readable(rosctr, pduRef, param, data) =>
      if rosctr == ROSCTR_USERDATA then (s, Answer(UserdataNotImplemented(pduRef, param)))
      else if rosctr != ROSCTR_JOB || |param| == 0 then (s, Answer(NotImplemented(pduRef, param)))
      else HandleJob(limit, s, pduRef, param, data)
  }

  lemma FirstByte(param: bytes)
    requires ParsedSpecs(param, FUNC_READ).Some?
    ensures |param| >= 2 && param[0] == FUNC_READ
  {
  }

  lemma MalformedRead(s: State, pduRef: u16, param: bytes)
    requires ParsedSpecs(param, FUNC_READ).None?
    ensures ReadAnswer(s, pduRef, param).None?
  {
  }

  //
  // The running server: the loops and the in-place changes, against the definitions above.
  //

  class Connection {
    const limit: PduLimit
    const store: Store
    var pduSize: nat

    constructor (limit: PduLimit, store: Store)
      ensures this.limit == limit && this.store == store && pduSize == limit
    {
      this.limit, this.store, this.pduSize := limit, store, limit;
    }

    ghost function Now(): State
      reads this, store
    {
      State(store.regions, pduSize)
    }

    method Setup(pduRef: u16, param: bytes) returns (out: Option<bytes>)
      modifies this
      ensures SetupAnswer(limit, pduRef, param).None? ==> out.None? && pduSize == old(pduSize)
      ensures SetupAnswer(limit, pduRef, param).Some? ==> (pduSize, out) == SetupAnswer(limit, pduRef, param).value
      ensures out.Some? ==> |param| >= 8 && Granted(pduSize, (param[6] as int) * 0x100 + param[7], limit)
    {
      var req := ParseSetup(param);
      if req.None? {
        return None;
      }
      var size := Min(req.value.pduSize, limit);
      pduSize := size;
      out := SetupResponse(pduRef, GrantedAmq(req.value.amqCalling), GrantedAmq(req.value.amqCalled), size);
    }

    method DbRead(ranges: seq<DBRange>) returns (r: ReadVarItem)
      ensures r == DbReadItem(store.regions, ranges)
    {
      hide ReadAny, LengthField;
      var data: bytes := [];
      for i := 0 to |ranges|
        invariant DbReadItem(store.regions, ranges) == DbReadFrom(store.regions, ranges, i, data)
      {
        var key := AreaKey(AREA_DB, ranges[i].db);
        RangeRead(store.regions, ranges[i]);
        if key !in store.regions || ranges[i].db == 0 {
          return RefusedItem(RET_NOT_AVAILABLE);
        }
        var region := store.regions[key];
        var start, n := ranges[i].start, ranges[i].length;
        if n == 0 || start + n > |region.data| {
          return RefusedItem(RET_ADDRESS);
        }
        data := data + [RET_SUCCESS] + region.data[start..start + n];
      }
      return ReadVarItem(RET_SUCCESS, DATA_OCTET, LengthField(|data|), data);
    }

    method ReadOne(spec: VarSpec, ranges: seq<DBRange>, last: bool, used: nat)
      returns (r: Option<ReadVarItem>, used': nat)
      ensures (r, used') == ReadStep(Now(), spec, ranges, last, used)
    {
      hide DbReadItem, ReadAny, ReadResult, Resolve;
      if spec.syntax == SYNTAX_DBREAD {
        var item := DbRead(ranges);
        used' := used + 4 + |item.data|;
        if !last && |item.data| % 2 != 0 {
          used' := used' + 1;
        }
        return if used' > pduSize then None else Some(item), used';
      }
      var resolution := Resolve(store.regions, spec);
      ReadAnySize(store.regions, spec);
      if resolution.Refused? {
        return Some(RefusedItem(resolution.code)), used + 4;
      }
      var t := resolution.target;
      var need := 4 + t.size;
      if t.IsBit() {
        need := 5;
      }
      if !last && need % 2 != 0 {
        need := need + 1;
      }
      used' := used + need;
      if used' > pduSize {
        return None, used';
      }
      return Some(ReadResult(store.regions, t)), used';
    }

    method Read(pduRef: u16, param: bytes) returns (out: Option<bytes>)
      ensures out == ReadAnswer(Now(), pduRef, param)
    {
      hide ReadAnswer, ReadStep, Refusal, ReadVarResponse, ParsedSpecs, ParsedRanges;
      var specs := ParseVarSpecs(param, FUNC_READ);
      if specs.None? {
        MalformedRead(Now(), pduRef, param);
        return None;
      }
      var ranges := ParseReadVarDBRead(param);
      FastReadIsSimpleRead(Now(), pduRef, param);
      if ranges.None? {
        return None;
      }
      var used := 14;
      var results: seq<ReadVarItem> := [];
      for i := 0 to |specs.value|
        invariant used >= 0 && ReadAnswer(Now(), pduRef, param)
               == ReadFrom(Now(), pduRef, param, specs.value, ranges.value, i, used, results)
      {
        var r;
        r, used := ReadOne(specs.value[i], ranges.value[i], i == |specs.value| - 1, used);
        if r.None? {
          return Refusal(pduRef, param);
        }
        results := results + [r.value];
      }
      if used > pduSize {
        return Refusal(pduRef, param);
      }
      out := EncodeReadVarResponse(pduRef, results);
    }

    method WriteOne(spec: VarSpec, item: WriteVarData) returns (code: byte)
      modifies store
      ensures (store.regions, code) == WriteItem(old(store.regions), spec, item)
    {
      ResolvedInMem(store.regions, spec);
      var resolution := Resolve(store.regions, spec);
      if resolution.Refused? {
        return resolution.code;
      }
      var t := resolution.target;
      if |item.data| != t.size {
        return RET_SIZE;
      }
      var region := store.regions[t.key];
      if region.readOnly || TimerOrCounter(spec.area) {
        return RET_ACCESS;
      }
      var value := item.data;
      if t.IsBit() {
        value := [WithBitOfByte(region.data[t.start], t.bit, item.data[0] % 2 != 0)];
      }
      store.regions := store.regions[t.key := region.(data := Splice(region.data, t.start, value))];
      return RET_SUCCESS;
    }

    method Write(pduRef: u16, param: bytes, data: bytes) returns (out: Option<bytes>)
      modifies store
      ensures WriteAnswer(old(store.regions), pduRef, param, data).None? ==>
        out.None? && store.regions == old(store.regions)
      ensures WriteAnswer(old(store.regions), pduRef, param, data).Some? ==>
                (store.regions, out) == WriteAnswer(old(store.regions), pduRef, param, data).value
    {
      hide ParsedWrite, WriteItem;
      var parsed := ParseWriteVarRequest(param, data);
      if parsed.None? {
        return None;
      }
      ParsedWriteLengths(param, data);
      var (specs, items) := parsed.value;
      var codes: bytes := [];
      for i := 0 to |specs|
        invariant WriteFrom(old(store.regions), specs, items, 0, [])
               == WriteFrom(store.regions, specs, items, i, codes)
      {
        var code := WriteOne(specs[i], items[i]);
        codes := codes + [code];
      }
      out := WriteVarResponse(pduRef, codes);
    }

    /** Answers one PDU, or says that the connection is dropped. */
    method Handle(req: bytes) returns (r: Reaction)
      modifies this, store
      ensures (Now(), r) == HandlePdu(limit, old(Now()), req)
    {
      hide ReadAnswer, SetupAnswer, WriteAnswer, NotImplemented, UserdataNotImplemented, U16;
      if |req| < HEADER_SIZE || req[0] != PROTOCOL_ID {
        return Drop;
      }
      var rosctr, pduRef, paramLen, dataLen := req[1], U16(req, 4), U16(req, 6), U16(req, 8);
      if HEADER_SIZE + paramLen + dataLen != |req| {
        return Drop;
      }
      var param, data := req[HEADER_SIZE..HEADER_SIZE + paramLen], req[HEADER_SIZE + paramLen..];
      if rosctr == ROSCTR_USERDATA {
        return Answer(UserdataNotImplemented(pduRef, param));
      }
      if rosctr != ROSCTR_JOB || paramLen == 0 {
        return Answer(NotImplemented(pduRef, param));
      }
      var out: Option<bytes> := None;
      if param[0] == FUNC_SETUP {
        out := Setup(pduRef, param);
      } else if param[0] == FUNC_READ {
        out := Read(pduRef, param);
      } else if param[0] == FUNC_WRITE {
        out := Write(pduRef, param, data);
      }
      if out.None? {
        return Answer(NotImplemented(pduRef, param));
      }
      return Answer(out.value);
    }
  }
}
