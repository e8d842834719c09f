/** The client's request/reply exchange and its chunked reads and writes, against any peer. */
module Client {
  import opened Octets
  import opened Message
  import opened Requests
  import opened Answers

  type u32 = v: int | 0 <= v < 0x1_0000_0000

  //
  // The transport: a peer answers, or fails to, depending on everything it was sent.
  //

  datatype Reply = Tsdu(data: bytes) | Lost(timeout: bool)

  type Peer = seq<bytes> -> Reply

  /** The session fields an operation reads. */
  datatype Line = Line(connected: bool, pduSize: nat)

  /** What was sent so far and the counter PDU references come from. */
  datatype Net = Net(sent: seq<bytes>, counter: u32)

  datatype Failure =
    | NotConnected
    | ExceedsPdu
    | TransportFailed(timeout: bool)
    | BadHeader(error: HeaderError)
    | RefMismatch
    | HeaderRefused(errClass: byte, errCode: byte)

  /** Crashed is a slice expression out of its bounds. */
  datatype Exchanged = Sections(param: bytes, data: bytes) | Broken(failure: Failure) | Crashed

  /** The next reference skips 0. */
  function NextRef(counter: u32): (u32, u16) {
    var c := (counter + 1) % 0x1_0000_0000;
    if c % 0x1_0000 != 0 then (c, c % 0x1_0000)
    else ((c + 1) % 0x1_0000_0000, (c + 1) % 0x1_0000)
  }

  /** What the client makes of a reply. The end of the data section is computed in 16 bits. */
  function Interpret(reply: bytes, expected: u16): Exchanged {
    match ParseS7Header(reply)
    case Unparsed(e) => Broken(BadHeader(e))
    case Parsed(h, rest) =>
      if expected != 0 && h.pduRef != expected then Broken(RefMismatch)
      else if h.errorClass != 0 || h.errorCode != 0 then Broken(HeaderRefused(h.errorClass, h.errorCode))
      else
        var end := (h.paramLength + h.dataLength) % 0x1_0000;
        if end < h.paramLength then Crashed
        else Sections(rest[..h.paramLength], rest[h.paramLength..end])
  }

  function SendReceive(peer: Peer, line: Line, sent: seq<bytes>, req: bytes, expected: u16): (seq<bytes>, Exchanged) {
    if !line.connected then (sent, Broken(NotConnected))
    else if line.pduSize > 0 && |req| > line.pduSize then (sent, Broken(ExceedsPdu))
    else
      (sent + [req],
       match peer(sent + [req])
       case Lost(timeout) => Broken(TransportFailed(timeout))
       case Tsdu(reply) => Interpret(reply, expected))
  }

  /** The sections of a reply are those its header declares, whenever their lengths add up to less than 65536. */
  lemma InterpretAnswer(out: bytes, pduRef: u16, errClass: byte, errCode: byte, param: bytes, data: bytes)
    requires IsAnswerWith(out, pduRef, errClass, errCode, param, data)
    requires |param| + |data| < 0x1_0000
    ensures Interpret(out, pduRef)
         == if errClass != 0 || errCode != 0 then Broken(HeaderRefused(errClass, errCode)) else Sections(param, data)
  {
    hide ParseS7Header;
    assert (param + data)[..|param|] == param && (param + data)[|param|..|param| + |data|] == data;
  }

  //
  // Reading.
  //

  datatype Status = Success | ShortRead | EmptyRead | Rejected | Timeout | TransportErr | ProtocolErr | Inconclusive

  datatype ReadResult = ReadResult(status: Status, requested: nat, data: bytes, code: byte)

  datatype ReadReturn = InvalidRead | Result(r: ReadResult) | ReadCrash

  function ClassifyFailure(f: Failure): Status {
    match f
    case TransportFailed(timeout) => if timeout then Timeout else TransportErr
    case NotConnected => TransportErr
    case HeaderRefused(_, _) => Rejected
    case _ => ProtocolErr
  }

  function ClassifyReadOutcome(requested: int, returned: int): Status {
    if requested <= 0 then Success
    else if returned == 0 then EmptyRead
    else if returned < requested then ShortRead
    else Success
  }

  predicate ValidAddress(addr: S7AnyAddress) {
    addr.start >= 0 && addr.size >= 0 && 0 <= addr.db <= MAX_DB && addr.start <= MAX_BYTE_OFFSET
  }

  /** n bytes from start stay inside the address space. */
  predicate ValidEnd(start: int, n: int) {
    n <= MAX_BYTE_OFFSET + 1 - start
  }

  /** The bytes one chunk may carry, given the overhead of its request. */
  function MaxChunk(pduSize: nat, overhead: nat): (m: nat)
    ensures m > 0
  {
    if pduSize - overhead < 1 then 200 else pduSize - overhead
  }

  /** The chunks of a transfer: as many of the full size as fit, then the rest. */
  function Chunks(total: nat, m: nat): seq<nat>
    requires m > 0
  {
    if total == 0 then [] else if total <= m then [total] else [m] + Chunks(total - m, m)
  }

  /** What one chunk gave: its bytes, or the end of the read with or without the bytes before it. */
  datatype Chunk = Got(data: bytes) | Stop(status: Status, code: byte, keep: bool) | StopInvalid | StopCrash

  function Judge(ex: Exchanged, size: nat): Chunk {
    match ex
    case Crashed => StopCrash
    case Broken(f) => Stop(ClassifyFailure(f), 0, false)
    case Sections(param, data) =>
      match ParsedItems(param, data)
      case None => Stop(ProtocolErr, 0, true)
      case Some(items) =>
        if items == [] then Stop(EmptyRead, 0, true)
        else if items[0].returnCode != RET_SUCCESS then Stop(Rejected, items[0].returnCode, true)
        else if |items[0].data| > size then Stop(ProtocolErr, 0, true)
        else Got(items[0].data)
  }

  function AskChunk(peer: Peer, line: Line, net: Net, area: byte, db: int, offset: int, size: nat): (Net, Chunk) {
    var (counter, ref) := NextRef(net.counter);
    match ReadVarRequest(ref, [S7AnyAddress(area, db, offset, size)])
    case None => (Net(net.sent, counter), StopInvalid)
    case Some(req) =>
      var (sent, ex) := SendReceive(peer, line, net.sent, req, ref);
      (Net(sent, counter), Judge(ex, size))
  }

  function ReadChunks(peer: Peer, line: Line, net: Net, addr: S7AnyAddress, chunks: seq<nat>, offset: int,
                      result: bytes): (Net, ReadReturn)
    requires addr.size >= 0
    decreases |chunks|
  {
    if chunks == [] then
      (net, Result(ReadResult(ClassifyReadOutcome(addr.size, |result|), addr.size, result, 0)))
    else
      var (net', c) := AskChunk(peer, line, net, addr.area, addr.db, offset, chunks[0]);
      match c
      case StopInvalid => (net', InvalidRead)
      case StopCrash => (net', ReadCrash)
      case Stop(status, code, keep) => (net', Result(ReadResult(status, addr.size, if keep then result else [], code)))
      case Got(data) => ReadChunks(peer, line, net', addr, chunks[1..], offset + chunks[0], result + data)
  }

  function ReadArea(peer: Peer, line: Line, net: Net, addr: S7AnyAddress): (Net, ReadReturn) {
    if !ValidAddress(addr) || !ValidEnd(addr.start, addr.size) then (net, InvalidRead)
    else ReadChunks(peer, line, net, addr, Chunks(addr.size, MaxChunk(line.pduSize, 24)), addr.start, [])
  }

  //
  // Writing.
  //

  datatype WriteReturn =
    | WriteOk | InvalidWrite | WriteFailed(failure: Failure) | WriteRefused(outcome: WriteOutcome) | WriteCrash

  function AskWrite(peer: Peer, line: Line, net: Net, area: byte, db: int, offset: int, value: bytes)
    : (Net, WriteReturn)
  {
    var (counter, ref) := NextRef(net.counter);
    match WriteVarRequest(ref, S7AnyAddress(area, db, offset, |value|), value)
    case None => (Net(net.sent, counter), InvalidWrite)
    case Some(req) =>
      var (sent, ex) := SendReceive(peer, line, net.sent, req, ref);
      (Net(sent, counter),
       match ex
       case Crashed => WriteCrash
       case Broken(f) => WriteFailed(f)
       case Sections(param, data) =>
         var outcome := ParsedWriteAnswer(param, data);
         if outcome.Written? then WriteOk else WriteRefused(outcome))
  }

  function WriteChunks(peer: Peer, line: Line, net: Net, addr: S7AnyAddress, chunks: seq<nat>, data: bytes,
                       offset: nat): (Net, WriteReturn)
    decreases |chunks|
  {
    if chunks == [] then (net, WriteOk)
    else if offset + chunks[0] > |data| then (net, WriteCrash)
    else
      var (net', r) := AskWrite(peer, line, net, addr.area, addr.db, addr.start + offset,
                                data[offset..offset + chunks[0]]);
      if r.WriteOk? then WriteChunks(peer, line, net', addr, chunks[1..], data, offset + chunks[0]) else (net', r)
  }

  function WriteArea(peer: Peer, line: Line, net: Net, addr: S7AnyAddress, data: bytes): (Net, WriteReturn) {
    if !ValidAddress(addr) || !ValidEnd(addr.start, |data|) then (net, InvalidWrite)
    else WriteChunks(peer, line, net, addr, Chunks(|data|, MaxChunk(line.pduSize, 28)), data, 0)
  }

  //
  // The running client.
  //

  method PlanReadChunks(total: int, maxChunk: int) returns (out: seq<nat>)
    ensures out == if total <= 0 then [] else Chunks(total, if maxChunk <= 0 then total else maxChunk)
  {
    if total <= 0 {
      return [];
    }
    var m := if maxChunk <= 0 then total else maxChunk;
    out := [];
    var remaining := total;
    while remaining > 0
      invariant 0 <= remaining && Chunks(total, m) == out + Chunks(remaining, m)
    {
      var n := if remaining < m then remaining else m;
      if remaining == n {
        assert Chunks(remaining, m) == [n] + Chunks(0, m);
      }
      assert out + ([n] + Chunks(remaining - n, m)) == out + [n] + Chunks(remaining - n, m);
      out := out + [n];
      remaining := remaining - n;
    }
  }

  class S7Client {
    const peer: Peer
    var line: Line
    var sent: seq<bytes>
    var counter: u32

    constructor (peer: Peer)
      ensures this.peer == peer && line == Line(false, 0) && Now() == Net([], 0)
    {
      this.peer, line, sent, counter := peer, Line(false, 0), [], 0;
    }

    ghost function Now(): Net
      reads this
    {
      Net(sent, counter)
    }

    method NextPduRef() returns (ref: u16)
      modifies this`counter
      ensures (counter, ref) == NextRef(old(counter)) && ref != 0
    {
      while true
        invariant counter == old(counter) || (counter % 0x1_0000 == 0 && counter == (old(counter) + 1) % 0x1_0000_0000)
        decreases if counter % 0x1_0000 == 0 then 0 else 1
      {
        counter := (counter + 1) % 0x1_0000_0000;
        if counter % 0x1_0000 != 0 {
          return counter % 0x1_0000;
        }
      }
    }

    method Exchange(req: bytes, expected: u16) returns (ex: Exchanged)
      modifies this`sent
      ensures (sent, ex) == SendReceive(peer, line, old(sent), req, expected)
    {
      if !line.connected {
        return Broken(NotConnected);
      }
      if line.pduSize > 0 && |req| > line.pduSize {
        return Broken(ExceedsPdu);
      }
      sent := sent + [req];
      var reply := peer(sent);
      if reply.Lost? {
        return Broken(TransportFailed(reply.timeout));
      }
      return Interpret(reply.data, expected);
    }

    method Read(addr: S7AnyAddress) returns (r: ReadReturn)
      modifies this`sent, this`counter
      ensures (Now(), r) == ReadArea(peer, line, old(Now()), addr)
    {
      hide ReadVarRequest, SendReceive, Judge, NextRef;
      if !ValidAddress(addr) || !ValidEnd(addr.start, addr.size) {
        return InvalidRead;
      }
      var chunks := PlanReadChunks(addr.size, MaxChunk(line.pduSize, 24));
      var result: bytes := [];
      var offset := addr.start;
      for i := 0 to |chunks|
        invariant ReadArea(peer, line, old(Now()), addr)
               == ReadChunks(peer, line, Now(), addr, chunks[i..], offset, result)
      {
        assert chunks[i..][1..] == chunks[i + 1..];
        var ref := NextPduRef();
        var req := EncodeReadVarRequest(ref, [S7AnyAddress(addr.area, addr.db, offset, chunks[i])]);
        if req.None? {
          return InvalidRead;
        }
        var ex := Exchange(req.value, ref);
        var c := Judge(ex, chunks[i]);
        match c {
          case StopInvalid => return InvalidRead;
          case StopCrash => return ReadCrash;
          case Stop(status, code, keep) =>
            return Result(ReadResult(status, addr.size, if keep then result else [], code));
          case Got(data) => result := result + data;
        }
        offset := offset + chunks[i];
      }
      return Result(ReadResult(ClassifyReadOutcome(addr.size, |result|), addr.size, result, 0));
    }

    method Write(addr: S7AnyAddress, data: bytes) returns (r: WriteReturn)
      modifies this`sent, this`counter
      ensures (Now(), r) == WriteArea(peer, line, old(Now()), addr, data)
    {
      hide WriteVarRequest, SendReceive, NextRef, ParsedWriteAnswer;
      if !ValidAddress(addr) || !ValidEnd(addr.start, |data|) {
        return InvalidWrite;
      }
      var chunks := PlanReadChunks(|data|, MaxChunk(line.pduSize, 28));
      var offset := 0;
      for i := 0 to |chunks|
        invariant offset >= 0 && WriteArea(peer, line, old(Now()), addr, data)
               == WriteChunks(peer, line, Now(), addr, chunks[i..], data, offset)
      {
        assert chunks[i..][1..] == chunks[i + 1..];
        if offset + chunks[i] > |data| {
          return WriteCrash;
        }
        var chunk := data[offset..offset + chunks[i]];
        var ref := NextPduRef();
        var req := WriteVarRequest(ref, S7AnyAddress(addr.area, addr.db, addr.start + offset, |chunk|), chunk);
        if req.None? {
          return InvalidWrite;
        }
        var ex := Exchange(req.value, ref);
        if ex.Crashed? {
          return WriteCrash;
        }
        if ex.Broken? {
          return WriteFailed(ex.failure);
        }
        var outcome := ParseWriteVarResponse(ex.param, ex.data);
        if !outcome.Written? {
          return WriteRefused(outcome);
        }
        offset := offset + chunks[i];
      }
      return WriteOk;
    }
  }
}
