/** Chunked transfers to and from the server refine one flat read or write of its memory. */
module Transfers {
  import opened Octets
  import opened Message
  import opened WriteData
  import opened Requests
  import opened Answers
  import opened Memory
  import opened VarItems
  import opened Session
  import opened Client
  import opened EndToEnd

  /** The bytes a client may address in an area: those of a registered area other than timers and counters. */
  function Content(mem: Mem, area: byte, db: int): Option<bytes> {
    match KeyOf(area, db)
    case None => None
    case Some(key) => if key in mem && !TimerOrCounter(area) then Some(mem[key].data) else None
  }

  /** The code a byte item with an address the server does not accept is refused with. */
  function AddressCode(mem: Mem, area: byte, db: int): byte {
    if KeyOf(area, db).None? || KeyOf(area, db).value !in mem then RET_NOT_AVAILABLE else RET_ADDRESS
  }

  /** The bytes there are from offset on, negative when there is nothing to address. */
  function Available(content: Option<bytes>, offset: int): int {
    if content.None? then -1 else |content.value| - offset
  }

  function Part(content: Option<bytes>, offset: nat, n: nat): bytes
    requires n == 0 || n <= Available(content, offset)
  {
    if n == 0 then [] else content.value[offset..offset + n]
  }

  /** The bytes of the leading whole chunks that fit. */
  function Fit(total: nat, m: nat, avail: int): (n: nat)
    requires m > 0
    ensures n <= total && (n == 0 || n <= avail)
    decreases total
  {
    var c := if total <= m then total else m;
    if total == 0 || c > avail then 0 else c + Fit(total - c, m, avail - c)
  }

  lemma FitStep(total: nat, m: nat, avail: int)
    requires m > 0
    ensures total == 0 ==> Fit(total, m, avail) == 0
    ensures var c := if total <= m then total else m;
      total > 0 ==> Fit(total, m, avail) == if c > avail then 0 else c + Fit(total - c, m, avail - c)
  {
  }

  /** All of the transfer when it fits, otherwise the largest number of full chunks that do. */
  lemma {:induction false} FitExact(total: nat, m: nat, avail: int) returns (k: nat)
    requires m > 0
    ensures var n := Fit(total, m, avail);
      && (n == total <==> total == 0 || total <= avail)
      && (n < total && avail >= 0 ==> n == k * m && k * m <= avail < k * m + m)
      && (n < total && avail < 0 ==> n == 0)
    decreases total
  {
    k := 0;
    var c := if total <= m then total else m;
    if total > 0 && c <= avail {
      var j := FitExact(total - c, m, avail - c);
      k := j + 1;
      assert k * m == j * m + m;
    }
  }

  lemma SlicesJoin(s: bytes, a: nat, b: nat, c: nat, before: bytes)
    requires a <= b <= c <= |s|
    ensures before + s[a..b] + s[b..c] == before + s[a..c]
  {
    assert s[a..b] + s[b..c] == s[a..c];
    assert before + s[a..b] + s[b..c] == before + (s[a..b] + s[b..c]);
  }

  lemma PartJoin(content: Option<bytes>, offset: nat, c: nat, n: nat, result: bytes)
    requires 0 < c <= Available(content, offset) && (n == 0 || n <= Available(content, offset + c))
    ensures result + Part(content, offset, c) + Part(content, offset + c, n) == result + Part(content, offset, c + n)
  {
    SlicesJoin(content.value, offset, offset + c, offset + c + n, result);
    assert content.value[offset + c..offset + c] == [];
  }

  lemma FirstChunk(total: nat, m: nat)
    requires m > 0 && total > 0
    ensures var c := if total <= m then total else m;
      Chunks(total, m) != [] && Chunks(total, m)[0] == c && Chunks(total, m)[1..] == Chunks(total - c, m)
  {
  }

  //
  // Reading.
  //

  lemma ByteRead(mem: Mem, range: S7AnyAddress)
    requires InRange(range) && range.size > 0
    ensures var content := Content(mem, range.area, range.db);
      ReadAny(mem, AddressSpec(range)) ==
        if range.size > Available(content, range.start) then RefusedItem(AddressCode(mem, range.area, range.db))
        else ReadVarItem(RET_SUCCESS, DATA_BYTE, LengthField(range.size * 8), Part(content, range.start, range.size))
  {
    assert range.start * 8 / 8 == range.start && range.start * 8 % 8 == 0;
  }

  lemma NoChunks(m: nat)
    requires m > 0
    ensures Chunks(0, m) == []
  {
  }

  lemma AddressCodeRefuses(mem: Mem, area: byte, db: int)
    ensures AddressCode(mem, area, db) != RET_SUCCESS
  {
  }

  lemma {:induction false} ReadServedFrom(limit: PduLimit, s: State, line: Line, net: Net, addr: S7AnyAddress,
                                          total: nat, offset: nat, result: bytes)
    requires Agreed(limit, s, line, net.sent) && line.pduSize >= 25
    requires ValidAddress(addr) && ValidEnd(offset, total)
    ensures var m := line.pduSize - 24;
      var (net', r) := ReadChunks(ServerPeer(limit, s), line, net, addr, Chunks(total, m), offset, result);
      var mem := ServerAfter(limit, s, net.sent).mem;
      var content := Content(mem, addr.area, addr.db);
      var n := Fit(total, m, Available(content, offset));
      var data := result + Part(content, offset, n);
      && ServerAfter(limit, s, net'.sent) == ServerAfter(limit, s, net.sent)
      && r == Result(if n == total then ReadResult(ClassifyReadOutcome(addr.size, |data|), addr.size, data, 0)
                     else ReadResult(Rejected, addr.size, data, AddressCode(mem, addr.area, addr.db)))
    decreases total
  {
    hide AskChunk, ServerAfter, ServerPeer, ReadAny, Content, AddressCode, ClassifyReadOutcome, Chunks, LengthField,
         AddressSpec, Fit;
    var m := line.pduSize - 24;
    var mem := ServerAfter(limit, s, net.sent).mem;
    var content := Content(mem, addr.area, addr.db);
    FitStep(total, m, Available(content, offset));
    if total == 0 {
      assert Chunks(total, m) == [] by { NoChunks(m); }
      assert result + [] == result;
    } else {
      var c := if total <= m then total else m;
      FirstChunk(total, m);
      var range := S7AnyAddress(addr.area, addr.db, offset, c);
      ReadServed(limit, s, line, net, range);
      ByteRead(mem, range);
      var (net1, got) := AskChunk(ServerPeer(limit, s), line, net, addr.area, addr.db, offset, c);
      if c > Available(content, offset) {
        assert AddressCode(mem, addr.area, addr.db) != RET_SUCCESS by { AddressCodeRefuses(mem, addr.area, addr.db); }
        assert result + [] == result;
      } else {
        ReadServedFrom(limit, s, line, net1, addr, total - c, offset + c, result + got.data);
        PartJoin(content, offset, c, Fit(total - c, m, Available(content, offset + c)), result);
      }
    }
  }

  /** Reading any validated range with any PDU size from 25 on: the data are exactly the bytes in the server's memory,
      as many as lie in whole chunks inside the area; the status is success if and only if that is all of them, and
      otherwise rejected with the code of the first chunk that does not fit. Memory and PDU size stay as they were. */
  lemma ReadAreaEndToEnd(limit: PduLimit, s: State, line: Line, net: Net, addr: S7AnyAddress)
    requires Agreed(limit, s, line, net.sent) && line.pduSize >= 25
    requires ValidAddress(addr) && ValidEnd(addr.start, addr.size)
    ensures var (net', r) := ReadArea(ServerPeer(limit, s), line, net, addr);
      var mem := ServerAfter(limit, s, net.sent).mem;
      var content := Content(mem, addr.area, addr.db);
      var n := Fit(addr.size, line.pduSize - 24, Available(content, addr.start));
      && ServerAfter(limit, s, net'.sent) == ServerAfter(limit, s, net.sent)
      && r.Result? && r.r.data == Part(content, addr.start, n)
      && r.r.status == (if n == addr.size then Success else Rejected)
      && (n < addr.size ==> r.r.code == AddressCode(mem, addr.area, addr.db))
  {
    hide ServerAfter, ServerPeer, ReadChunks, Content, AddressCode, Chunks;
    ReadServedFrom(limit, s, line, net, addr, addr.size, addr.start, []);
    var content := Content(ServerAfter(limit, s, net.sent).mem, addr.area, addr.db);
    var n := Fit(addr.size, line.pduSize - 24, Available(content, addr.start));
    assert [] + Part(content, addr.start, n) == Part(content, addr.start, n);
  }

  /** For a range inside its area, success for every PDU size from 25 on, and below that exactly for at most six bytes
      with a PDU size of 24. */
  lemma ReadSucceedsIff(limit: PduLimit, s: State, line: Line, net: Net, addr: S7AnyAddress)
    requires Agreed(limit, s, line, net.sent) && ValidAddress(addr) && ValidEnd(addr.start, addr.size) && addr.size > 0
    requires addr.size <= Available(Content(ServerAfter(limit, s, net.sent).mem, addr.area, addr.db), addr.start)
    ensures var r := ReadArea(ServerPeer(limit, s), line, net, addr).1;
      r.Result? && (r.r.status == Success <==> line.pduSize >= 25 || (line.pduSize == 24 && addr.size <= 6))
  {
    hide ServerAfter, ServerPeer, AskChunk, Content, AddressCode, ReadAny, Chunks, LengthField;
    if line.pduSize >= 25 {
      ReadAreaEndToEnd(limit, s, line, net, addr);
      var content := Content(ServerAfter(limit, s, net.sent).mem, addr.area, addr.db);
      var _ := FitExact(addr.size, line.pduSize - 24, Available(content, addr.start));
    } else {
      var c := if addr.size <= 200 then addr.size else 200;
      var range := S7AnyAddress(addr.area, addr.db, addr.start, c);
      FirstChunk(addr.size, 200);
      ReadServed(limit, s, line, net, range);
      ByteRead(ServerAfter(limit, s, net.sent).mem, range);
      var (net1, got) := AskChunk(ServerPeer(limit, s), line, net, addr.area, addr.db, addr.start, c);
      NoChunks(200);
      if addr.size <= 6 && line.pduSize == 24 {
        assert got.Got? && |got.data| == addr.size;
        assert ReadChunks(ServerPeer(limit, s), line, net1, addr, Chunks(0, 200), addr.start + c, [] + got.data).1
            == Result(ReadResult(ClassifyReadOutcome(addr.size, |[] + got.data|), addr.size, [] + got.data, 0));
      } else {
        assert got.Stop? && got.status != Success;
      }
    }
  }

  //
  // Writing.
  //

  /** Whether clients may write the area. */
  predicate Writable(mem: Mem, area: byte, db: int) {
    Content(mem, area, db).Some? && !mem[KeyOf(area, db).value].readOnly
  }

  /** The bytes there are to write from offset on, negative when the area does not take writes. */
  function Room(mem: Mem, area: byte, db: int, offset: int): int {
    if Writable(mem, area, db) then Available(Content(mem, area, db), offset) else -1
  }

  /** One flat write: memory with these bytes in place of those from start on, and nothing else changed. */
  function Written(mem: Mem, addr: S7AnyAddress, value: bytes): Mem
    requires addr.start >= 0 && (value == [] || |value| <= Room(mem, addr.area, addr.db, addr.start))
  {
    if value == [] then mem
    else
      var key := KeyOf(addr.area, addr.db).value;
      WithData(mem, key, Splice(mem[key].data, addr.start, value))
  }

  /** It is the host's own write of those bytes. */
  lemma WrittenIsHostWrite(mem: Mem, addr: S7AnyAddress, value: bytes)
    requires addr.start >= 0 && 0 < |value| <= Room(mem, addr.area, addr.db, addr.start)
    ensures HostWrite(mem, addr.area, addr.db, addr.start, value) == (Done(()), Written(mem, addr, value))
  {
  }

  lemma ByteWrite(mem: Mem, area: byte, db: int, offset: nat, value: bytes)
    requires value != [] && |value| <= 8191 && InRange(S7AnyAddress(area, db, offset, |value|))
    ensures var addr := S7AnyAddress(area, db, offset, |value|);
      var (mem', code) := WriteItem(mem, AddressSpec(addr), WriteVarData(RET_SUCCESS, DATA_BYTE, |value| * 8, value));
      if |value| <= Room(mem, area, db, offset) then code == RET_SUCCESS && mem' == Written(mem, addr, value)
      else code != RET_SUCCESS && mem' == mem
  {
    var addr := S7AnyAddress(area, db, offset, |value|);
    assert offset * 8 / 8 == offset && offset * 8 % 8 == 0;
    ResolvedInMem(mem, AddressSpec(addr));
  }

  lemma SpliceTwice(data: bytes, start: nat, a: bytes, b: bytes)
    requires start + |a| + |b| <= |data|
    ensures Splice(Splice(data, start, a), start + |a|, b) == Splice(data, start, a + b)
  {
    var l, r := Splice(Splice(data, start, a), start + |a|, b), Splice(data, start, a + b);
    forall j | 0 <= j < |data| ensures l[j] == r[j] {
    }
  }

  /** Writing a and then b behind it is writing both at once. */
  lemma WrittenTwice(mem: Mem, addr: S7AnyAddress, a: bytes, b: bytes)
    requires addr.start >= 0 && (a == [] || |a| <= Room(mem, addr.area, addr.db, addr.start)) && b != []
    requires |a| + |b| <= Room(mem, addr.area, addr.db, addr.start)
    ensures var mid := Written(mem, addr, a);
      var next := addr.(start := addr.start + |a|);
      && Room(mid, addr.area, addr.db, next.start) == Room(mem, addr.area, addr.db, addr.start) - |a|
      && Written(mid, next, b) == Written(mem, addr, a + b)
  {
    var key := KeyOf(addr.area, addr.db).value;
    if a == [] {
      assert a + b == b;
    } else {
      SpliceTwice(mem[key].data, addr.start, a, b);
    }
  }

  lemma RoomAfter(mem: Mem, addr: S7AnyAddress, a: bytes)
    requires addr.start >= 0 && (a == [] || |a| <= Room(mem, addr.area, addr.db, addr.start))
    ensures var mid := Written(mem, addr, a);
      Room(mid, addr.area, addr.db, addr.start + |a|)
        == if Writable(mem, addr.area, addr.db) then Room(mem, addr.area, addr.db, addr.start) - |a| else -1
  {
  }

  /** PDU sizes with which every chunk of a write of total bytes is short enough to be sent: no limit, an even size of
      at least 30, or an odd one and a write shorter than one chunk. */
  predicate Sendable(pduSize: nat, total: nat) {
    pduSize == 0 || (pduSize >= 30 && pduSize % 2 == 0) || (pduSize % 2 == 1 && total < pduSize - 28)
  }

  lemma WrittenHere(mem: Mem, addr: S7AnyAddress, start: nat, value: bytes)
    requires value == [] || |value| <= Room(mem, addr.area, addr.db, start)
    ensures Written(mem, S7AnyAddress(addr.area, addr.db, start, |value|), value)
         == Written(mem, addr.(start := start), value)
  {
  }

  lemma RoomSign(mem: Mem, area: byte, db: int, start: int)
    ensures !Writable(mem, area, db) ==> Room(mem, area, db, start) == -1
  {
  }

  lemma WriteStep(limit: PduLimit, s: State, line: Line, net: Net, mem: Mem, addr: S7AnyAddress, data: bytes,
                  offset: nat, c: nat)
    requires Agreed(limit, s, line, net.sent) && ValidAddress(addr) && ValidEnd(addr.start, |data|)
    requires 0 < c <= 8191 && offset + c <= |data| && (line.pduSize == 0 || 28 + c + c % 2 <= line.pduSize)
    requires offset == 0 || offset <= Room(mem, addr.area, addr.db, addr.start)
    requires ServerAfter(limit, s, net.sent).mem == Written(mem, addr, data[..offset])
    ensures var (net', r) := AskWrite(ServerPeer(limit, s), line, net, addr.area, addr.db, addr.start + offset,
                                      data[offset..offset + c]);
      var before := ServerAfter(limit, s, net.sent);
      if c <= Room(mem, addr.area, addr.db, addr.start) - offset then
        r.WriteOk? && ServerAfter(limit, s, net'.sent) == before.(mem := Written(mem, addr, data[..offset + c]))
      else !r.WriteOk? && ServerAfter(limit, s, net'.sent) == before
  {
    hide AskWrite, ServerAfter, ServerPeer, WriteItem, Written, Room, AddressSpec, Writable;
    var before := ServerAfter(limit, s, net.sent);
    var value := data[offset..offset + c];
    WriteServed(limit, s, line, net, addr.area, addr.db, addr.start + offset, value);
    ByteWrite(before.mem, addr.area, addr.db, addr.start + offset, value);
    RoomAfter(mem, addr, data[..offset]);
    RoomSign(mem, addr.area, addr.db, addr.start);
    if c <= Room(mem, addr.area, addr.db, addr.start) - offset {
      WrittenTwice(mem, addr, data[..offset], value);
      WrittenHere(before.mem, addr, addr.start + offset, value);
      assert data[..offset] + value == data[..offset + c];
    }
  }

  /** The write left memory as one flat write of the first n bytes does, and succeeded exactly if that is all. */
  ghost predicate PrefixWritten(limit: PduLimit, s: State, net: Net, net': Net, r: WriteReturn, mem: Mem,
                                addr: S7AnyAddress, data: bytes, n: nat)
  {
    && addr.start >= 0 && n <= |data| && (n == 0 || n <= Room(mem, addr.area, addr.db, addr.start))
    && ServerAfter(limit, s, net'.sent) == ServerAfter(limit, s, net.sent).(mem := Written(mem, addr, data[..n]))
    && (r.WriteOk? <==> n == |data|)
  }

  lemma ChunkSendable(pduSize: nat, total: nat)
    requires total > 0 && pduSize <= MAX_PDU && Sendable(pduSize, total)
    ensures var m := MaxChunk(pduSize, 28);
      var c := if total <= m then total else m;
      c <= 8191 && (pduSize == 0 || 28 + c + c % 2 <= pduSize) && Sendable(pduSize, total - c)
  {
  }

  lemma WriteChunksStep(peer: Peer, line: Line, net: Net, addr: S7AnyAddress, m: nat, data: bytes, offset: nat)
    requires m > 0 && offset < |data|
    ensures var c := if |data| - offset <= m then |data| - offset else m;
      var (net', r) := AskWrite(peer, line, net, addr.area, addr.db, addr.start + offset, data[offset..offset + c]);
      WriteChunks(peer, line, net, addr, Chunks(|data| - offset, m), data, offset)
        == if r.WriteOk? then WriteChunks(peer, line, net', addr, Chunks(|data| - offset - c, m), data, offset + c)
           else (net', r)
  {
    hide AskWrite, Chunks;
    FirstChunk(|data| - offset, m);
  }

  lemma WriteNoChunks(peer: Peer, line: Line, net: Net, addr: S7AnyAddress, data: bytes, m: nat, offset: nat)
    requires m > 0
    ensures WriteChunks(peer, line, net, addr, Chunks(0, m), data, offset) == (net, WriteOk)
  {
  }

  lemma {:induction false} WriteServedFrom(limit: PduLimit, s: State, line: Line, net: Net, mem: Mem,
                                           addr: S7AnyAddress, data: bytes, offset: nat)
    requires Agreed(limit, s, line, net.sent) && ValidAddress(addr) && ValidEnd(addr.start, |data|)
    requires offset <= |data| && Sendable(line.pduSize, |data| - offset)
    requires offset == 0 || offset <= Room(mem, addr.area, addr.db, addr.start)
    requires ServerAfter(limit, s, net.sent).mem == Written(mem, addr, data[..offset])
    ensures var m := MaxChunk(line.pduSize, 28);
      var (net', r) := WriteChunks(ServerPeer(limit, s), line, net, addr, Chunks(|data| - offset, m), data, offset);
      var n := offset + Fit(|data| - offset, m, Room(mem, addr.area, addr.db, addr.start) - offset);
      PrefixWritten(limit, s, net, net', r, mem, addr, data, n)
    decreases |data| - offset
  {
    hide AskWrite, ServerAfter, ServerPeer, Chunks, WriteChunks, Written, Room, Sendable, MaxChunk, Fit;
    var total, m := |data| - offset, MaxChunk(line.pduSize, 28);
    FitStep(total, m, Room(mem, addr.area, addr.db, addr.start) - offset);
    if total == 0 {
      WriteNoChunks(ServerPeer(limit, s), line, net, addr, data, m, offset);
    } else {
      var c := if total <= m then total else m;
      ChunkSendable(line.pduSize, total);
      WriteChunksStep(ServerPeer(limit, s), line, net, addr, m, data, offset);
      WriteStep(limit, s, line, net, mem, addr, data, offset, c);
      if c <= Room(mem, addr.area, addr.db, addr.start) - offset {
        var net1 := AskWrite(ServerPeer(limit, s), line, net, addr.area, addr.db, addr.start + offset,
                             data[offset..offset + c]).0;
        WriteServedFrom(limit, s, line, net1, mem, addr, data, offset + c);
      }
    }
  }

  lemma WrittenNothing(mem: Mem, addr: S7AnyAddress)
    requires addr.start >= 0
    ensures Written(mem, addr, []) == mem
  {
  }

  lemma FirstChunkTooLong(limit: PduLimit, s: State, line: Line, net: Net, addr: S7AnyAddress, data: bytes)
    requires Agreed(limit, s, line, net.sent) && ValidAddress(addr) && ValidEnd(addr.start, |data|)
    requires data != [] && !Sendable(line.pduSize, |data|)
    ensures var (net', r) := WriteArea(ServerPeer(limit, s), line, net, addr, data);
      net'.sent == net.sent && r == WriteFailed(ExceedsPdu)
  {
    hide AskWrite, ServerAfter, ServerPeer, WriteItem, AddressSpec, Chunks;
    var m := MaxChunk(line.pduSize, 28);
    var c := if |data| <= m then |data| else m;
    FirstChunk(|data|, m);
    WriteServed(limit, s, line, net, addr.area, addr.db, addr.start, data[0..c]);
  }

  /** Writing any data to any validated address with any PDU size: memory afterwards is memory before with a prefix of
      the data written in one flat write. The prefix is all of the data exactly when the client reports success. It is
      cut at the whole chunks that fit the area, and empty when the area takes no writes or when the first chunk is
      longer than the PDU, as a full chunk is for an odd PDU size. */
  lemma WriteAreaEndToEnd(limit: PduLimit, s: State, line: Line, net: Net, addr: S7AnyAddress, data: bytes)
    requires Agreed(limit, s, line, net.sent) && ValidAddress(addr) && ValidEnd(addr.start, |data|)
    ensures var (net', r) := WriteArea(ServerPeer(limit, s), line, net, addr, data);
      var before := ServerAfter(limit, s, net.sent);
      var room := if Sendable(line.pduSize, |data|) then Room(before.mem, addr.area, addr.db, addr.start) else -1;
      PrefixWritten(limit, s, net, net', r, before.mem, addr, data, Fit(|data|, MaxChunk(line.pduSize, 28), room))
  {
    hide AskWrite, ServerAfter, ServerPeer, WriteItem, Chunks, Written, Room, AddressSpec, WriteChunks;
    var before := ServerAfter(limit, s, net.sent);
    var m := MaxChunk(line.pduSize, 28);
    WrittenNothing(before.mem, addr);
    assert data[..0] == [];
    if Sendable(line.pduSize, |data|) {
      WriteServedFrom(limit, s, line, net, before.mem, addr, data, 0);
    } else if |data| == 0 {
      WriteNoChunks(ServerPeer(limit, s), line, net, addr, data, m, 0);
    } else {
      FirstChunkTooLong(limit, s, line, net, addr, data);
    }
  }

  /** For data that fit an area that takes writes, success exactly for no data or a PDU size under which every chunk can
      be sent; an odd PDU size fails as soon as one chunk is full. */
  lemma WriteSucceedsIff(limit: PduLimit, s: State, line: Line, net: Net, addr: S7AnyAddress, data: bytes)
    requires Agreed(limit, s, line, net.sent) && ValidAddress(addr) && ValidEnd(addr.start, |data|)
    requires |data| <= Room(ServerAfter(limit, s, net.sent).mem, addr.area, addr.db, addr.start)
    ensures WriteArea(ServerPeer(limit, s), line, net, addr, data).1.WriteOk?
       <==> data == [] || Sendable(line.pduSize, |data|)
  {
    hide ServerAfter, ServerPeer, WriteArea, Room, Written;
    WriteAreaEndToEnd(limit, s, line, net, addr, data);
    var mem := ServerAfter(limit, s, net.sent).mem;
    var room := if Sendable(line.pduSize, |data|) then Room(mem, addr.area, addr.db, addr.start) else -1;
    var _ := FitExact(|data|, MaxChunk(line.pduSize, 28), room);
  }

  lemma ContentAfterWrite(mem: Mem, addr: S7AnyAddress, data: bytes)
    requires addr.start >= 0 && 0 < |data| <= Room(mem, addr.area, addr.db, addr.start)
    ensures var content := Content(Written(mem, addr, data), addr.area, addr.db);
      |data| <= Available(content, addr.start) && Part(content, addr.start, |data|) == data
  {
    var content := Content(Written(mem, addr, data), addr.area, addr.db);
    assert content.value[addr.start..addr.start + |data|] == data;
  }

  /** What a successful write put into the server, a read of the same range gives back. */
  lemma WriteThenReadArea(limit: PduLimit, s: State, line: Line, net: Net, addr: S7AnyAddress, data: bytes)
    requires Agreed(limit, s, line, net.sent) && line.pduSize >= 25
    requires ValidAddress(addr) && ValidEnd(addr.start, |data|)
    ensures var (net1, w) := WriteArea(ServerPeer(limit, s), line, net, addr, data);
      var r := ReadArea(ServerPeer(limit, s), line, net1, addr.(size := |data|)).1;
      w.WriteOk? ==> r.Result? && r.r.status == Success && r.r.data == data
  {
    hide ServerAfter, ServerPeer, WriteArea, ReadArea, Room, Written, Content;
    WriteAreaEndToEnd(limit, s, line, net, addr, data);
    var before := ServerAfter(limit, s, net.sent);
    var (net1, w) := WriteArea(ServerPeer(limit, s), line, net, addr, data);
    if w.WriteOk? {
      ReadAreaEndToEnd(limit, s, line, net1, addr.(size := |data|));
      var content := Content(ServerAfter(limit, s, net1.sent).mem, addr.area, addr.db);
      var _ := FitExact(|data|, line.pduSize - 24, Available(content, addr.start));
      assert data[..|data|] == data;
      if data != [] {
        ContentAfterWrite(before.mem, addr, data);
      }
    }
  }
}
