/** What holds of the client's transfers whatever the peer answers. */
module ClientProperties {
  import opened Octets
  import opened Message
  import opened WriteData
  import opened Requests
  import opened Answers
  import opened Client

  //
  // PDU references.
  //

  function RefAfter(counter: u32, k: nat): u16
    requires k > 0
    decreases k
  {
    if k == 1 then NextRef(counter).1 else RefAfter(NextRef(counter).0, k - 1)
  }

  lemma LowStep(v: nat)
    ensures (v + 1) % 0x1_0000 == if v % 0x1_0000 == 0xFFFF then 0 else v % 0x1_0000 + 1
  {
  }

  lemma NextRefStep(counter: u32)
    ensures var (counter', ref) := NextRef(counter);
      var low := counter % 0x1_0000;
      counter' % 0x1_0000 == ref == if low == 0xFFFF then 1 else low + 1
  {
    if counter < 0xFFFF_FFFF {
      assert (counter + 1) % 0x1_0000_0000 == counter + 1;
      LowStep(counter);
      LowStep(counter + 1);
    }
  }

  lemma {:induction false} RefAfterCycle(counter: u32, k: nat)
    requires 0 < k <= 0xFFFF
    ensures var low := counter % 0x1_0000;
      RefAfter(counter, k) == if low + k <= 0xFFFF then low + k else low + k - 0xFFFF
    decreases k
  {
    hide NextRef;
    NextRefStep(counter);
    if k > 1 {
      RefAfterCycle(NextRef(counter).0, k - 1);
    }
  }

  /** References are never 0, and any 65535 in a row are different, also where the counter wraps. */
  lemma RefsDistinct(counter: u32, j: nat, k: nat)
    requires 0 < j < k <= 0xFFFF
    ensures RefAfter(counter, j) != 0 && RefAfter(counter, k) != 0 && RefAfter(counter, j) != RefAfter(counter, k)
  {
    hide RefAfter;
    RefAfterCycle(counter, j);
    RefAfterCycle(counter, k);
  }

  //
  // Replies.
  //

  /** A reply the client is willing to take: a readable header with the expected reference, if any is, and no error. */
  predicate InOrder(reply: bytes, expected: u16) {
    var parsed := ParseS7Header(reply);
    && parsed.Parsed? && (expected == 0 || parsed.header.pduRef == expected)
    && parsed.header.errorClass == 0 && parsed.header.errorCode == 0
  }

  /** Its section lengths do not add up within 16 bits. */
  predicate Overflows(reply: bytes, expected: u16) {
    InOrder(reply, expected)
    && var h := ParseS7Header(reply).header; h.paramLength + h.dataLength >= 0x1_0000
  }

  /** A reply is taken exactly when its header can be read, its reference is the expected one and it reports no error.
      Then its sections are those the header declares if their lengths add up to less than 65536; otherwise the client's
      slice expression fails. */
  lemma InterpretIff(reply: bytes, expected: u16)
    ensures var ex := Interpret(reply, expected);
      && (ex.Sections? <==> InOrder(reply, expected) && !Overflows(reply, expected))
      && (ex.Crashed? <==> Overflows(reply, expected))
      && (ex.Sections? ==>
            var parsed := ParseS7Header(reply);
            && |ex.param| == parsed.header.paramLength as int && |ex.data| == parsed.header.dataLength as int
            && ex.param + ex.data <= parsed.rest)
  {
  }

  /** An answer with two sections of 32768 bytes each. */
  function HugeReply(ref: u16): bytes {
    var zeros := seq(0x8000, _ => 0);
    match EncodeAckData(ref, 0, 0, zeros, zeros)
    case None => []
    case Some(reply) => reply
  }

  /** It makes the client crash, whatever the reference. */
  lemma HugeReplyCrashes(ref: u16)
    ensures Interpret(HugeReply(ref), ref) == Crashed
  {
    hide EncodeAckData, ParseS7Header;
    var zeros := seq(0x8000, _ => 0);
    ParseUndoesAckData(ref, 0, 0, zeros, zeros);
  }

  /** The last request sent got a reply that overflows. */
  ghost predicate LastOverflowed(peer: Peer, before: seq<bytes>, sent: seq<bytes>) {
    before < sent && peer(sent).Tsdu? && Overflows(peer(sent).data, 0)
  }

  lemma SendReceiveCrash(peer: Peer, line: Line, sent: seq<bytes>, req: bytes, ref: u16)
    ensures var (sent', ex) := SendReceive(peer, line, sent, req, ref);
      ex.Crashed? ==> LastOverflowed(peer, sent, sent')
  {
    hide Interpret, ParseS7Header;
    if line.connected && peer(sent + [req]).Tsdu? {
      InterpretIff(peer(sent + [req]).data, ref);
    }
  }

  //
  // Chunks and the pieces that answer them.
  //

  /** The offset of chunk k in its transfer. */
  function At(chunks: seq<nat>, k: nat): nat
    requires k <= |chunks|
  {
    if k == 0 then 0 else At(chunks, k - 1) + chunks[k - 1]
  }

  lemma {:induction false} AtShift(chunks: seq<nat>, k: nat)
    requires k < |chunks|
    ensures At(chunks, k + 1) == chunks[0] + At(chunks[1..], k)
  {
    if k > 0 {
      AtShift(chunks, k - 1);
    }
  }

  /** The chunks add up to the whole, and every one but the last has the full size. */
  lemma {:induction false} ChunksShape(total: nat, m: nat)
    requires m > 0
    ensures var chunks := Chunks(total, m);
      && At(chunks, |chunks|) == total
      && forall k :: 0 <= k < |chunks| ==> 0 < chunks[k] <= m && (k < |chunks| - 1 ==> chunks[k] == m)
    decreases total
  {
    var chunks := Chunks(total, m);
    if total > m {
      var rest := Chunks(total - m, m);
      ChunksShape(total - m, m);
      assert chunks[1..] == rest;
      AtShift(chunks, |rest|);
    } else if total > 0 {
      assert At(chunks, 1) == At(chunks, 0) + total;
    }
  }

  /** So chunk k begins at k times that size. */
  lemma {:induction false} ChunkOffset(total: nat, m: nat, k: nat)
    requires m > 0 && k < |Chunks(total, m)|
    ensures At(Chunks(total, m), k) == k * m
  {
    hide Chunks;
    if k > 0 {
      ChunkOffset(total, m, k - 1);
      ChunksShape(total, m);
      assert (k - 1) * m + m == k * m;
    }
  }

  lemma {:induction false} JoinSnoc(parts: seq<bytes>, k: nat)
    requires k < |parts|
    ensures Join(parts[..k + 1]) == Join(parts[..k]) + parts[k]
  {
    assert parts[..k + 1] == parts[..k] + [parts[k]];
    JoinAppend(parts[..k], [parts[k]]);
    assert Join([parts[k]]) == parts[k] + Join([]) == parts[k];
  }

  /** Pieces no longer than their chunks. */
  ghost predicate Bounded(pieces: seq<bytes>, chunks: seq<nat>) {
    |pieces| <= |chunks| && forall k :: 0 <= k < |pieces| ==> |pieces[k]| <= chunks[k]
  }

  lemma {:induction false} PiecesBeforeFull(pieces: seq<bytes>, chunks: seq<nat>, k: nat)
    requires Bounded(pieces, chunks) && k <= |pieces|
    ensures |Join(pieces[..k])| <= At(chunks, k)
    ensures |Join(pieces[..k])| == At(chunks, k) <==> forall j :: 0 <= j < k ==> |pieces[j]| == chunks[j]
  {
    if k > 0 {
      PiecesBeforeFull(pieces, chunks, k - 1);
      JoinSnoc(pieces, k - 1);
    }
  }

  lemma {:induction false} AtGrows(chunks: seq<nat>, j: nat, k: nat)
    requires j <= k <= |chunks|
    ensures At(chunks, j) <= At(chunks, k)
    decreases k
  {
    if j < k {
      AtGrows(chunks, j, k - 1);
    }
  }

  lemma PieceInPlace(pieces: seq<bytes>, k: nat)
    requires k < |pieces|
    ensures var at := |Join(pieces[..k])|;
      at + |pieces[k]| <= |Join(pieces)| && Join(pieces)[at..at + |pieces[k]|] == pieces[k]
  {
    JoinSnoc(pieces, k);
    assert pieces == pieces[..k + 1] + pieces[k + 1..];
    JoinAppend(pieces[..k + 1], pieces[k + 1..]);
    var at := |Join(pieces[..k])|;
    assert Join(pieces) == Join(pieces[..k]) + pieces[k] + Join(pieces[k + 1..]);
  }

  //
  // Reads.
  //

  ghost predicate RepliedWith(peer: Peer, history: seq<bytes>, ref: u16, range: S7AnyAddress, data: bytes) {
    && history != [] && ReadVarRequest(ref, [range]) == Some(history[|history| - 1])
    && peer(history).Tsdu?
    && var ex := Interpret(peer(history).data, ref);
       ex.Sections? && var items := ParsedItems(ex.param, ex.data);
       items.Some? && items.value != [] && items.value[0].returnCode == RET_SUCCESS && items.value[0].data == data
  }

  /** The last request of this history asks for exactly this range, and the peer's reply to it carries these bytes. */
  ghost predicate ChunkAnswered(peer: Peer, history: seq<bytes>, range: S7AnyAddress, data: bytes) {
    exists ref: u16 :: ref != 0 && RepliedWith(peer, history, ref, range, data)
  }

  lemma AskChunkTrace(peer: Peer, line: Line, net: Net, area: byte, db: int, offset: int, size: nat)
    ensures var (net', c) := AskChunk(peer, line, net, area, db, offset, size);
      && net.sent <= net'.sent
      && (c.Got? ==>
            && |net'.sent| == |net.sent| + 1 && |c.data| <= size
            && ChunkAnswered(peer, net'.sent, S7AnyAddress(area, db, offset, size), c.data))
      && (c.Stop? ==> c.status !in {Success, ShortRead, Inconclusive})
  {
    hide Interpret, ReadVarRequest, ParsedItems;
    var (net', c) := AskChunk(peer, line, net, area, db, offset, size);
    if c.Got? {
      var ref := NextRef(net.counter).1;
      assert ref != 0 && RepliedWith(peer, net'.sent, ref, S7AnyAddress(area, db, offset, size), c.data);
    }
  }

  /** The replies to the chunks got so far, in order. */
  ghost predicate Traced(peer: Peer, before: nat, sent: seq<bytes>, addr: S7AnyAddress, chunks: seq<nat>, offset: int,
                         pieces: seq<bytes>)
  {
    && Bounded(pieces, chunks) && before + |pieces| <= |sent|
    && forall k :: 0 <= k < |pieces| ==>
         ChunkAnswered(peer, sent[..before + k + 1],
                       S7AnyAddress(addr.area, addr.db, offset + At(chunks, k), chunks[k]), pieces[k])
  }

  lemma AtZero(chunks: seq<nat>)
    ensures At(chunks, 0) == 0
  {
  }

  lemma TracedCons(peer: Peer, before: nat, sent: seq<bytes>, addr: S7AnyAddress, chunks: seq<nat>, offset: int,
                   piece: bytes, pieces: seq<bytes>)
    requires chunks != [] && before < |sent| && |piece| <= chunks[0]
    requires ChunkAnswered(peer, sent[..before + 1], S7AnyAddress(addr.area, addr.db, offset, chunks[0]), piece)
    requires Traced(peer, before + 1, sent, addr, chunks[1..], offset + chunks[0], pieces)
    ensures Traced(peer, before, sent, addr, chunks, offset, [piece] + pieces)
  {
    hide ChunkAnswered, At;
    var all := [piece] + pieces;
    assert At(chunks, 0) == 0 by { AtZero(chunks); AtZero(chunks[1..]); }
    forall k | 0 <= k < |all|
      ensures |all[k]| <= chunks[k]
      ensures ChunkAnswered(peer, sent[..before + k + 1],
                            S7AnyAddress(addr.area, addr.db, offset + At(chunks, k), chunks[k]), all[k])
    {
      if k > 0 {
        AtShift(chunks, k - 1);
        assert all[k] == pieces[k - 1] && chunks[k] == chunks[1..][k - 1];
      }
    }
  }

  /** The bytes the peer sent for the chunks, in order, up to the first chunk that ends the read. */
  function Pieces(peer: Peer, line: Line, net: Net, addr: S7AnyAddress, chunks: seq<nat>, offset: int): seq<bytes>
    decreases |chunks|
  {
    if chunks == [] then []
    else
      var (net', c) := AskChunk(peer, line, net, addr.area, addr.db, offset, chunks[0]);
      if c.Got? then [c.data] + Pieces(peer, line, net', addr, chunks[1..], offset + chunks[0]) else []
  }

  /** The result of a read that got these pieces: all of them when every chunk was answered, a success exactly when that
      is as much as was asked for, an empty read when it is nothing and a short one otherwise; or a failure with the
      pieces or with nothing. */
  ghost predicate ResultOf(r: ReadReturn, addr: S7AnyAddress, complete: bool, data: bytes)
    requires addr.size >= 0
  {
    if complete then
      && r.Result? && r.r.requested == addr.size && r.r.data == data && r.r.code == 0
      && (r.r.status == Success <==> |data| >= addr.size)
      && (r.r.status == EmptyRead <==> |data| == 0 < addr.size)
      && (r.r.status == ShortRead <==> 0 < |data| < addr.size)
    else r.Result? ==>
      && r.r.requested == addr.size && r.r.status !in {Success, ShortRead, Inconclusive}
      && (r.r.data == [] || r.r.data == data)
  }

  lemma {:induction false} ReadTrace(peer: Peer, line: Line, net: Net, addr: S7AnyAddress, chunks: seq<nat>,
                                     offset: int, result: bytes)
    requires addr.size >= 0
    ensures var (net', r) := ReadChunks(peer, line, net, addr, chunks, offset, result);
      var pieces := Pieces(peer, line, net, addr, chunks, offset);
      && net.sent <= net'.sent
      && Traced(peer, |net.sent|, net'.sent, addr, chunks, offset, pieces)
      && ResultOf(r, addr, |pieces| == |chunks|, result + Join(pieces))
    decreases |chunks|
  {
    hide AskChunk, ChunkAnswered;
    var pieces := Pieces(peer, line, net, addr, chunks, offset);
    assert result + Join([]) == result;
    if chunks != [] {
      AskChunkTrace(peer, line, net, addr.area, addr.db, offset, chunks[0]);
      var (net1, c) := AskChunk(peer, line, net, addr.area, addr.db, offset, chunks[0]);
      if c.Got? {
        ReadTrace(peer, line, net1, addr, chunks[1..], offset + chunks[0], result + c.data);
        var more := Pieces(peer, line, net1, addr, chunks[1..], offset + chunks[0]);
        var net' := ReadChunks(peer, line, net, addr, chunks, offset, result).0;
        assert net'.sent[..|net1.sent|] == net1.sent;
        TracedCons(peer, |net.sent|, net'.sent, addr, chunks, offset, c.data, more);
        assert pieces[1..] == more;
        assert result + c.data + Join(more) == result + (c.data + Join(more));
      }
    }
  }

  lemma AskChunkCrash(peer: Peer, line: Line, net: Net, area: byte, db: int, offset: int, size: nat)
    ensures var (net', c) := AskChunk(peer, line, net, area, db, offset, size);
      net.sent <= net'.sent && (c.StopCrash? ==> LastOverflowed(peer, net.sent, net'.sent))
  {
    hide LastOverflowed, Interpret, ReadVarRequest, ParsedItems;
    var ref := NextRef(net.counter).1;
    var req := ReadVarRequest(ref, [S7AnyAddress(area, db, offset, size)]);
    if req.Some? {
      SendReceiveCrash(peer, line, net.sent, req.value, ref);
    }
  }

  lemma {:induction false} ReadCrashed(peer: Peer, line: Line, net: Net, addr: S7AnyAddress, chunks: seq<nat>,
                                       offset: int, result: bytes)
    requires addr.size >= 0
    ensures var (net', r) := ReadChunks(peer, line, net, addr, chunks, offset, result);
      net.sent <= net'.sent && (r.ReadCrash? ==> LastOverflowed(peer, net.sent, net'.sent))
    decreases |chunks|
  {
    hide AskChunk, Overflows;
    if chunks != [] {
      AskChunkCrash(peer, line, net, addr.area, addr.db, offset, chunks[0]);
      var (net1, c) := AskChunk(peer, line, net, addr.area, addr.db, offset, chunks[0]);
      if c.Got? {
        ReadCrashed(peer, line, net1, addr, chunks[1..], offset + chunks[0], result + c.data);
      }
    }
  }

  /** A read crashes only on a reply whose section lengths overflow, and that reply is the last one. */
  lemma ReadCrashesOnlyOnOverflow(peer: Peer, line: Line, net: Net, addr: S7AnyAddress)
    ensures var (net', r) := ReadArea(peer, line, net, addr);
      r.ReadCrash? ==> LastOverflowed(peer, net.sent, net'.sent)
  {
    hide ReadChunks, LastOverflowed, Chunks;
    if ValidAddress(addr) && ValidEnd(addr.start, addr.size) {
      ReadCrashed(peer, line, net, addr, Chunks(addr.size, MaxChunk(line.pduSize, 24)), addr.start, []);
    }
  }

  function HugePeer(history: seq<bytes>): Reply {
    Tsdu(HugeReply(1))
  }

  /** And it does crash on one: the read of one marker byte from a peer that answers with such a reply. */
  lemma ReadCrashes()
    ensures ReadArea(HugePeer, Line(true, 240), Net([], 0), S7AnyAddress(0x83, 0, 0, 1)).1 == ReadCrash
  {
    hide ReadVarRequest, Interpret, HugeReply;
    var range := S7AnyAddress(0x83, 0, 0, 1);
    assert NextRef(0) == (1, 1);
    ReadRequestDecodes(1, [range]);
    HugeReplyCrashes(1);
    assert AskChunk(HugePeer, Line(true, 240), Net([], 0), 0x83, 0, 0, 1).1 == StopCrash;
    assert Chunks(1, 216) == [1];
  }

  /** Each chunk of the data is what the peer sent in reply to the request for just that range. */
  ghost predicate Served(peer: Peer, before: nat, sent: seq<bytes>, addr: S7AnyAddress, chunks: seq<nat>, data: bytes) {
    && before + |chunks| <= |sent|
    && forall k :: 0 <= k < |chunks| ==>
         && At(chunks, k) + chunks[k] <= |data|
         && ChunkAnswered(peer, sent[..before + k + 1],
                          S7AnyAddress(addr.area, addr.db, addr.start + At(chunks, k), chunks[k]),
                          data[At(chunks, k)..At(chunks, k) + chunks[k]])
  }

  lemma TracedFull(peer: Peer, before: nat, sent: seq<bytes>, addr: S7AnyAddress, chunks: seq<nat>, pieces: seq<bytes>)
    requires |pieces| == |chunks| && Traced(peer, before, sent, addr, chunks, addr.start, pieces)
    requires |Join(pieces)| == At(chunks, |chunks|)
    ensures Served(peer, before, sent, addr, chunks, Join(pieces))
  {
    hide ChunkAnswered, At, Join;
    assert pieces[..|pieces|] == pieces;
    PiecesBeforeFull(pieces, chunks, |pieces|);
    forall k | 0 <= k < |chunks|
      ensures At(chunks, k) + chunks[k] <= |Join(pieces)|
      ensures Join(pieces)[At(chunks, k)..At(chunks, k) + chunks[k]] == pieces[k]
    {
      PiecesBeforeFull(pieces, chunks, k);
      PieceInPlace(pieces, k);
    }
  }

  lemma TracedBounded(peer: Peer, before: nat, sent: seq<bytes>, addr: S7AnyAddress, chunks: seq<nat>, offset: int,
                      pieces: seq<bytes>)
    requires Traced(peer, before, sent, addr, chunks, offset, pieces)
    ensures Bounded(pieces, chunks)
  {
  }

  /** Against any peer: no outcome holds more bytes than were asked for; and a success holds exactly as many, each chunk
      of them the bytes the peer sent in reply to the request for just that range. */
  lemma ReadAreaAnyPeer(peer: Peer, line: Line, net: Net, addr: S7AnyAddress)
    ensures var (net', r) := ReadArea(peer, line, net, addr);
      r.Result? ==>
        && net.sent <= net'.sent && |r.r.data| <= addr.size == r.r.requested
        && (r.r.status == Success ==>
              && |r.r.data| == addr.size
              && Served(peer, |net.sent|, net'.sent, addr, Chunks(addr.size, MaxChunk(line.pduSize, 24)), r.r.data))
  {
    hide ReadChunks, Served, Traced, Chunks, Join, At, Pieces;
    var (net', r) := ReadArea(peer, line, net, addr);
    if r.Result? {
      var chunks := Chunks(addr.size, MaxChunk(line.pduSize, 24));
      ChunksShape(addr.size, MaxChunk(line.pduSize, 24));
      ReadTrace(peer, line, net, addr, chunks, addr.start, []);
      var pieces := Pieces(peer, line, net, addr, chunks, addr.start);
      assert [] + Join(pieces) == Join(pieces) && pieces[..|pieces|] == pieces;
      TracedBounded(peer, |net.sent|, net'.sent, addr, chunks, addr.start, pieces);
      PiecesBeforeFull(pieces, chunks, |pieces|);
      AtGrows(chunks, |pieces|, |chunks|);
      if r.r.status == Success {
        TracedFull(peer, |net.sent|, net'.sent, addr, chunks, pieces);
      }
    }
  }

  /** The n numbers from a first one on. */
  function From(first: nat, n: nat): (r: seq<nat>)
    ensures |r| == n && forall j :: 0 <= j < n ==> r[j] == first + j
  {
    seq<nat>(n, j requires j >= 0 => first + j)
  }

  /** For each byte of the first k pieces, joined, the offset of the address it was sent for. */
  function SentFor(pieces: seq<bytes>, chunks: seq<nat>, k: nat): seq<nat>
    requires k <= |pieces| <= |chunks|
  {
    if k == 0 then []
    else SentFor(pieces, chunks, k - 1) + From(At(chunks, k - 1), |pieces[k - 1]|)
  }

  /** Byte i of the data was sent for the i-th address of the range. */
  ghost predicate InPlace(offsets: seq<nat>) {
    forall i :: 0 <= i < |offsets| ==> offsets[i] == i
  }

  ghost predicate NothingAfterShort(pieces: seq<bytes>, chunks: seq<nat>, k: nat)
    requires k <= |pieces| <= |chunks|
  {
    forall j, l :: 0 <= j < l < k && pieces[l] != [] ==> |pieces[j]| == chunks[j]
  }

  lemma InPlaceAppend(offsets: seq<nat>, first: nat, n: nat)
    ensures InPlace(offsets + From(first, n)) <==> InPlace(offsets) && (n == 0 || first == |offsets|)
  {
    var all := offsets + From(first, n);
    assert forall i :: 0 <= i < |offsets| ==> all[i] == offsets[i];
    assert forall i :: |offsets| <= i < |all| ==> all[i] == first + i - |offsets|;
    if n > 0 {
      assert all[|offsets|] == first;
    }
  }

  lemma JoinNothing()
    ensures Join([]) == [] && InPlace([])
  {
  }

  lemma NothingAtFirst(pieces: seq<bytes>, chunks: seq<nat>)
    requires |pieces| <= |chunks|
    ensures NothingAfterShort(pieces, chunks, 0)
  {
  }

  lemma NothingAfterStep(pieces: seq<bytes>, chunks: seq<nat>, k: nat)
    requires 0 < k <= |pieces| <= |chunks|
    ensures NothingAfterShort(pieces, chunks, k)
       <==> NothingAfterShort(pieces, chunks, k - 1)
            && (pieces[k - 1] == [] || forall j :: 0 <= j < k - 1 ==> |pieces[j]| == chunks[j])
  {
  }

  lemma {:induction false} InPlaceIff(pieces: seq<bytes>, chunks: seq<nat>, k: nat)
    requires Bounded(pieces, chunks) && k <= |pieces|
    ensures |SentFor(pieces, chunks, k)| == |Join(pieces[..k])|
    ensures InPlace(SentFor(pieces, chunks, k)) <==> NothingAfterShort(pieces, chunks, k)
  {
    hide At, InPlace, Join, NothingAfterShort;
    if k == 0 {
      assert pieces[..0] == [];
      JoinNothing();
      NothingAtFirst(pieces, chunks);
    } else {
      NothingAfterStep(pieces, chunks, k);
      InPlaceIff(pieces, chunks, k - 1);
      PiecesBeforeFull(pieces, chunks, k - 1);
      JoinSnoc(pieces, k - 1);
      InPlaceAppend(SentFor(pieces, chunks, k - 1), At(chunks, k - 1), |pieces[k - 1]|);
    }
  }

  /** The place of byte j of piece k in the joined data, and its label: where in the range that byte was sent for. */
  ghost predicate Label(data: bytes, offsets: seq<nat>, pieces: seq<bytes>, chunks: seq<nat>, k: nat, j: nat)
    requires k < |pieces| <= |chunks| && j < |pieces[k]|
  {
    var i := |Join(pieces[..k])| + j;
    i < |data| == |offsets| && data[i] == pieces[k][j] && offsets[i] == At(chunks, k) + j
  }

  ghost predicate Labelled(data: bytes, offsets: seq<nat>, pieces: seq<bytes>, chunks: seq<nat>)
    requires |pieces| <= |chunks|
  {
    && |offsets| == |data| == |Join(pieces)|
    && forall k, j :: 0 <= k < |pieces| && 0 <= j < |pieces[k]| ==> Label(data, offsets, pieces, chunks, k, j)
  }

  lemma {:induction false} SentForPiece(pieces: seq<bytes>, chunks: seq<nat>, n: nat, k: nat, j: nat)
    requires Bounded(pieces, chunks) && k < n <= |pieces| && j < |pieces[k]|
    ensures var i := |Join(pieces[..k])| + j;
      i < |SentFor(pieces, chunks, n)| && SentFor(pieces, chunks, n)[i] == At(chunks, k) + j
    decreases n
  {
    hide At, Join;
    if k == n - 1 {
      InPlaceIff(pieces, chunks, k);
    } else {
      SentForPiece(pieces, chunks, n - 1, k, j);
    }
  }

  lemma PiecesLabelled(pieces: seq<bytes>, chunks: seq<nat>)
    requires Bounded(pieces, chunks)
    ensures Labelled(Join(pieces), SentFor(pieces, chunks, |pieces|), pieces, chunks)
  {
    hide At, Join, SentFor;
    assert pieces[..|pieces|] == pieces;
    InPlaceIff(pieces, chunks, |pieces|);
    forall k, j | 0 <= k < |pieces| && 0 <= j < |pieces[k]|
      ensures Label(Join(pieces), SentFor(pieces, chunks, |pieces|), pieces, chunks, k, j)
    {
      PieceInPlace(pieces, k);
      SentForPiece(pieces, chunks, |pieces|, k, j);
      var at := |Join(pieces[..k])|;
      assert Join(pieces)[at + j] == Join(pieces)[at..at + |pieces[k]|][j];
    }
  }

  /** The data of every read, also of one that stops midway and keeps what it has, are the peer's answers joined, or
      nothing. Each byte of them is at the address it was sent for if and only if no byte came after an answer shorter
      than its chunk. */
  lemma ReadPlacedIff(peer: Peer, line: Line, net: Net, addr: S7AnyAddress)
    requires ValidAddress(addr) && ValidEnd(addr.start, addr.size)
    ensures var (net', r) := ReadArea(peer, line, net, addr);
      var chunks := Chunks(addr.size, MaxChunk(line.pduSize, 24));
      var pieces := Pieces(peer, line, net, addr, chunks, addr.start);
      && Traced(peer, |net.sent|, net'.sent, addr, chunks, addr.start, pieces)
      && ResultOf(r, addr, |pieces| == |chunks|, Join(pieces))
      && var offsets := SentFor(pieces, chunks, |pieces|);
         && Labelled(Join(pieces), offsets, pieces, chunks)
         && (InPlace(offsets) <==> NothingAfterShort(pieces, chunks, |pieces|))
  {
    hide ReadChunks, Traced, Chunks, Join, At, Pieces, SentFor, InPlace, NothingAfterShort, ResultOf, Labelled;
    var chunks := Chunks(addr.size, MaxChunk(line.pduSize, 24));
    var pieces := Pieces(peer, line, net, addr, chunks, addr.start);
    ReadTrace(peer, line, net, addr, chunks, addr.start, []);
    assert [] + Join(pieces) == Join(pieces) && pieces[..|pieces|] == pieces;
    TracedBounded(peer, |net.sent|, ReadArea(peer, line, net, addr).0.sent, addr, chunks, addr.start, pieces);
    PiecesLabelled(pieces, chunks);
    InPlaceIff(pieces, chunks, |pieces|);
  }

  //
  // How a read ends.
  //

  /** What the client makes of a peer's reply to the request for one chunk: a lost reply is a timeout or a transport
      error, one it cannot read or with another reference a protocol error, a header error a rejection, each without
      data; an answer whose items cannot be read or hold too much is a protocol error, one without items an empty read
      and one with a return code other than 0xFF a rejection with that code, each with the data read before. */
  ghost predicate ReadVerdict(reply: Reply, ref: u16, size: nat, c: Chunk) {
    match reply
    case Lost(timeout) => c == Stop(if timeout then Timeout else TransportErr, 0, false)
    case Tsdu(data) =>
      match ParseS7Header(data)
      case Unparsed(_) => c == Stop(ProtocolErr, 0, false)
      case Parsed(h, rest) =>
        if h.pduRef != ref then c == Stop(ProtocolErr, 0, false)
        else if h.errorClass != 0 || h.errorCode != 0 then c == Stop(Rejected, 0, false)
        else if h.paramLength + h.dataLength >= 0x1_0000 then c == StopCrash
        else
          match ParsedItems(rest[..h.paramLength], rest[h.paramLength..h.paramLength + h.dataLength])
          case None => c == Stop(ProtocolErr, 0, true)
          case Some(items) =>
            && (items == [] ==> c == Stop(EmptyRead, 0, true))
            && (items != [] && items[0].returnCode != 0xFF ==> c == Stop(Rejected, items[0].returnCode, true))
            && (items != [] && items[0].returnCode == 0xFF ==>
                  c == if |items[0].data| <= size then Got(items[0].data) else Stop(ProtocolErr, 0, true))
  }

  lemma AskChunkExact(peer: Peer, line: Line, net: Net, area: byte, db: int, offset: int, size: nat)
    requires InRange(S7AnyAddress(area, db, offset, size))
    ensures var (net', c) := AskChunk(peer, line, net, area, db, offset, size);
      if !line.connected then net'.sent == net.sent && c == Stop(TransportErr, 0, false)
      else if 0 < line.pduSize < 24 then net'.sent == net.sent && c == Stop(ProtocolErr, 0, false)
      else |net'.sent| == |net.sent| + 1 && ReadVerdict(peer(net'.sent), NextRef(net.counter).1, size, c)
  {
    hide ReadVarRequest, ParsedItems, ParseS7Header;
    ReadRequestDecodes(NextRef(net.counter).1, [S7AnyAddress(area, db, offset, size)]);
  }

  /** The outcome of a read that ended with a chunk, having got these data before. */
  ghost predicate EndsWith(r: ReadReturn, size: nat, data: bytes, c: Chunk) {
    match c
    case Stop(status, code, keep) => r == Result(ReadResult(status, size, if keep then data else [], code))
    case StopCrash => r == ReadCrash
    case _ => false
  }

  /** Chunk n is the one that ended the read: it was not sent, or the reply to it says how the read ended. */
  ghost predicate EndedAt(peer: Peer, line: Line, before: nat, sent: seq<bytes>, n: nat, size: nat, r: ReadReturn,
                          requested: nat, data: bytes)
  {
    if !line.connected then |sent| == before + n && EndsWith(r, requested, data, Stop(TransportErr, 0, false))
    else if 0 < line.pduSize < 24 then |sent| == before + n && EndsWith(r, requested, data, Stop(ProtocolErr, 0, false))
    else |sent| == before + n + 1
         && exists ref: u16, c :: ReadVerdict(peer(sent), ref, size, c) && EndsWith(r, requested, data, c)
  }

  lemma AskChunkFits(peer: Peer, line: Line, net: Net, area: byte, db: int, offset: int, size: nat)
    requires InRange(S7AnyAddress(area, db, offset, size))
    ensures !AskChunk(peer, line, net, area, db, offset, size).1.StopInvalid?
  {
    hide SendReceive, NextRef, ReadVarRequest, ParsedItems;
    ReadRequestDecodes(NextRef(net.counter).1, [S7AnyAddress(area, db, offset, size)]);
  }

  lemma AskChunkGot(peer: Peer, line: Line, net: Net, area: byte, db: int, offset: int, size: nat)
    ensures var (net', c) := AskChunk(peer, line, net, area, db, offset, size);
      net.sent <= net'.sent && (c.Got? ==> line.connected && !(0 < line.pduSize < 24) && |net'.sent| == |net.sent| + 1)
  {
    hide Interpret, ParsedItems, ReadVarRequest;
    ReadRequestDecodes(NextRef(net.counter).1, [S7AnyAddress(area, db, offset, size)]);
  }

  lemma EndedNow(peer: Peer, line: Line, net: Net, addr: S7AnyAddress, offset: int, size: nat, result: bytes)
    requires addr.size >= 0 && InRange(S7AnyAddress(addr.area, addr.db, offset, size))
    ensures var (net', c) := AskChunk(peer, line, net, addr.area, addr.db, offset, size);
      && (c.Got? ==> |net'.sent| == |net.sent| + 1)
      && !c.StopInvalid?
      && (c.Stop? ==>
            var r := Result(ReadResult(c.status, addr.size, if c.keep then result else [], c.code));
            EndedAt(peer, line, |net.sent|, net'.sent, 0, size, r, addr.size, result))
      && (c.StopCrash? ==> EndedAt(peer, line, |net.sent|, net'.sent, 0, size, ReadCrash, addr.size, result))
  {
    hide AskChunk, ReadVerdict;
    AskChunkExact(peer, line, net, addr.area, addr.db, offset, size);
    AskChunkFits(peer, line, net, addr.area, addr.db, offset, size);
    AskChunkGot(peer, line, net, addr.area, addr.db, offset, size);
  }

  lemma EndedLater(peer: Peer, line: Line, before: nat, sent: seq<bytes>, n: nat, size: nat, r: ReadReturn,
                   requested: nat, data: bytes)
    requires EndedAt(peer, line, before + 1, sent, n, size, r, requested, data)
    ensures EndedAt(peer, line, before, sent, n + 1, size, r, requested, data)
  {
    hide ReadVerdict, EndsWith;
  }

  lemma {:induction false} ReadEnds(peer: Peer, line: Line, net: Net, addr: S7AnyAddress, total: nat, m: nat,
                                    offset: int, result: bytes)
    requires ValidAddress(addr) && 0 < m <= MAX_COUNT && 0 <= offset && ValidEnd(offset, total)
    ensures var chunks := Chunks(total, m);
      var (net', r) := ReadChunks(peer, line, net, addr, chunks, offset, result);
      var pieces := Pieces(peer, line, net, addr, chunks, offset);
      |pieces| < |chunks| ==>
        EndedAt(peer, line, |net.sent|, net'.sent, |pieces|, chunks[|pieces|], r, addr.size, result + Join(pieces))
    decreases total
  {
    hide AskChunk, ReadVerdict, EndedAt;
    var chunks := Chunks(total, m);
    assert result + Join([]) == result;
    if total > 0 {
      var size := if total <= m then total else m;
      assert chunks[0] == size && chunks[1..] == Chunks(total - size, m);
      EndedNow(peer, line, net, addr, offset, size, result);
      var (net1, c) := AskChunk(peer, line, net, addr.area, addr.db, offset, size);
      if c.Got? {
        ReadEnds(peer, line, net1, addr, total - size, m, offset + size, result + c.data);
        var more := Pieces(peer, line, net1, addr, chunks[1..], offset + size);
        var pieces := Pieces(peer, line, net, addr, chunks, offset);
        assert pieces == [c.data] + more && pieces[1..] == more;
        assert result + c.data + Join(more) == result + (c.data + Join(more));
        if |more| < |chunks| - 1 {
          EndedLater(peer, line, |net.sent|, ReadChunks(peer, line, net, addr, chunks, offset, result).0.sent, |more|,
                     chunks[|pieces|], ReadChunks(peer, line, net, addr, chunks, offset, result).1, addr.size,
                     result + Join(pieces));
        }
      }
    }
  }

  /** How every read that does not get all its chunks ends: before the first chunk when there is no connection or no
      room for a request, otherwise as the reply to the chunk that ended it says. */
  lemma ReadEndsExact(peer: Peer, line: Line, net: Net, addr: S7AnyAddress)
    requires ValidAddress(addr) && ValidEnd(addr.start, addr.size) && line.pduSize <= 0xFFFF
    ensures var (net', r) := ReadArea(peer, line, net, addr);
      var chunks := Chunks(addr.size, MaxChunk(line.pduSize, 24));
      var pieces := Pieces(peer, line, net, addr, chunks, addr.start);
      |pieces| < |chunks| ==>
        EndedAt(peer, line, |net.sent|, net'.sent, |pieces|, chunks[|pieces|], r, addr.size, Join(pieces))
  {
    hide ReadChunks, Chunks, Pieces, EndedAt;
    var chunks := Chunks(addr.size, MaxChunk(line.pduSize, 24));
    var pieces := Pieces(peer, line, net, addr, chunks, addr.start);
    ReadEnds(peer, line, net, addr, addr.size, MaxChunk(line.pduSize, 24), addr.start, []);
    assert [] + Join(pieces) == Join(pieces);
  }

  /** The bytes a chunk may carry: what the PDU leaves beside 24 bytes of a read request or 28 of a write request, and
      200 when it leaves nothing. */
  lemma ChunkSizes(pduSize: nat)
    ensures MaxChunk(pduSize, 24) == if pduSize >= 25 then pduSize - 24 else 200
    ensures MaxChunk(pduSize, 28) == if pduSize >= 29 then pduSize - 28 else 200
  {
  }

  //
  // Validation.
  //

  lemma {:induction false} ChunksStayInRange(peer: Peer, line: Line, net: Net, addr: S7AnyAddress, total: nat, m: nat,
                                             offset: int, result: bytes)
    requires ValidAddress(addr) && 0 < m <= MAX_COUNT && 0 <= offset && ValidEnd(offset, total)
    ensures !ReadChunks(peer, line, net, addr, Chunks(total, m), offset, result).1.InvalidRead?
    decreases total
  {
    hide AskChunk;
    if total > 0 {
      var size := if total <= m then total else m;
      var chunks := Chunks(total, m);
      AskChunkFits(peer, line, net, addr.area, addr.db, offset, size);
      var (net', c) := AskChunk(peer, line, net, addr.area, addr.db, offset, size);
      assert chunks[0] == size && chunks[1..] == Chunks(total - size, m);
      if c.Got? {
        ChunksStayInRange(peer, line, net', addr, total - size, m, offset + size, result + c.data);
      }
    }
  }

  /** A read is invalid exactly when its data block, its start or its end is out of range: no chunk of any other has a
      field that does not fit, so no start address wraps to other memory. */
  lemma ValidatedReadFits(peer: Peer, line: Line, net: Net, addr: S7AnyAddress)
    requires line.pduSize <= 0xFFFF
    ensures ReadArea(peer, line, net, addr).1.InvalidRead?
       <==> !(0 <= addr.db < 65536 && 0 <= addr.start < 2097152 && 0 <= addr.size && addr.start + addr.size <= 2097152)
  {
    if ValidAddress(addr) && ValidEnd(addr.start, addr.size) {
      ChunksStayInRange(peer, line, net, addr, addr.size, MaxChunk(line.pduSize, 24), addr.start, []);
    }
  }

  lemma AskWriteFits(peer: Peer, line: Line, net: Net, area: byte, db: int, offset: int, value: bytes)
    requires InRange(S7AnyAddress(area, db, offset, |value|))
    ensures AskWrite(peer, line, net, area, db, offset, value).1.InvalidWrite? <==> |value| > 8191
  {
    hide SendReceive, NextRef, WriteVarRequest, ParsedWriteAnswer;
    WriteRequestDecodes(NextRef(net.counter).1, S7AnyAddress(area, db, offset, |value|), value);
  }

  lemma {:induction false} WriteChunksFit(peer: Peer, line: Line, net: Net, addr: S7AnyAddress, data: bytes, m: nat,
                                          offset: nat)
    requires ValidAddress(addr) && ValidEnd(addr.start, |data|) && 0 < m <= MAX_COUNT && offset <= |data|
    ensures WriteChunks(peer, line, net, addr, Chunks(|data| - offset, m), data, offset).1.InvalidWrite?
       <==> |data| - offset > 8191 && m > 8191
    decreases |data| - offset
  {
    hide AskWrite;
    var total := |data| - offset;
    if total > 0 {
      var size := if total <= m then total else m;
      var chunks, value := Chunks(total, m), data[offset..offset + size];
      AskWriteFits(peer, line, net, addr.area, addr.db, addr.start + offset, value);
      assert chunks[0] == size && chunks[1..] == Chunks(total - size, m);
      var (net', r) := AskWrite(peer, line, net, addr.area, addr.db, addr.start + offset, value);
      if r.WriteOk? {
        WriteChunksFit(peer, line, net', addr, data, m, offset + size);
      }
    }
  }

  /** A write is refused as invalid exactly when its address or its end is, or when the first chunk holds more than the
      8191 bytes whose number of bits fits 16 bits, which takes a PDU of more than 8219 bytes. */
  lemma ValidatedWriteFits(peer: Peer, line: Line, net: Net, addr: S7AnyAddress, data: bytes)
    requires line.pduSize <= 0xFFFF
    ensures WriteArea(peer, line, net, addr, data).1.InvalidWrite?
       <==> || !(0 <= addr.db < 65536 && 0 <= addr.start < 2097152 && 0 <= addr.size && addr.start + |data| <= 2097152)
            || (|data| > 8191 && line.pduSize > 8219)
  {
    if ValidAddress(addr) && ValidEnd(addr.start, |data|) {
      WriteChunksFit(peer, line, net, addr, data, MaxChunk(line.pduSize, 28), 0);
    }
  }

  //
  // Writes.
  //

  ghost predicate AcceptedWith(peer: Peer, history: seq<bytes>, ref: u16, range: S7AnyAddress, value: bytes) {
    && history != [] && WriteVarRequest(ref, range, value) == Some(history[|history| - 1])
    && peer(history).Tsdu?
    && var ex := Interpret(peer(history).data, ref);
       ex.Sections? && var codes := ParsedCodes(ex.param, ex.data);
       codes.Some? && codes.value != [] && forall i :: 0 <= i < |codes.value| ==> codes.value[i] == RET_SUCCESS
  }

  /** The last request of this history writes exactly these bytes to this address, and the peer's reply accepts it: one
      code or more, all 0xFF. */
  ghost predicate WriteAccepted(peer: Peer, history: seq<bytes>, range: S7AnyAddress, value: bytes) {
    exists ref: u16 :: ref != 0 && AcceptedWith(peer, history, ref, range, value)
  }

  lemma {:induction false} NoRefusal(codes: bytes, i: nat)
    requires i <= |codes|
    ensures FirstRefusal(codes, i).Written? <==> forall j :: i <= j < |codes| ==> codes[j] == RET_SUCCESS
    decreases |codes| - i
  {
    if i < |codes| && codes[i] == RET_SUCCESS {
      NoRefusal(codes, i + 1);
    }
  }

  lemma AskWriteTrace(peer: Peer, line: Line, net: Net, area: byte, db: int, offset: int, value: bytes)
    ensures var (net', r) := AskWrite(peer, line, net, area, db, offset, value);
      && net.sent <= net'.sent && |net'.sent| <= |net.sent| + 1
      && (r.WriteOk? <==>
            |net'.sent| == |net.sent| + 1 && net'.counter == NextRef(net.counter).0
            && AcceptedWith(peer, net'.sent, NextRef(net.counter).1, S7AnyAddress(area, db, offset, |value|), value))
  {
    hide Interpret, WriteVarRequest;
    var ref := NextRef(net.counter).1;
    var req := WriteVarRequest(ref, S7AnyAddress(area, db, offset, |value|), value);
    if req.Some? {
      var (sent, ex) := SendReceive(peer, line, net.sent, req.value, ref);
      if ex.Sections? && ParsedCodes(ex.param, ex.data).Some? {
        NoRefusal(ParsedCodes(ex.param, ex.data).value, 0);
      }
    }
  }

  ghost predicate CodesVerdict(codes: bytes, r: WriteReturn) {
    if forall i :: 0 <= i < |codes| ==> codes[i] == 0xFF then r == WriteOk
    else r.WriteRefused? && r.outcome.ItemRefused?
         && var i := r.outcome.index;
            i < |codes| && r.outcome.code == codes[i] != 0xFF && forall j :: 0 <= j < i ==> codes[j] == 0xFF
  }

  /** What the client makes of a peer's reply to the request for one chunk of a write: why it failed, or the first item
      code that is not 0xFF. */
  ghost predicate WriteVerdict(reply: Reply, ref: u16, r: WriteReturn) {
    match reply
    case Lost(timeout) => r == WriteFailed(TransportFailed(timeout))
    case Tsdu(data) =>
      match ParseS7Header(data)
      case Unparsed(e) => r == WriteFailed(BadHeader(e))
      case Parsed(h, rest) =>
        if h.pduRef != ref then r == WriteFailed(RefMismatch)
        else if h.errorClass != 0 || h.errorCode != 0 then r == WriteFailed(HeaderRefused(h.errorClass, h.errorCode))
        else if h.paramLength + h.dataLength >= 0x1_0000 then r == WriteCrash
        else
          var param, codes := rest[..h.paramLength], rest[h.paramLength..h.paramLength + h.dataLength];
          if |param| < 2 || param[0] != 0x05 || param[1] == 0 || |codes| < param[1] as int then
            r == WriteRefused(BadWriteAnswer)
          else CodesVerdict(codes[..param[1]], r)
  }

  lemma {:induction false} FirstRefusalExact(codes: bytes, i: nat)
    requires i <= |codes| && forall j :: 0 <= j < i ==> codes[j] == 0xFF
    ensures var o := FirstRefusal(codes, i);
      CodesVerdict(codes, if o.Written? then WriteOk else WriteRefused(o))
    decreases |codes| - i
  {
    if i < |codes| && codes[i] == 0xFF {
      FirstRefusalExact(codes, i + 1);
    }
  }

  lemma JudgedWrite(reply: Reply, ref: u16, r: WriteReturn)
    requires ref != 0
    requires match reply
      case Lost(timeout) => r == WriteFailed(TransportFailed(timeout))
      case Tsdu(data) =>
        match Interpret(data, ref)
        case Crashed => r == WriteCrash
        case Broken(f) => r == WriteFailed(f)
        case Sections(param, codes) =>
          var outcome := ParsedWriteAnswer(param, codes);
          r == if outcome.Written? then WriteOk else WriteRefused(outcome)
    ensures WriteVerdict(reply, ref, r)
  {
    hide ParseS7Header, FirstRefusal, CodesVerdict;
    if reply.Tsdu? {
      var ex := Interpret(reply.data, ref);
      if ex.Sections? && ParsedCodes(ex.param, ex.data).Some? {
        FirstRefusalExact(ParsedCodes(ex.param, ex.data).value, 0);
      }
    }
  }

  /** A chunk of a write that does not fit its fields is invalid, one without a connection or longer than the PDU is not
      sent, and any other ends as the reply to it says. */
  ghost predicate WroteChunk(peer: Peer, line: Line, before: nat, sent: seq<bytes>, n: nat, r: WriteReturn) {
    if n > 8191 then |sent| == before && r == InvalidWrite
    else if !line.connected then |sent| == before && r == WriteFailed(NotConnected)
    else if 0 < line.pduSize < 28 + n + n % 2 then |sent| == before && r == WriteFailed(ExceedsPdu)
    else |sent| == before + 1 && exists ref: u16 :: WriteVerdict(peer(sent), ref, r)
  }

  lemma AskWriteExact(peer: Peer, line: Line, net: Net, area: byte, db: int, offset: int, value: bytes)
    requires |value| <= 8191 ==> InRange(S7AnyAddress(area, db, offset, |value|))
    ensures var (net', r) := AskWrite(peer, line, net, area, db, offset, value);
      WroteChunk(peer, line, |net.sent|, net'.sent, |value|, r)
  {
    hide WriteVarRequest, Interpret, ParsedWriteAnswer, WriteVerdict;
    var ref := NextRef(net.counter).1;
    WriteRequestDecodes(ref, S7AnyAddress(area, db, offset, |value|), value);
    var (net', r) := AskWrite(peer, line, net, area, db, offset, value);
    if |net'.sent| == |net.sent| + 1 {
      JudgedWrite(peer(net'.sent), ref, r);
    }
  }

  /** The first n chunks of a write, sent in order and each accepted. */
  ghost predicate Delivered(peer: Peer, before: nat, sent: seq<bytes>, addr: S7AnyAddress, chunks: seq<nat>,
                            data: bytes, offset: nat, n: nat)
  {
    && n <= |chunks| && before + n <= |sent| && offset + At(chunks, n) <= |data|
    && forall k :: 0 <= k < n ==>
         && offset + At(chunks, k) + chunks[k] <= |data|
         && WriteAccepted(peer, sent[..before + k + 1],
                          S7AnyAddress(addr.area, addr.db, addr.start + offset + At(chunks, k), chunks[k]),
                          data[offset + At(chunks, k)..offset + At(chunks, k) + chunks[k]])
  }

  lemma DeliveredCons(peer: Peer, before: nat, sent: seq<bytes>, addr: S7AnyAddress, chunks: seq<nat>, data: bytes,
                      offset: nat, n: nat)
    requires chunks != [] && offset + chunks[0] <= |data| && before < |sent|
    requires WriteAccepted(peer, sent[..before + 1], S7AnyAddress(addr.area, addr.db, addr.start + offset, chunks[0]),
                           data[offset..offset + chunks[0]])
    requires Delivered(peer, before + 1, sent, addr, chunks[1..], data, offset + chunks[0], n)
    ensures Delivered(peer, before, sent, addr, chunks, data, offset, n + 1)
  {
    hide WriteAccepted, At;
    AtZero(chunks);
    AtShift(chunks, n);
    forall k | 0 <= k < n + 1
      ensures offset + At(chunks, k) + chunks[k] <= |data|
      ensures WriteAccepted(peer, sent[..before + k + 1],
                            S7AnyAddress(addr.area, addr.db, addr.start + offset + At(chunks, k), chunks[k]),
                            data[offset + At(chunks, k)..offset + At(chunks, k) + chunks[k]])
    {
      if k > 0 {
        AtShift(chunks, k - 1);
        assert chunks[k] == chunks[1..][k - 1];
      }
    }
  }

  lemma NextRefNonzero(counter: u32)
    ensures NextRef(counter).1 != 0
  {
  }

  lemma {:induction false} WriteTrace(peer: Peer, line: Line, net: Net, addr: S7AnyAddress, chunks: seq<nat>,
                                      data: bytes, offset: nat) returns (n: nat)
    requires offset + At(chunks, |chunks|) <= |data| && ValidAddress(addr) && ValidEnd(addr.start, |data|)
    requires forall k :: 0 <= k < |chunks| ==> chunks[k] > 0
    ensures var (net', r) := WriteChunks(peer, line, net, addr, chunks, data, offset);
      && net.sent <= net'.sent && |net'.sent| <= |net.sent| + n + 1
      && Delivered(peer, |net.sent|, net'.sent, addr, chunks, data, offset, n)
      && (r.WriteOk? <==> n == |chunks|)
      && (n < |chunks| ==> WroteChunk(peer, line, |net.sent| + n, net'.sent, chunks[n], r))
    decreases |chunks|
  {
    hide AskWrite, At, AcceptedWith, NextRef, WroteChunk;
    n := 0;
    AtZero(chunks);
    if chunks != [] {
      AtShift(chunks, |chunks| - 1);
      var value := data[offset..offset + chunks[0]];
      AskWriteTrace(peer, line, net, addr.area, addr.db, addr.start + offset, value);
      AskWriteExact(peer, line, net, addr.area, addr.db, addr.start + offset, value);
      NextRefNonzero(net.counter);
      var (net1, r1) := AskWrite(peer, line, net, addr.area, addr.db, addr.start + offset, value);
      if r1.WriteOk? {
        var more := WriteTrace(peer, line, net1, addr, chunks[1..], data, offset + chunks[0]);
        var net' := WriteChunks(peer, line, net, addr, chunks, data, offset).0;
        assert net'.sent[..|net1.sent|] == net1.sent;
        DeliveredCons(peer, |net.sent|, net'.sent, addr, chunks, data, offset, more);
        n := more + 1;
      }
    }
  }

  /** Against any peer: some number of leading chunks was sent, each with exactly its range and bytes, and accepted by a
      reply whose codes are all 0xFF; the write reports success exactly when that is every chunk; otherwise the next
      chunk was not sent, or the reply to it says why the write failed. */
  lemma WriteAreaAnyPeer(peer: Peer, line: Line, net: Net, addr: S7AnyAddress, data: bytes) returns (n: nat)
    requires ValidAddress(addr) && ValidEnd(addr.start, |data|)
    ensures var (net', r) := WriteArea(peer, line, net, addr, data);
      var chunks := Chunks(|data|, MaxChunk(line.pduSize, 28));
      && net.sent <= net'.sent && |net'.sent| <= |net.sent| + n + 1
      && Delivered(peer, |net.sent|, net'.sent, addr, chunks, data, 0, n)
      && (r.WriteOk? <==> n == |chunks|)
      && (n < |chunks| ==> WroteChunk(peer, line, |net.sent| + n, net'.sent, chunks[n], r))
  {
    hide WriteChunks, Delivered, Chunks, At, WroteChunk;
    ChunksShape(|data|, MaxChunk(line.pduSize, 28));
    n := WriteTrace(peer, line, net, addr, Chunks(|data|, MaxChunk(line.pduSize, 28)), data, 0);
  }

  lemma AskWriteCrash(peer: Peer, line: Line, net: Net, area: byte, db: int, offset: int, value: bytes)
    ensures var (net', r) := AskWrite(peer, line, net, area, db, offset, value);
      net.sent <= net'.sent && (r.WriteCrash? ==> LastOverflowed(peer, net.sent, net'.sent))
  {
    hide LastOverflowed, Interpret, WriteVarRequest, ParsedWriteAnswer;
    var ref := NextRef(net.counter).1;
    var req := WriteVarRequest(ref, S7AnyAddress(area, db, offset, |value|), value);
    if req.Some? {
      SendReceiveCrash(peer, line, net.sent, req.value, ref);
    }
  }

  lemma {:induction false} WriteCrashed(peer: Peer, line: Line, net: Net, addr: S7AnyAddress, chunks: seq<nat>,
                                        data: bytes, offset: nat)
    requires offset + At(chunks, |chunks|) <= |data|
    ensures var (net', r) := WriteChunks(peer, line, net, addr, chunks, data, offset);
      net.sent <= net'.sent && (r.WriteCrash? ==> LastOverflowed(peer, net.sent, net'.sent))
    decreases |chunks|
  {
    hide AskWrite, At, Overflows;
    if chunks != [] {
      AtShift(chunks, |chunks| - 1);
      var value := data[offset..offset + chunks[0]];
      AskWriteCrash(peer, line, net, addr.area, addr.db, addr.start + offset, value);
      var (net1, r1) := AskWrite(peer, line, net, addr.area, addr.db, addr.start + offset, value);
      if r1.WriteOk? {
        WriteCrashed(peer, line, net1, addr, chunks[1..], data, offset + chunks[0]);
      }
    }
  }

  /** A write, too, crashes only on a reply whose section lengths overflow: its slices of the data stay in bounds. */
  lemma WriteCrashesOnlyOnOverflow(peer: Peer, line: Line, net: Net, addr: S7AnyAddress, data: bytes)
    ensures var (net', r) := WriteArea(peer, line, net, addr, data);
      r.WriteCrash? ==> LastOverflowed(peer, net.sent, net'.sent)
  {
    hide WriteChunks, LastOverflowed, Chunks, At;
    if ValidAddress(addr) && ValidEnd(addr.start, |data|) {
      ChunksShape(|data|, MaxChunk(line.pduSize, 28));
      WriteCrashed(peer, line, net, addr, Chunks(|data|, MaxChunk(line.pduSize, 28)), data, 0);
    }
  }

  //
  // A short answer to a chunk that is not the last moves the later bytes.
  //

  /** A peer that sends one byte for the first request and two for every other. */
  function ShortFirst(history: seq<bytes>): Reply {
    var data: bytes := if |history| == 1 then [7] else [8, 9];
    var answer := ReadVarResponse(|history| % 0x1_0000, [ReadVarItem(RET_SUCCESS, DATA_OCTET, |data|, data)]);
    if answer.None? then Lost(false) else Tsdu(answer.value)
  }

  lemma ShortFirstReply(history: seq<bytes>)
    requires 0 < |history| < 0x1_0000
    ensures var data: bytes := if |history| == 1 then [7] else [8, 9];
      ShortFirst(history).Tsdu? && Judge(Interpret(ShortFirst(history).data, |history|), 2) == Got(data)
  {
    hide ReadVarResponse, IsAnswerWith, Interpret, ParsedItems, Encoded;
    var data: bytes := if |history| == 1 then [7] else [8, 9];
    var item := ReadVarItem(RET_SUCCESS, DATA_OCTET, |data|, data);
    assert SizeSum([item], 1) == SizeSum([item], 0) + ResultSize(item, true) == 4 + |data|;
    ParseUndoesReadVarResponse(|history|, [item]);
    EncodedSize([item], 1);
    InterpretAnswer(ReadVarResponse(|history|, [item]).value, |history|, 0, 0, [FUNC_READ, 1], Encoded([item], 1));
  }

  lemma AskShortFirst(sent: seq<bytes>, offset: nat)
    requires |sent| < 0xFFFF && offset <= MAX_BYTE_OFFSET
    ensures var (net', c) := AskChunk(ShortFirst, Line(true, 26), Net(sent, |sent|), 0x83, 0, offset, 2);
      && |net'.sent| == |sent| + 1 && net'.counter == |sent| + 1
      && c == Got(if sent == [] then [7] else [8, 9])
  {
    hide ReadVarRequest, Interpret, Judge, ShortFirst;
    var ref: u16 := |sent| + 1;
    assert NextRef(|sent|) == (|sent| + 1, ref);
    ReadRequestDecodes(ref, [S7AnyAddress(0x83, 0, offset, 2)]);
    var req := ReadVarRequest(ref, [S7AnyAddress(0x83, 0, offset, 2)]).value;
    ShortFirstReply(sent + [req]);
  }

  /** Four markers read with a PDU size of 26 from that peer: the byte 8, sent for marker 2, comes back as the second
      byte, with status short read. */
  lemma ShortChunkShifts()
    ensures ReadArea(ShortFirst, Line(true, 26), Net([], 0), S7AnyAddress(0x83, 0, 0, 4)).1
         == Result(ReadResult(ShortRead, 4, [7, 8, 9], 0))
  {
    hide AskChunk;
    AskShortFirst([], 0);
    var addr := S7AnyAddress(0x83, 0, 0, 4);
    var net1 := AskChunk(ShortFirst, Line(true, 26), Net([], 0), 0x83, 0, 0, 2).0;
    AskShortFirst(net1.sent, 2);
    var net2 := AskChunk(ShortFirst, Line(true, 26), net1, 0x83, 0, 2, 2).0;
    assert Chunks(4, 2) == [2] + Chunks(2, 2) == [2, 2];
    calc {
      ReadChunks(ShortFirst, Line(true, 26), Net([], 0), addr, [2, 2], 0, []).1;
      { assert [2, 2][1..] == [2] && [] + [7] == [7]; }
      ReadChunks(ShortFirst, Line(true, 26), net1, addr, [2], 2, [7]).1;
      { assert [2][1..] == [] && [7] + [8, 9] == [7, 8, 9]; }
      ReadChunks(ShortFirst, Line(true, 26), net2, addr, [], 4, [7, 8, 9]).1;
    }
  }
}
