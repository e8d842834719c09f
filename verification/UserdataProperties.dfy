/** What holds of user data collection for every peer, and that it gives back every list a CPU sends in packets. */
module UserdataProperties {
  import opened Octets
  import opened Message
  import opened Client
  import opened Userdata
  import Session
  import ClientProperties

  /** The request is a user data PDU with this reference that the receiver reads as the wish for the packet behind
      sequence number `prev` of this function group and subfunction. */
  ghost predicate AsksFor(req: bytes, ref: u16, group: byte, subfunc: byte, prev: byte) {
    Receive(req) == Readable(0x07, ref,
                             [0x00, 0x01, 0x12, 0x08, 0x12, 0x40 + group % 0x10, subfunc, prev, 0, 0, 0, 0],
                             [0x0A, 0, 0, 0])
  }

  lemma FollowUpAsks(ref: u16, group: byte, subfunc: byte, prev: byte)
    ensures AsksFor(FollowUp(ref, group, subfunc, prev), ref, group, subfunc, prev)
  {
    hide Receive, EncodeMessage;
    ReceiveUndoesEncode(0x07, ref, [0x00, 0x01, 0x12, 0x08, 0x12, 0x40 + group % 0x10, subfunc, prev, 0, 0, 0, 0],
                        [0x0A, 0, 0, 0]);
  }

  /** An SZL request is user data whose parameter names the CPU functions and reading SZL, and whose data are the four
      bytes of ID and index. */
  lemma SzlRequestAsks(ref: u16, id: u16, index: u16)
    ensures Receive(SzlRequest(ref, id, index))
         == Readable(0x07, ref, [0x00, 0x01, 0x12, 0x04, 0x11, 0x44, 0x01, 0x00],
                     [0xFF, 0x09, 0x00, 0x04, id / 0x100, id % 0x100, index / 0x100, index % 0x100])
  {
    hide Receive, EncodeMessage;
    var data := [0xFF, 0x09] + PutU16(4) + PutU16(id) + PutU16(index);
    assert data == [0xFF, 0x09, 0x00, 0x04, id / 0x100, id % 0x100, index / 0x100, index % 0x100];
    ReceiveUndoesEncode(0x07, ref, [0x00, 0x01, 0x12, 0x04, 0x11, 0x44, 0x01, 0x00], data);
  }

  /** A response parameter is taken exactly when it is 00 01 12 08 and eight more bytes, and read byte by byte. */
  lemma ParamExact(param: bytes)
    ensures ParseParam(param).Some? <==> |param| >= 12 && param[..4] == [0x00, 0x01, 0x12, 0x08]
    ensures ParseParam(param).Some? ==>
      var up := ParseParam(param).value;
      && param[5] == param[5] / 0x10 * 0x10 + up.group && up.group < 0x10
      && param[6..8] == [up.subfunction, up.sequence] && (up.more <==> param[9] != 0)
      && param[10..12] == [up.errorCode / 0x100, up.errorCode % 0x100]
  {
  }

  /** A data section has this payload exactly when it is 0xFF, any transport size, the payload's length and the payload.
      */
  lemma DataExact(data: bytes, payload: bytes)
    requires |payload| < 0x1_0000
    ensures ParseData(data) == Some(payload) <==>
      |data| >= 4 && [0xFF, data[1], |payload| / 0x100, |payload| % 0x100] + payload <= data
  {
    if |data| >= 4 {
      var head: bytes := [0xFF, data[1], |payload| / 0x100, |payload| % 0x100];
      if head + payload <= data {
        assert data[..4 + |payload|] == head + payload;
        assert data[..4] == head && data[4..4 + |payload|] == payload;
        assert data[0] == head[0] && data[2] == head[2] && data[3] == head[3];
      }
      if ParseData(data) == Some(payload) {
        assert data[..4] == head;
        assert data[..4 + |payload|] == head + payload;
      }
    }
  }

  /** ID and index are taken from a first packet exactly when it reports success and holds them. */
  lemma SzlHeadExact(data: bytes)
    ensures ParseSzl(data).Some? <==> ParseData(data).Some? && |ParseData(data).value| >= 4
    ensures ParseSzl(data).Some? ==>
      var (id, index) := ParseSzl(data).value;
      ParseData(data).value[..4] == [id / 0x100, id % 0x100, index / 0x100, index % 0x100]
  {
  }

  ghost predicate FollowUpReply(peer: Peer, history: seq<bytes>, ref: u16, group: byte, subfunc: byte, prev: byte,
                                up: Param, piece: bytes)
  {
    && history != [] && AsksFor(history[|history| - 1], ref, group, subfunc, prev)
    && peer(history).Tsdu?
    && var ex := Interpret(peer(history).data, ref);
       ex.Sections? && ParseParam(ex.param) == Some(up) && ParseData(ex.data) == Some(piece)
  }

  /** The last request of this history asks for the packet behind sequence number `prev`; the reply is this packet. */
  ghost predicate PacketAnswered(peer: Peer, history: seq<bytes>, group: byte, subfunc: byte, prev: byte, up: Param,
                                 piece: bytes)
  {
    exists ref: u16 :: ref != 0 && FollowUpReply(peer, history, ref, group, subfunc, prev, up, piece)
  }

  /** A chain of packets: each but the last says that more follows, and each further one was asked for with the sequence
      number of the one before. */
  ghost predicate Chain(peer: Peer, before: nat, sent: seq<bytes>, group: byte, subfunc: byte, ups: seq<Param>,
                        pieces: seq<bytes>)
  {
    && |ups| == |pieces| + 1 && before + |pieces| == |sent|
    && !ups[|pieces|].more
    && forall k :: 0 <= k < |pieces| ==>
         && ups[k].more
         && PacketAnswered(peer, sent[..before + k + 1], group, subfunc, ups[k].sequence, ups[k + 1], pieces[k])
  }

  lemma ChainCons(peer: Peer, before: nat, sent: seq<bytes>, group: byte, subfunc: byte, up: Param, piece: bytes,
                  ups: seq<Param>, pieces: seq<bytes>)
    requires Chain(peer, before + 1, sent, group, subfunc, ups, pieces) && up.more
    requires PacketAnswered(peer, sent[..before + 1], group, subfunc, up.sequence, ups[0], piece)
    ensures Chain(peer, before, sent, group, subfunc, [up] + ups, [piece] + pieces)
  {
    hide PacketAnswered;
    var ups', pieces' := [up] + ups, [piece] + pieces;
    forall k | 0 <= k < |pieces'|
      ensures ups'[k].more
      ensures PacketAnswered(peer, sent[..before + k + 1], group, subfunc, ups'[k].sequence, ups'[k + 1], pieces'[k])
    {
      if k > 0 {
        assert ups'[k] == ups[k - 1] && ups'[k + 1] == ups[k] && pieces'[k] == pieces[k - 1];
      }
    }
  }

  lemma AskAnswered(peer: Peer, line: Line, sent: seq<bytes>, counter: u32, group: byte, subfunc: byte, prev: byte)
    ensures var ref := NextRef(counter).1;
      var (sent', p) := Ask(peer, line, sent, FollowUp(ref, group, subfunc, prev), ref);
      && sent <= sent' && |sent'| <= |sent| + 1
      && (p.Packet? ==> |sent'| == |sent| + 1 && PacketAnswered(peer, sent', group, subfunc, prev, p.up, p.payload))
  {
    hide FollowUp, Interpret, ParseParam, ParseData, AsksFor;
    var ref := NextRef(counter).1;
    FollowUpAsks(ref, group, subfunc, prev);
    var (sent', p) := Ask(peer, line, sent, FollowUp(ref, group, subfunc, prev), ref);
    if p.Packet? {
      assert ref != 0 && FollowUpReply(peer, sent', ref, group, subfunc, prev, p.up, p.payload);
    }
  }

  lemma {:induction false} CollectChain(peer: Peer, line: Line, net: Net, group: byte, subfunc: byte, up: Param,
                                        first: bytes, payload: bytes, n: nat)
    returns (ups: seq<Param>, pieces: seq<bytes>)
    requires n <= MAX_FOLLOW_UPS
    ensures var (net', r) := CollectFrom(peer, line, net, group, subfunc, up, first, payload, n);
      && net.sent <= net'.sent && |net'.sent| <= |net.sent| + MAX_FOLLOW_UPS - n
      && (r.Collected? ==>
            && r.first == first && r.payload == payload + Join(pieces) && |ups| > 0 && ups[0] == up
            && Chain(peer, |net.sent|, net'.sent, group, subfunc, ups, pieces))
    decreases MAX_FOLLOW_UPS - n
  {
    hide Ask, FollowUp, NextRef, PacketAnswered;
    ups, pieces := [up], [];
    assert payload + Join([]) == payload;
    if up.more && n < MAX_FOLLOW_UPS {
      var (counter, ref) := NextRef(net.counter);
      AskAnswered(peer, line, net.sent, net.counter, group, subfunc, up.sequence);
      var (sent, p) := Ask(peer, line, net.sent, FollowUp(ref, group, subfunc, up.sequence), ref);
      if p.Packet? {
        var moreUps, morePieces := CollectChain(peer, line, Net(sent, counter), group, subfunc, p.up, first,
                                                payload + p.payload, n + 1);
        var (net', r) := CollectFrom(peer, line, net, group, subfunc, up, first, payload, n);
        if r.Collected? {
          assert net'.sent[..|net.sent| + 1] == sent;
          ChainCons(peer, |net.sent|, net'.sent, group, subfunc, up, p.payload, moreUps, morePieces);
          ups, pieces := [up] + moreUps, [p.payload] + morePieces;
          assert payload + p.payload + Join(morePieces) == payload + (p.payload + Join(morePieces));
        }
      }
    }
  }

  /** The last request of this history is this one; the reply to it has this data section and says this about itself. */
  ghost predicate FirstReply(peer: Peer, history: seq<bytes>, req: bytes, ref: u16, up: Param, first: bytes) {
    && history != [] && history[|history| - 1] == req
    && peer(history).Tsdu?
    && var ex := Interpret(peer(history).data, ref);
       ex.Sections? && ParseParam(ex.param) == Some(up) && ex.data == first
  }

  /** For every peer: the exchange ends after at most 257 packets; and what it collects is the payloads of a chain of
      packets, joined: the reply to the request, then replies to follow-ups that each echo the sequence number of the
      packet before. */
  lemma CollectAnyPeer(peer: Peer, line: Line, net: Net, req: bytes, ref: u16, group: byte, subfunc: byte)
    returns (ups: seq<Param>, pieces: seq<bytes>)
    ensures var (net', r) := Collect(peer, line, net, req, ref, group, subfunc);
      && net.sent <= net'.sent && |net'.sent| <= |net.sent| + 257
      && (r.Collected? ==>
            && ParseData(r.first).Some?
            && r.payload == ParseData(r.first).value + Join(pieces)
            && |net.sent| < |net'.sent| && |ups| > 0
            && FirstReply(peer, net'.sent[..|net.sent| + 1], req, ref, ups[0], r.first)
            && Chain(peer, |net.sent| + 1, net'.sent, group, subfunc, ups, pieces))
  {
    hide CollectFrom, Chain, ParseParam, Interpret;
    var (sent, p) := Ask(peer, line, net.sent, req, ref);
    ups, pieces := [], [];
    if p.Packet? {
      ups, pieces := CollectChain(peer, line, Net(sent, net.counter), group, subfunc, p.up, p.data, p.payload, 0);
      var net' := Collect(peer, line, net, req, ref, group, subfunc).0;
      assert net'.sent[..|net.sent| + 1] == sent;
    }
  }

  lemma AskCrash(peer: Peer, line: Line, sent: seq<bytes>, req: bytes, ref: u16)
    ensures var (sent', p) := Ask(peer, line, sent, req, ref);
      sent <= sent' && (p.PacketCrash? ==> ClientProperties.LastOverflowed(peer, sent, sent'))
  {
    hide Interpret, ParseParam, ParseData, ClientProperties.LastOverflowed;
    ClientProperties.SendReceiveCrash(peer, line, sent, req, ref);
  }

  lemma {:induction false} CollectCrash(peer: Peer, line: Line, net: Net, group: byte, subfunc: byte, up: Param,
                                        first: bytes, payload: bytes, n: nat)
    requires n <= MAX_FOLLOW_UPS
    ensures var (net', r) := CollectFrom(peer, line, net, group, subfunc, up, first, payload, n);
      net.sent <= net'.sent && (r.Crash? ==> ClientProperties.LastOverflowed(peer, net.sent, net'.sent))
    decreases MAX_FOLLOW_UPS - n
  {
    hide Ask, FollowUp, NextRef, ClientProperties.Overflows;
    if up.more && n < MAX_FOLLOW_UPS {
      var (counter, ref) := NextRef(net.counter);
      var req := FollowUp(ref, group, subfunc, up.sequence);
      AskCrash(peer, line, net.sent, req, ref);
      var (sent, p) := Ask(peer, line, net.sent, req, ref);
      if p.Packet? {
        CollectCrash(peer, line, Net(sent, counter), group, subfunc, p.up, first, payload + p.payload, n + 1);
      }
    }
  }

  /** What a reply that ends the collection makes of it: a crash when its section lengths overflow 16 bits, otherwise a
      failure, because it was lost, cannot be read, has another reference, an error, or sections that are no packet. */
  ghost predicate EndsCollection(reply: Reply, ref: u16, r: Outcome) {
    match reply
    case Lost(_) => r == Failed
    case Tsdu(data) =>
      match ParseS7Header(data)
      case Unparsed(_) => r == Failed
      case Parsed(h, rest) =>
        if (ref != 0 && h.pduRef != ref) || h.errorClass != 0 || h.errorCode != 0 then r == Failed
        else if h.paramLength + h.dataLength >= 0x1_0000 then r == Crash
        else
          && (|| ParseParam(rest[..h.paramLength]).None?
              || ParseData(rest[h.paramLength..h.paramLength + h.dataLength]).None?)
          && r == Failed
  }

  /** The request was not sent, for want of a connection or of room in the PDU, or the reply to it ends the collection.
      */
  ghost predicate EndedBy(peer: Peer, line: Line, before: seq<bytes>, sent: seq<bytes>, length: nat, r: Outcome) {
    if !line.connected || 0 < line.pduSize < length then sent == before && r == Failed
    else before < sent && exists ref: u16 :: EndsCollection(peer(sent), ref, r)
  }

  lemma AskEnds(peer: Peer, line: Line, sent: seq<bytes>, req: bytes, ref: u16)
    ensures var (sent', p) := Ask(peer, line, sent, req, ref);
      && sent <= sent'
      && (p.PacketFailed? ==> EndedBy(peer, line, sent, sent', |req|, Failed))
      && (p.PacketCrash? ==> EndedBy(peer, line, sent, sent', |req|, Crash))
      && (p.Packet? ==> line.connected && !(0 < line.pduSize < |req|) && |sent'| == |sent| + 1)
  {
    hide ParseParam, ParseData, ParseS7Header;
    var (sent', p) := Ask(peer, line, sent, req, ref);
    if |sent'| == |sent| + 1 && !p.Packet? {
      assert EndsCollection(peer(sent'), ref, if p.PacketCrash? then Crash else Failed);
    }
  }

  lemma FollowUpShape(ref: u16, group: byte, subfunc: byte, prev: byte)
    ensures |FollowUp(ref, group, subfunc, prev)| == 26 && U16(FollowUp(ref, group, subfunc, prev), 4) == ref
  {
  }

  lemma {:induction false} CollectEnds(peer: Peer, line: Line, net: Net, group: byte, subfunc: byte, up: Param,
                                       first: bytes, payload: bytes, n: nat) returns (before: seq<bytes>)
    requires n <= MAX_FOLLOW_UPS
    ensures var (net', r) := CollectFrom(peer, line, net, group, subfunc, up, first, payload, n);
      && net.sent <= before <= net'.sent
      && (r.Failed? || r.Crash? ==> EndedBy(peer, line, before, net'.sent, 26, r))
      && (r.TooLong? ==> |net'.sent| == |net.sent| + 256 - n)
    decreases MAX_FOLLOW_UPS - n
  {
    hide Ask, FollowUp, NextRef, EndedBy;
    before := net.sent;
    if up.more && n < MAX_FOLLOW_UPS {
      var (counter, ref) := NextRef(net.counter);
      var req := FollowUp(ref, group, subfunc, up.sequence);
      FollowUpShape(ref, group, subfunc, up.sequence);
      AskEnds(peer, line, net.sent, req, ref);
      var (sent, p) := Ask(peer, line, net.sent, req, ref);
      if p.Packet? {
        before := CollectEnds(peer, line, Net(sent, counter), group, subfunc, p.up, first, payload + p.payload, n + 1);
      }
    }
  }

  /** How every collection that does not succeed ends: it is given up after exactly 257 packets, or with a request that
      was not sent or whose reply ends it, and crashes exactly when that reply's section lengths overflow. */
  lemma CollectEndsExact(peer: Peer, line: Line, net: Net, req: bytes, ref: u16, group: byte, subfunc: byte)
    returns (before: seq<bytes>)
    ensures var (net', r) := Collect(peer, line, net, req, ref, group, subfunc);
      && net.sent <= before <= net'.sent
      && (r.Failed? || r.Crash? ==>
            EndedBy(peer, line, before, net'.sent, if before == net.sent then |req| else 26, r))
      && (r.TooLong? ==> |net'.sent| == |net.sent| + 257)
  {
    hide Ask, CollectFrom, EndedBy;
    before := net.sent;
    AskEnds(peer, line, net.sent, req, ref);
    var (sent, p) := Ask(peer, line, net.sent, req, ref);
    if p.Packet? {
      before := CollectEnds(peer, line, Net(sent, net.counter), group, subfunc, p.up, p.data, p.payload, 0);
    }
  }

  /** The collection crashes only on a reply whose section lengths overflow 16 bits, and that reply is the last one. */
  lemma CollectCrashesOnlyOnOverflow(peer: Peer, line: Line, net: Net, req: bytes, ref: u16, group: byte, subfunc: byte)
    ensures var (net', r) := Collect(peer, line, net, req, ref, group, subfunc);
      r.Crash? ==> ClientProperties.LastOverflowed(peer, net.sent, net'.sent)
  {
    hide Ask, CollectFrom, ClientProperties.Overflows;
    AskCrash(peer, line, net.sent, req, ref);
    var (sent, p) := Ask(peer, line, net.sent, req, ref);
    if p.Packet? {
      CollectCrash(peer, line, Net(sent, net.counter), group, subfunc, p.up, p.data, p.payload, 0);
    }
  }

  /** Reading a list crashes on nothing else either: the cut behind SZL ID and index cannot underflow. */
  lemma SzlCutIsSafe(peer: Peer, line: Line, net: Net, id: u16, index: u16)
    ensures var (net', r) := ReadSzl(peer, line, net, id, index);
      var (counter, ref) := NextRef(net.counter);
      var req := SzlRequest(ref, id, index);
      var collected := Collect(peer, line, Net(net.sent, counter), req, ref, GROUP_CPU, READ_SZL).1;
      && (r.SzlCrash? <==> collected.Crash?)
      && (r.SzlFailed? <==> collected.Failed? || collected.TooLong?) && (r.SzlFailed? ==> r.why == collected)
      && (r.SzlCrash? ==> ClientProperties.LastOverflowed(peer, net.sent, net'.sent))
  {
    hide Collect, NextRef, SzlRequest, FirstReply, Chain, ClientProperties.LastOverflowed;
    var (counter, ref) := NextRef(net.counter);
    var req := SzlRequest(ref, id, index);
    var start := Net(net.sent, counter);
    var _, pieces := CollectAnyPeer(peer, line, start, req, ref, GROUP_CPU, READ_SZL);
    CollectCrashesOnlyOnOverflow(peer, line, start, req, ref, GROUP_CPU, READ_SZL);
    var (net', r) := Collect(peer, line, start, req, ref, GROUP_CPU, READ_SZL);
    if r.Collected? && ParseSzl(r.first).Some? {
      assert |r.payload| == |ParseData(r.first).value| + |Join(pieces)| >= 4;
    }
  }

  /** And on such a reply it does crash. */
  lemma SzlCrashes(id: u16, index: u16)
    ensures ReadSzl(ClientProperties.HugePeer, Line(true, 0), Net([], 0), id, index).1 == SzlCrash
  {
    hide SzlRequest, Interpret, ClientProperties.HugeReply;
    assert NextRef(0) == (1, 1);
    ClientProperties.HugeReplyCrashes(1);
  }

  //
  // A CPU that sends a list in packets.
  //

  /** The k-th packet of a response in these pieces, with any sequence numbers. */
  function CpuPacket(pieces: seq<bytes>, sequence: nat -> byte, k: nat, ref: u16): Option<bytes>
    requires k < |pieces| && |pieces[k]| < 0x1_0000
  {
    EncodeMessage(ROSCTR_USERDATA, ref,
                  [0x00, 0x01, 0x12, 0x08, 0x12, 0x84, READ_SZL, sequence(k), 0x00,
                   if k + 1 < |pieces| then 1 else 0, 0x00, 0x00],
                  [RET_SUCCESS, 0x09] + PutU16(|pieces[k]|) + pieces[k])
  }

  predicate Sendable(pieces: seq<bytes>) {
    pieces != [] && forall k :: 0 <= k < |pieces| ==> |pieces[k]| < 0x1_0000 - 16
  }

  /** The CPU answers the request after `base` earlier ones with its first packet, the next with its second, and so on.
      */
  function CpuReply(base: nat, pieces: seq<bytes>, sequence: nat -> byte, history: seq<bytes>): Reply
    requires Sendable(pieces)
  {
    if |history| <= base || |history| > base + |pieces| || |history[|history| - 1]| < 10 then Lost(false)
    else
      var packet := CpuPacket(pieces, sequence, |history| - base - 1, U16(history[|history| - 1], 4));
      if packet.None? then Lost(false) else Tsdu(packet.value)
  }

  function CpuPeer(base: nat, pieces: seq<bytes>, sequence: nat -> byte): Peer
    requires Sendable(pieces)
  {
    history => CpuReply(base, pieces, sequence, history)
  }

  lemma UserdataInterpreted(ref: u16, param: bytes, data: bytes)
    requires |param| + |data| < 0x1_0000
    ensures var out := EncodeMessage(ROSCTR_USERDATA, ref, param, data);
      out.Some? && Interpret(out.value, ref) == Sections(param, data)
  {
    hide EncodeMessage, ParseS7Header;
    ParseUndoesMessage(ROSCTR_USERDATA, ref, param, data);
    assert (param + data)[..|param|] == param && (param + data)[|param|..|param| + |data|] == data;
  }

  lemma PieceParses(piece: bytes)
    requires |piece| < 0x1_0000
    ensures var data := [RET_SUCCESS, 0x09] + PutU16(|piece|) + piece;
      ParseData(data) == Some(piece) && |data| == 4 + |piece|
  {
    var data := [RET_SUCCESS, 0x09] + PutU16(|piece|) + piece;
    assert data[4..4 + |piece|] == piece;
  }

  /** A request with this reference gets the next packet. */
  lemma CpuAnswers(base: nat, pieces: seq<bytes>, sequence: nat -> byte, line: Line, sent: seq<bytes>,
                   req: bytes, ref: u16)
    requires Sendable(pieces) && base <= |sent| < base + |pieces|
    requires line.connected && (line.pduSize == 0 || |req| <= line.pduSize) && |req| >= 10 && U16(req, 4) == ref
    ensures var k := |sent| - base;
      var (sent', p) := Ask(CpuPeer(base, pieces, sequence), line, sent, req, ref);
      && sent' == sent + [req]
      && p.Packet? && p.payload == pieces[k] && p.up.more == (k + 1 < |pieces|) && p.up.sequence == sequence(k)
      && p.data == [RET_SUCCESS, 0x09] + PutU16(|pieces[k]|) + pieces[k]
  {
    hide EncodeMessage, Interpret, ParseData, U16, PutU16;
    var k := |sent| - base;
    assert |pieces[k]| < 0x1_0000 - 16;
    PieceParses(pieces[k]);
    var param: bytes := [0x00, 0x01, 0x12, 0x08, 0x12, 0x84, READ_SZL, sequence(k), 0x00,
                         if k + 1 < |pieces| then 1 else 0, 0x00, 0x00];
    UserdataInterpreted(ref, param, [RET_SUCCESS, 0x09] + PutU16(|pieces[k]|) + pieces[k]);
  }

  lemma SzlRequestShape(ref: u16, id: u16, index: u16)
    ensures |SzlRequest(ref, id, index)| == 26 && U16(SzlRequest(ref, id, index), 4) == ref
  {
  }

  lemma {:induction false} CollectPieces(base: nat, pieces: seq<bytes>, sequence: nat -> byte, line: Line, net: Net,
                                         group: byte, subfunc: byte, up: Param, first: bytes, payload: bytes, n: nat)
    requires Sendable(pieces) && line.connected && (line.pduSize == 0 || line.pduSize >= 26)
    requires n <= MAX_FOLLOW_UPS && n < |pieces| && |net.sent| == base + n + 1 && up.more == (n + 1 < |pieces|)
    ensures CollectFrom(CpuPeer(base, pieces, sequence), line, net, group, subfunc, up, first, payload, n).1
         == if |pieces| <= 257 then Collected(first, payload + Join(pieces[n + 1..])) else TooLong
    decreases MAX_FOLLOW_UPS - n
  {
    hide Ask, FollowUp, NextRef, CpuPeer, U16;
    if !up.more {
      assert pieces[n + 1..] == [];
      assert payload + Join([]) == payload;
    } else if n < MAX_FOLLOW_UPS {
      var (counter, ref) := NextRef(net.counter);
      var req := FollowUp(ref, group, subfunc, up.sequence);
      FollowUpShape(ref, group, subfunc, up.sequence);
      CpuAnswers(base, pieces, sequence, line, net.sent, req, ref);
      var (sent, p) := Ask(CpuPeer(base, pieces, sequence), line, net.sent, req, ref);
      CollectPieces(base, pieces, sequence, line, Net(sent, counter), group, subfunc, p.up, first,
                    payload + p.payload, n + 1);
      assert pieces[n + 1..] == [pieces[n + 1]] + pieces[n + 2..];
      assert payload + pieces[n + 1] + Join(pieces[n + 2..]) == payload + (pieces[n + 1] + Join(pieces[n + 2..]));
    }
  }

  lemma SzlFirst(piece: bytes)
    requires |piece| < 0x1_0000
    ensures var data := [RET_SUCCESS, 0x09] + PutU16(|piece|) + piece;
      ParseSzl(data) == if |piece| < 4 then None else Some((U16(piece, 0), U16(piece, 2)))
  {
    var data := [RET_SUCCESS, 0x09] + PutU16(|piece|) + piece;
    assert U16(data, 2) == |piece|;
  }

  lemma U16Prefix(a: bytes, b: bytes)
    requires |a| >= 4
    ensures U16(a + b, 0) == U16(a, 0) && U16(a + b, 2) == U16(a, 2)
  {
  }

  /** However a CPU cuts an SZL list into up to 257 packets, the client reads the same: ID and index, and the list
      behind them, provided the first packet holds ID and index. A longer response is given up. */
  lemma SzlCutIndependent(pieces: seq<bytes>, sequence: nat -> byte, line: Line, net: Net, id: u16, index: u16)
    requires Sendable(pieces) && line.connected && (line.pduSize == 0 || line.pduSize >= 26)
    ensures var r := ReadSzl(CpuPeer(|net.sent|, pieces, sequence), line, net, id, index).1;
      var all := Join(pieces);
      if |pieces| > 257 then r == SzlFailed(TooLong)
      else if |pieces[0]| < 4 then r == SzlMalformed
      else |all| >= 4 && r == Szl(U16(all, 0), U16(all, 2), all[4..])
  {
    hide Ask, CollectFrom, NextRef, SzlRequest, CpuPeer, U16, ParseSzl;
    var (counter, ref) := NextRef(net.counter);
    var peer := CpuPeer(|net.sent|, pieces, sequence);
    var req := SzlRequest(ref, id, index);
    SzlRequestShape(ref, id, index);
    CpuAnswers(|net.sent|, pieces, sequence, line, net.sent, req, ref);
    var (sent, p) := Ask(peer, line, net.sent, req, ref);
    CollectPieces(|net.sent|, pieces, sequence, line, Net(sent, counter), GROUP_CPU, READ_SZL, p.up, p.data,
                  p.payload, 0);
    assert |pieces[0]| < 0x1_0000 - 16;
    SzlFirst(pieces[0]);
    assert Join(pieces) == pieces[0] + Join(pieces[1..]);
    if |pieces[0]| >= 4 {
      U16Prefix(pieces[0], Join(pieces[1..]));
    }
  }

  //
  // The server's answer to user data.
  //

  lemma RefusalParses(group: byte, subfunc: byte, sequence: byte)
    requires group < 0x40
    ensures ParseParam([0x00, 0x01, 0x12, 0x08, 0x12, 0x80 + group, subfunc, sequence, 0x00, 0x00, 0x81, 0x04])
         == Some(Param(group % 0x10, subfunc, sequence, false, 0x8104))
  {
  }

  lemma LowBits(b: byte)
    ensures b % 0x40 % 0x10 == b % 0x10
  {
  }

  /** The client's parsers read the server's refusal as what it is: function group, subfunction and sequence number of
      the request, no more to follow, error 0x8104, and no payload. */
  lemma ServerRefusesUserdata(pduRef: u16, param: bytes)
    requires |param| >= 8 && param[0] == 0x00 && param[1] == 0x01 && param[2] == 0x12
    ensures var ex := Interpret(Session.UserdataNotImplemented(pduRef, param), pduRef);
      && ex.Sections?
      && ParseParam(ex.param) == Some(Param(param[5] % 0x10, param[6], param[7], false, 0x8104))
      && ParseData(ex.data).None? && ex.data == [RET_NOT_AVAILABLE, 0x00, 0x00, 0x00]
  {
    hide EncodeMessage, Interpret, ParseParam;
    var resp: bytes := [0x00, 0x01, 0x12, 0x08, 0x12, 0x80 + param[5] % 0x40, param[6], param[7], 0x00, 0x00,
                        Session.CLASS_APP, Session.CODE_NOT_IMPLEMENTED];
    UserdataInterpreted(pduRef, resp, [RET_NOT_AVAILABLE, 0x00, 0x00, 0x00]);
    RefusalParses(param[5] % 0x40, param[6], param[7]);
    LowBits(param[5]);
  }
}
