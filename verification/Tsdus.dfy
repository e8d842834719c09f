/** TSDUs cut into DT TPDUs, packed, cut into TCP segments and recorded: what the capture reader gets back of them. */
module Tsdus {
  import opened Octets
  import opened Stream
  import opened Tpkt

  /** One DT TPDU's share of a TSDU, with whatever its header carries besides. */
  datatype Fragment = Fragment(reserved: byte, credit: byte, nr: byte, extra: bytes, payload: bytes)

  predicate ValidFragment(f: Fragment) {
    f.credit < 0x10 && f.nr < 0x80 && |f.extra| < 0x100 - 2 && |f.extra| + |f.payload| + 7 < 0x1_0000
  }

  function DtPacket(f: Fragment, last: bool): (p: Packet)
    requires ValidFragment(f)
    ensures ValidPacket(p)
  {
    var header: bytes := [2 + |f.extra|, 0xF0 + f.credit, f.nr + (if last then 0x80 else 0)];
    assert (header + f.extra + f.payload)[..3] == header;
    Packet(f.reserved, header + f.extra + f.payload)
  }

  lemma TakeDt(f: Fragment, last: bool, fromClient: bool, frame: int, st: Joined)
    requires ValidFragment(f)
    ensures var longer := st.(tsdu := st.tsdu + f.payload);
      Take(DtPacket(f, last).tpdu, fromClient, frame, st) == if last then EndTsdu(fromClient, frame, longer) else longer
  {
    var tpdu := DtPacket(f, last).tpdu;
    assert tpdu[..3] == [2 + |f.extra|, 0xF0 + f.credit, f.nr + (if last then 0x80 else 0)];
    assert tpdu[0] == tpdu[..3][0] && tpdu[1] == tpdu[..3][1] && tpdu[2] == tpdu[..3][2];
    assert tpdu[3 + |f.extra|..] == f.payload;
  }

  predicate ValidTsdu(frags: seq<Fragment>) {
    frags != [] && forall i :: 0 <= i < |frags| ==> ValidFragment(frags[i])
  }

  predicate AllTsdus(tsdus: seq<seq<Fragment>>) {
    forall i :: 0 <= i < |tsdus| ==> ValidTsdu(tsdus[i])
  }

  function Payload(frags: seq<Fragment>): bytes {
    if frags == [] then [] else frags[0].payload + Payload(frags[1..])
  }

  function TsduPackets(frags: seq<Fragment>): (r: seq<Packet>)
    requires ValidTsdu(frags)
    ensures Tpkt.AllValid(r)
  {
    if |frags| == 1 then [DtPacket(frags[0], true)] else [DtPacket(frags[0], false)] + TsduPackets(frags[1..])
  }

  function Packets(tsdus: seq<seq<Fragment>>): (r: seq<Packet>)
    requires AllTsdus(tsdus)
    ensures Tpkt.AllValid(r)
  {
    if tsdus == [] then [] else TsduPackets(tsdus[0]) + Packets(tsdus[1..])
  }

  function Length(packets: seq<Packet>): nat {
    if packets == [] then 0 else |packets[0].tpdu| + 4 + Length(packets[1..])
  }

  lemma {:induction false} LengthJoined(packets: seq<Packet>)
    requires Tpkt.AllValid(packets)
    ensures |JoinPackets(packets)| == Length(packets)
  {
    hide ValidPacket;
    if packets != [] {
      LengthJoined(packets[1..]);
    }
  }

  lemma {:induction false} LengthAppend(a: seq<Packet>, b: seq<Packet>)
    ensures Length(a + b) == Length(a) + Length(b)
  {
    if a == [] {
      assert a + b == b;
    } else {
      LengthAppend(a[1..], b);
      assert (a + b)[0] == a[0] && (a + b)[1..] == a[1..] + b;
    }
  }

  lemma ExpectedCons(p: Packet, rest: seq<Packet>, m: nat, c: Chunk, fromClient: bool, off: nat, st: Joined)
    requires ValidPacket(p) && Tpkt.AllValid(rest) && |c.frames| == |c.data| && off + m == |c.data|
    ensures var n := |p.tpdu| + 4;
      Expected([p] + rest, m, c, fromClient, off, st) ==
        if m < n then Ended(st, m != 0)
        else Expected(rest, m - n, c, fromClient, off + n, Take(p.tpdu, fromClient, c.frames[off + n - 1], st))
  {
    hide ValidPacket, Take, Ended;
    assert ([p] + rest)[1..] == rest && ([p] + rest)[0] == p;
  }

  lemma TsduStepLength(frags: seq<Fragment>)
    requires ValidTsdu(frags)
    ensures Length(TsduPackets(frags)) > 0
  {
  }

  /** The packets of one TSDU, when they are all there, deliver it; when they are not, nothing more comes out. */
  lemma {:induction false} TsduStep(frags: seq<Fragment>, rest: seq<Packet>, m: nat, c: Chunk, fromClient: bool,
                                    off: nat, st: Joined)
    requires ValidTsdu(frags) && Tpkt.AllValid(rest) && |c.frames| == |c.data| && off + m == |c.data|
    ensures var len := Length(TsduPackets(frags));
      var r := Expected(TsduPackets(frags) + rest, m, c, fromClient, off, st);
      && len > 0
      && (if m >= len then
            r == Expected(rest, m - len, c, fromClient, off + len,
                          EndTsdu(fromClient, c.frames[off + len - 1], st.(tsdu := st.tsdu + Payload(frags))))
          else r.Split? && r.out == st.out && r.cr == st.cr && r.cc == st.cc)
    decreases |frags|
  {
    hide Take, Expected, EndTsdu, DtPacket, ValidPacket;
    var last := |frags| == 1;
    var p := DtPacket(frags[0], last);
    var n := |p.tpdu| + 4;
    if last {
      assert TsduPackets(frags) == [p] && Length([p]) == n + Length([]);
      ExpectedCons(p, rest, m, c, fromClient, off, st);
      assert Payload(frags[1..]) == [] && frags[0].payload + [] == frags[0].payload;
      if m >= n {
        TakeDt(frags[0], true, fromClient, c.frames[off + n - 1], st);
      }
    } else {
      var more := TsduPackets(frags[1..]);
      assert [p] + more + rest == [p] + (more + rest);
      assert ([p] + more)[1..] == more;
      ExpectedCons(p, more + rest, m, c, fromClient, off, st);
      if m >= n {
        TakeDt(frags[0], false, fromClient, c.frames[off + n - 1], st);
        var longer := st.(tsdu := st.tsdu + frags[0].payload);
        TsduStep(frags[1..], rest, m - n, c, fromClient, off + n, longer);
        assert st.tsdu + frags[0].payload + Payload(frags[1..]) == st.tsdu + (frags[0].payload + Payload(frags[1..]));
      }
      TsduStepLength(frags[1..]);
    }
  }

  /** The PDU of a TSDU, when it is an S7 one. */
  function PdusOf(data: bytes, fromClient: bool, frame: int): seq<Pdu> {
    if data != [] && data[0] == 0x32 then [Pdu(fromClient, frame, data)] else []
  }

  /** The PDUs of those TSDUs whose packets all lie in the first m bytes, with the frame of their last byte. */
  function Wanted(tsdus: seq<seq<Fragment>>, m: nat, c: Chunk, fromClient: bool, off: nat): seq<Pdu>
    requires AllTsdus(tsdus) && |c.frames| == |c.data| && off + m == |c.data|
    decreases |tsdus|
  {
    if tsdus == [] || Length(TsduPackets(tsdus[0])) > m then []
    else
      TsduStepLength(tsdus[0]);
      var len := Length(TsduPackets(tsdus[0]));
      PdusOf(Payload(tsdus[0]), fromClient, c.frames[off + len - 1])
      + Wanted(tsdus[1..], m - len, c, fromClient, off + len)
  }

  function PayloadOf(data: bytes): seq<bytes> {
    if data != [] && data[0] == 0x32 then [data] else []
  }

  /** The S7 TSDUs, in order. */
  function S7Payloads(tsdus: seq<seq<Fragment>>): seq<bytes> {
    if tsdus == [] then [] else PayloadOf(Payload(tsdus[0])) + S7Payloads(tsdus[1..])
  }

  function Datas(pdus: seq<Pdu>): seq<bytes> {
    seq(|pdus|, i requires 0 <= i < |pdus| => pdus[i].data)
  }

  lemma DatasAppend(a: seq<Pdu>, b: seq<Pdu>)
    ensures Datas(a + b) == Datas(a) + Datas(b)
  {
  }

  lemma DatasOf(data: bytes, fromClient: bool, frame: int)
    ensures Datas(PdusOf(data, fromClient, frame)) == PayloadOf(data)
  {
  }

  lemma PrefixBehind(a: seq<bytes>, b: seq<bytes>, c: seq<bytes>)
    requires b <= c
    ensures a + b <= a + c
  {
    assert (a + c)[..|a + b|] == a + b;
  }

  lemma NoDatas()
    ensures Datas([]) == []
  {
  }

  lemma {:induction false} WantedPayloads(tsdus: seq<seq<Fragment>>, m: nat, c: Chunk, fromClient: bool, off: nat)
    requires AllTsdus(tsdus) && |c.frames| == |c.data| && off + m == |c.data|
    ensures Datas(Wanted(tsdus, m, c, fromClient, off)) <= S7Payloads(tsdus)
    ensures m >= Length(Packets(tsdus)) ==> Datas(Wanted(tsdus, m, c, fromClient, off)) == S7Payloads(tsdus)
    decreases |tsdus|
  {
    hide TsduPackets, Payload, PayloadOf, ValidTsdu, Length, PdusOf, Datas;
    assert Datas([]) == [] by { NoDatas(); }
    if tsdus != [] {
      var len, data := Length(TsduPackets(tsdus[0])), Payload(tsdus[0]);
      LengthAppend(TsduPackets(tsdus[0]), Packets(tsdus[1..]));
      TsduStepLength(tsdus[0]);
      if m >= len {
        WantedPayloads(tsdus[1..], m - len, c, fromClient, off + len);
        var pdus := PdusOf(data, fromClient, c.frames[off + len - 1]);
        var rest := Wanted(tsdus[1..], m - len, c, fromClient, off + len);
        DatasAppend(pdus, rest);
        DatasOf(data, fromClient, c.frames[off + len - 1]);
        PrefixBehind(Datas(pdus), Datas(rest), S7Payloads(tsdus[1..]));
      }
    }
  }

  lemma Ends(fromClient: bool, frame: int, st: Joined, data: bytes)
    ensures EndTsdu(fromClient, frame, st.(tsdu := data))
         == st.(tsdu := [], out := st.out + PdusOf(data, fromClient, frame))
  {
    assert st.out + [] == st.out;
  }

  lemma NoneExpected(m: nat, c: Chunk, fromClient: bool, off: nat, st: Joined)
    requires |c.frames| == |c.data| && off + m == |c.data| && st.tsdu == []
    ensures Length([]) == 0
    ensures Expected([], m, c, fromClient, off, st) == Split(st.out, st.cr, st.cc, if m == 0 then 0 else 1)
  {
  }

  lemma {:induction false} ExpectedTsdus(tsdus: seq<seq<Fragment>>, m: nat, c: Chunk, fromClient: bool, off: nat,
                                         st: Joined)
    requires AllTsdus(tsdus) && |c.frames| == |c.data| && off + m == |c.data| && st.tsdu == []
    ensures var r := Expected(Packets(tsdus), m, c, fromClient, off, st);
      && r.Split? && r.out == st.out + Wanted(tsdus, m, c, fromClient, off) && r.cr == st.cr && r.cc == st.cc
      && (m == Length(Packets(tsdus)) ==> r.dropped == 0)
    decreases |tsdus|
  {
    hide TsduPackets, Payload, ValidTsdu, Length, PdusOf, EndTsdu, Expected;
    assert st.out + [] == st.out;
    if tsdus == [] {
      NoneExpected(m, c, fromClient, off, st);
    } else {
      var len, data := Length(TsduPackets(tsdus[0])), Payload(tsdus[0]);
      var rest := Packets(tsdus[1..]);
      LengthAppend(TsduPackets(tsdus[0]), rest);
      TsduStep(tsdus[0], rest, m, c, fromClient, off, st);
      if m >= len {
        assert [] + data == data;
        var frame := c.frames[off + len - 1];
        Ends(fromClient, frame, st, data);
        var next := st.(tsdu := [], out := st.out + PdusOf(data, fromClient, frame));
        ExpectedTsdus(tsdus[1..], m - len, c, fromClient, off + len, next);
        var more := Wanted(tsdus[1..], m - len, c, fromClient, off + len);
        assert st.out + PdusOf(data, fromClient, frame) + more == st.out + (PdusOf(data, fromClient, frame) + more);
      }
    }
  }

  /** Cut any list of TSDUs into DT TPDUs and packets and take any prefix of the bytes: the parser reports no error, and
      gives the S7 PDUs whose packets are all in the prefix. On the whole stream these are all of them, in order, and
      nothing counts as dropped. */
  lemma CutAndJoin(tsdus: seq<seq<Fragment>>, c: Chunk, fromClient: bool)
    requires AllTsdus(tsdus) && |c.frames| == |c.data| && c.data <= JoinPackets(Packets(tsdus))
    ensures var r := PdusFrom(c, fromClient, 0, NOTHING);
      && r.Split? && r.out == Wanted(tsdus, |c.data|, c, fromClient, 0) && r.cr == r.cc == 0
      && Datas(r.out) <= S7Payloads(tsdus)
      && (c.data == JoinPackets(Packets(tsdus)) ==> Datas(r.out) == S7Payloads(tsdus) && r.dropped == 0)
  {
    hide Packets, Wanted, PdusFrom, Expected, S7Payloads;
    LengthJoined(Packets(tsdus));
    assert c.data[0..] == c.data;
    PrefixParses(Packets(tsdus), c, fromClient, 0, NOTHING);
    ExpectedTsdus(tsdus, |c.data|, c, fromClient, 0, NOTHING);
    WantedPayloads(tsdus, |c.data|, c, fromClient, 0);
    assert [] + Wanted(tsdus, |c.data|, c, fromClient, 0) == Wanted(tsdus, |c.data|, c, fromClient, 0);
  }

  //
  // A stream cut short in the middle of a TSDU.
  //

  /** The first packets of a TSDU, none of them its last. */
  function Unfinished(frags: seq<Fragment>): (r: seq<Packet>)
    requires forall i :: 0 <= i < |frags| ==> ValidFragment(frags[i])
    ensures Tpkt.AllValid(r)
  {
    if frags == [] then [] else [DtPacket(frags[0], false)] + Unfinished(frags[1..])
  }

  lemma {:induction false} UnfinishedThen(frags: seq<Fragment>, rest: seq<Packet>, m: nat, c: Chunk, fromClient: bool,
                                          off: nat, st: Joined)
    requires (forall i :: 0 <= i < |frags| ==> ValidFragment(frags[i])) && Tpkt.AllValid(rest)
    requires |c.frames| == |c.data| && off + m == |c.data| && m >= Length(Unfinished(frags))
    ensures var len := Length(Unfinished(frags));
      Expected(Unfinished(frags) + rest, m, c, fromClient, off, st)
      == Expected(rest, m - len, c, fromClient, off + len, st.(tsdu := st.tsdu + Payload(frags)))
    decreases |frags|
  {
    hide Take, Expected, DtPacket, ValidPacket, ValidFragment;
    if frags == [] {
      assert Unfinished(frags) + rest == rest && st.tsdu + [] == st.tsdu;
    } else {
      var p, more := DtPacket(frags[0], false), Unfinished(frags[1..]);
      var n := |p.tpdu| + 4;
      assert [p] + more + rest == [p] + (more + rest) && ([p] + more)[1..] == more;
      ExpectedCons(p, more + rest, m, c, fromClient, off, st);
      TakeDt(frags[0], false, fromClient, c.frames[off + n - 1], st);
      var longer := st.(tsdu := st.tsdu + frags[0].payload);
      UnfinishedThen(frags[1..], rest, m - n, c, fromClient, off + n, longer);
      assert st.tsdu + frags[0].payload + Payload(frags[1..]) == st.tsdu + (frags[0].payload + Payload(frags[1..]));
    }
  }

  lemma {:induction false} TsdusThen(tsdus: seq<seq<Fragment>>, rest: seq<Packet>, m: nat, c: Chunk, fromClient: bool,
                                     off: nat, st: Joined)
    requires AllTsdus(tsdus) && Tpkt.AllValid(rest) && st.tsdu == []
    requires |c.frames| == |c.data| && off + m == |c.data| && m >= Length(Packets(tsdus))
    ensures var len := Length(Packets(tsdus));
      Expected(Packets(tsdus) + rest, m, c, fromClient, off, st)
      == Expected(rest, m - len, c, fromClient, off + len, st.(out := st.out + Wanted(tsdus, m, c, fromClient, off)))
    decreases |tsdus|
  {
    hide TsduPackets, Payload, ValidTsdu, PdusOf, EndTsdu, Expected, Length;
    if tsdus == [] {
      NoneExpected(m, c, fromClient, off, st);
      assert Packets(tsdus) + rest == rest && st.out + [] == st.out;
    } else {
      var one, more := TsduPackets(tsdus[0]), Packets(tsdus[1..]);
      var len, data := Length(one), Payload(tsdus[0]);
      LengthAppend(one, more);
      assert one + more + rest == one + (more + rest);
      TsduStep(tsdus[0], more + rest, m, c, fromClient, off, st);
      assert [] + data == data;
      var frame := c.frames[off + len - 1];
      Ends(fromClient, frame, st, data);
      var next := st.(tsdu := [], out := st.out + PdusOf(data, fromClient, frame));
      TsdusThen(tsdus[1..], rest, m - len, c, fromClient, off + len, next);
      var later := Wanted(tsdus[1..], m - len, c, fromClient, off + len);
      assert st.out + PdusOf(data, fromClient, frame) + later == st.out + (PdusOf(data, fromClient, frame) + later);
    }
  }

  lemma {:induction false} JoinPacketsAppend(a: seq<Packet>, b: seq<Packet>)
    requires Tpkt.AllValid(a) && Tpkt.AllValid(b)
    ensures JoinPackets(a + b) == JoinPackets(a) + JoinPackets(b)
  {
    hide ValidPacket, PacketBytes;
    if a == [] {
      assert a + b == b && [] + JoinPackets(b) == JoinPackets(b);
    } else {
      JoinPacketsAppend(a[1..], b);
      assert (a + b)[0] == a[0] && (a + b)[1..] == a[1..] + b;
      assert PacketBytes(a[0]) + (JoinPackets(a[1..]) + JoinPackets(b))
          == PacketBytes(a[0]) + JoinPackets(a[1..]) + JoinPackets(b);
    }
  }

  lemma OnePacket(p: Packet)
    requires ValidPacket(p)
    ensures JoinPackets([p]) == PacketBytes(p)
  {
    assert JoinPackets([p]) == PacketBytes(p) + JoinPackets([]);
  }

  lemma ExpectedAtCut(tsdus: seq<seq<Fragment>>, frags: seq<Fragment>, next: Packet, c: Chunk, fromClient: bool)
    requires AllTsdus(tsdus) && (forall i :: 0 <= i < |frags| ==> ValidFragment(frags[i])) && ValidPacket(next)
    requires |c.frames| == |c.data|
    requires var n := Length(Packets(tsdus)) + Length(Unfinished(frags));
      n <= |c.data| < n + |next.tpdu| + 4
    ensures var n := Length(Packets(tsdus)) + Length(Unfinished(frags));
      Expected(Packets(tsdus) + (Unfinished(frags) + [next]), |c.data|, c, fromClient, 0, NOTHING)
      == Split(Wanted(tsdus, |c.data|, c, fromClient, 0), 0, 0,
               (if |c.data| != n then 1 else 0) + (if Payload(frags) != [] then 1 else 0))
  {
    hide Expected, Packets, Unfinished, Wanted, Payload, ValidPacket, Length, AllTsdus, ValidFragment;
    var a, b := Length(Packets(tsdus)), Length(Unfinished(frags));
    var all := Wanted(tsdus, |c.data|, c, fromClient, 0);
    TsdusThen(tsdus, Unfinished(frags) + [next], |c.data|, c, fromClient, 0, NOTHING);
    assert [] + all == all && [] + Payload(frags) == Payload(frags);
    UnfinishedThen(frags, [next], |c.data| - a, c, fromClient, a, NOTHING.(out := all));
    assert [next] + [] == [next];
    ExpectedCons(next, [], |c.data| - a - b, c, fromClient, a + b, NOTHING.(out := all, tsdu := Payload(frags)));
  }

  /** A stream that ends behind some packets of a TSDU, or inside the next one: the TSDUs before it come back, and what
      counts as dropped is the packet cut, if one is, and the TSDU begun, if it has data. */
  lemma CutShort(tsdus: seq<seq<Fragment>>, frags: seq<Fragment>, next: Packet, c: Chunk, fromClient: bool)
    requires AllTsdus(tsdus) && (forall i :: 0 <= i < |frags| ==> ValidFragment(frags[i])) && ValidPacket(next)
    requires |c.frames| == |c.data|
    requires var whole := JoinPackets(Packets(tsdus)) + JoinPackets(Unfinished(frags));
      whole <= c.data < whole + PacketBytes(next)
    ensures var r := PdusFrom(c, fromClient, 0, NOTHING);
      var whole := JoinPackets(Packets(tsdus)) + JoinPackets(Unfinished(frags));
      && r.Split? && Datas(r.out) == S7Payloads(tsdus) && r.cr == r.cc == 0
      && r.dropped == (if c.data != whole then 1 else 0) + (if Payload(frags) != [] then 1 else 0)
  {
    hide Packets, Unfinished, Wanted, PdusFrom, Expected, S7Payloads, Payload, ValidPacket, PacketBytes, JoinPackets,
         Length, AllTsdus, ValidFragment;
    var done, begun := Packets(tsdus), Unfinished(frags);
    LengthJoined(done);
    LengthJoined(begun);
    JoinPacketsAppend(begun, [next]);
    JoinPacketsAppend(done, begun + [next]);
    OnePacket(next);
    var whole := JoinPackets(done) + JoinPackets(begun);
    assert JoinPackets(done + (begun + [next])) == whole + PacketBytes(next);
    assert c.data[0..] == c.data && Begins(c.data, 0, whole + PacketBytes(next));
    PrefixParses(done + (begun + [next]), c, fromClient, 0, NOTHING);
    ExpectedAtCut(tsdus, frags, next, c, fromClient);
    WantedPayloads(tsdus, |c.data|, c, fromClient, 0);
    assert c.data != whole <==> |c.data| != |whole|;
  }

  //
  // One direction of a recorded connection.
  //

  datatype FlowResult = FlowPdus(out: seq<Pdu>, cr: nat, cc: nat, gaps: nat, dropped: nat) | FlowError(error: TpktError)

  predicate FramesFit(runs: seq<Chunk>) {
    forall i :: 0 <= i < |runs| ==> |runs[i].frames| == |runs[i].data|
  }

  function RunsFrom(runs: seq<Chunk>, fromClient: bool, i: nat, acc: FlowResult): FlowResult
    requires FramesFit(runs) && i <= |runs| && acc.FlowPdus?
    decreases |runs| - i
  {
    if i == |runs| then acc
    else
      match PdusFrom(runs[i], fromClient, 0, NOTHING)
      case Malformed(e) => FlowError(e)
      case Split(out, cr, cc, dropped) =>
        RunsFrom(runs, fromClient, i + 1,
                 FlowPdus(acc.out + out, acc.cr + cr, acc.cc + cc, acc.gaps, acc.dropped + dropped))
  }

  function FlowOf(runs: seq<Chunk>, fromClient: bool): FlowResult
    requires FramesFit(runs)
  {
    RunsFrom(runs, fromClient, 0, FlowPdus([], 0, 0, if |runs| > 0 then |runs| - 1 else 0, 0))
  }

  /** What a flow gives for no run, and for one. */
  lemma FlowOfOne(c: Chunk, fromClient: bool)
    requires |c.frames| == |c.data|
    ensures FlowOf([], fromClient) == FlowPdus([], 0, 0, 0, 0)
    ensures var split := PdusFrom(c, fromClient, 0, NOTHING);
      FlowOf([c], fromClient) == if split.Malformed? then FlowError(split.error)
                                 else FlowPdus(split.out, split.cr, split.cc, 0, split.dropped)
  {
    hide PdusFrom;
    var split := PdusFrom(c, fromClient, 0, NOTHING);
    if split.Split? {
      assert [] + split.out == split.out;
      var acc := FlowPdus([] + split.out, 0 + split.cr, 0 + split.cc, 0, 0 + split.dropped);
      assert RunsFrom([c], fromClient, 1, acc) == acc;
    }
  }

  /** The runs of a followed by those of b, but for the gaps: the first error, or one after the other and added up. */
  ghost predicate Follows(r: FlowResult, x: FlowResult, y: FlowResult) {
    && (r.FlowError? <==> x.FlowError? || y.FlowError?)
    && (x.FlowError? ==> r == x) && (x.FlowPdus? && y.FlowError? ==> r == y)
    && (r.FlowPdus? ==> r.out == x.out + y.out && r.cr == x.cr + y.cr && r.cc == x.cc + y.cc
                        && r.dropped == x.dropped + y.dropped)
  }

  lemma {:induction false} RunsFromAcc(runs: seq<Chunk>, fromClient: bool, i: nat, acc: FlowResult)
    requires FramesFit(runs) && i <= |runs| && acc.FlowPdus?
    ensures var r := RunsFrom(runs, fromClient, i, acc);
      Follows(r, acc, RunsFrom(runs, fromClient, i, FlowPdus([], 0, 0, 0, 0))) && (r.FlowPdus? ==> r.gaps == acc.gaps)
    decreases |runs| - i
  {
    hide PdusFrom;
    if i < |runs| {
      var split := PdusFrom(runs[i], fromClient, 0, NOTHING);
      if split.Split? {
        var zero := FlowPdus([], 0, 0, 0, 0);
        var both := FlowPdus(acc.out + split.out, acc.cr + split.cr, acc.cc + split.cc, acc.gaps,
                             acc.dropped + split.dropped);
        var one := FlowPdus([] + split.out, 0 + split.cr, 0 + split.cc, 0, 0 + split.dropped);
        RunsFromAcc(runs, fromClient, i + 1, both);
        RunsFromAcc(runs, fromClient, i + 1, one);
        var rest := RunsFrom(runs, fromClient, i + 1, zero);
        if rest.FlowPdus? {
          assert acc.out + split.out + rest.out == acc.out + (([] + split.out) + rest.out);
        }
      }
    } else {
      assert acc.out + [] == acc.out;
    }
  }

  lemma {:induction false} RunsFromTail(a: seq<Chunk>, b: seq<Chunk>, fromClient: bool, i: nat, acc: FlowResult)
    requires FramesFit(a) && FramesFit(b) && FramesFit(a + b) && i <= |b| && acc.FlowPdus?
    ensures RunsFrom(a + b, fromClient, |a| + i, acc) == RunsFrom(b, fromClient, i, acc)
    decreases |b| - i
  {
    hide PdusFrom;
    if i < |b| {
      assert (a + b)[|a| + i] == b[i];
      var split := PdusFrom(b[i], fromClient, 0, NOTHING);
      if split.Split? {
        RunsFromTail(a, b, fromClient, i + 1,
                     FlowPdus(acc.out + split.out, acc.cr + split.cr, acc.cc + split.cc, acc.gaps,
                              acc.dropped + split.dropped));
      }
    }
  }

  lemma {:induction false} RunsFromHead(a: seq<Chunk>, b: seq<Chunk>, fromClient: bool, i: nat, acc: FlowResult)
    requires FramesFit(a) && FramesFit(a + b) && i <= |a| && acc.FlowPdus?
    ensures var r := RunsFrom(a, fromClient, i, acc);
      RunsFrom(a + b, fromClient, i, acc) == if r.FlowError? then r else RunsFrom(a + b, fromClient, |a|, r)
    decreases |a| - i
  {
    hide PdusFrom;
    if i < |a| {
      assert (a + b)[i] == a[i];
      var split := PdusFrom(a[i], fromClient, 0, NOTHING);
      if split.Split? {
        RunsFromHead(a, b, fromClient, i + 1,
                     FlowPdus(acc.out + split.out, acc.cr + split.cr, acc.cc + split.cc, acc.gaps,
                              acc.dropped + split.dropped));
      }
    }
  }

  const NONE_YET := FlowPdus([], 0, 0, 0, 0)

  lemma RunsAppend(a: seq<Chunk>, b: seq<Chunk>, fromClient: bool)
    requires FramesFit(a) && FramesFit(b) && FramesFit(a + b)
    ensures Follows(RunsFrom(a + b, fromClient, 0, NONE_YET), RunsFrom(a, fromClient, 0, NONE_YET),
                    RunsFrom(b, fromClient, 0, NONE_YET))
  {
    hide RunsFrom, PdusFrom;
    RunsFromHead(a, b, fromClient, 0, NONE_YET);
    var ra := RunsFrom(a, fromClient, 0, NONE_YET);
    if ra.FlowPdus? {
      RunsFromTail(a, b, fromClient, 0, ra);
      RunsFromAcc(b, fromClient, 0, ra);
    }
  }

  lemma FlowIsRuns(runs: seq<Chunk>, fromClient: bool)
    requires FramesFit(runs)
    ensures var r, z := FlowOf(runs, fromClient), RunsFrom(runs, fromClient, 0, NONE_YET);
      if z.FlowError? then r == z else r == z.(gaps := if runs == [] then 0 else |runs| - 1)
  {
    hide RunsFrom, PdusFrom;
    var z := RunsFrom(runs, fromClient, 0, NONE_YET);
    RunsFromAcc(runs, fromClient, 0, FlowPdus([], 0, 0, if |runs| > 0 then |runs| - 1 else 0, 0));
    if z.FlowPdus? {
      assert [] + z.out == z.out;
    }
  }

  /** Reading a flow with any number of gaps: an error exactly when some run has one, and then the first run's;
      otherwise the PDUs of the runs one after the other, their counts added up, and a gap between every two. */
  lemma FlowAppend(a: seq<Chunk>, b: seq<Chunk>, fromClient: bool)
    requires FramesFit(a) && FramesFit(b)
    ensures FramesFit(a + b)
    ensures var r := FlowOf(a + b, fromClient);
      && Follows(r, FlowOf(a, fromClient), FlowOf(b, fromClient))
      && (r.FlowPdus? ==> r.gaps == if a + b == [] then 0 else |a| + |b| - 1)
  {
    hide RunsFrom, PdusFrom, FlowOf;
    RunsAppend(a, b, fromClient);
    FlowIsRuns(a, fromClient);
    FlowIsRuns(b, fromClient);
    FlowIsRuns(a + b, fromClient);
  }

  lemma {:induction false} AssembleFits(segs: seq<Segment>, base: u32, i: nat, out: seq<Chunk>, next: int)
    requires i <= |segs| && out != [] && FramesFit(out)
    ensures FramesFit(Assemble(segs, base, i, out, next))
    decreases |segs| - i
  {
    hide Offset;
    if i < |segs| {
      var (out', next') := Deliver(segs[i], base, out, next);
      AssembleFits(segs, base, i + 1, out', next');
    }
  }

  lemma StreamedFits(flow: Flow)
    ensures FramesFit(Streamed(flow))
  {
    hide Sort, Assemble;
    if flow.segs != [] {
      AssembleFits(Sort(flow.segs, Base(flow)), Base(flow), 0, [Chunk([], [])], 0);
    }
  }

  method ReadFlow(flow: Flow, fromClient: bool) returns (r: FlowResult)
    ensures FramesFit(Streamed(flow)) && r == FlowOf(Streamed(flow), fromClient)
  {
    hide PdusFrom, Streamed;
    var runs := Reassemble(flow);
    StreamedFits(flow);
    var gaps := if |runs| > 0 then |runs| - 1 else 0;
    var out: seq<Pdu>, cr, cc, dropped := [], 0, 0, 0;
    for i := 0 to |runs|
      invariant cr >= 0 && cc >= 0 && dropped >= 0
      invariant FlowOf(runs, fromClient) == RunsFrom(runs, fromClient, i, FlowPdus(out, cr, cc, gaps, dropped))
    {
      var split := Pdus(runs[i], fromClient);
      if split.Malformed? {
        return FlowError(split.error);
      }
      out, cr, cc, dropped := out + split.out, cr + split.cr, cc + split.cc, dropped + split.dropped;
    }
    return FlowPdus(out, cr, cc, gaps, dropped);
  }

  lemma OneSeparate(data: bytes)
    ensures Separate([Chunk(data, [])], [0])
  {
  }

  lemma OneInRun(data: bytes, o: int)
    ensures InSomeRun([Chunk(data, [])], [0], o) <==> 0 <= o < |data|
  {
    if 0 <= o < |data| {
      assert InRun([Chunk(data, [])], [0], 0, o);
    }
  }

  lemma OneRun(flow: Flow, stream: int -> byte, data: bytes)
    requires flow.segs != []
    requires forall i :: 0 <= i < |flow.segs| ==> Agrees(flow.segs[i], Base(flow), stream)
    requires forall o :: 0 <= o < |data| ==> data[o] == stream(o)
    requires forall o :: o >= 0 ==> (Covered(flow.segs, Base(flow), o) <==> o < |data|)
    ensures |Streamed(flow)| == 1 && Streamed(flow)[0].data == data
  {
    hide Agrees, Covered, Streamed, Base, InSomeRun, Separate, FrameCarries;
    var starts := StreamIsRuns(flow, stream);
    var out := Streamed(flow);
    var whole := [Chunk(data, [])];
    SeparateLengths(out, starts);
    assert Separate(whole, [0]) by { OneSeparate(data); }
    forall o | o >= 0 ensures InSomeRun(whole, [0], o) <==> InSomeRun(out, starts, o) {
      OneInRun(data, o);
      assert Covered(flow.segs, Base(flow), o) <==> o < |data|;
    }
    RunsUniqueUpTo(whole, [0], out, starts, 0);
    RunsUniqueUpTo(out, starts, whole, [0], |out| - 1);
    assert out[0].data == data;
  }

  /** From TSDUs to recorded segments and back: however the packet stream was cut into segments, and in whatever order
      and however often they were recorded, when together they carry all of it and nothing beyond, the capture reader
      gives back exactly the S7 TSDUs, in order, with no gap and nothing dropped. */
  lemma RecordedTsdus(flow: Flow, fromClient: bool, stream: int -> byte, tsdus: seq<seq<Fragment>>)
    requires flow.segs != [] && AllTsdus(tsdus)
    requires forall i :: 0 <= i < |flow.segs| ==> Agrees(flow.segs[i], Base(flow), stream)
    requires var data := JoinPackets(Packets(tsdus));
      && (forall o :: 0 <= o < |data| ==> data[o] == stream(o))
      && (forall o :: o >= 0 ==> (Covered(flow.segs, Base(flow), o) <==> o < |data|))
    ensures FramesFit(Streamed(flow))
    ensures var r := FlowOf(Streamed(flow), fromClient);
      r.FlowPdus? && Datas(r.out) == S7Payloads(tsdus) && r.gaps == 0 && r.dropped == 0
  {
    hide Agrees, Covered, Streamed, Base, Packets, S7Payloads, PdusFrom, Wanted, JoinPackets, AllTsdus;
    StreamedFits(flow);
    OneRun(flow, stream, JoinPackets(Packets(tsdus)));
    var runs := Streamed(flow);
    CutAndJoin(tsdus, runs[0], fromClient);
    var split := PdusFrom(runs[0], fromClient, 0, NOTHING);
    assert [] + split.out == split.out;
    assert RunsFrom(runs, fromClient, 1, FlowPdus([] + split.out, 0 + split.cr, 0 + split.cc, 0, 0 + split.dropped))
        == FlowPdus(split.out, split.cr, split.cc, 0, split.dropped);
  }
}
