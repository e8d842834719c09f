/** Splitting a reassembled run into TPKT packets (RFC 1006) and joining COTP DT TPDUs into S7 PDUs. */
module Tpkt {
  import opened Octets
  import opened Stream

  const TPKT_VERSION: byte := 3

  datatype Pdu = Pdu(fromClient: bool, frame: int, data: bytes)

  datatype TpktError = BadVersion | BadLength | BadIndicator | BadDtIndicator

  /** PDUs, connect requests and confirms, and what was lost at the end of the run; or why it is no TPKT stream. */
  datatype Split = Split(out: seq<Pdu>, cr: nat, cc: nat, dropped: nat) | Malformed(error: TpktError)

  /** The TSDU being joined and what was found before it. */
  datatype Joined = Joined(tsdu: bytes, out: seq<Pdu>, cr: nat, cc: nat)

  const NOTHING := Joined([], [], 0, 0)

  /** The end of a TSDU: only those that begin with the S7 protocol ID are PDUs. */
  function EndTsdu(fromClient: bool, frame: int, st: Joined): Joined {
    st.(tsdu := [],
        out := if st.tsdu != [] && st.tsdu[0] == 0x32 then st.out + [Pdu(fromClient, frame, st.tsdu)] else st.out)
  }

  predicate IsDt(tpdu: bytes)
    requires |tpdu| >= 3
  {
    tpdu[1] / 0x10 == 0xF
  }

  /** A TPDU whose length indicator fits. */
  predicate ValidTpdu(tpdu: bytes) {
    |tpdu| >= 3 && 1 <= tpdu[0] && (tpdu[0] as int) + 1 <= |tpdu| && (IsDt(tpdu) ==> tpdu[0] >= 2)
  }

  function Take(tpdu: bytes, fromClient: bool, frame: int, st: Joined): Joined
    requires ValidTpdu(tpdu)
  {
    if tpdu[1] / 0x10 == 0xE then st.(cr := st.cr + 1)
    else if tpdu[1] / 0x10 == 0xD then st.(cc := st.cc + 1)
    else if IsDt(tpdu) then
      var longer := st.(tsdu := st.tsdu + tpdu[(tpdu[0] as int) + 1..]);
      if tpdu[2] >= 0x80 then EndTsdu(fromClient, frame, longer) else longer
    else st
  }

  function Ended(st: Joined, cut: bool): Split {
    Split(st.out, st.cr, st.cc, (if cut then 1 else 0) + (if st.tsdu != [] then 1 else 0))
  }

  function PdusFrom(c: Chunk, fromClient: bool, off: nat, st: Joined): Split
    requires |c.frames| == |c.data| && off <= |c.data|
    decreases |c.data| - off
  {
    if off == |c.data| then Ended(st, false)
    else if |c.data| - off < 4 || U16(c.data, off + 2) > |c.data| - off then Ended(st, true)
    else if c.data[off] != TPKT_VERSION then Malformed(BadVersion)
    else
      var n := U16(c.data, off + 2);
      if n < 7 then Malformed(BadLength)
      else
        var tpdu := c.data[off + 4..off + n];
        if (tpdu[0] as int) + 1 > |tpdu| || tpdu[0] < 1 then Malformed(BadIndicator)
        else if !ValidTpdu(tpdu) then Malformed(BadDtIndicator)
        else PdusFrom(c, fromClient, off + n, Take(tpdu, fromClient, c.frames[off + n - 1], st))
  }

  /** What happens at a packet that is there as a whole, by the numbers in it: version 3, a length of at least 7, a
      length indicator that fits the TPDU, and at least 2 in a DT TPDU; the first of these that fails is the error. */
  lemma PacketExact(c: Chunk, fromClient: bool, off: nat, st: Joined)
    requires |c.frames| == |c.data| && off + 4 <= |c.data|
    requires off + (c.data[off + 2] as int) * 0x100 + c.data[off + 3] <= |c.data|
    ensures var r, n := PdusFrom(c, fromClient, off, st), (c.data[off + 2] as int) * 0x100 + c.data[off + 3];
      if c.data[off] != 3 then r == Malformed(BadVersion)
      else if n < 7 then r == Malformed(BadLength)
      else if c.data[off + 4] == 0 || c.data[off + 4] + 5 > n then r == Malformed(BadIndicator)
      else if c.data[off + 5] >= 0xF0 && c.data[off + 4] < 2 then r == Malformed(BadDtIndicator)
      else var tpdu := c.data[off + 4..off + n];
           ValidTpdu(tpdu)
           && r == PdusFrom(c, fromClient, off + n, Take(tpdu, fromClient, c.frames[off + n - 1], st))
  {
    hide Take;
    var n := U16(c.data, off + 2);
    if n >= 7 {
      var tpdu := c.data[off + 4..off + n];
      assert tpdu[0] == c.data[off + 4] && tpdu[1] == c.data[off + 5];
    }
  }

  /** TPDU code 0xE counts as a connect request, 0xD as a confirm, 0xF carries data, and any other changes nothing. A DT
      TPDU's data are what is behind its header, and the bit 0x80 of its third byte ends the TSDU. */
  lemma TakeExact(tpdu: bytes, fromClient: bool, frame: int, st: Joined)
    requires ValidTpdu(tpdu)
    ensures var r, data := Take(tpdu, fromClient, frame, st), st.tsdu + tpdu[tpdu[0] + 1..];
      && (tpdu[1] / 0x10 == 0xE ==> r == st.(cr := st.cr + 1))
      && (tpdu[1] / 0x10 == 0xD ==> r == st.(cc := st.cc + 1))
      && (tpdu[1] / 0x10 < 0xD ==> r == st)
      && (tpdu[1] / 0x10 == 0xF ==>
            && r.cr == st.cr && r.cc == st.cc && r.tsdu == (if tpdu[2] / 0x80 == 1 then [] else data)
            && r.out == if tpdu[2] / 0x80 == 1 && data != [] && data[0] == 0x32
                        then st.out + [Pdu(fromClient, frame, data)] else st.out)
  {
  }

  method Pdus(c: Chunk, fromClient: bool) returns (r: Split)
    requires |c.frames| == |c.data|
    ensures r == PdusFrom(c, fromClient, 0, NOTHING)
  {
    hide U16, EndTsdu;
    var tsdu: bytes, out: seq<Pdu>, cr, cc := [], [], 0, 0;
    var off := 0;
    while off < |c.data|
      invariant 0 <= off <= |c.data| && cr >= 0 && cc >= 0
      invariant PdusFrom(c, fromClient, 0, NOTHING) == PdusFrom(c, fromClient, off, Joined(tsdu, out, cr, cc))
      decreases |c.data| - off
    {
      if |c.data| - off < 4 || U16(c.data, off + 2) > |c.data| - off {
        var dropped := 1;
        if |tsdu| > 0 {
          dropped := dropped + 1;
        }
        return Split(out, cr, cc, dropped);
      }
      if c.data[off] != TPKT_VERSION {
        return Malformed(BadVersion);
      }
      var n := U16(c.data, off + 2);
      if n < 7 {
        return Malformed(BadLength);
      }
      var tpdu := c.data[off + 4..off + n];
      if (tpdu[0] as int) + 1 > |tpdu| || tpdu[0] < 1 {
        return Malformed(BadIndicator);
      }
      if IsDt(tpdu) && tpdu[0] < 2 {
        return Malformed(BadDtIndicator);
      }
      var st := Take(tpdu, fromClient, c.frames[off + n - 1], Joined(tsdu, out, cr, cc));
      tsdu, out, cr, cc := st.tsdu, st.out, st.cr, st.cc;
      off := off + n;
    }
    return Split(out, cr, cc, if |tsdu| > 0 then 1 else 0);
  }

  //
  // The sending side: TPKT packets around TPDUs.
  //

  datatype Packet = Packet(reserved: byte, tpdu: bytes)

  predicate ValidPacket(p: Packet) {
    ValidTpdu(p.tpdu) && |p.tpdu| + 4 < 0x1_0000
  }

  predicate AllValid(packets: seq<Packet>) {
    forall i :: 0 <= i < |packets| ==> ValidPacket(packets[i])
  }

  function PacketBytes(p: Packet): (r: bytes)
    requires ValidPacket(p)
    ensures |r| == |p.tpdu| + 4
  {
    [TPKT_VERSION, p.reserved] + PutU16(|p.tpdu| + 4) + p.tpdu
  }

  function JoinPackets(packets: seq<Packet>): bytes
    requires AllValid(packets)
  {
    if packets == [] then [] else PacketBytes(packets[0]) + JoinPackets(packets[1..])
  }

  /** What the first m bytes of a stream of packets should give: the whole packets in them, one after the other; a
      packet cut short is lost, and so is the TSDU that was being joined. */
  function Expected(packets: seq<Packet>, m: nat, c: Chunk, fromClient: bool, off: nat, st: Joined): Split
    requires AllValid(packets) && |c.frames| == |c.data| && off + m == |c.data|
    decreases |packets|
  {
    if m == 0 then Ended(st, false)
    else if packets == [] || |packets[0].tpdu| + 4 > m then Ended(st, true)
    else
      var n := |packets[0].tpdu| + 4;
      Expected(packets[1..], m - n, c, fromClient, off + n,
               Take(packets[0].tpdu, fromClient, c.frames[off + n - 1], st))
  }

  /** From an offset on, the data are the beginning of the stream s. */
  ghost predicate Begins(data: bytes, off: nat, s: bytes) {
    off <= |data| && |data| - off <= |s| && data[off..] == s[..|data| - off]
  }

  lemma BeginsAt(data: bytes, off: nat, s: bytes, j: nat)
    requires Begins(data, off, s) && off + j < |data|
    ensures data[off + j] == s[j]
  {
    assert data[off..][j] == data[off + j];
  }

  lemma BeginsBehind(data: bytes, off: nat, a: bytes, b: bytes)
    requires Begins(data, off, a + b) && |a| <= |data| - off
    ensures data[off..off + |a|] == a && Begins(data, off + |a|, b)
  {
    var m := |data| - off;
    assert data[off..off + |a|] == data[off..][..|a|] == (a + b)[..m][..|a|] == a;
    assert data[off + |a|..] == data[off..][|a|..] == (a + b)[..m][|a|..] == b[..m - |a|];
  }

  lemma PacketHeader(p: Packet, rest: bytes)
    requires ValidPacket(p)
    ensures var s := PacketBytes(p) + rest;
      s[0] == TPKT_VERSION && (s[2] as int) * 0x100 + s[3] == |p.tpdu| + 4
  {
    hide ValidTpdu;
    var n := |p.tpdu| + 4;
    assert PutU16(n) == [n / 0x100, n % 0x100];
  }

  lemma PacketBody(p: Packet)
    requires ValidPacket(p)
    ensures PacketBytes(p)[4..] == p.tpdu
  {
    hide ValidTpdu;
  }

  lemma FirstHeader(data: bytes, off: nat, p: Packet, rest: bytes)
    requires ValidPacket(p) && Begins(data, off, PacketBytes(p) + rest) && |data| - off >= 4
    ensures U16(data, off + 2) == |p.tpdu| + 4 && data[off] == TPKT_VERSION
  {
    hide Begins, PacketBytes, ValidPacket;
    var s := PacketBytes(p) + rest;
    PacketHeader(p, rest);
    BeginsAt(data, off, s, 0);
    BeginsAt(data, off, s, 2);
    BeginsAt(data, off, s, 3);
  }

  lemma FirstBody(data: bytes, off: nat, p: Packet, rest: bytes)
    requires ValidPacket(p) && Begins(data, off, PacketBytes(p) + rest) && |data| - off >= |p.tpdu| + 4
    ensures var n := |p.tpdu| + 4;
      data[off + 4..off + n] == p.tpdu && Begins(data, off + n, rest)
  {
    hide Begins, PacketBytes, ValidPacket;
    var n := |p.tpdu| + 4;
    PacketBody(p);
    BeginsBehind(data, off, PacketBytes(p), rest);
    assert data[off + 4..off + n] == data[off..off + n][4..];
  }

  lemma FirstPacket(data: bytes, off: nat, packets: seq<Packet>)
    requires AllValid(packets) && packets != [] && Begins(data, off, JoinPackets(packets))
    ensures var n := |packets[0].tpdu| + 4;
      && (|data| - off >= 4 ==> U16(data, off + 2) == n && data[off] == TPKT_VERSION)
      && (|data| - off >= n ==>
            data[off + 4..off + n] == packets[0].tpdu && Begins(data, off + n, JoinPackets(packets[1..])))
  {
    hide Begins, PacketBytes, ValidPacket, U16;
    if |data| - off >= 4 {
      FirstHeader(data, off, packets[0], JoinPackets(packets[1..]));
    }
    if |data| - off >= |packets[0].tpdu| + 4 {
      FirstBody(data, off, packets[0], JoinPackets(packets[1..]));
    }
  }

  lemma NoPackets()
    ensures JoinPackets([]) == []
  {
  }

  lemma TpduLong(tpdu: bytes)
    requires ValidTpdu(tpdu)
    ensures |tpdu| >= 3 && 1 <= tpdu[0] && (tpdu[0] as int) + 1 <= |tpdu|
  {
  }

  lemma AtTheEnd(c: Chunk, fromClient: bool, st: Joined)
    requires |c.frames| == |c.data|
    ensures PdusFrom(c, fromClient, |c.data|, st) == Ended(st, false)
  {
  }

  lemma AtACutPacket(c: Chunk, fromClient: bool, off: nat, st: Joined)
    requires |c.frames| == |c.data| && off < |c.data|
    requires |c.data| - off < 4 || U16(c.data, off + 2) > |c.data| - off
    ensures PdusFrom(c, fromClient, off, st) == Ended(st, true)
  {
  }

  lemma AtAWholePacket(c: Chunk, fromClient: bool, off: nat, st: Joined, tpdu: bytes)
    requires |c.frames| == |c.data| && off + |tpdu| + 4 <= |c.data| && ValidTpdu(tpdu)
    requires U16(c.data, off + 2) == |tpdu| + 4 && c.data[off] == TPKT_VERSION
    requires c.data[off + 4..off + |tpdu| + 4] == tpdu
    ensures var n := |tpdu| + 4;
      PdusFrom(c, fromClient, off, st)
      == PdusFrom(c, fromClient, off + n, Take(tpdu, fromClient, c.frames[off + n - 1], st))
  {
    hide U16, Take, ValidTpdu;
    TpduLong(tpdu);
  }

  /** On any prefix of a stream of packets the parser gives exactly what that prefix should give, and never an error. */
  lemma {:induction false} PrefixParses(packets: seq<Packet>, c: Chunk, fromClient: bool, off: nat, st: Joined)
    requires AllValid(packets) && |c.frames| == |c.data| && off <= |c.data|
    requires Begins(c.data, off, JoinPackets(packets))
    ensures PdusFrom(c, fromClient, off, st) == Expected(packets, |c.data| - off, c, fromClient, off, st)
    decreases |packets|
  {
    hide U16, Take, ValidTpdu, JoinPackets, Ended, PdusFrom;
    NoPackets();
    if off == |c.data| {
      AtTheEnd(c, fromClient, st);
    } else if packets != [] {
      FirstPacket(c.data, off, packets);
      var n := |packets[0].tpdu| + 4;
      assert ValidPacket(packets[0]);
      if |c.data| - off >= n {
        AtAWholePacket(c, fromClient, off, st, packets[0].tpdu);
        var next := Take(packets[0].tpdu, fromClient, c.frames[off + n - 1], st);
        PrefixParses(packets[1..], c, fromClient, off + n, next);
      } else {
        AtACutPacket(c, fromClient, off, st);
      }
    }
  }

  /** How many TPDUs of a code there are. */
  function Count(packets: seq<Packet>, code: byte): nat
    requires AllValid(packets)
  {
    if packets == [] then 0
    else (if packets[0].tpdu[1] / 0x10 == code then 1 else 0) + Count(packets[1..], code)
  }

  lemma EndKeepsCounts(fromClient: bool, frame: int, st: Joined)
    ensures EndTsdu(fromClient, frame, st).cr == st.cr && EndTsdu(fromClient, frame, st).cc == st.cc
  {
  }

  lemma {:induction false} ExpectedConnects(packets: seq<Packet>, m: nat, c: Chunk, fromClient: bool, off: nat,
                                            st: Joined)
    requires AllValid(packets) && |c.frames| == |c.data| && off + m == |c.data| && m == |JoinPackets(packets)|
    ensures var r := Expected(packets, m, c, fromClient, off, st);
      r.Split? && r.cr == st.cr + Count(packets, 0xE) && r.cc == st.cc + Count(packets, 0xD)
    decreases |packets|
  {
    hide EndTsdu, ValidTpdu;
    if packets != [] {
      assert ValidPacket(packets[0]);
      TpduLong(packets[0].tpdu);
      var n := |packets[0].tpdu| + 4;
      var next := Take(packets[0].tpdu, fromClient, c.frames[off + n - 1], st);
      EndKeepsCounts(fromClient, c.frames[off + n - 1],
                     st.(tsdu := st.tsdu + packets[0].tpdu[(packets[0].tpdu[0] as int) + 1..]));
      ExpectedConnects(packets[1..], m - n, c, fromClient, off + n, next);
    }
  }

  /** On a whole stream of packets of any kind, connect requests and confirms are counted as many as there are. */
  lemma ConnectsCounted(packets: seq<Packet>, c: Chunk, fromClient: bool)
    requires AllValid(packets) && |c.frames| == |c.data| && c.data == JoinPackets(packets)
    ensures var r := PdusFrom(c, fromClient, 0, NOTHING);
      r.Split? && r.cr == Count(packets, 0xE) && r.cc == Count(packets, 0xD)
  {
    hide PdusFrom, Expected, JoinPackets;
    assert c.data[0..] == c.data;
    PrefixParses(packets, c, fromClient, 0, NOTHING);
    ExpectedConnects(packets, |c.data|, c, fromClient, 0, NOTHING);
  }
}
