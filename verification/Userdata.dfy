/** Multi-packet user data responses and SZL lists. */
module Userdata {
  import opened Octets
  import opened Message
  import opened Client

  const MAX_FOLLOW_UPS := 256
  const GROUP_CPU: byte := 0x04
  const READ_SZL: byte := 0x01

  datatype Param = Param(group: byte, subfunction: byte, sequence: byte, more: bool, errorCode: u16)

  function ParseParam(param: bytes): Option<Param> {
    if |param| < 12 || param[0] != 0x00 || param[1] != 0x01 || param[2] != 0x12 || param[3] != 0x08 then None
    else Some(Param(param[5] % 0x10, param[6], param[7], param[9] != 0x00, U16(param, 10)))
  }

  /** The payload of a data section; None when it is refused or cut short. */
  function ParseData(data: bytes): Option<bytes> {
    if |data| < 4 || data[0] != RET_SUCCESS || 4 + U16(data, 2) > |data| then None
    else Some(data[4..4 + U16(data, 2)])
  }

  /** Asks for the packet behind the one with this sequence number. */
  function FollowUp(pduRef: u16, group: byte, subfunc: byte, sequence: byte): bytes {
    EncodeMessage(ROSCTR_USERDATA, pduRef,
                  [0x00, 0x01, 0x12, 0x08, 0x12, 0x40 + group % 0x10, subfunc, sequence, 0x00, 0x00, 0x00, 0x00],
                  [RET_NOT_AVAILABLE, 0x00, 0x00, 0x00]).value
  }

  /** Collected holds the first data section and all payloads joined; TooLong is a response that never ends. */
  datatype Outcome = Collected(first: bytes, payload: bytes) | Failed | TooLong | Crash

  datatype PacketResult = Packet(up: Param, data: bytes, payload: bytes) | PacketFailed | PacketCrash

  function Ask(peer: Peer, line: Line, sent: seq<bytes>, req: bytes, ref: u16): (seq<bytes>, PacketResult) {
    var (sent', ex) := SendReceive(peer, line, sent, req, ref);
    (sent',
     match ex
     case Crashed => PacketCrash
     case Broken(_) => PacketFailed
     case Sections(param, data) =>
       match (ParseParam(param), ParseData(data))
       case (Some(up), Some(payload)) => Packet(up, data, payload)
       case _ => PacketFailed)
  }

  function CollectFrom(peer: Peer, line: Line, net: Net, group: byte, subfunc: byte, up: Param, first: bytes,
                       payload: bytes, n: nat): (Net, Outcome)
    requires n <= MAX_FOLLOW_UPS
    decreases MAX_FOLLOW_UPS - n
  {
    if !up.more then (net, Collected(first, payload))
    else if n == MAX_FOLLOW_UPS then (net, TooLong)
    else
      var (counter, ref) := NextRef(net.counter);
      var (sent, p) := Ask(peer, line, net.sent, FollowUp(ref, group, subfunc, up.sequence), ref);
      match p
      case PacketCrash => (Net(sent, counter), Crash)
      case PacketFailed => (Net(sent, counter), Failed)
      case Packet(up', _, more) =>
        CollectFrom(peer, line, Net(sent, counter), group, subfunc, up', first, payload + more, n + 1)
  }

  function Collect(peer: Peer, line: Line, net: Net, req: bytes, ref: u16, group: byte, subfunc: byte): (Net, Outcome) {
    var (sent, p) := Ask(peer, line, net.sent, req, ref);
    match p
    case PacketCrash => (Net(sent, net.counter), Crash)
    case PacketFailed => (Net(sent, net.counter), Failed)
    case Packet(up, data, payload) =>
      CollectFrom(peer, line, Net(sent, net.counter), group, subfunc, up, data, payload, 0)
  }

  method AskPacket(c: S7Client, req: bytes, ref: u16) returns (p: PacketResult)
    modifies c`sent
    ensures (c.sent, p) == Ask(c.peer, c.line, old(c.sent), req, ref)
  {
    hide SendReceive;
    var ex := c.Exchange(req, ref);
    if ex.Crashed? {
      return PacketCrash;
    }
    if ex.Broken? {
      return PacketFailed;
    }
    var up, payload := ParseParam(ex.param), ParseData(ex.data);
    if up.None? || payload.None? {
      return PacketFailed;
    }
    return Packet(up.value, ex.data, payload.value);
  }

  method CollectUserdata(c: S7Client, req: bytes, ref: u16, group: byte, subfunc: byte) returns (r: Outcome)
    modifies c`sent, c`counter
    ensures (c.Now(), r) == Collect(c.peer, c.line, old(c.Now()), req, ref, group, subfunc)
  {
    hide Ask, FollowUp, NextRef;
    var p := AskPacket(c, req, ref);
    if p.PacketCrash? {
      return Crash;
    }
    if p.PacketFailed? {
      return Failed;
    }
    var first, payload, up, n := p.data, p.payload, p.up, 0;
    while up.more
      invariant 0 <= n <= MAX_FOLLOW_UPS
      invariant Collect(c.peer, c.line, old(c.Now()), req, ref, group, subfunc)
             == CollectFrom(c.peer, c.line, c.Now(), group, subfunc, up, first, payload, n)
      decreases MAX_FOLLOW_UPS - n, up.more
    {
      if n == MAX_FOLLOW_UPS {
        return TooLong;
      }
      var nextRef := c.NextPduRef();
      var next := AskPacket(c, FollowUp(nextRef, group, subfunc, up.sequence), nextRef);
      if next.PacketCrash? {
        return Crash;
      }
      if next.PacketFailed? {
        return Failed;
      }
      up, payload, n := next.up, payload + next.payload, n + 1;
    }
    return Collected(first, payload);
  }

  //
  // SZL lists.
  //

  function SzlRequest(pduRef: u16, id: u16, index: u16): bytes {
    EncodeMessage(ROSCTR_USERDATA, pduRef, [0x00, 0x01, 0x12, 0x04, 0x11, 0x40 + GROUP_CPU, READ_SZL, 0x00],
                  [RET_SUCCESS, 0x09] + PutU16(4) + PutU16(id) + PutU16(index)).value
  }

  /** ID and index in the first packet; None when it is refused or too short to hold them. */
  function ParseSzl(data: bytes): Option<(u16, u16)> {
    if |data| > 0 && data[0] != RET_SUCCESS then None
    else if |data| < 8 then None
    else if 4 + U16(data, 2) < 8 || 4 + U16(data, 2) > |data| then None
    else Some((U16(data, 4), U16(data, 6)))
  }

  datatype SzlResult = Szl(id: u16, index: u16, list: bytes) | SzlFailed(why: Outcome) | SzlMalformed | SzlCrash

  function ReadSzl(peer: Peer, line: Line, net: Net, id: u16, index: u16): (Net, SzlResult) {
    var (counter, ref) := NextRef(net.counter);
    var (net', r) := Collect(peer, line, Net(net.sent, counter), SzlRequest(ref, id, index), ref, GROUP_CPU, READ_SZL);
    (net',
     match r
     case Crash => SzlCrash
     case Collected(first, payload) =>
       (match ParseSzl(first)
        case None => SzlMalformed
        case Some((id', index')) => if |payload| < 4 then SzlCrash else Szl(id', index', payload[4..]))
     case _ => SzlFailed(r))
  }

  method ReadSzlList(c: S7Client, id: u16, index: u16) returns (r: SzlResult)
    modifies c`sent, c`counter
    ensures (c.Now(), r) == ReadSzl(c.peer, c.line, old(c.Now()), id, index)
  {
    hide Collect, NextRef, SzlRequest, ParseSzl;
    var ref := c.NextPduRef();
    var collected := CollectUserdata(c, SzlRequest(ref, id, index), ref, GROUP_CPU, READ_SZL);
    match collected {
      case Crash => return SzlCrash;
      case Collected(first, payload) =>
        var parsed := ParseSzl(first);
        if parsed.None? {
          return SzlMalformed;
        }
        if |payload| < 4 {
          return SzlCrash;
        }
        return Szl(parsed.value.0, parsed.value.1, payload[4..]);
      case _ => return SzlFailed(collected);
    }
  }

  /** Splits list data into its records; None for no list header or a record length of 0. Record i is the i-th slice of
      the record length behind the header, and there are as many as announced or, if fewer, as arrived whole. */
  method SzlRecords(data: bytes) returns (r: Option<seq<bytes>>)
    ensures r.None? <==> |data| < 4 || U16(data, 0) == 0
    ensures r.Some? ==>
      var size, n := U16(data, 0), |r.value|;
      && n <= U16(data, 2) && 4 + n * size <= |data|
      && (n < U16(data, 2) ==> 4 + n * size + size > |data|)
      && forall i :: 0 <= i < n ==>
           0 <= 4 + i * size <= 4 + i * size + size <= |data| && r.value[i] == data[4 + i * size..4 + i * size + size]
  {
    hide U16;
    if |data| < 4 {
      return None;
    }
    var size: nat, count: nat := U16(data, 0), U16(data, 2);
    if size == 0 {
      return None;
    }
    var recs: seq<bytes> := [];
    var off := 4;
    while |recs| < count && off + size <= |data|
      invariant |recs| <= count && off == 4 + |recs| * size <= |data|
      invariant forall i :: 0 <= i < |recs| ==>
        0 <= 4 + i * size <= 4 + i * size + size <= |data| && recs[i] == data[4 + i * size..4 + i * size + size]
    {
      assert (|recs| + 1) * size == |recs| * size + size;
      recs := recs + [data[off..off + size]];
      off := off + size;
    }
    return Some(recs);
  }
}
