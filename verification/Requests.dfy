/** The client's Read Var and Write Var requests, and what the server decodes of them. */
module Requests {
  import opened Octets
  import opened Message
  import opened VarSpecs
  import opened WriteData

  const TRANSPORT_BIT: byte := 0x01
  const TRANSPORT_BYTE: byte := 0x02

  const MAX_DB := 0xFFFF
  const MAX_BYTE_OFFSET := 0x1F_FFFF // the last byte a 24-bit bit address reaches
  const MAX_COUNT := 0xFFFF
  const MAX_ITEMS := 0xFF

  /** A byte range: `size` bytes from byte `start`. */
  datatype S7AnyAddress = S7AnyAddress(area: byte, db: int, start: int, size: int)

  /** One bit. */
  datatype S7AnyBitAddress = S7AnyBitAddress(area: byte, db: int, byteOffset: int, bitOffset: int)

  predicate InRange(addr: S7AnyAddress) {
    0 <= addr.db <= MAX_DB && 0 <= addr.start <= MAX_BYTE_OFFSET && 0 <= addr.size <= MAX_COUNT
  }

  predicate BitInRange(addr: S7AnyBitAddress) {
    0 <= addr.db <= MAX_DB && 0 <= addr.byteOffset <= MAX_BYTE_OFFSET && 0 <= addr.bitOffset <= 7
  }

  /** The ranges of the fields: data block and count 16 bits, the start 21 bits of bytes, the bit 0 to 7. */
  lemma FieldRanges(addr: S7AnyAddress, bit: S7AnyBitAddress)
    ensures InRange(addr) <==> 0 <= addr.db < 65536 && 0 <= addr.start < 2097152 && 0 <= addr.size < 65536
    ensures BitInRange(bit) <==> 0 <= bit.db < 65536 && 0 <= bit.byteOffset < 2097152 && 0 <= bit.bitOffset < 8
  {
  }

  /** The item specification an address stands for. */
  function AddressSpec(addr: S7AnyAddress): VarSpec
    requires InRange(addr)
  {
    VarSpec(SYNTAX_S7ANY, TRANSPORT_BYTE, addr.size, addr.db, addr.area, addr.start * 8)
  }

  function BitAddressSpec(addr: S7AnyBitAddress): VarSpec
    requires BitInRange(addr)
  {
    VarSpec(SYNTAX_S7ANY, TRANSPORT_BIT, 1, addr.db, addr.area, addr.byteOffset * 8 + addr.bitOffset)
  }

  function PutS7Any(transport: byte, count: u16, db: u16, area: byte, startBit: u24): bytes {
    [SPEC_TYPE, 0x0A, SYNTAX_S7ANY, transport, count / 0x100, count % 0x100, db / 0x100, db % 0x100,
     area, startBit / 0x1_0000, startBit / 0x100 % 0x100, startBit % 0x100]
  }

  /** The 12-byte item of an address; None when a field does not fit. */
  function EncodeS7Any(addr: S7AnyAddress): Option<bytes> {
    if InRange(addr) then Some(PutS7Any(TRANSPORT_BYTE, addr.size, addr.db, addr.area, addr.start * 8))
    else None
  }

  function EncodeS7AnyBit(addr: S7AnyBitAddress): Option<bytes> {
    if BitInRange(addr) then
      Some(PutS7Any(TRANSPORT_BIT, 1, addr.db, addr.area, addr.byteOffset * 8 + addr.bitOffset))
    else None
  }

  function AnyBody(spec: VarSpec): bytes {
    PutS7Any(spec.transport, spec.count, spec.db, spec.area, spec.startBit)[2..]
  }

  /** An encoded S7ANY item is an item whose body the server decodes to the same fields. */
  lemma AnyBodyDecodes(spec: VarSpec)
    requires spec.syntax == SYNTAX_S7ANY
    ensures ValidBody(AnyBody(spec)) && SpecOf(AnyBody(spec)) == spec
    ensures Item(AnyBody(spec)) == PutS7Any(spec.transport, spec.count, spec.db, spec.area, spec.startBit)
    ensures |Item(AnyBody(spec))| == 12
  {
    var b := AnyBody(spec);
    assert U16(b, 2) == spec.count && U16(b, 4) == spec.db;
  }

  function Bodies(addrs: seq<S7AnyAddress>): (r: seq<bytes>)
    requires forall i :: 0 <= i < |addrs| ==> InRange(addrs[i])
    ensures |r| == |addrs| && forall i :: 0 <= i < |addrs| ==> r[i] == AnyBody(AddressSpec(addrs[i]))
  {
    seq(|addrs|, i requires 0 <= i < |addrs| => AnyBody(AddressSpec(addrs[i])))
  }

  lemma BodiesValid(addrs: seq<S7AnyAddress>)
    requires forall i :: 0 <= i < |addrs| ==> InRange(addrs[i])
    ensures AllValid(Bodies(addrs))
    ensures |SpecsOf(Bodies(addrs))| == |addrs|
    ensures forall i :: 0 <= i < |addrs| ==> SpecsOf(Bodies(addrs))[i] == AddressSpec(addrs[i])
  {
    forall i | 0 <= i < |addrs|
      ensures ValidBody(Bodies(addrs)[i]) && SpecOf(Bodies(addrs)[i]) == AddressSpec(addrs[i])
    {
      AnyBodyDecodes(AddressSpec(addrs[i]));
    }
  }

  lemma {:induction false} JoinItemsSnoc(bodies: seq<bytes>, last: bytes)
    requires AllValid(bodies) && ValidBody(last)
    ensures JoinItems(bodies + [last]) == JoinItems(bodies) + Item(last)
  {
    if bodies == [] {
      assert bodies + [last] == [last];
      assert JoinItems([last]) == Item(last) + JoinItems([]);
    } else {
      JoinItemsSnoc(bodies[1..], last);
      assert (bodies + [last])[0] == bodies[0] && (bodies + [last])[1..] == bodies[1..] + [last];
    }
  }

  predicate AllInRange(addrs: seq<S7AnyAddress>) {
    forall i :: 0 <= i < |addrs| ==> InRange(addrs[i])
  }

  /** A Read Var request; None for more than 255 addresses or one that does not fit its fields. */
  function ReadVarRequest(pduRef: u16, addrs: seq<S7AnyAddress>): Option<bytes> {
    if |addrs| > MAX_ITEMS || !AllInRange(addrs) then None
    else
      BodiesValid(addrs);
      EncodeMessage(ROSCTR_JOB, pduRef, [FUNC_READ, |addrs|] + JoinItems(Bodies(addrs)), [])
  }

  lemma AppendItem(addrs: seq<S7AnyAddress>, i: nat)
    requires i < |addrs| && AllInRange(addrs[..i]) && InRange(addrs[i]) && AllValid(Bodies(addrs[..i]))
    ensures AllInRange(addrs[..i + 1]) && AllValid(Bodies(addrs[..i + 1]))
    ensures JoinItems(Bodies(addrs[..i + 1])) == JoinItems(Bodies(addrs[..i])) + EncodeS7Any(addrs[i]).value
  {
    var a := AddressSpec(addrs[i]);
    AnyBodyDecodes(a);
    assert Bodies(addrs[..i + 1]) == Bodies(addrs[..i]) + [AnyBody(a)];
    JoinItemsSnoc(Bodies(addrs[..i]), AnyBody(a));
  }

  method EncodeReadVarRequest(pduRef: u16, addrs: seq<S7AnyAddress>) returns (r: Option<bytes>)
    ensures r == ReadVarRequest(pduRef, addrs)
  {
    hide PutS7Any, EncodeMessage;
    if |addrs| > MAX_ITEMS {
      return None;
    }
    var param: bytes := [FUNC_READ, |addrs|];
    for i := 0 to |addrs|
      invariant AllInRange(addrs[..i]) && AllValid(Bodies(addrs[..i]))
      invariant param == [FUNC_READ, |addrs|] + JoinItems(Bodies(addrs[..i]))
    {
      var item := EncodeS7Any(addrs[i]);
      if item.None? {
        return None;
      }
      AppendItem(addrs, i);
      param := param + item.value;
    }
    assert addrs[..|addrs|] == addrs;
    r := EncodeMessage(ROSCTR_JOB, pduRef, param, []);
  }

  lemma {:induction false} JoinItemsLength(addrs: seq<S7AnyAddress>)
    requires AllInRange(addrs)
    ensures AllValid(Bodies(addrs)) && |JoinItems(Bodies(addrs))| == 12 * |addrs|
  {
    BodiesValid(addrs);
    if addrs != [] {
      JoinItemsLength(addrs[1..]);
      assert Bodies(addrs)[1..] == Bodies(addrs[1..]);
      AnyBodyDecodes(AddressSpec(addrs[0]));
    }
  }

  /** The server decodes a Read Var request to exactly the addresses asked for; one for no address encodes, and the
      server refuses it. */
  lemma ReadRequestDecodes(pduRef: u16, addrs: seq<S7AnyAddress>)
    ensures ReadVarRequest(pduRef, addrs).Some? <==> |addrs| <= MAX_ITEMS && AllInRange(addrs)
    ensures ReadVarRequest(pduRef, addrs).Some? ==>
      var req := ReadVarRequest(pduRef, addrs).value;
      var got := Receive(req);
      && |req| == 12 + 12 * |addrs|
      && got.Readable? && got.rosctr == ROSCTR_JOB && got.pduRef == pduRef && got.data == []
      && got.param[..1] == [FUNC_READ]
      && var specs := ParsedSpecs(got.param, FUNC_READ);
         && (specs.Some? <==> addrs != [])
         && (specs.Some? ==> |specs.value| == |addrs|
                             && forall i :: 0 <= i < |addrs| ==> specs.value[i] == AddressSpec(addrs[i]))
  {
    if |addrs| <= MAX_ITEMS && AllInRange(addrs) {
      JoinItemsLength(addrs);
      var bodies: seq<bytes> := Bodies(addrs);
      var param: bytes := [FUNC_READ, |addrs|] + JoinItems(bodies);
      ReceiveUndoesEncode(ROSCTR_JOB, pduRef, param, []);
      if addrs != [] {
        BodiesValid(addrs);
        assert WellFormed(param, FUNC_READ, bodies);
        ParseIffWellFormed(param, FUNC_READ, bodies);
      }
    }
  }

  //
  // Write Var requests hold one item.
  //

  function WriteSection(value: bytes): bytes
    requires |value| * 8 < 0x1_0000
  {
    var data := [RET_SUCCESS, DATA_BYTE] + PutU16(|value| * 8) + value;
    if |data| % 2 != 0 then data + [0x00] else data
  }

  /** A Write Var request; None for a value or an address that does not fit its fields. */
  function WriteVarRequest(pduRef: u16, addr: S7AnyAddress, value: bytes): Option<bytes> {
    if |value| * 8 >= 0x1_0000 then None
    else
      match EncodeS7Any(addr)
      case None => None
      case Some(item) => EncodeMessage(ROSCTR_JOB, pduRef, [FUNC_WRITE, 1] + item, WriteSection(value))
  }

  function BitSection(value: bool): bytes {
    [0x00, DATA_BIT, 0x00, 0x01, if value then 1 else 0, 0x00]
  }

  function WriteVarBitRequest(pduRef: u16, addr: S7AnyBitAddress, value: bool): Option<bytes> {
    match EncodeS7AnyBit(addr)
    case None => None
    case Some(item) =>
      EncodeMessage(ROSCTR_JOB, pduRef, [FUNC_WRITE, 1] + item, BitSection(value))
  }

  function ReadVarBitRequest(pduRef: u16, addr: S7AnyBitAddress): Option<bytes> {
    match EncodeS7AnyBit(addr)
    case None => None
    case Some(item) => EncodeMessage(ROSCTR_JOB, pduRef, [FUNC_READ, 1] + item, [])
  }

  lemma OneItemDecodes(fn: byte, spec: VarSpec)
    requires spec.syntax == SYNTAX_S7ANY
    ensures var param := [fn, 1] + PutS7Any(spec.transport, spec.count, spec.db, spec.area, spec.startBit);
            ParsedSpecs(param, fn) == Some([spec]) && |param| == 14 && param[..1] == [fn]
  {
    var body := AnyBody(spec);
    AnyBodyDecodes(spec);
    assert JoinItems([body]) == Item(body) + JoinItems([]) == Item(body);
    var param := [fn, 1] + Item(body);
    assert WellFormed(param, fn, [body]);
    ParseIffWellFormed(param, fn, [body]);
    assert SpecsOf([body]) == [spec];
  }

  lemma OneDataItem(item: WriteVarData, tail: bytes)
    requires WholeItem(item) && |tail| <= 1
    ensures ParsedData(ItemBytes(item) + tail, 1) == Some([item])
  {
    var data := ItemBytes(item) + tail;
    assert data[0..4 + |item.data|] == ItemBytes(item);
    assert LaidOut(data, 4 + |item.data|, [item][1..]);
    assert LaidOut(data, 0, [item]);
    ParsedDataIffLaidOut(data, [item]);
  }

  lemma SectionDecodes(value: bytes)
    requires |value| <= 8191
    ensures |WriteSection(value)| == 4 + |value| + |value| % 2
    ensures ParsedData(WriteSection(value), 1) == Some([WriteVarData(RET_SUCCESS, DATA_BYTE, |value| * 8, value)])
  {
    var item := WriteVarData(RET_SUCCESS, DATA_BYTE, |value| * 8, value);
    var tail: bytes := if |value| % 2 != 0 then [0x00] else [];
    assert WriteSection(value) == ItemBytes(item) + tail;
    OneDataItem(item, tail);
  }

  lemma BitSectionDecodes(value: bool)
    ensures ParsedData(BitSection(value), 1) == Some([WriteVarData(0, DATA_BIT, 1, [if value then 1 else 0])])
  {
    var item := WriteVarData(0, DATA_BIT, 1, [if value then 1 else 0]);
    assert BitSection(value) == ItemBytes(item) + [0x00];
    OneDataItem(item, [0x00]);
  }

  /** The server decodes a byte write to exactly its address and payload; its length is 28 and the padded payload. */
  lemma WriteRequestDecodes(pduRef: u16, addr: S7AnyAddress, value: bytes)
    ensures WriteVarRequest(pduRef, addr, value).Some? <==> |value| <= 8191 && InRange(addr)
    ensures WriteVarRequest(pduRef, addr, value).Some? ==>
      var req := WriteVarRequest(pduRef, addr, value).value;
      var got := Receive(req);
      && |req| == 28 + |value| + |value| % 2
      && got.Readable? && got.rosctr == ROSCTR_JOB && got.pduRef == pduRef && got.param[..1] == [FUNC_WRITE]
      && ParsedWrite(got.param, got.data)
           == Some(([AddressSpec(addr)], [WriteVarData(RET_SUCCESS, DATA_BYTE, |value| * 8, value)]))
  {
    hide Receive, EncodeMessage, ParsedSpecs, ParsedData, PutS7Any, WriteSection;
    if |value| <= 8191 && InRange(addr) {
      var spec := AddressSpec(addr);
      var param: bytes := [FUNC_WRITE, 1] + EncodeS7Any(addr).value;
      OneItemDecodes(FUNC_WRITE, spec);
      SectionDecodes(value);
      ReceiveUndoesEncode(ROSCTR_JOB, pduRef, param, WriteSection(value));
    }
  }

  /** The server decodes a bit write to its one bit address and value, and a bit read likewise. */
  lemma BitRequestsDecode(pduRef: u16, addr: S7AnyBitAddress, value: bool)
    ensures WriteVarBitRequest(pduRef, addr, value).Some? <==> BitInRange(addr)
    ensures ReadVarBitRequest(pduRef, addr).Some? <==> BitInRange(addr)
    ensures BitInRange(addr) ==>
      var write := Receive(WriteVarBitRequest(pduRef, addr, value).value);
      var read := Receive(ReadVarBitRequest(pduRef, addr).value);
      && write.Readable? && write.rosctr == ROSCTR_JOB && write.pduRef == pduRef
      && ParsedWrite(write.param, write.data)
           == Some(([BitAddressSpec(addr)], [WriteVarData(0, DATA_BIT, 1, [if value then 1 else 0])]))
      && read.Readable? && read.rosctr == ROSCTR_JOB && read.pduRef == pduRef && read.data == []
      && ParsedSpecs(read.param, FUNC_READ) == Some([BitAddressSpec(addr)])
  {
    hide Receive, EncodeMessage, ParsedSpecs, ParsedData, PutS7Any;
    if BitInRange(addr) {
      var item := EncodeS7AnyBit(addr).value;
      OneItemDecodes(FUNC_WRITE, BitAddressSpec(addr));
      OneItemDecodes(FUNC_READ, BitAddressSpec(addr));
      BitSectionDecodes(value);
      ReceiveUndoesEncode(ROSCTR_JOB, pduRef, [FUNC_WRITE, 1] + item, BitSection(value));
      ReceiveUndoesEncode(ROSCTR_JOB, pduRef, [FUNC_READ, 1] + item, []);
    }
  }
}
