/** The octets on the wire: every message of the variable service, of setup and of its refusals, in numbers. */
module WireFormat {
  import opened Octets
  import opened Message
  import opened VarSpecs
  import opened Requests
  import opened Answers
  import opened Session
  import EndToEnd

  /** A 10-byte header: protocol ID, type, two zero bytes, reference and section lengths, high bytes first. */
  function Head(rosctr: byte, ref: u16, param: u16, data: u16): bytes {
    [0x32, rosctr, 0, 0, ref / 0x100, ref % 0x100, param / 0x100, param % 0x100, data / 0x100, data % 0x100]
  }

  lemma MessageOctets(rosctr: byte, ref: u16, param: bytes, data: bytes)
    requires |param| < 0x1_0000 && |data| < 0x1_0000
    ensures EncodeMessage(rosctr, ref, param, data) == Some(Head(rosctr, ref, |param|, |data|) + param + data)
  {
    assert EncodeS7Header(rosctr, ref, |param|, |data|).value == Head(rosctr, ref, |param|, |data|);
  }

  /** An answer has type 3 and two more bytes, the error class and code. */
  lemma AnswerOctets(ref: u16, errClass: byte, errCode: byte, param: bytes, data: bytes)
    requires |param| < 0x1_0000 && |data| < 0x1_0000
    ensures EncodeAckData(ref, errClass, errCode, param, data)
         == Some(Head(0x03, ref, |param|, |data|) + [errClass, errCode] + param + data)
  {
    assert EncodeS7Header(0x03, ref, |param|, |data|).value == Head(0x03, ref, |param|, |data|);
  }

  /** The 12 bytes of an address: 12 0A 10, transport size, count, data block, area, and the start as a number of bits.
      */
  function Address(transport: byte, count: u16, db: u16, area: byte, start: nat, bit: nat): bytes
    requires start <= 0x1F_FFFF && bit < 8
  {
    [0x12, 0x0A, 0x10, transport, count / 0x100, count % 0x100, db / 0x100, db % 0x100, area,
     start / 0x2000, start / 0x20 % 0x100, start % 0x20 * 8 + bit]
  }

  lemma StartOctets(start: nat, bit: nat)
    requires start <= 0x1F_FFFF && bit < 8
    ensures var v := start * 8 + bit;
      v / 0x1_0000 == start / 0x2000 && v / 0x100 % 0x100 == start / 0x20 % 0x100 && v % 0x100 == start % 0x20 * 8 + bit
  {
  }

  lemma AddressOctets(addr: S7AnyAddress)
    requires InRange(addr)
    ensures EncodeS7Any(addr) == Some(Address(0x02, addr.size, addr.db, addr.area, addr.start, 0))
  {
    StartOctets(addr.start, 0);
  }

  lemma BitAddressOctets(addr: S7AnyBitAddress)
    requires BitInRange(addr)
    ensures EncodeS7AnyBit(addr) == Some(Address(0x01, 1, addr.db, addr.area, addr.byteOffset, addr.bitOffset))
  {
    StartOctets(addr.byteOffset, addr.bitOffset);
  }

  lemma AddressLength(addr: S7AnyAddress)
    requires InRange(addr)
    ensures |Address(0x02, addr.size, addr.db, addr.area, addr.start, 0)| == 12
  {
  }

  /** A request to read one range. */
  lemma ReadRequestOctets(ref: u16, addr: S7AnyAddress)
    requires InRange(addr)
    ensures ReadVarRequest(ref, [addr])
         == Some(Head(0x01, ref, 14, 0) + [0x04, 0x01] + Address(0x02, addr.size, addr.db, addr.area, addr.start, 0))
  {
    hide EncodeMessage, Item, AnyBody, Address, PutS7Any;
    AddressOctets(addr);
    var item := Address(0x02, addr.size, addr.db, addr.area, addr.start, 0);
    var bodies := Bodies([addr]);
    BodiesValid([addr]);
    AnyBodyDecodes(AddressSpec(addr));
    assert bodies == [AnyBody(AddressSpec(addr))];
    assert JoinItems(bodies) == Item(bodies[0]) + JoinItems([]) == item;
    AddressLength(addr);
    MessageOctets(0x01, ref, [0x04, 0x01] + item, []);
    assert Head(0x01, ref, 14, 0) + ([0x04, 0x01] + item) + [] == Head(0x01, ref, 14, 0) + [0x04, 0x01] + item;
  }

  lemma SectionOctets(value: bytes)
    requires |value| <= 8191
    ensures var n := |value| * 8;
      WriteSection(value)
      == [0xFF, 0x04, n / 0x100, n % 0x100] + value + (if |value| % 2 == 1 then [0x00] else [])
  {
    var n := |value| * 8;
    assert [0xFF, 0x04] + PutU16(n) == [0xFF, 0x04, n / 0x100, n % 0x100];
    assert [0xFF, 0x04, n / 0x100, n % 0x100] + value + [] == [0xFF, 0x04, n / 0x100, n % 0x100] + value;
  }

  /** A request to write bytes: FF 04, the number of bits, the bytes, and a zero byte behind an odd number of them. */
  lemma WriteRequestOctets(ref: u16, addr: S7AnyAddress, value: bytes)
    requires InRange(addr) && |value| <= 8191
    ensures var n := |value| * 8;
      WriteVarRequest(ref, addr, value)
      == Some(Head(0x01, ref, 14, 4 + |value| + |value| % 2) + [0x05, 0x01]
              + Address(0x02, addr.size, addr.db, addr.area, addr.start, 0)
              + [0xFF, 0x04, n / 0x100, n % 0x100] + value + (if |value| % 2 == 1 then [0x00] else []))
  {
    hide EncodeMessage, Address, Head, PutS7Any;
    AddressOctets(addr);
    AddressLength(addr);
    var item, n := Address(0x02, addr.size, addr.db, addr.area, addr.start, 0), |value| * 8;
    var fill: bytes := if |value| % 2 == 1 then [0x00] else [];
    SectionOctets(value);
    var data := [0xFF, 0x04, n / 0x100, n % 0x100] + value + fill;
    MessageOctets(0x01, ref, [0x05, 0x01] + item, data);
    var head := Head(0x01, ref, 14, |data|);
    assert head + ([0x05, 0x01] + item) + ([0xFF, 0x04, n / 0x100, n % 0x100] + value + fill)
        == head + [0x05, 0x01] + item + [0xFF, 0x04, n / 0x100, n % 0x100] + value + fill;
  }

  /** Requests to read and to write one bit. */
  lemma BitRequestOctets(ref: u16, addr: S7AnyBitAddress, value: bool)
    requires BitInRange(addr)
    ensures var item := Address(0x01, 1, addr.db, addr.area, addr.byteOffset, addr.bitOffset);
      && ReadVarBitRequest(ref, addr) == Some(Head(0x01, ref, 14, 0) + ([0x04, 0x01] + item))
      && WriteVarBitRequest(ref, addr, value)
         == Some(Head(0x01, ref, 14, 6) + ([0x05, 0x01] + item)
                 + [0x00, 0x03, 0x00, 0x01, if value then 1 else 0, 0x00])
  {
    hide EncodeMessage, Head, PutS7Any;
    BitAddressOctets(addr);
    var item := Address(0x01, 1, addr.db, addr.area, addr.byteOffset, addr.bitOffset);
    MessageOctets(0x01, ref, [0x04, 0x01] + item, []);
    MessageOctets(0x01, ref, [0x05, 0x01] + item, [0x00, 0x03, 0x00, 0x01, if value then 1 else 0, 0x00]);
    assert Head(0x01, ref, 14, 0) + ([0x04, 0x01] + item) + [] == Head(0x01, ref, 14, 0) + ([0x04, 0x01] + item);
  }

  /** One result: return code, transport size, length field and data. */
  function ResultOctets(item: ReadVarItem): bytes {
    [item.returnCode, item.transport, item.rawLength / 0x100, item.rawLength % 0x100] + item.data
  }

  lemma {:induction false} EncodedOctets(items: seq<ReadVarItem>, i: nat)
    requires i < |items|
    ensures Encoded(items, i + 1) == Encoded(items, i) + ResultOctets(items[i])
                                     + (if i + 1 < |items| && |items[i].data| % 2 == 1 then [0x00] else [])
  {
    assert ItemOctets(items[i]) == ResultOctets(items[i]);
  }

  /** The answer to a read of up to 255 items: 04 and their number, then each result, with a zero byte behind one of odd
      length that is not the last. */
  lemma ReadAnswerOctets(ref: u16, items: seq<ReadVarItem>)
    requires |items| <= 0xFF && |Encoded(items, |items|)| < 0x1_0000
    ensures ReadVarResponse(ref, items)
         == Some(Head(0x03, ref, 2, |Encoded(items, |items|)|) + [0, 0] + [0x04, |items|] + Encoded(items, |items|))
    ensures Encoded(items, 0) == []
    ensures forall i :: 0 <= i < |items| ==>
      Encoded(items, i + 1) == Encoded(items, i) + ResultOctets(items[i])
                               + (if i + 1 < |items| && |items[i].data| % 2 == 1 then [0x00] else [])
  {
    hide EncodeAckData;
    AnswerOctets(ref, 0, 0, [0x04, |items|], Encoded(items, |items|));
    forall i | 0 <= i < |items|
      ensures Encoded(items, i + 1) == Encoded(items, i) + ResultOctets(items[i])
                                       + (if i + 1 < |items| && |items[i].data| % 2 == 1 then [0x00] else [])
    {
      EncodedOctets(items, i);
    }
  }

  /** The answer to a write: 05, the number of items and a code for each. */
  lemma WriteAnswerOctets(ref: u16, codes: bytes)
    requires |codes| <= 0xFF
    ensures WriteVarResponse(ref, codes) == Some(Head(0x03, ref, 2, |codes|) + [0, 0] + [0x05, |codes|] + codes)
  {
    hide EncodeAckData;
    AnswerOctets(ref, 0, 0, [0x05, |codes|], codes);
  }

  /** Setup: F0 00 and three numbers, in the job and in the answer. */
  lemma SetupOctets(ref: u16, calling: u16, called: u16, size: u16)
    ensures var param := [0xF0, 0, calling / 0x100, calling % 0x100, called / 0x100, called % 0x100,
                          size / 0x100, size % 0x100];
      && EndToEnd.SetupJob(ref, calling, called, size) == Head(0x01, ref, 8, 0) + param
      && SetupResponse(ref, calling, called, size) == Some(Head(0x03, ref, 8, 0) + [0, 0] + param)
  {
    hide EncodeMessage, EncodeAckData, Head;
    var param := [0xF0, 0, calling / 0x100, calling % 0x100, called / 0x100, called % 0x100,
                  size / 0x100, size % 0x100];
    assert [0xF0, 0] + PutU16(calling) + PutU16(called) + PutU16(size) == param;
    MessageOctets(0x01, ref, param, []);
    AnswerOctets(ref, 0, 0, param, []);
    assert Head(0x01, ref, 8, 0) + param + [] == Head(0x01, ref, 8, 0) + param;
    assert Head(0x03, ref, 8, 0) + [0, 0] + param + [] == Head(0x03, ref, 8, 0) + [0, 0] + param;
  }

  lemma UserdataRefusalOctets(ref: u16, param: bytes)
    requires |param| >= 8 && param[0] == 0x00 && param[1] == 0x01 && param[2] == 0x12
    ensures UserdataNotImplemented(ref, param)
         == Head(0x07, ref, 12, 4) + [0x00, 0x01, 0x12, 0x08, 0x12, 0x80 + param[5] % 0x40, param[6], param[7], 0, 0,
                                      0x81, 0x04, 0x0A, 0, 0, 0]
  {
    hide EncodeMessage, Head;
    var resp: bytes := [0x00, 0x01, 0x12, 0x08, 0x12, 0x80 + param[5] % 0x40, param[6], param[7], 0, 0, 0x81, 0x04];
    MessageOctets(0x07, ref, resp, [0x0A, 0, 0, 0]);
  }

  /** The refusals: 0x8500 for an answer that does not fit, 0x8104 for what is not served, both with the function code;
      and for a user data request a user data response with error 0x8104 that repeats its group, subfunction and
      sequence number. */
  lemma RefusalOctets(ref: u16, param: bytes)
    ensures param != [] ==> Refusal(ref, param) == Some(Head(0x03, ref, 1, 0) + [0x85, 0x00, param[0]])
    ensures NotImplemented(ref, param)
         == if param == [] then Head(0x03, ref, 0, 0) + [0x81, 0x04] else Head(0x03, ref, 1, 0) + [0x81, 0x04, param[0]]
    ensures |param| >= 8 && param[0] == 0x00 && param[1] == 0x01 && param[2] == 0x12 ==>
      UserdataNotImplemented(ref, param)
      == Head(0x07, ref, 12, 4) + [0x00, 0x01, 0x12, 0x08, 0x12, 0x80 + param[5] % 0x40, param[6], param[7], 0, 0,
                                   0x81, 0x04, 0x0A, 0, 0, 0]
    ensures |param| < 8 || param[0] != 0x00 || param[1] != 0x01 || param[2] != 0x12 ==>
      UserdataNotImplemented(ref, param) == NotImplemented(ref, param)
  {
    hide EncodeMessage, EncodeAckData, Head;
    var fn := if |param| > 0 then param[..1] else [];
    AnswerOctets(ref, 0x85, 0x00, fn, []);
    AnswerOctets(ref, 0x81, 0x04, fn, []);
    if param != [] {
      assert fn == [param[0]];
      assert Head(0x03, ref, 1, 0) + [0x85, 0x00] + fn + [] == Head(0x03, ref, 1, 0) + [0x85, 0x00, param[0]];
      assert Head(0x03, ref, 1, 0) + [0x81, 0x04] + fn + [] == Head(0x03, ref, 1, 0) + [0x81, 0x04, param[0]];
    } else {
      assert Head(0x03, ref, 0, 0) + [0x81, 0x04] + [] + [] == Head(0x03, ref, 0, 0) + [0x81, 0x04];
    }
    if |param| >= 8 && param[0] == 0x00 && param[1] == 0x01 && param[2] == 0x12 {
      UserdataRefusalOctets(ref, param);
    }
  }
}
