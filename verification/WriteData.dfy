/** The data section of a Write Var job: one data item per item specification. */
module WriteData {
  import opened Octets
  import opened Message
  import opened VarSpecs

  // Data transport sizes. BYTE and INT count bits in their length field, the others bytes; a BIT item's
  // one bit takes one byte.
  const DATA_BIT: byte := 0x03
  const DATA_BYTE: byte := 0x04
  const DATA_INT: byte := 0x05
  const DATA_DINT: byte := 0x06
  const DATA_REAL: byte := 0x07
  const DATA_OCTET: byte := 0x09

  datatype WriteVarData = WriteVarData(returnCode: byte, transport: byte, rawLength: u16, data: bytes)

  /** The payload length a length field announces; None for a part of a byte or an unknown transport size. */
  function WriteDataBytes(transport: byte, raw: u16): Option<nat> {
    if transport == DATA_BIT || transport == DATA_DINT || transport == DATA_REAL || transport == DATA_OCTET then
      Some(raw)
    else if transport == DATA_BYTE || transport == DATA_INT then (if raw % 8 != 0 then None else Some(raw / 8))
    else None
  }

  /** A bit, double integer, real or octet string item gives its length in bytes, a byte or integer item in bits, which
      must be whole bytes; no other transport size is taken. */
  lemma WriteLengths(transport: byte, raw: u16)
    ensures var n := WriteDataBytes(transport, raw);
      && (n.Some? <==> transport in {3, 6, 7, 9} || (transport in {4, 5} && raw % 8 == 0))
      && (n.Some? ==> raw as int == n.value * (if transport in {4, 5} then 8 else 1))
  {
  }

  //
  // The layout: each item is its header and payload, then a fill byte of any value when the payload is
  // odd and another item follows. Behind the last item one byte may be left.
  //

  predicate WholeItem(item: WriteVarData) {
    WriteDataBytes(item.transport, item.rawLength) == Some(|item.data|)
  }

  function ItemBytes(item: WriteVarData): bytes {
    [item.returnCode, item.transport] + PutU16(item.rawLength) + item.data
  }

  predicate LaidOut(data: bytes, off: nat, items: seq<WriteVarData>)
    decreases |items|
  {
    if items == [] then off <= |data| <= off + 1
    else
      var end := off + 4 + |items[0].data|;
      && WholeItem(items[0]) && end <= |data| && data[off..end] == ItemBytes(items[0])
      && LaidOut(data, if |items[0].data| % 2 != 0 && |items| > 1 then end + 1 else end, items[1..])
  }

  //
  // The decoder.
  //

  function ItemAt(data: bytes, off: nat): Option<WriteVarData> {
    if off + 4 > |data| then None
    else
      match WriteDataBytes(data[off + 1], U16(data, off + 2))
      case None => None
      case Some(k) =>
        if off + 4 + k > |data| then None
        else Some(WriteVarData(data[off], data[off + 1], U16(data, off + 2), data[off + 4..off + 4 + k]))
  }

  function DataFrom(data: bytes, off: nat, n: nat, done: seq<WriteVarData>): Option<seq<WriteVarData>>
    decreases n
  {
    if n == 0 then (if off > |data| || |data| - off > 1 then None else Some(done))
    else
      match ItemAt(data, off)
      case None => None
      case Some(item) =>
        var end := off + 4 + |item.data|;
        DataFrom(data, if |item.data| % 2 != 0 && n > 1 then end + 1 else end, n - 1, done + [item])
  }

  lemma ItemAtIff(data: bytes, off: nat, item: WriteVarData)
    ensures ItemAt(data, off) == Some(item)
       <==> WholeItem(item) && off + 4 + |item.data| <= |data| && data[off..off + 4 + |item.data|] == ItemBytes(item)
  {
    var end := off + 4 + |item.data|;
    if end <= |data| {
      var s := data[off..end];
      assert data[off] == s[0] && data[off + 1] == s[1] && data[off + 2] == s[2] && data[off + 3] == s[3];
      assert data[off + 4..end] == s[4..];
      if s == ItemBytes(item) {
        assert s[4..] == item.data;
      }
    }
  }

  lemma {:induction false} DataKeepsDone(data: bytes, off: nat, n: nat, done: seq<WriteVarData>)
    requires DataFrom(data, off, n, done).Some?
    ensures var all := DataFrom(data, off, n, done).value;
            |all| == |done| + n && forall j :: 0 <= j < |done| ==> all[j] == done[j]
    decreases n
  {
    hide ItemAt;
    if n > 0 {
      var item := ItemAt(data, off).value;
      var end := off + 4 + |item.data|;
      DataKeepsDone(data, if |item.data| % 2 != 0 && n > 1 then end + 1 else end, n - 1, done + [item]);
    }
  }

  lemma DataFromHead(data: bytes, off: nat, n: nat, done: seq<WriteVarData>)
    requires n > 0 && ItemAt(data, off).Some?
    ensures var all := DataFrom(data, off, n, done);
            all.Some? ==> |all.value| > |done| && all.value[|done|] == ItemAt(data, off).value
  {
    hide ItemAt;
    var item := ItemAt(data, off).value;
    var end := off + 4 + |item.data|;
    var next := if |item.data| % 2 != 0 && n > 1 then end + 1 else end;
    if DataFrom(data, off, n, done).Some? {
      DataKeepsDone(data, next, n - 1, done + [item]);
      assert (done + [item])[|done|] == item;
    }
  }

  lemma {:induction false} DataFromIff(data: bytes, off: nat, done: seq<WriteVarData>, items: seq<WriteVarData>)
    ensures DataFrom(data, off, |items|, done) == Some(done + items) <==> LaidOut(data, off, items)
    decreases |items|
  {
    hide ItemAt, WholeItem, ItemBytes;
    if items == [] {
      assert done + items == done;
    } else {
      ItemAtIff(data, off, items[0]);
      var end := off + 4 + |items[0].data|;
      var next := if |items[0].data| % 2 != 0 && |items| > 1 then end + 1 else end;
      DataFromIff(data, next, done + [items[0]], items[1..]);
      assert done + [items[0]] + items[1..] == done + items;
      if ItemAt(data, off).Some? && ItemAt(data, off).value != items[0] {
        DataFromHead(data, off, |items|, done);
      }
    }
  }

  /** The decoded data items of a job with n > 0 item specifications; None for a malformed section. */
  function ParsedData(data: bytes, n: nat): Option<seq<WriteVarData>> {
    DataFrom(data, 0, n, [])
  }

  /** The decoder accepts exactly the sections in which n whole items are laid out, and finds them. */
  lemma ParsedDataIffLaidOut(data: bytes, items: seq<WriteVarData>)
    ensures ParsedData(data, |items|) == Some(items) <==> LaidOut(data, 0, items)
  {
    DataFromIff(data, 0, [], items);
    assert [] + items == items;
  }

  /** The decoded job; None for a malformed one. */
  function ParsedWrite(param: bytes, data: bytes): Option<(seq<VarSpec>, seq<WriteVarData>)> {
    match ParsedSpecs(param, FUNC_WRITE)
    case None => None
    case Some(specs) =>
      match ParsedData(data, |specs|)
      case None => None
      case Some(items) => Some((specs, items))
  }

  /** One round of the decoding loop. */
  lemma DataStep(data: bytes, off: nat, n: nat, done: seq<WriteVarData>)
    requires n > 0
    ensures DataFrom(data, off, n, done) ==
      if off + 4 > |data| then None
      else
        var length := WriteDataBytes(data[off + 1], U16(data, off + 2));
        if length.None? || off + 4 + length.value > |data| then None
        else
          var end := off + 4 + length.value;
          DataFrom(data, if length.value % 2 != 0 && n > 1 then end + 1 else end, n - 1,
                   done + [WriteVarData(data[off], data[off + 1], U16(data, off + 2), data[off + 4..end])])
  {
    hide WriteDataBytes, U16;
  }

  lemma DataEnd(data: bytes, off: nat, done: seq<WriteVarData>)
    ensures DataFrom(data, off, 0, done) == if off > |data| || |data| - off > 1 then None else Some(done)
  {
  }

  /** Decodes a Write Var job. */
  method ParseWriteVarRequest(param: bytes, data: bytes)
    returns (r: Option<(seq<VarSpec>, seq<WriteVarData>)>)
    ensures r == ParsedWrite(param, data)
  {
    hide ParsedSpecs, WriteDataBytes, U16, DataFrom;
    var specs := ParseVarSpecs(param, FUNC_WRITE);
    if specs.None? {
      return None;
    }
    var items: seq<WriteVarData> := [];
    var off := 0;
    ghost var n := |specs.value|;
    for i := 0 to |specs.value|
      invariant off >= 0 && ParsedData(data, n) == DataFrom(data, off, n - i, items)
    {
      DataStep(data, off, n - i, items);
      if off + 4 > |data| {
        return None;
      }
      var length := WriteDataBytes(data[off + 1], U16(data, off + 2));
      if length.None? {
        return None;
      }
      var start := off + 4;
      var end := start + length.value;
      if end > |data| {
        return None;
      }
      items := items + [WriteVarData(data[off], data[off + 1], U16(data, off + 2), data[start..end])];
      off := end;
      if length.value % 2 != 0 && i < |specs.value| - 1 {
        off := off + 1;
      }
    }
    DataEnd(data, off, items);
    if off > |data| || |data| - off > 1 {
      return None;
    }
    return Some((specs.value, items));
  }
}
