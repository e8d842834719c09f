/** Read Var and Write Var answers: the server's encoders and the client's parsers. */
module Answers {
  import opened Octets
  import opened Message
  import opened WriteData

  /** One item of a Read Var answer; a failed one has no data. */
  datatype ReadVarItem = ReadVarItem(returnCode: byte, transport: byte, rawLength: u16, data: bytes)

  //
  // The server's encoder.
  //

  function ItemOctets(item: ReadVarItem): bytes {
    [item.returnCode, item.transport] + PutU16(item.rawLength) + item.data
  }

  /** The fill byte behind an odd item another item follows. */
  function Fill(item: ReadVarItem, last: bool): bytes {
    if !last && |item.data| % 2 != 0 then [0x00] else []
  }

  function ResultSize(item: ReadVarItem, last: bool): nat {
    4 + |item.data| + (if !last && |item.data| % 2 != 0 then 1 else 0)
  }

  /** The data section up to item i. */
  function Encoded(items: seq<ReadVarItem>, i: nat): bytes
    requires i <= |items|
  {
    if i == 0 then []
    else Encoded(items, i - 1) + (ItemOctets(items[i - 1]) + Fill(items[i - 1], i == |items|))
  }

  function SizeSum(items: seq<ReadVarItem>, i: nat): nat
    requires i <= |items|
  {
    if i == 0 then 0 else SizeSum(items, i - 1) + ResultSize(items[i - 1], i == |items|)
  }

  /** An answer takes exactly the bytes the server counts for its items. */
  lemma {:induction false} EncodedSize(items: seq<ReadVarItem>, i: nat)
    requires i <= |items|
    ensures |Encoded(items, i)| == SizeSum(items, i)
  {
    if i > 0 {
      EncodedSize(items, i - 1);
    }
  }

  /** The answer PDU; None when the items or their bytes do not fit their length fields. */
  function ReadVarResponse(pduRef: u16, items: seq<ReadVarItem>): Option<bytes> {
    if |items| > 0xFF then None
    else EncodeAckData(pduRef, 0, 0, [FUNC_READ, |items|], Encoded(items, |items|))
  }

  method EncodeReadVarResponse(pduRef: u16, items: seq<ReadVarItem>) returns (r: Option<bytes>)
    ensures r == ReadVarResponse(pduRef, items)
  {
    var n := |items|;
    if n > 0xFF {
      return None;
    }
    var data: bytes := [];
    for i := 0 to n
      invariant data == Encoded(items, i)
    {
      var piece := [items[i].returnCode, items[i].transport] + PutU16(items[i].rawLength) + items[i].data;
      if i < n - 1 && |items[i].data| % 2 != 0 {
        piece := piece + [0x00];
      } else {
        assert piece + [] == piece;
      }
      data := data + piece;
    }
    r := EncodeAckData(pduRef, 0, 0, [FUNC_READ, n], data);
  }

  //
  // The client's parser.
  //

  /** The payload length a length field announces; None for a value that is no data transport size. */
  function NormalizeLength(transport: byte, rawLength: u16): Option<nat> {
    if transport == DATA_BIT || transport == DATA_BYTE || transport == DATA_INT then Some((rawLength + 7) / 8)
    else if transport == DATA_DINT || transport == DATA_REAL || transport == DATA_OCTET then Some(rawLength)
    else None
  }

  /** The offset behind a payload that ends at `end`: a fill byte follows an odd payload, if there is one. */
  /** The client takes bits for bit, byte and integer items, rounded up to bytes, and bytes for the others. */
  lemma AnswerLengths(transport: byte, raw: u16)
    ensures var n := NormalizeLength(transport, raw);
      && (n.Some? <==> transport in {3, 4, 5, 6, 7, 9})
      && (n.Some? ==> if transport in {3, 4, 5} then n.value * 8 - 8 < raw <= n.value * 8 else n.value == raw as int)
  {
  }

  function Advance(data: bytes, end: nat, odd: bool, isLast: bool): Option<nat> {
    if !odd then Some(end)
    else if end >= |data| && !isLast then None
    else Some(if end < |data| then end + 1 else end)
  }

  /** The item at an offset and the offset of the next one. */
  function DecodeItem(data: bytes, offset: nat, isLast: bool): Option<(ReadVarItem, nat)> {
    if offset + 4 > |data| then None
    else
      var item := ReadVarItem(data[offset], data[offset + 1], U16(data, offset + 2), []);
      if item.returnCode != RET_SUCCESS && (item.transport == 0 || item.rawLength == 0) then Some((item, offset + 4))
      else
        match NormalizeLength(item.transport, item.rawLength)
        case None => None
        case Some(k) =>
          var end := offset + 4 + k;
          if end > |data| then None
          else
            match Advance(data, end, k % 2 != 0, isLast)
            case None => None
            case Some(next) =>
              Some((if item.returnCode == RET_SUCCESS then item.(data := data[offset + 4..end]) else item, next))
  }

  function ItemsFrom(data: bytes, offset: nat, n: nat, done: seq<ReadVarItem>): Option<seq<ReadVarItem>>
    decreases n
  {
    if n == 0 then Some(done)
    else
      match DecodeItem(data, offset, n == 1)
      case None => None
      case Some((item, next)) => ItemsFrom(data, next, n - 1, done + [item])
  }

  function ParsedItems(param: bytes, data: bytes): Option<seq<ReadVarItem>> {
    if |param| < 2 || param[0] != FUNC_READ then None else ItemsFrom(data, 0, param[1], [])
  }

  method ParseReadVarResponse(param: bytes, data: bytes) returns (r: Option<seq<ReadVarItem>>)
    ensures r == ParsedItems(param, data)
  {
    hide DecodeItem;
    if |param| < 2 || param[0] != FUNC_READ {
      return None;
    }
    var itemCount := param[1] as int;
    var items: seq<ReadVarItem> := [];
    var offset := 0;
    for i := 0 to itemCount
      invariant offset >= 0 && ParsedItems(param, data) == ItemsFrom(data, offset, itemCount - i, items)
    {
      var step := DecodeItem(data, offset, i == itemCount - 1);
      if step.None? {
        return None;
      }
      items := items + [step.value.0];
      offset := step.value.1;
    }
    return Some(items);
  }

  //
  // The answers the parser takes: of a refused item it skips the payload, if there is one.
  //

  /** The payload length an item announces; a refusal without transport size or length has none. */
  function WireLength(item: ReadVarItem): Option<nat> {
    if item.returnCode != RET_SUCCESS && (item.transport == 0 || item.rawLength == 0) then Some(0)
    else NormalizeLength(item.transport, item.rawLength)
  }

  function HeaderOctets(item: ReadVarItem): bytes {
    [item.returnCode, item.transport] + PutU16(item.rawLength)
  }

  /** At an offset there is this item: its header, then the announced payload, which is its data if it succeeded. */
  predicate ItemHere(data: bytes, off: nat, item: ReadVarItem) {
    && WireLength(item).Some? && off + 4 + WireLength(item).value <= |data|
    && data[off..off + 4] == HeaderOctets(item)
    && item.data == if item.returnCode == RET_SUCCESS then data[off + 4..off + 4 + WireLength(item).value] else []
  }

  /** The items one after the other, with a byte behind each odd payload; the last may do without it. */
  predicate LaidOut(data: bytes, off: nat, items: seq<ReadVarItem>)
    decreases |items|
  {
    items != [] ==>
      && ItemHere(data, off, items[0])
      && var end := off + 4 + WireLength(items[0]).value;
         var odd := (end - off) % 2 != 0;
         && (odd && end == |data| ==> |items| == 1)
         && LaidOut(data, if odd && end < |data| then end + 1 else end, items[1..])
  }

  lemma DecodeIff(data: bytes, off: nat, isLast: bool, item: ReadVarItem)
    ensures var step := DecodeItem(data, off, isLast);
      (step.Some? && step.value.0 == item)
      <==> (ItemHere(data, off, item)
            && ((WireLength(item).value % 2 != 0 && off + 4 + WireLength(item).value == |data|) ==> isLast))
    ensures DecodeItem(data, off, isLast).Some? ==>
      var (got, next) := DecodeItem(data, off, isLast).value;
      && WireLength(got).Some?
      && var end := off + 4 + WireLength(got).value;
         next == if (end - off) % 2 != 0 && end < |data| then end + 1 else end
  {
    if off + 4 <= |data| {
      var s := data[off..off + 4];
      assert data[off] == s[0] && data[off + 1] == s[1] && data[off + 2] == s[2] && data[off + 3] == s[3];
    }
  }

  lemma {:induction false} ItemsKeepDone(data: bytes, off: nat, n: nat, done: seq<ReadVarItem>)
    requires ItemsFrom(data, off, n, done).Some?
    ensures var all := ItemsFrom(data, off, n, done).value;
      |all| == |done| + n && forall j :: 0 <= j < |done| ==> all[j] == done[j]
    decreases n
  {
    hide DecodeItem;
    if n > 0 {
      var (item, next) := DecodeItem(data, off, n == 1).value;
      ItemsKeepDone(data, next, n - 1, done + [item]);
    }
  }

  lemma ItemsHead(data: bytes, off: nat, n: nat, done: seq<ReadVarItem>)
    requires n > 0 && DecodeItem(data, off, n == 1).Some?
    ensures var all := ItemsFrom(data, off, n, done);
      all.Some? ==> |all.value| > |done| && all.value[|done|] == DecodeItem(data, off, n == 1).value.0
  {
    hide DecodeItem;
    var (item, next) := DecodeItem(data, off, n == 1).value;
    if ItemsFrom(data, off, n, done).Some? {
      ItemsKeepDone(data, next, n - 1, done + [item]);
      assert (done + [item])[|done|] == item;
    }
  }

  lemma {:induction false} ItemsFromIff(data: bytes, off: nat, done: seq<ReadVarItem>, items: seq<ReadVarItem>)
    ensures ItemsFrom(data, off, |items|, done) == Some(done + items) <==> LaidOut(data, off, items)
    decreases |items|
  {
    hide DecodeItem, ItemHere, WireLength;
    if items == [] {
      assert done + items == done;
    } else {
      DecodeIff(data, off, |items| == 1, items[0]);
      var step := DecodeItem(data, off, |items| == 1);
      if step.Some? {
        ItemsHead(data, off, |items|, done);
        if step.value.0 == items[0] {
          ItemsFromIff(data, step.value.1, done + [items[0]], items[1..]);
          assert done + [items[0]] + items[1..] == done + items;
        }
      }
    }
  }

  /** The client takes exactly the answers in which as many items as announced are laid out, and finds those items. What
      is left behind the last one does not matter. */
  lemma ParsedItemsIff(param: bytes, data: bytes, items: seq<ReadVarItem>)
    ensures ParsedItems(param, data) == Some(items)
       <==> |param| >= 2 && param[0] == FUNC_READ && |items| == param[1] as int && LaidOut(data, 0, items)
  {
    hide ItemsFrom, LaidOut;
    if |param| >= 2 && param[0] == FUNC_READ {
      if ParsedItems(param, data).Some? {
        ItemsKeepDone(data, 0, param[1], []);
      }
      if |items| == param[1] as int {
        ItemsFromIff(data, 0, [], items);
        assert [] + items == items;
      }
    }
  }

  //
  // Round trip.
  //

  /** What an answer can carry without loss: a success whose length field says its data length, or a bare refusal. */
  predicate Faithful(item: ReadVarItem) {
    if item.returnCode == RET_SUCCESS then NormalizeLength(item.transport, item.rawLength) == Some(|item.data|)
    else item.data == [] && (item.transport == 0 || item.rawLength == 0)
  }

  lemma {:induction false} EncodedPrefix(items: seq<ReadVarItem>, i: nat, j: nat)
    requires i <= j <= |items|
    ensures |Encoded(items, i)| <= |Encoded(items, j)|
    ensures Encoded(items, j)[..|Encoded(items, i)|] == Encoded(items, i)
    decreases j
  {
    if i < j {
      EncodedPrefix(items, i, j - 1);
      assert Encoded(items, j)[..|Encoded(items, i)|] == Encoded(items, j - 1)[..|Encoded(items, i)|];
    }
  }

  lemma LastPiece(items: seq<ReadVarItem>, i: nat)
    requires i < |items|
    ensures var off, k := |Encoded(items, i)|, |items[i].data|;
      && off + 4 + k + |Fill(items[i], i + 1 == |items|)| == |Encoded(items, i + 1)|
      && Encoded(items, i + 1)[off..off + 4 + k] == ItemOctets(items[i])
      && (i + 1 == |items| ==> |Fill(items[i], true)| == 0)
  {
    var off, end := |Encoded(items, i)|, |Encoded(items, i + 1)|;
    var piece := ItemOctets(items[i]) + Fill(items[i], i + 1 == |items|);
    assert Encoded(items, i + 1) == Encoded(items, i) + piece;
    assert Encoded(items, i + 1)[off..] == piece;
    assert piece[..4 + |items[i].data|] == ItemOctets(items[i]);
  }

  lemma ItemInPlace(items: seq<ReadVarItem>, i: nat)
    requires i < |items|
    ensures var data, off, k := Encoded(items, |items|), |Encoded(items, i)|, |items[i].data|;
      && off + 4 + k + |Fill(items[i], i + 1 == |items|)| == |Encoded(items, i + 1)| <= |data|
      && data[off..off + 4 + k] == ItemOctets(items[i])
      && (i + 1 == |items| ==> off + 4 + k == |data|)
  {
    hide ItemOctets, Fill, Encoded;
    LastPiece(items, i);
    EncodedPrefix(items, i + 1, |items|);
    var data, off, k := Encoded(items, |items|), |Encoded(items, i)|, |items[i].data|;
    assert data[off..off + 4 + k] == data[..|Encoded(items, i + 1)|][off..off + 4 + k];
  }

  lemma DecodeInPlace(data: bytes, off: nat, item: ReadVarItem, isLast: bool)
    requires Faithful(item) && off + 4 + |item.data| <= |data|
    requires data[off..off + 4 + |item.data|] == ItemOctets(item)
    requires !isLast ==> off + 4 + |item.data| + |Fill(item, isLast)| <= |data|
    requires isLast ==> off + 4 + |item.data| == |data|
    ensures DecodeItem(data, off, isLast) == Some((item, off + 4 + |item.data| + |Fill(item, isLast)|))
  {
    var s := data[off..off + 4 + |item.data|];
    assert data[off] == s[0] && data[off + 1] == s[1] && data[off + 2] == s[2] && data[off + 3] == s[3];
    assert data[off + 4..off + 4 + |item.data|] == s[4..] == item.data;
  }

  lemma {:induction false} ItemsFromEncoded(items: seq<ReadVarItem>, i: nat)
    requires i <= |items| && forall j :: 0 <= j < |items| ==> Faithful(items[j])
    ensures ItemsFrom(Encoded(items, |items|), |Encoded(items, i)|, |items| - i, items[..i]) == Some(items)
    decreases |items| - i
  {
    hide DecodeItem, Faithful, ItemOctets, Fill, Encoded;
    if i == |items| {
      assert items[..i] == items;
    } else {
      ItemInPlace(items, i);
      DecodeInPlace(Encoded(items, |items|), |Encoded(items, i)|, items[i], i + 1 == |items|);
      ItemsFromEncoded(items, i + 1);
      assert items[..i + 1] == items[..i] + [items[i]];
    }
  }

  /** The client reads back every list of up to 255 faithful results, across all fill-byte patterns. */
  lemma ParseUndoesReadVarResponse(pduRef: u16, items: seq<ReadVarItem>)
    requires |items| <= 0xFF && SizeSum(items, |items|) < 0x1_0000
    requires forall j :: 0 <= j < |items| ==> Faithful(items[j])
    ensures var out := ReadVarResponse(pduRef, items);
      && out.Some? && |out.value| == 14 + SizeSum(items, |items|)
      && var data := Encoded(items, |items|);
         && IsAnswerWith(out.value, pduRef, 0, 0, [FUNC_READ, |items|], data)
         && ParsedItems([FUNC_READ, |items|], data) == Some(items)
  {
    EncodedSize(items, |items|);
    ParseUndoesAckData(pduRef, 0, 0, [FUNC_READ, |items|], Encoded(items, |items|));
    ItemsFromEncoded(items, 0);
    assert Encoded(items, 0) == [] && items[..0] == [];
  }

  //
  // Write Var answers.
  //

  function WriteVarResponse(pduRef: u16, codes: bytes): Option<bytes> {
    if |codes| > 0xFF then None else EncodeAckData(pduRef, 0, 0, [FUNC_WRITE, |codes|], codes)
  }

  function ParsedCodes(param: bytes, data: bytes): Option<bytes> {
    if |param| < 2 || param[0] != FUNC_WRITE || param[1] == 0 || |data| < param[1] as int then None
    else Some(data[..param[1]])
  }

  /** Outcome of a Write Var answer for the client. */
  datatype WriteOutcome = Written | ItemRefused(index: nat, code: byte) | BadWriteAnswer

  function FirstRefusal(codes: bytes, i: nat): WriteOutcome
    requires i <= |codes|
    decreases |codes| - i
  {
    if i == |codes| then Written
    else if codes[i] != RET_SUCCESS then ItemRefused(i, codes[i])
    else FirstRefusal(codes, i + 1)
  }

  function ParsedWriteAnswer(param: bytes, data: bytes): WriteOutcome {
    match ParsedCodes(param, data)
    case None => BadWriteAnswer
    case Some(codes) => FirstRefusal(codes, 0)
  }

  method ParseWriteVarResponse(param: bytes, data: bytes) returns (r: WriteOutcome)
    ensures r == ParsedWriteAnswer(param, data)
    ensures r.Written? ==> |param| >= 2 && 0 < param[1] as int <= |data|
                           && forall i :: 0 <= i < param[1] as int ==> data[i] == RET_SUCCESS
    ensures r.ItemRefused? ==> r.index < |data| && data[r.index] == r.code != RET_SUCCESS
                               && forall i :: 0 <= i < r.index ==> data[i] == RET_SUCCESS
    ensures r.BadWriteAnswer? <==> |param| < 2 || param[0] != 0x05 || param[1] == 0 || |data| < param[1] as int
  {
    var codes := ParsedCodes(param, data);
    if codes.None? {
      return BadWriteAnswer;
    }
    for i := 0 to |codes.value|
      invariant ParsedWriteAnswer(param, data) == FirstRefusal(codes.value, i)
      invariant forall j :: 0 <= j < i ==> data[j] == RET_SUCCESS
    {
      if codes.value[i] != RET_SUCCESS {
        return ItemRefused(i, codes.value[i]);
      }
    }
    return Written;
  }

  /** The client reads back the codes the server sent, for 1 to 255 items. */
  lemma ParseUndoesWriteVarResponse(pduRef: u16, codes: bytes)
    requires 0 < |codes| <= 0xFF
    ensures var out := WriteVarResponse(pduRef, codes);
      && out.Some? && IsAnswerWith(out.value, pduRef, 0, 0, [FUNC_WRITE, |codes|], codes)
      && ParsedCodes([FUNC_WRITE, |codes|], codes) == Some(codes)
  {
    ParseUndoesAckData(pduRef, 0, 0, [FUNC_WRITE, |codes|], codes);
    assert codes[..|codes|] == codes;
  }
}
