/** What one item of a Read Var or Write Var job does to memory. */
module VarItems {
  import opened Octets
  import opened Message
  import opened VarSpecs
  import opened WriteData
  import opened Requests
  import opened Answers
  import opened Memory

  const TRANSPORT_CHAR: byte := 0x03
  const TRANSPORT_WORD: byte := 0x04
  const TRANSPORT_INT: byte := 0x05
  const TRANSPORT_DWORD: byte := 0x06
  const TRANSPORT_DINT: byte := 0x07
  const TRANSPORT_REAL: byte := 0x08
  const TRANSPORT_COUNTER: byte := 0x1C
  const TRANSPORT_TIMER: byte := 0x1D

  /** Bytes per element of a request transport size, 0 for one the server does not take. */
  function ElementSize(transport: byte): nat {
    if transport in {TRANSPORT_BIT, TRANSPORT_BYTE, TRANSPORT_CHAR} then 1
    else if transport in {TRANSPORT_WORD, TRANSPORT_INT, TRANSPORT_COUNTER, TRANSPORT_TIMER} then 2
    else if transport in {TRANSPORT_DWORD, TRANSPORT_DINT, TRANSPORT_REAL} then 4
    else 0
  }

  predicate IsTimerTransport(transport: byte) {
    transport == TRANSPORT_TIMER || transport == TRANSPORT_COUNTER
  }

  /** A decoded item address: size bytes of an area from start, or one bit of one byte. */
  datatype Target = Target(key: AreaKey, start: nat, bit: nat, size: nat, transport: byte) {
    predicate IsBit() { transport == TRANSPORT_BIT }
  }

  datatype Resolution = Refused(code: byte) | Resolved(target: Target)

  function ResolveIn(length: nat, key: AreaKey, spec: VarSpec): Resolution {
    var per, tc := ElementSize(spec.transport), IsTimerTransport(spec.transport);
    var size, isBit := per * spec.count, spec.transport == TRANSPORT_BIT;
    if per == 0 then Refused(RET_TYPE)
    else if TimerOrCounter(spec.area) != tc || (tc && spec.transport != spec.area) then Refused(RET_ADDRESS)
    else if size == 0 || (isBit && size > 1) then Refused(RET_ADDRESS)
    else if !tc && !isBit && spec.startBit % 8 != 0 then Refused(RET_ADDRESS)
    else
      var start := if tc then 2 * spec.startBit else spec.startBit / 8;
      var bit := if tc then 0 else spec.startBit % 8;
      if start + size > length then Refused(RET_ADDRESS)
      else Resolved(Target(key, start, bit, size, spec.transport))
  }

  /** Checks one item against memory. */
  function Resolve(mem: Mem, spec: VarSpec): Resolution {
    if spec.syntax != SYNTAX_S7ANY then Refused(RET_ADDRESS)
    else
      match KeyOf(spec.area, spec.db)
      case None => Refused(RET_NOT_AVAILABLE)
      case Some(key) =>
        if key !in mem then Refused(RET_NOT_AVAILABLE)
        else ResolveIn(|mem[key].data|, key, spec)
  }

  predicate InMem(mem: Mem, t: Target) {
    && t.key in mem && t.start + t.size <= |mem[t.key].data| && t.size > 0
    && t.bit < 8 && (t.IsBit() ==> t.size == 1)
  }

  lemma ResolvedInMem(mem: Mem, spec: VarSpec)
    ensures Resolve(mem, spec).Resolved? ==>
      var t := Resolve(mem, spec).target;
      InMem(mem, t) && t.key.area == spec.area && t.transport == spec.transport
    ensures Resolve(mem, spec).Refused? ==> Resolve(mem, spec).code != RET_SUCCESS
  {
  }

  /** How an item resolves depends on which areas there are and their sizes, not on what they hold. */
  lemma ResolveByShape(a: Mem, b: Mem, spec: VarSpec)
    requires SameShape(a, b)
    ensures Resolve(a, spec) == Resolve(b, spec)
  {
    hide ResolveIn;
  }

  //
  // Reading.
  //

  /** An item length for its 16-bit wire field. */
  function LengthField(n: nat): u16 {
    if n > 0xFFFF then 0xFFFF else n
  }

  function RefusedItem(code: byte): ReadVarItem {
    ReadVarItem(code, 0, 0, [])
  }

  /** The addressed bytes. */
  function Slice(mem: Mem, t: Target): bytes
    requires InMem(mem, t)
  {
    mem[t.key].data[t.start..t.start + t.size]
  }

  function ReadResult(mem: Mem, t: Target): ReadVarItem
    requires InMem(mem, t)
  {
    var src := Slice(mem, t);
    if t.IsBit() then ReadVarItem(RET_SUCCESS, DATA_BIT, 1, [BitAt(src[0], t.bit)])
    else if t.transport == TRANSPORT_INT then ReadVarItem(RET_SUCCESS, DATA_INT, LengthField(t.size * 8), src)
    else if t.transport == TRANSPORT_DINT then ReadVarItem(RET_SUCCESS, DATA_DINT, LengthField(t.size), src)
    else if t.transport == TRANSPORT_REAL then ReadVarItem(RET_SUCCESS, DATA_REAL, LengthField(t.size), src)
    else if t.transport == TRANSPORT_CHAR || IsTimerTransport(t.transport) then
      ReadVarItem(RET_SUCCESS, DATA_OCTET, LengthField(t.size), src)
    else ReadVarItem(RET_SUCCESS, DATA_BYTE, LengthField(t.size * 8), src)
  }

  function ReadAny(mem: Mem, spec: VarSpec): ReadVarItem {
    match Resolve(mem, spec)
    case Refused(code) => RefusedItem(code)
    case Resolved(t) => ResolvedInMem(mem, spec); ReadResult(mem, t)
  }

  /** A refused item has no data; an accepted one has as many bytes as it addresses. */
  lemma ReadAnySize(mem: Mem, spec: VarSpec)
    ensures match Resolve(mem, spec)
      case Refused(code) => ReadAny(mem, spec) == RefusedItem(code)
      case Resolved(t) =>
        InMem(mem, t) && ReadAny(mem, spec) == ReadResult(mem, t) && |ReadAny(mem, spec).data| == t.size
  {
    hide Resolve;
    ResolvedInMem(mem, spec);
  }

  /** What the server demands of an S7ANY item apart from where it lies: a transport size it takes, timers and counters
      with their own and nothing else with it, at least one element, one bit at most, and bytes on byte boundaries. */
  predicate Acceptable(spec: VarSpec) {
    && spec.syntax == SYNTAX_S7ANY && ElementSize(spec.transport) > 0 && spec.count > 0
    && (if TimerOrCounter(spec.area) then spec.transport == spec.area else !IsTimerTransport(spec.transport))
    && (spec.transport == TRANSPORT_BIT ==> spec.count == 1)
    && (spec.transport == TRANSPORT_BIT || IsTimerTransport(spec.transport) || spec.startBit % 8 == 0)
  }

  /** The first byte of an item; timers and counters are addressed by element. */
  function ByteStart(spec: VarSpec): nat {
    if IsTimerTransport(spec.transport) then 2 * spec.startBit else spec.startBit / 8
  }

  /** An item is read exactly when it is acceptable and the host could read the same bytes, and gives those bytes, or
      the addressed bit of them. An area that is not there is refused with 0x0A, a transport size the server does not
      take with 0x06, everything else with 0x05. */
  lemma ReadAnyIsHostRead(mem: Mem, spec: VarSpec)
    ensures var r := ReadAny(mem, spec);
      var host := HostRead(mem, spec.area, spec.db, ByteStart(spec), ElementSize(spec.transport) * spec.count);
      && (r.returnCode == RET_SUCCESS <==> Acceptable(spec) && host.Done?)
      && (r.returnCode == RET_SUCCESS ==>
            r.data == if spec.transport == TRANSPORT_BIT then [BitAt(host.value[0], spec.startBit % 8)] else host.value)
      && (r.returnCode != RET_SUCCESS ==>
            r.returnCode == if spec.syntax != SYNTAX_S7ANY then RET_ADDRESS
                            else if host == Failed(UnknownArea) then RET_NOT_AVAILABLE
                            else if ElementSize(spec.transport) == 0 then RET_TYPE
                            else RET_ADDRESS)
  {
    hide BitAt;
    ResolvedInMem(mem, spec);
  }

  /** The same in numbers. A read item is taken with transport size 1 to 8, 0x1C or 0x1D; its elements have 1, 2 or 4
      bytes; and the answer's transport size is 3 with one bit, 4 and 5 with the length in bits, 6, 7 and 9 in bytes. */
  lemma ReadAnyExact(mem: Mem, spec: VarSpec)
    ensures var r, key, t := ReadAny(mem, spec), KeyOf(spec.area, spec.db), spec.transport;
      var there := key.Some? && key.value in mem;
      var width := if t in {1, 2, 3} then 1 else if t in {4, 5, 0x1C, 0x1D} then 2 else 4;
      var start := if t in {0x1C, 0x1D} then 2 * spec.startBit else spec.startBit / 8;
      && (r.returnCode == 0x0A <==> spec.syntax == 0x10 && !there)
      && (r.returnCode == 0x06 <==> spec.syntax == 0x10 && there && t !in {1, 2, 3, 4, 5, 6, 7, 8, 0x1C, 0x1D})
      && (r.returnCode == 0xFF <==>
            && spec.syntax == 0x10 && there && t in {1, 2, 3, 4, 5, 6, 7, 8, 0x1C, 0x1D}
            && (if spec.area in {0x1C, 0x1D} then t == spec.area else t !in {0x1C, 0x1D})
            && (if t == 1 then spec.count == 1 else spec.count > 0 && (t in {0x1C, 0x1D} || spec.startBit % 8 == 0))
            && start + spec.count * width <= |mem[key.value].data|)
      && (r.returnCode != 0xFF ==> r == ReadVarItem(r.returnCode, 0, 0, []) && r.returnCode in {0x05, 0x06, 0x0A})
      && (r.returnCode == 0xFF ==>
            && |r.data| == spec.count * width
            && (t == 1 ==> r.transport == 3 && r.rawLength == 1)
            && (t in {2, 4, 6} ==> r.transport == 4) && (t == 5 ==> r.transport == 5)
            && (t == 7 ==> r.transport == 6) && (t == 8 ==> r.transport == 7)
            && (t in {3, 0x1C, 0x1D} ==> r.transport == 9)
            && (t in {2, 4, 5, 6} && |r.data| <= 8191 ==> r.rawLength == |r.data| * 8)
            && (t in {3, 7, 8, 0x1C, 0x1D} && |r.data| < 0x1_0000 ==> r.rawLength == |r.data|))
  {
    hide BitAt, KeyOf;
    KeyExact(spec.area, spec.db);
    ResolvedInMem(mem, spec);
  }

  /** Reading one bit gives that bit of what reading its byte gives, in every memory. */
  lemma BitReadIsBitOfByteRead(mem: Mem, spec: VarSpec)
    requires spec.transport == TRANSPORT_BIT && spec.count == 1
    ensures var byteSpec := spec.(transport := TRANSPORT_BYTE, startBit := spec.startBit / 8 * 8);
      var bitRead, byteRead := ReadAny(mem, spec), ReadAny(mem, byteSpec);
      && bitRead.returnCode == byteRead.returnCode
      && |bitRead.data| == |byteRead.data|
      && (bitRead.returnCode == RET_SUCCESS ==>
            |byteRead.data| == 1 && bitRead.data == [BitAt(byteRead.data[0], spec.startBit % 8)])
  {
  }

  //
  // DBREAD.
  //

  /** The S7ANY item that reads one range of a DBREAD item. */
  function RangeSpec(r: DBRange): VarSpec {
    VarSpec(SYNTAX_S7ANY, TRANSPORT_BYTE, r.length, r.db, AREA_DB, r.start * 8)
  }

  /** The reference: the ranges are read one by one as byte items; each gives the code 0xFF and its bytes,
      and the first one refused refuses the item with its code. */
  function DbReadFrom(mem: Mem, ranges: seq<DBRange>, i: nat, data: bytes): ReadVarItem
    requires i <= |ranges|
    decreases |ranges| - i
  {
    if i == |ranges| then ReadVarItem(RET_SUCCESS, DATA_OCTET, LengthField(|data|), data)
    else
      var r := ReadAny(mem, RangeSpec(ranges[i]));
      if r.returnCode != RET_SUCCESS then RefusedItem(r.returnCode)
      else DbReadFrom(mem, ranges, i + 1, data + [RET_SUCCESS] + r.data)
  }

  function DbReadItem(mem: Mem, ranges: seq<DBRange>): ReadVarItem {
    DbReadFrom(mem, ranges, 0, [])
  }

  lemma RangeRead(mem: Mem, r: DBRange)
    ensures var key := AreaKey(AREA_DB, r.db);
      ReadAny(mem, RangeSpec(r)) ==
        if key !in mem || r.db == 0 then RefusedItem(RET_NOT_AVAILABLE)
        else if r.length == 0 || r.start + r.length > |mem[key].data| then RefusedItem(RET_ADDRESS)
        else ReadVarItem(RET_SUCCESS, DATA_BYTE, r.length * 8, mem[key].data[r.start..r.start + r.length])
  {
    assert r.start * 8 / 8 == r.start && r.start * 8 % 8 == 0;
  }

  /** Where the slice of range i begins in a DBREAD answer: behind the earlier slices and i + 1 return codes. */
  function SliceStart(ranges: seq<DBRange>, i: nat): nat
    requires i <= |ranges|
  {
    if i == 0 then 1 else SliceStart(ranges, i - 1) + ranges[i - 1].length + 1
  }

  ghost predicate SliceAt(mem: Mem, ranges: seq<DBRange>, j: nat, data: bytes)
    requires j < |ranges|
  {
    var at := SliceStart(ranges, j);
    && 1 <= at && at + ranges[j].length <= |data| && data[at - 1] == RET_SUCCESS
    && data[at..at + ranges[j].length] == ReadAny(mem, RangeSpec(ranges[j])).data
  }

  /** data is the answer to the first i ranges: a return code and the bytes of each. */
  ghost predicate HoldsSlices(mem: Mem, ranges: seq<DBRange>, i: nat, data: bytes)
    requires i <= |ranges|
  {
    && |data| == SliceStart(ranges, i) - 1
    && forall j :: 0 <= j < i ==> SliceAt(mem, ranges, j, data)
  }

  lemma SliceStays(mem: Mem, ranges: seq<DBRange>, j: nat, data: bytes, more: bytes)
    requires j < |ranges| && SliceAt(mem, ranges, j, data)
    ensures SliceAt(mem, ranges, j, data + more)
  {
    var at := SliceStart(ranges, j);
    assert (data + more)[at..at + ranges[j].length] == data[at..at + ranges[j].length];
  }

  lemma SliceAdded(mem: Mem, ranges: seq<DBRange>, i: nat, data: bytes)
    requires i < |ranges| && |data| == SliceStart(ranges, i) - 1
    requires ReadAny(mem, RangeSpec(ranges[i])).returnCode == RET_SUCCESS
    ensures var data' := data + [RET_SUCCESS] + ReadAny(mem, RangeSpec(ranges[i])).data;
      |data'| == SliceStart(ranges, i + 1) - 1 && SliceAt(mem, ranges, i, data')
  {
    hide ReadAny;
    RangeRead(mem, ranges[i]);
    var got := ReadAny(mem, RangeSpec(ranges[i])).data;
    var data' := data + [RET_SUCCESS] + got;
    assert |got| == ranges[i].length as int;
    assert data'[|data| + 1..|data| + 1 + |got|] == got;
  }

  lemma {:induction false} DbReadFromSlices(mem: Mem, ranges: seq<DBRange>, i: nat, data: bytes)
    requires i <= |ranges| && HoldsSlices(mem, ranges, i, data)
    ensures var r := DbReadFrom(mem, ranges, i, data);
      if r.returnCode == RET_SUCCESS then r.transport == DATA_OCTET && r.rawLength == LengthField(|r.data|)
                                          && HoldsSlices(mem, ranges, |ranges|, r.data)
      else exists j :: i <= j < |ranges| && r == ReadAny(mem, RangeSpec(ranges[j]))
                       && forall k :: i <= k < j ==> ReadAny(mem, RangeSpec(ranges[k])).returnCode == RET_SUCCESS
    decreases |ranges| - i
  {
    hide ReadAny, SliceAt, SliceStart;
    if i < |ranges| {
      var r := ReadAny(mem, RangeSpec(ranges[i]));
      RangeRead(mem, ranges[i]);
      if r.returnCode == RET_SUCCESS {
        var data' := data + [RET_SUCCESS] + r.data;
        assert data' == data + ([RET_SUCCESS] + r.data);
        SliceAdded(mem, ranges, i, data);
        forall j | 0 <= j < i ensures SliceAt(mem, ranges, j, data') {
          SliceStays(mem, ranges, j, data, [RET_SUCCESS] + r.data);
        }
        DbReadFromSlices(mem, ranges, i + 1, data');
      }
    }
  }

  lemma {:induction false} AllRangesRead(mem: Mem, ranges: seq<DBRange>, i: nat, data: bytes)
    requires i <= |ranges| && DbReadFrom(mem, ranges, i, data).returnCode == RET_SUCCESS
    ensures forall j :: i <= j < |ranges| ==> ReadAny(mem, RangeSpec(ranges[j])).returnCode == RET_SUCCESS
    decreases |ranges| - i
  {
    hide ReadAny;
    if i < |ranges| {
      var r := ReadAny(mem, RangeSpec(ranges[i]));
      AllRangesRead(mem, ranges, i + 1, data + [RET_SUCCESS] + r.data);
    }
  }

  /** A DBREAD item is answered as the byte reads of its ranges: cutting a successful answer by the range lengths
      gives back each range's bytes; a refused answer is that of the first range refused. */
  lemma DbReadIsByteReads(mem: Mem, ranges: seq<DBRange>)
    ensures var r := DbReadItem(mem, ranges);
      && (r.returnCode == RET_SUCCESS <==>
            forall j :: 0 <= j < |ranges| ==> ReadAny(mem, RangeSpec(ranges[j])).returnCode == RET_SUCCESS)
      && (r.returnCode == RET_SUCCESS ==> HoldsSlices(mem, ranges, |ranges|, r.data))
      && (r.returnCode != RET_SUCCESS ==>
            exists j :: 0 <= j < |ranges| && r == ReadAny(mem, RangeSpec(ranges[j]))
                        && forall k :: 0 <= k < j ==> ReadAny(mem, RangeSpec(ranges[k])).returnCode == RET_SUCCESS)
  {
    hide ReadAny, SliceAt;
    DbReadFromSlices(mem, ranges, 0, []);
    if DbReadItem(mem, ranges).returnCode == RET_SUCCESS {
      AllRangesRead(mem, ranges, 0, []);
    }
  }

  lemma {:induction false} SliceStartBound(ranges: seq<DBRange>, i: nat)
    requires i <= |ranges|
    ensures SliceStart(ranges, i) <= 1 + 256 * i
  {
    if i > 0 {
      SliceStartBound(ranges, i - 1);
    }
  }

  /** The answer to a Read Var item. */
  function ReadItem(mem: Mem, spec: VarSpec, ranges: seq<DBRange>): ReadVarItem {
    if spec.syntax == SYNTAX_DBREAD then DbReadItem(mem, ranges) else ReadAny(mem, spec)
  }

  lemma DbReadFaithful(mem: Mem, ranges: seq<DBRange>)
    requires |ranges| <= 50
    ensures Faithful(DbReadItem(mem, ranges)) && |DbReadItem(mem, ranges).data| <= 12800
  {
    hide ReadAny, SliceAt;
    DbReadIsByteReads(mem, ranges);
    DbReadFromSlices(mem, ranges, 0, []);
    SliceStartBound(ranges, |ranges|);
    var r := DbReadItem(mem, ranges);
    if r.returnCode != RET_SUCCESS {
      var j :| 0 <= j < |ranges| && r == ReadAny(mem, RangeSpec(ranges[j]));
      RangeRead(mem, ranges[j]);
    }
  }

  /** Every answer item is one the client reads back without loss, unless its length field would overflow. */
  lemma ReadItemFaithful(mem: Mem, spec: VarSpec, ranges: seq<DBRange>)
    requires |ranges| <= 50
    ensures var r := ReadItem(mem, spec, ranges);
      && (|r.data| <= 8191 || spec.syntax == SYNTAX_DBREAD ==> Faithful(r))
      && (spec.syntax == SYNTAX_DBREAD ==> |r.data| <= 12800)
  {
    DbReadFaithful(mem, ranges);
    ResolvedInMem(mem, spec);
  }

  //
  // Writing.
  //

  /** The return code of a write item; it does not depend on what memory holds. */
  function WriteCode(mem: Mem, spec: VarSpec, item: WriteVarData): byte {
    match Resolve(mem, spec)
    case Refused(code) => code
    case Resolved(t) =>
      if |item.data| != t.size then RET_SIZE
      else if t.key !in mem || mem[t.key].readOnly || TimerOrCounter(spec.area) then RET_ACCESS
      else RET_SUCCESS
  }

  /** A write is refused as the read of the same item is; with 0x07 when its data are not as long as what that read
      gives; and with 0x03 when the area is protected or holds timers or counters. */
  lemma WriteCodeExact(mem: Mem, spec: VarSpec, item: WriteVarData)
    ensures var read := ReadAny(mem, spec);
      var key := KeyOf(spec.area, spec.db);
      WriteCode(mem, spec, item) ==
        if read.returnCode != 0xFF then read.returnCode
        else if |item.data| != |read.data| then 0x07
        else if spec.area in {0x1C, 0x1D} || (key.Some? && key.value in mem && mem[key.value].readOnly) then 0x03
        else 0xFF
  {
    ResolvedInMem(mem, spec);
    ReadAnySize(mem, spec);
  }

  /** Memory with the item's data in the addressed place. */
  function Patch(mem: Mem, t: Target, data: bytes): Mem
    requires InMem(mem, t) && |data| == t.size
  {
    var was := mem[t.key].data;
    var value := if t.IsBit() then [WithBitOfByte(was[t.start], t.bit, data[0] % 2 != 0)] else data;
    WithData(mem, t.key, Splice(was, t.start, value))
  }

  /** The effect of a write item: memory changes only when the code is success. */
  function WriteItem(mem: Mem, spec: VarSpec, item: WriteVarData): (Mem, byte) {
    ResolvedInMem(mem, spec);
    var code := WriteCode(mem, spec, item);
    if code == RET_SUCCESS then (Patch(mem, Resolve(mem, spec).target, item.data), code) else (mem, code)
  }

  /** A write keeps every area and its size, and changes nothing outside its target: no other area, no other byte,
      and for a bit item no other bit. */
  lemma WriteItemFrame(mem: Mem, spec: VarSpec, item: WriteVarData)
    ensures var (mem', code) := WriteItem(mem, spec, item);
      && SameShape(mem, mem')
      && (code != RET_SUCCESS ==> mem' == mem)
      && (code == RET_SUCCESS ==>
            var t := Resolve(mem, spec).target;
            && InMem(mem, t) && !mem[t.key].readOnly && !TimerOrCounter(t.key.area)
            && (forall k :: k in mem && k != t.key ==> mem'[k] == mem[k])
            && (forall j :: 0 <= j < |mem[t.key].data| && !(t.start <= j < t.start + t.size) ==>
                  mem'[t.key].data[j] == mem[t.key].data[j])
            && (t.IsBit() ==> forall b :: 0 <= b < 8 && b != t.bit ==>
                  BitAt(mem'[t.key].data[t.start], b) == BitAt(mem[t.key].data[t.start], b)))
  {
    hide Resolve;
    ResolvedInMem(mem, spec);
    if WriteCode(mem, spec, item) == RET_SUCCESS {
      var t := Resolve(mem, spec).target;
      if t.IsBit() {
        forall b | 0 <= b < 8
          ensures BitAt(WithBit(mem[t.key].data[t.start], t.bit, item.data[0] % 2 != 0), b)
               == if b == t.bit then (if item.data[0] % 2 != 0 then 1 else 0) else BitAt(mem[t.key].data[t.start], b)
        {
          WithBitChangesOneBit(mem[t.key].data[t.start], t.bit, item.data[0] % 2 != 0, b);
        }
      }
    }
  }

  /** What a write put in memory, the same item reads back: the data, or the bit. */
  lemma WriteThenRead(mem: Mem, spec: VarSpec, item: WriteVarData)
    requires WriteCode(mem, spec, item) == RET_SUCCESS
    ensures var r := ReadAny(WriteItem(mem, spec, item).0, spec);
      r.returnCode == RET_SUCCESS
      && r.data == if spec.transport == TRANSPORT_BIT then [item.data[0] % 2] else item.data
  {
    hide Resolve;
    var mem' := WriteItem(mem, spec, item).0;
    WriteItemFrame(mem, spec, item);
    ResolveByShape(mem, mem', spec);
    ResolvedInMem(mem, spec);
    ResolvedInMem(mem', spec);
    var t := Resolve(mem, spec).target;
    if t.IsBit() {
      WithBitChangesOneBit(mem[t.key].data[t.start], t.bit, item.data[0] % 2 != 0, t.bit);
    } else {
      assert Slice(mem', t) == item.data;
    }
  }
}
