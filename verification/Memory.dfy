/** The server's registered areas and the host-side operations on them. */
module Memory {
  import opened Octets

  const AREA_INPUTS: byte := 0x81
  const AREA_OUTPUTS: byte := 0x82
  const AREA_MERKERS: byte := 0x83
  const AREA_DB: byte := 0x84
  const AREA_COUNTERS: byte := 0x1C
  const AREA_TIMERS: byte := 0x1D

  const MAX_AREA_SIZE := 0x20_0000

  datatype AreaKey = AreaKey(area: byte, db: u16)
  datatype Region = Region(data: bytes, readOnly: bool)
  type Mem = map<AreaKey, Region>

  datatype HostError = UnknownArea | AreaExists | OutOfRange
  datatype HostResult<+T> = Done(value: T) | Failed(error: HostError)

  predicate ValidArea(area: byte) {
    area in {AREA_INPUTS, AREA_OUTPUTS, AREA_MERKERS, AREA_DB, AREA_TIMERS, AREA_COUNTERS}
  }

  predicate TimerOrCounter(area: byte) {
    area == AREA_TIMERS || area == AREA_COUNTERS
  }

  /** The key of an area; only data blocks have a number, from 1 on. */
  function KeyOf(area: byte, db: int): Option<AreaKey> {
    if !ValidArea(area) then None
    else if area != AREA_DB then Some(AreaKey(area, 0))
    else if 1 <= db <= 0xFFFF then Some(AreaKey(area, db))
    else None
  }

  /** data with value in place of the bytes from start on. */
  function Splice(data: bytes, start: nat, value: bytes): (r: bytes)
    requires start + |value| <= |data|
    ensures |r| == |data|
    ensures forall j :: 0 <= j < |r| ==>
      r[j] == if start <= j < start + |value| then value[j - start] else data[j]
  {
    data[..start] + value + data[start + |value|..]
  }

  function WithData(mem: Mem, key: AreaKey, data: bytes): Mem
    requires key in mem
  {
    mem[key := mem[key].(data := data)]
  }

  //
  // The host side.
  //

  /** The key of a span inside its area. */
  function Span(mem: Mem, area: byte, db: int, start: int, size: int): HostResult<AreaKey> {
    match KeyOf(area, db)
    case None => Failed(UnknownArea)
    case Some(key) =>
      if key !in mem then Failed(UnknownArea)
      else if start < 0 || size < 0 || start > |mem[key].data| || size > |mem[key].data| - start then Failed(OutOfRange)
      else Done(key)
  }

  function Register(mem: Mem, area: byte, db: int, data: bytes, readOnly: bool): (HostResult<()>, Mem) {
    match KeyOf(area, db)
    case None => (Failed(UnknownArea), mem)
    case Some(key) =>
      if |data| == 0 || |data| > MAX_AREA_SIZE then (Failed(OutOfRange), mem)
      else if key in mem then (Failed(AreaExists), mem)
      else (Done(()), mem[key := Region(data, readOnly)])
  }

  function HostRead(mem: Mem, area: byte, db: int, start: int, size: int): HostResult<bytes> {
    match Span(mem, area, db, start, size)
    case Failed(e) => Failed(e)
    case Done(key) => Done(mem[key].data[start..start + size])
  }

  function HostWrite(mem: Mem, area: byte, db: int, start: int, data: bytes): (HostResult<()>, Mem) {
    match Span(mem, area, db, start, |data|)
    case Failed(e) => (Failed(e), mem)
    case Done(key) => (Done(()), WithData(mem, key, Splice(mem[key].data, start, data)))
  }

  /** The areas there are: inputs, outputs, markers, counters and timers without a number, and data blocks 1 to 65535.
      */
  lemma KeyExact(area: byte, db: int)
    ensures KeyOf(area, db) == if area in {0x81, 0x82, 0x83, 0x1C, 0x1D} then Some(AreaKey(area, 0))
                               else if area == 0x84 && 0 < db < 0x1_0000 then Some(AreaKey(area, db))
                               else None
    ensures TimerOrCounter(area) <==> area in {0x1C, 0x1D}
  {
  }

  /** The host reads any part of an area that is there, and gets why not of anything else. */
  lemma HostReadExact(mem: Mem, area: byte, db: int, start: int, size: int)
    ensures var r, key := HostRead(mem, area, db, start, size), KeyOf(area, db);
      && (r == Failed(UnknownArea) <==> key.None? || key.value !in mem)
      && (r.Done? <==> key.Some? && key.value in mem && 0 <= start <= start + size <= |mem[key.value].data|)
      && (r.Done? ==> |r.value| == size && forall i :: 0 <= i < size ==> r.value[i] == mem[key.value].data[start + i])
      && r != Failed(AreaExists)
  {
  }

  /** An area is added exactly when its key is valid and new and its size from 1 to 2097152. Then all of it reads back
      as registered, and every other area is as before; otherwise nothing changes, and the error is the first of unknown
      area, size and existing area that applies. */
  lemma RegisterThenRead(mem: Mem, area: byte, db: int, data: bytes, readOnly: bool)
    ensures var (r, mem') := Register(mem, area, db, data, readOnly);
      var key := KeyOf(area, db);
      && (r.Done? <==> key.Some? && key.value !in mem && 0 < |data| <= 2097152)
      && (r.Failed? ==> mem' == mem
                        && r.error == if key.None? then UnknownArea
                                      else if |data| == 0 || |data| > 2097152 then OutOfRange else AreaExists)
      && (r.Done? ==>
            && HostRead(mem', area, db, 0, |data|) == Done(data) && mem'[key.value].readOnly == readOnly
            && mem'.Keys == mem.Keys + {key.value} && forall k :: k in mem ==> mem'[k] == mem[k])
  {
    assert data[0..0 + |data|] == data;
  }

  /** The same areas, of the same sizes, with the same write protection. */
  ghost predicate SameShape(a: Mem, b: Mem) {
    && a.Keys == b.Keys
    && forall k :: k in a ==> |a[k].data| == |b[k].data| && a[k].readOnly == b[k].readOnly
  }

  /** A host write is read back, whatever else the host reads is as before, and no area appears or changes its size. */
  lemma HostWriteThenRead(mem: Mem, area: byte, db: int, start: int, data: bytes,
                          area': byte, db': int, start': int, size': int)
    requires HostWrite(mem, area, db, start, data).0.Done?
    ensures var mem' := HostWrite(mem, area, db, start, data).1;
      && HostRead(mem', area, db, start, |data|) == Done(data)
      && SameShape(mem, mem')
      && (KeyOf(area', db') != KeyOf(area, db) || start' + size' <= start || start + |data| <= start' ==>
            HostRead(mem', area', db', start', size') == HostRead(mem, area', db', start', size'))
  {
    var mem' := HostWrite(mem, area, db, start, data).1;
    var key := KeyOf(area, db).value;
    assert mem'[key].data[start..start + |data|] == data;
    if HostRead(mem, area', db', start', size').Done? {
      var key' := KeyOf(area', db').value;
      if key' != key || start' + size' <= start || start + |data| <= start' {
        assert mem'[key'].data[start'..start' + size'] == mem[key'].data[start'..start' + size'];
      }
    }
  }

  lemma SameShapeTransitive(a: Mem, b: Mem, c: Mem)
    requires SameShape(a, b) && SameShape(b, c)
    ensures SameShape(a, c)
  {
    forall k | k in a
      ensures |a[k].data| == |c[k].data| && a[k].readOnly == c[k].readOnly
    {
      assert k in b;
    }
  }

  /** The shared store: the server's sessions and its host both work on one of these. */
  class Store {
    var regions: Mem

    constructor ()
      ensures regions == map[]
    {
      regions := map[];
    }

    method RegisterArea(area: byte, db: int, data: bytes, readOnly: bool) returns (r: HostResult<()>)
      modifies this
      ensures (r, regions) == Register(old(regions), area, db, data, readOnly)
    {
      var key := KeyOf(area, db);
      if key.None? {
        return Failed(UnknownArea);
      }
      if |data| == 0 || |data| > MAX_AREA_SIZE {
        return Failed(OutOfRange);
      }
      if key.value in regions {
        return Failed(AreaExists);
      }
      regions := regions[key.value := Region(data, readOnly)];
      return Done(());
    }

    method Read(area: byte, db: int, start: int, size: int) returns (r: HostResult<bytes>)
      ensures r == HostRead(regions, area, db, start, size)
    {
      var key := Span(regions, area, db, start, size);
      if key.Failed? {
        return Failed(key.error);
      }
      return Done(regions[key.value].data[start..start + size]);
    }

    method Write(area: byte, db: int, start: int, data: bytes) returns (r: HostResult<()>)
      modifies this
      ensures (r, regions) == HostWrite(old(regions), area, db, start, data)
    {
      var key := Span(regions, area, db, start, |data|);
      if key.Failed? {
        return Failed(key.error);
      }
      var region := regions[key.value];
      regions := regions[key.value := region.(data := Splice(region.data, start, data))];
      return Done(());
    }
  }
}
