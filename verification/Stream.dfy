/** TCP reassembly of recorded traffic: segments in any order, with gaps, overlaps and retransmissions. */
module Stream {
  import opened Octets

  type u32 = v: int | 0 <= v < 0x1_0000_0000

  datatype Segment = Segment(frame: int, seqNo: u32, payload: bytes)

  /** One direction of a connection; the segments are in the order they were recorded. */
  datatype Flow = Flow(syn: bool, isn: u32, segs: seq<Segment>)

  /** A run of contiguous bytes, with the frame each came from. */
  datatype Chunk = Chunk(data: bytes, frames: seq<int>)

  /** a - b in sequence space: negative when a lies before b. */
  function SeqDiff(a: u32, b: u32): int {
    var d := (a - b) % 0x1_0000_0000;
    if d >= 0x8000_0000 then d - 0x1_0000_0000 else d
  }

  /** A byte at an offset within 2^31 of the base has the sequence number from which that offset is computed back. */
  lemma SeqDiffExact(base: u32, offset: int)
    requires -0x8000_0000 <= offset < 0x8000_0000
    ensures SeqDiff((base + offset) % 0x1_0000_0000, base) == offset
  {
  }

  function Base(flow: Flow): u32
    requires flow.segs != []
  {
    if flow.syn then (flow.isn + 1) % 0x1_0000_0000 else flow.segs[0].seqNo
  }

  function Offset(s: Segment, base: u32): int {
    SeqDiff(s.seqNo, base)
  }

  //
  // The stable sort by offset.
  //

  function Insert(sorted: seq<Segment>, s: Segment, base: u32): seq<Segment> {
    if sorted == [] || Offset(sorted[|sorted| - 1], base) <= Offset(s, base) then sorted + [s]
    else Insert(sorted[..|sorted| - 1], s, base) + [sorted[|sorted| - 1]]
  }

  function Sort(segs: seq<Segment>, base: u32): seq<Segment> {
    if segs == [] then [] else Insert(Sort(segs[..|segs| - 1], base), segs[|segs| - 1], base)
  }

  ghost predicate Sorted(segs: seq<Segment>, base: u32) {
    forall i, j :: 0 <= i < j < |segs| ==> Offset(segs[i], base) <= Offset(segs[j], base)
  }

  lemma {:induction false} InsertSorts(sorted: seq<Segment>, s: Segment, base: u32)
    requires Sorted(sorted, base)
    ensures Sorted(Insert(sorted, s, base), base)
    ensures multiset(Insert(sorted, s, base)) == multiset(sorted) + multiset{s}
  {
    hide Offset;
    if !(sorted == [] || Offset(sorted[|sorted| - 1], base) <= Offset(s, base)) {
      var init, last := sorted[..|sorted| - 1], sorted[|sorted| - 1];
      InsertSorts(init, s, base);
      assert sorted == init + [last];
      var inserted := Insert(init, s, base);
      forall i | 0 <= i < |inserted| ensures Offset(inserted[i], base) <= Offset(last, base) {
        assert inserted[i] in multiset(inserted);
        assert inserted[i] in init || inserted[i] == s;
      }
    }
  }

  /** The sort gives the same segments in offset order. */
  lemma {:induction false} SortSorts(segs: seq<Segment>, base: u32)
    ensures Sorted(Sort(segs, base), base) && multiset(Sort(segs, base)) == multiset(segs)
  {
    hide Offset, Insert;
    if segs != [] {
      SortSorts(segs[..|segs| - 1], base);
      InsertSorts(Sort(segs[..|segs| - 1], base), segs[|segs| - 1], base);
      assert segs == segs[..|segs| - 1] + [segs[|segs| - 1]];
    }
  }

  /** The segments at one offset, in order. */
  function AtOffset(segs: seq<Segment>, base: u32, o: int): seq<Segment> {
    if segs == [] then []
    else
      var init, last := AtOffset(segs[..|segs| - 1], base, o), segs[|segs| - 1];
      if Offset(last, base) == o then init + [last] else init
  }

  lemma SortedInit(sorted: seq<Segment>, base: u32)
    requires Sorted(sorted, base) && sorted != []
    ensures Sorted(sorted[..|sorted| - 1], base)
  {
  }

  lemma {:induction false} InsertStable(sorted: seq<Segment>, s: Segment, base: u32, o: int)
    requires Sorted(sorted, base)
    ensures AtOffset(Insert(sorted, s, base), base, o) == AtOffset(sorted + [s], base, o)
  {
    hide Offset, Sorted;
    assert (sorted + [s])[..|sorted|] == sorted;
    if !(sorted == [] || Offset(sorted[|sorted| - 1], base) <= Offset(s, base)) {
      var init, last := sorted[..|sorted| - 1], sorted[|sorted| - 1];
      SortedInit(sorted, base);
      InsertStable(init, s, base, o);
      var inserted := Insert(init, s, base);
      assert (inserted + [last])[..|inserted|] == inserted && (init + [s])[..|init|] == init;
    }
  }

  /** And it is stable: segments at the same offset keep the order they were recorded in. */
  lemma {:induction false} SortStable(segs: seq<Segment>, base: u32, o: int)
    ensures AtOffset(Sort(segs, base), base, o) == AtOffset(segs, base, o)
  {
    hide Offset, Insert;
    if segs != [] {
      var init, last := segs[..|segs| - 1], segs[|segs| - 1];
      SortStable(init, base, o);
      SortSorts(init, base);
      InsertStable(Sort(init, base), last, base, o);
      assert (Sort(init, base) + [last])[..|Sort(init, base)|] == Sort(init, base);
    }
  }

  //
  // Reassembly.
  //

  function Repeat(frame: int, n: nat): seq<int> {
    seq(n, _ => frame)
  }

  /** The runs with one more segment, and the offset of the next byte expected. */
  function Deliver(s: Segment, base: u32, out: seq<Chunk>, next: int): (seq<Chunk>, int)
    requires out != []
  {
    var start := Offset(s, base);
    var end := start + |s.payload|;
    if end <= next then (out, next)
    else if start > next then (out + [Chunk(s.payload, Repeat(s.frame, |s.payload|))], end)
    else
      var p, cur := s.payload[next - start..], out[|out| - 1];
      (out[..|out| - 1] + [Chunk(cur.data + p, cur.frames + Repeat(s.frame, |p|))], end)
  }

  function Assemble(segs: seq<Segment>, base: u32, i: nat, out: seq<Chunk>, next: int): seq<Chunk>
    requires i <= |segs| && out != []
    decreases |segs| - i
  {
    if i == |segs| then out
    else
      var (out', next') := Deliver(segs[i], base, out, next);
      Assemble(segs, base, i + 1, out', next')
  }

  function Streamed(flow: Flow): seq<Chunk> {
    if flow.segs == [] then []
    else Assemble(Sort(flow.segs, Base(flow)), Base(flow), 0, [Chunk([], [])], 0)
  }

  method Reassemble(flow: Flow) returns (out: seq<Chunk>)
    ensures out == Streamed(flow)
  {
    hide Sort, Offset;
    if |flow.segs| == 0 {
      return [];
    }
    var base := Base(flow);
    var segs := Sort(flow.segs, base);
    out := [Chunk([], [])];
    var next := 0;
    for i := 0 to |segs|
      invariant out != [] && Streamed(flow) == Assemble(segs, base, i, out, next)
    {
      var start := Offset(segs[i], base);
      var end := start + |segs[i].payload|;
      ghost var (delivered, _) := Deliver(segs[i], base, out, next);
      if end <= next {
        continue;
      }
      var p := segs[i].payload;
      if start > next {
        out := out + [Chunk([], [])];
      } else {
        p := p[next - start..];
      }
      var cur := out[|out| - 1];
      out := out[..|out| - 1] + [Chunk(cur.data + p, cur.frames + Repeat(segs[i].frame, |p|))];
      assert cur == Chunk([], []) ==>
        cur.data + p == p && cur.frames + Repeat(segs[i].frame, |p|) == Repeat(segs[i].frame, |p|);
      assert out == delivered;
      next := end;
    }
  }

  //
  // What the runs are.
  //

  ghost predicate Carries(s: Segment, base: u32, o: int) {
    Offset(s, base) <= o < Offset(s, base) + |s.payload|
  }

  /** Some segment carries the byte at offset o. */
  ghost predicate Covered(segs: seq<Segment>, base: u32, o: int) {
    exists i :: 0 <= i < |segs| && Carries(segs[i], base, o)
  }

  /** The segment's bytes are those of the stream at its offset. */
  ghost predicate Agrees(s: Segment, base: u32, stream: int -> byte) {
    s.payload != [] && forall j :: 0 <= j < |s.payload| ==> s.payload[j] == stream(Offset(s, base) + j)
  }

  ghost predicate InRun(out: seq<Chunk>, starts: seq<int>, k: nat, o: int)
    requires k < |out| == |starts|
  {
    starts[k] <= o < starts[k] + |out[k].data|
  }

  ghost predicate InSomeRun(out: seq<Chunk>, starts: seq<int>, o: int)
    requires |out| == |starts|
  {
    exists k :: 0 <= k < |out| && InRun(out, starts, k, o)
  }

  /** Runs in order, each beginning past the end of the one before and a gap; only the first may be empty. */
  ghost predicate Separate(out: seq<Chunk>, starts: seq<int>) {
    && |out| == |starts| > 0 && starts[0] == 0
    && (forall k :: 0 < k < |out| ==> out[k].data != [])
    && (forall j, k :: 0 <= j < k < |out| ==> starts[j] + |out[j].data| < starts[k])
  }

  ghost predicate FrameCarries(segs: seq<Segment>, base: u32, o: int, frame: int) {
    exists i :: 0 <= i < |segs| && Carries(segs[i], base, o) && segs[i].frame == frame
  }

  /** Each byte of a run is the stream's byte at its offset, and its frame is that of a segment that carried it. */
  ghost predicate Faithful(segs: seq<Segment>, base: u32, stream: int -> byte, c: Chunk, start: int) {
    && |c.frames| == |c.data|
    && (forall j :: 0 <= j < |c.data| ==> c.data[j] == stream(start + j))
    && (forall j :: 0 <= j < |c.data| ==> FrameCarries(segs, base, start + j, c.frames[j]))
  }

  /** The runs of a flow: exactly the maximal contiguous runs of carried offsets from 0 on. */
  ghost predicate Runs(segs: seq<Segment>, base: u32, stream: int -> byte, out: seq<Chunk>, starts: seq<int>) {
    && Separate(out, starts)
    && (forall k :: 0 <= k < |out| ==> Faithful(segs, base, stream, out[k], starts[k]))
    && (forall o :: o >= 0 ==> (InSomeRun(out, starts, o) <==> Covered(segs, base, o)))
  }

  /** Segment i is the first one that carries the byte at offset o. */
  ghost predicate First(segs: seq<Segment>, base: u32, o: int, i: nat)
    requires i < |segs|
  {
    Carries(segs[i], base, o) && forall j :: 0 <= j < i ==> !Carries(segs[j], base, o)
  }

  ghost function ByteAt(s: Segment, base: u32, o: int): byte
    requires Carries(s, base, o)
  {
    s.payload[o - Offset(s, base)]
  }

  ghost predicate SentAt(s: Segment, base: u32, o: int, b: byte, frame: int)
    requires Carries(s, base, o)
  {
    ByteAt(s, base, o) == b && s.frame == frame
  }

  /** The first segment that carries the byte at offset o has this byte there, and this frame. */
  ghost predicate Origin(segs: seq<Segment>, base: u32, o: int, b: byte, frame: int) {
    exists i :: 0 <= i < |segs| && First(segs, base, o, i) && SentAt(segs[i], base, o, b, frame)
  }

  ghost predicate FromFirst(segs: seq<Segment>, base: u32, c: Chunk, start: int) {
    |c.frames| == |c.data| && forall j :: 0 <= j < |c.data| ==> Origin(segs, base, start + j, c.data[j], c.frames[j])
  }

  /** The maximal contiguous runs of carried offsets from 0 on, every byte and frame from the first segment with it. */
  ghost predicate FirstRuns(segs: seq<Segment>, base: u32, out: seq<Chunk>, starts: seq<int>) {
    && Separate(out, starts)
    && (forall k :: 0 <= k < |out| ==> FromFirst(segs, base, out[k], starts[k]))
    && (forall o :: o >= 0 ==> (InSomeRun(out, starts, o) <==> Covered(segs, base, o)))
  }

  /** The runs of the first i segments, with next the end of the last run, which begins before every later segment. */
  ghost predicate SoFar(segs: seq<Segment>, base: u32, i: nat, out: seq<Chunk>, starts: seq<int>,
                        next: int)
  {
    && i <= |segs| && FirstRuns(segs[..i], base, out, starts)
    && next == starts[|out| - 1] + |out[|out| - 1].data|
    && (forall j :: i <= j < |segs| && |out| > 1 ==> starts[|out| - 1] <= Offset(segs[j], base))
  }

  lemma CoveredStep(segs: seq<Segment>, base: u32, i: nat, o: int)
    requires i < |segs|
    ensures Covered(segs[..i + 1], base, o) <==> Covered(segs[..i], base, o) || Carries(segs[i], base, o)
  {
    hide Carries;
    var before, after := segs[..i], segs[..i + 1];
    if Covered(after, base, o) {
      var j :| 0 <= j < |after| && Carries(after[j], base, o);
      assert after[j] == segs[j] && (j < i ==> before[j] == segs[j]);
    }
    if Covered(before, base, o) {
      var j :| 0 <= j < |before| && Carries(before[j], base, o);
      assert after[j] == before[j];
    }
    assert after[i] == segs[i];
  }

  lemma OriginStays(segs: seq<Segment>, base: u32, i: nat, o: int, b: byte, frame: int)
    requires i < |segs| && Origin(segs[..i], base, o, b, frame)
    ensures Origin(segs[..i + 1], base, o, b, frame)
  {
    hide Carries, ByteAt;
    var before, after := segs[..i], segs[..i + 1];
    var k :| 0 <= k < |before| && First(before, base, o, k) && SentAt(before[k], base, o, b, frame);
    assert forall l :: 0 <= l < |before| ==> after[l] == before[l];
    assert First(after, base, o, k);
  }

  lemma OriginNew(segs: seq<Segment>, base: u32, i: nat, o: int)
    requires i < |segs| && Carries(segs[i], base, o) && !Covered(segs[..i], base, o)
    ensures Origin(segs[..i + 1], base, o, ByteAt(segs[i], base, o), segs[i].frame)
  {
    hide Carries, ByteAt;
    var before, after := segs[..i], segs[..i + 1];
    assert after[i] == segs[i] && forall l :: 0 <= l < |before| ==> after[l] == before[l];
    assert First(after, base, o, i);
  }

  lemma FromFirstStays(segs: seq<Segment>, base: u32, i: nat, c: Chunk, start: int)
    requires i < |segs| && FromFirst(segs[..i], base, c, start)
    ensures FromFirst(segs[..i + 1], base, c, start)
  {
    hide Origin;
    forall j | 0 <= j < |c.data| ensures Origin(segs[..i + 1], base, start + j, c.data[j], c.frames[j]) {
      OriginStays(segs, base, i, start + j, c.data[j], c.frames[j]);
    }
  }

  /** The tail of a segment that no earlier one carries is a run of its own. */
  lemma FromFirstNew(segs: seq<Segment>, base: u32, i: nat, cut: nat)
    requires i < |segs| && cut <= |segs[i].payload|
    requires forall o :: o >= Offset(segs[i], base) + cut ==> !Covered(segs[..i], base, o)
    ensures var p := segs[i].payload[cut..];
      FromFirst(segs[..i + 1], base, Chunk(p, Repeat(segs[i].frame, |p|)), Offset(segs[i], base) + cut)
  {
    hide Origin, Covered;
    var p, start := segs[i].payload[cut..], Offset(segs[i], base) + cut;
    var frames := Repeat(segs[i].frame, |p|);
    forall j | 0 <= j < |p| ensures Origin(segs[..i + 1], base, start + j, p[j], frames[j]) {
      assert p[j] == segs[i].payload[cut + j] && start + j == Offset(segs[i], base) + (cut + j);
      OriginNew(segs, base, i, start + j);
    }
  }

  lemma FromFirstJoin(segs: seq<Segment>, base: u32, a: Chunk, b: Chunk, start: int)
    requires FromFirst(segs, base, a, start) && FromFirst(segs, base, b, start + |a.data|)
    ensures FromFirst(segs, base, Chunk(a.data + b.data, a.frames + b.frames), start)
  {
    hide Origin;
    var c := Chunk(a.data + b.data, a.frames + b.frames);
    forall j | 0 <= j < |c.data| ensures Origin(segs, base, start + j, c.data[j], c.frames[j]) {
      if j >= |a.data| {
        assert c.data[j] == b.data[j - |a.data|] && c.frames[j] == b.frames[j - |a.data|];
        assert start + j == start + |a.data| + (j - |a.data|);
      }
    }
  }

  /** Behind the last run nothing is carried yet. */
  lemma NoneBehind(segs: seq<Segment>, base: u32, i: nat, out: seq<Chunk>, starts: seq<int>, next: int)
    requires SoFar(segs, base, i, out, starts, next)
    ensures next >= 0 && forall o :: o >= next ==> !Covered(segs[..i], base, o)
  {
    hide Covered, FromFirst;
    var last := |out| - 1;
    assert starts[last] >= 0;
    forall o | o >= next ensures !Covered(segs[..i], base, o) {
      forall k | 0 <= k < |out| ensures !InRun(out, starts, k, o) {
        assert k < last ==> starts[k] + |out[k].data| < starts[last];
      }
      assert !InSomeRun(out, starts, o);
    }
  }

  lemma DeliverSkips(segs: seq<Segment>, base: u32, i: nat, out: seq<Chunk>,
                     starts: seq<int>, next: int)
    requires i < |segs| && SoFar(segs, base, i, out, starts, next)
    requires Offset(segs[i], base) + |segs[i].payload| <= next
    ensures SoFar(segs, base, i + 1, out, starts, next)
  {
    hide FromFirst, Offset, Covered;
    forall k | 0 <= k < |out| ensures FromFirst(segs[..i + 1], base, out[k], starts[k]) {
      FromFirstStays(segs, base, i, out[k], starts[k]);
    }
    forall o | o >= 0 ensures InSomeRun(out, starts, o) <==> Covered(segs[..i + 1], base, o) {
      CoveredStep(segs, base, i, o);
      if Carries(segs[i], base, o) {
        assert InRun(out, starts, |out| - 1, o);
      }
    }
  }

  lemma SeparateSnoc(out: seq<Chunk>, starts: seq<int>, c: Chunk, start: int)
    requires Separate(out, starts) && c.data != [] && starts[|out| - 1] + |out[|out| - 1].data| < start
    ensures Separate(out + [c], starts + [start])
  {
  }

  lemma InSomeRunSnoc(out: seq<Chunk>, starts: seq<int>, c: Chunk, start: int, o: int)
    requires |out| == |starts|
    ensures InSomeRun(out + [c], starts + [start], o) <==> InSomeRun(out, starts, o) || start <= o < start + |c.data|
  {
    var out', starts' := out + [c], starts + [start];
    if InSomeRun(out, starts, o) {
      var k :| 0 <= k < |out| && InRun(out, starts, k, o);
      assert InRun(out', starts', k, o);
    }
    if start <= o < start + |c.data| {
      assert InRun(out', starts', |out|, o);
    }
    if InSomeRun(out', starts', o) {
      var k :| 0 <= k < |out'| && InRun(out', starts', k, o);
      assert k < |out| ==> InRun(out, starts, k, o);
    }
  }

  lemma DeliverGap(segs: seq<Segment>, base: u32, i: nat, out: seq<Chunk>,
                   starts: seq<int>, next: int)
    requires i < |segs| && SoFar(segs, base, i, out, starts, next)
    requires Sorted(segs, base) && segs[i].payload != [] && Offset(segs[i], base) > next
    ensures var (out', next') := Deliver(segs[i], base, out, next);
      SoFar(segs, base, i + 1, out', starts + [Offset(segs[i], base)], next')
  {
    hide FromFirst, Offset, Covered, Repeat;
    var s, start := segs[i], Offset(segs[i], base);
    var c := Chunk(s.payload, Repeat(s.frame, |s.payload|));
    var out', starts' := out + [c], starts + [start];
    assert s.payload[0..] == s.payload;
    NoneBehind(segs, base, i, out, starts, next);
    FromFirstNew(segs, base, i, 0);
    forall k | 0 <= k < |out'| ensures FromFirst(segs[..i + 1], base, out'[k], starts'[k]) {
      if k < |out| {
        FromFirstStays(segs, base, i, out[k], starts[k]);
      }
    }
    SeparateSnoc(out, starts, c, start);
    forall o | o >= 0 ensures InSomeRun(out', starts', o) <==> Covered(segs[..i + 1], base, o) {
      CoveredStep(segs, base, i, o);
      InSomeRunSnoc(out, starts, c, start, o);
    }
  }

  lemma ExtendFromFirst(segs: seq<Segment>, base: u32, i: nat, cur: Chunk, at: int, cut: nat)
    requires i < |segs| && FromFirst(segs[..i], base, cur, at)
    requires cut <= |segs[i].payload| && Offset(segs[i], base) + cut == at + |cur.data|
    requires forall o :: o >= at + |cur.data| ==> !Covered(segs[..i], base, o)
    ensures var p := segs[i].payload[cut..];
      FromFirst(segs[..i + 1], base, Chunk(cur.data + p, cur.frames + Repeat(segs[i].frame, |p|)), at)
  {
    hide FromFirst, Offset, Repeat;
    var p := segs[i].payload[cut..];
    FromFirstNew(segs, base, i, cut);
    FromFirstStays(segs, base, i, cur, at);
    FromFirstJoin(segs[..i + 1], base, cur, Chunk(p, Repeat(segs[i].frame, |p|)), at);
  }

  /** A longer last run holds just the offsets added to it. */
  lemma ExtendRuns(out: seq<Chunk>, starts: seq<int>, c: Chunk, o: int)
    requires Separate(out, starts) && |c.data| >= |out[|out| - 1].data| && (|out| > 1 ==> c.data != [])
    ensures var out' := out[..|out| - 1] + [c];
      var last := |out| - 1;
      && Separate(out', starts)
      && (InSomeRun(out', starts, o) <==>
            InSomeRun(out, starts, o) || starts[last] + |out[last].data| <= o < starts[last] + |c.data|)
  {
    var last := |out| - 1;
    var init, out' := out[..last], out[..last] + [c];
    assert out == init + [out[last]] && starts == starts[..last] + [starts[last]];
    InSomeRunSnoc(init, starts[..last], out[last], starts[last], o);
    InSomeRunSnoc(init, starts[..last], c, starts[last], o);
  }

  lemma LastRunHolds(out: seq<Chunk>, starts: seq<int>, o: int)
    requires |out| == |starts| > 0 && starts[|out| - 1] <= o < starts[|out| - 1] + |out[|out| - 1].data|
    ensures InSomeRun(out, starts, o)
  {
    assert InRun(out, starts, |out| - 1, o);
  }

  lemma FirstAtZero(out: seq<Chunk>, starts: seq<int>)
    requires Separate(out, starts)
    ensures starts[0] == 0
  {
  }

  lemma SeparateLengths(out: seq<Chunk>, starts: seq<int>)
    ensures Separate(out, starts) ==> |out| == |starts| > 0
  {
  }

  lemma DeliverExtends(segs: seq<Segment>, base: u32, i: nat, out: seq<Chunk>,
                       starts: seq<int>, next: int)
    requires i < |segs| && SoFar(segs, base, i, out, starts, next)
    requires segs[i].payload != []
    requires Offset(segs[i], base) <= next < Offset(segs[i], base) + |segs[i].payload|
    ensures var (out', next') := Deliver(segs[i], base, out, next);
      SoFar(segs, base, i + 1, out', starts, next')
  {
    hide FromFirst, Offset, Covered, Repeat, Separate, InSomeRun;
    SeparateLengths(out, starts);
    var s, start, n := segs[i], Offset(segs[i], base), |out| - 1;
    var p, cur, at := s.payload[next - start..], out[n], starts[n];
    var c := Chunk(cur.data + p, cur.frames + Repeat(s.frame, |p|));
    var out' := out[..n] + [c];
    NoneBehind(segs, base, i, out, starts, next);
    ExtendFromFirst(segs, base, i, cur, at, next - start);
    forall k | 0 <= k < |out'| ensures FromFirst(segs[..i + 1], base, out'[k], starts[k]) {
      if k < n {
        FromFirstStays(segs, base, i, out[k], starts[k]);
      }
    }
    ExtendRuns(out, starts, c, 0);
    forall o | o >= 0 ensures InSomeRun(out', starts, o) <==> Covered(segs[..i + 1], base, o) {
      CoveredStep(segs, base, i, o);
      ExtendRuns(out, starts, c, o);
      if at <= o < next {
        LastRunHolds(out, starts, o);
      }
      if Carries(s, base, o) {
        FirstAtZero(out, starts);
      }
    }
  }

  lemma DeliverSome(s: Segment, base: u32, out: seq<Chunk>, next: int)
    requires out != []
    ensures Deliver(s, base, out, next).0 != []
  {
  }

  lemma DeliverKeeps(segs: seq<Segment>, base: u32, i: nat, out: seq<Chunk>, starts: seq<int>,
                     next: int) returns (starts': seq<int>)
    requires i < |segs| && out != [] && SoFar(segs, base, i, out, starts, next)
    requires Sorted(segs, base) && segs[i].payload != []
    ensures var (out', next') := Deliver(segs[i], base, out, next);
      SoFar(segs, base, i + 1, out', starts', next')
  {
    hide SoFar, Sorted, Offset;
    var start := Offset(segs[i], base);
    if start + |segs[i].payload| <= next {
      DeliverSkips(segs, base, i, out, starts, next);
      starts' := starts;
    } else if start > next {
      DeliverGap(segs, base, i, out, starts, next);
      starts' := starts + [start];
    } else {
      DeliverExtends(segs, base, i, out, starts, next);
      starts' := starts;
    }
  }

  lemma {:induction false} AssembleRuns(segs: seq<Segment>, base: u32, i: nat, out: seq<Chunk>,
                                        starts: seq<int>, next: int) returns (starts': seq<int>)
    requires out != [] && SoFar(segs, base, i, out, starts, next) && Sorted(segs, base)
    requires forall j :: 0 <= j < |segs| ==> segs[j].payload != []
    ensures FirstRuns(segs, base, Assemble(segs, base, i, out, next), starts')
    decreases |segs| - i
  {
    hide Runs, Sorted, Offset, Deliver;
    if i == |segs| {
      assert segs[..i] == segs;
      starts' := starts;
    } else {
      var more := DeliverKeeps(segs, base, i, out, starts, next);
      var (out', next') := Deliver(segs[i], base, out, next);
      assert out' != [] by { DeliverSome(segs[i], base, out, next); }
      starts' := AssembleRuns(segs, base, i + 1, out', more, next');
    }
  }

  lemma CoveredBySet(a: seq<Segment>, b: seq<Segment>, base: u32, o: int)
    requires multiset(a) == multiset(b)
    ensures Covered(a, base, o) ==> Covered(b, base, o)
  {
    hide Carries;
    if Covered(a, base, o) {
      var i :| 0 <= i < |a| && Carries(a[i], base, o);
      assert a[i] in multiset(b);
      var j :| 0 <= j < |b| && b[j] == a[i];
    }
  }

  lemma FrameBySet(a: seq<Segment>, b: seq<Segment>, base: u32, o: int, frame: int)
    requires multiset(a) == multiset(b)
    ensures FrameCarries(a, base, o, frame) ==> FrameCarries(b, base, o, frame)
  {
    hide Carries;
    if FrameCarries(a, base, o, frame) {
      var i :| 0 <= i < |a| && Carries(a[i], base, o) && a[i].frame == frame;
      assert a[i] in multiset(b);
      var j :| 0 <= j < |b| && b[j] == a[i];
    }
  }

  lemma RunsBySet(a: seq<Segment>, b: seq<Segment>, base: u32, stream: int -> byte, out: seq<Chunk>, starts: seq<int>)
    requires multiset(a) == multiset(b) && Runs(a, base, stream, out, starts)
    ensures Runs(b, base, stream, out, starts)
  {
    hide Covered, FrameCarries, Separate, InSomeRun;
    assert Separate(out, starts) && |out| == |starts| by { SeparateLengths(out, starts); }
    forall o | o >= 0 ensures InSomeRun(out, starts, o) <==> Covered(b, base, o) {
      CoveredBySet(a, b, base, o);
      CoveredBySet(b, a, base, o);
    }
    forall k | 0 <= k < |out| ensures Faithful(b, base, stream, out[k], starts[k]) {
      forall j | 0 <= j < |out[k].data| ensures FrameCarries(b, base, starts[k] + j, out[k].frames[j]) {
        FrameBySet(a, b, base, starts[k] + j, out[k].frames[j]);
      }
    }
  }

  lemma NothingYet(segs: seq<Segment>, base: u32)
    ensures SoFar(segs, base, 0, [Chunk([], [])], [0], 0)
  {
    hide Offset;
    var out := [Chunk([], [])];
    forall o | o >= 0 ensures InSomeRun(out, [0], o) <==> Covered(segs[..0], base, o) {
    }
  }

  /** Whatever the segments hold, reassembly gives exactly the maximal runs of offsets from 0 on that some segment
      carries. Where segments overlap, byte and frame are those of the first that carries the offset, in the order of
      offsets and, at one offset, of recording. */
  lemma FirstSegmentWins(flow: Flow) returns (starts: seq<int>)
    requires flow.segs != [] && forall i :: 0 <= i < |flow.segs| ==> flow.segs[i].payload != []
    ensures FirstRuns(Sort(flow.segs, Base(flow)), Base(flow), Streamed(flow), starts)
  {
    hide FirstRuns, Sorted, Sort, Assemble, SoFar;
    var base := Base(flow);
    var segs := Sort(flow.segs, base);
    SortSorts(flow.segs, base);
    forall j | 0 <= j < |segs| ensures segs[j].payload != [] {
      assert segs[j] in multiset(flow.segs);
    }
    NothingYet(segs, base);
    starts := AssembleRuns(segs, base, 0, [Chunk([], [])], [0], 0);
  }

  lemma OriginAgrees(segs: seq<Segment>, base: u32, stream: int -> byte, o: int, b: byte, frame: int)
    requires Origin(segs, base, o, b, frame) && forall i :: 0 <= i < |segs| ==> Agrees(segs[i], base, stream)
    ensures b == stream(o) && FrameCarries(segs, base, o, frame)
  {
    hide Offset;
    var i :| 0 <= i < |segs| && First(segs, base, o, i) && SentAt(segs[i], base, o, b, frame);
    assert Agrees(segs[i], base, stream);
    var j := o - Offset(segs[i], base);
    assert segs[i].payload[j] == stream(Offset(segs[i], base) + j);
  }

  lemma AgreeingRuns(segs: seq<Segment>, base: u32, stream: int -> byte, out: seq<Chunk>, starts: seq<int>)
    requires FirstRuns(segs, base, out, starts) && forall i :: 0 <= i < |segs| ==> Agrees(segs[i], base, stream)
    ensures Runs(segs, base, stream, out, starts)
  {
    hide Agrees, Origin, FrameCarries, Covered;
    forall k | 0 <= k < |out| ensures Faithful(segs, base, stream, out[k], starts[k]) {
      var c, start := out[k], starts[k];
      forall j | 0 <= j < |c.data|
        ensures c.data[j] == stream(start + j) && FrameCarries(segs, base, start + j, c.frames[j])
      {
        OriginAgrees(segs, base, stream, start + j, c.data[j], c.frames[j]);
      }
    }
  }

  /** When every segment agrees with one byte stream, that is the stream's bytes in the runs that some segment carries,
      in order, each byte once, whatever the order, overlap or repetition of the segments. */
  lemma StreamIsRuns(flow: Flow, stream: int -> byte) returns (starts: seq<int>)
    requires flow.segs != []
    requires forall i :: 0 <= i < |flow.segs| ==> Agrees(flow.segs[i], Base(flow), stream)
    ensures Runs(flow.segs, Base(flow), stream, Streamed(flow), starts)
  {
    hide Runs, FirstRuns, Sort, Streamed;
    var base := Base(flow);
    var segs := Sort(flow.segs, base);
    SortSorts(flow.segs, base);
    forall j | 0 <= j < |segs| ensures Agrees(segs[j], base, stream) {
      assert segs[j] in multiset(flow.segs);
      var i :| 0 <= i < |flow.segs| && flow.segs[i] == segs[j];
    }
    starts := FirstSegmentWins(flow);
    AgreeingRuns(segs, base, stream, Streamed(flow), starts);
    RunsBySet(segs, flow.segs, base, stream, Streamed(flow), starts);
  }

  //
  // From offsets in the sender's stream to sequence numbers and back.
  //

  /** A piece of the sender's stream, as it was sent once. */
  datatype Cut = Cut(frame: int, at: int, length: nat)

  ghost predicate Holds(cut: Cut, o: int) {
    cut.at <= o < cut.at + cut.length
  }

  ghost predicate HeldBySome(cuts: seq<Cut>, o: int) {
    exists i :: 0 <= i < |cuts| && Holds(cuts[i], o)
  }

  /** Its segment: 32 bits of its offset behind the base, and the stream's bytes. */
  function Sent(cut: Cut, base: u32, stream: int -> byte): Segment {
    Segment(cut.frame, (base + cut.at) % 0x1_0000_0000, seq(cut.length, j requires j >= 0 => stream(cut.at + j)))
  }

  function SentAll(cuts: seq<Cut>, base: u32, stream: int -> byte): seq<Segment> {
    seq(|cuts|, i requires 0 <= i < |cuts| => Sent(cuts[i], base, stream))
  }

  lemma SentAgrees(cut: Cut, base: u32, stream: int -> byte)
    requires cut.length > 0 && -0x8000_0000 <= cut.at < 0x8000_0000
    ensures Agrees(Sent(cut, base, stream), base, stream)
    ensures forall o :: Carries(Sent(cut, base, stream), base, o) <==> Holds(cut, o)
  {
    hide SeqDiff;
    SeqDiffExact(base, cut.at);
  }

  lemma BaseOf(syn: bool, isn: u32, base: u32, cuts: seq<Cut>, stream: int -> byte)
    requires cuts != [] && (if syn then base == (isn + 1) % 0x1_0000_0000 else cuts[0].at == 0)
    ensures Base(Flow(syn, isn, SentAll(cuts, base, stream))) == base
  {
    assert SentAll(cuts, base, stream)[0] == Sent(cuts[0], base, stream);
  }

  /** Whatever pieces of a stream were sent, as long as they begin within 2^31 of its base: reassembly gives exactly the
      maximal runs of the offsets sent, with the stream's bytes, also where sequence numbers wrap. Without a SYN the
      base is where the piece recorded first begins. */
  lemma SentIsRuns(syn: bool, isn: u32, base: u32, cuts: seq<Cut>, stream: int -> byte) returns (starts: seq<int>)
    requires cuts != [] && (if syn then base == (isn + 1) % 0x1_0000_0000 else cuts[0].at == 0)
    requires forall i :: 0 <= i < |cuts| ==> cuts[i].length > 0 && -0x8000_0000 <= cuts[i].at < 0x8000_0000
    ensures var out := Streamed(Flow(syn, isn, SentAll(cuts, base, stream)));
      && Separate(out, starts)
      && (forall k, j :: 0 <= k < |out| && 0 <= j < |out[k].data| ==> out[k].data[j] == stream(starts[k] + j))
      && (forall o :: o >= 0 ==> (InSomeRun(out, starts, o) <==> HeldBySome(cuts, o)))
  {
    hide Agrees, Carries, Holds, Streamed, Separate, InSomeRun, FrameCarries, Sent;
    var segs := SentAll(cuts, base, stream);
    var flow := Flow(syn, isn, segs);
    BaseOf(syn, isn, base, cuts, stream);
    forall i | 0 <= i < |segs|
      ensures Agrees(segs[i], base, stream) && forall o :: Carries(segs[i], base, o) <==> Holds(cuts[i], o)
    {
      SentAgrees(cuts[i], base, stream);
    }
    starts := StreamIsRuns(flow, stream);
    SeparateLengths(Streamed(flow), starts);
    forall o | o >= 0 ensures Covered(segs, base, o) <==> HeldBySome(cuts, o) {
      if HeldBySome(cuts, o) {
        var i :| 0 <= i < |cuts| && Holds(cuts[i], o);
        assert Carries(segs[i], base, o);
      }
    }
  }

  //
  // The runs are determined by what is carried.
  //

  /** A run does not go on past the end of the other's run at the same place, where nothing is carried. */
  lemma RunNoLonger(a: seq<Chunk>, sa: seq<int>, b: seq<Chunk>, sb: seq<int>, n: nat)
    requires Separate(a, sa) && Separate(b, sb) && n < |a| && n < |b| && sa[n] == sb[n]
    requires forall o :: o >= 0 ==> (InSomeRun(a, sa, o) <==> InSomeRun(b, sb, o))
    ensures |a[n].data| <= |b[n].data|
  {
    if |a[n].data| > |b[n].data| {
      var o := sb[n] + |b[n].data|;
      assert InRun(a, sa, n, o);
      assert o >= 0;
      assert InSomeRun(a, sa, o);
    }
  }

  lemma NextRunBegins(a: seq<Chunk>, sa: seq<int>, b: seq<Chunk>, sb: seq<int>, n: nat)
    requires Separate(a, sa) && Separate(b, sb) && 0 < n < |a| && n <= |b|
    requires sa[n - 1] == sb[n - 1] && |a[n - 1].data| == |b[n - 1].data|
    requires forall o :: o >= 0 ==> (InSomeRun(a, sa, o) <==> InSomeRun(b, sb, o))
    ensures n < |b| && sb[n] <= sa[n]
  {
    var o := sa[n];
    assert InRun(a, sa, n, o);
    assert o >= 0 by { assert sa[0] + |a[0].data| < sa[n]; }
    assert InSomeRun(a, sa, o);
    var k :| 0 <= k < |b| && InRun(b, sb, k, o);
    assert k > n - 1;
  }

  lemma {:induction false} RunsUniqueUpTo(a: seq<Chunk>, sa: seq<int>, b: seq<Chunk>, sb: seq<int>, n: nat)
    requires Separate(a, sa) && Separate(b, sb) && n < |a|
    requires forall o :: o >= 0 ==> (InSomeRun(a, sa, o) <==> InSomeRun(b, sb, o))
    ensures n < |b| && sa[n] == sb[n] && |a[n].data| == |b[n].data|
  {
    hide InSomeRun;
    if n > 0 {
      RunsUniqueUpTo(a, sa, b, sb, n - 1);
      NextRunBegins(a, sa, b, sb, n);
      if n < |b| {
        NextRunBegins(b, sb, a, sa, n);
      }
    }
    RunNoLonger(a, sa, b, sb, n);
    RunNoLonger(b, sb, a, sa, n);
  }

  lemma SameRuns(a: seq<Chunk>, sa: seq<int>, b: seq<Chunk>, sb: seq<int>, stream: int -> byte,
                 segsA: seq<Segment>, baseA: u32, segsB: seq<Segment>, baseB: u32)
    requires Separate(a, sa) && Separate(b, sb)
    requires forall o :: o >= 0 ==> (InSomeRun(a, sa, o) <==> InSomeRun(b, sb, o))
    requires forall k :: 0 <= k < |a| ==> Faithful(segsA, baseA, stream, a[k], sa[k])
    requires forall k :: 0 <= k < |b| ==> Faithful(segsB, baseB, stream, b[k], sb[k])
    ensures |a| == |b| && forall k :: 0 <= k < |a| ==> a[k].data == b[k].data
  {
    hide InSomeRun, FrameCarries;
    RunsUniqueUpTo(a, sa, b, sb, |a| - 1);
    RunsUniqueUpTo(b, sb, a, sa, |b| - 1);
    forall k | 0 <= k < |a| ensures a[k].data == b[k].data {
      RunsUniqueUpTo(a, sa, b, sb, k);
    }
  }

  /** Two recordings that carry the same offsets of one stream give the same runs, however they were cut and ordered. */
  lemma SameCarriedSameRuns(f: Flow, g: Flow, stream: int -> byte)
    requires f.segs != [] && g.segs != []
    requires forall i :: 0 <= i < |f.segs| ==> Agrees(f.segs[i], Base(f), stream)
    requires forall i :: 0 <= i < |g.segs| ==> Agrees(g.segs[i], Base(g), stream)
    requires forall o :: o >= 0 ==> (Covered(f.segs, Base(f), o) <==> Covered(g.segs, Base(g), o))
    ensures |Streamed(f)| == |Streamed(g)|
    ensures forall k :: 0 <= k < |Streamed(f)| ==> Streamed(f)[k].data == Streamed(g)[k].data
  {
    hide Agrees, Covered, Streamed, Base, InSomeRun, Separate, FrameCarries;
    var sf := StreamIsRuns(f, stream);
    var sg := StreamIsRuns(g, stream);
    var a, b := Streamed(f), Streamed(g);
    SeparateLengths(a, sf);
    SeparateLengths(b, sg);
    forall o | o >= 0 ensures InSomeRun(a, sf, o) <==> InSomeRun(b, sg, o) {
      assert Covered(f.segs, Base(f), o) <==> Covered(g.segs, Base(g), o);
    }
    SameRuns(a, sf, b, sg, stream, f.segs, Base(f), g.segs, Base(g));
  }
}
