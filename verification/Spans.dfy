/** Consolidation of read probes into spans of one status. */
module Spans {
  import opened Octets
  import opened Client

  datatype Observation = Observation(offset: int, status: Status, stable: Option<bool>, allZero: Option<bool>)

  datatype Note = StableDiffers | AllZeroDiffers

  /** The range [start, end) with a single status. */
  datatype Span = Span(
    start: int, end: int, status: Status, stable: Option<bool>, allZero: Option<bool>, notes: seq<Note>)

  datatype Summary = Summary(readable: seq<Span>, empty: seq<Span>, failed: seq<Span>, inconclusive: seq<Span>)

  /** Probe j goes on where probe j - 1 left off, with the same status. */
  predicate Continues(obs: seq<Observation>, step: int, j: nat)
    requires 0 < j < |obs|
  {
    obs[j].status == obs[j - 1].status && obs[j].offset == obs[j - 1].offset + step
  }

  /** The end of the run that probe j may continue. */
  function RunEnd(obs: seq<Observation>, step: int, j: nat): (e: nat)
    requires 0 < j <= |obs|
    ensures j <= e <= |obs|
    decreases |obs| - j
  {
    if j < |obs| && Continues(obs, step, j) then RunEnd(obs, step, j + 1) else j
  }

  datatype Merged = Merged(value: Option<bool>, differs: bool)

  /** The flag the probes i..j agree on; probes without the flag do not count. */
  function Merge(flags: seq<Option<bool>>, value: Option<bool>): Merged {
    if flags == [] then Merged(value, false)
    else if flags[0].None? || flags[0] == value then Merge(flags[1..], value)
    else if value.None? then Merge(flags[1..], flags[0])
    else Merged(None, true)
  }

  function Stables(obs: seq<Observation>): (r: seq<Option<bool>>)
    ensures |r| == |obs|
  {
    seq(|obs|, i requires 0 <= i < |obs| => obs[i].stable)
  }

  function AllZeros(obs: seq<Observation>): (r: seq<Option<bool>>)
    ensures |r| == |obs|
  {
    seq(|obs|, i requires 0 <= i < |obs| => obs[i].allZero)
  }

  function SpanOf(obs: seq<Observation>, probeSize: int, i: nat, j: nat): Span
    requires i < j <= |obs|
  {
    var stable, allZero := Merge(Stables(obs[i..j]), None), Merge(AllZeros(obs[i..j]), None);
    Span(obs[i].offset, obs[j - 1].offset + probeSize, obs[i].status, stable.value, allZero.value,
         (if stable.differs then [StableDiffers] else []) + (if allZero.differs then [AllZeroDiffers] else []))
  }

  function SpansFrom(obs: seq<Observation>, step: int, probeSize: int, i: nat, done: seq<Span>): seq<Span>
    requires i <= |obs|
    decreases |obs| - i
  {
    if i == |obs| then done
    else
      var j := RunEnd(obs, step, i + 1);
      SpansFrom(obs, step, probeSize, j, done + [SpanOf(obs, probeSize, i, j)])
  }

  function OfStatus(spans: seq<Span>, status: Status): seq<Span> {
    if spans == [] then []
    else
      var init, last := OfStatus(spans[..|spans| - 1], status), spans[|spans| - 1];
      if last.status == status then init + [last] else init
  }

  function SummaryOf(spans: seq<Span>): Summary {
    Summary(OfStatus(spans, Success), OfStatus(spans, EmptyRead),
            OfStatus(spans, Rejected) + OfStatus(spans, Timeout) + OfStatus(spans, TransportErr)
            + OfStatus(spans, ProtocolErr) + OfStatus(spans, ShortRead),
            OfStatus(spans, Inconclusive))
  }

  function Step(step: int, probeSize: int): int {
    if step <= 0 then probeSize else step
  }

  function Consolidated(obs: seq<Observation>, step: int, probeSize: int): seq<Span> {
    SpansFrom(obs, Step(step, probeSize), probeSize, 0, [])
  }

  method MergeFlags(flags: seq<Option<bool>>) returns (m: Merged)
    ensures m == Merge(flags, None)
  {
    var value: Option<bool> := None;
    for k := 0 to |flags|
      invariant Merge(flags, None) == Merge(flags[k..], value)
    {
      assert flags[k..][0] == flags[k] && flags[k..][1..] == flags[k + 1..];
      if flags[k].Some? {
        if value.None? {
          value := flags[k];
        } else if value != flags[k] {
          return Merged(None, true);
        }
      }
    }
    return Merged(value, false);
  }

  method FindRunEnd(obs: seq<Observation>, step: int, probeSize: int, i: nat) returns (j: nat, end: int)
    requires i < |obs|
    ensures j == RunEnd(obs, step, i + 1) && end == obs[j - 1].offset + probeSize
  {
    end := obs[i].offset + probeSize;
    j := i + 1;
    while j < |obs| && obs[j].status == obs[i].status && obs[j].offset == obs[j - 1].offset + step
      invariant i < j <= |obs| && RunEnd(obs, step, i + 1) == RunEnd(obs, step, j)
      invariant obs[j - 1].status == obs[i].status && end == obs[j - 1].offset + probeSize
    {
      end := obs[j].offset + probeSize;
      j := j + 1;
    }
  }

  method ConsolidateSpans(obs: seq<Observation>, givenStep: int, probeSize: int)
    returns (spans: seq<Span>, summary: Summary)
    ensures spans == Consolidated(obs, givenStep, probeSize) && summary == SummaryOf(spans)
  {
    hide Merge, RunEnd;
    spans := [];
    if |obs| == 0 {
      return [], Summary([], [], [], []);
    }
    var step := givenStep;
    if step <= 0 {
      step := probeSize;
    }
    var byStatus: map<Status, seq<Span>> :=
      map[Success := [], EmptyRead := [], Rejected := [], Timeout := [], TransportErr := [], ProtocolErr := [],
          ShortRead := [], Inconclusive := []];
    forall s: Status ensures s in byStatus && byStatus[s] == [] {
      match s { case Success => case ShortRead => case EmptyRead => case Rejected => case Timeout =>
                case TransportErr => case ProtocolErr => case Inconclusive => }
    }
    var i := 0;
    while i < |obs|
      invariant 0 <= i <= |obs| && Consolidated(obs, givenStep, probeSize) == SpansFrom(obs, step, probeSize, i, spans)
      invariant forall s: Status :: s in byStatus && byStatus[s] == OfStatus(spans, s)
      decreases |obs| - i
    {
      var j, end := FindRunEnd(obs, step, probeSize, i);
      var stable := MergeFlags(Stables(obs[i..j]));
      var allZero := MergeFlags(AllZeros(obs[i..j]));
      var notes := (if stable.differs then [StableDiffers] else [])
                 + (if allZero.differs then [AllZeroDiffers] else []);
      var status := obs[i].status;
      var span := Span(obs[i].offset, end, status, stable.value, allZero.value, notes);
      assert (spans + [span])[..|spans|] == spans;
      spans := spans + [span];
      byStatus := byStatus[status := byStatus[status] + [span]];
      i := j;
    }
    var failed := byStatus[Rejected] + byStatus[Timeout] + byStatus[TransportErr] + byStatus[ProtocolErr]
                + byStatus[ShortRead];
    summary := Summary(byStatus[Success], byStatus[EmptyRead], failed, byStatus[Inconclusive]);
  }

  //
  // The spans are the maximal runs.
  //

  /** Probes i..j form a run that neither end could extend. */
  ghost predicate MaximalRun(obs: seq<Observation>, step: int, i: nat, j: nat) {
    && i < j <= |obs|
    && (forall k :: i < k < j ==> Continues(obs, step, k))
    && (i > 0 ==> !Continues(obs, step, i))
    && (j < |obs| ==> !Continues(obs, step, j))
  }

  /** Span k stands for the probes from cuts[k] to cuts[k + 1]. */
  ghost predicate CutInto(obs: seq<Observation>, step: int, probeSize: int, spans: seq<Span>, cuts: seq<nat>) {
    && |cuts| == |spans| + 1 && cuts[0] == 0 && cuts[|spans|] == |obs|
    && forall k :: 0 <= k < |spans| ==>
         && MaximalRun(obs, step, cuts[k], cuts[k + 1])
         && spans[k] == SpanOf(obs, probeSize, cuts[k], cuts[k + 1])
  }

  lemma {:induction false} RunEndMaximal(obs: seq<Observation>, step: int, j: nat)
    requires 0 < j <= |obs|
    ensures var e := RunEnd(obs, step, j);
      && (forall k :: j <= k < e ==> Continues(obs, step, k))
      && (e < |obs| ==> !Continues(obs, step, e))
    decreases |obs| - j
  {
    hide Continues;
    if j < |obs| && Continues(obs, step, j) {
      RunEndMaximal(obs, step, j + 1);
    }
  }

  lemma {:induction false} SpansAreRuns(obs: seq<Observation>, step: int, probeSize: int, i: nat, done: seq<Span>,
                                        cuts: seq<nat>) returns (all: seq<nat>)
    requires |cuts| == |done| + 1 && cuts[0] == 0 && cuts[|done|] == i <= |obs|
    requires 0 < i < |obs| ==> !Continues(obs, step, i)
    requires forall k :: 0 <= k < |done| ==>
      MaximalRun(obs, step, cuts[k], cuts[k + 1]) && done[k] == SpanOf(obs, probeSize, cuts[k], cuts[k + 1])
    ensures CutInto(obs, step, probeSize, SpansFrom(obs, step, probeSize, i, done), all)
    decreases |obs| - i
  {
    hide Continues, SpanOf, RunEnd;
    all := cuts;
    if i < |obs| {
      var j := RunEnd(obs, step, i + 1);
      RunEndMaximal(obs, step, i + 1);
      all := SpansAreRuns(obs, step, probeSize, j, done + [SpanOf(obs, probeSize, i, j)], cuts + [j]);
    }
  }

  /** The spans cut the probes, in order and without loss, into the maximal runs of one status and consecutive offsets.
      */
  lemma ConsolidatedIntoRuns(obs: seq<Observation>, step: int, probeSize: int) returns (cuts: seq<nat>)
    ensures CutInto(obs, if step <= 0 then probeSize else step, probeSize, Consolidated(obs, step, probeSize), cuts)
  {
    cuts := SpansAreRuns(obs, Step(step, probeSize), probeSize, 0, [], [0]);
  }

  //
  // What the spans cover.
  //

  ghost predicate ProbeCovers(obs: seq<Observation>, probeSize: int, status: Status, i: nat, x: int)
    requires i < |obs|
  {
    obs[i].status == status && obs[i].offset <= x < obs[i].offset + probeSize
  }

  ghost predicate Probed(obs: seq<Observation>, probeSize: int, status: Status, x: int) {
    exists i :: 0 <= i < |obs| && ProbeCovers(obs, probeSize, status, i, x)
  }

  ghost predicate SpanCovers(s: Span, status: Status, x: int) {
    s.status == status && s.start <= x < s.end
  }

  ghost predicate InSpan(spans: seq<Span>, status: Status, x: int) {
    exists k :: 0 <= k < |spans| && SpanCovers(spans[k], status, x)
  }

  /** The probes of a run have one status and ascending offsets. */
  lemma {:induction false} RunOrder(obs: seq<Observation>, step: int, i: nat, j: nat, k: nat, l: nat)
    requires MaximalRun(obs, step, i, j) && i <= k <= l < j && step > 0
    ensures obs[k].status == obs[l].status && obs[k].offset <= obs[l].offset
    decreases l
  {
    if k < l {
      RunOrder(obs, step, i, j, k, l - 1);
      assert Continues(obs, step, l);
    }
  }

  lemma {:induction false} RunOf(cuts: seq<nat>, n: nat, i: nat) returns (k: nat)
    requires n < |cuts| && cuts[0] == 0 <= i < cuts[n]
    ensures k < n && cuts[k] <= i < cuts[k + 1]
  {
    if cuts[n - 1] <= i {
      k := n - 1;
    } else {
      k := RunOf(cuts, n - 1, i);
    }
  }

  lemma ProbedInSpan(obs: seq<Observation>, step: int, probeSize: int, spans: seq<Span>, cuts: seq<nat>, status: Status,
                     x: int)
    requires CutInto(obs, step, probeSize, spans, cuts) && step > 0 && Probed(obs, probeSize, status, x)
    ensures InSpan(spans, status, x)
  {
    hide Merge;
    var i :| 0 <= i < |obs| && ProbeCovers(obs, probeSize, status, i, x);
    var k := RunOf(cuts, |spans|, i);
    assert MaximalRun(obs, step, cuts[k], cuts[k + 1]);
    RunOrder(obs, step, cuts[k], cuts[k + 1], cuts[k], i);
    RunOrder(obs, step, cuts[k], cuts[k + 1], i, cuts[k + 1] - 1);
    assert SpanCovers(spans[k], status, x);
  }

  /** x lies between two probes of this status, one step apart, and in neither. */
  ghost predicate GapCovers(obs: seq<Observation>, step: int, probeSize: int, status: Status, j: nat, x: int)
    requires 0 < j < |obs|
  {
    Continues(obs, step, j) && obs[j].status == status && obs[j - 1].offset + probeSize <= x < obs[j].offset
  }

  ghost predicate InGap(obs: seq<Observation>, step: int, probeSize: int, status: Status, x: int) {
    exists j :: 0 < j < |obs| && GapCovers(obs, step, probeSize, status, j, x)
  }

  lemma SpanEnds(obs: seq<Observation>, probeSize: int, i: nat, j: nat)
    requires i < j <= |obs|
    ensures var s := SpanOf(obs, probeSize, i, j);
      s.start == obs[i].offset && s.end == obs[j - 1].offset + probeSize && s.status == obs[i].status
  {
  }

  lemma GapInSpan(obs: seq<Observation>, step: int, probeSize: int, spans: seq<Span>, cuts: seq<nat>, status: Status,
                  x: int)
    requires CutInto(obs, step, probeSize, spans, cuts) && step > 0 && probeSize >= 0
    requires InGap(obs, step, probeSize, status, x)
    ensures InSpan(spans, status, x)
  {
    hide SpanOf;
    var j :| 0 < j < |obs| && GapCovers(obs, step, probeSize, status, j, x);
    var k := RunOf(cuts, |spans|, j);
    var i, e := cuts[k], cuts[k + 1];
    assert MaximalRun(obs, step, i, e);
    RunOrder(obs, step, i, e, i, j - 1);
    RunOrder(obs, step, i, e, j, e - 1);
    SpanEnds(obs, probeSize, i, e);
    assert SpanCovers(spans[k], status, x);
  }

  /** A byte of a run is in one of its probes, or in the gap between two of them. */
  lemma {:induction false} RunOrGap(obs: seq<Observation>, step: int, probeSize: int, i: nat, j: nat, e: nat, x: int)
    requires MaximalRun(obs, step, i, j) && i < e <= j && step > 0
    requires obs[i].offset <= x < obs[e - 1].offset + probeSize
    ensures Probed(obs, probeSize, obs[i].status, x) || InGap(obs, step, probeSize, obs[i].status, x)
    decreases e
  {
    var status := obs[i].status;
    RunOrder(obs, step, i, j, i, e - 1);
    if obs[e - 1].offset <= x {
      assert ProbeCovers(obs, probeSize, status, e - 1, x);
    } else {
      assert e - 1 > i;
      assert Continues(obs, step, e - 1);
      if x < obs[e - 2].offset + probeSize {
        RunOrGap(obs, step, probeSize, i, j, e - 1, x);
      } else {
        assert GapCovers(obs, step, probeSize, status, e - 1, x);
      }
    }
  }

  lemma ShortStepsNoGap(obs: seq<Observation>, step: int, probeSize: int, status: Status, x: int)
    requires step <= probeSize
    ensures !InGap(obs, step, probeSize, status, x)
  {
  }

  /** The spans of a status cover exactly the bytes probed with that status and the gaps between probes of it that lie
      one step apart. With steps no longer than a probe there are no gaps. */
  lemma SpansCoverProbes(obs: seq<Observation>, step: int, probeSize: int, status: Status, x: int)
    requires Step(step, probeSize) > 0
    ensures Probed(obs, probeSize, status, x) ==> InSpan(Consolidated(obs, step, probeSize), status, x)
    ensures probeSize >= 0 ==>
      (InSpan(Consolidated(obs, step, probeSize), status, x)
       <==> Probed(obs, probeSize, status, x) || InGap(obs, Step(step, probeSize), probeSize, status, x))
    ensures Step(step, probeSize) <= probeSize ==> !InGap(obs, Step(step, probeSize), probeSize, status, x)
  {
    hide Consolidated, InGap, Probed, SpanOf;
    var spans, dist := Consolidated(obs, step, probeSize), Step(step, probeSize);
    var cuts := ConsolidatedIntoRuns(obs, step, probeSize);
    if Probed(obs, probeSize, status, x) {
      ProbedInSpan(obs, dist, probeSize, spans, cuts, status, x);
    }
    if probeSize >= 0 && InGap(obs, dist, probeSize, status, x) {
      GapInSpan(obs, dist, probeSize, spans, cuts, status, x);
    }
    if InSpan(spans, status, x) {
      var k :| 0 <= k < |spans| && SpanCovers(spans[k], status, x);
      assert MaximalRun(obs, dist, cuts[k], cuts[k + 1]);
      SpanEnds(obs, probeSize, cuts[k], cuts[k + 1]);
      RunOrGap(obs, dist, probeSize, cuts[k], cuts[k + 1], cuts[k + 1], x);
    }
    if dist <= probeSize {
      ShortStepsNoGap(obs, dist, probeSize, status, x);
    }
  }

  /** So the spans claim a byte that was not probed if and only if a gap between two probes of one status, one step
      apart, has such a byte. */
  lemma LongStepsOverclaim(obs: seq<Observation>, step: int, probeSize: int)
    requires Step(step, probeSize) > 0 && probeSize >= 0
    ensures (exists status: Status, x ::
               InSpan(Consolidated(obs, step, probeSize), status, x) && !Probed(obs, probeSize, status, x))
       <==> (exists status: Status, x ::
               InGap(obs, Step(step, probeSize), probeSize, status, x) && !Probed(obs, probeSize, status, x))
  {
    hide Consolidated, InGap, Probed, InSpan;
    forall status: Status, x
      ensures InSpan(Consolidated(obs, step, probeSize), status, x)
         <==> Probed(obs, probeSize, status, x) || InGap(obs, Step(step, probeSize), probeSize, status, x)
    {
      SpansCoverProbes(obs, step, probeSize, status, x);
    }
  }

  /** Probes at start, start + step, and so on, as a range scan places them. */
  ghost predicate OnGrid(obs: seq<Observation>, step: int) {
    forall k :: 0 < k < |obs| ==> obs[k].offset == obs[k - 1].offset + step
  }

  lemma {:induction false} GridAscends(obs: seq<Observation>, step: int, i: nat, j: nat)
    requires step > 0 && i < j < |obs| && OnGrid(obs, step)
    ensures obs[j].offset >= obs[i].offset + step
    decreases j
  {
    if j > i + 1 {
      GridAscends(obs, step, i, j - 1);
    }
  }

  lemma GapUnprobed(obs: seq<Observation>, step: int, probeSize: int, j: nat)
    requires 0 <= probeSize < step && OnGrid(obs, step) && 0 < j < |obs| && obs[j].status == obs[j - 1].status
    ensures var x := obs[j - 1].offset + probeSize;
      InGap(obs, step, probeSize, obs[j].status, x) && !Probed(obs, probeSize, obs[j].status, x)
  {
    var x := obs[j - 1].offset + probeSize;
    assert GapCovers(obs, step, probeSize, obs[j].status, j, x);
    forall n | 0 <= n < |obs| ensures !ProbeCovers(obs, probeSize, obs[j].status, n, x) {
      if n < j - 1 {
        GridAscends(obs, step, n, j - 1);
      } else if n > j {
        GridAscends(obs, step, j, n);
      }
    }
  }

  /** In a range scan with steps longer than a probe, that is when two neighbouring probes have the same status. */
  lemma GridOverclaim(obs: seq<Observation>, step: int, probeSize: int)
    requires 0 <= probeSize < step && OnGrid(obs, step)
    ensures (exists status: Status, x ::
               InSpan(Consolidated(obs, step, probeSize), status, x) && !Probed(obs, probeSize, status, x))
       <==> exists j :: 0 < j < |obs| && obs[j].status == obs[j - 1].status
  {
    hide Consolidated, Probed, InSpan;
    LongStepsOverclaim(obs, step, probeSize);
    if j :| 0 < j < |obs| && obs[j].status == obs[j - 1].status {
      GapUnprobed(obs, step, probeSize, j);
    }
  }

  lemma {:induction false} OfStatusCount(spans: seq<Span>, status: Status, x: Span)
    ensures multiset(OfStatus(spans, status))[x] == if x.status == status then multiset(spans)[x] else 0
  {
    if spans != [] {
      OfStatusCount(spans[..|spans| - 1], status, x);
      assert spans == spans[..|spans| - 1] + [spans[|spans| - 1]];
    }
  }

  /** The positions of the spans of a status, from one on. */
  function Positions(spans: seq<Span>, status: Status, from: nat): (r: seq<nat>)
    requires from <= |spans|
    ensures forall i :: 0 <= i < |r| ==> from <= r[i] < |spans| && spans[r[i]].status == status
    ensures forall i, j :: 0 <= i < j < |r| ==> r[i] < r[j]
    ensures forall k :: from <= k < |spans| && spans[k].status == status ==> k in r
    decreases |spans| - from
  {
    if from == |spans| then []
    else if spans[from].status == status then [from] + Positions(spans, status, from + 1)
    else Positions(spans, status, from + 1)
  }

  /** The spans of a status in the order they are in. */
  function Picked(spans: seq<Span>, status: Status): seq<Span> {
    var at := Positions(spans, status, 0);
    seq(|at|, i requires 0 <= i < |at| => spans[at[i]])
  }

  lemma {:induction false} PositionsSnoc(spans: seq<Span>, last: Span, status: Status, from: nat)
    requires from <= |spans|
    ensures Positions(spans + [last], status, from)
         == Positions(spans, status, from) + if last.status == status then [|spans|] else []
    decreases |spans| - from
  {
    var all := spans + [last];
    if from == |spans| {
      assert Positions(all, status, from + 1) == [];
    } else {
      PositionsSnoc(spans, last, status, from + 1);
      assert all[from] == spans[from];
    }
  }

  lemma {:induction false} OfStatusPicks(spans: seq<Span>, status: Status)
    ensures OfStatus(spans, status) == Picked(spans, status)
  {
    if spans != [] {
      var init, last := spans[..|spans| - 1], spans[|spans| - 1];
      assert spans == init + [last];
      OfStatusPicks(init, status);
      PositionsSnoc(init, last, status, 0);
    }
  }

  /** Readable are the spans read with success, empty those that gave nothing, inconclusive those with mixed retries,
      and failed those rejected, timed out, lost, malformed or short, one status after the other; each in the order of
      the spans. */
  lemma SummaryByStatus(spans: seq<Span>)
    ensures var s := SummaryOf(spans);
      && s.readable == Picked(spans, Success) && s.empty == Picked(spans, EmptyRead)
      && s.inconclusive == Picked(spans, Inconclusive)
      && s.failed == Picked(spans, Rejected) + Picked(spans, Timeout) + Picked(spans, TransportErr)
                     + Picked(spans, ProtocolErr) + Picked(spans, ShortRead)
  {
    hide OfStatus, Picked;
    forall status: Status ensures OfStatus(spans, status) == Picked(spans, status) {
      OfStatusPicks(spans, status);
    }
  }

  /** The summary holds every span exactly once. */
  lemma SummaryHoldsEachOnce(spans: seq<Span>)
    ensures var s := SummaryOf(spans);
      multiset(s.readable) + multiset(s.empty) + multiset(s.failed) + multiset(s.inconclusive) == multiset(spans)
  {
    hide OfStatus;
    var s := SummaryOf(spans);
    forall x: Span
      ensures (multiset(s.readable) + multiset(s.empty) + multiset(s.failed) + multiset(s.inconclusive))[x]
           == multiset(spans)[x]
    {
      forall status: Status
        ensures multiset(OfStatus(spans, status))[x] == if x.status == status then multiset(spans)[x] else 0
      {
        OfStatusCount(spans, status, x);
      }
    }
  }

  /** Two probes of the list have the flag, with different values. */
  ghost predicate Disagree(flags: seq<Option<bool>>) {
    exists i, j :: 0 <= i < j < |flags| && flags[i].Some? && flags[j].Some? && flags[i] != flags[j]
  }

  lemma DisagreeStep(flags: seq<Option<bool>>, value: Option<bool>, next: Option<bool>)
    requires flags != []
    requires if flags[0].None? || flags[0] == value then next == value else value.None? && next == flags[0]
    ensures Disagree([value] + flags) <==> Disagree([next] + flags[1..])
  {
    var a, b := [value] + flags, [next] + flags[1..];
    assert forall i :: 0 < i < |b| ==> b[i] == a[i + 1];
    if Disagree(a) {
      var i, j :| 0 <= i < j < |a| && a[i].Some? && a[j].Some? && a[i] != a[j];
      var i', j' := if i <= 1 then 0 else i - 1, j - 1;
      assert j >= 2 && b[j'] == a[j] && b[i'] == a[i];
    }
    if Disagree(b) {
      var i, j :| 0 <= i < j < |b| && b[i].Some? && b[j].Some? && b[i] != b[j];
      var i' := if i == 0 then (if flags[0].None? || flags[0] == value then 0 else 1) else i + 1;
      assert a[i'] == b[i] && a[j + 1] == b[j];
    }
  }

  lemma {:induction false} MergeFrom(flags: seq<Option<bool>>, value: Option<bool>)
    ensures var m := Merge(flags, value);
      && (m.differs <==> Disagree([value] + flags))
      && (!m.differs ==> (forall i :: 0 <= i < |flags| && flags[i].Some? ==> flags[i] == m.value)
                         && (value.Some? ==> m.value == value)
                         && (m.value.Some? ==> m.value == value || m.value in flags))
  {
    if flags != [] {
      var all, rest := [value] + flags, flags[1..];
      assert forall i :: 0 < i < |flags| ==> flags[i] == rest[i - 1];
      if flags[0].None? || flags[0] == value || value.None? {
        var next := if flags[0].None? || flags[0] == value then value else flags[0];
        MergeFrom(rest, next);
        DisagreeStep(flags, value, next);
      } else {
        assert all[0] == value && all[1] == flags[0];
      }
    }
  }

  lemma {:induction false} DifferingHasNoValue(flags: seq<Option<bool>>, value: Option<bool>)
    ensures Merge(flags, value).differs ==> Merge(flags, value).value.None?
  {
    if flags != [] {
      DifferingHasNoValue(flags[1..], value);
      DifferingHasNoValue(flags[1..], flags[0]);
    }
  }

  /** A span carries a flag exactly when some probe of its run has it and none contradicts; a note says when one does.
      */
  lemma MergeExact(flags: seq<Option<bool>>)
    ensures var m := Merge(flags, None);
      && (m.differs <==> Disagree(flags))
      && (m.differs ==> m.value.None?)
      && (!m.differs ==> (forall i :: 0 <= i < |flags| && flags[i].Some? ==> flags[i] == m.value)
                         && (m.value.Some? ==> m.value in flags))
  {
    MergeFrom(flags, None);
    DifferingHasNoValue(flags, None);
    var all := [None] + flags;
    assert forall i :: 0 < i < |all| ==> all[i] == flags[i - 1];
    if Disagree(flags) {
      var i, j :| 0 <= i < j < |flags| && flags[i].Some? && flags[j].Some? && flags[i] != flags[j];
      assert all[i + 1] == flags[i] && all[j + 1] == flags[j];
    }
  }

  /** What a span says about a flag is what the probes of its run say: noted when two contradict each other, and then no
      value; otherwise the value of every probe that has the flag, if one has. */
  ghost predicate FlagExact(value: Option<bool>, noted: bool, flags: seq<Option<bool>>) {
    && (noted <==> Disagree(flags))
    && (noted ==> value.None?)
    && (!noted ==> (forall i :: 0 <= i < |flags| && flags[i].Some? ==> flags[i] == value)
                   && (value.Some? ==> value in flags))
  }

  ghost predicate SaysWhatRunSays(s: Span, obs: seq<Observation>, i: nat, j: nat) {
    && i < j <= |obs|
    && FlagExact(s.stable, StableDiffers in s.notes, Stables(obs[i..j]))
    && FlagExact(s.allZero, AllZeroDiffers in s.notes, AllZeros(obs[i..j]))
  }

  lemma SpanFlags(obs: seq<Observation>, probeSize: int, i: nat, j: nat)
    requires i < j <= |obs|
    ensures SaysWhatRunSays(SpanOf(obs, probeSize, i, j), obs, i, j)
  {
    hide Merge, Disagree, Stables, AllZeros;
    MergeExact(Stables(obs[i..j]));
    MergeExact(AllZeros(obs[i..j]));
  }

  /** Every span stands for a maximal run of probes, and its two flags and notes are exactly what that run says. */
  lemma SpanFlagsExact(obs: seq<Observation>, step: int, probeSize: int) returns (cuts: seq<nat>)
    ensures var spans := Consolidated(obs, step, probeSize);
      && CutInto(obs, Step(step, probeSize), probeSize, spans, cuts)
      && forall k :: 0 <= k < |spans| ==> SaysWhatRunSays(spans[k], obs, cuts[k], cuts[k + 1])
  {
    hide Consolidated, SpanOf, SaysWhatRunSays;
    cuts := ConsolidatedIntoRuns(obs, step, probeSize);
    var spans := Consolidated(obs, step, probeSize);
    forall k | 0 <= k < |spans| ensures SaysWhatRunSays(spans[k], obs, cuts[k], cuts[k + 1]) {
      assert MaximalRun(obs, Step(step, probeSize), cuts[k], cuts[k + 1]);
      SpanFlags(obs, probeSize, cuts[k], cuts[k + 1]);
    }
  }

  //
  // The probes of a range scan.
  //

  /** Some probe of this size covers x. */
  ghost predicate Reached(offsets: seq<int>, size: int, x: int) {
    exists i :: 0 <= i < |offsets| && offsets[i] <= x < offsets[i] + size
  }

  ghost predicate ReachedUpTo(offsets: seq<int>, size: int, start: int, end: int) {
    forall x :: start <= x < end ==> Reached(offsets, size, x)
  }

  lemma NoneReached(start: int, size: int)
    ensures ReachedUpTo([], size, start, start)
  {
  }

  lemma ReachedSnoc(offsets: seq<int>, size: int, start: int, o: int)
    requires ReachedUpTo(offsets, size, start, o)
    ensures ReachedUpTo(offsets + [o], size, start, o + size)
  {
    var all := offsets + [o];
    assert all[|offsets|] == o;
    forall x | start <= x < o + size ensures Reached(all, size, x) {
      if x < o {
        assert Reached(offsets, size, x);
        var i :| 0 <= i < |offsets| && offsets[i] <= x < offsets[i] + size;
        assert all[i] == offsets[i];
      }
    }
  }

  lemma ReachedByLonger(offsets: seq<int>, size: int, longer: int, start: int, o: int, end: int)
    requires size <= longer && end <= o && ReachedUpTo(offsets, size, start, o)
    ensures ReachedUpTo(offsets, longer, start, end)
  {
    forall x | start <= x < end ensures Reached(offsets, longer, x) {
      assert Reached(offsets, size, x);
    }
  }

  /** Places the probes of a scan of [start, end). With steps no longer than a probe, which is what a scan without a
      given step has, every byte of the range is probed. */
  method PlanProbes(start: int, end: int, givenStep: int, givenSize: int)
    returns (offsets: seq<int>, step: int, probeSize: int)
    ensures step > 0 && probeSize > 0 && (givenStep <= 0 ==> step <= probeSize)
    ensures step == if givenStep > 0 then givenStep else if givenSize > 0 then givenSize else 1
    ensures probeSize == if givenSize > 0 then givenSize else 8
    ensures forall i :: 0 <= i < |offsets| ==> start <= offsets[i] < end && (i == 0 ==> offsets[i] == start)
    ensures forall i :: 0 < i < |offsets| ==> offsets[i] == offsets[i - 1] + step
    ensures start < end ==> offsets != [] && offsets[|offsets| - 1] + step >= end
    ensures step <= probeSize ==> ReachedUpTo(offsets, probeSize, start, end)
  {
    hide ReachedUpTo;
    step := givenStep;
    if step <= 0 {
      step := givenSize;
    }
    if step <= 0 {
      step := 1;
    }
    probeSize := givenSize;
    if probeSize <= 0 {
      probeSize := 8;
    }
    offsets := [];
    var o := start;
    NoneReached(start, step);
    while o < end
      invariant o >= start && o == (if offsets == [] then start else offsets[|offsets| - 1] + step)
      invariant forall i :: 0 <= i < |offsets| ==> start <= offsets[i] < end && (i == 0 ==> offsets[i] == start)
      invariant forall i :: 0 < i < |offsets| ==> offsets[i] == offsets[i - 1] + step
      invariant ReachedUpTo(offsets, step, start, o)
      decreases end - o
    {
      ReachedSnoc(offsets, step, start, o);
      offsets := offsets + [o];
      o := o + step;
    }
    if step <= probeSize {
      ReachedByLonger(offsets, step, probeSize, start, o, end);
    }
  }

  /** A scan whose steps are no longer than a probe leaves no byte out: each is in a span whose status one of its probes
      gave. */
  lemma ScanCovered(obs: seq<Observation>, offsets: seq<int>, step: int, probeSize: int, x: int)
    requires |obs| == |offsets| && 0 < step <= probeSize && Reached(offsets, probeSize, x)
    requires forall i :: 0 <= i < |obs| ==> obs[i].offset == offsets[i]
    ensures exists status: Status ::
      InSpan(Consolidated(obs, step, probeSize), status, x) && Probed(obs, probeSize, status, x)
  {
    hide Consolidated, InSpan, InGap;
    var i :| 0 <= i < |offsets| && offsets[i] <= x < offsets[i] + probeSize;
    assert ProbeCovers(obs, probeSize, obs[i].status, i, x);
    SpansCoverProbes(obs, step, probeSize, obs[i].status, x);
  }
}
