/** Jobs of many connections and of the host on one memory, interleaved item by item under the one read-write lock. */
module Concurrent {
  import opened Octets
  import opened Message
  import opened VarSpecs
  import opened WriteData
  import opened Answers
  import opened Memory
  import opened VarItems
  import opened Session
  import ServerProperties

  /** What takes the lock: a decoded Read Var or Write Var job, or a host-side call. */
  datatype Job =
    | ReadVar(pduSize: nat, pduRef: u16, param: bytes)
    | WriteVar(pduRef: u16, param: bytes, data: bytes)
    | HostReading(area: byte, db: int, start: int, size: int)
    | HostWriting(area: byte, db: int, start: int, value: bytes)
    | Registering(area: byte, db: int, content: bytes, readOnly: bool)

  datatype Outcome = Sent(out: Option<bytes>) | Copied(copy: HostResult<bytes>) | Returned(status: HostResult<()>)

  /** A malformed job is refused before it asks for the lock. */
  predicate Decoded(job: Job) {
    match job
    case ReadVar(_, _, param) => ParsedSpecs(param, FUNC_READ).Some?
    case WriteVar(_, param, data) => ParsedWrite(param, data).Some?
    case _ => true
  }

  predicate Reads(job: Job) {
    job.ReadVar? || job.HostReading?
  }

  /** The job in one step: what a server with a single connection does. */
  function Atomically(mem: Mem, job: Job): (Mem, Outcome)
    requires Decoded(job)
  {
    match job
    case ReadVar(pduSize, pduRef, param) => (mem, Sent(ReadAnswer(State(mem, pduSize), pduRef, param)))
    case WriteVar(pduRef, param, data) =>
      var (mem', out) := WriteAnswer(mem, pduRef, param, data).value;
      (mem', Sent(out))
    case HostReading(area, db, start, size) => (mem, Copied(HostRead(mem, area, db, start, size)))
    case HostWriting(area, db, start, value) =>
      var (r, mem') := HostWrite(mem, area, db, start, value);
      (mem', Returned(r))
    case Registering(area, db, content, readOnly) =>
      var (r, mem') := Register(mem, area, db, content, readOnly);
      (mem', Returned(r))
  }

  lemma FailedWrite(mem: Mem, area: byte, db: int, start: int, value: bytes)
    ensures HostWrite(mem, area, db, start, value).0.Failed? ==> HostWrite(mem, area, db, start, value).1 == mem
  {
  }

  /** Host-side jobs in one step: a write that is done is read back by the next read of the same span, an area that is
      registered as a whole; and a read gives what the host reads and changes nothing. */
  lemma HostJobs(mem: Mem, area: byte, db: int, start: int, value: bytes, readOnly: bool)
    ensures var (mem', r) := Atomically(mem, HostWriting(area, db, start, value));
      && r.Returned? && (r.status.Failed? ==> mem' == mem)
      && (r.status.Done? ==>
            Atomically(mem', HostReading(area, db, start, |value|)) == (mem', Copied(Done(value))))
    ensures var (mem', r) := Atomically(mem, Registering(area, db, value, readOnly));
      && r.Returned? && (r.status.Failed? ==> mem' == mem)
      && (r.status.Done? ==>
            && Atomically(mem', HostReading(area, db, 0, |value|)) == (mem', Copied(Done(value)))
            && forall k :: k in mem ==> k in mem' && mem'[k] == mem[k])
  {
    hide HostWrite, HostRead, Register;
    if HostWrite(mem, area, db, start, value).0.Done? {
      HostWriteThenRead(mem, area, db, start, value, area, db, start, |value|);
    } else {
      FailedWrite(mem, area, db, start, value);
    }
    RegisterThenRead(mem, area, db, value, readOnly);
  }

  /** How far a job that holds the lock has come. */
  datatype Progress =
    | Reading(i: nat, used: nat, results: seq<ReadVarItem>)
    | Writing(i: nat, codes: bytes)
    | Untouched
    | Finished(outcome: Outcome)

  function Begun(job: Job): Progress {
    match job
    case ReadVar(_, _, _) => Reading(0, 14, [])
    case WriteVar(_, _, _) => Writing(0, [])
    case _ => Untouched
  }

  predicate Fits(job: Job, p: Progress)
    requires Decoded(job)
  {
    match p
    case Reading(i, _, _) => job.ReadVar? && i <= |ParsedSpecs(job.param, FUNC_READ).value|
    case Writing(i, _) => job.WriteVar? && i <= |ParsedWrite(job.param, job.data).value.0|
    case Untouched => !job.ReadVar? && !job.WriteVar?
    case Finished(_) => true
  }

  /** One item of a job, or its last action. */
  function Advance(mem: Mem, job: Job, p: Progress): (Mem, Progress)
    requires Decoded(job) && Fits(job, p)
  {
    match p
    case Reading(i, used, results) =>
      RangesAtDBReadItems(job.param);
      FirstByte(job.param);
      var specs, ranges := ParsedSpecs(job.param, FUNC_READ).value, ParsedRanges(job.param).value;
      var s := State(mem, job.pduSize);
      if i == |specs| then
        (mem, Finished(Sent(if used > job.pduSize then Refusal(job.pduRef, job.param)
                            else ReadVarResponse(job.pduRef, results))))
      else
        var (r, used') := ReadStep(s, specs[i], ranges[i], i == |specs| - 1, used);
        if r.None? then (mem, Finished(Sent(Refusal(job.pduRef, job.param))))
        else (mem, Reading(i + 1, used', results + [r.value]))
    case Writing(i, codes) =>
      ParsedWriteLengths(job.param, job.data);
      var (specs, items) := ParsedWrite(job.param, job.data).value;
      if i == |specs| then (mem, Finished(Sent(WriteVarResponse(job.pduRef, codes))))
      else
        var (mem', code) := WriteItem(mem, specs[i], items[i]);
        (mem', Writing(i + 1, codes + [code]))
    case Untouched =>
      var (mem', outcome) := Atomically(mem, job);
      (mem', Finished(outcome))
    case Finished(_) => (mem, p)
  }

  /** Where a job ends up if nobody else touches memory from here on. */
  function Completed(mem: Mem, job: Job, p: Progress): (Mem, Outcome)
    requires Decoded(job) && Fits(job, p)
  {
    match p
    case Reading(i, used, results) =>
      RangesAtDBReadItems(job.param);
      FirstByte(job.param);
      (mem, Sent(ReadFrom(State(mem, job.pduSize), job.pduRef, job.param, ParsedSpecs(job.param, FUNC_READ).value,
                          ParsedRanges(job.param).value, i, used, results)))
    case Writing(i, codes) =>
      ParsedWriteLengths(job.param, job.data);
      var (specs, items) := ParsedWrite(job.param, job.data).value;
      var (mem', all) := WriteFrom(mem, specs, items, i, codes);
      (mem', Sent(WriteVarResponse(job.pduRef, all)))
    case Untouched => Atomically(mem, job)
    case Finished(outcome) => (mem, outcome)
  }

  lemma BegunCompletes(mem: Mem, job: Job)
    requires Decoded(job)
    ensures Fits(job, Begun(job)) && Completed(mem, job, Begun(job)) == Atomically(mem, job)
  {
    hide ReadFrom, WriteFrom, ReadAnswer, WriteVarResponse, ParsedSpecs, ParsedRanges, ParsedWrite;
    if job.ReadVar? {
      FastReadIsSimpleRead(State(mem, job.pduSize), job.pduRef, job.param);
    }
  }

  lemma AdvanceTowardsCompletion(mem: Mem, job: Job, p: Progress)
    requires Decoded(job) && Fits(job, p)
    ensures var (mem', p') := Advance(mem, job, p);
      && Fits(job, p') && Completed(mem', job, p') == Completed(mem, job, p)
      && (Reads(job) ==> mem' == mem)
  {
    hide ReadStep, WriteItem, ReadAnswer, WriteAnswer, WriteVarResponse, ReadVarResponse, Refusal,
         ParsedSpecs, ParsedRanges, ParsedWrite;
  }

  //
  // The world: connections and host calls as threads, one lock, and the answers given so far in order.
  //

  datatype Thread = Waiting(job: Job) | Holding(job: Job, progress: Progress)

  datatype Answered = Answered(thread: nat, job: Job, outcome: Outcome)

  datatype World = World(mem: Mem, threads: map<nat, Thread>, readers: set<nat>, writer: Option<nat>,
                         answers: seq<Answered>)

  datatype Event = Begin(thread: nat, job: Job) | Acquire(thread: nat) | Work(thread: nat) | Release(thread: nat)

  predicate Sound(w: World) {
    forall t :: t in w.threads ==>
      && Decoded(w.threads[t].job)
      && (w.threads[t].Holding? ==> Fits(w.threads[t].job, w.threads[t].progress))
  }

  /** One event; one that is not possible now does nothing. Several readers may hold the lock at once, a writer only
      alone. A thread that released the lock may begin another job. */
  function Next(w: World, e: Event): World
    requires Sound(w)
  {
    match e
    case Begin(t, job) =>
      if t in w.threads || !Decoded(job) then w else w.(threads := w.threads[t := Waiting(job)])
    case Acquire(t) =>
      if t !in w.threads || !w.threads[t].Waiting? || w.writer.Some? then w
      else
        var job := w.threads[t].job;
        var holding := w.threads[t := Holding(job, Begun(job))];
        if Reads(job) then w.(threads := holding, readers := w.readers + {t})
        else if w.readers == {} then w.(threads := holding, writer := Some(t))
        else w
    case Work(t) =>
      if t !in w.threads || !w.threads[t].Holding? then w
      else
        var job := w.threads[t].job;
        var (mem', p') := Advance(w.mem, job, w.threads[t].progress);
        w.(mem := mem', threads := w.threads[t := Holding(job, p')])
    case Release(t) =>
      if t !in w.threads || !w.threads[t].Holding? || !w.threads[t].progress.Finished? then w
      else
        var answer := Answered(t, w.threads[t].job, w.threads[t].progress.outcome);
        w.(threads := w.threads - {t}, readers := w.readers - {t},
           writer := if w.writer == Some(t) then None else w.writer, answers := w.answers + [answer])
  }

  /** Memory after the answered jobs, run one after the other in one step each. */
  function After(init: Mem, answers: seq<Answered>): Mem
    requires forall i :: 0 <= i < |answers| ==> Decoded(answers[i].job)
  {
    if answers == [] then init
    else Atomically(After(init, answers[..|answers| - 1]), answers[|answers| - 1].job).0
  }

  /** Each job got the answer it gets when the jobs run one after the other, in the order of the answers. */
  ghost predicate Sequential(init: Mem, answers: seq<Answered>) {
    && (forall i :: 0 <= i < |answers| ==> Decoded(answers[i].job))
    && forall i :: 0 <= i < |answers| ==>
         answers[i].outcome == Atomically(After(init, answers[..i]), answers[i].job).1
  }

  /** The lock is held by whom it says, a writer alone, and every holder is on its way to the result it would have in
      one step on the memory the answered jobs left. */
  ghost predicate Inv(init: Mem, w: World) {
    && Sound(w) && Sequential(init, w.answers)
    && (forall t :: t in w.threads && w.threads[t].Holding? <==> t in w.readers || w.writer == Some(t))
    && (forall t :: t in w.threads && t in w.readers ==> Reads(w.threads[t].job))
    && (forall t :: t in w.threads && w.writer == Some(t) ==> !Reads(w.threads[t].job))
    && (w.writer.Some? ==> w.readers == {})
    && (w.writer.None? ==> w.mem == After(init, w.answers))
    && (forall t :: t in w.threads && w.threads[t].Holding? ==>
          Completed(w.mem, w.threads[t].job, w.threads[t].progress)
            == Atomically(After(init, w.answers), w.threads[t].job))
  }

  lemma BeginKeeps(init: Mem, w: World, t: nat, job: Job)
    requires Inv(init, w)
    ensures Inv(init, Next(w, Begin(t, job)))
  {
    hide Decoded, Fits, Completed, Atomically, After;
  }

  lemma AcquireKeeps(init: Mem, w: World, t: nat)
    requires Inv(init, w)
    ensures Inv(init, Next(w, Acquire(t)))
  {
    hide Decoded, Fits, Completed, Atomically, After, Begun;
    if t in w.threads {
      BegunCompletes(w.mem, w.threads[t].job);
    }
  }

  lemma WorkKeeps(init: Mem, w: World, t: nat)
    requires Inv(init, w)
    ensures Inv(init, Next(w, Work(t)))
  {
    hide Decoded, Fits, Completed, Atomically, After, Advance;
    if t in w.threads && w.threads[t].Holding? {
      AdvanceTowardsCompletion(w.mem, w.threads[t].job, w.threads[t].progress);
    }
  }

  lemma AnswerAppended(init: Mem, answers: seq<Answered>, a: Answered)
    requires Sequential(init, answers) && Decoded(a.job)
    requires a.outcome == Atomically(After(init, answers), a.job).1
    ensures Sequential(init, answers + [a])
    ensures After(init, answers + [a]) == Atomically(After(init, answers), a.job).0
  {
    hide Decoded, Atomically;
    var all := answers + [a];
    assert all[..|all| - 1] == answers;
    forall i | 0 <= i < |all|
      ensures Decoded(all[i].job) && all[i].outcome == Atomically(After(init, all[..i]), all[i].job).1
    {
      if i < |answers| {
        assert all[..i] == answers[..i] && all[i] == answers[i];
      }
    }
  }

  lemma ReadsKeepMemory(mem: Mem, job: Job)
    requires Decoded(job) && Reads(job)
    ensures Atomically(mem, job).0 == mem
  {
  }

  lemma ReleaseKeeps(init: Mem, w: World, t: nat)
    requires Inv(init, w)
    ensures Inv(init, Next(w, Release(t)))
  {
    hide Decoded, Fits, Atomically, After;
    if t in w.threads && w.threads[t].Holding? && w.threads[t].progress.Finished? {
      var job := w.threads[t].job;
      AnswerAppended(init, w.answers, Answered(t, job, w.threads[t].progress.outcome));
      if Reads(job) {
        ReadsKeepMemory(After(init, w.answers), job);
      }
    }
  }

  lemma NextKeeps(init: Mem, w: World, e: Event)
    requires Inv(init, w)
    ensures Inv(init, Next(w, e))
  {
    hide Inv, Next;
    match e
    case Begin(t, job) => BeginKeeps(init, w, t, job);
    case Acquire(t) => AcquireKeeps(init, w, t);
    case Work(t) => WorkKeeps(init, w, t);
    case Release(t) => ReleaseKeeps(init, w, t);
  }

  lemma NextSound(w: World, e: Event)
    requires Sound(w)
    ensures Sound(Next(w, e))
  {
    hide Decoded, Fits, Advance, Begun, Completed, Atomically;
    match e
    case Begin(t, job) =>
    case Acquire(t) =>
      if t in w.threads { BegunCompletes(w.mem, w.threads[t].job); }
    case Work(t) =>
      if t in w.threads && w.threads[t].Holding? {
        AdvanceTowardsCompletion(w.mem, w.threads[t].job, w.threads[t].progress);
      }
    case Release(t) =>
  }

  function Start(init: Mem): World {
    World(init, map[], {}, None, [])
  }

  function Run(w: World, events: seq<Event>): (w': World)
    requires Sound(w)
    ensures Sound(w')
    decreases |events|
  {
    if events == [] then w else (NextSound(w, events[0]); Run(Next(w, events[0]), events[1..]))
  }

  lemma AnswersStay(w: World, e: Event)
    requires Sound(w)
    ensures Sound(Next(w, e)) && w.answers <= Next(w, e).answers
  {
    hide Decoded, Fits, Advance, Begun;
    NextSound(w, e);
  }

  lemma {:induction false} RunInv(init: Mem, w: World, events: seq<Event>)
    requires Sound(w) && Inv(init, w)
    ensures Inv(init, Run(w, events))
    ensures w.answers <= Run(w, events).answers
    decreases |events|
  {
    hide Inv, Next;
    if events != [] {
      NextKeeps(init, w, events[0]);
      AnswersStay(w, events[0]);
      RunInv(init, Next(w, events[0]), events[1..]);
    }
  }

  /** In every interleaving of jobs and host calls, the answers given are those of running the jobs one after the
      other, each in one step, in the order they were answered; and whenever no writer holds the lock, memory is what
      that sequential run leaves. Answers once given stay, so a job answered before another began comes before it. */
  lemma Serializable(init: Mem, before: seq<Event>, after: seq<Event>)
    ensures var w, w' := Run(Start(init), before), Run(Run(Start(init), before), after);
      && Sequential(init, w'.answers)
      && (w'.writer.None? ==> w'.mem == After(init, w'.answers))
      && w.answers <= w'.answers
  {
    hide Run;
    assert Inv(init, Start(init));
    RunInv(init, Start(init), before);
    RunInv(init, Run(Start(init), before), after);
  }

  ghost predicate Holds(w: World, t: nat) {
    t in w.threads && w.threads[t].Holding?
  }

  ghost predicate Shares(w: World, t: nat) {
    t in w.threads && (w.threads[t].job.ReadVar? || w.threads[t].job.HostReading?)
  }

  /** Read Var jobs and host-side reads share the lock; a Write Var job, a host-side write and registering have it
      alone. A waiting job gets it exactly then. */
  lemma LockExact(init: Mem, w: World, t: nat)
    requires Inv(init, w) && t in w.threads && w.threads[t].Waiting?
    ensures Holds(Next(w, Acquire(t)), t) <==>
      if Shares(w, t) then (forall k :: Holds(w, k) ==> Shares(w, k)) else (forall k :: !Holds(w, k))
  {
    hide Decoded, Fits, Completed, Atomically, After, Begun, Sequential;
    var w' := Next(w, Acquire(t));
    if w.writer.Some? {
      assert Holds(w, w.writer.value);
    }
    if w.readers != {} {
      var r :| r in w.readers;
      assert Holds(w, r);
    }
  }

  //
  // Every job is answered once.
  //

  function UnderWay(w: World, t: nat, job: Job): nat {
    if t in w.threads && w.threads[t].job == job then 1 else 0
  }

  function AnswersTo(answers: seq<Answered>, t: nat, job: Job): nat {
    if answers == [] then 0
    else
      var last := answers[|answers| - 1];
      AnswersTo(answers[..|answers| - 1], t, job) + if last.thread == t && last.job == job then 1 else 0
  }

  /** How often a thread began this job in a run. */
  function Beginnings(w: World, events: seq<Event>, t: nat, job: Job): nat
    requires Sound(w)
    decreases |events|
  {
    if events == [] then 0
    else
      NextSound(w, events[0]);
      var begins := events[0] == Begin(t, job) && t !in w.threads && Decoded(job);
      (if begins then 1 else 0) + Beginnings(Next(w, events[0]), events[1..], t, job)
  }

  lemma JobStep(w: World, e: Event, t: nat, job: Job)
    requires Sound(w)
    ensures var w' := Next(w, e);
      UnderWay(w', t, job) + AnswersTo(w'.answers, t, job)
      == UnderWay(w, t, job) + AnswersTo(w.answers, t, job)
         + if e == Begin(t, job) && t !in w.threads && Decoded(job) then 1 else 0
  {
    hide Decoded, Fits, Advance, Begun;
    var w' := Next(w, e);
    if e.Release? && w' != w {
      assert w'.answers[..|w'.answers| - 1] == w.answers;
    }
  }

  /** In every interleaving, each job begun is under way or was answered, once: none is lost, none is answered twice,
      and no answer goes to a thread that did not begin that job. */
  lemma {:induction false} JobsConserved(w: World, events: seq<Event>, t: nat, job: Job)
    requires Sound(w)
    ensures var w' := Run(w, events);
      UnderWay(w', t, job) + AnswersTo(w'.answers, t, job)
      == UnderWay(w, t, job) + AnswersTo(w.answers, t, job) + Beginnings(w, events, t, job)
    decreases |events|
  {
    hide Next, Decoded, UnderWay, AnswersTo;
    if events != [] {
      NextSound(w, events[0]);
      JobStep(w, events[0], t, job);
      JobsConserved(Next(w, events[0]), events[1..], t, job);
    }
  }

  /** A job of a client, or a host-side read. */
  predicate Harmless(job: Job) {
    !job.HostWriting? && !job.Registering?
  }

  ghost predicate AllHarmless(w: World) {
    forall t :: t in w.threads ==> Harmless(w.threads[t].job)
  }

  lemma AdvanceKeepsMemory(mem: Mem, job: Job, p: Progress)
    requires Decoded(job) && Fits(job, p) && Harmless(job)
    ensures ServerProperties.Kept(mem, Advance(mem, job, p).0)
  {
    hide ReadStep, WriteItem, ReadAnswer, WriteAnswer, WriteVarResponse, ReadVarResponse, Refusal,
         ParsedSpecs, ParsedRanges, ParsedWrite, HostRead, ServerProperties.Kept;
    ServerProperties.KeptByNothing(mem);
    if p.Writing? {
      ParsedWriteLengths(job.param, job.data);
      var (specs, items) := ParsedWrite(job.param, job.data).value;
      if p.i < |specs| {
        ServerProperties.WriteItemKeeps(mem, specs[p.i], items[p.i]);
      }
    }
  }

  lemma NextKeepsMemory(w: World, e: Event)
    requires Sound(w) && AllHarmless(w) && (e.Begin? ==> Harmless(e.job))
    ensures AllHarmless(Next(w, e)) && ServerProperties.Kept(w.mem, Next(w, e).mem)
  {
    hide Decoded, Fits, Advance, Begun, ServerProperties.Kept;
    ServerProperties.KeptByNothing(w.mem);
    if e.Work? && e.thread in w.threads && w.threads[e.thread].Holding? {
      AdvanceKeepsMemory(w.mem, w.threads[e.thread].job, w.threads[e.thread].progress);
    }
  }

  /** In every interleaving, item by item, of any number of client jobs and host-side reads, and at every moment of it:
      no area appears, disappears or changes its size, and write-protected areas, timers and counters keep what they
      held. */
  lemma {:induction false} InterleavedKeeps(w: World, events: seq<Event>)
    requires Sound(w) && AllHarmless(w)
    requires forall i :: 0 <= i < |events| && events[i].Begin? ==> Harmless(events[i].job)
    ensures ServerProperties.Kept(w.mem, Run(w, events).mem)
    decreases |events|
  {
    hide Sound, AllHarmless, Next, ServerProperties.Kept;
    ServerProperties.KeptByNothing(w.mem);
    if events != [] {
      NextSound(w, events[0]);
      NextKeepsMemory(w, events[0]);
      var w' := Next(w, events[0]);
      InterleavedKeeps(w', events[1..]);
      ServerProperties.KeptTransitive(w.mem, w'.mem, Run(w', events[1..]).mem);
    }
  }

  lemma HolderMoves(w: World, t: nat)
    requires Sound(w) && t in w.threads && w.threads[t].Holding?
    ensures exists e: Event :: e.thread in w.threads && Next(w, e) != w
  {
    hide Atomically, ReadStep, WriteItem, WriteVarResponse, ReadVarResponse, Refusal, ParsedSpecs, ParsedRanges,
         ParsedWrite;
    if w.threads[t].progress.Finished? {
      var w' := Next(w, Release(t));
      assert |w'.answers| != |w.answers|;
    } else {
      var w' := Next(w, Work(t));
      assert w'.threads[t].progress != w.threads[t].progress;
    }
  }

  /** The lock never blocks everyone: while any thread is under way, one of them can go on. */
  lemma NoDeadlock(init: Mem, w: World)
    requires Inv(init, w) && w.threads != map[]
    ensures exists e: Event :: e.thread in w.threads && Next(w, e) != w
  {
    hide Decoded, Fits, Completed, Atomically, After, Advance, Sequential;
    var t :| t in w.threads;
    if w.readers != {} {
      var r :| r in w.readers;
      HolderMoves(w, r);
    } else if w.writer.Some? {
      HolderMoves(w, w.writer.value);
    } else {
      var w' := Next(w, Acquire(t));
      assert w'.threads[t].Holding?;
    }
  }
}
