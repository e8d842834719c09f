/** Connections of the server: the connection limit, tracking and Close, in every interleaving. */
module Lifecycle {

  type ConnId = nat

  /** Where an accepted connection is between the accept loop and its worker. */
  datatype Phase =
    | Accepted   // returned by Accept, no slot yet
    | Slotted    // a slot taken
    | Tracked    // in the map, its worker not started yet
    | Serving    // its worker runs
    | Removed    // out of the map and closed, its slot not given back yet
    | TurnedAway // not added because the server is closed, its slot not given back yet
    | Gone       // closed, and its slot, if it had one, given back

  /** slots counts the tokens in the slot channel; workers are the goroutines the wait group counts; taken and returned
      record for which connections a slot was taken and given back. */
  datatype Server = Server(
    limit: nat, closed: bool, conns: set<ConnId>, slots: nat, workers: set<ConnId>, phase: map<ConnId, Phase>,
    hungUp: set<ConnId>, taken: multiset<ConnId>, returned: multiset<ConnId>)

  datatype Event =
    | Accept(c: ConnId)
    | Admit(c: ConnId)       // take a slot, or hang up when none is free
    | Add(c: ConnId)         // addConn
    | StartWorker(c: ConnId) // wg.Go
    | Leave(c: ConnId)       // serveConn ended: removeConn
    | Return(c: ConnId)      // give the slot back
    | Close

  function At(s: Server, c: ConnId): Phase {
    if c in s.phase then s.phase[c] else Gone
  }

  /** One event; one that is not possible now does nothing. addConn, removeConn and the first part of Close each hold
      the server's mutex. */
  function Next(s: Server, e: Event): Server {
    match e
    case Accept(c) => if c in s.phase then s else s.(phase := s.phase[c := Accepted])
    case Admit(c) =>
      if At(s, c) != Accepted then s
      else if s.slots < s.limit then
        s.(slots := s.slots + 1, phase := s.phase[c := Slotted], taken := s.taken + multiset{c})
      else s.(phase := s.phase[c := Gone], hungUp := s.hungUp + {c})
    case Add(c) =>
      if At(s, c) != Slotted then s
      else if s.closed then s.(phase := s.phase[c := TurnedAway])
      else s.(conns := s.conns + {c}, phase := s.phase[c := Tracked])
    case StartWorker(c) =>
      if At(s, c) != Tracked then s else s.(workers := s.workers + {c}, phase := s.phase[c := Serving])
    case Leave(c) =>
      if At(s, c) != Serving then s
      else s.(conns := s.conns - {c}, hungUp := s.hungUp + {c}, phase := s.phase[c := Removed])
    case Return(c) =>
      if (At(s, c) != Removed && At(s, c) != TurnedAway) || s.slots == 0 then s // an empty channel would block
      else
        s.(slots := s.slots - 1, workers := s.workers - {c}, hungUp := s.hungUp + {c}, phase := s.phase[c := Gone],
           returned := s.returned + multiset{c})
    case Close => if s.closed then s else s.(closed := true, hungUp := s.hungUp + s.conns)
  }

  function Run(s: Server, events: seq<Event>): Server
    decreases |events|
  {
    if events == [] then s else Run(Next(s, events[0]), events[1..])
  }

  function New(limit: nat): Server {
    Server(limit, false, {}, 0, {}, map[], {}, multiset{}, multiset{})
  }

  predicate Holds(p: Phase) {
    p in {Slotted, Tracked, Serving, Removed, TurnedAway}
  }

  ghost function Holders(s: Server): set<ConnId> {
    set c | c in s.phase && Holds(s.phase[c])
  }

  /** The map holds exactly the connections between addConn and removeConn; a slot is taken and given back at most once,
      and given back only when its connection is out of the map; and once the server is closed, every connection still
      in the map was hung up. */
  ghost predicate ConnInv(s: Server, c: ConnId) {
    var p := if c in s.phase then s.phase[c] else Accepted;
    && (c in s.conns <==> p in {Tracked, Serving})
    && (c in s.workers <==> p in {Serving, Removed})
    && s.taken[c] <= 1 && s.returned[c] <= s.taken[c]
    && (s.returned[c] < s.taken[c] <==> Holds(p))
    && (p == Accepted ==> s.taken[c] == 0)
    && (p in {Removed, Gone} ==> c in s.hungUp)
    && (s.closed && c in s.conns ==> c in s.hungUp)
  }

  /** There are as many tokens in the channel as connections with a slot, and never more than the limit. */
  ghost predicate Inv(s: Server) {
    s.slots == |Holders(s)| <= s.limit && forall c: ConnId :: ConnInv(s, c)
  }

  lemma HoldersStep(s: Server, s': Server, c: ConnId)
    requires c in s.phase && c in s'.phase && s'.phase == s.phase[c := s'.phase[c]]
    ensures |Holders(s')| == |Holders(s)| + (if Holds(s'.phase[c]) then 1 else 0) - (if Holds(s.phase[c]) then 1 else 0)
  {
    hide Holds;
    var h, h' := Holders(s), Holders(s');
    if Holds(s.phase[c]) && !Holds(s'.phase[c]) {
      assert h == h' + {c};
    } else if !Holds(s.phase[c]) && Holds(s'.phase[c]) {
      assert h' == h + {c};
    } else {
      assert h == h';
    }
  }

  lemma HoldersUnchanged(s: Server, c: ConnId)
    requires c !in s.phase
    ensures Holders(s.(phase := s.phase[c := Accepted])) == Holders(s)
  {
  }

  lemma ConnKeeps(s: Server, e: Event, c: ConnId)
    requires ConnInv(s, c)
    ensures ConnInv(Next(s, e), c)
  {
  }

  lemma SamePhases(s: Server, s': Server)
    requires s.phase == s'.phase
    ensures Holders(s) == Holders(s')
  {
  }

  lemma SlotsKeep(s: Server, e: Event)
    requires s.slots == |Holders(s)| <= s.limit
    ensures var s' := Next(s, e);
      s'.slots == |Holders(s')| <= s'.limit
  {
    hide Holders;
    var s' := Next(s, e);
    match e
    case Accept(c) =>
      if c !in s.phase {
        HoldersUnchanged(s, c);
      }
    case Close => SamePhases(s, s');
    case _ =>
      if s' != s {
        HoldersStep(s, s', e.c);
      }
  }

  lemma NextKeeps(s: Server, e: Event)
    requires Inv(s)
    ensures Inv(Next(s, e))
  {
    hide Holders, ConnInv, Next;
    SlotsKeep(s, e);
    forall c: ConnId ensures ConnInv(Next(s, e), c) {
      ConnKeeps(s, e, c);
    }
  }

  lemma {:induction false} RunKeeps(s: Server, events: seq<Event>)
    requires Inv(s)
    ensures Inv(Run(s, events)) && Run(s, events).limit == s.limit
    decreases |events|
  {
    hide Inv;
    if events != [] {
      NextKeeps(s, events[0]);
      RunKeeps(Next(s, events[0]), events[1..]);
    }
  }

  lemma NewInv(limit: nat)
    ensures Inv(New(limit))
  {
    var s := New(limit);
    assert Holders(s) == {};
    forall c: ConnId ensures ConnInv(s, c) {
    }
  }

  lemma SubsetSize(a: set<ConnId>, b: set<ConnId>)
    requires a <= b
    ensures |a| <= |b|
  {
    assert b == a + (b - a);
  }

  lemma ConnsWithinSlots(s: Server)
    requires Inv(s)
    ensures |s.conns| <= s.slots
  {
    forall c | c in s.conns ensures c in Holders(s) {
      assert ConnInv(s, c);
    }
    SubsetSize(s.conns, Holders(s));
  }

  /** In every interleaving: no more connections tracked than slots held, no more slots than the limit; every slot is
      taken and given back at most once per connection, given back only when the connection is out of the map, and
      giving it back never blocks. */
  lemma LimitHolds(limit: nat, events: seq<Event>)
    ensures var s := Run(New(limit), events);
      && |s.conns| <= s.slots <= limit
      && (forall c :: s.returned[c] <= s.taken[c] <= 1)
      && (forall c :: s.returned[c] > 0 ==> c !in s.conns && c in s.hungUp)
      && (forall c :: At(s, c) in {Removed, TurnedAway} ==> s.slots > 0)
  {
    NewInv(limit);
    RunKeeps(New(limit), events);
    var s := Run(New(limit), events);
    ConnsWithinSlots(s);
    forall c: ConnId
      ensures s.returned[c] <= s.taken[c] <= 1 && (s.returned[c] > 0 ==> c !in s.conns && c in s.hungUp)
    {
      assert ConnInv(s, c);
    }
    forall c | At(s, c) in {Removed, TurnedAway} ensures s.slots > 0 {
      assert c in Holders(s);
    }
  }

  /** In every interleaving: an accepted connection gets a slot exactly when fewer than the limit are held, and
      otherwise is hung up at once; and when no connection is between the two, no slot is held. */
  lemma SlotsExact(limit: nat, events: seq<Event>, c: ConnId)
    ensures var s := Run(New(limit), events);
      var s' := Next(s, Admit(c));
      && s.slots == |Holders(s)|
      && (At(s, c) == Accepted && |Holders(s)| < limit ==>
            At(s', c) == Slotted && s'.slots == s.slots + 1 && s'.hungUp == s.hungUp)
      && (At(s, c) == Accepted && |Holders(s)| >= limit ==>
            At(s', c) == Gone && s'.slots == s.slots && c in s'.hungUp)
      && ((forall k :: k in s.phase ==> s.phase[k] in {Accepted, Gone}) ==> s.slots == 0)
  {
    NewInv(limit);
    RunKeeps(New(limit), events);
    var s := Run(New(limit), events);
    if forall k :: k in s.phase ==> s.phase[k] in {Accepted, Gone} {
      assert Holders(s) == {};
    }
  }

  /** A worker that ends takes its connection out of the map, hangs it up and gives its slot back, in every
      interleaving; a connection turned away because the server is closed does so without having been in the map. */
  lemma WorkerEnds(limit: nat, events: seq<Event>, c: ConnId)
    ensures var s := Run(New(limit), events);
      var left := Next(s, Leave(c));
      var back := Next(left, Return(c));
      && (At(s, c) == Serving ==>
            && c in s.conns && left.conns == s.conns - {c} && c in left.hungUp && left.slots == s.slots
            && At(back, c) == Gone && back.slots == s.slots - 1 && back.workers == s.workers - {c})
      && (At(s, c) == Slotted && s.closed ==>
            var away := Next(Next(s, Add(c)), Return(c));
            away.conns == s.conns && At(away, c) == Gone && c in away.hungUp && away.slots == s.slots - 1)
      && (At(s, c) == Slotted && !s.closed ==>
            var added := Next(s, Add(c));
            && added.conns == s.conns + {c} && added.slots == s.slots
            && Next(added, StartWorker(c)).workers == s.workers + {c})
  {
    NewInv(limit);
    RunKeeps(New(limit), events);
    var s := Run(New(limit), events);
    assert ConnInv(s, c);
    if At(s, c) in {Serving, Slotted} {
      assert c in Holders(s);
    }
  }

  lemma NextAfterClose(s: Server, e: Event)
    requires s.closed
    ensures Next(s, e).closed && Next(s, e).conns <= s.conns && s.hungUp <= Next(s, e).hungUp
  {
  }

  lemma {:induction false} NoneAddedAfter(s: Server, events: seq<Event>)
    requires s.closed
    ensures Run(s, events).closed && Run(s, events).conns <= s.conns && s.hungUp <= Run(s, events).hungUp
    decreases |events|
  {
    hide Next;
    if events != [] {
      NextAfterClose(s, events[0]);
      NoneAddedAfter(Next(s, events[0]), events[1..]);
    }
  }

  /** Once Close has run, no connection is added any more, and all that were tracked at that moment are hung up, in
      every continuation. */
  lemma CloseIsFinal(limit: nat, before: seq<Event>, after: seq<Event>)
    ensures var s := Next(Run(New(limit), before), Close);
      var s' := Run(s, after);
      s.closed && s'.closed && s'.conns <= s.conns && s.conns <= s'.hungUp
  {
    hide Run;
    NewInv(limit);
    RunKeeps(New(limit), before);
    var s := Run(New(limit), before);
    NextKeeps(s, Close);
    var closed := Next(s, Close);
    forall c | c in closed.conns ensures c in closed.hungUp {
      assert ConnInv(closed, c);
    }
    NoneAddedAfter(closed, after);
  }

  //
  // What Close waits for.
  //

  /** Close returns when the wait group is empty. */
  predicate CloseReturns(s: Server) {
    s.closed && s.workers == {}
  }

  /** Some connection is in the map and its worker not started. */
  ghost predicate Caught(s: Server, c: ConnId) {
    At(s, c) == Tracked
  }

  lemma CaughtStep(s: Server, e: Event, c: ConnId)
    requires s.closed && !Caught(s, c)
    ensures !Caught(Next(s, e), c)
  {
  }

  lemma {:induction false} CaughtRun(s: Server, events: seq<Event>, c: ConnId)
    requires s.closed && !Caught(s, c)
    ensures !Caught(Run(s, events), c)
    decreases |events|
  {
    hide Next, Caught;
    if events != [] {
      NextAfterClose(s, events[0]);
      CaughtStep(s, events[0], c);
      CaughtRun(Next(s, events[0]), events[1..], c);
    }
  }

  lemma {:induction false} RunAppend(s: Server, a: seq<Event>, b: seq<Event>)
    ensures Run(s, a + b) == Run(Run(s, a), b)
    decreases |a|
  {
    if a == [] {
      assert a + b == b;
    } else {
      assert (a + b)[1..] == a[1..] + b;
      RunAppend(Next(s, a[0]), a[1..], b);
    }
  }

  lemma Left(s: Server, w: ConnId)
    requires Inv(s) && w in s.workers
    ensures var s' := Next(s, Leave(w));
      At(s', w) == Removed && s'.workers == s.workers && s'.closed == s.closed
      && forall c :: Caught(s, c) ==> Caught(s', c)
  {
    assert ConnInv(s, w);
  }

  lemma GivenBack(s: Server, w: ConnId)
    requires Inv(s) && At(s, w) == Removed
    ensures var s' := Next(s, Return(w));
      s'.workers == s.workers - {w} && s'.closed == s.closed && forall c :: Caught(s, c) ==> Caught(s', c)
  {
    assert w in Holders(s);
  }

  /** One worker ends: it leaves, if it still serves, and gives its slot back. */
  lemma EndWorker(s: Server, w: ConnId)
    requires Inv(s) && w in s.workers
    ensures var s' := Run(s, [Leave(w), Return(w)]);
      && Inv(s') && s'.workers == s.workers - {w} && s'.closed == s.closed
      && forall c :: Caught(s, c) ==> Caught(s', c)
  {
    hide Inv, Next;
    var s1 := Next(s, Leave(w));
    var s2 := Next(s1, Return(w));
    assert Run(s2, []) == s2 && [Leave(w), Return(w)][1..] == [Return(w)] && [Return(w)][1..] == [];
    assert Run(s1, [Return(w)]) == s2;
    NextKeeps(s, Leave(w));
    NextKeeps(s1, Return(w));
    Left(s, w);
    GivenBack(s1, w);
  }

  /** All workers can end, and that starts none. */
  lemma {:induction false} Drain(s: Server) returns (events: seq<Event>)
    requires Inv(s)
    ensures var s' := Run(s, events);
      s'.workers == {} && s'.closed == s.closed && forall c :: Caught(s, c) ==> Caught(s', c)
    decreases |s.workers|
  {
    hide Inv, Next, Caught;
    events := [];
    if s.workers != {} {
      var w :| w in s.workers;
      EndWorker(s, w);
      var more := Drain(Run(s, [Leave(w), Return(w)]));
      RunAppend(s, [Leave(w), Return(w)], more);
      events := [Leave(w), Return(w)] + more;
    }
  }

  lemma NoneLeft(s: Server)
    requires Inv(s) && CloseReturns(s) && forall c :: !Caught(s, c)
    ensures s.conns == {}
  {
    forall c: ConnId ensures c !in s.conns {
      assert ConnInv(s, c);
      assert !Caught(s, c);
    }
  }

  lemma CloseStep(s: Server)
    ensures Next(s, Close).closed && forall c :: Caught(Next(s, Close), c) <==> Caught(s, c)
  {
  }

  lemma CaughtTracked(s: Server, c: ConnId)
    requires Inv(s) && Caught(s, c)
    ensures c in s.conns
  {
    assert ConnInv(s, c);
  }

  /** Whenever Close is called: it is certain to return with no connection left in the map if and only if no connection
      is, at the call, between being added and the start of its worker. */
  lemma CloseLeavesNoneIff(limit: nat, before: seq<Event>)
    ensures var s := Run(New(limit), before);
      (forall c :: !Caught(s, c))
      <==> (forall after :: CloseReturns(Run(Next(s, Close), after)) ==> Run(Next(s, Close), after).conns == {})
  {
    hide Inv, Run, Next, Caught;
    NewInv(limit);
    RunKeeps(New(limit), before);
    var s := Run(New(limit), before);
    var closed := Next(s, Close);
    NextKeeps(s, Close);
    CloseStep(s);
    if forall c :: !Caught(s, c) {
      forall after | CloseReturns(Run(closed, after)) ensures Run(closed, after).conns == {} {
        RunKeeps(closed, after);
        forall c: ConnId ensures !Caught(Run(closed, after), c) {
          CaughtRun(closed, after, c);
        }
        NoneLeft(Run(closed, after));
      }
    } else {
      var c :| Caught(s, c);
      var after := Drain(closed);
      RunKeeps(closed, after);
      CaughtTracked(Run(closed, after), c);
      assert CloseReturns(Run(closed, after));
    }
  }

  /** That can happen: Close returns, and the worker of connection 0 starts afterwards. */
  lemma CloseMayReturnEarly()
    ensures var s := Run(New(1), [Accept(0), Admit(0), Add(0), Close]);
      CloseReturns(s) && s.conns == {0} && Next(s, StartWorker(0)).workers == {0}
  {
    var s0 := New(1);
    var s1 := Next(s0, Accept(0));
    var s2 := Next(s1, Admit(0));
    var s3 := Next(s2, Add(0));
    var s4 := Next(s3, Close);
    assert Run(s4, []) == s4;
    assert Run(s3, [Close]) == s4;
    assert [Add(0), Close][1..] == [Close] && Run(s2, [Add(0), Close]) == s4;
    assert [Admit(0), Add(0), Close][1..] == [Add(0), Close] && Run(s1, [Admit(0), Add(0), Close]) == s4;
    assert [Accept(0), Admit(0), Add(0), Close][1..] == [Admit(0), Add(0), Close];
  }
}
