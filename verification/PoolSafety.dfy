/** What holds in every reachable pool: the count is right, the limit is kept as far as the pool can, a shut pool stays
    empty, and a connection handed out is usable. */
module PoolSafety {
  import opened Options
  import opened Connections
  import opened PoolQueue
  import opened PoolRuns
  import opened PoolSteps

  // ---------------------------------------------------------------- all runs

  ghost predicate Invariant(p: Pool) {
    Placed(p) && Balanced(p) && LimitKept(p) && LinksFit(p)
  }

  lemma NextKeeps(p: Pool, e: Event)
    requires Invariant(p) && Enabled(p, e)
    ensures Invariant(Next(p, e))
  {
    hide Placed, LimitKept, LinksFit, Next, Enabled, Holders;
    PlacesKept(p, e);
    CountKept(p, e);
    LimitStep(p, e);
    LinksKept(p, e);
  }

  lemma FreshHolds(max: nat)
    ensures Invariant(Fresh(max))
  {
  }

  lemma {:induction false} RunKeeps(max: nat, events: seq<Event>, last: Pool)
    requires Run(max, events, last)
    ensures Invariant(last)
  {
    hide Invariant, Enabled, Next;
    if events == [] {
      FreshHolds(max);
    } else {
      var before, e := events[..|events| - 1], events[|events| - 1];
      var p :| Run(max, before, p) && Enabled(p, e) && last == Next(p, e);
      RunKeeps(max, before, p);
      NextKeeps(p, e);
    }
  }

  /** In every reachable pool every connection is in exactly one place, and the total is their number: idle, cached by
      a thread, handed out, in the hands of a thread at work, plus what Shutdown cleared (nothing before it). */
  lemma CountExact(max: nat, events: seq<Event>, last: Pool)
    requires Run(max, events, last)
    ensures Placed(last) && Balanced(last)
  {
    hide Run, Placed, Balanced, LimitKept, LinksFit;
    RunKeeps(max, events, last);
  }

  /** A step that uncounts a connection. */
  predicate Uncounts(p: Pool, e: Event)
    requires Enabled(p, e)
  {
    match e
    case Discard(_) => true
    case CreateFailed(_) => true
    case Resolve(th) => p.queue.shutdown || !p.flights[th].healthy
    case PutCleared(th, expired) => !PutBack(p.queue, p.flights[th].id, expired).1
    case Shelve(th) => !PutBack(p.queue, p.flights[th].id, false).1
    case _ => false
  }

  /** The guard in DecrementTotalConnections never hides an underflow: there is always something to uncount. */
  lemma GuardNeverHides(max: nat, events: seq<Event>, p: Pool, e: Event)
    requires Run(max, events, p) && Enabled(p, e) && Uncounts(p, e)
    ensures p.queue.total > 0 && Next(p, e).queue.total == p.queue.total - 1
  {
    hide Run, Placed, LimitKept, LinksFit, Holders;
    RunKeeps(max, events, p);
    HolderIs(p.flights, e.th);
    HoldersChange(p.flights, e.th, Deciding);
  }

  /** Over the limit, nothing is idle in the queue; and after Shutdown nothing ever is, and the total only falls. */
  lemma LimitExact(max: nat, events: seq<Event>, p: Pool)
    requires Run(max, events, p)
    ensures p.queue.total > p.queue.max ==> p.queue.available == []
    ensures p.queue.shutdown ==> p.queue.available == []
    ensures forall e :: Enabled(p, e) && p.queue.shutdown ==>
      Next(p, e).queue.shutdown && Next(p, e).queue.total <= p.queue.total
  {
    hide Run, Placed, Balanced, LinksFit, Next, Enabled;
    RunKeeps(max, events, p);
    forall e | Enabled(p, e) && p.queue.shutdown
      ensures Next(p, e).queue.shutdown && Next(p, e).queue.total <= p.queue.total
    {
      LimitStep(p, e);
    }
  }

  /** Every connection an acquire hands out is neither broken nor in the middle of a query or an insert. */
  lemma HandedOutUsable(max: nat, events: seq<Event>, p: Pool, e: Event)
    requires Run(max, events, p) && Enabled(p, e) && HandsOut(p, e).Some?
    ensures HandsOut(p, e).value in Next(p, e).links && Next(p, e).links[HandsOut(p, e).value].Usable()
  {
    hide Run, Invariant, Next, Enabled;
    RunKeeps(max, events, p);
    HandedOut(p, e);
  }

  // ---------------------------------------------------------------- connections that failed

  /** `last` is reached from p by the events. */
  ghost predicate Continues(p: Pool, events: seq<Event>, last: Pool) {
    if events == [] then last == p
    else
      var before, e := events[..|events| - 1], events[|events| - 1];
      exists q :: Continues(p, before, q) && Enabled(q, e) && last == Next(q, e)
  }

  predicate IsOut(place: Place) {
    place.Handed? || place.Unpooled?
  }

  /** Broken, or given back in the middle of an insert. */
  ghost predicate Doomed(p: Pool, id: nat) {
    id in p.links && id in p.place && (p.links[id].broken || (p.links[id].inserting && !IsOut(p.place[id])))
  }

  /** No step takes `broken` back, and none ends an insert of a connection that is not out. */
  lemma LinksPersist(p: Pool, e: Event, id: nat)
    requires LinksFit(p) && Enabled(p, e) && id in p.links
    ensures id in Next(p, e).links && (p.links[id].broken ==> Next(p, e).links[id].broken)
    ensures p.links[id].inserting && !(e.Use? && e.id == id) ==> Next(p, e).links[id].inserting
  {
    hide Next, LinksFit;
    LinksTold(p, e);
    var link := if id in p.links then p.links[id] else OPENED;
    LinkPersists(link);
    if e.Created? || e.DecideUnpooled? {
      assert id != e.id by {
        KnownPlaces(p, e);
      }
    }
  }

  lemma KnownPlaces(p: Pool, e: Event)
    requires LinksFit(p) && Enabled(p, e) && (e.Created? || e.DecideUnpooled?)
    ensures e.id !in p.links
  {
    assert e.id !in p.place.Keys;
  }

  lemma LinkPersists(l: Link)
    ensures forall call :: l.broken ==> After(l, call).broken
    ensures forall stale, pinged :: l.inserting ==> After(l, IsHealthy(stale, pinged)).inserting
    ensures forall stale, pinged, cancelled {:trigger Returned(l, stale, pinged, cancelled)} ::
      var r := Returned(l, stale, pinged, cancelled).0; (l.broken ==> r.broken) && (l.inserting ==> r.inserting)
  {
  }

  /** What a step makes of the connections' states. */
  /** What an event makes of the connections themselves. */
  function LinksAfter(p: Pool, e: Event): map<nat, Link>
    requires Enabled(p, e)
  {
    match e
    case TakeLocal(th, stale, pinged) => p.links[p.local[th] := After(p.links[p.local[th]], IsHealthy(stale, pinged))]
    case ClearLocal(th, expired, stale, pinged) =>
      var id := p.local[th];
      p.links[id := if expired then p.links[id] else After(p.links[id], IsHealthy(stale, pinged))]
    case DecideUnpooled(_, id) => p.links[id := OPENED]
    case Created(_, id) => p.links[id := OPENED]
    case Probe(th, stale, pinged) =>
      p.links[p.flights[th].id := After(p.links[p.flights[th].id], IsHealthy(stale, pinged))]
    case Use(id, call) => p.links[id := After(p.links[id], call)]
    case CheckReturned(th, expired, stale, pinged, cancelled) =>
      var id := p.flights[th].id;
      if expired then p.links else p.links[id := Returned(p.links[id], stale, pinged, cancelled).0]
    case _ => p.links
  }

  predicate OnLocal(e: Event) {
    e.TakeLocal? || e.ClearLocal? || e.PutCleared? || e.KeepLocal? || e.ThreadExit?
  }

  lemma LinksTold(p: Pool, e: Event)
    requires Enabled(p, e)
    ensures Next(p, e).links == LinksAfter(p, e)
  {
    hide Next, LinksAfter, Enabled;
    if OnQueue(e) {
      QueueLinksTold(p, e);
    } else if OnLocal(e) {
      LocalLinksTold(p, e);
    } else {
      FlightLinksTold(p, e);
    }
  }

  lemma QueueLinksTold(p: Pool, e: Event)
    requires Enabled(p, e) && OnQueue(e)
    ensures Next(p, e).links == LinksAfter(p, e)
  {
    hide TakeIdle, Evict, Reap, PutBack, Decrement, After, Returned, Healthy;
  }

  lemma LocalLinksTold(p: Pool, e: Event)
    requires Enabled(p, e) && OnLocal(e)
    ensures Next(p, e).links == LinksAfter(p, e)
  {
    hide TakeIdle, Evict, Reap, PutBack, Decrement, After, Returned, Healthy, SectionResult, Requeue;
  }

  lemma FlightLinksTold(p: Pool, e: Event)
    requires Enabled(p, e) && !OnQueue(e) && !OnLocal(e)
    ensures Next(p, e).links == LinksAfter(p, e)
  {
    hide TakeIdle, Evict, Reap, PutBack, Decrement, After, Returned, Healthy, SectionResult, Requeue, NextOfLocal;
  }

  /** A connection comes out only by being handed out. */
  lemma OutByHand(p: Pool, e: Event, id: nat)
    requires Enabled(p, e) && id in p.place && !IsOut(p.place[id])
    ensures id in Next(p, e).place && (IsOut(Next(p, e).place[id]) ==> HandsOut(p, e) == Some(id))
  {
    if e.TakeLocal? || e.ClearLocal? || e.PutCleared? || e.KeepLocal? || e.ThreadExit? {
      LocalOutByHand(p, e, id);
    } else if OnQueue(e) {
      QueueKeepsIn(p, e, id);
    } else {
      OtherOutByHand(p, e, id);
    }
  }

  lemma OtherOutByHand(p: Pool, e: Event, id: nat)
    requires Enabled(p, e) && id in p.place && !IsOut(p.place[id]) && !OnQueue(e)
    requires !e.TakeLocal? && !e.ClearLocal? && !e.PutCleared? && !e.KeepLocal? && !e.ThreadExit?
    ensures id in Next(p, e).place && (IsOut(Next(p, e).place[id]) ==> HandsOut(p, e) == Some(id))
  {
    hide NextOfLocal, SectionResult, Requeue, Healthy, TakeIdle, Evict, Reap, PutBack, Decrement, After, Returned;
  }

  lemma QueueKeepsIn(p: Pool, e: Event, id: nat)
    requires Enabled(p, e) && id in p.place && OnQueue(e)
    ensures id in Next(p, e).place && (IsOut(Next(p, e).place[id]) ==> IsOut(p.place[id]))
  {
    hide NextOfLocal, Healthy, TakeIdle, Evict, Reap, PutBack, Decrement, After, Returned;
    if e.Section? {
      SectionKeepsIn(p, e.th, p.flights[e.th].mode, e.overdue, id);
    } else {
      hide SectionResult;
    }
  }

  lemma SectionKeepsIn(p: Pool, th: nat, mode: Mode, overdue: set<nat>, id: nat)
    requires id in p.place
    ensures var n := SectionResult(p, th, mode, overdue);
      id in n.place && (IsOut(n.place[id]) ==> IsOut(p.place[id]))
  {
    hide TakeIdle;
  }

  lemma LocalOutByHand(p: Pool, e: Event, id: nat)
    requires Enabled(p, e) && id in p.place && !IsOut(p.place[id])
    requires e.TakeLocal? || e.ClearLocal? || e.PutCleared? || e.KeepLocal? || e.ThreadExit?
    ensures id in NextOfLocal(p, e).place && (IsOut(NextOfLocal(p, e).place[id]) ==> HandsOut(p, e) == Some(id))
  {
    hide TakeIdle, Evict, Reap, PutBack, Decrement, After, Healthy, Returned;
  }

  lemma DoomedStep(p: Pool, e: Event, id: nat)
    requires Invariant(p) && Enabled(p, e) && Doomed(p, id)
    ensures Doomed(Next(p, e), id) && HandsOut(p, e) != Some(id)
  {
    LinksPersist(p, e, id);
    hide Next, Balanced, LimitKept, LinkFits;
    if HandsOut(p, e) == Some(id) {
      assert !(e.Use? && e.id == id);
      HandedOut(p, e);
    } else if !IsOut(p.place[id]) {
      OutByHand(p, e, id);
    } else {
      StaysKnown(p, e, id);
    }
  }

  lemma StaysKnown(p: Pool, e: Event, id: nat)
    requires Enabled(p, e) && id in p.place
    ensures id in Next(p, e).place
  {
    hide TakeIdle, Evict, Reap, PutBack, Decrement, After, Healthy, Returned;
    if OnQueue(e) {
      QueueKeepsIn(p, e, id);
    } else {
      hide SectionResult, Requeue;
    }
  }

  lemma HandedOut(p: Pool, e: Event)
    requires Invariant(p) && Enabled(p, e) && HandsOut(p, e).Some?
    ensures HandsOut(p, e).value in Next(p, e).links && Next(p, e).links[HandsOut(p, e).value].Usable()
  {
    hide Balanced, LimitKept, Placed, LinksFit, Holders;
    if e.Resolve? {
      KnownInHand(p, e.th);
    }
  }

  lemma {:induction false} DoomedForGood(p: Pool, id: nat, events: seq<Event>, last: Pool)
    requires Invariant(p) && Doomed(p, id) && Continues(p, events, last)
    ensures Invariant(last) && Doomed(last, id)
  {
    hide Invariant, Doomed, Enabled, Next;
    if events != [] {
      var before, e := events[..|events| - 1], events[|events| - 1];
      var q :| Continues(p, before, q) && Enabled(q, e) && last == Next(q, e);
      DoomedForGood(p, id, before, q);
      DoomedStep(q, e, id);
      NextKeeps(q, e);
    }
  }

  /** A step that ends a connection's use: a failed cancel, insert start or insert send, an insert given up, or giving
      it back in the middle of an insert. */
  predicate Ends(p: Pool, e: Event, id: nat)
    requires Enabled(p, e)
  {
    match e
    case Use(used, call) => used == id && Spoils(p.links[id], call)
    case Release(_, released, _) => released == id && id in p.links && p.links[id].inserting
    case _ => false
  }

  /** After such a step, in every continuation of every run, the connection stays broken, or stuck in its insert and out
      of everyone's hands, and no acquire hands it out again. */
  lemma FailedForGood(max: nat, before: seq<Event>, p: Pool, id: nat, failure: Event, events: seq<Event>, q: Pool,
                      e: Event)
    requires Run(max, before, p) && Enabled(p, failure) && Ends(p, failure, id)
    requires Continues(Next(p, failure), events, q) && Enabled(q, e)
    ensures Doomed(q, id) && !q.links[id].Usable() && HandsOut(q, e) != Some(id)
  {
    hide Run, Continues, Balanced, LimitKept, Holders;
    RunKeeps(max, before, p);
    NextKeeps(p, failure);
    FailureDooms(p, failure, id);
    hide Next, Enabled, Ends, Invariant;
    DoomedForGood(Next(p, failure), id, events, q);
    DoomedStep(q, e, id);
  }

  lemma FailureDooms(p: Pool, e: Event, id: nat)
    requires Invariant(p) && Enabled(p, e) && Ends(p, e, id)
    ensures Doomed(Next(p, e), id)
  {
    hide Balanced, LimitKept, LinkFits;
    if e.Use? {
      FailuresBreak(p.links[id], e.call);
    }
  }

  // ---------------------------------------------------------------- WAIT and TRY

  /** The maximum is never lowered, and never raised from zero; no acquire asks for FORCE. */
  predicate Gentle(p: Pool, e: Event) {
    match e
    case Acquire(_, mode) => !mode.Force?
    case SetMax(max) => max == p.queue.max || (0 < p.queue.max <= max)
    case _ => true
  }

  ghost predicate GentleRun(max: nat, events: seq<Event>, last: Pool) {
    if events == [] then last == Fresh(max)
    else
      var before, e := events[..|events| - 1], events[|events| - 1];
      exists p :: GentleRun(max, before, p) && Enabled(p, e) && Gentle(p, e) && last == Next(p, e)
  }

  predicate Unforced(f: Flight, max: nat) {
    match f
    case Wanting(mode) => mode.Force? ==> max == 0
    case Deciding => max == 0
    case Ready(mode) => !mode.Force?
    case Probing(mode, _) => !mode.Force?
    case Probed(mode, _, _) => !mode.Force?
    case Clearing(_, next) => next == Some(Force) ==> max == 0
    case _ => true
  }

  /** Nobody forces, but for the connections opened beside a pool of size zero. */
  ghost predicate NobodyForces(p: Pool) {
    forall th :: th in p.flights ==> Unforced(p.flights[th], p.queue.max)
  }

  lemma GentleQueueStep(p: Pool, e: Event)
    requires Balanced(p) && Enabled(p, e) && Gentle(p, e) && OnQueue(e)
    requires NobodyForces(p) && p.queue.total <= p.queue.max
    ensures NobodyForces(Next(p, e)) && Next(p, e).queue.total <= Next(p, e).queue.max
  {
    hide Next, Enabled, Balanced, NobodyForces, Gentle, OnQueue;
    if e.Section? {
      GentleSection(p, e);
    } else {
      GentleResize(p, e);
    }
  }

  lemma GentleSection(p: Pool, e: Event)
    requires Balanced(p) && Enabled(p, e) && e.Section? && NobodyForces(p) && p.queue.total <= p.queue.max
    ensures NobodyForces(Next(p, e)) && Next(p, e).queue.total <= Next(p, e).queue.max
  {
    hide Holders, TakeIdle, Evict, Reap, Lead, Unexpired;
    TakeIdleExact(p.queue, e.overdue);
  }

  lemma GentleResize(p: Pool, e: Event)
    requires Balanced(p) && Enabled(p, e) && Gentle(p, e) && OnQueue(e) && !e.Section?
    requires NobodyForces(p) && p.queue.total <= p.queue.max
    ensures NobodyForces(Next(p, e)) && Next(p, e).queue.total <= Next(p, e).queue.max
  {
    hide Holders, TakeIdle, Evict, Reap, Lead, Unexpired, SectionResult;
    match e
    case SetMax(max) => EvictExact(p.queue.(max := max));
    case ReapRound(overdue) => ReapExact(p.queue, overdue);
    case Shutdown =>
  }

  lemma GentleAcquireStep(p: Pool, e: Event)
    requires Enabled(p, e) && Gentle(p, e) && NobodyForces(p)
    requires e.Acquire? || e.Refuse? || e.MissLocal? || e.DecideUnpooled? || e.DecidePooled? || e.GiveUp? || e.Use?
    ensures NobodyForces(Next(p, e))
  {
  }

  lemma GentleCheckStep(p: Pool, e: Event)
    requires Enabled(p, e) && NobodyForces(p)
    requires e.TakeLocal? || e.ClearLocal? || e.ThreadExit? || e.Probe? || e.CheckReturned? || e.Release?
    ensures NobodyForces(Next(p, e))
  {
    hide Unforced;
    if e.ClearLocal? || e.Probe? {
      CarriedOn(p.flights[e.th], Next(p, e).flights[e.th], p.queue.max);
    }
    HarmlessFlights(p.queue.max);
  }

  lemma CarriedOn(f: Flight, g: Flight, max: nat)
    requires Unforced(f, max)
    requires (f.Wanting? && g.Clearing? && g.next == Some(f.mode)) || (f.Probing? && g.Probed? && g.mode == f.mode)
    ensures Unforced(g, max)
  {
  }

  lemma HarmlessFlights(max: nat)
    ensures forall id :: Unforced(Clearing(id, None), max) && Unforced(Returning(id), max)
    ensures forall id :: Unforced(Accepted(id), max) && Unforced(Discarding(id), max)
  {
  }

  lemma GentleReturnStep(p: Pool, e: Event)
    requires Enabled(p, e) && NobodyForces(p)
    requires e.PutCleared? || e.Resolve? || e.Created? || e.CreateFailed? || e.Discard? || e.KeepLocal? || e.Shelve?
    ensures NobodyForces(Next(p, e))
  {
    hide Next, Enabled, NobodyForces;
    if e.PutCleared? || e.KeepLocal? || e.Shelve? {
      GentleShelving(p, e);
    } else {
      GentleResolving(p, e);
    }
  }

  lemma GentleShelving(p: Pool, e: Event)
    requires Enabled(p, e) && NobodyForces(p) && (e.PutCleared? || e.KeepLocal? || e.Shelve?)
    ensures NobodyForces(Next(p, e))
  {
    MaxKept(p, e);
    var n := Next(p, e);
    forall th | th in n.flights ensures Unforced(n.flights[th], n.queue.max) {
      assert th in p.flights && Unforced(p.flights[th], p.queue.max);
    }
  }

  lemma GentleResolving(p: Pool, e: Event)
    requires Enabled(p, e) && NobodyForces(p) && (e.Resolve? || e.Created? || e.CreateFailed? || e.Discard?)
    ensures NobodyForces(Next(p, e))
  {
    MaxKept(p, e);
    var n := Next(p, e);
    forall th | th in n.flights ensures Unforced(n.flights[th], n.queue.max) {
      assert th in p.flights && Unforced(p.flights[th], p.queue.max);
    }
  }

  lemma MaxKept(p: Pool, e: Event)
    requires Enabled(p, e) && !OnQueue(e)
    ensures Next(p, e).queue.max == p.queue.max
  {
    hide Next, Enabled;
    QueueStep(p, e);
  }

  lemma GentleOtherStep(p: Pool, e: Event)
    requires Enabled(p, e) && Gentle(p, e) && !OnQueue(e) && NobodyForces(p)
    ensures NobodyForces(Next(p, e))
  {
    hide Enabled, Gentle, NobodyForces, Next;
    if e.TakeLocal? || e.ClearLocal? || e.ThreadExit? || e.Probe? || e.CheckReturned? || e.Release? {
      GentleCheckStep(p, e);
    } else if e.PutCleared? || e.Resolve? || e.Created? || e.CreateFailed? || e.Discard? || e.KeepLocal? || e.Shelve? {
      GentleReturnStep(p, e);
    } else {
      GentleAcquireStep(p, e);
    }
  }

  lemma GentleTotal(p: Pool, e: Event)
    requires Enabled(p, e) && !OnQueue(e) && p.queue.total <= p.queue.max
    ensures Next(p, e).queue.total <= Next(p, e).queue.max
  {
    hide Next, Enabled;
    QueueStep(p, e);
  }

  lemma {:induction false} GentleKeeps(max: nat, events: seq<Event>, last: Pool)
    requires GentleRun(max, events, last)
    ensures Invariant(last) && NobodyForces(last) && last.queue.total <= last.queue.max
  {
    hide Invariant, Enabled, Next, NobodyForces, Gentle, OnQueue;
    if events == [] {
      FreshHolds(max);
      FreshGentle(max);
    } else {
      var before, e := events[..|events| - 1], events[|events| - 1];
      var p :| GentleRun(max, before, p) && Enabled(p, e) && Gentle(p, e) && last == Next(p, e);
      GentleKeeps(max, before, p);
      NextKeeps(p, e);
      if OnQueue(e) {
        BalancedOf(p);
        GentleQueueStep(p, e);
      } else {
        GentleOtherStep(p, e);
        GentleTotal(p, e);
      }
    }
  }

  lemma BalancedOf(p: Pool)
    requires Invariant(p)
    ensures Balanced(p)
  {
  }

  lemma FreshGentle(max: nat)
    ensures NobodyForces(Fresh(max)) && Fresh(max).queue.total <= Fresh(max).queue.max
  {
  }

  /** Runs that use only WAIT and TRY, never lower the maximum and never raise it from zero stay within it. */
  lemma WithinLimit(max: nat, events: seq<Event>, last: Pool)
    requires GentleRun(max, events, last)
    ensures last.queue.total <= last.queue.max
  {
    hide GentleRun, Invariant, NobodyForces;
    GentleKeeps(max, events, last);
  }

  /** A step that takes a pool within its limit over it: lowering the maximum below the connections that are out of the
      queue, which cannot be evicted, or a FORCE acquire that finds nothing idle in a full pool. */
  predicate Exceeds(p: Pool, e: Event)
    requires Enabled(p, e)
  {
    (e.SetMax? && p.queue.total - |p.queue.available| > e.max) ||
    (e.Section? && p.flights[e.th].mode.Force? && p.queue.available == [] && p.queue.total == p.queue.max)
  }

  /** No other step does. */
  lemma OverLimitExactly(max: nat, events: seq<Event>, p: Pool, e: Event)
    requires Run(max, events, p) && Enabled(p, e) && p.queue.total <= p.queue.max
    ensures Next(p, e).queue.total > Next(p, e).queue.max <==> Exceeds(p, e)
  {
    hide Run, Placed, LinksFit, LimitKept, Holders, Next, Enabled, Exceeds;
    RunKeeps(max, events, p);
    if e.Section? {
      SectionExceeds(p, e);
    } else if OnQueue(e) {
      QueueExceeds(p, e);
    } else {
      GentleTotal(p, e);
      OnlyOnQueue(p, e);
    }
  }

  lemma OnlyOnQueue(p: Pool, e: Event)
    requires Enabled(p, e) && !OnQueue(e)
    ensures !Exceeds(p, e)
  {
    hide Enabled;
  }

  lemma SectionExceeds(p: Pool, e: Event)
    requires Balanced(p) && Enabled(p, e) && e.Section? && p.queue.total <= p.queue.max
    ensures Next(p, e).queue.total > Next(p, e).queue.max <==> Exceeds(p, e)
  {
    hide Holders, TakeIdle, Evict, Reap, Lead, Unexpired;
    TakeIdleExact(p.queue, e.overdue);
  }

  lemma QueueExceeds(p: Pool, e: Event)
    requires Balanced(p) && Enabled(p, e) && OnQueue(e) && !e.Section? && p.queue.total <= p.queue.max
    ensures Next(p, e).queue.total > Next(p, e).queue.max <==> Exceeds(p, e)
  {
    hide Holders, TakeIdle, Evict, Reap, Lead, Unexpired;
    match e
    case SetMax(lowered) => EvictExact(p.queue.(max := lowered));
    case ReapRound(overdue) => ReapExact(p.queue, overdue);
    case Shutdown =>
  }

  /** A run after each of its steps. */
  ghost predicate StaysWithin(max: nat, events: seq<Event>) {
    forall n: nat, p: Pool :: n <= |events| && Run(max, events[..n], p) ==> p.queue.total <= p.queue.max
  }

  ghost predicate NeverExceeds(max: nat, events: seq<Event>) {
    forall n: nat, p: Pool :: n < |events| && Run(max, events[..n], p) && Enabled(p, events[n]) ==>
      !Exceeds(p, events[n])
  }

  /** A run stays within the limit all along if and only if none of its steps is one of those. */
  lemma WithinExactly(max: nat, events: seq<Event>)
    ensures StaysWithin(max, events) <==> NeverExceeds(max, events)
  {
    hide Exceeds, Enabled, Next, Run;
    if NeverExceeds(max, events) {
      forall n: nat, p: Pool | n <= |events| && Run(max, events[..n], p) ensures p.queue.total <= p.queue.max {
        PrefixWithin(max, events, n, p);
      }
    }
    if StaysWithin(max, events) {
      forall n: nat, p: Pool | n < |events| && Run(max, events[..n], p) && Enabled(p, events[n])
        ensures !Exceeds(p, events[n])
      {
        OverLimitExactly(max, events[..n], p, events[n]);
        RunSnoc(max, events[..n], p, events[n]);
        assert events[..n] + [events[n]] == events[..n + 1];
      }
    }
  }

  lemma {:induction false} PrefixWithin(max: nat, events: seq<Event>, n: nat, p: Pool)
    requires NeverExceeds(max, events) && n <= |events| && Run(max, events[..n], p)
    ensures p.queue.total <= p.queue.max
  {
    hide Exceeds, Enabled, Next;
    if n > 0 {
      assert events[..n][..n - 1] == events[..n - 1];
      var q :| Run(max, events[..n - 1], q) && Enabled(q, events[n - 1]) && p == Next(q, events[n - 1]);
      PrefixWithin(max, events, n - 1, q);
      OverLimitExactly(max, events[..n - 1], q, events[n - 1]);
    }
  }

  lemma RunSnoc(max: nat, events: seq<Event>, p: Pool, e: Event)
    requires Run(max, events, p) && Enabled(p, e)
    ensures Run(max, events + [e], Next(p, e))
  {
    hide Enabled, Next;
    assert (events + [e])[..|events|] == events;
  }

  /** Raising it from zero is what breaks the limit: two WAIT acquires that found pooling disabled go on as FORCE, and
      each counts a connection of its own once the maximum is 1. */
  lemma RaisedFromZero() returns (events: seq<Event>, last: Pool)
    ensures Run(0, events, last) && last.queue.total > last.queue.max
    ensures forall e :: e in events ==> (e.Acquire? ==> e.mode.Wait?) && (e.SetMax? ==> e.max == 1)
  {
    hide Run, Evict, Requeue;
    var p := TwoDisabled();
    var start := [Acquire(1, Wait), Acquire(2, Wait), MissLocal(1), MissLocal(2)];
    RunSnoc(0, start, p, SetMax(1));
    EvictNothing(p, 1);
    last := ForcedPast(start + [SetMax(1)], Next(p, SetMax(1)));
    events := start + [SetMax(1)] + [DecidePooled(1)] + [DecidePooled(2)] + [Section(1, {})] + [Section(2, {})];
  }

  lemma TwoDisabled() returns (p: Pool)
    ensures Run(0, [Acquire(1, Wait), Acquire(2, Wait), MissLocal(1), MissLocal(2)], p)
    ensures p.queue == Queue([], 0, 0, false)
    ensures 1 in p.flights && 2 in p.flights && p.flights[1] == Deciding && p.flights[2] == Deciding
  {
    hide Run;
    FreshRun(0);
    var p1 := Next(Fresh(0), Acquire(1, Wait));
    RunSnoc(0, [], Fresh(0), Acquire(1, Wait));
    var p2 := Next(p1, Acquire(2, Wait));
    RunSnoc(0, [] + [Acquire(1, Wait)], p1, Acquire(2, Wait));
    var p3 := Next(p2, MissLocal(1));
    RunSnoc(0, [] + [Acquire(1, Wait)] + [Acquire(2, Wait)], p2, MissLocal(1));
    p := Next(p3, MissLocal(2));
    RunSnoc(0, [] + [Acquire(1, Wait)] + [Acquire(2, Wait)] + [MissLocal(1)], p3, MissLocal(2));
    assert [] + [Acquire(1, Wait)] + [Acquire(2, Wait)] + [MissLocal(1)] + [MissLocal(2)] ==
           [Acquire(1, Wait), Acquire(2, Wait), MissLocal(1), MissLocal(2)];
  }

  lemma FreshRun(max: nat)
    ensures Run(max, [], Fresh(max))
  {
  }

  lemma EvictNothing(p: Pool, max: nat)
    requires p.queue.available == []
    ensures Next(p, SetMax(max)).queue == p.queue.(max := max) && Next(p, SetMax(max)).flights == p.flights
  {
  }

  /** Two threads that are past the check of a pool of size zero, once its size is 1. */
  lemma ForcedPast(before: seq<Event>, p: Pool) returns (last: Pool)
    requires Run(0, before, p) && p.queue == Queue([], 0, 1, false)
    requires 1 in p.flights && 2 in p.flights && p.flights[1] == Deciding && p.flights[2] == Deciding
    ensures Run(0, before + [DecidePooled(1)] + [DecidePooled(2)] + [Section(1, {})] + [Section(2, {})], last)
    ensures last.queue.total == 2 && last.queue.max == 1
  {
    hide Run;
    var a := Next(p, DecidePooled(1));
    RunSnoc(0, before, p, DecidePooled(1));
    var b := Next(a, DecidePooled(2));
    RunSnoc(0, before + [DecidePooled(1)], a, DecidePooled(2));
    var c := Next(b, Section(1, {}));
    RunSnoc(0, before + [DecidePooled(1)] + [DecidePooled(2)], b, Section(1, {}));
    assert c.queue == Queue([], 1, 1, false) && 2 in c.flights && c.flights[2] == Ready(Force);
    last := Next(c, Section(2, {}));
    RunSnoc(0, before + [DecidePooled(1)] + [DecidePooled(2)] + [Section(1, {})], c, Section(2, {}));
  }
}
