/** What each step of the pool keeps: the count of its connections, its limit, and the state of every connection where
    it is (database-connector/src/include/dbconnector/pool/connection_pool_impl.hpp). These are the cases of the
    invariant that PoolSafety proves of whole runs, event by event. */
module PoolSteps {
  import opened Options
  import opened Connections
  import opened PoolQueue
  import opened PoolRuns

  // ---------------------------------------------------------------- the count

  function Holders(flights: map<nat, Flight>): set<nat> {
    set th | th in flights && flights[th].Counted()
  }

  /** Idle, cached by threads, being probed, created or returned, handed out, and dropped by Shutdown: nothing else is
      counted, and nothing twice. */
  ghost predicate Balanced(p: Pool) {
    p.queue.total == |p.queue.available| + |p.local| + |Holders(p.flights)| + |p.handles| + p.cleared &&
    (!p.queue.shutdown ==> p.cleared == 0)
  }

  lemma HoldersFly(flights: map<nat, Flight>, th: nat, f: Flight)
    ensures Holders(flights[th := f]) ==
            if f.Counted() then Holders(flights) + {th} else Holders(flights) - {th}
  {
  }

  lemma HoldersLand(flights: map<nat, Flight>, th: nat)
    ensures Holders(flights - {th}) == Holders(flights) - {th}
  {
  }

  /** One more or one fewer thread holding something that is counted. */
  lemma HoldersChange(flights: map<nat, Flight>, th: nat, f: Flight)
    ensures |Holders(flights[th := f])| + (if th in Holders(flights) then 1 else 0) ==
            |Holders(flights)| + (if f.Counted() then 1 else 0)
    ensures |Holders(flights - {th})| + (if th in Holders(flights) then 1 else 0) == |Holders(flights)|
    ensures th in Holders(flights) ==> |Holders(flights)| > 0
  {
    HoldersFly(flights, th, f);
    HoldersLand(flights, th);
  }

  lemma LocalChange(local: map<nat, nat>, th: nat, id: nat)
    ensures th in local ==> |local - {th}| == |local| - 1
    ensures th !in local ==> |local[th := id]| == |local| + 1
  {
    assert (local - {th}).Keys == local.Keys - {th};
    assert local[th := id].Keys == local.Keys + {th};
  }

  /** What a step leaves of everything that is counted. */
  ghost predicate Becomes(n: Pool, queue: Queue, local: map<nat, nat>, flights: map<nat, Flight>, handles: set<nat>,
                          cleared: nat) {
    n.queue == queue && n.local == local && n.flights == flights && n.handles == handles && n.cleared == cleared
  }

  lemma TakeLocalParts(p: Pool, e: Event)
    requires Enabled(p, e) && e.TakeLocal?
    ensures Becomes(Next(p, e), p.queue, p.local - {e.th}, p.flights - {e.th}, p.handles + {p.local[e.th]}, p.cleared)
  {
  }

  lemma ClearLocalParts(p: Pool, e: Event)
    requires Enabled(p, e) && e.ClearLocal?
    ensures Becomes(Next(p, e), p.queue, p.local - {e.th},
                    p.flights[e.th := Clearing(p.local[e.th], Some(p.flights[e.th].mode))], p.handles, p.cleared)
  {
  }

  lemma ThreadExitParts(p: Pool, th: nat)
    requires Enabled(p, ThreadExit(th))
    ensures Becomes(Next(p, ThreadExit(th)), p.queue, p.local - {th}, p.flights[th := Clearing(p.local[th], None)],
                    p.handles, p.cleared)
  {
  }

  lemma CountLocalEvents(p: Pool, e: Event)
    requires Placed(p) && Balanced(p) && Enabled(p, e)
    requires e.TakeLocal? || e.ClearLocal? || e.ThreadExit?
    ensures Balanced(Next(p, e))
  {
    var th := e.th;
    assert th in p.local && (th in p.flights ==> !p.flights[th].Counted());
    hide Placed, Holders, Next, Enabled;
    WhereLocal(p, th);
    LocalChange(p.local, th, 0);
    HolderIs(p.flights, th);
    if e.TakeLocal? {
      TakeLocalParts(p, e);
      HoldersChange(p.flights, th, Deciding);
    } else if e.ClearLocal? {
      ClearLocalParts(p, e);
      HoldersChange(p.flights, th, Clearing(p.local[th], Some(p.flights[th].mode)));
    } else {
      ThreadExitParts(p, th);
      HoldersChange(p.flights, th, Clearing(p.local[th], None));
    }
  }

  lemma HolderIs(flights: map<nat, Flight>, th: nat)
    ensures th in Holders(flights) <==> th in flights && flights[th].Counted()
  {
  }

  lemma CountFlightEvents(p: Pool, e: Event)
    requires Placed(p) && Balanced(p) && Enabled(p, e)
    requires e.Acquire? || e.Refuse? || e.MissLocal? || e.DecideUnpooled? || e.DecidePooled? || e.GiveUp? || e.Probe? ||
             e.CheckReturned?
    ensures Balanced(Next(p, e))
  {
    hide Placed, Holders;
    var n := Next(p, e);
    HoldersChange(p.flights, e.th, if e.th in n.flights then n.flights[e.th] else Deciding);
    HolderIs(p.flights, e.th);
  }

  lemma CreatedParts(p: Pool, th: nat, id: nat)
    requires Enabled(p, Created(th, id))
    ensures Becomes(Next(p, Created(th, id)), p.queue, p.local, p.flights - {th}, p.handles + {id}, p.cleared)
  {
  }

  lemma CountCreated(p: Pool, th: nat, id: nat)
    requires Placed(p) && Balanced(p) && Enabled(p, Created(th, id))
    ensures Balanced(Next(p, Created(th, id)))
  {
    assert th in p.flights && p.flights[th].Counted() && id !in p.place;
    hide Placed, Holders, Next, Enabled;
    CreatedParts(p, th, id);
    HoldersChange(p.flights, th, Deciding);
    HolderIs(p.flights, th);
    WhereUnknown(p, id);
  }

  lemma CountCreateFailed(p: Pool, th: nat)
    requires Balanced(p) && Enabled(p, CreateFailed(th))
    ensures Balanced(Next(p, CreateFailed(th)))
  {
    hide Holders;
    HoldersChange(p.flights, th, Deciding);
    HolderIs(p.flights, th);
  }

  lemma ReleaseParts(p: Pool, e: Event)
    requires Enabled(p, e) && e.Release?
    ensures Becomes(Next(p, e), p.queue, p.local,
                    p.flights[e.th := if e.valid then Returning(e.id) else Discarding(e.id)],
                    p.handles - {e.id}, p.cleared)
  {
  }

  lemma CountRelease(p: Pool, e: Event)
    requires Balanced(p) && Enabled(p, e) && e.Release?
    ensures Balanced(Next(p, e))
  {
    assert e.th !in p.flights && e.id in p.handles;
    hide Holders, Next, Enabled;
    ReleaseParts(p, e);
    HoldersChange(p.flights, e.th, if e.valid then Returning(e.id) else Discarding(e.id));
    HolderIs(p.flights, e.th);
  }

  lemma ResolveParts(p: Pool, th: nat)
    requires Enabled(p, Resolve(th))
    ensures var f := p.flights[th];
      if p.queue.shutdown
      then Becomes(Next(p, Resolve(th)), Decrement(p.queue), p.local, p.flights - {th}, p.handles, p.cleared)
      else if f.healthy
      then Becomes(Next(p, Resolve(th)), p.queue, p.local, p.flights - {th}, p.handles + {f.id}, p.cleared)
      else Becomes(Next(p, Resolve(th)), Decrement(p.queue), p.local,
                   p.flights[th := Ready(f.mode)], p.handles, p.cleared)
  {
  }

  lemma CountResolve(p: Pool, th: nat)
    requires Placed(p) && Balanced(p) && Enabled(p, Resolve(th))
    ensures Balanced(Next(p, Resolve(th)))
  {
    assert th in p.flights && p.flights[th].Probed? && HandOf(p, th) == Some(p.flights[th].id);
    hide Placed, Holders, Next, Enabled;
    ResolveParts(p, th);
    WhereInHand(p, th);
    HoldersChange(p.flights, th, Ready(p.flights[th].mode));
    HolderIs(p.flights, th);
  }

  lemma ReturnParts(p: Pool, e: Event)
    requires Enabled(p, e) && (e.Discard? || e.Shelve? || e.KeepLocal?)
    ensures Becomes(Next(p, e),
                    match e
                    case Discard(_) => Decrement(p.queue)
                    case Shelve(th) => PutBack(p.queue, p.flights[th].id, false).0
                    case _ => p.queue,
                    if e.KeepLocal? then p.local[e.th := p.flights[e.th].id] else p.local,
                    p.flights - {e.th}, p.handles, p.cleared)
  {
  }

  lemma CountReturnEvents(p: Pool, e: Event)
    requires Balanced(p) && Enabled(p, e) && (e.Discard? || e.Shelve? || e.KeepLocal?)
    ensures Balanced(Next(p, e))
  {
    var th := e.th;
    assert th in p.flights && p.flights[th].Counted() && (e.KeepLocal? ==> th !in p.local);
    ReturnParts(p, e);
    hide Holders, Next, Enabled;
    HoldersChange(p.flights, th, Deciding);
    HolderIs(p.flights, th);
    LocalChange(p.local, th, p.flights[th].id);
  }

  lemma PutClearedParts(p: Pool, th: nat, expired: bool)
    requires Enabled(p, PutCleared(th, expired))
    ensures var f := p.flights[th];
      Becomes(Next(p, PutCleared(th, expired)), PutBack(p.queue, f.id, expired).0, p.local,
              if f.next.Some? then p.flights[th := Missed(f.next.value)] else p.flights - {th}, p.handles, p.cleared)
  {
  }

  lemma CountPutCleared(p: Pool, th: nat, expired: bool)
    requires Balanced(p) && Enabled(p, PutCleared(th, expired))
    ensures Balanced(Next(p, PutCleared(th, expired)))
  {
    assert th in p.flights && p.flights[th].Clearing?;
    hide Holders, Next, Enabled;
    var f := p.flights[th];
    PutClearedParts(p, th, expired);
    HoldersChange(p.flights, th, if f.next.Some? then Missed(f.next.value) else Deciding);
    HolderIs(p.flights, th);
  }

  lemma CountSection(p: Pool, e: Event)
    requires Balanced(p) && Enabled(p, e) && e.Section?
    ensures Balanced(Next(p, e))
  {
    hide Holders, TakeIdle, Evict, Reap;
    TakeIdleExact(p.queue, e.overdue);
    var n := Next(p, e);
    HoldersChange(p.flights, e.th, n.flights[e.th]);
    HolderIs(p.flights, e.th);
  }

  lemma CountQueueEvents(p: Pool, e: Event)
    requires Balanced(p) && Enabled(p, e) && OnQueue(e)
    ensures Balanced(Next(p, e))
  {
    hide Holders;
    match e
    case Section(_, _) =>
      hide *;
      CountSection(p, e);
    case SetMax(max) => EvictExact(p.queue.(max := max));
    case ReapRound(overdue) => ReapExact(p.queue, overdue);
    case Shutdown =>
  }

  lemma CountKept(p: Pool, e: Event)
    requires Placed(p) && Balanced(p) && Enabled(p, e)
    ensures Balanced(Next(p, e))
  {
    hide Placed, Balanced, Enabled, Next, OnQueue;
    if OnQueue(e) {
      CountQueueEvents(p, e);
    } else if e.TakeLocal? || e.ClearLocal? || e.ThreadExit? {
      CountLocalEvents(p, e);
    } else if e.Created? {
      CountCreated(p, e.th, e.id);
    } else if e.CreateFailed? {
      CountCreateFailed(p, e.th);
    } else if e.Release? {
      CountRelease(p, e);
    } else if e.Resolve? {
      CountResolve(p, e.th);
    } else if e.PutCleared? {
      CountPutCleared(p, e.th, e.expired);
    } else if e.Discard? || e.Shelve? || e.KeepLocal? {
      CountReturnEvents(p, e);
    } else if e.Use? {
      CountUse(p, e);
    } else {
      OnQueueIs(e);
      CountFlightEvents(p, e);
    }
  }

  lemma OnQueueIs(e: Event)
    ensures OnQueue(e) <==> e.Section? || e.SetMax? || e.ReapRound? || e.Shutdown?
  {
  }

  lemma CountUse(p: Pool, e: Event)
    requires Balanced(p) && Enabled(p, e) && e.Use?
    ensures Balanced(Next(p, e))
  {
  }

  // ---------------------------------------------------------------- the limit, and Shutdown

  /** A pool over its limit has nothing idle, and neither has one that is shut. */
  ghost predicate LimitKept(p: Pool) {
    (OverLimit(p.queue) ==> p.queue.available == []) && (p.queue.shutdown ==> p.queue.available == [])
  }

  /** Outside the sections over the whole queue, a step leaves it alone, uncounts a connection, or puts one back where
      there is room. */
  lemma QueueStep(p: Pool, e: Event)
    requires Enabled(p, e) && !OnQueue(e)
    ensures var q := Next(p, e).queue;
      q == p.queue || q == Decrement(p.queue) ||
      (!OverLimit(p.queue) && !p.queue.shutdown && q.total == p.queue.total && q.max == p.queue.max && !q.shutdown)
  {
  }

  lemma LimitStep(p: Pool, e: Event)
    requires Balanced(p) && LimitKept(p) && Enabled(p, e)
    ensures LimitKept(Next(p, e))
    ensures p.queue.shutdown ==> Next(p, e).queue.shutdown && Next(p, e).queue.total <= p.queue.total
  {
    if OnQueue(e) {
      LimitQueueStep(p, e);
    } else {
      hide Next, Enabled;
      QueueStep(p, e);
    }
  }

  lemma LimitQueueStep(p: Pool, e: Event)
    requires Balanced(p) && LimitKept(p) && Enabled(p, e) && OnQueue(e)
    ensures LimitKept(Next(p, e))
    ensures p.queue.shutdown ==> Next(p, e).queue.shutdown && Next(p, e).queue.total <= p.queue.total
  {
    hide Holders, TakeIdle, Evict, Reap, Lead, Unexpired;
    match e
    case Section(th, overdue) => TakeIdleExact(p.queue, overdue);
    case SetMax(max) => EvictExact(p.queue.(max := max));
    case ReapRound(overdue) => ReapExact(p.queue, overdue);
    case Shutdown =>
  }

  // ---------------------------------------------------------------- what connections are like where

  /** Connections in the queue and in threads' slots have no query and no insert running; one kept after its checks, or
      found healthy, is usable. Only what is handed out can change otherwise. */
  ghost predicate LinkFits(p: Pool, id: nat)
    requires id in p.place && id in p.links
  {
    match p.place[id]
    case Idle => p.links[id].Quiet()
    case Local(_) => p.links[id].Quiet()
    case InFlight(th) =>
      th in p.flights && p.flights[th].InHand() == Some(id) && FlightFits(p.flights[th], p.links[id])
    case _ => true
  }

  ghost predicate FlightFits(f: Flight, link: Link) {
    match f
    case Clearing(_, _) => link.Quiet()
    case Probing(_, _) => link.Quiet()
    case Probed(_, _, healthy) => link.Quiet() && (healthy ==> link.Usable())
    case Accepted(_) => link.Usable()
    case _ => true
  }

  ghost predicate LinksFit(p: Pool) {
    p.links.Keys == p.place.Keys && forall id {:trigger p.links[id]} :: id in p.links ==> LinkFits(p, id)
  }

  /** The connection a step hands out. */
  function HandsOut(p: Pool, e: Event): Option<nat>
    requires Enabled(p, e)
  {
    match e
    case TakeLocal(th, _, _) => Some(p.local[th])
    case Resolve(th) => if !p.queue.shutdown && p.flights[th].healthy then Some(p.flights[th].id) else None
    case Created(_, id) => Some(id)
    case DecideUnpooled(_, id) => Some(id)
    case _ => None
  }

  lemma KnownLocal(p: Pool, th: nat)
    requires Placed(p) && LinksFit(p) && th in p.local
    ensures p.local[th] in p.links && p.links[p.local[th]].Quiet()
  {
    hide Placed;
    WhereLocal(p, th);
    assert LinkFits(p, p.local[th]);
  }

  lemma KnownInHand(p: Pool, th: nat)
    requires Placed(p) && LinksFit(p) && HandOf(p, th).Some?
    ensures HandOf(p, th).value in p.links && FlightFits(p.flights[th], p.links[HandOf(p, th).value])
  {
    hide Placed, FlightFits;
    WhereInHand(p, th);
    assert LinkFits(p, HandOf(p, th).value);
  }

  lemma LinksLocalStep(p: Pool, e: Event)
    requires Placed(p) && LinksFit(p) && Enabled(p, e) && (e.TakeLocal? || e.ClearLocal? || e.ThreadExit?)
    ensures LinksFit(Next(p, e))
  {
    hide Placed, FlightFits;
    var n := Next(p, e);
    KnownLocal(p, e.th);
    WhereLocal(p, e.th);
    forall id {:trigger n.links[id]} | id in n.links ensures LinkFits(n, id) {
      assert id in p.links && LinkFits(p, id);
      ClearingFits(n.links[id], if e.th in n.flights then n.flights[e.th] else Deciding);
      if e.ClearLocal? && id == p.local[e.th] {
        assert n.links[id].Quiet();
      }
    }
  }

  lemma ClearingFits(link: Link, f: Flight)
    ensures f.Clearing? && link.Quiet() ==> FlightFits(f, link)
  {
  }

  lemma LinksFlightStep(p: Pool, e: Event)
    requires Placed(p) && LinksFit(p) && Enabled(p, e)
    requires e.Acquire? || e.Refuse? || e.MissLocal? || e.DecidePooled? || e.GiveUp? || e.CreateFailed?
    ensures LinksFit(Next(p, e))
  {
    hide Placed, FlightFits;
    var n := Next(p, e);
    forall id {:trigger n.links[id]} | id in n.links ensures LinkFits(n, id) {
      assert id in p.links && LinkFits(p, id);
    }
  }

  lemma LinksTouched(p: Pool, th: nat, id: nat, f: Flight, link: Link)
    requires LinksFit(p) && HandOf(p, th) == Some(id) && f.InHand() == Some(id) && FlightFits(f, link)
    requires id in p.place && p.place[id] == InFlight(th)
    ensures LinksFit(Fly(Touch(p, id, link), th, f))
  {
    hide FlightFits;
    var n := Fly(Touch(p, id, link), th, f);
    forall i {:trigger n.links[i]} | i in n.links ensures LinkFits(n, i) {
      assert i in p.links && LinkFits(p, i);
    }
  }

  lemma LinksCheckStep(p: Pool, e: Event)
    requires Placed(p) && LinksFit(p) && Enabled(p, e) && (e.Probe? || e.CheckReturned?)
    ensures LinksFit(Next(p, e))
  {
    hide Placed, LinksFit;
    KnownInHand(p, e.th);
    WhereInHand(p, e.th);
    var id := p.flights[e.th].id;
    if e.Probe? {
      var healthy := Healthy(p.links[id], e.stale, e.pinged);
      LinksTouched(p, e.th, id, Probed(p.flights[e.th].mode, id, healthy),
                   After(p.links[id], IsHealthy(e.stale, e.pinged)));
    } else if e.expired {
      LinksTouched(p, e.th, id, Discarding(id), p.links[id]);
      assert Touch(p, id, p.links[id]) == p by { assert p.links[id := p.links[id]] == p.links; }
    } else {
      ReturnedUsable(p.links[id], e.stale, e.pinged, e.cancelled);
      var (link, kept) := Returned(p.links[id], e.stale, e.pinged, e.cancelled);
      LinksTouched(p, e.th, id, if kept then Accepted(id) else Discarding(id), link);
    }
  }

  lemma LinksNewStep(p: Pool, e: Event)
    requires Placed(p) && LinksFit(p) && Enabled(p, e)
    requires e.DecideUnpooled? || e.Created? || e.Use? || e.Release?
    ensures LinksFit(Next(p, e))
  {
    hide Placed;
    var n := Next(p, e);
    if e.Release? {
      WhereHanded(p, e.id);
    }
    forall id {:trigger n.links[id]} | id in n.links ensures LinkFits(n, id) {
      assert id in p.links ==> LinkFits(p, id);
    }
  }

  lemma LinksReturnStep(p: Pool, e: Event)
    requires Placed(p) && LinksFit(p) && Enabled(p, e) && (e.Resolve? || e.Discard? || e.KeepLocal?)
    ensures LinksFit(Next(p, e))
  {
    hide Placed;
    var n := Next(p, e);
    KnownInHand(p, e.th);
    forall id {:trigger n.links[id]} | id in n.links ensures LinkFits(n, id) {
      assert id in p.links && LinkFits(p, id);
    }
  }

  lemma LinksPutStep(p: Pool, e: Event)
    requires Placed(p) && LinksFit(p) && Enabled(p, e) && (e.PutCleared? || e.Shelve?)
    ensures LinksFit(Next(p, e))
  {
    hide Placed;
    var n := Next(p, e);
    KnownInHand(p, e.th);
    forall id {:trigger n.links[id]} | id in n.links ensures LinkFits(n, id) {
      assert id in p.links && LinkFits(p, id);
    }
  }

  lemma LinksRequeue(p: Pool, queue: Queue, taken: Option<nat>)
    requires LinksFit(p)
    ensures LinksFit(Requeue(p, queue, taken))
  {
    hide FlightFits;
    var n := Requeue(p, queue, taken);
    assert n.place.Keys == p.place.Keys;
    forall id {:trigger n.links[id]} | id in n.links ensures LinkFits(n, id) {
      assert LinkFits(p, id);
    }
  }

  lemma LinksSectionStep(p: Pool, th: nat, overdue: set<nat>)
    requires Placed(p) && LinksFit(p) && Enabled(p, Section(th, overdue)) && |p.queue.available| <= p.queue.total
    ensures LinksFit(Next(p, Section(th, overdue)))
  {
    hide Placed, TakeIdle, FlightFits, Requeue;
    var (queue, taken) := TakeIdle(p.queue, overdue);
    TakenPart(p, overdue);
    LinksRequeue(p, queue, taken);
    RequeueKeepsFlights(p, queue, taken);
    SectionLinks(p, Requeue(p, queue, taken), th, overdue);
  }

  lemma SectionLinks(p: Pool, m: Pool, th: nat, overdue: set<nat>)
    requires Enabled(p, Section(th, overdue)) && LinksFit(m)
    requires var (queue, taken) := TakeIdle(p.queue, overdue);
      m == Requeue(p, queue, taken) &&
      (taken.Some? ==> taken.value in m.place && m.place[taken.value].Idle?)
    ensures LinksFit(Next(p, Section(th, overdue)))
  {
    hide TakeIdle, FlightFits, Requeue;
    var n := Next(p, Section(th, overdue));
    var (queue, taken) := TakeIdle(p.queue, overdue);
    RequeueKeepsFlights(p, queue, taken);
    forall id {:trigger n.links[id]} | id in n.links ensures LinkFits(n, id) {
      assert LinkFits(m, id);
      ProbingFits(m.links[id], n.flights[th]);
    }
  }

  lemma RequeueKeepsFlights(p: Pool, queue: Queue, taken: Option<nat>)
    ensures Requeue(p, queue, taken).flights == p.flights && Requeue(p, queue, taken).links == p.links
    ensures Requeue(p, queue, taken).queue == queue
    ensures taken.Some? && taken.value in p.place ==>
      taken.value in Requeue(p, queue, taken).place &&
      Requeue(p, queue, taken).place[taken.value] == p.place[taken.value]
  {
  }

  lemma LinksQueueStep(p: Pool, e: Event)
    requires Placed(p) && LinksFit(p) && Enabled(p, e) && OnQueue(e) && |p.queue.available| <= p.queue.total
    ensures LinksFit(Next(p, e))
  {
    hide Placed, Requeue, LinkFits;
    match e
    case Section(th, overdue) =>
      hide Next;
      LinksSectionStep(p, th, overdue);
    case SetMax(max) => LinksRequeue(p, Evict(p.queue.(max := max)), None);
    case ReapRound(overdue) => LinksRequeue(p, Reap(p.queue, overdue), None);
    case Shutdown =>
      var cleared := p.(cleared := p.cleared + Dropped(p.queue));
      LinksCleared(p, cleared);
      LinksRequeue(cleared, Shut(p.queue), None);
  }

  lemma LinksCleared(p: Pool, n: Pool)
    requires LinksFit(p) && n.links == p.links && n.place == p.place && n.flights == p.flights
    ensures LinksFit(n)
  {
    forall id {:trigger n.links[id]} | id in n.links ensures LinkFits(n, id) {
      assert LinkFits(p, id);
    }
  }

  lemma ProbingFits(link: Link, f: Flight)
    ensures f.Probing? && link.Quiet() ==> FlightFits(f, link)
  {
  }

  lemma LinksKept(p: Pool, e: Event)
    requires Placed(p) && LinksFit(p) && Enabled(p, e) && |p.queue.available| <= p.queue.total
    ensures LinksFit(Next(p, e))
  {
    hide Placed, LinksFit, Enabled, Next, OnQueue;
    OnQueueIs(e);
    if OnQueue(e) {
      LinksQueueStep(p, e);
    } else if e.TakeLocal? || e.ClearLocal? || e.ThreadExit? {
      LinksLocalStep(p, e);
    } else if e.Probe? || e.CheckReturned? {
      LinksCheckStep(p, e);
    } else if e.DecideUnpooled? || e.Created? || e.Use? || e.Release? {
      LinksNewStep(p, e);
    } else if e.Resolve? || e.Discard? || e.KeepLocal? {
      LinksReturnStep(p, e);
    } else if e.PutCleared? || e.Shelve? {
      LinksPutStep(p, e);
    } else {
      LinksFlightStep(p, e);
    }
  }
}
