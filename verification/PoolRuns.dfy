/** Every interleaving of acquires, returns, the reaper, resizing and shutdown, one step for each stretch a thread runs
    with or without pool_lock (database-connector/src/include/dbconnector/pool): the pool's state, its events, and that
    every event keeps each connection in one place. */
module PoolRuns {
  import opened Options
  import opened Connections
  import opened PoolQueue

  datatype Mode = Force | Wait | Try

  /** What a thread inside the pool is about to do, and the connection it has in hand. */
  datatype Flight =
    | Wanting(mode: Mode)                                  // look at its own slot
    | Clearing(id: nat, next: Option<Mode>)                // hand what was in the slot to the queue
    | Deciding                                             // FORCE: see whether pooling is disabled
    | Ready(mode: Mode)                                    // take the lock and look at the queue
    | Probing(mode: Mode, id: nat)                         // check the popped connection, the lock released
    | Probed(mode: Mode, id: nat, healthy: bool)           // take the lock again
    | Creating(mode: Mode)                                 // open a connection it has been counted for
    | Returning(id: nat)                                   // check a connection given back
    | Accepted(id: nat)                                    // keep it
    | Discarding(id: nat)                                  // drop it
  {
    /** Whether total_connections counts something this thread has in hand. */
    predicate Counted() {
      !Wanting? && !Deciding? && !Ready?
    }

    function InHand(): Option<nat> {
      match this
      case Clearing(id, _) => Some(id)
      case Probing(_, id) => Some(id)
      case Probed(_, id, _) => Some(id)
      case Returning(id) => Some(id)
      case Accepted(id) => Some(id)
      case Discarding(id) => Some(id)
      case _ => None
    }
  }

  /** Where a connection is: exactly one place. */
  datatype Place = Idle | Local(thread: nat) | InFlight(thread: nat) | Handed | Unpooled | Gone

  /** `cleared` counts the connections Shutdown dropped without uncounting them. */
  datatype Pool = Pool(
    queue: Queue,
    local: map<nat, nat>,
    flights: map<nat, Flight>,
    handles: set<nat>,
    cleared: nat,
    place: map<nat, Place>,
    links: map<nat, Link>)

  function Fresh(max: nat): Pool {
    Pool(Queue([], 0, max, false), map[], map[], {}, 0, map[], map[])
  }

  datatype Event =
    | Acquire(th: nat, mode: Mode)
    | Refuse(th: nat)
    | TakeLocal(th: nat, stale: bool, pinged: bool)
    | ClearLocal(th: nat, expired: bool, stale: bool, pinged: bool)
    | PutCleared(th: nat, expired: bool)
    | MissLocal(th: nat)
    | DecideUnpooled(th: nat, id: nat)
    | DecidePooled(th: nat)
    | GiveUp(th: nat)
    | Section(th: nat, overdue: set<nat>)
    | Probe(th: nat, stale: bool, pinged: bool)
    | Resolve(th: nat)
    | Created(th: nat, id: nat)
    | CreateFailed(th: nat)
    | Use(id: nat, call: Call)
    | Release(th: nat, id: nat, valid: bool)
    | CheckReturned(th: nat, expired: bool, stale: bool, pinged: bool, cancelled: bool)
    | Discard(th: nat)
    | KeepLocal(th: nat)
    | Shelve(th: nat)
    | ThreadExit(th: nat)
    | SetMax(max: nat)
    | ReapRound(overdue: set<nat>)
    | Shutdown

  // ---------------------------------------------------------------- steps

  function Missed(mode: Mode): Flight {
    if mode.Force? then Deciding else Ready(mode)
  }

  predicate At(p: Pool, th: nat) {
    th in p.flights
  }

  predicate Enabled(p: Pool, e: Event) {
    match e
    case Acquire(th, _) => !At(p, th)
    case Refuse(th) => At(p, th) && p.flights[th].Wanting? && !p.flights[th].mode.Force? && p.queue.max == 0
    case TakeLocal(th, stale, pinged) =>
      At(p, th) && p.flights[th].Wanting? && th in p.local && p.local[th] in p.links &&
      Healthy(p.links[p.local[th]], stale, pinged)
    case ClearLocal(th, expired, stale, pinged) =>
      At(p, th) && p.flights[th].Wanting? && th in p.local && p.local[th] in p.links &&
      (expired || !Healthy(p.links[p.local[th]], stale, pinged))
    case PutCleared(th, _) => At(p, th) && p.flights[th].Clearing?
    case MissLocal(th) => At(p, th) && p.flights[th].Wanting?
    case DecideUnpooled(th, id) =>
      At(p, th) && p.flights[th].Deciding? && !p.queue.shutdown && p.queue.max == 0 && id !in p.place
    case DecidePooled(th) => At(p, th) && p.flights[th].Deciding? && !p.queue.shutdown && p.queue.max != 0
    case GiveUp(th) => At(p, th) && (p.flights[th].Deciding? || p.flights[th].Ready?)
    case Section(th, _) => At(p, th) && p.flights[th].Ready? && !p.queue.shutdown
    case Probe(th, _, _) => At(p, th) && p.flights[th].Probing? && p.flights[th].id in p.links
    case Resolve(th) => At(p, th) && p.flights[th].Probed?
    case Created(th, id) => At(p, th) && p.flights[th].Creating? && id !in p.place
    case CreateFailed(th) => At(p, th) && p.flights[th].Creating?
    case Use(id, _) => id in p.place && (p.place[id].Handed? || p.place[id].Unpooled?) && id in p.links
    case Release(th, id, _) => !At(p, th) && id in p.handles
    case CheckReturned(th, _, _, _, _) => At(p, th) && p.flights[th].Returning? && p.flights[th].id in p.links
    case Discard(th) => At(p, th) && p.flights[th].Discarding?
    case KeepLocal(th) => At(p, th) && p.flights[th].Accepted? && th !in p.local && MayStayLocal(p.queue)
    case Shelve(th) => At(p, th) && p.flights[th].Accepted?
    case ThreadExit(th) => !At(p, th) && th in p.local
    case SetMax(_) => true
    case ReapRound(_) => true
    case Shutdown => true
  }

  function Fly(p: Pool, th: nat, f: Flight): Pool {
    p.(flights := p.flights[th := f])
  }

  function Land(p: Pool, th: nat): Pool {
    p.(flights := p.flights - {th})
  }

  function Move(p: Pool, id: nat, place: Place): Pool {
    p.(place := p.place[id := place])
  }

  function Touch(p: Pool, id: nat, link: Link): Pool {
    p.(links := p.links[id := link])
  }

  /** The queue after a section; what has left it, but for `taken`, is gone. */
  function Requeue(p: Pool, queue: Queue, taken: Option<nat>): Pool {
    p.(queue := queue,
       place := map id | id in p.place ::
         if id in p.queue.available && id !in queue.available && taken != Some(id) then Gone else p.place[id])
  }

  /** Dropping the connection in hand: uncounted, and gone. */
  function Drop(p: Pool, id: nat): Pool {
    Move(p.(queue := Decrement(p.queue)), id, Gone)
  }

  function Hand(p: Pool, th: nat, id: nat): Pool {
    Land(Move(p.(handles := p.handles + {id}), id, Handed), th)
  }

  function ShelveOrDrop(p: Pool, id: nat, expired: bool): Pool {
    var (queue, kept) := PutBack(p.queue, id, expired);
    Move(p.(queue := queue), id, if kept then Idle else Gone)
  }

  /** What Shutdown drops: the first time only. */
  function Dropped(queue: Queue): nat {
    if queue.shutdown then 0 else |queue.available|
  }

  function NextOfLocal(p: Pool, e: Event): Pool
    requires Enabled(p, e) && (e.TakeLocal? || e.ClearLocal? || e.PutCleared? || e.KeepLocal? || e.ThreadExit?)
  {
    match e
    case TakeLocal(th, stale, pinged) =>
      var id := p.local[th];
      Hand(Touch(p.(local := p.local - {th}), id, After(p.links[id], IsHealthy(stale, pinged))), th, id)
    case ClearLocal(th, expired, stale, pinged) =>
      var id := p.local[th];
      var link := if expired then p.links[id] else After(p.links[id], IsHealthy(stale, pinged));
      Fly(Move(Touch(p.(local := p.local - {th}), id, link), id, InFlight(th)), th,
          Clearing(id, Some(p.flights[th].mode)))
    case PutCleared(th, expired) =>
      var f := p.flights[th];
      var shelved := ShelveOrDrop(p, f.id, expired);
      if f.next.Some? then Fly(shelved, th, Missed(f.next.value)) else Land(shelved, th)
    case KeepLocal(th) =>
      var id := p.flights[th].id;
      Land(Move(p.(local := p.local[th := id]), id, Local(th)), th)
    case ThreadExit(th) =>
      var id := p.local[th];
      Fly(Move(p.(local := p.local - {th}), id, InFlight(th)), th, Clearing(id, None))
  }

  function SectionResult(p: Pool, th: nat, mode: Mode, overdue: set<nat>): Pool {
    var (queue, taken) := TakeIdle(p.queue, overdue);
    var left := Requeue(p, queue, taken);
    if taken.Some? then Fly(Move(left, taken.value, InFlight(th)), th, Probing(mode, taken.value))
    else if mode.Force? || queue.total < queue.max
    then Fly(left.(queue := queue.(total := queue.total + 1)), th, Creating(mode))
    else left
  }

  function Next(p: Pool, e: Event): Pool
    requires Enabled(p, e)
  {
    match e
    case Acquire(th, mode) => Fly(p, th, Wanting(if p.queue.max == 0 then Force else mode))
    case Refuse(th) => Land(p, th)
    case MissLocal(th) => Fly(p, th, Missed(p.flights[th].mode))
    case DecideUnpooled(th, id) => Land(Touch(Move(p, id, Unpooled), id, OPENED), th)
    case DecidePooled(th) => Fly(p, th, Ready(Force))
    case GiveUp(th) => Land(p, th)
    case Section(th, overdue) => SectionResult(p, th, p.flights[th].mode, overdue)
    case Probe(th, stale, pinged) =>
      var f := p.flights[th];
      Fly(Touch(p, f.id, After(p.links[f.id], IsHealthy(stale, pinged))), th,
          Probed(f.mode, f.id, Healthy(p.links[f.id], stale, pinged)))
    case Resolve(th) =>
      var f := p.flights[th];
      if p.queue.shutdown then Land(Drop(p, f.id), th)
      else if f.healthy then Hand(p, th, f.id)
      else Fly(Drop(p, f.id), th, Ready(f.mode))
    case Created(th, id) => Hand(Touch(p, id, OPENED), th, id)
    case CreateFailed(th) => Land(p.(queue := Decrement(p.queue)), th)
    case Use(id, call) => Touch(p, id, After(p.links[id], call))
    case Release(th, id, valid) =>
      Fly(Move(p.(handles := p.handles - {id}), id, InFlight(th)), th, if valid then Returning(id) else Discarding(id))
    case CheckReturned(th, expired, stale, pinged, cancelled) =>
      var id := p.flights[th].id;
      if expired then Fly(p, th, Discarding(id))
      else
        var (link, kept) := Returned(p.links[id], stale, pinged, cancelled);
        Fly(Touch(p, id, link), th, if kept then Accepted(id) else Discarding(id))
    case Discard(th) => Land(Drop(p, p.flights[th].id), th)
    case Shelve(th) => Land(ShelveOrDrop(p, p.flights[th].id, false), th)
    case SetMax(max) => Requeue(p, Evict(p.queue.(max := max)), None)
    case ReapRound(overdue) => Requeue(p, Reap(p.queue, overdue), None)
    case Shutdown => Requeue(p.(cleared := p.cleared + Dropped(p.queue)), Shut(p.queue), None)
    case _ => NextOfLocal(p, e)
  }

  /** `last` is the pool after the events, each enabled in its turn, from a fresh pool of `max` connections. */
  ghost predicate Run(max: nat, events: seq<Event>, last: Pool) {
    if events == [] then last == Fresh(max)
    else
      var before, e := events[..|events| - 1], events[|events| - 1];
      exists p :: Run(max, before, p) && Enabled(p, e) && last == Next(p, e)
  }

  // ---------------------------------------------------------------- one place for every connection

  function HandOf(p: Pool, th: nat): Option<nat> {
    if th in p.flights then p.flights[th].InHand() else None
  }

  /** The pool's own structures put connection `id` at `place`. */
  ghost predicate Says(p: Pool, id: nat, place: Place) {
    match place
    case Idle => id in p.queue.available
    case Local(th) => th in p.local && p.local[th] == id
    case InFlight(th) => HandOf(p, th) == Some(id)
    case Handed => id in p.handles
    case _ => false
  }

  predicate Tracked(place: Place) {
    !place.Unpooled? && !place.Gone?
  }

  /** Every connection is at its one place and nowhere else, and at most once in the queue. */
  ghost predicate Placed(p: Pool) {
    NoRepeats(p.queue.available) &&
    forall id, place {:trigger Says(p, id, place)} :: Tracked(place) ==>
      (Says(p, id, place) <==> id in p.place && p.place[id] == place)
  }

  /** One connection has moved: `n` differs from `p` in where `id` is, and in nothing else that tells places. */
  ghost predicate Shifts(p: Pool, n: Pool, id: nat, from: Place, to: Place) {
    n.place == p.place[id := to] && NoRepeats(n.queue.available) &&
    (forall i :: i in n.queue.available <==> if i == id then to.Idle? else i in p.queue.available) &&
    n.local == (if from.Local? then p.local - {from.thread}
                else if to.Local? then p.local[to.thread := id]
                else p.local) &&
    n.handles == (if from.Handed? then p.handles - {id} else if to.Handed? then p.handles + {id} else p.handles) &&
    forall th :: HandOf(n, th) ==
      if to == InFlight(th) then Some(id) else if from == InFlight(th) then None else HandOf(p, th)
  }

  lemma ShiftPlaced(p: Pool, n: Pool, id: nat, from: Place, to: Place)
    requires Placed(p) && Shifts(p, n, id, from, to)
    requires if id in p.place then from == p.place[id] else from.Gone?
    requires to.Local? ==> !from.Local? && to.thread !in p.local
    requires to.InFlight? ==> HandOf(p, to.thread).None?
    requires from.Handed? ==> !to.Handed?
    ensures Placed(n)
  {
    forall i, place {:trigger Says(n, i, place)} | Tracked(place)
      ensures Says(n, i, place) <==> i in n.place && n.place[i] == place
    {
      assert Says(p, i, place) <==> i in p.place && p.place[i] == place;
      assert Says(p, id, place) <==> id in p.place && p.place[id] == place;
      hide Placed;
      SaysShifted(p, n, id, from, to, i, place);
    }
  }

  lemma SaysShifted(p: Pool, n: Pool, id: nat, from: Place, to: Place, i: nat, place: Place)
    requires Shifts(p, n, id, from, to) && Tracked(place)
    requires if id in p.place then from == p.place[id] else from.Gone?
    requires to.Local? ==> !from.Local? && to.thread !in p.local
    requires to.InFlight? ==> HandOf(p, to.thread).None?
    requires from.Handed? ==> !to.Handed?
    requires Says(p, i, place) <==> i in p.place && p.place[i] == place
    requires Says(p, id, place) <==> id in p.place && p.place[id] == place
    ensures Says(n, i, place) <==> i in n.place && n.place[i] == place
  {
    hide HandOf, NoRepeats;
  }

  lemma SamePlaces(p: Pool, n: Pool)
    requires Placed(p) && n.place == p.place && n.queue.available == p.queue.available && n.local == p.local
    requires n.handles == p.handles && forall th :: HandOf(n, th) == HandOf(p, th)
    ensures Placed(n)
  {
    forall i, place {:trigger Says(n, i, place)} | Tracked(place)
      ensures Says(n, i, place) <==> i in n.place && n.place[i] == place
    {
      assert Says(p, i, place) <==> i in p.place && p.place[i] == place;
    }
  }

  lemma RequeuePlaced(p: Pool, queue: Queue)
    requires Placed(p) && NoRepeats(queue.available) && forall id :: id in queue.available ==> id in p.queue.available
    ensures Placed(Requeue(p, queue, None))
  {
    var n := Requeue(p, queue, None);
    forall i, place {:trigger Says(n, i, place)} | Tracked(place)
      ensures Says(n, i, place) <==> i in n.place && n.place[i] == place
    {
      assert Says(p, i, place) <==> i in p.place && p.place[i] == place;
      assert Says(p, i, Idle) <==> i in p.place && p.place[i] == Idle;
    }
  }

  lemma AppendNoRepeats(ids: seq<nat>, id: nat)
    requires NoRepeats(ids) && id !in ids
    ensures NoRepeats(ids + [id]) && NoRepeats([id] + ids)
  {
  }

  lemma WhereInHand(p: Pool, th: nat)
    requires Placed(p) && HandOf(p, th).Some?
    ensures HandOf(p, th).value in p.place && p.place[HandOf(p, th).value] == InFlight(th)
    ensures HandOf(p, th).value !in p.queue.available && HandOf(p, th).value !in p.handles
  {
    var id := HandOf(p, th).value;
    assert Says(p, id, InFlight(th));
    assert Says(p, id, Idle) <==> p.place[id] == Idle;
    assert Says(p, id, Handed) <==> p.place[id] == Handed;
  }

  lemma WhereLocal(p: Pool, th: nat)
    requires Placed(p) && th in p.local
    ensures p.local[th] in p.place && p.place[p.local[th]] == Local(th)
    ensures p.local[th] !in p.queue.available && p.local[th] !in p.handles
  {
    var id := p.local[th];
    assert Says(p, id, Local(th));
    assert Says(p, id, Idle) <==> p.place[id] == Idle;
    assert Says(p, id, Handed) <==> p.place[id] == Handed;
  }

  lemma WhereUnknown(p: Pool, id: nat)
    requires Placed(p) && id !in p.place
    ensures id !in p.queue.available && id !in p.handles
  {
    assert !Says(p, id, Idle);
    assert !Says(p, id, Handed);
  }

  lemma WhereHanded(p: Pool, id: nat)
    requires Placed(p) && id in p.handles
    ensures id in p.place && p.place[id] == Handed && id !in p.queue.available
  {
    assert Says(p, id, Handed);
    assert Says(p, id, Idle) <==> p.place[id] == Idle;
  }

  /** The move an event makes, if any. */
  datatype Shift = Stays | Moves(id: nat, from: Place, to: Place)

  function ShiftOf(p: Pool, e: Event): Shift
    requires Enabled(p, e)
  {
    match e
    case TakeLocal(th, _, _) => Moves(p.local[th], Local(th), Handed)
    case ClearLocal(th, _, _, _) => Moves(p.local[th], Local(th), InFlight(th))
    case ThreadExit(th) => Moves(p.local[th], Local(th), InFlight(th))
    case KeepLocal(th) => Moves(p.flights[th].id, InFlight(th), Local(th))
    case PutCleared(th, expired) =>
      Moves(p.flights[th].id, InFlight(th), if PutBack(p.queue, p.flights[th].id, expired).1 then Idle else Gone)
    case Shelve(th) =>
      Moves(p.flights[th].id, InFlight(th), if PutBack(p.queue, p.flights[th].id, false).1 then Idle else Gone)
    case DecideUnpooled(_, id) => Moves(id, Gone, Unpooled)
    case Created(_, id) => Moves(id, Gone, Handed)
    case Resolve(th) =>
      Moves(p.flights[th].id, InFlight(th), if !p.queue.shutdown && p.flights[th].healthy then Handed else Gone)
    case Release(th, id, _) => Moves(id, Handed, InFlight(th))
    case Discard(th) => Moves(p.flights[th].id, InFlight(th), Gone)
    case _ => Stays
  }

  lemma LocalShifts(p: Pool, e: Event)
    requires Enabled(p, e) && (e.TakeLocal? || e.ClearLocal? || e.ThreadExit?)
    requires NoRepeats(p.queue.available) && p.local[e.th] !in p.queue.available
    ensures var s := ShiftOf(p, e); Shifts(p, Next(p, e), s.id, s.from, s.to)
  {
  }

  lemma ShelvedOrDropped(p: Pool, id: nat, expired: bool)
    requires NoRepeats(p.queue.available) && id !in p.queue.available
    ensures var n, kept := ShelveOrDrop(p, id, expired), PutBack(p.queue, id, expired).1;
      n.place == p.place[id := if kept then Idle else Gone] && NoRepeats(n.queue.available) &&
      (forall i :: i in n.queue.available <==> if i == id then kept else i in p.queue.available) &&
      n.local == p.local && n.handles == p.handles && n.flights == p.flights
  {
    hide NoRepeats, Decrement;
    AppendNoRepeats(p.queue.available, id);
    DecrementKeepsQueue(p.queue);
  }

  lemma ShelvedShifts(p: Pool, e: Event)
    requires Enabled(p, e) && e.Shelve?
    requires NoRepeats(p.queue.available) && p.flights[e.th].id !in p.queue.available
    ensures var s := ShiftOf(p, e); Shifts(p, Next(p, e), s.id, s.from, s.to)
  {
    hide NoRepeats, PutBack, ShelveOrDrop;
    ShelvedOrDropped(p, p.flights[e.th].id, false);
  }

  lemma ClearedShifts(p: Pool, e: Event)
    requires Enabled(p, e) && e.PutCleared?
    requires NoRepeats(p.queue.available) && p.flights[e.th].id !in p.queue.available
    ensures var s := ShiftOf(p, e); Shifts(p, Next(p, e), s.id, s.from, s.to)
  {
    hide NoRepeats, PutBack, ShelveOrDrop;
    ShelvedOrDropped(p, p.flights[e.th].id, e.expired);
  }

  lemma DecrementKeepsQueue(q: Queue)
    ensures Decrement(q).available == q.available
  {
  }

  lemma KeptShifts(p: Pool, e: Event)
    requires Enabled(p, e) && e.KeepLocal?
    requires NoRepeats(p.queue.available) && p.flights[e.th].id !in p.queue.available
    ensures var s := ShiftOf(p, e); Shifts(p, Next(p, e), s.id, s.from, s.to)
  {
    hide NoRepeats;
  }

  lemma ResolvedShifts(p: Pool, e: Event)
    requires Enabled(p, e) && e.Resolve?
    requires NoRepeats(p.queue.available) && p.flights[e.th].id !in p.queue.available
    ensures var s := ShiftOf(p, e); Shifts(p, Next(p, e), s.id, s.from, s.to)
  {
    hide NoRepeats;
  }

  lemma DiscardedShifts(p: Pool, e: Event)
    requires Enabled(p, e) && e.Discard?
    requires NoRepeats(p.queue.available) && p.flights[e.th].id !in p.queue.available
    ensures var s := ShiftOf(p, e); Shifts(p, Next(p, e), s.id, s.from, s.to)
  {
    hide NoRepeats;
  }

  lemma NewShifts(p: Pool, e: Event)
    requires Enabled(p, e) && (e.DecideUnpooled? || e.Created? || e.Release?)
    requires NoRepeats(p.queue.available) && e.id !in p.queue.available
    ensures var s := ShiftOf(p, e); Shifts(p, Next(p, e), s.id, s.from, s.to)
  {
  }

  lemma EventShifts(p: Pool, e: Event)
    requires Placed(p) && Enabled(p, e) && ShiftOf(p, e).Moves?
    ensures var s := ShiftOf(p, e); Shifts(p, Next(p, e), s.id, s.from, s.to)
    ensures var s := ShiftOf(p, e); if s.id in p.place then s.from == p.place[s.id] else s.from.Gone?
  {
    hide Says, Shifts, Next;
    var s := ShiftOf(p, e);
    if s.from.Local? {
      WhereLocal(p, s.from.thread);
      LocalShifts(p, e);
    } else if s.from.InFlight? {
      WhereInHand(p, s.from.thread);
      if e.Shelve? {
        ShelvedShifts(p, e);
      } else if e.PutCleared? {
        ClearedShifts(p, e);
      } else if e.KeepLocal? {
        KeptShifts(p, e);
      } else if e.Resolve? {
        ResolvedShifts(p, e);
      } else {
        DiscardedShifts(p, e);
      }
    } else {
      if s.from.Handed? {
        WhereHanded(p, s.id);
      } else {
        WhereUnknown(p, s.id);
      }
      NewShifts(p, e);
    }
  }

  /** The events that run a section over the whole queue. */
  predicate OnQueue(e: Event) {
    e.Section? || e.SetMax? || e.ReapRound? || e.Shutdown?
  }

  lemma StayingEvents(p: Pool, e: Event)
    requires Placed(p) && Enabled(p, e) && ShiftOf(p, e).Stays? && !OnQueue(e)
    ensures Placed(Next(p, e))
  {
    hide Placed, Says;
    SamePlaces(p, Next(p, e));
  }

  lemma MovingEvents(p: Pool, e: Event)
    requires Placed(p) && Enabled(p, e) && ShiftOf(p, e).Moves?
    ensures Placed(Next(p, e))
  {
    hide Placed, Says, Shifts, Next;
    var s := ShiftOf(p, e);
    EventShifts(p, e);
    ShiftPlaced(p, Next(p, e), s.id, s.from, s.to);
  }

  lemma {:induction false} EvictSubset(q: Queue)
    ensures forall id :: id in Evict(q).available ==> id in q.available
    ensures NoRepeats(q.available) ==> NoRepeats(Evict(q).available)
  {
    assert forall k :: 0 <= k < |Evict(q).available| ==> Evict(q).available[k] == q.available[k];
  }

  lemma SectionPlaced(p: Pool, th: nat, overdue: set<nat>)
    requires Placed(p) && Enabled(p, Section(th, overdue)) && |p.queue.available| <= p.queue.total
    ensures Placed(Next(p, Section(th, overdue)))
  {
    hide Placed, Says;
    TakeIdleExact(p.queue, overdue);
    TakenPart(p, overdue);
    var (queue, taken) := TakeIdle(p.queue, overdue);
    var n := Next(p, Section(th, overdue));
    if taken.None? {
      var m := Requeue(p, queue, None);
      RequeuePlaced(p, queue);
      SamePlaces(m, n);
    } else {
      var whole := queue.(available := [taken.value] + queue.available);
      var m := Requeue(p, whole, None);
      RequeuePlaced(p, whole);
      SectionShifts(p, th, overdue);
      ShiftPlaced(m, n, taken.value, Idle, InFlight(th));
    }
  }

  /** What is left of the queue, with the connection taken out put back in front, is part of what was there. */
  lemma TakenPart(p: Pool, overdue: set<nat>)
    requires Placed(p) && |p.queue.available| <= p.queue.total
    ensures var (queue, taken) := TakeIdle(p.queue, overdue);
      NoRepeats(queue.available) && (forall id :: id in queue.available ==> id in p.queue.available) &&
      (taken.Some? ==>
        taken.value in p.queue.available && taken.value in p.place && p.place[taken.value] == Idle &&
        taken.value !in queue.available && NoRepeats([taken.value] + queue.available))
  {
    hide Says;
    TakeIdleExact(p.queue, overdue);
    var (queue, taken) := TakeIdle(p.queue, overdue);
    var n := Lead(p.queue.available, overdue);
    if taken.Some? {
      assert [taken.value] + queue.available == p.queue.available[n..];
      assert Says(p, taken.value, Idle) by { SaysIdle(p, taken.value); }
    }
  }

  lemma SaysIdle(p: Pool, id: nat)
    ensures Says(p, id, Idle) <==> id in p.queue.available
  {
  }

  lemma SectionShifts(p: Pool, th: nat, overdue: set<nat>)
    requires Placed(p) && Enabled(p, Section(th, overdue)) && |p.queue.available| <= p.queue.total
    requires TakeIdle(p.queue, overdue).1.Some?
    ensures var (queue, taken) := TakeIdle(p.queue, overdue);
      var whole := queue.(available := [taken.value] + queue.available);
      Shifts(Requeue(p, whole, None), Next(p, Section(th, overdue)), taken.value, Idle, InFlight(th))
  {
    hide Says, TakeIdle;
    TakenPart(p, overdue);
    var (queue, taken) := TakeIdle(p.queue, overdue);
    var whole := queue.(available := [taken.value] + queue.available);
    var m, n := Requeue(p, whole, None), Next(p, Section(th, overdue));
    assert forall i :: i in whole.available <==> i == taken.value || i in queue.available;
    assert n.place == m.place[taken.value := InFlight(th)];
  }

  lemma QueueEvents(p: Pool, e: Event)
    requires Placed(p) && Enabled(p, e) && OnQueue(e) && |p.queue.available| <= p.queue.total
    ensures Placed(Next(p, e))
  {
    hide Says;
    match e
    case Section(th, overdue) => SectionPlaced(p, th, overdue);
    case SetMax(max) =>
      EvictSubset(p.queue.(max := max));
      RequeuePlaced(p, Evict(p.queue.(max := max)));
    case ReapRound(overdue) =>
      UnexpiredExact(p.queue.available, overdue);
      ReapExact(p.queue, overdue);
      RequeuePlaced(p, Reap(p.queue, overdue));
    case Shutdown =>
      SamePlaces(p, p.(cleared := p.cleared + Dropped(p.queue)));
      RequeuePlaced(p.(cleared := p.cleared + Dropped(p.queue)), Shut(p.queue));
  }

  lemma PlacesKept(p: Pool, e: Event)
    requires Placed(p) && Enabled(p, e) && |p.queue.available| <= p.queue.total
    ensures Placed(Next(p, e))
  {
    hide Placed, Next, Enabled;
    if OnQueue(e) {
      QueueEvents(p, e);
    } else if ShiftOf(p, e).Moves? {
      MovingEvents(p, e);
    } else {
      StayingEvents(p, e);
    }
  }
}
