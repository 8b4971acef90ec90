/** Retire, don't free: every interleaving of transactions, lookups and cache clears, at the granularity of the locks
    (src/storage/clickhouse_transaction.cpp, src/storage/clickhouse_catalog_set.cpp). */
module Reclamation {
  import opened Transactions

  /** Schemas and tables are numbered as they are created; a table is owned by its schema and freed with it.
      `limbo` holds what a ClearEntries has taken out of the cache but not yet handed to the manager; `held` and
      `heldTables` what each active transaction may hold pointers to. `passed` counts the lookups that have returned
      from TryLoadEntries and not yet taken entry_lock. `released` was freed by the manager, `dropped` by a load that
      failed. */
  datatype World = World(
    manager: Manager,
    cached: set<nat>,
    loading: bool,
    loaded: bool,
    limbo: map<nat, seq<nat>>,
    created: set<nat>,
    owner: map<nat, nat>,
    passed: multiset<nat>,
    held: map<nat, set<nat>>,
    heldTables: map<nat, set<nat>>,
    released: set<nat>,
    dropped: set<nat>)

  const START := World(FRESH_MANAGER, {}, false, false, map[], {}, map[], multiset{}, map[], map[], {}, {})

  datatype Event =
    | StartTransaction
    | BeginLoad                               // TryLoadEntries takes load_lock and finds nothing loaded
    | LoadEntry(schema: nat)                  // CreateEntry, under entry_lock
    | FinishLoad
    | FailLoad                                // a throw out of LoadEntries, perhaps between two CreateEntry calls
    | Pass(t: nat)                            // a lookup's TryLoadEntries returns: load_lock was free, and all loaded
    | Lookup(t: nat, schema: nat)             // the rest of GetEntry or Scan, under entry_lock alone
    | LookupNothing(t: nat)
    | LoadTable(t: nat, schema: nat, table: nat)
    | LookupTable(t: nat, table: nat)         // through a schema the transaction holds, retired or not
    | Clear(clear: nat, order: seq<nat>)      // ClearEntries up to the release of its locks
    | Stamp(clear: nat)                       // RetireEntries
    | EndTransaction(t: nat, oldest: nat)

  function Elements(entries: seq<nat>): set<nat> {
    set e | e in entries
  }

  function BatchEntries(batches: seq<RetiredBatch>): set<nat> {
    set b, e | b in batches && e in b.entries :: e
  }

  ghost predicate Enabled(w: World, e: Event) {
    match e
    case StartTransaction => true
    case BeginLoad => !w.loading && !w.loaded
    case LoadEntry(schema) => w.loading && schema !in w.created
    case FinishLoad => w.loading
    case FailLoad => w.loading
    case Pass(t) => t in w.manager.active && !w.loading && w.loaded
    case Lookup(t, schema) => t in w.manager.active && t in w.passed && schema in w.cached
    case LookupNothing(t) => t in w.passed
    case LoadTable(t, schema, table) =>
      t in w.manager.active && t in w.held && schema in w.held[t] && table !in w.owner
    case LookupTable(t, table) =>
      t in w.manager.active && t in w.held && table in w.owner && w.owner[table] in w.held[t]
    case Clear(clear, order) => !w.loading && clear !in w.limbo && Elements(order) == w.cached
    case Stamp(clear) => clear in w.limbo
    case EndTransaction(t, oldest) =>
      t in w.manager.active && IsOldest(oldest, w.manager.active - {t}, w.manager.nextId)
  }

  function Hold(held: map<nat, set<nat>>, t: nat, entry: nat): map<nat, set<nat>> {
    held[t := (if t in held then held[t] else {}) + {entry}]
  }

  function Next(w: World, e: Event): World {
    match e
    case StartTransaction =>
      var t := w.manager.nextId;
      w.(manager := Start(w.manager), held := w.held[t := {}], heldTables := w.heldTables[t := {}])
    case BeginLoad => w.(loading := true)
    case LoadEntry(schema) => w.(cached := w.cached + {schema}, created := w.created + {schema})
    case FinishLoad => w.(loading := false, loaded := true)
    case FailLoad => w.(loading := false, cached := {}, dropped := w.dropped + w.cached)
    case Pass(t) => w.(passed := w.passed + multiset{t})
    case Lookup(t, schema) => w.(held := Hold(w.held, t, schema), passed := w.passed - multiset{t})
    case LookupNothing(t) => w.(passed := w.passed - multiset{t})
    case LoadTable(t, schema, table) => w.(owner := w.owner[table := schema])
    case LookupTable(t, table) => w.(heldTables := Hold(w.heldTables, t, table))
    case Clear(clear, order) => w.(cached := {}, loaded := false, limbo := w.limbo[clear := order])
    case Stamp(clear) =>
      if clear in w.limbo
      then w.(manager := Retire(w.manager, w.limbo[clear]), limbo := w.limbo - {clear}) else w
    case EndTransaction(t, oldest) =>
      w.(manager := End(w.manager, t, oldest), passed := w.passed[t := 0], held := w.held - {t},
         heldTables := w.heldTables - {t}, released := w.released + BatchEntries(Released(w.manager, oldest)))
  }

  /** `last` is the world after the events, each enabled in its turn. */
  ghost predicate Run(events: seq<Event>, last: World) {
    if events == [] then last == START
    else
      var before := events[..|events| - 1];
      exists w :: Run(before, w) && Enabled(w, events[|events| - 1]) && last == Next(w, events[|events| - 1])
  }

  // ---------------------------------------------------------------- what every step keeps

  /** An entry in the cache is nowhere else, so a lookup cannot find one that is on its way out. */
  ghost predicate CacheApart(w: World) {
    (forall s :: s in w.cached ==> s in w.created && s !in w.released && s !in w.dropped) &&
    (forall s, c :: s in w.cached && c in w.limbo ==> s !in w.limbo[c]) &&
    (forall s, k :: s in w.cached && 0 <= k < |w.manager.retired| ==> s !in w.manager.retired[k].entries)
  }

  ghost predicate AllCreated(w: World) {
    (forall s :: s in w.released || s in w.dropped ==> s in w.created) &&
    (forall c, s :: c in w.limbo && s in w.limbo[c] ==> s in w.created) &&
    (forall k, s :: 0 <= k < |w.manager.retired| && s in w.manager.retired[k].entries ==> s in w.created)
  }

  /** A retired entry an active transaction holds carries a stamp past that transaction's id. */
  ghost predicate HoldersKnown(w: World) {
    (forall t :: t in w.held ==> t in w.manager.active) &&
    (forall t, s, k ::
      t in w.held && s in w.held[t] && 0 <= k < |w.manager.retired| && s in w.manager.retired[k].entries ==>
        t < w.manager.retired[k].stamp)
  }

  /** No entry the manager has released is held by an active transaction. */
  ghost predicate NoneReleased(w: World) {
    forall t, s :: t in w.held && s in w.held[t] ==> s !in w.released
  }

  /** A transaction holds the schema of every table it holds. */
  ghost predicate TablesThroughSchemas(w: World) {
    forall t, x {:trigger x in w.heldTables[t]} :: t in w.heldTables && x in w.heldTables[t] ==>
      t in w.held && x in w.owner && w.owner[x] in w.held[t]
  }

  ghost predicate Invariant(w: World) {
    Valid(w.manager) && CacheApart(w) && AllCreated(w) && HoldersKnown(w) && NoneReleased(w) && TablesThroughSchemas(w)
  }

  lemma StampKeeps(w: World, clear: nat)
    requires Invariant(w) && clear in w.limbo
    ensures Invariant(Next(w, Stamp(clear)))
  {
    StartAndRetireValid(w.manager, w.limbo[clear]);
    var n := Next(w, Stamp(clear));
    if w.limbo[clear] != [] {
      assert n.manager.retired == w.manager.retired + [RetiredBatch(w.manager.nextId, w.limbo[clear])];
      assert forall k :: 0 <= k < |n.manager.retired| ==>
        (if k < |w.manager.retired| then n.manager.retired[k] == w.manager.retired[k]
         else n.manager.retired[k] == RetiredBatch(w.manager.nextId, w.limbo[clear]));
    }
    assert forall c :: c in n.limbo ==> c in w.limbo && n.limbo[c] == w.limbo[c];
  }

  lemma InReleased(m: Manager, oldest: nat, s: nat)
    ensures s in BatchEntries(Released(m, oldest)) <==>
      exists k :: 0 <= k < ReleaseCount(m.retired, oldest) && s in m.retired[k].entries
  {
    var count := ReleaseCount(m.retired, oldest);
    if s in BatchEntries(Released(m, oldest)) {
      var b :| b in Released(m, oldest) && s in b.entries;
      var k :| 0 <= k < count && m.retired[..count][k] == b;
      assert s in m.retired[k].entries;
    }
    if k :| 0 <= k < count && s in m.retired[k].entries {
      assert m.retired[k] in Released(m, oldest);
    }
  }

  /** A held entry is in no batch that is released: its stamp would be past the oldest active id. */
  lemma EndReleasesNoneHeld(w: World, t: nat, oldest: nat)
    requires HoldersKnown(w) && NoneReleased(w) && Valid(w.manager) && Enabled(w, EndTransaction(t, oldest))
    ensures NoneReleased(Next(w, EndTransaction(t, oldest)))
  {
    hide BatchEntries;
    ReleaseCountExact(w.manager.retired, oldest);
    var n := Next(w, EndTransaction(t, oldest));
    forall u, s | u in n.held && s in n.held[u] ensures s !in n.released {
      assert u in w.held && s in w.held[u] && u in w.manager.active - {t};
      InReleased(w.manager, oldest, s);
    }
  }

  lemma EndKeepsApart(w: World, t: nat, oldest: nat)
    requires CacheApart(w) && AllCreated(w) && HoldersKnown(w)
    requires Enabled(w, EndTransaction(t, oldest))
    ensures CacheApart(Next(w, EndTransaction(t, oldest))) && AllCreated(Next(w, EndTransaction(t, oldest)))
    ensures HoldersKnown(Next(w, EndTransaction(t, oldest)))
  {
    hide BatchEntries, ReleaseCount;
    var n := Next(w, EndTransaction(t, oldest));
    var count := ReleaseCount(w.manager.retired, oldest);
    assert forall k :: 0 <= k < |n.manager.retired| ==> n.manager.retired[k] == w.manager.retired[count + k];
    forall s
      ensures s in n.released ==>
        s in w.released || exists k :: 0 <= k < count && s in w.manager.retired[k].entries
    {
      InReleased(w.manager, oldest, s);
    }
  }

  lemma TablesKept(w: World, e: Event)
    requires Invariant(w) && Enabled(w, e)
    ensures TablesThroughSchemas(Next(w, e))
  {
    hide ReleaseCount, BatchEntries, Needed, Valid, AllCreated, CacheApart, NoneReleased, IsOldest;
    var n := Next(w, e);
    forall t, x | t in n.heldTables && x in n.heldTables[t]
      ensures t in n.held && x in n.owner && n.owner[x] in n.held[t]
    {
      if t in w.heldTables && x in w.heldTables[t] {
        assert t in w.held && x in w.owner && w.owner[x] in w.held[t];
      }
    }
  }

  lemma EndKeeps(w: World, t: nat, oldest: nat)
    requires Invariant(w) && Enabled(w, EndTransaction(t, oldest))
    ensures Invariant(Next(w, EndTransaction(t, oldest)))
  {
    hide BatchEntries, ReleaseCount, CacheApart, AllCreated, HoldersKnown, NoneReleased, Valid, Needed;
    EndExact(w.manager, t, oldest);
    EndReleasesNoneHeld(w, t, oldest);
    EndKeepsApart(w, t, oldest);
    var n := Next(w, EndTransaction(t, oldest));
    assert Valid(n.manager);
    assert CacheApart(n) && AllCreated(n) && HoldersKnown(n);
    assert NoneReleased(n);
    TablesKept(w, EndTransaction(t, oldest));
  }

  lemma CacheStepKeeps(w: World, e: Event)
    requires Invariant(w) && Enabled(w, e)
    requires e.StartTransaction? || e.BeginLoad? || e.LoadEntry? || e.FinishLoad? || e.FailLoad? || e.Clear? ||
             e.Pass? || e.LookupNothing?
    ensures Invariant(Next(w, e))
  {
    hide ReleaseCount, BatchEntries, Needed;
    var n := Next(w, e);
    if e.Clear? {
      assert forall s :: s in e.order ==> s in Elements(e.order);
    }
    assert Valid(n.manager);
    assert AllCreated(n);
    assert CacheApart(n);
    assert HoldersKnown(n);
    assert NoneReleased(n);
    TablesKept(w, e);
  }

  lemma LookupKeeps(w: World, e: Event)
    requires Invariant(w) && Enabled(w, e)
    requires e.Lookup? || e.LoadTable? || e.LookupTable?
    ensures Invariant(Next(w, e))
  {
    hide ReleaseCount, BatchEntries, Needed, Valid;
    var n := Next(w, e);
    assert Valid(n.manager);
    assert AllCreated(n);
    assert CacheApart(n);
    assert HoldersKnown(n);
    assert NoneReleased(n);
    TablesKept(w, e);
  }

  lemma NextKeeps(w: World, e: Event)
    requires Invariant(w) && Enabled(w, e)
    ensures Invariant(Next(w, e))
  {
    hide Invariant, Next;
    match e
    case Stamp(clear) => StampKeeps(w, clear);
    case EndTransaction(t, oldest) => EndKeeps(w, t, oldest);
    case Lookup(_, _) => LookupKeeps(w, e);
    case LoadTable(_, _, _) => LookupKeeps(w, e);
    case LookupTable(_, _) => LookupKeeps(w, e);
    case _ => CacheStepKeeps(w, e);
  }

  lemma {:induction false} RunKeeps(events: seq<Event>, last: World)
    requires Run(events, last)
    ensures Invariant(last)
  {
    hide Invariant, Enabled, Next;
    if events == [] {
      StartHolds();
    } else {
      var before := events[..|events| - 1];
      var w :| Run(before, w) && Enabled(w, events[|events| - 1]) && last == Next(w, events[|events| - 1]);
      RunKeeps(before, w);
      NextKeeps(w, events[|events| - 1]);
    }
  }

  lemma StartHolds()
    ensures Invariant(START)
  {
  }

  /** Over every interleaving: no schema the manager has released, and no table owned by one, is held by an active
      transaction, through whichever schema it was looked up. */
  lemma NothingHeldIsReleased(events: seq<Event>, last: World)
    requires Run(events, last)
    ensures forall t, s :: t in last.held && s in last.held[t] ==> s !in last.released
    ensures forall t, x :: t in last.heldTables && x in last.heldTables[t] ==>
      x in last.owner && last.owner[x] !in last.released
  {
    hide Run, Valid, CacheApart, AllCreated, HoldersKnown;
    RunKeeps(events, last);
  }

  // ---------------------------------------------------------------- loads that fail

  /** A run in which no lookup happens while a load is still filling the cache. */
  ghost predicate GuardedRun(events: seq<Event>, last: World) {
    if events == [] then last == START
    else
      var before, e := events[..|events| - 1], events[|events| - 1];
      exists w :: GuardedRun(before, w) && Enabled(w, e) && (e.Lookup? ==> !w.loading) && last == Next(w, e)
  }

  ghost predicate NoneDropped(w: World) {
    forall t, s :: t in w.held && s in w.held[t] ==> s !in w.dropped
  }

  /** What is being loaded is nobody's yet, and between loads an empty cache. */
  ghost predicate LoadingUnseen(w: World) {
    (w.loading ==> !w.loaded && forall t, s :: t in w.held && s in w.held[t] ==> s !in w.cached) &&
    (!w.loading && !w.loaded ==> w.cached == {}) &&
    (forall t, s :: t in w.held && s in w.held[t] ==> s in w.created)
  }

  lemma GuardedStep(w: World, e: Event)
    requires Invariant(w) && NoneDropped(w) && LoadingUnseen(w)
    requires Enabled(w, e) && (e.Lookup? ==> !w.loading)
    ensures NoneDropped(Next(w, e)) && LoadingUnseen(Next(w, e))
  {
    hide Valid, HoldersKnown, NoneReleased, TablesThroughSchemas, BatchEntries, ReleaseCount, IsOldest;
  }

  lemma {:induction false} GuardedKeeps(events: seq<Event>, last: World)
    requires GuardedRun(events, last)
    ensures Invariant(last) && NoneDropped(last) && LoadingUnseen(last)
  {
    hide Invariant, Enabled, Next, NoneDropped, LoadingUnseen;
    if events == [] {
      StartHolds();
      StartUnseen();
    } else {
      var before, e := events[..|events| - 1], events[|events| - 1];
      var w :| GuardedRun(before, w) && Enabled(w, e) && (e.Lookup? ==> !w.loading) && last == Next(w, e);
      GuardedKeeps(before, w);
      NextKeeps(w, e);
      GuardedStep(w, e);
    }
  }

  lemma StartUnseen()
    ensures NoneDropped(START) && LoadingUnseen(START)
  {
  }

  /** A failed load frees the entries it had created. As long as no lookup runs beside a load, none of them is held. */
  lemma FailedLoadsFreeNothingHeld(events: seq<Event>, last: World)
    requires GuardedRun(events, last)
    ensures NoneDropped(last)
  {
    hide GuardedRun, Invariant, LoadingUnseen;
    GuardedKeeps(events, last);
  }

  /** Without a cache clear there is no such lookup: one that has passed TryLoadEntries finds the cache loaded for
      good. */
  lemma {:induction false} WithoutClears(events: seq<Event>, last: World)
    requires Run(events, last) && forall k :: 0 <= k < |events| ==> !events[k].Clear?
    ensures GuardedRun(events, last) && (last.passed != multiset{} ==> last.loaded) && !(last.loaded && last.loading)
  {
    if events != [] {
      var before, e := events[..|events| - 1], events[|events| - 1];
      var w :| Run(before, w) && Enabled(w, e) && last == Next(w, e);
      WithoutClears(before, w);
      assert GuardedRun(before, w) && Enabled(w, e) && (e.Lookup? ==> !w.loading) && last == Next(w, e);
    }
  }

  /** Otherwise it may be freed: after any lookup beside a load, the load's failure frees a held entry. */
  lemma LookupBesideLoad(events: seq<Event>, w: World, t: nat, schema: nat)
    requires Run(events, w) && w.loading && Enabled(w, Lookup(t, schema))
    ensures var last := Next(Next(w, Lookup(t, schema)), FailLoad);
      Run(events + [Lookup(t, schema), FailLoad], last) && !NoneDropped(last)
  {
    hide Run;
    var found := Next(w, Lookup(t, schema));
    var last := Next(found, FailLoad);
    RunSnoc(events, w, Lookup(t, schema));
    RunSnoc(events + [Lookup(t, schema)], found, FailLoad);
    assert events + [Lookup(t, schema)] + [FailLoad] == events + [Lookup(t, schema), FailLoad];
    assert t in last.held && schema in last.held[t] && schema in last.dropped;
  }

  lemma RunSnoc(events: seq<Event>, w: World, e: Event)
    requires Run(events, w) && Enabled(w, e)
    ensures Run(events + [e], Next(w, e))
  {
    hide Enabled, Next;
    assert (events + [e])[..|events|] == events;
  }

  /** Such a lookup is possible: it has passed TryLoadEntries when the cache is cleared, and takes entry_lock when the
      next load has created its first entry. */
  lemma LookupBesideLoadHappens()
    ensures exists events, w :: Run(events, w) && w.loading && Enabled(w, Lookup(1, 8))
  {
    hide Run;
    var events, w3 := AfterClear();
    var w4 := Next(w3, BeginLoad);
    RunSnoc(events, w3, BeginLoad);
    var w5 := Next(w4, LoadEntry(8));
    RunSnoc(events + [BeginLoad], w4, LoadEntry(8));
    assert w5.loading && Enabled(w5, Lookup(1, 8));
  }

  lemma AfterClear() returns (events: seq<Event>, w: World)
    ensures events == [StartTransaction, BeginLoad, LoadEntry(7), FinishLoad, Pass(1), Clear(0, [7]), Stamp(0)]
    ensures Run(events, w) && !w.loaded && !w.loading && w.created == {7} && 1 in w.manager.active && 1 in w.passed
  {
    hide Run;
    var first := [StartTransaction, BeginLoad, LoadEntry(7), FinishLoad];
    var loaded := AfterLoad();
    var w1 := Next(loaded, Pass(1));
    RunSnoc(first, loaded, Pass(1));
    assert Elements([7]) == {7};
    var w2 := Next(w1, Clear(0, [7]));
    RunSnoc(first + [Pass(1)], w1, Clear(0, [7]));
    w := Next(w2, Stamp(0));
    RunSnoc(first + [Pass(1)] + [Clear(0, [7])], w2, Stamp(0));
    events := first + [Pass(1)] + [Clear(0, [7])] + [Stamp(0)];
  }

  lemma AfterLoad() returns (w: World)
    ensures Run([StartTransaction, BeginLoad, LoadEntry(7), FinishLoad], w)
    ensures 1 in w.manager.active && w.loaded && !w.loading && w.cached == {7} && w.created == {7}
    ensures w.limbo == map[] && w.passed == multiset{}
  {
    var w1 := Next(START, StartTransaction);
    var w2 := Next(w1, BeginLoad);
    var w3 := Next(w2, LoadEntry(7));
    w := Next(w3, FinishLoad);
    assert Run([], START);
    hide Run;
    RunSnoc([], START, StartTransaction);
    RunSnoc([] + [StartTransaction], w1, BeginLoad);
    RunSnoc([] + [StartTransaction] + [BeginLoad], w2, LoadEntry(7));
    RunSnoc([] + [StartTransaction] + [BeginLoad] + [LoadEntry(7)], w3, FinishLoad);
    assert [] + [StartTransaction] + [BeginLoad] + [LoadEntry(7)] + [FinishLoad] ==
           [StartTransaction, BeginLoad, LoadEntry(7), FinishLoad];
  }

  // ---------------------------------------------------------------- nothing is kept too long

  /** After any EndTransaction of any run, a batch is still retired exactly if a transaction that may hold one of its
      entries is active; with no transaction left, none is. */
  lemma KeptWhileNeeded(events: seq<Event>, w: World, t: nat, oldest: nat)
    requires Run(events, w) && Enabled(w, EndTransaction(t, oldest))
    ensures var n := Next(w, EndTransaction(t, oldest));
      (forall b :: b in w.manager.retired ==> (b in n.manager.retired <==> Needed(b, n.manager.active))) &&
      (n.manager.active == {} ==> n.manager.retired == [])
  {
    hide Run, CacheApart, AllCreated, HoldersKnown, NoneReleased, TablesThroughSchemas, Needed, ReleaseCount,
      BatchEntries;
    RunKeeps(events, w);
    EndExact(w.manager, t, oldest);
    var n := Next(w, EndTransaction(t, oldest));
    forall b | b in w.manager.retired ensures b in n.manager.retired <==> Needed(b, n.manager.active) {
      assert b in Released(w.manager, oldest) + n.manager.retired;
    }
    if n.manager.active == {} {
      EndOfLast(w.manager, t, oldest);
    }
  }
}
