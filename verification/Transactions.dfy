/** The transaction manager of one attached database, and the catalog entries it has retired
    (src/storage/clickhouse_transaction.cpp). */
module Transactions {

  datatype RetiredBatch = RetiredBatch(stamp: nat, entries: seq<nat>)

  /** Everything transaction_lock guards. */
  datatype Manager = Manager(nextId: nat, active: set<nat>, retired: seq<RetiredBatch>)

  const FRESH_MANAGER := Manager(1, {}, [])

  /** Stamps never decrease and none exceeds the next id; active ids were all handed out. */
  ghost predicate Valid(m: Manager) {
    (forall t :: t in m.active ==> t < m.nextId) &&
    (forall k :: 0 <= k < |m.retired| ==> m.retired[k].stamp <= m.nextId) &&
    (forall j, k :: 0 <= j < k < |m.retired| ==> m.retired[j].stamp <= m.retired[k].stamp)
  }

  function Start(m: Manager): Manager {
    m.(nextId := m.nextId + 1, active := m.active + {m.nextId})
  }

  function Retire(m: Manager, entries: seq<nat>): Manager {
    if entries == [] then m else m.(retired := m.retired + [RetiredBatch(m.nextId, entries)])
  }

  /** An active transaction may still hold an entry of the batch. */
  ghost predicate Needed(batch: RetiredBatch, active: set<nat>) {
    exists t :: t in active && t < batch.stamp
  }

  /** The least of `bound` and the active ids. */
  ghost predicate IsOldest(oldest: nat, active: set<nat>, bound: nat) {
    (oldest == bound || oldest in active) && oldest <= bound && forall t :: t in active ==> oldest <= t
  }

  /** How many batches from the front have a stamp of at most `oldest`, up to the first that does not. */
  function ReleaseCount(retired: seq<RetiredBatch>, oldest: nat): (n: nat)
    ensures n <= |retired|
  {
    if retired == [] || retired[0].stamp > oldest then 0 else 1 + ReleaseCount(retired[1..], oldest)
  }

  /** The manager after `t` has ended, with `oldest` the oldest transaction left. */
  function End(m: Manager, t: nat, oldest: nat): Manager {
    m.(active := m.active - {t}, retired := m.retired[ReleaseCount(m.retired, oldest)..])
  }

  function Released(m: Manager, oldest: nat): seq<RetiredBatch> {
    m.retired[..ReleaseCount(m.retired, oldest)]
  }

  lemma {:induction false} ReleaseCountExact(retired: seq<RetiredBatch>, oldest: nat)
    requires forall j, k :: 0 <= j < k < |retired| ==> retired[j].stamp <= retired[k].stamp
    ensures forall k :: 0 <= k < |retired| ==> (k < ReleaseCount(retired, oldest) <==> retired[k].stamp <= oldest)
  {
    if retired != [] && retired[0].stamp <= oldest {
      ReleaseCountExact(retired[1..], oldest);
      assert forall k :: 1 <= k < |retired| ==> retired[k] == retired[1..][k - 1];
    }
  }

  /** After a transaction ends, a batch remains exactly when some active transaction has an id below its stamp: the
      prefix holds every batch that can go. */
  lemma EndExact(m: Manager, t: nat, oldest: nat)
    requires Valid(m) && IsOldest(oldest, m.active - {t}, m.nextId)
    ensures Valid(End(m, t, oldest)) && Released(m, oldest) + End(m, t, oldest).retired == m.retired
    ensures forall b :: b in End(m, t, oldest).retired ==> Needed(b, m.active - {t})
    ensures forall b :: b in Released(m, oldest) ==> !Needed(b, m.active - {t})
  {
    ReleaseCountExact(m.retired, oldest);
    var n := ReleaseCount(m.retired, oldest);
    forall b | b in m.retired[n..] ensures Needed(b, m.active - {t}) {
      var k :| 0 <= k < |m.retired[n..]| && m.retired[n..][k] == b;
      assert b == m.retired[n + k] && oldest < b.stamp;
    }
  }

  /** With no transaction left, nothing stays retired. */
  lemma EndOfLast(m: Manager, t: nat, oldest: nat)
    requires Valid(m) && IsOldest(oldest, m.active - {t}, m.nextId) && m.active <= {t}
    ensures End(m, t, oldest).retired == []
  {
    var left := End(m, t, oldest).retired;
    if left != [] {
      var b := left[0];
      assert b in left;
      EndExact(m, t, oldest);
    }
  }

  lemma StartAndRetireValid(m: Manager, entries: seq<nat>)
    requires Valid(m)
    ensures Valid(Start(m)) && Valid(Retire(m, entries))
  {
  }

  class TransactionManager {
    var nextTransactionId: nat
    var transactions: set<nat>
    var retired: seq<RetiredBatch>

    ghost function State(): Manager
      reads this
    {
      Manager(nextTransactionId, transactions, retired)
    }

    constructor ()
      ensures State() == FRESH_MANAGER
    {
      nextTransactionId := 1;
      transactions := {};
      retired := [];
    }

    method StartTransaction() returns (id: nat)
      modifies this
      ensures State() == Start(old(State())) && id == old(nextTransactionId)
    {
      id := nextTransactionId;
      nextTransactionId := nextTransactionId + 1;
      transactions := transactions + {id};
    }

    method RetireEntries(entries: seq<nat>)
      modifies this
      ensures State() == Retire(old(State()), entries)
    {
      if entries == [] {
        return;
      }
      retired := retired + [RetiredBatch(nextTransactionId, entries)];
    }

    /** The loop over the active transactions. */
    method OldestActive() returns (oldest: nat)
      ensures IsOldest(oldest, transactions, nextTransactionId)
    {
      oldest := nextTransactionId;
      var left := transactions;
      while left != {}
        invariant left <= transactions
        invariant IsOldest(oldest, transactions - left, nextTransactionId)
        decreases |left|
      {
        var t :| t in left;
        if t < oldest {
          oldest := t;
        }
        assert transactions - (left - {t}) == (transactions - left) + {t};
        left := left - {t};
      }
      assert transactions - left == transactions;
    }

    method EndTransaction(t: nat) returns (oldest: nat, released: seq<RetiredBatch>)
      modifies this
      ensures IsOldest(oldest, old(transactions) - {t}, nextTransactionId)
      ensures State() == End(old(State()), t, oldest) && released == Released(old(State()), oldest)
    {
      transactions := transactions - {t};
      oldest := OldestActive();
      var count := 0;
      assert retired[0..] == retired;
      while count < |retired| && retired[count].stamp <= oldest
        invariant count <= |retired|
        invariant ReleaseCount(retired, oldest) == count + ReleaseCount(retired[count..], oldest)
      {
        assert retired[count..][1..] == retired[count + 1..];
        count := count + 1;
      }
      released := [];
      if count == 0 {
        return;
      }
      for i := 0 to count
        invariant released == retired[..i]
      {
        released := released + [retired[i]];
      }
      retired := retired[count..];
    }
  }
}
