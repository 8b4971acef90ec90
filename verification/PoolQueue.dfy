/** What pool_lock guards, and the critical sections over it
    (database-connector/src/include/dbconnector/pool/connection_pool_impl.hpp). */
module PoolQueue {
  import opened Options

  /** The shared queue of idle connections, oldest first, and the two counts. */
  datatype Queue = Queue(available: seq<nat>, total: nat, max: nat, shutdown: bool)

  /** DecrementTotalConnections, with its guard. */
  function Decrement(q: Queue): Queue {
    if q.total > 0 then q.(total := q.total - 1) else q
  }

  predicate OverLimit(q: Queue) {
    q.total > q.max
  }

  // ---------------------------------------------------------------- SetMaxConnections

  function Evict(q: Queue): (r: Queue)
    ensures r.max == q.max && r.shutdown == q.shutdown && r.available <= q.available
    decreases |q.available|
  {
    if q.available == [] || !OverLimit(q) then q
    else Evict(Decrement(q.(available := q.available[..|q.available| - 1])))
  }

  /** Eviction drops the most recently returned connections: as many as are over the limit, or all there are. */
  lemma {:induction false} EvictExact(q: Queue)
    requires |q.available| <= q.total
    ensures var n := if !OverLimit(q) then 0
                     else if q.total - q.max <= |q.available| then q.total - q.max else |q.available|;
      Evict(q) == q.(available := q.available[..|q.available| - n], total := q.total - n)
    decreases |q.available|
  {
    if q.available == [] || !OverLimit(q) {
      assert q.available[..|q.available|] == q.available;
    } else {
      var smaller := Decrement(q.(available := q.available[..|q.available| - 1]));
      EvictExact(smaller);
      var n := if q.total - q.max <= |q.available| then q.total - q.max else |q.available|;
      assert q.available[..|q.available| - 1][..|q.available| - n] == q.available[..|q.available| - n];
    }
  }

  // ---------------------------------------------------------------- the reaper

  function Reap(q: Queue, expired: set<nat>): (r: Queue)
    ensures r.max == q.max && r.shutdown == q.shutdown
    decreases |q.available|
  {
    if q.available == [] then q
    else
      var first := q.available[0];
      var rest := Reap((if first in expired then Decrement(q) else q).(available := q.available[1..]), expired);
      if first in expired then rest else rest.(available := [first] + rest.available)
  }

  /** The queue with ids ahead of those it holds. */
  function Below(before: seq<nat>, q: Queue): Queue {
    q.(available := before + q.available)
  }

  lemma ReapFirst(before: seq<nat>, q: Queue, expired: set<nat>)
    requires q.available != []
    ensures var first, rest := q.available[0], q.(available := q.available[1..]);
      Below(before, Reap(q, expired)) ==
        if first in expired then Below(before, Reap(Decrement(rest), expired))
        else Below(before + [first], Reap(rest, expired))
  {
    var first, rest := q.available[0], q.(available := q.available[1..]);
    assert Decrement(q).(available := q.available[1..]) == Decrement(rest);
    assert before + ([first] + Reap(rest, expired).available) == before + [first] + Reap(rest, expired).available;
  }

  function Unexpired(ids: seq<nat>, expired: set<nat>): seq<nat> {
    if ids == [] then []
    else (if ids[0] in expired then [] else [ids[0]]) + Unexpired(ids[1..], expired)
  }

  lemma {:induction false} UnexpiredExact(ids: seq<nat>, expired: set<nat>)
    ensures forall id :: id in Unexpired(ids, expired) <==> id in ids && id !in expired
    ensures |Unexpired(ids, expired)| <= |ids|
    ensures NoRepeats(ids) ==> NoRepeats(Unexpired(ids, expired))
  {
    if ids != [] {
      UnexpiredExact(ids[1..], expired);
      var tail := Unexpired(ids[1..], expired);
      assert forall id :: id in ids <==> id == ids[0] || id in ids[1..];
      if ids[0] !in expired {
        assert forall id :: id in Unexpired(ids, expired) <==> id == ids[0] || id in tail;
        if NoRepeats(ids) {
          assert NoRepeats(ids[1..]);
          assert ids[0] !in ids[1..];
        }
      } else {
        assert Unexpired(ids, expired) == tail;
        if NoRepeats(ids) {
          assert NoRepeats(ids[1..]);
        }
      }
    }
  }

  predicate NoRepeats(ids: seq<nat>) {
    forall j, k :: 0 <= j < k < |ids| ==> ids[j] != ids[k]
  }

  lemma {:induction false} ReapExact(q: Queue, expired: set<nat>)
    requires |q.available| <= q.total
    ensures var left := Unexpired(q.available, expired);
      |left| <= |q.available| &&
      Reap(q, expired) == q.(available := left, total := q.total - (|q.available| - |left|))
    decreases |q.available|
  {
    UnexpiredExact(q.available, expired);
    if q.available != [] {
      var first := q.available[0];
      ReapExact((if first in expired then Decrement(q) else q).(available := q.available[1..]), expired);
    }
  }

  // ---------------------------------------------------------------- the section an acquire runs under the lock

  /** Drops expired connections from the front; the first that is not is taken out to be probed. */
  function TakeIdle(q: Queue, expired: set<nat>): (Queue, Option<nat>)
    decreases |q.available|
  {
    if q.available == [] then (q, None)
    else
      var rest := q.(available := q.available[1..]);
      if q.available[0] in expired then TakeIdle(Decrement(rest), expired) else (rest, Some(q.available[0]))
  }

  /** The number of expired connections at the front. */
  function Lead(ids: seq<nat>, expired: set<nat>): (n: nat)
    ensures n <= |ids| && forall k :: 0 <= k < n ==> ids[k] in expired
    ensures n < |ids| ==> ids[n] !in expired
  {
    if ids == [] || ids[0] !in expired then 0 else 1 + Lead(ids[1..], expired)
  }

  /** The connection taken is the first that has not expired; those before it are gone, and uncounted. */
  lemma {:induction false} TakeIdleExact(q: Queue, expired: set<nat>)
    requires |q.available| <= q.total
    ensures var n := Lead(q.available, expired);
      TakeIdle(q, expired) ==
        if n == |q.available| then (q.(available := [], total := q.total - n), None)
        else (q.(available := q.available[n + 1..], total := q.total - n), Some(q.available[n]))
    decreases |q.available|
  {
    if q.available != [] && q.available[0] in expired {
      TakeIdleExact(Decrement(q.(available := q.available[1..])), expired);
      var n := Lead(q.available[1..], expired);
      assert n < |q.available| - 1 ==> q.available[1..][n + 1..] == q.available[n + 2..];
    }
  }

  // ---------------------------------------------------------------- putting back

  /** The section ReturnFromThreadLocalCache and Return end with. */
  function PutBack(q: Queue, id: nat, expired: bool): (Queue, bool) {
    if expired || q.shutdown || OverLimit(q) then (Decrement(q), false)
    else (q.(available := q.available + [id]), true)
  }

  predicate MayStayLocal(q: Queue) {
    !q.shutdown && !(q.total >= q.max && q.available == [])
  }

  function Shut(q: Queue): Queue {
    if q.shutdown then q else q.(available := [], shutdown := true)
  }

  class ConnectionPool {
    var available: seq<nat>
    var availableConnections: nat
    var totalConnections: nat
    var maxConnections: nat
    var shutdownFlag: bool

    ghost function State(): Queue
      reads this
    {
      Queue(available, totalConnections, maxConnections, shutdownFlag)
    }

    /** The count other threads read without the lock. */
    ghost predicate Valid()
      reads this
    {
      availableConnections == |available|
    }

    constructor (max: nat)
      ensures State() == Queue([], 0, max, false) && Valid()
    {
      available, availableConnections, totalConnections, maxConnections, shutdownFlag := [], 0, 0, max, false;
    }

    method DecrementTotalConnections()
      modifies this`totalConnections
      ensures State() == Decrement(old(State()))
    {
      if totalConnections > 0 {
        totalConnections := totalConnections - 1;
      }
    }

    method Shutdown()
      requires Valid()
      modifies this
      ensures State() == Shut(old(State())) && Valid()
    {
      if shutdownFlag {
        return;
      }
      shutdownFlag := true;
      available := [];
      availableConnections := 0;
    }

    method SetMaxConnections(newMax: nat) returns (toEvict: seq<nat>)
      requires Valid()
      modifies this
      ensures State() == Evict(old(State()).(max := newMax)) && Valid()
      ensures |toEvict| + |available| == |old(available)|
      ensures forall k :: 0 <= k < |toEvict| ==> toEvict[k] == old(available)[|old(available)| - 1 - k]
    {
      maxConnections := newMax;
      toEvict := [];
      while available != [] && totalConnections > maxConnections
        invariant Valid() && Evict(State()) == Evict(old(State()).(max := newMax))
        invariant |toEvict| + |available| == |old(available)| && available == old(available)[..|available|]
        invariant forall k :: 0 <= k < |toEvict| ==> toEvict[k] == old(available)[|old(available)| - 1 - k]
        decreases |available|
      {
        toEvict := toEvict + [available[|available| - 1]];
        available := available[..|available| - 1];
        availableConnections := |available|;
        DecrementTotalConnections();
      }
    }

    /** One round of the reaper. `before` is the part of the queue the iterator has passed. */
    method ReapExpired(expired: set<nat>) returns (gone: seq<nat>)
      requires Valid()
      modifies this
      ensures State() == Reap(old(State()), expired) && Valid()
      ensures forall id :: id in gone ==> id in expired
    {
      var before: seq<nat> := [];
      var left := available;
      gone := [];
      ghost var goal := Reap(old(State()), expired);
      while left != []
        invariant goal == Below(before, Reap(Queue(left, totalConnections, maxConnections, shutdownFlag), expired))
        invariant forall id :: id in gone ==> id in expired
        decreases |left|
      {
        ReapFirst(before, Queue(left, totalConnections, maxConnections, shutdownFlag), expired);
        hide Reap;
        if left[0] in expired {
          gone := gone + [left[0]];
          DecrementTotalConnections();
        } else {
          before := before + [left[0]];
        }
        left := left[1..];
      }
      assert before + [] == before;
      available := before;
      availableConnections := |available|;
    }

    /** The loop an acquire pops the queue in, up to where it releases the lock to probe. */
    method PopIdle(expired: set<nat>) returns (taken: Option<nat>)
      requires Valid()
      modifies this
      ensures (State(), taken) == TakeIdle(old(State()), expired) && Valid()
    {
      while available != []
        invariant Valid() && TakeIdle(State(), expired) == TakeIdle(old(State()), expired)
        decreases |available|
      {
        var id := available[0];
        available := available[1..];
        availableConnections := |available|;
        if id !in expired {
          return Some(id);
        }
        DecrementTotalConnections();
      }
      return None;
    }

    method ReturnToQueue(id: nat, expired: bool) returns (kept: bool)
      requires Valid()
      modifies this
      ensures (State(), kept) == PutBack(old(State()), id, expired) && Valid()
    {
      if expired || shutdownFlag || totalConnections > maxConnections {
        DecrementTotalConnections();
        return false;
      }
      available := available + [id];
      availableConnections := |available|;
      return true;
    }
  }
}
