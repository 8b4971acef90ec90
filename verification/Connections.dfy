/** One connection's broken / selecting / inserting state (src/clickhouse_connection.cpp), and what the pool asks of it
    (src/storage/clickhouse_connection_pool.cpp). */
module Connections {

  /** `selecting` and `inserting` are the client's; `broken` is never taken back. */
  datatype Link = Link(broken: bool, selecting: bool, inserting: bool) {
    predicate Quiet() {
      !selecting && !inserting
    }

    predicate Usable() {
      !broken && Quiet()
    }
  }

  const OPENED := Link(false, false, false)

  /** How a call into the client ends. */
  datatype Outcome = Done | ServerError | Failure

  datatype Call =
    | BeginQuery(outcome: Outcome)
    | NextBlock(outcome: Outcome, more: bool)
    | Cancel(ok: bool)
    | BeginInsert(outcome: Outcome)
    | SendInsertBlock(outcome: Outcome)
    | EndInsert(outcome: Outcome)
    | AbortInsert
    | IsHealthy(stale: bool, pinged: bool)   // longer idle than PING_AFTER_IDLE; whether the ping succeeds

  function After(l: Link, call: Call): Link {
    match call
    case BeginQuery(outcome) =>
      if outcome.Done? then l.(selecting := true) else if outcome.Failure? then l.(broken := true) else l
    case NextBlock(outcome, more) =>
      if outcome.Failure? then l.(broken := true)
      else l.(selecting := l.selecting && more && outcome.Done?)
    case Cancel(ok) => if !l.selecting then l else if ok then l.(selecting := false) else l.(broken := true)
    case BeginInsert(outcome) => if outcome.Done? then l.(inserting := true) else l.(broken := true, inserting := true)
    case SendInsertBlock(outcome) => if outcome.Done? then l else l.(broken := true)
    case EndInsert(outcome) => if outcome.Done? then l.(inserting := false) else l.(broken := true)
    case AbortInsert => if l.inserting then l.(broken := true) else l
    case IsHealthy(stale, pinged) => if l.Usable() && stale && !pinged then l.(broken := true) else l
  }

  function Healthy(l: Link, stale: bool, pinged: bool): bool {
    l.Usable() && (!stale || pinged)
  }

  /** Return: probe, recover, reset. False is a discarded connection. */
  function Returned(l: Link, stale: bool, pinged: bool, cancelled: bool): (Link, bool) {
    var probed := After(l, IsHealthy(stale, pinged));
    if Healthy(l, stale, pinged) then (probed, true)
    else
      var recovered := After(probed, Cancel(cancelled));
      (recovered, recovered.Usable())
  }

  /** A failed cancel, insert start or insert send, and an insert given up. */
  predicate Spoils(l: Link, call: Call) {
    match call
    case Cancel(ok) => l.selecting && !ok
    case BeginInsert(outcome) => !outcome.Done?
    case SendInsertBlock(outcome) => !outcome.Done?
    case AbortInsert => l.inserting
    case _ => false
  }

  lemma FailuresBreak(l: Link, call: Call)
    requires Spoils(l, call)
    ensures After(l, call).broken
  {
  }

  /** A returned connection is kept only usable: one in the middle of a query has been cancelled, one in the middle of
      an insert or broken is discarded. */
  lemma ReturnedUsable(l: Link, stale: bool, pinged: bool, cancelled: bool)
    ensures Returned(l, stale, pinged, cancelled).1 <==>
      !l.broken && !l.inserting &&
      if l.selecting then cancelled else !stale || pinged
    ensures Returned(l, stale, pinged, cancelled).1 ==> Returned(l, stale, pinged, cancelled).0 == OPENED
  {
  }

  /** The object itself. `outcome` and the like stand for what the client call does. */
  class ClickhouseConnection {
    var broken: bool
    var selecting: bool
    var inserting: bool

    ghost function State(): Link
      reads this
    {
      Link(broken, selecting, inserting)
    }

    constructor ()
      ensures State() == OPENED
    {
      broken, selecting, inserting := false, false, false;
    }

    method CancelQuery(ok: bool)
      modifies this
      ensures State() == After(old(State()), Cancel(ok))
      ensures old(State()).Usable() ==> State() == old(State())
      ensures !broken ==> !selecting
    {
      if !selecting {
        return;
      }
      if ok {
        selecting := false;
      } else {
        broken := true;
      }
    }

    method StartInsert(outcome: Outcome) returns (threw: bool)
      modifies this
      ensures State() == After(old(State()), BeginInsert(outcome)) && threw == !outcome.Done?
      ensures inserting && (threw ==> broken) && (old(State()).Usable() && !threw ==> !broken)
    {
      inserting := true;
      if !outcome.Done? {
        broken := true;
        return true;
      }
      return false;
    }

    method SendBlock(outcome: Outcome) returns (threw: bool)
      modifies this
      ensures State() == After(old(State()), SendInsertBlock(outcome)) && threw == !outcome.Done?
      ensures inserting == old(inserting) && (broken <==> old(broken) || threw)
    {
      if !outcome.Done? {
        broken := true;
      }
      return !outcome.Done?;
    }

    method FinishInsert(outcome: Outcome) returns (threw: bool)
      modifies this
      ensures State() == After(old(State()), EndInsert(outcome)) && threw == !outcome.Done?
      ensures State().Usable() <==> !threw && !old(broken) && !old(selecting)
    {
      if outcome.Done? {
        inserting := false;
        return false;
      }
      broken := true;
      return true;
    }

    method GiveUpInsert()
      modifies this
      ensures State() == After(old(State()), AbortInsert)
      ensures State().Usable() <==> old(State()).Usable()
      ensures broken || !inserting
    {
      if inserting {
        broken := true;
      }
    }

    method CheckHealthy(stale: bool, pinged: bool) returns (healthy: bool)
      modifies this
      ensures State() == After(old(State()), IsHealthy(stale, pinged))
      ensures healthy == Healthy(old(State()), stale, pinged)
      ensures healthy ==> State().Usable() && State() == old(State())
      ensures !healthy && old(State()).Usable() ==> broken
    {
      if broken || selecting || inserting {
        return false;
      }
      if !stale {
        return true;
      }
      if pinged {
        return true;
      }
      broken := true;
      return false;
    }

    /** Return's checks, with TryRecoverConnection and ResetConnection. */
    method PrepareForReuse(stale: bool, pinged: bool, cancelled: bool) returns (kept: bool)
      modifies this
      ensures (State(), kept) == Returned(old(State()), stale, pinged, cancelled)
      ensures kept ==> State() == OPENED
      ensures old(broken) || old(inserting) ==> !kept
    {
      var healthy := CheckHealthy(stale, pinged);
      if !healthy {
        if selecting {
          CancelQuery(cancelled);
        }
        if broken || selecting || inserting {
          return false;
        }
      }
      assert !selecting;  // ResetConnection finds nothing to cancel
      return true;
    }
  }
}
