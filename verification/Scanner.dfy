/** Scan workers taking turns on one query (src/clickhouse_scanner.cpp). */
module Scanner {
  import opened Options
  import opened Columns
  import opened Reader

  const STANDARD_VECTOR_SIZE := 2048

  // ---------------------------------------------------------------- one block

  /** ConvertBlock: rows [offset, offset + count) of every column put out, in the order of `projection`. */
  method ConvertBlock(block: seq<Column>, types: seq<Type>, size: nat, offset: nat, count: nat, projection: seq<nat>)
      returns (output: seq<Vector>)
    requires |block| == |types| && offset + count <= size
    requires forall c :: 0 <= c < |types| ==> ValidType(types[c]) && Fits(block[c], types[c]) && Size(block[c]) == size
    requires forall k :: 0 <= k < |projection| ==> projection[k] < |block|
    ensures |output| == |projection|
    ensures forall k :: 0 <= k < |projection| ==>
      Reads(output[k], block[projection[k]], types[projection[k]], offset, count, AllValid(count))
  {
    output := [];
    for k := 0 to |projection|
      invariant |output| == k
      invariant forall j :: 0 <= j < k ==>
        Reads(output[j], block[projection[j]], types[projection[j]], offset, count, AllValid(count))
    {
      var column := ConvertColumn(block[projection[k]], types[projection[k]], offset, count);
      output := output + [column];
    }
  }

  // ---------------------------------------------------------------- the query's blocks

  /** A row as it comes out of a scan. */
  type Row = seq<Value>

  /** What the server sends: its blocks, some of them empty, then the end of the query or a failure. */
  datatype Query = Query(blocks: seq<seq<Row>>, fails: bool)

  function Flatten(blocks: seq<seq<Row>>): seq<Row> {
    if blocks == [] then [] else Flatten(blocks[..|blocks| - 1]) + blocks[|blocks| - 1]
  }

  /** The first block from `next` on that is not empty; their number if there is none. */
  function NextNonEmpty(blocks: seq<seq<Row>>, next: nat): (i: nat)
    requires next <= |blocks|
    ensures next <= i <= |blocks|
    ensures i < |blocks| ==> blocks[i] != []
    ensures forall k :: next <= k < i ==> blocks[k] == []
    decreases |blocks| - next
  {
    if next == |blocks| || blocks[next] != [] then next else NextNonEmpty(blocks, next + 1)
  }

  // ---------------------------------------------------------------- the workers

  /** A worker's block, if it has one, how much of it it has put out, and its batch. */
  datatype Worker = Worker(block: Option<nat>, offset: nat, batch: nat)

  /** `next` blocks have been read off the connection, with `requests` calls of NextBlock. `chunks` are the rows each
      batch has put out, in order; `taken` is the block each batch is of. */
  datatype Scan = Scan(next: nat, requests: nat, finished: bool, failed: bool, workers: map<nat, Worker>,
                       chunks: seq<seq<Row>>, taken: seq<nat>)

  const BEGIN := Scan(0, 0, false, false, map[], [], [])

  /** FetchNextBlock, under the lock. */
  function Fetch(q: Query, s: Scan, w: nat): Scan
    requires s.next <= |q.blocks|
  {
    if s.finished then s.(workers := s.workers[w := Worker(None, 0, 0)])
    else
      var i := NextNonEmpty(q.blocks, s.next);
      if i < |q.blocks| then
        s.(next := i + 1, requests := s.requests + (i - s.next) + 1,
           workers := s.workers[w := Worker(Some(i), 0, |s.chunks|)],
           chunks := s.chunks + [[]], taken := s.taken + [i])
      else
        s.(next := i, requests := s.requests + (i - s.next) + 1, finished := true, failed := q.fails,
           workers := s.workers[w := Worker(None, 0, 0)])
  }

  /** What the workers share, under the lock. */
  class GlobalState {
    var next: nat
    var requests: nat
    var finished: bool
    var failed: bool
    var nextBatchIndex: nat

    constructor ()
      ensures next == 0 && requests == 0 && !finished && !failed && nextBatchIndex == 0
    {
      next, requests, finished, failed, nextBatchIndex := 0, 0, false, false, 0;
    }

    /** The loop over NextBlock: empty blocks are passed over, the end and a failure remembered. */
    method FetchNextBlock(q: Query) returns (block: Option<nat>, batchIndex: nat)
      requires next <= |q.blocks|
      modifies this
      ensures old(finished) ==> block.None? && unchanged(this)
      ensures !old(finished) ==>
        var i := NextNonEmpty(q.blocks, old(next));
        requests == old(requests) + (i - old(next)) + 1 &&
        if i < |q.blocks|
        then block == Some(i) && batchIndex == old(nextBatchIndex) && next == i + 1 && !finished &&
             nextBatchIndex == old(nextBatchIndex) + 1 && failed == old(failed)
        else block.None? && next == i && finished && failed == q.fails && nextBatchIndex == old(nextBatchIndex)
    {
      block, batchIndex := None, 0;
      ghost var start, goal := next, NextNonEmpty(q.blocks, next);
      while !finished
        invariant old(finished) ==> finished && unchanged(this)
        invariant !old(finished) ==> !finished && failed == old(failed) && nextBatchIndex == old(nextBatchIndex)
        invariant start <= next <= |q.blocks| && goal == NextNonEmpty(q.blocks, next)
        invariant requests == old(requests) + (next - start)
        decreases |q.blocks| - next
      {
        requests := requests + 1;
        if next == |q.blocks| {
          finished, failed := true, q.fails;
          return;
        }
        next := next + 1;
        if q.blocks[next - 1] == [] {
          continue;
        }
        block, batchIndex := Some(next - 1), nextBatchIndex;
        nextBatchIndex := nextBatchIndex + 1;
        return;
      }
    }
  }

  predicate HasRows(q: Query, s: Scan, w: nat) {
    w in s.workers && s.workers[w].block.Some? && s.workers[w].block.value < |q.blocks| &&
    s.workers[w].offset < |q.blocks[s.workers[w].block.value]|
  }

  /** One output chunk: at most a vector of the worker's block. */
  function Emit(q: Query, s: Scan, w: nat): Scan
    requires HasRows(q, s, w) && s.workers[w].batch < |s.chunks|
  {
    var worker := s.workers[w];
    var rows := q.blocks[worker.block.value];
    var count := if |rows| - worker.offset < STANDARD_VECTOR_SIZE then |rows| - worker.offset else STANDARD_VECTOR_SIZE;
    s.(workers := s.workers[w := worker.(offset := worker.offset + count)],
       chunks := s.chunks[worker.batch := s.chunks[worker.batch] + rows[worker.offset..worker.offset + count]])
  }

  /** Worker w's turn: it puts out a chunk of its block, or fetches one. */
  function Turn(q: Query, s: Scan, w: nat): Scan
    requires s.next <= |q.blocks|
  {
    if !HasRows(q, s, w) then Fetch(q, s, w)
    else if s.workers[w].batch < |s.chunks| then Emit(q, s, w)
    else s
  }

  /** `last` is the scan after the workers' turns, in the order of `turns`. */
  ghost predicate Run(q: Query, turns: seq<nat>, last: Scan) {
    if turns == [] then last == BEGIN
    else
      exists s :: Run(q, turns[..|turns| - 1], s) && s.next <= |q.blocks| && last == Turn(q, s, turns[|turns| - 1])
  }

  // ---------------------------------------------------------------- what every turn keeps

  /** Batches are the non-empty blocks read so far, in order. */
  ghost predicate BatchesInOrder(q: Query, s: Scan) {
    |s.taken| == |s.chunks| && s.next <= |q.blocks| &&
    (forall b :: 0 <= b < |s.taken| ==> s.taken[b] < s.next && q.blocks[s.taken[b]] != []) &&
    Flatten(q.blocks[..s.next]) == Flatten(Blocks(q, s.taken))
  }

  ghost function Blocks(q: Query, taken: seq<nat>): (r: seq<seq<Row>>)
    ensures |r| == |taken|
    ensures forall b :: 0 <= b < |r| ==> r[b] == if taken[b] < |q.blocks| then q.blocks[taken[b]] else []
  {
    seq(|taken|, b requires 0 <= b < |taken| => if taken[b] < |q.blocks| then q.blocks[taken[b]] else [])
  }

  /** A worker holds the block of its batch, and no other worker that batch. */
  ghost predicate WorkersApart(q: Query, s: Scan) {
    WorkersPlaced(q, s) && BatchesOwned(s)
  }

  ghost predicate WorkersPlaced(q: Query, s: Scan) {
    forall w :: w in s.workers && s.workers[w].block.Some? ==> Placed(q, s, s.workers[w])
  }

  predicate Placed(q: Query, s: Scan, worker: Worker) {
    worker.block.Some? && worker.batch < |s.taken| && worker.block.value == s.taken[worker.batch] < |q.blocks| &&
    worker.offset <= |q.blocks[worker.block.value]|
  }

  ghost predicate BatchesOwned(s: Scan) {
    forall v, w ::
      v in s.workers && w in s.workers && v != w && s.workers[v].block.Some? && s.workers[w].block.Some? ==>
        s.workers[v].batch != s.workers[w].batch
  }

  /** A batch has put out the start of its block: all of it, unless a worker still holds the rest. */
  ghost predicate ChunksContiguous(q: Query, s: Scan) {
    |s.taken| == |s.chunks| && (forall b :: 0 <= b < |s.taken| ==> s.taken[b] < |q.blocks|) &&
    (forall w ::
      w in s.workers && s.workers[w].block.Some? && s.workers[w].batch < |s.taken| &&
      s.workers[w].offset <= |q.blocks[s.taken[s.workers[w].batch]]| ==>
        s.chunks[s.workers[w].batch] == q.blocks[s.taken[s.workers[w].batch]][..s.workers[w].offset]) &&
    forall b :: 0 <= b < |s.taken| ==> s.chunks[b] == q.blocks[s.taken[b]] || Held(s, b)
  }

  ghost predicate Held(s: Scan, b: nat) {
    exists w :: w in s.workers && s.workers[w].block.Some? && s.workers[w].batch == b
  }

  /** NextBlock is never called again once the query has ended or failed. */
  ghost predicate RequestsCounted(q: Query, s: Scan) {
    s.requests == s.next + (if s.finished then 1 else 0) && (s.finished ==> s.next == |q.blocks|) &&
    (s.failed <==> s.finished && q.fails)
  }

  ghost predicate Invariant(q: Query, s: Scan) {
    BatchesInOrder(q, s) && WorkersApart(q, s) && ChunksContiguous(q, s) && RequestsCounted(q, s)
  }

  lemma {:induction false} FlattenEmpties(blocks: seq<seq<Row>>, first: nat, end: nat)
    requires first <= end <= |blocks| && forall k :: first <= k < end ==> blocks[k] == []
    ensures Flatten(blocks[..end]) == Flatten(blocks[..first])
    decreases end
  {
    if first < end {
      assert blocks[..end][..end - 1] == blocks[..end - 1];
      FlattenEmpties(blocks, first, end - 1);
      assert Flatten(blocks[..end - 1]) + [] == Flatten(blocks[..end - 1]);
    }
  }

  lemma TakenSnoc(q: Query, taken: seq<nat>, i: nat)
    requires i < |q.blocks|
    ensures Flatten(Blocks(q, taken + [i])) == Flatten(Blocks(q, taken)) + q.blocks[i]
    ensures Flatten(q.blocks[..i + 1]) == Flatten(q.blocks[..i]) + q.blocks[i]
  {
    var all := Blocks(q, taken + [i]);
    assert all[..|taken|] == Blocks(q, taken);
    assert q.blocks[..i + 1][..i] == q.blocks[..i];
  }

  lemma FetchKeepsOrder(q: Query, s: Scan, w: nat)
    requires BatchesInOrder(q, s)
    ensures BatchesInOrder(q, Fetch(q, s, w))
  {
    hide Flatten, Blocks;
    if !s.finished {
      var i := NextNonEmpty(q.blocks, s.next);
      FlattenEmpties(q.blocks, s.next, i);
      if i < |q.blocks| {
        TakenSnoc(q, s.taken, i);
      }
    }
  }

  lemma FetchKeepsPlaces(q: Query, s: Scan, w: nat)
    requires BatchesInOrder(q, s) && WorkersPlaced(q, s)
    ensures WorkersPlaced(q, Fetch(q, s, w))
  {
    hide Flatten, NextNonEmpty, Blocks;
    var n := Fetch(q, s, w);
    forall v | v in n.workers && n.workers[v].block.Some? ensures Placed(q, n, n.workers[v]) {
      if v != w {
        assert n.workers[v] == s.workers[v];
      }
    }
  }

  lemma FetchKeepsOwners(q: Query, s: Scan, w: nat)
    requires BatchesInOrder(q, s) && WorkersPlaced(q, s) && BatchesOwned(s)
    ensures BatchesOwned(Fetch(q, s, w))
  {
    hide Flatten, NextNonEmpty, Blocks;
    var n := Fetch(q, s, w);
    forall v | v in n.workers && v != w ensures n.workers[v] == s.workers[v] {
    }
    forall v | v in n.workers && v != w && n.workers[v].block.Some? ensures n.workers[v].batch < |s.chunks| {
    }
  }

  lemma FetchKeepsChunks(q: Query, s: Scan, w: nat)
    requires Invariant(q, s) && !HasRows(q, s, w)
    ensures ChunksContiguous(q, Fetch(q, s, w))
  {
    hide Flatten, NextNonEmpty, Blocks;
    var n := Fetch(q, s, w);
    forall b | 0 <= b < |n.taken| ensures n.chunks[b] == q.blocks[n.taken[b]] || Held(n, b) {
      if b < |s.taken| {
        KeptBatch(q, s, n, w, b);
      } else {
        assert n.workers[w].block.Some? && n.workers[w].batch == b;
      }
    }
  }

  lemma FetchKeeps(q: Query, s: Scan, w: nat)
    requires Invariant(q, s) && !HasRows(q, s, w)
    ensures Invariant(q, Fetch(q, s, w))
  {
    FetchKeepsOrder(q, s, w);
    FetchKeepsPlaces(q, s, w);
    FetchKeepsOwners(q, s, w);
    FetchKeepsChunks(q, s, w);
    FetchKeepsRequests(q, s, w);
    hide BatchesInOrder, WorkersApart, ChunksContiguous, RequestsCounted, Fetch;
  }

  lemma FetchKeepsRequests(q: Query, s: Scan, w: nat)
    requires s.next <= |q.blocks| && RequestsCounted(q, s)
    ensures RequestsCounted(q, Fetch(q, s, w))
  {
    hide NextNonEmpty;
  }

  /** A batch of before the fetch: its holder, if it was not the worker that fetches, still holds it; and that worker
      had put out all of its own. */
  lemma KeptBatch(q: Query, s: Scan, n: Scan, w: nat, b: nat)
    requires Invariant(q, s) && !HasRows(q, s, w) && n == Fetch(q, s, w) && b < |s.taken| && s.next <= |q.blocks|
    ensures n.taken[b] == s.taken[b] && n.chunks[b] == s.chunks[b]
    ensures n.chunks[b] == q.blocks[n.taken[b]] || Held(n, b)
  {
    hide Flatten, NextNonEmpty, Blocks;
    if s.chunks[b] != q.blocks[s.taken[b]] {
      var v :| v in s.workers && s.workers[v].block.Some? && s.workers[v].batch == b;
      if v != w {
        assert n.workers[v] == s.workers[v];
      }
    }
  }

  lemma EmitKeepsPlaces(q: Query, s: Scan, w: nat)
    requires HasRows(q, s, w) && WorkersPlaced(q, s) && |s.taken| == |s.chunks|
    ensures s.workers[w].batch < |s.chunks| && WorkersPlaced(q, Emit(q, s, w))
  {
    assert Placed(q, s, s.workers[w]);
    var n := Emit(q, s, w);
    forall v | v in n.workers && n.workers[v].block.Some? ensures Placed(q, n, n.workers[v]) {
      if v != w {
        assert n.workers[v] == s.workers[v] && Placed(q, s, s.workers[v]);
      }
    }
  }

  lemma EmitKeepsOwners(q: Query, s: Scan, w: nat)
    requires HasRows(q, s, w) && BatchesOwned(s) && s.workers[w].batch < |s.chunks|
    ensures BatchesOwned(Emit(q, s, w))
  {
    var n := Emit(q, s, w);
    assert forall v :: v in n.workers ==> n.workers[v].batch == s.workers[v].batch;
  }

  lemma EmitKeepsChunks(q: Query, s: Scan, w: nat)
    requires HasRows(q, s, w) && WorkersApart(q, s) && ChunksContiguous(q, s) && s.workers[w].batch < |s.chunks|
    ensures ChunksContiguous(q, Emit(q, s, w))
  {
    hide WorkersApart, WorkersPlaced;
    assert WorkersPlaced(q, s) && BatchesOwned(s) by { WorkersOf(q, s); }
    assert Placed(q, s, s.workers[w]) by { PlacedOf(q, s, w); }
    var n := Emit(q, s, w);
    EmittedChunk(q, s, w);
    forall v | v in n.workers && v != w ensures n.workers[v] == s.workers[v] {
    }
    forall b | 0 <= b < |n.taken| ensures n.chunks[b] == q.blocks[n.taken[b]] || Held(n, b) {
      if b == s.workers[w].batch {
        assert n.workers[w].block.Some? && n.workers[w].batch == b;
      } else if s.chunks[b] != q.blocks[s.taken[b]] {
        var v :| v in s.workers && s.workers[v].block.Some? && s.workers[v].batch == b;
        assert n.workers[v] == s.workers[v];
      }
    }
  }

  lemma WorkersOf(q: Query, s: Scan)
    requires WorkersApart(q, s)
    ensures WorkersPlaced(q, s) && BatchesOwned(s)
  {
  }

  lemma PlacedOf(q: Query, s: Scan, w: nat)
    requires WorkersPlaced(q, s) && w in s.workers && s.workers[w].block.Some?
    ensures Placed(q, s, s.workers[w])
  {
  }

  /** The chunk goes on where the batch had stopped. */
  lemma EmittedChunk(q: Query, s: Scan, w: nat)
    requires HasRows(q, s, w) && ChunksContiguous(q, s) && s.workers[w].batch < |s.chunks|
    requires Placed(q, s, s.workers[w])
    ensures var n := Emit(q, s, w);
      n.chunks[s.workers[w].batch] == q.blocks[s.taken[s.workers[w].batch]][..n.workers[w].offset]
  {
    var rows, from, end := q.blocks[s.workers[w].block.value], s.workers[w].offset, Emit(q, s, w).workers[w].offset;
    assert rows[..from] + rows[from..end] == rows[..end];
  }

  lemma EmitKeeps(q: Query, s: Scan, w: nat)
    requires Invariant(q, s) && HasRows(q, s, w)
    ensures s.workers[w].batch < |s.chunks| && Invariant(q, Emit(q, s, w))
  {
    hide Flatten, Blocks, ChunksContiguous, WorkersPlaced, BatchesOwned;
    EmitKeepsPlaces(q, s, w);
    EmitKeepsOwners(q, s, w);
    EmitKeepsChunks(q, s, w);
  }

  lemma TurnKeeps(q: Query, s: Scan, w: nat)
    requires Invariant(q, s)
    ensures s.next <= |q.blocks| && Invariant(q, Turn(q, s, w))
  {
    if HasRows(q, s, w) {
      EmitKeeps(q, s, w);
    } else {
      FetchKeeps(q, s, w);
    }
  }

  lemma {:induction false} RunKeeps(q: Query, turns: seq<nat>, last: Scan)
    requires Run(q, turns, last)
    ensures Invariant(q, last)
  {
    hide Invariant, Turn;
    if turns == [] {
      BeginHolds(q);
    } else {
      var s :| Run(q, turns[..|turns| - 1], s) && s.next <= |q.blocks| && last == Turn(q, s, turns[|turns| - 1]);
      RunKeeps(q, turns[..|turns| - 1], s);
      TurnKeeps(q, s, turns[|turns| - 1]);
    }
  }

  lemma BeginHolds(q: Query)
    ensures Invariant(q, BEGIN)
  {
    assert q.blocks[..0] == [] && Blocks(q, []) == [];
  }

  /** Every worker has put out all of its block. */
  predicate Drained(q: Query, s: Scan) {
    forall w :: w in s.workers ==> !HasRows(q, s, w)
  }

  /** In every interleaving of workers that reaches the end of the query with every block put out, the batches in order
      hold every row exactly once, in the server's order. */
  lemma EveryRowOnce(q: Query, turns: seq<nat>, last: Scan)
    requires Run(q, turns, last) && last.finished && !last.failed && Drained(q, last)
    ensures Flatten(last.chunks) == Flatten(q.blocks)
  {
    hide Run, Flatten;
    RunKeeps(q, turns, last);
    assert q.blocks[..last.next] == q.blocks;
    forall b | 0 <= b < |last.taken| ensures last.chunks[b] == q.blocks[last.taken[b]] {
      if Held(last, b) {
        var w :| w in last.workers && last.workers[w].block.Some? && last.workers[w].batch == b;
        assert last.chunks[b] == q.blocks[last.taken[b]][..last.workers[w].offset];
        assert !HasRows(q, last, w);
      }
    }
    assert last.chunks == Blocks(q, last.taken);
  }

  /** Before that, too, each batch has put out a start of its own block and nothing else; the connection is asked for a
      block after the last one exactly once; and no two workers ever share a block. */
  lemma EveryBlockOnce(q: Query, turns: seq<nat>, last: Scan)
    requires Run(q, turns, last)
    ensures last.requests <= |q.blocks| + 1 && (last.requests == |q.blocks| + 1 <==> last.finished)
    ensures forall b :: 0 <= b < |last.chunks| ==>
      b < |last.taken| && last.taken[b] < |q.blocks| && last.chunks[b] <= q.blocks[last.taken[b]]
    ensures WorkersApart(q, last)
  {
    hide Run, Flatten;
    RunKeeps(q, turns, last);
  }
}
