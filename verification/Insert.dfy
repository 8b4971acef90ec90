/** The INSERT sink (src/storage/clickhouse_insert.cpp): chunks come in, blocks of at least block_size rows go out. */
module Insert {
  import opened Columns
  import opened Appends
  import opened Writer

  type Row = seq<Value>

  // ---------------------------------------------------------------- rows of blocks and chunks

  /** The columns of a block, or of the rows pending: all of one size. */
  predicate IsBlock(block: seq<Column>, types: seq<Type>, size: nat) {
    |block| == |types| && forall c :: 0 <= c < |types| ==> Fits(block[c], types[c]) && Size(block[c]) == size
  }

  function BlockRow(block: seq<Column>, types: seq<Type>, size: nat, i: nat): (r: Row)
    requires IsBlock(block, types, size) && i < size
    ensures |r| == |types| && forall c :: 0 <= c < |r| ==> r[c] == RowAt(block[c], types[c], i)
  {
    seq(|types|, c requires 0 <= c < |types| => RowAt(block[c], types[c], i))
  }

  function BlockRows(block: seq<Column>, types: seq<Type>, size: nat): (r: seq<Row>)
    requires IsBlock(block, types, size)
    ensures |r| == size && forall i :: 0 <= i < size ==> r[i] == BlockRow(block, types, size, i)
  {
    seq(size, i requires 0 <= i < size => BlockRow(block, types, size, i))
  }

  datatype Block = Block(columns: seq<Column>, size: nat)

  ghost predicate AllBlocks(blocks: seq<Block>, types: seq<Type>) {
    forall b :: b in blocks ==> IsBlock(b.columns, types, b.size)
  }

  /** The rows of all the blocks, in the order they are sent. */
  function SentRows(blocks: seq<Block>, types: seq<Type>): seq<Row>
    requires AllBlocks(blocks, types)
  {
    if blocks == [] then []
    else
      var last := blocks[|blocks| - 1];
      SentRows(blocks[..|blocks| - 1], types) + BlockRows(last.columns, types, last.size)
  }

  datatype Chunk = Chunk(size: nat, columns: seq<Vector>)

  /** Column `sources[c]` of the chunk goes into column c of the target. */
  ghost predicate ChunkFits(chunk: Chunk, types: seq<Type>, sources: seq<nat>) {
    |sources| == |types| && forall c :: 0 <= c < |types| ==>
      sources[c] < |chunk.columns| && ValidType(types[c]) && WellFormed(chunk.columns[sources[c]]) &&
      NullsReachDown(chunk.columns[sources[c]]) && Matches(chunk.columns[sources[c]], types[c]) &&
      Length(chunk.columns[sources[c]]) == chunk.size
  }

  function InputRow(chunk: Chunk, types: seq<Type>, sources: seq<nat>, i: nat): (r: Row)
    requires ChunkFits(chunk, types, sources) && i < chunk.size
    ensures |r| == |types| && forall c :: 0 <= c < |r| ==> r[c] == ValueAt(chunk.columns[sources[c]], i)
  {
    seq(|types|, c requires 0 <= c < |types| => ValueAt(chunk.columns[sources[c]], i))
  }

  function InputRows(chunk: Chunk, types: seq<Type>, sources: seq<nat>): (r: seq<Row>)
    requires ChunkFits(chunk, types, sources)
    ensures |r| == chunk.size && forall i :: 0 <= i < |r| ==> r[i] == InputRow(chunk, types, sources, i)
  {
    seq(chunk.size, i requires 0 <= i < chunk.size => InputRow(chunk, types, sources, i))
  }

  function StoredRow(row: Row, types: seq<Type>): (r: Row)
    requires |row| == |types|
    ensures |r| == |row| && forall c :: 0 <= c < |r| ==> r[c] == Stored(row[c], types[c])
  {
    seq(|row|, c requires 0 <= c < |row| => Stored(row[c], types[c]))
  }

  ghost predicate RowAccepted(row: Row, types: seq<Type>)
    requires |row| == |types|
  {
    forall c :: 0 <= c < |row| ==> Accepts(row[c], types[c], false)
  }

  /** What is stored of rows that are all accepted. */
  function StoredRows(rows: seq<Row>, types: seq<Type>): (r: seq<Row>)
    requires forall row :: row in rows ==> |row| == |types|
    ensures |r| == |rows| && forall i :: 0 <= i < |r| ==> r[i] == StoredRow(rows[i], types)
  {
    seq(|rows|, i requires 0 <= i < |rows| => StoredRow(rows[i], types))
  }

  /** Rows without a NULL that could become a default are stored as they are. */
  lemma RowsAsTheyAre(rows: seq<Row>, types: seq<Type>)
    requires forall row :: row in rows ==> |row| == |types| && RowAccepted(row, types)
    requires forall c :: 0 <= c < |types| ==> ValidType(types[c]) && Lossless(types[c])
    ensures StoredRows(rows, types) == rows
  {
    hide Accepts, Stored, Lossless;
    forall i | 0 <= i < |rows| ensures StoredRow(rows[i], types) == rows[i] {
      assert rows[i] in rows;
      forall c | 0 <= c < |types| ensures Stored(rows[i][c], types[c]) == rows[i][c] {
        StoredAsIs(rows[i][c], types[c], false);
      }
    }
  }

  // ---------------------------------------------------------------- appending a chunk

  /** The pending columns with the chunk's rows behind their own. */
  ghost predicate ChunkAppended(before: seq<Column>, after: seq<Column>, size: nat, chunk: Chunk, types: seq<Type>,
                                sources: seq<nat>)
    requires ChunkFits(chunk, types, sources) && IsBlock(before, types, size)
  {
    IsBlock(after, types, size + chunk.size) &&
    forall c :: 0 <= c < |types| ==>
      Appended(before[c], after[c], chunk.columns[sources[c]], UpTo(chunk.size), types[c])
  }

  lemma AppendedRows(before: seq<Column>, after: seq<Column>, size: nat, chunk: Chunk, types: seq<Type>,
                     sources: seq<nat>)
    requires ChunkFits(chunk, types, sources) && IsBlock(before, types, size)
    requires ChunkAppended(before, after, size, chunk, types, sources)
    ensures BlockRows(after, types, size + chunk.size) ==
            BlockRows(before, types, size) + StoredRows(InputRows(chunk, types, sources), types)
  {
    hide RowAt, ValueAt, Stored, WellFormed, NullsReachDown, Matches, Fits;
    var rows, kept := BlockRows(after, types, size + chunk.size), BlockRows(before, types, size);
    var input := InputRows(chunk, types, sources);
    var added := StoredRows(input, types);
    forall i | 0 <= i < size ensures rows[i] == kept[i] {
      forall c | 0 <= c < |types| ensures rows[i][c] == kept[i][c] {
        assert RowAt(after[c], types[c], i) == RowAt(before[c], types[c], i);
      }
    }
    forall i | 0 <= i < chunk.size ensures rows[size + i] == added[i] {
      forall c | 0 <= c < |types| ensures rows[size + i][c] == added[i][c] {
        assert UpTo(chunk.size)[i] == i;
        assert RowAt(after[c], types[c], size + i) == Stored(ValueAt(chunk.columns[sources[c]], i), types[c]);
        assert added[i][c] == Stored(input[i][c], types[c]);
      }
    }
  }

  // ---------------------------------------------------------------- the sink

  class GlobalState {
    const types: seq<Type>
    const sources: seq<nat>
    const blockSize: nat
    var started: bool              // has a connection, in the middle of an INSERT
    var pending: seq<Column>
    var pendingRows: nat
    var insertCount: nat
    var sent: seq<Block>

    ghost predicate Valid()
      reads this
    {
      (forall c :: 0 <= c < |types| ==> ValidType(types[c])) && |sources| == |types| &&
      IsBlock(pending, types, pendingRows) &&
      AllBlocks(sent, types) && (!started ==> sent == [] && pendingRows == 0)
    }

    /** Between two calls of Sink: every block sent is large enough, and the pending rows are too few for one. */
    ghost predicate Sinking()
      reads this
    {
      Valid() && (forall b :: b in sent ==> b.size > 0 && b.size >= blockSize) &&
      (pendingRows > 0 ==> pendingRows < blockSize)
    }

    /** Everything sunk so far, as it is stored. */
    ghost function Rows(): seq<Row>
      reads this
      requires Valid()
    {
      SentRows(sent, types) + BlockRows(pending, types, pendingRows)
    }

    constructor (types: seq<Type>, sources: seq<nat>, blockSize: nat)
      requires |sources| == |types| && forall c :: 0 <= c < |types| ==> ValidType(types[c])
      ensures Sinking() && Rows() == [] && insertCount == 0 && sent == [] && !started
      ensures this.types == types && this.sources == sources && this.blockSize == blockSize
    {
      this.types, this.sources, this.blockSize := types, sources, blockSize;
      started, pendingRows, insertCount, sent := false, 0, 0, [];
      pending := seq(|types|, c requires 0 <= c < |types| && ValidType(types[c]) => Empty(types[c]));
    }

    /** CloneEmpty of every header column. */
    function NothingPending(): (r: seq<Column>)
      requires forall c :: 0 <= c < |types| ==> ValidType(types[c])
      ensures IsBlock(r, types, 0)
    {
      seq(|types|, c requires 0 <= c < |types| => Empty(types[c]))
    }

    /** Sends the pending rows as one block. */
    method Flush()
      requires Valid() && started
      modifies this`pending, this`pendingRows, this`sent
      ensures Valid() && Rows() == old(Rows()) && pendingRows == 0
      ensures sent == if old(pendingRows) == 0 then old(sent) else old(sent) + [Block(old(pending), old(pendingRows))]
    {
      if pendingRows == 0 {
        return;
      }
      ghost var rows := BlockRows(pending, types, pendingRows);
      ghost var before := sent;
      sent := sent + [Block(pending, pendingRows)];
      pending := NothingPending();
      pendingRows := 0;
      assert sent[..|sent| - 1] == before;
      assert BlockRows(pending, types, 0) == [];
      assert SentRows(sent, types) == SentRows(before, types) + rows;
    }

    /** The loop that appends each source column to its pending one. False where AppendVector throws. */
    method AppendChunk(chunk: Chunk) returns (ok: bool)
      requires Valid() && ChunkFits(chunk, types, sources)
      modifies this`pending
      ensures ok <==> forall c :: 0 <= c < |types| ==>
        AllAccepted(chunk.columns[sources[c]], UpTo(chunk.size), types[c], false)
      ensures ok ==> ChunkAppended(old(pending), pending, pendingRows, chunk, types, sources)
    {
      hide RowAt, ValueAt, Stored, WellFormed, NullsReachDown, Matches, Fits, AllAccepted, Appended, UpTo;
      var filled: seq<Column> := [];
      for c := 0 to |types|
        invariant pending == old(pending) && |filled| == c
        invariant forall k :: 0 <= k < c ==>
          AllAccepted(chunk.columns[sources[k]], UpTo(chunk.size), types[k], false) &&
          Appended(pending[k], filled[k], chunk.columns[sources[k]], UpTo(chunk.size), types[k])
      {
        var column := AppendRows(chunk.columns[sources[c]], UpTo(chunk.size), types[c], pending[c], false);
        if column.None? {
          return false;
        }
        filled := filled + [column.value];
      }
      AllAppended(pending, filled, pendingRows, chunk, types, sources);
      pending := filled;
      return true;
    }

    /** One chunk: nothing for an empty one, the INSERT started by the first that is not, a block sent once enough rows
        are pending. False where the statement fails. */
    method Sink(chunk: Chunk) returns (ok: bool)
      requires Sinking() && ChunkFits(chunk, types, sources)
      modifies this`started, this`pending, this`pendingRows, this`insertCount, this`sent
      ensures ok <==> forall c :: 0 <= c < |types| ==>
        AllAccepted(chunk.columns[sources[c]], UpTo(chunk.size), types[c], false)
      ensures ok ==> Sinking()
      ensures ok ==> Rows() == old(Rows()) + StoredRows(InputRows(chunk, types, sources), types)
      ensures ok ==> insertCount == old(insertCount) + chunk.size
    {
      if chunk.size == 0 {
        assert StoredRows(InputRows(chunk, types, sources), types) == [];
        return true;
      }
      started := true;
      ghost var before := pending;
      ghost var rows := Rows();
      ok := AppendChunk(chunk);
      if !ok {
        return;
      }
      hide Stored, WellFormed, NullsReachDown, Matches, Fits, AllAccepted, Appended, UpTo;
      AppendedRows(before, pending, pendingRows, chunk, types, sources);
      pendingRows := pendingRows + chunk.size;
      insertCount := insertCount + chunk.size;
      assert Rows() == rows + StoredRows(InputRows(chunk, types, sources), types);
      if pendingRows >= blockSize {
        Flush();
      }
    }

    /** Sends what is left and ends the INSERT. */
    method Finalize()
      requires Sinking()
      modifies this`started, this`pending, this`pendingRows, this`sent
      ensures AllBlocks(sent, types) && SentRows(sent, types) == old(Rows())
      ensures forall b :: b in sent ==> b.size > 0
      ensures forall k :: 0 <= k < |sent| - 1 ==> sent[k].size >= blockSize
      ensures !started
    {
      if !started {
        assert BlockRows(pending, types, 0) == [];
        return;
      }
      ghost var before := sent;
      Flush();
      assert BlockRows(pending, types, 0) == [];
      assert forall k :: 0 <= k < |sent| - 1 ==> sent[k] == before[k] && before[k] in before;
      started := false;
    }
  }

  // ---------------------------------------------------------------- a whole INSERT

  /** All the rows of the chunks, in order. */
  ghost function AllInputRows(chunks: seq<Chunk>, types: seq<Type>, sources: seq<nat>): (r: seq<Row>)
    requires forall chunk :: chunk in chunks ==> ChunkFits(chunk, types, sources)
    ensures forall row :: row in r ==> |row| == |types|
  {
    if chunks == [] then []
    else
      AllInputRows(chunks[..|chunks| - 1], types, sources) + InputRows(chunks[|chunks| - 1], types, sources)
  }

  ghost predicate AllChunksAccepted(chunks: seq<Chunk>, types: seq<Type>, sources: seq<nat>)
    requires forall chunk :: chunk in chunks ==> ChunkFits(chunk, types, sources)
  {
    forall row :: row in AllInputRows(chunks, types, sources) ==> RowAccepted(row, types)
  }

  lemma ChunkAccepted(chunk: Chunk, types: seq<Type>, sources: seq<nat>)
    requires ChunkFits(chunk, types, sources)
    ensures (forall c :: 0 <= c < |types| ==>
        AllAccepted(chunk.columns[sources[c]], UpTo(chunk.size), types[c], false)) <==>
      forall row :: row in InputRows(chunk, types, sources) ==> RowAccepted(row, types)
  {
    hide Accepts, WellFormed, NullsReachDown, Matches, ValueAt;
    var rows := InputRows(chunk, types, sources);
    if forall row :: row in rows ==> RowAccepted(row, types) {
      forall c, i | 0 <= c < |types| && 0 <= i < chunk.size
        ensures Accepts(ValueAt(chunk.columns[sources[c]], UpTo(chunk.size)[i]), types[c], false)
      {
        assert rows[i] in rows && Accepts(rows[i][c], types[c], false);
      }
    }
    if forall c :: 0 <= c < |types| ==>
        AllAccepted(chunk.columns[sources[c]], UpTo(chunk.size), types[c], false) {
      forall row | row in rows ensures RowAccepted(row, types) {
        var i :| 0 <= i < |rows| && rows[i] == row;
        forall c | 0 <= c < |types| ensures Accepts(row[c], types[c], false) {
          assert Accepts(ValueAt(chunk.columns[sources[c]], UpTo(chunk.size)[i]), types[c], false);
        }
      }
    }
  }

  lemma StoredConcat(a: seq<Row>, b: seq<Row>, types: seq<Type>)
    requires forall row :: row in a + b ==> |row| == |types|
    requires forall row :: row in a ==> |row| == |types|
    requires forall row :: row in b ==> |row| == |types|
    ensures StoredRows(a + b, types) == StoredRows(a, types) + StoredRows(b, types)
  {
    hide StoredRow;
  }

  /** Every chunk through Sink, then Finalize. */
  method InsertAll(chunks: seq<Chunk>, types: seq<Type>, sources: seq<nat>, blockSize: nat)
      returns (ok: bool, sent: seq<Block>, insertCount: nat)
    requires |sources| == |types| && forall c :: 0 <= c < |types| ==> ValidType(types[c])
    requires forall chunk :: chunk in chunks ==> ChunkFits(chunk, types, sources)
    ensures ok <==> AllChunksAccepted(chunks, types, sources)
    ensures ok ==> AllBlocks(sent, types)
    ensures ok ==> SentRows(sent, types) == StoredRows(AllInputRows(chunks, types, sources), types)
    ensures ok ==> insertCount == |AllInputRows(chunks, types, sources)|
    ensures ok ==> forall b :: b in sent ==> b.size > 0
    ensures ok ==> forall k :: 0 <= k < |sent| - 1 ==> sent[k].size >= blockSize
  {
    hide ChunkFits, AllAccepted, Accepts, StoredRow, InputRow, IsBlock;
    var state := new GlobalState(types, sources, blockSize);
    assert chunks[..0] == [];
    assert StoredRows([], types) == [];
    for i := 0 to |chunks|
      invariant fresh(state) && state.types == types && state.sources == sources && state.blockSize == blockSize
      invariant state.Sinking()
      invariant forall chunk :: chunk in chunks[..i] ==> ChunkFits(chunk, types, sources)
      invariant AllChunksAccepted(chunks[..i], types, sources)
      invariant state.Rows() == StoredRows(AllInputRows(chunks[..i], types, sources), types)
      invariant state.insertCount == |AllInputRows(chunks[..i], types, sources)|
    {
      assert chunks[i] in chunks;
      assert chunks[..i + 1][..i] == chunks[..i] && forall chunk :: chunk in chunks[..i + 1] ==> chunk in chunks;
      ghost var earlier, here := AllInputRows(chunks[..i], types, sources), InputRows(chunks[i], types, sources);
      assert AllInputRows(chunks[..i + 1], types, sources) == earlier + here;
      assert forall row :: row in earlier + here <==> row in earlier || row in here;
      ChunkAccepted(chunks[i], types, sources);
      var accepted := state.Sink(chunks[i]);
      if !accepted {
        Refused(chunks, i + 1, types, sources);
        return false, [], 0;
      }
      StoredConcat(earlier, here, types);
    }
    assert chunks[..|chunks|] == chunks;
    insertCount := state.insertCount;
    state.Finalize();
    return true, state.sent, insertCount;
  }

  lemma {:induction false} Refused(chunks: seq<Chunk>, n: nat, types: seq<Type>, sources: seq<nat>)
    requires n <= |chunks| && forall chunk :: chunk in chunks ==> ChunkFits(chunk, types, sources)
    requires !AllChunksAccepted(chunks[..n], types, sources)
    ensures !AllChunksAccepted(chunks, types, sources)
    decreases |chunks| - n
  {
    hide ChunkFits, RowAccepted;
    if n < |chunks| {
      assert chunks[..n + 1][..n] == chunks[..n];
      assert forall row :: row in AllInputRows(chunks[..n], types, sources) ==>
        row in AllInputRows(chunks[..n + 1], types, sources);
      Refused(chunks, n + 1, types, sources);
    } else {
      assert chunks[..n] == chunks;
    }
  }

  lemma AllAppended(before: seq<Column>, after: seq<Column>, size: nat, chunk: Chunk, types: seq<Type>,
                    sources: seq<nat>)
    requires ChunkFits(chunk, types, sources) && IsBlock(before, types, size) && |after| == |types|
    requires forall c :: 0 <= c < |types| ==>
      Appended(before[c], after[c], chunk.columns[sources[c]], UpTo(chunk.size), types[c])
    ensures ChunkAppended(before, after, size, chunk, types, sources)
  {
    hide RowAt, ValueAt, Stored, WellFormed, NullsReachDown, Matches, Fits;
  }
}
