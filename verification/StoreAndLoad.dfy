/** What an INSERT sends, decoded again by the scan: the writer, the sink, the reader and the scan put together. */
module StoreAndLoad {
  import opened Columns
  import Insert
  import Reader
  import Scanner

  type Row = seq<Value>

  // ---------------------------------------------------------------- chunks as rows

  /** The rows of the vectors of a chunk. */
  function DecodedRows(output: seq<Vector>, count: nat): (r: seq<Row>)
    requires forall k :: 0 <= k < |output| ==> WellFormed(output[k]) && Length(output[k]) == count
    ensures |r| == count && forall i :: 0 <= i < count ==> r[i] == DecodedRow(output, count, i)
  {
    seq(count, i requires 0 <= i < count => DecodedRow(output, count, i))
  }

  function DecodedRow(output: seq<Vector>, count: nat, i: nat): (r: Row)
    requires i < count && forall k :: 0 <= k < |output| ==> WellFormed(output[k]) && Length(output[k]) == count
    ensures |r| == |output| && forall k :: 0 <= k < |r| ==> r[k] == ValueAt(output[k], i)
  {
    seq(|output|, k requires 0 <= k < |output| => ValueAt(output[k], i))
  }

  function Projected(row: Row, projection: seq<nat>): (r: Row)
    requires forall k :: 0 <= k < |projection| ==> projection[k] < |row|
    ensures |r| == |projection| && forall k :: 0 <= k < |r| ==> r[k] == row[projection[k]]
  {
    seq(|projection|, k requires 0 <= k < |projection| => row[projection[k]])
  }

  predicate InTable(projection: seq<nat>, types: seq<Type>) {
    forall k :: 0 <= k < |projection| ==> projection[k] < |types|
  }

  /** The rows of a block, in the columns the scan puts out. */
  function ScannedRows(block: Insert.Block, types: seq<Type>, projection: seq<nat>): (r: seq<Row>)
    requires Insert.IsBlock(block.columns, types, block.size) && InTable(projection, types)
    ensures |r| == block.size
    ensures forall i :: 0 <= i < |r| ==>
      r[i] == Projected(Insert.BlockRow(block.columns, types, block.size, i), projection)
  {
    seq(block.size, i requires 0 <= i < block.size =>
      Projected(Insert.BlockRow(block.columns, types, block.size, i), projection))
  }

  /** The query that reads the blocks back. */
  ghost function QueryOf(blocks: seq<Insert.Block>, types: seq<Type>, projection: seq<nat>): (q: Scanner.Query)
    requires Insert.AllBlocks(blocks, types) && InTable(projection, types)
    ensures |q.blocks| == |blocks| && !q.fails
    ensures forall b :: 0 <= b < |blocks| ==> q.blocks[b] == ScannedRows(blocks[b], types, projection)
  {
    Scanner.Query(seq(|blocks|, b requires 0 <= b < |blocks| => ScannedRows(blocks[b], types, projection)), false)
  }

  // ---------------------------------------------------------------- decoding

  /** A worker's chunk of its block, as ClickhouseScan puts it out: at most a vector, decoded column by column. Its rows
      are those the worker's turn adds to its batch (Scanner.Emit). */
  method PutOut(block: Insert.Block, types: seq<Type>, projection: seq<nat>, offset: nat)
      returns (output: seq<Vector>, count: nat)
    requires Insert.IsBlock(block.columns, types, block.size) && InTable(projection, types)
    requires forall c :: 0 <= c < |types| ==> ValidType(types[c])
    requires offset < block.size
    ensures 0 < count <= Scanner.STANDARD_VECTOR_SIZE && offset + count <= block.size
    ensures count < Scanner.STANDARD_VECTOR_SIZE ==> offset + count == block.size
    ensures |output| == |projection|
    ensures forall k :: 0 <= k < |output| ==> WellFormed(output[k]) && Length(output[k]) == count
    ensures DecodedRows(output, count) == ScannedRows(block, types, projection)[offset..offset + count]
  {
    hide WellFormed, Fits, ValueAt, RowAt;
    count := if block.size - offset < Scanner.STANDARD_VECTOR_SIZE then block.size - offset
             else Scanner.STANDARD_VECTOR_SIZE;
    output := Scanner.ConvertBlock(block.columns, types, block.size, offset, count, projection);
    var decoded, rows := DecodedRows(output, count), ScannedRows(block, types, projection)[offset..offset + count];
    forall i | 0 <= i < count ensures decoded[i] == rows[i] {
      forall k | 0 <= k < |projection| ensures decoded[i][k] == rows[i][k] {
        assert Reader.Reads(output[k], block.columns[projection[k]], types[projection[k]], offset, count,
                            Reader.AllValid(count));
      }
    }
  }

  /** One block, chunk by chunk. */
  method DecodeBlock(block: Insert.Block, types: seq<Type>, projection: seq<nat>) returns (rows: seq<Row>)
    requires Insert.IsBlock(block.columns, types, block.size) && InTable(projection, types)
    requires forall c :: 0 <= c < |types| ==> ValidType(types[c])
    ensures rows == ScannedRows(block, types, projection)
  {
    rows := [];
    var offset := 0;
    ghost var whole := ScannedRows(block, types, projection);
    while offset < block.size
      invariant offset <= block.size && rows == whole[..offset]
    {
      var output, count := PutOut(block, types, projection, offset);
      rows := rows + DecodedRows(output, count);
      assert whole[..offset] + whole[offset..offset + count] == whole[..offset + count];
      offset := offset + count;
    }
  }

  function AllColumns(types: seq<Type>): (r: seq<nat>)
    ensures |r| == |types| && InTable(r, types) && forall c :: 0 <= c < |r| ==> r[c] == c
  {
    seq(|types|, c requires 0 <= c < |types| => c)
  }

  lemma WholeRows(block: Insert.Block, types: seq<Type>)
    requires Insert.IsBlock(block.columns, types, block.size)
    ensures ScannedRows(block, types, AllColumns(types)) == Insert.BlockRows(block.columns, types, block.size)
  {
    forall i | 0 <= i < block.size
      ensures ScannedRows(block, types, AllColumns(types))[i] == Insert.BlockRows(block.columns, types, block.size)[i]
    {
      var row := Insert.BlockRow(block.columns, types, block.size, i);
      assert Projected(row, AllColumns(types)) == row;
    }
  }

  // ---------------------------------------------------------------- there and back

  /** Block by block. */
  method DecodeBlocks(sent: seq<Insert.Block>, types: seq<Type>) returns (rows: seq<Row>)
    requires Insert.AllBlocks(sent, types) && forall c :: 0 <= c < |types| ==> ValidType(types[c])
    ensures rows == Insert.SentRows(sent, types)
  {
    hide Insert.IsBlock;
    rows := [];
    for b := 0 to |sent|
      invariant Insert.AllBlocks(sent[..b], types) && rows == Insert.SentRows(sent[..b], types)
    {
      assert sent[b] in sent;
      var decoded := DecodeBlock(sent[b], types, AllColumns(types));
      WholeRows(sent[b], types);
      assert sent[..b + 1] == sent[..b] + [sent[b]] && sent[..b + 1][..b] == sent[..b];
      rows := rows + decoded;
    }
    assert sent[..|sent|] == sent;
  }

  /** Everything put in comes back: all chunks through the INSERT, then the blocks it sent through the reader. */
  method InsertAndRead(chunks: seq<Insert.Chunk>, types: seq<Type>, sources: seq<nat>, blockSize: nat)
      returns (ok: bool, rows: seq<Row>, insertCount: nat)
    requires |sources| == |types| && forall c :: 0 <= c < |types| ==> ValidType(types[c])
    requires forall chunk :: chunk in chunks ==> Insert.ChunkFits(chunk, types, sources)
    ensures ok <==> Insert.AllChunksAccepted(chunks, types, sources)
    ensures ok ==> insertCount == |rows|
    ensures ok ==> rows == Insert.StoredRows(Insert.AllInputRows(chunks, types, sources), types)
    ensures ok && (forall c :: 0 <= c < |types| ==> Lossless(types[c])) ==>
      rows == Insert.AllInputRows(chunks, types, sources)
  {
    hide Insert.ChunkFits, Insert.AllChunksAccepted, Insert.AllBlocks, Lossless, ValidType;
    var sent: seq<Insert.Block>;
    ok, sent, insertCount := Insert.InsertAll(chunks, types, sources, blockSize);
    rows := [];
    if ok {
      rows := DecodeBlocks(sent, types);
      if forall c :: 0 <= c < |types| ==> Lossless(types[c]) {
        AcceptedAsTheyAre(chunks, types, sources);
      }
    }
  }

  lemma AcceptedAsTheyAre(chunks: seq<Insert.Chunk>, types: seq<Type>, sources: seq<nat>)
    requires |sources| == |types| && forall c :: 0 <= c < |types| ==> ValidType(types[c]) && Lossless(types[c])
    requires forall chunk :: chunk in chunks ==> Insert.ChunkFits(chunk, types, sources)
    requires Insert.AllChunksAccepted(chunks, types, sources)
    ensures Insert.StoredRows(Insert.AllInputRows(chunks, types, sources), types) ==
            Insert.AllInputRows(chunks, types, sources)
  {
    Insert.RowsAsTheyAre(Insert.AllInputRows(chunks, types, sources), types);
  }

  /** The same by any interleaving of scan workers over the blocks: their chunks, by batch, are the rows sent. */
  lemma ScanReadsBack(sent: seq<Insert.Block>, types: seq<Type>, turns: seq<nat>, last: Scanner.Scan)
    requires Insert.AllBlocks(sent, types)
    requires var q := QueryOf(sent, types, AllColumns(types));
      Scanner.Run(q, turns, last) && last.finished && Scanner.Drained(q, last)
    ensures Scanner.Flatten(last.chunks) == Insert.SentRows(sent, types)
  {
    hide Scanner.Run, Scanner.Drained;
    var q := QueryOf(sent, types, AllColumns(types));
    Scanner.RunKeeps(q, turns, last);
    Scanner.EveryRowOnce(q, turns, last);
    FlattenedRows(sent, types, q.blocks);
  }

  lemma {:induction false} FlattenedRows(sent: seq<Insert.Block>, types: seq<Type>, blocks: seq<seq<Row>>)
    requires Insert.AllBlocks(sent, types) && |blocks| == |sent|
    requires forall b :: 0 <= b < |sent| ==> blocks[b] == ScannedRows(sent[b], types, AllColumns(types))
    ensures Scanner.Flatten(blocks) == Insert.SentRows(sent, types)
  {
    if sent != [] {
      var n := |sent| - 1;
      FlattenedRows(sent[..n], types, blocks[..n]);
      WholeRows(sent[n], types);
    }
  }
}
