/**
 * A table: a schema (parallel lists of column names and type tags), a chunk
 * capacity, and an ordered list of chunks (src/lib/storage/table.cpp).
 */
module StorageTable {
  import opened StorageTypes
  import opened StorageChunk
  import Partition
  import TableData

  /** No chunk appears twice: each is owned by exactly one position. */
  predicate Distinct(chunks: seq<Chunk>) {
    forall i, j :: 0 <= i < j < |chunks| ==> chunks[i] != chunks[j]
  }

  class Table {
    var columnNames: seq<string>
    var columnTypes: seq<string>
    var chunks: seq<Chunk>
    /** Rows per chunk; 0 means a single unbounded chunk. */
    const chunkSize: nat

    /** The table's data as a value: each chunk's column list, in order. */
    ghost var Contents: seq<seq<Column>>

    /** The chunk objects are distinct and hold exactly Contents. */
    ghost predicate ChunksMatch()
      reads this, chunks
    {
      && Distinct(chunks)
      && |Contents| == |chunks|
      && forall i :: 0 <= i < |chunks| ==> chunks[i].columns == Contents[i]
    }

    /** Object invariant: at least one chunk, a schema of paired lists, chunks matching Contents. */
    ghost predicate Valid()
      reads this, chunks
    {
      |chunks| >= 1 && |columnNames| == |columnTypes| && ChunksMatch()
    }

    /** The size (row count) of each chunk, in order. */
    ghost function Sizes(): seq<nat>
      reads this
    {
      TableData.SizesOf(Contents)
    }

    /** Every chunk has one column per schema entry, of the schema's type, in order. */
    ghost predicate SchemaMatches()
      reads this
    {
      TableData.AllHaveSchema(Contents, columnTypes)
    }

    /** Every chunk's columns have equal length. */
    ghost predicate Rectangular()
      reads this
    {
      TableData.AllRectangular(Contents)
    }

    /** All chunks but the last are full, the last at most full; one chunk when unbounded. */
    ghost predicate Partitioned()
      reads this
    {
      Partition.Partitioned(Sizes(), chunkSize)
    }

    /** Only a sole chunk is ever empty. */
    ghost predicate Compact()
      reads this
    {
      Partition.Compact(Sizes())
    }

    /** The test at table.cpp:39: bounded capacity and a full last chunk. */
    predicate NeedsNewChunk()
      reads this, chunks
      requires |chunks| >= 1
      ensures Valid() ==> (NeedsNewChunk() <==> Partition.NeedsNewChunk(Sizes(), chunkSize))
    {
      chunkSize != 0 && chunks[|chunks| - 1].Size() == chunkSize
    }

    /** A new table holds one chunk with no columns and no rows; the
        invariants it starts with are TableData.FreshContents. */
    constructor (chunkSize: nat)
      ensures Valid() && |chunks| == 1 && fresh(chunks[0])
      ensures this.chunkSize == chunkSize
      ensures columnNames == [] && columnTypes == []
      ensures Contents == [[]]
      ensures Sizes() == [0]
      ensures ChunkCount() == 1 && ColCount() == 0 && ChunkSize() == chunkSize && RowCount() == 0
    {
      this.chunkSize := chunkSize;
      columnNames := [];
      columnTypes := [];
      chunks := [];
      Contents := [];
      new;
      CreateNewChunk();
      assert chunks[0].columns == [];
      assert Contents == [[]];
      TableData.FreshContents(chunkSize);
      assert Sizes() == [0];
      assert chunks[0].Size() == 0;
    }

    /** Extends the schema by one entry; no chunk is touched. */
    method AddColumnDefinition(name: string, typeName: string)
      requires Valid()
      modifies this
      ensures Valid()
      ensures columnNames == old(columnNames) + [name]
      ensures columnTypes == old(columnTypes) + [typeName]
      ensures chunks == old(chunks) && Contents == old(Contents)
    {
      columnNames := columnNames + [name];
      columnTypes := columnTypes + [typeName];
    }

    /**
     * Extends the schema by one entry and every chunk by one empty column of
     * that type. Row counts are unchanged; the chunks stay rectangular exactly
     * when they were all empty.
     */
    method AddColumn(name: string, typeName: string)
      requires Valid()
      modifies this, chunks
      ensures Valid()
      ensures columnNames == old(columnNames) + [name]
      ensures columnTypes == old(columnTypes) + [typeName]
      ensures chunks == old(chunks)
      ensures Contents == TableData.AddColumnData(old(Contents), typeName)
      ensures Sizes() == old(Sizes())
      ensures old(Partitioned()) ==> Partitioned()
      ensures old(Compact()) ==> Compact()
      ensures old(SchemaMatches()) ==> SchemaMatches()
      ensures old(Rectangular()) ==> (Rectangular() <==> forall i :: 0 <= i < |chunks| ==> old(Sizes())[i] == 0)
    {
      AddColumnDefinition(name, typeName);
      AddEmptyColumnToChunks(typeName);
      TableData.AddColumnKeepsInvariants(old(Contents), old(columnTypes), chunkSize, typeName);
    }

    /** The loop of table.cpp:32-35: one more empty column of that type in every chunk. */
    method AddEmptyColumnToChunks(typeName: string)
      requires Valid()
      modifies this, chunks
      ensures Valid()
      ensures columnNames == old(columnNames) && columnTypes == old(columnTypes) && chunks == old(chunks)
      ensures Contents == TableData.AddColumnData(old(Contents), typeName)
    {
      for i := 0 to |chunks|
        invariant Distinct(chunks) && |Contents| == |chunks|
        invariant columnNames == old(columnNames) && columnTypes == old(columnTypes)
        invariant chunks == old(chunks) && Contents == old(Contents)
        invariant forall m :: 0 <= m < i ==> chunks[m].columns == Contents[m] + [EmptyColumn(typeName)]
        invariant forall m :: i <= m < |chunks| ==> chunks[m].columns == Contents[m]
      {
        chunks[i].AddColumn(EmptyColumn(typeName));
      }
      Contents := TableData.AddColumnData(Contents, typeName);
    }

    /**
     * Appends one row. When the capacity is bounded and the last chunk is
     * full, a new chunk is started first; the row goes to the last chunk.
     * The row must carry one value per column of that chunk.
     */
    method Append(values: seq<Value>)
      requires Valid()
      requires |values| == TableData.TargetWidth(Contents, columnTypes, chunkSize)
      modifies this, chunks
      ensures Valid()
      ensures columnNames == old(columnNames) && columnTypes == old(columnTypes)
      ensures Contents == TableData.AppendRowData(old(Contents), columnTypes, chunkSize, values)
      ensures Partition.NeedsNewChunk(old(Sizes()), chunkSize) ==>
        && |chunks| == |old(chunks)| + 1
        && chunks[..|old(chunks)|] == old(chunks)
        && fresh(chunks[|chunks| - 1])
      ensures !Partition.NeedsNewChunk(old(Sizes()), chunkSize) ==> chunks == old(chunks)
      ensures |values| > 0 ==> Sizes() == Partition.AppendRow(old(Sizes()), chunkSize)
      ensures old(Partitioned()) ==> Partitioned()
      ensures old(Partitioned()) && |values| > 0 ==>
        Partition.RowCountFormula(Sizes(), chunkSize) == Partition.RowCountFormula(old(Sizes()), chunkSize) + 1
      ensures old(Partitioned()) && old(Compact()) && |values| > 0 ==> Compact()
      ensures old(SchemaMatches()) ==> SchemaMatches()
      ensures old(Rectangular()) ==> Rectangular()
    {
      ghost var data := Contents;
      StoreRow(values);
      TableData.AppendRowKeepsInvariants(data, columnTypes, chunkSize, values);
    }

    /** The chunk-level half of Append: open a chunk when the last one is full,
        then push the row onto the last chunk. */
    method StoreRow(values: seq<Value>)
      requires Valid()
      requires |values| == TableData.TargetWidth(Contents, columnTypes, chunkSize)
      modifies this, chunks
      ensures Valid()
      ensures columnNames == old(columnNames) && columnTypes == old(columnTypes)
      ensures Contents == TableData.AppendRowData(old(Contents), columnTypes, chunkSize, values)
      ensures Partition.NeedsNewChunk(old(Sizes()), chunkSize) ==>
        && |chunks| == |old(chunks)| + 1
        && chunks[..|old(chunks)|] == old(chunks)
        && fresh(chunks[|chunks| - 1])
      ensures !Partition.NeedsNewChunk(old(Sizes()), chunkSize) ==> chunks == old(chunks)
    {
      ghost var data := Contents;
      if NeedsNewChunk() {
        CreateNewChunk();
        assert Contents[..|Contents| - 1] == data;
        AppendToLast(values);
        assert Contents == data + [PushRow(EmptyColumns(columnTypes), values)];
      } else {
        AppendToLast(values);
        assert Contents == data[..|data| - 1] + [PushRow(data[|data| - 1], values)];
      }
    }

    /** Pushes a row onto the last chunk (table.cpp:42); the other chunks are untouched. */
    method AppendToLast(values: seq<Value>)
      requires Valid()
      requires |values| == |Contents[|Contents| - 1]|
      modifies this, chunks[|chunks| - 1]
      ensures Valid()
      ensures columnNames == old(columnNames) && columnTypes == old(columnTypes) && chunks == old(chunks)
      ensures Contents == old(Contents[..|Contents| - 1]) + [PushRow(old(Contents[|Contents| - 1]), values)]
    {
      var last := chunks[|chunks| - 1];
      last.Append(values);
      Contents := Contents[..|Contents| - 1] + [last.columns];
      forall i | 0 <= i < |chunks| - 1
        ensures chunks[i].columns == Contents[i]
      {
        assert chunks[i] != last;
      }
    }

    /** Appends a chunk with one empty column per schema entry, in schema order. */
    method CreateNewChunk()
      requires ChunksMatch()
      modifies this
      ensures ChunksMatch()
      ensures columnNames == old(columnNames) && columnTypes == old(columnTypes)
      ensures |chunks| == |old(chunks)| + 1 && chunks[..|old(chunks)|] == old(chunks)
      ensures fresh(chunks[|chunks| - 1])
      ensures Contents == old(Contents) + [EmptyColumns(columnTypes)]
    {
      var chunk := new Chunk();
      var types := columnTypes;
      for j := 0 to |types|
        modifies chunk
        invariant chunk.columns == EmptyColumns(types[..j])
      {
        assert types[..j + 1] == types[..j] + [types[j]];
        chunk.AddColumn(EmptyColumn(types[j]));
      }
      assert types[..|types|] == types;
      chunks := chunks + [chunk];
      Contents := Contents + [chunk.columns];
    }

    /** The column count, read from the first chunk. */
    function ColCount(): (n: nat)
      reads this, chunks
      requires |chunks| >= 1
      ensures Valid() && SchemaMatches() ==> n == |columnNames|
    {
      chunks[0].ColCount()
    }

    /**
     * Rows counted as in table.cpp:59-62: all chunks but the last as full.
     * Under the partition invariant that is the sum of all chunk sizes.
     */
    function RowCount(): (n: nat)
      reads this, chunks
      requires |chunks| >= 1
      ensures Valid() ==> n == Partition.RowCountFormula(Sizes(), chunkSize)
      ensures Valid() && Partitioned() ==> n == Partition.Sum(Sizes())
    {
      var last := |chunks| - 1;
      var n := last * chunkSize + chunks[last].Size();
      assert Valid() ==> n == Partition.RowCountFormula(Sizes(), chunkSize) by {
        if Valid() {
          assert chunks[last].columns == Contents[last];
          assert Sizes()[last] == chunks[last].Size();
        }
      }
      assert Valid() && Partitioned() ==> n == Partition.Sum(Sizes()) by {
        if Valid() && Partitioned() {
          Partition.RowCountIsSum(Sizes(), chunkSize);
        }
      }
      n
    }

    function ChunkCount(): (n: nat)
      reads this
      requires |chunks| >= 1
      ensures n >= 1 && n == |chunks|
    {
      |chunks|
    }

    /** The smallest position whose name is the given one; an error when there is none. */
    method ColumnIdByName(name: string) returns (r: Result<nat>)
      ensures r.Ok? ==> r.value < |columnNames| && ColumnName(r.value) == name
      ensures r.Ok? ==> forall j :: 0 <= j < r.value ==> columnNames[j] != name
      ensures r.Err? <==> name !in columnNames
      ensures r.Err? ==> r.error == ColumnNotFound(name)
    {
      var i := 0;
      while i < |columnNames|
        invariant 0 <= i <= |columnNames|
        invariant forall j :: 0 <= j < i ==> columnNames[j] != name
      {
        if columnNames[i] == name {
          return Ok(i);
        }
        i := i + 1;
      }
      return Err(ColumnNotFound(name));
    }

    /** The capacity fixed at construction: under the partition invariant,
        the row count of every chunk but the last. */
    function ChunkSize(): (k: nat)
      reads this, chunks
      ensures k == chunkSize
      ensures Valid() && Partitioned() ==> forall i :: 0 <= i < |chunks| - 1 ==> chunks[i].Size() == k
    {
      chunkSize
    }

    function ColumnNames(): (names: seq<string>)
      reads this
      ensures |names| == |columnNames| && forall j :: 0 <= j < |names| ==> names[j] == ColumnName(j)
    {
      columnNames
    }

    /** The name at position id; the caller must pass an id below the column count. */
    function ColumnName(id: nat): (name: string)
      reads this
      requires id < |columnNames|
      ensures name in columnNames && name == columnNames[id]
    {
      columnNames[id]
    }

    /** The type tag at position id; the caller must pass an id below the column count. */
    function ColumnType(id: nat): (typeName: string)
      reads this, chunks
      requires id < |columnTypes|
      ensures typeName == columnTypes[id]
      ensures Valid() && SchemaMatches() ==> forall i :: 0 <= i < |chunks| ==> chunks[i].columns[id].typeName == typeName
    {
      columnTypes[id]
    }

    /** The chunk at position id; the caller must pass an id below the chunk count. */
    function GetChunk(id: nat): (chunk: Chunk)
      reads this, chunks
      requires id < |chunks|
      ensures chunk == chunks[id] && chunk in chunks
      ensures Valid() ==> chunk.columns == Contents[id] && chunk.Size() == Sizes()[id]
    {
      chunks[id]
    }
  }

  /**
   * row_count on a table just constructed (table.cpp:59-62): its only chunk
   * has no column, so the size read of chunk.cpp:36-41 as written
   * (Chunk.SizeAsWritten) has no column 0 to read; Chunk.Size gives 0.
   */
  method FreshTableRowCount(chunkSize: nat) returns (n: nat, lastHasColumn: bool)
    ensures n == 0 && !lastHasColumn
  {
    var t := new Table(chunkSize);
    var last := t.GetChunk(t.ChunkCount() - 1);
    lastHasColumn := last.ColCount() > 0;
    n := t.RowCount();
  }
}
