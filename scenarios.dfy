/**
 * Clients of the storage layer: tables filled through Table's methods and a
 * registry used through StorageManager's, with what they observe afterwards
 * proved from the contracts above.
 */
module StorageScenarios {
  import opened StorageTypes
  import opened StorageChunk
  import opened StorageTable
  import opened StorageRegistry
  import Partition
  import TableData

  /** The columns of a chunk of the two-column schema holding the given ids and names. */
  function IdNameChunk(ids: seq<Value>, names: seq<Value>): seq<Column> {
    [Column("int", ids), Column("string", names)]
  }

  const IdNameTypes: seq<string> := ["int", "string"]

  /** A chunk of the two-column schema holding no row. */
  lemma EmptyIdNameChunk()
    ensures TableData.AddColumnData(TableData.AddColumnData([[]], "int"), "string") == [IdNameChunk([], [])]
    ensures EmptyColumns(IdNameTypes) == IdNameChunk([], [])
  {
    var r := TableData.AddColumnData([[]], "int");
    assert r[0] == [] + [EmptyColumn("int")] == [Column("int", [])];
    var r2 := TableData.AddColumnData(r, "string");
    assert r2[0] == [Column("int", [])] + [EmptyColumn("string")] == IdNameChunk([], []);
  }

  /** (1, "a") into the empty chunk of capacity 2: no new chunk. */
  lemma FirstRow()
    ensures TableData.AppendRowData([IdNameChunk([], [])], IdNameTypes, 2, [IntValue(1), StringValue("a")])
      == [IdNameChunk([IntValue(1)], [StringValue("a")])]
  {
    var empty := IdNameChunk([], []);
    PushTwo(empty, IntValue(1), StringValue("a"));
    assert TableData.SizesOf([empty]) == [0];
    assert [] + [IntValue(1)] == [IntValue(1)] && [] + [StringValue("a")] == [StringValue("a")];
    assert [empty][..0] + [PushRow(empty, [IntValue(1), StringValue("a")])] == [IdNameChunk([IntValue(1)], [StringValue("a")])];
  }

  /** (2, "b") into a chunk holding one row: it fills the chunk. */
  lemma SecondRow()
    ensures TableData.AppendRowData([IdNameChunk([IntValue(1)], [StringValue("a")])], IdNameTypes, 2, [IntValue(2), StringValue("b")])
      == [IdNameChunk([IntValue(1), IntValue(2)], [StringValue("a"), StringValue("b")])]
  {
    var c1 := IdNameChunk([IntValue(1)], [StringValue("a")]);
    PushTwo(c1, IntValue(2), StringValue("b"));
    assert TableData.SizesOf([c1]) == [1];
    assert [IntValue(1)] + [IntValue(2)] == [IntValue(1), IntValue(2)];
    assert [StringValue("a")] + [StringValue("b")] == [StringValue("a"), StringValue("b")];
  }

  /** (3, "c") behind a full chunk: a second chunk is opened for it. */
  lemma ThirdRow()
    ensures var c2 := IdNameChunk([IntValue(1), IntValue(2)], [StringValue("a"), StringValue("b")]);
      TableData.AppendRowData([c2], IdNameTypes, 2, [IntValue(3), StringValue("c")])
      == [c2, IdNameChunk([IntValue(3)], [StringValue("c")])]
  {
    var c2 := IdNameChunk([IntValue(1), IntValue(2)], [StringValue("a"), StringValue("b")]);
    EmptyIdNameChunk();
    PushTwo(IdNameChunk([], []), IntValue(3), StringValue("c"));
    assert TableData.SizesOf([c2]) == [2];
    assert [] + [IntValue(3)] == [IntValue(3)] && [] + [StringValue("c")] == [StringValue("c")];
  }

  /**
   * A table of capacity 2 with columns ("id", "int") and ("name", "string"),
   * filled with (1, "a"), (2, "b"), (3, "c"), followed on its contents: two
   * chunks, the first full, three rows.
   */
  lemma TwoChunkTable()
    ensures var empty := TableData.AddColumnData(TableData.AddColumnData([[]], "int"), "string");
      var one := TableData.AppendRowData(empty, IdNameTypes, 2, [IntValue(1), StringValue("a")]);
      var two := TableData.AppendRowData(one, IdNameTypes, 2, [IntValue(2), StringValue("b")]);
      var three := TableData.AppendRowData(two, IdNameTypes, 2, [IntValue(3), StringValue("c")]);
      && three == [IdNameChunk([IntValue(1), IntValue(2)], [StringValue("a"), StringValue("b")]),
                   IdNameChunk([IntValue(3)], [StringValue("c")])]
      && Partition.RowCountFormula(TableData.SizesOf(three), 2) == 3
  {
    EmptyIdNameChunk();
    FirstRow();
    SecondRow();
    ThirdRow();
    var c2 := IdNameChunk([IntValue(1), IntValue(2)], [StringValue("a"), StringValue("b")]);
    var c3 := IdNameChunk([IntValue(3)], [StringValue("c")]);
    assert TableData.SizesOf([c2, c3]) == [2, 1];
  }

  /** Pushing a row onto a two-column chunk. */
  lemma PushTwo(cols: seq<Column>, id: Value, name: Value)
    requires |cols| == 2
    ensures PushRow(cols, [id, name]) == [cols[0].Push(id), cols[1].Push(name)]
  {
  }

  /** A table of capacity k with the single column ("id", "int") and no row. */
  method NewIdTable(k: nat) returns (t: Table)
    ensures fresh(t) && |t.chunks| == 1 && fresh(t.chunks[0])
    ensures t.Valid() && t.SchemaMatches() && t.chunkSize == k
    ensures t.columnNames == ["id"] && t.columnTypes == ["int"]
    ensures t.Sizes() == [0]
  {
    t := new Table(k);
    TableData.FreshContents(k);
    t.AddColumn("id", "int");
  }

  /** One more row, (i), on a one-column table through Table.append: the
      partition invariants hold on and the row count formula grows by one. */
  method AppendId(t: Table, i: int)
    requires t.Valid() && t.SchemaMatches() && t.columnTypes == ["int"]
    requires t.Partitioned() && t.Compact()
    modifies t, t.chunks
    ensures t.Valid() && t.SchemaMatches() && t.columnTypes == ["int"]
    ensures t.Partitioned() && t.Compact()
    ensures Partition.RowCountFormula(t.Sizes(), t.chunkSize) == Partition.RowCountFormula(old(t.Sizes()), t.chunkSize) + 1
    ensures |old(t.chunks)| <= |t.chunks|
    ensures forall j :: 0 <= j < |t.chunks| ==> (j < |old(t.chunks)| && t.chunks[j] == old(t.chunks[j])) || fresh(t.chunks[j])
  {
    assert HasSchema(t.Contents[|t.Contents| - 1], t.columnTypes);
    t.Append([IntValue(i)]);
  }

  /** An unbounded table with one column and no row. */
  method EmptyUnboundedTable() returns (rowCount: nat, chunkCount: nat, colCount: nat)
    ensures rowCount == 0 && chunkCount == 1 && colCount == 1
  {
    var t := NewIdTable(0);
    rowCount := t.RowCount();
    chunkCount := t.ChunkCount();
    colCount := t.ColCount();
  }

  /** After add_table and drop_table of the same name the name is gone and get_table fails. */
  method AddThenDrop(table: Table) returns (hadIt: bool, dropped: Outcome, hasIt: bool, lookupFails: bool)
    ensures hadIt && dropped == Pass && !hasIt && lookupFails
  {
    var registry := new StorageManager();
    registry.AddTable("x", table);
    hadIt := registry.HasTable("x");
    dropped := registry.DropTable("x");
    hasIt := registry.HasTable("x");
    lookupFails := registry.GetTable("x").Err?;
  }

  /** A second add_table under a taken name keeps the first table. */
  method AddTwice(first: Table, second: Table) returns (kept: bool)
    ensures kept
  {
    var registry := new StorageManager();
    registry.AddTable("x", first);
    registry.AddTable("x", second);
    kept := registry.GetTable("x") == Ok(first);
  }

  /** reset drops the registry's entries but a table already looked up stays readable. */
  method ResetKeepsTableReadable() returns (hasIt: bool, colCount: nat)
    ensures !hasIt && colCount == 1
  {
    var t := NewIdTable(0);
    var registry := new StorageManager();
    registry.AddTable("t", t);
    var found := registry.GetTable("t");
    registry.Reset();
    hasIt := registry.HasTable("t");
    var held := found.value;
    assert held == t;
    colCount := held.ColCount();
  }

  /** column_id_by_name gives the same answer when asked twice. */
  method ColumnIdIsStable(t: Table, name: string) returns (first: Result<nat>, second: Result<nat>)
    ensures first == second
  {
    first := t.ColumnIdByName(name);
    second := t.ColumnIdByName(name);
  }

  /**
   * A one-column table of capacity k filled with n rows through Table.append:
   * it then holds n rows, one chunk when k == 0, and ceil(n / k) chunks
   * (one when n == 0) otherwise.
   */
  method FillTable(k: nat, n: nat) returns (rowCount: nat, chunkCount: nat)
    ensures rowCount == n
    ensures k == 0 ==> chunkCount == 1
    ensures n == 0 ==> chunkCount == 1
    ensures k > 0 && n > 0 ==> (chunkCount - 1) * k < n <= chunkCount * k
  {
    var t := NewIdTable(k);
    TableData.FreshContents(k);
    var i := 0;
    while i < n
      invariant 0 <= i <= n
      invariant fresh(t) && forall j :: 0 <= j < |t.chunks| ==> fresh(t.chunks[j])
      invariant t.Valid() && t.SchemaMatches() && t.columnTypes == ["int"] && t.chunkSize == k
      invariant t.Partitioned() && t.Compact()
      invariant Partition.RowCountFormula(t.Sizes(), k) == i
    {
      AppendId(t, i);
      i := i + 1;
    }
    Partition.ChunkCountOfRowCount(t.Sizes(), k, n);
    rowCount := t.RowCount();
    chunkCount := t.ChunkCount();
  }
}
