/**
 * The contents of a table as a value: the column lists of its chunks, in
 * order. Table's methods (table.cpp) are specified by the functions here,
 * and the invariants they keep are proved here once, on values.
 */
module TableData {
  import opened StorageTypes
  import Partition

  /** The size (row count) of each chunk, in order. */
  function SizesOf(data: seq<seq<Column>>): (s: seq<nat>)
    ensures |s| == |data|
    ensures forall i :: 0 <= i < |data| ==> s[i] == Rows(data[i])
  {
    seq(|data|, i requires 0 <= i < |data| => Rows(data[i]))
  }

  /** Every chunk has one column per schema entry, of the schema's type, in order. */
  predicate AllHaveSchema(data: seq<seq<Column>>, types: seq<string>) {
    forall i :: 0 <= i < |data| ==> HasSchema(data[i], types)
  }

  /** Every chunk's columns have equal length. */
  predicate AllRectangular(data: seq<seq<Column>>) {
    forall i :: 0 <= i < |data| ==> EqualLengths(data[i])
  }

  /** How many values the next row must carry: the column count of the chunk that receives it. */
  function TargetWidth(data: seq<seq<Column>>, types: seq<string>, k: nat): (w: nat)
    requires |data| >= 1
    ensures AllHaveSchema(data, types) ==> w == |types|
  {
    if Partition.NeedsNewChunk(SizesOf(data), k) then |types| else |data[|data| - 1]|
  }

  /** Table::append on contents: a full last chunk (bounded capacity) makes
      room for a new chunk of empty columns; the row goes to the last chunk. */
  function AppendRowData(data: seq<seq<Column>>, types: seq<string>, k: nat, values: seq<Value>): (r: seq<seq<Column>>)
    requires |data| >= 1 && |values| == TargetWidth(data, types, k)
    ensures |r| == if Partition.NeedsNewChunk(SizesOf(data), k) then |data| + 1 else |data|
  {
    if Partition.NeedsNewChunk(SizesOf(data), k) then data + [PushRow(EmptyColumns(types), values)]
    else data[..|data| - 1] + [PushRow(data[|data| - 1], values)]
  }

  /** Table::add_column on contents: one more empty column of that type in every chunk. */
  function AddColumnData(data: seq<seq<Column>>, typeName: string): (r: seq<seq<Column>>)
    ensures |r| == |data|
    ensures forall i :: 0 <= i < |data| ==> r[i] == data[i] + [EmptyColumn(typeName)]
  {
    seq(|data|, i requires 0 <= i < |data| => data[i] + [EmptyColumn(typeName)])
  }

  /** The contents of a new table, one chunk without columns, satisfy every
      table invariant for any capacity, and count no row. */
  lemma FreshContents(k: nat)
    ensures SizesOf([[]]) == [0]
    ensures Partition.Partitioned([0], k) && Partition.Compact([0])
    ensures Partition.RowCountFormula([0], k) == 0 == Partition.Sum([0])
    ensures AllHaveSchema([[]], []) && AllRectangular([[]])
  {
    assert Partition.Sum([0]) == Partition.Sum([]) + 0;
  }

  /** Appending a row moves the chunk sizes by Partition.AppendRow; a row of no
      values (into a chunk without columns) only may open an empty chunk. */
  lemma AppendRowSizes(data: seq<seq<Column>>, types: seq<string>, k: nat, values: seq<Value>)
    requires |data| >= 1 && |values| == TargetWidth(data, types, k)
    ensures |values| > 0 ==> SizesOf(AppendRowData(data, types, k, values)) == Partition.AppendRow(SizesOf(data), k)
    ensures |values| == 0 ==>
      SizesOf(AppendRowData(data, types, k, values)) == if Partition.NeedsNewChunk(SizesOf(data), k) then SizesOf(data) + [0] else SizesOf(data)
  {
    var s := SizesOf(data);
    var next := SizesOf(AppendRowData(data, types, k, values));
    if Partition.NeedsNewChunk(SizesOf(data), k) {
      OpenChunkSizes(data, types, values);
      assert next == s + [if |values| > 0 then 1 else 0];
    } else {
      LastChunkSizes(data, values);
      assert next == s[..|s| - 1] + [if |values| > 0 then Partition.Last(s) + 1 else Partition.Last(s)];
      assert |values| == 0 ==> next == s;
    }
  }

  /** Sizes after the row goes into a newly opened chunk. */
  lemma OpenChunkSizes(data: seq<seq<Column>>, types: seq<string>, values: seq<Value>)
    requires |values| == |types|
    ensures SizesOf(data + [PushRow(EmptyColumns(types), values)]) == SizesOf(data) + [if |values| > 0 then 1 else 0]
  {
    EmptyColumnsShape(types);
    SizesOfSnoc(data, PushRow(EmptyColumns(types), values));
  }

  /** Sizes after the row goes into the last chunk. */
  lemma LastChunkSizes(data: seq<seq<Column>>, values: seq<Value>)
    requires |data| >= 1 && |values| == |data[|data| - 1]|
    ensures SizesOf(data[..|data| - 1] + [PushRow(data[|data| - 1], values)]) ==
      SizesOf(data)[..|data| - 1] + [if |values| > 0 then Rows(data[|data| - 1]) + 1 else Rows(data[|data| - 1])]
  {
    var n := |data| - 1;
    SizesOfSnoc(data[..n], PushRow(data[n], values));
    assert SizesOf(data[..n]) == SizesOf(data)[..n];
  }

  lemma SizesOfSnoc(init: seq<seq<Column>>, cols: seq<Column>)
    ensures SizesOf(init + [cols]) == SizesOf(init) + [Rows(cols)]
  {
    assert (init + [cols])[..|init|] == init;
  }

  /** Appending keeps every chunk matching the schema. */
  lemma AppendRowKeepsSchema(data: seq<seq<Column>>, types: seq<string>, k: nat, values: seq<Value>)
    requires |data| >= 1 && |values| == TargetWidth(data, types, k)
    requires AllHaveSchema(data, types)
    ensures AllHaveSchema(AppendRowData(data, types, k, values), types)
  {
    EmptyColumnsShape(types);
  }

  /** Appending keeps every chunk rectangular. */
  lemma AppendRowKeepsRectangular(data: seq<seq<Column>>, types: seq<string>, k: nat, values: seq<Value>)
    requires |data| >= 1 && |values| == TargetWidth(data, types, k)
    requires AllRectangular(data)
    ensures AllRectangular(AppendRowData(data, types, k, values))
  {
    EmptyColumnsShape(types);
  }

  /** Appending keeps the partition invariant, and (for a non-empty row) compactness,
      and the row count formula then grows by exactly one. */
  lemma AppendRowKeepsPartition(data: seq<seq<Column>>, types: seq<string>, k: nat, values: seq<Value>)
    requires |data| >= 1 && |values| == TargetWidth(data, types, k)
    requires Partition.Partitioned(SizesOf(data), k)
    ensures Partition.Partitioned(SizesOf(AppendRowData(data, types, k, values)), k)
    ensures |values| > 0 && Partition.Compact(SizesOf(data)) ==> Partition.Compact(SizesOf(AppendRowData(data, types, k, values)))
    ensures |values| > 0 ==>
      Partition.RowCountFormula(SizesOf(AppendRowData(data, types, k, values)), k) ==
      Partition.RowCountFormula(SizesOf(data), k) + 1
  {
    var s := SizesOf(data);
    var next := SizesOf(AppendRowData(data, types, k, values));
    AppendRowSizes(data, types, k, values);
    if |values| > 0 {
      assert next == Partition.AppendRow(s, k);
      Partition.AppendRowPreservesPartitioned(s, k);
      Partition.RowCountIsSum(s, k);
      Partition.RowCountIsSum(next, k);
      Partition.AppendRowShape(s, k);
      if Partition.Compact(s) {
        Partition.AppendRowPreservesCompact(s, k);
      }
    } else if Partition.NeedsNewChunk(s, k) {
      assert next == s + [0];
      Partition.OpenEmptyChunkPreservesPartitioned(s, k);
    }
  }

  /** Everything Table::append keeps, in one statement. */
  lemma AppendRowKeepsInvariants(data: seq<seq<Column>>, types: seq<string>, k: nat, values: seq<Value>)
    requires |data| >= 1 && |values| == TargetWidth(data, types, k)
    ensures var s := SizesOf(data);
      var next := SizesOf(AppendRowData(data, types, k, values));
      && (|values| > 0 ==> next == Partition.AppendRow(s, k))
      && (Partition.Partitioned(s, k) ==> Partition.Partitioned(next, k))
      && (Partition.Partitioned(s, k) && |values| > 0 ==> Partition.RowCountFormula(next, k) == Partition.RowCountFormula(s, k) + 1)
      && (Partition.Partitioned(s, k) && Partition.Compact(s) && |values| > 0 ==> Partition.Compact(next))
    ensures AllHaveSchema(data, types) ==> AllHaveSchema(AppendRowData(data, types, k, values), types)
    ensures AllRectangular(data) ==> AllRectangular(AppendRowData(data, types, k, values))
  {
    AppendRowSizes(data, types, k, values);
    if Partition.Partitioned(SizesOf(data), k) {
      AppendRowKeepsPartition(data, types, k, values);
    }
    if AllHaveSchema(data, types) {
      AppendRowKeepsSchema(data, types, k, values);
    }
    if AllRectangular(data) {
      AppendRowKeepsRectangular(data, types, k, values);
    }
  }

  /** The appended row can be read back: the chunk that received it ends with
      values[j] in column j, below the cells that column already held. */
  lemma AppendRowRetrievable(data: seq<seq<Column>>, types: seq<string>, k: nat, values: seq<Value>)
    requires |data| >= 1 && |values| == TargetWidth(data, types, k)
    ensures var r := AppendRowData(data, types, k, values);
      var before := if Partition.NeedsNewChunk(SizesOf(data), k) then EmptyColumns(types) else data[|data| - 1];
      var after := r[|r| - 1];
      && |after| == |values| == |before|
      && forall j :: 0 <= j < |values| ==> after[j].values == before[j].values + [values[j]]
    ensures var r := AppendRowData(data, types, k, values);
      forall i :: 0 <= i < |data| - 1 ==> r[i] == data[i]
  {
  }

  /** Everything Table::add_column keeps, in one statement: the sizes, the
      partition rule, the schema (extended by the new type), and rectangularity
      exactly when every chunk was empty. */
  lemma AddColumnKeepsInvariants(data: seq<seq<Column>>, types: seq<string>, k: nat, typeName: string)
    ensures var r := AddColumnData(data, typeName);
      && SizesOf(r) == SizesOf(data)
      && (Partition.Partitioned(SizesOf(data), k) ==> Partition.Partitioned(SizesOf(r), k))
      && (Partition.Compact(SizesOf(data)) ==> Partition.Compact(SizesOf(r)))
    ensures AllHaveSchema(data, types) ==> AllHaveSchema(AddColumnData(data, typeName), types + [typeName])
    ensures AllRectangular(data) ==>
      (AllRectangular(AddColumnData(data, typeName)) <==> forall i :: 0 <= i < |data| ==> SizesOf(data)[i] == 0)
  {
    AddColumnSizes(data, typeName);
    if AllHaveSchema(data, types) {
      AddColumnKeepsSchema(data, types, typeName);
    }
    if AllRectangular(data) {
      AddColumnRectangular(data, typeName);
    }
  }

  /** A new empty column changes no chunk's row count. */
  lemma AddColumnSizes(data: seq<seq<Column>>, typeName: string)
    ensures SizesOf(AddColumnData(data, typeName)) == SizesOf(data)
  {
    var r := AddColumnData(data, typeName);
    assert forall i :: 0 <= i < |data| ==> Rows(r[i]) == Rows(data[i]);
  }

  /** Adding a column to every chunk and to the schema keeps them matching. */
  lemma AddColumnKeepsSchema(data: seq<seq<Column>>, types: seq<string>, typeName: string)
    requires AllHaveSchema(data, types)
    ensures AllHaveSchema(AddColumnData(data, typeName), types + [typeName])
  {
  }

  /** Adding an empty column keeps the chunks rectangular exactly when every chunk is empty. */
  lemma AddColumnRectangular(data: seq<seq<Column>>, typeName: string)
    requires AllRectangular(data)
    ensures AllRectangular(AddColumnData(data, typeName)) <==> forall i :: 0 <= i < |data| ==> Rows(data[i]) == 0
  {
    var r := AddColumnData(data, typeName);
    forall i | 0 <= i < |data| && Rows(data[i]) != 0
      ensures !EqualLengths(r[i])
    {
      var j := |r[i]| - 1;
      assert r[i][j] == EmptyColumn(typeName);
      assert r[i][0] == data[i][0];
    }
    forall i | 0 <= i < |data| && Rows(data[i]) == 0
      ensures EqualLengths(r[i])
    {
      assert r[i] == data[i] + [EmptyColumn(typeName)];
    }
  }
}
