# Columnar storage core: tables, chunks and the table registry

This project models the in-memory storage layer of the `opossum` database
engine and proves its contracts in Dafny 4.11.

- A **Chunk** is one horizontal slice of a table: an ordered list of columns,
  one per attribute, that grow together one row at a time.
- A **Table** holds its schema as two parallel lists (column names and column
  type tags). It also holds a chunk capacity (`chunk_size`, where 0 means a
  single chunk of unbounded size) and an ordered list of chunks. Rows are
  appended to the last chunk. A new chunk is opened first when the capacity
  is bounded and the last chunk is full.
- The **StorageManager** maps table names to tables. A table is shared by
  reference between the registry and whoever looked it up.

Modules, one per component:

| file | module | what it holds |
|---|---|---|
| `types.dfy` | `StorageTypes` | cell values (`AllTypeVariant`), a value column (type tag and cells), the result types for recoverable errors |
| `chunk.dfy` | `StorageChunk` | `class Chunk` with its column list |
| `partition.dfy` | `Partition` | the chunk-size partitioning rule, stated on the list of chunk sizes |
| `table_data.dfy` | `TableData` | a table's contents as a value (each chunk's columns); what `append` and `add_column` do to them; the invariants they keep |
| `table.dfy` | `StorageTable` | `class Table`, its methods proved against `TableData` |
| `storage_manager.dfy` | `StorageRegistry` | `class StorageManager` over a `map<string, Table>` |
| `scenarios.dfy` | `StorageScenarios` | client code that drives the classes, and what it observes |

`Table` keeps a ghost field `Contents` (the column lists of its chunks, in
order). The predicate `Valid()` ties it to the chunk objects. The table
invariants are kept as separate predicates so that each mutator can say which
ones it keeps:

- `SchemaMatches`: every chunk has one column per schema type, in order.
- `Rectangular`: within each chunk, all columns have the same length.
- `Partitioned`: every chunk except the last holds exactly `chunk_size` rows,
  and the last holds at most that many. With `chunk_size == 0` there is
  exactly one chunk.
- `Compact`: only a sole chunk may be empty.

`row_count` computes `(chunk_count - 1) * chunk_size + size(last)`. Under
`Partitioned`, that equals the sum of all chunk sizes (`Partition.RowCountIsSum`).

## Model

| member | source | states |
|---|---|---|
| `StorageTypes.EmptyColumn` | src/lib/storage/table.cpp:33 | a column made for a type tag carries that tag and holds no cell |
| `StorageTypes.EmptyColumns` | src/lib/storage/table.cpp:48-50 | one empty column per type tag, same length and order as the type list |
| `StorageTypes.Column.Push` | src/lib/storage/chunk.cpp:21-23 | appending one cell keeps the type tag and adds exactly that cell at the end; the size grows by one |
| `StorageTypes.PushRow` | src/lib/storage/chunk.cpp:21-23 | a row lands as `values[j]` at the end of column `j`, for every `j`; type tags are kept; the row count grows by one when there is a column; equal column lengths are preserved |
| `StorageTypes.EmptyColumnsShape` | src/lib/storage/table.cpp:45-53 | the columns of a newly created chunk match the schema, have equal length and hold no row |
| `StorageTypes.Rows` | src/lib/storage/chunk.cpp:36-41 | the row count of a column list: the length of column 0, and 0 when there is no column |
| `StorageChunk.Chunk.constructor` | src/lib/storage/table.cpp:46 | a new chunk has no column and size 0 |
| `StorageChunk.Chunk.AddColumn` | src/lib/storage/chunk.cpp:17-19 | the column count grows by one; the new column sits at index old `col_count`; every earlier column is unchanged |
| `StorageChunk.Chunk.Append` | src/lib/storage/chunk.cpp:21-23 | the intended contract (the source body is an empty stub): it requires one value per column, pushes `values[j]` onto column `j`, keeps the column count, grows `size()` by one and keeps the columns of equal length |
| `StorageChunk.Chunk.GetColumn` | src/lib/storage/chunk.cpp:25-30 | returns `Some(column i)` exactly when `i < col_count()`, otherwise `None` (the source's null); reads only |
| `StorageChunk.Chunk.ColCount` | src/lib/storage/chunk.cpp:32-34 | the number of columns held |
| `StorageChunk.Chunk.Size` | src/lib/storage/chunk.cpp:36-41 | corrected size: the length of column 0, or 0 with no column; in an equal-length chunk every column has this length |
| `StorageChunk.Chunk.SizeAsWritten` | src/lib/storage/chunk.cpp:36-41 | size as the source writes it: it is defined only when column 0 exists, and then it agrees with `Size` |
| `Partition.RowCountIsSum` | src/lib/storage/table.cpp:59-62 | under the partitioning invariant, the `row_count` formula equals the sum of all chunk sizes |
| `Partition.AppendRowShape` | src/lib/storage/table.cpp:38-43 | an append adds exactly one row to the total. When the capacity is bounded and the last chunk is full, the chunk count grows by one and the new last chunk holds one row. Otherwise the count is unchanged and the last chunk grows by one. Earlier chunks keep their sizes |
| `Partition.UnboundedNeverSplits` | src/lib/storage/table.cpp:39 | with `chunk_size == 0` an append never changes the chunk count |
| `Partition.AppendRowPreservesPartitioned` | src/lib/storage/table.cpp:38-43 | append keeps "all chunks but the last are full, and the last is at most full" |
| `Partition.AppendRowPreservesCompact` | src/lib/storage/table.cpp:38-43 | append keeps "only a sole chunk is empty" |
| `Partition.OpenEmptyChunkPreservesPartitioned` | src/lib/storage/table.cpp:39-41 | opening an empty chunk behind a full last chunk keeps the partitioning invariant |
| `Partition.ChunkCountIsCeiling` | src/lib/storage/table.cpp:59-62 | with `chunk_size = k > 0`, a partitioned compact table with `n > 0` rows has `c` chunks where `(c - 1) * k < n <= c * k`, i.e. `ceil(n / k)`; with no rows it has one chunk |
| `Partition.SumOfFull` | src/lib/storage/table.cpp:60 | chunks that are all exactly full hold `count * chunk_size` rows |
| `Partition.Partitioned` | src/lib/storage/table.cpp:60 | the invariant the `row_count` comment relies on; with `chunk_size = k > 0` it bounds every chunk, the last one included, by `k` |
| `Partition.Compact` | src/lib/storage/table.cpp:39-42 | only a sole chunk may be empty, so a table of several chunks holds at least one row |
| `Partition.RowCountFormula` | src/lib/storage/table.cpp:61 | the `row_count` expression on chunk sizes: with one chunk it is that chunk's size, and it is never below the last chunk's size |
| `Partition.NeedsNewChunk` | src/lib/storage/table.cpp:39 | the test at the head of `append`; under the partitioning invariant, "the last chunk equals the capacity" is the same as "one more row would exceed a bounded capacity" |
| `Partition.AppendRow` | src/lib/storage/table.cpp:38-43 | the chunk sizes after one append; the chunk count grows by at most one |
| `Partition.AfterAppends` | src/lib/storage/table.cpp:38-43 | the chunk sizes after `n` appends to a new table; at least one and at most `n + 1` chunks |
| `Partition.LayoutDeterminedByRowCount` | src/lib/storage/table.cpp:59-62 | two partitioned, compact size lists with the same `row_count` are equal: the row count fixes the layout |
| `Partition.FewerChunksFewerRows` | src/lib/storage/table.cpp:59-62 | of two such tables, the one with fewer chunks has the smaller `row_count` |
| `Partition.LayoutOfRowCount` | src/lib/storage/table.cpp:38-62 | every partitioned, compact table holding `n` rows has exactly the chunk sizes that `n` appends to a new table produce |
| `Partition.ChunkCountOfRowCount` | src/lib/storage/table.cpp:38-66 | such a table has one chunk when the capacity is 0 or it holds no row, and otherwise `ceil(n / k)` chunks, obtained through `AfterAppendsCounts` |
| `Partition.AfterAppendsInvariant` | src/lib/storage/table.cpp:38-43 | `n` appends to a new table leave it partitioned and compact, holding `n` rows |
| `Partition.AfterAppendsPartitioned` | src/lib/storage/table.cpp:38-43 | induction step of the above: the partitioning invariant and compactness after `n` appends |
| `Partition.AfterAppendsSum` | src/lib/storage/table.cpp:38-43 | induction step of the above: the chunk sizes after `n` appends sum to `n` |
| `Partition.UnboundedAfterAppends` | src/lib/storage/table.cpp:39 | with `chunk_size == 0`, any number of appends leaves exactly one chunk, holding every row |
| `Partition.AfterAppendsCounts` | src/lib/storage/table.cpp:38-62 | after `n` appends `row_count` is `n`. There is one chunk when `chunk_size == 0` or `n == 0`. Otherwise every chunk except the last is full and there are `ceil(n / chunk_size)` chunks |
| `TableData.SizesOf` | src/lib/storage/chunk.cpp:36-41 | the per-chunk row counts, one per chunk, in chunk order |
| `TableData.AddColumnData` | src/lib/storage/table.cpp:32-35 | every chunk gets exactly one more column, empty and of the given type, at its end; no chunk is added or removed |
| `TableData.TargetWidth` | src/lib/storage/table.cpp:39-42 | the width of the chunk that will receive the row (a new chunk when the test at line 39 holds); when the schema matches, the schema length |
| `TableData.AppendRowData` | src/lib/storage/table.cpp:38-43 | the contents after one append; the chunk count grows by one exactly when the test at line 39 holds, otherwise it is unchanged |
| `TableData.FreshContents` | src/lib/storage/table.cpp:20-23 | a new table (one chunk, no column) meets every table invariant for any capacity and counts zero rows |
| `TableData.AppendRowSizes` | src/lib/storage/table.cpp:38-43 | on contents, append moves the chunk sizes exactly as the partitioning rule says (a row with no value only opens an empty chunk) |
| `TableData.AppendRowKeepsSchema` | src/lib/storage/table.cpp:38-53 | append keeps every chunk matching the schema, including a newly opened chunk |
| `TableData.AppendRowKeepsRectangular` | src/lib/storage/table.cpp:38-43 | append keeps every chunk's columns of equal length |
| `TableData.AppendRowKeepsPartition` | src/lib/storage/table.cpp:38-43 | append keeps the partitioning invariant and compactness, and the `row_count` formula grows by one |
| `TableData.AppendRowKeepsInvariants` | src/lib/storage/table.cpp:38-43 | every table invariant kept by one append, in a single statement |
| `TableData.AppendRowRetrievable` | src/lib/storage/table.cpp:38-43 | round trip: after append, column `j` of the chunk that received the row ends with `values[j]`, placed after the cells it held before; every other chunk is unchanged |
| `TableData.AddColumnKeepsInvariants` | src/lib/storage/table.cpp:30-36 | `add_column` keeps every chunk's row count, the partitioning invariant and compactness. It extends the schema match by the new type. The chunks stay rectangular exactly when all of them were empty |
| `TableData.AddColumnSizes` | src/lib/storage/table.cpp:32-35 | adding an empty column changes no chunk's row count |
| `TableData.AddColumnKeepsSchema` | src/lib/storage/table.cpp:30-36 | adding the column to the schema and to every chunk keeps them matching |
| `TableData.AddColumnRectangular` | src/lib/storage/table.cpp:32-35 | a new empty column keeps a chunk rectangular if and only if that chunk held no row |
| `StorageTable.Table.NeedsNewChunk` | src/lib/storage/table.cpp:39 | the test at the head of `append`, which agrees with the same test on the table's contents |
| `StorageTable.Table.constructor` | src/lib/storage/table.cpp:20-23 | a new table has exactly one chunk, no column, no row, an empty schema, and `chunk_size()` returns the argument |
| `StorageTable.Table.AddColumnDefinition` | src/lib/storage/table.cpp:25-28 | the name and type lists grow by one entry each; the chunks and their contents are untouched |
| `StorageTable.Table.AddColumn` | src/lib/storage/table.cpp:30-36 | the schema grows by one entry and every chunk by one empty column of that type. The chunk list and all row counts are unchanged. The partitioning invariant and the schema match are kept. Rectangularity is kept exactly when all chunks were empty |
| `StorageTable.Table.AddEmptyColumnToChunks` | src/lib/storage/table.cpp:32-35 | the loop over the chunks: each chunk gets one more empty column; the schema and the chunk list are unchanged |
| `StorageTable.Table.Append` | src/lib/storage/table.cpp:38-43 | the new contents are `TableData.AppendRowData` of the old. When a new chunk is needed, the chunk count grows by exactly one, with the old chunks kept in front and the new one fresh. Otherwise the chunk list is unchanged. The partitioning invariant, compactness, the schema match and rectangularity are kept, and `row_count` grows by one |
| `StorageTable.Table.AppendToLast` | src/lib/storage/table.cpp:42 | the row goes onto the last chunk only; every other chunk is unchanged |
| `StorageTable.Table.StoreRow` | src/lib/storage/table.cpp:39-42 | the chunk-level steps of `append`: the new contents are `TableData.AppendRowData` of the old; a fresh chunk is added behind the old ones exactly when the test at line 39 holds, and otherwise the chunk list is unchanged |
| `StorageTable.Table.CreateNewChunk` | src/lib/storage/table.cpp:45-53 | one fresh chunk is appended, holding one empty column per schema type in schema order; earlier chunks are unchanged |
| `StorageTable.Table.ColCount` | src/lib/storage/table.cpp:55-57 | the column count, read from chunk 0; when the schema matches, it equals the schema length |
| `StorageTable.Table.RowCount` | src/lib/storage/table.cpp:59-62 | `(chunk_count - 1) * chunk_size + size(last)`; under the partitioning invariant, the sum of all chunk sizes |
| `StorageTable.Table.ChunkCount` | src/lib/storage/table.cpp:64-66 | the number of chunks, at least one |
| `StorageTable.Table.ColumnIdByName` | src/lib/storage/table.cpp:68-77 | returns the smallest index whose name matches. Returns `ColumnNotFound(name)` exactly when no name matches |
| `StorageTable.Table.ChunkSize` | src/lib/storage/table.cpp:79-81 | the capacity fixed at construction; under the partitioning invariant, every chunk except the last holds exactly this many rows |
| `StorageTable.Table.ColumnNames` | src/lib/storage/table.cpp:83-85 | the name list, element `j` being `column_name(j)` |
| `StorageTable.Table.ColumnName` | src/lib/storage/table.cpp:87-91 | requires the id below the name count, returns that name |
| `StorageTable.Table.ColumnType` | src/lib/storage/table.cpp:93-97 | requires the id below the type count, returns that type; when the schema matches, column `id` of every chunk has this type |
| `StorageTable.Table.GetChunk` | src/lib/storage/table.cpp:99-109 | requires the id below the chunk count. Returns that chunk, which holds the id-th slice of the table's contents and whose size is the id-th chunk size |
| `StorageTable.FreshTableRowCount` | src/lib/storage/table.cpp:59-62 | on a new table, `row_count` reads the size of a chunk that has no column 0; the corrected `Size` gives 0 |
| `StorageRegistry.StorageManager.constructor` | src/lib/storage/storage_manager.cpp:12-15 | a new registry holds no table |
| `StorageRegistry.StorageManager.AddTable` | src/lib/storage/storage_manager.cpp:17-19 | afterwards `has_table(name)` holds. An existing entry is kept and the new table is discarded; otherwise the name maps to the new table. Other names are unaffected |
| `StorageRegistry.StorageManager.DropTable` | src/lib/storage/storage_manager.cpp:21-26 | succeeds exactly when the name was registered. On success it removes exactly that key; otherwise it returns `TableNotFound(name)` with the registry unchanged. Other names are unaffected |
| `StorageRegistry.StorageManager.GetTable` | src/lib/storage/storage_manager.cpp:28-34 | returns the mapped table exactly when the name is registered, otherwise `TableNotFound(name)`; reads only |
| `StorageRegistry.StorageManager.HasTable` | src/lib/storage/storage_manager.cpp:36-38 | true exactly when the name is a key of the registry |
| `StorageRegistry.StorageManager.TableNames` | src/lib/storage/storage_manager.cpp:40-46 | contains exactly the registered names, each once; its length is the number of entries |
| `StorageRegistry.StorageManager.Reset` | src/lib/storage/storage_manager.cpp:54-56 | the registry is empty; `has_table` is false for every name |
| `StorageScenarios.EmptyIdNameChunk` | src/lib/storage/table.cpp:30-36 | defining `("id","int")` and `("name","string")` on a new table gives one chunk of two empty columns, the same as a newly created chunk |
| `StorageScenarios.FirstRow` | src/lib/storage/table.cpp:38-43 | with capacity 2, row `(1,"a")` goes into the existing empty chunk |
| `StorageScenarios.SecondRow` | src/lib/storage/table.cpp:38-43 | with capacity 2, row `(2,"b")` fills the first chunk |
| `StorageScenarios.ThirdRow` | src/lib/storage/table.cpp:39-42 | row `(3,"c")` behind a full chunk opens a second chunk that holds it |
| `StorageScenarios.TwoChunkTable` | src/lib/storage/table.cpp:38-62 | capacity 2, three rows: chunk 0 holds `(1,"a"),(2,"b")`, chunk 1 holds `(3,"c")`, and `row_count` is 3 |
| `StorageScenarios.NewIdTable` | src/lib/storage/table.cpp:20-36 | a new table with one `add_column` has one chunk, a one-entry schema and no row |
| `StorageScenarios.AppendId` | src/lib/storage/table.cpp:38-43 | one append through `Table.Append` keeps the invariants and adds one to `row_count` |
| `StorageScenarios.EmptyUnboundedTable` | src/lib/storage/table.cpp:55-66 | capacity 0, one column, no row: `row_count` 0, `chunk_count` 1, `col_count` 1 |
| `StorageScenarios.FillTable` | src/lib/storage/table.cpp:38-66 | `n` rows appended through `Table.Append` give `row_count == n`. There is one chunk when the capacity is 0 or `n == 0`, and otherwise `ceil(n / k)` chunks; the chunk count is derived through `Partition.AfterAppends` |
| `StorageScenarios.AddThenDrop` | src/lib/storage/storage_manager.cpp:17-38 | after `add_table("x")` the name is present; after `drop_table("x")` it is absent and `get_table("x")` fails |
| `StorageScenarios.AddTwice` | src/lib/storage/storage_manager.cpp:17-19 | a second `add_table` under a taken name keeps the first table |
| `StorageScenarios.ResetKeepsTableReadable` | src/lib/storage/storage_manager.cpp:54-56 | after `reset` the name is gone, but a table looked up before is still readable |
| `StorageScenarios.ColumnIdIsStable` | src/lib/storage/table.cpp:68-77 | `column_id_by_name` gives the same answer twice |

## Findings

| source | as written | input that shows it | evidently intended | confidence | as-written member | corrected member |
|---|---|---|---|---|---|---|
| src/lib/storage/chunk.cpp:36-41 | `size()` reads `_columns[0]` before checking that any column exists. The null test only guards a null handle, not an empty vector | `Table(0).row_count()` on a new table with no column: `row_count` (table.cpp:61) calls `size()` on a chunk with zero columns | `size()` returns 0 when the chunk has no column | not executed; high that the read is out of range, medium on the intended value | `StorageChunk.Chunk.SizeAsWritten`, `StorageTable.FreshTableRowCount` | `StorageChunk.Chunk.Size` |

## Left out

- `StorageChunk.Chunk.Append`: the source body is empty. The model gives it the contract that `Table::append` and `Table::row_count` rely on.
- `StorageManager::print` writes table names to an output stream. It is I/O only and is not modelled.
- `StorageManager::get` is the process-wide singleton. The registry is an ordinary object, and `Reset` empties its map instead of replacing the static instance.
- The column factory `make_shared_by_column_type`, the classes `ValueColumn` and `BaseColumn`, and `resolve_type` are not part of this model. A new column is "an empty column of the given type tag" (`EmptyColumn`). The model does not check that a value's kind matches its column's type tag.
- The cell variant `AllTypeVariant` is a small datatype. `int32` and `int64` are unbounded integers, and `float` and `double` are reals. Numeric widths, rounding and overflow are not modelled.
- Integer widths are not modelled. These include `uint16_t` for `col_count` and for the index in `column_id_by_name`, `uint32_t` for `chunk_size` and `size`, `uint64_t` for `row_count`, and the `ChunkID`/`ColumnID` typedefs. All become `nat`, so truncation past 65535 columns is not modelled.
- Exception types and messages are not modelled. `drop_table`, `get_table` and `column_id_by_name` return error values that carry the name. The `DebugAssert` checks in `column_name`, `column_type` and `get_chunk` become `requires`.
- Columns are values in the model. `Chunk::get_column` (chunk.cpp:25-30) hands out a shared handle, through which a caller could append to one column alone and leave the chunk's columns of unequal length. That aliasing is not modelled.
- `get_chunk` has a mutable and a const overload; the model has one function returning the shared chunk object. A caller that mutates a chunk it got this way can break `Table.Valid()`; the model does not cover such callers.
- The row width that `Table.Append` requires is the column count of the chunk that receives the row, which is what `Chunk::append`'s intended precondition demands there. When the schema matches, this equals `col_count()`.
- The order of `table_names` depends on the registry's map type, which is not part of this model. Only membership, uniqueness and length are stated.
- Column-name uniqueness is not checked by `add_column_definition`, and the model does not check it either. `column_id_by_name` returns the first match.
- Using `add_column` on a table whose chunks already hold rows leaves columns of unequal length. The model keeps this behaviour and states it: `Table.AddColumn` keeps `Rectangular` exactly when every chunk was empty.
- Concurrency: the source has no locking (the `<mutex>` include in chunk.cpp is unused), and the model is sequential.
