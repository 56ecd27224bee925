/**
 * A chunk: one horizontal slice of a table, an ordered list of columns
 * (src/lib/storage/chunk.cpp).
 */
module StorageChunk {
  import opened StorageTypes

  class Chunk {
    /** The column list; index = column position. */
    var columns: seq<Column>

    /** A chunk starts with no columns. */
    constructor ()
      ensures columns == [] && ColCount() == 0 && Size() == 0
    {
      columns := [];
    }

    /** Appends a column handle at the next position; no length check is made. */
    method AddColumn(column: Column)
      modifies this
      ensures columns == old(columns) + [column]
      ensures ColCount() == old(ColCount()) + 1
      ensures GetColumn(old(ColCount())) == Some(column)
      ensures forall id :: 0 <= id < old(ColCount()) ==> GetColumn(id) == old(GetColumn(id))
    {
      columns := columns + [column];
    }

    /**
     * Appends one row, values[j] onto column j. The source body
     * (chunk.cpp:21-23) is an empty stub; this is the contract that
     * Table::append and Table::row_count rely on.
     */
    method Append(values: seq<Value>)
      requires |values| == ColCount()
      modifies this
      ensures columns == PushRow(old(columns), values)
      ensures ColCount() == old(ColCount())
      ensures ColCount() > 0 ==> Size() == old(Size()) + 1
      ensures old(EqualLengths(columns)) ==> EqualLengths(columns)
    {
      columns := PushRow(columns, values);
    }

    /** Range-checked lookup: column id when it exists, None (the source's null) otherwise. */
    function GetColumn(id: nat): (r: Option<Column>)
      reads this
      ensures r.Some? <==> id < ColCount()
      ensures r.Some? ==> r.value == columns[id]
    {
      if id < |columns| then Some(columns[id]) else None
    }

    function ColCount(): (n: nat)
      reads this
      ensures n == |columns|
    {
      |columns|
    }

    /**
     * Number of rows: the length of column 0, and 0 when there is no column
     * (the source reads _columns[0] without checking that a column exists;
     * SizeAsWritten is that reading). On a rectangular chunk every column
     * has this length.
     */
    function Size(): (n: nat)
      reads this
      ensures n == Rows(columns)
      ensures EqualLengths(columns) ==> forall j :: 0 <= j < |columns| ==> columns[j].Size() == n
    {
      if |columns| == 0 then 0 else columns[0].Size()
    }

    /**
     * chunk.cpp:36-41 as written: _columns[0] is read unconditionally, which
     * is only defined when a column exists. Where it is defined it agrees with Size.
     */
    function SizeAsWritten(): (n: nat)
      reads this
      requires |columns| > 0
      ensures n == Size()
    {
      columns[0].Size()
    }
  }
}
