/**
 * Values shared by the storage layer: the dynamically typed cell value
 * (the engine's AllTypeVariant), a typed column, and the failure-carrying
 * result types used where the source throws a recoverable exception.
 */
module StorageTypes {

  /** One cell. The source's variant covers int32, int64, float, double and
      string; widths and floating point are not modelled (see README). */
  datatype Value =
    | IntValue(i: int)
    | LongValue(l: int)
    | FloatValue(f: real)
    | DoubleValue(d: real)
    | StringValue(s: string)

  /** A value column: its type tag (as the schema spells it, e.g. "int")
      and the cells appended so far. */
  datatype Column = Column(typeName: string, values: seq<Value>) {

    function Size(): nat {
      |values|
    }

    /** The column with one more cell at the end. */
    function Push(v: Value): (c: Column)
      ensures c.typeName == typeName && c.values == values + [v]
      ensures c.Size() == Size() + 1
    {
      Column(typeName, values + [v])
    }
  }

  /** A freshly made column of the given type tag holds no cells. */
  function EmptyColumn(typeName: string): (c: Column)
    ensures c.typeName == typeName && c.Size() == 0
  {
    Column(typeName, [])
  }

  /** One empty column per type tag, in order: the columns of a new chunk. */
  function EmptyColumns(types: seq<string>): (cols: seq<Column>)
    ensures |cols| == |types|
    ensures forall j :: 0 <= j < |types| ==> cols[j] == EmptyColumn(types[j])
  {
    seq(|types|, j requires 0 <= j < |types| => EmptyColumn(types[j]))
  }

  /** Row count of a column list: the length of column 0, and 0 when there is no column. */
  function Rows(cols: seq<Column>): (n: nat)
    ensures |cols| == 0 ==> n == 0
    ensures |cols| > 0 ==> n == cols[0].Size()
  {
    if |cols| == 0 then 0 else cols[0].Size()
  }

  /** Every column holds as many cells as column 0. */
  predicate EqualLengths(cols: seq<Column>) {
    forall j :: 0 <= j < |cols| ==> cols[j].Size() == Rows(cols)
  }

  /** The columns carry exactly these type tags, in this order. */
  predicate HasSchema(cols: seq<Column>, types: seq<string>) {
    |cols| == |types| && forall j :: 0 <= j < |cols| ==> cols[j].typeName == types[j]
  }

  /** The columns after appending one row: values[j] at the end of column j.
      The row count grows by one (when there is a column), and the type tags
      and the equal-length property are kept. */
  function PushRow(cols: seq<Column>, values: seq<Value>): (r: seq<Column>)
    requires |values| == |cols|
    ensures |r| == |cols|
    ensures forall j :: 0 <= j < |cols| ==> r[j].typeName == cols[j].typeName && r[j].values == cols[j].values + [values[j]]
    ensures |cols| > 0 ==> Rows(r) == Rows(cols) + 1
    ensures |cols| == 0 ==> Rows(r) == 0
    ensures EqualLengths(cols) ==> EqualLengths(r)
  {
    seq(|cols|, j requires 0 <= j < |cols| => cols[j].Push(values[j]))
  }

  /** A column list made of empty columns is rectangular with no rows. */
  lemma EmptyColumnsShape(types: seq<string>)
    ensures HasSchema(EmptyColumns(types), types)
    ensures Rows(EmptyColumns(types)) == 0
    ensures EqualLengths(EmptyColumns(types))
  {
  }

  datatype Option<+T> = None | Some(value: T)

  /** The recoverable errors: an unknown table or column name. */
  datatype Error = TableNotFound(tableName: string) | ColumnNotFound(columnName: string)

  datatype Result<+T> = Ok(value: T) | Err(error: Error)

  datatype Outcome = Pass | Fail(error: Error)
}
