/**
  The part of the framework's model collection the option adapter relies
  on: an ordered list of fetched records and an internal cursor, with
  `reset`, `next`, `count`, `row` and field access on the current record.
 */
module ModelCollection {
  import opened PhpValues

  /** One fetched row: column name to value. */
  type Record = map<string, Value>

  /** The fetched records, in result order, and the index of the current one. */
  datatype Collection = Collection(records: seq<Record>, cursor: nat)

  /** `$collection->count()`. */
  function Count(c: Collection): nat {
    |c.records|
  }

  /** The cursor rests on a record. */
  predicate HasCurrent(c: Collection) {
    c.cursor < |c.records|
  }

  /** `$collection->row()`: the field map of the current record. */
  function Row(c: Collection): Record
    requires HasCurrent(c)
  {
    c.records[c.cursor]
  }

  /** `$model->{$column}`: a column the record does not carry reads as null. */
  function FieldOf(r: Record, column: string): Value {
    if column in r then r[column] else Null
  }

  /** `$collection->reset()`. */
  function Reset(c: Collection): Collection {
    c.(cursor := 0)
  }

  /** `$collection->next()`. */
  function Next(c: Collection): Collection {
    c.(cursor := c.cursor + 1)
  }
}
