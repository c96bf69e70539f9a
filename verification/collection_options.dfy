/**
  The option adapter over a model collection: it presents the records as
  `key => label` pairs for a select widget, through the iterator protocol
  (`rewind`, `valid`, `current`, `key`, `next`), a read-only array access
  (`offsetExists`, `offsetGet`; writes are ignored) and an export to a
  plain PHP array.
 */
module CollectionOptions {
  import opened Wrappers
  import opened PhpValues
  import opened PhpArrays
  import opened ModelCollection

  /** The value column used when none is given. */
  const DefaultValueColumn: string := "id"

  /**
    The adapter's state: the wrapped collection (records and their own
    cursor), the label column (null until set), the value column, the
    optional label callback, and the adapter's own position counter.
   */
  datatype Adapter = Adapter(
    collection: Collection,
    labelColumn: Option<string>,
    valueColumn: string,
    labelCallback: Option<Record -> Value>,
    position: nat)

  /** One `key => label` pair produced by iteration; `caption` is the label. */
  datatype Entry = Entry(key: Value, caption: Value)

  // ---------------------------------------------------------------------
  // Construction and configuration
  // ---------------------------------------------------------------------

  /** `new CollectionOptions($collection, $labelColumn, $valueColumn)`. */
  function Create(collection: Collection, labelColumn: Option<string>, valueColumn: string): (r: Adapter)
    ensures r.collection == collection
    ensures GetLabelColumn(r) == labelColumn && GetValueColumn(r) == valueColumn
    ensures r.labelCallback.None? && r.position == 0
  {
    Adapter(collection, labelColumn, valueColumn, None, 0)
  }

  /** `new CollectionOptions($collection)`: no label column, value column `id`. */
  function CreateWithDefaults(collection: Collection): (r: Adapter)
    ensures r.collection == collection
    ensures GetLabelColumn(r).None? && GetValueColumn(r) == "id"
    ensures r.labelCallback.None? && r.position == 0
  {
    Create(collection, None, DefaultValueColumn)
  }

  function GetLabelColumn(a: Adapter): Option<string> {
    a.labelColumn
  }

  function GetValueColumn(a: Adapter): string {
    a.valueColumn
  }

  /** Fluent setter: only the label column changes. */
  function SetLabelColumn(a: Adapter, labelColumn: Option<string>): (r: Adapter)
    ensures GetLabelColumn(r) == labelColumn
    ensures GetValueColumn(r) == GetValueColumn(a) && r.labelCallback == a.labelCallback
    ensures r.collection == a.collection && r.position == a.position
  {
    a.(labelColumn := labelColumn)
  }

  /** Fluent setter: only the value column changes. */
  function SetValueColumn(a: Adapter, valueColumn: string): (r: Adapter)
    ensures GetValueColumn(r) == valueColumn
    ensures GetLabelColumn(r) == GetLabelColumn(a) && r.labelCallback == a.labelCallback
    ensures r.collection == a.collection && r.position == a.position
  {
    a.(valueColumn := valueColumn)
  }

  /** Fluent setter: only the label callback changes; `None` stands for a falsy callback. */
  function SetLabelCallback(a: Adapter, labelCallback: Option<Record -> Value>): (r: Adapter)
    ensures r.labelCallback == labelCallback
    ensures GetLabelColumn(r) == GetLabelColumn(a) && GetValueColumn(r) == GetValueColumn(a)
    ensures r.collection == a.collection && r.position == a.position
  {
    a.(labelCallback := labelCallback)
  }

  // ---------------------------------------------------------------------
  // Labels and keys
  // ---------------------------------------------------------------------

  /** Some label source is set: a callback or a label column. */
  predicate Configured(a: Adapter) {
    a.labelCallback.Some? || a.labelColumn.Some?
  }

  /** The label of a record: the callback applied to its field map if set, else its label column. */
  function LabelOf(a: Adapter, row: Record): Value
    requires Configured(a)
  {
    match a.labelCallback
    case Some(f) => f(row)
    case None => FieldOf(row, a.labelColumn.value)
  }

  /** The key of a record: its value column. */
  function KeyOf(a: Adapter, row: Record): Value {
    FieldOf(row, a.valueColumn)
  }

  /** What a pass is meant to yield for the `i`-th record. */
  function EntryAt(a: Adapter, i: nat): Entry
    requires Configured(a) && i < |a.collection.records|
  {
    Entry(KeyOf(a, a.collection.records[i]), LabelOf(a, a.collection.records[i]))
  }

  // ---------------------------------------------------------------------
  // Iterator protocol
  // ---------------------------------------------------------------------

  /** The adapter's counter and the collection's cursor point at the same record. */
  predicate InLockstep(a: Adapter) {
    a.position == a.collection.cursor
  }

  /** Both adapters wrap the same records with the same configuration. */
  ghost predicate SameSetup(a: Adapter, b: Adapter) {
    && a.collection.records == b.collection.records
    && a.labelColumn == b.labelColumn
    && a.valueColumn == b.valueColumn
    && a.labelCallback == b.labelCallback
  }

  /** `current()`: the label of the record under the collection's cursor. */
  function Current(a: Adapter): (r: Value)
    requires Configured(a) && HasCurrent(a.collection)
    ensures a.labelCallback.Some? ==> r == a.labelCallback.value(a.collection.records[a.collection.cursor])
    ensures a.labelCallback.None? ==> r == FieldOf(a.collection.records[a.collection.cursor], a.labelColumn.value)
  {
    LabelOf(a, Row(a.collection))
  }

  /** `key()`: the value column of the record under the collection's cursor. */
  function Key(a: Adapter): (r: Value)
    requires HasCurrent(a.collection)
    ensures r == FieldOf(a.collection.records[a.collection.cursor], GetValueColumn(a))
  {
    FieldOf(Row(a.collection), a.valueColumn)
  }

  /** `next()`: the counter and the collection's cursor both move on by one. */
  function Next(a: Adapter): (r: Adapter)
    ensures r.position == a.position + 1
    ensures r.collection.cursor == a.collection.cursor + 1
    ensures SameSetup(r, a)
    ensures InLockstep(a) ==> InLockstep(r)
  {
    a.(position := a.position + 1, collection := ModelCollection.Next(a.collection))
  }

  /** `valid()`: decided by the counter against the collection's size alone. */
  function Valid(a: Adapter): (r: bool)
    ensures r <==> a.position < |a.collection.records|
  {
    a.position < Count(a.collection)
  }

  /** `rewind()`: counter to 0, collection back to its first record. */
  function Rewind(a: Adapter): (r: Adapter)
    ensures r.position == 0 && r.collection.cursor == 0
    ensures SameSetup(r, a)
    ensures InLockstep(r)
  {
    a.(position := 0, collection := Reset(a.collection))
  }

  /**
    What `foreach` does after `rewind()`: while `valid()`, take
    `key() => current()` and call `next()`. Returns the pairs and the
    state the loop leaves behind.
   */
  function Drain(a: Adapter): (r: (seq<Entry>, Adapter))
    requires Configured(a) && InLockstep(a)
    ensures SameSetup(r.1, a) && InLockstep(r.1) && !Valid(r.1)
    ensures a.position <= |a.collection.records| ==>
      && |r.0| == |a.collection.records| - a.position
      && r.1.position == |a.collection.records|
    ensures a.position > |a.collection.records| ==> r.0 == [] && r.1 == a
    ensures forall i :: 0 <= i < |r.0| ==> a.position + i < |a.collection.records| && r.0[i] == EntryAt(a, a.position + i)
    decreases |a.collection.records| - a.position
  {
    if !Valid(a) then ([], a)
    else
      var rest := Drain(Next(a));
      ([Entry(Key(a), Current(a))] + rest.0, rest.1)
  }

  /**
    A complete `foreach` over the adapter: one pair per record, in
    collection order, ending with counter and cursor at the record count.
   */
  function Pass(a: Adapter): (r: (seq<Entry>, Adapter))
    requires Configured(a)
    ensures |r.0| == |a.collection.records|
    ensures forall i :: 0 <= i < |r.0| ==> r.0[i] == EntryAt(a, i)
    ensures SameSetup(r.1, a) && InLockstep(r.1)
    ensures r.1.position == |a.collection.records| && !Valid(r.1)
  {
    Drain(Rewind(a))
  }

  // ---------------------------------------------------------------------
  // Array access
  // ---------------------------------------------------------------------

  /**
    The `foreach` over the collection in `offsetExists`/`offsetGet`: the
    first record, from `from` on, whose value column is identical to `key`.
   */
  function FirstMatch(records: seq<Record>, column: string, key: Value, from: nat): (r: Option<nat>)
    requires from <= |records|
    ensures r.Some? ==> from <= r.value < |records| && FieldOf(records[r.value], column) == key
    ensures r.Some? ==> forall j :: from <= j < r.value ==> FieldOf(records[j], column) != key
    ensures r.None? ==> forall j :: from <= j < |records| ==> FieldOf(records[j], column) != key
    decreases |records| - from
  {
    if from == |records| then None
    else if FieldOf(records[from], column) == key then Some(from)
    else FirstMatch(records, column, key, from + 1)
  }

  /** `offsetExists($offset)`. */
  function OffsetExists(a: Adapter, offset: Value): (r: bool)
    ensures r <==> exists i :: 0 <= i < |a.collection.records| && KeyOf(a, a.collection.records[i]) == offset
  {
    FirstMatch(a.collection.records, a.valueColumn, offset, 0).Some?
  }

  /** `offsetGet($offset)`: the field map of the first matching record, or null. */
  function OffsetGet(a: Adapter, offset: Value): (r: Option<Record>)
    ensures r.Some? <==> exists i :: 0 <= i < |a.collection.records| && KeyOf(a, a.collection.records[i]) == offset
    ensures r.Some? ==> exists i ::
      && 0 <= i < |a.collection.records|
      && a.collection.records[i] == r.value
      && KeyOf(a, a.collection.records[i]) == offset
      && forall j :: 0 <= j < i ==> KeyOf(a, a.collection.records[j]) != offset
  {
    match FirstMatch(a.collection.records, a.valueColumn, offset, 0)
    case Some(i) => Some(a.collection.records[i])
    case None => None
  }

  /** `offsetSet($offset, $value)`: unsupported, the adapter is left as it was. */
  function OffsetSet(a: Adapter, offset: Value, value: Value): (r: Adapter)
    ensures r == a
  {
    a
  }

  /** `offsetUnset($offset)`: unsupported, the adapter is left as it was. */
  function OffsetUnset(a: Adapter, offset: Value): (r: Adapter)
    ensures r == a
  {
    a
  }

  // ---------------------------------------------------------------------
  // Export
  // ---------------------------------------------------------------------

  /** The pairs a pass writes into the array: each key normalised as an array key. */
  function Slots(es: seq<Entry>): (r: seq<(ArrayKey, Value)>)
    ensures |r| == |es|
    ensures forall i :: 0 <= i < |es| ==> r[i] == (ToArrayKey(es[i].key), es[i].caption)
  {
    seq(|es|, i requires 0 <= i < |es| => (ToArrayKey(es[i].key), es[i].caption))
  }

  /**
    `getArrayCopy()`: a full pass written into an array, key by key. Also
    returns the state the pass leaves behind.
   */
  function GetArrayCopy(a: Adapter): (r: (PhpArray, Adapter))
    requires Configured(a)
    ensures DistinctKeys(r.0) && |r.0.entries| <= |a.collection.records|
    ensures SameSetup(r.1, a) && InLockstep(r.1) && r.1.position == |a.collection.records|
  {
    var p := Pass(a);
    (StoreAll(Slots(p.0)), p.1)
  }
}
