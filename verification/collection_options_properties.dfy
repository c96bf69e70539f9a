/**
  Properties of the option adapter that relate several of its operations:
  label precedence, independence of key and label, repeatable passes,
  first-match lookup, writes without effect, and the exported array.
 */
module CollectionOptionsProperties {
  import opened Wrappers
  import opened PhpValues
  import opened PhpArrays
  import opened ModelCollection
  import opened CollectionOptions

  // ---------------------------------------------------------------------
  // Configuration
  // ---------------------------------------------------------------------

  /**
    A set label callback decides `current()` whatever the label column is,
    and whichever of the two was configured first.
   */
  lemma CallbackWinsOverLabelColumn(a: Adapter, f: Record -> Value, column: Option<string>)
    requires HasCurrent(a.collection)
    ensures Current(SetLabelColumn(SetLabelCallback(a, Some(f)), column)) == f(Row(a.collection))
    ensures Current(SetLabelCallback(SetLabelColumn(a, column), Some(f))) == f(Row(a.collection))
  {
  }

  /** Without a callback, `current()` reads the label column of the current record. */
  lemma LabelColumnUsedWithoutCallback(a: Adapter, column: string)
    requires HasCurrent(a.collection)
    ensures Current(SetLabelColumn(SetLabelCallback(a, None), Some(column))) == FieldOf(Row(a.collection), column)
  {
  }

  /** `key()` depends on the value column only, never on the label configuration. */
  lemma KeyIgnoresLabelSource(a: Adapter, column: Option<string>, callback: Option<Record -> Value>)
    requires HasCurrent(a.collection)
    ensures Key(SetLabelColumn(a, column)) == Key(a)
    ensures Key(SetLabelCallback(a, callback)) == Key(a)
    ensures Key(a) == FieldOf(Row(a.collection), GetValueColumn(a))
  {
  }

  /** Changing the value column leaves labels and the iteration state alone. */
  lemma ValueColumnIgnoredByLabels(a: Adapter, column: string)
    requires Configured(a) && HasCurrent(a.collection)
    ensures Current(SetValueColumn(a, column)) == Current(a)
    ensures Valid(SetValueColumn(a, column)) == Valid(a)
  {
  }

  // ---------------------------------------------------------------------
  // Iteration
  // ---------------------------------------------------------------------

  /** `valid()` holds after `rewind()` and exactly `count()` calls of `next()` are needed to end it. */
  lemma {:induction false} NextSteps(a: Adapter, n: nat)
    ensures Advance(Rewind(a), n).position == n
    ensures InLockstep(Advance(Rewind(a), n))
    ensures SameSetup(Advance(Rewind(a), n), a)
    ensures Valid(Advance(Rewind(a), n)) <==> n < Count(a.collection)
  {
    if n > 0 {
      NextSteps(a, n - 1);
    }
  }

  /** `n` calls of `next()`. */
  function Advance(a: Adapter, n: nat): Adapter {
    if n == 0 then a else CollectionOptions.Next(Advance(a, n - 1))
  }

  /**
    A pass that starts with `rewind()` yields the records' pairs in order,
    whatever state the adapter was in; a second pass yields the same pairs.
   */
  lemma {:induction false} SecondPassSame(a: Adapter)
    requires Configured(a)
    ensures Pass(Pass(a).1).0 == Pass(a).0
  {
  }

  /** The `i`-th pair of a pass is the `i`-th record's value column and label. */
  lemma PassEntry(a: Adapter, i: nat)
    requires Configured(a) && i < Count(a.collection)
    ensures i < |Pass(a).0|
    ensures Pass(a).0[i].key == FieldOf(a.collection.records[i], a.valueColumn)
    ensures a.labelCallback.Some? ==> Pass(a).0[i].caption == a.labelCallback.value(a.collection.records[i])
    ensures a.labelCallback.None? ==> Pass(a).0[i].caption == FieldOf(a.collection.records[i], a.labelColumn.value)
  {
  }

  // ---------------------------------------------------------------------
  // Lookup
  // ---------------------------------------------------------------------

  /** `offsetGet` is non-null exactly when `offsetExists` holds. */
  lemma OffsetGetAgreesWithExists(a: Adapter, offset: Value)
    ensures OffsetGet(a, offset).Some? <==> OffsetExists(a, offset)
  {
  }

  /** Of several records with the same key, `offsetGet` returns the first in collection order. */
  lemma FirstRecordWins(a: Adapter, offset: Value, i: nat)
    requires i < |a.collection.records|
    requires KeyOf(a, a.collection.records[i]) == offset
    requires forall j :: 0 <= j < i ==> KeyOf(a, a.collection.records[j]) != offset
    ensures OffsetGet(a, offset) == Some(a.collection.records[i])
  {
  }

  /**
    Lookup compares with `===`: an integer id is not found under the string
    that spells it.
   */
  lemma StrictLookup(a: Adapter)
    requires a.valueColumn == "id"
    requires a.collection.records == [map["id" := Int(1)]]
    ensures OffsetExists(a, Int(1))
    ensures !OffsetExists(a, Str("1"))
    ensures OffsetGet(a, Str("1")) == None
  {
  }

  // ---------------------------------------------------------------------
  // Writes
  // ---------------------------------------------------------------------

  /** `offsetSet` and `offsetUnset` change nothing any later call could observe. */
  lemma WritesAreInvisible(a: Adapter, offset: Value, value: Value, probe: Value)
    requires Configured(a)
    ensures OffsetExists(OffsetSet(a, offset, value), probe) == OffsetExists(a, probe)
    ensures OffsetGet(OffsetSet(a, offset, value), probe) == OffsetGet(a, probe)
    ensures OffsetExists(OffsetUnset(a, offset), probe) == OffsetExists(a, probe)
    ensures OffsetGet(OffsetUnset(a, offset), probe) == OffsetGet(a, probe)
    ensures Pass(OffsetSet(a, offset, value)).0 == Pass(a).0
    ensures Pass(OffsetUnset(a, offset)).0 == Pass(a).0
    ensures GetArrayCopy(OffsetSet(a, offset, value)).0 == GetArrayCopy(a).0
    ensures GetArrayCopy(OffsetUnset(a, offset)).0 == GetArrayCopy(a).0
  {
  }

  // ---------------------------------------------------------------------
  // Export
  // ---------------------------------------------------------------------

  /** The array key the `i`-th record is exported under. */
  function ExportKeyAt(a: Adapter, i: nat): ArrayKey
    requires i < |a.collection.records|
  {
    ToArrayKey(KeyOf(a, a.collection.records[i]))
  }

  /** The pairs the export writes are the records' array keys and labels, in order. */
  lemma SlotsOfPass(a: Adapter)
    requires Configured(a)
    ensures GetArrayCopy(a).0 == StoreAll(Slots(Pass(a).0))
    ensures |Slots(Pass(a).0)| == |a.collection.records|
    ensures forall j :: 0 <= j < |a.collection.records| ==>
      Slots(Pass(a).0)[j] == (ExportKeyAt(a, j), LabelOf(a, a.collection.records[j]))
  {
  }

  /** The exported keys are exactly the array keys of the records' value column. */
  lemma ArrayCopyKeys(a: Adapter)
    requires Configured(a)
    ensures Keys(GetArrayCopy(a).0) == set i | 0 <= i < |a.collection.records| :: ExportKeyAt(a, i)
  {
    var slots := Slots(Pass(a).0);
    SlotsOfPass(a);
    StoreAllKeys(slots);
    assert PairKeys(slots) == set i | 0 <= i < |a.collection.records| :: ExportKeyAt(a, i);
  }

  /** Each exported key holds the label of the last record carrying it. */
  lemma ArrayCopyLastWins(a: Adapter, i: nat)
    requires Configured(a) && i < |a.collection.records|
    requires forall j :: i < j < |a.collection.records| ==> ExportKeyAt(a, j) != ExportKeyAt(a, i)
    ensures Get(GetArrayCopy(a).0, ExportKeyAt(a, i)) == Some(LabelOf(a, a.collection.records[i]))
  {
    var slots := Slots(Pass(a).0);
    SlotsOfPass(a);
    StoreAllLastWins(slots, i);
  }

  /**
    When no two records share an array key, the export has one entry per
    record, in collection order.
   */
  lemma ArrayCopyInOrder(a: Adapter)
    requires Configured(a)
    requires forall i, j :: 0 <= i < j < |a.collection.records| ==> ExportKeyAt(a, i) != ExportKeyAt(a, j)
    ensures |GetArrayCopy(a).0.entries| == Count(a.collection)
    ensures forall i :: 0 <= i < Count(a.collection) ==>
      GetArrayCopy(a).0.entries[i] == (ExportKeyAt(a, i), LabelOf(a, a.collection.records[i]))
  {
    var slots := Slots(Pass(a).0);
    SlotsOfPass(a);
    assert DistinctPairKeys(slots);
    StoreAllInOrder(slots);
  }

  /**
    The export lists its keys in the order their first records appear: a
    key that comes later in the array never has a record ahead of every
    record of an earlier key. A repeated id keeps the place of its first
    record and only its label changes.
   */
  lemma ArrayCopyFirstOccurrenceOrder(a: Adapter, p: nat, q: nat, i: nat)
    requires Configured(a)
    requires p < q < |GetArrayCopy(a).0.entries|
    requires i < |a.collection.records| && ExportKeyAt(a, i) == GetArrayCopy(a).0.entries[q].0
    ensures exists j :: 0 <= j < i && ExportKeyAt(a, j) == GetArrayCopy(a).0.entries[p].0
  {
    var slots := Slots(Pass(a).0);
    var entries := GetArrayCopy(a).0.entries;
    SlotsOfPass(a);
    assert slots[i].0 == entries[q].0;
    StoreAllKeyPrecedence(slots, p, q, i);
    var j :| 0 <= j < i && slots[j].0 == entries[p].0;
    assert ExportKeyAt(a, j) == slots[j].0;
  }

  /**
    Three records whose first and last share an array key export as two
    entries: the shared key in the first place, holding the last record's
    label, then the middle record's key and label.
   */
  lemma RepeatedKeyKeepsFirstPlace(a: Adapter)
    requires Configured(a) && |a.collection.records| == 3
    requires ExportKeyAt(a, 0) == ExportKeyAt(a, 2) != ExportKeyAt(a, 1)
    ensures GetArrayCopy(a).0.entries == [
      (ExportKeyAt(a, 0), LabelOf(a, a.collection.records[2])),
      (ExportKeyAt(a, 1), LabelOf(a, a.collection.records[1]))]
  {
    var slots := Slots(Pass(a).0);
    SlotsOfPass(a);
    StoreAllOverwriteInPlace(slots);
  }

  /** Ids `1`, `2`, `"1"` with labels `a`, `b`, `c` export as `[1 => "c", 2 => "b"]`. */
  lemma RepeatedIdExample(collection: Collection)
    requires collection.records == [
      map["id" := Int(1), "name" := Str("a")],
      map["id" := Int(2), "name" := Str("b")],
      map["id" := Str("1"), "name" := Str("c")]]
    ensures GetArrayCopy(Create(collection, Some("name"), "id")).0.entries == [(IntKey(1), Str("c")), (IntKey(2), Str("b"))]
  {
    var a := Create(collection, Some("name"), "id");
    StringKeyIsIntegerKeyIff("1", 1);
    assert ExportKeyAt(a, 0) == IntKey(1) && ExportKeyAt(a, 1) == IntKey(2) && ExportKeyAt(a, 2) == IntKey(1);
    RepeatedKeyKeepsFirstPlace(a);
  }

  /** Two records `{id: 1, name: "a"}`, `{id: 2, name: "b"}` export as `[1 => "a", 2 => "b"]`. */
  lemma ExportExample(collection: Collection)
    requires collection.records == [map["id" := Int(1), "name" := Str("a")], map["id" := Int(2), "name" := Str("b")]]
    ensures GetArrayCopy(Create(collection, Some("name"), "id")).0.entries == [(IntKey(1), Str("a")), (IntKey(2), Str("b"))]
  {
    var a := Create(collection, Some("name"), "id");
    assert ExportKeyAt(a, 0) == IntKey(1) && ExportKeyAt(a, 1) == IntKey(2);
    ArrayCopyInOrder(a);
  }

  /**
    An id `1` and an id `"1"` are different keys for lookup but the same
    array key on export, so the export keeps one entry, with the later label.
   */
  lemma NumericStringIdsShareExportKey(collection: Collection)
    requires collection.records == [map["id" := Int(1), "name" := Str("a")], map["id" := Str("1"), "name" := Str("b")]]
    ensures |GetArrayCopy(Create(collection, Some("name"), "id")).0.entries| == 1
    ensures Get(GetArrayCopy(Create(collection, Some("name"), "id")).0, IntKey(1)) == Some(Str("b"))
  {
    var a := Create(collection, Some("name"), "id");
    StringKeyIsIntegerKeyIff("1", 1);
    assert ExportKeyAt(a, 0) == IntKey(1) && ExportKeyAt(a, 1) == IntKey(1);
    ArrayCopyKeys(a);
    ArrayCopyLastWins(a, 1);
    var keys := set i | 0 <= i < 2 :: ExportKeyAt(a, i);
    assert keys == {IntKey(1)};
    var arr := GetArrayCopy(a).0;
    assert Keys(arr) == {IntKey(1)};
    EntryCountIsKeyCount(arr);
  }
}
