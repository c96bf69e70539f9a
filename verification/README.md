# CollectionOptions, modelled in Dafny

This project models `CollectionOptions` from netzmacht/contao-dev-tools. The class is an adapter that presents a
Contao model collection as an option list (`key => label`) for select widgets in a DCA (the
CMS's declarative data-container configuration). It offers four things:

- configuration: label column, value column (default `id`) and an optional label callback, each with a fluent setter;
- the iterator protocol: `rewind`, `valid`, `current` (the label), `key` (the value column) and `next`;
- read-only array access: `offsetExists` and `offsetGet` scan linearly for the first record whose value column is `===` the
  offset, and `offsetSet`/`offsetUnset` do nothing;
- `getArrayCopy`: a full `foreach` over the adapter, written key by key into a PHP array.

Everything is stated functionally. The adapter is an immutable `Adapter` value, and every PHP method becomes a
function that returns the new state or the result.

Files and modules:

- `wrappers.dfy` (`Wrappers`): `Option`, standing for PHP's `null`-or-value.
- `php_values.dfy` (`PhpValues`): `Value`, the PHP scalars `null`, `bool`, 64-bit `int` and `string`. PHP's `===` on
  these is structural equality.
- `php_arrays.dfy` (`PhpArrays`): what `$values[$id] = $value` does:
  - normalising a key (`ToArrayKey`): canonical decimal strings become integers, `true`/`false` become 1/0, and
    `null` becomes `""`;
  - ordered arrays with distinct keys;
  - assignment, which overwrites a key in place or appends a new one;
  - the fold `StoreAll`.
- `model_collection.dfy` (`ModelCollection`): an abstract stand-in for the framework's `Model\Collection`. It holds the
  records as `seq<map<string, Value>>` plus a cursor index, with `reset`, `next`, `count`, `row` and field access.
- `collection_options.dfy` (`CollectionOptions`): the adapter and all its operations.
- `collection_options_properties.dfy` (`CollectionOptionsProperties`): lemmas that relate several operations.

Some points follow the code rather than a looser reading of the class:

- `getArrayCopy` stores each pair through PHP array assignment, so its keys are the value-column values after PHP's
  array-key normalisation, not the raw values. A record with id `1` and a later one with id `"1"` share one slot, and
  the later label wins (`NumericStringIdsShareExportKey`). Lookup through `offsetExists`/`offsetGet`, in contrast,
  compares the raw values with `===` and tells the two apart (`StrictLookup`).
- `valid()` compares only the adapter's own counter with `count()`. `current()` and `key()` read the collection's
  cursor instead. The two agree only while they move in lockstep, and `rewind()` is what establishes that: the
  constructor sets the counter to 0 but leaves the collection's cursor where it was. A pass therefore starts with
  `Rewind`, as PHP's `foreach` does.
- The getters `GetLabelColumn` and `GetValueColumn` return the stored fields. Their behaviour is stated through the
  contracts of the constructor and the setters.

## Model

| member | source | states |
|---|---|---|
| PhpArrays.IntegerKeyOf | src/Netzmacht/Contao/DevTools/Dca/Options/CollectionOptions.php:235 | a string acts as an integer array key only when it spells a 64-bit integer canonically, and the key is then within the 64-bit range |
| PhpArrays.ToArrayKey | src/Netzmacht/Contao/DevTools/Dca/Options/CollectionOptions.php:235 | the key `$values[$id]` uses: integers are kept, booleans become 1/0, null becomes `""`, a string is kept unless it becomes an in-range integer |
| PhpArrays.StringKeyIsIntegerKeyIff | src/Netzmacht/Contao/DevTools/Dca/Options/CollectionOptions.php:235 | a string id and an integer id land on the same array slot exactly when the string is PHP's decimal spelling of the integer (both directions) |
| PhpArrays.Assign | src/Netzmacht/Contao/DevTools/Dca/Options/CollectionOptions.php:235 | assignment keeps keys distinct, adds the key, makes it read back the new value, and leaves every other key's value alone; a new key is appended, while an existing key is overwritten in place, leaving every key at its position |
| PhpArrays.EntryCountIsKeyCount | src/Netzmacht/Contao/DevTools/Dca/Options/CollectionOptions.php:232-238 | an array built by assignment has exactly one entry per distinct key |
| PhpArrays.StoreAll | src/Netzmacht/Contao/DevTools/Dca/Options/CollectionOptions.php:232-238 | assigning pairs one after another yields an array with distinct keys and no more entries than pairs |
| PhpArrays.StoreAllKeys | src/Netzmacht/Contao/DevTools/Dca/Options/CollectionOptions.php:232-238 | the keys of the built array are exactly the keys of the assigned pairs |
| PhpArrays.StoreAllLastWins | src/Netzmacht/Contao/DevTools/Dca/Options/CollectionOptions.php:234-236 | a key reads back the value of the last pair assigned to it, because later assignments overwrite |
| PhpArrays.StoreAllFirstOccurrenceOrder | src/Netzmacht/Contao/DevTools/Dca/Options/CollectionOptions.php:232-238 | the built array lists its keys in the order of their first occurrence among the assigned pairs, even when later pairs overwrite values |
| PhpArrays.StoreAllKeyPrecedence | src/Netzmacht/Contao/DevTools/Dca/Options/CollectionOptions.php:232-238 | every pair carrying a later key of the array comes after some pair carrying an earlier key |
| PhpArrays.OverwriteInPlace | src/Netzmacht/Contao/DevTools/Dca/Options/CollectionOptions.php:235 | assigning `k0`, `k1`, then `k0` again gives `[k0 => third value, k1 => second value]` |
| PhpArrays.StoreAllOverwriteInPlace | src/Netzmacht/Contao/DevTools/Dca/Options/CollectionOptions.php:232-238 | storing three pairs whose first and last keys match gives the shared key first, with the last value, followed by the middle pair |
| PhpArrays.StoreAllInOrder | src/Netzmacht/Contao/DevTools/Dca/Options/CollectionOptions.php:232-238 | when no key repeats, the array holds exactly the pairs, in assignment order |
| CollectionOptions.Create | src/Netzmacht/Contao/DevTools/Dca/Options/CollectionOptions.php:65-70 | the constructor stores the collection and both columns, and starts with no callback and position 0 |
| CollectionOptions.CreateWithDefaults | src/Netzmacht/Contao/DevTools/Dca/Options/CollectionOptions.php:65 | without arguments the label column is null and the value column is `id` |
| CollectionOptions.SetLabelColumn | src/Netzmacht/Contao/DevTools/Dca/Options/CollectionOptions.php:89-94 | the getter returns the new label column, and the value column, callback, collection and position are unchanged |
| CollectionOptions.SetValueColumn | src/Netzmacht/Contao/DevTools/Dca/Options/CollectionOptions.php:113-118 | the getter returns the new value column, and the label column, callback, collection and position are unchanged |
| CollectionOptions.SetLabelCallback | src/Netzmacht/Contao/DevTools/Dca/Options/CollectionOptions.php:130-135 | the callback is replaced, and both columns, the collection and the position are unchanged |
| CollectionOptions.Current | src/Netzmacht/Contao/DevTools/Dca/Options/CollectionOptions.php:140-147 | the label is the callback applied to the current record's field map when a callback is set, and otherwise the current record's label column |
| CollectionOptions.Key | src/Netzmacht/Contao/DevTools/Dca/Options/CollectionOptions.php:161-164 | the key is the current record's value column |
| CollectionOptions.Next | src/Netzmacht/Contao/DevTools/Dca/Options/CollectionOptions.php:152-156 | the counter and the collection's cursor each move on by exactly one, records and configuration are kept, and lockstep is preserved |
| CollectionOptions.Valid | src/Netzmacht/Contao/DevTools/Dca/Options/CollectionOptions.php:169-172 | valid holds exactly when the counter is below the record count |
| CollectionOptions.Rewind | src/Netzmacht/Contao/DevTools/Dca/Options/CollectionOptions.php:177-181 | the counter and the cursor both return to 0, which puts them in lockstep, and records and configuration are kept |
| CollectionOptions.Drain | src/Netzmacht/Contao/DevTools/Dca/Options/CollectionOptions.php:234-236 | from a lockstep state, the foreach loop yields one pair per remaining record, in order, each being that record's key and label, and stops with valid false at the record count |
| CollectionOptions.Pass | src/Netzmacht/Contao/DevTools/Dca/Options/CollectionOptions.php:234-236 | a rewound foreach yields exactly count pairs, the i-th being the i-th record's key and label, and ends exhausted with the same records and configuration |
| CollectionOptions.FirstMatch | src/Netzmacht/Contao/DevTools/Dca/Options/CollectionOptions.php:188-192 | the scan returns the first record whose column is identical to the key, or reports that none matches |
| CollectionOptions.OffsetExists | src/Netzmacht/Contao/DevTools/Dca/Options/CollectionOptions.php:186-195 | the result holds exactly when some record's value column is identical (`===`) to the offset |
| CollectionOptions.OffsetGet | src/Netzmacht/Contao/DevTools/Dca/Options/CollectionOptions.php:200-209 | the result is non-null exactly when some record matches, and then it is the field map of the first matching record |
| CollectionOptions.OffsetSet | src/Netzmacht/Contao/DevTools/Dca/Options/CollectionOptions.php:214-217 | writing by key is unsupported and leaves the adapter as it was |
| CollectionOptions.OffsetUnset | src/Netzmacht/Contao/DevTools/Dca/Options/CollectionOptions.php:222-225 | removing by key is unsupported and leaves the adapter as it was |
| CollectionOptions.GetArrayCopy | src/Netzmacht/Contao/DevTools/Dca/Options/CollectionOptions.php:230-239 | the export has distinct keys and at most count entries, and leaves the adapter exhausted, in lockstep, at the record count |
| CollectionOptionsProperties.CallbackWinsOverLabelColumn | src/Netzmacht/Contao/DevTools/Dca/Options/CollectionOptions.php:140-147 | with a callback set, current() is the callback applied to the current row, whatever the label column and whichever was configured first |
| CollectionOptionsProperties.LabelColumnUsedWithoutCallback | src/Netzmacht/Contao/DevTools/Dca/Options/CollectionOptions.php:140-147 | with no callback, current() is the current record's label column |
| CollectionOptionsProperties.KeyIgnoresLabelSource | src/Netzmacht/Contao/DevTools/Dca/Options/CollectionOptions.php:161-164 | key() does not change when the label column or the callback changes |
| CollectionOptionsProperties.ValueColumnIgnoredByLabels | src/Netzmacht/Contao/DevTools/Dca/Options/CollectionOptions.php:113-118 | changing the value column changes neither current() nor valid() |
| CollectionOptionsProperties.NextSteps | src/Netzmacht/Contao/DevTools/Dca/Options/CollectionOptions.php:152-181 | after rewind and n calls of next, the counter is n, the adapter is in lockstep, and valid holds exactly when n is below count |
| CollectionOptionsProperties.SecondPassSame | src/Netzmacht/Contao/DevTools/Dca/Options/CollectionOptions.php:177-181 | a second rewound pass, started from the exhausted state the first left, yields the same pairs |
| CollectionOptionsProperties.PassEntry | src/Netzmacht/Contao/DevTools/Dca/Options/CollectionOptions.php:140-164 | the i-th pair of a pass has the i-th record's value column as key, and the callback's result (or else the label column) as label |
| CollectionOptionsProperties.OffsetGetAgreesWithExists | src/Netzmacht/Contao/DevTools/Dca/Options/CollectionOptions.php:186-209 | offsetGet is non-null exactly when offsetExists holds |
| CollectionOptionsProperties.FirstRecordWins | src/Netzmacht/Contao/DevTools/Dca/Options/CollectionOptions.php:200-209 | among records sharing a key, offsetGet returns the first one in collection order |
| CollectionOptionsProperties.StrictLookup | src/Netzmacht/Contao/DevTools/Dca/Options/CollectionOptions.php:189 | lookup uses `===`: the integer id 1 is found, and the string "1" is not |
| CollectionOptionsProperties.WritesAreInvisible | src/Netzmacht/Contao/DevTools/Dca/Options/CollectionOptions.php:214-225 | after offsetSet or offsetUnset, every lookup, every pass and the export give the same results as before |
| CollectionOptionsProperties.ArrayCopyKeys | src/Netzmacht/Contao/DevTools/Dca/Options/CollectionOptions.php:230-239 | the exported keys are exactly the normalised value-column values of the records |
| CollectionOptionsProperties.ArrayCopyLastWins | src/Netzmacht/Contao/DevTools/Dca/Options/CollectionOptions.php:234-236 | each exported key holds the label of the last record carrying that key |
| CollectionOptionsProperties.ArrayCopyInOrder | src/Netzmacht/Contao/DevTools/Dca/Options/CollectionOptions.php:230-239 | when no two records share a key, the export has exactly count entries, one per record, in collection order |
| CollectionOptionsProperties.ArrayCopyFirstOccurrenceOrder | src/Netzmacht/Contao/DevTools/Dca/Options/CollectionOptions.php:230-239 | the export lists keys in the order their first records appear: any record carrying a later key is preceded by a record carrying each earlier key |
| CollectionOptionsProperties.RepeatedKeyKeepsFirstPlace | src/Netzmacht/Contao/DevTools/Dca/Options/CollectionOptions.php:230-239 | when the first and third of three records share an array key, the export is that key with the third record's label, followed by the second record's key and label |
| CollectionOptionsProperties.RepeatedIdExample | src/Netzmacht/Contao/DevTools/Dca/Options/CollectionOptions.php:234-236 | ids `1`, `2`, `"1"` with labels `a`, `b`, `c` export as `[1 => "c", 2 => "b"]` |
| CollectionOptionsProperties.ExportExample | src/Netzmacht/Contao/DevTools/Dca/Options/CollectionOptions.php:230-239 | the records `{id: 1, name: "a"}` and `{id: 2, name: "b"}` export as `[1 => "a", 2 => "b"]` |
| CollectionOptionsProperties.NumericStringIdsShareExportKey | src/Netzmacht/Contao/DevTools/Dca/Options/CollectionOptions.php:235 | ids `1` and `"1"` give one exported entry, holding the later label |

## Left out

- `GenerateAliasCallback`: it calls `generate` on an `AliasGenerator` with the data container's `activeRecord` and the current value, and returns that result unchanged. The generator's code is not part of this model, so nothing about the callback can be stated beyond the pass-through.
- The framework's `Model\Collection`: its code is not part of this model. It is replaced by a record sequence plus a cursor index. Two assumptions come with that:
  - a column that a record does not carry reads as `null` (`ModelCollection.FieldOf`);
  - `next()` moves the cursor on by one, without checking the end.
- Cursor state after `offsetExists`/`offsetGet`: their `foreach` iterates the collection. Whether that moves the collection's own cursor depends on how `Model\Collection` implements iteration, and that code is not part of this model. The model leaves the question open: it treats both lookups as pure scans and makes no claim about the cursor afterwards.
- PHP callables and `call_user_func`: the label callback is an arbitrary total function from a record's field map to a value. A falsy callback (such as `null`) is `None`.
- CollectionOptions.Current: requires a label source, either a callback or a label column. PHP's behaviour when reading the property of a null column name is not modelled.
- CollectionOptions.Current: also requires the collection's cursor to rest on a record, as does `CollectionOptions.Key`. What the collection returns past its end is its own behaviour and is not modelled.
- Floats, arrays and objects as field values: only `null`, `bool`, 64-bit `int` and `string` are modelled. This leaves out the float-to-int truncation of array keys, and the fact that `NAN !== NAN`.
- Array-key normalisation assumes a 64-bit platform.
- The framework's `Options` interface and widget rendering: they are not part of the class.
