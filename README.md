# ArrayFunctions in Dafny

This project models the PHP static class `ArrayFunctions`, a small library that reshapes in-memory arrays of records. A record is an ordered map from field name to value. The model covers all five of its functions:

- **`groupIn`** groups records into a nested array, one level per key field. Each record walks a cursor down the result by its key values, creating missing levels on the way. At the bottom it appends the record's *selected value* to a list.
- **`columnMulti`** takes the same walk but overwrites the bottom, so the last record with a given key path wins.
- **The selected value** depends on `$value_key`. `null` selects the whole record. A field name selects that field. A list of names selects the record cut down to those fields.
- **`sortByColumn`** is a key-preserving sort, by a field of each record (`uasort`) or by the array keys (`uksort`), ascending or descending.
- **`whiteList`** cuts a record down to the listed field names.
- **`coalesceKeys`** returns the value of the first candidate field that is present and not null, or a default.

Modules:

- `Values` holds scalar values, records, field access and the `<=>` ordering.
- `Records` holds `whiteList` and `coalesceKeys`.
- `Trees` holds the nested result of the grouping functions. The PHP reference cursor (`$inner = &$inner[...]`) becomes `Update`, which gets or creates a child and then descends into it. `$inner[] = …` becomes the leaf update `Push`; `$inner = …` becomes `Store`.
- `Grouping` holds `groupIn` and `columnMulti`. Each is a method with the source's loop over the records and is proved to compute the left fold `Grow` of `Update`. Lemmas describe that fold by reference definitions that do not mention the tree.
- `Sorting` holds `sortByColumn`. It is a stable insertion sort on a copy of the input, proved sorted, a permutation and stable.

The buckets a record's cursor follows are defined by `Grouping.KeyPath`: the record's values for the key fields, in key order. A record is a `seq<(string, Value)>`. A value is `Null`, an integer or a string. A missing field reads as `Null`, as `$v[$key]` does in PHP. So a record that lacks a key field is grouped under the null bucket.

## Model

| member | source | states |
|---|---|---|
| Values.Lookup | ArrayFunctions.php:141 | an entry is found for field `k` exactly when the record has one, and the value found is that of the first entry named `k` |
| Values.Get | ArrayFunctions.php:25 | `$v[$key]`: the value of the record's entry for the field when it has one, and null when the field is missing |
| Values.CmpZero | ArrayFunctions.php:106 | `<=>` returns 0 exactly on equal values |
| Values.CmpFlip | ArrayFunctions.php:106 | swapping the operands of `<=>` negates the result, which is what makes the `$desc` branch the reverse order |
| Values.CmpTrans | ArrayFunctions.php:110 | the order that `<=>` decides is transitive |
| Values.LexCmpZero | ArrayFunctions.php:110 | string comparison returns 0 exactly on equal strings |
| Values.LexCmpFlip | ArrayFunctions.php:110 | string comparison is antisymmetric |
| Values.LexCmpTrans | ArrayFunctions.php:110 | string comparison is transitive |
| Records.WhiteList | ArrayFunctions.php:123-126 | the result keeps exactly the record's entries whose name is whitelisted, and keeps them in the record's order |
| Records.WhiteListLookup | ArrayFunctions.php:125 | a whitelisted field reads as in the record; any other field is absent |
| Records.WhiteListEmpty | ArrayFunctions.php:125 | an empty whitelist gives the empty array |
| Records.WhiteListAll | ArrayFunctions.php:125 | a whitelist naming every field gives the record back unchanged |
| Records.WhiteListIdempotent | ArrayFunctions.php:125 | applying the whitelist twice is the same as applying it once |
| Records.CoalesceKeys | ArrayFunctions.php:138-146 | returns the value of the first candidate that is set, with every earlier candidate unset; returns the default when no candidate is set, including for an empty candidate list |
| Trees.AtUpdate | ArrayFunctions.php:23-27 | one cursor walk changes the leaf at its own path, by the leaf update, and no other leaf |
| Trees.KeysAtUpdate | ArrayFunctions.php:24-26 | one cursor walk adds its next key at each level it passes, at the end and only if that key is new; every other level keeps its keys |
| Trees.UpdateWf | ArrayFunctions.php:23-27 | a cursor walk of the right depth keeps the result well formed: distinct keys at each level and all leaves at the same depth |
| Trees.FlattenPush | ArrayFunctions.php:27 | appending at a leaf adds exactly that one value to the multiset of all leaf values |
| Grouping.SelectMeaning | ArrayFunctions.php:21-44 | `null` selects the record; a field name selects that field's value, null when missing; a list selects exactly the listed entries, in the record's order |
| Grouping.StringKeyIsOnePath | ArrayFunctions.php:24 | records how the `(array)$keys` cast is modelled: `KeyList` turns a single key name into the one-element list, so both spellings give the same result for both grouping functions; it holds by definition |
| Grouping.LastWith | ArrayFunctions.php:66-71 | finds the last record with key path `q`, or none |
| Grouping.Dedup | ArrayFunctions.php:25 | the keys of a level: the same elements as the sequence, each once |
| Grouping.DedupOrder | ArrayFunctions.php:25 | the keys of a level appear in the order in which they were first seen |
| Grouping.GrowWf | ArrayFunctions.php:22-27 | the grouped result is well formed at depth `|keys|` |
| Grouping.GrowPaths | ArrayFunctions.php:66-71 | the full key paths in the result are exactly the key paths of the input records |
| Grouping.GrowKeys | ArrayFunctions.php:22-27 | the keys of each level are the next key values of the records below it, each once, in first-seen order |
| Grouping.GroupLeaves | ArrayFunctions.php:22-27 | the leaf at a path exists exactly when some record has that path, and lists those records' selected values in input order |
| Grouping.CollectEmpty | ArrayFunctions.php:22-27 | a leaf list is empty exactly when no record has its path |
| Grouping.GroupFlatten | ArrayFunctions.php:22-45 | every record contributes exactly one leaf entry; together the leaves hold the multiset of selected values |
| Grouping.GroupIn | ArrayFunctions.php:18-48 | the loop computes the fold; the result is well formed; each leaf, each level's key order, and the multiset of all leaf entries are as the lemmas above state |
| Grouping.ColumnLeaves | ArrayFunctions.php:75-81 | the leaf at a path holds the selected value of the last record with that path |
| Grouping.ColumnLastWins | ArrayFunctions.php:83-89 | the record added last overwrites whatever was at its path |
| Grouping.ColumnMulti | ArrayFunctions.php:62-92 | the loop computes the fold; the result is well formed; its paths are exactly the input's; each leaf holds the last record's selected value; each level's keys are in first-seen order |
| Sorting.CompareFlip | ArrayFunctions.php:105-111 | the callback is antisymmetric, with or without `$desc` |
| Sorting.CompareTrans | ArrayFunctions.php:105-111 | the callback's order is transitive, with or without `$desc` |
| Sorting.BeforeTotal | ArrayFunctions.php:104-111 | ordering by callback and then by input position puts any two distinct entries one way or the other |
| Sorting.BeforeTrans | ArrayFunctions.php:104-111 | ordering by callback and then by input position is transitive |
| Sorting.InsertStep | ArrayFunctions.php:105 | one step of the in-place sort of the local copy: slot `i` joins the ordered prefix, which grows by one; the slots after `i` are untouched; the multiset of entries is kept, and every entry stays with its key |
| Sorting.SortByColumn | ArrayFunctions.php:102-114 | the result is a permutation of the input entries, with keys still attached; it is ordered by the callback, ascending or with `$desc` descending; ties keep their input order |

## Left out

- PHP array-key coercion is not modelled. PHP turns `null` into `""`, numeric strings into integers and so on. Bucket keys here are `Value`s, and a missing field is the `Null` bucket. So the model does not merge the `Null` bucket with a `""` bucket as PHP does.
- The undefined-index warnings that PHP raises for missing fields are runtime diagnostics and are left out. Only their result, null, is modelled.
- `<=>` is modelled over one totally ordered value type: `Null < Int < Str`, with integers numerically and strings character by character. PHP's comparisons across types, including numeric strings, are left out.
- The algorithm inside `uasort`/`uksort` is not modelled. It is replaced by a stable insertion sort. This gives the same result that PHP 8's stable sort promises for a callback that is a total preorder.
- Sorting.SortByColumn: the stability permutation `order` is a ghost out-parameter; the compiled result carries no positions.
- Grouping.ColumnMulti: requires a non-empty key list. With no keys, PHP overwrites `$result` itself, and for a field selector that breaks the `array` return type.
- Grouping.GroupIn with an empty key list gives one leaf holding the flat list of selections. That is the PHP result seen as a list.
- Reference aliasing is not modelled as such. The `&` cursor is modelled by the functional get-or-create-then-descend update, for which it is a shorthand.
- Field values are null, integers and strings. PHP booleans and floats are left out, and so are records nested in fields, key paths that make one record's leaf another record's inner level, and the resulting type errors.
- `groupIn` and `columnMulti` ignore the outer array's keys, so the records are passed as a sequence. `sortByColumn` keeps the keys, and each entry is a `(key, record)` pair.
