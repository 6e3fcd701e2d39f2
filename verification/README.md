# Arrays helpers — a Dafny model

This project models the array helpers of the framework's `Arrays` class
(`src/Helpers/Arrays.php`): the static functions that flatten, look up,
generate, sort, group, project, filter and zip PHP arrays.

A PHP array is modelled as the sequence of its entries in iteration order,
`Array = seq<(Key, Value)>`, where a `Key` is an integer or a string and a
`Value` is null, a boolean, an integer, a string or a nested array. The
primitive operations the helpers are written with live in `php_array.dfy`
(module `PhpArray`):

- `isset` is `IsSet`: the key is present and its value is not null.
- An unguarded read is `ValueAt`: an absent key reads as null.
- `$a[$k] = $v` is `Assign`: an existing key keeps its place, a new key goes
  at the end.
- `$a[] = $v` is `Push`, using `NextIndex`.
- `$a + $b` is `Union`.
- Key coercion is `StringKey` and `ValueKey`. A canonical decimal string
  becomes an integer key. Null becomes `""`. A boolean becomes 0 or 1. An
  array cannot be a key.

`php_strings.dfy` (module `PhpStrings`) holds `explode` and integer
formatting.

Helpers whose PHP code loops are Dafny methods with loops. Each method is
proved against a specification function or against stated properties.
Helpers that only compute a value are functions. The modules follow the
helper groups:

| module | file | helpers |
|---|---|---|
| `ArraysFlat` | arrays_flat.dfy | `flat` |
| `ArraysLookup` | arrays_lookup.dfy | `getFirst`, `get`, `getArray`, `getPath`, `getArrayPath` |
| `ArraysRange` | arrays_range.dfy | `range` |
| `ArraysSort` | arrays_sort.dfy | `sortByKey`, `sortByPriority` |
| `ArraysGroup` | arrays_group.dfy | `categorize`, `assignKeys` |
| `ArraysColumn` | arrays_column.dfy | `column`, `columns` |
| `ArraysRows` | arrays_rows.dfy | `getRow`, `getRowKey`, `getRows`, `getRowsBut` |
| `ArraysCombine` | arrays_combine.dfy | `combine`, `combine2` |

`get` tests `isset`, so a key holding null also yields the default;
`ArraysLookup.Get` models that test.

## Model

| member | source | states |
|---|---|---|
| `ArraysFlat.Flat` | src/Helpers/Arrays.php:34-51 | the result is the list (keys 0, 1, 2, …) of the leaves of the arguments, found left to right, with nested arrays expanded recursively; no value of the result is an array |
| `ArraysFlat.NoArrayLeaves` | src/Helpers/Arrays.php:38-48 | no leaf is an array: every array argument is expanded, never appended |
| `ArraysFlat.FlatOfFlatList` | src/Helpers/Arrays.php:38-48 | flattening a list that holds no array gives back its values unchanged |
| `ArraysFlat.FlatIdempotent` | src/Helpers/Arrays.php:34-51 | flattening is idempotent: flattening the result of `flat` again gives the same values |
| `ArraysFlat.LeavesAppend` | src/Helpers/Arrays.php:38-48 | the leaves of consecutive arguments are the leaves of each part, in order |
| `ArraysLookup.GetFirst` | src/Helpers/Arrays.php:61-69 | the first value, unless the array is empty or its first value is `false`; then the default |
| `ArraysLookup.Get` | src/Helpers/Arrays.php:80-87 | a set key (present and not null) gives its stored value; any other key gives the default |
| `ArraysLookup.GetAfterAssign` | src/Helpers/Arrays.php:80-87 | after `$a[$k] = $v`, `get` at `k` gives `v` unless `v` is null; other keys read as before |
| `ArraysLookup.GetArray` | src/Helpers/Arrays.php:97-106 | one entry per distinct requested key, in first-request order, each holding `get(a, key, null)` |
| `ArraysLookup.PathKeys` | src/Helpers/Arrays.php:122 | the keys of a path are the pieces of `explode(sep, path)` coerced to keys, at least one of them |
| `ArraysLookup.Walk` | src/Helpers/Arrays.php:122-128 | a walk over at least one key that succeeds never ends on null: every step needs `isset` |
| `ArraysLookup.GetPath` | src/Helpers/Arrays.php:118-131 | the result is the value at the end of the walk along the path's keys, or the default when a step finds its key unset |
| `ArraysLookup.WalkAppend` | src/Helpers/Arrays.php:122-128 | walking a path in two parts is walking the first part, then the second from where it ended |
| `ArraysLookup.StopsAtUnset` | src/Helpers/Arrays.php:123-125 | as soon as one step finds its key unset (or the current value is not an array), `getPath` answers the default |
| `ArraysLookup.SingleSegmentPath` | src/Helpers/Arrays.php:118-131 | a path without the separator is one key: `getPath` is then `get` |
| `ArraysLookup.GetArrayPath` | src/Helpers/Arrays.php:141-161 | one entry per distinct path, keyed by the path string, holding what `getPath` with the separator "/" and default null answers |
| `ArraysLookup.WalkOrNull` | src/Helpers/Arrays.php:146-155 | the inner loop of `getArrayPath` ends on what `getPath` with separator "/" and default null answers for the path |
| `PhpStrings.Explode` | src/Helpers/Arrays.php:122 | `explode` gives at least one piece |
| `PhpStrings.ImplodeExplode` | src/Helpers/Arrays.php:122 | joining the pieces of `explode` with the separator gives back the string |
| `PhpStrings.ExplodePartsFree` | src/Helpers/Arrays.php:122 | no piece of `explode` contains the separator |
| `PhpStrings.ExplodeLeftmost` | src/Helpers/Arrays.php:122 | the first piece of `explode` ends at the leftmost occurrence of the separator, also when occurrences overlap, and the rest is split the same way |
| `PhpStrings.ExplodeFree` | src/Helpers/Arrays.php:122 | a string without the separator is a single piece |
| `PhpStrings.CanonicalIntToString` | src/Helpers/Arrays.php:148 | the decimal form of every integer is canonical and reads back as that integer, so `"5"` addresses key 5 |
| `PhpArray.StringKeyOfInt` | src/Helpers/Arrays.php:148 | a path piece spelling an integer in canonical form addresses that integer key |
| `PhpArray.StringKey` | src/Helpers/Arrays.php:123 | a path piece used as a key (also at line 149): when it becomes an integer key it is the canonical decimal form of that integer, otherwise it stays the same string |
| `PhpArray.StringKeyInjective` | src/Helpers/Arrays.php:148 | different path pieces never address the same key |
| `PhpArray.IsSet` | src/Helpers/Arrays.php:82 | `isset($a[$k])`: the key is present and does not hold null; a set key is always one of the array's keys |
| `PhpArray.ValueAt` | src/Helpers/Arrays.php:295 | `$a[$k]` read without a guard: an absent key reads as null |
| `PhpArray.ValueKey` | src/Helpers/Arrays.php:263-265 | a value used as a key: null becomes "", a boolean 0 or 1, a string goes through the canonical-integer rule; exactly the arrays have no key |
| `PhpArray.KeyValue` | src/Helpers/Arrays.php:390 | the key `getRowKey` returns, read back as a value, is used as a key again as the same key, except a string key spelling a canonical integer, which PHP never stores |
| `PhpArray.HasField` | src/Helpers/Arrays.php:369 | `isset($tRow[$uKey])` (also at lines 316, 346, 389, 411 and 433): only an array row has fields, and a field that is set is one of the row's keys |
| `PhpArray.Field` | src/Helpers/Arrays.php:317-318 | `$tRow[$uKey]` on an array row (also at lines 263, 295, 347, 369): the value read is not null exactly when `isset` holds for that field |
| `PhpArray.NextIndex` | src/Helpers/Arrays.php:275 | the key `$a[] = $v` uses is non-negative and above every integer key already in the array |
| `PhpArray.Assign` | src/Helpers/Arrays.php:102 | `$a[$k] = $v` stores `v` under `k`; an existing key keeps its position, a new key is appended; no other key changes; distinct keys stay distinct |
| `PhpArray.Push` | src/Helpers/Arrays.php:204 | `$a[] = $v` appends `v` under a key that is not yet in the array |
| `PhpArray.NextIndexOfList` | src/Helpers/Arrays.php:204 | appending to a list uses its length as the next key |
| `PhpArray.Union` | src/Helpers/Arrays.php:521 | `$a + $b` begins with all of `a` |
| `PhpArray.FindUnion` | src/Helpers/Arrays.php:521 | in `$a + $b` a key reads from `a` when `a` holds it, otherwise from `b` |
| `PhpArray.UnionKeys` | src/Helpers/Arrays.php:521 | the keys of `$a + $b` are the keys of both sides |
| `PhpArray.UnionWellFormed` | src/Helpers/Arrays.php:521 | `$a + $b` never holds a key twice |
| `PhpArray.AssignAllSpec` | src/Helpers/Arrays.php:294-296 | a run of assignments keeps each key at its first position and gives it the value of its last assignment |
| `PhpArray.AssignAllFresh` | src/Helpers/Arrays.php:294-296 | assignments under keys that are all different build exactly those pairs, in order |
| `ArraysRange.Range` | src/Helpers/Arrays.php:194-208 | for an integer step > 0, and for any step when min > max (the loop then never runs): empty exactly when min > max; starts at min; the j-th number is min + j·step and each is the previous plus step; all are ≤ max and the next would exceed it; the count is `RangeCount`; keys are the numbers themselves with `withKeys`, else 0, 1, 2, … |
| `ArraysRange.RangeResult` | src/Helpers/Arrays.php:198-205 | once the loop's next number would exceed max, what it built is the whole progression: `RangeCount` numbers from min by step, keyed as `range` promises |
| `ArraysRange.ProgressionCount` | src/Helpers/Arrays.php:198 | any progression from min by step that stops at the first number above max has exactly `RangeCount(min, max, step)` numbers |
| `ArraysRange.ProduceNext` | src/Helpers/Arrays.php:198-205 | one more pass of the loop adds the next number, min + n·step, stored under itself or appended, and the following number is min + (n + 1)·step |
| `ArraysSort.SortValues` | src/Helpers/Arrays.php:230-234 | sorting integer field values keeps the same entries (a permutation) |
| `ArraysSort.SortValuesSpec` | src/Helpers/Arrays.php:230-234 | the sorted entries are in ascending (`asort`) or descending (`arsort`) order and are a permutation of the input |
| `ArraysSort.Insert` | src/Helpers/Arrays.php:230-234 | one insertion step of the sort behind `asort`/`arsort`: the result has one more entry and is the input plus the inserted entry as a multiset |
| `ArraysSort.InsertSorted` | src/Helpers/Arrays.php:230-234 | inserting into a sorted sequence keeps it sorted |
| `ArraysSort.CollectField` | src/Helpers/Arrays.php:226-228 | the first loop builds each row's key with its field value, in row order |
| `ArraysSort.SortByKey` | src/Helpers/Arrays.php:219-242 | the result is a list (keys 0, 1, 2, …) holding a permutation of the rows, with consecutive rows' fields in the requested order (descending only for "desc"); an empty input gives an empty result |
| `ArraysSort.SortByKeyResult` | src/Helpers/Arrays.php:236-238 | the rows listed after the sort are a permutation of the input rows and are ordered by their field |
| `ArraysSort.SortedRowFields` | src/Helpers/Arrays.php:236-238 | each sorted entry names a row whose field is the entry's value |
| `ArraysSort.MapPermutation` | src/Helpers/Arrays.php:236-238 | looking rows up in a rearranged key order rearranges the rows |
| `ArraysSort.UnionWithout` | src/Helpers/Arrays.php:521 | `$t + $b` is `t` followed by the entries of `b` whose keys `t` lacks, in `b`'s order |
| `ArraysSort.SortByPriority` | src/Helpers/Arrays.php:508-522 | every key reads the same value as in the input; the keys are first the set priorities in request order (once each), then the remaining keys in input order |
| `ArraysSort.PriorityResult` | src/Helpers/Arrays.php:512-521 | the union of the priority entries with the input keeps every value and has the priority keys first |
| `PhpArray.SetPairsTable` | src/Helpers/Arrays.php:512-518 | assigning the set entries for a list of keys holds exactly the set requested keys, each with its value from the source, in first-request order |
| `ArraysGroup.GroupPath` | src/Helpers/Arrays.php:262-264 | the key a row is filed under at each level is its field value coerced to a key |
| `ArraysGroup.Bucket` | src/Helpers/Arrays.php:264-269 | the group the reference moves into under a key is the array stored under that key, or an empty group when there is none yet |
| `ArraysGroup.BucketAssign` | src/Helpers/Arrays.php:265-269 | after storing a group under a key, descending into that key reads it back, and every other key reads as before |
| `ArraysGroup.Place` | src/Helpers/Arrays.php:261-276 | filing one row along its path: the result is never empty, keeps keys distinct, and a group missing at the top level is added after the existing ones (existing groups keep their place) |
| `ArraysGroup.Grouping` | src/Helpers/Arrays.php:260-277 | filing every row in turn gives an array with distinct keys that is empty exactly when the input is; which groups it holds at each level is stated by `GroupingKeys` and `RowGroups` |
| `ArraysGroup.NextKeys` | src/Helpers/Arrays.php:260-270 | a key is among the next keys below a path exactly when some row whose path starts with that path has it at the next level |
| `ArraysGroup.PlaceKeys` | src/Helpers/Arrays.php:261-270 | filing a row adds the next key of its path to the group above it, after the keys already there, when that key is missing; no other group's keys change |
| `ArraysGroup.PlaceBelow` | src/Helpers/Arrays.php:261-276 | seen from a group on the row's path, filing the row is filing it along the rest of the path from that group |
| `ArraysGroup.PlaceOff` | src/Helpers/Arrays.php:261-276 | a group whose path the row's path does not pass through is unchanged by filing the row |
| `ArraysGroup.GroupingKeys` | src/Helpers/Arrays.php:260-277 | below every path shorter than the key list, `categorize` has one group per distinct next key of the rows under that path, in the order the keys first occur; no group is missing and none is spurious |
| `ArraysGroup.RowGroups` | src/Helpers/Arrays.php:260-277 | along a row's own path, each group holds the row's next key, and what it stores there is a non-empty array, down to the group holding the row |
| `ArraysGroup.GroupNonEmpty` | src/Helpers/Arrays.php:260-277 | a bottom group that some row is filed under is not empty |
| `ArraysGroup.DescendSnoc` | src/Helpers/Arrays.php:267-269 | following one more key leads into the group stored under that key |
| `ArraysGroup.Categorize` | src/Helpers/Arrays.php:253-280 | the result is the grouping built by filing each row in turn along its path, creating groups as needed, and appending the row (or assigning it under its own key when keys are preserved) |
| `ArraysGroup.CategorizeGroups` | src/Helpers/Arrays.php:260-277 | below every path as deep as the key list, `categorize` holds exactly the rows whose fields give that path, in input order: under their own keys when keys are preserved, as a list otherwise |
| `ArraysGroup.PlaceDescend` | src/Helpers/Arrays.php:261-276 | filing a row changes only the group at its own path |
| `ArraysGroup.RowFiledOnce` | src/Helpers/Arrays.php:260-277 | with keys preserved, a row is in the group at its own path and in no other group |
| `ArraysGroup.Matching` | src/Helpers/Arrays.php:260-277 | the rows of one group are exactly the rows whose path is that group's path |
| `ArraysGroup.AssignKeys` | src/Helpers/Arrays.php:290-299 | each distinct field value (as a key) appears once, at the position of its first row, holding the last row with that field value |
| `ArraysGroup.KeyedRows` | src/Helpers/Arrays.php:294-295 | one pair per row, in input order: the row itself under its field value coerced to a key |
| `ArraysGroup.AssignKeysDistinct` | src/Helpers/Arrays.php:290-299 | when all field values differ, every row is kept, in order |
| `ArraysGroup.AssignKeysLastOfGroup` | src/Helpers/Arrays.php:290-299 | a key is present exactly when some row has that field value, and it holds the last such row; so `assignKeys` keeps the last row of each single-key `categorize` group |
| `ArraysColumn.ColumnOf` | src/Helpers/Arrays.php:315-325 | the values `column` appends, row by row: a set field adds its value (when `distinct`, only if not yet present), a row without the field adds null unless skipped; never longer than the input; its other properties are the `Column*` lemmas below |
| `ArraysColumn.Column` | src/Helpers/Arrays.php:311-328 | the result is the list of `ColumnOf`: set fields in row order, null for rows without the field unless skipped, repeats dropped when distinct |
| `ArraysColumn.ColumnPlain` | src/Helpers/Arrays.php:315-325 | without flags there is one value per row: the row's field when set, null otherwise |
| `ArraysColumn.ColumnSkip` | src/Helpers/Arrays.php:321-323 | skipping empties leaves no null in the column |
| `ArraysColumn.ColumnDistinct` | src/Helpers/Arrays.php:317 | with distinct, no non-null value occurs twice |
| `ArraysColumn.ColumnNulls` | src/Helpers/Arrays.php:321-323 | without skipping, the number of nulls equals the number of rows lacking the field |
| `ArraysColumn.ColumnValues` | src/Helpers/Arrays.php:315-325 | every set field value is in the column, and every non-null value of the column is some row's field value |
| `ArraysColumn.SubRow` | src/Helpers/Arrays.php:343-349 | a sub-row holds exactly the requested keys set in the row, each with the row's value, with distinct keys |
| `ArraysColumn.Columns` | src/Helpers/Arrays.php:338-355 | one sub-row per row, in order, as a list |
| `ArraysRows.Selects` | src/Helpers/Arrays.php:411 | the match test `isset($row[$key]) && $row[$key] === $value` (or `!==`); an `===` match is never against null, because `isset` rules a null field out |
| `ArraysRows.RowsWhere` | src/Helpers/Arrays.php:410-414 | the entries whose row `Selects` keeps, under their own keys, in order; its properties are `RowsWhereMembers` and `RowsWhereOrdered` |
| `ArraysRows.GetRows` | src/Helpers/Arrays.php:406-417 | the rows whose field is set and strictly equal to the value, under their own keys, in order |
| `ArraysRows.GetRowsBut` | src/Helpers/Arrays.php:428-439 | the rows whose field is set and differs from the value, under their own keys, in order |
| `ArraysRows.GetRow` | src/Helpers/Arrays.php:366-375 | the first matching row, or `false` when none matches |
| `ArraysRows.GetRowKey` | src/Helpers/Arrays.php:386-395 | the key of the first matching row, or `false` when none matches |
| `ArraysRows.RowsWhereMembers` | src/Helpers/Arrays.php:410-414 | the selection holds exactly the entries whose row is selected |
| `ArraysRows.RowsWhereOrdered` | src/Helpers/Arrays.php:410-414 | the selection has distinct keys and keeps the input order |
| `ArraysRows.FirstSelected` | src/Helpers/Arrays.php:368-372 | the first selected row is the one `getRow` returns |
| `ArraysRows.RowsPartition` | src/Helpers/Arrays.php:406-439 | `getRows` and `getRowsBut` share no key, and a row is in one of them exactly when its field is set |
| `ArraysCombine.CombineKey` | src/Helpers/Arrays.php:455 | the key for index i is the first array's value at i used as a key; an index the first array lacks reads null and so gives the key "" |
| `ArraysCombine.CombinePairs` | src/Helpers/Arrays.php:453-459 | one pair per index below the first array's count, pair i being the key and value `combine` assigns for index i |
| `ArraysCombine.CombineValue` | src/Helpers/Arrays.php:454-459 | the value stored for index i is the second array's value at i when set, null otherwise |
| `ArraysCombine.Combine` | src/Helpers/Arrays.php:449-463 | each index below the first array's count contributes its first-array value as key; a key appears once, at its first position, holding the value of its last index |
| `ArraysCombine.CombineIndex` | src/Helpers/Arrays.php:453-460 | an index whose key no later index repeats holds the second array's value at that index (or null) |
| `ArraysCombine.CombineLists` | src/Helpers/Arrays.php:449-463 | combining a list of distinct keys with a list of non-null values of equal length pairs them position by position |
| `ArraysCombine.Combine2` | src/Helpers/Arrays.php:472-498 | a list of tuples, tuple i holding each argument's value at i (null where unset); it stops at the first index where no argument is set, so with no arguments the result is empty |
| `ArraysCombine.Tuple` | src/Helpers/Arrays.php:480-488 | the tuple for index i has one value per argument |
| `ArraysCombine.TupleValues` | src/Helpers/Arrays.php:480-488 | value j of tuple i is argument j's value at i when set, null otherwise |
| `ArraysCombine.CollectTuple` | src/Helpers/Arrays.php:477-488 | the inner loop builds the tuple for the index and reports whether every value was unset |
| `ArraysCombine.TuplesStep` | src/Helpers/Arrays.php:490-494 | appending the tuple of the next index, when one of its values is set, keeps the result a list holding tuple k at key k for every k so far |
| `ArraysCombine.SetBelowBound` | src/Helpers/Arrays.php:476-492 | an index at which some argument is set is below `KeyBound`, a bound on every integer key of every argument, so the outer loop of `combine2` ends |
| `ArraysCombine.KeyBound` | src/Helpers/Arrays.php:476-492 | no argument holds an integer key at or above the bound |
| `ArraysCombine.Combine2OfLists` | src/Helpers/Arrays.php:472-498 | zipping lists of non-null values that all have length n gives n tuples, tuple i holding the i-th value of every list |

## Left out

- `getRandom` is not modelled: it draws a random index.
- `ArraysFlat.Flat`: a nested array is spread into the recursive call with `...$tValue` (src/Helpers/Arrays.php:40), which throws when the array has string keys. From PHP 8.0 on, it throws when a string key comes before an integer key ("Cannot use positional argument after named argument during unpacking"). Before 8.0, it throws on any string key ("Cannot unpack array with string keys"). The model does not model these errors: it flattens every nested array in order, which is PHP's answer from 8.0 on whenever no string key precedes an integer key.
- `ArraysLookup.GetFirst`: `current()` reads the internal pointer of the caller's array, which a by-value parameter shares. The model takes the first entry, which matches PHP only while the caller has not moved the pointer (with `next()`, `end()` and the like).
- Warnings are not modelled. PHP emits one when a missing key is read; the model reads null, as PHP does.
- Floats, objects and resources are not values of the model. `range` is modelled for integer bounds and steps. With a step ≤ 0, PHP returns `[]` at once when min > max, which the model covers. When min ≤ max it loops forever, so `ArraysRange.Range` requires step > 0 or min > max. A fractional step, which accumulates floating-point error, is not modelled.
- Integer width is not modelled: keys and `range` numbers are unbounded, with no overflow to float. A numeric-string key beyond the integer range is not modelled either.
- The append key is one more than the largest non-negative integer key, or 0. This is the rule before PHP 8.3. Negative keys are handled differently from 8.3 on.
- `PhpStrings.Explode` requires a non-empty separator. PHP rejects an empty separator with an error.
- Strings used as arrays are not modelled. A string's offsets (`"abc"[1]`) are not modelled, and a value that is not an array holds no fields. So `getPath`, `column` and `columns` treat a string where an array is expected like a missing entry, and `combine2` takes arrays only. `getRow`, `getRowKey`, `getRows` and `getRowsBut` test a row's field with `HasField`, which gives a row that is not an array no fields; PHP's `isset` on a string row tests a string offset instead.
- `ArraysColumn.Column`: `in_array` with loose comparison is modelled as strict equality, so `1` and `"1"` count as different values.
- `ArraysSort.SortByKey` requires every row to be an array whose field is an integer. PHP's ordering of mixed types and of equal values (`asort` is stable from PHP 8.0) is not modelled. The contract states a permutation ordered by the field, not which of two equal fields comes first.
- `ArraysSort.SortByKey`: `asort`/`arsort` sort `$tValues` in place. The model sorts a value.
- Keys the caller passes arrive as `Key`, already coerced. A key given as a boolean, null or a numeric string is taken after PHP's key coercion. This covers `get`'s `$uElement`, `getArray`'s `$uElements`, the `$uKey` of `categorize`, `column`, `getRow`, `getRowKey`, `getRows`, `getRowsBut` and `assignKeys`, `columns`' `$uKeys`, and `sortByPriority`'s priorities. `categorize` takes its key or keys as a sequence, so a single key is passed as a one-element sequence, as the code does at src/Helpers/Arrays.php:256-258.
- `ArraysGroup.Categorize` requires every row to be an array whose grouping fields are not arrays. PHP raises an error on an array offset. A row of null, a boolean or a number reads null for every field, and a string row is read by string offset, as the line on strings used as arrays says. The code walks the groups through references, and the model builds the same grouping as a value.
- `ArraysGroup.AssignKeys` requires every row to be an array whose field is not an array, for the same reasons.
- `ArraysCombine.Combine` requires that no value of the first array under the indices it reads is an array. PHP raises an error on such a key.
- `categorize` iterates its input by reference (`&$tRow`). `$uArray` is passed by value, so the caller never sees that reference, and the model leaves it out.
