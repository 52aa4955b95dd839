# anki-anchor record-set engine — a Dafny model of `dataset.py`

This project models the in-memory table engine of anki-anchor, the module
`dataset.py` that sits between the flashcard store, the hosted database and
flat files. It covers:

- **Columns and records** (`DataColumn`, `DataRecord`). A record holds a
  name→slot map and a slot→value map. Reading a field by name goes through
  both and raises `KeyError` when either lookup misses. `asdict` reads every
  named field.
- **The table** (`DataSet`) as a class `DataSets.Table` with fields
  `columns`, `names` (the `_column_names` dictionary) and `records`.
  - Its methods update those fields in place: the constructor, `add_records`,
    `add_record`, `_add_record_from_dict` and `rename_column`.
  - `record_to_dict` is a method that only reads the table (it has a loop),
    and `get_column_index` and `get_column` are reading functions.
  - A pure `Snapshot` value of the three fields specifies every method.
- **The key index** (`build_key_index`, `select_first_or_only`,
  `select_all`). The index maps each key value to one record, or to a list
  once the key repeats. Its keys keep dictionary insertion order
  (first-seen order).
- **The two relational operators**:
  - `merge`: pairs the first left and right record of each shared key and
    merges them field by field with `merge_records`.
  - `append`: all right records, then left records. With duplicates kept
    (`ignore_duplicates=False`) every left record is added. With duplicates
    ignored (the default), only the first left record of each key the right
    table lacks is added.

Each operator is a method that builds a fresh `Table` with the same loop
structure as the source. It is proved equal to a specification function
(`MergeSpec`, `AppendSpec`) that folds over the index keys. The module
`JoinFacts` then proves what those folds amount to, stated against the input
tables: the merge of any two tables with equal key columns, merging a table
with itself, the append of any two tables in either mode (as the ingestion of
the chosen records into the right table's columns), the exact records an
append yields when both tables share one name map and the right one is
canonical, and appending a table to itself.

The source's default arguments are kept as Dafny default parameter values:
`overwrite := false` for `merge`, `ignoreDuplicates := true` for `append`,
and an empty seed list for the table constructor.

Modules, leaves first:

- `Values`: column kinds, values, errors, `Result`.
- `Records`: `DataRecord` and `merge_records`.
- `DataSets`: `DataSet`.
- `KeyIndexing`: the key index.
- `Relational`: `merge` and `append`.
- `JoinFacts`: whole-operator properties.

Python exceptions become the `Err` side of a `Result` (or `Failed` of a
`Status`):

| exception | raised by |
|---|---|
| `ColumnNotFound` | `ColumnError(COLUMN_NOT_FOUND)` |
| `KeyError` | a missing dictionary key |
| `Unhashable` | a list used as an index key |
| `IndexError` | the first element of an empty list |
| `ColumnAlreadyExists` | the corrected rename (see Findings) |

`merge_records` and the dictionary-to-fields step are written as the source
writes them:

- In `merge_records`, the left value wins when it is non-null and the right
  one is null, or when `overwrite` is set; otherwise the right value wins
  (dataset.py:139).
  This contradicts the comment at dataset.py:126 ("left _always_ takes
  priority"): without `overwrite`, a non-null right value replaces a
  non-null left one. The model follows the code.
- Ingesting a dictionary fills absent names with `None` and ignores extra keys.

## Model

| member | source | states |
|---|---|---|
| Records.Get | dataset.py:35-37 | A field read succeeds exactly when the name is mapped and its slot holds a value. It then yields that slot's value; otherwise it fails with KeyError. |
| Records.AsDict | dataset.py:39-44 | `asdict` succeeds exactly when every mapped name's slot holds a value. The dictionary then has exactly the record's names as keys, each mapped to its slot's value. |
| Records.MergeValue | dataset.py:139-141 | With overwrite the left value is kept. Without it the right value is kept unless it is null, in which case the left value is kept. The result is always one of the two. |
| Records.MergeField | dataset.py:137-141 | Reading one column of both records succeeds exactly when the name resolves in both. The merged value is then the field rule applied to the two; otherwise it fails with KeyError. |
| Records.MergeRecords | dataset.py:134-142 | The loop's result equals the merged-record specification: it fails with KeyError if any name of the left record cannot be read on either side. Otherwise it is a record with the left name map whose slots hold the merged values. |
| Records.MergedRecord | dataset.py:134-142 | The result of `merge_records`: KeyError when some left name cannot be read from both records, otherwise a record with the left name map and the merged value in every slot. It is a definition; MergeRecords is proved equal to it, and MergedRecordShape, MergeWithItself and MergeOverwriteKeepsLeft state its properties. |
| Records.MergedRecordShape | dataset.py:134-142 | A merge succeeds iff every left name resolves in both records. The merged record then keeps the left names, has one field per left slot, and each field is the field rule applied to the two values. |
| Records.MergeWithItself | dataset.py:134-142 | Merging a complete record with itself gives back the same record, whatever `overwrite` is. |
| Records.MergeOverwriteKeepsLeft | dataset.py:134-142 | With overwrite, merging a complete left record with any right record that has all its names gives back the left record unchanged. |
| DataSets.NamesOf | dataset.py:57-63 | The constructor's name map, built column by column with later columns overwriting earlier ones. It is a definition; NamesOfLastWins and NamesOfWellFormed state what it maps. |
| DataSets.NamesOfLastWins | dataset.py:58-62 | The name map built from a column list maps every name to a position holding a column of that name. That position is the last one when names repeat. |
| DataSets.NamesOfWellFormed | dataset.py:58-62 | A freshly built table is well-formed, and its name map is injective (no two names share a slot). |
| DataSets.NamesOfDistinct | dataset.py:58-62 | With distinct column names every column is mapped to its own position. |
| DataSets.CanonicalNames | dataset.py:52-62 | A table whose every column is named at its own position has the name map that the constructor builds from its columns, and distinct column names. |
| DataSets.CopyColumns | dataset.py:55-62 | The constructor's column loop copies the column list and builds the map from its names. The result is a well-formed empty table. |
| DataSets.FieldsFor | dataset.py:86-90 | The fields built from a dictionary hold each column's value from the dictionary, or null when the name is absent. Extra keys are ignored. |
| DataSets.FieldsFromDictUnique | dataset.py:86-90 | Any field map with one slot per column holding that column's dictionary value or null is exactly the one ingestion builds. |
| DataSets.FieldsFromDictKeys | dataset.py:86-90 | Ingesting a dictionary fills exactly the table's slots. |
| DataSets.AppendDictKeepsWellFormed | dataset.py:85-93 | Appending an ingested dictionary keeps every record complete for the table's slots. |
| DataSets.DictRowsAt | dataset.py:64-65 | The constructor's seed records become one record each, in order. Each record is the ingestion of its dictionary. |
| DataSets.IngestOne | dataset.py:70-93 | What `add_record` stores for one input: a dictionary is ingested directly, a record is first read through its own name map into a dictionary, failing with KeyError on a missing column. It is a definition; ReadBack, FieldsFromDictUnique and the AddRecord contract state its meaning. |
| DataSets.IngestAll | dataset.py:67-68 | Ingesting a list either fails with KeyError or gives one record per input, each filling exactly the table's slots. |
| DataSets.IngestAllAppend | dataset.py:67-68 | Ingesting a concatenation equals ingesting the two parts one after the other. It stops at the first failure. |
| DataSets.IngestAllStopsAtError | dataset.py:67-68 | Once a prefix of the inputs fails, the whole list fails. |
| DataSets.ReadBack | dataset.py:70-93 | Adding a complete record that uses the table's own name map stores exactly that record's fields. |
| DataSets.Table.constructor | dataset.py:52-65 | A new table holds the given columns and their name map. It holds one record per seed dictionary, each the ingestion of that dictionary, and it is valid. |
| DataSets.Table.AddRecordFromDict | dataset.py:85-93 | Appends exactly the ingestion of the dictionary and returns it as a record bound to the table's names. Columns and names are unchanged, and the table stays valid. |
| DataSets.Table.RecordToDict | dataset.py:79-83 | Converting a foreign record succeeds exactly when every table column name can be read from it. The dictionary then has exactly the table's names, each with the value the record yields. |
| DataSets.Table.AddRecord | dataset.py:70-76 | Success matches the ingestion specification, and a dictionary never fails. On success exactly the ingested fields are appended and returned. On failure (KeyError) nothing changes. |
| DataSets.Table.AddRecords | dataset.py:67-68 | Success matches ingesting the whole list. On success exactly the ingested records are appended and returned one per input. On KeyError, for the first failing input, exactly the ingestions of the inputs before it have been appended. |
| DataSets.Table.GetColumnIndex | dataset.py:104-107 | Succeeds iff the name is mapped, with the slot it maps to, a position whose column carries that name. Otherwise it fails with ColumnNotFound (also for a column whose name no longer maps anywhere). |
| DataSets.Table.GetColumn | dataset.py:109-110 | Succeeds iff the name is mapped, with the column at the slot it maps to, which carries that name. Otherwise it fails with ColumnNotFound. |
| DataSets.Table.RenameColumn | dataset.py:95-102 | A missing old name fails with ColumnNotFound, and a taken new name fails with ColumnAlreadyExists; nothing changes in either case. Otherwise the mapping moves to the new name at the same slot and that column object is renamed. The table equals the as-written rename and the records are untouched. |
| DataSets.RenameFreshWellFormed | dataset.py:95-102 | Renaming onto a free name keeps the table well-formed. |
| DataSets.RenameFreshReads | dataset.py:98-102 | After renaming onto a free name, every record reads under the new name what it read under the old one. |
| DataSets.RenameFreshValues | dataset.py:98-100 | Renaming onto a free name keeps the set of slots and the number of columns. The name set loses the old name and gains the new one. |
| DataSets.RenameFreshCanonical | dataset.py:98-99 | Renaming onto a free name keeps every column named at its own position. |
| DataSets.RenameAsWritten | dataset.py:95-102 | `rename_column` as the source writes it: fails with ColumnNotFound on a missing old name, otherwise maps the new name to the old slot, renames that column, and drops the old name, with no check on the new name. It is a definition; Table.RenameColumn is proved equal to it on a free new name, and the two LosesColumn lemmas show where it goes wrong. |
| DataSets.RenameOntoItselfLosesColumn | dataset.py:98-100 | As written, renaming a column to its own name deletes it. The map shrinks by one and every record loses that field. |
| DataSets.RenameOntoTakenNameLosesColumn | dataset.py:98-100 | As written, renaming onto another existing name drops that name's slot from the map. The map shrinks by one. |
| KeyIndexing.SelectAll | dataset.py:117-120 | `select_all`: a single record as a one-element list, a list as itself. It is a definition; IndexOfPartition and the append lemmas state what it yields on a built index. |
| KeyIndexing.SelectFirstOrOnly | dataset.py:112-115 | A bucket's first record (via `select_all`'s list view) is returned when the list is non-empty. An empty list fails with IndexError. |
| KeyIndexing.InsertNew | dataset.py:167-168 | A new key is appended to the key order and its bucket is the single record. Other entries are untouched. |
| KeyIndexing.InsertExisting | dataset.py:169-172 | A repeated key keeps the key order, and its bucket grows by the record at the end. Other entries are untouched. |
| KeyIndexing.KeyIndexOf | dataset.py:164-173 | The result of `build_key_index` on a table: the empty index for a table without records, KeyError when the key column is not mapped, Unhashable when some key value is a list, and otherwise the fold of every record into the index. It is a definition; BuildKeyIndex is proved equal to it, and KeyIndexOfBuilt, IndexOfShape, IndexOfOrder and IndexOfPartition state what a successful index holds. |
| KeyIndexing.BuildKeyIndex | dataset.py:164-173 | The loop's result equals the index specification. It fails with KeyError exactly when the table has records and lacks the key column. |
| KeyIndexing.FirstPos | dataset.py:164-173 | The first position of a key holds that key, and no earlier row does. |
| KeyIndexing.InsertShaped | dataset.py:166-172 | One insertion keeps the index shaped: distinct keys, exactly the keys seen, and each bucket equals the rows carrying its key, in order. |
| KeyIndexing.IndexOfShape | dataset.py:164-173 | The built index has distinct keys, one per key value seen. Each bucket is exactly the rows carrying that key, in order, and no bucket is empty. |
| KeyIndexing.KeyIndexOfBuilt | dataset.py:164-173 | A successful index of a table indexes its records on the key column's slot, and all keys are hashable. A table without the key column has an index only when it has no records, and that index is empty. |
| KeyIndexing.FirstOfBucket | dataset.py:112-115 | `select_first_or_only` on a built bucket gives the first row carrying that key. |
| KeyIndexing.InsertOrder | dataset.py:167-168 | One insertion keeps the index keys in first-seen order. |
| KeyIndexing.IndexOfOrder | dataset.py:164-173 | The index keys are the distinct keys in the order of their first occurrence. |
| KeyIndexing.InsertPartition | dataset.py:166-172 | One insertion keeps the buckets, read in key order, a permutation of the rows seen. |
| KeyIndexing.IndexOfPartition | dataset.py:164-173 | Reading all buckets in key order gives a permutation of the rows. |
| KeyIndexing.IndexOfContiguous | dataset.py:164-173 | When equal keys are adjacent, reading all buckets in key order gives back the rows in their original order. |
| Relational.MergeSpec | dataset.py:122-132 | The result of `merge`: the left indexing error, then the right one, else the fold over the left keys of the per-key merge step. It is a definition; Merge is proved equal to it, and MergeOfTwoTables states it in closed form. |
| Relational.MergeRowsStopsAtError | dataset.py:126-131 | Once merging a prefix of the left keys fails, the whole merge fails with that error. |
| Relational.MergeRowsSameIrrelevant | dataset.py:127 | The key-column comparison matters only when there are left keys and a non-empty right index, as its place after `k in index_right` implies. |
| Relational.KeyColumnsMatch | dataset.py:127 | Compares the two tables' key column objects by kind and name. |
| Relational.MergeKey | dataset.py:127-131 | One iteration appends exactly the merged record of the key's first left and right records, or nothing when the key is unshared. A failure leaves the records unchanged. |
| Relational.MergeLoop | dataset.py:126-131 | The loop over the left keys produces exactly the specified fold, or its first error. |
| Relational.Merge | dataset.py:122-132 | `merge` fails exactly as the specification does, with its error. On success it returns a fresh valid table with the left columns whose records are exactly the specified merge. |
| Relational.AppendSpec | dataset.py:145-162 | The result of `append`: the left indexing error, then the right one, else the right rows bucket by bucket followed by the left rows each left key contributes. It is a definition; Append is proved equal to it, and AppendOfTwoTables states it in closed form. |
| Relational.RightRowsStopsAtError | dataset.py:149-151 | Once copying a prefix of the right keys fails, the whole copy fails with that error. |
| Relational.LeftRowsStopsAtError | dataset.py:153-160 | Once adding a prefix of the left keys fails, the whole step fails with that error. |
| Relational.AppendRightKey | dataset.py:150-151 | One right key appends exactly the ingestion of all its records. |
| Relational.AppendLeftKey | dataset.py:154-160 | One left key appends the ingestion of its first record when duplicates are ignored, or of all its records otherwise; this happens only when the key is absent on the right or duplicates are kept. It appends nothing otherwise. |
| Relational.AppendRightLoop | dataset.py:149-151 | The right loop produces exactly the specified fold over the right keys. |
| Relational.AppendLeftLoop | dataset.py:153-160 | The left loop extends the table by exactly the specified fold over the left keys. |
| Relational.Append | dataset.py:145-162 | `append` fails exactly as the specification does. On success it returns a fresh valid table with the right columns whose records are exactly the specified append. |
| JoinFacts.IngestAllReadBack | dataset.py:149-151 | Re-adding records that are stored under the same name map gives back exactly those records. |
| JoinFacts.GroupedStoredUnder | dataset.py:164-173 | The buckets of a table's index, in key order, are a permutation of its records and are complete under its names. |
| JoinFacts.RightRowsFlatten | dataset.py:149-151 | Copying the right keys bucket by bucket equals ingesting all buckets concatenated in key order. |
| JoinFacts.LeftRowsKeepAll | dataset.py:153-160 | With duplicates kept, the left step ingests all left buckets concatenated in key order. |
| JoinFacts.LeftRowsIgnoring | dataset.py:153-157 | For rows stored under the same name map the new table uses, with duplicates ignored, the left step adds the first record of each left key absent on the right, in key order, unchanged. |
| JoinFacts.LeftStepFirstRecord | dataset.py:153-157 | For any name maps, with duplicates ignored, one left key adds nothing when the right index holds it, and otherwise the ingestion of its first record read through the left names. |
| JoinFacts.LeftRowsFirstRecords | dataset.py:153-160 | For any name maps, with duplicates ignored, the left half of `append` is the ingestion of the first record of each left key the right index lacks, in left key order, read through the left names. |
| JoinFacts.LeftRowsSkipShared | dataset.py:153-154 | With duplicates ignored, left keys all present on the right add nothing. |
| JoinFacts.MergeRowsWithItself | dataset.py:126-131 | Merging an index with itself yields the first record of each key. |
| JoinFacts.MergeRowsNotSame | dataset.py:127 | When the key columns differ, the merge loop adds nothing. |
| JoinFacts.FirstRecordsAt | dataset.py:126-131 | The first-record list has one entry per key, the first row carrying that key. |
| JoinFacts.MergeTableWithItself | dataset.py:122-132 | Merging a canonical table with itself on one key fails only when indexing fails. Otherwise it yields one record per distinct key, in first-seen order: the first record with that key. |
| JoinFacts.SharedKeys | dataset.py:126-127 | The shared keys are keys of the left list that the right key set holds, and every left key the right set holds is among them. |
| JoinFacts.PairsOfAt | dataset.py:128-130 | Pair `i` is the merge of the first left and the first right record carrying shared key `i`, read into the new table. |
| JoinFacts.CollectedSnoc | dataset.py:126-131 | Adding one more row, or its failure, to a collected outcome collects one more. |
| JoinFacts.MergeStepShared | dataset.py:127-131 | With equal key columns, a left key the right rows lack adds nothing. A shared key adds the merge of its first left and first right record, or that merge's failure. |
| JoinFacts.MergeRowsShared | dataset.py:126-131 | With equal key columns, the merge loop over the left keys collects the merged pairs of the shared keys in left-key order. |
| JoinFacts.MergeOfTwoTables | dataset.py:122-132 | For any two tables with equal key columns, `merge` fails with the left table's indexing error if it has one, and then with the right table's. When both index, it takes the left keys in first-seen order that the right records also carry. It succeeds iff the first left and first right record of every such key merge and read back, with one row per shared key in that order; if not, it fails with the first failing pair's error. |
| JoinFacts.MergeWithDifferentKeyColumns | dataset.py:122-132 | When the two key columns differ, `merge` fails only when indexing fails and otherwise yields no records. |
| JoinFacts.AppendKeepingDuplicates | dataset.py:145-162 | For two tables with the same name map, the right one canonical (every column named at its own position), with duplicates kept: the result is the right records grouped by key and then the left records grouped by key. Together they are exactly the records of both tables. It fails only when indexing fails. |
| JoinFacts.AppendIgnoringDuplicates | dataset.py:145-162 | For two tables with the same name map, the right one canonical, with duplicates ignored: the result is the right records grouped by key. They are followed by the first record of each left key missing from the right, in first-seen order. It fails only when indexing fails. |
| JoinFacts.AppendOfTwoTables | dataset.py:145-162 | For any two tables: `append` fails with the left table's indexing error if it has one, then with the right table's. Once both index, it ingests into the right table's columns the right records bucket by bucket, then the left records: every left record bucket by bucket with duplicates kept, the first record of each left key the right table lacks with duplicates ignored. After indexing, any failure is the KeyError of the first of those records that cannot be ingested, such as a left record lacking a right column. |
| JoinFacts.AppendTableToItself | dataset.py:145-162 | Appending a canonical table to itself with duplicates ignored yields its records grouped by key: a permutation of its records. It fails only when indexing fails. |
| JoinFacts.AppendTableToItselfInOrder | dataset.py:145-162 | When equal keys are adjacent, appending a table to itself with duplicates ignored gives back exactly its records in order. |

## Left out

- Everything in `dataset.py` outside the listed operations is not part of this model. That includes the enums' numeric codes beyond the column kinds, and the `iterator` attribute. The other modules (type conversion, remapping, equivalence checking, the adapters to the flashcard store, the hosted database and files) are not part of this model either.
- Values are limited to null, strings and string lists. Numbers, dates and other Python objects are not modelled. The only hashability distinction kept is that lists cannot be index keys (`Unhashable`).
- Python dictionary iteration order over `_column_names` in `asdict`, `record_to_dict`, `_add_record_from_dict` and `merge_records` is a nondeterministic choice. Every loop result is specified independently of that order. Which missing name the `KeyError` reports is not modelled. The index keys' insertion order, which the operators' output depends on, is modelled exactly.
- `DataSets.Table.constructor`: seed records are dictionaries only. A `DataRecord` seed, whose reading can raise inside the constructor, is covered through `add_record` instead.
- `Relational.Merge`: the key-column comparison is evaluated once before the loop rather than once per shared key. It reads no records, so its value is the same on every iteration, and `Relational.MergeRowsSameIrrelevant` shows the hoisting changes nothing. It runs only when both indexes are non-empty, where both key columns are mapped and `get_column` cannot fail.
- The inner `for r in select_all(...)` loops of `append` are modelled by `DataSets.Table.AddRecords`, which adds the same records in the same order. The pairing of `select_all` with its list is stated by `KeyIndexing.SelectFirstOrOnly` and the bucket lemmas. `select_all` itself has no contract of its own.
- Records share the table's name dictionary by reference, and `rename_column` rebinds it in every record. The model keeps one name map in the table and binds records to it when they are read (`RecordAt`), so that aliasing is represented rather than reproduced.
- `DataSets.Table.RenameColumn` follows the corrected behaviour; the code as written is `DataSets.RenameAsWritten` (see Findings).

## Findings

| source | as written | input that shows it | evidently intended | confidence | as-written member | corrected member |
|---|---|---|---|---|---|---|
| dataset.py:95-100 | `rename_column` checks only that the old name exists. It then assigns the new name and deletes the old one. | `rename_column("a", "a")` deletes column `a`. `rename_column("a", "b")` with `b` already a column drops `b`'s slot from the name map. | Renaming fails when the new name is already in use (ColumnAlreadyExists). As written, such a rename silently makes a column unreachable, while unit_test.py:115-133 expects every field to stay readable after a rename. | not executed | DataSets.RenameOntoItselfLosesColumn | DataSets.Table.RenameColumn |
