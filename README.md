# QbDatabase search core, modelled in Dafny

This project models the core of CPPCraftDemo, a small in-memory record store.

Records (`QbRecord`) have four columns:

- an unsigned id;
- a text;
- a 32-bit signed number;
- a text.

The store (`QbDatabase`) keeps them in a hash map keyed by id. Searches pick a column by its name (`"column0"` … `"column3"`) and keep the records whose column matches a text:

- the id and number columns match when the text parses (`stoul`, `stol`) to the column's value;
- the text columns match when the text is a substring.

A sequential search visits the map once. A concurrent search splits the map's iteration positions into one partition per worker. Each worker scans its partition with a ranged walk over the map's iterators.

Modules, one per concern of the source:

- `Decimal` (decimal.dfy): `std::to_string` on integers, and the base-10 prefix parsing of `std::stoul` / `std::stol`. Round trips are proved.
- `Records` (qb_record.dfy): the record, the `ColumnIndex` enumeration, `columnContentMatches`, `columnName`, `isColumnIndexValid`, the name-to-index table and its construction loop, and `columnIndex`.
- `Partitions` (partitions.dfy): the arithmetic of the concurrent search.
  - With n records and w workers, the first w − 1 workers get n / w positions each, and the last worker gets the rest.
  - Worker i starts at i · (n / w).
  - Worker i is handed `start + size - 1` as the end of a range whose end is exclusive.
- `Search` (search.dfy): what the searches return.
  - `Select`: the records a filter accepts, in iteration order.
  - `Filter`: `Select` with the column match as the filter.
  - `ScanRanges`: the concatenation of per-range results.
  - `ConcurrentSearch`: the concurrent search as the code computes it.
  - `CorrectedConcurrentSearch`: the concurrent search with exclusive ends `start + size`.
- `Store` (qb_database.dfy): the `QbDatabase` class.
  - It has two fields. `records` is the map from id to record. `order` is the order in which the map's iterators visit the ids.
  - Its methods:
    - the constructors;
    - `createFilledWithArbitraryRecords` / `createArbitraryRecords`;
    - `addOrReplaceRecord`, `removeRecord` and `clear`;
    - move assignment;
    - both `forEachRecord` templates;
    - the three searches.

Modelling decisions:

- **Iteration order.** `unordered_map` does not fix an iteration order, so `order` is state of its own:
  - inserting a new id may rehash, so afterwards `order` is any order of the new key set (`EnumerateKeys`);
  - replacing a record keeps the order;
  - erasing a key keeps the relative order of the other keys.
- **Filters.** Both `forEachRecord` templates receive a processor. Every search's processor appends the record when it matches. So the templates are modelled as methods that take the filter and return the accepted records (`ForEachRecord`, `ForEachRecordInRange`). The deleting walk of `clear()` is the other caller; it is covered by the Ownership line under "Left out".
- **Workers.** The number of workers, `std::thread::hardware_concurrency()` in the source, is a parameter `workers >= 1`. The workers run one after another, in worker order.
- **Integer widths.**
  - `long` is 32 bits wide, as on the compiler the code is built with.
  - `removeRecord` takes an `int`, which is converted to the unsigned key: a negative id names the key `id + 2^32` (`KeyOf`).
- **Out-of-range parses.** `stoul` and `stol` throw on out-of-range values, and the match then returns false. The model parses to an unbounded value, and that value never equals an in-range column, so the outcome is the same false.
- **Substring search.** A search of column1 for `"testdata500"` over records generated with the prefix `"testdata"` matches every id whose decimal form starts with `500`. For example it matches 5003 as well as 500 (`Store.GeneratedTextSearchIsSubstring`).
- **Numeric columns.** Column2 matches by numeric equality after parsing, not by substring.

## Model

| member | source | states |
|---|---|---|
| Decimal.NatToString | CPPCraftDemo/QbDatabase.cpp:206 | `to_string` of an unsigned value is a non-empty run of digits, and it starts with '0' only for zero |
| Decimal.IntToString | CPPCraftDemo/QbRecord.cpp:57 | `to_string` of a signed value starts with '-' exactly when the value is negative |
| Decimal.LeadingDigitsRun | CPPCraftDemo/QbRecord.cpp:14 | the digit prefix the parse consumes is all digits, and is not followed by a digit |
| Decimal.ParseDigits | CPPCraftDemo/QbRecord.cpp:14 | parsing fails exactly when the text is empty or does not start with a digit |
| Decimal.DigitsValueOfNatToString | CPPCraftDemo/QbRecord.cpp:14 | the digits `to_string` produces have the value they were made from |
| Decimal.LeadingDigitsOfDigitRun | CPPCraftDemo/QbRecord.cpp:14 | a run of digits followed by a non-digit is consumed exactly up to that non-digit |
| Decimal.ParseUnsigned | CPPCraftDemo/QbRecord.cpp:14 | `stoul` succeeds exactly on text that starts with a digit, or with '+' and a digit (values: `ParseUnsignedRoundTrip`) |
| Decimal.ParseSigned | CPPCraftDemo/QbRecord.cpp:26 | `stol` succeeds exactly on text that starts with a digit, or with a sign and a digit, and a negative result needs the '-' (values: `ParseSignedNegative`, `ParseSignedRoundTrip`) |
| Decimal.ParseDigitsRoundTrip | CPPCraftDemo/QbRecord.cpp:14 | parsing the decimal form of n followed by non-digit text gives n |
| Decimal.ParseUnsignedRoundTrip | CPPCraftDemo/QbRecord.cpp:14 | `stoul(to_string(n) + rest) == n` when rest does not start with a digit |
| Decimal.ParseSignedNegative | CPPCraftDemo/QbRecord.cpp:26 | `stol` of '-', then the digits of n, then non-digit text, is -n |
| Decimal.ParseSignedRoundTrip | CPPCraftDemo/QbRecord.cpp:26 | `stol(to_string(i) + rest) == i` for every signed i, when rest does not start with a digit |
| Decimal.ParseRejectsNonNumeric | CPPCraftDemo/QbRecord.cpp:12-31 | text that is empty, or starts with neither a sign nor a digit, fails both parses; this includes whitespace-led text such as " 7", where the model differs from `stoul`/`stol`, which skip the whitespace |
| Records.ColumnIndexLayout | CPPCraftDemo/QbRecord.h:16-26 | the enumerators are -1, 0, 1, 2, 3; First is Column0; Last is Column3; ColumnsCount is 4; Invalid lies outside First..Last |
| Records.IsColumnIndexValid | CPPCraftDemo/QbRecord.cpp:61-64 | an index is valid exactly when it is one of the four columns; Invalid and ColumnsCount are not valid |
| Records.FindFrom | CPPCraftDemo/QbRecord.cpp:38-40 | a position `find` returns from a start is at or after that start and the needle occurs there; the empty needle is found at the start (first occurrence: `FindFromFirstOccurrence`) |
| Records.Find | CPPCraftDemo/QbRecord.cpp:38-40 | a position `find` returns is an occurrence of the needle; the empty needle is found at 0 (exactly the substrings: `TextColumnMatchesIffSubstring`) |
| Records.FindFromFirstOccurrence | CPPCraftDemo/QbRecord.cpp:38-40 | `find` returns the first occurrence at or after its start, and `npos` only when there is none |
| Records.ColumnContentMatches | CPPCraftDemo/QbRecord.cpp:9-44 | an invalid column never matches; the empty text matches both text columns; a matching text is no longer than the text column; the empty text never matches a numeric column (each column exactly: the lemmas below) |
| Records.TextColumnMatchesIffSubstring | CPPCraftDemo/QbRecord.cpp:35-40 | column1 and column3 match exactly when the expected text occurs in them as a contiguous substring |
| Records.EmptyTextMatchesTextColumns | CPPCraftDemo/QbRecord.cpp:35-40 | the empty text matches every record on both text columns (a named corollary of the `ColumnContentMatches` contract) |
| Records.IdColumnMatches | CPPCraftDemo/QbRecord.cpp:11-20 | column0 matches exactly the texts that `stoul` parses to the id, and the id's decimal form is one of them |
| Records.IdColumnMatchesDecimal | CPPCraftDemo/QbRecord.cpp:11-20 | column0 matches the decimal form of k exactly when the id is k |
| Records.SignedColumnMatches | CPPCraftDemo/QbRecord.cpp:23-32 | column2 matches exactly the texts that `stol` parses to its value, and its decimal form is one of them |
| Records.NonNumericTextNeverMatchesNumericColumns | CPPCraftDemo/QbRecord.cpp:11-33 | a failed parse gives no match on column0 and column2, and no error: text that is empty, or starts with neither a sign nor a digit, matches neither; this includes whitespace-led text, where the model differs from `stoul`/`stol` |
| Records.InvalidColumnNeverMatches | CPPCraftDemo/QbRecord.cpp:9-43 | an index outside the four columns never matches (a named corollary of the `ColumnContentMatches` contract) |
| Records.ColumnName | CPPCraftDemo/QbRecord.cpp:54-59 | a valid column is named "column" followed by its digit; any other index has the empty name (distinctness: `ColumnNameInjective`, `ColumnNamesDistinct`) |
| Records.ColumnNameInjective | CPPCraftDemo/QbRecord.cpp:54-59 | two valid columns with the same name are the same column |
| Records.ColumnNamesDistinct | CPPCraftDemo/QbRecord.cpp:54-59 | the valid columns' names are pairwise distinct |
| Records.ColumnIndexByName | CPPCraftDemo/QbRecord.cpp:5 | the static table maps each valid column's name to that column, and holds nothing else |
| Records.CreateColumnIndexByNameProvider | CPPCraftDemo/QbRecord.cpp:66-77 | the loop from First to Last builds exactly that table: every valid name is mapped to its column, and only those |
| Records.ColumnIndexOf | CPPCraftDemo/QbRecord.cpp:46-52 | a name resolves to a valid column only if it is that column's name, and otherwise to Invalid (both directions: `ColumnIndexOfColumnName`, `ColumnIndexOfResolvesOnlyNames`) |
| Records.ColumnIndexOfColumnName | CPPCraftDemo/QbRecord.cpp:46-52 | resolving a valid column's name gives that column back |
| Records.ColumnIndexOfResolvesOnlyNames | CPPCraftDemo/QbRecord.cpp:46-52 | a name resolves to a valid column exactly when it is one of "column0".."column3"; every other name resolves to Invalid |
| Partitions.PerWorker | CPPCraftDemo/QbDatabase.cpp:52 | the share k = n / w is the largest with k · w <= n |
| Partitions.LastWorkerCount | CPPCraftDemo/QbDatabase.cpp:53 | the last worker gets at least the regular share and fewer than w positions more (sum: `PartitionSizes`) |
| Partitions.PartitionEndArg | CPPCraftDemo/QbDatabase.cpp:111-115 | the end handed to worker i is one before its partition's exclusive end; with n >= w it is not before the partition's start; for the last worker it is n - 1 (never scanned: `PartitionEndNeverScanned`) |
| Partitions.PartitionSizes | CPPCraftDemo/QbDatabase.cpp:52-53 | the partition sizes add up to n; the last partition gets n / w + n % w, which is at least n / w; with n >= w every partition is non-empty |
| Partitions.PartitionBounds | CPPCraftDemo/QbDatabase.cpp:111-115 | each partition lies in [0, n) and ends where the next one starts; its end argument is its last position, n - 1 for the last worker |
| Partitions.PartitionsDisjoint | CPPCraftDemo/QbDatabase.cpp:111-115 | an earlier partition ends before a later one starts |
| Partitions.WorkerRanges | CPPCraftDemo/QbDatabase.cpp:111-115 | worker i scans [i · (n / w), start + size - 1), within [0, n) |
| Partitions.PartitionRanges | CPPCraftDemo/QbDatabase.cpp:52-53 | the partitions [start, start + size) tile [0, n) in order |
| Partitions.PartitionEndNeverScanned | CPPCraftDemo/QbDatabase.cpp:111-115 | the last position of each partition is in [0, n) and no worker scans it |
| Partitions.PartitionContaining | CPPCraftDemo/QbDatabase.cpp:52-53 | every position of [0, n) lies in some worker's partition |
| Partitions.NonEndPositionScanned | CPPCraftDemo/QbDatabase.cpp:111-115 | every position of [0, n) that is not a partition's last is scanned by some worker |
| Partitions.ScannedIffNotPartitionEnd | CPPCraftDemo/QbDatabase.cpp:111-115 | a position of [0, n) is scanned exactly when it is not a partition's last position |
| Partitions.NothingScannedWhenCountEqualsWorkers | CPPCraftDemo/QbDatabase.cpp:111-115 | with as many records as workers, no position is scanned |
| Search.Filter | CPPCraftDemo/QbDatabase.cpp:213-231 | the sequential search returns only stored records whose column matches, and no more records than are stored (all of them, in order: `SelectMembership`, `SelectAppend`) |
| Search.Select | CPPCraftDemo/QbDatabase.cpp:221-228 | the filtered result is never longer than the input |
| Search.SelectMembership | CPPCraftDemo/QbDatabase.cpp:221-228 | a record is in the result exactly when it is in the input and the filter accepts it |
| Search.SelectAppend | CPPCraftDemo/QbDatabase.cpp:221-228 | filtering distributes over concatenation, so the result keeps the iteration order |
| Search.SelectAll | CPPCraftDemo/QbDatabase.cpp:221-228 | when every record is accepted, the result is the input |
| Search.SelectNone | CPPCraftDemo/QbDatabase.cpp:221-228 | when no record is accepted, the result is empty |
| Search.SelectSnoc | CPPCraftDemo/QbDatabase.cpp:221-228 | visiting one more record appends it exactly when it is accepted |
| Search.SelectSliceStep | CPPCraftDemo/QbDatabase.h:84-88 | extending the visited positions by one appends that record exactly when it is accepted |
| Search.SelectOnlyOne | CPPCraftDemo/QbDatabase.cpp:221-228 | when exactly one position is accepted, the result is that record alone |
| Search.UnknownColumnFindsNothing | CPPCraftDemo/QbDatabase.cpp:28-34 | a column name that resolves to Invalid finds nothing |
| Search.FilterIdAbsent | CPPCraftDemo/QbDatabase.cpp:213-231 | searching column0 for the decimal form of an id no record has finds nothing |
| Search.FilterIdUnique | CPPCraftDemo/QbDatabase.cpp:213-231 | searching column0 for the decimal form of a unique id finds exactly that record |
| Search.ScanRangesStep | CPPCraftDemo/QbDatabase.cpp:86-118 | one more worker appends that worker's range result |
| Search.ScanRangesSound | CPPCraftDemo/QbDatabase.cpp:86-118 | every record the workers return is accepted and sits at a position inside some worker's range |
| Search.ScanRangesComplete | CPPCraftDemo/QbDatabase.cpp:86-118 | every accepted record at a position inside some worker's range is returned |
| Search.ScanTilingRanges | CPPCraftDemo/QbDatabase.cpp:86-118 | over ranges that tile a prefix in order, the workers' results together are the sequential result over that prefix |
| Search.ConcurrentSearch | CPPCraftDemo/QbDatabase.cpp:36-127 | whatever it misses, the concurrent search returns only stored records whose column matches (which ones: `ConcurrentSearchMembership`) |
| Search.ConcurrentSearchSmallStores | CPPCraftDemo/QbDatabase.cpp:40-50 | an empty store gives an empty result; fewer records than workers gives the sequential result |
| Search.ConcurrentSearchMembership | CPPCraftDemo/QbDatabase.cpp:36-127 | with at least as many records as workers, a record is returned exactly when it matches and sits at a position that is not a partition's last |
| Search.ConcurrentSearchSkipsPartitionEnds | CPPCraftDemo/QbDatabase.cpp:111-115 | the record at each partition's last position is never returned, whatever it holds |
| Search.ConcurrentSearchEmptyWhenCountEqualsWorkers | CPPCraftDemo/QbDatabase.cpp:111-115 | with exactly as many records as workers the concurrent search returns nothing |
| Search.ConcurrentSearchMissesAMatch | CPPCraftDemo/QbDatabase.cpp:111-115 | one record, one worker, the empty text on column1: the sequential search returns the record, the concurrent search returns nothing |
| Search.CorrectedConcurrentSearch | CPPCraftDemo/QbDatabase.cpp:111-115 | with `start + size` as each worker's end, the concurrent search returns exactly the sequential result `Filter` |
| Store.KeyOf | CPPCraftDemo/QbDatabase.cpp:143 | the `int` id names the unsigned key equal to it when non-negative, and to id + 2^32 when negative |
| Store.IterationOrderLength | CPPCraftDemo/QbDatabase.h:62-68 | the whole-map iteration visits as many entries as there are keys |
| Store.EnumerateKeys | CPPCraftDemo/QbDatabase.cpp:157 | after inserting a new key the map iterates every key exactly once, in some order |
| Store.Erase | CPPCraftDemo/QbDatabase.cpp:150 | erasing removes that key from the iteration order and keeps every other key |
| Store.EraseKeepsIterationOrder | CPPCraftDemo/QbDatabase.cpp:143-150 | after erasing, the order iterates every remaining key exactly once; erasing an absent key changes nothing |
| Store.RemoveKeepsStore | CPPCraftDemo/QbDatabase.cpp:134-152 | removing a key keeps the store well formed, removes one entry if the key was there, and changes nothing otherwise |
| Store.CreateArbitraryRecords | CPPCraftDemo/QbDatabase.cpp:195-211 | ids 0 .. count - 1 exactly, none for count < 1; record i is (i, prefix + decimal i, i % 100, decimal i + prefix) |
| Store.GeneratedTextSearchIsSubstring | CPPCraftDemo/QbDatabase.cpp:206 | with prefix "testdata", column1 of the generated record 5003 matches "testdata500" |
| Store.QbDatabase.Contents | CPPCraftDemo/QbDatabase.h:62-68 | the iteration yields one record per key, the record stored under the key at that position of the order |
| Store.QbDatabase.constructor | CPPCraftDemo/QbDatabase.cpp:15-17 | a new store is empty |
| Store.QbDatabase.FromRecords | CPPCraftDemo/QbDatabase.cpp:190-193 | the private constructor takes over the prepared map |
| Store.QbDatabase.FromMoved | CPPCraftDemo/QbDatabase.cpp:19-22 | the move constructor takes over the other store's entries and leaves it empty |
| Store.QbDatabase.CreateFilledWithArbitraryRecords | CPPCraftDemo/QbDatabase.cpp:129-132 | a fresh store holding exactly the generated records |
| Store.QbDatabase.AddOrReplaceRecord | CPPCraftDemo/QbDatabase.cpp:154-158 | the entry at the record's id becomes the record, and every other entry stays; replacing keeps the order and the size, and a new id adds one entry |
| Store.QbDatabase.RemoveRecord | CPPCraftDemo/QbDatabase.cpp:134-152 | the key `KeyOf(id)` is gone and the rest keep their order; an absent key leaves the store unchanged, and a present one removes one entry |
| Store.QbDatabase.Clear | CPPCraftDemo/QbDatabase.cpp:160-174 | the store is empty afterwards, whether or not it already was |
| Store.QbDatabase.MoveAssign | CPPCraftDemo/QbDatabase.cpp:176-188 | self-assignment changes nothing; otherwise this store takes over the other's entries and the other is left empty |
| Store.QbDatabase.ForEachRecord | CPPCraftDemo/QbDatabase.h:59-69 | the whole-map walk returns the accepted records, in iteration order |
| Store.QbDatabase.ForEachRecordInRange | CPPCraftDemo/QbDatabase.h:71-89 | the walk from position start up to end exclusive returns the accepted records of that slice, in order |
| Store.QbDatabase.MatchingRecordsByIndex | CPPCraftDemo/QbDatabase.cpp:213-231 | the result is the sequential filter of the store by column and text |
| Store.QbDatabase.MatchingRecords | CPPCraftDemo/QbDatabase.cpp:28-34 | the public search resolves the name with `columnIndex`, then filters |
| Store.QbDatabase.MatchingRecordsInRange | CPPCraftDemo/QbDatabase.cpp:233-252 | the result is the filter of the positions [start, end) |
| Store.QbDatabase.MatchingRecordsConcurrent | CPPCraftDemo/QbDatabase.cpp:36-127 | the result is the concurrent search as written, with worker i scanning [i · per, start + size - 1) |
| Store.QbDatabase.RunCorrectedWorkers | CPPCraftDemo/QbDatabase.cpp:86-118 | worker i, run in worker order, scans its whole partition [i · per, start + size); the results joined are the scan of the partitions |
| Store.QbDatabase.MatchingRecordsConcurrentCorrected | CPPCraftDemo/QbDatabase.cpp:111-115 | with each worker handed `start + size`, the concurrent search returns exactly the sequential result |
| Store.VisitsEachRecordOnce | CPPCraftDemo/QbDatabase.h:62-68 | the whole-map walk visits every stored record, and no id twice |
| Store.SearchByStoredId | CPPCraftDemo/QbDatabase.cpp:213-231 | searching column0 for a stored id's decimal form finds exactly that record |
| Store.SearchByAbsentId | CPPCraftDemo/QbDatabase.cpp:213-231 | searching column0 for an absent id's decimal form, for example a removed one, finds nothing |

## Left out

- Locks: the reader-writer lock and the result mutex are left out, because every operation runs alone here. That `removeRecord` takes no lock, unlike the other writers, is not modelled.
- Threads are not modelled.
  - The workers run one after another, and their results are concatenated in worker order.
  - In the source, workers push results under a mutex, so results from different workers can interleave in any order.
  - The membership statements (`ConcurrentSearchMembership` and the lemmas after it) do not depend on that order. `CorrectedConcurrentSearch` and `MatchingRecordsConcurrentCorrected` state the sequential order, which only the one-after-another schedule guarantees.
- `std::thread::hardware_concurrency()` becomes the parameter `workers >= 1`. The value 0 that the call may return is not modelled.
- The partition size is computed through `double` in the source. It is modelled as integer division, which gives the same value for every count and worker number an `int` holds.
- The `#if false` branch of the concurrent search, which uses futures, is left out, because it is never compiled.
- Ownership: `new` / `delete` of the records and the pointer values of the map are left out. The map holds record values, so the `forEachRecord` walk in `clear()` whose processor deletes each record is not modelled; `Clear` only empties the map.
- The moved-from map of a move is taken to be empty.
- The concrete iteration order of the hash map is left out, because it depends on the library. A new key makes the order an arbitrary enumeration of the keys.
- Decimal.ParseUnsigned: does not model `stoul`'s leading whitespace, nor its wrap-around of a negative value (`"-1"` becoming the largest unsigned value). A '-' sign is a failed parse here.
- Decimal.ParseSigned: does not model `stol`'s leading whitespace.
- Store.QbDatabase.ForEachRecordInRange: requires `0 <= start <= end <= size`. Advancing an iterator beyond the end is undefined in the source, and every caller stays within these bounds.
- CPPCraftDemo.cpp (the timing driver) is not part of this model, and neither is QBRecordCollection.h (an older vector-based collection).

## Findings

| source | as written | input that shows it | evidently intended | confidence | as-written member | corrected member |
|---|---|---|---|---|---|---|
| CPPCraftDemo/QbDatabase.cpp:111-115 | each worker is handed `start + size - 1` as the end of a range whose end the ranged `forEachRecord` treats as exclusive, so the last position of every partition is never examined | a store holding one record with empty texts, one worker, a search of column1 for "" (or any store with as many records as workers): the sequential search returns the record, the concurrent one returns nothing | hand each worker `start + size`, so that the partitions tile all positions | not executed | Search.ConcurrentSearchMissesAMatch | Store.QbDatabase.MatchingRecordsConcurrentCorrected |
