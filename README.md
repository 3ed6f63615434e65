# ImportCsv chunk import, modelled in Dafny

This project models the job that imports one chunk of rows of a CSV import
(`Filament\Actions\Imports\Jobs\ImportCsv`). The job walks the chunk's
rows. For each row it normalises text to UTF-8 and hands the row to the
importer. The importer's call ends in one of four ways:

- it returns (a success);
- it throws a row-import failure with a message;
- it throws a validation exception with per-field messages;
- it throws anything else.

A success is counted. Every failure is appended to the job's failure log,
together with the row minus its sensitive columns and a reason. The reason
is the message, all validation messages joined by one space, or null. When
the loop ends, the chunk's processed and successful counts are added to the
stored import record. Both stored counters are then capped at the record's
`total_rows`, and the failure log is written to the import's failed rows.

Modules, one per concern of `packages/actions/src/Imports/Jobs/ImportCsv.php`:

- `PhpValues` (`php_values.dfy`): PHP values. An array is its ordered list of key/value pairs.
- `Utf8Encoding` (`utf8_encode.dfy`): `utf8Encode`, the recursion around the text conversion, which is the parameter `convert`.
- `ErrorMessages` (`error_messages.dfy`): flattening validation errors and joining them. `SeparatedBy` states where each message and each separator sits in the joined text; `Split` (PHP's `explode`) is the inverse for messages free of the separator.
- `SensitiveData` (`sensitive_data.dfy`): `filterSensitiveData` as a left fold over the columns, the set of keys it removes, and Laravel's `blank()` over PHP's `trim`.
- `ImportCsvJob` (`import_csv.dfy`): the outcomes, the stored record (class `ImportRecord`), the job (class `ImportCsv`) with `LogFailedRow` and `Handle`, and the functions and lemmas that specify the row loop.

`Handle` is proved against two specification functions of the rows.
`Successes` counts the rows the importer accepted. `FailureLog` lists the
log entries in row order. One pass of the loop is the method `ImportRow`.
The lemmas then state, about those functions, the accounting, the
splitting of a chunk, where each entry comes from, and that no logged row
keeps a sensitive key.

The job only reads `total_rows`; the model never assigns `totalRows`.

## Model

| member | source | states |
|---|---|---|
| `Utf8Encoding.Utf8Encode` | packages/actions/src/Imports/Jobs/ImportCsv.php:194-205 | a string stays a string, an array stays an array with the same keys in the same order, and every other value is returned unchanged |
| `Utf8Encoding.Utf8EncodeEntries` | packages/actions/src/Imports/Jobs/ImportCsv.php:196-197 | mapping over an array keeps its keys, position by position |
| `Utf8Encoding.Utf8EncodeKeepsShape` | packages/actions/src/Imports/Jobs/ImportCsv.php:194-205 | at every depth the result has the same kind of value, the same array lengths and the same keys as the input |
| `Utf8Encoding.Utf8EncodeEntriesKeepsShape` | packages/actions/src/Imports/Jobs/ImportCsv.php:78 | a normalised row has the same keys and structure as the decoded row |
| `Utf8Encoding.Utf8EncodeFixesConverted` | packages/actions/src/Imports/Jobs/ImportCsv.php:194-205 | a value whose strings the conversion leaves alone (already valid text) comes back unchanged |
| `Utf8Encoding.Utf8EncodeOutputIsFixed` | packages/actions/src/Imports/Jobs/ImportCsv.php:200-201 | with an idempotent conversion, every string of the result is a fixed point of the conversion |
| `Utf8Encoding.Utf8EncodeIdempotent` | packages/actions/src/Imports/Jobs/ImportCsv.php:194-205 | with an idempotent conversion, normalising twice equals normalising once |
| `Utf8Encoding.Utf8EncodeEntriesIdempotent` | packages/actions/src/Imports/Jobs/ImportCsv.php:78 | normalising an already normalised row changes nothing |
| `ErrorMessages.Flatten` | packages/actions/src/Imports/Jobs/ImportCsv.php:86 | the flattened list is empty if and only if every field has no messages |
| `ErrorMessages.FlattenContains` | packages/actions/src/Imports/Jobs/ImportCsv.php:86 | a message is in the flattened list if and only if some field's message list holds it |
| `ErrorMessages.FlattenAppend` | packages/actions/src/Imports/Jobs/ImportCsv.php:86 | flattening keeps the field order: the messages of earlier fields come first |
| `ErrorMessages.SplitJoin` | packages/actions/src/Imports/Jobs/ImportCsv.php:86 | joining messages free of the separator and splitting the result at it gives back the messages |
| `ErrorMessages.Join` | packages/actions/src/Imports/Jobs/ImportCsv.php:86 | the joined text is as long as all messages together plus one separator between each two, and a single message joins to itself |
| `ErrorMessages.JoinAt` | packages/actions/src/Imports/Jobs/ImportCsv.php:86 | every message appears whole at its offset (the lengths of the earlier messages plus one separator each) and, unless it is the last, is followed by the separator; messages may contain the separator |
| `ErrorMessages.JoinSeparated` | packages/actions/src/Imports/Jobs/ImportCsv.php:86 | the joined text is exactly the messages in order with one separator between each two and nothing else, whatever the messages contain |
| `SensitiveData.Blank` | packages/actions/src/Imports/Jobs/ImportCsv.php:178 | a header is blank if and only if it is null or made only of the characters `trim` strips |
| `SensitiveData.HeaderOf` | packages/actions/src/Imports/Jobs/ImportCsv.php:176 | the header is null exactly when the column name is not mapped, and otherwise is the mapped header |
| `SensitiveData.WithoutContains` | packages/actions/src/Imports/Jobs/ImportCsv.php:186 | removing keys keeps a pair if and only if it was present and its key is not removed |
| `SensitiveData.WithoutRemovesKey` | packages/actions/src/Imports/Jobs/ImportCsv.php:186 | after removal no removed key is left |
| `SensitiveData.RemoveColumn` | packages/actions/src/Imports/Jobs/ImportCsv.php:171-189 | one step of the fold removes that column's mapped header when the column is sensitive and the header is set and not blank, and nothing otherwise; the key-exists guard changes no result |
| `SensitiveData.FilterSensitiveData` | packages/actions/src/Imports/Jobs/ImportCsv.php:167-192 | the fold equals removing exactly the set of sensitive headers from the row, keeping the other pairs in order |
| `SensitiveData.FilterSensitiveDataKeeps` | packages/actions/src/Imports/Jobs/ImportCsv.php:167-192 | a pair is in the filtered row if and only if it is in the row and its key is not a sensitive header; no key is added |
| `SensitiveData.FilterSensitiveDataRemoves` | packages/actions/src/Imports/Jobs/ImportCsv.php:172-186 | the mapped, non-blank header of every sensitive column is absent from the filtered row |
| `SensitiveData.FilterSensitiveDataUnchanged` | packages/actions/src/Imports/Jobs/ImportCsv.php:172-186 | the filter returns the row unchanged if and only if no key of the row is a sensitive header |
| `SensitiveData.FilterSensitiveDataIdempotent` | packages/actions/src/Imports/Jobs/ImportCsv.php:167-192 | filtering twice equals filtering once |
| `SensitiveData.FilterSensitiveDataOrderIrrelevant` | packages/actions/src/Imports/Jobs/ImportCsv.php:169-191 | the result does not depend on the order of the importer's columns |
| `ImportCsvJob.FailureReason` | packages/actions/src/Imports/Jobs/ImportCsv.php:83-91 | the reason is null exactly for an unexpected failure, and is the exception's message for a row-import failure |
| `ImportCsvJob.ValidationReasonListsMessages` | packages/actions/src/Imports/Jobs/ImportCsv.php:85-86 | for any non-empty set of messages, spaces inside messages included, a validation failure's reason is every message of every field in order with one space between each two and nothing else; when no message contains a space, splitting the reason at spaces gives back the messages |
| `ImportCsvJob.Count` | packages/actions/src/Imports/Jobs/ImportCsv.php:80-93 | the number of rows the importer accepts never exceeds the number of rows |
| `ImportCsvJob.ChunkAccounting` | packages/actions/src/Imports/Jobs/ImportCsv.php:77-94 | successes plus logged failures equals the number of rows: each row is one or the other |
| `ImportCsvJob.ChunkSplits` | packages/actions/src/Imports/Jobs/ImportCsv.php:77-94 | rows are handled independently and in order: for any split of a chunk, the success count is the sum and the log is the concatenation of the parts' |
| `ImportCsvJob.FailureLogFromFailedRows` | packages/actions/src/Imports/Jobs/ImportCsv.php:80-91 | every log entry is the filtered, normalised form of a row whose import failed, with that row's reason |
| `ImportCsvJob.FailureLogHidesSensitive` | packages/actions/src/Imports/Jobs/ImportCsv.php:155-161 | no pair in a logged row has a sensitive header as its key |
| `ImportCsvJob.StoredAfterChunksIsCapped` | packages/actions/src/Imports/Jobs/ImportCsv.php:96-115 | adding and capping chunk after chunk leaves the counter at the minimum of its start plus all chunk counts and the total |
| `ImportCsvJob.ImportRecord.AddChunkCounts` | packages/actions/src/Imports/Jobs/ImportCsv.php:96-115 | each stored counter becomes the minimum of its old value plus the chunk's count and `total_rows`; neither exceeds the total; successes stay at or below processed rows if they were before |
| `ImportCsvJob.ImportRecord.CreateFailedRows` | packages/actions/src/Imports/Jobs/ImportCsv.php:117 | the job's failure log is appended to the import's failed rows |
| `ImportCsvJob.ImportCsv.constructor` | packages/actions/src/Imports/Jobs/ImportCsv.php:44-54 | the job holds its import, rows, column map and importer, and starts with an empty failure log |
| `ImportCsvJob.ImportCsv.LogFailedRow` | packages/actions/src/Imports/Jobs/ImportCsv.php:155-161 | exactly one entry is appended: the filtered row and the given reason |
| `ImportCsvJob.ImportCsv.ImportRow` | packages/actions/src/Imports/Jobs/ImportCsv.php:78-91 | one row: reports whether the importer accepted the normalised row, and otherwise appends exactly its filtered entry with the reason of its outcome |
| `ImportCsvJob.ImportCsv.Handle` | packages/actions/src/Imports/Jobs/ImportCsv.php:64-129 | processed rows equal the number of rows; successes and the appended log are those of the specification functions; the log grows by processed minus successful; the stored counters are the capped sums; the stored failed rows gain the job's log |

## Left out

- `packages/panels/src/Panel/Concerns/HasSpaMode.php` is not part of this model: it only sets and reads configuration values through a closure resolver that is not shown.
- Queue plumbing is left out because it only forwards importer settings to the queue runtime: `middleware`, `retryUntil`, `backoff`, `tags`, the `Batchable`/`Queueable`/`SerializesModels` traits, `$maxExceptions` and `$deleteWhenMissingModels`.
- `auth()->setUser`, `report($exception)` and the `ImportChunkProcessed` event are framework calls. `Handle` returns the two counts that the event carries.
- Rows that arrive as a string go through `unserialize(base64_decode(...))` (section 4 of RFC 4648 and PHP serialization) inside library code. The model takes rows already decoded (line 74).
- `DB::transaction` atomicity and `refresh()` are database behaviour. The record's counters and failed rows are plain fields updated in sequence.
- `mb_convert_encoding` (UTF-8 sanitising per RFC 3629) is the parameter `convert`. Only the recursion around it is modelled.
- The importer's behaviour is abstract: a function from the normalised row to an outcome. Side effects of the importer, and outcomes that depend on earlier rows, are not modelled. The options passed to `getImporter` only reach the importer and are left out.
- PHP turns a string key that is a canonical decimal integer (`"5"`) into an integer key. The model keeps CSV headers as string keys and does not normalise them. Row keys and looked-up headers come from the same header strings, so both sides would normalise alike.
- PHP array keys are unique. The model does not enforce this. Removing a key drops every pair with that key, which matches `unset` on a PHP array.
- Laravel's `blank()` helper and PHP's `trim` are library code outside this model. `Blank` follows `blank()`'s null and string cases, the only kinds a mapped header can be, and `Trim` strips `trim`'s default characters.
- Floats, objects and resources are one opaque kind of value. `utf8Encode` returns them unchanged, as it does all non-string, non-array values.
- Laravel's `flatten` works at any depth. Validation errors are exactly two levels deep (field, then messages), and the model flattens those two levels.
- Counters are unbounded naturals. PHP's 64-bit integers and the database column widths are not modelled.
