/**
 * The queued job that imports one chunk of CSV rows (`ImportCsv::handle`).
 *
 * Each row is normalised, handed to the importer, and its outcome decides
 * what happens: a success is counted, any failure is logged with its row
 * (minus sensitive columns) and a reason. After the loop the chunk's counts
 * are added to the stored import record, and both stored counters are then
 * capped at the record's total.
 *
 * The importer's own behaviour is not part of this model: it is an
 * arbitrary function from a normalised row to one of four outcomes.
 */
module ImportCsvJob {
  import opened PhpValues
  import opened ErrorMessages
  import opened SensitiveData
  import opened Utf8Encoding

  /** How a call to the importer ends: it returns, it throws a
      `RowImportFailedException`, a `ValidationException`, or any other
      `Throwable`. */
  datatype Outcome =
    | Imported
    | RowImportFailed(message: string)
    | ValidationFailed(errors: ValidationErrors)
    | UnexpectedFailure

  /** What the job uses of the importer: its columns and its invocation. */
  datatype Importer = Importer(columns: seq<Column>, run: Entries -> Outcome)

  /** One entry of the failure log: the row as stored and the reason. */
  datatype FailedRow = FailedRow(data: Entries, validationError: Option<string>)

  function Min(a: int, b: int): int {
    if a <= b then a else b
  }

  /** The reason passed to `logFailedRow` from each `catch` block. */
  function FailureReason(o: Outcome): (reason: Option<string>)
    requires !o.Imported?
    ensures reason.None? <==> o.UnexpectedFailure?
    ensures o.RowImportFailed? ==> reason == Some(o.message)
  {
    match o
    case RowImportFailed(message) => Some(message)
    case ValidationFailed(errors) => Some(Join(Flatten(errors), ' '))
    case UnexpectedFailure => None
  }

  /** The reason of a validation failure is every message of every field,
      in order, with one space between each two and nothing else: each
      message sits whole at its offset, a space follows every message but
      the last, and the length leaves room for nothing more. Messages may
      contain spaces; when none does, splitting the reason at spaces gives
      back exactly the flattened messages. */
  lemma ValidationReasonListsMessages(errors: ValidationErrors)
    requires Flatten(errors) != []
    ensures SeparatedBy(FailureReason(ValidationFailed(errors)).value, Flatten(errors), ' ')
    ensures (forall m :: m in Flatten(errors) ==> ' ' !in m) ==>
      Split(FailureReason(ValidationFailed(errors)).value, ' ') == Flatten(errors)
  {
    var ms := Flatten(errors);
    JoinSeparated(ms, ' ');
    if forall m :: m in ms ==> ' ' !in m {
      SplitJoin(ms, ' ');
    }
  }

  /** The row as the importer and the failure log see it. */
  function Normalised(row: Entries, convert: string -> string): Entries {
    Utf8EncodeEntries(row, convert)
  }

  function OutcomeOf(importer: Importer, row: Entries, convert: string -> string): Outcome {
    importer.run(Normalised(row, convert))
  }

  /** The log entry for a row whose import failed. */
  function LogEntry(importer: Importer, columnMap: ColumnMap, row: Entries, convert: string -> string): FailedRow
    requires !OutcomeOf(importer, row, convert).Imported?
  {
    FailedRow(
      FilterSensitiveData(importer.columns, columnMap, Normalised(row, convert)),
      FailureReason(OutcomeOf(importer, row, convert)))
  }

  /** How many rows satisfy `p`. */
  function Count(p: Entries -> bool, rows: seq<Entries>): (n: nat)
    ensures n <= |rows|
  {
    if rows == [] then 0
    else Count(p, rows[..|rows| - 1]) + (if p(rows[|rows| - 1]) then 1 else 0)
  }

  /** The concatenation of `f` over the rows, in row order. */
  function FlatMap(f: Entries -> seq<FailedRow>, rows: seq<Entries>): seq<FailedRow> {
    if rows == [] then []
    else FlatMap(f, rows[..|rows| - 1]) + f(rows[|rows| - 1])
  }

  lemma {:induction false} CountSplit(p: Entries -> bool, a: seq<Entries>, b: seq<Entries>)
    ensures Count(p, a + b) == Count(p, a) + Count(p, b)
  {
    if b == [] {
      assert a + b == a;
    } else {
      var ab := a + b;
      var front := b[..|b| - 1];
      assert ab[..|ab| - 1] == a + front;
      assert ab[|ab| - 1] == b[|b| - 1];
      CountSplit(p, a, front);
    }
  }

  lemma {:induction false} FlatMapSplit(f: Entries -> seq<FailedRow>, a: seq<Entries>, b: seq<Entries>)
    ensures FlatMap(f, a + b) == FlatMap(f, a) + FlatMap(f, b)
  {
    if b == [] {
      assert a + b == a;
    } else {
      var ab := a + b;
      var front := b[..|b| - 1];
      assert ab[..|ab| - 1] == a + front;
      assert ab[|ab| - 1] == b[|b| - 1];
      FlatMapSplit(f, a, front);
    }
  }

  /** When every row yields one entry unless it satisfies `p`, the entries
      and the rows satisfying `p` together account for every row. */
  lemma {:induction false} CountPlusFlatMap(p: Entries -> bool, f: Entries -> seq<FailedRow>, rows: seq<Entries>)
    requires forall row :: |f(row)| == if p(row) then 0 else 1
    ensures Count(p, rows) + |FlatMap(f, rows)| == |rows|
  {
    if rows != [] {
      CountPlusFlatMap(p, f, rows[..|rows| - 1]);
    }
  }

  lemma {:induction false} FlatMapFrom(f: Entries -> seq<FailedRow>, rows: seq<Entries>, e: FailedRow)
    requires e in FlatMap(f, rows)
    ensures exists i :: 0 <= i < |rows| && e in f(rows[i])
  {
    var front := rows[..|rows| - 1];
    if e in FlatMap(f, front) {
      FlatMapFrom(f, front, e);
      var i :| 0 <= i < |front| && e in f(front[i]);
      assert rows[i] == front[i];
    } else {
      assert e in f(rows[|rows| - 1]);
    }
  }

  /** Whether the importer accepts the row. */
  function Accepts(importer: Importer, convert: string -> string): Entries -> bool {
    row => OutcomeOf(importer, row, convert).Imported?
  }

  /** What one row adds to the failure log: nothing on success, its entry
      otherwise. */
  function RowLog(importer: Importer, columnMap: ColumnMap, convert: string -> string): Entries -> seq<FailedRow> {
    row =>
      if OutcomeOf(importer, row, convert).Imported? then []
      else [LogEntry(importer, columnMap, row, convert)]
  }

  /** The number of rows the importer accepted. */
  function Successes(importer: Importer, rows: seq<Entries>, convert: string -> string): nat {
    Count(Accepts(importer, convert), rows)
  }

  /** The entries the rows add to the failure log, in row order. */
  function FailureLog(importer: Importer, columnMap: ColumnMap, rows: seq<Entries>, convert: string -> string): seq<FailedRow> {
    FlatMap(RowLog(importer, columnMap, convert), rows)
  }

  /** Every row is either counted as a success or logged as a failure, never
      both: the log grows by the number of rows minus the successes. */
  lemma ChunkAccounting(importer: Importer, columnMap: ColumnMap, rows: seq<Entries>, convert: string -> string)
    ensures Successes(importer, rows, convert) + |FailureLog(importer, columnMap, rows, convert)| == |rows|
  {
    CountPlusFlatMap(Accepts(importer, convert), RowLog(importer, columnMap, convert), rows);
  }

  /** The rows of a chunk are handled independently and in order: the
      counts and the log of a chunk are those of any split of its rows. */
  lemma ChunkSplits(importer: Importer, columnMap: ColumnMap, a: seq<Entries>, b: seq<Entries>, convert: string -> string)
    ensures Successes(importer, a + b, convert) == Successes(importer, a, convert) + Successes(importer, b, convert)
    ensures FailureLog(importer, columnMap, a + b, convert)
         == FailureLog(importer, columnMap, a, convert) + FailureLog(importer, columnMap, b, convert)
  {
    CountSplit(Accepts(importer, convert), a, b);
    FlatMapSplit(RowLog(importer, columnMap, convert), a, b);
  }

  /** Handling one more row: what it adds to the count and to the log. */
  lemma ChunkStep(importer: Importer, columnMap: ColumnMap, rows: seq<Entries>, i: nat, convert: string -> string)
    requires i < |rows|
    ensures Successes(importer, rows[..i + 1], convert)
         == Successes(importer, rows[..i], convert) + (if OutcomeOf(importer, rows[i], convert).Imported? then 1 else 0)
    ensures FailureLog(importer, columnMap, rows[..i + 1], convert)
         == FailureLog(importer, columnMap, rows[..i], convert) + RowLog(importer, columnMap, convert)(rows[i])
  {
    assert rows[..i + 1][..i] == rows[..i];
  }

  /** Each log entry stands for one failed row of the chunk. */
  lemma FailureLogFromFailedRows(importer: Importer, columnMap: ColumnMap, rows: seq<Entries>, convert: string -> string, e: FailedRow)
    ensures e in FailureLog(importer, columnMap, rows, convert)
        ==> exists i :: 0 <= i < |rows| && !OutcomeOf(importer, rows[i], convert).Imported?
                     && e == LogEntry(importer, columnMap, rows[i], convert)
  {
    if e !in FailureLog(importer, columnMap, rows, convert) {
      return;
    }
    FlatMapFrom(RowLog(importer, columnMap, convert), rows, e);
    var i :| 0 <= i < |rows| && e in RowLog(importer, columnMap, convert)(rows[i]);
    assert !OutcomeOf(importer, rows[i], convert).Imported?
        && e == LogEntry(importer, columnMap, rows[i], convert);
  }

  /** No logged row keeps a key that is the header of a sensitive column. */
  lemma FailureLogHidesSensitive(importer: Importer, columnMap: ColumnMap, rows: seq<Entries>, convert: string -> string, e: FailedRow, p: (Key, Value))
    ensures e in FailureLog(importer, columnMap, rows, convert) && p in e.data
        ==> p.0 !in SensitiveKeys(importer.columns, columnMap)
  {
    if e !in FailureLog(importer, columnMap, rows, convert) || p !in e.data {
      return;
    }
    FailureLogFromFailedRows(importer, columnMap, rows, convert, e);
    var i :| 0 <= i < |rows| && !OutcomeOf(importer, rows[i], convert).Imported?
           && e == LogEntry(importer, columnMap, rows[i], convert);
    FilterSensitiveDataKeeps(importer.columns, columnMap, Normalised(rows[i], convert), p);
  }

  /** The stored counter after a sequence of chunks has each added its count
      and been capped at the total. */
  function StoredAfterChunks(stored: nat, chunks: seq<nat>, total: nat): nat
    decreases chunks
  {
    if chunks == [] then stored
    else StoredAfterChunks(Min(stored + chunks[0], total), chunks[1..], total)
  }

  function Sum(chunks: seq<nat>): nat {
    if chunks == [] then 0 else chunks[0] + Sum(chunks[1..])
  }

  /** Capping after every chunk is the same as capping once at the end:
      however an import is split into chunks, the stored counter ends at the
      total of the chunk counts, or at the import's total if that is less. */
  lemma {:induction false} StoredAfterChunksIsCapped(stored: nat, chunks: seq<nat>, total: nat)
    requires chunks != []
    ensures StoredAfterChunks(stored, chunks, total) == Min(stored + Sum(chunks), total)
    decreases chunks
  {
    if |chunks| > 1 {
      StoredAfterChunksIsCapped(Min(stored + chunks[0], total), chunks[1..], total);
    }
  }

  /** The stored import (`Import` model): the columns this job changes. */
  class ImportRecord {
    var processedRows: nat
    var successfulRows: nat
    var totalRows: nat
    /** The import's `failedRows` relation. */
    var failedRows: seq<FailedRow>

    /** The three `update` queries, in order: add the chunk's counts, then
        cap each counter at `total_rows`. */
    method AddChunkCounts(processed: nat, successful: nat)
      modifies this`processedRows, this`successfulRows
      ensures processedRows == Min(old(processedRows) + processed, totalRows)
      ensures successfulRows == Min(old(successfulRows) + successful, totalRows)
      ensures processedRows <= totalRows && successfulRows <= totalRows
      ensures old(successfulRows) <= old(processedRows) && successful <= processed
          ==> successfulRows <= processedRows
    {
      processedRows := processedRows + processed;
      successfulRows := successfulRows + successful;
      if processedRows > totalRows {
        processedRows := totalRows;
      }
      if successfulRows > totalRows {
        successfulRows := totalRows;
      }
    }

    /** `failedRows()->createMany(...)` */
    method CreateFailedRows(rows: seq<FailedRow>)
      modifies this`failedRows
      ensures failedRows == old(failedRows) + rows
    {
      failedRows := failedRows + rows;
    }
  }

  class ImportCsv {
    const record: ImportRecord
    const rows: seq<Entries>
    const columnMap: ColumnMap
    const importer: Importer
    var failedRows: seq<FailedRow>

    constructor (record: ImportRecord, rows: seq<Entries>, columnMap: ColumnMap, importer: Importer)
      ensures this.record == record && this.rows == rows
      ensures this.columnMap == columnMap && this.importer == importer
      ensures failedRows == []
    {
      this.record := record;
      this.rows := rows;
      this.columnMap := columnMap;
      this.importer := importer;
      failedRows := [];
    }

    method LogFailedRow(data: Entries, validationError: Option<string>)
      modifies this`failedRows
      ensures failedRows
           == old(failedRows) + [FailedRow(FilterSensitiveData(importer.columns, columnMap, data), validationError)]
    {
      failedRows := failedRows + [FailedRow(FilterSensitiveData(importer.columns, columnMap, data), validationError)];
    }

    /** One pass of the row loop: normalise the row, run the importer, and
        log the row with its reason unless the importer accepted it. */
    method ImportRow(raw: Entries, convert: string -> string) returns (imported: bool)
      modifies this`failedRows
      ensures imported == OutcomeOf(importer, raw, convert).Imported?
      ensures failedRows == old(failedRows) + RowLog(importer, columnMap, convert)(raw)
    {
      var row := Utf8EncodeEntries(raw, convert);
      var outcome := importer.run(row);
      assert outcome == OutcomeOf(importer, raw, convert);
      imported := outcome.Imported?;
      if !imported {
        LogFailedRow(row, FailureReason(outcome));
      }
    }

    /** Imports the chunk. Returns the counts the chunk-processed event
        carries. */
    method Handle(convert: string -> string) returns (processedRows: nat, successfulRows: nat)
      modifies this`failedRows, record`processedRows, record`successfulRows, record`failedRows
      ensures processedRows == |rows|
      ensures successfulRows == Successes(importer, rows, convert)
      ensures failedRows == old(failedRows) + FailureLog(importer, columnMap, rows, convert)
      ensures successfulRows <= processedRows
      ensures |failedRows| == |old(failedRows)| + processedRows - successfulRows
      ensures record.processedRows <= record.totalRows && record.successfulRows <= record.totalRows
      ensures record.processedRows == Min(old(record.processedRows) + processedRows, record.totalRows)
      ensures record.successfulRows == Min(old(record.successfulRows) + successfulRows, record.totalRows)
      ensures record.failedRows == old(record.failedRows) + failedRows
    {
      processedRows, successfulRows := 0, 0;
      for i := 0 to |rows|
        invariant processedRows == i
        invariant successfulRows == Successes(importer, rows[..i], convert)
        invariant failedRows == old(failedRows) + FailureLog(importer, columnMap, rows[..i], convert)
        invariant unchanged(record)
      {
        ChunkStep(importer, columnMap, rows, i, convert);
        var imported := ImportRow(rows[i], convert);
        if imported {
          successfulRows := successfulRows + 1;
        }
        processedRows := processedRows + 1;
      }
      assert rows[..|rows|] == rows;
      ChunkAccounting(importer, columnMap, rows, convert);
      record.AddChunkCounts(processedRows, successfulRows);
      record.CreateFailedRows(failedRows);
    }
  }
}
