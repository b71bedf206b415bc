/**
 * NICValidationController.uploadFiles: exactly four files are accepted; each
 * is handed to processCSV in turn, the per-file lists are concatenated in file
 * order, and files whose processing throws are only counted.
 */
module NicUpload {
  import opened Common
  import opened Dates
  import opened NicIngest

  /** The body of the ResponseEntity uploadFiles returns, one variant per HTTP status. */
  datatype UploadResponse =
    | BadRequest(status: string, message: string)
    | Ok(status: string, message: string, filesProcessed: int, fileErrors: int,
         inserted: int, skipped: int, skippedNICs: seq<string>, records: seq<NicRecord>)

  const WrongFileCount := "Exactly 4 CSV files must be uploaded."
  const Processed := "✅ CSV files processed."

  /** The three accumulators of the upload loop. */
  datatype Batch = Batch(records: seq<NicRecord>, skipped: seq<string>, fileErrors: int)

  /** One pass of the upload loop: a returned map is appended, a thrown exception counted. */
  function Absorb(acc: Batch, r: Result<CsvResult, ProcessingError>): Batch {
    match r
    case Success(res) => Batch(acc.records + res.inserted, acc.skipped + res.skipped, acc.fileErrors)
    case Failure(_) => Batch(acc.records, acc.skipped, acc.fileErrors + 1)
  }

  /** The accumulators after absorbing the per-file results in order. */
  function Aggregate(results: seq<Result<CsvResult, ProcessingError>>): Batch
    decreases |results|
  {
    if results == [] then Batch([], [], 0)
    else Absorb(Aggregate(results[..|results| - 1]), results[|results| - 1])
  }

  /** The number of failed results. */
  function Failures(results: seq<Result<CsvResult, ProcessingError>>): nat
    decreases |results|
  {
    if results == [] then 0
    else Failures(results[..|results| - 1]) + (if results[|results| - 1].Failure? then 1 else 0)
  }

  /** The lists of a sequence of lists, one after the other. */
  function Concat<T>(xss: seq<seq<T>>): (xs: seq<T>)
    decreases |xss|
  {
    if xss == [] then [] else Concat(xss[..|xss| - 1]) + xss[|xss| - 1]
  }

  /** What processCSV returns for each file, in order. */
  function FileResults(files: seq<CsvFile>, username: string, today: Date, rejects: NicRecord -> bool)
    : (rs: seq<Result<CsvResult, ProcessingError>>)
    requires ValidDate(today)
    ensures |rs| == |files|
  {
    seq(|files|, k requires 0 <= k < |files| => CsvOutcome(files[k], username, today, rejects))
  }

  /**
   * The records saved while each file is processed, in order: those of a file
   * whose reading failed afterwards are saved too.
   */
  function SavedRows(files: seq<CsvFile>, username: string, today: Date, rejects: NicRecord -> bool)
    : (saved: seq<seq<NicRecord>>)
    requires ValidDate(today)
    ensures |saved| == |files|
  {
    seq(|files|, k requires 0 <= k < |files| =>
      Ingest(files[k].lines, files[k].originalFilename, username, today, rejects).inserted)
  }

  /** The response for four files, built from the accumulators. */
  function Accepted(b: Batch): UploadResponse {
    Ok("success", Processed, 4, b.fileErrors, |b.records|, |b.skipped|, b.skipped, b.records)
  }

  /** Absorbing result i extends the accumulators of the results before it. */
  lemma AggregatePrefix(results: seq<Result<CsvResult, ProcessingError>>, i: nat)
    requires i < |results|
    ensures Aggregate(results[..i + 1]) == Absorb(Aggregate(results[..i]), results[i])
  {
    assert results[..i + 1][..i] == results[..i];
  }

  /** Saving the rows of list i extends the rows of the lists before it. */
  lemma ConcatPrefix<T>(xss: seq<seq<T>>, i: nat)
    requires i < |xss|
    ensures Concat(xss[..i + 1]) == Concat(xss[..i]) + xss[i]
  {
    assert xss[..i + 1][..i] == xss[..i];
  }

  /** fileErrors counts exactly the files whose processing threw. */
  lemma {:induction false} AggregateCountsFailures(results: seq<Result<CsvResult, ProcessingError>>)
    ensures Aggregate(results).fileErrors == Failures(results)
    ensures 0 <= Failures(results) <= |results|
    decreases |results|
  {
    if results != [] {
      AggregateCountsFailures(results[..|results| - 1]);
    }
  }

  /** No file failed if and only if fileErrors is 0. */
  lemma {:induction false} NoFailures(results: seq<Result<CsvResult, ProcessingError>>)
    ensures Failures(results) == 0 <==> forall k :: 0 <= k < |results| ==> results[k].Success?
    decreases |results|
  {
    if results != [] {
      var init := results[..|results| - 1];
      NoFailures(init);
      assert forall k :: 0 <= k < |init| ==> init[k] == results[k];
    }
  }

  /** Processing a + b concatenates the lists of a and b and adds their error counts. */
  lemma {:induction false} AggregateAppend(a: seq<Result<CsvResult, ProcessingError>>,
                                           b: seq<Result<CsvResult, ProcessingError>>)
    ensures Aggregate(a + b) ==
      Batch(Aggregate(a).records + Aggregate(b).records, Aggregate(a).skipped + Aggregate(b).skipped,
            Aggregate(a).fileErrors + Aggregate(b).fileErrors)
    decreases |b|
  {
    if b == [] {
      assert a + b == a;
    } else {
      var init := b[..|b| - 1];
      AggregateAppend(a, init);
      assert (a + b)[..|a + b| - 1] == a + init;
      assert (a + b)[|a + b| - 1] == b[|b| - 1];
      AppendAssoc(Aggregate(a).records, Aggregate(init).records, Aggregate([b[|b| - 1]]).records);
      AppendAssoc(Aggregate(a).skipped, Aggregate(init).skipped, Aggregate([b[|b| - 1]]).skipped);
      assert [b[|b| - 1]][..0] == [];
    }
  }

  /** A file that fails adds nothing to records or skippedNICs, only one to fileErrors. */
  lemma FailedFileAddsNothing(results: seq<Result<CsvResult, ProcessingError>>, e: ProcessingError)
    ensures Aggregate(results + [Failure(e)]) ==
      Batch(Aggregate(results).records, Aggregate(results).skipped, Aggregate(results).fileErrors + 1)
  {
    assert (results + [Failure(e)])[..|results|] == results;
  }

  function Sum(xs: seq<nat>): nat
    decreases |xs|
  {
    if xs == [] then 0 else Sum(xs[..|xs| - 1]) + xs[|xs| - 1]
  }

  /** The number of lines of each file, counted as 0 when its reading fails. */
  function LinesRead(files: seq<CsvFile>): (counts: seq<nat>)
    ensures |counts| == |files|
  {
    seq(|files|, k requires 0 <= k < |files| => if files[k].readFails then 0 else |files[k].lines|)
  }

  /** The accumulated lists are as long as the per-file lists together. */
  lemma {:induction false} AggregateSizesBy(results: seq<Result<CsvResult, ProcessingError>>, sizes: seq<nat>)
    requires |sizes| == |results|
    requires forall k :: 0 <= k < |results| ==>
      sizes[k] == if results[k].Success? then |results[k].value.inserted| + |results[k].value.skipped| else 0
    ensures |Aggregate(results).records| + |Aggregate(results).skipped| == Sum(sizes)
    decreases |results|
  {
    if results != [] {
      var n := |results| - 1;
      AggregateSizesBy(results[..n], sizes[..n]);
    }
  }

  /**
   * Every line of every file read to its end is counted once: inserted plus
   * skipped in the response equals the number of lines of those files.
   */
  lemma AggregateSizes(files: seq<CsvFile>, username: string, today: Date, rejects: NicRecord -> bool)
    requires ValidDate(today)
    ensures var b := Aggregate(FileResults(files, username, today, rejects));
      |b.records| + |b.skipped| == Sum(LinesRead(files))
  {
    var rs := FileResults(files, username, today, rejects);
    forall k | 0 <= k < |files|
      ensures LinesRead(files)[k] == if rs[k].Success? then |rs[k].value.inserted| + |rs[k].value.skipped| else 0
    {
      IngestSizes(files[k].lines, files[k].originalFilename, username, today, rejects);
    }
    AggregateSizesBy(rs, LinesRead(files));
  }

  /** When every result is a success, the accumulated records are the inserted lists, in order. */
  lemma {:induction false} AggregateRecordsBy(results: seq<Result<CsvResult, ProcessingError>>, saved: seq<seq<NicRecord>>)
    requires |saved| == |results|
    requires forall k :: 0 <= k < |results| ==> results[k].Success? && results[k].value.inserted == saved[k]
    ensures Aggregate(results).records == Concat(saved)
    decreases |results|
  {
    if results != [] {
      var n := |results| - 1;
      AggregateRecordsBy(results[..n], saved[..n]);
    }
  }

  /**
   * When no file fails, the records in the response are exactly the rows the
   * repository gained, in order.
   */
  lemma PersistedWhenNoErrors(files: seq<CsvFile>, username: string, today: Date, rejects: NicRecord -> bool)
    requires ValidDate(today)
    requires forall k :: 0 <= k < |files| ==> !files[k].readFails
    ensures Aggregate(FileResults(files, username, today, rejects)).records ==
      Concat(SavedRows(files, username, today, rejects))
  {
    AggregateRecordsBy(FileResults(files, username, today, rejects), SavedRows(files, username, today, rejects));
  }

  /** NICValidationController over the service it is wired to. */
  class NicValidationController {
    const nicService: NicValidationService

    constructor (nicService: NicValidationService)
      ensures this.nicService == nicService
    {
      this.nicService := nicService;
    }

    /**
     * uploadFiles(files) for the uploading user, with LocalDate.now() passed
     * in as today. With any number of files but four nothing is processed.
     */
    method UploadFiles(files: seq<CsvFile>, username: string, today: Date) returns (response: UploadResponse)
      requires ValidDate(today)
      modifies nicService.repository
      ensures |files| != 4 ==>
        response == BadRequest("error", WrongFileCount) &&
        nicService.repository.rows == old(nicService.repository.rows)
      ensures |files| == 4 ==>
        response == Accepted(Aggregate(FileResults(files, username, today, nicService.repository.rejects))) &&
        nicService.repository.rows ==
          old(nicService.repository.rows) + Concat(SavedRows(files, username, today, nicService.repository.rejects))
    {
      if |files| != 4 {
        return BadRequest("error", WrongFileCount);
      }
      var repository := nicService.repository;
      ghost var results := FileResults(files, username, today, repository.rejects);
      ghost var saved := SavedRows(files, username, today, repository.rejects);
      var allInsertedRecords: seq<NicRecord> := [];
      var allSkippedNICs: seq<string> := [];
      var fileErrors := 0;
      var i := 0;
      while i < |files|
        invariant 0 <= i <= |files|
        invariant Batch(allInsertedRecords, allSkippedNICs, fileErrors) == Aggregate(results[..i])
        invariant repository.rows == old(repository.rows) + Concat(saved[..i])
      {
        var r := nicService.ProcessCsv(files[i], username, today);
        AggregatePrefix(results, i);
        ConcatPrefix(saved, i);
        AppendAssoc(old(repository.rows), Concat(saved[..i]), saved[i]);
        match r {
          case Success(result) =>
            allInsertedRecords := allInsertedRecords + result.inserted;
            allSkippedNICs := allSkippedNICs + result.skipped;
          case Failure(_) =>
            fileErrors := fileErrors + 1;
        }
        i := i + 1;
      }
      assert results[..i] == results;
      assert saved[..i] == saved;
      response := Ok("success", Processed, |files|, fileErrors, |allInsertedRecords|, |allSkippedNICs|,
                     allSkippedNICs, allInsertedRecords);
    }
  }
}
