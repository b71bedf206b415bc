/**
 * NICValidationService.processCSV: every line of an uploaded file is trimmed,
 * parsed and saved, and lands either among the inserted records or among the
 * skipped numbers. The record repository is an append-only table.
 */
module NicIngest {
  import opened Common
  import opened Dates
  import opened NicParser

  /** NICRecord without its generated id. */
  datatype NicRecord = NicRecord(
    nicNumber: string,
    birthday: Date,
    age: int,
    gender: string,
    fileName: string,
    createdAt: Date,
    username: string)

  /**
   * An uploaded file: its original name, the lines the reader delivered, and
   * whether the reader then failed (lines is what was read before the failure).
   */
  datatype CsvFile = CsvFile(originalFilename: string, lines: seq<string>, readFails: bool)

  /** The map processCSV returns, with its two keys "inserted" and "skipped". */
  datatype CsvResult = CsvResult(inserted: seq<NicRecord>, skipped: seq<string>)

  /** The RuntimeException processCSV throws when the file cannot be read. */
  datatype ProcessingError = ErrorProcessingFile(fileName: string)

  /** NICRecordRepository: rows are only appended; rejects says which records save refuses. */
  class NicRecordRepository {
    var rows: seq<NicRecord>
    const rejects: NicRecord -> bool

    constructor (rejects: NicRecord -> bool)
      ensures rows == [] && this.rejects == rejects
    {
      rows := [];
      this.rejects := rejects;
    }

    /** repository.save: appends the record, or throws (saved == false) and appends nothing. */
    method Save(record: NicRecord) returns (saved: bool)
      modifies this
      ensures saved == !rejects(record)
      ensures rows == if saved then old(rows) + [record] else old(rows)
    {
      saved := !rejects(record);
      if saved {
        rows := rows + [record];
      }
    }
  }

  /** Where one line ends up. */
  datatype LineOutcome = Inserted(record: NicRecord) | Skipped(nic: string)

  /** The body of the read loop for one line (the try block and its catch). */
  function ProcessLine(line: string, fileName: string, username: string, today: Date,
                       rejects: NicRecord -> bool): LineOutcome
    requires ValidDate(today)
  {
    var nic := Trim(line);
    match ExtractDOB(Some(nic), today)
    case Failure(_) => Skipped(nic)
    case Success(dob) =>
      var record := NicRecord(nic, dob, CalculateAge(dob, today), ExtractGender(Some(nic)),
                              fileName, today, username);
      if rejects(record) then Skipped(nic) else Inserted(record)
  }

  /** A record as processCSV builds it for the given file, uploader and day. */
  ghost predicate WellFormedRecord(r: NicRecord, fileName: string, username: string, today: Date,
                                   rejects: NicRecord -> bool)
    requires ValidDate(today)
  {
    && Trim(r.nicNumber) == r.nicNumber
    && ExtractDOB(Some(r.nicNumber), today) == Success(r.birthday)
    && r.age == CalculateAge(r.birthday, today)
    && r.gender == ExtractGender(Some(r.nicNumber))
    && (r.gender == "Male" || r.gender == "Female")
    && r.fileName == fileName
    && r.createdAt == today
    && r.username == username
    && !rejects(r)
  }

  /** Why a number is skipped: it does not parse, or save refuses the record built from it. */
  ghost predicate SkipReason(nic: string, fileName: string, username: string, today: Date,
                             rejects: NicRecord -> bool)
    requires ValidDate(today)
  {
    && Trim(nic) == nic
    && (ExtractDOB(Some(nic), today).Failure? ||
        var dob := ExtractDOB(Some(nic), today).value;
        rejects(NicRecord(nic, dob, CalculateAge(dob, today), ExtractGender(Some(nic)), fileName, today, username)))
  }

  /** The per-line step of processCSV for one file, uploader and day. */
  function LineStep(fileName: string, username: string, today: Date, rejects: NicRecord -> bool): string -> LineOutcome
    requires ValidDate(today)
  {
    line => ProcessLine(line, fileName, username, today, rejects)
  }

  /** The outcome of every line, in file order. */
  function Outcomes(lines: seq<string>, step: string -> LineOutcome): (os: seq<LineOutcome>)
    ensures |os| == |lines|
    decreases |lines|
  {
    if lines == [] then [] else Outcomes(lines[..|lines| - 1], step) + [step(lines[|lines| - 1])]
  }

  /** The k-th outcome is that of the k-th line. */
  lemma {:induction false} OutcomesAt(lines: seq<string>, step: string -> LineOutcome, k: nat)
    requires k < |lines|
    ensures Outcomes(lines, step)[k] == step(lines[k])
    decreases |lines|
  {
    if k < |lines| - 1 {
      OutcomesAt(lines[..|lines| - 1], step, k);
    }
  }

  /** Reading one more line adds its outcome at the end. */
  lemma OutcomesSnoc(lines: seq<string>, i: nat, step: string -> LineOutcome)
    requires i < |lines|
    ensures Outcomes(lines[..i + 1], step) == Outcomes(lines[..i], step) + [step(lines[i])]
  {
    assert lines[..i + 1][..i] == lines[..i];
  }

  /** Outcomes of a + b are those of a followed by those of b. */
  lemma {:induction false} OutcomesAppend(a: seq<string>, b: seq<string>, step: string -> LineOutcome)
    ensures Outcomes(a + b, step) == Outcomes(a, step) + Outcomes(b, step)
    decreases |b|
  {
    if b == [] {
      assert a + b == a;
    } else {
      OutcomesAppend(a, b[..|b| - 1], step);
      assert (a + b)[..|a + b| - 1] == a + b[..|b| - 1];
    }
  }

  /** One pass of the read loop on the two lists: the outcome goes to the list of its kind. */
  function Extend(acc: CsvResult, o: LineOutcome): CsvResult {
    match o
    case Inserted(record) => CsvResult(acc.inserted + [record], acc.skipped)
    case Skipped(nic) => CsvResult(acc.inserted, acc.skipped + [nic])
  }

  /** The two lists the read loop builds from a sequence of outcomes, each in order. */
  function Partition(outcomes: seq<LineOutcome>): CsvResult
    decreases |outcomes|
  {
    if outcomes == [] then CsvResult([], [])
    else Extend(Partition(outcomes[..|outcomes| - 1]), outcomes[|outcomes| - 1])
  }

  /** Reading line i extends the lists built from the lines before it. */
  lemma PartitionOutcomesStep(lines: seq<string>, i: nat, step: string -> LineOutcome)
    requires i < |lines|
    ensures Partition(Outcomes(lines[..i + 1], step)) == Extend(Partition(Outcomes(lines[..i], step)), step(lines[i]))
  {
    OutcomesSnoc(lines, i, step);
    PartitionSnoc(Outcomes(lines[..i], step), step(lines[i]));
  }

  /** The map processCSV returns for a file whose lines are all read. */
  function Ingest(lines: seq<string>, fileName: string, username: string, today: Date,
                  rejects: NicRecord -> bool): CsvResult
    requires ValidDate(today)
  {
    Partition(Outcomes(lines, LineStep(fileName, username, today, rejects)))
  }

  /** The number a line contributes, whichever list it goes to. */
  function OutcomeNumber(o: LineOutcome): string {
    match o
    case Inserted(record) => record.nicNumber
    case Skipped(nic) => nic
  }

  function NicNumbers(records: seq<NicRecord>): (ns: seq<string>)
    ensures |ns| == |records|
    ensures forall k :: 0 <= k < |records| ==> ns[k] == records[k].nicNumber
  {
    seq(|records|, k requires 0 <= k < |records| => records[k].nicNumber)
  }

  function OutcomeNumbers(outcomes: seq<LineOutcome>): (ns: seq<string>)
    ensures |ns| == |outcomes|
    ensures forall k :: 0 <= k < |outcomes| ==> ns[k] == OutcomeNumber(outcomes[k])
  {
    seq(|outcomes|, k requires 0 <= k < |outcomes| => OutcomeNumber(outcomes[k]))
  }

  /** One more outcome is appended to the list of its kind. */
  lemma PartitionSnoc(outcomes: seq<LineOutcome>, o: LineOutcome)
    ensures Partition(outcomes + [o]) == Extend(Partition(outcomes), o)
  {
    assert (outcomes + [o])[..|outcomes|] == outcomes;
  }

  /** Each outcome goes to exactly one of the two lists. */
  lemma {:induction false} PartitionSizes(outcomes: seq<LineOutcome>)
    ensures |Partition(outcomes).inserted| + |Partition(outcomes).skipped| == |outcomes|
    decreases |outcomes|
  {
    if outcomes != [] {
      PartitionSizes(outcomes[..|outcomes| - 1]);
    }
  }

  /** Partition keeps order: what comes later never precedes what comes earlier. */
  lemma {:induction false} PartitionAppend(a: seq<LineOutcome>, b: seq<LineOutcome>)
    ensures Partition(a + b) ==
      CsvResult(Partition(a).inserted + Partition(b).inserted, Partition(a).skipped + Partition(b).skipped)
    decreases |b|
  {
    if b == [] {
      assert a + b == a;
    } else {
      var init := b[..|b| - 1];
      PartitionAppend(a, init);
      assert (a + b)[..|a + b| - 1] == a + init;
      assert (a + b)[|a + b| - 1] == b[|b| - 1];
    }
  }

  /** Appending one element to either side of a multiset split keeps the split. */
  lemma MultisetSnoc<T>(a: seq<T>, b: seq<T>, all: seq<T>, x: T)
    requires multiset(a) + multiset(b) == multiset(all)
    ensures multiset(a + [x]) + multiset(b) == multiset(all + [x])
    ensures multiset(a) + multiset(b + [x]) == multiset(all + [x])
  {
  }

  /** The numbers in both lists are, as a multiset, those of all outcomes. */
  lemma {:induction false} PartitionNumbers(outcomes: seq<LineOutcome>)
    ensures multiset(NicNumbers(Partition(outcomes).inserted)) + multiset(Partition(outcomes).skipped) ==
            multiset(OutcomeNumbers(outcomes))
    decreases |outcomes|
  {
    if outcomes != [] {
      var init := outcomes[..|outcomes| - 1];
      var last := outcomes[|outcomes| - 1];
      PartitionNumbers(init);
      assert outcomes == init + [last];
      PartitionNumbersSnoc(init, last);
    }
  }

  /** One more outcome keeps the numbers of both lists equal to those of all outcomes. */
  lemma PartitionNumbersSnoc(init: seq<LineOutcome>, last: LineOutcome)
    requires multiset(NicNumbers(Partition(init).inserted)) + multiset(Partition(init).skipped) ==
             multiset(OutcomeNumbers(init))
    ensures multiset(NicNumbers(Partition(init + [last]).inserted)) + multiset(Partition(init + [last]).skipped) ==
            multiset(OutcomeNumbers(init + [last]))
  {
    PartitionSnoc(init, last);
    assert OutcomeNumbers(init + [last]) == OutcomeNumbers(init) + [OutcomeNumber(last)];
    var before := Partition(init);
    var numbers := NicNumbers(before.inserted);
    match last {
      case Inserted(record) =>
        assert NicNumbers(before.inserted + [record]) == numbers + [record.nicNumber];
        MultisetSnoc(numbers, before.skipped, OutcomeNumbers(init), record.nicNumber);
      case Skipped(nic) =>
        MultisetSnoc(numbers, before.skipped, OutcomeNumbers(init), nic);
    }
  }

  /** Every listed record or number comes from some outcome of that kind. */
  lemma {:induction false} PartitionMembers(outcomes: seq<LineOutcome>)
    ensures forall r :: r in Partition(outcomes).inserted ==> Inserted(r) in outcomes
    ensures forall n :: n in Partition(outcomes).skipped ==> Skipped(n) in outcomes
    decreases |outcomes|
  {
    if outcomes != [] {
      var init := outcomes[..|outcomes| - 1];
      PartitionMembers(init);
      assert forall o :: o in init ==> o in outcomes;
    }
  }

  /** Every line read ends up in exactly one of the two lists. */
  lemma IngestSizes(lines: seq<string>, fileName: string, username: string, today: Date,
                    rejects: NicRecord -> bool)
    requires ValidDate(today)
    ensures var r := Ingest(lines, fileName, username, today, rejects);
      |r.inserted| + |r.skipped| == |lines|
  {
    PartitionSizes(Outcomes(lines, LineStep(fileName, username, today, rejects)));
  }

  /** The lines with surrounding blanks removed, in order. */
  function TrimAll(lines: seq<string>): (ts: seq<string>)
    ensures |ts| == |lines|
    ensures forall k :: 0 <= k < |lines| ==> ts[k] == Trim(lines[k])
  {
    seq(|lines|, k requires 0 <= k < |lines| => Trim(lines[k]))
  }

  /** A step that keeps each line's trimmed text yields the trimmed lines, in order. */
  lemma OutcomeNumbersTrimmed(lines: seq<string>, step: string -> LineOutcome)
    requires forall l :: OutcomeNumber(step(l)) == Trim(l)
    ensures OutcomeNumbers(Outcomes(lines, step)) == TrimAll(lines)
  {
    forall k | 0 <= k < |lines|
      ensures OutcomeNumbers(Outcomes(lines, step))[k] == TrimAll(lines)[k]
    {
      OutcomesAt(lines, step, k);
    }
  }

  /** Whatever happens to a line, the number it contributes is the trimmed line. */
  lemma StepNumbers(fileName: string, username: string, today: Date, rejects: NicRecord -> bool)
    requires ValidDate(today)
    ensures forall l :: OutcomeNumber(LineStep(fileName, username, today, rejects)(l)) == Trim(l)
  {
    forall l ensures OutcomeNumber(LineStep(fileName, username, today, rejects)(l)) == Trim(l) {
      assert LineStep(fileName, username, today, rejects)(l) == ProcessLine(l, fileName, username, today, rejects);
    }
  }

  /**
   * The trimmed lines are exactly the inserted numbers together with the
   * skipped ones, duplicates included: no number is dropped or de-duplicated.
   */
  lemma IngestPartitionsLines(lines: seq<string>, fileName: string, username: string,
                              today: Date, rejects: NicRecord -> bool)
    requires ValidDate(today)
    ensures var r := Ingest(lines, fileName, username, today, rejects);
      multiset(NicNumbers(r.inserted)) + multiset(r.skipped) == multiset(TrimAll(lines))
  {
    var step := LineStep(fileName, username, today, rejects);
    StepNumbers(fileName, username, today, rejects);
    OutcomeNumbersTrimmed(lines, step);
    PartitionNumbers(Outcomes(lines, step));
  }

  /** Reading a + b gives the lists of a followed by those of b: file order is kept. */
  lemma IngestAppend(a: seq<string>, b: seq<string>, fileName: string, username: string,
                     today: Date, rejects: NicRecord -> bool)
    requires ValidDate(today)
    ensures var ra := Ingest(a, fileName, username, today, rejects);
      var rb := Ingest(b, fileName, username, today, rejects);
      Ingest(a + b, fileName, username, today, rejects) ==
        CsvResult(ra.inserted + rb.inserted, ra.skipped + rb.skipped)
  {
    var step := LineStep(fileName, username, today, rejects);
    OutcomesAppend(a, b, step);
    PartitionAppend(Outcomes(a, step), Outcomes(b, step));
  }

  /** What one line yields is explained by the parser and the repository. */
  lemma ProcessLineExplained(line: string, fileName: string, username: string, today: Date,
                             rejects: NicRecord -> bool)
    requires ValidDate(today)
    ensures match ProcessLine(line, fileName, username, today, rejects)
      case Inserted(r) => WellFormedRecord(r, fileName, username, today, rejects)
      case Skipped(n) => SkipReason(n, fileName, username, today, rejects)
  {
    if ProcessLine(line, fileName, username, today, rejects).Inserted? {
      InsertedLine(line, fileName, username, today, rejects);
    } else {
      SkippedLine(line, fileName, username, today, rejects);
    }
  }

  lemma InsertedLine(line: string, fileName: string, username: string, today: Date,
                     rejects: NicRecord -> bool)
    requires ValidDate(today) && ProcessLine(line, fileName, username, today, rejects).Inserted?
    ensures WellFormedRecord(ProcessLine(line, fileName, username, today, rejects).record,
                             fileName, username, today, rejects)
  {
    var nic := Trim(line);
    TrimIdempotent(line);
    var dob := ExtractDOB(Some(nic), today).value;
    var record := NicRecord(nic, dob, CalculateAge(dob, today), ExtractGender(Some(nic)),
                            fileName, today, username);
    assert ProcessLine(line, fileName, username, today, rejects) == Inserted(record);
    GenderKnownWhenDobExtracted(Some(nic), today);
  }

  lemma SkippedLine(line: string, fileName: string, username: string, today: Date,
                    rejects: NicRecord -> bool)
    requires ValidDate(today) && ProcessLine(line, fileName, username, today, rejects).Skipped?
    ensures SkipReason(ProcessLine(line, fileName, username, today, rejects).nic,
                       fileName, username, today, rejects)
  {
    var nic := Trim(line);
    TrimIdempotent(line);
    match ExtractDOB(Some(nic), today) {
      case Failure(_) =>
        assert ProcessLine(line, fileName, username, today, rejects) == Skipped(nic);
      case Success(dob) =>
        var record := NicRecord(nic, dob, CalculateAge(dob, today), ExtractGender(Some(nic)),
                                fileName, today, username);
        assert ProcessLine(line, fileName, username, today, rejects) ==
          if rejects(record) then Skipped(nic) else Inserted(record);
    }
  }

  /**
   * Every inserted record carries the parse of its own trimmed line and the
   * caller's file name and user; every skipped number is a trimmed line that
   * failed to parse or to save.
   */
  lemma IngestExplained(lines: seq<string>, fileName: string, username: string,
                        today: Date, rejects: NicRecord -> bool)
    requires ValidDate(today)
    ensures var r := Ingest(lines, fileName, username, today, rejects);
      && (forall rec :: rec in r.inserted ==> WellFormedRecord(rec, fileName, username, today, rejects))
      && (forall n :: n in r.skipped ==> SkipReason(n, fileName, username, today, rejects))
  {
    var os := Outcomes(lines, LineStep(fileName, username, today, rejects));
    PartitionMembers(os);
    forall i | 0 <= i < |lines|
      ensures match os[i]
        case Inserted(r) => WellFormedRecord(r, fileName, username, today, rejects)
        case Skipped(n) => SkipReason(n, fileName, username, today, rejects)
    {
      OutcomesAt(lines, LineStep(fileName, username, today, rejects), i);
      ProcessLineExplained(lines[i], fileName, username, today, rejects);
    }
  }

  /** A file of one line yields that line's outcome alone. */
  lemma PartitionOneLine(line: string, step: string -> LineOutcome)
    ensures Partition(Outcomes([line], step)) == Extend(CsvResult([], []), step(line))
  {
    assert [line][..0] == [];
    assert Outcomes([line], step) == [step(line)];
    assert [step(line)][..0] == [];
  }

  /** A blank line is skipped as the empty string. */
  lemma BlankLineSkipped(line: string, fileName: string, username: string, today: Date,
                         rejects: NicRecord -> bool)
    requires ValidDate(today) && Trim(line) == ""
    ensures Ingest([line], fileName, username, today, rejects) == CsvResult([], [""])
  {
    var step := LineStep(fileName, username, today, rejects);
    PartitionOneLine(line, step);
    EmptyNumberInvalid(today);
    assert ProcessLine(line, fileName, username, today, rejects) == Skipped("");
    assert step(line) == Skipped("");
  }

  lemma EmptyNumberInvalid(today: Date)
    ensures ExtractDOB(Some(""), today) == Failure(InvalidFormat(""))
  {
    assert Normalize("") == "";
    assert Fields("") == None;
  }

  /** Two more lines append their two outcomes, in order. */
  lemma OutcomesTwice(lines: seq<string>, line: string, step: string -> LineOutcome)
    ensures Outcomes(lines + [line, line], step) == Outcomes(lines, step) + [step(line), step(line)]
  {
    OutcomesSnoc(lines + [line, line], |lines|, step);
    OutcomesSnoc(lines + [line, line], |lines| + 1, step);
    assert (lines + [line, line])[..|lines|] == lines;
    assert (lines + [line, line])[..|lines| + 2] == lines + [line, line];
  }

  lemma PartitionTwice(outcomes: seq<LineOutcome>, o: LineOutcome)
    requires o.Inserted?
    ensures Partition(outcomes + [o, o]).inserted == Partition(outcomes).inserted + [o.record, o.record]
  {
    PartitionSnoc(outcomes, o);
    PartitionSnoc(outcomes + [o], o);
    assert outcomes + [o] + [o] == outcomes + [o, o];
  }

  /** A number that appears on two lines is inserted twice; no duplicate check is made. */
  lemma DuplicateInsertedTwice(lines: seq<string>, line: string, fileName: string, username: string,
                               today: Date, rejects: NicRecord -> bool)
    requires ValidDate(today)
    requires ProcessLine(line, fileName, username, today, rejects).Inserted?
    ensures var record := ProcessLine(line, fileName, username, today, rejects).record;
      Ingest(lines + [line, line], fileName, username, today, rejects).inserted ==
        Ingest(lines, fileName, username, today, rejects).inserted + [record, record]
  {
    var step := LineStep(fileName, username, today, rejects);
    assert step(line) == ProcessLine(line, fileName, username, today, rejects);
    OutcomesTwice(lines, line, step);
    PartitionTwice(Outcomes(lines, step), step(line));
  }

  /**
   * What processCSV returns: the two lists of a file read to its end, or the
   * error naming the file when reading it failed.
   */
  function CsvOutcome(file: CsvFile, username: string, today: Date, rejects: NicRecord -> bool): (r: Result<CsvResult, ProcessingError>)
    requires ValidDate(today)
    ensures r.Failure? <==> file.readFails
    ensures r.Failure? ==> r.error.fileName == file.originalFilename
  {
    if file.readFails then Failure(ErrorProcessingFile(file.originalFilename))
    else Success(Ingest(file.lines, file.originalFilename, username, today, rejects))
  }

  lemma AppendAssoc<T>(a: seq<T>, b: seq<T>, c: seq<T>)
    ensures (a + b) + c == a + (b + c)
  {
  }

  /** NICValidationService, over its repository. */
  class NicValidationService {
    const repository: NicRecordRepository

    constructor (repository: NicRecordRepository)
      ensures this.repository == repository
    {
      this.repository := repository;
    }

    /**
     * One pass of the read loop: trim the line, parse it, build the record
     * and save it; a parse failure or a refused save skips the trimmed text.
     */
    method ReadLine(line: string, fileName: string, username: string, today: Date) returns (outcome: LineOutcome)
      requires ValidDate(today)
      modifies repository
      ensures outcome == LineStep(fileName, username, today, repository.rejects)(line)
      ensures repository.rows == old(repository.rows) + (if outcome.Inserted? then [outcome.record] else [])
    {
      assert LineStep(fileName, username, today, repository.rejects)(line) ==
        ProcessLine(line, fileName, username, today, repository.rejects);
      var nic := Trim(line);
      var dob := ExtractDOB(Some(nic), today);
      if dob.Failure? {
        return Skipped(nic);
      }
      var age := CalculateAge(dob.value, today);
      var gender := ExtractGender(Some(nic));
      var record := NicRecord(nic, dob.value, age, gender, fileName, today, username);
      var saved := repository.Save(record);
      if saved {
        outcome := Inserted(record);
      } else {
        outcome := Skipped(nic);
      }
    }

    /**
     * processCSV(file, username) with LocalDate.now() passed in as today.
     * Records saved before a read failure stay in the repository.
     */
    method ProcessCsv(file: CsvFile, username: string, today: Date) returns (r: Result<CsvResult, ProcessingError>)
      requires ValidDate(today)
      modifies repository
      ensures repository.rows == old(repository.rows) + Ingest(file.lines, file.originalFilename, username, today, repository.rejects).inserted
      ensures r == CsvOutcome(file, username, today, repository.rejects)
    {
      var insertedRecords: seq<NicRecord> := [];
      var skippedNICs: seq<string> := [];
      var lines := file.lines;
      ghost var step := LineStep(file.originalFilename, username, today, repository.rejects);
      var i := 0;
      while i < |lines|
        invariant 0 <= i <= |lines|
        invariant CsvResult(insertedRecords, skippedNICs) == Partition(Outcomes(lines[..i], step))
        invariant repository.rows == old(repository.rows) + insertedRecords
      {
        var outcome := ReadLine(lines[i], file.originalFilename, username, today);
        PartitionOutcomesStep(lines, i, step);
        match outcome {
          case Inserted(record) =>
            AppendAssoc(old(repository.rows), insertedRecords, [record]);
            insertedRecords := insertedRecords + [record];
          case Skipped(nic) =>
            skippedNICs := skippedNICs + [nic];
        }
        i := i + 1;
      }
      assert lines[..i] == lines;
      if file.readFails {
        r := Failure(ErrorProcessingFile(file.originalFilename));
      } else {
        r := Success(CsvResult(insertedRecords, skippedNICs));
      }
    }
  }
}
