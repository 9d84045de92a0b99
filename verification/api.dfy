/** The two routes of routes/api.js: the upload that replaces one
    (user, year) partition inside a transaction, and the read of a partition
    ordered by month. */
module Api {
  import opened Results
  import opened Months
  import opened Records
  import opened Ordering

  /** One worksheet row as `sheet_to_json` produces it. */
  datatype Row = Row(month: Token, amount: Amount)

  /** The uploaded file, as far as the handler can make sense of it. */
  datatype Upload =
    | NoFile                   // the request carries no `file` field
    | Unreadable               // moving or decoding the workbook throws
    | Sheet(rows: seq<Row>)    // the first sheet's rows, in sheet order

  /** Where the database, if at all, refuses a statement of the upload. */
  datatype Fault =
    | NoFault
    | ConnectFails           // getConnection or beginTransaction
    | DeleteFails
    | InsertFails(row: nat)  // the INSERT for the row at this position
    | CommitFails

  datatype StorageStep = Connect | Delete | Insert(row: nat) | Commit

  datatype UploadError =
    | NoFileUploaded                // answered with status 400
    | DecodeFailed
    | BadMonth(cause: MonthError)
    | StorageFailed(step: StorageStep)

  datatype Response = Stored | Failed(error: UploadError)

  /** The table after the request, and what the client is told. */
  datatype Outcome = Outcome(table: Table, response: Response)

  predicate AllMonthsValid(rows: seq<Row>) {
    forall i :: 0 <= i < |rows| ==> Normalize(rows[i].month).Success?
  }

  /** The records a valid sheet stands for: one per row, in row order, with
      the row's normalised month and its amount as it stands. */
  function NewRecords(user: string, year: int, rows: seq<Row>): (rs: seq<Record>)
    requires AllMonthsValid(rows)
    ensures |rs| == |rows|
  {
    seq(|rows|, i requires 0 <= i < |rows| =>
      Record(user, year, Normalize(rows[i].month).value, rows[i].amount))
  }

  /** Whether the fault strikes a statement the upload of n rows issues. */
  predicate Strikes(fault: Fault, n: nat) {
    match fault
    case NoFault => false
    case InsertFails(row) => row < n
    case _ => true
  }

  /** The insert loop (routes/api.js:45-74) on the open transaction's working
      table; rows[0] is row `first` of the sheet. */
  function InsertRows(work: Table, user: string, year: int, rows: seq<Row>, first: nat, fault: Fault)
    : (r: Result<Table, UploadError>)
    ensures r.Success? <==>
      AllMonthsValid(rows) && !(fault.InsertFails? && first <= fault.row < first + |rows|)
    ensures r.Success? ==> r.value == work + NewRecords(user, year, rows)
    decreases |rows|
  {
    if |rows| == 0 then Success(work)
    else
      match Normalize(rows[0].month)
      case Failure(e) => Failure(BadMonth(e))
      case Success(month) =>
        if fault == InsertFails(first) then Failure(StorageFailed(Insert(first)))
        else
          var r := InsertRows(work + [Record(user, year, month, rows[0].amount)], user, year, rows[1..], first + 1, fault);
          ValidTail(rows);
          if r.Success? then
            NewRecordsCons(user, year, rows);
            r
          else r
  }

  /** The first row's month being valid, the sheet is valid exactly when the
      rest of it is. */
  lemma ValidTail(rows: seq<Row>)
    requires |rows| > 0 && Normalize(rows[0].month).Success?
    ensures AllMonthsValid(rows) <==> AllMonthsValid(rows[1..])
  {
    assert forall i :: 0 < i < |rows| ==> rows[i] == rows[1..][i - 1];
  }

  /** The records of a sheet are its first row's record, then the rest's. */
  lemma NewRecordsCons(user: string, year: int, rows: seq<Row>)
    requires |rows| > 0 && AllMonthsValid(rows)
    ensures AllMonthsValid(rows[1..])
    ensures NewRecords(user, year, rows) ==
      [Record(user, year, Normalize(rows[0].month).value, rows[0].amount)] + NewRecords(user, year, rows[1..])
  {
    ValidTail(rows);
    var all, rest := NewRecords(user, year, rows), NewRecords(user, year, rows[1..]);
    var joined := [Record(user, year, Normalize(rows[0].month).value, rows[0].amount)] + rest;
    assert |all| == |joined|;
    forall i | 0 < i < |all|
      ensures all[i] == joined[i]
    {
      NewRecordsShift(user, year, rows, i);
    }
    assert all[0] == joined[0];
    assert all == joined;
  }

  /** Record i of a sheet is record i - 1 of the sheet without its first row. */
  lemma NewRecordsShift(user: string, year: int, rows: seq<Row>, i: int)
    requires 0 < i < |rows| && AllMonthsValid(rows) && AllMonthsValid(rows[1..])
    ensures NewRecords(user, year, rows)[i] == NewRecords(user, year, rows[1..])[i - 1]
  {
    assert rows[1..][i - 1] == rows[i];
  }

  /** The statements between beginTransaction and commit: delete the
      partition, insert the rows, commit. */
  function RunTransaction(t: Table, user: string, year: int, rows: seq<Row>, fault: Fault)
    : (r: Result<Table, UploadError>)
    ensures fault == DeleteFails ==> r == Failure(StorageFailed(Delete))
    ensures r.Success? <==>
      AllMonthsValid(rows) && fault != DeleteFails && fault != CommitFails
      && !(fault.InsertFails? && fault.row < |rows|)
    ensures r.Success? ==> r.value == Purge(t, user, year) + NewRecords(user, year, rows)
    ensures fault == CommitFails && AllMonthsValid(rows) ==> r == Failure(StorageFailed(Commit))
  {
    if fault == DeleteFails then Failure(StorageFailed(Delete))
    else
      var work :- InsertRows(Purge(t, user, year), user, year, rows, 0, fault);
      if fault == CommitFails then Failure(StorageFailed(Commit)) else Success(work)
  }

  /** The transactional replace of routes/api.js:33-89: on an error up to
      and including the commit the transaction rolls back and the table is as
      before the call. Failures after the commit (deleting the uploaded file)
      are not modelled. */
  function ReplacePartition(t: Table, user: string, year: int, rows: seq<Row>, fault: Fault): (o: Outcome)
    ensures o.response.Failed? ==> o.table == t
    ensures o.response.Stored? <==> AllMonthsValid(rows) && !Strikes(fault, |rows|)
    ensures o.response.Stored? ==> o.table == Purge(t, user, year) + NewRecords(user, year, rows)
  {
    if fault == ConnectFails then Outcome(t, Failed(StorageFailed(Connect)))
    else
      match RunTransaction(t, user, year, rows, fault)
      case Success(committed) => Outcome(committed, Stored)
      case Failure(e) => Outcome(t, Failed(e))
  }

  /** The whole POST handler of routes/api.js:14-94, up to the commit. */
  function HandleUpload(t: Table, user: string, year: int, upload: Upload, fault: Fault): (o: Outcome)
    ensures upload.NoFile? ==> o == Outcome(t, Failed(NoFileUploaded))
    ensures upload.Unreadable? ==> o == Outcome(t, Failed(DecodeFailed))
    ensures o.response.Failed? ==> o.table == t
    ensures o.response.Stored? <==>
      upload.Sheet? && AllMonthsValid(upload.rows) && !Strikes(fault, |upload.rows|)
    ensures o.response.Stored? ==>
      o.table == Purge(t, user, year) + NewRecords(user, year, upload.rows)
  {
    match upload
    case NoFile => Outcome(t, Failed(NoFileUploaded))
    case Unreadable => Outcome(t, Failed(DecodeFailed))
    case Sheet(rows) => ReplacePartition(t, user, year, rows, fault)
  }

  /** `SELECT * ... WHERE user_id = ? AND year = ? ORDER BY month`. SQL does
      not order rows of equal month; the model returns them in table order. */
  function Query(t: Table, user: string, year: int): (rs: seq<Record>)
    ensures SortedByMonth(rs)
    ensures multiset(rs) == multiset(Partition(t, user, year))
    ensures forall r :: r in rs <==> r in t && InPartition(r, user, year)
  {
    var rs := SortByMonth(Partition(t, user, year));
    assert forall r :: r in rs <==> r in multiset(Partition(t, user, year));
    rs
  }

  /** After a successful upload the partition holds exactly the sheet's
      records, one per row, in row order; duplicate months are all kept. */
  lemma UploadReplacesPartition(t: Table, user: string, year: int, rows: seq<Row>, fault: Fault)
    requires ReplacePartition(t, user, year, rows, fault).response.Stored?
    ensures Partition(ReplacePartition(t, user, year, rows, fault).table, user, year)
      == NewRecords(user, year, rows)
  {
    var added := NewRecords(user, year, rows);
    var kept := Purge(t, user, year);
    PartitionAppend(kept, added, user, year);
    WithinPartition(added, user, year);
    PurgeEmptiesPartition(t, user, year);
  }

  /** An upload touches no partition but its own, whether it succeeds or not. */
  lemma OtherPartitionsUntouched(t: Table, user: string, year: int, rows: seq<Row>, fault: Fault,
                                 user': string, year': int)
    requires user != user' || year != year'
    ensures Partition(ReplacePartition(t, user, year, rows, fault).table, user', year')
      == Partition(t, user', year')
  {
    var o := ReplacePartition(t, user, year, rows, fault);
    if o.response.Stored? {
      var added := NewRecords(user, year, rows);
      PartitionAppend(Purge(t, user, year), added, user', year');
      PurgeKeepsOthers(t, user, year, user', year');
      NothingOfOthers(added, user, year, user', year');
    }
  }

  /** Uploading the same sheet again changes nothing: the partition is
      purged before the rows go in. Whatever the database does the second
      time, the table stays as the first upload left it, and the second
      upload is stored exactly when no statement of it fails. */
  lemma UploadIdempotent(t: Table, user: string, year: int, rows: seq<Row>, fault: Fault, fault': Fault)
    requires ReplacePartition(t, user, year, rows, fault).response.Stored?
    ensures ReplacePartition(ReplacePartition(t, user, year, rows, fault).table, user, year, rows, fault').table
      == ReplacePartition(t, user, year, rows, fault).table
    ensures ReplacePartition(ReplacePartition(t, user, year, rows, fault).table, user, year, rows, fault').response.Stored?
      <==> !Strikes(fault', |rows|)
  {
    var o1 := ReplacePartition(t, user, year, rows, fault);
    var added := NewRecords(user, year, rows);
    var kept := Purge(t, user, year);
    assert o1.table == kept + added;
    PurgeAppend(kept, added, user, year);
    PurgeIdempotent(t, user, year);
    WithinPartition(added, user, year);
    assert Purge(kept + added, user, year) == kept;
    var o2 := ReplacePartition(kept + added, user, year, rows, fault');
    if o2.response.Stored? {
      assert o2.table == kept + added;
    }
  }

  /** The insert loop stops at the first row whose month does not normalise,
      unless the database refused an earlier insert. */
  lemma {:induction false} InsertRowsStopsAtBadMonth(work: Table, user: string, year: int, rows: seq<Row>,
                                                     first: nat, fault: Fault, i: nat)
    requires i < |rows|
    requires forall j :: 0 <= j < i ==> Normalize(rows[j].month).Success?
    requires Normalize(rows[i].month).Failure?
    requires !(fault.InsertFails? && first <= fault.row < first + i)
    ensures InsertRows(work, user, year, rows, first, fault)
      == Failure(BadMonth(Normalize(rows[i].month).error))
    decreases i
  {
    if i > 0 {
      var month := Normalize(rows[0].month).value;
      var work' := work + [Record(user, year, month, rows[0].amount)];
      InsertRowsStopsAtBadMonth(work', user, year, rows[1..], first + 1, fault, i - 1);
    }
  }

  /** A sheet with an unknown month name fails with that name and leaves the
      table exactly as it was. */
  lemma BadMonthReported(t: Table, user: string, year: int, rows: seq<Row>, fault: Fault, i: nat)
    requires i < |rows|
    requires forall j :: 0 <= j < i ==> Normalize(rows[j].month).Success?
    requires Normalize(rows[i].month).Failure?
    requires fault != ConnectFails && fault != DeleteFails
    requires !(fault.InsertFails? && fault.row < i)
    ensures ReplacePartition(t, user, year, rows, fault)
      == Outcome(t, Failed(BadMonth(Normalize(rows[i].month).error)))
  {
    InsertRowsStopsAtBadMonth(Purge(t, user, year), user, year, rows, 0, fault, i);
  }

  /** What the page reads back after a successful upload: the sheet's
      records, ordered by month. */
  lemma QueryAfterUpload(t: Table, user: string, year: int, rows: seq<Row>, fault: Fault)
    requires ReplacePartition(t, user, year, rows, fault).response.Stored?
    ensures SortedByMonth(Query(ReplacePartition(t, user, year, rows, fault).table, user, year))
    ensures multiset(Query(ReplacePartition(t, user, year, rows, fault).table, user, year))
      == multiset(NewRecords(user, year, rows))
  {
    UploadReplacesPartition(t, user, year, rows, fault);
  }

  /** Rows for March then January come back January first. */
  lemma QueryOrdersByMonth(t: Table, user: string, year: int)
    ensures
      var rows := [Row(Num(3), Cents(15025)), Row(Num(1), Cents(10050))];
      var o := ReplacePartition(t, user, year, rows, NoFault);
      o.response.Stored? &&
      Query(o.table, user, year) == [Record(user, year, 1, Cents(10050)), Record(user, year, 3, Cents(15025))]
  {
    var rows := [Row(Num(3), Cents(15025)), Row(Num(1), Cents(10050))];
    var march := Record(user, year, 3, Cents(15025));
    var january := Record(user, year, 1, Cents(10050));
    assert AllMonthsValid(rows);
    var o := ReplacePartition(t, user, year, rows, NoFault);
    assert o.response.Stored?;
    UploadReplacesPartition(t, user, year, rows, NoFault);
    assert NewRecords(user, year, rows) == [march, january];
    SortSwapsPair(march, january);
  }
}
