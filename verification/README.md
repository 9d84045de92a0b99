# Financial data upload and display, modelled in Dafny

This project models the core of a small financial-data service. Users upload a
spreadsheet of monthly amounts for one (user, year). The server normalises each
row's month and replaces that user's records for the year inside one database
transaction. A browser page reads the records back and summarises them.

Two pieces of logic are modelled:

- **The upload and read routes** (`routes/api.js`). The month-token normaliser
  (`Months`) is modelled. So is the delete-then-insert transaction with
  rollback on any error (`Api.ReplacePartition`, `Api.HandleUpload`). So is
  the read of a partition ordered by month (`Api.Query`). The
  `financial_records` table is a sequence of `Record(user, year, month,
  amount)` (`Records`). A *partition* is the set of rows of one (user, year).
- **The page's display helpers** (`public/script.js`). These are
  `getMonthName` (`Display.GetMonthName`), the fold inside `calculateSummary`
  (`Display.CalculateSummary`), the copy-then-sort by month behind the table
  and the chart (`Ordering.SortByMonth`), and `formatZAR` (`Money`).

Modules, in dependency order:

| file | module | what it holds |
|---|---|---|
| results.dfy | `Results` | `Result` for the error paths the JavaScript throws on |
| digits.dfy | `Digits` | decimal numerals: printing and reading whole numbers |
| months.dfy | `Months` | month tokens, `toLowerCase` on ASCII, `indexOf`, the normaliser |
| records.dfy | `Records` | amounts, records, the table, partitions, `DELETE` |
| ordering.dfy | `Ordering` | the stable sort by month |
| api.dfy | `Api` | worksheet rows, storage faults, the upload transaction, the read query |
| display.dfy | `Display` | month labels, the summary fold |
| money.dfy | `Money` | `toFixed(2)` on cents and the thousands-grouping regular expression |

Abstractions:

- Amounts are whole cents (`Amount.Cents`). `NoNumber` stands for a value
  that `parseFloat` reads as NaN. The server stores the amount exactly as the
  sheet gave it.
- The spreadsheet decoder is a foreign library. Its result is an input: no
  file, an unreadable file, or the first sheet's rows in sheet order.
- The database is an input too. A `Fault` value names the one statement, if
  any, that the database refuses: connecting, the `DELETE`, the `INSERT` of a
  given row, or the commit.
- `userId` and `year` come from the URL. Both are taken as keys already in
  the form the database compares them in. Two keys name the same partition
  exactly when they are equal.

Facts about the code that the model keeps:

- The code does not range-check a numeric month. It passes 0, 13 and -1
  straight to the `INSERT` (`Months.Normalize`).
- The code inserts every row of the sheet, so duplicate months in one sheet
  are all stored (`Api.UploadReplacesPartition`).
- The code stores the amount exactly as the cell gave it. It does not parse
  it as a decimal.
- A successful upload answers with a message, not with a count of rows.

## Model

| member | source | states |
|---|---|---|
| `Months.Normalize` | routes/api.js:47-68 | A numeric cell is the month as it stands, with no range check. A text cell holding a signed decimal integer is taken as the value of that numeral. Any other text succeeds exactly when its lower-cased form is one of the twelve month names, and then gives that name's 1-based position. Otherwise it fails with `InvalidMonthName` carrying the original text. A missing cell fails (`toLowerCase` of `undefined`). |
| `Months.Lower` | routes/api.js:64 | `toLowerCase` keeps the length and lower-cases each character on its own, so texts are compared letter by letter without regard to case (ASCII letters only). |
| `Months.IndexOf` | routes/api.js:64 | `indexOf` gives the first position holding the value, or -1 exactly when the value is absent. |
| `Months.NameNormalizesIff` | routes/api.js:49-64 | For non-numeric text, the result is `k` if and only if `1 <= k <= 12` and the lower-cased text is the k-th month name. |
| `Months.CaseInsensitive` | routes/api.js:64 | Two texts equal up to letter case either both fail or normalise to the same month. |
| `Months.SignedNumeralNormalizes` | routes/api.js:47-48 | Pins `IsIntegerLiteral` and `IntegerValue`, the model of `isNaN` on text: any digit string, leading zeros included, is taken as its decimal value. A leading "+" gives the same value and a leading "-" its negation. |
| `Months.NumeralNormalizes` | routes/api.js:47-48 | A text cell holding the numeral of n (or of -n) normalises to n (or -n). |
| `Months.MarchInAnyCase` | routes/api.js:50-64 | Any text that lower-cases to "march" ("March", "MARCH", "mArCh") gives 3. |
| `Months.MisspeltNameRejected` | routes/api.js:64-67 | "Marchh" fails with an invalid-month error that names "Marchh". |
| `Records.Partition` | routes/api.js:101 | `WHERE user_id = ? AND year = ?` keeps exactly the rows of that (user, year). |
| `Records.Purge` | routes/api.js:39-42 | The `DELETE` keeps exactly the rows outside that (user, year). |
| `Records.PartitionPurgeSplit` | routes/api.js:39-42 | The `DELETE` removes exactly the partition: the partition and the kept rows together make up the table. |
| `Records.PurgeKeepsOthers` | routes/api.js:39-42 | After the `DELETE`, every other (user, year) partition is as it was, in the same order. |
| `Records.PurgeEmptiesPartition` | routes/api.js:39-42 | After the `DELETE`, nothing of the partition is left. |
| `Records.PurgeIdempotent` | routes/api.js:39-42 | Running the `DELETE` a second time changes nothing. |
| `Ordering.SortByMonth` | public/script.js:180 | The sorted copy is ordered non-decreasingly by month and is a permutation of the input. |
| `Ordering.SortIsStable` | public/script.js:200 | The sort is stable: for every month, that month's rows keep their input order. |
| `Api.InsertRows` | routes/api.js:45-74 | The insert loop succeeds exactly when every row's month normalises and no insert of these rows is refused. It then appends one record per row, in row order. |
| `Api.RunTransaction` | routes/api.js:37-77 | The statements between `beginTransaction` and `commit`, in order. A refused `DELETE` fails first. The run succeeds exactly when every month normalises and neither the `DELETE`, an `INSERT` of one of these rows nor the commit is refused, and then yields the old table without the partition followed by one new record per row. With all months valid, a refused commit fails with the commit's error. |
| `Api.ReplacePartition` | routes/api.js:33-89 | On any error up to and including the commit, the table is exactly as before the call (rollback). The call succeeds exactly when every month normalises and the database refuses no statement. On success the table is the old table without the partition, followed by one new record per row. |
| `Api.HandleUpload` | routes/api.js:14-94 | A missing file or an unreadable workbook fails before the transaction and leaves the table alone. Every failure up to and including the commit leaves the table unchanged. Success means a sheet was read, all months are valid, and no statement failed, and the table is then the old table without the partition, followed by one new record per sheet row. |
| `Api.Query` | routes/api.js:100-103 | The read returns exactly the records of that (user, year), as a permutation of the partition, sorted ascending by month. |
| `Api.UploadReplacesPartition` | routes/api.js:39-74 | After a successful upload the partition is exactly one record per sheet row, in row order. Each record has the row's normalised month and its amount. Duplicate months are kept and old months are gone. |
| `Api.OtherPartitionsUntouched` | routes/api.js:39-42 | Success or failure, an upload leaves every other (user, year) partition exactly as it was. |
| `Api.UploadIdempotent` | routes/api.js:39-74 | After a stored upload, uploading the same rows again for the same (user, year) leaves the table exactly as the first upload left it, whichever statement the database refuses the second time. The second upload is stored exactly when none of its statements fails. |
| `Api.InsertRowsStopsAtBadMonth` | routes/api.js:45-67 | The insert loop fails at the first row whose month does not normalise, with that row's error, unless an earlier insert was refused. |
| `Api.BadMonthReported` | routes/api.js:64-88 | When row i is the first row with an invalid month and no earlier statement failed, the upload fails with that row's error. The table is left exactly as it was, even though the `DELETE` had already run. |
| `Api.QueryAfterUpload` | routes/api.js:96-103 | After a successful upload, the read returns the sheet's records, sorted by month. |
| `Api.QueryOrdersByMonth` | routes/api.js:100-103 | Rows for month 3 then month 1 are read back month 1 first. |
| `Display.GetMonthName` | public/script.js:31-47 | Exactly the months 1..12 get a name. Every other number comes back unchanged, as a number. |
| `Display.MonthNameMatchesServer` | public/script.js:31-46 | The name shown for a month 1..12 lower-cases to the server's name for that month and does not read as a number. |
| `Display.DisplayNamesLower` | public/script.js:32-45 | Each name the page shows is the server's name for that month with its first letter, a lower-case letter, turned upper-case and the rest unchanged. It lower-cases back to the server's name and does not read as a number. |
| `Display.MonthNameRoundTrip` | public/script.js:32-46 | For m in 1..12, the server normalises the name the page shows for m back to m. |
| `Display.NormalizedNameShownBack` | routes/api.js:50-64 | A non-numeric name that the server normalises to k is shown by the page as the same name, up to letter case. |
| `Display.CalculateSummary` | public/script.js:131-150 | The total is the sum of the amounts, with unreadable amounts counted as 0 (`AmountValue`, the model of `parseFloat(row.amount)` with its fallback to 0). The average is total / count, and 0 for no rows. The highest amount is the maximum of 0 and all amounts. Its month is that of the first row reaching it, or "" when no amount is positive. |
| `Money.FormatZAR` | public/script.js:24-28 | An amount `parseFloat` cannot read is shown as "R 0.00". Every result starts with "R ". |
| `Money.GroupStripsBack` | public/script.js:27 | `Group`, the model of the `replace` with `/\d(?=(\d{3})+\.)/g`, only inserts commas: without commas, its output equals its input without commas. |
| `Money.GroupIsThousands` | public/script.js:27 | On a whole part, a point and decimals, the regular expression (`Group`) groups the whole part in threes counted from the right. It leaves the decimals alone. |
| `Money.FormatCents` | public/script.js:24-28 | A cent amount shows as its sign, the whole part grouped in threes, a point and two decimals. |
| `Money.Fixed2ReadsBack` | public/script.js:27 | `Fixed2`, the model of `toFixed(2)` on whole cents, writes a minus sign exactly for negative amounts; its whole part and two decimals read back as the amount's magnitude in cents. |
| `Money.FormatCentsStripped` | public/script.js:27 | With the commas removed, a formatted amount is "R " followed by exactly what `toFixed(2)` wrote. |

## Left out

- Months.Normalize: JavaScript's `isNaN` also reads some other texts as numbers. These are empty or blank text, text with surrounding spaces, fractions, exponents, hexadecimal, binary ("0b11") and octal ("0o17") literals, and "Infinity". The source passes such a cell unchanged to the `INSERT`. The model recognises only optionally signed decimal integers, so it sends these texts to the name lookup, where they fail.
- Months.Normalize: numeric cells are whole numbers. A fractional, `null` or boolean month cell is not modelled, since the record's month is an integer column.
- Months.Lower: `toLowerCase` is modelled on ASCII letters only. Other characters are left as they are.
- The spreadsheet decoder (`XLSX.readFile`, `sheet_to_json`) is a foreign library. Its output is the `Api.Upload` input. A decode failure happens before the transaction opens, which `Api.HandleUpload` states.
- File-system work: creating the uploads directory, moving the file, and deleting it after a successful upload. The source does not delete the uploaded file on the error path.
- The connection pool, `release`, a failing `rollback`, and concurrent uploads to the same partition. These concern concurrency and isolation, outside a sequential model.
- Database-side rejections (type mismatches, NULL amounts, constraints) appear only as an `InsertFails` fault at that row.
- Api.HandleUpload, Api.ReplacePartition: a failure after the commit is not modelled. The code deletes the uploaded file and answers inside the same `try` as the commit (routes/api.js:77-83). If `unlinkSync` throws there, for instance because a concurrent upload with the same file name already removed the shared path, the `rollback` comes too late: the handler answers with an error while the new partition stays stored. The model's `Failed` outcomes all restore the table.
- Api.ReplacePartition: its rollback promise covers failures up to and including the commit only; the post-commit failure in the line above reports an error with the new partition kept.
- Records.InPartition: partitions are compared by exact equality of an already-canonical (user, year) key. The database may convert or collate `user_id` (on an integer column "01" equals 1; under a case-insensitive collation "Ann" equals "ann"), so two ids the model keeps apart may name one partition there. `Records.PurgeKeepsOthers` and `Api.OtherPartitionsUntouched` hold for the canonical keys.
- HTTP status codes and JSON bodies. The model keeps only `Stored` or `Failed(error)`.
- Api.Query: SQL's `ORDER BY month` does not order rows of equal month. The contract states only sortedness and permutation. The body returns them in table order.
- Api.Query: a failing `SELECT` is not modelled. In the code (routes/api.js:105-108) it answers 500 "Error retrieving data" and changes nothing; the model's read always returns the partition.
- Ordering.SortByMonth: the page sorts a spread copy, so the array it was given is never changed. The model works on immutable sequences, where this holds trivially.
- Display.CalculateSummary: amounts are exact cents and the average is exact real division. Float summation and rounding are not modelled. Writing the four values into the page through `formatZAR` is left out, because the average is not a whole number of cents.
- Money.FormatZAR: modelled for whole-cent amounts. `parseFloat`, `toFixed` rounding of non-cent values and exponent notation for huge values are floating-point behaviour.
- The DOM, `fetch`, Chart.js, `toLocaleString`, `setTimeout`, alerts, the loader, the user-name map and the sample-data fallback of the page.
- `index.js`: the Express wiring, middleware and `listen`.
