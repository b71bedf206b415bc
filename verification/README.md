# NIC micro-services in Dafny

This project models the part of the NIC micro-services that holds logic. The services validate and store Sri Lankan National Identity Card (NIC) numbers.

- **NIC parser** (`nic_parser.dfy`, with `dates.dfy` for the part of `java.time.LocalDate` it uses and `digits.dfy` for the digit values that `Integer.parseInt` and the client's `parseInt` share). It accepts the old layout (nine digits and `V` or `X`) and the new layout (twelve digits). From the number it derives the date of birth, the gender and the age.
- **CSV ingestion** (`nic_ingest.dfy`). `processCSV` trims, parses and saves every line of one file. Each line ends up among the inserted records or among the skipped numbers. The record table only grows.
- **Four-file upload** (`nic_upload.dfy`). `uploadFiles` checks the file count, processes the files in order, concatenates their lists and counts the files that failed.
- **Accounts** (`accounts.dfy`). `registerUser` runs its two ordered duplicate checks; `login`, `logout` and `resetPassword` work on the users table. BCrypt's `encode` and `matches` and the JWT generator are functions the services are given.
- **JWT filter** (`jwt_filter.dfy`). Public paths are recognised by prefix. The token is extracted from a `Bearer ` header. The calls the filter makes are returned as a trace.
- **Client pages**:
  - the upload page's state (`upload_page.dfy`);
  - the session gate around protected views, with the token writes of the login page and the navigation bar's logout (`session.dfy`);
  - the past-records page's pagination, page-size parsing, fetch and PDF rows (`past_records.dfy`).

`LocalDate.now()` is the parameter `today`. Each repository is a class whose table is a sequence field. A failing `save` is the repository's `rejects` function. A failing read of an upload stream is the file's `readFails` flag. Answers the client awaits (upload, fetch) and the browser's stored token are parameters of the handlers.

On the client, the upload page checks only that exactly four files are selected (`NICUploadPage.jsx`, line 15); the file input's `accept=".csv"` is only a hint to the browser's file picker. A successful reply is stored as received, with `records || []` as the table's rows (line 23).

### Notes on the source

- The controller calls `processCSV(file)` with one argument, while the service takes `(file, username)`. The model passes the user as a parameter.
- `resetPassword` calls `findByUsernameAndEmail`, which the repository interface does not declare. It is modelled as the first user matching both fields.

## Model

Paths are relative to the repository root.

| member | source | states |
|---|---|---|
| NicParser.Trim | nic-validation-service/src/main/java/com/mobiOS/nic_validation_service/util/NICParser.java:13 | `trim` removes exactly the characters up to U+0020 at both ends. The result is a contiguous middle part whose ends are not blank. |
| NicParser.TrimIdempotent | nic-validation-service/src/main/java/com/mobiOS/nic_validation_service/service/NICValidationService.java:34-38 | Trimming the already trimmed line again, as `extractDOB` does, changes nothing. |
| NicParser.ToUpper | nic-validation-service/src/main/java/com/mobiOS/nic_validation_service/util/NICParser.java:13 | Upper-casing keeps the length and maps each character independently; only `a`-`z` change. |
| NicParser.Fields | nic-validation-service/src/main/java/com/mobiOS/nic_validation_service/util/NICParser.java:18-28 | A number is accepted iff it matches `\d{9}[VX]` or `\d{12}`. Old layout: year is 1900 plus digits 0-1 and the day is digits 2-4. New layout: year is digits 0-3 and the day is digits 4-6. |
| NicParser.ParseDigitsPositions | nic-validation-service/src/main/java/com/mobiOS/nic_validation_service/util/NICParser.java:20-25 | `Integer.parseInt` of two, three or four digits is their positional value. |
| NicParser.ExtractDOB | nic-validation-service/src/main/java/com/mobiOS/nic_validation_service/util/NICParser.java:8-44 | Every extracted date of birth is a valid calendar date. |
| NicParser.ExtractDobAcceptance | nic-validation-service/src/main/java/com/mobiOS/nic_validation_service/util/NICParser.java:9-43 | `null` throws "NIC is null" and a number in neither layout throws the format error. Extraction succeeds iff: the number is in a layout; its year is in 1900..today's year; its raw day, less 500 when above 500, is a day of that year. That rules out raw days 0, 367..500, above 866, and 366 or 866 in a common year. |
| NicParser.ExtractDobDate | nic-validation-service/src/main/java/com/mobiOS/nic_validation_service/util/NICParser.java:39-43 | The date lies in the coded year. Its day of year is the raw day, less 500 when above 500. |
| NicParser.ExtractGender | nic-validation-service/src/main/java/com/mobiOS/nic_validation_service/util/NICParser.java:46-62 | `extractGender` never throws. It returns one of "Male", "Female" and "Unknown". |
| NicParser.ExtractGenderCases | nic-validation-service/src/main/java/com/mobiOS/nic_validation_service/util/NICParser.java:47-61 | "Unknown" iff the number is null or in neither layout. "Female" iff the raw day is above 500. |
| NicParser.GenderKnownWhenDobExtracted | nic-validation-service/src/main/java/com/mobiOS/nic_validation_service/util/NICParser.java:18-61 | Whenever `extractDOB` succeeds, the gender of the same number is not "Unknown". It is "Female" exactly when the raw day is the birthday's day of year plus 500. |
| NicParser.CalculateAge | nic-validation-service/src/main/java/com/mobiOS/nic_validation_service/util/NICParser.java:64-70 | Age 0 for a birth date after today. Otherwise the age is never negative and is the number of whole years: the age-th anniversary is not after today and the next one is. |
| Dates.IsAfterByDayOfYear | nic-validation-service/src/main/java/com/mobiOS/nic_validation_service/util/NICParser.java:66 | `LocalDate.isAfter` between valid dates holds iff the first date has a later year, or the same year and a later day of year. |
| Dates.PeriodYears | nic-validation-service/src/main/java/com/mobiOS/nic_validation_service/util/NICParser.java:69 | `Period.between(start, end).getYears()` is the whole months of `LocalDate.until` divided by twelve, truncating. From a valid date to a later or equal one, that is the year difference, less one when end's month and day come before start's. |
| Dates.WholeYears | nic-validation-service/src/main/java/com/mobiOS/nic_validation_service/util/NICParser.java:69 | From a valid date to a later or equal one, the whole months `LocalDate.until` counts, divided by twelve with Java's truncation, are the year difference, less one when end's month and day come before start's. |
| NicParser.OldFormatExample | nic-validation-service/src/main/java/com/mobiOS/nic_validation_service/util/NICParser.java:19-21 | The sample number 823456789V gives 11 December 1982 and "Male". |
| Dates.OfYearDay | nic-validation-service/src/main/java/com/mobiOS/nic_validation_service/util/NICParser.java:43 | `LocalDate.ofYearDay(y, d)` yields a date iff d is in 1..length of year y. That date is valid, in year y, with day of year d. |
| Dates.OfYearDayOfDayOfYear | nic-validation-service/src/main/java/com/mobiOS/nic_validation_service/util/NICParser.java:43 | `ofYearDay` inverts `getDayOfYear`: every valid date is rebuilt from its year and day of year. |
| Dates.DayOfYear | nic-validation-service/src/main/java/com/mobiOS/nic_validation_service/util/NICParser.java:43 | The day of year of a valid date lies in 1..length of its year. |
| Dates.JavaDiv | nic-validation-service/src/main/java/com/mobiOS/nic_validation_service/util/NICParser.java:69 | Java's integer division truncates toward zero, unlike Dafny's on negative numbers. |
| NicIngest.NicRecordRepository.Save | nic-validation-service/src/main/java/com/mobiOS/nic_validation_service/service/NICValidationService.java:55 | `save` appends the record exactly when it does not throw, and changes nothing otherwise. |
| NicIngest.NicValidationService.ReadLine | nic-validation-service/src/main/java/com/mobiOS/nic_validation_service/service/NICValidationService.java:34-61 | One pass of the read loop yields the line's specified outcome. The table gains exactly the inserted record, if any. |
| NicIngest.NicValidationService.ProcessCsv | nic-validation-service/src/main/java/com/mobiOS/nic_validation_service/service/NICValidationService.java:25-73 | The result is the two lists of the lines read, or the file's error when reading fails. The table gains exactly the inserted records, in order, even when reading fails afterwards. |
| NicIngest.CsvOutcome | nic-validation-service/src/main/java/com/mobiOS/nic_validation_service/service/NICValidationService.java:65-72 | `processCSV` throws iff the stream fails, with an error naming the file; otherwise it returns the two lists. |
| NicIngest.IngestSizes | nic-validation-service/src/main/java/com/mobiOS/nic_validation_service/service/NICValidationService.java:33-62 | \|inserted\| + \|skipped\| is the number of lines read. |
| NicIngest.PartitionSizes | nic-validation-service/src/main/java/com/mobiOS/nic_validation_service/service/NICValidationService.java:56-60 | Each line's outcome goes to exactly one of the two lists. |
| NicIngest.IngestPartitionsLines | nic-validation-service/src/main/java/com/mobiOS/nic_validation_service/service/NICValidationService.java:34-60 | As a multiset, the inserted numbers plus the skipped numbers are exactly the trimmed lines, duplicates included. |
| NicIngest.PartitionNumbers | nic-validation-service/src/main/java/com/mobiOS/nic_validation_service/service/NICValidationService.java:56-60 | As a multiset, the two lists' numbers are the numbers of all outcomes. |
| NicIngest.StepNumbers | nic-validation-service/src/main/java/com/mobiOS/nic_validation_service/service/NICValidationService.java:34-60 | Whichever list a line goes to, the number it contributes is the trimmed line. It is not upper-cased. |
| NicIngest.IngestAppend | nic-validation-service/src/main/java/com/mobiOS/nic_validation_service/service/NICValidationService.java:56-60 | Reading a + b gives the lists of a followed by those of b, so both lists keep file order. |
| NicIngest.PartitionAppend | nic-validation-service/src/main/java/com/mobiOS/nic_validation_service/service/NICValidationService.java:56-60 | Splitting outcomes a + b gives the lists of a followed by those of b. |
| NicIngest.PartitionMembers | nic-validation-service/src/main/java/com/mobiOS/nic_validation_service/service/NICValidationService.java:56-60 | Every listed record or number comes from an outcome of that kind. |
| NicIngest.IngestExplained | nic-validation-service/src/main/java/com/mobiOS/nic_validation_service/service/NICValidationService.java:34-61 | Each inserted record has these fields: the trimmed line as its number; the parser's birthday, age and gender ("Male" or "Female") for it; the file's original name; today; the caller's user name. Every skipped number is a trimmed line that fails to parse or whose record `save` refuses. |
| NicIngest.ProcessLineExplained | nic-validation-service/src/main/java/com/mobiOS/nic_validation_service/service/NICValidationService.java:37-61 | The same two facts for one line. |
| NicIngest.InsertedLine | nic-validation-service/src/main/java/com/mobiOS/nic_validation_service/service/NICValidationService.java:38-56 | An inserted line's record is built from its own parse, file, day and user, and `save` accepts it. |
| NicIngest.SkippedLine | nic-validation-service/src/main/java/com/mobiOS/nic_validation_service/service/NICValidationService.java:59-61 | A skipped line is listed as its trimmed text, and it failed to parse or to save. |
| NicIngest.BlankLineSkipped | nic-validation-service/src/main/java/com/mobiOS/nic_validation_service/service/NICValidationService.java:34-60 | A blank line is skipped and listed as "". |
| NicIngest.DuplicateInsertedTwice | nic-validation-service/src/main/java/com/mobiOS/nic_validation_service/service/NICValidationService.java:33-56 | A number on two lines is inserted twice: no duplicate check is made. |
| NicUpload.NicValidationController.UploadFiles | nic-validation-service/src/main/java/com/mobiOS/nic_validation_service/controller/NICValidationController.java:21-55 | With a number of files other than 4: bad request, status "error", the fixed message, and no row saved. With 4 files: status "success", `filesProcessed` 4, and the accumulated lists, counts and `fileErrors` of the per-file results in order. The table gains every file's saved rows in file order. |
| NicUpload.AggregateCountsFailures | nic-validation-service/src/main/java/com/mobiOS/nic_validation_service/controller/NICValidationController.java:32-48 | `fileErrors` is the number of files whose processing threw, and 0 <= `fileErrors` <= number of files. |
| NicUpload.NoFailures | nic-validation-service/src/main/java/com/mobiOS/nic_validation_service/controller/NICValidationController.java:39-42 | `fileErrors` is 0 iff every file was processed. |
| NicUpload.AggregateAppend | nic-validation-service/src/main/java/com/mobiOS/nic_validation_service/controller/NICValidationController.java:34-43 | `records` and `skippedNICs` are the per-file lists concatenated in file order, and the error counts add up. |
| NicUpload.FailedFileAddsNothing | nic-validation-service/src/main/java/com/mobiOS/nic_validation_service/controller/NICValidationController.java:39-42 | A file whose processing throws adds nothing to either list and one to `fileErrors`. |
| NicUpload.AggregateSizes | nic-validation-service/src/main/java/com/mobiOS/nic_validation_service/controller/NICValidationController.java:34-50 | `inserted` + `skipped` is the number of lines of the files read to their end. |
| NicUpload.AggregateSizesBy | nic-validation-service/src/main/java/com/mobiOS/nic_validation_service/controller/NICValidationController.java:34-50 | The accumulated lists are as long as the per-file lists together. |
| NicUpload.PersistedWhenNoErrors | nic-validation-service/src/main/java/com/mobiOS/nic_validation_service/controller/NICValidationController.java:34-52 | When no file fails, `records` is exactly the rows the table gained, in order. |
| NicUpload.AggregateRecordsBy | nic-validation-service/src/main/java/com/mobiOS/nic_validation_service/controller/NICValidationController.java:34-38 | When every file succeeds, the accumulated records are the per-file inserted lists concatenated. |
| Accounts.FindBy | user-service/src/main/java/com/mobios/userservice/repository/UserRepository.java:9-10 | `findByUsername` and `findByEmail` find a user iff some row holds the value in that field, and the user found holds it. |
| Accounts.IndexByUsernameAndEmail | user-service/src/main/java/com/mobios/userservice/service/AuthService.java:41 | `findByUsernameAndEmail` finds a row iff some row matches both fields, and the row found matches both. |
| Accounts.FoundUserIsTheOnly | user-service/src/main/java/com/mobios/userservice/service/AuthService.java:26 | In a table with unique usernames, the user found by name is the only one with that name. |
| Accounts.AppendKeepsUnique | user-service/src/main/java/com/mobios/userservice/service/UserService.java:18-29 | A user whose username and email are both new keeps usernames and emails unique. |
| Accounts.UserService.RegisterUser | user-service/src/main/java/com/mobios/userservice/service/UserService.java:18-29 | A taken username fails with "Username already exists", and the username check comes first. Otherwise a taken email fails with "Email already exists". Either way nothing is saved. On success exactly one user is appended, with the encoded password, and returned. |
| Accounts.LoginSucceedsIff | user-service/src/main/java/com/mobios/userservice/service/AuthService.java:25-34 | `login` returns a token map iff a user with that username exists and the password matches its stored hash. The map holds the single key "token", generated for the supplied username. |
| Accounts.AuthService.Login | user-service/src/main/java/com/mobios/userservice/service/AuthService.java:25-34 | The same, as a read-only function of the table: login never changes it. |
| Accounts.AuthService.Logout | user-service/src/main/java/com/mobios/userservice/service/AuthService.java:36-38 | `logout` returns the fixed message and reads no state. |
| Accounts.WithPassword | user-service/src/main/java/com/mobios/userservice/service/AuthService.java:44-46 | Resetting row k changes only row k's password; every other row and field stays. |
| Accounts.WithPasswordKeepsUnique | user-service/src/main/java/com/mobios/userservice/service/AuthService.java:44-46 | A password reset keeps usernames and emails unique. |
| Accounts.AuthService.ResetPassword | user-service/src/main/java/com/mobios/userservice/service/AuthService.java:40-51 | Returns true iff a row matches both username and email. Then only that row's password changes, to `encode(newPassword)`. Otherwise the table is unchanged. |
| Accounts.RegisteredUserCanLogIn | user-service/src/main/java/com/mobios/userservice/service/UserService.java:27-28 | With an encoder whose hashes match their passwords, a newly registered user logs in with the registration password. |
| Accounts.ResetThenLogin | user-service/src/main/java/com/mobios/userservice/service/AuthService.java:40-51 | After a successful reset, login with the new password succeeds for that username. |
| JwtFilter.BearerToken | user-service/src/main/java/com/mobios/userservice/security/JwtFilter.java:33-35 | A token is extracted iff the header is present and starts with exactly "Bearer ". The header is then "Bearer " followed by the token. |
| JwtFilter.DoFilterInternal | user-service/src/main/java/com/mobios/userservice/security/JwtFilter.java:20-43 | The chain is called exactly once, last, with the unchanged request. A public path or a missing bearer token goes straight to it. Otherwise the token is validated first, and the username is extracted iff the token is valid. A missing or invalid token never blocks. |
| JwtFilter.PublicByPrefix | user-service/src/main/java/com/mobios/userservice/security/JwtFilter.java:25-27 | Any path extending a public path is public too. |
| JwtFilter.BearerRoundTrip | user-service/src/main/java/com/mobios/userservice/security/JwtFilter.java:34-35 | "Bearer " + t yields the token t. |
| JwtFilter.LowerCaseBearerIgnored | user-service/src/main/java/com/mobios/userservice/security/JwtFilter.java:34 | The prefix check is case-sensitive: "bearer " + t yields no token. |
| UploadPage.ShownRecords | nic-frontend/src/pages/NICUploadPage.jsx:23 | `response.records \|\| []`: the reply's records, or none when it has none. |
| UploadPage.NicUploadPage.constructor | nic-frontend/src/pages/NICUploadPage.jsx:5-8 | The page starts with no files, no results, no reply and no error. |
| UploadPage.NicUploadPage.HandleFileChange | nic-frontend/src/pages/NICUploadPage.jsx:10-12 | The new selection replaces `files` wholesale; nothing else changes. |
| UploadPage.NicUploadPage.HandleUpload | nic-frontend/src/pages/NICUploadPage.jsx:14-30 | Only the count is checked. With a count other than 4: the count error, no call, and `results` and `responseInfo` unchanged. With 4 files the call carries the files and the stored token, present or not. Success stores the records, or [], and the reply, and clears the error. Failure sets the fixed error and keeps the earlier results and reply. The shown results always belong to the reply on display. |
| Session.ProtectedRoute | nic-frontend/src/components/ProtectedRoute.jsx:4-17 | Renders the children unchanged iff the token is present and non-empty, so null and "" both redirect. A redirect goes to "/login" with `replace` and the current location as `from`. The decision never depends on the path. |
| Session.LocalStorage.StoreLoginToken | nic-frontend/src/pages/LoginPage.jsx:29-31 | A truthy token from the login reply is stored, after which every protected view renders. Otherwise storage is unchanged. |
| Session.LocalStorage.Logout | nic-frontend/src/components/Navbar.js:51-55 | Logout removes token and username, after which every protected view redirects to "/login". |
| PastRecords.SliceBound | nic-frontend/src/pages/PastRecordsPage.jsx:85 | A `slice` bound within 0..length is kept, and one above the length becomes the length. |
| PastRecords.JsSlice | nic-frontend/src/pages/PastRecordsPage.jsx:85 | `slice(start, end)` has as many elements as the resolved end exceeds the resolved start, or none, and they are the elements from the resolved start on. With bounds within 0..length it is the plain subsequence. |
| PastRecords.Paginated | nic-frontend/src/pages/PastRecordsPage.jsx:85 | With a NaN page size nothing is shown. With a non-negative page and page size: at most a page size of rows; none past the end; otherwise the records from `page * rowsPerPage` on, as many as fit. |
| PastRecords.RecordOnItsPage | nic-frontend/src/pages/PastRecordsPage.jsx:85 | Pages cover the records: record i is row i % n of page i / n. |
| PastRecords.TrimStart | nic-frontend/src/pages/PastRecordsPage.jsx:39 | `parseInt` skips exactly the leading ECMAScript white space and line terminators: what is left is a suffix that does not start with one. |
| PastRecords.ParseInt | nic-frontend/src/pages/PastRecordsPage.jsx:39 | `parseInt(value, 10)` of a text without any digit is NaN. |
| PastRecords.ParseIntNumeral | nic-frontend/src/pages/PastRecordsPage.jsx:39 | `parseInt(value, 10)` reads back the numeral of any whole number, after any leading white space and an optional sign, whatever non-digit text follows. |
| PastRecords.PastRecordsPage.constructor | nic-frontend/src/pages/PastRecordsPage.jsx:15-17 | The page starts on page 0, ten rows a page, with no records. |
| PastRecords.PastRecordsPage.FetchRecords | nic-frontend/src/pages/PastRecordsPage.jsx:19-30 | A reply replaces the records; a failed fetch leaves them unchanged. |
| PastRecords.PastRecordsPage.HandleChangePage | nic-frontend/src/pages/PastRecordsPage.jsx:33-35 | Only the page changes; the page size stays. |
| PastRecords.PastRecordsPage.HandleChangeRowsPerPage | nic-frontend/src/pages/PastRecordsPage.jsx:38-41 | The page size becomes the parsed value, and the page resets to 0, which shows the first records. |
| PastRecords.PastRecordsPage.ExportToPdf | nic-frontend/src/pages/PastRecordsPage.jsx:59-82 | The head is the six fixed titles. The body has one row per record, in record order, each with six cells: number, birthday, age, gender, file, creation time. |

## Left out

- Logging, the HTTP status mapping of the controllers and the Spring wiring are not modelled. So are the XLSX and CSV exports, the `jsPDF` drawing and the `file-saver` download.
- The generated ids of users and records are not modelled. `createdAt` of an inserted record is `today`.
- Strings are never `null` except where the source tests for `null`: the NIC given to the parser, and the stored token and login reply token on the client.
- `NicParser.ToUpper` maps only ASCII letters. `toUpperCase` also maps other letters, but none of them becomes a digit, `V` or `X`. So acceptance and the result are the same, and the stored number is the trimmed text, which is not upper-cased.
- Splitting the stream into lines (`BufferedReader.readLine`, UTF-8 decoding) is not modelled. A file is the sequence of lines it yields and a flag saying whether reading then failed.
- `save` failing is the repository's `rejects` function of the record. Failures that depend on database state, and rollback, are not modelled: the transaction is NOT_SUPPORTED, so rows saved before a read failure stay.
- BCrypt salting is not modelled: `encode` and `matches` are functions. `RegisteredUserCanLogIn` and `ResetThenLogin` assume that `matches(p, encode(p))` holds for every p.
- `findByUsername` on a table with two rows of the same name would throw. The model keeps the table free of duplicates (`UserRepository.Valid`), so this never arises.
- `registerUser` given a user that already carries an id would update that row instead of inserting one. The model always inserts.
- The broken setter `getEmail(String)` in `User.java` (line 50) is not modelled.
- JWT signing, expiry and username extraction are functions given to the services. The filter's trace records the calls; the username it extracts is not used, just as in the source.
- The upload request's header text (`Bearer null` when no token is stored) and the axios plumbing are not modelled. The upload call carries the stored token as read.
- Asynchronous interleavings of the client handlers are not modelled. Each handler runs to completion with the awaited answer passed in.
- The navigation bar's scroll handling and the view components are not modelled.
- `PastRecords.Paginated` states sizes and contents only for a non-negative page and page size. The page-size menu offers 10, 25 and 50, and `parseInt` of those gives those numbers (`ParseIntNumeral`). For negative values the model follows `slice`'s rules, but no property is stated.
- `parseInt` is modelled for inputs whose value fits exactly. Very long digit strings, which JavaScript rounds to a double, are not modelled.
- `UploadPage.NicUploadPage.HandleUpload` models a reply without `records` as an absent field. Other falsy values (`null`, `0`, `""`) behave the same way in the source.
