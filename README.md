# Face-match attendance, modelled in Dafny

This project models the core of a face-recognition attendance system with
an Express/MongoDB backend and a React frontend. A teacher registers
students and enrols each one's face as a 128-number descriptor. Attendance
is then marked for a day in one of two ways: by student id, or by sending
a live descriptor that the server matches against the enrolled students.
Marks can be read back as a daily summary or as a per-student range
report.

The model covers these parts:

- **`Embedding`**: the Euclidean distance between descriptors, with
  non-numeric entries counted as 0 and a non-array argument giving
  Infinity. It also holds the "first strict minimum" predicates that both
  nearest-match scans satisfy.
- **`FaceService`**: the browser's `calculateDistance` and `findBestMatch`.
- **`AttendanceModel`**: the attendance record and its unique
  (student, day) index.
- **`AttendanceController`**: the attendance ledger, `markAttendance`
  with its manual and face branches, and `deleteAttendance`.
- **`AttendanceReports`**: the read side, `getAttendanceByDate` and
  `getReport`.
- **`StudentModel`**: the student document, `trim`, and the unique roll
  number.
- **`StudentController`**: the student collection, `createStudent`,
  `enrollFace`, `deleteStudent`, and the list queries.
- **`UseDebounce`**: the per-key throttle `shouldRun`.
- **`EnrollPage`**: the Enroll page's capture list, its averaging of
  descriptors, and its two buttons.
- **`Dashboard`**: the present/absent split.
- **`StudentsPage`**: the Students page's search, counts, delete
  update, and query parameters.
- **Shared modules**: `Options`, `Seqs` (filter and sublists), `Strings`
  (code-point order, ASCII lower-casing, `includes`) and `Sorting` (a
  stable sort by a string key).

Some source operations change things in place. These are classes whose
methods state the new state:

- the student collection (`StudentStore`);
- the attendance ledger (`AttendanceLedger`);
- the throttle's map (`Throttle`);
- the Enroll page's state (`EnrollForm`).

The loops of the source are methods with loop invariants:

- `euclideanDistance` and `calculateDistance` are proved equal to the
  specification function `Embedding.Distance`;
- the best-match scans are proved to return the candidate the
  `Embedding.IsFirstArgmin` predicate describes;
- the mean-descriptor loops, which work on an array, are proved equal to
  the specification function `EnrollPage.Mean`.

The reports, the page derivations and the schema rules are pure functions.

Distances are kept squared. Every comparison the source makes is a
distance against another distance, or against a non-negative threshold,
and the square root keeps the order of non-negative numbers. So comparing
squares gives the same answers; `Embedding.SquaredOrderAgrees` and
`Embedding.SquaredThresholdAgrees` prove this. Numbers are reals.

The server's clock, the request's date and time, the threshold from the
environment, the outcome of the image write, and the server's answers
seen by the pages are all parameters.

When both `studentId` and an array `faceEmbedding` are sent, line 43 of
backend/controllers/attendanceController.js runs the face branch and
ignores the id; `AttendanceController.FaceWinsOverStudentId` states this.

## Model

| member | source | states |
|---|---|---|
| Embedding.Overlap | backend/controllers/attendanceController.js:19 | the compared length is the smaller of the two lengths |
| Embedding.DistanceNonnegative | backend/controllers/attendanceController.js:13-27 | the distance is infinite exactly when either argument is not an array; a finite distance is never negative |
| Embedding.DistanceSymmetric | backend/controllers/attendanceController.js:18-24 | d(a, b) = d(b, a) |
| Embedding.DistanceToSelf | backend/controllers/attendanceController.js:18-24 | d(a, a) = 0 |
| Embedding.DistanceZeroIff | frontend/src/services/faceService.js:123-131 | the distance is 0 exactly when the coerced entries agree on every compared position |
| Embedding.DistanceIgnoresExtraEntries | frontend/src/services/faceService.js:124-129 | entries past the shorter argument's length never change the distance |
| Embedding.SumSqZeroIff | frontend/src/services/faceService.js:126-129 | a partial sum of squared differences is 0 exactly when every coerced pair so far agrees |
| Embedding.SquaredOrderAgrees | backend/controllers/attendanceController.js:108 | for non-negative x and y, x² < y² exactly when x < y, so `distance < bestMatch.distance` may be decided on squares |
| Embedding.SquaredThresholdAgrees | backend/controllers/attendanceController.js:120 | for a non-negative threshold t, x² > t² exactly when x > t |
| Embedding.MatchConfidence | backend/controllers/attendanceController.js:112 | `max(0, 1 - d/2)` lies in [0, 1]; it is 1 exactly at distance 0 and 0 exactly from distance 2 |
| Embedding.ConfidenceDecreasing | backend/controllers/attendanceController.js:112 | a larger distance never scores higher |
| Embedding.FirstArgminUnique | backend/controllers/attendanceController.js:101-115 | at most one candidate is the first strict minimum, so the scan's choice is determined |
| Embedding.FirstArgminExists | backend/controllers/attendanceController.js:101-115 | either some eligible candidate is the first minimum, or no eligible candidate is at a finite distance |
| FaceService.CalculateDistance | frontend/src/services/faceService.js:118-132 | the loop computes the specified squared distance, or Infinity for a non-array argument |
| FaceService.FindBestMatch | frontend/src/services/faceService.js:141-175 | a returned match is the first nearest candidate with a usable embedding, at its distance, within the threshold (0.48 when not given); when null is returned, the list is not an array or the first nearest candidate, if there is one, is farther than the threshold |
| AttendanceModel.NewRecord | backend/models/Attendance.js:4-34 | a created record keeps the given student, day, time and confidence; status defaults to Present and source to manual |
| AttendanceModel.ParseStatus | backend/models/Attendance.js:18-22 | an accepted status is the one its stored name spells |
| AttendanceModel.ParseStatusIff | backend/models/Attendance.js:18-22 | the enum accepts a string exactly when it is `Present`, `Absent` or `Leave`, and then as that status |
| AttendanceModel.OnePerDayAtMostOne | backend/models/Attendance.js:36-37 | under the unique index, a (student, day) pair names at most one record |
| AttendanceModel.AppendKeepsOnePerDay | backend/models/Attendance.js:36-37 | adding a record for an unmarked (student, day) keeps the index satisfied |
| AttendanceModel.RemoveKeepsOnePerDay | backend/models/Attendance.js:36-37 | removing any record keeps the index satisfied |
| AttendanceController.EuclideanDistance | backend/controllers/attendanceController.js:13-27 | the accumulation loop computes the specified squared distance, or Infinity for a non-array argument |
| AttendanceController.Enrolled | backend/controllers/attendanceController.js:82-85 | the scanned students are exactly the enrolled students with a non-empty embedding, in collection order |
| AttendanceController.ScanBestMatch | backend/controllers/attendanceController.js:94-115 | the `forEach` keeps the first strictly nearest student with a non-empty embedding and its distance; it keeps nobody, at distance Infinity, only when no such student is at a finite distance |
| AttendanceController.ScanFindsSomeone | backend/controllers/attendanceController.js:101-115 | with an array probe and at least one enrolled student, some student is at a finite distance, so a best match exists |
| AttendanceController.BranchOf | backend/controllers/attendanceController.js:43-78 | the manual case runs exactly when a student id is sent without an embedding; the face case runs exactly when the embedding is an array; anything else is the 400 at lines 170-173 |
| AttendanceController.FaceWinsOverStudentId | backend/controllers/attendanceController.js:43 | a request with both a student id and an array embedding is matched by face and the id is ignored |
| AttendanceController.AppendKeepsLedgerInvariant | backend/models/Attendance.js:36-37 | appending a record with a fresh id for an unmarked (student, day) keeps the ledger's invariant: one record per (student, day), unique ids below the next id |
| AttendanceController.AttendanceLedger.Append | backend/controllers/attendanceController.js:147-154 | `Attendance.create` appends exactly one record, built with the schema defaults, and keeps the invariant |
| AttendanceController.RequestedStatus | backend/controllers/attendanceController.js:37 | the status sent, or `Present` when the field is absent |
| AttendanceController.AttendanceLedger.MarkManual | backend/controllers/attendanceController.js:43-75 | unknown student gives 404, then an existing record for the day gives 400, then a status the enum rejects makes `Attendance.create` fail; none of these writes; otherwise one `manual` record with that status and without confidence is appended |
| AttendanceController.AttendanceLedger.MarkFaceAsWritten | backend/controllers/attendanceController.js:78-167 | the face branch as written, for any array probe: no enrolled students gives 404; otherwise the first nearest enrolled student decides, being rejected with its distance when farther than the threshold (equality accepted), refused when already marked, refused when the enum rejects the status, and otherwise marked `auto-face` with the match distance as `confidence`; failures write nothing |
| AttendanceController.AttendanceLedger.MarkFace | backend/controllers/attendanceController.js:78-126 | the corrected face branch: a probe that is not 128 entries long is refused without writing; a full probe is decided as in `MarkFaceAsWritten` |
| AttendanceController.AttendanceLedger.MarkBest | backend/controllers/attendanceController.js:118-154 | once the scan has chosen the first nearest student, this is the threshold test, then the duplicate check, then the enum check of `Attendance.create`, then the `auto-face` record |
| AttendanceController.AttendanceLedger.MarkAttendance | backend/controllers/attendanceController.js:35-177 | `markAttendance` as written: dispatches on `BranchOf` with the status defaulted to `Present`; the manual case is decided as in `MarkManual`, and any array probe as in `MarkFaceAsWritten`; no branch gives 400; errors leave the ledger unchanged; a success appends exactly one record, for a (student, day) that was unmarked, and keeps the one-per-day invariant |
| AttendanceController.AttendanceLedger.MarkAttendanceCorrected | backend/controllers/attendanceController.js:35-177 | the same dispatch with the corrected face branch `MarkFace`: a probe that is not 128 entries long is refused without writing |
| AttendanceController.AttendanceLedger.DeleteAttendance | backend/controllers/attendanceController.js:313-325 | removes the record with that id and reports found, or reports not found and changes nothing; the invariant is kept |
| AttendanceController.EmptyProbeMatchesFirstEnrolled | backend/controllers/attendanceController.js:78-126 | with an empty probe array, every enrolled student is at distance 0, the first one is the best match, and no non-negative threshold rejects it |
| AttendanceController.EmptyProbeMarksFirstEnrolled | backend/controllers/attendanceController.js:78-154 | so the as-written face branch marks the first enrolled student for an empty probe, at distance 0, unless that student is already marked or the status fails the enum |
| AttendanceReports.StatusesPartition | backend/models/Attendance.js:18-22 | every record is exactly one of Present, Absent and Leave: the three counts add up to the number of records |
| AttendanceReports.OnDate | backend/controllers/attendanceController.js:190 | the day's records are exactly the stored records with that date, in stored order |
| AttendanceReports.GetAttendanceByDate | backend/controllers/attendanceController.js:190-200 | `totalMarked` counts the day's records, `presentCount` and `absentCount` its Present and Absent ones; present plus absent plus leave equals the total, so present plus absent never exceeds it |
| AttendanceReports.SummaryAfterAppend | backend/controllers/attendanceController.js:194-200 | marking one more record on the day raises the total by one, and raises the present count (absent count) by one exactly when the record is present (absent); a record for another day changes no count |
| AttendanceReports.Matched | backend/controllers/attendanceController.js:217-230 | the `$match` keeps exactly the records in the inclusive string range and with the requested student |
| AttendanceReports.GroupIds | backend/controllers/attendanceController.js:231-243 | the group keys are exactly the students with a matched record, each once |
| AttendanceReports.Percentage | backend/controllers/attendanceController.js:265-270 | present/total·100 lies in [0, 100]; it is 100 exactly when every day is present and 0 exactly when none is |
| AttendanceReports.RowFor | backend/controllers/attendanceController.js:231-272 | a group's row carries the stored student's fields, counts at least one day, present plus absent days never exceed the total, and the percentage is the present share |
| AttendanceReports.BuildRows | backend/controllers/attendanceController.js:244-272 | every row is for a group key whose student still exists, and satisfies the row bounds |
| AttendanceReports.BuildRowsComplete | backend/controllers/attendanceController.js:244-252 | every group whose student still exists gets a row (`$unwind` drops only deleted students) |
| AttendanceReports.BuildRowsAreGroups | backend/controllers/attendanceController.js:231-272 | every row is exactly the group of the stored student it names |
| AttendanceReports.BuildRowsDistinct | backend/controllers/attendanceController.js:231-252 | no two rows are for the same student |
| AttendanceReports.GetReport | backend/controllers/attendanceController.js:229-275 | the report is sorted by student name, has one row per student at most, and every row satisfies the row bounds |
| AttendanceReports.ReportComplete | backend/controllers/attendanceController.js:229-275 | a student has a row exactly when the student still exists and has a record passing the query |
| AttendanceReports.ReportRowCounts | backend/controllers/attendanceController.js:231-243 | a row's total, present and absent days are the numbers of its student's records passing the query: all of them, the present ones and the absent ones |
| AttendanceReports.RowForCounts | backend/controllers/attendanceController.js:232-240 | a group's counts, restated over the whole collection: the student's passing records, and their present and absent subsets |
| Strings.LexLeTotal | backend/controllers/attendanceController.js:274 | any two strings are comparable under code-point order |
| Strings.LexLeTransitive | backend/controllers/attendanceController.js:219-221 | code-point order is transitive, so the date range is an interval |
| Strings.LexLeReflexive | backend/controllers/attendanceController.js:219-221 | every date lies within its own range `[d, d]` |
| Strings.Lower | frontend/src/pages/Students.jsx:56-57 | the model's lower-casing keeps the length and maps each character on its own (ASCII letters only) |
| Sorting.SortBy | backend/controllers/studentController.js:63 | `.sort({ name: 1 })` gives an ascending permutation of its input |
| Sorting.SortByMembers | backend/controllers/studentController.js:63 | sorting keeps exactly the same elements |
| Sorting.SortByKeepsDistinct | backend/controllers/attendanceController.js:274 | sorting never makes two elements share a key that was unique |
| Seqs.FilterComplementLength | frontend/src/pages/Students.jsx:95-101 | a filter and its complement split a list's length |
| StudentModel.Trim | backend/models/Student.js:5-15 | `trim` never lengthens, and leaves a string that neither starts nor ends with white space |
| StudentModel.TrimIsSliceBetweenSpaces | backend/models/Student.js:5-15 | what `trim` leaves is a slice of the input with only white space around it |
| StudentModel.TrimIdempotent | backend/models/Student.js:5-15 | trimming twice is trimming once |
| StudentModel.TrimmedIsFixed | backend/models/Student.js:5-15 | a string without leading or trailing white space is left unchanged |
| StudentModel.NewStudent | backend/models/Student.js:4-43 | a created student has the given id, trimmed name and roll number, and the given class; image `''`, no embeddings, not enrolled, no enrolment time; it is well formed when both trimmed fields are non-empty |
| StudentModel.AppendKeepsUnique | backend/models/Student.js:10-15 | adding a student with an unused roll number and an id above every existing id keeps roll numbers and ids unique |
| StudentModel.FindById | backend/controllers/studentController.js:169-172 | finds the first student with that id, or reports that none has it |
| StudentModel.RemoveById | frontend/src/pages/Students.jsx:47 | exactly the students without that id remain, in order |
| StudentController.GetStudents | backend/controllers/studentController.js:45-68 | exactly the students of the class, when one is given, and with `isEnrolled` equal to (`isEnrolled === 'true'`) when the parameter is present, sorted by name, as a permutation of the matching students |
| StudentController.GetEnrolledStudents | backend/controllers/studentController.js:233-238 | exactly the enrolled students, in collection order |
| StudentController.Register | backend/controllers/studentController.js:17-32 | missing name or roll number gives MissingFields; a roll number already in use gives DuplicateRollNumber; a field that trims to nothing fails validation; otherwise the result is a new well-formed, unenrolled student under the next id, whose roll number is unused |
| StudentController.AddKeepsStoreInvariant | backend/models/Student.js:10-15 | registering a well-formed student with an unused roll number under the next id keeps the collection's invariant |
| StudentController.RemoveKeepsStoreInvariant | backend/controllers/studentController.js:122 | removing a student keeps the collection's invariant |
| StudentController.StudentStore.CreateStudent | backend/controllers/studentController.js:12-38 | answers as `Register` decides; an error leaves the collection unchanged; a success appends exactly the new student and keeps roll numbers unique |
| StudentController.StudentStore.EnrollFace | backend/controllers/studentController.js:145-226 | checks, in order, for a missing id, a missing, non-array or empty embedding, a length other than 128, and an unknown student; each error changes nothing; the call succeeds exactly when all four checks pass, whether or not the image was saved; a success replaces only that student's embedding, sets the saved image when there is one, marks the student enrolled with the given time, and reports dimension 128 |
| StudentController.StudentStore.DeleteStudent | backend/controllers/studentController.js:120-137 | removes the first student with that id and reports found, or reports not found and changes nothing; the invariant is kept |
| StudentController.RemoveAtIsRemoveById | backend/controllers/studentController.js:122 | while ids are unique, removing the found position is removing every student with that id |
| UseDebounce.Step | frontend/src/hooks/useDebounce.js:6-13 | a call runs exactly when the key has no truthy stored time or more than `ms` has passed; a run stores `now` for the key, a suppressed call stores nothing |
| UseDebounce.Throttle.ShouldRun | frontend/src/hooks/useDebounce.js:6-13 | the map is updated as `Step` says, with the window defaulting to 3000 ms, and no other key's entry changes |
| UseDebounce.FireTimesSpaced | frontend/src/hooks/useDebounce.js:8-10 | over a run of calls for one key, the first call for a new key runs, the first run comes more than `ms` after the stored time, and consecutive runs are more than `ms` apart |
| EnrollPage.Mean | frontend/src/pages/Enroll.jsx:88-99 | the template is as long as the first descriptor; component j is the running sum over the captures divided by their number |
| EnrollPage.MeanDescriptor | frontend/src/pages/Enroll.jsx:88-99 | the copy, accumulate and divide loops over the array compute `Mean` |
| EnrollPage.SumAtIsRealSum | frontend/src/pages/Enroll.jsx:91-95 | the running sum is the plain sum when every capture has component j, and NaN otherwise |
| EnrollPage.MeanComponent | frontend/src/pages/Enroll.jsx:91-99 | component j of the mean is the sum of the captures' component j divided by the number of captures |
| EnrollPage.MeanOfOne | frontend/src/pages/Enroll.jsx:88-99 | a single capture is sent unchanged |
| EnrollPage.MeanOfIdentical | frontend/src/pages/Enroll.jsx:88-99 | averaging identical captures gives back their descriptor |
| EnrollPage.LoadedStudentsAreUnenrolled | frontend/src/pages/Enroll.jsx:25-36 | the page lists exactly the students not yet enrolled, sorted by name |
| EnrollPage.EnrollForm.HandleDescriptorCaptured | frontend/src/pages/Enroll.jsx:68-70 | exactly one capture is added, at the end, and nothing else changes |
| EnrollPage.EnrollForm.HandleEnroll | frontend/src/pages/Enroll.jsx:73-123 | without a selection or without captures nothing is sent; otherwise the payload is the selected student, the mean template and the first capture's image; captures and selection are cleared only after success |
| EnrollPage.EnrollForm.HandleCreateStudent | frontend/src/pages/Enroll.jsx:39-65 | a request is made exactly when name and roll number are non-empty; a created student is appended and selected and the form cleared; otherwise nothing changes |
| Dashboard.PresentStudents | frontend/src/pages/Dashboard.jsx:44-46 | exactly the records with status Present, in record order; empty before data loads |
| Dashboard.SomeAsWritten | frontend/src/pages/Dashboard.jsx:48 | `some` reading `r.studentId._id` throws only when there is a record whose student is null, and reports true only when some record is about the student |
| Dashboard.AbsentAsWritten | frontend/src/pages/Dashboard.jsx:47-49 | the absent filter as written; before data loads it keeps every student |
| Dashboard.AbsentAsWrittenThrows | frontend/src/pages/Dashboard.jsx:47-49 | one record whose student was deleted makes the page as written throw as soon as there is a student to check |
| Dashboard.AbsentStudents | frontend/src/pages/Dashboard.jsx:47-49 | exactly the students that no record is about, in student order; all students before data loads |
| Dashboard.AbsentAgreesWithoutOrphans | frontend/src/pages/Dashboard.jsx:47-49 | when every record's student exists, the filter as written computes `AbsentStudents` |
| Dashboard.NotPresentNotAbsent | frontend/src/pages/Dashboard.jsx:44-49 | a student whose records are all Absent or Leave appears in neither list |
| Dashboard.NoDataAllAbsent | frontend/src/pages/Dashboard.jsx:44-49 | before data loads, and on a day with no records, nobody is present and everybody is absent |
| StudentsPage.FilteredStudents | frontend/src/pages/Students.jsx:55-58 | an order-preserving sublist holding exactly the students whose lower-cased name or roll number contains the lower-cased term |
| StudentsPage.EmptyTermKeepsAll | frontend/src/pages/Students.jsx:55-58 | an empty search term keeps every student |
| StudentsPage.CountsAddUp | frontend/src/pages/Students.jsx:90-102 | the enrolled count plus the pending count equals the total |
| StudentsPage.HandleDelete | frontend/src/pages/Students.jsx:47 | exactly the entries without that id remain, in order |
| StudentsPage.DeleteAgreesWithServer | frontend/src/pages/Students.jsx:42-53 | while ids are unique, the page's list after a delete equals the server's collection after `deleteStudent` |
| StudentsPage.LoadParams | frontend/src/pages/Students.jsx:22-30 | 'enrolled' sends `isEnrolled=true`, 'notEnrolled' sends `false`, 'all' sends no parameter; the search term is sent exactly when it is non-empty |
| StudentsPage.LoadedListFollowsFilter | frontend/src/pages/Students.jsx:19-33 | with no search term, the server returns the enrolled students, the unenrolled ones, or everyone, following the select |

## Left out

- `Math.sqrt`: distances are squared reals. The `confidence` stored on a face record is therefore the squared match distance, and `Embedding.MatchConfidence` is stated of the distance itself.
- Floating-point rounding, `float32` descriptors, and mongoose casting of `[Number]` are not modelled: numbers are exact reals. JSON turns NaN into null in transit; that is not modelled either.
- `$round` of the percentage and the `avgConfidence` average in `getReport`: the model states the unrounded percentage and carries no average.
- The regular-expression `search` of `getStudents`; `updateStudent`; `getStudent`; and `getAttendanceById`, which is a plain lookup.
- `formatDate`, `getCurrentTime`, `Date.now` and `new Date()`: dates and times arrive already formatted, and the clock is a parameter. Cast errors from malformed ObjectIds (which go to the error handler) are not modelled; ids are naturals.
- `process.env` parsing of the threshold: the threshold is a non-negative parameter. A negative threshold is not modelled.
- A `status` sent as `null`: the request's status is either absent or a string. The HTTP code the error handler gives to a failed `Attendance.create` or a failed validation is not modelled, because the error handler is not part of this model.
- The image write in `enrollFace` and the directory removal in `deleteStudent`: whether the image was saved is a parameter of `EnrollFace`.
- Concurrency: the check-then-create in `markAttendance` and `createStudent` runs sequentially in the model. The unique indexes are invariants of the collections rather than a database-side rejection.
- The `time: -1` order of `getAttendanceByDate`: the day's records keep stored order.
- The order of students with equal names: MongoDB does not fix it, and the model sorts stably, which is one of the orders it may return.
- Strings.Lower: the model lower-cases the ASCII letters only; `toLowerCase` also folds the rest of Unicode and can change a string's length, which the search in the Students page then sees.
- `createStudent` checks the duplicate roll number after `trim`, as the schema's setter applies to the query.
- The reload after a successful enrolment (`loadStudents` at line 116 of the Enroll page), and the toasts and loading flags.
- The Dashboard table reads `record.studentId.name` at line 107 and fails on the same orphaned records as the absent filter. Only the filter is modelled.
- Express, the routes and the server, the database connection, the seed script, face-api.js model loading and detection, the camera, and the purely presentational pages and components.

## Findings

| source | as written | input that shows it | evidently intended | confidence | as-written member | corrected member |
|---|---|---|---|---|---|---|
| backend/controllers/attendanceController.js:78-126 | the face branch accepts any array as the probe, and the distance compares only the common prefix | `faceEmbedding: []` with at least one enrolled student: every distance is 0, so the first enrolled student is marked present whatever the threshold | refuse a probe that is not a 128-entry descriptor, as `enrollFace` does for the stored side | not executed | AttendanceController.EmptyProbeMarksFirstEnrolled | AttendanceController.AttendanceLedger.MarkFace |
| frontend/src/pages/Dashboard.jsx:47-49 | `r.studentId._id` is read for every record, but `deleteStudent` leaves the student's attendance behind, so after a delete the populated `studentId` is null | a day with one record of a deleted student and one student in the list: the filter throws a TypeError | skip records whose student no longer exists (`r.studentId?._id`) | not executed | Dashboard.AbsentAsWrittenThrows | Dashboard.AbsentStudents |
