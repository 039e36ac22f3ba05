# Face-attendance front end: a Dafny model of its decision logic

The front end of a face-scan class-attendance system. It is a React application
for a Thai university, with pages for students, teachers and administrators.
Most of its behaviour lives in small pure computations inside the components.
This project models those computations as Dafny functions over immutable
data and proves what they guarantee:

- **Class creation from a roster sheet** (`ClassCreateModal.js`), module `Roster`:
  - it finds the course row and the teacher row;
  - it splits the course cell into a code and a name;
  - it cleans the teacher's name and collects the students from row 9 on;
  - it also covers the teacher-email field, the create button and the preview search.
- **Self-registration** (`NewRegister.js`), module `Registration`: the student-ID pattern, the honorific name pattern, the institutional email derived from the ID, and the order of the checks on submit.
- **Course and section drop-downs** (`ClassHistoryList.js`, `Summary.js`), module `CourseSelect`.
- **Newest-first sorting and ten-per-page display** (`ClassHistoryList.js`, `FaceScanHistory.js`), modules `Paging` and `History`.
- **Attendance counts per student** (`StudentListModal.js`, `Summary.js`), module `AttendanceStats`. This includes the re-keying of the server's statistics object.
- **The HTTP client wrapper** (`services/api.js`), module `ApiClient`: the Authorization header and the teacher-name normalisation.
- **The administrator's user tables** (`ManageListPage.js`), module `UserLists`.
- **The class page's check-in logic** (`ClassDetail.js`), module `ClassSession`:
  - the `datetime-local` formatter;
  - the join-request list;
  - the active-session test;
  - the guards and payload defaults of opening a check-in session.

Two shared modules supply the building blocks:

- `Text` models the JavaScript string primitives these rely on: the `\s` class, `trim`, `split(/\s+/)`, `join(' ')`, a global `replace`, `includes`, `toLowerCase`, and `String(n)`.
- `Common` holds `Option`, `Result`, the order-preserving `filter`, and `Array.from(new Set(xs))`.

Strings are sequences of code points. Timestamps are integers (milliseconds).
A JavaScript object used as a map is its list of entries in enumeration order.
Server replies, the clock and the device position are parameters. A failed
request is a distinct constructor, `None` or a `false` flag. Each handler
or effect runs as one step from its start to the moment its reply is
applied, except where a lemma shows a reply that arrives late.

## Model

| member | source | states |
|---|---|---|
| Text.Trim | src/services/api.js:20 | `trim()` leaves no whitespace at either end and never lengthens the string |
| Text.TrimPadded | src/pages/NewRegister.js:18-20 | trimming whitespace + s + whitespace, where s has no edge whitespace, gives exactly s |
| Text.TrimTwice | src/pages/NewRegister.js:18-20 | trimming is idempotent |
| Text.TrimKeepsVisible | src/services/api.js:20 | trimming removes whitespace only; every visible character stays, in order |
| Text.RemoveAll | src/components/ClassCreateModal.js:15-16 | a global literal `replace(..., '')` never lengthens the text or adds characters; deleting a one-character pattern leaves none of it |
| Text.RemoveAllAbsent | src/components/ClassCreateModal.js:15-16 | a text that does not include the pattern is left unchanged |
| Text.RemoveCharIsFilter | src/pages/NewRegister.js:27 | deleting every '-' keeps every other character, in order |
| Text.SplitWs | src/components/ClassCreateModal.js:48 | `split(/\s+/)` yields at least one piece; the pieces hold no whitespace, the inner ones are non-empty, and the first is the leading word |
| Text.SplitJoin | src/components/ClassCreateModal.js:48-50 | joining non-empty whitespace-free words with spaces and splitting again gives the words back |
| Text.Collapse | src/services/api.js:20 | `replace(/\s+/g, ' ')` leaves only ordinary single spaces, is empty only for the empty string, and keeps whether each end is whitespace |
| Text.CollapseKeepsVisible | src/services/api.js:20 | collapsing keeps all visible characters in order |
| Text.CollapseFixed | src/services/api.js:20 | an already single-spaced string is left unchanged by collapsing |
| Text.JoinSplitIsCollapse | src/services/api.js:20 | splitting on whitespace runs and joining with one space equals collapsing each run to one space |
| Text.IncludesAt | src/components/ClassCreateModal.js:40-41 | `includes` holds exactly when the pattern occurs at some position |
| Text.IncludesEmpty | src/components/ClassCreateModal.js:121-123 | every string includes the empty string |
| Text.Lower | src/components/ClassCreateModal.js:89 | `toLowerCase()` keeps the length, leaves no ASCII capital, turns each capital into the same letter in lower case, and changes nothing but capitals and the KELVIN SIGN |
| Text.LowerTwice | src/components/ClassCreateModal.js:89 | lower-casing twice is lower-casing once |
| Text.NatToString | src/pages/ClassDetail.js:28 | `String(n)` is a digit string denoting n, without a leading zero |
| Common.Filter | src/pages/ManageListPage.js:40-42 | `filter` keeps exactly the elements satisfying the predicate and is no longer than its input |
| Common.FilterAppend | src/pages/ManageListPage.js:40-42 | filtering distributes over concatenation, so relative order is kept |
| Common.FilterCommute | src/pages/ClassDetail.js:48 | two filters in either order give the same list |
| Common.FilterLength | src/pages/ManageListPage.js:40-42 | a filter's length is the number of elements satisfying it |
| Common.Dedup | src/pages/ClassHistoryList.js:32-33 | `Array.from(new Set(xs))` holds exactly the elements of xs, each once |
| Common.DedupFirstOccurrenceOrder | src/pages/ClassHistoryList.js:32-33 | the distinct elements appear in order of their first occurrence |
| Common.DedupOfDistinct | src/pages/Summary.js:29-30 | a list without duplicates is its own de-duplication |
| Common.FirstIndex | src/pages/ClassHistoryList.js:36 | the index of the first occurrence: it holds the element, and no earlier index does |
| Roster.FindRow | src/components/ClassCreateModal.js:40-41 | `rows.find`: the first row whose given column includes the marker, and none exactly when no row does |
| Roster.CourseCode | src/components/ClassCreateModal.js:48-49 | the course code is a non-empty whitespace-free word; its values are pinned by CourseHeaderRoundTrip, CourseCodeDefault and CourseCodeLeadingSpace |
| Roster.CourseName | src/components/ClassCreateModal.js:48-50 | the course name is never empty |
| Roster.CourseHeaderRoundTrip | src/components/ClassCreateModal.js:48-50 | for the cell "label code title…", the code is token 1, the name is the title joined by single spaces, and the default name applies when there is no title |
| Roster.CourseCodeDefault | src/components/ClassCreateModal.js:48-49 | a one-word cell, with or without trailing whitespace, gets the default code "000000" |
| Roster.CourseCodeLeadingSpace | src/components/ClassCreateModal.js:48-49 | a course cell with leading whitespace splits into an empty first piece, so its code is the first word of the cell |
| Roster.CleanName | src/components/ClassCreateModal.js:15-17 | the cleaned teacher name has no whitespace at either end and is no longer than the cell |
| Roster.CleanLabelledName | src/components/ClassCreateModal.js:15-17 | "ผู้สอน", whitespace, then a name without the marker, cleans to exactly that name |
| Roster.CleanNameSinglePass | src/components/ClassCreateModal.js:15-16 | the deletion is one pass: "ผู้ผู้สอนสอน" cleans to "ผู้สอน" |
| Roster.StudentsOf | src/components/ClassCreateModal.js:53-66 | a block of rows yields at most one student per row |
| Roster.CollectStudents | src/components/ClassCreateModal.js:53-66 | the student loop from row 9 computes the roster of the rows from index 9 on |
| Roster.StudentsCharacterised | src/components/ClassCreateModal.js:53-66 | a student is collected exactly when some row at index 9 or later has that ID, name and section; there are at most rows.length − 9 of them |
| Roster.StudentsOfAppend | src/components/ClassCreateModal.js:53-66 | collecting distributes over concatenation, so students stay in row order |
| Roster.StudentsOfFilled | src/components/ClassCreateModal.js:59-63 | every collected entry has a non-empty ID, name and section |
| Roster.DuplicatesKept | src/components/ClassCreateModal.js:53-66 | two identical data rows give two identical entries |
| Roster.ReadRoster | src/components/ClassCreateModal.js:40-75 | the missing-course-or-teacher alert exactly when a marker row is absent; the no-students alert exactly when both are present and no row qualifies; otherwise a preview from the first marker rows with the first student's section |
| Roster.Cleared | src/components/ClassCreateModal.js:21-27 | after a pick nothing can be created, the email is empty and unlocked, and the preview shows nothing; the file, the open flag and the search text are kept |
| Roster.ClearedForgets | src/components/ClassCreateModal.js:21-27 | nothing of an earlier pick survives: the cleared dialog depends only on the new file, the open flag and the search text, and clearing is idempotent |
| Roster.FinishPick | src/components/ClassCreateModal.js:34-85 | the part after the file is read: the unreadable alert exactly when decoding fails; an alert leaves the dialog as it is; success holds the roster read from the grid and locks a non-blank directory email |
| Roster.SelectFile | src/components/ClassCreateModal.js:20-86 | for one uninterrupted pick: the wrong-type alert exactly for a missing or non-".xlsx" name; the unreadable alert exactly when decoding fails; valid exactly when no alert; a valid dialog holds the roster read from the grid; the email is locked exactly when the directory returns a non-blank email |
| Roster.SelectThenCreate | src/components/ClassCreateModal.js:73-97 | for one uninterrupted pick: after success, creating depends on the email alone; after an alert, it is refused |
| Roster.SelectedRosterPosted | src/components/ClassCreateModal.js:73-102 | after a successful pick with a known teacher, creating posts the picked file, the directory email and the first student's section |
| Roster.StaleReadValidatesWrongFile | src/components/ClassCreateModal.js:20-81 | the awaits are unguarded: a `.xlsx` read that completes after a wrong-type pick was alerted makes the dialog valid with the rejected file selected, and creation possible |
| Roster.EmailChange | src/components/ClassCreateModal.js:88-94 | only the email changes; text made of allowed characters and capitals is stored lower-cased, allowed text exactly as typed; any other character refuses the whole keystroke |
| Roster.TypableLowered | src/components/ClassCreateModal.js:89-91 | the lower-cased value passes `[a-z0-9@.]` exactly when every typed character is allowed, a capital or the KELVIN SIGN |
| Roster.EmailChangeKeepsText | src/components/ClassCreateModal.js:88-94 | typing can never put a character outside [a-z0-9@.] into the field |
| Roster.EmailChangeStable | src/components/ClassCreateModal.js:88-94 | a stored value is accepted again unchanged |
| Roster.EmailChangeFoldsCapitals | src/components/ClassCreateModal.js:89 | capitals are folded, not refused |
| Roster.CreateRequest | src/components/ClassCreateModal.js:96-102 | a missing file, an unread roster or an empty email refuse; otherwise the form carries the file, the preview's section and the email without edge whitespace, which is the typed address itself |
| Roster.AfterCreate | src/components/ClassCreateModal.js:104-118 | success closes the dialog and resets it exactly as picking no file would, so it cannot create again; failure leaves it unchanged |
| Roster.FilteredStudents | src/components/ClassCreateModal.js:121-123 | the preview keeps exactly the students whose ID or name includes the search text; order and multiplicity are pinned by FilteredStudentsAppend and FilteredStudentsOne |
| Roster.FilteredStudentsAppend | src/components/ClassCreateModal.js:121-123 | searching two parts of a roster gives the first part's matches followed by the second's, so matches keep roster order |
| Roster.FilteredStudentsOne | src/components/ClassCreateModal.js:121-123 | a single student is shown, once, exactly when its ID or name includes the search text |
| Roster.EmptySearchShowsAll | src/components/ClassCreateModal.js:121-123 | an empty search shows the whole roster in order |
| Registration.ValidIdShape | src/pages/NewRegister.js:22-23 | the ID pattern holds exactly for 16 characters with '-' at 2, 9 and 14 and digits elsewhere |
| Registration.ValidNameOneSpace | src/pages/NewRegister.js:24 | a valid name has exactly one whitespace character, and it is an ordinary space |
| Registration.HonorificNamePasses | src/pages/NewRegister.js:24 | honorific + given name + " " + family name always passes |
| Registration.NameExamples | src/pages/NewRegister.js:24 | a name without an honorific, without a family name, or with a space after "นาย" fails |
| Registration.MissWithSpacePasses | src/pages/NewRegister.js:24 | by backtracking into "นาง", "นางสาว สมศรี" passes |
| Registration.StrippedId | src/pages/NewRegister.js:27 | the stripped ID holds no '-' |
| Registration.ExpectedEmail | src/pages/NewRegister.js:27-28 | the expected email starts with "s", ends with the institutional domain and holds no '-'; for a valid ID it is 33 characters whose characters 1 to 13, re-hyphenated, give the ID back |
| Registration.StrippedValidId | src/pages/NewRegister.js:27-28 | for a valid ID the stripped part is 13 digits, and re-inserting the hyphens gives the ID back |
| Registration.ExpectedEmailInjective | src/pages/NewRegister.js:27-29 | two valid IDs with the same expected email are equal |
| Registration.Submit | src/pages/NewRegister.js:18-56 | the ID error exactly when the ID fails; the name error exactly when only the name fails; the email error, with the expected address, exactly when only the email fails; otherwise the trimmed form is posted |
| Registration.PostedFormIsWellFormed | src/pages/NewRegister.js:35-56 | anything posted has a 16-character ID, a name with one space, and a 33-character email spelling the ID's digits |
| CourseSelect.Codes | src/pages/ClassHistoryList.js:33 | one code per class, and a code is listed exactly when some class has it |
| CourseSelect.FirstOfCourse | src/pages/ClassHistoryList.js:36 | `find`: a class of that course with no earlier class of the course |
| CourseSelect.CourseOptions | src/pages/ClassHistoryList.js:32-37 | one option per distinct code, each labelled after the first class of its course, no code twice |
| CourseSelect.CourseOptionsCover | src/pages/Summary.js:29-34 | every class's course code has an option |
| CourseSelect.CourseOptionsFirstSeenOrder | src/pages/ClassHistoryList.js:32-34 | options follow the order in which the codes first appear |
| CourseSelect.DistinctCodesOptions | src/pages/Summary.js:29-34 | distinct codes give one option per class, in class order |
| CourseSelect.SectionOptions | src/pages/ClassHistoryList.js:39-44 | one section option per class of the selected course, each standing for such a class with its "ตอน " label |
| CourseSelect.SectionOptionsAppend | src/pages/ClassHistoryList.js:39-44 | the options of two lists joined are the options of the first followed by those of the second, so the options keep the order of the class list |
| CourseSelect.SectionOptionsOne | src/pages/Summary.js:36-41 | a single class yields exactly its own "ตอน " option when it belongs to the selected course, and nothing otherwise |
| CourseSelect.SectionOptionsExactly | src/pages/Summary.js:36-41 | a class has a section option exactly when it belongs to the selected course |
| CourseSelect.EveryClassReachable | src/pages/Summary.js:29-41 | every class can be chosen through its course option and then its section option |
| Paging.InsertAt | src/pages/ClassHistoryList.js:74 | the insertion point lies after every record at least as new and before every older one |
| Paging.InsertSorted | src/pages/ClassHistoryList.js:74 | inserting at that point keeps the list newest first |
| Paging.Insert | src/pages/ClassHistoryList.js:74 | inserting keeps the list newest first and adds exactly one record |
| Paging.SortDesc | src/pages/ClassHistoryList.js:74 | the sort with `b - a` gives a newest-first permutation of the input |
| Paging.SortDescStable | src/components/FaceScanHistory.js:13-17 | for every timestamp, the records with that timestamp keep their input order |
| Paging.SortDescOfSorted | src/components/FaceScanHistory.js:13-17 | an already newest-first list is left as it is |
| Paging.InsertFilteredSame | src/pages/ClassHistoryList.js:74 | an inserted record comes after the records with its own timestamp |
| Paging.InsertFilteredOther | src/pages/ClassHistoryList.js:74 | inserting leaves the records of other timestamps as they were |
| Paging.TotalPages | src/pages/ClassHistoryList.js:88 | `Math.ceil(n / 10)`: the pages hold n records, one page fewer would not, and there are no pages exactly when n = 0 |
| Paging.SliceBound | src/components/FaceScanHistory.js:24 | a `slice` bound within the list is kept, a negative one counts back from the end, and one beyond either end stops at that end |
| Paging.Slice | src/components/FaceScanHistory.js:24 | `slice` always yields adjacent elements of the list; with non-negative bounds, the elements from start to end clipped to the list; nothing when the bounds cross |
| Paging.Page | src/pages/ClassHistoryList.js:89-90 | a page holds at most ten records; from page 1 on it is the records from (p−1)·10 to p·10, clipped to the list |
| Paging.PagesPrefix | src/pages/ClassHistoryList.js:88-90 | pages 1 to c together are the first 10·c records |
| Paging.PagesCoverAll | src/pages/ClassHistoryList.js:88-90 | pages 1 to totalPages concatenate to the whole list |
| Paging.PageNonEmpty | src/components/FaceScanHistory.js:23-24 | a page from 1 on has records exactly when it is at most totalPages |
| Paging.AfterClick | src/components/FaceScanHistory.js:62-78 | a click moves at most one page, "previous" never forward and "next" never back; "previous" is inert exactly on page 1, "next" exactly on the page equal to totalPages |
| Paging.ClicksStayInRange | src/pages/ClassHistoryList.js:195-213 | with at least one page, clicking keeps the page within 1..totalPages |
| History.StatusTone | src/pages/ClassHistoryList.js:165-171 | green exactly for "Present", amber exactly for "Late", red for anything else |
| History.ChooseCourse | src/pages/ClassHistoryList.js:102-106 | a course change forgets the section, empties the table and hides the page buttons; the page number is kept |
| History.KeepDay | src/pages/ClassHistoryList.js:57-72 | a record is kept exactly when it was fetched and, with a chosen day, falls on that day; without a day nothing is dropped |
| History.RecordsArrived | src/pages/ClassHistoryList.js:55-80 | the reply handler shows day-filtered records newest first from page 1, nothing from page 1 for a non-array body, nothing with the page kept on failure, and never consults the chosen section |
| History.LoadSection | src/pages/ClassHistoryList.js:46-86 | no section or a failed request shows nothing and keeps the page; a non-array body shows nothing from page 1; records are shown day-filtered, newest first, as a permutation, from page 1 |
| History.LoadedRecordsFaithful | src/pages/ClassHistoryList.js:57-76 | a record is shown exactly when fetched and on the chosen day; equal timestamps keep server order |
| History.Shown | src/pages/ClassHistoryList.js:89-90 | the table shows at most ten records, all of them loaded ones |
| History.FreshLoadShowsNewest | src/pages/ClassHistoryList.js:74-90 | right after a load the table shows the ten newest records, none older than any record after it |
| History.StaleRecordsAfterCourseChange | src/pages/ClassHistoryList.js:46-106 | a reply that arrives after a course change fills the table while no section is chosen |
| History.OrDash | src/components/FaceScanHistory.js:41-49 | a cell is never blank: it shows the value or a dash, and never hides a present, non-empty value |
| History.ScanRowNames | src/components/FaceScanHistory.js:41-49 | the student and class columns are never blank |
| History.DashMeansMissing | src/components/FaceScanHistory.js:41-49 | a dash means the name is missing, empty or itself "-" |
| History.ScansLoaded | src/components/FaceScanHistory.js:10-21 | a reply gives a newest-first permutation of the logs; a failure changes nothing; the page is kept |
| History.CurrentScans | src/components/FaceScanHistory.js:24 | at most ten rows; an empty page from 1 on lies beyond the last page |
| History.ClickNext | src/components/FaceScanHistory.js:74-78 | "next" moves at most one page on, is inert exactly when disabled, and keeps a page within 1..totalPages there |
| History.EmptyHistoryNextLeavesRange | src/components/FaceScanHistory.js:76 | with no history "next" stays enabled on page 1 and leads to page 2 of 0, which shows nothing |
| History.ClickNextCorrected | src/components/FaceScanHistory.js:76 | the corrected "next" moves at most one page on, never past the last page, and always when a later page exists |
| History.CorrectedNextStaysInRange | src/components/FaceScanHistory.js:76 | with the corrected condition the page stays in 1..max(1, totalPages), and a non-empty history always shows rows |
| AttendanceStats.NormalizeKey | src/components/StudentListModal.js:19 | a normalised key holds no '-' and is no longer than the raw key |
| AttendanceStats.NormalizeKeyNotIdempotent | src/components/StudentListModal.js:19 | "- 1" normalises to " 1", which normalises again to "1" |
| AttendanceStats.NormalizeKeyStable | src/components/StudentListModal.js:19 | a normalised key with no edge whitespace is unchanged by a second pass |
| AttendanceStats.NormalizeValidId | src/components/StudentListModal.js:42 | a valid hyphenated ID and its 13-digit form normalise to the same key |
| AttendanceStats.Lookup | src/components/StudentListModal.js:43 | a lookup finds a value exactly when the key is present, and the value is stored under that key |
| AttendanceStats.NormalizeSummary | src/components/StudentListModal.js:17-21 | entries keep their place and value; no key gains a '-' or grows; a trimmed, hyphen-free key is kept as it is |
| AttendanceStats.NormalizedKeys | src/components/StudentListModal.js:17-21 | a key is present afterwards exactly when some original key normalises to it, and it holds no '-' |
| AttendanceStats.LastEntryWins | src/components/StudentListModal.js:20 | the last assignment to a key decides the lookup |
| AttendanceStats.LaterEntryWins | src/components/StudentListModal.js:18-21 | of several keys that normalise alike, the later entry's value is kept |
| AttendanceStats.RawKey | src/components/StudentListModal.js:42 | the lookup key is one of the member's two names, the ID taking priority; it is empty exactly when both are missing or empty |
| AttendanceStats.ModalPresent | src/components/StudentListModal.js:42-56 | the count is 0 without an entry under the student's normalised key, and that entry's `present` otherwise |
| AttendanceStats.EmptyIdFallsBack | src/components/StudentListModal.js:42-43 | a student with an empty ID is looked up under the username, like one without an ID |
| AttendanceStats.ModalMatchesEitherSpelling | src/components/StudentListModal.js:19-43 | a hyphenated ID on the list finds the count filed under the plain ID |
| AttendanceStats.ModalStats | src/components/StudentListModal.js:9-31 | hidden, without a class id, or without students, nothing is fetched and the statistics stay; a failure empties them; a reply is re-keyed entry by entry: each key becomes the original key trimmed and then stripped of every hyphen, and each value is kept |
| AttendanceStats.ModalStatsHyphenFree | src/components/StudentListModal.js:17-23 | the modal's object never gains a key containing '-' |
| AttendanceStats.SummaryPresent | src/pages/Summary.js:132-134 | the count is 0 without an entry under the trimmed key, and that entry's `present` otherwise |
| AttendanceStats.SummaryKeepsHyphens | src/pages/Summary.js:132-134 | the summary page does not remove hyphens: a hyphenated ID misses a count filed under the plain ID |
| AttendanceStats.ChooseCourse | src/pages/Summary.js:93-97 | a course change leaves no section chosen, no students, no statistics request to follow, and no key with a count |
| AttendanceStats.StudentsLoaded | src/pages/Summary.js:44-61 | only the students change; without a section nothing changes; students are shown exactly when the reply holds a non-empty list, and are then that list |
| AttendanceStats.StatsLoaded | src/pages/Summary.js:64-81 | only the statistics change, and only after a request; then every student shows the count the reply holds for it, and 0 when the request failed |
| AttendanceStats.StudentsFailureStopsStats | src/pages/Summary.js:44-81 | when the students cannot be loaded no statistics are requested, and the page stays as the failure left it |
| AttendanceStats.CourseChangeForgetsCounts | src/pages/Summary.js:93-97 | after a course change nothing is fetched and every student counts 0 |
| ApiClient.WithAuthorization | src/services/api.js:9-12 | Authorization is "Bearer " + token exactly when a non-empty token is stored; otherwise the headers are untouched; other headers are always kept |
| ApiClient.NormalizeName | src/services/api.js:20 | the normalised name has no edge whitespace, and its whitespace is single ordinary spaces |
| ApiClient.NormalizeNameIdempotent | src/services/api.js:20 | normalising twice equals normalising once |
| ApiClient.NormalizeNameKeepsVisible | src/services/api.js:20 | every non-whitespace character survives, in order |
| ApiClient.NormalizeNameIsWords | src/services/api.js:20 | the normalised name is the name's words joined by single spaces |
| ApiClient.TeacherEmail | src/services/api.js:22-26 | the result is non-empty exactly when the reply carries a non-empty email, and is then that email; a failure gives "" |
| UserLists.Partition | src/pages/ManageListPage.js:40-42 | each table holds exactly the users with its role; order and multiplicity are pinned by PartitionAppend and PartitionOne |
| UserLists.PartitionAppend | src/pages/ManageListPage.js:40-42 | the tables of two parts of the reply are, table by table, the first part's followed by the second's, so each table keeps the reply's order |
| UserLists.PartitionOne | src/pages/ManageListPage.js:40-42 | a single user lands once in the table of its role and in no other |
| UserLists.PartitionDisjoint | src/pages/ManageListPage.js:40-42 | the tables share no user, and a user with another role is in none |
| UserLists.PartitionSizes | src/pages/ManageListPage.js:40-42 | the three tables plus the users with other roles account for every user |
| UserLists.PartitionBounded | src/pages/ManageListPage.js:40-42 | together the tables hold at most as many users as the reply |
| UserLists.UsersLoaded | src/pages/ManageListPage.js:34-48 | success replaces the tables; failure keeps them and sets an error message |
| UserLists.ClassesOf | src/pages/ManageListPage.js:74-76 | the dialog lists exactly the user's class names, and is empty exactly for a user without class names or with none |
| ClassSession.Pad | src/pages/ClassDetail.js:28 | `padStart(2, "0")` gives a digit string denoting n, at least two long, exactly two below 100, with a leading zero below 10 |
| ClassSession.FormatRoundTrip | src/pages/ClassDetail.js:26-30 | an ordinary date formats to the YYYY-MM-DDTHH:MM shape, and reading it back gives the fields with the month counted from 1 |
| ClassSession.Assemble | src/pages/ClassDetail.js:29 | digit fields of widths 4, 2, 2, 2, 2 with the separators form a `datetime-local` value whose fields read back unchanged |
| ClassSession.RequestsFor | src/pages/ClassDetail.js:48 | the requests shown are exactly those whose class object id or class id is this class |
| ClassSession.RequestsForAppend | src/pages/ClassDetail.js:48 | the requests shown keep the order the server sent them in |
| ClassSession.WithoutRequest | src/pages/ClassDetail.js:193-201 | after a successful request, the filter removes exactly the requests with that id, and the count drops by their number |
| ClassSession.WithoutRequestAppend | src/pages/ClassDetail.js:193-201 | removing a request keeps the remaining requests in their order |
| ClassSession.AfterDecision | src/pages/ClassDetail.js:189-203 | approving or rejecting drops the requests with that id only when the request succeeds; a failed request throws before the filter and leaves the list as it was |
| ClassSession.WithoutRequestKeepsOthers | src/pages/ClassDetail.js:193-201 | removal commutes with the class filter and is idempotent |
| ClassSession.ActiveSession | src/pages/ClassDetail.js:55-69 | a session is kept exactly when the reply has one with status "active"; otherwise, including on error, there is none |
| ClassSession.RadiusOrDefault | src/pages/ClassDetail.js:153 | the radius is never zero; a given non-zero radius is kept, and 50 is the only value that can stand for anything else |
| ClassSession.Coordinates | src/pages/ClassDetail.js:123-136 | coordinates are missing exactly when the device position is needed and not obtained; with a map preview the stored ones are used, otherwise both device coordinates |
| ClassSession.PreviewIgnoresDevice | src/pages/ClassDetail.js:126-136 | with a map preview the device position is never consulted |
| ClassSession.OpenSession | src/pages/ClassDetail.js:103-158 | each outcome exactly when its guard is the first to fail: a missing time, an unscanned required face, a failed check, a session still open, no position, a zero or missing coordinate; the request is sent exactly when all pass, with non-zero coordinates and the given times |
| ClassSession.OpenPayloadDefaults | src/pages/ClassDetail.js:123-154 | the payload carries the face flag only when set; 50 m when the radius is missing or 0, the given radius otherwise; the given place name or ""; the stored coordinates with a map preview and the device position without one |
| ClassSession.ZeroLatitudeRefused | src/pages/ClassDetail.js:138-141 | a zero latitude counts as missing and stops the request |
| ClassSession.FaceBeforeServer | src/pages/ClassDetail.js:108-111 | the face requirement is decided before the server or the position is consulted |

## Left out

- Network I/O: axios requests, the multipart upload, and the registration post. Every reply is a parameter, and a failure is a distinct constructor, `None` or a `false` flag.
- Spreadsheet decoding (`XLSX.read`, `sheet_to_json`). The model starts from the grid of cells, and every cell is text or blank. Numeric cells are not modelled:
  - a number in a marker column makes `includes` throw, which ends in the unreadable-file alert;
  - a non-zero number in the ID, name or section column is truthy, so the loop collects it; a numeric ID then makes `s.studentId.includes(filter)` (ClassCreateModal.js:122) throw while the preview renders.
- Camera, face recognition, Haversine distance, geolocation, the two-second expiry interval, `window.location.reload`, and `sessionStorage`. The device position, the clock and the token are parameters.
- Locale and time-zone formatting (`toLocaleDateString`, `toLocaleString`, `new Date(...)` parsing):
  - timestamps are integers;
  - the day filter of the history page is a predicate parameter;
  - `formatDatetimeLocal` starts from the `Date` getters' results.
- JavaScript strings count UTF-16 code units; the model counts code points. The patterns modelled only compare characters, so the two readings agree.
- Interleaved asynchronous steps. No handler or effect guards against a newer user action while it awaits a reply. The model applies each pick, load or request as one step, so `Roster.SelectFile`, `Roster.SelectThenCreate`, `History.LoadSection` and the `AttendanceStats` loaders hold for one uninterrupted step. Two lemmas show what a late reply does: `Roster.StaleReadValidatesWrongFile` and `History.StaleRecordsAfterCourseChange`. Not modelled:
  - a teacher lookup of an earlier pick that completes after a newer pick, and so locks the earlier teacher's email (ClassCreateModal.js:77-80);
  - late student or statistics replies on the summary page (Summary.js:44-81).
- `NaN` and non-numeric `scan_time` values in the sort comparator.
- The response handling after the open-session request (`response.data.session` or a re-fetch) and `updateField`. Both are state plumbing with no decision of their own.
- `Text.Trim`: its contract states only that no edge whitespace is left and that the length does not grow. The full characterisation is `Text.TrimPadded`: for whitespace a and b and a middle s without edge whitespace, a + s + b trims to s. This lemma form avoids slice equalities over quantified whitespace runs, which the solver handles poorly.
- `AttendanceStats.NormalizeKey`: the key normalisation `trim()` then `replace(/-/g, "")` is **not** idempotent. Deleting a hyphen can expose whitespace that the earlier trim did not see. `AttendanceStats.NormalizeKeyNotIdempotent` shows this on "- 1". The model therefore proves the true, weaker property `AttendanceStats.NormalizeKeyStable`, and idempotence for every well-formed student ID (`AttendanceStats.NormalizeValidId`).
- `Text.Lower`: `toLowerCase()` is exact only on ASCII capitals and the KELVIN SIGN (U+212A, lower case `k`). These are the only characters whose lower case can land in `[a-z0-9@.]`. Other characters are kept as they are, which decides the email filter the same way.
- JSX rendering, React effects, and the loading and error flags.
- `Roster.EmailChange` does not model `disabled={emailLocked}` on the email input (ClassCreateModal.js:146). The browser blocks typing into a locked field, so a directory email cannot be overwritten in the page. The model accepts the keystroke whatever the lock, because the lock lives in the rendered input and not in the handler.

## Findings

| source | as written | input that shows it | evidently intended | confidence | as-written member | corrected member |
|---|---|---|---|---|---|---|
| src/components/FaceScanHistory.js:76 | "next" is disabled only when `page === totalPages` | empty history: totalPages is 0, so on page 1 "next" is enabled and leads to page 2 of 0 | "next" disabled from the last page on, and with no pages at all (`page >= totalPages`) | not executed | History.EmptyHistoryNextLeavesRange | History.CorrectedNextStaysInRange |
