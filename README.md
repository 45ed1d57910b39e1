# Smart Education App — a verified model of its client-side logic

This project models in Dafny the logic under the Smart Education web app's pages, and proves what that logic promises. Five parts are modelled:

- **The teacher dashboard's record store** (`Frontend/js/t-dashboard.js`). One state tree holds:
  - classes, students, timetable slots, assignments and announcements, as ordered lists;
  - attendance and attendance notes, as date → student id → value maps.

  The page handlers create, edit and delete records, cascade a student delete into the attendance maps, save the attendance table, and import students from pasted CSV text. Every successful change ends with `saveState`, which writes the whole tree to storage. The dashboard also has read-only views:
  - the filtered students table;
  - the attendance table for one date;
  - the CSV export of one date's attendance, with section 2 of RFC 4180 quoting;
  - `escapeHtml`.
- **The form validators** (`Frontend/js/validation.js`). `isNumericStr` and `isValidEmail`, the ordered error lists of the signup and login pages, the digits-only filter of the college-id input, and the choice of rule set on submit.
- **The quiz page** (`frontend/js/quiz.js`). The ten-question table and the start / question / results state machine that keeps the score.
- **The attendance page** (`frontend/js/attendance.js`). The form of student rows, the all-or-nothing submit that appends one record to the history, the newest-first history panel with its status counts, and clear-history.
- **The home-page carousel** (`frontend/js/script.js`). How many slides fit the window, the wrap-around index of the next and previous buttons and the auto-scroll timer, the dot clicks, and the redraw that shifts the track and marks the active dot.

Each mutable piece of state is a class whose methods change its fields:

- `DashboardStore.Store`
- `Quiz.QuizPage`
- `Attendance.AttendancePage`
- `Carousel.Gallery`

Each method is proved against specification functions, and the properties of those functions are proved as lemmas. The values a handler reads from the page become method parameters:

- the text typed into inputs;
- the answer of `confirm()`;
- the ids `uid()` draws;
- the clock's reading;
- the window width.

Modules and files:

| file | module | models |
|---|---|---|
| `wrappers.dfy` | `Wrappers` | `Option` (JavaScript's `undefined`/`null` where it matters) |
| `text.dfy` | `Text` | `trim`, `split`, `join`, `replace(/c/g, …)`, `toLowerCase`, `includes`, `indexOf` on strings |
| `seqs.dfy` | `Seqs` | `Array.prototype.filter` and `find` |
| `csv.dfy` | `Csv` | `downloadCSV`'s quoting and joining, and a reader for the quoted form |
| `html.dfy` | `Html` | `escapeHtml`, and the decoding of its four entities |
| `dashboard_records.dfy` | `Dashboard` | the dashboard's records and its read-only views (students table, attendance table, export, import parser) |
| `dashboard_store.dfy` | `DashboardStore` | the state store and every handler that changes it |
| `validation.dfy` | `Validation` | the login and signup checks |
| `quiz.dfy` | `Quiz` | the quiz page |
| `attendance.dfy` | `Attendance` | the attendance page |
| `carousel.dfy` | `Carousel` | the carousel |

## Model

| member | source | states |
|---|---|---|
| Text.Trim | Frontend/js/validation.js:32 | `trim()` gives the empty string exactly when the text is all whitespace, and otherwise a text that starts and ends with non-whitespace |
| Text.TrimSlice | Frontend/js/validation.js:32 | the trimmed text is the original with a blank prefix and a blank suffix removed, and nothing else |
| Text.TrimTwice | Frontend/js/t-dashboard.js:433 | trimming twice is trimming once |
| Text.TrimChars | Frontend/js/t-dashboard.js:433 | trimming keeps only characters of the original text (a trimmed line has no line break) |
| Text.Split | Frontend/js/t-dashboard.js:436 | `split(sep)` gives at least one piece, no piece holds the separator, and joining the pieces with it gives the text back |
| Text.IndexOf | Frontend/js/validation.js:35 | the first position of a character, or -1 exactly when it is absent |
| Text.LowerIdempotent | Frontend/js/t-dashboard.js:118 | `toLowerCase` leaves no capital letter, keeps every other character, and a second pass changes nothing |
| Text.IncludesAt | Frontend/js/t-dashboard.js:118-119 | `includes` holds exactly when the needle occurs at some position |
| Text.ReplaceAllAppend | Frontend/js/t-dashboard.js:528-531 | a global single-character replace works piece by piece |
| Seqs.Keep | Frontend/js/t-dashboard.js:172 | `filter` keeps exactly the elements satisfying the test, and nothing else |
| Seqs.KeepAppend | Frontend/js/t-dashboard.js:172 | filtering preserves the relative order: filtering a concatenation is concatenating the filtered parts |
| Csv.QuoteAll | Frontend/js/t-dashboard.js:76 | every cell becomes `"` + the cell with each `"` doubled + `"` |
| Csv.Lines | Frontend/js/t-dashboard.js:76 | each row becomes its quoted cells joined by `,` |
| Csv.UnquoteDoubled | Frontend/js/t-dashboard.js:76 | un-doubling the inside of a quoted field recovers the cell exactly |
| Csv.ReadLine | Frontend/js/t-dashboard.js:76 | one written row reads back as its cells, stopping at the line break |
| Csv.ReadDocument | Frontend/js/t-dashboard.js:76 | a written document (rows joined by `\n`) reads back as exactly its rows |
| Html.Encode | Frontend/js/t-dashboard.js:525-532 | the escaped text contains no raw `"`, `<` or `>` |
| Html.EscapeHtmlPerChar | Frontend/js/t-dashboard.js:527-531 | the four successive global replaces (`&` first) equal escaping each character on its own, so no `&` of an entity is escaped twice |
| Html.EscapeHtmlNoMarkup | Frontend/js/t-dashboard.js:526-531 | `null`/`undefined` give `''`, and no output has a raw `"`, `<` or `>` |
| Html.DecodeEncode | Frontend/js/t-dashboard.js:528-531 | decoding the four entities undoes the per-character escaping |
| Html.EscapeHtmlRoundTrip | Frontend/js/t-dashboard.js:525-532 | decoding the four entities of `escapeHtml(s)` gives `s` back |
| Dashboard.WithField | Frontend/js/t-dashboard.js:278 | a timetable blur writes the named field and leaves the slot's other fields, id and class unchanged |
| Dashboard.FindById | Frontend/js/t-dashboard.js:141 | `find(x => x.id === id)`: the first record with the id, or none exactly when no record has it |
| Dashboard.WithoutId | Frontend/js/t-dashboard.js:172 | a delete removes every record with the id and keeps every other record |
| Dashboard.WithoutIdAppend | Frontend/js/t-dashboard.js:288 | a delete keeps the other records in their original relative order |
| Dashboard.WithoutAbsentId | Frontend/js/t-dashboard.js:324 | deleting an id that no record has changes nothing |
| Dashboard.PurgeDays | Frontend/js/t-dashboard.js:174-177 | for each attendance date, the student's key leaves the bucket; every date stays (empty buckets included); other entries stay; dates outside the attendance map are not visited |
| Dashboard.StudentsTable | Frontend/js/t-dashboard.js:116-120 | the table lists exactly the stored students whose lower-cased name or non-empty roll includes the lower-cased filter; an empty filter lists all of them in stored order |
| Dashboard.StudentsTableIgnoresCase | Frontend/js/t-dashboard.js:116-120 | the filter is case-insensitive: a lower-cased filter lists the same students |
| Dashboard.LineFor | Frontend/js/t-dashboard.js:211-212 | a missing or empty status shows as `absent`, a recorded option as itself, any other value selects none; a missing note shows as `''` |
| Dashboard.AttendanceView | Frontend/js/t-dashboard.js:192-194 | the attendance table lists no more rows than there are students |
| Dashboard.AttendanceViewClass | Frontend/js/t-dashboard.js:192-194 | the table lists exactly the stored students of the active class, falling back to the first class when none is active; when every student is in that class the table lists them all, in stored order |
| Dashboard.ExportRow | Frontend/js/t-dashboard.js:244-246 | an export row has six cells |
| Dashboard.ExportRowFields | Frontend/js/t-dashboard.js:244-246 | the cells are the date, the id, the first matching student's name and roll (`''` when no student has the id), the recorded status, and the note or `''` |
| Dashboard.ExportBody | Frontend/js/t-dashboard.js:243-247 | one six-cell row per listed id |
| Dashboard.ExportBodyAt | Frontend/js/t-dashboard.js:243-247 | the k-th row is for the k-th id, with the status recorded for it |
| Dashboard.ExportReadsBack | Frontend/js/t-dashboard.js:242-248 | the written export reads back as its header and body rows |
| Dashboard.ExportAttendance | Frontend/js/t-dashboard.js:239-249 | the file is `attendance-<date>.csv` (today when no date is given), and its text reads back as the header `date,studentId,name,roll,status,note` followed by the body |
| Dashboard.ExportCoversRecord | Frontend/js/t-dashboard.js:241-247 | the export has exactly one row per recorded id with its recorded status, and every row is for a recorded id |
| Dashboard.DistinctCard | Frontend/js/t-dashboard.js:243 | a duplicate-free listing of a bucket's keys is as long as the bucket |
| Dashboard.TrimAll | Frontend/js/t-dashboard.js:436 | every cell comes out trimmed, and empty exactly when it was blank |
| Dashboard.ImportLines | Frontend/js/t-dashboard.js:433 | each imported line is trimmed, non-empty and free of line breaks; that they are exactly the input's non-blank lines, in order, is `ImportLinesOne` with `ImportLinesCons` |
| Dashboard.ImportLinesOne | Frontend/js/t-dashboard.js:433 | one line imports as itself trimmed, or as nothing when it is blank |
| Dashboard.ImportLinesCons | Frontend/js/t-dashboard.js:433 | the import keeps the input's lines in order: the first line's contribution, then the rest's, so every non-blank line is kept |
| Text.SplitCons | Frontend/js/t-dashboard.js:433 | splitting at the first separator gives the text before it, then the pieces of the rest |
| Dashboard.EntryOf | Frontend/js/t-dashboard.js:436-440 | a line gives at most one entry, whose name is non-empty and has no comma |
| Dashboard.EntryOfFields | Frontend/js/t-dashboard.js:436-440 | name = trimmed first cell (no entry when it is empty), roll = second cell or `''`, class = non-empty third cell or the first class's id; extra cells are ignored |
| Dashboard.ImportEntriesNamed | Frontend/js/t-dashboard.js:435-444 | the import yields at most one entry per line, each with a non-empty name |
| Dashboard.ImportedAt | Frontend/js/t-dashboard.js:441 | the k-th imported entry becomes a student with the k-th drawn id and an empty grade |
| DashboardStore.RecordWrites | Frontend/js/t-dashboard.js:225-233 | writing the table rows gives each student the value of its last row, adds only the rows' students, and keeps every other student's entry |
| DashboardStore.CreateStudents | Frontend/js/t-dashboard.js:435-444 | the count equals the number of entries, and the created students are those entries, in line order, with the drawn ids |
| DashboardStore.PurgeStudent | Frontend/js/t-dashboard.js:174-177 | the loop over the attendance dates removes the student from each date's attendance bucket, and from its note bucket when there is one |
| DashboardStore.Store.Load | Frontend/js/t-dashboard.js:40-53 | the stored tree, or the demo data when storage is empty or corrupt, and storage then holds it |
| DashboardStore.Store.Save | Frontend/js/t-dashboard.js:55-59 | `saveState` writes the whole tree to storage and changes nothing in memory |
| DashboardStore.Store.ResetData | Frontend/js/t-dashboard.js:64-69 | a confirmed reset restores the demo data; a declined one changes nothing |
| DashboardStore.Store.AddStudent | Frontend/js/t-dashboard.js:413-421 | a blank name changes nothing; otherwise exactly one student (trimmed fields, grade `''`) is appended and nothing else changes |
| DashboardStore.Store.EditStudent | Frontend/js/t-dashboard.js:159-165 | only the name, roll and class of the student with the id change |
| DashboardStore.Store.SetGrade | Frontend/js/t-dashboard.js:139-146 | a grade blur writes the trimmed text to the student with the id, and nothing else |
| DashboardStore.Store.DeleteStudent | Frontend/js/t-dashboard.js:169-179 | a confirmed delete removes the students with the id and purges the id from the attendance and note buckets of every attendance date; a declined one changes nothing |
| DashboardStore.Store.ImportCsv | Frontend/js/t-dashboard.js:430-448 | blank text changes nothing; otherwise the imported students are appended in line order and the count is their number |
| DashboardStore.Store.SaveAttendance | Frontend/js/t-dashboard.js:217-236 | each row's status and note are written under the chosen date (today when the input is empty), the date's buckets are created when missing, and other dates are unchanged |
| DashboardStore.Store.SetSlotField | Frontend/js/t-dashboard.js:272-281 | a timetable blur writes one field of the slot with the id, and nothing else |
| DashboardStore.Store.DeleteSlot | Frontend/js/t-dashboard.js:285-290 | a confirmed delete removes exactly the slots with the id |
| DashboardStore.Store.AddAssignment | Frontend/js/t-dashboard.js:458-466 | a blank title changes nothing; otherwise one `Open` assignment is appended |
| DashboardStore.Store.EditAssignment | Frontend/js/t-dashboard.js:479-485 | only the title (trimmed), due date and status of the assignment with the id change |
| DashboardStore.Store.DeleteAssignment | Frontend/js/t-dashboard.js:321-326 | a confirmed delete removes exactly the assignments with the id |
| DashboardStore.Store.AddAnnouncement | Frontend/js/t-dashboard.js:495-503 | a blank title or text changes nothing; otherwise one announcement is appended |
| DashboardStore.Store.EditAnnouncement | Frontend/js/t-dashboard.js:515-521 | only the title, date and text of the announcement with the id change |
| DashboardStore.Store.DeleteAnnouncement | Frontend/js/t-dashboard.js:354-359 | a confirmed delete removes exactly the announcements with the id |
| Validation.IsNumericStrFixpoint | Frontend/js/validation.js:31-33 | `isNumericStr` holds exactly when the trimmed text is non-empty and all digits |
| Validation.IsValidEmailShape | Frontend/js/validation.js:34-36 | `isValidEmail` holds exactly when the trimmed text has no whitespace and reads `a@b.c` with non-empty `a`, `b`, `c` |
| Validation.LastIndexOf | Frontend/js/validation.js:35 | the last position of a character, or -1 exactly when it is absent |
| Validation.CleanCollegeIdDigits | Frontend/js/validation.js:23-28 | the college-id filter keeps every digit and only digits, and is idempotent |
| Validation.CleanCollegeIdNumeric | Frontend/js/validation.js:25-32 | a filtered college id is numeric exactly when it is non-empty |
| Validation.MessageInjective | Frontend/js/validation.js:58-92 | different checks report different messages |
| Validation.GetSignupErrors | Frontend/js/validation.js:53-98 | the pushes give the error list of the name, email, college id, role, password and match checks, in that order |
| Validation.GetLoginErrors | Frontend/js/validation.js:100-118 | the pushes give the error list of the college-id checks, then the password check |
| Validation.SignupErrorsFilter | Frontend/js/validation.js:53-97 | the signup errors are the messages of exactly the failing checks, in the fixed rule order |
| Validation.LoginErrorsFilter | Frontend/js/validation.js:100-118 | the login errors are the messages of exactly the failing login checks, in order |
| Validation.SignupMessages | Frontend/js/validation.js:53-97 | each signup message appears exactly when its check fails |
| Validation.SignupErrorsEmpty | Frontend/js/validation.js:53-97 | the signup list is empty exactly when every field is acceptable |
| Validation.LoginErrorsEmpty | Frontend/js/validation.js:100-118 | the login list is empty exactly when the college id is numeric and a password is given |
| Validation.OneErrorPerField | Frontend/js/validation.js:62-76 | email gives "required" when blank, otherwise "format" when the check fails, never both; the college id behaves the same way |
| Validation.PasswordErrors | Frontend/js/validation.js:83-95 | a missing or short password gives exactly one password error; the mismatch error appears exactly when the two passwords differ, so two empty ones give none |
| Validation.SignupErrorsAtMostSix | Frontend/js/validation.js:53-97 | at most six signup errors |
| Validation.LoginChecksOnly | Frontend/js/validation.js:100-118 | login has no length rule, checks no name, email or role, and reports a missing password exactly when it is empty |
| Validation.Accepts | Frontend/js/validation.js:126-165 | the submit goes ahead exactly when the signup fields are valid on a page with a signup-only element, and the login fields otherwise; absent elements read as `''` |
| Validation.SignupWithoutEmail | Frontend/js/validation.js:128-139 | a signup page without an email element always reports the email as required |
| Quiz.AnswersAmongOptions | frontend/js/quiz.js:1-52 | every question's answer is one of its options |
| Quiz.CorrectSnoc | frontend/js/quiz.js:103-106 | answering one more question adds a point exactly when the choice is its answer |
| Quiz.CorrectAnswers | frontend/js/quiz.js:103-113 | choosing the answer every time scores one point per question answered |
| Quiz.PerfectScore | frontend/js/quiz.js:1-52 | choosing every answer gives the full score, so it is reachable |
| Quiz.NoneCorrect | frontend/js/quiz.js:103-106 | choices that are never the answer score nothing |
| Quiz.QuizPage.constructor | frontend/js/quiz.js:55-57 | the page starts on the start screen, with index 0, score 0 and nothing selected |
| Quiz.QuizPage.StartQuiz | frontend/js/quiz.js:65-68 | the start button shows the current question with nothing selected and Next disabled |
| Quiz.QuizPage.ShowQuestion | frontend/js/quiz.js:70-78 | showing a question clears the selection and disables Next |
| Quiz.QuizPage.SelectOption | frontend/js/quiz.js:90-98 | a click replaces any earlier selection with one of the shown question's options and enables Next |
| Quiz.QuizPage.Next | frontend/js/quiz.js:103-113 | the score rises by one exactly when the selection is the answer; the index rises by exactly one; the next question or the results follow; score <= index <= question count holds |
| Quiz.QuizPage.Restart | frontend/js/quiz.js:124-138 | index and score go back to 0 and the start screen shows |
| Quiz.QuizPage.PlayRound | frontend/js/quiz.js:63-113 | a whole round ends on the results with the score equal to the number of correct choices |
| Attendance.MarkedNamed | frontend/js/attendance.js:102-109 | a fully named form submits non-empty, already-trimmed names |
| Attendance.CollectStudents | frontend/js/attendance.js:98-110 | the loop succeeds exactly when every trimmed name is non-blank, and then collects every row in order |
| Attendance.StatusCounts | frontend/js/attendance.js:59-61 | the present, absent and late counts add up to the student count |
| Attendance.CountStatusPositive | frontend/js/attendance.js:59-61 | a status count is positive exactly when some student has that status |
| Attendance.Summarize | frontend/js/attendance.js:56-61 | a history item's counts sum to its total, which is the record's student count |
| Attendance.HistoryPanelOrder | frontend/js/attendance.js:45-66 | the panel shows the notice exactly when the history is empty, and otherwise one item per record, newest first |
| Attendance.NewestFirstAfterSubmit | frontend/js/attendance.js:115-126 | after a submission the panel's first item is the record just added |
| Attendance.AttendancePage.constructor | frontend/js/attendance.js:76-77 | the page starts with one blank row, the year select's initial value and the stored history |
| Attendance.AttendancePage.AddStudentRow | frontend/js/attendance.js:9-42 | one blank row, with status Present, is appended |
| Attendance.AttendancePage.RemoveRow | frontend/js/attendance.js:33-35 | that row leaves the form and the others keep their order |
| Attendance.AttendancePage.ClearHistory | frontend/js/attendance.js:69-74 | a confirmed clear empties the history; a declined one changes nothing |
| Attendance.AttendancePage.Submit | frontend/js/attendance.js:83-127 | no year, no rows, or a blank name each stop the submit with nothing changed; otherwise exactly one well-formed record is appended, earlier records are kept, and the form resets |
| Carousel.VisibleSlides | frontend/js/script.js:47-51 | 1 below 600, 3 from 900, and 2 in between |
| Carousel.VisibleSlidesMonotone | frontend/js/script.js:47-51 | a wider window never shows fewer slides |
| Carousel.NextIndex | frontend/js/script.js:28-32 | one further while below `total - visible`, otherwise back to 0 |
| Carousel.PrevIndex | frontend/js/script.js:37-43 | one back when the index is above 0, otherwise `total - visible` |
| Carousel.StepsStayInWindow | frontend/js/script.js:28-43 | from inside `[0, total - visible]` both buttons stay inside it |
| Carousel.PrevNextInverse | frontend/js/script.js:28-43 | inside the window, previous undoes next and next undoes previous |
| Carousel.PrevBelowZero | frontend/js/script.js:37-43 | with fewer slides than fit, previous from the first slide gives a negative index |
| Carousel.NextTimesAdd | frontend/js/script.js:79-81 | `a` timer ticks then `b` more are `a + b` ticks |
| Carousel.NextTimesCounts | frontend/js/script.js:28-29 | inside the window, next counts up one by one |
| Carousel.NextCycle | frontend/js/script.js:79-81 | `total - visible + 1` auto-scroll ticks return to the starting index |
| Carousel.NoActiveDotOutside | frontend/js/script.js:18-20 | an index outside the dots leaves no dot active |
| Carousel.Gallery.constructor | frontend/js/script.js:56-76 | one dot per slide, index 0, then the first redraw |
| Carousel.Gallery.Update | frontend/js/script.js:6-21 | without slides or a track nothing changes; otherwise the shift is index × slide width and exactly the dot at the index is active |
| Carousel.Gallery.NextSlide | frontend/js/script.js:23-34 | the index follows `NextIndex` for the current width, then the redraw |
| Carousel.Gallery.PrevSlide | frontend/js/script.js:36-45 | the index follows `PrevIndex` for the current width, then the redraw |
| Carousel.Gallery.DotClick | frontend/js/script.js:63-68 | clicking dot `k` makes `k` the index; on a drawable page only dot `k` is active, and without slides or a track the dots and the shift stay as they were |
| Carousel.Gallery.Resize | frontend/js/script.js:75 | a resize redraws at the same index with the new slide width |

## Left out

- The DOM is not modelled: `innerHTML` templates, event binding and re-binding, focus, the `incorrect` CSS marks (`markIncorrect`, `clearAllMarks`), modal open and close, and `renderAll`'s dispatch. The pages' state is modelled as fields instead.
- `localStorage`, `JSON.stringify`/`JSON.parse` and the `Blob` download are not modelled. Storage is a `stored` field holding the tree, a corrupt or empty slot is a `None` given to `DashboardStore.Store.Load`, and a download is a file name with its text.
- `uid()` draws ids at random. Ids are parameters instead, and their uniqueness is not claimed, because the source does not guarantee it.
- `new Date()`, `toLocaleString`, `setTimeout`, `setInterval` and `requestAnimationFrame` are not modelled. Today's date and the timestamp are parameters, and the auto-scroll timer is modelled as repeated presses of next.
- `confirm()` answers are boolean parameters. `alert()` texts are not modelled; an aborting alert becomes a `false` result or an `Outcome` value.
- `Object.keys` enumeration order is not modelled. The export takes the enumeration as a parameter `order`, required to list each key of the bucket once.
- String length and indexing count characters, not UTF-16 code units.
- `Text.LowerChar` lower-cases only ASCII letters, so the students-table filter is case-insensitive for ASCII only.
- Csv.QuoteAll: cells are strings. The source's `String(cell || '')` also turns `null`, `undefined` and `0` into `""`, but every call site passes strings.
- The `errors.join('. ')` text shown under a form, and the fallback `alert`, are not modelled. The model stops at the error list.
- Edit modals in the source capture the record when the modal opens. The model looks the record up by id when Save is clicked; the two agree unless the list changes while the modal is open.
- Dashboard.AttendanceView: its own contract states only a bound. The class membership facts are stated by `Dashboard.AttendanceViewClass`.
- Dashboard.ExportRow: its own contract states only the row length. The cell contents are stated by `Dashboard.ExportRowFields`.
- Dashboard.EntryOf: its own contract states only that a line gives at most one entry, with a non-empty, comma-free name. The field-by-field facts are stated by `Dashboard.EntryOfFields`.
- Trim: its own contract does not say that the result is the text with only leading and trailing whitespace removed. `Text.TrimSlice` proves that as a separate lemma, because it is an existential statement that would slow every proof using `Trim`.
- Carousel.Gallery.Update: the track's `translateX(-<n>px)` string is not built. The shift is kept as a number, and the slide width (`offsetWidth` + 16) is a parameter. With a negative index (fewer slides than the window shows, then previous from the first slide) the model records a negative shift, while the page would write `translateX(--<n>px)`, which the browser ignores, so the track does not move.
- `startCounters` (floating-point increments over animation frames) is not modelled.
- `Frontend/js/main.js` (a `fetch` POST and a mailto fallback), `frontend/js/signup.js` (display toggles and alerts) and `frontend/js/utils.js` (storage wrappers, the theme toggle and a timed message) are not part of this model.
