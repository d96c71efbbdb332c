# Testy in Dafny

Testy is a small quiz tool for Czech schools. A teacher turns a Word document into a test. Students take the test in the browser. The results travel back to the teacher, who can export them as CSV. The repository holds two generations of the tool:

- **The legacy pages** (`teacher.js`, `student.js`). The teacher's page reads the raw text of a document line by line (`parseWordContent`). It checks the questions JSON before storing a test (`createTest`), receives results into a per-test dictionary and exports them (`exportToCSV`). The student's page keeps the identity form, the answer slots and the cursor. It computes the score, the percentage and the grade.
- **The current application** (`src/app/...`). Its test-creation page assembles questions from the blocks of a document converted to HTML (`parseWordTestWithImages`). It derives the title from the file name and gates uploads and publishing. The dashboard groups tests into category tabs and builds the link shared with students.

The model follows the code file by file:

| module | file | models |
|---|---|---|
| `Text`, `Patterns` | (shared) | JavaScript white space, `trim`, `split`, `join`, decimal numerals, and the regular expressions of both parsers |
| `CreateTest`, `CreateTestProofs` | `src/app/create-test/page.tsx` | the block assembler, the file-name title, the upload gate and the publish gate |
| `Teacher`, `TeacherProofs` | `teacher.js` | `parseWordContent` and the structural check of `createTest` |
| `TeacherResults` | `teacher.js` | receiving a result and `exportToCSV` |
| `Student` | `student.js` | the test session: identity check, answer slots, navigation, scoring and grading |
| `Dashboard` | `src/app/page.tsx` | the category tabs, the tests each tab shows and the share link |

Both parsers are loops that update an accumulator. Each is modelled twice:

- as a method with a loop, proved equal to a one-step state machine (`Step`/`RunFrom`, `LegacyStep`/`LegacyRun`);
- as an independent definition by segments, where the input is cut at every question line.

Lemmas prove that the state machine and the definition by segments agree on every input. The properties of the output are then proved about the segments: which questions are kept, in which order, with which options, markers and ids.

Mutable state of the legacy pages is modelled with classes:

- `Student.TestSession` holds the answer slots, the cursor and the student.
- `TeacherResults.ResultStore` holds the dictionary of results.

Their methods are proved against the functions that specify them.

### Behaviour of the code worth knowing

- **CSV header.** The header written by `exportToCSV` has eight columns: `Jméno,Příjmení,Třída,Body,Celkem,Úspěšnost (%),Známka,Datum`.
- **Correct answer.** The assembler only asks that a question have text, at least one option and a non-empty correct-answer letter. The letter is not checked against the option ids.
- **Image source.** An image whose `src` is empty does not count as an image. A block holding only such an image and no text is not blank, but it is otherwise unrecognised.
- **Grading.** `calculateGrade` takes the first threshold the percentage reaches. Better percentages never get worse grades, for any thresholds, even ones that are not decreasing.
- **Empty test.** A test without questions gives a percentage that is not a number. This is modelled as `None`. `calculateGrade` then returns 5.
- **Commas in names.** Names and classes are not quoted in the CSV; only the date is. A comma in a name shifts the columns of its row. `RowSplitsIntoCells` splits on every comma, as a reader that ignores quotes would, so it asks for comma-free fields.
- **The `correct` check.** The check of `createTest` accepts any number as `correct`, including -1 (`UnkeyedQuestionAccepted`).

## Model

| member | source | states |
|---|---|---|
| Text.Trim | teacher.js:148 | the trimmed text has no white space at either end and is no longer than the input |
| Text.TrimCuts | teacher.js:148 | what `trim` keeps is the input with a run of leading and a run of trailing white space cut off, and nothing else changed |
| Text.TrimStartAt | src/app/create-test/page.tsx:78 | `\s*` stops at the first character that is not white space, and that is where the leading white space is cut |
| Text.TrimEmptyIff | src/app/create-test/page.tsx:74-76 | `trim` leaves nothing exactly when the text is all white space |
| Text.TrimIdempotent | student.js:40-42 | trimming twice is trimming once |
| Text.Split | teacher.js:148 | `split` on one character gives at least one piece, no piece holds the separator, and joining the pieces gives the text back |
| Text.SplitJoin | teacher.js:148 | splitting a join of separator-free pieces gives the pieces back |
| Text.JoinAllSpace | teacher.js:148-153 | a join is all white space exactly when every piece is |
| Text.Decimal | teacher.js:491 | the numeral of a number is non-empty and all digits |
| Text.DecimalRoundTrip | teacher.js:491 | reading the numeral gives the number back |
| Text.DecimalInjective | src/app/create-test/page.tsx:82 | different numbers have different numerals |
| Patterns.CaptureRest | src/app/create-test/page.tsx:78 | `\s*(.+)`: nothing exactly when the text is all white space; otherwise the capture is the longest run without a line terminator that starts where the leading white space ends |
| Patterns.MatchQuestion | src/app/create-test/page.tsx:78 | `^(\d+)\.\s*(.+)`: a match exactly when the text starts with digits, then '.', then something other than white space; the capture is the line that starts where the white space after the '.' ends |
| Patterns.MatchQuestionOf | src/app/create-test/page.tsx:78 | a line written as digits, ". " and a one-line text is read back as that text |
| Patterns.MatchQuestionRoundTrip | teacher.js:167 | a line written as a number, ". " and a one-line text is read back as that text |
| Patterns.CaptureRestRoundTrip | src/app/create-test/page.tsx:78 | a space followed by a one-line text that starts with no white space is captured whole |
| Patterns.MatchOption | src/app/create-test/page.tsx:105-109 | `^([a-zA-Z])\)\s*(.+)`: a match exactly when a letter and `)` are followed by something other than white space; the id is the letter upper-cased and the text the line that starts after the white space |
| Patterns.MatchOptionRoundTrip | src/app/create-test/page.tsx:105-109 | an option written as a letter, ") " and a one-line text is read back as the upper-cased letter and the text |
| Patterns.MarkerAt | src/app/create-test/page.tsx:113 | where the marker starts (ignoring case): the first character after it that is not white space gives the letter, upper-cased, exactly when it is a letter; a marker followed by white space only gives nothing |
| Patterns.FindMarkerFrom | src/app/create-test/page.tsx:113 | the search stops at the first position where the marker pattern matches, and finds nothing exactly when it matches at no later position |
| Patterns.SearchMarker | src/app/create-test/page.tsx:113 | a letter found is one the marker pattern yields somewhere in the text; there is none exactly when it matches nowhere |
| Patterns.FindMarker | src/app/create-test/page.tsx:113-115 | "Správně:" is tried first and "Správná odpověď:" only when it is absent; the letter is upper-case |
| Patterns.FindMarkerRoundTrip | src/app/create-test/page.tsx:113-115 | a text starting with "Správně: " and a letter has that letter, upper-cased, as its correct answer, whatever follows |
| Patterns.MatchAnswer | teacher.js:184-186 | `^([A-D])\)\s*(.+)` under `/i`: a match exactly when an answer letter and `)` are followed by something other than white space; the text is the line that starts after the white space |
| Patterns.MatchAnswerRoundTrip | teacher.js:184-186 | an answer written as A to D, ") " and a one-line text is read back as the text |
| Patterns.AnswerIndex | teacher.js:193-194 | the index of an answer letter is 0 to 3, its position in "ABCD" after upper-casing |
| Patterns.MatchAnswerKey | teacher.js:191-194 | `^Správně:\s*([A-D])` under `/i`: a match needs the marker at the start; after it, the first character that is not white space gives a match exactly when it is A to D in either case, and the index is its position in "ABCD"; only white space gives none |
| Patterns.MatchAnswerKeyRoundTrip | teacher.js:191-194 | a key line "Správně: " and one of A to D is read back as the letter's position in "ABCD" |
| Patterns.StripTitlePrefix | teacher.js:156 | a line without the prefix (ignoring case) is unchanged; from a line with it exactly the prefix, a colon right after it if there is one, and the white space after them are removed |
| Patterns.StripTitlePrefixRoundTrip | teacher.js:156 | a title written as "Název testu: <title>" comes back unchanged |
| CreateTest.Classify | src/app/create-test/page.tsx:74-117 | a block is blank exactly when it has no text and no image; a question line keeps its image only when the source is non-empty; options and markers carry one upper-case letter |
| CreateTest.ClassifyPrecedence | src/app/create-test/page.tsx:74-117 | on the trimmed text: a question-number line opens a question with its capture; else an image with a source is an image; else an option line gives the upper-cased letter and its text; else a marker gives its letter; anything else not blank is passed over exactly when no test claims it |
| CreateTest.QuestionIdPositions | src/app/create-test/page.tsx:82 | ids made for different positions differ, whatever the two clock readings |
| CreateTest.Finalize | src/app/create-test/page.tsx:63-71 | the open question is pushed exactly when it is complete (text, an option, a correct letter), and dropped otherwise |
| CreateTest.ReadBlock | src/app/create-test/page.tsx:74-117 | one pass of the loop body does to the questions and the open question what one state-machine step on the block's kind does |
| CreateTest.ParseWordTestWithImages | src/app/create-test/page.tsx:55-123 | the loop over the blocks, then the final push, gives exactly `Assemble` (the state machine run over the blocks' kinds) |
| CreateTest.TitleFromFileName | src/app/create-test/page.tsx:132 | a trailing ".docx" is dropped and anything else is kept |
| CreateTest.AfterParse | src/app/create-test/page.tsx:149-159 | an upload is refused exactly when no question was found; otherwise all questions are previewed |
| CreateTest.StoreQuestion | src/app/create-test/page.tsx:198-212 | id, text, correct letter and every option are copied; the image is stored exactly when it is non-empty |
| CreateTest.HandlePublish | src/app/create-test/page.tsx:174-222 | refused exactly when the store is missing, the title is empty or nothing was parsed; then refused exactly when some question lacks options or a correct letter; otherwise the test has id `test-<now>`, the default category when none is given, and every question stored in order |
| CreateTestProofs.AssembleIsDeclared | src/app/create-test/page.tsx:55-123 | the one-pass assembler equals the definition by segments on every input |
| CreateTestProofs.RunIsDeclared | src/app/create-test/page.tsx:73-120 | from any pushed prefix with no question open, the run keeps exactly the declared questions |
| CreateTestProofs.AssembleComplete | src/app/create-test/page.tsx:63-71 | every emitted question is complete, and the i-th has the id `q-<now>-<i>`, `now` being the clock reading the model takes once per parse |
| CreateTestProofs.AssembleIds | src/app/create-test/page.tsx:82 | the ids of the emitted questions end in their position and are pairwise distinct |
| CreateTestProofs.AssembleInOrder | src/app/create-test/page.tsx:73-118 | the i-th emitted question is built from the i-th kept question line and the blocks up to the next question line |
| CreateTestProofs.DeclaredInOrder | src/app/create-test/page.tsx:73-118 | the kept questions correspond one to one to kept question lines, in order, with consecutive id indices |
| CreateTestProofs.DeclaredAt | src/app/create-test/page.tsx:73-118 | the i-th kept question is the one built from the i-th kept question line with id index `n + i` |
| CreateTestProofs.DeclaredLinesIncreasing | src/app/create-test/page.tsx:73-118 | the kept question lines are strictly increasing: document order is preserved |
| CreateTestProofs.DeclaredLinesExact | src/app/create-test/page.tsx:63-71 | a question line is kept exactly when the question built from it is complete |
| CreateTestProofs.LastMarkerIsLast | src/app/create-test/page.tsx:113-116 | a question's correct letter comes from the last marker of its segment; with no marker it stays empty |
| CreateTestProofs.FirstImageIsFirst | src/app/create-test/page.tsx:97-101 | a question without its own image takes the first image of its segment; later images are ignored |
| CreateTestProofs.OptionsInLines | src/app/create-test/page.tsx:105-111 | every option line of a segment gives an option of its question, and every option comes from such a line |
| CreateTestProofs.OptionsInSplit | src/app/create-test/page.tsx:105-111 | options keep document order: those of earlier blocks of a segment come before those of later ones |
| CreateTestProofs.IdleRun | src/app/create-test/page.tsx:95 | with no question open, blocks without a question-number line change nothing |
| CreateTestProofs.BodyRun | src/app/create-test/page.tsx:95-117 | with a question open, blocks without a question-number line only add options, replace the correct letter and fill a missing image |
| CreateTestProofs.DeclaredIds | src/app/create-test/page.tsx:82 | the i-th kept question carries the id index `n + i`: the number of questions pushed before it |
| CreateTestProofs.DeclaredComplete | src/app/create-test/page.tsx:63-71 | every kept question is complete |
| CreateTestProofs.BlankBlockIgnored | src/app/create-test/page.tsx:76 | a block without text and image anywhere in the input changes nothing |
| CreateTestProofs.LeadingBlocksIgnored | src/app/create-test/page.tsx:95 | blocks before the first question-number line change nothing |
| CreateTestProofs.ParsedTestPublishes | src/app/create-test/page.tsx:183-194 | with a title and at least one question, the assembler's output is never refused as incomplete |
| Teacher.TrimmedLines | teacher.js:148 | trimming and dropping empty lines never adds lines |
| Teacher.KeptPieces | teacher.js:148 | the positions of the surviving pieces are increasing, and a piece survives exactly when it is not all white space |
| Teacher.TrimmedLinesKept | teacher.js:148 | the surviving lines are exactly the kept pieces, trimmed, in the order of the pieces |
| Teacher.TrimmedLinesTrimmed | teacher.js:148 | every surviving line is non-empty and has no white space at either end |
| Teacher.TrimmedLinesEmpty | teacher.js:148-153 | no line survives exactly when every piece is white space |
| Teacher.ClassifyLine | teacher.js:163-201 | a question line exactly when the question pattern matches, with its capture; otherwise an answer line with the answer pattern's text when that matches; otherwise a key line with the key's index when that matches; otherwise any other line, kept whole |
| Teacher.KeepIfFour | teacher.js:169-171 | the open question is pushed exactly when it has four answers |
| Teacher.CountInvalid | teacher.js:210-216 | the warning count never exceeds the number of questions |
| Teacher.ReadLine | teacher.js:164-201 | one pass of the loop body does what one step of the legacy state machine does on the line's kind |
| Teacher.ReadQuestions | teacher.js:163-202 | the loop over the lines after the title ends in the state-machine run over their kinds |
| Teacher.ParseWordContent | teacher.js:147-222 | the whole reader equals `ParseLegacy`: nothing for an empty document, else the stripped title, the kept questions and the warning count |
| Teacher.FirstRejected | teacher.js:269-273 | every question before the returned index passes the check, and the one at it fails |
| Teacher.CheckCreateTest | teacher.js:252-277 | a blank name is refused first; then text that is not JSON, then a value that is not a non-empty array, each exactly; then the first question that is `null` or malformed is named by its index; accepted exactly when the name is non-blank and the JSON is a non-empty array of well-formed questions |
| Teacher.QuestionsToJson | teacher.js:219 | one JSON object per question, in order |
| TeacherProofs.ParseIsDeclared | teacher.js:147-207 | `parseWordContent` equals the definition by segments: title from the first line, questions declared from the lines after it |
| TeacherProofs.EmptyDocumentIff | teacher.js:148-153 | the document is refused as empty exactly when its text is all white space |
| TeacherProofs.DeclaredInOrder | teacher.js:163-207 | every kept question has four answers and is built from its question line's segment, in order |
| TeacherProofs.DeclaredLinesIncreasing | teacher.js:163-207 | the kept question lines are strictly increasing |
| TeacherProofs.DeclaredLinesExact | teacher.js:169-171 | a question line is kept exactly when its segment holds four answers |
| TeacherProofs.LastKeyWins | teacher.js:191-195 | `correct` comes from the last key of the segment; with no key it stays -1 |
| TeacherProofs.IdleRun | teacher.js:185-201 | with no question open, lines that are not question lines change nothing |
| TeacherProofs.ContinuationStops | teacher.js:199-201 | once an answer has arrived, further lines no longer extend the question text |
| TeacherProofs.ParsedQuestionsOk | teacher.js:205-216 | every kept question has text, four answers and `correct` from -1 to 3; the warning counts exactly those without a key |
| TeacherProofs.InvalidAreUnkeyed | teacher.js:210-212 | among questions with four answers, the invalid ones are exactly those still at -1 |
| TeacherProofs.KeptQuestionsAccepted | teacher.js:262-273 | questions of the parser's output shape, with a non-blank name, pass the check of `createTest` |
| TeacherProofs.ParsedOutputAccepted | teacher.js:262-273 | what the reader writes into the questions field is accepted by `createTest` when there is a question and a title |
| TeacherProofs.UnkeyedQuestionAccepted | teacher.js:270 | a question whose `correct` is -1 still passes the per-question check |
| TeacherResults.AppendResult | teacher.js:17-22 | the result's test gains a key if needed, its list gains the result at the end, and every other list is unchanged |
| TeacherResults.ReceiveAllFiles | teacher.js:17-22 | after a run of receipts, each test's list is its old list followed by exactly that test's results in arrival order |
| TeacherResults.ReceiveAllKeys | teacher.js:18-20 | a key appears only for a test that received a result |
| TeacherResults.ResultStore.constructor | teacher.js:17 | an empty dictionary |
| TeacherResults.ResultStore.Receive | teacher.js:17-22 | the dictionary becomes `AppendResult` of the old one |
| TeacherResults.ResultStore.ExportToCsv | teacher.js:476-492 | no file exactly when the test has no results; otherwise the header line followed by one line per result in list order |
| TeacherResults.RowFields | teacher.js:490-491 | one cell per column of the header |
| TeacherResults.RowsAsJoin | teacher.js:489-492 | the rows are the row lines joined by line breaks, with one after the last |
| TeacherResults.RowSplitsIntoCells | teacher.js:491 | with comma-free names, class and date, a row splits back into its eight cells |
| TeacherResults.HeaderSplits | teacher.js:486 | the header splits into its eight column names |
| TeacherResults.HeaderIsJoin | teacher.js:486 | the header is the eight column names joined by commas |
| TeacherResults.DecimalFree | teacher.js:491 | the numbers of a row hold neither a comma nor a line break |
| TeacherResults.HeaderFree | teacher.js:486 | the header holds no line break |
| TeacherResults.CsvLines | teacher.js:486-492 | with line-break-free fields, the file splits into the header, one line per result and a final empty piece |
| Student.CalculateGrade | student.js:157-164 | grades are 1 to 5; grade 1 exactly when the first threshold is reached; grade 5 exactly when none is reached or the percentage is not a number |
| Student.GradeIsFirstReached | student.js:157-164 | the grade is the first threshold reached, and no earlier threshold is reached |
| Student.GradeMonotone | student.js:157-164 | a higher percentage never gets a worse grade, for any thresholds |
| Student.GradeCountsMissed | student.js:157-164 | with non-increasing thresholds the grade is one more than the number of thresholds missed |
| Student.SampleScaleGrades | src/lib/mock-data.ts:107-130 | on the 90/75/60/40 scale, 100 gives 1 and 50 gives 4, and every threshold is inclusive |
| Student.CountIsSize | student.js:140-145 | the count equals the number of questions whose answer equals the key |
| Student.CountExtremes | student.js:140-145 | all answers right gives the full count; none right gives zero |
| Student.Percent | student.js:147 | not a number exactly when there are no questions; otherwise the ratio times 100 rounded half up |
| Student.PercentRange | student.js:147 | the percentage is 0 to 100; 100 for a full score, 0 for no correct answer |
| Student.PercentMonotone | student.js:147 | more correct answers never lower the percentage |
| Student.FirstUnanswered | student.js:132 | -1 exactly when every slot is answered, else the first empty slot |
| Student.StartCheck | student.js:39-47 | accepted exactly when all three fields are non-blank; they are kept trimmed |
| Student.StartCheckIdempotent | student.js:40-49 | an accepted identity passes the check again unchanged |
| Student.PreviousIndex | student.js:118-122 | one back, except at the first question |
| Student.NextIndex | student.js:124-128 | one on, except at the last question; the cursor stays in range |
| Student.PreviousUndoesNext | student.js:118-128 | "next" then "previous" comes back, except at the last question |
| Student.NextUndoesPrevious | student.js:118-128 | "previous" then "next" comes back, except at the first question |
| Student.TestSession.constructor | student.js:31 | one empty answer slot per question, the cursor at the first question |
| Student.TestSession.Start | student.js:39-55 | the student is recorded and the first question shown exactly when the identity check passes; answers are untouched |
| Student.TestSession.Admit | student.js:49-54 | an identity that passed is recorded and the cursor reset; a refused one changes nothing |
| Student.TestSession.SelectAnswer | student.js:104-105 | only the current slot changes, to the chosen option |
| Student.TestSession.Previous | student.js:118-122 | the cursor moves as `PreviousIndex` says; nothing else changes |
| Student.TestSession.Next | student.js:124-128 | the cursor moves as `NextIndex` says; nothing else changes |
| Student.TestSession.Submit | student.js:130-155 | nothing when a question is unanswered and the student declines; otherwise the counted correct answers, their percentage and its grade |
| Dashboard.EffectiveCategory | src/app/page.tsx:149 | an empty category becomes the default one; any other is kept |
| Dashboard.Unique | src/app/page.tsx:150 | `Array.from(new Set(...))` holds exactly the values of the list |
| Dashboard.UniqueDistinct | src/app/page.tsx:150 | no value occurs twice |
| Dashboard.UniqueOrdered | src/app/page.tsx:150 | values come in the order of their first occurrence |
| Dashboard.Categories | src/app/page.tsx:148-151 | the first tab is the all-tests tab |
| Dashboard.CategoriesCoverTests | src/app/page.tsx:148-151 | every test's effective category has a tab |
| Dashboard.CategoriesComeFromTests | src/app/page.tsx:148-151 | every tab after the first is the effective category of some test |
| Dashboard.CategoriesDistinctOrdered | src/app/page.tsx:148-151 | the category tabs are distinct and ordered by the first test that carries them |
| Dashboard.AllTabCanRepeat | src/app/page.tsx:148-151 | a test filed under "Všechny" itself produces a second tab of that name |
| Dashboard.InCategory | src/app/page.tsx:289-291 | a test is shown exactly when it is in the list and its effective category is the tab |
| Dashboard.TabTests | src/app/page.tsx:287-291 | the all-tests tab shows the whole list; any other tab shows exactly the tests of its category |
| Dashboard.InCategoryAppend | src/app/page.tsx:289-291 | filtering keeps the relative order of the tests |
| Dashboard.InCategoryCount | src/app/page.tsx:289-291 | a tab shows each test of its category as often as the list holds it, and no other test |
| Dashboard.ShareLink | src/app/page.tsx:126 | the link is the origin, "/test/", the id and "/take" |
| Dashboard.ShareLinkInjective | src/app/page.tsx:126 | different tests of one site get different links |

## Left out

- Reading the document is not modelled: the converter (mammoth), the DOM parser, `innerText` and `querySelector`. A block is given as its text and the source of its first image. For the legacy reader, the document is given as its raw text.
- Storage and transport are not modelled: `localStorage`, Firestore (`saveTest`), the GitHub upload and download of tests and results, and the `btoa`/`JSON` encoding of the result URL. Receiving a result starts from the decoded record.
- User interaction is not modelled: alerts, toasts, `confirm`, tab switching, showing a question, the progress bar and the clipboard. A `confirm` reply is a parameter of `Submit`.
- Clocks and randomness are parameters. `createdAt` is given as text. The random part of a result id is not modelled.
- CreateTest.ParseWordTestWithImages: the code reads `Date.now()` anew at every question-number line; the model takes one `now` reading for the whole parse, so every id carries the same time part. What the model proves that carries over is the `-<i>` suffix of the i-th question and the distinctness of ids (`QuestionIdPositions` holds for any two readings). The publish step reads the clock once, as the code does.
- Date formatting (`toLocaleString('cs-CZ')`) is the `formatDate` parameter of the export.
- The file name and the `Blob` download of the CSV are not modelled; the export ends with its text.
- Sorting tests by `createdAt` on the dashboard and the mock data are not modelled, except for the sample grade scale and its two graded results.
- Student.Percent: `Math.round` of a floating-point quotient is modelled as exact half-up rounding of the rational value. Floating-point error at exact halves is not captured.
- Student.CalculateGrade: the legacy `grading` object also has a `grade5` field, which the code never reads; it is not modelled.
- Teacher.CheckCreateTest: JSON parsing itself is not modelled. The parsed value (or `None` when `JSON.parse` throws) is the input. The grading fields read after the check are not part of it.
- Patterns.FindMarker: the `/i` case folding is exact for the ASCII letters and the accented letters of the two markers. Other Unicode case mappings are not modelled.
