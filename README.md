# JNTUK result analyzer — a Dafny model

This project models the core of a small result analyzer for JNTUK semester
grade memos. It has two parts.

The memo parser (`analyzer.py`) reads the text of every page of a PDF memo
line by line:
- It recovers the student's roll number and name.
- It recognises the lines that hold one subject result. Each such line gives
  a subject code, a subject title, a grade and the credits.
- Once the scan is over, it writes the identity onto every row.
- It groups a table by roll number into backlog counts, SGPA and failed
  subjects.

The dashboard (`app.py`) works on the tables of all uploaded memos:
- It concatenates them into one history.
- It keeps the best row of each subject and orders the history by term and
  subject.
- It shows the backlog rows, one tab per term with that term's SGPA, the
  credit total and the final CGPA.

The modules follow that structure:

- `Text`: the `str` primitives the parser relies on. These are `isspace`,
  `split`, `strip`, `replace`, `upper`, `join`, and `float` on decimal
  tokens, all on ASCII.
- `Ordering`: Python's string order, and `sorted(set(...))`.
- `Grades`: the grade vocabulary `grade_points`, the row record, rounding to
  hundredths, and `calculate_sgpa`.
- `Semester`: `get_semester_from_code`.
- `LineParser`: one line at a time. This covers cleaning, the roll-number
  regular expression, the name split, and the recognition of a result line.
  The recognition exists twice: as a specification function, and as the
  imperative probe loop `ExtractRow`, which is proved equal to it.
- `Extractor`: `parse_pdf`. `ParsePdf` is an imperative method with the
  page loop and the line loop. It is proved equal to `ParseSpec`, a fold
  over the document's lines. A line is first read into a `Reading` (its
  roll-number match, its name, and its record with a blank identity). The
  reading is then applied to the scan state, which stamps the record with
  the identity in force.
- `Aggregator`: `calculate_results`.
- `Dashboard`: the dashboard pipeline of `app.py`. The cleanup is a pair of
  imperative methods, `KeepBest` and `SortByKey`, proved against the
  `Deduplicated` specification and the term/subject order.
- `Demo`: the demo data set of `app.py` run through `BuildDashboard`. The
  proof establishes every figure the dashboard shows for it:
  - history order Maths-I, Physics, Python, Data Structures, Maths-II, Java;
  - backlogs Physics and Java;
  - tabs 1-1, 1-2 and 2-1, with SGPA 5.67, 9.0 and 0.0;
  - 18 credits and a CGPA of 5.83.

The model follows what the code does, including behaviour a reader might
not expect:

- A bare numeric subject code such as `201101` decodes to term `2-0`,
  because no revision prefix is removed from it. The comment at
  analyzer.py:13 decodes `R201101` as `1-1`, and a reader might expect the
  bare code to give `1-1` too. See `Semester.BareCodeExample`.
- The roll number is taken from the first line that matches. The student
  name, however, is replaced by every later line that yields one, so the
  last match wins. A reader might expect first-match-wins for both. See
  `Extractor.NameIsLastMatch`.
- The roll-number pattern `\b\d{2}[A-Z]{2}[0-9A-Z]\d{4}\b` at
  analyzer.py:45 matches nine characters. The comments at analyzer.py:42-43
  speak of ten characters and give `22HJ1A4311` as an example. That roll
  number is never found: its sixth character is a letter where the pattern
  wants a digit, and no match can start inside it. A nine-character roll
  number such as `22HJ14311` is found, and one followed by a further digit
  is not. See `LineParser.TenCharacterRollNotFound`,
  `LineParser.NineCharacterRollFound` and `LineParser.TrailingDigitBlocksRoll`.
- A line reading `Name: Unknown` sets the name back to the placeholder.
  This switches off the name backfill, so rows of one document can carry
  different names (`Extractor.NameResetExample`).
  `Extractor.ParsedIdentity` states uniform names only when the final name
  is not the placeholder, and all names "Unknown" when no line gives a name.
- The cleanup keeps, per subject, a row with the most points. A pass marker
  (COMPLETED or Y) is worth 0 points, as is an F, so the two tie. The sort
  of app.py:51 fixes no winner on a tie, and app.py:52 may keep the F row:
  the subject then stays a backlog although it was passed. See
  `Dashboard.PassMarkerTiesWithFail`.
- When the grade is the last word (`i = 1`), the "after" probe
  `parts[-i+1]` is `parts[0]`, the subject code itself. A numeric code can
  therefore become the credits. See `LineParser.CodeReadAsCredits`.
- The SGPA guard is `total_credits == 0`, while the CGPA guard is
  `total_creds > 0`. They differ only for rows with negative credits. See
  `Dashboard.GuardsDifferOnNegativeCredits`.

## Model

| member | source | states |
|---|---|---|
| Grades.GradePointsRange | analyzer.py:6-10 | every grade weight lies in 0..10; F, AB, M, COMPLETED and Y are in the vocabulary and worth 0 |
| Grades.Round2 | analyzer.py:25 | the result is a whole number of hundredths and lies within half a hundredth of the input |
| Grades.AcademicMembers | analyzer.py:21 | keeps exactly the rows whose grade is not COMPLETED or Y, and no other rows |
| Grades.Sgpa | analyzer.py:20-25 | a whole number of hundredths; 0.0 when the non-marker rows carry no credits, otherwise within 0.005 of their credit-weighted mean of points |
| Grades.AcademicAppend | analyzer.py:21 | filtering out pass markers distributes over concatenation |
| Grades.TotalsAppend | analyzer.py:22-23 | the credit sum and the weighted point sum add up over concatenation |
| Grades.SgpaIgnoresPassMarker | analyzer.py:20-25 | a COMPLETED or Y row anywhere in a table leaves its SGPA unchanged |
| Grades.PointTotalBounds | analyzer.py:22-23 | with credits not negative and points in 0..10, the weighted point sum lies between 0 and ten times the credit sum |
| Grades.SgpaRange | analyzer.py:20-25 | under the same conditions the SGPA lies between 0 and 10 |
| Grades.WellFormedPoints | analyzer.py:88-96 | rows built by the parser have credits not negative and points in 0..10 |
| Semester.SemesterFromCode | analyzer.py:12-18 | the term is "Others" or digit-dash-digit, and it is not "Others" exactly when the upper-cased code, with revision codes cut out, starts with two digits |
| Semester.StripRevisions | analyzer.py:15 | a code without R is left as it is (`RevisionCodeIsCut` states what is cut) |
| Semester.RevisionCodeIsCut | analyzer.py:15 | a revision code between R-free text is cut out wherever it stands; an R-code that is not a revision code stays |
| Semester.RevisionCodeTerm | analyzer.py:14-17 | the term of a code holding one revision code is read from the code without it |
| Semester.BareCodeTerm | analyzer.py:14-17 | a code without R or r keeps its own first two characters as the term |
| Semester.R20CodeExample | analyzer.py:13 | "R201101" is term 1-1 |
| Semester.R16CodeExample | analyzer.py:15 | "R161101" is term 1-1 |
| Semester.LowerCaseCodeExample | analyzer.py:14 | "r231205" is upper-cased first and is term 1-2 |
| Semester.MiddleRevisionExample | analyzer.py:15 | a revision code in the middle is cut too: "2R2011" is term 2-1 |
| Semester.BareCodeExample | analyzer.py:16-17 | "201101" is term 2-0 |
| Semester.OthersExample | analyzer.py:18 | "XYZ" is "Others" |
| Text.Upper | analyzer.py:71 | same length, each character upper-cased by its ASCII rule |
| Text.RemoveChar | analyzer.py:39 | the result holds only characters of the input other than the removed one; every other character keeps its count, and the length drops by the count of the removed one |
| Text.RemoveCharAppend | analyzer.py:39 | removing a character distributes over concatenation, so order is kept |
| Text.RemoveAll | analyzer.py:15 | removing a pattern never lengthens the text |
| Text.RemoveAllNoOccurrence | analyzer.py:15 | text with no occurrence of the pattern is left as it is |
| Text.RemoveAllFirstOccurrence | analyzer.py:15 | the text before the first occurrence is kept, the occurrence is cut, and removal goes on after it |
| Text.SplitOn | analyzer.py:37 | at least one piece, and no piece holds the separator |
| Text.JoinSplitOn | analyzer.py:37 | joining the pieces of a split with the separator gives back the text |
| Text.SplitWords | analyzer.py:60 | every word is non-empty and holds no whitespace, and text of whitespace only has no words |
| Text.SplitWordsAtSpace | analyzer.py:60 | a whitespace character splits the text into the words before it followed by the words after it |
| Text.SplitWordsOfWord | analyzer.py:60 | a non-empty text without whitespace is one word, itself |
| Text.DecimalValue | analyzer.py:75-78 | the value of a decimal token is not negative, and a token of digits only has its integer value |
| Text.DecimalValueWithDot | analyzer.py:75-78 | a token `w.f` is worth w plus f over ten to the number of digits of f |
| Text.CreditTokenValues | analyzer.py:76-78 | "15" is 15.0, "1.5" is 1.5 and "3" is 3.0 |
| Text.StripRule | analyzer.py:39 | the stripped text is a contiguous part of the input with no whitespace at either end, and all that was cut is whitespace |
| Text.Join | analyzer.py:85 | the joined text starts with the first piece and is as long as the pieces plus one separator between each two |
| Text.SplitOnJoin | analyzer.py:85 | splitting pieces that do not hold the separator, once joined with it, gives the pieces back |
| Ordering.SortedDistinct | app.py:72 | strictly ascending, with the same elements as the input |
| Ordering.SortedBySameElementsEqual | app.py:72 | two strictly sorted sequences with the same elements are equal |
| Ordering.StrLessTransitive | app.py:72 | Python's string order is transitive |
| Ordering.StrLessTotal | app.py:72 | Python's string order is total on distinct strings |
| LineParser.CleanLine | analyzer.py:39 | the cleaned line holds no double quote and no comma |
| LineParser.CleanLineRule | analyzer.py:39 | the cleaned line is the stripped line without quotes and commas, which keeps every other character with its count |
| LineParser.RollSearch | analyzer.py:44-47 | None exactly when no position matches the roll-number pattern; otherwise the nine characters at the leftmost match, starting with a digit |
| LineParser.TenCharacterRollNotFound | analyzer.py:42-45 | the ten-character roll number 22HJ1A4311 is not found |
| LineParser.NineCharacterRollFound | analyzer.py:45-47 | a line holding 22HJ14311 yields that roll number |
| LineParser.TrailingDigitBlocksRoll | analyzer.py:45 | 22HJ143110 yields no roll number, because no word boundary follows its ninth character |
| LineParser.NameSeparatorEnd | analyzer.py:52 | after "Name" only spaces and at most one of ':', '-' or '.' are skipped, and the split stops at the first character that is neither |
| LineParser.NameSplitSecond | analyzer.py:52-53 | there is a second part exactly when "Name" occurs in any case |
| LineParser.NameSplitRule | analyzer.py:52-54 | the second part is the text after the first case-insensitive "Name" and its separator, up to the next "Name" |
| LineParser.NameFound | analyzer.py:50-57 | a name is found only on a line containing "Name", is longer than 3 and does not start with "Subject" |
| LineParser.NameRule | analyzer.py:50-57 | a name is found exactly when the line contains "Name" and a space or ':', and the stripped second part is longer than 3 and does not start with "Subject"; the name is that stripped part |
| LineParser.NameSplitsWhenPresent | analyzer.py:50-53 | a line containing "Name" always splits into two parts |
| LineParser.NameLineExample | analyzer.py:50-57 | "Name: RAVI KUMAR" gives the name "RAVI KUMAR" |
| LineParser.GradeIndex | analyzer.py:70-80 | the first of the last three words, counting from the end, that is a grade; 0 when none is |
| LineParser.CreditsNear | analyzer.py:74-78 | the value of `parts[-i-1]` when it is a decimal token; else that of `parts[-i+1]` (which is `parts[0]` for i = 1) when that is one; else 0.0; never negative |
| LineParser.NormaliseCredits | analyzer.py:83-84 | 15 becomes 1.5, an F with 0 becomes 3.0, other credits are kept; afterwards credits are never 15 and an F never has 0 |
| LineParser.NormaliseIdempotent | analyzer.py:83-84 | repairing credits twice is repairing them once |
| LineParser.RowGradeAndCredits | analyzer.py:70-84 | a recognised row's grade is the first grade found by the probe, and its credits are those read beside it, repaired |
| LineParser.FifteenCreditsExample | analyzer.py:83 | the words "R201101 Lab 15 A" give a row with credits 1.5 and grade A |
| LineParser.FailWithoutCreditsExample | analyzer.py:84 | the words "R201101 Maths - F" give a row with credits 3.0 and grade F |
| LineParser.RecognizeRow | analyzer.py:60-96 | a record only for a line of four words or more starting with a subject code; its grade is in the vocabulary with its own points, and it carries the identity in force (`RowRule` states the rest) |
| LineParser.RowRule | analyzer.py:60-96 | a line yields a record exactly when it has four words, a subject code and a grade among the last three words; the record's grade, points, credits, subject, term and identity are those the line determines |
| LineParser.RowIgnoresIdentity | analyzer.py:88-96 | whether a line yields a record, and its fields other than the identity, do not depend on the identity in force |
| LineParser.CodeReadAsCredits | analyzer.py:75-78 | with the grade last and no number before it, a numeric subject code is read as the credits |
| LineParser.ProbeGrade | analyzer.py:66-80 | the probe loop stops at the first grade and returns it with its credits and subject end; no grade exactly when none of the three is one |
| LineParser.ExtractRow | analyzer.py:60-97 | the imperative extraction of one line equals the recognition rule |
| Extractor.Read | analyzer.py:39-96 | a roll-number match is never the placeholder; a record read from a line is well formed |
| Extractor.Step | analyzer.py:44-96 | a found roll number is never replaced; a line without a name keeps the name; the rows are kept and at most the line's record is appended |
| Extractor.StepRule | analyzer.py:44-96 | a roll number not yet found is taken from the line's match, a line that gives a name sets it, and the line's record is appended stamped with the roll number and name in force after the line |
| Extractor.NameResetExample | analyzer.py:57-104 | a name line giving "Unknown" after "RAVI KUMAR" leaves the two rows with different names, and the backfill keeps them so |
| Extractor.Scan | analyzer.py:33-97 | the rows collected so far stay a prefix, and at most one row is added per line |
| Extractor.FillRoll | analyzer.py:103 | the rows are left as they are when the roll number is "Unknown"; otherwise only the roll-number column changes, and every row carries the roll number |
| Extractor.FillName | analyzer.py:104 | the rows are left as they are when the name is "Unknown"; otherwise only the name column changes, and every row carries the name |
| Extractor.ParseSpec | analyzer.py:99-106 | a table is never empty and has one row per collected record |
| Extractor.ScanLine | analyzer.py:38-97 | one pass of the line loop equals one step of the scan on the line's reading |
| Extractor.ScanPage | analyzer.py:37-97 | the line loop over a page equals the scan over the page's readings |
| Extractor.ParsePdf | analyzer.py:27-106 | the parser returns what the scan and the backfill specify |
| Extractor.ScanAppend | analyzer.py:33-38 | scanning two stretches of lines is scanning one after the other |
| Extractor.RollIsFirstMatch | analyzer.py:44-47 | the roll number is the match on the earliest line that has one, or "Unknown" when no line has one |
| Extractor.NameIsLastMatch | analyzer.py:50-57 | the name is the one given by the last line that gives one, and is unchanged when no line gives one |
| Extractor.ScanKeepsRowsConsistent | analyzer.py:88-96 | every collected row is well formed and carries "Unknown" or the roll number in force |
| Extractor.BackfillIdentity | analyzer.py:103-104 | after the backfill every row is well formed, carries the roll number in force, and carries the name when one was found |
| Extractor.ParsedIdentity | analyzer.py:99-104 | every row of a parsed table is well formed and carries the final roll number; every row carries the final name unless that is "Unknown"; when no line gives a name, every row's name is "Unknown" |
| Extractor.ScanCollectsRows | analyzer.py:88-96 | apart from the identity, the scan appends exactly the records of the lines, in line order |
| Extractor.ParsedRows | analyzer.py:99-106 | None exactly when no line yields a record; otherwise, apart from the identity, the table is those records in line order |
| Aggregator.Failed | analyzer.py:111-113 | never longer than the table (`FailedMembers` states which rows it keeps) |
| Aggregator.FailedMembers | analyzer.py:111-113 | keeps exactly the rows graded F, AB or M |
| Aggregator.Group | analyzer.py:110 | keeps exactly the rows of one roll number |
| Aggregator.CalculateResults | analyzer.py:108-115 | one result per distinct roll number, and none for an empty table (`CalculateResultsSpec` states each result) |
| Aggregator.CalculateResultsSpec | analyzer.py:108-115 | one result per roll number that occurs, none other, in strictly ascending order; each result holds its group's backlog count, SGPA and failed subjects joined by ", " |
| Aggregator.SingleStudent | analyzer.py:108-115 | a table of one roll number gives exactly one result, computed over the whole table |
| Aggregator.FailedOfGroup | analyzer.py:110-113 | the backlogs of a group are the group's rows among the backlogs |
| Aggregator.BacklogsAddUp | analyzer.py:111 | the backlog counts of the results add up to the number of backlog rows |
| Dashboard.KeyLessTransitive | app.py:53 | the term-then-subject order is transitive |
| Dashboard.KeyLessTotal | app.py:53 | rows with different subjects are ordered one way or the other |
| Dashboard.Deduplicated | app.py:50-52 | a deduplicated table is empty exactly when the merged one is |
| Dashboard.FindSubject | app.py:52 | the position of the first row with the subject, or the length when there is none |
| Dashboard.KeepBest | app.py:50-52 | keeps one row per subject of the merged table, drawn from it, each with the most points for its subject |
| Dashboard.InsertByKey | app.py:53 | inserting keeps the history sorted and adds exactly the new row |
| Dashboard.SortByKey | app.py:53 | the result is strictly sorted by term and subject and holds the same rows |
| Dashboard.Cleanup | app.py:49-53 | the cleaned history is deduplicated by best points and strictly sorted by term and subject |
| Dashboard.DeduplicatedSameRows | app.py:52-53 | reordering a deduplicated table keeps it deduplicated |
| Dashboard.NothingRemovedWhenDistinct | app.py:50-52 | without repeated subjects the cleanup keeps every row |
| Dashboard.HistoryOfDistinctSubjects | app.py:49-53 | without repeated subjects the cleaned history is the input sorted by term and subject |
| Dashboard.ClearedSubjectIsNotBacklog | app.py:50-60 | a subject passed with a grade worth points in any memo is not among the backlogs |
| Dashboard.PassMarkerTiesWithFail | app.py:50-60 | a COMPLETED or Y row ties with an F of the same subject, so keeping either is a valid cleanup, and keeping the F leaves it a backlog |
| Dashboard.Concat | app.py:47 | every row of the concatenation comes from a table, and every row of every table is in it |
| Dashboard.CollectedEmpty | app.py:34-46 | no table is collected exactly when no memo gave one |
| Dashboard.Tabs | app.py:72 | strictly ascending, holding exactly the terms of the history |
| Dashboard.TabRows | app.py:77 | never more rows than the history (`TabRowsMembers` states which) |
| Dashboard.TabRowsMembers | app.py:77 | a tab shows exactly the history's rows of its term |
| Dashboard.TabsCoverHistory | app.py:72-77 | every row's term has a tab that shows the row, and no tab is empty |
| Dashboard.Cgpa | app.py:95-98 | a whole number of hundredths; 0.0 unless the non-marker credits are positive, otherwise within 0.005 of the credit-weighted mean |
| Dashboard.CgpaIsSgpaOfHistory | app.py:95-98 | with credits not negative the CGPA is the SGPA of the whole history; for well-formed rows it lies in 0..10 |
| Dashboard.GuardsDifferOnNegativeCredits | app.py:98 | one row with credits -1 and grade A has SGPA 9.0 but CGPA 0.0 |
| Dashboard.BuildDashboard | app.py:34-98 | nothing is shown exactly when no memo gave a table; otherwise the history is the cleaned concatenation, backlogs are its failed rows, tabs its sorted terms, each tab's SGPA that of its rows, and the credit total and CGPA those of the history |
| Demo.DemoCleanup | app.py:49-53 | the demo's cleaned history is its six rows ordered by term and subject |
| Demo.DemoBacklogs | app.py:60 | the demo's backlogs are Physics then Java |
| Demo.DemoTabs | app.py:72 | the demo's tabs are 1-1, 1-2 and 2-1 |
| Demo.DemoTabRows | app.py:77 | the rows shown under each demo tab |
| Demo.DemoSgpaFirst | analyzer.py:20-25 | the SGPA of term 1-1 of the demo is 5.67 |
| Demo.DemoSgpaSecond | analyzer.py:20-25 | the SGPA of term 1-2 of the demo is 9.0 |
| Demo.DemoSgpaThird | analyzer.py:20-25 | the SGPA of term 2-1 of the demo is 0.0 |
| Demo.DemoCgpa | app.py:95-98 | the demo's credit total is 18 and its CGPA 5.83 |
| Demo.DemoTabValues | app.py:72-80 | any dashboard of the demo shows tabs 1-1, 1-2, 2-1 with SGPA 5.67, 9.0, 0.0 |
| Demo.DemoDashboard | app.py:21-32 | the demo dashboard is exactly the board with the figures above |

## Left out

- PDF text extraction (`pdfplumber`) is left out. The text of each page is an input, and a page with no text is skipped as in the source.
- The Streamlit interface is left out: layout, widgets, messages and the per-tab tables with their status column. The model computes what those widgets display.
- Reading CSV uploads (`pd.read_csv`) and choosing a reader by file extension are left out. A table is supplied directly as a sequence of rows, and a memo that gave no table is `None`.
- Exceptions are not modelled, since they are caught and skipped per line and per file. All index accesses in the line recognition are within bounds once a line has four words, so no line is lost to an exception in the model.
- Arithmetic is exact: credits and points are exact reals. `round(x, 2)` is modelled as rounding half up on the exact value. Binary floating point and round-half-even on floats are not modelled.
- Text handling covers ASCII only. `isspace`, `isdigit`, `upper` and the regular-expression classes follow their ASCII rules, and Unicode behaviour is not modelled.
- The per-tab SGPA is taken as the SGPA of the tab's rows. The route through `calculate_results(...).iloc[0]` reads the first roll-number group only. For a history holding several roll numbers, the model's figure is therefore not the one shown.
- Dashboard.Cleanup: does not say which row survives a tie on points. Pandas' default sort is not stable, so the source fixes no winner. The method itself keeps the first such row seen.
- `KeepBest`, `SortByKey` and the row lists work on immutable sequences. The in-place `inplace=True` updates of the data frame are not modelled.
- `calculate_results` returns a data frame indexed by roll number. The model returns a list of results with the roll number as a field, in the same order.
- Text.RemoveAll: its own contract only bounds the length. `RemoveAllNoOccurrence` and `RemoveAllFirstOccurrence` state what it keeps and what it cuts.
