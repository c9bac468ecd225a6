# StudentManager roster rules in Dafny

This project models the business rules of `StudentManager`, a single-user
student roster kept in a spreadsheet. Each record holds a roll number, a name
and marks. The model covers the rules without the prompts and without the file:

- the grade classifier, which bins marks into Fail, Third Class, Second Class,
  First Class and Distinction;
- the acceptance rule of the integer prompt;
- add, search, update and delete on the roster;
- the performance report.

Every operation is a pure function. It takes the roster, an ordered
`seq<Student>`, and the answers the operator has already typed.

- Add, update and delete change the roster. Each returns an `Outcome`: the
  new roster, and either `Changed` (the source then saves the file) or
  `Rejected(reason)`, in which case the roster is returned unchanged.
- Search returns the matching rows as a `Roster`. It is empty when the roll
  number is absent.
- The report returns a `Result<Summary, Error>`. It is `Failure(EmptyRoster)`
  on an empty roster.

Modules, one per file:

| file | module | models |
|---|---|---|
| options.dfy | Options | optional values and success-or-error results |
| seqs.dfy | Seqs | order-preserving row selection (the data-frame boolean filter) |
| text.dfy | Text | `str.strip()` as applied to names |
| grade.dfy | Grade | `_apply_class_label` (`pd.cut` with `right=False`, NaN to Fail) |
| input.dfy | Input | the acceptance test of `_get_integer_input` |
| records.dfy | Records | `add_student`, `search_student`, `update_student`, `delete_student` |
| report.dfy | Reporting | `generate_report` |
| session.dfy | Session | any sequence of add/update/delete keeps the roster invariant |

The model follows the code in these points:

- A duplicate roll number on add, or marks outside 0..100 on add or update,
  are not errors in the code: the prompt asks again. Here the operation gets
  one answer per field, so the model reports such an answer as
  `Rejected(DuplicateRoll)` or `Rejected(MarksOutOfRange)` with the roster
  unchanged. That is the same as the code never accepting it.
- Search returns every row with the roll number, not an optional single
  record. Update and delete act on every matching row. Roll numbers are only
  checked for uniqueness on add, and a loaded file is not checked at all.
  Uniqueness is therefore a preserved invariant (`Records.Valid`), not an
  assumption.
- Roll numbers are not required to be non-negative. The prompt has no lower
  bound for them.
- An update menu answer other than "1" or "2" cancels the update
  (`InvalidChoice`).
- The class counts list only the bands that occur, the way a value count
  does. Bands with no students are omitted.

## Model

| member | source | states |
|---|---|---|
| Grade.Classify | studentmanager.py:65-69 | each band is exactly its half-open interval: [0,35) Fail, [35,50) Third Class, [50,60) Second Class, [60,75) First Class, [75,101) Distinction; any mark outside [0,101) is Fail |
| Grade.BinIndex | studentmanager.py:68 | the bin found for a value holds it (left edge inclusive, right edge exclusive), and "no bin" means no bin holds it |
| Grade.BinIndexExact | studentmanager.py:65-68 | with increasing edges, a value inside bin i is put into bin i and no other |
| Grade.ClassifyMonotone | studentmanager.py:65-66 | within 0..100, higher marks never give a lower band |
| Grade.Boundaries | studentmanager.py:65-69 | 35, 50, 60 and 75 start the higher band, 100 is Distinction, and -1 and 101 are Fail |
| Grade.NameInjective | studentmanager.py:66 | the five label texts are distinct |
| Input.Judge | studentmanager.py:45-58 | an answer is accepted iff it is a whole number within every given bound, and the accepted value is that number; non-numbers are refused as such; the lower bound is checked before the upper |
| Input.AcceptedWithinBounds | studentmanager.py:50-56 | a value the prompt returns lies between the bounds it was given |
| Input.UnboundedAcceptsEveryNumber | studentmanager.py:84 | without bounds, as for roll numbers, every whole number is accepted unchanged |
| Text.StripStart | studentmanager.py:78 | the result is a suffix of the input, everything cut off is whitespace, and it does not start with whitespace |
| Text.StripEnd | studentmanager.py:78 | the result is a prefix of the input, everything cut off is whitespace, and it does not end with whitespace |
| Text.Strip | studentmanager.py:78 | the result is a slice of the input that neither starts nor ends with whitespace, with only whitespace cut off on either side |
| Text.StripEmptyIffBlank | studentmanager.py:78-79 | a name strips to empty exactly when it is all whitespace |
| Text.StripTrimmed | studentmanager.py:143 | stripping an already stripped name changes nothing |
| Seqs.Filter | studentmanager.py:116 | a row selection keeps exactly the rows that pass the test, in order, never more than there were |
| Seqs.FilterCount | studentmanager.py:116 | a selection holds each element that passes the test exactly as often as the input does, and none that fails it |
| Seqs.FilterConcat | studentmanager.py:168 | selection distributes over concatenation, so rows are never reordered |
| Seqs.FilterPartition | studentmanager.py:116 | selecting by a test and by its negation splits the rows into two parts whose multisets add up to the original |
| Records.Add | studentmanager.py:75-96 | refuses an all-whitespace name first, then a roll number already present, then marks outside 0..100 (each leaving the roster unchanged); otherwise appends exactly one row with the stripped name after the untouched existing rows |
| Records.AddPreservesValid | studentmanager.py:83-93 | add keeps roll numbers unique, marks in 0..100 and names stripped and non-empty |
| Records.AddThenSearch | studentmanager.py:92-93 | after a successful add, searching the new roll number finds exactly the new row |
| Records.Search | studentmanager.py:112-123 | finds every row with the roll number and nothing else, in roster order; empty exactly when the roll number is absent |
| Records.SearchKeepsDuplicates | studentmanager.py:116 | a search returns each row with the roll number exactly as often as the roster holds it |
| Records.SearchAtMostOne | studentmanager.py:116 | on a roster with unique roll numbers a search finds at most one row |
| Records.ParseChoice | studentmanager.py:140-156 | the update menu picks the name exactly on "1" and the marks exactly on "2", compared as typed |
| Records.Rewrite | studentmanager.py:145 | the matching rows are rewritten, every other row is kept, and the length is unchanged |
| Records.Update | studentmanager.py:125-158 | an absent roll number, an empty new name, marks outside 0..100 or another menu answer leave the roster unchanged; otherwise only the chosen field of every matching row changes |
| Records.UpdatePreservesValid | studentmanager.py:142-153 | update keeps roll numbers unique, marks in 0..100 and names stripped and non-empty |
| Records.RewriteThenSearch | studentmanager.py:145-152 | a rewrite that keeps roll numbers finds as many rows per roll number as before, and the same rows for other roll numbers |
| Records.UpdateIsRewrite | studentmanager.py:145-152 | a successful update rewrites the matching rows with the new name or the new marks and keeps their roll numbers |
| Records.UpdateThenSearch | studentmanager.py:145-152 | after an update, searching the roll number finds as many rows as before, all carrying the new value, and searches for other roll numbers are unaffected |
| Records.FilterKeepsUnique | studentmanager.py:168 | keeping some rows of a roster with unique roll numbers leaves them unique |
| Records.Delete | studentmanager.py:160-171 | an absent roll number is refused with the roster unchanged; otherwise exactly the rows with that roll number are removed, the rest keep their order, and kept plus removed rows make up the old roster |
| Records.DeleteThenSearch | studentmanager.py:164-168 | after a delete, searching the deleted roll number finds nothing |
| Records.DeletePreservesValid | studentmanager.py:168 | delete keeps roll numbers unique, marks in 0..100 and names stripped and non-empty |
| Reporting.Highest | studentmanager.py:189 | the highest marks are reached by some row and exceeded by none |
| Reporting.Lowest | studentmanager.py:190 | the lowest marks are reached by some row and undercut by none |
| Reporting.SumBetween | studentmanager.py:188 | when every mark lies in lo..hi the total lies between count times lo and count times hi, so the average lies between the lowest and highest marks |
| Reporting.CountBand | studentmanager.py:194 | a band's count is positive exactly when some row is classified into it |
| Reporting.BandCountsSum | studentmanager.py:194 | the five band counts add up to the number of rows |
| Reporting.ClassCounts | studentmanager.py:194-195 | a band is listed exactly when some row falls into it, with that band's count, and the listed counts add up to the number of rows |
| Reporting.TopPerformers | studentmanager.py:198-202 | the top performers are exactly the rows with the given marks, in roster order, each as often as the roster holds it |
| Reporting.Generate | studentmanager.py:173-204 | refused exactly on an empty roster; otherwise gives the count, a total between count times lowest and count times highest, the lowest and highest marks (both reached, bounding every row), band counts that sum to the count, and a non-empty list of exactly the rows with the highest marks, in roster order, repeated rows kept |
| Reporting.TwoStudentReport | studentmanager.py:173-204 | two students with 90 and 40 give count 2, total 130, highest 90, lowest 40, one Distinction and one Third Class, and the 90-mark student as the only top performer |
| Session.StepPreservesValid | studentmanager.py:75-171 | each of add, update (with the menu answer as typed) and delete keeps the roster invariant |
| Session.RunPreservesValid | studentmanager.py:75-171 | any sequence of add, update and delete from a valid roster keeps the roster invariant |
| Session.FromEmptyUnique | studentmanager.py:75-171 | starting from an empty roster, roll numbers stay unique through any sequence of operations |

## Left out

- Loading and saving the spreadsheet (`_load_data`, `_save_data`, lines 23-43) are file I/O through pandas. `Changed` marks where the source saves. The load step that turns a missing roll number into -1 is not modelled; the operations simply assume nothing about a loaded roster.
- The re-prompting loops of `_get_integer_input` and of the roll-number check in `add_student`, the `input()` calls and the `menu` dispatch are interactive plumbing. Each operation receives one already-parsed answer per field, and `Input.Answer` stands for the result of `int(...)` on the typed text. Python's integer parsing rules are not modelled.
- `view_students` is display only, including its sort by roll number. So is all printing and table formatting, including the class column shown with search results.
- The average marks is a floating-point division formatted to two places. The report exposes the integer total and the count instead.
- The order in which the class summary lists the bands (`sort_index` on the label text) is not modelled. The counts are a map from band to count.
- Missing (NaN) marks from a loaded file are not modelled, because marks are integers here. The source labels such rows Fail.
- Records.Search: returns the matching rows but not the class label printed beside them.
- Text.IsSpace: covers Python's `str.isspace` character set as of Unicode 15. Later Unicode versions could add characters.
