# Student management system: ranking engine and record operations

This project models the core of a small desktop student management system.
Faculty accounts create classes, add subjects, enrol students and enter
marks. Students log in, set a password on first login and see their total
and rank. The application keeps one in-memory snapshot with three
dictionaries, `faculties`, `students` and `classes`, and writes it back after
every change.

The model has two parts.

- **The ranking engine, `compute_totals_and_ranks`.** It exists in two revisions:
  - `CodeUtils` models the defensive one (`Code/utils.py`).
  - `StrictUtils` models the strict one (`utils.py`).
  - `RankEngine` holds what both share: sorting the (id, total) pairs by (-total, id), and the single pass that threads `prev_total`/`prev_rank` to fill the result dictionary.
  - A Python dictionary is modelled as a `map` plus a `seq` holding its key insertion order.
- **The record operations of the application object (`Code/app.py`).**
  - `Operations` states each handler as a function of the old snapshot and the dialog answers, and proves properties about those functions.
  - `App.SmsApp` is the application object. Its fields `data`, `currentUser` and `currentRole` are changed in place by methods with loops. Each method is proved to leave the state that the matching function describes. Each keeps the snapshot well formed. Each keeps a consistent snapshot consistent, except that enrolment does so only when the generated student id is not already in use, because the source never checks it.

Other modules:

- `Records`: the snapshot and its invariants.
- `Identity`: the id and password generators.
- `Text`: the ASCII string operations (`strip`, `isdigit`, `int()`, `str()`, `lower`, `<` on `str`).

**Ranking follows the code, not its docstring.** The docstring of
`Code/utils.py:24` calls the ranking dense. The loop instead gives a changed
total the 1-based position `idx`, which is standard competition ranking:
totals 170, 170, 150 rank 1, 1, 3.

- Every rank is `RankOf(scores, t) = 1 + CountAbove(scores, t)`, where `CountAbove` counts the strictly greater totals.
- `RankEngine.CompetitionRankingIsNotDense` shows the difference on that input: the third student gets rank 3, while dense ranking (`DenseRankOf`) would give 2.

## Model

| member | source | states |
|---|---|---|
| Text.Strip | Code/app.py:92 | `str.strip()`: the result has no leading or trailing whitespace and is no longer than the input |
| Text.StripRemovesSurroundingSpace | Code/app.py:92 | the stripped string is a slice `s[i..j]` of the input with only whitespace before `i` and after `j`, so exactly the surrounding whitespace is removed |
| Text.StripOfStripped | Code/app.py:115-116 | stripping a string that has no surrounding whitespace returns it unchanged |
| Text.StripIdempotent | Code/app.py:115-116 | stripping twice gives the same result as stripping once |
| Text.ParseInt | Code/utils.py:36 | `int(str)` succeeds exactly when the text holds none of the separators 0x1C-0x1F (which `str.strip()` removes but `int()` does not skip) and its stripped form is a digit string, optionally after one `-` or `+`; the value is the digits' decimal value, negated after `-`; anything else is a ValueError, here None |
| Text.NatToString | Code/app.py:218 | `str(n)` of a natural number is a non-empty digit string whose decimal value is `n`, with no leading zero unless `n` is 0 |
| Text.ParseIntToString | Code/app.py:298 | `int(str(i)) == i` for every integer: a prefilled mark reads back as itself |
| Text.LowerFacts | Code/app.py:212 | `str.lower()` keeps the length, leaves no ASCII capital, keeps every other character, and is idempotent |
| Text.StrLessIrreflexive | Code/utils.py:40 | no id sorts before itself |
| Text.StrLessTotal | Code/utils.py:40 | of two different ids, one sorts before the other |
| Text.StrLessAsymmetric | Code/utils.py:40 | two ids never sort before each other |
| Text.StrLessTransitive | Code/utils.py:40 | the id order is transitive, so the tie-break is a strict total order |
| Records.EmptyDbConsistent | Code/app.py:39-41 | the empty snapshot, which the application starts from when nothing is stored, satisfies every invariant |
| Identity.UpperDigitAt | Code/utils.py:11 | each draw from `ascii_uppercase + digits` is an upper-case letter or a digit |
| Identity.LetterDigitAt | Code/utils.py:17 | each draw from `ascii_letters + digits` is an ASCII letter or a digit |
| Identity.GenerateStudentId | Code/utils.py:9-12 | the id is `"STU_"`, the roll, `"_"`, then exactly four characters from A-Z0-9 (one per draw); its length is the roll's plus 9; `utils.py:9-12` is identical |
| Identity.RollOfGeneratedId | Code/utils.py:12 | the roll number is recovered exactly from any generated id |
| Identity.GenerateTempPassword | Code/utils.py:15-17 | the password has the requested length and each character is the drawn ASCII letter or digit; `utils.py:15-16` is identical |
| Identity.NewClassId | Code/app.py:218 | the class id is `"class_"`, the decimal seconds (which parse back to the clock reading), `"_"` and one upper-case letter |
| RankEngine.BeforeTotal | Code/utils.py:40 | any two (id, total) pairs are comparable under the key (-total, id) |
| RankEngine.BeforeTransitive | Code/utils.py:40 | the key order (-total, id) is transitive |
| RankEngine.InsertByKey | Code/utils.py:40 | inserting one pair into a list sorted by (-total, id) gives a sorted list with exactly one more element, that pair |
| RankEngine.SortByKey | Code/utils.py:40 | `totals.sort(key=(-total, id))` gives a list sorted by descending total and then ascending id, which is a permutation of its input |
| RankEngine.CountAboveSplit | Code/utils.py:44-47 | if the first `i` totals exceed `t` and no later one does, exactly `i` totals exceed `t` |
| RankEngine.FirstOfTotalRank | Code/utils.py:45-47 | in the sorted list, an entry whose total differs from the previous one has exactly `idx - 1` strictly greater totals, so `rank = idx` is its competition rank |
| RankEngine.RankStepRanks | Code/utils.py:51 | one loop iteration keeps "every entry handled so far maps to its total and competition rank" |
| RankEngine.RankStepOrder | Code/utils.py:51 | one loop iteration keeps the key insertion order equal to the order in which ids first appear |
| RankEngine.RankStepKeysSeen | Code/utils.py:51 | re-storing an id already present keeps the key order sorted by (-total, id) |
| RankEngine.RankStepKeysNew | Code/utils.py:51 | a new id enters after every key already present, and the key order stays sorted by (-total, id) |
| RankEngine.PrefixInvariant | Code/utils.py:44-51 | after `i` iterations, the dictionary holds exactly the first `i` entries with their competition ranks, keyed in (-total, id) order |
| RankEngine.AssignRanks | Code/utils.py:41-51 | the `prev_total`/`prev_rank` loop over a sorted list returns exactly the listed ids, each with its total and `1 +` the number of strictly greater totals, with keys in (-total, id) order; `utils.py:37-47` is the same loop |
| RankEngine.RankedWhenDone | Code/utils.py:52 | once every entry is handled, the dictionary is the ranked result |
| RankEngine.CountAboveConcat | utils.py:36 | counting greater totals distributes over list concatenation |
| RankEngine.CountAbovePermutation | utils.py:36 | the count of strictly greater totals depends only on the multiset of pairs, so the (-total, id) tie-break changes the order and never a rank |
| RankEngine.RankedPermutation | utils.py:36-47 | a result ranked against the sorted list is equally ranked against the unsorted `totals` list |
| RankEngine.CountAboveMonotone | utils.py:40-46 | a higher total has no more strictly greater totals than a lower one |
| RankEngine.CountAboveStrict | utils.py:40-46 | a listed total greater than `t` has strictly fewer totals above it than `t` has |
| RankEngine.CountAboveOfMember | utils.py:40-46 | a listed total has fewer than `n` totals above it |
| RankEngine.CountAboveZero | utils.py:40-46 | no total lies above `t` exactly when every listed total is at most `t` |
| RankEngine.RankMonotone | utils.py:40-46 | tied totals share a rank; a strictly higher total gets a strictly smaller rank; a lower total never gets a smaller rank |
| RankEngine.RankRange | Code/utils.py:44-50 | every rank lies in 1..n, and it is 1 exactly when no total is greater |
| RankEngine.CompetitionRankingIsNotDense | Code/utils.py:24 | on totals 170, 170, 150 the code ranks 1, 1, 3 while dense ranking gives 2 to the third; on 200, 170, 170 both give 1, 2, 2 |
| CodeUtils.ScoresOfIndexed | Code/utils.py:31-39 | the `totals` list has one (id, total) pair per roster entry, in roster order |
| CodeUtils.ScoresOfMembers | Code/utils.py:31-39 | a pair is in `totals` exactly when its id is on the roster and its total is that student's total |
| CodeUtils.RankedIsClassRanked | Code/utils.py:31-51 | a result ranked against `totals` has exactly the roster ids as keys, each with its total and competition rank |
| CodeUtils.SortedScoresConsistent | Code/utils.py:39-40 | in the sorted list, equal ids carry equal totals, even when the roster repeats an id |
| CodeUtils.ComputeTotalsAndRanks | Code/utils.py:20-52 | a missing `classes` key or an unknown class gives `{}`; otherwise the keys are exactly the roster ids, each with its total over the class's current subjects and its competition rank, inserted in (-total, id) order |
| CodeUtils.RankTotals | Code/utils.py:40-52 | sorting `totals` and running the rank loop gives the class's ranked result |
| CodeUtils.SumMarksReadsListedSubjects | Code/utils.py:29-36 | a total reads only the listed subjects; marks for other subjects are ignored |
| CodeUtils.UnknownStudentTotalsZero | Code/utils.py:32-36 | a roster id with no student record, or a student with no marks, totals 0 |
| CodeUtils.UnconvertibleMarkCountsZero | Code/utils.py:35-38 | a stored string that `int()` rejects adds 0: the total equals the total with no mark for that subject |
| CodeUtils.LeaderboardFacts | Code/utils.py:44-51 | in a class's result, tied totals share a rank, a higher total has a smaller rank, ranks lie in 1..n for n roster entries, and rank 1 goes exactly to the top total |
| CodeUtils.OrderUnique | Code/utils.py:40-51 | two key orders over the same keys, both sorted by (-total, id), are equal |
| CodeUtils.ClassRankedUnique | Code/utils.py:40-51 | the result, including its key order, is fully determined by the class |
| StrictUtils.StrictMarkValue | utils.py:33 | an unguarded `int(mark)` fails exactly on a non-string, non-integer value or a string that `int()` rejects; a missing mark reads as 0; when it succeeds it agrees with the defensive value |
| StrictUtils.StrictSum | utils.py:31-33 | the accumulator fails exactly when some listed subject holds an unconvertible mark; otherwise it equals the defensive total |
| StrictUtils.ComputeTotalsAndRanks | utils.py:19-48 | a missing `classes` key raises, and only then with that error; an unknown class gives `{}`; a missing `students` key raises exactly when the roster is non-empty; an unconvertible mark raises exactly when some roster entry holds one; the call succeeds exactly when neither holds, and then the result equals the defensive revision's |
| StrictUtils.StrictTotals | utils.py:28-34 | the roster loop fails with the missing-key error or the unconvertible-mark error exactly in those cases; otherwise it builds the same `totals` list as the defensive revision |
| StrictUtils.StrictTotal | utils.py:31-33 | one student's accumulator loop returns the strict sum, stopping at the first mark `int()` rejects |
| Operations.RegisterFacultyAddsOne | Code/app.py:88-109 | registration succeeds exactly when the stripped username is non-empty and new and a name and password were given; it then adds exactly one account under the stripped username, holding the stripped name and the password as typed, replaces none, and leaves students and classes unchanged |
| Operations.LoginChecksStoredPassword | Code/app.py:115-145 | login succeeds only for an existing account of that role whose stored password equals the stripped entry; the session user is the stripped name; a faculty login changes nothing; a student login leaves that student's record as it was or sets its password to the new one and clears its flag, and changes nothing else |
| Operations.FacultyLoginSucceeds | Code/app.py:122-128 | conversely, a faculty account logs in with its stored password, and nothing changes |
| Operations.FirstLoginGate | Code/app.py:135-145 | a student whose first-login flag is true or absent gets in exactly when a non-empty new password is given, which replaces the password and clears the flag; a student whose flag is clear gets in without change |
| Operations.SecondLoginSkipsGate | Code/app.py:135-146 | after a first login, logging in with the new password (if it has no surrounding whitespace) succeeds and changes nothing |
| Operations.RegisterThenLogin | Code/app.py:104-127 | a freshly registered faculty can log in with a password that has no surrounding whitespace |
| Operations.PaddedPasswordNeverMatches | Code/app.py:109-132 | passwords are stored as typed but compared after stripping, so an account whose password starts or ends with whitespace can never log in |
| Operations.CreateClassAddsOne | Code/app.py:204-219 | creation succeeds exactly when the stripped name is non-empty, matches `^\d+[A-Za-z]$` and no stored class has it ignoring case; the created class has that name, differing ignoring case from every class stored before (including one under a reused id), the current user as owner, and no students or subjects; the other classes, students and faculties are unchanged |
| Operations.ClassIdCollisionReplacesClass | Code/app.py:218-219 | the id is not checked: creating a class under an id already in use empties that class's roster and subjects |
| Operations.AddSubjectAppends | Code/app.py:229-236 | the call succeeds exactly when the answer is non-empty and its stripped form is not listed; the stripped name goes at the end; the old list keeps its order; distinct names stay distinct; nothing else changes |
| Operations.RosterCheck | Code/app.py:252-255 | the roster scan passes exactly when every roster id has a record with a different roll; otherwise it reports a duplicate or the missing record (KeyError) |
| Operations.RosterCheckFrom | Code/app.py:252-255 | entries that pass the scan can be skipped without changing its verdict |
| Operations.EnrolmentRecord | Code/app.py:245-263 | on success: the roll is numeric and unused in the class; the id is appended to the roster; the record has that class, roll and name, a pending first login, empty marks and an 8-character alphanumeric password; nothing else changes |
| Operations.SecondEnrolmentIsDuplicate | Code/app.py:252-263 | enrolling the same stripped roll again into that class fails as a duplicate |
| Operations.RosterCheckFindsLast | Code/app.py:252-255 | a resolvable roster whose last id has the roll fails the scan as a duplicate |
| Operations.StudentIdCollisionReplacesRecord | Code/app.py:259-261 | the generated id is not checked: an enrolment under an existing id replaces that student's record |
| Operations.KindOfReadsEntry | Code/app.py:304-309 | an entry is blank exactly when only whitespace was typed; a digit string reads as its value; a minus sign before a non-zero digit string is rejected; a value read is the one `int()` gives for the stripped entry |
| Operations.ClassifySnoc | Code/app.py:303-309 | classifying one more entry appends that entry's classification |
| Operations.FirstInvalid | Code/app.py:303-309 | the position where the save loop stops: every earlier entry is valid and the entry there is invalid |
| Operations.WrittenValueAt | Code/app.py:303-310 | with distinct subjects, the value written for an entry's subject is that entry's value |
| Operations.WriteMarksAt | Code/app.py:303-310 | after writing, a subject holds the value of its entry if that entry has one, and its old mark otherwise |
| Operations.WriteUpToFirstInvalid | Code/app.py:301-316 | entries before the first invalid one set or keep their marks; the invalid entry, later entries and unlisted subjects keep theirs |
| Operations.SaveMarksNotAtomic | Code/app.py:301-316 | saving is not atomic: marks written before the first invalid entry stay; later ones do not change; the save reports success exactly when no entry is invalid; no other record changes |
| Operations.UneditedFormRoundTrip | Code/app.py:294-310 | saving the form unedited succeeds and changes nothing, provided every mark shown is absent or a non-negative integer |
| Operations.PrefilledReadsBack | Code/app.py:298-309 | each prefilled entry reads back as its stored mark, or as blank when there is none |
| Operations.RewriteSameMarks | Code/app.py:310 | writing values that the marks already hold changes nothing |
| Operations.PrefilledMarkReadsBack | Code/app.py:298-309 | a non-negative mark shown in the form reads back as the same value |
| Operations.FacultyClassIds | Code/app.py:346 | the class list holds exactly the classes whose owner is the current user |
| Operations.FacultyClassIdsInOrder | Code/app.py:346 | the class list keeps dictionary order: it is the class order with other owners' classes left out |
| Operations.ClassListDistinct | Code/app.py:340-346 | distinct classes with well-formed names get distinct entries in the class list, so no two entries can be confused |
| Operations.LabelsOfSnoc | Code/app.py:346 | one more class appends one more entry |
| Operations.FirstLabelMatch | Code/app.py:339-342 | the lookup finds the first class in dictionary order whose entry equals the selection |
| Operations.ChosenClass | Code/app.py:333-342 | no selection gives None; a found class exists and its entry equals the selection; None with a selection means no class matches it |
| Operations.SelectedClass | Code/app.py:226-228 | a handler only works on an existing class with a non-empty id |
| Operations.ComboSelectionResolves | Code/app.py:338-346 | when class names are well-formed, choosing the i-th entry of the class list finds the i-th listed class |
| Operations.LabelInjective | Code/app.py:340 | two classes with well-formed names and equal list entries have the same name and id |
| Operations.InsertByRank | Code/app.py:328 | inserting one row into a list sorted by rank gives a sorted list with exactly one more element, that row |
| Operations.SortRowsByRank | Code/app.py:328 | `sorted(..., key=rank)` gives the same rows, in ascending rank |
| Operations.SortRowsByRankKeepsSorted | Code/app.py:328 | the stable sort leaves rows already in rank order unchanged |
| Operations.RankTableDangling | Code/app.py:329-331 | the table lists an id with no student record exactly when the roster holds one |
| Operations.RankTableFacts | Code/app.py:325-328 | the rows built and sorted from the result list every roster id once, with its total and competition rank, by ascending rank and, within a rank, ascending id |
| Operations.RowsOfContents | Code/app.py:328 | the rows are exactly the roster ids with their totals and ranks |
| Operations.RowsOfRankOrdered | Code/app.py:328 | the dictionary's items are already in rank order, with equal ranks in ascending id order |
| Operations.RegisterFacultyKeepsConsistent | Code/app.py:109 | registration keeps the snapshot consistent |
| Operations.SamePlacementKeepsConsistent | Code/app.py:141-142 | changing only accounts, passwords, flags and marks keeps the snapshot consistent |
| Operations.LoginKeepsConsistent | Code/app.py:141-142 | login keeps the snapshot consistent |
| Operations.LoginKeepsInvariants | Code/app.py:141-142 | login keeps the class order well formed, and keeps a consistent snapshot consistent |
| Operations.CreateClassKeepsConsistent | Code/app.py:211-219 | class creation keeps the snapshot consistent, including unique names ignoring case |
| Operations.CreateClassKeepsInvariants | Code/app.py:211-219 | class creation keeps the class order well formed, and keeps a consistent snapshot consistent |
| Operations.InsertEmptyClassKeepsConsistent | Code/app.py:219 | storing an empty class whose name no other class has keeps the snapshot consistent |
| Operations.InsertClassWellFormed | Code/app.py:219 | storing a class keeps the class order listing each class once |
| Operations.AddSubjectKeepsConsistent | Code/app.py:233-236 | adding a subject keeps the snapshot consistent |
| Operations.ReplaceClassKeepsConsistent | Code/app.py:236 | replacing a class with one of the same name and roster and distinct subjects keeps the snapshot consistent |
| Operations.EnrolKeepsConsistent | Code/app.py:252-263 | a successful enrolment of a consistent snapshot under an id not yet in use keeps rosters resolved and rolls unique per class |
| Operations.EnrolledKeepsConsistent | Code/app.py:261-263 | storing a new student of the class, whose roll is not on the roster, and appending it keeps the snapshot consistent |
| Operations.EnrolledRostersResolve | Code/app.py:261-263 | after enrolment every roster id still names a student of that class |
| Operations.EnrolledRollsUnique | Code/app.py:252-263 | after enrolment the rolls on that roster are still unique |
| Operations.SaveMarksKeepsConsistent | Code/app.py:310 | saving marks keeps the snapshot consistent |
| Operations.RegisterFaculty | Code/app.py:87-109 | definition of `_register_faculty`: the checks in source order (empty stripped username, taken username, missing name, missing password), each with its own error, then the new account |
| Operations.Login | Code/app.py:114-118 | definition of `_handle_login`: both entries are stripped before the checks |
| Operations.LoginAs | Code/app.py:118-147 | definition of the login checks: missing credentials, then the role's account and password, then the first-login gate |
| Operations.IsClassName | Code/app.py:17 | definition of `CLASS_NAME_REGEX`: one or more digits, then one ASCII letter |
| Operations.ClassNameTaken | Code/app.py:211-216 | definition of the duplicate scan: some class has the name ignoring case |
| Operations.CreateClass | Code/app.py:199-204 | definition of `_create_class`: the name is stripped before the checks |
| Operations.CreateClassAs | Code/app.py:205-219 | definition of the class checks: empty name, pattern, duplicate ignoring case, then the new empty class owned by the current user |
| Operations.AddSubjectToClass | Code/app.py:229-236 | definition of `_add_subject_to_class` after the class is chosen: an empty answer is refused, a listed stripped name is a duplicate, otherwise it is appended |
| Operations.NewStudent | Code/app.py:259-262 | definition of the new student record: the name, the drawn password, a pending first login, the class, the roll and no marks |
| Operations.RegisterStudentToClass | Code/app.py:245-263 | definition of `_register_student_to_class` after the class is chosen: the roll checks, the roster scan, the name check, then storing the record and appending its id |
| Operations.KindOf | Code/app.py:304-309 | definition of how `save_marks` reads one entry: stripped, blank is skipped, `int()` failures and negatives stop the save |
| Operations.WriteMarks | Code/app.py:303-310 | definition of the writes of the save loop: each valued entry sets its subject's mark, in form order |
| Operations.SaveMarks | Code/app.py:301-316 | definition of `save_marks`: the writes before the first invalid entry, and success exactly when there is none |
| Operations.MarkText | Code/app.py:298 | definition of the prefill text: `str()` of the stored mark, or empty when there is none |
| Operations.Prefilled | Code/app.py:294-299 | definition of the form: one entry per subject, in subject order, holding the prefill text |
| Operations.Label | Code/app.py:340 | definition of a class-list entry: `"<name> (<id>)"` |
| Operations.RowsOf | Code/app.py:328 | definition of the rows built from the result: (rank, id, total) per key, in key order |
| Operations.InsertClass | Code/app.py:219 | definition of storing a class: the id maps to the record, and a new id goes to the end of the key order |
| CodeUtils.MarkValue | Code/utils.py:35-38 | definition of one mark's contribution: a missing mark is 0, an integer counts as itself, a string as `int()` of it or 0 when that raises, anything else 0 |
| CodeUtils.SumMarks | Code/utils.py:33-38 | definition of the accumulator loop over the subjects, in subject order |
| CodeUtils.TotalOf | Code/utils.py:32-38 | definition of one roster entry's total: the sum over the student's marks, or over no marks when the record is missing |
| CodeUtils.ScoresOf | Code/utils.py:31-39 | definition of the `totals` list: one (id, total) pair per roster entry, in roster order |
| RankEngine.CountAbove | Code/utils.py:44-50 | the number of strictly greater totals in the list, at most its length |
| RankEngine.RankOf | Code/utils.py:44-50 | definition of the competition rank: one plus the number of strictly greater totals |
| StrictUtils.HasUnconvertibleMark | utils.py:29-33 | definition of the raising case: some roster entry's accumulator meets a mark `int()` rejects |
| App.SmsApp.constructor | Code/app.py:39-41 | start-up holds the loaded snapshot, with nobody logged in |
| App.SmsApp.RegisterFaculty | Code/app.py:87-111 | the outcome and new snapshot are those of the registration function; the session is unchanged; consistency is kept |
| App.SmsApp.HandleLogin | Code/app.py:114-148 | on success the snapshot is the login function's result and the session is the stripped user with the chosen role; on failure nothing changes; consistency is kept |
| App.SmsApp.Logout | Code/app.py:193-196 | clears user and role; the snapshot is unchanged |
| App.SmsApp.CreateClass | Code/app.py:199-222 | the class is created under the id built from the clock and drawn letter, as the creation function describes; the session is unchanged; consistency is kept |
| App.SmsApp.ChooseClassForFaculty | Code/app.py:333-342 | the scan over the classes returns the first class whose entry equals the selection |
| App.SmsApp.AddSubjectToClass | Code/app.py:225-238 | with no usable selection nothing changes; otherwise the subject is added as the function describes; consistency is kept |
| App.SmsApp.RegisterStudentToClass | Code/app.py:241-266 | with no usable selection nothing changes; otherwise enrolment happens as the function describes, and the generated id and password are returned exactly on success; consistency is kept when the generated id is not already in use |
| App.SmsApp.SaveMarks | Code/app.py:301-316 | the snapshot and success flag are those of the mark-saving function; consistency is kept |
| App.SmsApp.WriteEntries | Code/app.py:303-310 | the loop updates one student's marks in place up to the first invalid entry, and reports whether it finished |
| App.SmsApp.PopulateClassCombo | Code/app.py:344-350 | the class list is the current user's classes, in dictionary order, as `"<name> (<id>)"` |
| App.SmsApp.RefreshRankList | Code/app.py:321-331 | with no usable selection nothing is shown; otherwise the rows form the rank table, or the display fails exactly when the roster holds an id with no record |
| App.ClassListValues | Code/app.py:346 | the filtering loop builds exactly the entries of the user's classes, in order |
| App.CheckEnrolment | Code/app.py:245-258 | the checks before writing fail with exactly the enrolment function's error, or pass with the stripped roll |
| App.ScanRoster | Code/app.py:252-255 | the roster loop's verdict is the roster check's |
| App.CheckAndInsertClass | Code/app.py:204-219 | the checks on the stripped name and the insertion give exactly the creation function's result |
| App.ScanClassNames | Code/app.py:211-216 | the `for ... else` scan finds a duplicate exactly when some class has the same name ignoring case |
| App.ShowRows | Code/app.py:329-331 | the display loop completes exactly when every row's id has a student record |
| App.ReadEntries | Code/app.py:303-309 | the reading loop classifies every entry in order |

## Left out

- Storage: `load_data` and `save_data` (JSON files) are left out. A save after each change is a no-op in the model. The start-up snapshot is a constructor parameter, and `Code/storage.py` is not part of this model.
- The first-revision `app.py` screens are left out. They write the same dictionaries without validation.
- Everything tkinter is left out: widgets, styling, message boxes, the marks window, the student popup and the student view. Of `_add_update_marks`, only the `save_marks` closure is modelled. Its "add subjects first", "no students" and student-choice guards only decide whether the form opens.
- Dialog re-prompt loops (`while True` around a dialog) become one attempt. A cancelled or refused answer is returned as an error.
- Randomness and the clock are inputs:
  - the `random.choices` and `random.choice` draws are index sequences;
  - `datetime.now().timestamp()` is whole seconds.
- Text.ParseInt: Python's `int()` also accepts Unicode digits and underscores between digits. The model accepts ASCII digits with an optional sign and surrounding tab-to-carriage-return and space characters, and rejects the separators 0x1C-0x1F as `int()` does.
- Likewise `str.isdigit`, the regex `\d`, `str.strip` and `str.lower` are modelled on ASCII only.
- JSON values other than integers and strings in a stored mark are one case, `OtherMark`:
  - the defensive revision counts it 0;
  - the strict revision raises.

  `int()` would instead truncate a float and read a bool as 0 or 1. The application itself only stores integers.
- App.SmsApp.RefreshRankList: when a ranked id has no student record, the source has already inserted the rows before it when the KeyError stops the loop. The model reports the failure, not those partial rows. The name and roll columns of the table are not modelled; only the rank, id and total are.
- After a change, the handlers refresh the class list or the rank table. These follow-up calls are display only and are modelled as separate methods.
- App.SmsApp.SaveMarks: the source reads each entry and writes it in the same loop iteration. The model classifies all entries first and then writes up to the first invalid one. The resulting snapshot and outcome are the same.
- An empty dictionary stored as a class is falsy in Python, and `compute_totals_and_ranks` would return `{}` for it. Class records here always have their four fields, so this case does not arise.
- `Operations.SaveMarks` takes the form entries as a list. The source keeps them in a dictionary keyed by subject, so a subject listed twice collapses to one entry. The per-subject lemmas assume distinct subjects.
- The login and registration handlers also show the dashboards; that is display only.
- The snapshot always has all three top-level dictionaries. The handlers index `self.data["faculties"]`, `["classes"]` and `["students"]` directly (`Code/app.py:109`, `:219`, `:262`), so a loaded file lacking one of these keys would raise KeyError there. The snapshot `load_data` returns for a missing or unreadable file has all three (`Code/storage.py:14`, `:20`); a file read as-is is not checked.
