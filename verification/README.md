# Student roster core in Dafny

This project models the core of a single-file console application (`index.js`)
that keeps a roster of students: each student has an id, a name, a class name and
a map from subject to score. The core consists of the validation helpers
`isNonEmptyString`, `isValidId` and `isValidScore`, the `Student` class
(constructor, setters, `addGrade`, `getAverage`, `getGradeStatus`, `toJSON`,
`fromJSON`) and the `StudentManager` class (`loadFromFile`, `saveToFile`,
`addStudent`, `removeStudent`, `findStudent`, `updateStudent`, `getAllStudents`,
`getTopStudents`, `filterByClass`).

Modules, one file each:

- `Results` (`results.dfy`): `Option`, `Result`, `Outcome`. It also holds the error
  conditions and their messages, and `MapAll`, which is `xs.map(f)` for an `f`
  that may throw.
- `Text` (`text.dfy`): JavaScript's `String.prototype.trim` over the ECMAScript
  whitespace set, and the non-blank guard built on it.
- `Grades` (`grades.dfy`): the score check, the constructor's grade filter, the
  average and the pass/fail status.
- `Record` (`record.dfy`): a student as a value, which is the object `toJSON`
  returns. It gives the value-level meaning of the constructor, `fromJSON`, the
  setters, `addGrade` and the patch `updateStudent` applies.
- `Students` (`students.dfy`): the `Student` class. Its fields change in place.
  Every method is proved against the matching `Record` function and keeps the
  invariant `Valid()`.
- `Ranking` (`ranking.dfy`): the stable descending sort and `slice(0, n)` used by
  `getTopStudents`.
- `Roster` (`roster.dfy`): the `StudentManager` class. The file store is a ghost
  field `persisted` that holds the records last written.

Thrown errors become `Failure`/`Fail` values that carry an `Error`. An operation
that throws part-way keeps the changes it made before the throw, as the source
does.

## Model

| member | source | states |
|---|---|---|
| Text.Trim | index.js:24 | `String.prototype.trim`: the leading, then the trailing ECMAScript whitespace is cut; the result is never longer than the input (its exact shape is `Text.TrimIsInfix`) |
| Text.IsNonEmptyString | index.js:23-28 | `isNonEmptyString` and `isValidId`: some character of the string is not whitespace (equal to the source's `trim().length > 0` by `Text.NonEmptyIffTrimNonEmpty`) |
| Text.NonEmptyIffTrimNonEmpty | index.js:23-28 | the guard holds exactly when `trim()` leaves a non-empty string, i.e. when some character is not whitespace |
| Text.TrimEmptyIffBlank | index.js:23-25 | `trim()` yields `""` exactly when every character is whitespace |
| Text.TrimIsTrimmed | index.js:24 | the result of `trim()` has no whitespace at either end |
| Text.TrimIsInfix | index.js:24 | `trim()` returns the infix of the input between a whitespace-only prefix and a whitespace-only suffix |
| Text.TrimOfTrimmed | index.js:24 | a string with no whitespace at either end is its own trim |
| Text.TrimIdempotent | index.js:24 | trimming twice is the same as trimming once |
| Text.StoredIffOwnTrim | index.js:49-51 | a stored name or class name is exactly a non-blank string that `trim()` leaves unchanged |
| Text.TrimmedIsStored | index.js:50-51 | the trimmed form of an accepted string is a valid stored name or class name |
| Grades.IsValidScore | index.js:29-31 | `isValidScore`: a score from 0 to 100, both ends included |
| Grades.KeepValid | index.js:52-58 | the constructor keeps exactly the entries whose score is valid, under their keys as given (blank or untrimmed keys included), with their scores, except a `"__proto__"` entry, whose assignment the inherited prototype setter ignores |
| Grades.Sum | index.js:93-95 | the `reduce` in `getAverage`: the stored scores added one subject at a time; `Grades.SumRemove` shows the order does not matter |
| Grades.KeepValidOfValid | index.js:55-58 | a map of valid scores passes the constructor's filter unchanged |
| Grades.SumRemove | index.js:95 | the sum of the scores does not depend on which subject is taken first |
| Grades.SumBounds | index.js:93-96 | with every score in [0, 100], the sum lies between 0 and 100 times the number of subjects |
| Grades.Mean | index.js:92-97 | the average is 0 with no grades and lies in [0, 100] when the scores are valid |
| Grades.Status | index.js:99-102 | the status is "Lulus" exactly when the average is at least 75, and "Tidak Lulus" otherwise |
| Grades.BoundaryAverage | index.js:92-102 | scores 90 and 60 average exactly 75, which passes because the threshold is inclusive |
| Record.Construct | index.js:43-59 | succeeds exactly when id, name and class name are non-blank; the error is for the first failing check in that order; on success the id is kept, name and class name are trimmed, only valid grades are kept (never under `"__proto__"`), and the record is well-formed |
| Record.Decode | index.js:131-138 | every well-formed record, which includes every `toJSON` result, decodes to itself; anything decoded is well-formed |
| Record.WithName | index.js:75-78 | refuses a blank name; otherwise only the name changes, to the trimmed value; well-formedness is kept |
| Record.WithClassName | index.js:79-82 | refuses a blank class name; otherwise only the class name changes, to the trimmed value; well-formedness is kept |
| Record.WithGrade | index.js:84-90 | the subject is checked before the score; on success the trimmed subject gets the score, no other key is added or changed, the identity fields stay as they were, and well-formedness is kept; a trimmed subject `"__proto__"` passes both checks and changes nothing |
| Record.ProtoKeyNeverStored | index.js:52-89 | `addGrade("__proto__", 80)` succeeds without storing anything, and a constructor given only a `"__proto__"` grade ends with no grades |
| Record.GradeStep | index.js:204-205 | one entry of the update's grade loop: an invalid score is skipped with nothing changed; a valid one fails, changing nothing, exactly when its subject is blank, and otherwise gives exactly `Record.WithGrade`'s record; well-formedness is kept |
| Record.MergeGrades | index.js:201-207 | the grade loop leaves id, name and class name alone, only adds keys, keeps well-formedness, and fails (with a blank-subject error) exactly when some entry with a valid score has a blank subject |
| Record.MergeGradesResult | index.js:201-207 | after a completed loop, each subject holds the score of its last valid entry, or its old score if the patch has no valid entry for it |
| Record.MergeGradesStops | index.js:203-206 | once an entry throws, later entries are never applied |
| Record.InvalidScoresIgnored | index.js:204-205 | entries whose scores are all invalid change nothing |
| Record.ApplyPatch | index.js:196-209 | the update succeeds exactly when every given field and every valid-scored subject is non-blank; the error is for the first failing step; a name or class name is applied exactly when it is given and every step before it passed; a refused name or class name leaves the grades as they were; when the whole patch applies, each subject holds the score of its last valid entry in the patch, or its old score; the id never changes and well-formedness is kept |
| Record.OutOfRangeSkipped | index.js:199-207 | renaming with `{ Math: 150 }` renames the student and leaves the grades unchanged |
| Record.BlankSubjectAfterRename | index.js:199-207 | a rename followed by a blank subject with a valid score fails, but the rename has already been applied |
| Students.Student.ToJson | index.js:122-129 | `toJSON`: the record of the four fields; the grade map is a value, so the returned copy cannot be changed through the student, as with `{ ...this._grades }` |
| Students.Student.constructor | index.js:43-59 | the new object holds exactly what `Record.Construct` returns for its inputs, and is valid |
| Students.Student.Create | index.js:43-59 | `new Student(...)` with its throws: failure exactly as `Record.Construct` fails; otherwise a fresh valid student holding the constructed record |
| Students.Student.FromJson | index.js:131-138 | fails exactly as `Record.Decode` fails; otherwise a fresh valid student holding the decoded record |
| Students.Student.Restore | index.js:131-138 | on a well-formed record, `fromJSON` gives a fresh valid student holding exactly that record |
| Students.Student.SetName | index.js:75-78 | the new state is what `Record.WithName` gives, or unchanged on failure; validity is kept |
| Students.Student.SetClassName | index.js:79-82 | the new state is what `Record.WithClassName` gives, or unchanged on failure; validity is kept |
| Students.Student.AddGrade | index.js:84-90 | the new state is what `Record.WithGrade` gives, or unchanged on failure; validity is kept |
| Students.Student.MergeEntries | index.js:201-207 | the loop over the patch's grade entries reaches exactly the state and outcome of `Record.MergeGrades` |
| Students.Student.Update | index.js:199-207 | name, class name and grades applied in turn reach exactly the state and outcome of `Record.ApplyPatch` |
| Students.Student.Average | index.js:92-97 | 0 with no grades; within [0, 100] for a valid student |
| Students.Student.GradeStatus | index.js:99-102 | "Lulus" exactly when the student's average is at least 75 |
| Results.MapAll | index.js:155 | when every element maps successfully, the result has one entry per element |
| Results.MapAllSpec | index.js:155 | the mapped list exists exactly when `f` succeeds on every element, and then holds each element's result at its position |
| Roster.FirstIndex | index.js:186 | `findIndex`: -1 exactly when no student has the id; otherwise the first position holding it |
| Roster.Snapshots | index.js:170 | one record per student, in list order, each the student's `toJSON()` |
| Roster.Load | index.js:150-166 | every loaded record is well-formed; a missing store, or one with a record the constructor rejects, loads as empty; a store of well-formed records loads back unchanged and in order |
| Roster.LoadDecodes | index.js:150-155 | when every stored record is accepted, the loaded list has one entry per record, in order, each being that record's `fromJSON` result (names trimmed, invalid scores and `"__proto__"` dropped) |
| Roster.SaveLoadRoundTrip | index.js:150-175 | the records saved for valid students load back as the same records, in the same order |
| Roster.RestoreAll | index.js:155 | one valid student per decoded record, in order, each holding exactly its record |
| Roster.AppendKeeps | index.js:177-183 | appending a valid student keeps every student valid, and keeps ids distinct when the new id is not yet taken |
| Roster.RemoveAt | index.js:188 | `splice(i, 1)`: one entry fewer; entries before `i` stay in place and later ones move up one |
| Roster.RemoveAtKeeps | index.js:185-190 | removing an entry keeps every student valid and ids distinct; with distinct ids, the removed id is gone |
| Roster.KeepClass | index.js:232-234 | the filter keeps only students of the class, and keeps each of them as many times as it is listed |
| Roster.KeepClassConcat | index.js:233 | the filter keeps list order: filtering a concatenation filters each part |
| Roster.Averages | index.js:217 | each student's average, position by position |
| Roster.StudentManager.constructor | index.js:145-166 | the loaded list is valid and its records are exactly `Roster.Load` of the store |
| Roster.StudentManager.SaveToFile | index.js:168-175 | the store afterwards holds every listed student's record in list order; the list itself is unchanged |
| Roster.StudentManager.FindStudent | index.js:192-194 | null exactly when no student has the id; otherwise the first student with that id |
| Roster.StudentManager.AddStudent | index.js:177-183 | fails with a duplicate-id error, changing nothing, exactly when the id is taken; otherwise appends the student and saves, and `findStudent` on its id then returns it; keeps validity and distinct ids |
| Roster.StudentManager.RemoveStudent | index.js:185-190 | fails with not-found, changing nothing, exactly when no student has the id; otherwise removes the first student with the id, keeps the rest in order, and saves; keeps validity and distinct ids; with distinct ids the id is then absent |
| Roster.StudentManager.UpdateStudent | index.js:196-209 | not-found when the id is absent; otherwise the first student with the id changes exactly as `Record.ApplyPatch` says and no other student changes; the list is saved only if the whole patch applied |
| Roster.StudentManager.AllStudents | index.js:211-213 | a copy of the list holding the same students in the same order |
| Roster.StudentManager.TopStudents | index.js:215-219 | `slice(0, n)` of the list stably sorted by descending average: its length follows `slice`, averages never increase along it, and entry `a` is the student at `Ranking.Top` position `a` |
| Roster.StudentManager.FilterByClass | index.js:232-234 | a student is in the result exactly when it is listed and its class name equals the query exactly |
| Ranking.Rank | index.js:216-217 | the sorted positions are an arrangement of all positions: higher averages come first, and equal averages keep list order |
| Ranking.RankUnique | index.js:216-217 | any arrangement that respects that order is exactly `Rank`, so a stable sort's result is fully determined |
| Ranking.SliceEnd | index.js:218 | where `slice(0, n)` stops, including for `n` larger than the list and for negative `n` |
| Ranking.Top | index.js:215-219 | a prefix of the ranking, as long as `slice(0, n)` allows, and ordered |
| Ranking.TopOutranksRest | index.js:215-219 | every student left out of the top list is outranked by every student in it |
| Ranking.TopThreeExample | index.js:215-219 | with averages 50, 90, 90, 70, 30 the top three are positions 1, 2, 3, and the tie stays in list order |

## Left out

- File I/O (`fs.existsSync`, `readFileSync`, `writeFileSync`, `JSON.parse`/`stringify`) is replaced by values. The store is an `Option` of a record list: `None` stands for a missing or unparsable file. Saving assigns the ghost field `persisted`.
- Roster.StudentManager.SaveToFile: a failed write is only logged by the source and is not modelled; every save succeeds.
- Console output is left out: the `console.error` in load and save, `displayInfo`, `displayAllStudents`, `exportReport`, `formatNumber` and the interactive menu.
- Dynamic typing is not modelled. `typeof` checks, `Number(...)` coercion, `NaN`/`Infinity`, `String(id)` coercion in lookups and the `instanceof` check in `addStudent` disappear, because ids and names are strings and scores are numbers by type.
- Scores are exact reals, not IEEE doubles. The average is exact division, so float rounding near the 75 threshold is not modelled.
- `fromJSON` on an object with missing fields (`obj.grades || {}`, `undefined` name) is not modelled: a stored record always has all four fields.
- Key order of the grade maps is not modelled. The patch's grade entries are a sequence in `Object.entries` order, because order matters when a later entry throws.
- Students.Student.Average, Roster.StudentManager.TopStudents: these are ghost. The sum picks subjects in an unspecified order; `Grades.SumRemove` shows that the order does not matter.
- Roster.StudentManager.constructor: does not state that the loaded students are new objects.
- Roster.RestoreAll: all records are decoded before any `Student` is built. The source builds them one by one and drops them when one throws; the resulting list is the same.
- `loadFromFile` does not check that ids are unique, so uniqueness is kept as a separate predicate `UniqueIds`. `addStudent` and `removeStudent` preserve it.

## Notes on the code

Behaviour of `index.js` that may look unintended; the model follows the code:

- A throwing `addGrade` inside `updateStudent` aborts the update. The name, the class name and the earlier grades stay applied, and nothing is saved (`Record.BlankSubjectAfterRename`).
- A failed save is only logged; the caller is not told. The model has no failing write (see `Roster.StudentManager.SaveToFile` above).
- The constructor keeps initial grade keys as given, so a blank or untrimmed subject survives construction, while `addGrade` refuses a blank subject and trims the rest (`Grades.KeepValid`).
- The grade table is a plain object, so the subject `"__proto__"` is accepted and silently dropped (`Record.ProtoKeyNeverStored`).
