# Tasdeo roster and remark logic, modelled in Dafny

Tasdeo is a class-roster and remark-tracking web front end. Most of it is
page routing, layout and reads and writes against a hosted document store.
Two pages hold list-processing logic with behaviour worth stating, and this
project models that logic over in-memory sequences:

- **The set-up page** (`src/pages/SetUp.jsx`).
  - It keeps a list of the directory's student ids, built by inserting each
    id at the front.
  - It checks an uploaded student list against that list, collecting every
    clash. It writes the whole list, in order, only when there is no clash.
  - It creates a class section unless exactly one class with the same
    course, year, semester and section already exists.
  - A new section gets an order code: the digits of the year, then a
    per-term counter, then a one-digit section code. It starts with an
    empty roster.
- **The class page** (`src/pages/ClassDetail.jsx`).
  - It finds the class named by the route.
  - It joins the class's roster against the student directory with nested
    loops.
  - It narrows the result by an optional tag.
  - It counts each shown student's remarks and positive remarks.
  - It emits one student card per shown student, in display order.
  - It emits one CSV row per shown student, in reverse display order.

Student ids are integers. The store is replaced by parameters: the
directory, the professor's classes and the remarks are passed in as
sequences. The documents the upload would add are returned as a sequence.

Files:

- `records.dfy` (module `Records`): the stored documents. These are
  `Student`, `Remark`, `ClassSection` and `StoredClass`, plus the
  `Semester` and `Section` choices of the class form.
- `sequences.dfy` (module `Sequences`): reversal and its lemmas. Both pages
  build a list with `unshift`, which yields the reverse of the scan order.
- `decimal.dfy` (module `Decimal`): `toString` and `Number` on naturals. It
  proves that writing two numbers one after the other and reading the text
  back gives `a * 10^digits(b) + b`.
- `setup.dfy` (module `SetUp`): the student-list upload and class-section
  creation.
- `class_detail.dfy` (module `ClassDetail`): the class lookup, roster join,
  tag filter, remark counts, CSV rows and cards.

The upload checks each uploaded id only against the directory's ids, and it
writes directory documents, not roster entries. So an id repeated inside one
batch but absent from the directory is accepted and written twice
(`SetUp.RepeatInBatchIsWrittenTwice`).

## Model

| member | source | states |
|---|---|---|
| `Sequences.ReverseAt` | src/pages/ClassDetail.jsx:67-84 | element k of a list built by prepending is element n-1-k of the scanned list |
| `Sequences.ReverseSnoc` | src/pages/SetUp.jsx:111-114 | prepending the next scanned element to the reverse of the prefix gives the reverse of the longer prefix |
| `Sequences.ReverseMultiset` | src/pages/SetUp.jsx:111-114 | a list built by prepending has the same members, with the same multiplicities, as the scanned list |
| `Sequences.ReverseMembers` | src/pages/SetUp.jsx:111-114 | x is in the reversed list iff x is in the original |
| `Decimal.DecimalString` | src/pages/SetUp.jsx:92 | `toString` of a natural is a non-empty digit string with no leading zero |
| `Decimal.ParseDecimalString` | src/pages/SetUp.jsx:91-93 | `Number(n.toString()) == n` for every natural n |
| `Decimal.DecimalStringBound` | src/pages/SetUp.jsx:92 | a natural is below 10 to the power of its digit count |
| `Decimal.ParseAppend` | src/pages/SetUp.jsx:91-93 | reading two digit strings written one after the other gives the first value shifted left by the second's length, plus the second value |
| `Decimal.Concat` | src/pages/SetUp.jsx:91-93 | `Number(a.toString() + b.toString()) == a * 10^digits(b) + b` |
| `SetUp.CollectDirectoryIds` | src/pages/SetUp.jsx:111-114 | the page's id list is the directory's ids in reverse order, with exactly the same members and multiplicities |
| `SetUp.ClashesCount` | src/pages/SetUp.jsx:132-137 | an id occurs among the clashes exactly as often as in the batch if it is a directory id, and not at all otherwise |
| `SetUp.ClashesEmpty` | src/pages/SetUp.jsx:133-138 | there is no clash iff no batch id is a directory id; repeats within the batch never clash |
| `SetUp.ClashesSameMembers` | src/pages/SetUp.jsx:111-134 | the clash list depends only on which ids are known, not on their order, so the reversed id list gives the same clashes as the directory order |
| `SetUp.RepeatInBatchIsWrittenTwice` | src/pages/SetUp.jsx:133-149 | an id repeated in one batch but absent from the directory causes no clash, and both copies become documents with that id |
| `SetUp.FindDuplicates` | src/pages/SetUp.jsx:132-137 | the duplicate loop collects exactly the batch ids that are in the id list, in batch order and with repeats; x is reported iff x is both a batch id and a known id |
| `SetUp.SubmitStudentList` | src/pages/SetUp.jsx:130-155 | with no list loaded, nothing is written; with any clash, nothing is written and every clash is reported in batch order; otherwise every record is written exactly once, in batch order, as a student with its name and numeric id |
| `SetUp.SectionCode` | src/pages/SetUp.jsx:72-89 | a section's code is between 1 and 5, and it is 5 exactly for "none" |
| `SetUp.SectionCodeInjective` | src/pages/SetUp.jsx:72-89 | distinct sections get distinct codes |
| `SetUp.OrderCode` | src/pages/SetUp.jsx:91-93 | the order code's last digit is the section code, and the digits before it are the year followed by the counter |
| `SetUp.OrderCodeFields` | src/pages/SetUp.jsx:91-93 | the year and the counter can be read back from the order code by division by powers of ten |
| `SetUp.CreateClass` | src/pages/SetUp.jsx:56-102 | refused iff exactly one existing class has the same course, year, semester and section; otherwise the new class has the form's fields, the professor's id and an empty roster, and its order code is year·(1 + classes of the same term)·section code |
| `SetUp.CreatedClassCounts` | src/pages/SetUp.jsx:56-70 | adding the created class raises both the same-section count and the same-term count by one |
| `SetUp.ResubmissionRefused` | src/pages/SetUp.jsx:56-65 | after a first creation from no match, the same form is refused |
| `SetUp.TwoMatchesAllowAThird` | src/pages/SetUp.jsx:56-66 | with two matching sections already present, a third is created |
| `ClassDetail.FirstWithId` | src/pages/ClassDetail.jsx:50 | the index found is that of the first class with the route's id, or the list's length when no class has it |
| `ClassDetail.FindClass` | src/pages/ClassDetail.jsx:50 | there is no class iff no class has the id; the class found is the first one with the id |
| `ClassDetail.WithIdCount` | src/pages/ClassDetail.jsx:53-57 | the inner loop keeps each directory student with the given id as often as it occurs, and no other student |
| `ClassDetail.WithIdMembers` | src/pages/ClassDetail.jsx:53-57 | the inner loop keeps exactly the directory students with the given id |
| `ClassDetail.JoinMembers` | src/pages/ClassDetail.jsx:51-58 | a student is in the class list iff it is in the directory and its id is on the roster; unknown roster ids contribute nothing |
| `ClassDetail.WithIdAbsent` | src/pages/ClassDetail.jsx:53-57 | an id absent from the directory matches no student |
| `ClassDetail.WithIdUnique` | src/pages/ClassDetail.jsx:53-57 | in a directory with unique ids, a known id matches exactly that one student |
| `ClassDetail.JoinFollowsRoster` | src/pages/ClassDetail.jsx:51-58 | with unique directory ids and every roster id known, the class list has one student per roster id, in roster order |
| `ClassDetail.JoinRoster` | src/pages/ClassDetail.jsx:51-58 | the nested loops produce, for each roster id in roster order, every directory student with that id, in directory order |
| `ClassDetail.WithTagCount` | src/pages/ClassDetail.jsx:63-65 | the tag filter keeps each student with that tag as often as it occurs, and drops every other student |
| `ClassDetail.WithTagAppend` | src/pages/ClassDetail.jsx:63-65 | the filter distributes over concatenation, so relative order is preserved |
| `ClassDetail.Displayed` | src/pages/ClassDetail.jsx:61-65 | with no tag, or an empty one, the shown list is the class list; otherwise it is the order-preserving tag filter of the class list, holding each tagged student as often as the class list does and no other |
| `ClassDetail.RemarksOfCount` | src/pages/ClassDetail.jsx:73-76 | a student's remarks hold each remark carrying the student's id as often as it occurs, and no other remark |
| `ClassDetail.PositivesCount` | src/pages/ClassDetail.jsx:77-79 | the positive remarks hold each remark of the positive type as often as it occurs, and no other, so they are no more than the remarks |
| `ClassDetail.PositiveRemarksOf` | src/pages/ClassDetail.jsx:73-79 | a student's positive remarks are exactly the positive remarks carrying the student's id, with their multiplicities |
| `ClassDetail.RateValue` | src/pages/ClassDetail.jsx:77-82 | the rate, defined only when there are remarks, lies in [0, 1] |
| `ClassDetail.RateOf` | src/pages/ClassDetail.jsx:73-82 | the rate's total is the number of the student's remarks, its positive count is the number of those that are positive, and the latter never exceeds the former |
| `ClassDetail.NoRemarksNoRate` | src/pages/ClassDetail.jsx:77-82 | a student with no remarks has the rate 0 of 0, for which no value is defined |
| `ClassDetail.RowFor` | src/pages/ClassDetail.jsx:68-82 | a row copies the student's name, id and tag unchanged, and carries the student's remark count and positive rate, the positive count no larger than the total |
| `ClassDetail.BuildCsvData` | src/pages/ClassDetail.jsx:67-84 | the export has one row per shown student, in reverse order: row i is the row of shown student n-1-i |
| `ClassDetail.Cards` | src/pages/ClassDetail.jsx:86-103 | one card per shown student, in display order, keyed by and showing the student's id, name and tag, with the student's remark count and positive rate |
| `ClassDetail.CardsMatchExport` | src/pages/ClassDetail.jsx:67-103 | card i and export row n-1-i describe the same student with the same counts |
| `ClassDetail.ShowClass` | src/pages/ClassDetail.jsx:47-103 | the page exists iff some class has the route's id; its shown list, CSV rows and cards are the join, filter, reversed rows and cards of the first such class |

## Left out

- Store and session access are not modelled: the loaders, `getDocs`,
  `addDoc`, `query`, `requireAuth`, `getAuth` and `localStorage`. They are
  network and browser I/O. The collections are parameters, the professor id
  is a parameter, and the added documents are returned.
- The store's ids for new documents are not modelled. The created class
  record carries no `classId`, as in the code.
- CSV parsing (`Papa.parse`) and the JSON stringify and parse round trip
  are not modelled. The parser is a foreign library. An upload arrives as an
  optional sequence of (name, numeric id) records, and `None` means no file
  was loaded.
- `Number(...)` on strings, its NaN cases, and loose `==` against strict
  `===` are not modelled. This is JavaScript coercion. Ids are
  already-canonical integers on both sides.
- Float formatting is not modelled: `toFixed(2)`, the percentage string and
  its `"NaN%"` rendering for zero remarks. The rate is the pair
  (positive, total), and its value exists only when total > 0.
- Section values outside the five choices of the form are not modelled.
  `Section` is a five-value type, so the undefined section code of an
  unknown value cannot arise.
- Semester and year come from the form's controls. The year is a natural
  number, which the number field's bounds guarantee.
- `SetUp.OrderCode`: JavaScript's double precision is not modelled. The
  code is an unbounded integer, and order codes of real years stay far
  below 2^53.
- Presentation is not modelled: `alert`, `toast`, `console.error` and the
  JSX markup. The upload's alerts appear only as its `SubmitOutcome`.
- `SetUp.SubmitStudentList`: the sequential `await`s and the per-write
  `try`/`catch` are not modelled. Every write is assumed to succeed. A failed
  write in the code is logged, and the remaining writes still run.
- Writes are returned as an ordinary sequence, not kept as ghost state.
- Adding uploaded ids to a class's roster is not part of this model. That
  code is not among the modelled files.
- The routing and display-only files are not modelled: `src/App.jsx`,
  `src/routers/index.jsx` and the components. They hold no logic.
