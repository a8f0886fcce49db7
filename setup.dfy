/** The set-up page: uploading a student list into the directory, and
    creating a class section with its order code. The store is abstracted
    away: the directory and the professor's classes arrive as sequences, and
    the documents the page would add are returned. */
module SetUp {
  import opened Records
  import opened Sequences
  import opened Decimal

  // ---------------------------------------------------------------------
  // Student-list upload
  // ---------------------------------------------------------------------

  /** One record of an uploaded student list, its id already a number. */
  datatype BatchRecord = BatchRecord(name: string, studentId: int)

  /** What the page reports after the upload button is pressed. */
  datatype SubmitOutcome =
    | NoFileInput              // no list was loaded: nothing happens
    | DuplicatedIds(ids: seq<int>)  // the upload is refused, listing every clash
    | Uploaded                 // every record was added

  function IdsOf(students: seq<Student>): seq<int> {
    seq(|students|, i requires 0 <= i < |students| => students[i].studentId)
  }

  function BatchIds(batch: seq<BatchRecord>): seq<int> {
    seq(|batch|, i requires 0 <= i < |batch| => batch[i].studentId)
  }

  /** The directory document written for one uploaded record. */
  function AsStudent(r: BatchRecord): Student {
    Student(r.studentId, r.name, None)
  }

  function AsStudents(batch: seq<BatchRecord>): seq<Student> {
    seq(|batch|, i requires 0 <= i < |batch| => AsStudent(batch[i]))
  }

  /** The list of directory ids the page keeps, built by inserting each
      directory id at the front: the directory's ids in reverse order. */
  method CollectDirectoryIds(students: seq<Student>) returns (studentIds: seq<int>)
    ensures studentIds == Reverse(IdsOf(students))
    ensures multiset(studentIds) == multiset(IdsOf(students))
    ensures forall x :: x in studentIds <==> x in IdsOf(students)
  {
    studentIds := [];
    for k := 0 to |students|
      invariant studentIds == Reverse(IdsOf(students[..k]))
    {
      assert IdsOf(students[..k + 1]) == IdsOf(students[..k]) + [students[k].studentId];
      ReverseSnoc(IdsOf(students[..k]), students[k].studentId);
      studentIds := [students[k].studentId] + studentIds;
    }
    assert students[..|students|] == students;
    ReverseMultiset(IdsOf(students));
    forall x ensures x in studentIds <==> x in IdsOf(students) {
      ReverseMembers(IdsOf(students), x);
    }
  }

  /** The ids of the batch, in batch order and with repeats, that already
      occur among the known ids. */
  function Clashes(batch: seq<BatchRecord>, known: seq<int>): seq<int> {
    if batch == [] then []
    else
      var last := batch[|batch| - 1];
      Clashes(batch[..|batch| - 1], known) + (if last.studentId in known then [last.studentId] else [])
  }

  /** Each id occurs among the clashes exactly as often as in the batch when
      it is known, and not at all otherwise. */
  lemma {:induction false} ClashesCount(batch: seq<BatchRecord>, known: seq<int>, x: int)
    ensures multiset(Clashes(batch, known))[x] == if x in known then multiset(BatchIds(batch))[x] else 0
  {
    if batch != [] {
      var init := batch[..|batch| - 1];
      ClashesCount(init, known, x);
      assert BatchIds(batch) == BatchIds(init) + [batch[|batch| - 1].studentId];
    }
  }

  /** The upload is refused exactly when some record's id is already in the
      directory; repeats inside the batch itself are never a clash. */
  lemma {:induction false} ClashesEmpty(batch: seq<BatchRecord>, known: seq<int>)
    ensures Clashes(batch, known) == [] <==> forall i :: 0 <= i < |batch| ==> batch[i].studentId !in known
  {
    if batch != [] {
      var init := batch[..|batch| - 1];
      ClashesEmpty(init, known);
      assert forall i :: 0 <= i < |init| ==> init[i] == batch[i];
    }
  }

  /** Only the members of the known ids matter, not their order. */
  lemma {:induction false} ClashesSameMembers(batch: seq<BatchRecord>, known: seq<int>, known': seq<int>)
    requires forall x :: x in known <==> x in known'
    ensures Clashes(batch, known) == Clashes(batch, known')
  {
    if batch != [] {
      ClashesSameMembers(batch[..|batch| - 1], known, known');
    }
  }

  /** An id repeated inside one batch but absent from the directory does
      not block the upload, and each copy becomes its own document. */
  lemma RepeatInBatchIsWrittenTwice(batch: seq<BatchRecord>, known: seq<int>, i: nat, j: nat)
    requires i < j < |batch| && batch[i].studentId == batch[j].studentId
    requires forall k :: 0 <= k < |batch| ==> batch[k].studentId !in known
    ensures Clashes(batch, known) == []
    ensures AsStudents(batch)[i].studentId == AsStudents(batch)[j].studentId
  {
    ClashesEmpty(batch, known);
  }

  /** The duplicate check: every record whose id is in the page's id list
      is collected, in batch order. */
  method FindDuplicates(batch: seq<BatchRecord>, studentIds: seq<int>) returns (duplicated: seq<int>)
    ensures duplicated == Clashes(batch, studentIds)
    ensures forall x :: x in duplicated <==> x in studentIds && x in BatchIds(batch)
  {
    duplicated := [];
    for k := 0 to |batch|
      invariant duplicated == Clashes(batch[..k], studentIds)
    {
      assert batch[..k + 1][..k] == batch[..k];
      if batch[k].studentId in studentIds {
        duplicated := duplicated + [batch[k].studentId];
      }
    }
    assert batch[..|batch|] == batch;
    forall x ensures x in duplicated <==> x in studentIds && x in BatchIds(batch) {
      ClashesCount(batch, studentIds, x);
    }
  }

  /** Pressing the upload button. With no list loaded nothing is written;
      with any clash against the directory nothing is written and every
      clash is reported; otherwise every record is written once, in batch
      order. */
  method SubmitStudentList(students: seq<Student>, upload: Option<seq<BatchRecord>>)
    returns (outcome: SubmitOutcome, written: seq<Student>)
    ensures upload.None? ==> outcome == NoFileInput && written == []
    ensures upload.Some? && Clashes(upload.value, IdsOf(students)) != [] ==>
      outcome == DuplicatedIds(Clashes(upload.value, IdsOf(students))) && written == []
    ensures upload.Some? && Clashes(upload.value, IdsOf(students)) == [] ==>
      outcome == Uploaded && written == AsStudents(upload.value)
  {
    var studentIds := CollectDirectoryIds(students);
    written := [];
    if upload.None? {
      outcome := NoFileInput;
      return;
    }
    var batch := upload.value;
    var duplicated := FindDuplicates(batch, studentIds);
    ClashesSameMembers(batch, studentIds, IdsOf(students));
    if duplicated == [] {
      for k := 0 to |batch|
        invariant written == AsStudents(batch[..k])
      {
        written := written + [AsStudent(batch[k])];
      }
      assert batch[..|batch|] == batch;
      outcome := Uploaded;
    } else {
      outcome := DuplicatedIds(duplicated);
    }
  }

  // ---------------------------------------------------------------------
  // Creating a class section
  // ---------------------------------------------------------------------

  /** The fields of the "add new class section" form. The year field only
      accepts whole numbers from the current year to 2099. */
  datatype ClassForm = ClassForm(courseName: string, year: nat, semester: Semester, section: Section)

  predicate SameSection(cls: ClassSection, form: ClassForm) {
    cls.courseName == form.courseName && cls.year == form.year
      && cls.semester == form.semester && cls.section == form.section
  }

  predicate SameTerm(cls: ClassSection, year: int, semester: Semester) {
    cls.year == year && cls.semester == semester
  }

  /** How many of the professor's classes have the form's course, year,
      semester and section. */
  function SameSectionCount(classes: seq<ClassSection>, form: ClassForm): nat {
    if classes == [] then 0
    else
      var last := if SameSection(classes[|classes| - 1], form) then 1 else 0;
      SameSectionCount(classes[..|classes| - 1], form) + last
  }

  /** How many of the professor's classes fall in the given year and semester. */
  function SameTermCount(classes: seq<ClassSection>, year: int, semester: Semester): nat {
    if classes == [] then 0
    else
      var last := if SameTerm(classes[|classes| - 1], year, semester) then 1 else 0;
      SameTermCount(classes[..|classes| - 1], year, semester) + last
  }

  /** The digit that encodes a section in the order code: none is 5, then
      a to d count down from 4 to 1. */
  function SectionCode(section: Section): (code: nat)
    ensures 1 <= code <= 5
    ensures code == 5 <==> section == NoSection
  {
    match section
    case NoSection => 5
    case A => 4
    case B => 3
    case C => 2
    case D => 1
  }

  /** Distinct sections get distinct codes. */
  lemma SectionCodeInjective(s: Section, s': Section)
    ensures SectionCode(s) == SectionCode(s') ==> s == s'
  {
  }

  /** `Number(year.toString() + classCount.toString() + sectionCode.toString())`:
      the year's digits, then the counter's, then the section code as the
      last digit. */
  function OrderCode(year: nat, classCount: nat, sectionCode: nat): (code: nat)
    requires sectionCode < 10
    ensures code == Concat(year, classCount) * 10 + sectionCode
    ensures code % 10 == sectionCode && code / 10 == Concat(year, classCount)
  {
    var y, n, s := DecimalString(year), DecimalString(classCount), DecimalString(sectionCode);
    ParseAppend(y, n);
    ParseAppend(y + n, s);
    ParseDecimalString(year);
    ParseDecimalString(classCount);
    ParseDecimalString(sectionCode);
    ParseDecimal(y + n + s)
  }

  /** The year and the counter can be read back from an order code. */
  lemma OrderCodeFields(year: nat, classCount: nat, sectionCode: nat)
    requires sectionCode < 10
    ensures var p := Pow10(|DecimalString(classCount)|);
      OrderCode(year, classCount, sectionCode) / 10 / p == year
      && OrderCode(year, classCount, sectionCode) / 10 % p == classCount
  {
    DecimalStringBound(classCount);
    DivModShift(year, Pow10(|DecimalString(classCount)|), classCount);
  }

  /** Submitting the form. The section is refused when exactly one existing
      class has the same course, year, semester and section; otherwise a new
      class with an empty roster is produced, numbered after the classes of
      the same term. */
  function CreateClass(classes: seq<ClassSection>, form: ClassForm, professorId: string): (created: Option<ClassSection>)
    ensures created.None? <==> SameSectionCount(classes, form) == 1
    ensures created.Some? ==>
      var c := created.value;
      && SameSection(c, form)
      && c.professorId == professorId
      && c.studentIds == []
      && c.orderCode % 10 == SectionCode(form.section)
      && c.orderCode / 10 == Concat(form.year, SameTermCount(classes, form.year, form.semester) + 1)
  {
    if SameSectionCount(classes, form) == 1 then None
    else
      var classCount := SameTermCount(classes, form.year, form.semester) + 1;
      var orderCode := OrderCode(form.year, classCount, SectionCode(form.section));
      Some(ClassSection(form.courseName, orderCode, professorId, form.section, form.semester, form.year, []))
  }

  /** Adding a created class raises both counts by one. */
  lemma CreatedClassCounts(classes: seq<ClassSection>, form: ClassForm, professorId: string)
    requires CreateClass(classes, form, professorId).Some?
    ensures var c := CreateClass(classes, form, professorId).value;
      && SameSectionCount(classes + [c], form) == SameSectionCount(classes, form) + 1
      && SameTermCount(classes + [c], form.year, form.semester) == SameTermCount(classes, form.year, form.semester) + 1
  {
  }

  /** Creating a new section and submitting the same form again is refused. */
  lemma ResubmissionRefused(classes: seq<ClassSection>, form: ClassForm, professorId: string)
    requires SameSectionCount(classes, form) == 0
    ensures var c := CreateClass(classes, form, professorId).value;
      CreateClass(classes + [c], form, professorId).None?
  {
  }

  /** The guard only refuses a single match: with two equal sections
      already present, a third one is created. */
  lemma TwoMatchesAllowAThird(classes: seq<ClassSection>, form: ClassForm, professorId: string)
    requires SameSectionCount(classes, form) == 2
    ensures var created := CreateClass(classes, form, professorId);
      created.Some? && SameSectionCount(classes + [created.value], form) == 3
  {
  }
}
