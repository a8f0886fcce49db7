/** The class page: the roster of one class joined against the student
    directory, narrowed by an optional tag, with per-student remark counts
    shown as cards (in roster order) and exported as CSV rows (in reverse). */
module ClassDetail {
  import opened Records
  import opened Sequences

  // ---------------------------------------------------------------------
  // Class lookup
  // ---------------------------------------------------------------------

  /** The position of the first class whose id is classId, or |classes|
      when there is none. */
  function FirstWithId(classes: seq<StoredClass>, classId: string): (k: nat)
    ensures k <= |classes|
    ensures forall j :: 0 <= j < k ==> classes[j].classId != classId
    ensures k < |classes| ==> classes[k].classId == classId
  {
    if classes == [] then 0
    else if classes[0].classId == classId then 0
    else 1 + FirstWithId(classes[1..], classId)
  }

  /** The class the page shows: the first one with the route's id. When no
      class has that id the page cannot be built (its roster is read from an
      undefined class). */
  function FindClass(classes: seq<StoredClass>, classId: string): (found: Option<StoredClass>)
    ensures found.None? <==> forall j :: 0 <= j < |classes| ==> classes[j].classId != classId
    ensures found.Some? ==> found.value.classId == classId && found.value in classes
    ensures found.Some? ==> found.value == classes[FirstWithId(classes, classId)]
  {
    var k := FirstWithId(classes, classId);
    if k < |classes| then Some(classes[k]) else None
  }

  // ---------------------------------------------------------------------
  // Roster join
  // ---------------------------------------------------------------------

  /** The directory students whose id is id, in directory order. */
  function WithId(students: seq<Student>, id: int): seq<Student> {
    if students == [] then []
    else
      var last := students[|students| - 1];
      WithId(students[..|students| - 1], id) + (if last.studentId == id then [last] else [])
  }

  /** For each roster id in turn, the directory students with that id. */
  function Join(roster: seq<int>, students: seq<Student>): seq<Student> {
    if roster == [] then []
    else Join(roster[..|roster| - 1], students) + WithId(students, roster[|roster| - 1])
  }

  /** The inner loop keeps each directory student with the id as often as
      it occurs, and no other student. */
  lemma {:induction false} WithIdCount(students: seq<Student>, id: int, s: Student)
    ensures multiset(WithId(students, id))[s] == if s.studentId == id then multiset(students)[s] else 0
  {
    if students != [] {
      var init := students[..|students| - 1];
      WithIdCount(init, id, s);
      assert students == init + [students[|students| - 1]];
    }
  }

  lemma {:induction false} WithIdMembers(students: seq<Student>, id: int, s: Student)
    ensures s in WithId(students, id) <==> s in students && s.studentId == id
  {
    if students != [] {
      var init := students[..|students| - 1];
      WithIdMembers(init, id, s);
      assert students == init + [students[|students| - 1]];
    }
  }

  /** A student is on the joined list exactly when it is in the directory
      and its id is on the roster; roster ids unknown to the directory
      contribute nothing. */
  lemma {:induction false} JoinMembers(roster: seq<int>, students: seq<Student>, s: Student)
    ensures s in Join(roster, students) <==> s in students && s.studentId in roster
  {
    if roster != [] {
      var init := roster[..|roster| - 1];
      JoinMembers(init, students, s);
      WithIdMembers(students, roster[|roster| - 1], s);
      assert roster == init + [roster[|roster| - 1]];
    }
  }

  /** Directory ids are unique. */
  predicate UniqueIds(students: seq<Student>) {
    forall i, j :: 0 <= i < j < |students| ==> students[i].studentId != students[j].studentId
  }

  predicate InDirectory(students: seq<Student>, id: int) {
    exists k :: 0 <= k < |students| && students[k].studentId == id
  }

  /** In a directory with unique ids, a known id picks out exactly one student. */
  lemma {:induction false} WithIdUnique(students: seq<Student>, id: int, k: nat)
    requires UniqueIds(students)
    requires k < |students| && students[k].studentId == id
    ensures WithId(students, id) == [students[k]]
  {
    var n := |students| - 1;
    var init := students[..n];
    if k == n {
      WithIdAbsent(init, id);
    } else {
      WithIdUnique(init, id, k);
    }
  }

  lemma {:induction false} WithIdAbsent(students: seq<Student>, id: int)
    requires forall i :: 0 <= i < |students| ==> students[i].studentId != id
    ensures WithId(students, id) == []
  {
    if students != [] {
      WithIdAbsent(students[..|students| - 1], id);
    }
  }

  /** When directory ids are unique and every roster id is known, the joined
      list follows the roster one to one. */
  lemma {:induction false} JoinFollowsRoster(roster: seq<int>, students: seq<Student>)
    requires UniqueIds(students)
    requires forall i :: 0 <= i < |roster| ==> InDirectory(students, roster[i])
    ensures |Join(roster, students)| == |roster|
    ensures forall i :: 0 <= i < |roster| ==> Join(roster, students)[i].studentId == roster[i]
  {
    if roster != [] {
      var n := |roster| - 1;
      var init := roster[..n];
      assert forall i :: 0 <= i < n ==> init[i] == roster[i];
      JoinFollowsRoster(init, students);
      assert InDirectory(students, roster[n]);
      var k :| 0 <= k < |students| && students[k].studentId == roster[n];
      WithIdUnique(students, roster[n], k);
      assert roster == init + [roster[n]];
      IdsExtend(Join(init, students), init, students[k]);
    }
  }

  /** Extending a list of students that follows a list of ids by one student
      follows the ids extended by that student's id. */
  lemma IdsExtend(prev: seq<Student>, ids: seq<int>, x: Student)
    requires |prev| == |ids|
    requires forall i :: 0 <= i < |ids| ==> prev[i].studentId == ids[i]
    ensures forall i :: 0 <= i <= |ids| ==> (prev + [x])[i].studentId == (ids + [x.studentId])[i]
  {
  }

  /** The nested loops that collect the students of the class: for each
      roster id, every directory student with that id. */
  method JoinRoster(roster: seq<int>, students: seq<Student>) returns (joined: seq<Student>)
    ensures joined == Join(roster, students)
  {
    joined := [];
    for k := 0 to |roster|
      invariant joined == Join(roster[..k], students)
    {
      var id := roster[k];
      assert roster[..k + 1][..k] == roster[..k];
      for m := 0 to |students|
        invariant joined == Join(roster[..k], students) + WithId(students[..m], id)
      {
        assert students[..m + 1][..m] == students[..m];
        if students[m].studentId == id {
          joined := joined + [students[m]];
        }
      }
      assert students[..|students|] == students;
    }
    assert roster[..|roster|] == roster;
  }

  // ---------------------------------------------------------------------
  // Tag filter
  // ---------------------------------------------------------------------

  function WithTag(students: seq<Student>, tag: string): seq<Student> {
    if students == [] then []
    else
      var last := students[|students| - 1];
      WithTag(students[..|students| - 1], tag) + (if last.tag == Some(tag) then [last] else [])
  }

  /** Filtering by tag keeps exactly the students carrying that tag, each as
      often as it occurs. */
  lemma {:induction false} WithTagCount(students: seq<Student>, tag: string, s: Student)
    ensures multiset(WithTag(students, tag))[s] == if s.tag == Some(tag) then multiset(students)[s] else 0
  {
    if students != [] {
      var init := students[..|students| - 1];
      WithTagCount(init, tag, s);
      assert students == init + [students[|students| - 1]];
    }
  }

  /** Filtering distributes over concatenation, so relative order is kept. */
  lemma {:induction false} WithTagAppend(a: seq<Student>, b: seq<Student>, tag: string)
    ensures WithTag(a + b, tag) == WithTag(a, tag) + WithTag(b, tag)
  {
    if b == [] {
      assert a + b == a;
    } else {
      var b' := b[..|b| - 1];
      assert (a + b)[..|a + b| - 1] == a + b';
      WithTagAppend(a, b', tag);
    }
  }

  /** A tag filter is in force when the query has a non-empty tag. */
  predicate FilterActive(tagFilter: Option<string>) {
    tagFilter.Some? && tagFilter.value != ""
  }

  /** The students shown: all of the class's students without a filter,
      otherwise those whose tag equals the filter. */
  function Displayed(joined: seq<Student>, tagFilter: Option<string>): (displayed: seq<Student>)
    ensures !FilterActive(tagFilter) ==> displayed == joined
    ensures FilterActive(tagFilter) ==> displayed == WithTag(joined, tagFilter.value)
    ensures FilterActive(tagFilter) ==>
      forall s :: multiset(displayed)[s] == if s.tag == tagFilter then multiset(joined)[s] else 0
  {
    if FilterActive(tagFilter) then
      var r := WithTag(joined, tagFilter.value);
      assert forall s :: multiset(r)[s] == if s.tag == tagFilter then multiset(joined)[s] else 0 by {
        forall s ensures multiset(r)[s] == if s.tag == tagFilter then multiset(joined)[s] else 0 {
          WithTagCount(joined, tagFilter.value, s);
        }
      }
      r
    else joined
  }

  // ---------------------------------------------------------------------
  // Remark counts
  // ---------------------------------------------------------------------

  /** The remarks about the student with the given id. */
  function RemarksOf(remarks: seq<Remark>, id: int): seq<Remark> {
    if remarks == [] then []
    else
      var last := remarks[|remarks| - 1];
      RemarksOf(remarks[..|remarks| - 1], id) + (if last.studentId == id then [last] else [])
  }

  function Positives(remarks: seq<Remark>): seq<Remark> {
    if remarks == [] then []
    else
      var last := remarks[|remarks| - 1];
      Positives(remarks[..|remarks| - 1]) + (if last.kind == PositiveKind then [last] else [])
  }

  /** A student's remarks are the remarks carrying the student's id, each
      as often as it occurs: their number is the count of such remarks. */
  lemma {:induction false} RemarksOfCount(remarks: seq<Remark>, id: int, r: Remark)
    ensures multiset(RemarksOf(remarks, id))[r] == if r.studentId == id then multiset(remarks)[r] else 0
  {
    if remarks != [] {
      var init := remarks[..|remarks| - 1];
      RemarksOfCount(init, id, r);
      assert remarks == init + [remarks[|remarks| - 1]];
    }
  }

  /** The positive remarks are the remarks of the positive kind, each as
      often as it occurs, so there are no more of them than remarks. */
  lemma {:induction false} PositivesCount(remarks: seq<Remark>, r: Remark)
    ensures multiset(Positives(remarks))[r] == if r.kind == PositiveKind then multiset(remarks)[r] else 0
    ensures |Positives(remarks)| <= |remarks|
  {
    if remarks != [] {
      var init := remarks[..|remarks| - 1];
      PositivesCount(init, r);
      assert remarks == init + [remarks[|remarks| - 1]];
    }
  }

  /** A student's positive remarks are exactly the positive remarks that
      carry the student's id, each as often as it occurs. */
  lemma PositiveRemarksOf(remarks: seq<Remark>, id: int, r: Remark)
    ensures multiset(Positives(RemarksOf(remarks, id)))[r]
      == if r.studentId == id && r.kind == PositiveKind then multiset(remarks)[r] else 0
  {
    PositivesCount(RemarksOf(remarks, id), r);
    RemarksOfCount(remarks, id, r);
  }

  /** A positive rate kept as the pair (positive remarks, all remarks). */
  datatype Rate = Rate(positive: nat, total: nat)

  /** The fraction the page divides out; it exists only with some remarks. */
  function RateValue(rate: Rate): (v: real)
    requires rate.total > 0 && rate.positive <= rate.total
    ensures 0.0 <= v <= 1.0
  {
    rate.positive as real / rate.total as real
  }

  /** The positive rate of the student with the given id. */
  function RateOf(remarks: seq<Remark>, id: int): (rate: Rate)
    ensures rate.total == |RemarksOf(remarks, id)|
    ensures rate.positive == |Positives(RemarksOf(remarks, id))|
    ensures rate.positive <= rate.total
    ensures rate.total == 0 ==> rate.positive == 0
  {
    var mine := RemarksOf(remarks, id);
    PositivesCount(mine, Remark(id, PositiveKind));
    Rate(|Positives(mine)|, |mine|)
  }

  /** A student without remarks has no positive rate to show. */
  lemma {:induction false} NoRemarksNoRate(remarks: seq<Remark>, id: int)
    requires forall i :: 0 <= i < |remarks| ==> remarks[i].studentId != id
    ensures RateOf(remarks, id) == Rate(0, 0)
  {
    if remarks != [] {
      NoRemarksNoRate(remarks[..|remarks| - 1], id);
    }
  }

  // ---------------------------------------------------------------------
  // Export rows and cards
  // ---------------------------------------------------------------------

  /** One CSV row of the export; the rate is kept as a pair. */
  datatype ExportRow = ExportRow(name: string, studentId: int, tag: Option<string>,
                                 numberOfRemarks: nat, positiveRemarkRate: Rate)

  /** The data handed to one student card. */
  datatype Card = Card(key: int, name: string, studentId: int, tag: Option<string>,
                       numOfRemarks: nat, positiveRate: Rate)

  function RowFor(std: Student, remarks: seq<Remark>): (row: ExportRow)
    ensures row.name == std.name && row.studentId == std.studentId && row.tag == std.tag
    ensures row.numberOfRemarks == |RemarksOf(remarks, std.studentId)|
    ensures row.positiveRemarkRate == RateOf(remarks, std.studentId)
    ensures row.positiveRemarkRate.total == row.numberOfRemarks
    ensures row.positiveRemarkRate.positive <= row.numberOfRemarks
  {
    var rate := RateOf(remarks, std.studentId);
    ExportRow(std.name, std.studentId, std.tag, rate.total, rate)
  }

  /** One row per displayed student, in display order. */
  function Rows(displayed: seq<Student>, remarks: seq<Remark>): seq<ExportRow> {
    seq(|displayed|, i requires 0 <= i < |displayed| => RowFor(displayed[i], remarks))
  }

  /** The export loop: each row is put in front of the earlier ones, so row i
      belongs to displayed student n-1-i. */
  method BuildCsvData(displayed: seq<Student>, remarks: seq<Remark>) returns (csvData: seq<ExportRow>)
    ensures csvData == Reverse(Rows(displayed, remarks))
    ensures |csvData| == |displayed|
    ensures forall i :: 0 <= i < |displayed| ==> csvData[i] == RowFor(displayed[|displayed| - 1 - i], remarks)
  {
    csvData := [];
    for k := 0 to |displayed|
      invariant csvData == Reverse(Rows(displayed[..k], remarks))
    {
      var std := displayed[k];
      assert Rows(displayed[..k + 1], remarks) == Rows(displayed[..k], remarks) + [RowFor(std, remarks)];
      ReverseSnoc(Rows(displayed[..k], remarks), RowFor(std, remarks));
      csvData := [RowFor(std, remarks)] + csvData;
    }
    assert displayed[..|displayed|] == displayed;
    forall i | 0 <= i < |displayed|
      ensures csvData[i] == RowFor(displayed[|displayed| - 1 - i], remarks)
    {
      ReverseAt(Rows(displayed, remarks), i);
    }
  }

  /** The card data: one card per displayed student, in display order. */
  function Cards(displayed: seq<Student>, remarks: seq<Remark>): (cards: seq<Card>)
    ensures |cards| == |displayed|
    ensures forall i :: 0 <= i < |displayed| ==>
      cards[i].key == displayed[i].studentId && cards[i].studentId == displayed[i].studentId
      && cards[i].name == displayed[i].name && cards[i].tag == displayed[i].tag
      && cards[i].numOfRemarks == |RemarksOf(remarks, displayed[i].studentId)|
      && cards[i].positiveRate == RateOf(remarks, displayed[i].studentId)
      && cards[i].positiveRate.positive <= cards[i].numOfRemarks
  {
    seq(|displayed|, i requires 0 <= i < |displayed| =>
      var rate := RateOf(remarks, displayed[i].studentId);
      Card(displayed[i].studentId, displayed[i].name, displayed[i].studentId, displayed[i].tag, rate.total, rate))
  }

  /** Card i and export row n-1-i describe the same student with the same
      counts. */
  lemma CardsMatchExport(displayed: seq<Student>, remarks: seq<Remark>, i: nat)
    requires i < |displayed|
    ensures var row := Reverse(Rows(displayed, remarks))[|displayed| - 1 - i];
      var card := Cards(displayed, remarks)[i];
      && row.name == card.name && row.studentId == card.studentId && row.tag == card.tag
      && row.numberOfRemarks == card.numOfRemarks && row.positiveRemarkRate == card.positiveRate
  {
    ReverseAt(Rows(displayed, remarks), |displayed| - 1 - i);
  }

  // ---------------------------------------------------------------------
  // The page
  // ---------------------------------------------------------------------

  datatype ClassView = ClassView(displayed: seq<Student>, csvData: seq<ExportRow>, cards: seq<Card>)

  /** Everything the class page computes from the fetched collections, the
      route's class id and the query's tag. No view exists when no class has
      the route's id. */
  method ShowClass(classes: seq<StoredClass>, students: seq<Student>, allRemarks: seq<Remark>,
                   classId: string, tagFilter: Option<string>) returns (view: Option<ClassView>)
    ensures view.None? <==> forall j :: 0 <= j < |classes| ==> classes[j].classId != classId
    ensures view.Some? ==>
      var thisClass := FindClass(classes, classId).value;
      var displayed := Displayed(Join(thisClass.info.studentIds, students), tagFilter);
      && view.value.displayed == displayed
      && view.value.csvData == Reverse(Rows(displayed, allRemarks))
      && view.value.cards == Cards(displayed, allRemarks)
  {
    var found := FindClass(classes, classId);
    if found.None? {
      return None;
    }
    var studentsOfThisClass := JoinRoster(found.value.info.studentIds, students);
    var displayed := Displayed(studentsOfThisClass, tagFilter);
    var csvData := BuildCsvData(displayed, allRemarks);
    view := Some(ClassView(displayed, csvData, Cards(displayed, allRemarks)));
  }
}
