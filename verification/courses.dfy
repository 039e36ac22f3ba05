/** The course and section drop-downs shared by the attendance history page
    (`src/pages/ClassHistoryList.js`) and the attendance summary page
    (`src/pages/Summary.js`): one option per distinct course code of the
    teacher's classes, and one option per class of the chosen course.
 */
module CourseSelect {
  import opened Common

  /** A class (course section) as the teacher's class list returns it. */
  datatype ClassRec = ClassRec(id: string, courseCode: string, courseName: Option<string>, section: string)

  /** An entry of the course drop-down. */
  datatype CourseOption = CourseOption(code: string, caption: string)

  /** An entry of the section drop-down; `id` is the class id sent to the
      attendance endpoints. */
  datatype SectionOption = SectionOption(id: string, caption: string)

  /** `classes.map(c => c.courseCode)`: one code per class, and a code is
      listed exactly when some class has it. */
  function Codes(classes: seq<ClassRec>): (r: seq<string>)
    ensures |r| == |classes|
    ensures forall code :: code in r <==> exists c :: c in classes && c.courseCode == code
  {
    var r := seq(|classes|, k requires 0 <= k < |classes| => classes[k].courseCode);
    assert forall k :: 0 <= k < |classes| ==> classes[k] in classes && r[k] == classes[k].courseCode;
    r
  }

  /** The code at a position is that class's code. */
  lemma CodeAt(classes: seq<ClassRec>, i: nat)
    requires i < |classes|
    ensures Codes(classes)[i] == classes[i].courseCode
  {
  }

  /** `classes.find(c => c.courseCode === code)`: the first class of the
      course. */
  function FirstOfCourse(classes: seq<ClassRec>, code: string): (c: ClassRec)
    requires code in Codes(classes)
    ensures c in classes && c.courseCode == code
    ensures exists i :: 0 <= i < |classes| && classes[i] == c && forall j :: 0 <= j < i ==> classes[j].courseCode != code
  {
    var i := FirstIndex(Codes(classes), code);
    CodeAt(classes, i);
    assert forall j :: 0 <= j < i ==> Codes(classes)[j] == classes[j].courseCode;
    classes[i]
  }

  /** Label of a course option: the code, " - ", and the name of the first
      class with that code (empty when that name is missing or empty). */
  function CourseLabel(classes: seq<ClassRec>, code: string): string
    requires code in Codes(classes)
  {
    code + " - " + FirstOfCourse(classes, code).courseName.GetOr("")
  }

  /** `courseOptions`: one option per distinct course code, in the order the
      codes first occur, each labelled after the first class of its course. */
  function CourseOptions(classes: seq<ClassRec>): (r: seq<CourseOption>)
    ensures |r| == |Dedup(Codes(classes))| && |r| <= |classes|
    ensures forall k :: 0 <= k < |r| ==> r[k].code == Dedup(Codes(classes))[k]
    ensures forall k :: 0 <= k < |r| ==> r[k].code in Codes(classes) && r[k].caption == CourseLabel(classes, r[k].code)
    ensures forall i, j :: 0 <= i < j < |r| ==> r[i].code != r[j].code
  {
    var codes := Dedup(Codes(classes));
    seq(|codes|, k requires 0 <= k < |codes| => CourseOption(codes[k], CourseLabel(classes, codes[k])))
  }

  /** Every class's course code has an option. */
  lemma CourseOptionsCover(classes: seq<ClassRec>, c: ClassRec)
    requires c in classes
    ensures exists k :: 0 <= k < |CourseOptions(classes)| && CourseOptions(classes)[k].code == c.courseCode
  {
    var i :| 0 <= i < |classes| && classes[i] == c;
    var codes := Codes(classes);
    assert codes[i] == c.courseCode;
    var d := Dedup(codes);
    assert c.courseCode in d;
    var k :| 0 <= k < |d| && d[k] == c.courseCode;
    assert CourseOptions(classes)[k].code == c.courseCode;
  }

  /** The course options follow the order in which the codes first appear in
      the class list. */
  lemma CourseOptionsFirstSeenOrder(classes: seq<ClassRec>)
    ensures var r := CourseOptions(classes);
            forall i, j :: 0 <= i < j < |r| ==>
              FirstIndex(Codes(classes), r[i].code) < FirstIndex(Codes(classes), r[j].code)
  {
    DedupFirstOccurrenceOrder(Codes(classes));
  }

  /** A class list whose codes are already distinct gives one option per
      class, in the same order. */
  lemma DistinctCodesOptions(classes: seq<ClassRec>)
    requires NoDups(Codes(classes))
    ensures |CourseOptions(classes)| == |classes|
    ensures forall k :: 0 <= k < |classes| ==> CourseOptions(classes)[k].code == classes[k].courseCode
  {
    DedupOfDistinct(Codes(classes));
  }

  /** The class belongs to the selected course. */
  function InCourse(code: string): ClassRec -> bool {
    (c: ClassRec) => c.courseCode == code
  }

  /** `"ตอน " + section`. */
  function SectionLabel(c: ClassRec): string {
    "ตอน " + c.section
  }

  /** `sectionOptions`: the classes of the selected course, each labelled
      with its section. There is one option per class of the course, and
      every option stands for such a class; `SectionOptionsAppend` and
      `SectionOptionsOne` show that the options follow the list order. */
  function SectionOptions(classes: seq<ClassRec>, selected: string): (r: seq<SectionOption>)
    ensures |r| == Count(classes, InCourse(selected))
    ensures forall k :: 0 <= k < |r| ==>
              exists c :: c in classes && c.courseCode == selected && r[k] == SectionOption(c.id, SectionLabel(c))
  {
    var chosen := Filter(classes, InCourse(selected));
    FilterLength(classes, InCourse(selected));
    var r := seq(|chosen|, k requires 0 <= k < |chosen| => SectionOption(chosen[k].id, SectionLabel(chosen[k])));
    assert forall k :: 0 <= k < |r| ==> chosen[k] in chosen && r[k] == SectionOption(chosen[k].id, SectionLabel(chosen[k]));
    r
  }

  /** The options of a list of classes are the options of its first part
      followed by those of the rest: the options keep the classes' order. */
  lemma SectionOptionsAppend(a: seq<ClassRec>, b: seq<ClassRec>, selected: string)
    ensures SectionOptions(a + b, selected) == SectionOptions(a, selected) + SectionOptions(b, selected)
  {
    FilterAppend(a, b, InCourse(selected));
  }

  /** A single class gives its own option when it belongs to the selected
      course, and none otherwise. */
  lemma SectionOptionsOne(c: ClassRec, selected: string)
    ensures SectionOptions([c], selected) ==
              if c.courseCode == selected then [SectionOption(c.id, SectionLabel(c))] else []
  {
    assert [c][1..] == [];
  }

  /** A class has a section option exactly when it belongs to the selected
      course. */
  lemma SectionOptionsExactly(classes: seq<ClassRec>, selected: string, c: ClassRec)
    requires c in classes
    ensures c.courseCode == selected ==> SectionOption(c.id, SectionLabel(c)) in SectionOptions(classes, selected)
    ensures forall o :: o in SectionOptions(classes, selected) ==>
              exists d :: d in classes && d.courseCode == selected && o == SectionOption(d.id, SectionLabel(d))
  {
    var chosen := Filter(classes, InCourse(selected));
    var r := SectionOptions(classes, selected);
    if c.courseCode == selected {
      assert c in chosen;
      var k :| 0 <= k < |chosen| && chosen[k] == c;
      assert r[k] == SectionOption(c.id, SectionLabel(c));
    }
    forall o | o in r
      ensures exists d :: d in classes && d.courseCode == selected && o == SectionOption(d.id, SectionLabel(d))
    {
      var k :| 0 <= k < |r| && r[k] == o;
      assert chosen[k] in chosen;
    }
  }

  /** Every class is reachable: its course has an option, and choosing that
      course lists the class among the sections. */
  lemma EveryClassReachable(classes: seq<ClassRec>, c: ClassRec)
    requires c in classes
    ensures exists o :: o in CourseOptions(classes) && o.code == c.courseCode
              && SectionOption(c.id, SectionLabel(c)) in SectionOptions(classes, o.code)
  {
    var r := CourseOptions(classes);
    CourseOptionsCover(classes, c);
    var k :| 0 <= k < |r| && r[k].code == c.courseCode;
    SectionOptionsExactly(classes, c.courseCode, c);
    assert r[k] in r;
  }
}
