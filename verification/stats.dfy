/** Attendance counts per student, as the class's student list
    (`src/components/StudentListModal.js`) and the teacher's summary page
    (`src/pages/Summary.js`) look them up.

    The server answers with an object from student keys to statistics. The
    modal re-keys it by trimming each key and deleting every '-'; the summary
    page uses it as it is. An object is modelled as its list of entries in
    enumeration order, so that "a later key overwrites an earlier one" can be
    stated.
 */
module AttendanceStats {
  import opened Common
  import opened Text
  import Registration

  /** The statistics of one student; only `present` is displayed. */
  datatype Stat = Stat(present: int)

  /** A statistics object: its entries in enumeration order. */
  type Summary = seq<(string, Stat)>

  /** `key.trim().replace(/-/g, "")`. */
  function NormalizeKey(key: string): (r: string)
    ensures '-' !in r
    ensures |r| <= |key|
  {
    var t := Trim(key);
    assert "-"[0] == '-';
    RemoveAll(t, "-")
  }

  /** Normalising is not idempotent: deleting a hyphen can expose whitespace
      that the earlier trim did not see, so a second pass changes the key. */
  lemma NormalizeKeyNotIdempotent()
    ensures NormalizeKey("- 1") == " 1"
    ensures NormalizeKey(NormalizeKey("- 1")) == "1"
  {
    OneHyphenRemoved();
    OneSpaceTrimmed();
  }

  /** First pass on "- 1": nothing to trim, then the hyphen goes. */
  lemma OneHyphenRemoved()
    ensures NormalizeKey("- 1") == " 1"
  {
    HyphenKeyUntrimmed();
    HyphenDeleted();
  }

  /** "- 1" has nothing to trim. */
  lemma HyphenKeyUntrimmed()
    ensures Trim("- 1") == "- 1"
  {
    var k := "- 1";
    assert !IsSpace(k[0]) && !IsSpace(k[2]);
    TrimNoEdge(k);
  }

  /** Deleting the hyphen of "- 1" leaves " 1". */
  lemma HyphenDeleted()
    ensures RemoveAll("- 1", "-") == " 1"
  {
    var k := "- 1";
    assert "-" <= k && k[1..] == " 1";
    RemoveAllSkipsMatch(k, "-");
    var u := " 1";
    assert !("-" <= u) && u[1..] == "1";
    RemoveAllKeepsHead(u, "-");
    AbsentCharExcluded("1", '-');
    RemoveAllAbsent("1", "-");
    assert [u[0]] + "1" == u;
  }

  /** Second pass on " 1": the exposed space is trimmed. */
  lemma OneSpaceTrimmed()
    ensures NormalizeKey(" 1") == "1"
  {
    SpaceOneTrimmed();
    AbsentCharExcluded("1", '-');
    RemoveAllAbsent("1", "-");
  }

  /** Trimming " 1" drops the space. */
  lemma SpaceOneTrimmed()
    ensures Trim(" 1") == "1"
  {
    assert " " + "1" + "" == " 1";
    TrimPadded(" ", "1", "");
  }

  /** A normalised key without whitespace at either end is stable: a second
      pass leaves it unchanged. */
  lemma NormalizeKeyStable(key: string)
    requires NoEdgeSpace(NormalizeKey(key))
    ensures NormalizeKey(NormalizeKey(key)) == NormalizeKey(key)
  {
    CleanKeyKept(NormalizeKey(key));
  }

  /** For a registered (well-formed) student ID the modal's key is the
      13-digit hyphen-free ID, the same one the student's email is built
      from, so the hyphenated and the plain spelling reach the same entry. */
  lemma NormalizeValidId(id: string)
    requires Registration.IsValidId(id)
    ensures NormalizeKey(id) == Registration.StrippedId(id)
    ensures NormalizeKey(Registration.StrippedId(id)) == Registration.StrippedId(id)
  {
    Registration.ValidIdShape(id);
    Registration.StrippedValidId(id);
    assert NoEdgeSpace(id) by {
      assert IsDigit(id[0]) && IsDigit(id[15]);
    }
    TrimNoEdge(id);
    var d := Registration.StrippedId(id);
    assert NoEdgeSpace(d) by {
      assert d[0] == id[0] && d[12] == id[15];
    }
    TrimNoEdge(d);
    AbsentCharExcluded(d, '-');
    RemoveAllAbsent(d, "-");
  }

  /** The object has an entry with this key. */
  predicate HasKey(summary: Summary, key: string) {
    exists k :: 0 <= k < |summary| && summary[k].0 == key
  }

  /** Looking a key up in an object: the value of its last entry with that
      key, as assignment order decides. */
  function Lookup(summary: Summary, key: string): (r: Option<Stat>)
    ensures r.Some? <==> HasKey(summary, key)
    ensures r.Some? ==> (key, r.value) in summary
    decreases |summary|
  {
    if |summary| == 0 then None
    else
      var n := |summary|;
      var init := summary[..n - 1];
      assert forall k :: 0 <= k < n - 1 ==> init[k] == summary[k];
      if summary[n - 1].0 == key then Some(summary[n - 1].1) else Lookup(init, key)
  }

  /** The modal's loop: every entry is stored again under its normalised key,
      later entries overwriting earlier ones. Entries keep their place and
      their value; no key gains a '-' or grows; a key that is already
      hyphen-free and trimmed is kept as it is. */
  function NormalizeSummary(summary: Summary): (r: Summary)
    ensures |r| == |summary|
    ensures forall k :: 0 <= k < |r| ==> r[k].1 == summary[k].1
    ensures forall k :: 0 <= k < |r| ==> '-' !in r[k].0 && |r[k].0| <= |summary[k].0|
    ensures forall k :: 0 <= k < |r| && '-' !in summary[k].0 && NoEdgeSpace(summary[k].0) ==> r[k].0 == summary[k].0
  {
    var r := seq(|summary|, k requires 0 <= k < |summary| => (NormalizeKey(summary[k].0), summary[k].1));
    forall k | 0 <= k < |r| && '-' !in summary[k].0 && NoEdgeSpace(summary[k].0)
      ensures r[k].0 == summary[k].0
    {
      CleanKeyKept(summary[k].0);
    }
    r
  }

  /** A trimmed key without '-' is its own normal form. */
  lemma CleanKeyKept(key: string)
    requires '-' !in key && NoEdgeSpace(key)
    ensures NormalizeKey(key) == key
  {
    TrimNoEdge(key);
    AbsentCharExcluded(key, '-');
    RemoveAllAbsent(key, "-");
  }

  /** A normalised key is present exactly when some original key normalises
      to it, and no normalised object has a key containing '-'. */
  lemma NormalizedKeys(summary: Summary, key: string)
    ensures HasKey(NormalizeSummary(summary), key) <==> exists k :: 0 <= k < |summary| && NormalizeKey(summary[k].0) == key
    ensures HasKey(NormalizeSummary(summary), key) ==> '-' !in key
  {
  }

  /** The last entry with a key decides the lookup. */
  lemma {:induction false} LastEntryWins(summary: Summary, key: string, j: nat)
    requires j < |summary| && summary[j].0 == key
    requires forall k :: j < k < |summary| ==> summary[k].0 != key
    ensures Lookup(summary, key) == Some(summary[j].1)
    decreases |summary|
  {
    var n := |summary|;
    if j < n - 1 {
      var init := summary[..n - 1];
      LastEntryWins(init, key, j);
    }
  }

  /** Of several entries whose keys normalise alike, the later one wins. */
  lemma LaterEntryWins(summary: Summary, key: string, j: nat)
    requires j < |summary| && NormalizeKey(summary[j].0) == key
    requires forall k :: j < k < |summary| ==> NormalizeKey(summary[k].0) != key
    ensures Lookup(NormalizeSummary(summary), key) == Some(summary[j].1)
  {
    var r := NormalizeSummary(summary);
    LastEntryWins(r, key, j);
  }

  /** A student of the class as the class endpoint returns it. */
  datatype Member = Member(studentId: Option<string>, username: Option<string>, fullName: string)

  /** `s.studentId || s.username || ""`: the key is one of the member's two
      names, the ID taking priority; an empty name counts as missing, and
      the key is empty only when both are. */
  function RawKey(m: Member): (r: string)
    ensures r == "" || Some(r) == m.studentId || Some(r) == m.username
    ensures m.studentId.Some? && m.studentId.value != "" ==> r == m.studentId.value
    ensures r == "" <==> (m.studentId.None? || m.studentId.value == "") && (m.username.None? || m.username.value == "")
  {
    if m.studentId.Some? && m.studentId.value != "" then m.studentId.value
    else if m.username.Some? && m.username.value != "" then m.username.value
    else ""
  }

  /** The modal's count for a student: the `present` of the entry under the
      student's normalised key, or 0 when there is none. */
  function ModalPresent(stats: Summary, m: Member): (n: int)
    ensures !HasKey(stats, NormalizeKey(RawKey(m))) ==> n == 0
    ensures HasKey(stats, NormalizeKey(RawKey(m))) ==> (NormalizeKey(RawKey(m)), Stat(n)) in stats
  {
    match Lookup(stats, NormalizeKey(RawKey(m)))
    case None => 0
    case Some(s) => s.present
  }

  /** A student with an empty ID is looked up under the username, exactly
      like one without an ID: `||` treats "" as missing. */
  lemma EmptyIdFallsBack(stats: Summary, user: string, a: string, b: string)
    ensures ModalPresent(stats, Member(Some(""), Some(user), a)) == ModalPresent(stats, Member(None, Some(user), b))
  {
  }

  /** A hyphenated ID on the class list finds the entry the server filed
      under the hyphen-free ID, and the reverse. */
  lemma ModalMatchesEitherSpelling(summary: Summary, id: string, m: Member)
    requires Registration.IsValidId(id)
    requires m.studentId == Some(id)
    requires |summary| > 0 && summary[|summary| - 1].0 == Registration.StrippedId(id)
    ensures ModalPresent(NormalizeSummary(summary), m) == summary[|summary| - 1].1.present
  {
    var d := Registration.StrippedId(id);
    assert RawKey(m) == id;
    NormalizeValidId(id);
    var r := NormalizeSummary(summary);
    var j := |summary| - 1;
    assert r[j] == (d, summary[j].1);
    LastEntryWins(r, d, j);
    assert Lookup(r, NormalizeKey(RawKey(m))) == Some(summary[j].1);
  }

  /** The modal requests statistics only while shown, for a known class
      (an absent class id is modelled as "") with at least one student. */
  predicate ModalFetches(shown: bool, classId: string, students: seq<Member>) {
    shown && classId != "" && |students| > 0
  }

  /** The modal's statistics after its effect runs: left as they were when
      it does not fetch; otherwise the normalised reply, or an empty object
      when the request failed. */
  function ModalStats(shown: bool, classId: string, students: seq<Member>, current: Summary,
                      reply: Option<Summary>): (r: Summary)
    ensures !ModalFetches(shown, classId, students) ==> r == current
    ensures ModalFetches(shown, classId, students) && reply.None? ==> r == []
    ensures ModalFetches(shown, classId, students) && reply.Some? ==>
              |r| == |reply.value| && forall k :: 0 <= k < |r| ==> r[k].1 == reply.value[k].1
    ensures ModalFetches(shown, classId, students) && reply.Some? ==>
              forall k :: 0 <= k < |r| ==> r[k].0 == NormalizeKey(reply.value[k].0)
  {
    if !ModalFetches(shown, classId, students) then current
    else match reply
      case None => []
      case Some(summary) => NormalizeSummary(summary)
  }

  /** The modal's object never gains a key containing '-': starting from
      the empty object, every key it holds is hyphen-free, like the keys it
      looks students up under. */
  lemma ModalStatsHyphenFree(shown: bool, classId: string, students: seq<Member>, current: Summary,
                             reply: Option<Summary>, key: string)
    requires forall k :: 0 <= k < |current| ==> '-' !in current[k].0
    ensures var r := ModalStats(shown, classId, students, current, reply);
            HasKey(r, key) ==> '-' !in key
  {
  }

  // The summary page

  /** The summary page's count: `stats[sid]?.present || 0`, where `sid` is
      the trimmed key with its hyphens kept. */
  function SummaryPresent(stats: Summary, m: Member): (n: int)
    ensures !HasKey(stats, Trim(RawKey(m))) ==> n == 0
    ensures HasKey(stats, Trim(RawKey(m))) ==> (Trim(RawKey(m)), Stat(n)) in stats
  {
    match Lookup(stats, Trim(RawKey(m)))
    case None => 0
    case Some(s) => s.present
  }

  /** Unlike the modal, the summary page does not delete hyphens: a
      hyphenated ID does not find an entry filed under the plain ID. */
  lemma SummaryKeepsHyphens(id: string, present: int)
    requires Registration.IsValidId(id)
    ensures SummaryPresent([(Registration.StrippedId(id), Stat(present))], Member(Some(id), None, "")) == 0
  {
    Registration.ValidIdShape(id);
    Registration.StrippedValidId(id);
    assert NoEdgeSpace(id) by {
      assert IsDigit(id[0]) && IsDigit(id[15]);
    }
    TrimNoEdge(id);
    assert |Registration.StrippedId(id)| != |id|;
  }

  /** The summary page's state. */
  datatype SummaryView = SummaryView(course: string, sectionId: string, students: seq<Member>, stats: Summary)

  /** Choosing a course clears the section, the students and the
      statistics: no section is chosen, no statistics request follows, and
      no key has a count. */
  function ChooseCourse(v: SummaryView, code: string): (w: SummaryView)
    ensures w.course == code && w.sectionId == "" && |w.students| == 0
    ensures !SummaryFetches(w)
    ensures forall key :: !HasKey(w.stats, key)
  {
    SummaryView(code, "", [], [])
  }

  /** The students of the chosen section: nothing is requested without a
      section; a failed request, or a class without a student list, gives no
      students. */
  function StudentsLoaded(v: SummaryView, reply: Option<Option<seq<Member>>>): (w: SummaryView)
    ensures w == v.(students := w.students)
    ensures v.sectionId == "" ==> w == v
    ensures v.sectionId != "" ==> (|w.students| > 0 <==> reply.Some? && reply.value.Some? && |reply.value.value| > 0)
    ensures v.sectionId != "" && reply.Some? && reply.value.Some? ==> w.students == reply.value.value
  {
    if v.sectionId == "" then v
    else
      match reply
      case Some(Some(list)) => v.(students := list)
      case _ => v.(students := [])
  }

  /** Statistics are requested only for a chosen section with students. */
  predicate SummaryFetches(v: SummaryView) {
    v.sectionId != "" && |v.students| > 0
  }

  /** The statistics after a reply; without a request nothing changes.
      After a request every student shows the count the reply holds for the
      student, and 0 for every student when the request failed. */
  function StatsLoaded(v: SummaryView, reply: Option<Summary>): (w: SummaryView)
    ensures w == v.(stats := w.stats)
    ensures !SummaryFetches(v) ==> w == v
    ensures SummaryFetches(v) ==>
              forall m :: SummaryPresent(w.stats, m) == (if reply.Some? then SummaryPresent(reply.value, m) else 0)
  {
    if !SummaryFetches(v) then v
    else v.(stats := reply.GetOr([]))
  }

  /** When the students cannot be loaded, no statistics are requested: the
      statistics effect leaves the page as the failure left it. */
  lemma StudentsFailureStopsStats(v: SummaryView, statsReply: Option<Summary>)
    ensures var w := StudentsLoaded(v, None);
            !SummaryFetches(w) && StatsLoaded(w, statsReply) == w
  {
  }

  /** After a course change no count is shown from the old course: there
      are no students, and any student looked up counts 0. */
  lemma CourseChangeForgetsCounts(v: SummaryView, code: string, m: Member)
    ensures var w := ChooseCourse(v, code);
            !SummaryFetches(w) && SummaryPresent(w.stats, m) == 0
  {
  }
}
