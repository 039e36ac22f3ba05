/** The teacher's attendance history page (`src/pages/ClassHistoryList.js`)
    and the student's face-scan history (`src/components/FaceScanHistory.js`):
    what each keeps in its state after the user's choices and the server's
    replies, what one page shows, and how rows are coloured and labelled.
 */
module History {
  import opened Common
  import Paging

  /** One attendance record of a class section. `scanTime` is the record's
      `scan_time` in milliseconds. */
  datatype AttendanceRec = AttendanceRec(fullName: string, studentId: string, scanTime: int, status: string)

  /** `scan_time`, the sort key. */
  function ScanTime(r: AttendanceRec): int {
    r.scanTime
  }

  /** Bootstrap colour of a row and of its status badge. */
  datatype Tone = Success | Warning | Danger

  /** Status colouring: "Present" is green, "Late" is amber, anything else
      (absent, unknown, empty) is red. */
  function StatusTone(status: string): (t: Tone)
    ensures t == Success <==> status == "Present"
    ensures t == Warning <==> status == "Late"
    ensures t == Danger <==> status != "Present" && status != "Late"
  {
    if status == "Present" then Success
    else if status == "Late" then Warning
    else Danger
  }

  /** What the section's attendance request returned: an error, a body that
      is not an array (read as no records), or the records. */
  datatype RecordsReply = Failed | NotAList | Records(rows: seq<AttendanceRec>)

  /** The page's state: the chosen course and section ("" for none), the
      records on display, and the current page number. */
  datatype HistoryView = HistoryView(course: string, section: string, records: seq<AttendanceRec>, page: int)

  /** Before anything is chosen. */
  const InitialView := HistoryView("", "", [], 1)

  /** Choosing a course forgets the section and the records on display: the
      table is empty and the page buttons are hidden. The page number is left
      as it was. */
  function ChooseCourse(v: HistoryView, code: string): (w: HistoryView)
    ensures w.course == code && w.section == "" && w.page == v.page
    ensures Shown(w) == [] && !ShowsPager(w)
  {
    HistoryView(code, "", [], v.page)
  }

  /** The optional day filter: records are kept when their scan time falls on
      the chosen day. How a timestamp is turned into a Thai calendar day is
      not modelled, so the day test is a parameter. */
  function KeepDay(sameDay: Option<AttendanceRec -> bool>, rows: seq<AttendanceRec>): (r: seq<AttendanceRec>)
    ensures sameDay.None? ==> r == rows
    ensures forall x :: x in r <==> x in rows && (sameDay.Some? ==> sameDay.value(x))
    ensures |r| <= |rows|
  {
    match sameDay
    case None => rows
    case Some(p) => Filter(rows, p)
  }

  /** What the attendance request's reply does to the page, whatever is
      chosen when it arrives: the records, day filtered and sorted newest
      first, are shown from page 1; a body that is not an array shows nothing
      from page 1; a failure shows nothing and keeps the page number. The
      chosen course and section are not consulted. */
  function RecordsArrived(v: HistoryView, sameDay: Option<AttendanceRec -> bool>, reply: RecordsReply): (w: HistoryView)
    ensures w.course == v.course && w.section == v.section
    ensures reply.Failed? ==> w.records == [] && w.page == v.page
    ensures !reply.Failed? ==> w.page == 1
    ensures reply.NotAList? ==> w.records == []
    ensures reply.Records? ==>
              && Paging.SortedDesc(w.records, ScanTime)
              && multiset(w.records) == multiset(KeepDay(sameDay, reply.rows))
  {
    match reply
    case Failed => v.(records := [])
    case NotAList => v.(records := [], page := 1)
    case Records(rows) => v.(records := Paging.SortDesc(KeepDay(sameDay, rows), ScanTime), page := 1)
  }

  /** The attendance effect after a section (or day) change: no section means
      nothing on display and no request; otherwise the reply's records, day
      filtered and sorted newest first, are shown from page 1; a failed
      request shows nothing and keeps the page number. */
  function LoadSection(v: HistoryView, section: string, sameDay: Option<AttendanceRec -> bool>, reply: RecordsReply): (w: HistoryView)
    ensures w.course == v.course && w.section == section
    ensures section == "" ==> w.records == [] && w.page == v.page
    ensures section != "" && reply.Failed? ==> w.records == [] && w.page == v.page
    ensures section != "" && !reply.Failed? ==> w.page == 1
    ensures section != "" && reply.NotAList? ==> w.records == []
    ensures section != "" && reply.Records? ==>
              && Paging.SortedDesc(w.records, ScanTime)
              && multiset(w.records) == multiset(KeepDay(sameDay, reply.rows))
  {
    if section == "" then HistoryView(v.course, section, [], v.page)
    else RecordsArrived(v.(section := section), sameDay, reply)
  }

  /** The attendance request is not guarded against a newer choice: records
      for a section that arrive after the course was changed fill the table
      while no section is chosen. */
  lemma StaleRecordsAfterCourseChange(v: HistoryView, code: string, rows: seq<AttendanceRec>)
    requires v.section != "" && |rows| > 0
    ensures var w := RecordsArrived(ChooseCourse(v, code), None, Records(rows));
            && w.section == "" && |w.records| == |rows|
            && Shown(w) != [] && w.records[0] in rows
  {
    var w := RecordsArrived(ChooseCourse(v, code), None, Records(rows));
    Paging.PageNonEmpty(w.records, 1);
    assert w.records[0] in multiset(w.records);
  }

  /** Loaded records are the fetched ones that pass the day filter, newest
      first, and records scanned at the same moment stay in server order. */
  lemma LoadedRecordsFaithful(v: HistoryView, section: string, sameDay: Option<AttendanceRec -> bool>,
                              rows: seq<AttendanceRec>, t: int)
    requires section != ""
    ensures var w := LoadSection(v, section, sameDay, Records(rows));
            && (forall r :: r in w.records <==> r in rows && (sameDay.Some? ==> sameDay.value(r)))
            && Filter(w.records, Paging.KeyIs(ScanTime, t)) == Filter(KeepDay(sameDay, rows), Paging.KeyIs(ScanTime, t))
  {
    var kept := KeepDay(sameDay, rows);
    var w := LoadSection(v, section, sameDay, Records(rows));
    Paging.SortDescStable(kept, ScanTime, t);
    forall r
      ensures r in w.records <==> r in kept
    {
      assert r in w.records <==> r in multiset(w.records);
      assert r in kept <==> r in multiset(kept);
    }
  }

  /** What the table shows: the current page of the records. */
  function Shown(v: HistoryView): (rows: seq<AttendanceRec>)
    ensures |rows| <= Paging.PageSize
    ensures v.page >= 1 ==> forall r :: r in rows ==> r in v.records
  {
    Paging.Page(v.records, v.page)
  }

  /** The page buttons appear only with more than one page. */
  predicate ShowsPager(v: HistoryView) {
    Paging.TotalPages(|v.records|) > 1
  }

  /** Right after a successful load the table shows the ten newest records
      (or all of them when there are fewer). */
  lemma FreshLoadShowsNewest(v: HistoryView, section: string, sameDay: Option<AttendanceRec -> bool>, rows: seq<AttendanceRec>)
    requires section != ""
    ensures var w := LoadSection(v, section, sameDay, Records(rows));
            && Shown(w) == w.records[..Paging.Min(Paging.PageSize, |w.records|)]
            && forall i, j :: 0 <= i < |Shown(w)| && 0 <= j < |w.records| && i <= j ==>
                 Shown(w)[i].scanTime >= w.records[j].scanTime
  {
    var w := LoadSection(v, section, sameDay, Records(rows));
    var rs := w.records;
    assert w.page == 1 && Paging.SortedDesc(rs, ScanTime);
    var top := Shown(w);
    assert top == rs[..Paging.Min(Paging.PageSize, |rs|)];
    forall i, j | 0 <= i < |top| && 0 <= j < |rs| && i <= j
      ensures top[i].scanTime >= rs[j].scanTime
    {
      assert top[i] == rs[i];
      if i < j {
        assert ScanTime(rs[i]) >= ScanTime(rs[j]);
      }
    }
  }

  // Face-scan history of a student

  /** One face scan: who scanned (a missing user reference has no name), the
      moment of the scan, the coordinates as text, and the class. */
  datatype ScanLog = ScanLog(userName: Option<string>, stamp: int, lat: string, lng: string, courseName: Option<string>)

  /** The date and time of the scan, the sort key. */
  function Stamp(h: ScanLog): int {
    h.stamp
  }

  /** `x || '-'`: a cell is never blank; it shows the value or a dash, and
      a present, non-empty value is never hidden. */
  function OrDash(x: Option<string>): (r: string)
    ensures r != ""
    ensures r == "-" || x == Some(r)
    ensures x.Some? && x.value != "" ==> r == x.value
  {
    if x.Some? && x.value != "" then x.value else "-"
  }

  /** The student and class columns of a row. */
  function ScanRowNames(h: ScanLog): (r: (string, string))
    ensures r.0 == OrDash(h.userName) && r.1 == OrDash(h.courseName)
    ensures r.0 != "" && r.1 != ""
  {
    (OrDash(h.userName), OrDash(h.courseName))
  }

  /** A dash shown for a name means the name is missing or empty, unless the
      name really is "-". */
  lemma DashMeansMissing(x: Option<string>)
    requires OrDash(x) == "-"
    ensures x.None? || x.value == "" || x.value == "-"
  {
  }

  /** The scan history: the logs sorted newest first, and the page. */
  datatype ScanView = ScanView(history: seq<ScanLog>, page: int)

  /** A successful reply replaces the history with a sorted copy of the
      server's list (the reply itself is not reordered); a failed one leaves
      the view as it was. The page is not reset. */
  function ScansLoaded(v: ScanView, reply: Option<seq<ScanLog>>): (w: ScanView)
    ensures w.page == v.page
    ensures reply.None? ==> w == v
    ensures reply.Some? ==> Paging.SortedDesc(w.history, Stamp) && multiset(w.history) == multiset(reply.value)
  {
    match reply
    case None => v
    case Some(logs) => ScanView(Paging.SortDesc(logs, Stamp), v.page)
  }

  /** The rows of the current page. */
  function CurrentScans(v: ScanView): (rows: seq<ScanLog>)
    ensures |rows| <= Paging.PageSize
    ensures v.page >= 1 && rows == [] ==> v.page > Paging.TotalPages(|v.history|)
  {
    if v.page >= 1 then
      Paging.PageNonEmpty(v.history, v.page);
      Paging.Page(v.history, v.page)
    else Paging.Page(v.history, v.page)
  }

  /** "Next" as the component disables it: only on the page equal to the
      page count. */
  predicate NextDisabled(page: int, total: nat) {
    page == total
  }

  /** The page after clicking "next" on the scan history: at most one page
      on, inert exactly when the button is disabled, and within the pages
      whenever it starts within them. */
  function ClickNext(v: ScanView): (w: ScanView)
    ensures w.history == v.history
    ensures v.page <= w.page <= v.page + 1
    ensures w.page == v.page <==> NextDisabled(v.page, Paging.TotalPages(|v.history|))
    ensures 1 <= v.page <= Paging.TotalPages(|v.history|) ==> 1 <= w.page <= Paging.TotalPages(|w.history|)
  {
    ScanView(v.history, Paging.AfterClick(v.page, Paging.TotalPages(|v.history|), Paging.Next))
  }

  /** With no history there are zero pages, so "next" stays enabled on page
      1 and leads to page 2 of 0, which shows nothing. */
  lemma EmptyHistoryNextLeavesRange()
    ensures var w := ClickNext(ScanView([], 1));
            && !NextDisabled(1, Paging.TotalPages(0))
            && w.page == 2 && w.page > Paging.TotalPages(|w.history|)
            && CurrentScans(w) == []
  {
  }

  /** "Next" disabled from the last page on, and on page 1 of an empty
      history. */
  predicate NextDisabledCorrected(page: int, total: nat) {
    page >= total
  }

  /** Clicking "next" with the corrected condition: at most one page on,
      never past the last page, and on whenever a later page exists. */
  function ClickNextCorrected(v: ScanView): (w: ScanView)
    ensures w.history == v.history
    ensures v.page <= w.page <= v.page + 1
    ensures w.page > v.page ==> w.page <= Paging.TotalPages(|w.history|)
    ensures v.page < Paging.TotalPages(|v.history|) ==> w.page == v.page + 1
  {
    var total := Paging.TotalPages(|v.history|);
    ScanView(v.history, if NextDisabledCorrected(v.page, total) then v.page else v.page + 1)
  }

  /** With the corrected condition the page never leaves `1..max(1, total)`,
      whatever the length of the history, and a non-empty history always has
      something on the current page. */
  lemma CorrectedNextStaysInRange(v: ScanView)
    requires 1 <= v.page && (v.page == 1 || v.page <= Paging.TotalPages(|v.history|))
    ensures var w := ClickNextCorrected(v);
            && 1 <= w.page
            && (w.page == 1 || w.page <= Paging.TotalPages(|w.history|))
            && (|w.history| > 0 ==> CurrentScans(w) != [])
  {
    var w := ClickNextCorrected(v);
    Paging.PageNonEmpty(w.history, w.page);
  }
}
