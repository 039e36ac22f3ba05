/** The class page's check-in logic (`src/pages/ClassDetail.js`): the value
    written into the `datetime-local` inputs, the join requests shown for the
    class, the currently open session, and the decisions `handleOpenSession`
    takes before it asks the server to open a check-in session.

    The server's replies, the clock and the device position are parameters;
    date parsing and the interval that closes an expired session are not
    modelled.
 */
module ClassSession {
  import opened Common
  import opened Text

  /** `String(n).padStart(2, "0")` for a non-negative `n`. */
  function Pad(n: nat): (r: string)
    ensures AllDigits(r) && DigitsValue(r) == n
    ensures |r| >= 2
    ensures n < 100 ==> |r| == 2
    ensures n < 10 ==> r[0] == '0'
    ensures n >= 10 ==> r == NatToString(n)
  {
    var s := NatToString(n);
    NatToStringLength(n);
    if |s| < 2 then
      var r := "0" + s;
      assert r[..1] == "0" && r[1..] == s;
      assert DigitsValue(r[..1]) == 0;
      r
    else s
  }

  /** The local calendar fields of a `Date`: the getters' results, with the
      month counted from 0 as `getMonth` does. */
  datatype DateParts = DateParts(year: nat, monthIndex: nat, day: nat, hours: nat, minutes: nat)

  /** Fields of an ordinary date in years 1000 to 9999. */
  predicate Ordinary(p: DateParts) {
    1000 <= p.year <= 9999 && p.monthIndex <= 11 && 1 <= p.day <= 31 && p.hours <= 23 && p.minutes <= 59
  }

  /** `formatDatetimeLocal`: "YYYY-MM-DDTHH:MM", the month shifted to count
      from 1. */
  function FormatDatetimeLocal(p: DateParts): string {
    NatToString(p.year) + "-" + Pad(p.monthIndex + 1) + "-" + Pad(p.day) + "T" + Pad(p.hours) + ":" + Pad(p.minutes)
  }

  /** The fields as a reader of "YYYY-MM-DDTHH:MM" sees them, the month
      counted from 1. */
  datatype LocalStamp = LocalStamp(year: nat, month: nat, day: nat, hours: nat, minutes: nat)

  /** Positions of the separators in "YYYY-MM-DDTHH:MM". */
  predicate Separator(k: int) {
    k == 4 || k == 7 || k == 10 || k == 13
  }

  /** The shape of a `datetime-local` value. */
  predicate LocalShape(s: string) {
    && |s| == 16 && s[4] == '-' && s[7] == '-' && s[10] == 'T' && s[13] == ':'
    && forall k :: 0 <= k < 16 && !Separator(k) ==> IsDigit(s[k])
  }

  /** Reading the fields back out of a `datetime-local` value. */
  function ParseDatetimeLocal(s: string): (t: LocalStamp)
    requires LocalShape(s)
  {
    assert AllDigits(s[..4]) && AllDigits(s[5..7]) && AllDigits(s[8..10]) by {
      forall k | 0 <= k < 4 ensures IsDigit(s[..4][k]) { assert s[..4][k] == s[k]; }
      forall k | 0 <= k < 2 ensures IsDigit(s[5..7][k]) && IsDigit(s[8..10][k]) {
        assert s[5..7][k] == s[5 + k] && s[8..10][k] == s[8 + k];
      }
    }
    assert AllDigits(s[11..13]) && AllDigits(s[14..16]) by {
      forall k | 0 <= k < 2 ensures IsDigit(s[11..13][k]) && IsDigit(s[14..16][k]) {
        assert s[11..13][k] == s[11 + k] && s[14..16][k] == s[14 + k];
      }
    }
    LocalStamp(DigitsValue(s[..4]), DigitsValue(s[5..7]), DigitsValue(s[8..10]),
               DigitsValue(s[11..13]), DigitsValue(s[14..16]))
  }

  /** Five digit fields of widths 4, 2, 2, 2, 2 with their separators form a
      `datetime-local` value whose fields can be read back. */
  lemma Assemble(y: string, mo: string, d: string, h: string, mi: string)
    requires |y| == 4 && |mo| == 2 && |d| == 2 && |h| == 2 && |mi| == 2
    requires AllDigits(y) && AllDigits(mo) && AllDigits(d) && AllDigits(h) && AllDigits(mi)
    ensures var s := y + "-" + mo + "-" + d + "T" + h + ":" + mi;
            && LocalShape(s)
            && s[..4] == y && s[5..7] == mo && s[8..10] == d && s[11..13] == h && s[14..16] == mi
  {
    var s := y + "-" + mo + "-" + d + "T" + h + ":" + mi;
    forall k | 0 <= k < 16 && !Separator(k)
      ensures IsDigit(s[k])
    {
      if k < 4 { assert s[k] == y[k]; }
      else if k < 7 { assert s[k] == mo[k - 5]; }
      else if k < 10 { assert s[k] == d[k - 8]; }
      else if k < 13 { assert s[k] == h[k - 11]; }
      else { assert s[k] == mi[k - 14]; }
    }
  }

  /** For an ordinary date the formatted value has the `datetime-local`
      shape, and reading it back gives the date's fields with the month
      counted from 1. */
  lemma FormatRoundTrip(p: DateParts)
    requires Ordinary(p)
    ensures LocalShape(FormatDatetimeLocal(p))
    ensures ParseDatetimeLocal(FormatDatetimeLocal(p)) == LocalStamp(p.year, p.monthIndex + 1, p.day, p.hours, p.minutes)
  {
    FormatPieces(p);
    RoundTripOf(NatToString(p.year), Pad(p.monthIndex + 1), Pad(p.day), Pad(p.hours), Pad(p.minutes));
  }

  /** The formatted fields of an ordinary date have widths 4, 2, 2, 2, 2. */
  lemma FormatPieces(p: DateParts)
    requires Ordinary(p)
    ensures |NatToString(p.year)| == 4 && |Pad(p.monthIndex + 1)| == 2 && |Pad(p.day)| == 2
    ensures |Pad(p.hours)| == 2 && |Pad(p.minutes)| == 2
  {
    NatToStringLength(p.year);
  }

  /** Five digit fields with their separators form a `datetime-local` value
      that reads back as the fields' numbers. */
  lemma RoundTripOf(y: string, mo: string, d: string, h: string, mi: string)
    requires |y| == 4 && |mo| == 2 && |d| == 2 && |h| == 2 && |mi| == 2
    requires AllDigits(y) && AllDigits(mo) && AllDigits(d) && AllDigits(h) && AllDigits(mi)
    ensures var s := y + "-" + mo + "-" + d + "T" + h + ":" + mi;
            && LocalShape(s)
            && ParseDatetimeLocal(s) == LocalStamp(DigitsValue(y), DigitsValue(mo), DigitsValue(d), DigitsValue(h), DigitsValue(mi))
  {
    var s := y + "-" + mo + "-" + d + "T" + h + ":" + mi;
    Assemble(y, mo, d, h, mi);
    ReadBack(s, y, mo, d, h, mi);
  }

  /** A value assembled from five digit fields reads back as those fields. */
  lemma ReadBack(s: string, y: string, mo: string, d: string, h: string, mi: string)
    requires LocalShape(s)
    requires AllDigits(y) && AllDigits(mo) && AllDigits(d) && AllDigits(h) && AllDigits(mi)
    requires s[..4] == y && s[5..7] == mo && s[8..10] == d && s[11..13] == h && s[14..16] == mi
    ensures ParseDatetimeLocal(s) == LocalStamp(DigitsValue(y), DigitsValue(mo), DigitsValue(d), DigitsValue(h), DigitsValue(mi))
  {
    ParseFields(s);
  }

  /** Reading a `datetime-local` value reads its five digit fields. */
  lemma ParseFields(s: string)
    requires LocalShape(s)
    ensures AllDigits(s[..4]) && AllDigits(s[5..7]) && AllDigits(s[8..10]) && AllDigits(s[11..13]) && AllDigits(s[14..16])
    ensures ParseDatetimeLocal(s) == LocalStamp(DigitsValue(s[..4]), DigitsValue(s[5..7]), DigitsValue(s[8..10]),
                                                DigitsValue(s[11..13]), DigitsValue(s[14..16]))
  {
  }

  // Join requests

  /** The class reference of a request: a populated class object (with its
      `_id`, if any), a bare class id, or nothing. */
  datatype ClassRef = Populated(objectId: Option<string>) | Plain(classId: string) | NoClass

  /** A join request. */
  datatype Request = Request(id: string, classRef: ClassRef, studentName: string)

  /** `r.classId?._id === id || r.classId === id`. */
  function ForClass(classId: string): Request -> bool {
    (r: Request) =>
      || (r.classRef.Populated? && r.classRef.objectId == Some(classId))
      || (r.classRef.Plain? && r.classRef.classId == classId)
  }

  /** The requests shown on the class page: those of this class, in the
      order the server sent them. */
  function RequestsFor(requests: seq<Request>, classId: string): (r: seq<Request>)
    ensures forall q :: q in r <==> q in requests && ForClass(classId)(q)
    ensures forall q :: q in r && q.classRef.Plain? ==> q.classRef.classId == classId
    ensures forall q :: q in r ==> !q.classRef.NoClass?
  {
    Filter(requests, ForClass(classId))
  }

  /** The requests of a list made of two parts are those of the first part
      followed by those of the second: the server's order is kept. */
  lemma RequestsForAppend(a: seq<Request>, b: seq<Request>, classId: string)
    ensures RequestsFor(a + b, classId) == RequestsFor(a, classId) + RequestsFor(b, classId)
  {
    FilterAppend(a, b, ForClass(classId));
  }

  /** The request is not the one with this id. */
  function NotRequest(reqId: string): Request -> bool {
    (r: Request) => r.id != reqId
  }

  /** `prev.filter(r => r._id !== reqId)` after an approval or rejection. */
  function WithoutRequest(requests: seq<Request>, reqId: string): (r: seq<Request>)
    ensures forall q :: q in r <==> q in requests && q.id != reqId
    ensures |r| == |requests| - Count(requests, (q: Request) => q.id == reqId)
  {
    FilterLength(requests, NotRequest(reqId));
    RemovedCount(requests, reqId);
    Filter(requests, NotRequest(reqId))
  }

  /** Removing a request from a list made of two parts removes it from each
      part in place: the remaining requests keep their order. */
  lemma WithoutRequestAppend(a: seq<Request>, b: seq<Request>, reqId: string)
    ensures WithoutRequest(a + b, reqId) == WithoutRequest(a, reqId) + WithoutRequest(b, reqId)
  {
    FilterAppend(a, b, NotRequest(reqId));
  }

  /** `handleApprove` and `handleReject`: the request list after the
      approval or rejection request. Success drops the requests with that
      id; a failed request throws before the filter runs, so the list stays
      as it was. */
  function AfterDecision(requests: seq<Request>, reqId: string, succeeded: bool): (r: seq<Request>)
    ensures forall q :: q in r <==> q in requests && !(succeeded && q.id == reqId)
    ensures !succeeded ==> r == requests
    ensures succeeded ==> |r| == |requests| - Count(requests, (q: Request) => q.id == reqId)
  {
    if succeeded then WithoutRequest(requests, reqId) else requests
  }

  /** Kept and dropped requests add up. */
  lemma {:induction false} RemovedCount(requests: seq<Request>, reqId: string)
    ensures Count(requests, NotRequest(reqId)) + Count(requests, (q: Request) => q.id == reqId) == |requests|
    decreases |requests|
  {
    if |requests| > 0 {
      RemovedCount(requests[1..], reqId);
    }
  }

  /** Removing a request keeps every other request in its place, and it
      does not matter whether the class filter runs before or after. */
  lemma WithoutRequestKeepsOthers(requests: seq<Request>, classId: string, reqId: string)
    ensures WithoutRequest(RequestsFor(requests, classId), reqId) == RequestsFor(WithoutRequest(requests, reqId), classId)
    ensures WithoutRequest(WithoutRequest(requests, reqId), reqId) == WithoutRequest(requests, reqId)
  {
    FilterCommute(requests, ForClass(classId), NotRequest(reqId));
    var r := WithoutRequest(requests, reqId);
    FilterKeepsAll(r, NotRequest(reqId));
  }

  // Sessions

  /** A check-in session; `closeAt` is absent when it cannot be read as a
      time. */
  datatype Session = Session(id: string, status: string, closeAt: Option<int>)

  /** The class's latest session as the server returned it. */
  datatype SessionReply = SessionFailed | SessionBody(session: Option<Session>)

  /** `fetchActiveSession`: the returned session when its status is
      "active", and none otherwise, including on error. */
  function ActiveSession(reply: SessionReply): (r: Option<Session>)
    ensures r.Some? <==> reply.SessionBody? && reply.session.Some? && reply.session.value.status == "active"
    ensures r.Some? ==> r == reply.session
  {
    match reply
    case SessionBody(Some(s)) => if s.status == "active" then Some(s) else None
    case _ => None
  }

  /** `stillOpen`: the latest session is active and closes after `now`; an
      unreadable close time never counts as later. */
  predicate StillOpen(latest: Option<Session>, now: int) {
    latest.Some? && latest.value.status == "active" && latest.value.closeAt.Some? && latest.value.closeAt.value > now
  }

  /** The class fields the form edits. Absent fields are `None`. */
  datatype ClassInfo = ClassInfo(
    openAt: Option<string>,
    closeAt: Option<string>,
    withTeacherFace: Option<bool>,
    withMapPreview: Option<bool>,
    latitude: Option<real>,
    longitude: Option<real>,
    radius: Option<int>,
    locationName: Option<string>)

  /** A flag that is `true` (absent counts as false). */
  predicate Truthy(b: Option<bool>) {
    b == Some(true)
  }

  /** A time that is present and not empty. */
  predicate Given(t: Option<string>) {
    t.Some? && t.value != ""
  }

  /** A coordinate that is present and not zero; zero counts as missing. */
  predicate Located(x: Option<real>) {
    x.Some? && x.value != 0.0
  }

  /** `classInfo.radius || 50`: never zero; a given non-zero radius is
      kept, and 50 metres is the only value that can stand for something
      else. */
  function RadiusOrDefault(radius: Option<int>): (m: int)
    ensures m != 0
    ensures radius.Some? && radius.value != 0 ==> m == radius.value
    ensures m != 50 ==> radius == Some(m)
  {
    if radius.Some? && radius.value != 0 then radius.value else 50
  }

  /** The body of the open request. */
  datatype OpenPayload = OpenPayload(
    classId: string, openAt: string, closeAt: string, withTeacherFace: bool,
    latitude: real, longitude: real, radiusInMeters: int, name: string)

  /** What `handleOpenSession` does before the open request is answered. */
  datatype OpenOutcome =
    | TimesMissing
    | AskTeacherFace
    | CheckFailed
    | AlreadyOpen
    | PositionFailed
    | NoCoordinates
    | SendOpen(payload: OpenPayload)

  /** The coordinates used: the stored ones with a map preview, otherwise
      the device position. They come from exactly one of the two sources,
      are missing only when the device position is needed and could not be
      obtained, and a device position always gives both coordinates. */
  function Coordinates(info: ClassInfo, position: Option<(real, real)>): (c: Option<(Option<real>, Option<real>)>)
    ensures c.None? <==> !Truthy(info.withMapPreview) && position.None?
    ensures c.Some? && !Truthy(info.withMapPreview) ==> c.value == (Some(position.value.0), Some(position.value.1))
    ensures Truthy(info.withMapPreview) ==> c == Some((info.latitude, info.longitude))
  {
    if Truthy(info.withMapPreview) then Some((info.latitude, info.longitude))
    else if position.None? then None
    else Some((Some(position.value.0), Some(position.value.1)))
  }

  /** With a map preview the device position is never consulted. */
  lemma PreviewIgnoresDevice(info: ClassInfo, position: Option<(real, real)>, position': Option<(real, real)>)
    requires Truthy(info.withMapPreview)
    ensures Coordinates(info, position) == Coordinates(info, position')
  {
  }

  /** Both times are set, and the teacher's face is scanned if the class
      demands it: the checks made before the server is asked. */
  predicate LocalChecksPass(info: ClassInfo, faceScanned: bool) {
    Given(info.openAt) && Given(info.closeAt) && !(Truthy(info.withTeacherFace) && !faceScanned)
  }

  /** The server answered and no session of the class is still open. */
  predicate NoneOpen(check: SessionReply, now: int) {
    check.SessionBody? && !StillOpen(check.session, now)
  }

  /** Both coordinates were obtained and are non-zero. */
  predicate Usable(c: Option<(Option<real>, Option<real>)>) {
    c.Some? && Located(c.value.0) && Located(c.value.1)
  }

  /** `handleOpenSession` up to the open request, checks in source order:
      both times present; the teacher's face when the class demands it; the
      latest session (an error ends in the failure alert); no session still
      open; the position; non-zero coordinates. Then the payload with its
      defaults. */
  function OpenSession(info: ClassInfo, classId: string, faceScanned: bool, check: SessionReply,
                       now: int, position: Option<(real, real)>): (o: OpenOutcome)
    ensures o.TimesMissing? <==> !Given(info.openAt) || !Given(info.closeAt)
    ensures o.AskTeacherFace? <==> Given(info.openAt) && Given(info.closeAt) && Truthy(info.withTeacherFace) && !faceScanned
    ensures o.CheckFailed? <==> LocalChecksPass(info, faceScanned) && check.SessionFailed?
    ensures o.AlreadyOpen? <==> LocalChecksPass(info, faceScanned) && check.SessionBody? && StillOpen(check.session, now)
    ensures o.PositionFailed? <==>
              LocalChecksPass(info, faceScanned) && NoneOpen(check, now) && !Truthy(info.withMapPreview) && position.None?
    ensures o.NoCoordinates? <==>
              && LocalChecksPass(info, faceScanned) && NoneOpen(check, now)
              && Coordinates(info, position).Some? && !Usable(Coordinates(info, position))
    ensures o.SendOpen? <==>
              LocalChecksPass(info, faceScanned) && NoneOpen(check, now) && Usable(Coordinates(info, position))
    ensures o.SendOpen? ==>
              && o.payload.latitude != 0.0 && o.payload.longitude != 0.0
              && o.payload.classId == classId
              && o.payload.openAt == info.openAt.value && o.payload.closeAt == info.closeAt.value
  {
    if !Given(info.openAt) || !Given(info.closeAt) then TimesMissing
    else if Truthy(info.withTeacherFace) && !faceScanned then AskTeacherFace
    else if check.SessionFailed? then CheckFailed
    else if StillOpen(check.session, now) then AlreadyOpen
    else
      match Coordinates(info, position)
      case None => PositionFailed
      case Some((lat, lng)) =>
        if !Located(lat) || !Located(lng) then NoCoordinates
        else SendOpen(OpenPayload(classId, info.openAt.value, info.closeAt.value, Truthy(info.withTeacherFace),
                                  lat.value, lng.value, RadiusOrDefault(info.radius), info.locationName.GetOr("")))
  }

  /** The payload's defaults: a face requirement only when set, 50 metres
      when the radius is missing or 0, the given place name or an empty one.
      With a map preview the stored coordinates are sent unchanged, and
      without one the device position. */
  lemma OpenPayloadDefaults(info: ClassInfo, classId: string, faceScanned: bool, check: SessionReply,
                            now: int, position: Option<(real, real)>)
    requires OpenSession(info, classId, faceScanned, check, now, position).SendOpen?
    ensures var pl := OpenSession(info, classId, faceScanned, check, now, position).payload;
            && pl.withTeacherFace == Truthy(info.withTeacherFace)
            && (info.radius.None? ==> pl.radiusInMeters == 50)
            && (info.radius.Some? && info.radius.value != 0 ==> pl.radiusInMeters == info.radius.value)
            && (info.locationName.None? ==> pl.name == "")
            && (info.locationName.Some? ==> pl.name == info.locationName.value)
            && (info.radius == Some(0) ==> pl.radiusInMeters == 50)
            && pl.radiusInMeters == RadiusOrDefault(info.radius)
            && (Truthy(info.withMapPreview) ==> Some(pl.latitude) == info.latitude && Some(pl.longitude) == info.longitude)
            && (!Truthy(info.withMapPreview) ==> position == Some((pl.latitude, pl.longitude)))
  {
  }

  /** A zero latitude stops the request even with a map preview: zero is
      read as a missing coordinate. */
  lemma ZeroLatitudeRefused(info: ClassInfo, classId: string, check: SessionReply, now: int, position: Option<(real, real)>)
    requires Given(info.openAt) && Given(info.closeAt) && !Truthy(info.withTeacherFace)
    requires check.SessionBody? && !StillOpen(check.session, now)
    requires Truthy(info.withMapPreview) && info.latitude == Some(0.0)
    ensures OpenSession(info, classId, false, check, now, position) == NoCoordinates
  {
  }

  /** The face requirement is checked before the server is asked: a class
      that needs the teacher's face and a teacher without a scanned face get
      the face dialog whatever the server or the position would say. */
  lemma FaceBeforeServer(info: ClassInfo, classId: string, check: SessionReply, check': SessionReply,
                         now: int, position: Option<(real, real)>, position': Option<(real, real)>)
    requires Given(info.openAt) && Given(info.closeAt) && Truthy(info.withTeacherFace)
    ensures OpenSession(info, classId, false, check, now, position) == AskTeacherFace
    ensures OpenSession(info, classId, false, check, now, position) == OpenSession(info, classId, false, check', now, position')
  {
  }
}
