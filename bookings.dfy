/**
 * The decisions of the server's booking, exception and cancellation routes,
 * written as functions of the tables they read. The `Store` class applies them.
 */
module Bookings {

  import opened Wrappers
  import opened TimeDate
  import opened Availability
  import opened Crowding
  import opened Otp
  import opened Accounts

  /** A row of `patient_visits`: `createdBy` for a signed-in booking, the guest fields otherwise. */
  datatype Visit = Visit(visitId: nat, date: Date, time: Time, doctorId: nat, createdBy: Option<nat>,
                         guestName: Option<string>, guestEmail: Option<string>)

  /** The roles `book_visit` and `cancel_visit` admit. */
  const BookingRoles: seq<Role> := [Receptionist, SeniorAdmin, Customer]

  /** The position of `query(PatientVisit).filter(visit_id == id).first()`, or |visits|. */
  function FindVisit(visits: seq<Visit>, id: nat): (i: nat)
    ensures i <= |visits|
    ensures i < |visits| ==> visits[i].visitId == id
    ensures i == |visits| <==> forall j :: 0 <= j < |visits| ==> visits[j].visitId != id
  {
    if visits == [] then 0
    else if visits[0].visitId == id then 0
    else
      var i := 1 + FindVisit(visits[1..], id);
      assert forall j :: 1 <= j < |visits| ==> visits[j] == visits[1..][j - 1];
      i
  }

  function MaxVisitId(visits: seq<Visit>): (m: nat)
    ensures forall v :: v in visits ==> v.visitId <= m
  {
    if visits == [] then 0
    else
      var rest := MaxVisitId(visits[1..]);
      assert forall v :: v in visits ==> v == visits[0] || v in visits[1..];
      if visits[0].visitId > rest then visits[0].visitId else rest
  }

  /** The key SQLite gives a new row: one more than the largest in use. */
  function NextVisitId(visits: seq<Visit>): (id: nat)
    ensures id > 0
    ensures forall v :: v in visits ==> v.visitId != id
  {
    MaxVisitId(visits) + 1
  }

  predicate DistinctVisitIds(visits: seq<Visit>)
  {
    forall i, j :: 0 <= i < j < |visits| ==> visits[i].visitId != visits[j].visitId
  }

  /** A new row keeps the ids distinct; deleting one does too, and its id is then gone. */
  lemma VisitIdsStayDistinct(visits: seq<Visit>, v: Visit, i: nat)
    requires DistinctVisitIds(visits)
    ensures v.visitId == NextVisitId(visits) ==> DistinctVisitIds(visits + [v])
    ensures i < |visits| ==> DistinctVisitIds(Delete(visits, i))
    ensures i < |visits| ==> FindVisit(Delete(visits, i), visits[i].visitId) == |visits| - 1
  {
    if v.visitId == NextVisitId(visits) {
      var r := visits + [v];
      forall a, b | 0 <= a < b < |r| ensures r[a].visitId != r[b].visitId {
        if b == |visits| {
          assert r[a] in visits;
        }
      }
    }
    if i < |visits| {
      var r := Delete(visits, i);
      assert forall k :: 0 <= k < i ==> r[k] == visits[k];
      assert forall k :: i <= k < |r| ==> r[k] == visits[k + 1];
    }
  }

  /** `{v.time_slot for v in visits}` over the doctor's visits on the date. */
  function OccupiedTimes(visits: seq<Visit>, doctorId: nat, date: Date): (s: set<Time>)
    ensures forall t :: t in s <==> exists v :: v in visits && v.doctorId == doctorId && v.date == date && v.time == t
  {
    set v | v in visits && v.doctorId == doctorId && v.date == date :: v.time
  }

  // ---------------------------------------------------------------------------
  // Booking

  /** The availability gate of a booking for (doctor, date, time). */
  function Admit(exceptions: seq<AvailabilityException>, weekly: seq<WeeklyRule>, doctorId: nat, date: Date, t: Time,
                 public: bool): Admission
    requires ValidDate(date)
  {
    var exc := FirstException(exceptions, doctorId, date);
    var rule := FirstRule(weekly, doctorId, Weekday(date));
    if public then PublicAdmission(exc, rule, t) else BookVisitAdmission(exc, rule, t)
  }

  /** What a booking route answers when the availability gate refuses. */
  function Refusal(a: Admission, notAvailable: string): (r: Result<int>)
    ensures a.Admitted? <==> r.Ok?
    ensures r.Ok? ==> r.value == a.maxCap
    ensures a == Leave ==> r == Err(400, "Doctor is on leave")
    ensures a == NotAvailable ==> r == Err(400, notAvailable)
    ensures a == Fault <==> r.Err? && r.status == 500
  {
    match a
    case Admitted(cap) => Ok(cap)
    case Leave => Err(400, "Doctor is on leave")
    case NotAvailable => Err(400, notAvailable)
    case Fault => Err(500, "Internal Server Error")
  }

  /**
   * The scenario of the availability script: with nothing set, 10:00 is open
   * by default; once a 14:00-15:00 rule exists for the weekday, 10:00 is
   * refused and 14:00 is accepted with the rule's capacity.
   */
  lemma StrictModeScenario(doctorId: nat, date: Date)
    requires ValidDate(date)
    ensures Admit([], [], doctorId, date, HMS(10, 0, 0), false) == Admitted(DefaultCapacity)
    ensures var w := [WeeklyRule(doctorId, Weekday(date), HMS(14, 0, 0), HMS(15, 0, 0), 5)];
      Admit([], w, doctorId, date, HMS(10, 0, 0), false) == NotAvailable
      && Admit([], w, doctorId, date, HMS(14, 0, 0), false) == Admitted(5)
  {
  }

  /** The reply of `book_visit`: a confirmed id, or visit id 0 with the crowd suggestions. */
  datatype Booking = Confirmed(visitId: nat) | Crowded(suggestions: seq<Time>)

  /**
   * The decision of `book_visit` (with the capacity lookup corrected): the role
   * gate, then availability, then the crowd check, which only a forced booking
   * passes; `Ok(cap)` means the visit is stored and the load updated with `cap`.
   */
  function BookDecision(user: User, exceptions: seq<AvailabilityException>, weekly: seq<WeeklyRule>, loads: seq<SlotLoad>,
                        doctorId: nat, date: Date, t: Time, force: bool): (r: Result<Option<int>>)
    requires ValidDate(date)
    ensures RequireRole(user, BookingRoles).Err? ==> r.Err? && r == Err(RequireRole(user, BookingRoles).status, RequireRole(user, BookingRoles).detail)
    ensures r.Ok? <==> RequireRole(user, BookingRoles).Ok? && Admit(exceptions, weekly, doctorId, date, t, false).Admitted?
    ensures r.Ok? && r.value.Some? ==> r.value.value == Admit(exceptions, weekly, doctorId, date, t, false).maxCap
    ensures r.Ok? ==> (r.value.None? <==> CheckCrowding(loads, date, t).crowded && !force)
  {
    match RequireRole(user, BookingRoles)
    case Err(s, d) => Err(s, d)
    case Ok(_) =>
      match Refusal(Admit(exceptions, weekly, doctorId, date, t, false), "Doctor not available at this time")
      case Err(s, d) => Err(s, d)
      case Ok(cap) => if CheckCrowding(loads, date, t).crowded && !force then Ok(None) else Ok(Some(cap))
  }

  /**
   * The OTP lookup of `POST /visits/public` as written: the request's
   * `guest_email` as sent, although `send_otp` stored it stripped.
   */
  function GuestOtpIndexAsWritten(otps: seq<OtpEntry>, guestEmail: string, code: string, now: int): (i: nat)
    ensures i <= |otps|
    ensures i < |otps| ==> Usable(otps[i], guestEmail, code, now)
    ensures forall j :: 0 <= j < i ==> !Usable(otps[j], guestEmail, code, now)
    ensures i == |otps| <==> forall j :: 0 <= j < |otps| ==> !Usable(otps[j], guestEmail, code, now)
  {
    FirstUsable(otps, guestEmail, code, now)
  }

  /** The lookup as intended: by the address `send_otp` stored, the stripped one. */
  function GuestOtpIndex(otps: seq<OtpEntry>, guestEmail: string, code: string, now: int): (i: nat)
    ensures i <= |otps|
    ensures i < |otps| ==> Usable(otps[i], Strip(guestEmail), code, now)
    ensures forall j :: 0 <= j < i ==> !Usable(otps[j], Strip(guestEmail), code, now)
    ensures i == |otps| <==> forall j :: 0 <= j < |otps| ==> !Usable(otps[j], Strip(guestEmail), code, now)
  {
    FirstUsable(otps, Strip(guestEmail), code, now)
  }

  /** A code `send_otp` issued for an address is found by the corrected lookup until it expires. */
  lemma IssuedCodeBooks(otps: seq<OtpEntry>, email: string, code: string, now: int, later: int)
    requires AcceptableEmail(Strip(email))
    requires later < now + Lifetime
    ensures GuestOtpIndex(Issue(otps, Strip(email), code, now), email, code, later) <= |otps|
  {
    var r := Issue(otps, Strip(email), code, now);
    assert r[|otps|] == OtpEntry(Strip(email), code, now + Lifetime);
    assert Usable(r[|otps|], Strip(email), code, later);
  }

  /**
   * The defect: an address ending in whitespace that `str.strip()` removes gets
   * a code that `/visits/public` never finds. A no-break space (U+00A0)
   * survives the browser's trimming of an e-mail field, which only removes
   * ASCII whitespace.
   */
  lemma PaddedEmailNeverBooks(code: string, now: int)
    ensures var otps := Issue([], Strip("a@b.c\U{00A0}"), code, now);
      GuestOtpIndexAsWritten(otps, "a@b.c\U{00A0}", code, now) == |otps|
      && GuestOtpIndex(otps, "a@b.c\U{00A0}", code, now) == 0
  {
    var e, s := "a@b.c\U{00A0}", "a@b.c";
    assert !IsPyWhitespace(e[0]);
    assert TrimStart(e) == e;
    assert IsPyWhitespace(e[|e| - 1]) && e[..|e| - 1] == s;
    assert !IsPyWhitespace(s[|s| - 1]);
    assert TrimEnd(s) == s;
    assert Strip(e) == s;
    var otps := Issue([], s, code, now);
    assert otps == [OtpEntry(s, code, now + Lifetime)];
    assert !Usable(otps[0], e, code, now) by {
      assert |otps[0].email| != |e|;
    }
    assert Usable(otps[0], s, code, now);
  }

  /**
   * The decision of `POST /visits/public`: a usable code first (400), then
   * availability with the public rule; `Ok((i, cap))` means the visit is stored,
   * code `i` consumed and the load updated with `cap`. The crowd check only warns.
   */
  function GuestBookDecision(otps: seq<OtpEntry>, exceptions: seq<AvailabilityException>, weekly: seq<WeeklyRule>,
                             doctorId: nat, date: Date, t: Time, guestEmail: string, code: string, now: int): (r: Result<(nat, int)>)
    requires ValidDate(date)
    ensures GuestOtpIndex(otps, guestEmail, code, now) == |otps|
        ==> r == Err(400, "Invalid or expired OTP. Please verify your email.")
    ensures r.Ok? <==> GuestOtpIndex(otps, guestEmail, code, now) < |otps| && Admit(exceptions, weekly, doctorId, date, t, true).Admitted?
    ensures r.Ok? ==> (r.value.0 == GuestOtpIndex(otps, guestEmail, code, now) && r.value.0 < |otps|
                       && r.value.1 == Admit(exceptions, weekly, doctorId, date, t, true).maxCap)
  {
    var i := GuestOtpIndex(otps, guestEmail, code, now);
    if i == |otps| then Err(400, "Invalid or expired OTP. Please verify your email.")
    else
      match Refusal(Admit(exceptions, weekly, doctorId, date, t, true), "Doctor not available")
      case Err(s, d) => Err(s, d)
      case Ok(cap) => Ok((i, cap))
  }

  // ---------------------------------------------------------------------------
  // Exceptions

  /**
   * `set_exception`'s upsert: the first row for (doctor, date) gets the new
   * status, and a start or end only where one is given, both cleared for
   * Cancelled; without a row, one is appended with the times as given.
   */
  function UpsertException(rows: seq<AvailabilityException>, doctorId: nat, date: Date, status: ExceptionStatus,
                           start: Option<Time>, end: Option<Time>): (r: seq<AvailabilityException>)
    ensures var i := FindException(rows, doctorId, date);
      (i < |rows| ==> (|r| == |rows|
                       && r[i] == AvailabilityException(doctorId, date, status,
                                    if status == Cancelled then None else if start.Some? then start else rows[i].start,
                                    if status == Cancelled then None else if end.Some? then end else rows[i].end)
                       && forall j :: 0 <= j < |rows| && j != i ==> r[j] == rows[j]))
      && (i == |rows| ==> r == rows + [AvailabilityException(doctorId, date, status, start, end)])
  {
    var i := FindException(rows, doctorId, date);
    if i < |rows| then
      var e := rows[i];
      var e1 := e.(status := status);
      var e2 := if start.Some? then e1.(start := start) else e1;
      var e3 := if end.Some? then e2.(end := end) else e2;
      var e4 := if status == Cancelled then e3.(start := None, end := None) else e3;
      rows[i := e4]
    else rows + [AvailabilityException(doctorId, date, status, start, end)]
  }

  /**
   * After `set_exception` the availability rule reads the upserted row: leave
   * for Cancelled, else the window of the times given, each falling back to
   * the stored row's time when not given; every other doctor and date
   * resolves as before.
   */
  lemma UpsertExceptionTakesEffect(rows: seq<AvailabilityException>, weekly: seq<WeeklyRule>, doctorId: nat, date: Date,
                                   status: ExceptionStatus, start: Option<Time>, end: Option<Time>, d2: nat, date2: Date)
    requires ValidDate(date) && ValidDate(date2)
    ensures var r := UpsertException(rows, doctorId, date, status, start, end);
      (status == Cancelled ==> ResolveHours(r, weekly, doctorId, date) == OnLeave)
      && (status != Cancelled ==>
            var i := FindException(rows, doctorId, date);
            ResolveHours(r, weekly, doctorId, date)
            == if i < |rows| then ExceptionHours(if start.Some? then start else rows[i].start,
                                                 if end.Some? then end else rows[i].end)
               else ExceptionHours(start, end))
      && ((d2, date2) != (doctorId, date) ==> ResolveHours(r, weekly, d2, date2) == ResolveHours(rows, weekly, d2, date2))
  {
    var r := UpsertException(rows, doctorId, date, status, start, end);
    var i := FindException(rows, doctorId, date);
    if i < |rows| {
      FirstExceptionAt(r, doctorId, date, i);
    } else {
      FirstExceptionAt(r, doctorId, date, |rows|);
    }
    if (d2, date2) != (doctorId, date) {
      assert forall j :: 0 <= j < |rows| ==> (ExceptionFor(r[j], d2, date2) <==> ExceptionFor(rows[j], d2, date2));
      UpsertKeepsOthers(rows, r, d2, date2);
    }
  }

  lemma UpsertKeepsOthers(rows: seq<AvailabilityException>, r: seq<AvailabilityException>, d2: nat, date2: Date)
    requires |rows| <= |r|
    requires forall j :: 0 <= j < |rows| ==> (ExceptionFor(r[j], d2, date2) <==> ExceptionFor(rows[j], d2, date2))
    requires forall j :: 0 <= j < |rows| && ExceptionFor(rows[j], d2, date2) ==> r[j] == rows[j]
    requires forall j :: |rows| <= j < |r| ==> !ExceptionFor(r[j], d2, date2)
    ensures FirstException(r, d2, date2) == FirstException(rows, d2, date2)
  {
    var a := FirstException(rows, d2, date2);
    if a.Some? {
      var k :| 0 <= k < |rows| && rows[k] == a.value && ExceptionFor(rows[k], d2, date2)
               && forall j :: 0 <= j < k ==> !ExceptionFor(rows[j], d2, date2);
      FirstExceptionAt(r, d2, date2, k);
    } else {
      assert forall j :: 0 <= j < |r| ==> !ExceptionFor(r[j], d2, date2);
    }
  }

  /**
   * Setting the same exception twice leaves the table as setting it once,
   * except for a new Cancelled row, which keeps the times it was given until
   * the second call clears them.
   */
  lemma UpsertExceptionIdempotent(rows: seq<AvailabilityException>, doctorId: nat, date: Date, status: ExceptionStatus,
                                  start: Option<Time>, end: Option<Time>)
    ensures var once := UpsertException(rows, doctorId, date, status, start, end);
      (status != Cancelled || FindException(rows, doctorId, date) < |rows| || (start.None? && end.None?))
      ==> UpsertException(once, doctorId, date, status, start, end) == once
  {
    var once := UpsertException(rows, doctorId, date, status, start, end);
    var i := FindException(rows, doctorId, date);
    FindExceptionAt(once, doctorId, date, i);
  }

  /** `set_exception`: the Doctor role, then a doctor profile for the user (404). */
  function ExceptionOwner(user: User, doctors: seq<Doctor>): (r: Result<nat>)
    ensures RequireRole(user, [DoctorRole]).Err? ==> r.Err? && r.status != 404
    ensures r.Ok? <==> RequireRole(user, [DoctorRole]).Ok? && DoctorProfile(doctors, user.id).Some?
    ensures r.Ok? ==> r.value == DoctorProfile(doctors, user.id).value.doctorId
    ensures RequireRole(user, [DoctorRole]).Ok? && DoctorProfile(doctors, user.id).None? ==> r == Err(404, "Doctor profile not found")
  {
    match RequireRole(user, [DoctorRole])
    case Err(s, d) => Err(s, d)
    case Ok(_) =>
      match DoctorProfile(doctors, user.id)
      case None => Err(404, "Doctor profile not found")
      case Some(doc) => Ok(doc.doctorId)
  }

  // ---------------------------------------------------------------------------
  // Cancellation

  /**
   * `cancel_visit`: the role gate, a visit with that id (404), and for a
   * Customer ownership of it (403); `Ok(i)` deletes visit `i`.
   */
  function CancelDecision(user: User, visits: seq<Visit>, visitId: nat): (r: Result<nat>)
    ensures RequireRole(user, BookingRoles).Err? ==> r.Err? && r.status != 404
    ensures RequireRole(user, BookingRoles).Ok? && FindVisit(visits, visitId) == |visits| ==> r == Err(404, "Visit not found")
    ensures r.Ok? <==> (RequireRole(user, BookingRoles).Ok? && FindVisit(visits, visitId) < |visits|
                        && (user.role == Customer ==> visits[FindVisit(visits, visitId)].createdBy == Some(user.id)))
    ensures r.Ok? ==> r.value == FindVisit(visits, visitId)
    ensures r == Err(403, "Not authorized to cancel this visit")
        <==> (RequireRole(user, BookingRoles).Ok? && FindVisit(visits, visitId) < |visits| && user.role == Customer
              && visits[FindVisit(visits, visitId)].createdBy != Some(user.id))
  {
    match RequireRole(user, BookingRoles)
    case Err(s, d) => Err(s, d)
    case Ok(_) =>
      var i := FindVisit(visits, visitId);
      if i == |visits| then Err(404, "Visit not found")
      else if user.role == Customer && visits[i].createdBy != Some(user.id) then Err(403, "Not authorized to cancel this visit")
      else Ok(i)
  }

  /** A Customer can never cancel a guest's booking. */
  lemma CustomerCannotCancelGuestVisit(user: User, visits: seq<Visit>, visitId: nat)
    requires user.role == Customer
    requires FindVisit(visits, visitId) < |visits| && visits[FindVisit(visits, visitId)].createdBy.None?
    ensures CancelDecision(user, visits, visitId).Err?
  {
  }

  /**
   * `send_cancel_otp`: the visit must exist (404) and carry exactly this guest
   * email (400) before any code is stored.
   */
  function CancelOtpDecision(visits: seq<Visit>, visitId: nat, email: string): (r: Result<()>)
    ensures FindVisit(visits, visitId) == |visits| <==> r == Err(404, "Booking ID not found in our system")
    ensures r.Ok? <==> FindVisit(visits, visitId) < |visits| && visits[FindVisit(visits, visitId)].guestEmail == Some(email)
    ensures r.Err? ==> r.status == 404 || r == Err(400, "Email provided does not match the booking record")
  {
    var i := FindVisit(visits, visitId);
    if i == |visits| then Err(404, "Booking ID not found in our system")
    else if visits[i].guestEmail != Some(email) then Err(400, "Email provided does not match the booking record")
    else Ok(())
  }

  /**
   * `cancel_guest_visit`: a usable code (400), then the visit (404), then its
   * guest email (403); `Ok((v, o))` deletes visit `v` and code `o`.
   */
  function GuestCancelDecision(otps: seq<OtpEntry>, visits: seq<Visit>, visitId: nat, email: string, code: string, now: int)
    : (r: Result<(nat, nat)>)
    ensures FirstUsable(otps, email, code, now) == |otps| <==> r == Err(400, "Invalid or expired OTP. Verify email first.")
    ensures FirstUsable(otps, email, code, now) < |otps| && FindVisit(visits, visitId) == |visits|
        <==> r == Err(404, "Booking not found")
    ensures r.Ok? <==> (FirstUsable(otps, email, code, now) < |otps| && FindVisit(visits, visitId) < |visits|
                        && visits[FindVisit(visits, visitId)].guestEmail == Some(email))
    ensures r.Ok? ==> r.value == (FindVisit(visits, visitId), FirstUsable(otps, email, code, now))
    ensures r.Err? ==> r.status in {400, 403, 404}
  {
    var o := FirstUsable(otps, email, code, now);
    if o == |otps| then Err(400, "Invalid or expired OTP. Verify email first.")
    else
      var v := FindVisit(visits, visitId);
      if v == |visits| then Err(404, "Booking not found")
      else if visits[v].guestEmail != Some(email) then Err(403, "Email does not match booking record")
      else Ok((v, o))
  }

  /**
   * The two guest-cancellation routes fit together: a code stored by
   * `send_cancel_otp` cancels that booking until it expires.
   */
  lemma CancelOtpThenCancel(otps: seq<OtpEntry>, visits: seq<Visit>, visitId: nat, email: string, code: string,
                            now: int, later: int)
    requires CancelOtpDecision(visits, visitId, email).Ok?
    requires later < now + Lifetime
    ensures GuestCancelDecision(Issue(otps, email, code, now), visits, visitId, email, code, later).Ok?
  {
    var r := Issue(otps, email, code, now);
    assert r[|otps|] == OtpEntry(email, code, now + Lifetime);
    assert Usable(r[|otps|], email, code, later);
  }
}
