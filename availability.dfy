/**
 * Doctor availability on the server: the precedence of a date exception over
 * the weekly rule over the default 08:00-22:00 window, the booking check that
 * `book_visit` and the public guest booking apply, and the 30-minute public
 * slot list.
 */
module Availability {

  import opened Wrappers
  import opened TimeDate

  datatype ExceptionStatus = Added | Updated | Cancelled

  /** A row of `doctor_availability_exceptions`: an override of one date. */
  datatype AvailabilityException = AvailabilityException(
    doctorId: nat, date: Date, status: ExceptionStatus, start: Option<Time>, end: Option<Time>)

  /** A row of `doctor_availability`: a recurring window on a weekday (0 = Monday). */
  datatype WeeklyRule = WeeklyRule(doctorId: nat, dayOfWeek: int, start: Time, end: Time, maxPatientsPerSlot: int)

  /** The default open window when a weekday has no rule, and its capacity. */
  const DefaultStart: Time := 8 * 3600
  const DefaultEnd: Time := 22 * 3600
  const DefaultCapacity: int := 10

  /** The length of one public slot, in seconds. */
  const SlotStep: nat := 30 * 60

  predicate ExceptionFor(e: AvailabilityException, doctorId: nat, date: Date)
  {
    e.doctorId == doctorId && e.date == date
  }

  predicate RuleFor(w: WeeklyRule, doctorId: nat, weekday: int)
  {
    w.doctorId == doctorId && w.dayOfWeek == weekday
  }

  /** The position of the first exception row for (doctor, date), or |rows| when there is none. */
  function FindException(rows: seq<AvailabilityException>, doctorId: nat, date: Date): (i: nat)
    ensures i <= |rows|
    ensures i < |rows| ==> ExceptionFor(rows[i], doctorId, date)
    ensures forall j :: 0 <= j < i ==> !ExceptionFor(rows[j], doctorId, date)
  {
    if rows == [] then 0
    else if ExceptionFor(rows[0], doctorId, date) then 0
    else 1 + FindException(rows[1..], doctorId, date)
  }

  /** `query(DoctorAvailabilityException).filter(doctor, date).first()`: the row at `FindException`. */
  function FirstException(rows: seq<AvailabilityException>, doctorId: nat, date: Date): (r: Option<AvailabilityException>)
    ensures r.None? <==> forall i :: 0 <= i < |rows| ==> !ExceptionFor(rows[i], doctorId, date)
    ensures r.Some? ==> exists i :: (0 <= i < |rows| && rows[i] == r.value && ExceptionFor(rows[i], doctorId, date)
                                     && forall j :: 0 <= j < i ==> !ExceptionFor(rows[j], doctorId, date))
  {
    var i := FindException(rows, doctorId, date);
    if i < |rows| then Some(rows[i]) else None
  }

  lemma FindExceptionAt(rows: seq<AvailabilityException>, doctorId: nat, date: Date, i: nat)
    requires i < |rows| && ExceptionFor(rows[i], doctorId, date)
    requires forall j :: 0 <= j < i ==> !ExceptionFor(rows[j], doctorId, date)
    ensures FindException(rows, doctorId, date) == i
  {
    if i > 0 {
      FindExceptionAt(rows[1..], doctorId, date, i - 1);
    }
  }

  lemma FirstExceptionAt(rows: seq<AvailabilityException>, doctorId: nat, date: Date, i: nat)
    requires i < |rows| && ExceptionFor(rows[i], doctorId, date)
    requires forall j :: 0 <= j < i ==> !ExceptionFor(rows[j], doctorId, date)
    ensures FirstException(rows, doctorId, date) == Some(rows[i])
  {
    FindExceptionAt(rows, doctorId, date, i);
  }

  /** `query(DoctorAvailability).filter(doctor, day_of_week).first()`. */
  function FirstRule(rows: seq<WeeklyRule>, doctorId: nat, weekday: int): (r: Option<WeeklyRule>)
    ensures r.None? <==> forall i :: 0 <= i < |rows| ==> !RuleFor(rows[i], doctorId, weekday)
    ensures r.Some? ==> exists i :: (0 <= i < |rows| && rows[i] == r.value && RuleFor(rows[i], doctorId, weekday)
                                     && forall j :: 0 <= j < i ==> !RuleFor(rows[j], doctorId, weekday))
  {
    if rows == [] then None
    else if RuleFor(rows[0], doctorId, weekday) then Some(rows[0])
    else
      var r := FirstRule(rows[1..], doctorId, weekday);
      assert forall i :: 1 <= i < |rows| ==> rows[i] == rows[1..][i - 1];
      r
  }

  /** What decides a doctor's hours on a date, in order of precedence. */
  datatype Hours =
    | OnLeave                                                // a Cancelled exception
    | ExceptionHours(start: Option<Time>, end: Option<Time>) // an Added or Updated exception
    | WeeklyHours(rule: WeeklyRule)                          // the first weekly rule of the weekday
    | DefaultHours                                           // neither: 08:00-22:00

  function HoursOf(exc: Option<AvailabilityException>, rule: Option<WeeklyRule>): Hours
  {
    match exc
    case Some(e) => if e.status == Cancelled then OnLeave else ExceptionHours(e.start, e.end)
    case None => if rule.Some? then WeeklyHours(rule.value) else DefaultHours
  }

  /** The hours the server resolves for a doctor on a date from its two tables. */
  function ResolveHours(exceptions: seq<AvailabilityException>, weekly: seq<WeeklyRule>, doctorId: nat, date: Date): Hours
    requires ValidDate(date)
  {
    HoursOf(FirstException(exceptions, doctorId, date), FirstRule(weekly, doctorId, Weekday(date)))
  }

  /** An exception for the date decides alone: the weekly table is irrelevant. */
  lemma ExceptionWins(exceptions: seq<AvailabilityException>, w1: seq<WeeklyRule>, w2: seq<WeeklyRule>,
                      doctorId: nat, date: Date, i: nat)
    requires ValidDate(date)
    requires i < |exceptions| && ExceptionFor(exceptions[i], doctorId, date)
    ensures ResolveHours(exceptions, w1, doctorId, date) == ResolveHours(exceptions, w2, doctorId, date)
    ensures ResolveHours(exceptions, w1, doctorId, date).OnLeave?
        <==> FirstException(exceptions, doctorId, date).value.status == Cancelled
  {
  }

  /** Without an exception, the first weekly rule of the weekday decides, whatever the default. */
  lemma WeeklyBeatsDefault(exceptions: seq<AvailabilityException>, weekly: seq<WeeklyRule>,
                           doctorId: nat, date: Date, i: nat)
    requires ValidDate(date)
    requires forall k :: 0 <= k < |exceptions| ==> !ExceptionFor(exceptions[k], doctorId, date)
    requires i < |weekly| && RuleFor(weekly[i], doctorId, Weekday(date))
    requires forall k :: 0 <= k < i ==> !RuleFor(weekly[k], doctorId, Weekday(date))
    ensures ResolveHours(exceptions, weekly, doctorId, date) == WeeklyHours(weekly[i])
  {
    var r := FirstRule(weekly, doctorId, Weekday(date));
    var j :| 0 <= j < |weekly| && weekly[j] == r.value && RuleFor(weekly[j], doctorId, Weekday(date))
      && forall k :: 0 <= k < j ==> !RuleFor(weekly[k], doctorId, Weekday(date));
    assert j == i;
  }

  /** The default window applies exactly when there is neither an exception nor a rule. */
  lemma DefaultOnlyWithoutRules(exceptions: seq<AvailabilityException>, weekly: seq<WeeklyRule>,
                                doctorId: nat, date: Date)
    requires ValidDate(date)
    ensures ResolveHours(exceptions, weekly, doctorId, date) == DefaultHours
        <==> ((forall k :: 0 <= k < |exceptions| ==> !ExceptionFor(exceptions[k], doctorId, date))
              && (forall k :: 0 <= k < |weekly| ==> !RuleFor(weekly[k], doctorId, Weekday(date))))
  {
  }

  // ---------------------------------------------------------------------------
  // Booking acceptance

  /** The availability verdict of a booking handler. */
  datatype Admission =
    | Admitted(maxCap: int)   // book it, with this slot capacity
    | Leave                   // 400 "Doctor is on leave"
    | NotAvailable            // 400 "Doctor not available ..."
    | Fault                   // the handler raises an unexpected exception (500)

  /**
   * Python's chained `start <= t <= end` on optional times: comparing None with
   * a time raises, but the chain stops after a false first comparison.
   */
  function ChainedWithin(start: Option<Time>, t: Time, end: Option<Time>): (r: Option<bool>)
    ensures r == Some(true) <==> start.Some? && end.Some? && start.value <= t <= end.value
    ensures r.None? <==> start.None? || (start.value <= t && end.None?)
  {
    match start
    case None => None
    case Some(s) =>
      if !(s <= t) then Some(false)
      else match end
        case None => None
        case Some(e) => Some(t <= e)
  }

  /**
   * The availability check of `POST /visits/public`: an exception decides first
   * (Cancelled: leave; otherwise its inclusive window, capacity 1), then the
   * first weekly rule (its inclusive window and `max_patients_per_slot`), then
   * the default window 08:00-22:00 with capacity 10.
   */
  function PublicAdmission(exc: Option<AvailabilityException>, rule: Option<WeeklyRule>, t: Time): Admission
  {
    match HoursOf(exc, rule)
    case OnLeave => Leave
    case ExceptionHours(s, e) =>
      (match ChainedWithin(s, t, e)
       case None => Fault
       case Some(ok) => if ok then Admitted(1) else NotAvailable)
    case WeeklyHours(w) => if w.start <= t <= w.end then Admitted(w.maxPatientsPerSlot) else NotAvailable
    case DefaultHours => if DefaultStart <= t <= DefaultEnd then Admitted(DefaultCapacity) else NotAvailable
  }

  /**
   * `book_visit` as written: in the Added/Updated branch, a time inside the
   * window reaches `visit.doctor.id`, an attribute its request model lacks, and raises.
   */
  function BookVisitAdmissionAsWritten(exc: Option<AvailabilityException>, rule: Option<WeeklyRule>, t: Time): Admission
  {
    match HoursOf(exc, rule)
    case OnLeave => Leave
    case ExceptionHours(s, e) =>
      (match ChainedWithin(s, t, e)
       case None => Fault
       case Some(ok) => if ok then Fault else NotAvailable)
    case WeeklyHours(w) => if w.start <= t <= w.end then Admitted(w.maxPatientsPerSlot) else NotAvailable
    case DefaultHours => if DefaultStart <= t <= DefaultEnd then Admitted(DefaultCapacity) else NotAvailable
  }

  /**
   * `book_visit` as its comments intend: inside an exception's window the
   * capacity is that of the weekday's weekly rule (looked up by the visit's
   * `doctor_id`), else 1.
   */
  function BookVisitAdmission(exc: Option<AvailabilityException>, rule: Option<WeeklyRule>, t: Time): Admission
  {
    match HoursOf(exc, rule)
    case OnLeave => Leave
    case ExceptionHours(s, e) =>
      (match ChainedWithin(s, t, e)
       case None => Fault
       case Some(ok) => if ok then Admitted(if rule.Some? then rule.value.maxPatientsPerSlot else 1) else NotAvailable)
    case WeeklyHours(w) => if w.start <= t <= w.end then Admitted(w.maxPatientsPerSlot) else NotAvailable
    case DefaultHours => if DefaultStart <= t <= DefaultEnd then Admitted(DefaultCapacity) else NotAvailable
  }

  /** The inclusive window the hours open, if any: what the public slot list walks. */
  function WindowOf(h: Hours): Option<(Time, Time)>
  {
    match h
    case OnLeave => None
    case ExceptionHours(s, e) => if s.Some? && e.Some? then Some((s.value, e.value)) else None
    case WeeklyHours(w) => Some((w.start, w.end))
    case DefaultHours => Some((DefaultStart, DefaultEnd))
  }

  /**
   * Both booking checks admit a time exactly when it lies, bounds included,
   * inside the window the slot list uses; a Cancelled exception means leave
   * whatever the time.
   */
  lemma AdmissionMatchesWindow(exc: Option<AvailabilityException>, rule: Option<WeeklyRule>, t: Time)
    ensures PublicAdmission(exc, rule, t).Admitted?
        <==> (WindowOf(HoursOf(exc, rule)).Some?
              && WindowOf(HoursOf(exc, rule)).value.0 <= t <= WindowOf(HoursOf(exc, rule)).value.1)
    ensures BookVisitAdmission(exc, rule, t).Admitted? <==> PublicAdmission(exc, rule, t).Admitted?
    ensures PublicAdmission(exc, rule, t) == Leave <==> exc.Some? && exc.value.status == Cancelled
    ensures BookVisitAdmission(exc, rule, t) == Leave <==> exc.Some? && exc.value.status == Cancelled
    ensures PublicAdmission(exc, rule, t) == Fault <==> BookVisitAdmission(exc, rule, t) == Fault
  {
  }

  /** Capacity: the weekly rule's own, 10 under the default window, 1 inside a public exception window. */
  lemma AdmissionCapacity(exc: Option<AvailabilityException>, rule: Option<WeeklyRule>, t: Time)
    ensures exc.None? && rule.Some? && PublicAdmission(exc, rule, t).Admitted?
        ==> PublicAdmission(exc, rule, t).maxCap == rule.value.maxPatientsPerSlot
    ensures exc.None? && rule.None? && PublicAdmission(exc, rule, t).Admitted?
        ==> PublicAdmission(exc, rule, t).maxCap == DefaultCapacity
    ensures exc.Some? && PublicAdmission(exc, rule, t).Admitted? ==> PublicAdmission(exc, rule, t).maxCap == 1
  {
  }

  /** The defect: an exception window that should admit a time makes `book_visit` fail. */
  lemma BookVisitExceptionWindowFails()
    ensures var exc := Some(AvailabilityException(1, Date(2024, 6, 10), Added, Some(9 * 3600), Some(17 * 3600)));
      BookVisitAdmissionAsWritten(exc, None, 10 * 3600) == Fault
      && BookVisitAdmission(exc, None, 10 * 3600) == Admitted(1)
  {
  }

  // ---------------------------------------------------------------------------
  // The public slot list

  /** The clock reading the slot list filters by: the local date and the microsecond of that day. */
  datatype LocalNow = LocalNow(today: Date, micros: nat)

  /** `query_date == today and t < current_time`: a slot already past. */
  predicate IsPast(t: Time, date: Date, now: LocalNow)
  {
    date == now.today && t * 1000000 < now.micros
  }

  predicate Offered(t: int, date: Date, occupied: set<Time>, now: LocalNow)
  {
    0 <= t < SecondsPerDay && !IsPast(t, date, now) && t !in occupied
  }

  /** The times the loop `while curr <= end` lists, walking from `curr` in 30-minute steps. */
  function SlotsFrom(curr: int, end: Time, date: Date, occupied: set<Time>, now: LocalNow): seq<Time>
    requires curr >= 0
    decreases end - curr + SlotStep
  {
    if curr > end then []
    else
      var here := if Offered(curr, date, occupied, now) then [curr as Time] else [];
      here + SlotsFrom(curr + SlotStep, end, date, occupied, now)
  }

  /** The times `get_public_doctor_slots` lists for the resolved hours. */
  function SlotTimes(h: Hours, date: Date, occupied: set<Time>, now: LocalNow): seq<Time>
  {
    match WindowOf(h)
    case None => []
    case Some(w) => SlotsFrom(w.0, w.1, date, occupied, now)
  }

  predicate OnGrid(t: int, start: Time, end: Time)
  {
    start <= t <= end && (t - start) % SlotStep == 0
  }

  lemma {:induction false} SlotsFromExactly(curr: int, start: Time, end: Time, date: Date, occupied: set<Time>, now: LocalNow)
    requires start <= curr && (curr - start) % SlotStep == 0
    decreases end - curr + SlotStep
    ensures forall t :: t in SlotsFrom(curr, end, date, occupied, now)
                        <==> (curr <= t && OnGrid(t, start, end) && Offered(t, date, occupied, now))
    ensures forall i, j :: 0 <= i < j < |SlotsFrom(curr, end, date, occupied, now)| ==>
      SlotsFrom(curr, end, date, occupied, now)[i] < SlotsFrom(curr, end, date, occupied, now)[j]
  {
    if curr <= end {
      SlotsFromExactly(curr + SlotStep, start, end, date, occupied, now);
      var rest := SlotsFrom(curr + SlotStep, end, date, occupied, now);
      forall t | curr <= t && OnGrid(t, start, end) && t != curr
        ensures curr + SlotStep <= t
      {
        assert (t - curr) % SlotStep == 0;
      }
      assert forall t :: t in rest ==> curr < t;
      if Offered(curr, date, occupied, now) {
        assert SlotsFrom(curr, end, date, occupied, now) == [curr as Time] + rest;
        SmallerConsStaysIncreasing(curr, rest);
      } else {
        assert SlotsFrom(curr, end, date, occupied, now) == rest;
      }
    }
  }

  /** A time below every time of a strictly increasing list keeps it strictly increasing when put in front. */
  lemma SmallerConsStaysIncreasing(t: Time, rest: seq<Time>)
    requires forall x :: x in rest ==> t < x
    requires forall i, j :: 0 <= i < j < |rest| ==> rest[i] < rest[j]
    ensures forall i, j :: 0 <= i < j < |[t] + rest| ==> ([t] + rest)[i] < ([t] + rest)[j]
  {
    var all := [t] + rest;
    forall i, j | 0 <= i < j < |all| ensures all[i] < all[j] {
      if i == 0 {
        assert all[j] == rest[j - 1] && all[j] in rest;
      } else {
        assert all[i] == rest[i - 1] && all[j] == rest[j - 1];
      }
    }
  }

  /**
   * The public slots are exactly the 30-minute steps from the window's start,
   * up to and including its end, that are neither occupied nor already past
   * today, listed in strictly increasing order; leave or a missing window gives none.
   */
  lemma SlotTimesExactly(h: Hours, date: Date, occupied: set<Time>, now: LocalNow)
    ensures forall t :: t in SlotTimes(h, date, occupied, now)
                        <==> (WindowOf(h).Some? && OnGrid(t, WindowOf(h).value.0, WindowOf(h).value.1)
                              && Offered(t, date, occupied, now))
    ensures forall i, j :: 0 <= i < j < |SlotTimes(h, date, occupied, now)| ==>
      SlotTimes(h, date, occupied, now)[i] < SlotTimes(h, date, occupied, now)[j]
    ensures h.OnLeave? ==> SlotTimes(h, date, occupied, now) == []
  {
    if WindowOf(h).Some? {
      var w := WindowOf(h).value;
      SlotsFromExactly(w.0, w.0, w.1, date, occupied, now);
    }
  }

  /**
   * A slot the public list offers, submitted back as "HH:MM" + ":00", is
   * admitted by the public booking check when the window starts on a whole minute.
   */
  lemma OfferedSlotIsBookable(exc: Option<AvailabilityException>, rule: Option<WeeklyRule>, date: Date,
                              occupied: set<Time>, now: LocalNow, t: Time)
    requires t in SlotTimes(HoursOf(exc, rule), date, occupied, now)
    requires WindowOf(HoursOf(exc, rule)).Some? && WindowOf(HoursOf(exc, rule)).value.0 % 60 == 0
    ensures t % 60 == 0
    ensures ParseHMS(FormatHHMM(t) + ":00") == Some(t)
    ensures PublicAdmission(exc, rule, t).Admitted?
  {
    SlotTimesExactly(HoursOf(exc, rule), date, occupied, now);
    AdmissionMatchesWindow(exc, rule, t);
    SlotStringRoundTrip(t);
  }
}
