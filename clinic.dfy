/**
 * The server's tables as one mutable store, and its routes as methods that
 * change them. Each method is tied to the decision functions of `Bookings`,
 * `Availability`, `Crowding`, `Otp` and `Messaging`; `Snapshot` states what
 * the whole store holds, so each route says what it changes and that nothing
 * else moves.
 */
module Clinic {

  import opened Wrappers
  import opened TimeDate
  import opened Availability
  import opened Crowding
  import opened Otp
  import opened Accounts
  import opened Messaging
  import opened Bookings

  /** The contents of every table. */
  datatype Db = Db(weekly: seq<WeeklyRule>, exceptions: seq<AvailabilityException>, visits: seq<Visit>,
                   otps: seq<OtpEntry>, loads: seq<SlotLoad>, messages: seq<Message>,
                   doctors: seq<Doctor>, users: map<nat, User>)

  /** A code as `generate_otp` draws it: six decimal digits. */
  predicate IsOtpCode(code: string)
  {
    |code| == 6 && forall i :: 0 <= i < 6 ==> IsDigit(code[i])
  }

  /** The `HH:MM` strings of a list of times. */
  function Formatted(ts: seq<Time>): (r: seq<string>)
    ensures |r| == |ts|
    ensures forall i :: 0 <= i < |ts| ==> r[i] == FormatHHMM(ts[i])
  {
    if ts == [] then [] else [FormatHHMM(ts[0])] + Formatted(ts[1..])
  }

  /** The public slot strings are distinct: formatting keeps the times apart. */
  lemma FormatHHMMInjective(a: Time, b: Time)
    requires a % 60 == 0 && b % 60 == 0
    requires FormatHHMM(a) == FormatHHMM(b)
    ensures a == b
  {
    SlotStringRoundTrip(a);
    SlotStringRoundTrip(b);
  }

  /** The `while curr <= end` loop of the slot list. */
  method WalkSlots(start: Time, end: Time, date: Date, occupied: set<Time>, now: LocalNow) returns (slots: seq<string>)
    ensures slots == Formatted(SlotsFrom(start, end, date, occupied, now))
  {
    var curr: int := start;
    slots := [];
    ghost var listed: seq<Time> := [];
    while curr <= end
      invariant start <= curr
      invariant listed + SlotsFrom(curr, end, date, occupied, now) == SlotsFrom(start, end, date, occupied, now)
      invariant slots == Formatted(listed)
      decreases end - curr + SlotStep
    {
      var t: Time := curr;
      WalkStep(listed, curr, start, end, date, occupied, now);
      if date == now.today && t * 1000000 < now.micros {
        curr := curr + SlotStep;
        continue;
      }
      if t !in occupied {
        FormattedSnoc(listed, t);
        listed := listed + [t];
        slots := slots + [FormatHHMM(t)];
      }
      curr := curr + SlotStep;
    }
  }

  /** One step of the walk: an offered time joins the listed prefix, any other is skipped. */
  lemma WalkStep(listed: seq<Time>, curr: Time, start: Time, end: Time, date: Date, occupied: set<Time>, now: LocalNow)
    requires curr <= end
    requires listed + SlotsFrom(curr, end, date, occupied, now) == SlotsFrom(start, end, date, occupied, now)
    ensures Offered(curr, date, occupied, now)
            ==> (listed + [curr]) + SlotsFrom(curr + SlotStep, end, date, occupied, now) == SlotsFrom(start, end, date, occupied, now)
    ensures !Offered(curr, date, occupied, now)
            ==> listed + SlotsFrom(curr + SlotStep, end, date, occupied, now) == SlotsFrom(start, end, date, occupied, now)
  {
    var rest := SlotsFrom(curr + SlotStep, end, date, occupied, now);
    if Offered(curr, date, occupied, now) {
      assert SlotsFrom(curr, end, date, occupied, now) == [curr] + rest;
      assert (listed + [curr]) + rest == listed + ([curr] + rest);
    } else {
      assert SlotsFrom(curr, end, date, occupied, now) == rest;
    }
  }

  lemma FormattedSnoc(ts: seq<Time>, t: Time)
    ensures Formatted(ts + [t]) == Formatted(ts) + [FormatHHMM(t)]
  {
    var a := Formatted(ts + [t]);
    var b := Formatted(ts) + [FormatHHMM(t)];
    assert |a| == |b|;
    forall i | 0 <= i < |a| ensures a[i] == b[i] {
      assert (ts + [t])[i] == if i < |ts| then ts[i] else t;
    }
  }

  class Store {
    var weekly: seq<WeeklyRule>
    var exceptions: seq<AvailabilityException>
    var visits: seq<Visit>
    var otps: seq<OtpEntry>
    var loads: seq<SlotLoad>
    var messages: seq<Message>
    var doctors: seq<Doctor>
    var users: map<nat, User>

    function Snapshot(): Db
      reads this
    {
      Db(weekly, exceptions, visits, otps, loads, messages, doctors, users)
    }

    /** What every route keeps: visit ids are distinct and messages lie in sending order. */
    predicate Valid()
      reads this
    {
      DistinctVisitIds(visits) && Chronological(messages)
    }

    constructor (db: Db)
      ensures Snapshot() == db
      ensures DistinctVisitIds(db.visits) && Chronological(db.messages) ==> Valid()
    {
      weekly := db.weekly;
      exceptions := db.exceptions;
      visits := db.visits;
      otps := db.otps;
      loads := db.loads;
      messages := db.messages;
      doctors := db.doctors;
      users := db.users;
    }

    /** `update_slot_load`. */
    method UpdateSlotLoad(date: Date, t: Time, maxCap: int)
      modifies this
      ensures Snapshot() == old(Snapshot()).(loads := Crowding.UpdateSlotLoad(old(loads), date, t, maxCap))
      ensures LoadCount(loads, date, t) == old(LoadCount(loads, date, t)) + 1
    {
      var i := FirstLoadIndex(loads, date, t);
      if i < |loads| {
        loads := loads[i := loads[i].(currentPatients := loads[i].currentPatients + 1)];
      } else {
        loads := loads + [SlotLoad(date, t, 1, maxCap)];
      }
    }

    /** `POST /doctor/me/exceptions`. */
    method SetException(user: User, date: Date, status: ExceptionStatus, start: Option<Time>, end: Option<Time>)
      returns (r: Result<()>)
      modifies this
      ensures r.Ok? <==> ExceptionOwner(user, doctors).Ok?
      ensures r.Err? ==> Snapshot() == old(Snapshot())
      ensures r.Ok? ==> Snapshot() == old(Snapshot()).(exceptions :=
        UpsertException(old(exceptions), ExceptionOwner(user, doctors).value, date, status, start, end))
    {
      match ExceptionOwner(user, doctors)
      case Err(s, d) =>
        return Err(s, d);
      case Ok(doctorId) =>
        exceptions := UpsertException(exceptions, doctorId, date, status, start, end);
        return Ok(());
    }

    /**
     * `POST /auth/otp/send`: the stripped address must be acceptable (400);
     * otherwise its code is stored and the route answers Ok. `_send_otp_email`
     * answers True on every path, its failures included, so the route's 502
     * branch is never taken.
     */
    method SendOtp(email: string, code: string, now: int) returns (r: Result<()>)
      requires IsOtpCode(code)
      modifies this
      ensures !AcceptableEmail(Strip(email)) ==> r == Err(400, "Invalid email address") && Snapshot() == old(Snapshot())
      ensures AcceptableEmail(Strip(email)) ==> r == Ok(())
      ensures AcceptableEmail(Strip(email)) ==> Snapshot() == old(Snapshot()).(otps := Issue(old(otps), Strip(email), code, now))
    {
      var target := Strip(email);
      if !AcceptableEmail(target) {
        return Err(400, "Invalid email address");
      }
      otps := otps + [OtpEntry(target, code, now + Lifetime)];
      return Ok(());
    }

    /** `POST /auth/otp/verify`: a usable code is consumed, else 400. */
    method VerifyOtp(email: string, code: string, now: int) returns (r: Result<()>)
      modifies this
      ensures r.Ok? <==> FirstUsable(old(otps), email, code, now) < |old(otps)|
      ensures r.Err? ==> r == Err(400, "Invalid or expired OTP") && Snapshot() == old(Snapshot())
      ensures r.Ok? ==> Snapshot() == old(Snapshot()).(otps := Delete(old(otps), FirstUsable(old(otps), email, code, now)))
    {
      var i := FirstUsable(otps, email, code, now);
      if i == |otps| {
        return Err(400, "Invalid or expired OTP");
      }
      otps := Delete(otps, i);
      r := Ok(());
    }

    /** `cleanup_expired_otps`. */
    method CleanupExpiredOtps(now: int)
      modifies this
      ensures Snapshot() == old(Snapshot()).(otps := Cleanup(old(otps), now))
    {
      otps := Cleanup(otps, now);
    }

    /**
     * `POST /visits`, with the capacity lookup of its exception branch
     * corrected: a crowded slot without `force` is answered with the
     * suggestions and nothing stored; otherwise the visit is appended under a
     * fresh id, owned by the user, and its slot's load goes up by one.
     */
    method BookVisit(user: User, doctorId: nat, date: Date, t: Time, force: bool) returns (r: Result<Booking>)
      requires Valid() && ValidDate(date)
      modifies this
      ensures Valid()
      ensures var d := BookDecision(user, old(exceptions), old(weekly), old(loads), doctorId, date, t, force);
        (d.Err? ==> r == Err(d.status, d.detail) && Snapshot() == old(Snapshot()))
        && (d == Ok(None) ==> r == Ok(Crowded(CheckCrowding(old(loads), date, t).suggestions)) && Snapshot() == old(Snapshot()))
        && (d.Ok? && d.value.Some? ==>
              var id := NextVisitId(old(visits));
              r == Ok(Confirmed(id))
              && Snapshot() == old(Snapshot()).(
                   visits := old(visits) + [Visit(id, date, t, doctorId, Some(user.id), None, None)],
                   loads := Crowding.UpdateSlotLoad(old(loads), date, t, d.value.value)))
    {
      var d := BookDecision(user, exceptions, weekly, loads, doctorId, date, t, force);
      if d.Err? {
        return Err(d.status, d.detail);
      }
      if d.value.None? {
        return Ok(Crowded(CheckCrowding(loads, date, t).suggestions));
      }
      var id := NextVisitId(visits);
      VisitIdsStayDistinct(visits, Visit(id, date, t, doctorId, Some(user.id), None, None), 0);
      visits := visits + [Visit(id, date, t, doctorId, Some(user.id), None, None)];
      UpdateSlotLoad(date, t, d.value.value);
      return Ok(Confirmed(id));
    }

    /**
     * `POST /visits/public`, with the code looked up by the stripped address:
     * on success the guest's visit is appended, the code consumed and the
     * slot's load raised; on any refusal nothing changes.
     */
    method BookGuestVisit(doctorId: nat, date: Date, t: Time, guestName: string, guestEmail: string, code: string, now: int)
      returns (r: Result<nat>)
      requires Valid() && ValidDate(date)
      modifies this
      ensures Valid()
      ensures var d := GuestBookDecision(old(otps), old(exceptions), old(weekly), doctorId, date, t, guestEmail, code, now);
        (d.Err? ==> r == Err(d.status, d.detail) && Snapshot() == old(Snapshot()))
        && (d.Ok? ==>
              var id := NextVisitId(old(visits));
              r == Ok(id)
              && Snapshot() == old(Snapshot()).(
                   visits := old(visits) + [Visit(id, date, t, doctorId, None, Some(guestName), Some(guestEmail))],
                   otps := Delete(old(otps), d.value.0),
                   loads := Crowding.UpdateSlotLoad(old(loads), date, t, d.value.1)))
    {
      var d := GuestBookDecision(otps, exceptions, weekly, doctorId, date, t, guestEmail, code, now);
      if d.Err? {
        return Err(d.status, d.detail);
      }
      var id := NextVisitId(visits);
      CommitGuestVisit(Visit(id, date, t, doctorId, None, Some(guestName), Some(guestEmail)), d.value.0, d.value.1);
      return Ok(id);
    }

    /** The success path of `POST /visits/public`: the visit row, the consumed code and the raised load, together. */
    method CommitGuestVisit(v: Visit, otpIndex: nat, maxCap: int)
      requires Valid() && v.visitId == NextVisitId(visits) && otpIndex < |otps|
      modifies this
      ensures Valid()
      ensures Snapshot() == old(Snapshot()).(visits := old(visits) + [v], otps := Delete(old(otps), otpIndex),
                                             loads := Crowding.UpdateSlotLoad(old(loads), v.date, v.time, maxCap))
    {
      VisitIdsStayDistinct(visits, v, 0);
      visits := visits + [v];
      otps := Delete(otps, otpIndex);
      UpdateSlotLoad(v.date, v.time, maxCap);
    }

    /** `DELETE /visits/{visit_id}`. */
    method CancelVisit(user: User, visitId: nat) returns (r: Result<()>)
      requires Valid()
      modifies this
      ensures Valid()
      ensures var d := CancelDecision(user, old(visits), visitId);
        (d.Err? ==> r == Err(d.status, d.detail) && Snapshot() == old(Snapshot()))
        && (d.Ok? ==> r.Ok? && Snapshot() == old(Snapshot()).(visits := Delete(old(visits), d.value)))
      ensures r.Ok? ==> FindVisit(visits, visitId) == |visits|
    {
      var d := CancelDecision(user, visits, visitId);
      if d.Err? {
        return Err(d.status, d.detail);
      }
      VisitIdsStayDistinct(visits, visits[d.value], d.value);
      visits := Delete(visits, d.value);
      return Ok(());
    }

    /** `POST /guest-visits/send-cancel-otp`: the code is stored for the address as sent. */
    method SendCancelOtp(visitId: nat, email: string, code: string, now: int) returns (r: Result<()>)
      requires IsOtpCode(code)
      modifies this
      ensures r == CancelOtpDecision(old(visits), visitId, email)
      ensures r.Err? ==> Snapshot() == old(Snapshot())
      ensures r.Ok? ==> Snapshot() == old(Snapshot()).(otps := Issue(old(otps), email, code, now))
    {
      r := CancelOtpDecision(visits, visitId, email);
      if r.Ok? {
        otps := Issue(otps, email, code, now);
      }
    }

    /** `POST /guest-visits/cancel`: both the visit and the code go, or nothing does. */
    method CancelGuestVisit(visitId: nat, email: string, code: string, now: int) returns (r: Result<()>)
      requires Valid()
      modifies this
      ensures Valid()
      ensures var d := GuestCancelDecision(old(otps), old(visits), visitId, email, code, now);
        (d.Err? ==> r == Err(d.status, d.detail) && Snapshot() == old(Snapshot()))
        && (d.Ok? ==> r.Ok? && Snapshot() == old(Snapshot()).(visits := Delete(old(visits), d.value.0),
                                                              otps := Delete(old(otps), d.value.1)))
    {
      var d := GuestCancelDecision(otps, visits, visitId, email, code, now);
      if d.Err? {
        return Err(d.status, d.detail);
      }
      VisitIdsStayDistinct(visits, visits[d.value.0], d.value.0);
      visits := Delete(visits, d.value.0);
      otps := Delete(otps, d.value.1);
      return Ok(());
    }

    /**
     * `GET /doctors/{doctor_id}/public-slots`: the walk from the resolved
     * window's start in 30-minute steps, listing each time not occupied by the
     * doctor's visits that day and not already past, as `HH:MM`.
     */
    method GetPublicDoctorSlots(doctorId: nat, date: Date, now: LocalNow) returns (slots: seq<string>)
      requires ValidDate(date)
      ensures slots == Formatted(SlotTimes(ResolveHours(exceptions, weekly, doctorId, date), date,
                                           OccupiedTimes(visits, doctorId, date), now))
    {
      var hours := ResolveHours(exceptions, weekly, doctorId, date);
      var occupied := OccupiedTimes(visits, doctorId, date);
      var window := WindowOf(hours);
      if window.None? {
        return [];
      }
      slots := WalkSlots(window.value.0, window.value.1, date, occupied, now);
    }

    /** `GET /messages/history/{user_id}`: mark the counterpart's messages read, then list the exchange. */
    method GetMessageHistory(me: User, other: nat) returns (r: Result<seq<MessageOut>>)
      requires Valid()
      modifies this
      ensures Valid()
      ensures !me.isActive ==> r == Err(400, "Inactive user") && Snapshot() == old(Snapshot())
      ensures me.isActive ==> Snapshot() == old(Snapshot()).(messages := MarkRead(old(messages), me.id, other))
      ensures me.isActive ==> r == Ok(History(messages, me.id, other))
      ensures me.isActive ==> UnreadCount(messages, other, me.id) == 0
    {
      if !me.isActive {
        return Err(400, "Inactive user");
      }
      MarkReadChronological(messages, me.id, other);
      MarkReadCounts(messages, me.id, other, other, me.id);
      messages := MarkRead(messages, me.id, other);
      return Ok(History(messages, me.id, other));
    }

    /**
     * `GET /messages/conversations`: the messages involving me, newest first,
     * one entry per counterpart at its most recent message.
     */
    method GetConversations(me: User) returns (r: Result<seq<Conversation>>)
      ensures !me.isActive ==> r == Err(400, "Inactive user")
      ensures me.isActive ==> r == Ok(ConversationsUpTo(messages, |messages|, me.id, users, doctors, messages, {}))
    {
      if !me.isActive {
        return Err(400, "Inactive user");
      }
      var convs: seq<Conversation> := [];
      var seen: set<nat> := {};
      var i := |messages|;
      while i > 0
        invariant 0 <= i <= |messages|
        invariant convs + ConversationsUpTo(messages, i, me.id, users, doctors, messages, seen)
               == ConversationsUpTo(messages, |messages|, me.id, users, doctors, messages, {})
      {
        var m := messages[i - 1];
        i := i - 1;
        if m.senderId == me.id || m.recipientId == me.id {
          var otherId := if m.senderId == me.id then m.recipientId else m.senderId;
          if otherId !in seen {
            seen := seen + {otherId};
            if otherId in users {
              var unread := UnreadCount(messages, otherId, me.id);
              var name := DisplayName(users[otherId], doctors);
              convs := convs + [Conversation(otherId, name, m.content, m.timestamp, unread)];
            }
          }
        }
      }
      assert ConversationsUpTo(messages, 0, me.id, users, doctors, messages, seen) == [];
      assert convs + [] == convs;
      return Ok(convs);
    }

    /** `GET /messages/unread`: my unread messages from anyone. */
    method GetUnreadCount(me: User) returns (r: Result<nat>)
      ensures !me.isActive ==> r == Err(400, "Inactive user")
      ensures me.isActive ==> r == Ok(UnreadTo(messages, me.id))
    {
      if !me.isActive {
        return Err(400, "Inactive user");
      }
      return Ok(UnreadTo(messages, me.id));
    }

    /** `POST /messages/send`: the recipient must exist (404); the message is stored unread. */
    method SendMessage(me: User, recipientId: nat, content: string, now: int) returns (r: Result<Message>)
      requires Valid()
      requires forall k :: 0 <= k < |messages| ==> messages[k].timestamp <= now
      modifies this
      ensures Valid()
      ensures !me.isActive ==> r == Err(400, "Inactive user") && Snapshot() == old(Snapshot())
      ensures me.isActive && recipientId !in users ==> r == Err(404, "Recipient not found") && Snapshot() == old(Snapshot())
      ensures me.isActive && recipientId in users ==>
        (r.Ok? && r.value == Message(NextMessageId(old(messages)), me.id, recipientId, content, now, false)
         && Snapshot() == old(Snapshot()).(messages := old(messages) + [r.value]))
    {
      if !me.isActive {
        return Err(400, "Inactive user");
      }
      if recipientId !in users {
        return Err(404, "Recipient not found");
      }
      var m := Message(NextMessageId(messages), me.id, recipientId, content, now, false);
      messages := messages + [m];
      return Ok(m);
    }
  }
}
