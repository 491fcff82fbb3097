/**
 * The client's guest booking and guest cancellation wizards: the guards that
 * run before any request, the drafts they fill, the slot picker, and the
 * resend countdown.
 */
module GuestWizard {

  import opened Wrappers
  import opened TimeDate
  import opened Clinic

  // ---------------------------------------------------------------------------
  // The slot picker

  datatype SlotOption = SlotOption(value: string, text: string)

  datatype SelectView = SelectView(options: seq<SlotOption>, disabled: bool)

  /** The answer to `/doctors/{id}/public-slots`, if the picker asked. */
  datatype SlotsResponse = SlotsOk(slots: seq<string>) | SlotsFailed | SlotsUnreachable

  /** What `updateGuestTimeSlots` does: whether it fetches, and the picker it leaves. */
  datatype SlotsUpdate = SlotsUpdate(fetched: bool, view: SelectView)

  /** `<option>text</option>`: without a `value` attribute an option's value is its text. */
  function TextOption(text: string): (o: SlotOption)
    ensures o.value == o.text == text
  {
    SlotOption(text, text)
  }

  /**
   * `updateGuestTimeSlots`: without both a doctor and a date the picker is
   * disabled with a prompt and nothing is fetched; an empty answer disables
   * it with the one option whose value is ""; otherwise each slot `t` is
   * offered with the value `t + ":00"`. A failed fetch shows an error line,
   * whose value is its text, and leaves `disabled` as it was.
   */
  function UpdateGuestTimeSlots(docId: string, date: string, response: SlotsResponse, wasDisabled: bool): (u: SlotsUpdate)
    ensures !u.fetched <==> docId == "" || date == ""
    ensures !u.fetched ==> u.view == SelectView([SlotOption("Select Doctor & Date First", "Select Doctor & Date First")], true)
    ensures u.fetched && response.SlotsOk? && response.slots == [] ==> u.view == SelectView([SlotOption("", "No slots available")], true)
    ensures u.fetched && response.SlotsOk? && response.slots != [] ==>
      (!u.view.disabled && |u.view.options| == |response.slots|
       && forall k :: 0 <= k < |response.slots| ==> u.view.options[k] == SlotOption(response.slots[k] + ":00", response.slots[k]))
    ensures u.fetched && response.SlotsFailed? ==> u.view == SelectView([SlotOption("Error loading slots", "Error loading slots")], wasDisabled)
    ensures u.fetched && response.SlotsUnreachable? ==> u.view == SelectView([SlotOption("System Error", "System Error")], wasDisabled)
  {
    if docId == "" || date == "" then SlotsUpdate(false, SelectView([TextOption("Select Doctor & Date First")], true))
    else
      match response
      case SlotsOk(slots) =>
        if slots == [] then SlotsUpdate(true, SelectView([SlotOption("", "No slots available")], true))
        else SlotsUpdate(true, SelectView(seq(|slots|, k requires 0 <= k < |slots| => SlotOption(slots[k] + ":00", slots[k])), false))
      case SlotsFailed => SlotsUpdate(true, SelectView([TextOption("Error loading slots")], wasDisabled))
      case SlotsUnreachable => SlotsUpdate(true, SelectView([TextOption("System Error")], wasDisabled))
  }

  /**
   * Only the offered slots carry a time: the prompt, the empty answer and the
   * error lines leave the picker on a value that is no time of day, and while
   * the picker is still enabled after a failure that value is what the draft
   * takes as its slot.
   */
  lemma PlaceholderValuesAreNoTime(docId: string, date: string, response: SlotsResponse, wasDisabled: bool)
    requires !(docId != "" && date != "" && response.SlotsOk? && response.slots != [])
    ensures var u := UpdateGuestTimeSlots(docId, date, response, wasDisabled);
      |u.view.options| == 1 && ParseHMS(u.view.options[0].value) == None
  {
  }

  /**
   * Every option the picker offers for the server's list carries a value the
   * booking route parses back to the very slot that was listed.
   */
  lemma OfferedOptionsParse(docId: string, date: string, ts: seq<Time>, wasDisabled: bool, k: nat)
    requires docId != "" && date != ""
    requires forall i :: 0 <= i < |ts| ==> ts[i] % 60 == 0
    requires k < |ts|
    ensures var u := UpdateGuestTimeSlots(docId, date, SlotsOk(Formatted(ts)), wasDisabled);
      k < |u.view.options| && ParseHMS(u.view.options[k].value) == Some(ts[k])
  {
    SlotStringRoundTrip(ts[k]);
  }

  // ---------------------------------------------------------------------------
  // The wizards

  /** `guestBookingData`. */
  datatype GuestDraft = GuestDraft(doctorId: string, visitDate: string, timeSlot: string, visitType: string,
                                   gender: string, guestName: string, guestEmail: string, otpCode: string)

  /** `cancelData`. */
  datatype CancelData = CancelData(email: string, visitId: string)

  /** The requests the wizards send. */
  datatype Request =
    | SendOtpRequest(email: string)
    | BookPublicRequest(draft: GuestDraft)
    | SendCancelOtpRequest(visitId: string, email: string)
    | CancelRequest(data: Option<CancelData>, otp: string)

  /** The outcome of a click: a warning toast before any request, or the request went out. */
  datatype Outcome = Warned(message: string) | Sent

  /** What the guards guarantee of every request the wizards send: none goes out with an empty field it checks. */
  predicate RequestsWellFormed(rs: seq<Request>)
  {
    forall k :: 0 <= k < |rs| ==>
      (rs[k].SendOtpRequest? ==> rs[k].email != "")
      && (rs[k].BookPublicRequest? ==> rs[k].draft.otpCode != "")
      && (rs[k].SendCancelOtpRequest? ==> rs[k].visitId != "" && rs[k].email != "")
      && (rs[k].CancelRequest? ==> rs[k].otp != "")
  }

  class Wizard {
    var draft: GuestDraft
    var step: nat
    var otpAreaShown: bool
    var cancelData: Option<CancelData>
    var cancelStep: nat
    var requests: seq<Request>

    constructor ()
      ensures draft == GuestDraft("", "", "", "", "", "", "", "") && step == 1 && !otpAreaShown
      ensures cancelData.None? && cancelStep == 1 && requests == []
    {
      draft := GuestDraft("", "", "", "", "", "", "", "");
      step := 1;
      otpAreaShown := false;
      cancelData := None;
      cancelStep := 1;
      requests := [];
    }

    /**
     * `goToGuestStep2`: the draft takes the form's fields first; step 2 opens
     * only with a doctor and a date, whatever the time slot.
     */
    method GoToGuestStep2(doctorId: string, visitDate: string, timeSlot: string, visitType: string, gender: string)
      returns (o: Outcome)
      modifies this
      ensures draft == old(draft).(doctorId := doctorId, visitDate := visitDate, timeSlot := timeSlot,
                                   visitType := visitType, gender := gender)
      ensures doctorId == "" || visitDate == "" ==> o == Warned("Please fill required fields") && step == old(step)
      ensures doctorId != "" && visitDate != "" ==> o == Sent && step == 2
      ensures requests == old(requests) && otpAreaShown == old(otpAreaShown)
      ensures cancelData == old(cancelData) && cancelStep == old(cancelStep)
    {
      draft := draft.(doctorId := doctorId, visitDate := visitDate, timeSlot := timeSlot, visitType := visitType, gender := gender);
      if draft.doctorId == "" || draft.visitDate == "" {
        return Warned("Please fill required fields");
      }
      step := 2;
      return Sent;
    }

    /**
     * `sendGuestOTP`: an empty email is refused first, then an empty name;
     * otherwise the draft takes both and the code is requested. A successful
     * answer shows the code field (and starts the resend countdown).
     */
    method SendGuestOtp(email: string, name: string, ok: bool) returns (o: Outcome)
      modifies this
      ensures RequestsWellFormed(old(requests)) ==> RequestsWellFormed(requests)
      ensures email == "" ==> o == Warned("Enter Email Address")
      ensures email != "" && name == "" ==> o == Warned("Enter Name")
      ensures o.Warned? ==> draft == old(draft) && requests == old(requests) && otpAreaShown == old(otpAreaShown)
      ensures email != "" && name != "" ==>
        (o == Sent && draft == old(draft).(guestName := name, guestEmail := email)
         && requests == old(requests) + [SendOtpRequest(email)] && otpAreaShown == (old(otpAreaShown) || ok))
      ensures step == old(step) && cancelData == old(cancelData) && cancelStep == old(cancelStep)
    {
      if email == "" {
        return Warned("Enter Email Address");
      }
      if name == "" {
        return Warned("Enter Name");
      }
      draft := draft.(guestName := name, guestEmail := email);
      requests := requests + [SendOtpRequest(email)];
      if ok {
        otpAreaShown := true;
      }
      return Sent;
    }

    /** `confirmGuestBooking`: nothing is posted without a code; otherwise the whole draft is. */
    method ConfirmGuestBooking(otp: string) returns (o: Outcome)
      modifies this
      ensures RequestsWellFormed(old(requests)) ==> RequestsWellFormed(requests)
      ensures otp == "" ==> o == Warned("Please enter the OTP code") && draft == old(draft) && requests == old(requests)
      ensures otp != "" ==>
        (o == Sent && draft == old(draft).(otpCode := otp) && requests == old(requests) + [BookPublicRequest(draft)])
      ensures step == old(step) && otpAreaShown == old(otpAreaShown)
      ensures cancelData == old(cancelData) && cancelStep == old(cancelStep)
    {
      if otp == "" {
        return Warned("Please enter the OTP code");
      }
      draft := draft.(otpCode := otp);
      requests := requests + [BookPublicRequest(draft)];
      return Sent;
    }

    /**
     * `sendCancelOTP`: both the booking id and the email are needed; they are
     * kept for the confirmation, and a successful answer opens its step.
     */
    method SendCancelOtp(email: string, bookingId: string, ok: bool) returns (o: Outcome)
      modifies this
      ensures RequestsWellFormed(old(requests)) ==> RequestsWellFormed(requests)
      ensures email == "" || bookingId == "" ==>
        (o == Warned("Please enter Booking ID and Email") && cancelData == old(cancelData)
         && requests == old(requests) && cancelStep == old(cancelStep))
      ensures email != "" && bookingId != "" ==>
        (o == Sent && cancelData == Some(CancelData(email, bookingId))
         && requests == old(requests) + [SendCancelOtpRequest(bookingId, email)]
         && cancelStep == (if ok then 2 else old(cancelStep)))
      ensures draft == old(draft) && step == old(step) && otpAreaShown == old(otpAreaShown)
    {
      if email == "" || bookingId == "" {
        return Warned("Please enter Booking ID and Email");
      }
      cancelData := Some(CancelData(email, bookingId));
      requests := requests + [SendCancelOtpRequest(bookingId, email)];
      if ok {
        cancelStep := 2;
      }
      return Sent;
    }

    /** `confirmCancel`: nothing is posted without a code; the request uses the kept booking. */
    method ConfirmCancel(otp: string) returns (o: Outcome)
      modifies this
      ensures RequestsWellFormed(old(requests)) ==> RequestsWellFormed(requests)
      ensures otp == "" ==> o == Warned("Enter OTP") && requests == old(requests)
      ensures otp != "" ==> o == Sent && requests == old(requests) + [CancelRequest(cancelData, otp)]
      ensures draft == old(draft) && step == old(step) && otpAreaShown == old(otpAreaShown)
      ensures cancelData == old(cancelData) && cancelStep == old(cancelStep)
    {
      if otp == "" {
        return Warned("Enter OTP");
      }
      requests := requests + [CancelRequest(cancelData, otp)];
      return Sent;
    }
  }

  // ---------------------------------------------------------------------------
  // The resend countdown

  datatype TimerView = TimerView(left: int, disabled: bool, caption: string, running: bool)

  function CountdownCaption(left: nat): string
  {
    "Resend OTP (" + NatToString(left) + "s)"
  }

  /** The button when `startResendTimer` has just run. */
  const StartView: TimerView := TimerView(15, true, CountdownCaption(15), true)

  /** One second of the interval. */
  function TickView(v: TimerView): TimerView
  {
    var left := v.left - 1;
    if left <= 0 then TimerView(left, false, "Resend OTP", false)
    else TimerView(left, v.disabled, CountdownCaption(left), v.running)
  }

  /** The button after `k` ticks; the interval stops ticking once cleared. */
  function AfterTicks(k: nat): TimerView
  {
    if k == 0 then StartView
    else
      var prev := AfterTicks(k - 1);
      if prev.running then TickView(prev) else prev
  }

  /**
   * For the first 14 ticks the button stays disabled, counting down
   * "Resend OTP (15-k s)"; the 15th enables it as "Resend OTP" and clears the
   * interval, after which nothing changes.
   */
  lemma {:induction false} Countdown(k: nat)
    ensures k < 15 ==> AfterTicks(k) == TimerView(15 - k, true, CountdownCaption(15 - k), true)
    ensures k >= 15 ==> AfterTicks(k) == TimerView(0, false, "Resend OTP", false)
  {
    if k > 0 {
      Countdown(k - 1);
    }
  }

  class ResendTimer {
    var left: int
    var disabled: bool
    var caption: string
    var running: bool

    function View(): TimerView
      reads this
    {
      TimerView(left, disabled, caption, running)
    }

    /** `startResendTimer`. */
    constructor ()
      ensures View() == StartView
    {
      left := 15;
      disabled := true;
      caption := CountdownCaption(15);
      running := true;
    }

    /** The interval callback. */
    method Tick()
      requires running
      modifies this
      ensures View() == TickView(old(View()))
    {
      left := left - 1;
      if left <= 0 {
        running := false;
        disabled := false;
        caption := "Resend OTP";
      } else {
        caption := CountdownCaption(left);
      }
    }
  }
}
