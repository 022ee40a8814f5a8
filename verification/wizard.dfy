/** The booking dialog as a state machine. The store's fields, the details
    step's local `submitting` flag and the scheduled completion callbacks form
    one immutable `Draft`; every button, the calendar, the completion callback
    and the dialog's close control is an `Event`; each event's handler applies
    the guard the corresponding control has in the dialog, and the details
    step's "Back" also submits the form it sits in. */
module Wizard {
  import opened Types
  import Data
  import ContactForm

  /** The four steps of the dialog. */
  datatype Step = DateStep | TimeStep | DetailsStep | ConfirmedStep

  /** Everything the dialog's behaviour depends on. `submitting` is the details
      step's own flag; `pendingTimers` counts completion callbacks that a
      submission has scheduled and that have not fired yet. */
  datatype Draft = Draft(
    isOpen: bool,
    step: Step,
    service: Option<Service>,
    date: Option<Day>,
    time: Option<string>,
    submitting: bool,
    pendingTimers: nat)

  /** The store after `reset`, with no callback pending: closed, on the date
      step, nothing selected. */
  const Cleared := Draft(false, DateStep, None, None, None, false, 0)

  /** The user-visible inputs of the dialog, one per control. */
  datatype Event =
    | CalendarSelect(pick: Option<Day>, today: int) // a day clicked (None: the selected day clicked again)
    | SelectTimeButton                              // "Select Time" on the date step
    | SlotButton(time: string)                      // a slot button on the time step
    | TimeBackButton                                // "Back" on the time step
    | EnterDetailsButton                            // "Enter Details" on the time step
    | DetailsBackButton(form: ContactForm.FormValues) // "Back" on the details step (or Enter in a field)
    | ConfirmButton(form: ContactForm.FormValues)   // "Confirm Booking" on the details step
    | TimerFired                                    // a scheduled completion callback runs
    | BookAnotherButton                             // "Book Another Appointment" on the confirmed step
    | DialogClosed                                  // the dialog asks to close

  /** The calendar enables a day unless it lies before today or is a Sunday. */
  predicate Selectable(date: Day, today: int) {
    date.index >= today && date.weekday != 0
  }

  /** The slot buttons the time step shows: the availability list for the
      selected date, and nothing when the step is not shown or has no date. */
  function OfferedSlots(d: Draft): seq<string> {
    if d.step == TimeStep && d.date.Some? then Data.AvailableTimes(d.date.value) else []
  }

  /** The calendar's selection handler, live only on the date step. A day
      the calendar disables never reaches it. */
  function SelectDate(d: Draft, pick: Option<Day>, today: int): (r: Draft)
    ensures r == d.(date := r.date)
    ensures r.date != d.date ==> d.step == DateStep && r.date == pick
    ensures r.date.Some? && r.date != d.date ==> Selectable(r.date.value, today)
    ensures d.step == DateStep && (pick.None? || Selectable(pick.value, today)) ==> r.date == pick
  {
    if d.step != DateStep then d
    else match pick
      case None => d.(date := None)
      case Some(day) => if Selectable(day, today) then d.(date := pick) else d
  }

  /** "Select Time": enabled only once a date is selected. */
  function ContinueToTime(d: Draft): (r: Draft)
    ensures r == d.(step := r.step)
    ensures r.step != d.step <==> d.step == DateStep && d.date.Some?
    ensures r.step != d.step ==> r.step == TimeStep
  {
    if d.step == DateStep && d.date.Some? then d.(step := TimeStep) else d
  }

  /** A slot button: only the slots offered for the selected date exist as buttons. */
  function SelectTime(d: Draft, t: string): (r: Draft)
    ensures r == d.(time := r.time)
    ensures t in OfferedSlots(d) ==> r.time == Some(t)
    ensures r.time != d.time ==>
      d.step == TimeStep && d.date.Some? && t in Data.AvailableTimes(d.date.value) && r.time == Some(t)
  {
    if t in OfferedSlots(d) then d.(time := Some(t)) else d
  }

  /** "Back" on the time step: always enabled, but the step shows no controls
      at all without a date. */
  function ReturnToDate(d: Draft): (r: Draft)
    ensures r == d.(step := r.step)
    ensures r.step != d.step <==> d.step == TimeStep && d.date.Some?
    ensures r.step != d.step ==> r.step == DateStep
  {
    if d.step == TimeStep && d.date.Some? then d.(step := DateStep) else d
  }

  /** "Enter Details": enabled only once a time is selected. */
  function ContinueToDetails(d: Draft): (r: Draft)
    ensures r == d.(step := r.step)
    ensures r.step != d.step <==> d.step == TimeStep && d.date.Some? && d.time.Some?
    ensures r.step != d.step ==> r.step == DetailsStep
  {
    if d.step == TimeStep && d.date.Some? && d.time.Some? then d.(step := DetailsStep) else d
  }

  /** "Back" on the details step: disabled while a submission is in flight.
      The button sits inside the form and declares no `type`, so it is the
      form's first submit button: a click (and Enter in any field, which clicks
      it) also submits the form. Values that validate schedule the completion
      callback exactly as "Confirm Booking" does, from a details step that is
      being left, so the step's own flag is not seen raised. */
  function ReturnToTime(d: Draft, form: ContactForm.FormValues, validEmail: string -> bool): (r: Draft)
    ensures r == d.(step := r.step, pendingTimers := r.pendingTimers)
    ensures r.step != d.step <==> d.step == DetailsStep && !d.submitting
    ensures r.step != d.step ==> r.step == TimeStep
    ensures r.pendingTimers != d.pendingTimers <==>
      r.step != d.step && ContactForm.Validate(form, validEmail).Ok?
    ensures d.pendingTimers <= r.pendingTimers <= d.pendingTimers + 1
  {
    if d.step == DetailsStep && !d.submitting then
      d.(step := TimeStep,
         pendingTimers := d.pendingTimers + if ContactForm.Validate(form, validEmail).Ok? then 1 else 0)
    else
      d
  }

  /** "Confirm Booking": disabled while submitting; when the form validates it
      raises the flag and schedules the completion callback, and otherwise the
      form shows its field errors and nothing else happens. */
  function BeginSubmit(d: Draft, form: ContactForm.FormValues, validEmail: string -> bool): (r: Draft)
    ensures r == d.(submitting := r.submitting, pendingTimers := r.pendingTimers)
    ensures r != d <==> d.step == DetailsStep && !d.submitting && ContactForm.Validate(form, validEmail).Ok?
    ensures r != d ==> r.submitting && r.pendingTimers == d.pendingTimers + 1
  {
    if d.step == DetailsStep && !d.submitting && ContactForm.Validate(form, validEmail).Ok? then
      d.(submitting := true, pendingTimers := d.pendingTimers + 1)
    else
      d
  }

  /** A completion callback: it lowers the flag and moves the store to the
      confirmed step, whatever the dialog shows meanwhile. */
  function CompleteSubmit(d: Draft): (r: Draft)
    ensures r.isOpen == d.isOpen && r.service == d.service && r.date == d.date && r.time == d.time
    ensures d.pendingTimers > 0 ==>
      r.step == ConfirmedStep && !r.submitting && r.pendingTimers + 1 == d.pendingTimers
    ensures d.pendingTimers == 0 ==> r == d
  {
    if d.pendingTimers > 0 then
      d.(step := ConfirmedStep, submitting := false, pendingTimers := d.pendingTimers - 1)
    else
      d
  }

  /** The store's `reset`, as the dialog sees it: every store field back to its
      initial value and the details form unmounted. A callback already
      scheduled is not cancelled. */
  function Reset(d: Draft): (r: Draft)
    ensures r.step == DateStep && !r.isOpen && !r.submitting
    ensures r.service.None? && r.date.None? && r.time.None?
    ensures r.pendingTimers == d.pendingTimers
  {
    Cleared.(pendingTimers := d.pendingTimers)
  }

  /** The dialog as written: each control runs its handler. Closing resets
      the store from any step (`CloseResetsFromAnyStep`); "Book Another
      Appointment" exists only on the confirmed step, where it resets too
      (`BookAnotherOnlyOnConfirmed`). */
  function Apply(d: Draft, e: Event, validEmail: string -> bool): Draft {
    match e
    case CalendarSelect(pick, today) => SelectDate(d, pick, today)
    case SelectTimeButton => ContinueToTime(d)
    case SlotButton(t) => SelectTime(d, t)
    case TimeBackButton => ReturnToDate(d)
    case EnterDetailsButton => ContinueToDetails(d)
    case DetailsBackButton(form) => ReturnToTime(d, form, validEmail)
    case ConfirmButton(form) => BeginSubmit(d, form, validEmail)
    case TimerFired => CompleteSubmit(d)
    case BookAnotherButton => if d.step == ConfirmedStep then Reset(d) else d
    case DialogClosed => Reset(d)
  }

  /** The state after a sequence of events. */
  function Run(d: Draft, events: seq<Event>, validEmail: string -> bool): Draft
    decreases |events|
  {
    if events == [] then d else Run(Apply(d, events[0], validEmail), events[1..], validEmail)
  }

  /** The reachability invariant: the time and details steps always have a
      date, the details step always has a time, a selected date is never a
      Sunday, and the submitting flag only stands on the details step. */
  predicate Inv(d: Draft) {
    && (d.step == TimeStep || d.step == DetailsStep ==> d.date.Some?)
    && (d.step == DetailsStep ==> d.time.Some?)
    && (d.date.Some? ==> d.date.value.weekday != 0)
    && (d.submitting ==> d.step == DetailsStep)
  }

  lemma ApplyPreservesInv(d: Draft, e: Event, validEmail: string -> bool)
    requires Inv(d)
    ensures Inv(Apply(d, e, validEmail))
  {
  }

  lemma {:induction false} RunPreservesInv(d: Draft, events: seq<Event>, validEmail: string -> bool)
    requires Inv(d)
    ensures Inv(Run(d, events, validEmail))
    decreases |events|
  {
    if events != [] {
      ApplyPreservesInv(d, events[0], validEmail);
      RunPreservesInv(Apply(d, events[0], validEmail), events[1..], validEmail);
    }
  }

  /** Whatever the user does after a reset, the time step has a date and the
      details step has both a date and a time. */
  lemma ReachableStatesKeepInv(events: seq<Event>, validEmail: string -> bool)
    ensures Inv(Run(Cleared, events, validEmail))
  {
    RunPreservesInv(Cleared, events, validEmail);
  }

  /** `e` submits the details form with values that pass validation. */
  predicate SubmitsValidForm(e: Event, validEmail: string -> bool) {
    (e.ConfirmButton? || e.DetailsBackButton?) && ContactForm.Validate(e.form, validEmail).Ok?
  }

  /** A callback is pending, or the confirmed step is showing. */
  predicate Committed(d: Draft) {
    d.pendingTimers > 0 || d.step == ConfirmedStep
  }

  /** One event commits a draft only by submitting a valid form from the
      details step while no submission is in flight. */
  lemma CommitNeedsValidSubmit(d: Draft, e: Event, validEmail: string -> bool)
    requires Committed(Apply(d, e, validEmail)) && !Committed(d)
    ensures SubmitsValidForm(e, validEmail)
    ensures d.step == DetailsStep && !d.submitting
  {
  }

  /** `events[i]` is the event that commits the run: before it the draft is
      uncommitted, it is a valid submission from the idle details step, and
      after it the draft is committed. */
  predicate CommitPoint(d: Draft, events: seq<Event>, i: int, validEmail: string -> bool) {
    && 0 <= i < |events|
    && var before := Run(d, events[..i], validEmail);
    && !Committed(before)
    && before.step == DetailsStep && !before.submitting
    && SubmitsValidForm(events[i], validEmail)
    && Committed(Run(d, events[..i + 1], validEmail))
  }

  lemma {:induction false} CommittedRunHasCommitPoint(d: Draft, events: seq<Event>, validEmail: string -> bool)
    requires Committed(Run(d, events, validEmail)) && !Committed(d)
    ensures exists i :: CommitPoint(d, events, i, validEmail)
    decreases |events|
  {
    assert events != [];
    var d1 := Apply(d, events[0], validEmail);
    assert events[..0] == [];
    assert Run(d, events[..1], validEmail) == Run(d1, events[..1][1..], validEmail);
    assert events[..1][1..] == [];
    if Committed(d1) {
      CommitNeedsValidSubmit(d, events[0], validEmail);
      assert CommitPoint(d, events, 0, validEmail);
    } else {
      CommittedRunHasCommitPoint(d1, events[1..], validEmail);
      var j :| CommitPoint(d1, events[1..], j, validEmail);
      assert events[..j + 1][1..] == events[1..][..j];
      assert events[..j + 2][1..] == events[1..][..j + 1];
      assert Run(d, events[..j + 1], validEmail) == Run(d1, events[1..][..j], validEmail);
      assert Run(d, events[..j + 2], validEmail) == Run(d1, events[1..][..j + 1], validEmail);
      assert events[j + 1] == events[1..][j];
      assert CommitPoint(d, events, j + 1, validEmail);
    }
  }

  /** From the reset state, every run that ends on the confirmed step has an
      event that commits it: a valid submission made on the details step,
      with no submission in flight, after which a callback is pending. */
  lemma ConfirmedOnlyAfterValidSubmit(events: seq<Event>, validEmail: string -> bool)
    ensures Run(Cleared, events, validEmail).step == ConfirmedStep ==>
      exists i :: CommitPoint(Cleared, events, i, validEmail)
  {
    if Run(Cleared, events, validEmail).step == ConfirmedStep {
      CommittedRunHasCommitPoint(Cleared, events, validEmail);
    }
  }

  /** Every day the calendar lets the user pick has at least the eight
      Saturday slots. */
  lemma SelectableDateHasSlots(date: Day, today: int)
    requires Selectable(date, today)
    ensures |Data.AvailableTimes(date)| >= Data.SaturdaySlots
    ensures Data.AvailableTimes(date)[..Data.SaturdaySlots] == Data.Slots[..Data.SaturdaySlots]
  {
  }

  /** In every reachable state the time step shows at least eight slot buttons. */
  lemma TimeStepOffersSlots(d: Draft)
    requires Inv(d) && d.step == TimeStep
    ensures OfferedSlots(d) == Data.AvailableTimes(d.date.value)
    ensures |OfferedSlots(d)| >= Data.SaturdaySlots
  {
  }

  /** Without a date the time step renders nothing: no slot, no "Back" and no
      "Enter Details" control has any effect. */
  lemma TimeStepWithoutDateIsInert(d: Draft, t: string)
    requires d.step == TimeStep && d.date.None?
    ensures OfferedSlots(d) == []
    ensures SelectTime(d, t) == d && ReturnToDate(d) == d && ContinueToDetails(d) == d
  {
  }

  /** While a submission is in flight both buttons of the details step are
      disabled and no other step's control is on screen: only the callback or
      closing the dialog changes anything. */
  lemma SubmittingFreezesDetails(d: Draft, e: Event, validEmail: string -> bool)
    requires Inv(d) && d.submitting
    requires !e.TimerFired? && !e.DialogClosed?
    ensures Apply(d, e, validEmail) == d
  {
  }

  /** A validated submission followed by its callback changes the step to
      confirmed and nothing else. */
  lemma SubmitChangesOnlyStep(d: Draft, form: ContactForm.FormValues, validEmail: string -> bool)
    requires d.step == DetailsStep && !d.submitting
    requires ContactForm.Validate(form, validEmail).Ok?
    ensures Apply(Apply(d, ConfirmButton(form), validEmail), TimerFired, validEmail) == d.(step := ConfirmedStep)
  {
  }

  /** A submission whose form does not validate changes nothing. */
  lemma InvalidFormStays(d: Draft, form: ContactForm.FormValues, validEmail: string -> bool)
    requires ContactForm.Validate(form, validEmail).Err?
    ensures Apply(d, ConfirmButton(form), validEmail) == d
  {
  }

  /** Closing the dialog resets the store whatever step is showing. */
  lemma CloseResetsFromAnyStep(d: Draft, validEmail: string -> bool)
    ensures Apply(d, DialogClosed, validEmail) == Reset(d)
    ensures Apply(d, DialogClosed, validEmail).step == DateStep
  {
  }

  /** "Book Another Appointment" resets the store on the confirmed step and
      does nothing elsewhere, where it is not shown. */
  lemma BookAnotherOnlyOnConfirmed(d: Draft, validEmail: string -> bool)
    ensures d.step == ConfirmedStep ==> Apply(d, BookAnotherButton, validEmail) == Reset(d)
    ensures d.step != ConfirmedStep ==> Apply(d, BookAnotherButton, validEmail) == d
  {
  }

  /** On the confirmed step "Book Another Appointment" and closing both reset
      the store, and no other control acts there. */
  lemma ConfirmedOnlyResets(d: Draft, e: Event, validEmail: string -> bool)
    requires d.step == ConfirmedStep
    ensures e.BookAnotherButton? || e.DialogClosed? ==> Apply(d, e, validEmail) == Reset(d)
    ensures !e.BookAnotherButton? && !e.DialogClosed? && !e.TimerFired? ==> Apply(d, e, validEmail) == d
  {
  }

  // Example runs. Each starts from any draft on the date step, so it holds
  // whatever state the dialog was opened in.

  lemma {:induction false} RunAppend(d: Draft, a: seq<Event>, b: seq<Event>, validEmail: string -> bool)
    ensures Run(d, a + b, validEmail) == Run(Run(d, a, validEmail), b, validEmail)
    decreases |a|
  {
    if a == [] {
      assert a + b == b;
    } else {
      assert (a + b)[0] == a[0];
      assert (a + b)[1..] == a[1..] + b;
      RunAppend(Apply(d, a[0], validEmail), a[1..], b, validEmail);
    }
  }

  /** A Monday and a Saturday a few days later, both selectable on day 0. */
  const Monday := Day(1, 1)
  const Saturday := Day(6, 6)

  /** Pick a Monday, continue, take its first slot, continue. */
  function ToDetails(): seq<Event> {
    [CalendarSelect(Some(Monday), 0), SelectTimeButton, SlotButton("09:00 AM"), EnterDetailsButton]
  }

  lemma ToDetailsReachesDetails(d: Draft, validEmail: string -> bool)
    requires d.step == DateStep
    ensures Run(d, ToDetails(), validEmail)
            == d.(step := DetailsStep, date := Some(Monday), time := Some("09:00 AM"))
  {
    assert Data.Slots[0] == "09:00 AM";
  }

  /** Pick a Monday, take its 04:00 PM slot, go back, pick a Saturday, go on. */
  function StaleTimeScenario(): seq<Event> {
    [CalendarSelect(Some(Monday), 0), SelectTimeButton, SlotButton("04:00 PM"), TimeBackButton,
     CalendarSelect(Some(Saturday), 0), SelectTimeButton, EnterDetailsButton]
  }

  /** The code never clears a chosen time when the date changes: a time chosen
      for a Monday reaches the details step paired with a Saturday that does
      not offer it. */
  lemma StaleTimeSurvivesDateChange(d: Draft, validEmail: string -> bool)
    requires d.step == DateStep
    ensures Run(d, StaleTimeScenario(), validEmail)
            == d.(step := DetailsStep, date := Some(Saturday), time := Some("04:00 PM"))
    ensures "04:00 PM" !in Data.AvailableTimes(Saturday)
  {
    var d1 := d.(date := Some(Monday));
    var d2 := d1.(step := TimeStep);
    assert Data.Slots[12] == "04:00 PM";
    var d3 := d2.(time := Some("04:00 PM"));
    var d4 := d3.(step := DateStep);
    var d5 := d4.(date := Some(Saturday));
    var d6 := d5.(step := TimeStep);
    var d7 := d6.(step := DetailsStep);
    var events := StaleTimeScenario();
    assert Run(d, events[0..], validEmail) == Run(d1, events[1..], validEmail);
    assert Run(d1, events[1..], validEmail) == Run(d2, events[2..], validEmail);
    assert Run(d2, events[2..], validEmail) == Run(d3, events[3..], validEmail);
    assert Run(d3, events[3..], validEmail) == Run(d4, events[4..], validEmail);
    assert Run(d4, events[4..], validEmail) == Run(d5, events[5..], validEmail);
    assert Run(d5, events[5..], validEmail) == Run(d6, events[6..], validEmail);
    assert Run(d6, events[6..], validEmail) == Run(d7, events[7..], validEmail);
    assert events[7..] == [];
    Data.SlotsInClockOrder();
    assert forall i :: 0 <= i < 8 ==> Data.Slots[i] != Data.Slots[12];
  }

  /** Pick a Monday and its first slot, go back, click the selected day again. */
  function DeselectScenario(): seq<Event> {
    [CalendarSelect(Some(Monday), 0), SelectTimeButton, SlotButton("09:00 AM"), TimeBackButton,
     CalendarSelect(None, 0)]
  }

  /** Clicking the selected day again clears the date but not the time, so a
      time can be set while no date is. */
  lemma TimeCanOutliveDate(d: Draft, validEmail: string -> bool)
    requires d.step == DateStep
    ensures Run(d, DeselectScenario(), validEmail) == d.(date := None, time := Some("09:00 AM"))
  {
    assert Data.Slots[0] == "09:00 AM";
  }

  /** The booking walk-through: a Monday, its first slot, valid details, and
      the callback; the dialog ends on the confirmed step holding that date and
      time, with its openness and service as they were. */
  lemma WalkThroughConfirms(d: Draft, form: ContactForm.FormValues, validEmail: string -> bool)
    requires d.step == DateStep && !d.submitting
    requires ContactForm.Validate(form, validEmail).Ok?
    ensures Run(d, ToDetails() + [ConfirmButton(form), TimerFired], validEmail)
            == d.(step := ConfirmedStep, date := Some(Monday), time := Some("09:00 AM"))
  {
    var d4 := d.(step := DetailsStep, date := Some(Monday), time := Some("09:00 AM"));
    ToDetailsReachesDetails(d, validEmail);
    RunAppend(d, ToDetails(), [ConfirmButton(form), TimerFired], validEmail);
    var d5 := d4.(submitting := true, pendingTimers := d.pendingTimers + 1);
    assert Run(d4, [ConfirmButton(form), TimerFired], validEmail) == Run(d5, [TimerFired], validEmail);
  }

  // The completion callback is never cancelled. Closing the dialog while a
  // submission is in flight resets the store, and the callback then still
  // moves it to the confirmed step, with no date or time for that step to show.

  /** A full booking, closed during the delay. */
  function CloseDuringSubmit(form: ContactForm.FormValues): seq<Event> {
    ToDetails() + [ConfirmButton(form), DialogClosed, TimerFired]
  }

  lemma CloseDuringSubmitConfirmsEmptyDraft(d: Draft, form: ContactForm.FormValues, validEmail: string -> bool)
    requires d.step == DateStep && !d.submitting
    requires ContactForm.Validate(form, validEmail).Ok?
    ensures var r := Run(d, CloseDuringSubmit(form), validEmail);
            r.step == ConfirmedStep && r.date.None? && r.time.None? && !r.isOpen
            && r.pendingTimers == d.pendingTimers
  {
    var d4 := d.(step := DetailsStep, date := Some(Monday), time := Some("09:00 AM"));
    ToDetailsReachesDetails(d, validEmail);
    var rest := [ConfirmButton(form), DialogClosed, TimerFired];
    RunAppend(d, ToDetails(), rest, validEmail);
    var d5 := d4.(submitting := true, pendingTimers := d.pendingTimers + 1);
    var d6 := Reset(d5);
    assert Run(d4, rest, validEmail) == Run(d5, rest[1..], validEmail);
    assert Run(d5, rest[1..], validEmail) == Run(d6, rest[2..], validEmail);
  }

  /** The details step's `submitting` flag lives only as long as one showing
      of that step. After a close during the delay, once the dialog shows its
      date step again with the old callback still pending, a second booking
      can be submitted while the first callback waits; the first callback then
      confirms the second booking, "Book Another Appointment" resets, and the
      second callback moves the reset store to the confirmed step. */
  lemma DoubleSubmitAfterClose(d: Draft, form: ContactForm.FormValues, validEmail: string -> bool)
    requires d.step == DateStep && !d.submitting && d.pendingTimers > 0
    requires ContactForm.Validate(form, validEmail).Ok?
    ensures var r := Run(d, ToDetails() + [ConfirmButton(form)], validEmail);
            r.submitting && r.pendingTimers == d.pendingTimers + 1
    ensures var r := Run(d, ToDetails() + [ConfirmButton(form), TimerFired, BookAnotherButton, TimerFired], validEmail);
            r.step == ConfirmedStep && r.date.None? && r.time.None?
  {
    var d4 := d.(step := DetailsStep, date := Some(Monday), time := Some("09:00 AM"));
    ToDetailsReachesDetails(d, validEmail);
    var rest := [ConfirmButton(form), TimerFired, BookAnotherButton, TimerFired];
    RunAppend(d, ToDetails(), [ConfirmButton(form)], validEmail);
    RunAppend(d, ToDetails(), rest, validEmail);
    var d5 := d4.(submitting := true, pendingTimers := d.pendingTimers + 1);
    var d6 := d5.(step := ConfirmedStep, submitting := false, pendingTimers := d.pendingTimers);
    var d7 := Reset(d6);
    assert Run(d4, [ConfirmButton(form)], validEmail) == Run(d5, [], validEmail);
    assert Run(d4, rest, validEmail) == Run(d5, rest[1..], validEmail);
    assert Run(d5, rest[1..], validEmail) == Run(d6, rest[2..], validEmail);
    assert Run(d6, rest[2..], validEmail) == Run(d7, rest[3..], validEmail);
  }

  // "Back" on the details step submits the form too. With valid values the
  // callback it schedules later moves the dialog to the confirmed step from
  // wherever the user has gone meanwhile.

  /** Valid details, then "Back", "Back" again, the selected day clicked again,
      and the callback: the open dialog shows the confirmed step with no date. */
  lemma BackSubmitsAndConfirmsWithoutDate(d: Draft, form: ContactForm.FormValues, validEmail: string -> bool)
    requires d.step == DateStep && !d.submitting
    requires ContactForm.Validate(form, validEmail).Ok?
    ensures var r := Run(d, ToDetails() + [DetailsBackButton(form), TimeBackButton, CalendarSelect(None, 0), TimerFired],
                         validEmail);
            r.step == ConfirmedStep && r.date.None? && r.time == Some("09:00 AM") && r.isOpen == d.isOpen
  {
    var d4 := d.(step := DetailsStep, date := Some(Monday), time := Some("09:00 AM"));
    ToDetailsReachesDetails(d, validEmail);
    var rest := [DetailsBackButton(form), TimeBackButton, CalendarSelect(None, 0), TimerFired];
    RunAppend(d, ToDetails(), rest, validEmail);
    var d5 := d4.(step := TimeStep, pendingTimers := d.pendingTimers + 1);
    var d6 := d5.(step := DateStep);
    var d7 := d6.(date := None);
    var d8 := d7.(step := ConfirmedStep, pendingTimers := d.pendingTimers);
    assert Run(d4, rest, validEmail) == Run(d5, rest[1..], validEmail);
    assert Run(d5, rest[1..], validEmail) == Run(d6, rest[2..], validEmail);
    assert Run(d6, rest[2..], validEmail) == Run(d7, rest[3..], validEmail);
    assert Run(d7, rest[3..], validEmail) == Run(d8, rest[4..], validEmail);
  }

  // The corrected dialog. Closing cancels the completion callback, as a
  // cleanup of the details step would, and "Back" on the details step does
  // not submit the form.

  /** Closing the dialog with the completion callback cancelled. */
  function CloseCancelling(d: Draft): (r: Draft)
    ensures r.step == DateStep && !r.isOpen && !r.submitting
    ensures r.service.None? && r.date.None? && r.time.None?
    ensures r.pendingTimers == 0
  {
    Cleared
  }

  /** "Back" on the details step as a plain button that does not submit. */
  function ReturnToTimeNoSubmit(d: Draft): (r: Draft)
    ensures r == d.(step := r.step)
    ensures r.step != d.step <==> d.step == DetailsStep && !d.submitting
    ensures r.step != d.step ==> r.step == TimeStep
  {
    if d.step == DetailsStep && !d.submitting then d.(step := TimeStep) else d
  }

  /** The dialog with both corrections: identical except on close and on the
      details step's "Back". */
  function ApplyFixed(d: Draft, e: Event, validEmail: string -> bool): Draft {
    match e
    case DialogClosed => CloseCancelling(d)
    case DetailsBackButton(_) => ReturnToTimeNoSubmit(d)
    case _ => Apply(d, e, validEmail)
  }

  function RunFixed(d: Draft, events: seq<Event>, validEmail: string -> bool): Draft
    decreases |events|
  {
    if events == [] then d else RunFixed(ApplyFixed(d, events[0], validEmail), events[1..], validEmail)
  }

  /** The invariant of the corrected dialog: besides `Inv`, a callback is
      pending exactly while the details step is submitting, and the confirmed
      step always has the date and time it announces. */
  predicate FullInv(d: Draft) {
    && Inv(d)
    && d.pendingTimers == (if d.submitting then 1 else 0)
    && (d.step == ConfirmedStep ==> d.date.Some? && d.time.Some?)
  }

  lemma ApplyFixedPreservesFullInv(d: Draft, e: Event, validEmail: string -> bool)
    requires FullInv(d)
    ensures FullInv(ApplyFixed(d, e, validEmail))
  {
  }

  lemma {:induction false} RunFixedPreservesFullInv(d: Draft, events: seq<Event>, validEmail: string -> bool)
    requires FullInv(d)
    ensures FullInv(RunFixed(d, events, validEmail))
    decreases |events|
  {
    if events != [] {
      ApplyFixedPreservesFullInv(d, events[0], validEmail);
      RunFixedPreservesFullInv(ApplyFixed(d, events[0], validEmail), events[1..], validEmail);
    }
  }

  /** Every state the corrected dialog reaches keeps `FullInv`: at most the
      one callback of the submission showing on screen is pending, and every
      confirmed step has a date and a time. */
  lemma FixedReachableStatesKeepFullInv(events: seq<Event>, validEmail: string -> bool)
    ensures FullInv(RunFixed(Cleared, events, validEmail))
  {
    RunFixedPreservesFullInv(Cleared, events, validEmail);
  }

  /** The corrected dialog ends the close-during-submit scenario on the date
      step with nothing selected. */
  lemma FixedCloseDuringSubmitStaysCleared(form: ContactForm.FormValues, validEmail: string -> bool)
    requires ContactForm.Validate(form, validEmail).Ok?
    ensures RunFixed(Cleared, CloseDuringSubmit(form), validEmail) == Cleared
  {
    var d1 := ApplyFixed(Cleared, CalendarSelect(Some(Monday), 0), validEmail);
    var d2 := ApplyFixed(d1, SelectTimeButton, validEmail);
    assert Data.Slots[0] == "09:00 AM";
    var d3 := ApplyFixed(d2, SlotButton("09:00 AM"), validEmail);
    var d4 := ApplyFixed(d3, EnterDetailsButton, validEmail);
    var d5 := ApplyFixed(d4, ConfirmButton(form), validEmail);
    var d6 := ApplyFixed(d5, DialogClosed, validEmail);
    var d7 := ApplyFixed(d6, TimerFired, validEmail);
    assert d7 == Cleared;
    var events := CloseDuringSubmit(form);
    assert RunFixed(Cleared, events[0..], validEmail) == RunFixed(d1, events[1..], validEmail);
    assert RunFixed(d1, events[1..], validEmail) == RunFixed(d2, events[2..], validEmail);
    assert RunFixed(d2, events[2..], validEmail) == RunFixed(d3, events[3..], validEmail);
    assert RunFixed(d3, events[3..], validEmail) == RunFixed(d4, events[4..], validEmail);
    assert RunFixed(d4, events[4..], validEmail) == RunFixed(d5, events[5..], validEmail);
    assert RunFixed(d5, events[5..], validEmail) == RunFixed(d6, events[6..], validEmail);
    assert RunFixed(d6, events[6..], validEmail) == RunFixed(d7, events[7..], validEmail);
    assert events[7..] == [];
  }
}
