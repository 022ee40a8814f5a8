# SerenityScheduler booking widget — a Dafny model

This project models the two pieces of logic under the salon site's booking
widget and proves properties of them:

- the **availability rule** `getAvailableTimes`, which maps a date's day of the
  week to a list of slot labels (closed on Sunday, the first eight of fourteen
  canonical slots on Saturday, all fourteen Monday to Friday), together with
  the static six-entry **service catalogue**;
- the **booking dialog**, a four-step wizard (`date`, `time`, `details`,
  `confirmed`) whose transitions are fixed by the guards on its buttons, its
  calendar's disabled-day predicate, the contact form's schema, the simulated
  submission delay and reset-on-close.

Modules (one file each):

- `Types` (`types.dfy`): the `Service` and `Booking` records of the shared
  types, `Option`/`Result`, and the abstract calendar `Day(index, weekday)`:
  `weekday` is what `getDay` returns (0 = Sunday), `index` counts days so that
  "before today" is an integer comparison.
- `Clock` (`clock.dfy`): the twelve-hour label format of the slots
  ("09:00 AM") read as a minute of the day, with both round trips proved. It
  gives "clock order" and "lunch gap" a meaning.
- `Data` (`data.dfy`): the catalogue, the canonical slot list, `AvailableTimes`,
  and an independent statement of the opening hours it encodes.
- `ContactForm` (`contact.dfy`): the form schema (name of at least two
  UTF-16 code units, valid email, optional phone) as a validation returning all
  field errors.
- `Wizard` (`wizard.dfy`): the dialog as an immutable `Draft` and one `Event`
  per control. Each control's handler carries its button's guard, and the
  details step's "Back", which sits inside the form without a button type,
  also submits the form. The store's setters are plain field updates. `Run` folds a sequence of events.
  The reachability invariant `Inv` is proved for every sequence of events from
  the reset state.

The email rule of the validation library is a parameter
`validEmail: string -> bool`; "today" travels with each calendar click; the
1500 ms delay is two discrete events (the click that schedules the callback, and
the callback firing).

Behaviour of the code that the example runs in `Wizard` make explicit:

- The code never clears a chosen time when the date changes.
  `StaleTimeSurvivesDateChange` reaches the details step with a Saturday and a
  04:00 PM slot Saturday does not offer, and `TimeCanOutliveDate` clears the
  date (clicking the selected day again) while the time stays.
- The details buttons are disabled while submitting only within one showing of
  the details step (`SubmittingFreezesDetails`): the flag is local to that
  step and starts false each time the step is shown again. After a close
  during the delay, a second booking can be submitted while the first callback
  is still pending (`DoubleSubmitAfterClose`). For that, the dialog must be
  reopened on the date step, and the whole second walk-through, including
  typing a name and an email into the form that starts empty again, must fit
  inside the 1500 ms delay. Reopening goes through the booking store, which is
  not part of this model, and the delay is not timed.
- Since "Back" on the details step submits the form, its callback can confirm a
  dialog that has meanwhile lost its date (`BackSubmitsAndConfirmsWithoutDate`).
  Still, from the reset state the confirmed step is reached only after an
  event that submits valid details from the details step, with no submission
  in flight, and that schedules the callback (`ConfirmedOnlyAfterValidSubmit`).

## Model

| member | source | states |
|---|---|---|
| Data.AvailableTimes | src/lib/data.ts:53-69 | the result is a prefix of the canonical list, empty exactly on Sunday, and of length 0, 8 or 14 |
| Data.SameWeekdaySameSlots | src/lib/data.ts:56 | two dates with the same day of the week get identical lists |
| Data.EarlyMorningLabels | src/lib/data.ts:61 | "09:00 AM", "09:30 AM", "10:00 AM" read as 9:00, 9:30, 10:00 |
| Data.LateMorningLabels | src/lib/data.ts:61 | "10:30 AM", "11:00 AM", "11:30 AM" read as 10:30, 11:00, 11:30 |
| Data.EarlyAfternoonLabels | src/lib/data.ts:62 | "01:00 PM" to "02:30 PM" read as 13:00 to 14:30 |
| Data.LateAfternoonLabels | src/lib/data.ts:62-63 | "03:00 PM" to "04:30 PM" read as 15:00 to 16:30 |
| Data.SlotsStartAt | src/lib/data.ts:60-64 | the canonical list has 14 labels, 09:00 to 11:30 and 13:00 to 16:30 every half hour |
| Data.SlotsInClockOrder | src/lib/data.ts:60-64 | the canonical list is in strictly increasing clock order, has no duplicates, and has nothing after 11:30 AM and before 01:00 PM |
| Data.AvailableTimesByWeekday | src/lib/data.ts:56-68 | Sunday gets no slot, Saturday exactly the first eight canonical slots, Monday to Friday all fourteen |
| Data.AvailableTimesSorted | src/lib/data.ts:57-68 | every day's list is in strictly increasing clock order |
| Data.StartsMatchOpeningHours | src/lib/data.ts:57-68 | the start times the rule keeps for a day of the week are exactly that day's opening hours |
| Data.AvailableMatchesOpeningHours | src/lib/data.ts:53-69 | a time appears in a date's list iff the opening hours admit it: Mon-Fri 9-12 and 13-17, Sat 9-12 and 13-14, never Sunday |
| Data.CatalogueIdsDistinct | src/lib/data.ts:3-52 | no two catalogue entries share an id |
| Data.CatalogueTermsPositive | src/lib/data.ts:3-52 | every catalogue entry has positive duration and price |
| Data.CatalogueWellFormed | src/lib/data.ts:3-52 | the catalogue has six entries, distinct ids, positive durations and prices |
| Clock.ParseLabel | src/lib/data.ts:60-64 | reading back the label of any minute of the day gives that minute |
| Clock.LabelParse | src/lib/data.ts:60-64 | every well-formed label is the label of the minute it reads as |
| Clock.LabelInjective | src/lib/data.ts:60-64 | distinct start times have distinct labels |
| ContactForm.Utf16Length | src/components/BookingDialog.tsx:18 | the length the schema's minimum counts: between the number of characters and twice it, equal to it iff no character lies outside the Basic Multilingual Plane |
| ContactForm.Validate | src/components/BookingDialog.tsx:17-21 | accepts iff the name has at least 2 UTF-16 code units and the email is valid; on rejection lists the name error iff the name is short and the email error iff the email is invalid |
| ContactForm.Messages | src/components/BookingDialog.tsx:17-21 | the messages a submission shows: none iff the form validates, the name message iff the name is short, the email message iff the email is invalid, at most two |
| ContactForm.PhoneIsFree | src/components/BookingDialog.tsx:20 | the phone value never changes whether the form validates |
| ContactForm.NameBoundary | src/components/BookingDialog.tsx:18 | "Jo" is accepted and "J" is refused with the name error alone |
| ContactForm.AstralNameAccepted | src/components/BookingDialog.tsx:18 | a one-character name made of an emoji is accepted, since it is two code units long |
| Wizard.SelectDate | src/components/BookingDialog.tsx:27-31 | only the date changes, only on the date step, and only to a day that is not before today and not a Sunday, or to none |
| Wizard.ContinueToTime | src/components/BookingDialog.tsx:34 | date to time happens iff a date is selected, and changes nothing else |
| Wizard.SelectTime | src/components/BookingDialog.tsx:43-54 | a time is set iff it is among the slots offered for the selected date on the time step, and nothing else changes |
| Wizard.ReturnToDate | src/components/BookingDialog.tsx:44-65 | time to date is always allowed while the step shows, and changes nothing else |
| Wizard.ContinueToDetails | src/components/BookingDialog.tsx:66 | time to details happens iff a time is selected, and changes nothing else |
| Wizard.ReturnToTime | src/components/BookingDialog.tsx:81-115 | details to time happens iff no submission is in flight, and then a callback is scheduled iff the form validates; nothing else changes |
| Wizard.BeginSubmit | src/components/BookingDialog.tsx:81-83 | a submission starts iff on the details step, not submitting, and the form validates; it raises the flag and schedules one callback |
| Wizard.CompleteSubmit | src/components/BookingDialog.tsx:84-87 | a pending callback moves the step to confirmed and clears the flag, leaving date, time, service and openness alone |
| Wizard.Reset | src/components/BookingDialog.tsx:161 | every store field returns to its initial value; a scheduled callback stays scheduled |
| Wizard.ApplyPreservesInv | src/components/BookingDialog.tsx:23-125 | every control keeps the reachability invariant |
| Wizard.RunPreservesInv | src/components/BookingDialog.tsx:23-161 | any sequence of events keeps the reachability invariant |
| Wizard.ReachableStatesKeepInv | src/components/BookingDialog.tsx:23-161 | from the reset state, the time and details steps always have a date, the details step always has a time, and a selected date is never a Sunday |
| Wizard.SelectableDateHasSlots | src/components/BookingDialog.tsx:31 | every day the calendar enables gets at least the eight Saturday slots |
| Wizard.TimeStepOffersSlots | src/components/BookingDialog.tsx:43-54 | in a reachable state the time step offers exactly the availability list of the selected date, with at least eight slots |
| Wizard.TimeStepWithoutDateIsInert | src/components/BookingDialog.tsx:43-44 | without a date the time step offers no slot and no control acts |
| Wizard.SubmittingFreezesDetails | src/components/BookingDialog.tsx:115-116 | while submitting, only the callback or closing the dialog changes anything |
| Wizard.SubmitChangesOnlyStep | src/components/BookingDialog.tsx:81-87 | a validated submission plus its callback changes only the step, to confirmed |
| Wizard.InvalidFormStays | src/components/BookingDialog.tsx:92 | a submission that fails validation changes nothing |
| Wizard.CloseResetsFromAnyStep | src/components/BookingDialog.tsx:161 | closing the dialog resets the store whatever step is showing, back to the date step |
| Wizard.BookAnotherOnlyOnConfirmed | src/components/BookingDialog.tsx:127-149 | "Book Another Appointment" resets the store on the confirmed step, the only step that shows it, and does nothing elsewhere |
| Wizard.ConfirmedOnlyResets | src/components/BookingDialog.tsx:144-161 | on the confirmed step "Book Another Appointment" and closing both reset, and no other control acts |
| Wizard.CommitNeedsValidSubmit | src/components/BookingDialog.tsx:81-116 | a single control schedules a callback or reaches the confirmed step only by submitting a valid form from the details step with no submission in flight |
| Wizard.CommittedRunHasCommitPoint | src/components/BookingDialog.tsx:23-161 | a run that starts with no callback pending and off the confirmed step, and ends with one pending or on it, has an event that commits it: before it the draft is idle on the details step, the event submits a valid form, after it a callback is pending |
| Wizard.ConfirmedOnlyAfterValidSubmit | src/components/BookingDialog.tsx:81-92 | from the reset state, every run ending on the confirmed step has such a committing event: a valid submission on the idle details step that schedules the callback |
| Wizard.RunAppend | src/components/BookingDialog.tsx:23-161 | running two sequences of events one after the other is running their concatenation |
| Wizard.ToDetailsReachesDetails | src/components/BookingDialog.tsx:27-66 | from any date step, a Monday and its first slot reach the details step holding them, nothing else changed |
| Wizard.StaleTimeSurvivesDateChange | src/components/BookingDialog.tsx:27-66 | from any date step, a time chosen for a Monday survives switching to a Saturday that does not offer it, up to the details step |
| Wizard.TimeCanOutliveDate | src/components/BookingDialog.tsx:30 | from any date step, clicking the selected day again clears the date but not the time |
| Wizard.WalkThroughConfirms | src/components/BookingDialog.tsx:23-88 | from any date step, a Monday, its first slot, valid details and the callback end on the confirmed step with that date and time, openness and service unchanged |
| Wizard.CloseDuringSubmitConfirmsEmptyDraft | src/components/BookingDialog.tsx:84-87 | closing during the delay still lets the callback move the reset store to confirmed, with no date and no time |
| Wizard.DoubleSubmitAfterClose | src/components/BookingDialog.tsx:76-116 | with an old callback pending, a new booking can be submitted, giving two pending callbacks; they end on the confirmed step with no date and no time after "Book Another Appointment" |
| Wizard.BackSubmitsAndConfirmsWithoutDate | src/components/BookingDialog.tsx:92-115 | "Back" with valid details schedules a callback that later confirms the open dialog after its date was cleared |
| Wizard.ReturnToTimeNoSubmit | src/components/BookingDialog.tsx:115 | the corrected "Back": details to time iff no submission is in flight, nothing else changes |
| Wizard.CloseCancelling | src/components/BookingDialog.tsx:161 | the corrected close: every field reset and no callback left pending |
| Wizard.ApplyFixedPreservesFullInv | src/components/BookingDialog.tsx:81-161 | with both corrections, every control keeps the full invariant |
| Wizard.RunFixedPreservesFullInv | src/components/BookingDialog.tsx:81-161 | with both corrections, any sequence of events keeps the full invariant |
| Wizard.FixedReachableStatesKeepFullInv | src/components/BookingDialog.tsx:128-141 | with both corrections, at most one callback is pending, only while submitting, and a reachable confirmed step always has the date and time it shows |
| Wizard.FixedCloseDuringSubmitStaysCleared | src/components/BookingDialog.tsx:84-87 | with the corrected close, closing during the delay leaves the reset state |

## Left out

- Rendering, styling, the toast and the `format(..., 'PPP')` strings: presentational.
- Wizard.Apply: only the controls of the step in `step` act. The step transition animation (src/components/BookingDialog.tsx:170-176) keeps the step being left mounted, and clickable, during its 0.2 s exit, which the model ignores. In that window the code can, for example, clear the date while the time step is showing: pick a day, click "Select Time", then click the same day again as the calendar fades out. `Inv`, `ReachableStatesKeepInv` and the run-level lemmas therefore describe runs in which no control of a departing step is used.
- `openBookingDialog(service)` and the home page that calls it: its effect lives in the booking store, which is not part of this model. So no event ever sets `service` or `isOpen`.
- Step events are not gated on the dialog being open. This over-approximates what a user can do, so the invariants proved hold a fortiori.
- The booking store module is not part of this model. `setStep`, `setSelectedDate` and `setSelectedTime` are plain field updates. `reset` returns every field to its initial value and closes the dialog.
- The email rule of the validation library and `getDay`/`startOfDay` of the date library are foreign code. Email validity is a parameter. A date is a day index with its day of the week; the two are not tied to a real calendar.
- Whether "Back" on the details step submits depends on the button component, which is not part of this model; the model takes it to render a plain `<button>`, whose default type submits the form. Pressing Enter in a field submits through the "Back" button, the first submit button of the form, and is modelled as that event.
- The 1500 ms delay is not timed. A submission is one event that schedules the callback and one event that fires it.
- `Booking` is declared but never built: the form values are never stored or sent anywhere.
- Service durations are integers and prices are reals; JavaScript numbers are not modelled.

## Findings

| source | as written | input that shows it | evidently intended | confidence | as-written member | corrected member |
|---|---|---|---|---|---|---|
| src/components/BookingDialog.tsx:84-87 | the completion timer is never cleared, so it sets the step to confirmed even after closing the dialog has reset the store | pick a date and a slot, submit valid details, close the dialog before the 1500 ms delay ends | closing abandons the submission; the confirmed step, which dereferences `selectedDate!`, is only reached with a date and a time | medium, not executed | Wizard.CloseDuringSubmitConfirmsEmptyDraft | Wizard.FixedReachableStatesKeepFullInv |
| src/components/BookingDialog.tsx:115 | the details step's "Back" button sits inside the form with no `type`, so as a plain button it also submits the form, and a valid form schedules the completion callback | fill in valid details, click "Back", go back to the date step and click the selected day again; the callback then confirms with no date | "Back" only returns to the time step | low, not executed; depends on the button component rendering a plain button, which is not part of this model | Wizard.BackSubmitsAndConfirmsWithoutDate | Wizard.FixedReachableStatesKeepFullInv |

The corrected dialog (`ApplyFixed`) differs from the dialog as written only in
how it closes, where `CloseCancelling` also drops the pending callback, and in
the details step's "Back", where `ReturnToTimeNoSubmit` does not submit. The
reachability invariant holds for both versions, and the full invariant of the
corrected one includes it.
