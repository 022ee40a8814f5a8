/** The static data behind the booking widget: the service catalogue and the
    day-of-week availability rule with its canonical list of slot labels. */
module Data {
  import opened Types
  import Clock

  /** The six services on offer, in declaration (and display) order. */
  const Services: seq<Service> := [
    Service("svc_01", "Signature Haircut",
      "A tailored haircut experience including a wash, cut, and style.",
      60, 85.0,
      "https://images.unsplash.com/photo-1599331834183-2c35a5d87f89?q=80&w=1974&auto=format&fit=crop"),
    Service("svc_02", "Luminous Balayage",
      "Hand-painted highlights for a natural, sun-kissed look.",
      180, 250.0,
      "https://images.unsplash.com/photo-1632345031435-8727f6897f53?q=80&w=1974&auto=format&fit=crop"),
    Service("svc_03", "Deep Conditioning Treatment",
      "An intensive treatment to restore moisture and shine to your hair.",
      45, 60.0,
      "https://images.unsplash.com/photo-1560243563-062da202a57c?q=80&w=1974&auto=format&fit=crop"),
    Service("svc_04", "Elegant Updo",
      "A beautiful hairstyle for special occasions, from weddings to galas.",
      75, 120.0,
      "https://images.unsplash.com/photo-1616099397099-f277157e4a93?q=80&w=1974&auto=format&fit=crop"),
    Service("svc_05", "Gloss & Tone",
      "Refresh your color and add brilliant shine with a custom gloss.",
      90, 150.0,
      "https://images.unsplash.com/photo-1522337360788-8b13dee7a37e?q=80&w=2070&auto=format&fit=crop"),
    Service("svc_06", "Luxury Manicure",
      "A pampering manicure including shaping, cuticle care, massage, and polish.",
      50, 55.0,
      "https://images.unsplash.com/photo-1604654894610-df63bc536374?q=80&w=2070&auto=format&fit=crop")
  ]

  /** No two services share an identifier. */
  predicate DistinctIds(cat: seq<Service>) {
    forall i, j :: 0 <= i < j < |cat| ==> cat[i].id != cat[j].id
  }

  /** Every service takes some time and costs something. */
  predicate PositiveTerms(cat: seq<Service>) {
    forall i :: 0 <= i < |cat| ==> cat[i].duration > 0 && cat[i].price > 0.0
  }

  lemma CatalogueIdsDistinct()
    ensures DistinctIds(Services)
  {
  }

  lemma CatalogueTermsPositive()
    ensures PositiveTerms(Services)
  {
  }

  /** The catalogue holds six services with distinct identifiers and positive
      durations and prices. */
  lemma CatalogueWellFormed()
    ensures |Services| == 6
    ensures DistinctIds(Services) && PositiveTerms(Services)
  {
    CatalogueIdsDistinct();
    CatalogueTermsPositive();
  }

  /** The canonical slot list: 09:00-11:30 AM and 01:00-04:30 PM, every half hour. */
  const Slots: seq<string> := [
    "09:00 AM", "09:30 AM", "10:00 AM", "10:30 AM", "11:00 AM", "11:30 AM",
    "01:00 PM", "01:30 PM", "02:00 PM", "02:30 PM", "03:00 PM", "03:30 PM",
    "04:00 PM", "04:30 PM"
  ]

  /** How many of the canonical slots Saturday keeps. */
  const SaturdaySlots := 8

  /** The slot labels offered on `date`. Only the day of the week matters:
      Sunday is closed, Saturday keeps the first eight slots, and every other
      day offers them all. */
  function AvailableTimes(date: Day): (r: seq<string>)
    ensures r <= Slots
    ensures r == [] <==> date.weekday == 0
    ensures |r| == 0 || |r| == SaturdaySlots || |r| == |Slots|
  {
    if date.weekday == 0 then
      []
    else if date.weekday == 6 then
      Slots[..SaturdaySlots]
    else
      Slots
  }

  /** The minute of the day at which canonical slot `i` starts. */
  function SlotStart(i: int): Clock.Minute
    requires 0 <= i < 14
  {
    if i < 6 then 540 + 30 * i else 780 + 30 * (i - 6)
  }

  /** Opening hours, stated independently of the list: a half-hour start time
      is offered Monday to Friday from 9:00 to 12:00 and from 13:00 to 17:00,
      on Saturday from 9:00 to 12:00 and from 13:00 to 14:00, never on Sunday. */
  predicate OpenAt(weekday: Weekday, m: int) {
    && m % 30 == 0
    && (540 <= m < 720 || 780 <= m < (if weekday == 6 then 840 else 1020))
    && weekday != 0
  }

  /** The first morning labels read as 09:00 to 10:00. */
  lemma EarlyMorningLabels()
    ensures Clock.StartsAt("09:00 AM", 540) && Clock.StartsAt("09:30 AM", 570)
    ensures Clock.StartsAt("10:00 AM", 600)
  {
  }

  /** The last morning labels read as 10:30 to 11:30. */
  lemma LateMorningLabels()
    ensures Clock.StartsAt("10:30 AM", 630) && Clock.StartsAt("11:00 AM", 660)
    ensures Clock.StartsAt("11:30 AM", 690)
  {
  }

  /** The early-afternoon labels read as 13:00 to 14:30. */
  lemma EarlyAfternoonLabels()
    ensures Clock.StartsAt("01:00 PM", 780) && Clock.StartsAt("01:30 PM", 810)
    ensures Clock.StartsAt("02:00 PM", 840) && Clock.StartsAt("02:30 PM", 870)
  {
  }

  /** The late-afternoon labels read as 15:00 to 16:30. */
  lemma LateAfternoonLabels()
    ensures Clock.StartsAt("03:00 PM", 900) && Clock.StartsAt("03:30 PM", 930)
    ensures Clock.StartsAt("04:00 PM", 960) && Clock.StartsAt("04:30 PM", 990)
  {
  }

  /** Each canonical label reads as its start time. */
  lemma SlotsStartAt()
    ensures |Slots| == 14
    ensures forall i :: 0 <= i < |Slots| ==> Clock.StartsAt(Slots[i], SlotStart(i))
  {
    EarlyMorningLabels();
    LateMorningLabels();
    EarlyAfternoonLabels();
    LateAfternoonLabels();
  }

  /** The canonical list runs in strictly increasing clock order (so it holds
      no duplicates), and nothing starts in the lunch gap after 11:30 AM and
      before 01:00 PM. */
  lemma SlotsInClockOrder()
    ensures forall i, j :: 0 <= i < j < |Slots| ==> Clock.Before(Slots[i], Slots[j])
    ensures forall i, j :: 0 <= i < j < |Slots| ==> Slots[i] != Slots[j]
    ensures forall i, m :: 0 <= i < |Slots| && Clock.StartsAt(Slots[i], m) ==> !(690 < m < 780)
  {
    SlotsStartAt();
  }

  /** Two dates on the same day of the week get identical lists. */
  lemma SameWeekdaySameSlots(a: Day, b: Day)
    requires a.weekday == b.weekday
    ensures AvailableTimes(a) == AvailableTimes(b)
  {
  }

  /** The rule table itself: nothing on Sunday, the first eight canonical
      slots on Saturday, all fourteen from Monday to Friday. */
  lemma AvailableTimesByWeekday(date: Day)
    ensures date.weekday == 0 ==> AvailableTimes(date) == []
    ensures date.weekday == 6 ==> AvailableTimes(date) == Slots[..8]
    ensures 1 <= date.weekday <= 5 ==> AvailableTimes(date) == Slots && |Slots| == 14
  {
  }

  /** The offered list is sorted by clock time. */
  lemma AvailableTimesSorted(date: Day)
    ensures forall i, j :: 0 <= i < j < |AvailableTimes(date)| ==>
      Clock.Before(AvailableTimes(date)[i], AvailableTimes(date)[j])
  {
    SlotsInClockOrder();
  }

  /** On the integer side: the first `n` canonical start times, for the `n`
      the rule gives a day of the week, are exactly its opening hours. */
  lemma StartsMatchOpeningHours(date: Day, m: int)
    ensures (exists i :: 0 <= i < |AvailableTimes(date)| && SlotStart(i) == m)
            <==> OpenAt(date.weekday, m)
  {
    var n := |AvailableTimes(date)|;
    if OpenAt(date.weekday, m) {
      var i := if m < 720 then (m - 540) / 30 else 6 + (m - 780) / 30;
      assert 0 <= i < n && SlotStart(i) == m;
    }
  }

  /** A start time appears in the list for `date` exactly when the opening
      hours of that day of the week admit it. */
  lemma AvailableMatchesOpeningHours(date: Day, m: int)
    ensures (exists i :: 0 <= i < |AvailableTimes(date)| && Clock.StartsAt(AvailableTimes(date)[i], m))
            <==> OpenAt(date.weekday, m)
  {
    var r := AvailableTimes(date);
    SlotsStartAt();
    StartsMatchOpeningHours(date, m);
    forall i | 0 <= i < |r|
      ensures Clock.StartsAt(r[i], m) <==> SlotStart(i) == m
    {
      assert r[i] == Slots[i];
    }
    if OpenAt(date.weekday, m) {
      var i :| 0 <= i < |r| && SlotStart(i) == m;
      assert Clock.StartsAt(r[i], m);
    }
  }
}
