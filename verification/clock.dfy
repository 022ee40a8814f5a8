/** Twelve-hour slot labels ("09:00 AM", "01:30 PM") and the minute of the
    day they stand for. The widget only ever handles the labels; this module
    gives them a meaning so that clock order can be stated. */
module Clock {
  import opened Types

  /** A minute of the day, counted from midnight. */
  type Minute = m: int | 0 <= m < 1440

  predicate IsDigit(c: char) {
    '0' <= c <= '9'
  }

  function DigitChar(n: int): (c: char)
    requires 0 <= n < 10
    ensures IsDigit(c)
  {
    (('0' as int) + n) as char
  }

  function DigitValue(c: char): (n: int)
    requires IsDigit(c)
    ensures 0 <= n < 10
  {
    (c as int) - ('0' as int)
  }

  function TwoDigits(n: int): string
    requires 0 <= n < 100
  {
    [DigitChar(n / 10), DigitChar(n % 10)]
  }

  /** The hour as a twelve-hour clock shows it: 12, 1, ..., 11. */
  function Hour12(h: int): (r: int)
    requires 0 <= h < 24
    ensures 1 <= r <= 12 && r % 12 == h % 12
  {
    if h % 12 == 0 then 12 else h % 12
  }

  /** The label shown for a start time: two-digit hour, colon, two-digit
      minute, then " AM" before noon and " PM" from noon on. */
  function Label(m: Minute): string
  {
    var h := m / 60;
    TwoDigits(Hour12(h)) + ":" + TwoDigits(m % 60) + (if h < 12 then " AM" else " PM")
  }

  /** The two-digit number written at positions `k` and `k + 1` of `s`. */
  function Field(s: string, k: int): (n: int)
    requires 0 <= k && k + 1 < |s| && IsDigit(s[k]) && IsDigit(s[k + 1])
    ensures 0 <= n < 100
  {
    10 * DigitValue(s[k]) + DigitValue(s[k + 1])
  }

  /** `s` has the layout "dd:dd AM" or "dd:dd PM". */
  predicate WellShaped(s: string) {
    && |s| == 8
    && IsDigit(s[0]) && IsDigit(s[1]) && s[2] == ':'
    && IsDigit(s[3]) && IsDigit(s[4]) && s[5] == ' '
    && (s[6] == 'A' || s[6] == 'P') && s[7] == 'M'
  }

  /** The minute of the day for hour `h` (1 to 12) and minute `mm` of a
      twelve-hour clock, before or after noon. */
  function ToMinute(h: int, mm: int, pm: bool): Minute
    requires 1 <= h <= 12 && 0 <= mm < 60
  {
    (h % 12) * 60 + mm + (if pm then 720 else 0)
  }

  /** Reads a label back; None for any string that is not a well-formed label
      (wrong layout, hour outside 1 to 12, or minute above 59). */
  function Parse(s: string): Option<Minute>
  {
    if WellShaped(s) && 1 <= Field(s, 0) <= 12 && Field(s, 3) < 60 then
      Some(ToMinute(Field(s, 0), Field(s, 3), s[6] == 'P'))
    else
      None
  }

  /** `s` is a label for minute `m`. */
  predicate StartsAt(s: string, m: int) {
    Parse(s) == Some(m)
  }

  /** `a` and `b` are both labels and `a` is strictly earlier in the day. */
  predicate Before(a: string, b: string) {
    Parse(a).Some? && Parse(b).Some? && Parse(a).value < Parse(b).value
  }

  lemma CharRoundTrip(c: char)
    requires IsDigit(c)
    ensures DigitChar(DigitValue(c)) == c
  {
  }

  lemma FieldTwoDigits(s: string, k: int)
    requires 0 <= k && k + 1 < |s| && IsDigit(s[k]) && IsDigit(s[k + 1])
    ensures TwoDigits(Field(s, k)) == s[k..k + 2]
  {
    CharRoundTrip(s[k]);
    CharRoundTrip(s[k + 1]);
  }

  /** Hour and minute of a twelve-hour reading, recovered from the minute of the day. */
  lemma ToMinuteParts(h: int, mm: int, pm: bool)
    requires 1 <= h <= 12 && 0 <= mm < 60
    ensures ToMinute(h, mm, pm) / 60 == h % 12 + (if pm then 12 else 0)
    ensures ToMinute(h, mm, pm) % 60 == mm
  {
  }

  /** Rendering a minute and reading it back gives the same minute. */
  lemma ParseLabel(m: Minute)
    ensures Parse(Label(m)) == Some(m)
  {
  }

  /** Every well-formed label is the rendering of the minute it reads as:
      labels and minutes are in one-to-one correspondence. */
  lemma LabelParse(s: string)
    requires Parse(s).Some?
    ensures Label(Parse(s).value) == s
  {
    var h := Field(s, 0);
    var mm := Field(s, 3);
    var pm := s[6] == 'P';
    var m := ToMinute(h, mm, pm);
    ToMinuteParts(h, mm, pm);
    assert Hour12(m / 60) == h;
    FieldTwoDigits(s, 0);
    FieldTwoDigits(s, 3);
    assert s == s[0..2] + ":" + s[3..5] + s[5..8];
    assert s[5..8] == (if m / 60 < 12 then " AM" else " PM");
  }

  /** Distinct minutes have distinct labels. */
  lemma LabelInjective(a: Minute, b: Minute)
    requires Label(a) == Label(b)
    ensures a == b
  {
    ParseLabel(a);
    ParseLabel(b);
  }
}
