/**
 * Times of day as the extensions handle them: zero-padded "HH:MM" strings
 * compared with JavaScript's string `<=`, and their meaning as minutes since
 * midnight.
 */
module Clock {
  import opened Text

  /** A zero-padded 24-hour "HH:MM" string, the form of `toTimeString().slice(0, 5)`. */
  predicate IsHHMM(s: string)
  {
    && |s| == 5
    && IsDigit(s[0]) && IsDigit(s[1]) && s[2] == ':' && IsDigit(s[3]) && IsDigit(s[4])
    && DigitValue(s[0]) * 10 + DigitValue(s[1]) < 24
    && DigitValue(s[3]) < 6
  }

  /** Minutes since midnight denoted by an "HH:MM" string. */
  function MinuteOfDay(s: string): (m: nat)
    requires IsHHMM(s)
    ensures m < 24 * 60
  {
    (DigitValue(s[0]) * 10 + DigitValue(s[1])) * 60 + DigitValue(s[3]) * 10 + DigitValue(s[4])
  }

  /** The "HH:MM" text of a minute of the day (what the browser clock renders). */
  function ClockText(m: nat): (s: string)
    requires m < 24 * 60
    ensures IsHHMM(s) && MinuteOfDay(s) == m
  {
    var h, mm := m / 60, m % 60;
    [DigitChar(h / 10), DigitChar(h % 10), ':', DigitChar(mm / 10), DigitChar(mm % 10)]
  }

  /** `s.slice(0, 5)`. */
  function Slice5(s: string): (r: string)
    ensures |r| == if |s| < 5 then |s| else 5
    ensures r == s[..|r|]
  {
    if |s| <= 5 then s else s[..5]
  }

  /** Postgres renders a `time` column as "HH:MM:SS"; its first five characters are the HH:MM part. */
  lemma Slice5OfHHMMSS(hhmm: string, rest: string)
    requires IsHHMM(hhmm)
    ensures Slice5(hhmm + rest) == hhmm
  {
    assert (hhmm + rest)[..5] == hhmm;
  }

  lemma LexLeStep(a: string, b: string)
    requires |a| > 0 && |b| > 0
    ensures LexLe(a, b) == (a[0] < b[0] || (a[0] == b[0] && LexLe(a[1..], b[1..])))
  {
  }

  /**
   * On zero-padded "HH:MM" strings, JavaScript's string comparison agrees with
   * the order of the times they denote.
   */
  lemma LexLeIsTimeOrder(a: string, b: string)
    requires IsHHMM(a) && IsHHMM(b)
    ensures LexLe(a, b) <==> MinuteOfDay(a) <= MinuteOfDay(b)
  {
    LexLeStep(a, b);
    LexLeStep(a[1..], b[1..]);
    LexLeStep(a[2..], b[2..]);
    LexLeStep(a[3..], b[3..]);
    LexLeStep(a[4..], b[4..]);
    assert a[1..][1..] == a[2..] && b[1..][1..] == b[2..];
    assert a[2..][1..] == a[3..] && b[2..][1..] == b[3..];
    assert a[3..][1..] == a[4..] && b[3..][1..] == b[4..];
    assert LexLe(a[4..][1..], b[4..][1..]);
  }
}
