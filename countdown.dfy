/**
 * The countdown of the shared-secret page: `updateTimer` turns the time
 * left until a secret expires, in milliseconds, into "Expired" or into
 * "<h>h <m>m <s>s", with whole days dropped.
 */
module Countdown {
  import opened Wrappers
  import opened DecimalText

  const MsPerSecond: nat := 1000
  const MsPerMinute: nat := 1000 * 60
  const MsPerHour: nat := 1000 * 60 * 60
  const MsPerDay: nat := 1000 * 60 * 60 * 24

  const ExpiredText: string := "Expired"
  /** What the template literal shows when every component is NaN. */
  const NaNText: string := "NaNh NaNm NaNs"

  /** The three numbers the page displays. */
  datatype Remaining = Remaining(hours: nat, minutes: nat, seconds: nat)

  predicate InRange(r: Remaining) {
    r.hours < 24 && r.minutes < 60 && r.seconds < 60
  }

  /** The span of time, in milliseconds, that `r` reads as. */
  function Millis(r: Remaining): nat {
    r.hours * MsPerHour + r.minutes * MsPerMinute + r.seconds * MsPerSecond
  }

  // ---------------------------------------------------------------------
  // Arithmetic facts about Euclidean division used below

  lemma MulAtLeast(a: int, b: int)
    requires a >= 1 && b > 0
    ensures a * b >= b
  {
  }

  lemma DivModUnique(x: int, b: int, q: int, r: int)
    requires b > 0 && 0 <= r < b && x == q * b + r
    ensures x / b == q && x % b == r
  {
    var q', r' := x / b, x % b;
    assert x == q' * b + r';
    assert (q - q') * b == q * b - q' * b;
    if q > q' {
      MulAtLeast(q - q', b);
    } else if q < q' {
      assert (q' - q) * b == q' * b - q * b;
      MulAtLeast(q' - q, b);
    }
  }

  /** Reducing modulo a multiple of `b` first does not change the remainder modulo `b`. */
  lemma ModOfMultipleMod(x: nat, b: nat, k: nat)
    requires b > 0 && k > 0
    ensures (x % (k * b)) % b == x % b
  {
    var q := x / (k * b);
    var y := x % (k * b);
    assert x == (q * k) * b + y;
    DivModUnique(y, b, y / b, y % b);
    assert x == (q * k + y / b) * b + y % b;
    DivModUnique(x, b, q * k + y / b, y % b);
  }

  /** Adding whole multiples of `b` does not change the remainder modulo `b`. */
  lemma ModAddMultiple(x: nat, b: nat, k: nat)
    requires b > 0
    ensures (x + k * b) % b == x % b
  {
    assert x + k * b == (x / b + k) * b + x % b;
    DivModUnique(x + k * b, b, x / b + k, x % b);
  }

  // ---------------------------------------------------------------------
  // The arithmetic of updateTimer

  /**
   * hoursRemaining, minutesRemaining and secondsRemaining of a non-negative
   * time difference: each a floor division of a remainder.
   */
  function Decompose(delta: nat): (r: Remaining)
    ensures InRange(r)
  {
    Remaining((delta % MsPerDay) / MsPerHour,
              (delta % MsPerHour) / MsPerMinute,
              (delta % MsPerMinute) / MsPerSecond)
  }

  /** The displayed time is the time left within the current day, truncated to whole seconds. */
  lemma DecomposeBrackets(delta: nat)
    ensures Millis(Decompose(delta)) <= delta % MsPerDay < Millis(Decompose(delta)) + MsPerSecond
  {
    var r := Decompose(delta);
    var x := delta % MsPerDay;
    var xh := delta % MsPerHour;
    var xm := delta % MsPerMinute;
    ModOfMultipleMod(delta, MsPerHour, 24);
    assert x % MsPerHour == xh;
    ModOfMultipleMod(delta, MsPerMinute, 60);
    assert xh % MsPerMinute == xm;
    assert x == r.hours * MsPerHour + xh;
    assert xh == r.minutes * MsPerMinute + xm;
    assert xm == r.seconds * MsPerSecond + xm % MsPerSecond;
  }

  /** Conversely, the bracketing determines the three numbers. */
  lemma DecomposeUnique(delta: nat, r: Remaining)
    requires InRange(r)
    requires Millis(r) <= delta % MsPerDay < Millis(r) + MsPerSecond
    ensures r == Decompose(delta)
  {
    var x := delta % MsPerDay;
    var e := x - Millis(r);
    var inMinute := r.seconds * MsPerSecond + e;
    var inHour := r.minutes * MsPerMinute + inMinute;
    assert x == r.hours * MsPerHour + inHour;
    DivModUnique(x, MsPerHour, r.hours, inHour);
    ModOfMultipleMod(delta, MsPerHour, 24);
    DivModUnique(inHour, MsPerMinute, r.minutes, inMinute);
    ModOfMultipleMod(delta, MsPerMinute, 60 * 24);
    ModOfMultipleMod(x, MsPerMinute, 60);
    DivModUnique(inMinute, MsPerSecond, r.seconds, e);
  }

  /** The hours shown are the whole hours left, modulo 24. */
  lemma HoursWrapAtOneDay(delta: nat)
    ensures Decompose(delta).hours == (delta / MsPerHour) % 24
  {
    var q := delta / MsPerHour;
    var y := delta % MsPerHour;
    assert delta == (q / 24) * MsPerDay + ((q % 24) * MsPerHour + y);
    DivModUnique(delta, MsPerDay, q / 24, (q % 24) * MsPerHour + y);
    DivModUnique((q % 24) * MsPerHour + y, MsPerHour, q % 24, y);
  }

  /** Whole days make no difference to the three numbers. */
  lemma DecomposeDropsDays(delta: nat, days: nat)
    ensures Decompose(delta + days * MsPerDay) == Decompose(delta)
  {
    ModAddMultiple(delta, MsPerDay, days);
    assert days * MsPerDay == (days * 24) * MsPerHour;
    ModAddMultiple(delta, MsPerHour, days * 24);
    assert days * MsPerDay == (days * 24 * 60) * MsPerMinute;
    ModAddMultiple(delta, MsPerMinute, days * 24 * 60);
  }

  // ---------------------------------------------------------------------
  // The text written to timeLeft

  /** The template literal `${hoursRemaining}h ${minutesRemaining}m ${secondsRemaining}s`. */
  function Render(r: Remaining): (s: string)
    ensures |s| >= 8 && IsDigit(s[0]) && s[|s| - 1] == 's'
  {
    NatToText(r.hours) + "h " + NatToText(r.minutes) + "m " + NatToText(r.seconds) + "s"
  }

  /**
   * The string a tick of `updateTimer` stores, given the time difference;
   * None stands for NaN, the difference when `expiresAt` is not a date
   * JavaScript can parse. NaN is not less than 0, and every remainder and
   * floor of NaN is NaN.
   */
  function TimeLeftText(difference: Option<int>): (s: string)
    ensures s == NaNText <==> difference.None?
    ensures s == ExpiredText <==> difference.Some? && difference.value < 0
  {
    match difference
    case None => NaNText
    case Some(d) => if d < 0 then ExpiredText else Render(Decompose(d))
  }

  // ---------------------------------------------------------------------
  // Reading the text back: the inverse of Render

  /** A run of digits followed by exactly `suffix`; gives the number and what follows. */
  function ParseField(s: string, suffix: string): Option<(nat, string)> {
    var k := DigitPrefixLength(s);
    if k == 0 || !(suffix <= s[k..]) then None
    else Some((DigitsValue(s[..k]), s[k + |suffix|..]))
  }

  /** Reads "<h>h <m>m <s>s" back into its three numbers. */
  function ParseTimeLeft(s: string): Option<Remaining> {
    match ParseField(s, "h ")
    case None => None
    case Some((h, afterHours)) =>
      match ParseField(afterHours, "m ")
      case None => None
      case Some((m, afterMinutes)) =>
        match ParseField(afterMinutes, "s")
        case None => None
        case Some((sec, tail)) => if tail == [] then Some(Remaining(h, m, sec)) else None
  }

  lemma ParseFieldOfText(n: nat, suffix: string, rest: string)
    requires |suffix| > 0 && !IsDigit(suffix[0])
    ensures ParseField(NatToText(n) + suffix + rest, suffix) == Some((n, rest))
  {
    var d := NatToText(n);
    var s := d + suffix + rest;
    assert s == d + (suffix + rest);
    DigitPrefixOfDigitsThen(d, suffix + rest);
    assert s[..|d|] == d;
    assert s[|d|..] == suffix + rest;
    assert s[|d| + |suffix|..] == rest;
    NatToTextValue(n);
  }

  /** Every countdown text reads back as the numbers it was made from. */
  lemma {:induction false} RenderParses(r: Remaining)
    ensures ParseTimeLeft(Render(r)) == Some(r)
  {
    var h, m, s := NatToText(r.hours), NatToText(r.minutes), NatToText(r.seconds);
    var afterMinutes := s + "s";
    var afterHours := m + "m " + afterMinutes;
    assert Render(r) == h + "h " + afterHours;
    ParseFieldOfText(r.hours, "h ", afterHours);
    ParseFieldOfText(r.minutes, "m ", afterMinutes);
    assert afterMinutes == s + "s" + [];
    ParseFieldOfText(r.seconds, "s", []);
  }

  /** Two different triples never show the same text. */
  lemma RenderInjective(r1: Remaining, r2: Remaining)
    ensures Render(r1) == Render(r2) ==> r1 == r2
  {
    RenderParses(r1);
    RenderParses(r2);
  }

  /** A value timeLeft can hold: its initial "", or one of the texts a tick stores. */
  predicate IsTimeLeftDisplay(s: string) {
    s == "" || s == ExpiredText || s == NaNText ||
    (ParseTimeLeft(s).Some? && InRange(ParseTimeLeft(s).value) && Render(ParseTimeLeft(s).value) == s)
  }

  /** The hours field has no leading zero: a text starting with '0' continues with 'h'. */
  lemma RenderNoLeadingZero(r: Remaining)
    ensures Render(r)[0] == '0' ==> Render(r)[1] == 'h'
  {
    var d := NatToText(r.hours);
    var rest := "h " + NatToText(r.minutes) + "m " + NatToText(r.seconds) + "s";
    assert Render(r) == d + rest;
    if |d| == 1 {
      assert Render(r)[1] == rest[0];
    } else {
      assert Render(r)[0] == d[0];
    }
  }

  /** A text with a leading zero reads as an in-range triple, but no tick ever stores it. */
  lemma LeadingZeroIsNotDisplay()
    ensures !IsTimeLeftDisplay("01h 00m 00s")
  {
    var s := "01h 00m 00s";
    assert s[0] == '0' && s[1] == '1';
    assert s != "" && s != ExpiredText && s != NaNText;
    if ParseTimeLeft(s).Some? {
      RenderNoLeadingZero(ParseTimeLeft(s).value);
    }
  }

  // ---------------------------------------------------------------------
  // Properties of the countdown text

  /** Every tick stores one of the displayable texts, with hours below 24 and minutes and seconds below 60. */
  lemma TimeLeftTextIsDisplay(difference: Option<int>)
    ensures IsTimeLeftDisplay(TimeLeftText(difference))
  {
    if difference.Some? && difference.value >= 0 {
      RenderParses(Decompose(difference.value));
    }
  }

  /** "Expired" is shown exactly for a negative difference. */
  lemma ExpiredExactlyWhenNegative(d: int)
    ensures TimeLeftText(Some(d)) == ExpiredText <==> d < 0
  {
  }

  /** A difference of exactly zero is not expired. */
  lemma ZeroIsNotExpired()
    ensures TimeLeftText(Some(0)) == "0h 0m 0s"
  {
  }

  /** 1 hour, 1 minute and 1 second ahead. */
  lemma OneHourOneMinuteOneSecond()
    ensures TimeLeftText(Some(3661000)) == "1h 1m 1s"
  {
  }

  /** The text means: within the current day, the time left truncated to whole seconds. */
  lemma TimeLeftMeaning(d: int)
    requires d >= 0
    ensures ParseTimeLeft(TimeLeftText(Some(d))).Some?
    ensures var r := ParseTimeLeft(TimeLeftText(Some(d))).value;
      InRange(r) && Millis(r) <= d % MsPerDay < Millis(r) + MsPerSecond
  {
    RenderParses(Decompose(d));
    DecomposeBrackets(d);
  }

  /** Whole days are discarded: d and d plus any number of days show the same text. */
  lemma WholeDaysDropped(d: int, days: nat)
    requires d >= 0
    ensures TimeLeftText(Some(d + days * MsPerDay)) == TimeLeftText(Some(d))
  {
    DecomposeDropsDays(d, days);
  }
}
