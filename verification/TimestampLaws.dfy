/** Timestamps digit by digit and day by day: what the text of a time says, what a zone does to it, and how days are
    counted. */
module TimestampLaws {
  import Lifecycle
  import opened Timestamps

  function TwoDigits(s: string, i: nat): nat
    requires i + 1 < |s| && '0' <= s[i] <= '9' && '0' <= s[i + 1] <= '9'
  {
    10 * (s[i] as int - '0' as int) + (s[i + 1] as int - '0' as int)
  }

  lemma {:induction false} PadReads(n: nat)
    requires n < 100
    ensures |Pad2(n)| == 2 && '0' <= Pad2(n)[0] <= '9' && '0' <= Pad2(n)[1] <= '9'
    ensures TwoDigits(Pad2(n), 0) == n
  {
    assert n == 10 * (n / 10) + n % 10;
  }

  /** The text of a local time is YYYY-MM-DDTHH:MM:SS, and its digits are those of the fields. */
  lemma {:induction false} LocalReads(c: Civil)
    requires Valid(c)
    ensures var s := Local(c);
            && |s| == 19 && s[4] == s[7] == '-' && s[10] == 'T' && s[13] == s[16] == ':'
            && (forall i :: 0 <= i < 19 && i !in {4, 7, 10, 13, 16} ==> '0' <= s[i] <= '9')
            && 100 * TwoDigits(s, 0) + TwoDigits(s, 2) == c.year
            && TwoDigits(s, 5) == c.month && TwoDigits(s, 8) == c.day
            && TwoDigits(s, 11) == c.hour && TwoDigits(s, 14) == c.minute && TwoDigits(s, 17) == c.second
  {
    PadReads(c.year / 100);
    PadReads(c.year % 100);
    PadReads(c.month);
    PadReads(c.day);
    PadReads(c.hour);
    PadReads(c.minute);
    PadReads(c.second);
  }

  /** A time in a zone ahead of UTC is the instant that many hours and minutes earlier in UTC, one behind it that many
      later. */
  lemma {:induction false} ZonesShift(c: Civil, z: string)
    requires Valid(c) && Zone(z)
    ensures z == "Z" ==> Instant(c, z) == Seconds(c)
    ensures z != "Z" ==>
              var h, m := TwoDigits(z, 1), TwoDigits(z, 4);
              && (z[0] == '+' && h <= c.hour && m <= c.minute ==>
                    Instant(c, z) == Seconds(c.(hour := c.hour - h, minute := c.minute - m)))
              && (z[0] == '-' && h + c.hour < 24 && m + c.minute < 60 ==>
                    Instant(c, z) == Seconds(c.(hour := c.hour + h, minute := c.minute + m)))
              && (z[0] == '+' || z[0] == '-')
  {
  }

  // --- days ---

  // How many of the years before y are multiples of d.
  function Multiples(y: nat, d: nat): nat
    requires d > 0
  {
    (y + d - 1) / d
  }

  /** The years before y have 365 days each and one more for every fourth that is not a hundredth unless a
      four-hundredth. */
  lemma {:induction false} YearsCount(y: nat)
    ensures DaysBeforeYear(y) == 365 * y + Multiples(y, 4) - Multiples(y, 100) + Multiples(y, 400)
  {
    if y == 0 {
    } else {
      YearsCount(y - 1);
      OneMoreYear(y - 1, Leap(y - 1));
    }
  }

  lemma {:induction false} OneMoreYear(y: nat, leap: bool)
    requires leap <==> Leap(y)
    ensures Multiples(y + 1, 4) - Multiples(y + 1, 100) + Multiples(y + 1, 400)
         == Multiples(y, 4) - Multiples(y, 100) + Multiples(y, 400) + if leap then 1 else 0
  {
    OneMore(y, 4);
    OneMore(y, 100);
    OneMore(y, 400);
    Nested(y);
  }

  lemma {:induction false} Nested(y: nat)
    ensures y % 400 == 0 ==> y % 100 == 0
    ensures y % 100 == 0 ==> y % 4 == 0
  {
    NoRest(y, 100, 4);
    NoRest(y, 4, 25);
  }

  lemma {:induction false} NoRest(y: nat, d: nat, e: nat)
    requires (d == 100 && e == 4) || (d == 4 && e == 25)
    ensures y % (d * e) == 0 ==> y % d == 0
  {
    if d == 100 {
      var q := y / 400;
      assert y % 400 == 0 ==> y == 100 * (4 * q);
    } else {
      var q := y / 100;
      assert y % 100 == 0 ==> y == 4 * (25 * q);
    }
  }

  lemma {:induction false} OneMore(y: nat, d: nat)
    requires d == 4 || d == 100 || d == 400
    ensures Multiples(y + 1, d) == Multiples(y, d) + if y % d == 0 then 1 else 0
  {
  }

  const MonthStarts := [0, 31, 59, 90, 120, 151, 181, 212, 243, 273, 304, 334, 365]

  lemma {:induction false} MonthsCount(y: nat, m: nat)
    requires 1 <= m <= 13
    ensures DaysBeforeMonth(y, m) == MonthStarts[m - 1] + if m > 2 && Leap(y) then 1 else 0
  {
    if m == 1 {
    } else {
      MonthsCount(y, m - 1);
    }
  }

  /** Midnight is one second after 23:59:59, also at the end of a month and of a year. */
  lemma {:induction false} MidnightIsNext(y: nat, m: nat, d: nat)
    requires 1 <= m <= 12 && 1 <= d <= DaysInMonth(y, m)
    ensures var next := if d < DaysInMonth(y, m) then Civil(y, m, d + 1, 0, 0, 0)
                        else if m < 12 then Civil(y, m + 1, 1, 0, 0, 0)
                        else Civil(y + 1, 1, 1, 0, 0, 0);
            Seconds(next) == Seconds(Civil(y, m, d, 23, 59, 59)) + 1
  {
    YearLength(y);
  }

  /** From the start of 1970 to the validator's own example, 2026-05-22T14:00:00Z, there are 1779458400 seconds. */
  lemma {:induction false} SinceTheEpoch()
    ensures Seconds(Civil(2026, 5, 22, 14, 0, 0)) - Seconds(Civil(1970, 1, 1, 0, 0, 0)) == 1779458400
  {
    YearsCount(2026);
    YearsCount(1970);
    MonthsCount(2026, 5);
    MonthsCount(1970, 1);
  }

  // --- the batch validator's transitions ---

  /** The validator accepts these five steps and no others, of whatever names. */
  lemma {:induction false} BatchPolicyIs(current: string, next: string)
    ensures ValidStateTransition(current, next) <==>
              (current, next) in {
                ("OPEN", "INVESTIGATING"), ("INVESTIGATING", "MITIGATING"), ("INVESTIGATING", "RESOLVED"),
                ("MITIGATING", "RESOLVED"), ("RESOLVED", "CLOSED")
              }
  {
    assert "OPEN"[0] != "INVESTIGATING"[0] && "OPEN"[0] != "MITIGATING"[0] && "OPEN"[0] != "RESOLVED"[0];
    assert "INVESTIGATING"[0] != "MITIGATING"[0] && "INVESTIGATING"[0] != "RESOLVED"[0];
    assert "MITIGATING"[0] != "RESOLVED"[0] && "CLOSED"[0] == 'C';
  }
}
