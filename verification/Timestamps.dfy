/** Timestamps compared as strings, as the batch validator does, against the instants they denote; and the validator's
    own transition table against the lifecycle policy. */
module Timestamps {
  import opened Wrappers
  import opened Ordering
  import Lifecycle

  // --- calendar ---

  datatype Civil = Civil(year: nat, month: nat, day: nat, hour: nat, minute: nat, second: nat)

  predicate Leap(y: nat) {
    y % 4 == 0 && (y % 100 != 0 || y % 400 == 0)
  }

  function DaysInMonth(y: nat, m: nat): nat {
    if m == 2 then if Leap(y) then 29 else 28
    else if m in {4, 6, 9, 11} then 30
    else 31
  }

  predicate Valid(c: Civil) {
    && c.year <= 9999 && 1 <= c.month <= 12 && 1 <= c.day <= DaysInMonth(c.year, c.month)
    && c.hour <= 23 && c.minute <= 59 && c.second <= 59
  }

  function DaysBeforeMonth(y: nat, m: nat): nat {
    if m <= 1 then 0 else DaysBeforeMonth(y, m - 1) + DaysInMonth(y, m - 1)
  }

  function DaysBeforeYear(y: nat): nat {
    if y == 0 then 0 else DaysBeforeYear(y - 1) + (if Leap(y - 1) then 366 else 365)
  }

  // Seconds since the start of year 0.
  function Seconds(c: Civil): int {
    86400 * (DaysBeforeYear(c.year) + DaysBeforeMonth(c.year, c.month) + c.day)
    + 3600 * c.hour + 60 * c.minute + c.second
  }

  // --- text ---

  function Pad2(n: nat): string
    requires n < 100
  {
    ['0' + (n / 10) as char, '0' + (n % 10) as char]
  }

  // YYYY-MM-DDTHH:MM:SS
  function Local(c: Civil): string
    requires Valid(c)
  {
    Pad2(c.year / 100) + (Pad2(c.year % 100) + ("-" + (Pad2(c.month) + ("-" + (Pad2(c.day)
    + ("T" + (Pad2(c.hour) + (":" + (Pad2(c.minute) + (":" + Pad2(c.second)))))))))))
  }

  predicate Digit(c: char) {
    '0' <= c <= '9'
  }

  // (Z|[+-]\d{2}:\d{2}), with an offset that exists.
  predicate Zone(z: string) {
    z == "Z" ||
    (|z| == 6 && z[0] in {'+', '-'} && Digit(z[1]) && Digit(z[2]) && z[3] == ':' && Digit(z[4]) && Digit(z[5])
     && Number(z[1], z[2]) <= 23 && Number(z[4], z[5]) <= 59)
  }

  function Number(a: char, b: char): nat
    requires Digit(a) && Digit(b)
  {
    10 * (a - '0') as nat + (b - '0') as nat
  }

  function OffsetMinutes(z: string): int
    requires Zone(z)
  {
    if z == "Z" then 0
    else
      var minutes := 60 * Number(z[1], z[2]) + Number(z[4], z[5]);
      if z[0] == '+' then minutes else -minutes
  }

  // The instant a local time in a zone denotes (RFC 3339, section 5.1).
  function Instant(c: Civil, z: string): int
    requires Zone(z)
  {
    Seconds(c) - 60 * OffsetMinutes(z)
  }

  // --- the order of local times ---

  predicate Earlier(a: Civil, b: Civil) {
    a.year < b.year || (a.year == b.year && (
      a.month < b.month || (a.month == b.month && (
        a.day < b.day || (a.day == b.day && (
          a.hour < b.hour || (a.hour == b.hour && (
            a.minute < b.minute || (a.minute == b.minute && a.second < b.second)))))))))
  }

  lemma {:induction false} MonthsAddUp(y: nat, m: nat, n: nat)
    requires 1 <= m < n <= 13
    ensures DaysBeforeMonth(y, m) + DaysInMonth(y, m) <= DaysBeforeMonth(y, n)
    decreases n
  {
    if n == m + 1 {
    } else {
      MonthsAddUp(y, m, n - 1);
    }
  }

  lemma {:induction false} YearLength(y: nat)
    ensures DaysBeforeMonth(y, 13) == if Leap(y) then 366 else 365
  {
    assert DaysBeforeMonth(y, 2) == 31;
    assert DaysBeforeMonth(y, 3) == 31 + DaysInMonth(y, 2);
    assert DaysBeforeMonth(y, 5) == DaysBeforeMonth(y, 3) + 61;
    assert DaysBeforeMonth(y, 7) == DaysBeforeMonth(y, 5) + 61;
    assert DaysBeforeMonth(y, 9) == DaysBeforeMonth(y, 7) + 62;
    assert DaysBeforeMonth(y, 11) == DaysBeforeMonth(y, 9) + 61;
    assert DaysBeforeMonth(y, 13) == DaysBeforeMonth(y, 11) + 61;
  }

  lemma {:induction false} YearsAddUp(y: nat, z: nat)
    requires y < z
    ensures DaysBeforeYear(y) + (if Leap(y) then 366 else 365) <= DaysBeforeYear(z)
    decreases z
  {
    if z == y + 1 {
    } else {
      YearsAddUp(y, z - 1);
    }
  }

  lemma {:induction false} EarlierIsFewerSeconds(a: Civil, b: Civil)
    requires Valid(a) && Valid(b) && Earlier(a, b)
    ensures Seconds(a) < Seconds(b)
  {
    if a.year < b.year {
      YearsAddUp(a.year, b.year);
      YearLength(a.year);
      MonthsAddUp(a.year, a.month, 13);
    } else if a.month < b.month {
      MonthsAddUp(a.year, a.month, b.month);
    }
  }

  lemma {:induction false} SecondsOrder(a: Civil, b: Civil)
    requires Valid(a) && Valid(b)
    ensures Earlier(a, b) <==> Seconds(a) < Seconds(b)
  {
    if Earlier(a, b) {
      EarlierIsFewerSeconds(a, b);
    } else if a != b {
      assert Earlier(b, a);
      EarlierIsFewerSeconds(b, a);
    }
  }

  // --- the order of texts ---

  lemma {:induction false} Pad2Order(m: nat, n: nat)
    requires m < 100 && n < 100
    ensures LexLess(Pad2(m), Pad2(n)) <==> m < n
    ensures Pad2(m) == Pad2(n) <==> m == n
  {
    LexTwo('0' + (m / 10) as char, '0' + (m % 10) as char, '0' + (n / 10) as char, '0' + (n % 10) as char);
    assert m == 10 * (m / 10) + m % 10 && n == 10 * (n / 10) + n % 10;
  }

  lemma {:induction false} LexTwo(a: char, b: char, c: char, d: char)
    ensures LexLess([a, b], [c, d]) <==> a < c || (a == c && b < d)
    ensures [a, b] == [c, d] <==> a == c && b == d
  {
    var s, t := [a, b], [c, d];
    assert s[0] == a && s[1] == b && t[0] == c && t[1] == d;
    assert s[1..] == [b] && t[1..] == [d];
    assert LexLess([b], [d]) <==> b < d by {
      assert [b][1..] == "" && [d][1..] == "";
    }
  }

  // One two-digit field decides unless it is equal.
  lemma {:induction false} FieldDecides(m: nat, n: nat, s: string, t: string)
    requires m < 100 && n < 100
    ensures LexLess(Pad2(m) + s, Pad2(n) + t) <==> m < n || (m == n && LexLess(s, t))
  {
    Pad2Order(m, n);
    if m == n {
      LexPrefix(Pad2(m), s, t);
    } else {
      LexHeads(Pad2(m), Pad2(n), s, t);
    }
  }

  lemma {:induction false} SeparatorSkipped(sep: char, s: string, t: string)
    ensures LexLess([sep] + s, [sep] + t) <==> LexLess(s, t)
  {
    LexPrefix([sep], s, t);
  }

  // The text of the fields from the hour on, of those from the day on, and so on, each followed by the zone.
  function FromMinute(c: Civil, z: string): string
    requires Valid(c)
  {
    Pad2(c.minute) + (":" + (Pad2(c.second) + z))
  }

  function FromDay(c: Civil, z: string): string
    requires Valid(c)
  {
    Pad2(c.day) + ("T" + (Pad2(c.hour) + (":" + FromMinute(c, z))))
  }

  function Stamp(c: Civil, z: string): string
    requires Valid(c)
  {
    Pad2(c.year / 100) + (Pad2(c.year % 100) + ("-" + (Pad2(c.month) + ("-" + FromDay(c, z)))))
  }

  lemma {:induction false} StampIsLocalAndZone(c: Civil, z: string)
    requires Valid(c)
    ensures Stamp(c, z) == Local(c) + z
  {
  }

  lemma {:induction false} MinuteOrder(a: Civil, b: Civil, y: string, z: string)
    requires Valid(a) && Valid(b)
    ensures LexLess(FromMinute(a, y), FromMinute(b, z)) <==>
              a.minute < b.minute || (a.minute == b.minute && (
                a.second < b.second || (a.second == b.second && LexLess(y, z))))
  {
    FieldDecides(a.minute, b.minute, ":" + (Pad2(a.second) + y), ":" + (Pad2(b.second) + z));
    SeparatorSkipped(':', Pad2(a.second) + y, Pad2(b.second) + z);
    FieldDecides(a.second, b.second, y, z);
  }

  lemma {:induction false} DayOrder(a: Civil, b: Civil, y: string, z: string)
    requires Valid(a) && Valid(b)
    ensures LexLess(FromDay(a, y), FromDay(b, z)) <==>
              a.day < b.day || (a.day == b.day && (
                a.hour < b.hour || (a.hour == b.hour && LexLess(FromMinute(a, y), FromMinute(b, z)))))
  {
    var s, t := FromMinute(a, y), FromMinute(b, z);
    FieldDecides(a.day, b.day, "T" + (Pad2(a.hour) + (":" + s)), "T" + (Pad2(b.hour) + (":" + t)));
    SeparatorSkipped('T', Pad2(a.hour) + (":" + s), Pad2(b.hour) + (":" + t));
    FieldDecides(a.hour, b.hour, ":" + s, ":" + t);
    SeparatorSkipped(':', s, t);
  }

  lemma {:induction false} StampOrder(a: Civil, b: Civil, y: string, z: string)
    requires Valid(a) && Valid(b)
    ensures LexLess(Stamp(a, y), Stamp(b, z)) <==> Earlier(a, b) || (a == b && LexLess(y, z))
  {
    var s, t := FromDay(a, y), FromDay(b, z);
    var ms, mt := "-" + (Pad2(a.month) + ("-" + s)), "-" + (Pad2(b.month) + ("-" + t));
    FieldDecides(a.year / 100, b.year / 100, Pad2(a.year % 100) + ms, Pad2(b.year % 100) + mt);
    FieldDecides(a.year % 100, b.year % 100, ms, mt);
    SeparatorSkipped('-', Pad2(a.month) + ("-" + s), Pad2(b.month) + ("-" + t));
    FieldDecides(a.month, b.month, "-" + s, "-" + t);
    SeparatorSkipped('-', s, t);
    DayOrder(a, b, y, z);
    MinuteOrder(a, b, y, z);
    assert a.year == 100 * (a.year / 100) + a.year % 100 && b.year == 100 * (b.year / 100) + b.year % 100;
  }

  // --- the law ---

  // Comparing texts with these two suffixes, in either direction, is comparing the instants.
  ghost predicate TextOrderIsTimeOrder(y: string, z: string)
    requires Zone(y) && Zone(z)
  {
    forall a: Civil, b: Civil :: Valid(a) && Valid(b) ==> OrdersMatch(a, y, b, z)
  }

  ghost predicate OrdersMatch(a: Civil, y: string, b: Civil, z: string)
    requires Zone(y) && Zone(z) && Valid(a) && Valid(b)
  {
    && (LexLess(Local(a) + y, Local(b) + z) <==> Instant(a, y) < Instant(b, z))
    && (LexLess(Local(b) + z, Local(a) + y) <==> Instant(b, z) < Instant(a, y))
  }

  lemma {:induction false} OrdersMatchByFields(a: Civil, y: string, b: Civil, z: string)
    requires Zone(y) && Zone(z) && Valid(a) && Valid(b)
    ensures LexLess(Local(a) + y, Local(b) + z) <==> Seconds(a) < Seconds(b) || (a == b && LexLess(y, z))
  {
    StampIsLocalAndZone(a, y);
    StampIsLocalAndZone(b, z);
    StampOrder(a, b, y, z);
    SecondsOrder(a, b);
  }

  lemma {:induction false} SameZoneMatches(a: Civil, b: Civil, z: string)
    requires Zone(z) && Valid(a) && Valid(b)
    ensures OrdersMatch(a, z, b, z)
  {
    OrdersMatchByFields(a, z, b, z);
    OrdersMatchByFields(b, z, a, z);
    LexTrichotomy(z, z);
  }

  lemma {:induction false} DifferentZonesDisagree(y: string, z: string)
    requires Zone(y) && Zone(z) && y != z
    ensures exists a: Civil, b: Civil :: Valid(a) && Valid(b) && !OrdersMatch(a, y, b, z)
  {
    var noon, after := Civil(2026, 5, 22, 12, 0, 0), Civil(2026, 5, 22, 12, 0, 1);
    assert Seconds(after) == Seconds(noon) + 1;
    if OffsetMinutes(y) > OffsetMinutes(z) {
      OrdersMatchByFields(after, y, noon, z);
      assert !OrdersMatch(after, y, noon, z);
    } else if OffsetMinutes(y) < OffsetMinutes(z) {
      OrdersMatchByFields(after, z, noon, y);
      assert !OrdersMatch(noon, y, after, z);
    } else {
      LexTrichotomy(y, z);
      OrdersMatchByFields(noon, y, noon, z);
      OrdersMatchByFields(noon, z, noon, y);
      assert !OrdersMatch(noon, y, noon, z);
    }
  }

  /** For valid timestamps of the checked shape, string order is chronological order exactly between timestamps that end
      in the same suffix, `Z` for instance; any two different suffixes, even two that denote the same offset, have
      timestamps on which the comparison is wrong. */
  lemma {:induction false} StringOrderIsTimeOrderWhen(y: string, z: string)
    requires Zone(y) && Zone(z)
    ensures TextOrderIsTimeOrder(y, z) <==> y == z
  {
    if y == z {
      forall a: Civil, b: Civil | Valid(a) && Valid(b)
        ensures OrdersMatch(a, y, b, z)
      {
        SameZoneMatches(a, b, z);
      }
    } else {
      DifferentZonesDisagree(y, z);
    }
  }

  // --- validate_incident_record, its temporal checks ---

  datatype OrderError = ResolvedBeforeCreated | UpdatedBeforeCreated

  // A field that is absent or empty is not checked.
  function Present(field: Option<string>): bool {
    field.Some? && field.value != ""
  }

  // The field is this local time with this suffix.
  ghost predicate Denotes(field: Option<string>, c: Civil, z: string) {
    Valid(c) && Zone(z) && field == Some(Local(c) + z)
  }

  lemma {:induction false} TextOrderOfFields(created: Option<string>, later: Option<string>)
    ensures forall c, l, z :: Denotes(created, c, z) && Denotes(later, l, z) ==>
              Present(created) && Present(later)
              && (LexLess(later.value, created.value) <==> Instant(l, z) < Instant(c, z))
  {
    forall c, l, z | Denotes(created, c, z) && Denotes(later, l, z)
      ensures Present(created) && Present(later)
      ensures LexLess(later.value, created.value) <==> Instant(l, z) < Instant(c, z)
    {
      SameZoneMatches(l, c, z);
    }
  }

  /** Between timestamps with the same suffix an error is reported exactly for a time before the creation; a field
      that is absent or empty is never one. */
  method CheckOrdering(createdAt: Option<string>, resolvedAt: Option<string>, updatedAt: Option<string>)
    returns (errors: seq<OrderError>)
    ensures ResolvedBeforeCreated in errors <==>
              && resolvedAt.Some? && createdAt.Some? && resolvedAt.value != "" && createdAt.value != ""
              && LexLess(resolvedAt.value, createdAt.value)
    ensures UpdatedBeforeCreated in errors <==>
              && updatedAt.Some? && createdAt.Some? && updatedAt.value != "" && createdAt.value != ""
              && LexLess(updatedAt.value, createdAt.value)
    ensures forall c, l, z :: Denotes(createdAt, c, z) && Denotes(resolvedAt, l, z) ==>
              (ResolvedBeforeCreated in errors <==> Instant(l, z) < Instant(c, z))
    ensures forall c, l, z :: Denotes(createdAt, c, z) && Denotes(updatedAt, l, z) ==>
              (UpdatedBeforeCreated in errors <==> Instant(l, z) < Instant(c, z))
    ensures |errors| <= 2 && (|errors| == 2 ==> errors == [ResolvedBeforeCreated, UpdatedBeforeCreated])
  {
    TextOrderOfFields(createdAt, resolvedAt);
    TextOrderOfFields(createdAt, updatedAt);
    errors := [];
    if Present(resolvedAt) && Present(createdAt) && LexLess(resolvedAt.value, createdAt.value) {
      errors := errors + [ResolvedBeforeCreated];
    }
    if Present(updatedAt) && Present(createdAt) && LexLess(updatedAt.value, createdAt.value) {
      errors := errors + [UpdatedBeforeCreated];
    }
  }

  /** On timestamps in UTC with `Z`, a check finds exactly the records whose later time lies before their creation. */
  lemma {:induction false} UtcChecksAreReal(created: Civil, later: Civil)
    requires Valid(created) && Valid(later)
    ensures LexLess(Local(later) + "Z", Local(created) + "Z") <==> Seconds(later) < Seconds(created)
  {
    SameZoneMatches(later, created, "Z");
  }

  // --- validate_state_transition ---

  const ALLOWED_LIFECYCLE_TRANSITIONS: map<string, set<string>> := map[
    "OPEN" := {"INVESTIGATING"},
    "INVESTIGATING" := {"MITIGATING", "RESOLVED"},
    "MITIGATING" := {"RESOLVED"},
    "RESOLVED" := {"CLOSED"},
    "CLOSED" := {}
  ]

  function Name(s: Lifecycle.Status): string {
    match s
    case OPEN => "OPEN"
    case INVESTIGATING => "INVESTIGATING"
    case MITIGATING => "MITIGATING"
    case RESOLVED => "RESOLVED"
    case CLOSED => "CLOSED"
  }

  predicate ValidStateTransition(current: string, next: string) {
    && current in ALLOWED_LIFECYCLE_TRANSITIONS
    && next in ALLOWED_LIFECYCLE_TRANSITIONS[current]
  }

  /** The batch validator's policy is strictly stronger than the domain's: it accepts a step exactly if the domain
      allows it and the step enters the next phase or goes from INVESTIGATING to MITIGATING, but is not OPEN to
      MITIGATING. */
  lemma {:induction false} BatchPolicyIsStricter(current: Lifecycle.Status, next: Lifecycle.Status)
    ensures ValidStateTransition(Name(current), Name(next)) <==>
              && Lifecycle.Allowed(current, next)
              && (Lifecycle.Phase(next) == Lifecycle.Phase(current) + 1 || (current.INVESTIGATING? && next.MITIGATING?))
              && !(current.OPEN? && next.MITIGATING?)
  {
    var names := ["OPEN", "INVESTIGATING", "MITIGATING", "RESOLVED", "CLOSED"];
    assert forall i, j :: 0 <= i < j < 5 ==> names[i][0] != names[j][0];
  }
}
