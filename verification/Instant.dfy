/** awareInstantKey: RFC 3339 text to an exact count of nanoseconds since the Unix epoch. */
module Instant {
  import opened Wrappers
  import opened Digits
  import opened Calendar

  // The zone is Z, or a sign with hours and minutes.
  datatype Zone = Utc | Offset(east: bool, hours: nat, minutes: nat)

  datatype Fields = Fields(date: Date, hour: nat, minute: nat, second: nat, fraction: string, zone: Zone)

  datatype TimeError = MissingTimezone | InvalidRfc3339

  const NANOSECONDS_PER_SECOND: int := 1_000_000_000
  const SECONDS_PER_DAY: int := 86_400

  predicate Looks(s: string, pattern: string) {
    && |s| == |pattern|
    && forall i :: 0 <= i < |s| ==> if pattern[i] == 'd' then IsDigit(s[i]) else s[i] == pattern[i]
  }

  predicate SignedZone(s: string) {
    Looks(s, "+dd:dd") || Looks(s, "-dd:dd")
  }

  // /(Z|[+-]\d{2}:\d{2})$/
  predicate HasTimezone(s: string) {
    (|s| >= 1 && s[|s| - 1] == 'Z') || (|s| >= 6 && SignedZone(s[|s| - 6..]))
  }

  // The number of leading digits.
  function DigitRun(s: string): (n: nat)
    ensures n <= |s| && AllDigits(s[..n]) && (n < |s| ==> !IsDigit(s[n]))
  {
    if s == "" || !IsDigit(s[0]) then 0 else 1 + DigitRun(s[1..])
  }

  function Number(s: string, from: nat, to: nat): nat
    requires from <= to <= |s|
  {
    if AllDigits(s[from..to]) then Value(s[from..to]) else 0
  }

  function ParseZone(s: string): Option<Zone> {
    if s == "Z" then Some(Utc)
    else if SignedZone(s) then Some(Offset(s[0] == '+', Number(s, 1, 3), Number(s, 4, 6)))
    else None
  }

  // What follows the seconds: an optional fraction of one to nine digits, then the zone.
  function ParseTail(s: string): Option<(string, Zone)> {
    if s != "" && s[0] == '.' then
      var n := DigitRun(s[1..]);
      if n < 1 || n > 9 then None
      else
        var zone := ParseZone(s[1 + n..]);
        if zone.None? then None else Some((s[1..1 + n], zone.value))
    else
      var zone := ParseZone(s);
      if zone.None? then None else Some(("", zone.value))
  }

  const HEAD: string := "dddd-dd-ddTdd:dd:dd"

  // The RFC 3339 pattern with its groups read as numbers.
  function Parse(s: string): Option<Fields> {
    if |s| < 19 || !Looks(s[..19], HEAD) then None
    else
      var tail := ParseTail(s[19..]);
      if tail.None? then None
      else
        Some(Fields(Date(Number(s, 0, 4), Number(s, 5, 7), Number(s, 8, 10)),
                    Number(s, 11, 13), Number(s, 14, 16), Number(s, 17, 19), tail.value.0, tail.value.1))
  }

  predicate InRange(f: Fields) {
    && ValidDate(f.date)
    && f.hour <= 23 && f.minute <= 59 && f.second <= 59
    && (f.zone.Offset? ==> f.zone.hours <= 23 && f.zone.minutes <= 59)
  }

  function OffsetSeconds(z: Zone): int {
    match z
    case Utc => 0
    case Offset(east, hours, minutes) =>
      if east then hours * 3_600 + minutes * 60 else -(hours * 3_600 + minutes * 60)
  }

  function SecondOfDay(f: Fields): int {
    f.hour * 3_600 + f.minute * 60 + f.second
  }

  function LocalSeconds(f: Fields): int {
    DaysSinceUnixEpoch(f.date) * SECONDS_PER_DAY + SecondOfDay(f)
  }

  function Nanoseconds(f: Fields): nat
    requires AllDigits(f.fraction)
  {
    PadEndDigits(f.fraction, 9);
    Value(PadEnd(f.fraction, 9))
  }

  function Key(f: Fields): int
    requires AllDigits(f.fraction)
  {
    (LocalSeconds(f) - OffsetSeconds(f.zone)) * NANOSECONDS_PER_SECOND + Nanoseconds(f)
  }

  lemma ParsedFraction(s: string)
    ensures Parse(s).Some? ==> AllDigits(Parse(s).value.fraction) && |Parse(s).value.fraction| <= 9
  {
    if Parse(s).Some? {
      var t := s[19..];
      if t != "" && t[0] == '.' {
        assert t[1..1 + DigitRun(t[1..])] == t[1..][..DigitRun(t[1..])];
      }
    }
  }

  function AwareInstantKey(s: string): Result<int, TimeError> {
    if !HasTimezone(s) then Err(MissingTimezone)
    else
      var f := Parse(s);
      if f.None? || !InRange(f.value) then Err(InvalidRfc3339)
      else
        ParsedFraction(s);
        Ok(Key(f.value))
  }

  /* ---------- order ---------- */

  lemma NanosecondsAreBounded(f: Fields)
    requires AllDigits(f.fraction) && |f.fraction| <= 9
    ensures 0 <= Nanoseconds(f) < NANOSECONDS_PER_SECOND
  {
    PadEndDigits(f.fraction, 9);
    ValueBound(PadEnd(f.fraction, 9));
    assert Pow10(9) == 1_000_000_000;
  }

  // Lexicographic order of date, time of day and nanoseconds.
  predicate Earlier(f: Fields, g: Fields)
    requires AllDigits(f.fraction) && AllDigits(g.fraction)
  {
    || Before(f.date, g.date)
    || (f.date == g.date &&
        (f.hour < g.hour || (f.hour == g.hour &&
          (f.minute < g.minute || (f.minute == g.minute &&
            (f.second < g.second || (f.second == g.second && Nanoseconds(f) < Nanoseconds(g))))))))
  }

  lemma MixedRadixOrder(a: int, x: int, b: int, y: int, radix: int)
    requires radix == SECONDS_PER_DAY || radix == NANOSECONDS_PER_SECOND
    requires 0 <= x < radix && 0 <= y < radix
    ensures a * radix + x < b * radix + y <==> a < b || (a == b && x < y)
  {
    if radix == SECONDS_PER_DAY {
      assert a * radix == a * 86_400 && b * radix == b * 86_400;
    } else {
      assert a * radix == a * 1_000_000_000 && b * radix == b * 1_000_000_000;
    }
  }

  // At equal offsets the key orders timestamps as their written date, time and fraction do.
  lemma KeyOrderIsChronological(f: Fields, g: Fields)
    requires InRange(f) && InRange(g) && OffsetSeconds(f.zone) == OffsetSeconds(g.zone)
    requires AllDigits(f.fraction) && |f.fraction| <= 9 && AllDigits(g.fraction) && |g.fraction| <= 9
    ensures Key(f) < Key(g) <==> Earlier(f, g)
  {
    NanosecondsAreBounded(f);
    NanosecondsAreBounded(g);
    DayNumbersAreChronological(f.date, g.date);
    if DaysSinceUnixEpoch(f.date) == DaysSinceUnixEpoch(g.date) { DayNumbersAreUnique(f.date, g.date); }
    MixedRadixOrder(DaysSinceUnixEpoch(f.date), SecondOfDay(f), DaysSinceUnixEpoch(g.date), SecondOfDay(g),
                    SECONDS_PER_DAY);
    MixedRadixOrder(LocalSeconds(f) - OffsetSeconds(f.zone), Nanoseconds(f),
                    LocalSeconds(g) - OffsetSeconds(g.zone), Nanoseconds(g), NANOSECONDS_PER_SECOND);
    hide DaysSinceUnixEpoch, Nanoseconds, Before;
  }

  /* ---------- offset and fraction ---------- */

  // The same instant written at another offset.
  function AtZone(f: Fields, zone: Zone): Fields
    requires InRange(f) && LocalSeconds(f) - OffsetSeconds(f.zone) + OffsetSeconds(zone) >= -FIRST_OFFSET * SECONDS_PER_DAY
  {
    var local := LocalSeconds(f) - OffsetSeconds(f.zone) + OffsetSeconds(zone);
    var second := local % SECONDS_PER_DAY;
    Fields(DayAfterFirst(local / SECONDS_PER_DAY + FIRST_OFFSET), second / 3_600, second % 3_600 / 60, second % 60,
           f.fraction, zone)
  }

  // Moving the local time and the offset together, across midnights, months and years if need
  // be, leaves the key unchanged.
  lemma MovingTheOffsetKeepsTheKey(f: Fields, zone: Zone)
    requires InRange(f) && AllDigits(f.fraction)
    requires zone.Offset? ==> zone.hours <= 23 && zone.minutes <= 59
    requires LocalSeconds(f) - OffsetSeconds(f.zone) + OffsetSeconds(zone) >= -FIRST_OFFSET * SECONDS_PER_DAY
    ensures InRange(AtZone(f, zone)) && AtZone(f, zone).zone == zone
    ensures Key(AtZone(f, zone)) == Key(f)
  {
    hide DaysSinceUnixEpoch, DayAfterFirst, ValidDate, PadEnd, Value;
    var local := LocalSeconds(f) - OffsetSeconds(f.zone) + OffsetSeconds(zone);
    CountedDays(local / SECONDS_PER_DAY + FIRST_OFFSET);
    ClockReads(local % SECONDS_PER_DAY);
    assert LocalSeconds(AtZone(f, zone)) == local;
  }

  lemma ClockReads(second: int)
    requires 0 <= second < SECONDS_PER_DAY
    ensures second / 3_600 <= 23 && second % 3_600 / 60 <= 59 && second % 60 <= 59
    ensures second / 3_600 * 3_600 + second % 3_600 / 60 * 60 + second % 60 == second
  {
  }

  lemma {:induction false} DigitRunOf(digits: string, rest: string)
    requires AllDigits(digits) && (rest == "" || !IsDigit(rest[0]))
    ensures DigitRun(digits + rest) == |digits|
  {
    if digits != "" {
      assert (digits + rest)[1..] == digits[1..] + rest;
      DigitRunOf(digits[1..], rest);
    } else {
      assert digits + rest == rest;
    }
  }

  lemma TailWithFraction(fraction: string, zone: string)
    requires AllDigits(fraction) && 1 <= |fraction| <= 9 && ParseZone(zone).Some?
    ensures ParseTail("." + fraction + zone) == Some((fraction, ParseZone(zone).value))
  {
    var s := "." + fraction + zone;
    assert s[1..] == fraction + zone;
    DigitRunOf(fraction, zone);
    assert s[1..1 + |fraction|] == fraction && s[1 + |fraction|..] == zone;
  }

  lemma PaddedFractionsAgree(fraction: string, zeros: nat)
    requires AllDigits(fraction) && |fraction| + zeros <= 9
    ensures PadEnd(fraction + Zeros(zeros), 9) == PadEnd(fraction, 9)
  {
    ZerosConcat(zeros, 9 - |fraction| - zeros);
  }

  lemma SuffixKeepsTimezone(prefix: string, zone: string)
    requires ParseZone(zone).Some?
    ensures HasTimezone(prefix + zone)
  {
    var s := prefix + zone;
    if zone != "Z" { assert s[|s| - 6..] == zone; }
  }

  lemma ParseWithFraction(head: string, fraction: string, zone: string)
    requires |head| == 19 && AllDigits(fraction) && 1 <= |fraction| <= 9 && ParseZone(zone).Some?
    ensures var s := head + "." + fraction + zone;
            && HasTimezone(s)
            && (Parse(s).Some? <==> Looks(head, HEAD))
            && (Parse(s).Some? ==>
                  Parse(s).value == Fields(Date(Number(head, 0, 4), Number(head, 5, 7), Number(head, 8, 10)),
                                           Number(head, 11, 13), Number(head, 14, 16), Number(head, 17, 19),
                                           fraction, ParseZone(zone).value))
  {
    var s := head + "." + fraction + zone;
    SuffixKeepsTimezone(head + "." + fraction, zone);
    TailWithFraction(fraction, zone);
    assert s[..19] == head;
    assert s[19..] == "." + fraction + zone;
    assert s[0..4] == head[0..4] && s[5..7] == head[5..7] && s[8..10] == head[8..10]
        && s[11..13] == head[11..13] && s[14..16] == head[14..16] && s[17..19] == head[17..19];
  }

  lemma ParseWithoutFraction(head: string, zone: string)
    requires |head| == 19 && ParseZone(zone).Some?
    ensures HasTimezone(head + zone)
    ensures Parse(head + zone).Some? <==> Looks(head, HEAD)
    ensures Parse(head + zone).Some? ==>
              Parse(head + zone).value == Fields(Date(Number(head, 0, 4), Number(head, 5, 7), Number(head, 8, 10)),
                                                 Number(head, 11, 13), Number(head, 14, 16), Number(head, 17, 19),
                                                 "", ParseZone(zone).value)
  {
    var s := head + zone;
    SuffixKeepsTimezone(head, zone);
    assert s[..19] == head && s[19..] == zone;
    assert s[0..4] == head[0..4] && s[5..7] == head[5..7] && s[8..10] == head[8..10]
        && s[11..13] == head[11..13] && s[14..16] == head[14..16] && s[17..19] == head[17..19];
  }

  // An empty fraction is written without its point.
  function Dotted(fraction: string): string {
    if fraction == "" then "" else "." + fraction
  }

  lemma ParseWithAnyFraction(head: string, fraction: string, zone: string)
    requires |head| == 19 && AllDigits(fraction) && |fraction| <= 9 && ParseZone(zone).Some?
    ensures var s := head + Dotted(fraction) + zone;
            && HasTimezone(s)
            && (Parse(s).Some? <==> Looks(head, HEAD))
            && (Parse(s).Some? ==>
                  Parse(s).value == Fields(Date(Number(head, 0, 4), Number(head, 5, 7), Number(head, 8, 10)),
                                           Number(head, 11, 13), Number(head, 14, 16), Number(head, 17, 19),
                                           fraction, ParseZone(zone).value))
  {
    hide Parse, Looks, ParseZone, Number, HasTimezone;
    if fraction == "" {
      ParseWithoutFraction(head, zone);
      assert head + Dotted(fraction) + zone == head + zone;
    } else {
      ParseWithFraction(head, fraction, zone);
      assert head + Dotted(fraction) + zone == head + "." + fraction + zone;
    }
  }

  // Padding a fraction with zeros, or adding one of zeros where there is none, changes neither acceptance nor the key.
  lemma PaddingTheFractionKeepsTheKey(head: string, fraction: string, zeros: nat, zone: string)
    requires |head| == 19 && AllDigits(fraction) && |fraction| + zeros <= 9 && ParseZone(zone).Some?
    ensures AwareInstantKey(head + Dotted(fraction + Zeros(zeros)) + zone)
         == AwareInstantKey(head + Dotted(fraction) + zone)
  {
    hide Parse, Looks, ParseZone, Number, DaysSinceUnixEpoch, HasTimezone, ValidDate, Zeros, PadEnd, Value, OffsetSeconds,
         Dotted;
    ParseWithAnyFraction(head, fraction, zone);
    ParseWithAnyFraction(head, fraction + Zeros(zeros), zone);
    PaddedFractionsAgree(fraction, zeros);
  }

  /* ---------- writing a timestamp ---------- */

  function Pad(n: nat, width: nat): string {
    PadStart(ToText(n), width)
  }

  function ZoneText(z: Zone): string {
    match z
    case Utc => "Z"
    case Offset(east, hours, minutes) => (if east then "+" else "-") + Pad(hours, 2) + ":" + Pad(minutes, 2)
  }

  function HeadText(f: Fields): string
    requires f.date.year >= 0 && f.date.month >= 0 && f.date.day >= 0
  {
    HeadOf(Pad(f.date.year, 4), Pad(f.date.month, 2), Pad(f.date.day, 2),
           Pad(f.hour, 2), Pad(f.minute, 2), Pad(f.second, 2))
  }

  function Joined(a: string, separator: char, b: string, c: string): string {
    a + [separator] + b + [separator] + c
  }

  function HeadOf(y: string, m: string, d: string, h: string, n: string, c: string): string {
    Joined(y, '-', m, d) + "T" + Joined(h, ':', n, c)
  }

  function Render(f: Fields): string
    requires f.date.year >= 0 && f.date.month >= 0 && f.date.day >= 0
  {
    HeadText(f) + (if f.fraction == "" then "" else "." + f.fraction) + ZoneText(f.zone)
  }

  lemma {:induction false} TextLength(n: nat, width: nat)
    requires width > 0 && n < Pow10(width)
    ensures |ToText(n)| <= width
  {
    if n >= 10 {
      assert Pow10(1) == 10;
      TextLength(n / 10, width - 1);
    }
  }

  lemma PadReads(n: nat, width: nat)
    requires width > 0 && n < Pow10(width)
    ensures |Pad(n, width)| == width && AllDigits(Pad(n, width)) && Value(Pad(n, width)) == n
  {
    TextLength(n, width);
    TextValue(n);
    PadStartDigits(ToText(n), width);
  }

  lemma OffsetReads(east: bool, hours: string, minutes: string)
    requires |hours| == 2 && |minutes| == 2 && AllDigits(hours) && AllDigits(minutes)
    ensures ParseZone((if east then "+" else "-") + hours + ":" + minutes) ==
            Some(Offset(east, Value(hours), Value(minutes)))
  {
    hide Value, Looks, AllDigits;
    var s := (if east then "+" else "-") + hours + ":" + minutes;
    assert s[1..3] == hours && s[4..6] == minutes;
    assert |s| == 6 && s[0] == (if east then '+' else '-') && s[3] == ':';
    SignedZoneLooks(s);
  }

  lemma SignedZoneLooks(s: string)
    requires |s| == 6 && s[0] in {'+', '-'} && s[3] == ':' && AllDigits(s[1..3]) && AllDigits(s[4..6])
    ensures SignedZone(s) && s != "Z"
  {
    assert s[1] == s[1..3][0] && s[2] == s[1..3][1] && s[4] == s[4..6][0] && s[5] == s[4..6][1];
  }

  lemma ZoneRoundTrip(z: Zone)
    requires z.Offset? ==> z.hours <= 23 && z.minutes <= 59
    ensures ParseZone(ZoneText(z)) == Some(z)
  {
    if z.Offset? {
      assert Pow10(2) == 100;
      PadReads(z.hours, 2);
      PadReads(z.minutes, 2);
      hide Pad, Value, Pow10;
      OffsetReads(z.east, Pad(z.hours, 2), Pad(z.minutes, 2));
    }
  }

  predicate Renderable(f: Fields) {
    InRange(f) && f.date.year <= 9999 && AllDigits(f.fraction) && |f.fraction| <= 9
  }

  lemma PadIsTwoDigits(n: nat)
    requires n < 100
    ensures |Pad(n, 2)| == 2 && AllDigits(Pad(n, 2)) && Value(Pad(n, 2)) == n
  {
    assert Pow10(2) == 100;
    PadReads(n, 2);
  }

  lemma {:induction false} HeadRoundTrip(f: Fields)
    requires Renderable(f)
    ensures var head := HeadText(f);
            && |head| == 19 && Looks(head, HEAD)
            && Number(head, 0, 4) == f.date.year && Number(head, 5, 7) == f.date.month
            && Number(head, 8, 10) == f.date.day && Number(head, 11, 13) == f.hour
            && Number(head, 14, 16) == f.minute && Number(head, 17, 19) == f.second
  {
    assert Pow10(4) == 10_000;
    PadReads(f.date.year, 4);
    PadIsTwoDigits(f.date.month);
    PadIsTwoDigits(f.date.day);
    PadIsTwoDigits(f.hour);
    PadIsTwoDigits(f.minute);
    PadIsTwoDigits(f.second);
    HeadParts(HeadText(f), Pad(f.date.year, 4), Pad(f.date.month, 2), Pad(f.date.day, 2),
              Pad(f.hour, 2), Pad(f.minute, 2), Pad(f.second, 2));
  }

  lemma {:induction false} HeadParts(s: string, y: string, m: string, d: string, h: string, n: string, c: string)
    requires AllDigits(y) && AllDigits(m) && AllDigits(d) && AllDigits(h) && AllDigits(n) && AllDigits(c)
    requires |y| == 4 && |m| == 2 && |d| == 2 && |h| == 2 && |n| == 2 && |c| == 2
    requires s == HeadOf(y, m, d, h, n, c)
    ensures |s| == 19 && Looks(s, HEAD)
    ensures Number(s, 0, 4) == Value(y) && Number(s, 5, 7) == Value(m) && Number(s, 8, 10) == Value(d)
    ensures Number(s, 11, 13) == Value(h) && Number(s, 14, 16) == Value(n) && Number(s, 17, 19) == Value(c)
  {
    hide Looks, Number, Value, AllDigits;
    HeadLooks(s, y, m, d, h, n, c);
    HeadSlices(s, y, m, d, h, n, c);
    NumberOf(s, 0, y);
    NumberOf(s, 5, m);
    NumberOf(s, 8, d);
    NumberOf(s, 11, h);
    NumberOf(s, 14, n);
    NumberOf(s, 17, c);
  }

  lemma NumberOf(s: string, from: nat, part: string)
    requires from + |part| <= |s| && s[from..from + |part|] == part && AllDigits(part)
    ensures Number(s, from, from + |part|) == Value(part)
  {
  }

  lemma JoinedSlices(a: string, separator: char, b: string, c: string)
    ensures var s := Joined(a, separator, b, c);
            && |s| == |a| + |b| + |c| + 2
            && s[..|a|] == a && s[|a| + 1..|a| + 1 + |b|] == b && s[|a| + |b| + 2..] == c
  {
  }

  lemma {:induction false} HeadSlices(s: string, y: string, m: string, d: string, h: string, n: string, c: string)
    requires |y| == 4 && |m| == 2 && |d| == 2 && |h| == 2 && |n| == 2 && |c| == 2
    requires s == HeadOf(y, m, d, h, n, c)
    ensures |s| == 19 && s[0..4] == y && s[5..7] == m && s[8..10] == d
    ensures s[11..13] == h && s[14..16] == n && s[17..19] == c
  {
    var date, clock := Joined(y, '-', m, d), Joined(h, ':', n, c);
    JoinedSlices(y, '-', m, d);
    JoinedSlices(h, ':', n, c);
    hide Joined;
    assert s[..10] == date && s[11..] == clock;
    assert s[0..4] == s[..10][..4] && s[5..7] == s[..10][5..7] && s[8..10] == s[..10][8..];
    assert s[11..13] == s[11..][..2] && s[14..16] == s[11..][3..5] && s[17..19] == s[11..][6..];
  }

  lemma LooksJoined(a: string, separator: char, b: string, c: string, p: string, q: string, r: string)
    requires Looks(a, p) && Looks(b, q) && Looks(c, r) && separator != 'd'
    ensures Looks(Joined(a, separator, b, c), Joined(p, separator, q, r))
  {
  }

  lemma LooksAround(a: string, c: char, b: string, p: string, q: string)
    requires Looks(a, p) && Looks(b, q) && c != 'd'
    ensures Looks(a + [c] + b, p + [c] + q)
  {
  }

  lemma {:induction false} HeadLooks(s: string, y: string, m: string, d: string, h: string, n: string, c: string)
    requires AllDigits(y) && AllDigits(m) && AllDigits(d) && AllDigits(h) && AllDigits(n) && AllDigits(c)
    requires |y| == 4 && |m| == 2 && |d| == 2 && |h| == 2 && |n| == 2 && |c| == 2
    requires s == HeadOf(y, m, d, h, n, c)
    ensures Looks(s, HEAD)
  {
    LooksJoined(y, '-', m, d, "dddd", "dd", "dd");
    LooksJoined(h, ':', n, c, "dd", "dd", "dd");
    LooksAround(Joined(y, '-', m, d), 'T', Joined(h, ':', n, c), "dddd-dd-dd", "dd:dd:dd");
    assert Joined("dddd", '-', "dd", "dd") == "dddd-dd-dd";
    assert Joined("dd", ':', "dd", "dd") == "dd:dd:dd";
    assert "dddd-dd-dd" + ['T'] + "dd:dd:dd" == HEAD;
  }

  // Writing a timestamp and reading it back gives the same fields.
  lemma RenderRoundTrip(f: Fields)
    requires Renderable(f)
    ensures Parse(Render(f)) == Some(f) && AwareInstantKey(Render(f)) == Ok(Key(f))
  {
    hide Parse, HasTimezone, Looks, Number, HeadText, ZoneText, ParseZone, Key;
    HeadRoundTrip(f);
    ZoneRoundTrip(f.zone);
    if f.fraction == "" {
      ParseWithoutFraction(HeadText(f), ZoneText(f.zone));
      assert HeadText(f) + "" == HeadText(f);
    } else {
      ParseWithFraction(HeadText(f), f.fraction, ZoneText(f.zone));
      assert HeadText(f) + ("." + f.fraction) == HeadText(f) + "." + f.fraction;
    }
  }

  // For every accepted timestamp and every offset: the text of the same instant at that offset
  // is accepted with the same key, as long as its year has four digits.
  lemma EveryOffsetNamesTheSameInstant(s: string, zone: Zone)
    requires AwareInstantKey(s).Ok?
    requires zone.Offset? ==> zone.hours <= 23 && zone.minutes <= 59
    requires var f := Parse(s).value;
             && LocalSeconds(f) - OffsetSeconds(f.zone) + OffsetSeconds(zone) >= -FIRST_OFFSET * SECONDS_PER_DAY
             && AtZone(f, zone).date.year <= 9999
    ensures var f := Parse(s).value;
            && InRange(AtZone(f, zone))
            && AwareInstantKey(Render(AtZone(f, zone))) == AwareInstantKey(s)
  {
    var f := Parse(s).value;
    ParsedFraction(s);
    hide Parse, HasTimezone, Key;
    MovingTheOffsetKeepsTheKey(f, zone);
    RenderRoundTrip(AtZone(f, zone));
  }

  /* ---------- what a timestamp means ---------- */

  // Local time east of Greenwich is ahead: its instant is earlier by hours and minutes, west it is later.
  lemma OffsetShiftsTheKey(f: Fields, hours: nat, minutes: nat)
    requires AllDigits(f.fraction)
    ensures Key(f.(zone := Offset(true, hours, minutes))) ==
            Key(f.(zone := Utc)) - (hours * 60 + minutes) * 60 * 1_000_000_000
    ensures Key(f.(zone := Offset(false, hours, minutes))) ==
            Key(f.(zone := Utc)) + (hours * 60 + minutes) * 60 * 1_000_000_000
  {
    var east, west, utc := f.(zone := Offset(true, hours, minutes)), f.(zone := Offset(false, hours, minutes)), f.(zone := Utc);
    assert LocalSeconds(east) == LocalSeconds(utc) && LocalSeconds(west) == LocalSeconds(utc);
    assert Nanoseconds(east) == Nanoseconds(utc) && Nanoseconds(west) == Nanoseconds(utc);
    assert OffsetSeconds(east.zone) == (hours * 60 + minutes) * 60 && OffsetSeconds(west.zone) == -OffsetSeconds(east.zone);
    hide LocalSeconds, Nanoseconds, OffsetSeconds;
  }

  // The ranges of the written numbers.
  predicate HeadInRange(head: string)
    requires |head| == 19
  {
    && Looks(head, "dddd-dd-ddTdd:dd:dd")
    && Number(head, 0, 4) >= 1 && 1 <= Number(head, 5, 7) <= 12
    && 1 <= Number(head, 8, 10) <= DaysInMonth(Number(head, 0, 4), Number(head, 5, 7))
    && Number(head, 11, 13) <= 23 && Number(head, 14, 16) <= 59 && Number(head, 17, 19) <= 59
  }

  // Nanoseconds from the epoch to what head and fraction say, read as UTC.
  function UtcKey(head: string, fraction: string): int
    requires |head| == 19 && AllDigits(fraction) && |fraction| <= 9
  {
    var days := DaysSinceUnixEpoch(Date(Number(head, 0, 4), Number(head, 5, 7), Number(head, 8, 10)));
    (days * 86_400 + Number(head, 11, 13) * 3_600 + Number(head, 14, 16) * 60 + Number(head, 17, 19)) * 1_000_000_000
    + Value(fraction) * Pow10(9 - |fraction|)
  }

  lemma UtcFieldsKey(head: string, fraction: string)
    requires |head| == 19 && AllDigits(fraction) && |fraction| <= 9
    ensures var f := Fields(Date(Number(head, 0, 4), Number(head, 5, 7), Number(head, 8, 10)),
                            Number(head, 11, 13), Number(head, 14, 16), Number(head, 17, 19), fraction, Utc);
            Key(f) == UtcKey(head, fraction)
  {
    hide DaysSinceUnixEpoch, Number, Value, Pow10;
    PadEndDigits(fraction, 9);
    hide PadEnd;
  }

  // Texts in UTC: accepted exactly when every number is in range, with the nanoseconds since the epoch as key.
  lemma UtcTextsAreExact(head: string, fraction: string)
    requires |head| == 19 && AllDigits(fraction) && |fraction| <= 9
    ensures AwareInstantKey(head + Dotted(fraction) + "Z") ==
            if HeadInRange(head) then Ok(UtcKey(head, fraction)) else Err(InvalidRfc3339)
  {
    hide Parse, Looks, Number, DaysSinceUnixEpoch, HasTimezone, Dotted, DaysInMonth, Key, UtcKey;
    ParseWithAnyFraction(head, fraction, "Z");
    UtcFieldsKey(head, fraction);
  }

  // Texts with an offset: the key of the UTC reading, less the offset if it is east and plus it if it is west,
  // for offsets below twenty-four hours of sixty minutes.
  lemma OffsetTextsAreExact(head: string, fraction: string, east: bool, hh: string, mm: string)
    requires |head| == 19 && AllDigits(fraction) && |fraction| <= 9
    requires |hh| == 2 && |mm| == 2 && AllDigits(hh) && AllDigits(mm)
    ensures var shift := (Value(hh) * 60 + Value(mm)) * 60 * 1_000_000_000;
            AwareInstantKey(head + Dotted(fraction) + ((if east then "+" else "-") + hh + ":" + mm)) ==
            if HeadInRange(head) && Value(hh) <= 23 && Value(mm) <= 59 then
              Ok(if east then UtcKey(head, fraction) - shift else UtcKey(head, fraction) + shift)
            else Err(InvalidRfc3339)
  {
    hide Parse, Looks, Number, DaysSinceUnixEpoch, HasTimezone, Dotted, DaysInMonth, Key, UtcKey, Value, ParseZone,
         AllDigits;
    var zone := (if east then "+" else "-") + hh + ":" + mm;
    OffsetReads(east, hh, mm);
    ParseWithAnyFraction(head, fraction, zone);
    UtcFieldsKey(head, fraction);
    var f := Fields(Date(Number(head, 0, 4), Number(head, 5, 7), Number(head, 8, 10)),
                    Number(head, 11, 13), Number(head, 14, 16), Number(head, 17, 19), fraction, Utc);
    OffsetShiftsTheKey(f, Value(hh), Value(mm));
  }

  // Nothing else is accepted: date and time, an optional fraction of up to nine digits, and Z or a signed offset.
  lemma AcceptedTextsHaveTheShape(s: string)
    requires AwareInstantKey(s).Ok?
    ensures |s| >= 20
    ensures exists fraction, zone ::
              && AllDigits(fraction) && |fraction| <= 9 && s == s[..19] + Dotted(fraction) + zone
              && (zone == "Z" || (|zone| == 6 && zone[0] in {'+', '-'} && zone[3] == ':'
                                  && AllDigits(zone[1..3]) && AllDigits(zone[4..6])))
  {
    hide DaysSinceUnixEpoch, ValidDate, Key, Value;
    var tail := s[19..];
    assert Parse(s).Some?;
    var (fraction, zone) := TailParts(tail);
    assert s == s[..19] + tail;
    assert s == s[..19] + Dotted(fraction) + zone;
  }

  // The fraction and the zone of an accepted tail, as texts.
  function TailParts(t: string): (r: (string, string))
    requires ParseTail(t).Some?
    ensures t == Dotted(r.0) + r.1 && AllDigits(r.0) && |r.0| <= 9
    ensures r.1 == "Z" || (|r.1| == 6 && r.1[0] in {'+', '-'} && r.1[3] == ':'
                           && AllDigits(r.1[1..3]) && AllDigits(r.1[4..6]))
  {
    hide Value, Number;
    if t != "" && t[0] == '.' then
      var n := DigitRun(t[1..]);
      assert t == "." + t[1..1 + n] + t[1 + n..];
      assert t[1..1 + n] == t[1..][..n];
      ZoneShape(t[1 + n..]);
      (t[1..1 + n], t[1 + n..])
    else
      ZoneShape(t);
      assert t == Dotted("") + t;
      ("", t)
  }

  lemma ZoneShape(zone: string)
    requires ParseZone(zone).Some?
    ensures zone == "Z" || (|zone| == 6 && zone[0] in {'+', '-'} && zone[3] == ':'
                            && AllDigits(zone[1..3]) && AllDigits(zone[4..6]))
  {
    hide Number;
    if zone != "Z" {
      assert |zone| == 6 && IsDigit(zone[1]) && IsDigit(zone[2]) && IsDigit(zone[4]) && IsDigit(zone[5]);
      assert zone[1..3] == [zone[1], zone[2]] && zone[4..6] == [zone[4], zone[5]];
    }
  }

  // A text without any zone is told apart from one that is malformed otherwise.
  lemma MissingZoneIsNamed(s: string)
    ensures AwareInstantKey(s) == Err(MissingTimezone) <==>
              !((|s| >= 1 && s[|s| - 1] == 'Z')
                || (|s| >= 6 && s[|s| - 6] in {'+', '-'} && s[|s| - 3] == ':' && AllDigits(s[|s| - 5..|s| - 3])
                    && AllDigits(s[|s| - 2..])))
  {
    hide Parse, Key, ValidDate;
    if |s| >= 6 {
      var zone := s[|s| - 6..];
      assert zone[0] == s[|s| - 6] && zone[3] == s[|s| - 3];
      assert zone[1..3] == s[|s| - 5..|s| - 3] && zone[4..6] == s[|s| - 2..];
      SignedZoneExactly(zone);
    }
  }

  lemma SignedZoneExactly(zone: string)
    requires |zone| == 6
    ensures SignedZone(zone) <==>
              zone[0] in {'+', '-'} && zone[3] == ':' && AllDigits(zone[1..3]) && AllDigits(zone[4..6])
  {
    assert zone[1..3] == [zone[1], zone[2]] && zone[4..6] == [zone[4], zone[5]];
    if zone[0] in {'+', '-'} && zone[3] == ':' && AllDigits(zone[1..3]) && AllDigits(zone[4..6]) {
      SignedZoneLooks(zone);
    }
  }

  // The epoch is zero.
  lemma EpochText()
    ensures AwareInstantKey("1970-01-01T00:00:00Z") == Ok(0)
  {
    hide Looks, Number, DaysSinceUnixEpoch, DaysInMonth, AwareInstantKey, Value;
    var head := "1970-01-01T00:00:00";
    EpochHead();
    EpochNumbers();
    EpochIsZero();
    UtcTextsAreExact(head, "");
    assert head + Dotted("") + "Z" == "1970-01-01T00:00:00Z";
  }

  lemma EpochHead()
    ensures var head := "1970-01-01T00:00:00";
            && Looks(head, "dddd-dd-ddTdd:dd:dd") && DaysInMonth(1970, 1) == 31
            && Number(head, 0, 4) == 1970 && Number(head, 5, 7) == 1 && Number(head, 8, 10) == 1
            && Number(head, 11, 13) == 0 && Number(head, 14, 16) == 0 && Number(head, 17, 19) == 0
  {
    hide Value;
    var head := "1970-01-01T00:00:00";
    assert head[0..4] == "1970" && head[5..7] == "01" && head[8..10] == "01";
    assert head[11..13] == "00" && head[14..16] == "00" && head[17..19] == "00";
    EpochNumbers();
  }

  lemma EpochNumbers()
    ensures AllDigits("1970") && Value("1970") == 1970
    ensures AllDigits("01") && Value("01") == 1
    ensures AllDigits("00") && Value("00") == 0
    ensures Value("") == 0
  {
    assert "1970"[..3] == "197" && "197"[..2] == "19" && "19"[..1] == "1" && "1"[..0] == "";
    assert Value("1") == 1 && Value("19") == 19 && Value("197") == 197;
    assert "01"[..1] == "0" && "00"[..1] == "0" && "0"[..0] == "";
    assert Value("0") == 0;
  }
}
