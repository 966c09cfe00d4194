/**
  RFC 3339 timestamps of the canonical envelope (section 5.6 of RFC 3339): the
  formatter, the parser with its pattern, and every spelling of one instant.
 */
module Timestamp {
  import opened Basics
  import opened Calendar
  import opened Decimal
  import JsonText

  const EPOCH_ORDINAL := 719163
  const MAX_ORDINAL := 3652059
  const DAY_MS := 86400000
  const MIN_MS := (1 - EPOCH_ORDINAL) * DAY_MS
  const MAX_MS := (MAX_ORDINAL - EPOCH_ORDINAL + 1) * DAY_MS - 1

  // ----- numbers of a fixed width

  predicate IsNumber(s: string, width: nat) { |s| == width && AllDigits(s) }

  function Power10(w: nat): (r: nat)
    ensures r > 0
  {
    if w == 0 then 1 else 10 * Power10(w - 1)
  }

  /** Python's `f"{n:0{w}d}"` for a number of at most `w` digits. */
  function Pad(n: nat, w: nat): (r: string)
    ensures IsNumber(r, w)
  {
    if w == 0 then "" else Pad(n / 10, w - 1) + [Digit(n % 10)]
  }

  lemma {:induction false} NumOfPad(n: nat, w: nat)
    requires n < Power10(w)
    ensures Num(Pad(n, w)) == n
  {
    if w > 0 {
      NumOfPad(n / 10, w - 1);
      assert Pad(n, w)[..w - 1] == Pad(n / 10, w - 1);
    }
  }

  lemma {:induction false} PadOfNum(s: string)
    requires AllDigits(s)
    ensures Num(s) < Power10(|s|) && Pad(Num(s), |s|) == s
  {
    if s != "" {
      PadOfNum(s[..|s| - 1]);
      assert s == s[..|s| - 1] + [s[|s| - 1]];
    }
  }

  // ----- formatting

  function FormatTimestamp(ms: int): Option<string> {
    var seconds, millis := ms / 1000, ms % 1000;
    var ordinal := EPOCH_ORDINAL + seconds / 86400;
    if !(1 <= ordinal <= MAX_ORDINAL) then None
    else
      YearInRange(ordinal);
      var d, left := DateOf(ordinal), seconds % 86400;
      OrdinalOfDate(ordinal);
      var text := Pad(d.year, 4) + "-" + Pad(d.month, 2) + "-" + Pad(d.day, 2) + "T"
        + Pad(left / 3600, 2) + ":" + Pad(left / 60 % 60, 2) + ":" + Pad(left % 60, 2);
      Some(if millis == 0 then text + "Z" else text + "." + Pad(millis, 3) + "Z")
  }

  lemma YearInRange(ordinal: int)
    ensures 1 <= ordinal <= MAX_ORDINAL <==> 1 <= DateOf(ordinal).year <= 9999
  {
    hide YearOf, DateOf, DaysBeforeYear;
    OrdinalOfDate(ordinal);
    var y := YearOf(ordinal);
    YearContains(ordinal);
    YearEnds();
    if y < 1 {
      YearsAscend(y + 1, 1);
    } else if y > 9999 {
      YearsAscend(10000, y);
    } else {
      YearsAscend(1, y);
      YearsAscend(y + 1, 10000);
    }
  }

  lemma YearEnds()
    ensures DaysBeforeYear(1) == 0 && DaysBeforeYear(10000) == MAX_ORDINAL
  {
  }

  // ----- the pattern

  datatype Zone = Zulu(letter: char) | Offset(sign: char, hours: string, minutes: string)

  /** The groups of the pattern. */
  datatype Stamp = Stamp(
    year: string, month: string, day: string, separator: char,
    hour: string, minute: string, second: string,
    fraction: Option<string>, zone: Zone)

  function ZoneOf(rest: string): Option<Zone> {
    if rest == "Z" || rest == "z" then Some(Zulu(rest[0]))
    else if |rest| == 6 && (rest[0] == '+' || rest[0] == '-') && rest[3] == ':'
      && AllDigits(rest[1..3]) && AllDigits(rest[4..6]) then
      Some(Offset(rest[0], rest[1..3], rest[4..6]))
    else None
  }

  /** An optional fraction and the zone, up to the end of the text. */
  function TailOf(rest: string): Option<(Option<string>, Zone)> {
    if JsonText.StartsWith(rest, 0, '.') then
      var end := JsonText.DigitsEnd(rest, 1);
      if end == 1 then None
      else
        var zone :- ZoneOf(rest[end..]);
        Some((Some(rest[1..end]), zone))
    else
      var zone :- ZoneOf(rest);
      Some((None, zone))
  }

  predicate IsHead(t: string)
    requires |t| == 19
  {
    && AllDigits(t[..4]) && t[4] == '-' && AllDigits(t[5..7]) && t[7] == '-' && AllDigits(t[8..10])
    && (t[10] == 'T' || t[10] == 't')
    && AllDigits(t[11..13]) && t[13] == ':' && AllDigits(t[14..16]) && t[16] == ':' && AllDigits(t[17..19])
  }

  function Match(text: string): Option<Stamp> {
    if |text| < 19 || !IsHead(text[..19]) then None
    else
      var t := text[..19];
      var (fraction, zone) :- TailOf(text[19..]);
      Some(Stamp(t[..4], t[5..7], t[8..10], t[10], t[11..13], t[14..16], t[17..19], fraction, zone))
  }

  // ----- parsing

  /** The offset in minutes, if it is one. */
  function OffsetMinutes(zone: Zone): Option<int>
    requires zone.Offset? ==> AllDigits(zone.hours) && AllDigits(zone.minutes)
  {
    if zone.Zulu? then Some(0)
    else if Num(zone.hours) > 23 || Num(zone.minutes) > 59 then None
    else
      var minutes := Num(zone.hours) * 60 + Num(zone.minutes);
      Some(if zone.sign == '+' then minutes else -minutes)
  }

  /** The first three digits of a fraction, filled up with zeros on the right. */
  function Millis(fraction: Option<string>): int
    requires fraction.Some? ==> AllDigits(fraction.value)
  {
    var digits := if fraction.None? then "" else if |fraction.value| <= 3 then fraction.value else fraction.value[..3];
    Num(digits + seq(3 - |digits|, _ => '0'))
  }

  /** What Python's `datetime` accepts: no year 0 and no leap second. */
  predicate IsDateTime(d: Date, hour: int, minute: int, second: int) {
    1 <= d.year <= 9999 && Valid(d) && 0 <= hour <= 23 && 0 <= minute <= 59 && 0 <= second <= 59
  }

  function Seconds(d: Date, hour: int, minute: int, second: int): int
    requires Valid(d)
  {
    (((Ordinal(d) - EPOCH_ORDINAL) * 24 + hour) * 60 + minute) * 60 + second
  }

  function Instant(s: Stamp): Option<int>
    requires WellFormed(s)
  {
    var d := Date(Num(s.year), Num(s.month), Num(s.day));
    var hour, minute, second := Num(s.hour), Num(s.minute), Num(s.second);
    if !IsDateTime(d, hour, minute, second) then None
    else
      var offset :- OffsetMinutes(s.zone);
      var ms := (Seconds(d, hour, minute, second) - offset * 60) * 1000 + Millis(s.fraction);
      if MIN_MS <= ms <= MAX_MS then Some(ms) else None
  }

  function ParseTimestamp(text: string): Option<int> {
    MatchWellFormed(text);
    var s :- Match(text);
    Instant(s)
  }

  // ----- what the pattern matches

  predicate WellFormedZone(z: Zone) {
    match z
    case Zulu(letter) => letter == 'Z' || letter == 'z'
    case Offset(sign, hours, minutes) => (sign == '+' || sign == '-') && IsNumber(hours, 2) && IsNumber(minutes, 2)
  }

  predicate WellFormedFraction(f: Option<string>) { f.Some? ==> f.value != "" && AllDigits(f.value) }

  predicate WellFormed(s: Stamp) {
    && IsNumber(s.year, 4) && IsNumber(s.month, 2) && IsNumber(s.day, 2)
    && (s.separator == 'T' || s.separator == 't')
    && IsNumber(s.hour, 2) && IsNumber(s.minute, 2) && IsNumber(s.second, 2)
    && WellFormedFraction(s.fraction) && WellFormedZone(s.zone)
  }

  /** Three groups with a character between each. */
  function Joined(a: string, b: string, c: string, between: char): string { a + ([between] + (b + ([between] + c))) }

  function RenderHead(s: Stamp): string {
    Joined(s.year, s.month, s.day, '-') + ([s.separator] + Joined(s.hour, s.minute, s.second, ':'))
  }

  function RenderZone(z: Zone): string {
    match z
    case Zulu(letter) => [letter]
    case Offset(sign, hours, minutes) => [sign] + hours + ":" + minutes
  }

  function RenderTail(fraction: Option<string>, zone: Zone): string {
    (if fraction.None? then "" else "." + fraction.value) + RenderZone(zone)
  }

  function Render(s: Stamp): string { RenderHead(s) + RenderTail(s.fraction, s.zone) }

  lemma ZoneIff(rest: string, z: Zone)
    ensures ZoneOf(rest) == Some(z) <==> WellFormedZone(z) && rest == RenderZone(z)
  {
    if ZoneOf(rest) == Some(z) && z.Offset? {
      assert rest == [rest[0]] + rest[1..3] + ":" + rest[4..6];
    }
    if WellFormedZone(z) && rest == RenderZone(z) && z.Offset? {
      assert rest[1..3] == z.hours && rest[4..6] == z.minutes;
    }
  }

  /** A run of digits before anything else. */
  lemma {:induction false} RunOfDigits(text: string, at: nat, end: nat)
    requires at <= end <= |text| && (forall i | at <= i < end :: IsDigit(text[i]))
    requires end < |text| ==> !IsDigit(text[end])
    ensures JsonText.DigitsEnd(text, at) == end
    decreases end - at
  {
    if at < end {
      RunOfDigits(text, at + 1, end);
    }
  }

  lemma {:induction false} DigitsEndIsRun(text: string, at: nat)
    requires at <= |text|
    ensures forall i | at <= i < JsonText.DigitsEnd(text, at) :: IsDigit(text[i])
    decreases |text| - at
  {
    if at < |text| && IsDigit(text[at]) {
      DigitsEndIsRun(text, at + 1);
    }
  }

  lemma TailRead(rest: string)
    requires TailOf(rest).Some?
    ensures var (fraction, zone) := TailOf(rest).value;
      WellFormedFraction(fraction) && WellFormedZone(zone) && rest == RenderTail(fraction, zone)
  {
    hide ZoneOf, JsonText.DigitsEnd, RenderZone, WellFormedZone;
    if JsonText.StartsWith(rest, 0, '.') {
      var end := JsonText.DigitsEnd(rest, 1);
      DigitsEndIsRun(rest, 1);
      var zone := ZoneOf(rest[end..]).value;
      ZoneIff(rest[end..], zone);
      assert rest == "." + rest[1..end] + rest[end..];
    } else {
      var zone := ZoneOf(rest).value;
      ZoneIff(rest, zone);
      assert rest == "" + rest;
    }
  }

  lemma ZoneBegins(z: Zone)
    requires WellFormedZone(z)
    ensures RenderZone(z) != "" && !IsDigit(RenderZone(z)[0]) && RenderZone(z)[0] != '.'
  {
  }

  lemma TailRendered(fraction: Option<string>, zone: Zone)
    requires WellFormedFraction(fraction) && WellFormedZone(zone)
    ensures TailOf(RenderTail(fraction, zone)) == Some((fraction, zone))
  {
    hide ZoneOf, JsonText.DigitsEnd, RenderZone, WellFormedZone;
    var rest, tail := RenderTail(fraction, zone), RenderZone(zone);
    ZoneBegins(zone);
    ZoneIff(tail, zone);
    if fraction.Some? {
      var end := 1 + |fraction.value|;
      assert rest == "." + fraction.value + tail;
      assert rest[1..end] == fraction.value && rest[end..] == tail;
      assert forall i | 1 <= i < end :: rest[i] == fraction.value[i - 1];
      assert rest[end] == tail[0];
      RunOfDigits(rest, 1, end);
    } else {
      assert rest == tail;
    }
  }

  lemma JoinedParts(a: string, b: string, c: string, between: char)
    ensures var t := Joined(a, b, c, between); var m, n := |a| + 1, |a| + |b| + 2;
      && |t| == n + |c| && t[..m - 1] == a && t[m - 1] == between && t[m..n - 1] == b && t[n - 1] == between && t[n..] == c
  {
    var tail := [between] + c;
    var rest := [between] + (b + tail);
    var t := a + rest;
    assert t[|a|..] == rest && t[..|a|] == a;
    assert rest[1..] == b + tail;
    assert (b + tail)[..|b|] == b && (b + tail)[|b|..] == tail;
    assert t[|a| + 1..] == rest[1..];
    assert t[|a| + 1..|a| + 1 + |b|] == rest[1..][..|b|];
    assert t[|a| + 1 + |b|..] == tail;
  }

  lemma HeadOfRendered(s: Stamp)
    requires WellFormed(s)
    ensures var t := RenderHead(s);
      |t| == 19 && IsHead(t) && t[..4] == s.year && t[5..7] == s.month && t[8..10] == s.day && t[10] == s.separator
      && t[11..13] == s.hour && t[14..16] == s.minute && t[17..19] == s.second
  {
    hide Joined, WellFormedFraction, WellFormedZone, AllDigits;
    var t := RenderHead(s);
    var d, h := Joined(s.year, s.month, s.day, '-'), Joined(s.hour, s.minute, s.second, ':');
    JoinedParts(s.year, s.month, s.day, '-');
    JoinedParts(s.hour, s.minute, s.second, ':');
    assert t[..10] == d && t[11..] == h;
    assert t[..4] == d[..4] && t[5..7] == d[5..7] && t[8..10] == d[8..10];
    assert t[11..13] == h[0..2] && t[14..16] == h[3..5] && t[17..19] == h[6..8];
    assert t[4] == d[4] && t[7] == d[7] && t[13] == h[2] && t[16] == h[5];
    assert t[..4] == s.year && t[5..7] == s.month && t[8..10] == s.day;
    assert t[11..13] == s.hour && t[14..16] == s.minute && t[17..19] == s.second;
  }

  lemma JoinedIs(t: string, between: char, k: nat)
    requires |t| == k + 6 && t[k] == between && t[k + 3] == between
    ensures Joined(t[..k], t[k + 1..k + 3], t[k + 4..k + 6], between) == t
  {
  }

  lemma HeadRendered(t: string, s: Stamp)
    requires |t| == 19 && IsHead(t)
    requires s.year == t[..4] && s.month == t[5..7] && s.day == t[8..10] && s.separator == t[10]
    requires s.hour == t[11..13] && s.minute == t[14..16] && s.second == t[17..19]
    ensures RenderHead(s) == t
  {
    hide Joined, AllDigits;
    var d, h := t[..10], t[11..];
    assert d[..4] == t[..4] && d[5..7] == t[5..7] && d[8..10] == t[8..10];
    assert h[..2] == t[11..13] && h[3..5] == t[14..16] && h[6..8] == t[17..19];
    JoinedIs(d, '-', 4);
    JoinedIs(h, ':', 2);
    assert t == d + ([t[10]] + h);
  }

  lemma MatchWellFormed(text: string)
    ensures Match(text).Some? ==> WellFormed(Match(text).value) && Render(Match(text).value) == text
  {
    hide TailOf, RenderHead, IsHead, RenderTail;
    if Match(text).Some? {
      var s := Match(text).value;
      var (fraction, zone) := TailOf(text[19..]).value;
      assert fraction == s.fraction && zone == s.zone;
      TailRead(text[19..]);
      HeadRendered(text[..19], s);
      HeadFields(text[..19]);
      assert text == text[..19] + text[19..];
    }
  }

  lemma HeadFields(t: string)
    requires |t| == 19 && IsHead(t)
    ensures AllDigits(t[..4]) && AllDigits(t[5..7]) && AllDigits(t[8..10]) && (t[10] == 'T' || t[10] == 't')
    ensures AllDigits(t[11..13]) && AllDigits(t[14..16]) && AllDigits(t[17..19])
  {
  }

  /** The pattern matches what is rendered from well-formed groups, and nothing else. */
  lemma MatchIff(text: string, s: Stamp)
    ensures Match(text) == Some(s) <==> WellFormed(s) && text == Render(s)
  {
    hide TailOf, RenderHead, IsHead, RenderTail;
    MatchWellFormed(text);
    if WellFormed(s) && text == Render(s) {
      HeadOfRendered(s);
      assert text[..19] == RenderHead(s) && text[19..] == RenderTail(s.fraction, s.zone);
      TailRendered(s.fraction, s.zone);
    }
  }

  // ----- clock fields of an instant, both ways

  lemma ClockSplits(left: int)
    requires 0 <= left < 86400
    ensures 0 <= left / 3600 <= 23 && 0 <= left / 60 % 60 <= 59 && 0 <= left % 60 <= 59
    ensures (left / 3600 * 60 + left / 60 % 60) * 60 + left % 60 == left
  {
    assert left / 3600 == left / 60 / 60;
  }

  lemma ClockUnique(days: int, hour: int, minute: int, second: int)
    requires 0 <= hour <= 23 && 0 <= minute <= 59 && 0 <= second <= 59
    ensures var seconds := ((days * 24 + hour) * 60 + minute) * 60 + second;
      && seconds / 86400 == days && seconds % 86400 / 3600 == hour
      && seconds % 86400 / 60 % 60 == minute && seconds % 86400 % 60 == second
  {
    var left := (hour * 60 + minute) * 60 + second;
    var seconds := days * 86400 + left;
    assert seconds / 86400 == days && seconds % 86400 == left;
    assert left / 60 == hour * 60 + minute;
    assert left / 3600 == left / 60 / 60;
  }

  /** How an instant may be written apart from the digits its clock fixes. */
  datatype Style = Style(separator: char, fraction: Option<string>, zone: Zone)

  predicate LegalStyle(st: Style) {
    && (st.separator == 'T' || st.separator == 't')
    && WellFormedFraction(st.fraction) && WellFormedZone(st.zone) && OffsetMinutes(st.zone).Some?
  }

  /** The wall clock at the style's offset, in milliseconds. */
  function Local(ms: int, st: Style): int
    requires LegalStyle(st)
  {
    ms + OffsetMinutes(st.zone).value * 60000
  }

  /** The groups that write a wall clock in a style. */
  function Groups(local: int, st: Style): Stamp
    requires MIN_MS <= local <= MAX_MS
  {
    OrdinalInRange(local);
    var d, left := DateOf(EPOCH_ORDINAL + local / 1000 / 86400), local / 1000 % 86400;
    Stamp(Pad(d.year, 4), Pad(d.month, 2), Pad(d.day, 2), st.separator,
      Pad(left / 3600, 2), Pad(left / 60 % 60, 2), Pad(left % 60, 2), st.fraction, st.zone)
  }

  lemma OrdinalInRange(local: int)
    ensures var ordinal := EPOCH_ORDINAL + local / 1000 / 86400; var d := DateOf(ordinal);
      && (1 <= ordinal <= MAX_ORDINAL <==> MIN_MS <= local <= MAX_MS)
      && Valid(d) && Ordinal(d) == ordinal
      && (MIN_MS <= local <= MAX_MS <==> 1 <= d.year <= 9999)
  {
    hide DateOf, Ordinal, Valid;
    var ordinal := EPOCH_ORDINAL + local / 1000 / 86400;
    YearInRange(ordinal);
    OrdinalOfDate(ordinal);
  }

  lemma GroupsWellFormed(local: int, st: Style)
    requires MIN_MS <= local <= MAX_MS && LegalStyle(st)
    ensures WellFormed(Groups(local, st))
  {
    hide DateOf, Pad, OffsetMinutes;
    OrdinalInRange(local);
  }

  lemma NumOfPads()
    ensures forall n: nat | n < 100 :: Num(Pad(n, 2)) == n
    ensures forall n: nat | n < 10000 :: Num(Pad(n, 4)) == n
  {
    assert Power10(2) == 100;
    assert Power10(4) == 10000;
    forall n: nat | n < 100
      ensures Num(Pad(n, 2)) == n
    {
      NumOfPad(n, 2);
    }
    forall n: nat | n < 10000
      ensures Num(Pad(n, 4)) == n
    {
      NumOfPad(n, 4);
    }
  }

  /** The groups of a wall clock are digits for its date and time. */
  lemma GroupsNumbers(local: int, st: Style)
    requires MIN_MS <= local <= MAX_MS && LegalStyle(st)
    ensures WellFormed(Groups(local, st))
    ensures var s := Groups(local, st); var d := Date(Num(s.year), Num(s.month), Num(s.day));
      && IsDateTime(d, Num(s.hour), Num(s.minute), Num(s.second))
      && Seconds(d, Num(s.hour), Num(s.minute), Num(s.second)) == local / 1000
  {
    hide DateOf, Ordinal, Pad, Num, OffsetMinutes;
    GroupsWellFormed(local, st);
    OrdinalInRange(local);
    NumOfPads();
    ClockSplits(local / 1000 % 86400);
  }

  lemma Thousands(seconds: int, millis: int)
    requires 0 <= millis < 1000
    ensures (seconds * 1000 + millis) / 1000 == seconds && (seconds * 1000 + millis) % 1000 == millis
  {
  }

  lemma InstantStep(s: Stamp, offset: int)
    requires WellFormed(s) && OffsetMinutes(s.zone) == Some(offset)
    ensures var d := Date(Num(s.year), Num(s.month), Num(s.day));
      IsDateTime(d, Num(s.hour), Num(s.minute), Num(s.second)) ==>
        (var ms := (Seconds(d, Num(s.hour), Num(s.minute), Num(s.second)) - offset * 60) * 1000 + Millis(s.fraction);
        Instant(s) == if MIN_MS <= ms <= MAX_MS then Some(ms) else None)
  {
  }

  /** They stand for the instant that it shows. */
  lemma GroupsMean(ms: int, st: Style)
    requires LegalStyle(st) && MIN_MS <= ms <= MAX_MS && MIN_MS <= Local(ms, st) <= MAX_MS
    requires Millis(st.fraction) == ms % 1000
    ensures WellFormed(Groups(Local(ms, st), st)) && Instant(Groups(Local(ms, st), st)) == Some(ms)
  {
    hide Num, Millis, OffsetMinutes, Seconds, IsDateTime, WellFormed, Instant;
    var local, offset := Local(ms, st), OffsetMinutes(st.zone).value;
    GroupsNumbers(local, st);
    InstantStep(Groups(local, st), offset);
    Thousands(ms / 1000 + offset * 60, ms % 1000);
  }

  /** And groups that stand for an instant are its wall clock in their own style. */
  lemma MeaningGroups(s: Stamp)
    requires WellFormed(s) && Instant(s).Some?
    ensures var st := Style(s.separator, s.fraction, s.zone); var ms := Instant(s).value;
      && LegalStyle(st) && MIN_MS <= ms <= MAX_MS && MIN_MS <= Local(ms, st) <= MAX_MS
      && Millis(st.fraction) == ms % 1000 && Groups(Local(ms, st), st) == s
  {
    hide DateOf, Ordinal, Pad, Num, Millis, OffsetMinutes;
    var st, ms := Style(s.separator, s.fraction, s.zone), Instant(s).value;
    var d := Date(Num(s.year), Num(s.month), Num(s.day));
    var seconds := Seconds(d, Num(s.hour), Num(s.minute), Num(s.second));
    MillisBounded(s.fraction);
    Thousands(seconds, Millis(s.fraction));
    Thousands(seconds - OffsetMinutes(s.zone).value * 60, Millis(s.fraction));
    assert Local(ms, st) == seconds * 1000 + Millis(s.fraction);
    DateOfOrdinal(d);
    OrdinalInRange(Local(ms, st)) by {
      ClockUnique(Ordinal(d) - EPOCH_ORDINAL, Num(s.hour), Num(s.minute), Num(s.second));
    }
    GroupsAre(s, d, seconds, Local(ms, st));
  }

  lemma GroupsAre(s: Stamp, d: Date, seconds: int, local: int)
    requires WellFormed(s) && d == Date(Num(s.year), Num(s.month), Num(s.day))
    requires IsDateTime(d, Num(s.hour), Num(s.minute), Num(s.second)) && MIN_MS <= local <= MAX_MS
    requires seconds == local / 1000 == Seconds(d, Num(s.hour), Num(s.minute), Num(s.second))
    ensures Groups(local, Style(s.separator, s.fraction, s.zone)) == s
  {
    hide DateOf, Ordinal, Pad, Num;
    DateOfOrdinal(d);
    ClockUnique(Ordinal(d) - EPOCH_ORDINAL, Num(s.hour), Num(s.minute), Num(s.second));
    PadOfNum(s.year);
    PadOfNum(s.month);
    PadOfNum(s.day);
    PadOfNum(s.hour);
    PadOfNum(s.minute);
    PadOfNum(s.second);
  }

  lemma MillisBounded(fraction: Option<string>)
    requires fraction.Some? ==> AllDigits(fraction.value)
    ensures 0 <= Millis(fraction) < 1000
  {
    var digits := if fraction.None? then "" else if |fraction.value| <= 3 then fraction.value else fraction.value[..3];
    PadOfNum(digits + seq(3 - |digits|, _ => '0'));
    assert Power10(3) == 1000;
  }

  // ----- the round trips

  function Spell(ms: int, st: Style): string
    requires LegalStyle(st) && MIN_MS <= Local(ms, st) <= MAX_MS
  {
    Render(Groups(Local(ms, st), st))
  }

  ghost predicate Spells(text: string, ms: int, st: Style) {
    LegalStyle(st) && MIN_MS <= Local(ms, st) <= MAX_MS && Millis(st.fraction) == ms % 1000 && text == Spell(ms, st)
  }

  /**
    A timestamp parses to `ms` exactly when it writes that instant: at some legal
    offset, with the clock of that offset, in either case, with any digits past
    the third.
   */
  lemma ParseIff(text: string, ms: int)
    ensures ParseTimestamp(text) == Some(ms) <==> MIN_MS <= ms <= MAX_MS && exists st :: Spells(text, ms, st)
  {
    hide Match, Render, Groups, Instant, Millis, LegalStyle;
    if ParseTimestamp(text) == Some(ms) {
      MatchWellFormed(text);
      var s := Match(text).value;
      MeaningGroups(s);
      assert Spells(text, ms, Style(s.separator, s.fraction, s.zone));
    }
    if MIN_MS <= ms <= MAX_MS {
      forall st | Spells(text, ms, st)
        ensures ParseTimestamp(text) == Some(ms)
      {
        GroupsMean(ms, st);
        MatchIff(text, Groups(Local(ms, st), st));
      }
    }
  }

  /** What the formatter writes. */
  function Plain(ms: int): Style {
    Style('T', if ms % 1000 == 0 then None else Some(Pad(ms % 1000, 3)), Zulu('Z'))
  }

  lemma PlainMillis(ms: int)
    ensures LegalStyle(Plain(ms)) && Millis(Plain(ms).fraction) == ms % 1000
  {
    if ms % 1000 == 0 {
      assert "" + seq(3, _ => '0') == "000";
      assert Num("000") == 0 by { NumOfPad(0, 3); assert Pad(0, 3) == "000"; }
    } else {
      assert Pad(ms % 1000, 3) + seq(0, _ => '0') == Pad(ms % 1000, 3);
      assert Power10(3) == 1000;
      NumOfPad(ms % 1000, 3);
    }
  }

  lemma HeadText(s: Stamp)
    requires s.separator == 'T'
    ensures RenderHead(s) ==
      s.year + "-" + s.month + "-" + s.day + "T" + s.hour + ":" + s.minute + ":" + s.second
  {
  }

  lemma FormatSpells(ms: int)
    ensures FormatTimestamp(ms).Some? <==> MIN_MS <= ms <= MAX_MS
    ensures MIN_MS <= ms <= MAX_MS ==>
      (PlainMillis(ms); FormatTimestamp(ms) == Some(Spell(ms, Plain(ms))))
  {
    hide DateOf, Pad, Millis, Joined;
    OrdinalInRange(ms);
    if MIN_MS <= ms <= MAX_MS {
      PlainMillis(ms);
      var s := Groups(ms, Plain(ms));
      assert Local(ms, Plain(ms)) == ms;
      HeadText(s);
      assert RenderHead(s) + RenderTail(s.fraction, s.zone) == Spell(ms, Plain(ms));
      if ms % 1000 == 0 {
        assert RenderTail(s.fraction, s.zone) == "Z";
      } else {
        assert RenderTail(s.fraction, s.zone) == "." + Pad(ms % 1000, 3) + "Z";
        assert RenderHead(s) + ("." + Pad(ms % 1000, 3) + "Z") == RenderHead(s) + "." + Pad(ms % 1000, 3) + "Z";
      }
    }
  }

  /** Every instant of the years 1 to 9999 is written, and read back as itself. */
  lemma ParseFormat(ms: int)
    ensures FormatTimestamp(ms).Some? <==> MIN_MS <= ms <= MAX_MS
    ensures FormatTimestamp(ms).Some? ==> ParseTimestamp(FormatTimestamp(ms).value) == Some(ms)
  {
    hide FormatTimestamp, ParseTimestamp, Spell;
    FormatSpells(ms);
    if MIN_MS <= ms <= MAX_MS {
      PlainMillis(ms);
      var text := FormatTimestamp(ms).value;
      assert Spells(text, ms, Plain(ms));
      ParseIff(text, ms);
    }
  }

  /** Rewriting an instant at any legal offset does not change what it parses to. */
  lemma SameInstant(ms: int, st: Style)
    requires LegalStyle(st) && MIN_MS <= ms <= MAX_MS && MIN_MS <= Local(ms, st) <= MAX_MS
    requires Millis(st.fraction) == ms % 1000
    ensures ParseTimestamp(Spell(ms, st)) == ParseTimestamp(FormatTimestamp(ms).value) == Some(ms)
  {
    hide FormatTimestamp, ParseTimestamp, Spell, LegalStyle, Millis;
    ParseFormat(ms);
    assert Spells(Spell(ms, st), ms, st);
    ParseIff(Spell(ms, st), ms);
  }

  // ----- anchored in literal texts and numbers

  lemma OffsetIs(sign: char, h: nat, m: nat)
    requires (sign == '+' || sign == '-') && h < 100 && m < 100
    ensures WellFormedZone(Offset(sign, Pad(h, 2), Pad(m, 2)))
    ensures OffsetMinutes(Offset(sign, Pad(h, 2), Pad(m, 2))) ==
      if h <= 23 && m <= 59 then Some(if sign == '+' then 60 * h + m else -(60 * h + m)) else None
  {
    hide Pad, Num;
    NumOfPads();
  }

  /**
    The wall clock `h` hours and `m` minutes ahead of an instant, written with "+hh:mm",
    or behind it, written with "-hh:mm", parses to the instant, and exactly up to 23:59.
   */
  lemma OffsetRead(ms: int, separator: char, fraction: Option<string>, sign: char, h: nat, m: nat, local: int)
    requires (separator == 'T' || separator == 't') && WellFormedFraction(fraction) && Millis(fraction) == ms % 1000
    requires (sign == '+' || sign == '-') && h < 100 && m < 100
    requires local == if sign == '+' then ms + (60 * h + m) * 60000 else ms - (60 * h + m) * 60000
    requires MIN_MS <= ms <= MAX_MS && MIN_MS <= local <= MAX_MS
    ensures var st := Style(separator, fraction, Offset(sign, Pad(h, 2), Pad(m, 2)));
      ParseTimestamp(Render(Groups(local, st))) == if h <= 23 && m <= 59 then Some(ms) else None
  {
    hide Pad, Num, Millis, OffsetMinutes, Render, Match, DateOf, WellFormedZone, WellFormedFraction;
    OffsetIs(sign, h, m);
    var st := Style(separator, fraction, Offset(sign, Pad(h, 2), Pad(m, 2)));
    if h <= 23 && m <= 59 {
      assert Local(ms, st) == local;
      GroupsMean(ms, st);
    } else {
      OrdinalInRange(local);
    }
    MatchIff(Render(Groups(local, st)), Groups(local, st));
  }

  /** A fraction counts milliseconds: short ones by their place, long ones by their first three digits. */
  lemma MillisAre(d: string)
    requires d != "" && AllDigits(d)
    ensures Millis(Some(d)) ==
      if |d| == 1 then Num(d) * 100 else if |d| == 2 then Num(d) * 10 else Num(d[..3])
    ensures Millis(None) == 0
  {
    hide Num, AllDigits;
    Zeros();
    if |d| <= 2 {
      Filled(d);
    } else {
      assert d[..3] + seq(0, _ => '0') == d[..3];
      assert |d| == 3 ==> d[..3] == d;
    }
  }

  lemma Filled(d: string)
    requires 1 <= |d| <= 2 && AllDigits(d)
    ensures Num(d + seq(3 - |d|, _ => '0')) == if |d| == 1 then Num(d) * 100 else Num(d) * 10
  {
    hide Num;
    NumNext(d, '0');
    if |d| == 1 {
      NumNext(d + "0", '0');
      assert d + seq(2, _ => '0') == (d + "0") + "0";
    } else {
      assert d + seq(1, _ => '0') == d + "0";
    }
  }

  lemma NumNext(s: string, digit: char)
    requires AllDigits(s) && IsDigit(digit)
    ensures Num(s + [digit]) == 10 * Num(s) + (digit as int - '0' as int)
  {
    assert (s + [digit])[..|s|] == s;
  }

  lemma Zeros()
    ensures Num("" + seq(3, _ => '0')) == 0
  {
    assert "" + seq(3, _ => '0') == "000";
    assert "000"[..2] == "00" && "00"[..1] == "0" && "0"[..0] == "";
  }

  lemma EpochDay()
    ensures DateOf(EPOCH_ORDINAL) == Date(1970, 1, 1)
  {
    hide DateOf, YearOf, DaysInMonth;
    DateOfOrdinal(Date(1970, 1, 1));
  }

  lemma EpochPads()
    ensures Pad(1970, 4) == "1970" && Pad(1, 2) == "01" && Pad(0, 2) == "00"
  {
    assert Pad(1, 1) == "1" && Pad(19, 2) == "19" && Pad(197, 3) == "197";
    assert Pad(0, 1) == "0";
  }

  /** Instants count from the beginning of 1970. */
  lemma EpochIsWritten()
    ensures FormatTimestamp(0) == Some("1970-01-01T00:00:00Z")
  {
    hide DateOf, Pad;
    EpochDay();
    EpochPads();
    OrdinalOfDate(EPOCH_ORDINAL);
    YearInRange(EPOCH_ORDINAL);
    var date := "1970" + "-" + "01" + "-" + "01" + "T";
    assert date + "00" + ":" + "00" + ":" + "00" == "1970-01-01T00:00:00";
    assert "1970-01-01T00:00:00" + "Z" == "1970-01-01T00:00:00Z";
  }
}
