/** Kick-off times in ISO 8601 / RFC 3339 form to epoch milliseconds
    (crates/live-sports/src/espn.rs:152-212). */
module IsoTime {
  import opened Wrappers
  import opened CivilDate
  import Text

  predicate IsDigit(c: char) { '0' <= c <= '9' }

  predicate AllDigits(s: string) { forall c <- s :: IsDigit(c) }

  /** The number a digit string denotes. */
  function Value(s: string): nat
    requires AllDigits(s)
  {
    if s == "" then 0
    else
      assert AllDigits(s[..|s| - 1]) && IsDigit(s[|s| - 1]);
      Value(s[..|s| - 1]) * 10 + (s[|s| - 1] as int - '0' as int)
  }

  /** Rust's integer `parse`: an optional sign (a minus only for signed types), digits, in range. */
  function ParseInt(s: string, lo: int, hi: int): Option<int> {
    var signed := s != "" && (s[0] == '+' || (s[0] == '-' && lo < 0));
    var digits := if signed then s[1..] else s;
    if digits == "" || !AllDigits(digits) then None
    else
      var magnitude: int := Value(digits);
      var n := if signed && s[0] == '-' then -magnitude else magnitude;
      if lo <= n <= hi then Some(n) else None
  }

  function ParseI32(s: string): int { ParseInt(s, -0x8000_0000, 0x7fff_ffff).GetOr(0) }

  function ParseU32(s: string): int { ParseInt(s, 0, 0xffff_ffff).GetOr(0) }

  function ParseI64(s: string): int { ParseInt(s, -0x8000_0000_0000_0000, 0x7fff_ffff_ffff_ffff).GetOr(0) }

  /** Of digits, alone or behind a plus, the number they denote if it is not beyond the type; behind a
      minus, for a signed type, its negative. */
  lemma NumberParses(digits: string, lo: int, hi: int)
    requires digits != "" && AllDigits(digits) && lo <= 0 <= hi
    ensures ParseInt(digits, lo, hi) == ParseInt("+" + digits, lo, hi) == if Value(digits) <= hi then Some(Value(digits)) else None
    ensures var n: int := Value(digits); ParseInt("-" + digits, lo, hi) == if lo < 0 && n <= -lo then Some(-n) else None
  {
    assert ("+" + digits)[1..] == digits && ("-" + digits)[1..] == digits;
    assert digits[0] in digits && !IsDigit('-') && ("-" + digits)[0] == '-';
    assert '-' in "-" + digits;
  }

  /** A text of no digits, or with another character behind its first, is no number. */
  lemma NoNumberParses(s: string, lo: int, hi: int)
    requires s in ["", "+", "-"] || exists i :: 0 < i < |s| && !IsDigit(s[i])
    ensures ParseInt(s, lo, hi) == None
  {
    if i :| 0 < i < |s| && !IsDigit(s[i]) {
      assert s[i] == s[1..][i - 1];
      assert s[i] in s && s[i] in s[1..];
    }
    assert !IsDigit('+') && !IsDigit('-');
    assert s == "-" ==> '-' in s;
    assert s == "+" ==> '+' in s;
  }

  /** Numbers of the three types, 0 for what does not parse. */
  lemma FieldsAre(s: string)
    ensures ParseI32(s) == ParseInt(s, -2147483648, 2147483647).GetOr(0)
    ensures ParseU32(s) == ParseInt(s, 0, 4294967295).GetOr(0)
    ensures ParseI64(s) == ParseInt(s, -9223372036854775808, 9223372036854775807).GetOr(0)
  {
  }

  /** The text before the first of the given characters: `split(..).next()`. */
  function Before(s: string, stops: set<char>): (r: string)
    ensures r <= s && (forall c <- r :: c !in stops)
    ensures r == s || s[|r|] in stops
  {
    if s == "" || s[0] in stops then "" else [s[0]] + Before(s[1..], stops)
  }

  /** The last position of one of the given characters: `rfind`. */
  function LastOf(s: string, marks: set<char>): (r: Option<nat>)
    ensures r.Some? ==> r.value < |s| && s[r.value] in marks && forall i :: r.value < i < |s| ==> s[i] !in marks
    ensures r.None? ==> forall i :: 0 <= i < |s| ==> s[i] !in marks
  {
    if s == "" then None
    else if s[|s| - 1] in marks then Some(|s| - 1)
    else LastOf(s[..|s| - 1], marks)
  }

  function TrimEndZ(s: string): string {
    if s != "" && s[|s| - 1] == 'Z' then TrimEndZ(s[..|s| - 1]) else s
  }

  function OffsetSeconds(rest: string): int {
    if rest != "" && rest[|rest| - 1] in {'Z', 'z'} then 0
    else
      match LastOf(rest, {'+', '-'})
      case None => 0
      case Some(idx) => if idx == 0 then 0 else SignedOffset(rest[idx], Text.Split(rest[idx + 1..], ':'))
  }

  function SignedOffset(sign: char, parts: seq<string>): int {
    if |parts| < 2 then 0
    else (if sign == '+' then 1 else -1) * (ParseI64(parts[0]) * 3600 + ParseI64(parts[1]) * 60)
  }

  /** What is left of the time part once zone and fraction are cut off. */
  function CutTime(rest: string): string {
    Before(Before(TrimEndZ(rest), {'+', '-'}), {'.'})
  }

  function ParseIsoMs(raw: string): int {
    var s := Text.Trim(raw);
    var datePart := Before(s, {'T'});
    if |datePart| == |s| then 0
    else
      var rest := s[|datePart| + 1..];
      Assemble(Text.Split(datePart, '-'), Text.Split(CutTime(rest), ':'), OffsetSeconds(rest))
  }

  function Assemble(date: seq<string>, time: seq<string>, offset: int): int {
    if |date| != 3 then 0
    else
      var y, mo, d := ParseI32(date[0]), ParseU32(date[1]), ParseU32(date[2]);
      if y == 0 || mo == 0 || d == 0 || |time| < 2 then 0
      else
        var h, mi := ParseU32(time[0]), ParseU32(time[1]);
        var se := if |time| > 2 then ParseU32(time[2]) else 0;
        (DaysFromCivil(y, mo, d) * 86400 + h * 3600 + mi * 60 + se - offset) * 1000
  }

  // ---------------------------------------------------------------------------------------------
  // Timestamps of section 5.6 of RFC 3339

  datatype Zone = UpperZ | LowerZ | Offset(positive: bool, hours: nat, minutes: nat)

  datatype Stamp = Stamp(year: nat, month: nat, day: nat, hour: nat, minute: nat, second: nat, fraction: string, zone: Zone)

  predicate Valid(t: Stamp) {
    && t.year <= 9999 && ValidDate(t.year, t.month, t.day)
    && t.hour <= 23 && t.minute <= 59 && t.second <= 60
    && AllDigits(t.fraction)
    && (t.zone.Offset? ==> t.zone.hours <= 23 && t.zone.minutes <= 59)
  }

  function Pad(n: nat, width: nat): (r: string)
    ensures |r| == width && AllDigits(r)
  {
    if width == 0 then "" else Pad(n / 10, width - 1) + [(n % 10 + '0' as int) as char]
  }

  function ZoneText(z: Zone): string {
    match z
    case UpperZ => "Z"
    case LowerZ => "z"
    case Offset(positive, h, m) => [if positive then '+' else '-'] + (Pad(h, 2) + ":" + Pad(m, 2))
  }

  function DateText(t: Stamp): string { Pad(t.year, 4) + "-" + (Pad(t.month, 2) + "-" + Pad(t.day, 2)) }

  function ClockText(t: Stamp): string { Pad(t.hour, 2) + ":" + (Pad(t.minute, 2) + ":" + Pad(t.second, 2)) }

  function FractionText(t: Stamp): string { if t.fraction == "" then "" else "." + t.fraction }

  function Render(t: Stamp): string {
    DateText(t) + "T" + (ClockText(t) + FractionText(t) + ZoneText(t.zone))
  }

  function ZoneSeconds(z: Zone): int {
    match z
    case Offset(positive, h, m) => (if positive then 1 else -1) * (h * 3600 + m * 60)
    case _ => 0
  }

  /** The instant a timestamp names, the fraction dropped. */
  function EpochMs(t: Stamp): int
    requires Valid(t)
  {
    (DayNumber(t.year, t.month, t.day) * 86400 + t.hour * 3600 + t.minute * 60 + t.second - ZoneSeconds(t.zone)) * 1000
  }

  function Pow10(n: nat): nat { if n == 0 then 1 else 10 * Pow10(n - 1) }

  lemma {:induction false} PadValue(n: nat, width: nat)
    requires n < Pow10(width)
    ensures Value(Pad(n, width)) == n
  {
    if width > 0 {
      PadValue(n / 10, width - 1);
      var r := Pad(n, width);
      assert r[..|r| - 1] == Pad(n / 10, width - 1);
    }
  }

  lemma PadParses(n: nat, width: nat, lo: int, hi: int)
    requires 0 < width && n < Pow10(width) && lo <= 0 && n <= hi
    ensures ParseInt(Pad(n, width), lo, hi) == Some(n)
  {
    PadValue(n, width);
    assert IsDigit(Pad(n, width)[0]);
  }

  lemma SmallPads()
    ensures Pow10(2) == 100 && Pow10(4) == 10000
  {
    assert Pow10(1) == 10 && Pow10(2) == 100 && Pow10(3) == 1000;
  }

  lemma PadParses2(n: nat)
    requires n < 100
    ensures ParseU32(Pad(n, 2)) == n && ParseI64(Pad(n, 2)) == n
  {
    SmallPads();
    PadParses(n, 2, 0, 0xffff_ffff);
    PadParses(n, 2, -0x8000_0000_0000_0000, 0x7fff_ffff_ffff_ffff);
  }

  lemma {:induction false} BeforeStop(a: string, c: char, b: string, stops: set<char>)
    requires c in stops && forall x <- a :: x !in stops
    ensures Before(a + [c] + b, stops) == a
  {
    var s := a + [c] + b;
    if a == "" {
      assert s[0] == c;
    } else {
      BeforeStop(a[1..], c, b, stops);
      assert s[1..] == a[1..] + [c] + b && s[0] == a[0];
    }
  }

  lemma BeforeNothing(a: string, stops: set<char>)
    requires forall x <- a :: x !in stops
    ensures Before(a, stops) == a
  {
  }

  lemma ThreePieces(a: string, b: string, c: string, sep: char)
    requires sep !in a && sep !in b && sep !in c
    ensures Text.Split(a + [sep] + (b + [sep] + c), sep) == [a, b, c]
  {
    Text.SplitHead(a, sep, b + [sep] + c);
    Text.SplitHead(b, sep, c);
    Text.SplitNone(c, sep);
  }

  lemma DateSplits(t: Stamp)
    ensures Text.Split(DateText(t), '-') == [Pad(t.year, 4), Pad(t.month, 2), Pad(t.day, 2)]
    ensures forall c <- DateText(t) :: c != 'T'
  {
    NoneOf(Pad(t.year, 4), '-');
    NoneOf(Pad(t.month, 2), '-');
    NoneOf(Pad(t.day, 2), '-');
    ThreePieces(Pad(t.year, 4), Pad(t.month, 2), Pad(t.day, 2), '-');
  }

  lemma NoneOf(s: string, c: char)
    requires AllDigits(s) && !IsDigit(c)
    ensures c !in s
  {
  }

  lemma ClockSplits(t: Stamp)
    ensures Text.Split(ClockText(t), ':') == [Pad(t.hour, 2), Pad(t.minute, 2), Pad(t.second, 2)]
    ensures Text.Split(ClockText(t) + "z", ':') == [Pad(t.hour, 2), Pad(t.minute, 2), Pad(t.second, 2) + "z"]
    ensures |ClockText(t)| == 8 && forall c <- ClockText(t) :: c !in {'+', '-', '.', 'Z'}
  {
    NoneOf(Pad(t.hour, 2), ':');
    NoneOf(Pad(t.minute, 2), ':');
    NoneOf(Pad(t.second, 2), ':');
    ThreePieces(Pad(t.hour, 2), Pad(t.minute, 2), Pad(t.second, 2), ':');
    ThreePieces(Pad(t.hour, 2), Pad(t.minute, 2), Pad(t.second, 2) + "z", ':');
    assert ClockText(t) + "z" == Pad(t.hour, 2) + ":" + (Pad(t.minute, 2) + ":" + (Pad(t.second, 2) + "z"));
  }

  lemma CutTimeIs(t: Stamp)
    requires Valid(t)
    ensures CutTime(ClockText(t) + FractionText(t) + ZoneText(t.zone))
         == if t.zone.LowerZ? && t.fraction == "" then ClockText(t) + "z" else ClockText(t)
  {
    ClockSplits(t);
    CutZoneAndFraction(ClockText(t), t.fraction, t.zone);
  }

  lemma CutZoneAndFraction(clock: string, fraction: string, zone: Zone)
    requires clock != "" && (forall c <- clock :: c !in {'+', '-', '.', 'Z'}) && AllDigits(fraction)
    ensures CutTime(clock + (if fraction == "" then "" else "." + fraction) + ZoneText(zone))
         == if zone.LowerZ? && fraction == "" then clock + "z" else clock
  {
    hide ZoneText, TrimEndZ, Before;
    var tail := if fraction == "" then "" else "." + fraction;
    var z := if zone.LowerZ? then "z" else "";
    assert forall c <- clock + tail :: c !in {'+', '-', 'Z'};
    CutZone(clock + tail, zone);
    if fraction == "" {
      assert clock + tail + z == clock + z && clock + "" == clock;
      BeforeNothing(clock + z, {'.'});
    } else {
      assert clock + tail + z == clock + "." + (fraction + z);
      BeforeStop(clock, '.', fraction + z, {'.'});
    }
  }

  lemma CutZone(cf: string, z: Zone)
    requires cf != "" && (forall c <- cf :: c !in {'+', '-', 'Z'})
    ensures Before(TrimEndZ(cf + ZoneText(z)), {'+', '-'}) == cf + if z.LowerZ? then "z" else ""
  {
    match z
    case UpperZ =>
      assert (cf + "Z")[..|cf|] == cf && cf[|cf| - 1] in cf;
      assert TrimEndZ(cf + "Z") == cf;
      BeforeNothing(cf, {'+', '-'});
      assert cf + "" == cf;
    case LowerZ =>
      BeforeNothing(cf + "z", {'+', '-'});
    case Offset(positive, h, m) =>
      var tail := Pad(h, 2) + ":" + Pad(m, 2);
      var sign := if positive then '+' else '-';
      assert IsDigit(Pad(m, 2)[1]);
      hide Pad, Before;
      var all := cf + ZoneText(z);
      assert all == cf + [sign] + tail;
      assert all[|all| - 1] == Pad(m, 2)[1];
      assert TrimEndZ(all) == all;
      BeforeStop(cf, sign, tail, {'+', '-'});
      assert cf + "" == cf;
  }

  lemma OffsetIs(t: Stamp)
    requires Valid(t)
    ensures OffsetSeconds(ClockText(t) + FractionText(t) + ZoneText(t.zone)) == ZoneSeconds(t.zone)
  {
    var cf := ClockText(t) + FractionText(t);
    var rest := cf + ZoneText(t.zone);
    if t.zone.Offset? {
      OffsetTail(cf, t.zone);
    } else {
      assert rest[|rest| - 1] in {'Z', 'z'};
    }
  }

  lemma OffsetTail(cf: string, z: Zone)
    requires cf != "" && z.Offset? && z.hours <= 23 && z.minutes <= 59
    ensures OffsetSeconds(cf + ZoneText(z)) == ZoneSeconds(z)
  {
    hide ZoneText, ZoneSeconds, SignedOffset, Text.Split, LastOf, Pad;
    var sign := if z.positive then '+' else '-';
    var tail := Pad(z.hours, 2) + ":" + Pad(z.minutes, 2);
    OffsetParts(z);
    assert cf + ZoneText(z) == cf + [sign] + tail;
    LastMark(cf, sign, tail, {'+', '-'});
    var rest := cf + [sign] + tail;
    assert rest[|rest| - 1] == tail[|tail| - 1];
  }

  lemma OffsetParts(z: Zone)
    requires z.Offset? && z.hours <= 23 && z.minutes <= 59
    ensures var tail := Pad(z.hours, 2) + ":" + Pad(z.minutes, 2);
      var sign := if z.positive then '+' else '-';
      && ZoneText(z) == [sign] + tail
      && tail != "" && IsDigit(tail[|tail| - 1])
      && (forall c <- tail :: c !in {'+', '-'})
      && SignedOffset(sign, Text.Split(tail, ':')) == ZoneSeconds(z)
  {
    hide Pad, ParseI64, Text.Split;
    var h, m := Pad(z.hours, 2), Pad(z.minutes, 2);
    PadParses2(z.hours);
    PadParses2(z.minutes);
    NoneOf(h, ':');
    NoneOf(m, ':');
    Text.SplitHead(h, ':', m);
    Text.SplitNone(m, ':');
    assert h + ":" + m == h + (":" + m);
    assert IsDigit(m[1]);
  }

  lemma LastMark(a: string, c: char, b: string, marks: set<char>)
    requires c in marks && forall x <- b :: x !in marks
    ensures LastOf(a + [c] + b, marks) == Some(|a|)
    ensures (a + [c] + b)[|a|] == c && (a + [c] + b)[|a| + 1..] == b
  {
    hide LastOf;
    var s := a + [c] + b;
    assert s[|a|] == c && s[|a| + 1..] == b;
    assert forall i :: |a| < i < |s| ==> s[i] == b[i - |a| - 1];
    var r := LastOf(s, marks);
  }

  /** Every timestamp with an upper-case T and a year from 0001 on parses to its instant. Year 0000
      parses to 0, and a lower-case z with no fraction before it loses the seconds. */
  lemma ParsesItsInstant(t: Stamp)
    requires Valid(t)
    ensures ParseIsoMs(Render(t))
         == if t.year == 0 then 0
            else if t.zone.LowerZ? && t.fraction == "" then EpochMs(t) - t.second * 1000
            else EpochMs(t)
  {
    hide Assemble, EpochMs, DayNumber, OffsetSeconds, ParseU32, Pad, DateText, ClockText, FractionText, ZoneText,
      ZoneSeconds, Before, CutTime, Text.Trim, Text.Split;
    RenderIsTrimmed(t);
    DateSplits(t);
    FieldsParse(t);
    CutTimeIs(t);
    ClockSplits(t);
    OffsetIs(t);
    SplitsAtT(DateText(t), ClockText(t) + FractionText(t) + ZoneText(t.zone));
    Assembles(t, Pad(t.second, 2));
    Assembles(t, Pad(t.second, 2) + "z");
  }

  lemma SplitsAtT(date: string, rest: string)
    requires 'T' !in date
    ensures Before(date + "T" + rest, {'T'}) == date
    ensures |date + "T" + rest| > |date| && (date + "T" + rest)[|date| + 1..] == rest
  {
    BeforeStop(date, 'T', rest, {'T'});
  }

  lemma Assembles(t: Stamp, seconds: string)
    requires Valid(t)
    ensures Assemble([Pad(t.year, 4), Pad(t.month, 2), Pad(t.day, 2)], [Pad(t.hour, 2), Pad(t.minute, 2), seconds], ZoneSeconds(t.zone))
         == if t.year == 0 then 0 else EpochMs(t) + (ParseU32(seconds) - t.second) * 1000
  {
    FieldsParse(t);
    ComputesTheDayNumber(t.year, t.month, t.day);
    hide DaysFromCivil, DayNumber, ParseI32, ParseU32, Pad, ZoneSeconds;
  }

  lemma FieldsParse(t: Stamp)
    requires Valid(t)
    ensures ParseI32(Pad(t.year, 4)) == t.year
    ensures ParseU32(Pad(t.month, 2)) == t.month && ParseU32(Pad(t.day, 2)) == t.day
    ensures ParseU32(Pad(t.hour, 2)) == t.hour && ParseU32(Pad(t.minute, 2)) == t.minute && ParseU32(Pad(t.second, 2)) == t.second
    ensures ParseU32(Pad(t.second, 2) + "z") == 0
  {
    SmallPads();
    PadParses(t.year, 4, -0x8000_0000, 0x7fff_ffff);
    PadParses2(t.month);
    PadParses2(t.day);
    PadParses2(t.hour);
    PadParses2(t.minute);
    PadParses2(t.second);
    var s := Pad(t.second, 2);
    assert (s + "z")[2] == 'z' && (s + "z")[0] == s[0] && IsDigit(s[0]);
    assert 'z' in s + "z";
  }

  lemma RenderIsTrimmed(t: Stamp)
    requires Valid(t)
    ensures Text.Trim(Render(t)) == Render(t)
  {
    var s := Render(t);
    assert IsDigit(Pad(t.year, 4)[0]) && s[0] == Pad(t.year, 4)[0];
    var z := ZoneText(t.zone);
    assert s[|s| - 1] == z[|z| - 1];
    assert z[|z| - 1] in {'Z', 'z'} || IsDigit(z[|z| - 1]) by {
      if t.zone.Offset? { assert IsDigit(Pad(t.zone.minutes, 2)[1]); }
    }
    Text.TrimmedIsFixed(s);
  }

  // ---------------------------------------------------------------------------------------------
  // Times without seconds

  function ShortClock(t: Stamp): string { Pad(t.hour, 2) + ":" + Pad(t.minute, 2) }

  lemma ShortClockSplits(t: Stamp)
    ensures Text.Split(ShortClock(t), ':') == [Pad(t.hour, 2), Pad(t.minute, 2)]
    ensures Text.Split(ShortClock(t) + "z", ':') == [Pad(t.hour, 2), Pad(t.minute, 2) + "z"]
    ensures |ShortClock(t)| == 5 && forall c <- ShortClock(t) :: c !in {'+', '-', '.', 'Z'}
  {
    var h, m := Pad(t.hour, 2), Pad(t.minute, 2);
    NoneOf(h, ':');
    NoneOf(m, ':');
    Text.SplitHead(h, ':', m);
    Text.SplitNone(m, ':');
    Text.SplitHead(h, ':', m + "z");
    Text.SplitNone(m + "z", ':');
    assert ShortClock(t) + "z" == h + [':'] + (m + "z");
  }

  /** A time of hours and minutes counts from the full minute; but behind them a lower-case z loses
      the minutes too. */
  lemma ParsesWithoutSeconds(t: Stamp)
    requires Valid(t) && t.second == 0
    ensures ParseIsoMs(DateText(t) + "T" + (ShortClock(t) + ZoneText(t.zone)))
         == if t.year == 0 then 0
            else if t.zone.LowerZ? then EpochMs(t) - t.minute * 60_000
            else EpochMs(t)
  {
    hide Assemble, EpochMs, DayNumber, OffsetSeconds, ParseU32, Pad, DateText, ShortClock, ZoneText, ZoneSeconds, Before,
      CutTime, Text.Trim, Text.Split;
    var rest := ShortClock(t) + ZoneText(t.zone);
    ShortIsTrimmed(t);
    DateSplits(t);
    ShortClockSplits(t);
    CutZoneAndFraction(ShortClock(t), "", t.zone);
    assert ShortClock(t) + "" == ShortClock(t);
    ShortOffset(t);
    SplitsAtT(DateText(t), rest);
    ShortAssembles(t, Pad(t.minute, 2));
    ShortAssembles(t, Pad(t.minute, 2) + "z");
    LowerMinutes(t);
  }

  lemma ShortOffset(t: Stamp)
    requires Valid(t)
    ensures OffsetSeconds(ShortClock(t) + ZoneText(t.zone)) == ZoneSeconds(t.zone)
  {
    var rest := ShortClock(t) + ZoneText(t.zone);
    if t.zone.Offset? {
      OffsetTail(ShortClock(t), t.zone);
    } else {
      assert rest[|rest| - 1] in {'Z', 'z'};
    }
  }

  lemma LowerMinutes(t: Stamp)
    requires Valid(t)
    ensures ParseU32(Pad(t.minute, 2)) == t.minute && ParseU32(Pad(t.minute, 2) + "z") == 0
  {
    PadParses2(t.minute);
    var s := Pad(t.minute, 2);
    assert (s + "z")[2] == 'z' && (s + "z")[0] == s[0] && IsDigit(s[0]);
    assert 'z' in s + "z";
  }

  lemma ShortAssembles(t: Stamp, minutes: string)
    requires Valid(t) && t.second == 0
    ensures Assemble([Pad(t.year, 4), Pad(t.month, 2), Pad(t.day, 2)], [Pad(t.hour, 2), minutes], ZoneSeconds(t.zone))
         == if t.year == 0 then 0 else EpochMs(t) + (ParseU32(minutes) - t.minute) * 60_000
  {
    FieldsParse(t);
    ComputesTheDayNumber(t.year, t.month, t.day);
    hide DaysFromCivil, DayNumber, ParseI32, ParseU32, Pad, ZoneSeconds;
  }

  lemma ShortIsTrimmed(t: Stamp)
    requires Valid(t)
    ensures var s := DateText(t) + "T" + (ShortClock(t) + ZoneText(t.zone)); Text.Trim(s) == s
  {
    var s := DateText(t) + "T" + (ShortClock(t) + ZoneText(t.zone));
    assert IsDigit(Pad(t.year, 4)[0]) && s[0] == Pad(t.year, 4)[0];
    var z := ZoneText(t.zone);
    assert s[|s| - 1] == z[|z| - 1];
    assert z[|z| - 1] in {'Z', 'z'} || IsDigit(z[|z| - 1]) by {
      if t.zone.Offset? { assert IsDigit(Pad(t.zone.minutes, 2)[1]); }
    }
    Text.TrimmedIsFixed(s);
  }

  // ---------------------------------------------------------------------------------------------
  // Other texts

  /** Without a T, with other than three parts before it or less than two in the time, or with a zero
      or no number in the date, the result is 0. */
  lemma BrokenTextsGiveZero(raw: string, date: string, rest: string)
    ensures 'T' !in Text.Trim(raw) ==> ParseIsoMs(raw) == 0
    ensures Text.Trim(raw) == date + "T" + rest && 'T' !in date && |Text.Split(date, '-')| != 3 ==> ParseIsoMs(raw) == 0
    ensures Text.Trim(raw) == date + "T" + rest && 'T' !in date && |Text.Split(CutTime(rest), ':')| < 2 ==> ParseIsoMs(raw) == 0
    ensures Text.Trim(raw) == date + "T" + rest && 'T' !in date && |Text.Split(date, '-')| == 3
      && (ParseI32(Text.Split(date, '-')[0]) == 0 || ParseU32(Text.Split(date, '-')[1]) == 0 || ParseU32(Text.Split(date, '-')[2]) == 0)
      ==> ParseIsoMs(raw) == 0
  {
    hide Text.Trim, Text.Split, CutTime, Before, ParseI32, ParseU32, OffsetSeconds, DaysFromCivil;
    if 'T' !in Text.Trim(raw) {
      BeforeNothing(Text.Trim(raw), {'T'});
    }
    if 'T' !in date {
      SplitsAtT(date, rest);
    }
  }

  /** A timestamp without any zone counts as one of Greenwich. */
  lemma ParsesWithoutZone(t: Stamp)
    requires Valid(t) && t.zone.UpperZ?
    ensures ParseIsoMs(DateText(t) + "T" + (ClockText(t) + FractionText(t))) == if t.year == 0 then 0 else EpochMs(t)
  {
    hide Assemble, EpochMs, DayNumber, ParseU32, Pad, DateText, ClockText, Before, CutTime, Text.Trim, Text.Split, OffsetSeconds, FractionText;
    var rest := ClockText(t) + FractionText(t);
    DateSplits(t);
    FieldsParse(t);
    ClockSplits(t);
    NoZoneTime(ClockText(t), t.fraction, t);
    SplitsAtT(DateText(t), rest);
    Assembles(t, Pad(t.second, 2));
  }

  lemma NoZoneTime(clock: string, fraction: string, t: Stamp)
    requires Valid(t) && clock == ClockText(t) && fraction == t.fraction
    ensures CutTime(clock + FractionText(t)) == clock && OffsetSeconds(clock + FractionText(t)) == 0
    ensures Text.Trim(DateText(t) + "T" + (clock + FractionText(t))) == DateText(t) + "T" + (clock + FractionText(t))
  {
    hide Pad, Text.Trim, Text.Split, Before, LastOf;
    ClockSplits(t);
    var tail := if fraction == "" then "" else "." + fraction;
    var rest, all := clock + tail, DateText(t) + "T" + (clock + tail);
    var last := rest[|rest| - 1];
    assert IsDigit(last) by {
      if fraction == "" {
        assert last == Pad(t.second, 2)[1] && Pad(t.second, 2)[1] in Pad(t.second, 2);
      } else {
        assert last == fraction[|fraction| - 1] && last in fraction;
      }
    }
    assert forall c <- rest :: c !in {'+', '-', 'Z'};
    assert TrimEndZ(rest) == rest;
    BeforeNothing(rest, {'+', '-'});
    if fraction == "" {
      assert rest == clock;
      BeforeNothing(clock, {'.'});
    } else {
      assert rest == clock + "." + fraction;
      BeforeStop(clock, '.', fraction, {'.'});
    }
    assert LastOf(rest, {'+', '-'}) == None;
    assert all[0] == Pad(t.year, 4)[0] && Pad(t.year, 4)[0] in Pad(t.year, 4) && all[|all| - 1] == last;
    Text.TrimmedIsFixed(all);
  }
}
