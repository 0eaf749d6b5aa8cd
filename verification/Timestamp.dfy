/** `parse_iso8601_to_unix`: RFC 3339 timestamps to unix seconds. */
module Timestamp {
  import opened Common
  import opened Text
  import opened Calendar

  /**
   * `Rejected` is the `None` of the original; `Overflows` is an arithmetic
   * overflow inside `days_from_civil`, which the parser does not guard against.
   */
  datatype Outcome = Seconds(value: int) | Rejected | Overflows

  datatype DateFields = DateFields(year: int, month: nat, day: nat)

  datatype TimeFields = TimeFields(hour: nat, minute: nat, second: nat)

  /** `month as i32` on a `u32`. */
  function AsI32(n: nat): (r: int)
    requires n <= U32_MAX
    ensures FitsI32(r) && (r == n || r == n - 0x1_0000_0000)
  {
    if n <= I32_MAX then n else n - 0x1_0000_0000
  }

  function ReadDate(date: string): (r: Option<DateFields>)
    ensures r.Some? ==> r.value.month <= U32_MAX && r.value.day <= U32_MAX
  {
    var parts := Split(date, OneOf({'-'}));
    if |parts| < 3 then None
    else
      match (ParseI32(parts[0]), ParseUnsigned(parts[1], U32_MAX), ParseUnsigned(parts[2], U32_MAX))
      case (Some(y), Some(m), Some(d)) => Some(DateFields(y, m, d))
      case _ => None
  }

  function ReadClock(time: string): Option<TimeFields> {
    var parts := Split(time, OneOf({':'}));
    if |parts| < 3 then None
    else
      var whole := Split(parts[2], OneOf({'.'}))[0];
      match (ParseUnsigned(parts[0], U32_MAX), ParseUnsigned(parts[1], U32_MAX), ParseUnsigned(whole, U32_MAX))
      case (Some(h), Some(m), Some(s)) => Some(TimeFields(h, m, s))
      case _ => None
  }

  function ReadTime(rest: string): Option<TimeFields> {
    ReadClock(Split(rest, OneOf({'+', 'Z', '-'}))[0])
  }

  function SecondsOfDay(t: TimeFields): nat { t.hour * 3600 + t.minute * 60 + t.second }

  function Assemble(date: DateFields, time: TimeFields): Outcome
    requires date.month <= U32_MAX && date.day <= U32_MAX
  {
    match DaysFromCivil(date.year, AsI32(date.month), AsI32(date.day))
    case Overflow => Overflows
    case Value(days) =>
      var seconds := days * 86_400 + SecondsOfDay(time);
      if FitsI64(days * 86_400) && FitsI64(seconds) then Seconds(seconds) else Rejected
  }

  function ParseIso8601(s: string): Outcome {
    var halves := Split(s, OneOf({'T'}));
    if |halves| < 2 then Rejected
    else
      match (ReadDate(halves[0]), ReadTime(halves[1]))
      case (Some(date), Some(time)) => Assemble(date, time)
      case _ => Rejected
  }

  // -------------------------------------- instants and their RFC 3339 texts

  /** A valid civil date and time of day; leap seconds are excluded. */
  datatype Instant = Instant(date: Date, time: TimeFields)

  predicate ValidInstant(i: Instant) {
    && Valid(i.date) && 0 <= i.date.y <= 9999
    && i.time.hour < 24 && i.time.minute < 60 && i.time.second < 60
  }

  datatype Offset = Zulu | Numeric(ahead: bool, hours: nat, minutes: nat)
  {
    predicate Valid() { Numeric? ==> hours < 24 && minutes < 60 }

    /** How far the printed clock runs ahead of UTC. */
    function Ahead(): int {
      match this
      case Zulu => 0
      case Numeric(ahead, h, m) => var d: int := h * 3600 + m * 60; if ahead then d else -d
    }

    function Print(): string
      requires Valid()
    {
      match this
      case Zulu => "Z"
      case Numeric(ahead, h, m) => [if ahead then '+' else '-'] + TwoDigits(h) + ":" + TwoDigits(m)
    }
  }

  /** Seconds since the epoch on the printed clock, by counting days. */
  function ClockSeconds(i: Instant): int { Days(i.date) * 86_400 + SecondsOfDay(i.time) }

  /** The unix time the text denotes: the printed clock minus its offset. */
  function UnixSeconds(i: Instant, off: Offset): int { ClockSeconds(i) - off.Ahead() }

  function PrintDate(d: Date): string
    requires Valid(d) && 0 <= d.y <= 9999
  {
    FourDigits(d.y) + "-" + TwoDigits(d.m) + "-" + TwoDigits(d.d)
  }

  function PrintSeconds(second: nat, fraction: string): string
    requires second < 60
  {
    TwoDigits(second) + (if fraction == [] then [] else "." + fraction)
  }

  function PrintClock(t: TimeFields, fraction: string): string
    requires t.hour < 24 && t.minute < 60 && t.second < 60
  {
    TwoDigits(t.hour) + [':'] + (TwoDigits(t.minute) + [':'] + PrintSeconds(t.second, fraction))
  }

  /** The `date-time` production of RFC 3339, section 5.6. */
  function Print(i: Instant, fraction: string, off: Offset): string
    requires ValidInstant(i) && AllDigits(fraction) && off.Valid()
  {
    PrintDate(i.date) + ['T'] + (PrintClock(i.time, fraction) + off.Print())
  }

  // ------------------------------------------------------------- the proofs

  lemma ReadTwo(n: nat, seps: set<char>)
    requires n < 100 && forall c :: c in seps ==> !IsDigit(c)
    ensures ParseUnsigned(TwoDigits(n), U32_MAX) == Some(n)
    ensures Clean(TwoDigits(n), OneOf(seps))
  {
    TwoDigitsValue(n);
    DigitsAreClean(TwoDigits(n), seps);
  }

  /** Three runs of digits joined by hyphens, of any lengths, read as a date. */
  lemma ReadDigits(y: string, m: string, d: string)
    requires AllDigits(y) && y != [] && DigitsValue(y) <= I32_MAX
    requires AllDigits(m) && m != [] && DigitsValue(m) <= U32_MAX
    requires AllDigits(d) && d != [] && DigitsValue(d) <= U32_MAX
    ensures ReadDate(y + ['-'] + (m + ['-'] + d)) == Some(DateFields(DigitsValue(y), DigitsValue(m), DigitsValue(d)))
  {
    DigitsAreClean(d, {'-'});
    SplitThree(y, '-', m, d);
    ParseDigits(y, I32_MAX);
    ParseDigits(m, U32_MAX);
    ParseDigits(d, U32_MAX);
    assert IsDigit(y[0]);
  }

  lemma HyphenatedClean(y: string, m: string, d: string)
    requires AllDigits(y) && AllDigits(m) && AllDigits(d)
    ensures Clean(y + ['-'] + (m + ['-'] + d), OneOf({'T'}))
  {
  }

  lemma SplitThree(a: string, c: char, b: string, rest: string)
    requires AllDigits(a) && AllDigits(b) && !IsDigit(c) && Clean(rest, OneOf({c}))
    ensures Split(a + [c] + (b + [c] + rest), OneOf({c})) == [a, b, rest]
  {
    DigitsAreClean(a, {c});
    DigitsAreClean(b, {c});
    SplitAt(a, c, b + [c] + rest, OneOf({c}));
    SplitAt(b, c, rest, OneOf({c}));
    SplitClean(rest, OneOf({c}));
  }

  lemma ReadPrintedDate(d: Date)
    requires Valid(d) && 0 <= d.y <= 9999
    ensures ReadDate(PrintDate(d)) == Some(DateFields(d.y, d.m, d.d))
    ensures Clean(PrintDate(d), OneOf({'T'}))
  {
    FourDigitsValue(d.y);
    TwoDigitsValue(d.m);
    TwoDigitsValue(d.d);
    ReadDigits(FourDigits(d.y), TwoDigits(d.m), TwoDigits(d.d));
    HyphenatedClean(FourDigits(d.y), TwoDigits(d.m), TwoDigits(d.d));
    assert PrintDate(d) == FourDigits(d.y) + ['-'] + (TwoDigits(d.m) + ['-'] + TwoDigits(d.d));
  }

  lemma SecondsSplit(second: nat, fraction: string)
    requires second < 60 && AllDigits(fraction)
    ensures Split(PrintSeconds(second, fraction), OneOf({'.'}))[0] == TwoDigits(second)
  {
    ReadTwo(second, {'.'});
    if fraction == [] {
      assert PrintSeconds(second, fraction) == TwoDigits(second);
      SplitClean(TwoDigits(second), OneOf({'.'}));
    } else {
      assert PrintSeconds(second, fraction) == TwoDigits(second) + ['.'] + fraction;
      SplitAt(TwoDigits(second), '.', fraction, OneOf({'.'}));
    }
  }

  lemma SecondsClean(second: nat, fraction: string, seps: set<char>)
    requires second < 60 && AllDigits(fraction)
    requires '.' !in seps && forall c :: c in seps ==> !IsDigit(c)
    ensures Clean(PrintSeconds(second, fraction), OneOf(seps))
  {
    TwoDigitsValue(second);
  }

  lemma ClockClean(t: TimeFields, fraction: string, seps: set<char>)
    requires t.hour < 24 && t.minute < 60 && t.second < 60 && AllDigits(fraction)
    requires '.' !in seps && ':' !in seps && forall c :: c in seps ==> !IsDigit(c)
    ensures Clean(PrintClock(t, fraction), OneOf(seps))
  {
    ReadTwo(t.hour, seps);
    ReadTwo(t.minute, seps);
    SecondsClean(t.second, fraction, seps);
    var tail := TwoDigits(t.minute) + [':'] + PrintSeconds(t.second, fraction);
    CleanConcat(TwoDigits(t.minute), [':'], OneOf(seps));
    CleanConcat(TwoDigits(t.minute) + [':'], PrintSeconds(t.second, fraction), OneOf(seps));
    CleanConcat(TwoDigits(t.hour), [':'], OneOf(seps));
    CleanConcat(TwoDigits(t.hour) + [':'], tail, OneOf(seps));
  }

  lemma ReadPrintedClock(t: TimeFields, fraction: string)
    requires t.hour < 24 && t.minute < 60 && t.second < 60 && AllDigits(fraction)
    ensures ReadClock(PrintClock(t, fraction)) == Some(t)
  {
    ReadTwo(t.hour, {':'});
    ReadTwo(t.minute, {':'});
    ReadTwo(t.second, {':'});
    TwoDigitsValue(t.hour);
    TwoDigitsValue(t.minute);
    SecondsClean(t.second, fraction, {':'});
    SecondsSplit(t.second, fraction);
    SplitThree(TwoDigits(t.hour), ':', TwoDigits(t.minute), PrintSeconds(t.second, fraction));
  }

  lemma OffsetStarts(off: Offset)
    requires off.Valid()
    ensures off.Print() != [] && off.Print()[0] in {'+', 'Z', '-'}
    ensures Clean(off.Print(), OneOf({'T'}))
  {
    if off.Numeric? {
      TwoDigitsValue(off.hours);
      TwoDigitsValue(off.minutes);
    }
  }

  lemma ReadPrintedTime(t: TimeFields, fraction: string, off: Offset)
    requires t.hour < 24 && t.minute < 60 && t.second < 60 && AllDigits(fraction) && off.Valid()
    ensures ReadTime(PrintClock(t, fraction) + off.Print()) == Some(t)
  {
    var clock, tail := PrintClock(t, fraction), off.Print();
    OffsetStarts(off);
    ClockClean(t, fraction, {'+', 'Z', '-'});
    assert clock + tail == clock + [tail[0]] + tail[1..];
    SplitAt(clock, tail[0], tail[1..], OneOf({'+', 'Z', '-'}));
    ReadPrintedClock(t, fraction);
  }

  lemma PrintSplits(i: Instant, fraction: string, off: Offset)
    requires ValidInstant(i) && AllDigits(fraction) && off.Valid()
    ensures Split(Print(i, fraction, off), OneOf({'T'})) == [PrintDate(i.date), PrintClock(i.time, fraction) + off.Print()]
  {
    var date, rest := PrintDate(i.date), PrintClock(i.time, fraction) + off.Print();
    var sep := OneOf({'T'});
    ReadPrintedDate(i.date);
    SplitAt(date, 'T', rest, sep);
    ClockClean(i.time, fraction, {'T'});
    OffsetStarts(off);
    CleanConcat(PrintClock(i.time, fraction), off.Print(), sep);
    SplitClean(rest, sep);
  }

  lemma AssembleInRange(date: DateFields, t: TimeFields)
    requires 0 <= date.year <= I32_MAX && 1 <= date.month <= 12 && 1 <= date.day <= 31
    requires SecondsOfDay(t) <= U32_MAX * 3661
    ensures Assemble(date, t) == Seconds(DayNumber(date.year, date.month, date.day) * 86_400 + SecondsOfDay(t))
  {
    OverflowIff(date.year, date.month, date.day);
    MonthOffsetBounds(date.month);
    DayNumberBounds(date.year, date.month, date.day);
  }

  lemma ParseHalves(s: string, date: string, rest: string, d: DateFields, t: TimeFields)
    requires Split(s, OneOf({'T'})) == [date, rest]
    requires ReadDate(date) == Some(d) && ReadTime(rest) == Some(t)
    requires d.month <= U32_MAX && d.day <= U32_MAX
    ensures ParseIso8601(s) == Assemble(d, t)
  {
    var halves := Split(s, OneOf({'T'}));
    assert halves[0] == date && halves[1] == rest;
  }

  /**
   * Whatever its fraction and offset, a valid RFC 3339 text parses to the
   * seconds its printed clock shows.
   */
  lemma ParseReadsTheClock(i: Instant, fraction: string, off: Offset)
    requires ValidInstant(i) && AllDigits(fraction) && off.Valid()
    ensures ParseIso8601(Print(i, fraction, off)) == Seconds(ClockSeconds(i))
  {
    PrintSplits(i, fraction, off);
    ReadPrintedDate(i.date);
    ReadPrintedTime(i.time, fraction, off);
    var d := DateFields(i.date.y, i.date.m, i.date.d);
    ParseHalves(Print(i, fraction, off), PrintDate(i.date), PrintClock(i.time, fraction) + off.Print(), d, i.time);
    AssembleInRange(d, i.time);
  }

  lemma ZeroOffset(off: Offset)
    requires off.Valid()
    ensures off.Ahead() == 0 <==> off.Zulu? || (off.hours == 0 && off.minutes == 0)
  {
  }

  /**
   * The round trip. The parser drops the UTC offset, so what it answers is
   * ahead of the unix time by that offset, and right exactly when it is zero.
   */
  lemma ParseIsExactIffOffsetIsZero(i: Instant, fraction: string, off: Offset)
    requires ValidInstant(i) && AllDigits(fraction) && off.Valid()
    ensures
      ParseIso8601(Print(i, fraction, off)) == Seconds(UnixSeconds(i, off))
      <==> off.Zulu? || (off.hours == 0 && off.minutes == 0)
    ensures ParseIso8601(Print(i, fraction, off)) == Seconds(UnixSeconds(i, off) + off.Ahead())
  {
    ParseReadsTheClock(i, fraction, off);
    ZeroOffset(off);
    assert UnixSeconds(i, off) == ClockSeconds(i) - off.Ahead();
  }

  predicate EarlierTime(a: TimeFields, b: TimeFields) {
    a.hour < b.hour || (a.hour == b.hour && (a.minute < b.minute || (a.minute == b.minute && a.second < b.second)))
  }

  predicate Earlier(a: Instant, b: Instant) {
    Before(a.date, b.date) || (a.date == b.date && EarlierTime(a.time, b.time))
  }

  lemma ClockOrder(a: Instant, b: Instant)
    requires InCalendar(a) && InCalendar(b)
    ensures ClockSeconds(a) < ClockSeconds(b) <==> Earlier(a, b)
    ensures ClockSeconds(a) == ClockSeconds(b) <==> a == b
  {
    DaysOrder(a.date, b.date);
    DaysOrder(b.date, a.date);
    var da, db := Days(a.date), Days(b.date);
    var sa, sb := SecondsOfDay(a.time), SecondsOfDay(b.time);
    assert 0 <= sa < 86_400 && 0 <= sb < 86_400;
    assert sa < sb <==> EarlierTime(a.time, b.time);
    assert sa == sb <==> a.time == b.time;
    assert ClockSeconds(a) == da * 86_400 + sa && ClockSeconds(b) == db * 86_400 + sb;
  }

  /** Parsed zero-offset timestamps are ordered as the instants they print. */
  lemma ParsedOrderIsTimeOrder(a: Instant, fa: string, oa: Offset, b: Instant, fb: string, ob: Offset)
    requires ValidInstant(a) && AllDigits(fa) && oa.Valid() && oa.Ahead() == 0
    requires ValidInstant(b) && AllDigits(fb) && ob.Valid() && ob.Ahead() == 0
    ensures
      var pa, pb := ParseIso8601(Print(a, fa, oa)), ParseIso8601(Print(b, fb, ob));
      && pa.Seconds? && pb.Seconds?
      && (pa.value < pb.value <==> Earlier(a, b))
      && (pa.value == pb.value <==> a == b)
  {
    ParseReadsTheClock(a, fa, oa);
    ParseReadsTheClock(b, fb, ob);
    ClockOrder(a, b);
  }

  /** Without an upper-case `T` nothing is accepted. */
  lemma NoTimeMarkRejected(s: string)
    requires forall k :: 0 <= k < |s| ==> s[k] != 'T'
    ensures ParseIso8601(s) == Rejected
  {
    SplitClean(s, OneOf({'T'}));
  }

  /** The separator is `-`, so no accepted text can carry a negative year. */
  lemma ParsedYearsAreNatural(date: string)
    ensures ReadDate(date).Some? ==> 0 <= ReadDate(date).value.year <= I32_MAX
  {
    SplitPiecesClean(date, OneOf({'-'}));
    assert Clean(Split(date, OneOf({'-'}))[0], OneOf({'-'}));
  }

  // ------------------------------------------------ fields out of range

  /** The text has readable fields; nothing says they are in range. */
  ghost predicate Reads(s: string, date: DateFields, time: TimeFields) {
    var halves := Split(s, OneOf({'T'}));
    |halves| >= 2 && ReadDate(halves[0]) == Some(date) && ReadTime(halves[1]) == Some(time)
  }

  // ------------------------------------------ the language of the parser

  /** `year-month-day`, and whatever may follow another hyphen. */
  ghost predicate DateText(s: string, date: DateFields, y: string, m: string, d: string, tail: string) {
    var hyphen := OneOf({'-'});
    && s == y + (['-'] + (m + (['-'] + (d + tail))))
    && Clean(y, hyphen) && Clean(m, hyphen) && Clean(d, hyphen) && Opens(tail, hyphen)
    && 0 <= date.year <= I32_MAX && Spells(y, date.year)
    && date.month <= U32_MAX && Spells(m, date.month)
    && date.day <= U32_MAX && Spells(d, date.day)
  }

  /** `hour:minute:second`, whatever may follow a point, and whatever may follow another colon. */
  ghost predicate ClockText(s: string, t: TimeFields, h: string, m: string, sec: string, fraction: string, tail: string) {
    var colon := OneOf({':'});
    && s == h + ([':'] + (m + ([':'] + (sec + fraction + tail))))
    && Clean(h, colon) && Clean(m, colon) && Clean(sec + fraction, colon) && Opens(tail, colon)
    && Clean(sec, OneOf({'.'})) && Opens(fraction, OneOf({'.'}))
    && t.hour <= U32_MAX && Spells(h, t.hour)
    && t.minute <= U32_MAX && Spells(m, t.minute)
    && t.second <= U32_MAX && Spells(sec, t.second)
  }

  /** A date, a `T`, a clock without offset signs, an offset that is not looked at, and whatever may follow another `T`. */
  ghost predicate StampText(s: string, date: string, clock: string, offset: string, tail: string) {
    && s == date + (['T'] + (clock + offset + tail))
    && Clean(date, OneOf({'T'})) && Clean(clock + offset, OneOf({'T'})) && Opens(tail, OneOf({'T'}))
    && Clean(clock, OneOf({'+', 'Z', '-'})) && Opens(offset, OneOf({'+', 'Z', '-'}))
  }

  lemma YearIffSpells(y: string, n: int)
    requires Clean(y, OneOf({'-'}))
    ensures ParseI32(y) == Some(n) <==> 0 <= n <= I32_MAX && Spells(y, n)
  {
    if n >= 0 {
      ParsesIffSpells(y, I32_MAX, n);
    }
  }

  /** Three pieces and a tail, and what splitting makes of them. */
  lemma SplitByThree(a: string, c: char, b: string, d: string, tail: string)
    requires var sep := OneOf({c}); Clean(a, sep) && Clean(b, sep) && Clean(d, sep) && Opens(tail, sep)
    ensures
      var parts := Split(a + ([c] + (b + ([c] + (d + tail)))), OneOf({c}));
      |parts| >= 3 && parts[0] == a && parts[1] == b && parts[2] == d
  {
    var sep := OneOf({c});
    var last := d + tail;
    var mid := b + ([c] + last);
    assert ([c] + mid)[1..] == mid && ([c] + last)[1..] == last;
    SplitBy(a, [c] + mid, sep);
    SplitBy(b, [c] + last, sep);
    SplitBy(d, tail, sep);
  }

  lemma ThreePieces(s: string, c: char) returns (tail: string)
    requires |Split(s, OneOf({c}))| >= 3
    ensures
      var parts, sep := Split(s, OneOf({c})), OneOf({c});
      && s == parts[0] + ([c] + (parts[1] + ([c] + (parts[2] + tail))))
      && Clean(parts[0], sep) && Clean(parts[1], sep) && Clean(parts[2], sep) && Opens(tail, sep)
  {
    var sep := OneOf({c});
    var first := SplitFirst(s, sep);
    assert first != [] && first == [c] + first[1..];
    var second := SplitFirst(first[1..], sep);
    assert second != [] && second == [c] + second[1..];
    tail := SplitFirst(second[1..], sep);
    assert Split(s, sep)[1..][1..][0] == Split(s, sep)[2];
  }

  lemma ReadDateIff(s: string, date: DateFields)
    ensures ReadDate(s) == Some(date) <==> exists y, m, d, tail :: DateText(s, date, y, m, d, tail)
  {
    if ReadDate(s) == Some(date) {
      var tail := ThreePieces(s, '-');
      var parts := Split(s, OneOf({'-'}));
      YearIffSpells(parts[0], date.year);
      ParsesIffSpells(parts[1], U32_MAX, date.month);
      ParsesIffSpells(parts[2], U32_MAX, date.day);
      assert DateText(s, date, parts[0], parts[1], parts[2], tail);
    }
    if y, m, d, tail :| DateText(s, date, y, m, d, tail) {
      SplitByThree(y, '-', m, d, tail);
      YearIffSpells(y, date.year);
      ParsesIffSpells(m, U32_MAX, date.month);
      ParsesIffSpells(d, U32_MAX, date.day);
    }
  }

  lemma ReadClockIff(s: string, t: TimeFields)
    ensures ReadClock(s) == Some(t) <==> exists h, m, sec, fraction, tail :: ClockText(s, t, h, m, sec, fraction, tail)
  {
    if ReadClock(s) == Some(t) {
      var tail := ThreePieces(s, ':');
      var parts := Split(s, OneOf({':'}));
      var fraction := SplitFirst(parts[2], OneOf({'.'}));
      var sec := Split(parts[2], OneOf({'.'}))[0];
      ParsesIffSpells(parts[0], U32_MAX, t.hour);
      ParsesIffSpells(parts[1], U32_MAX, t.minute);
      ParsesIffSpells(sec, U32_MAX, t.second);
      assert ClockText(s, t, parts[0], parts[1], sec, fraction, tail);
    }
    if h, m, sec, fraction, tail :| ClockText(s, t, h, m, sec, fraction, tail) {
      SplitByThree(h, ':', m, sec + fraction, tail);
      SplitBy(sec, fraction, OneOf({'.'}));
      ParsesIffSpells(h, U32_MAX, t.hour);
      ParsesIffSpells(m, U32_MAX, t.minute);
      ParsesIffSpells(sec, U32_MAX, t.second);
    }
  }

  /** The pieces of a whole text. */
  ghost predicate Pieces(s: string, date: DateFields, time: TimeFields, d: string, clock: string, offset: string, tail: string) {
    && StampText(s, d, clock, offset, tail)
    && (exists y, m, day, more :: DateText(d, date, y, m, day, more))
    && (exists h, m, sec, fraction, more :: ClockText(clock, time, h, m, sec, fraction, more))
  }

  lemma StampSplits(s: string, date: string, clock: string, offset: string, tail: string)
    requires StampText(s, date, clock, offset, tail)
    ensures |Split(s, OneOf({'T'}))| >= 2
    ensures Split(s, OneOf({'T'}))[0] == date && Split(s, OneOf({'T'}))[1] == clock + offset
    ensures Split(clock + offset, OneOf({'+', 'Z', '-'}))[0] == clock
  {
    var rest := clock + offset + tail;
    assert (['T'] + rest)[1..] == rest;
    SplitBy(date, ['T'] + rest, OneOf({'T'}));
    SplitBy(clock + offset, tail, OneOf({'T'}));
    SplitBy(clock, offset, OneOf({'+', 'Z', '-'}));
  }

  lemma StampPieces(s: string) returns (offset: string, tail: string)
    requires |Split(s, OneOf({'T'}))| >= 2
    ensures
      var halves := Split(s, OneOf({'T'}));
      StampText(s, halves[0], Split(halves[1], OneOf({'+', 'Z', '-'}))[0], offset, tail)
  {
    var mark := OneOf({'T'});
    var first := SplitFirst(s, mark);
    assert first != [] && first == ['T'] + first[1..];
    tail := SplitFirst(first[1..], mark);
    offset := SplitFirst(Split(s, mark)[1], OneOf({'+', 'Z', '-'}));
  }

  /**
   * Exactly which texts have readable fields, and which fields: besides the
   * texts of RFC 3339 those with signs and zeros in front of the numbers, with
   * any offset or none, and with anything after a further `-`, `:` or `T`.
   */
  lemma ReadsIff(s: string, date: DateFields, time: TimeFields)
    ensures Reads(s, date, time) <==> exists d, clock, offset, tail :: Pieces(s, date, time, d, clock, offset, tail)
  {
    if Reads(s, date, time) {
      var offset, tail := StampPieces(s);
      var halves := Split(s, OneOf({'T'}));
      var clock := Split(halves[1], OneOf({'+', 'Z', '-'}))[0];
      ReadDateIff(halves[0], date);
      ReadClockIff(clock, time);
      assert Pieces(s, date, time, halves[0], clock, offset, tail);
    }
    if d, clock, offset, tail :| Pieces(s, date, time, d, clock, offset, tail) {
      StampSplits(s, d, clock, offset, tail);
      ReadDateIff(d, date);
      ReadClockIff(clock, time);
    }
  }

  /** The fields for which the unguarded `i32` arithmetic overflows. */
  predicate Overflowing(date: DateFields)
    requires date.month <= U32_MAX && date.day <= U32_MAX
  {
    var m, d := AsI32(date.month), AsI32(date.day);
    !(-14_035_849 <= m <= 14_035_843 && -0x8000_0000 < MonthOffset(m) + d <= 0x7FFF_FFFF)
  }

  lemma ReadBounds(s: string, date: DateFields, time: TimeFields)
    requires Reads(s, date, time)
    ensures 0 <= date.year <= I32_MAX && date.month <= U32_MAX && date.day <= U32_MAX
    ensures SecondsOfDay(time) <= U32_MAX * 3661
  {
    var halves := Split(s, OneOf({'T'}));
    ParsedYearsAreNatural(halves[0]);
    ReadTimeBounds(halves[1]);
  }

  lemma ReadTimeBounds(rest: string)
    requires ReadTime(rest).Some?
    ensures SecondsOfDay(ReadTime(rest).value) <= U32_MAX * 3661
  {
  }

  /** The day the parser computes, whether or not the fields name a date. */
  function ComputedDay(date: DateFields): int
    requires date.month <= U32_MAX && date.day <= U32_MAX
  {
    DayNumber(date.year, AsI32(date.month), AsI32(date.day))
  }

  lemma AssembleValue(date: DateFields, time: TimeFields)
    requires 0 <= date.year <= I32_MAX && date.month <= U32_MAX && date.day <= U32_MAX
    requires SecondsOfDay(time) <= U32_MAX * 3661
    ensures Assemble(date, time) ==
            if Overflowing(date) then Overflows else Seconds(ComputedDay(date) * 86_400 + SecondsOfDay(time))
  {
    var m, d := AsI32(date.month), AsI32(date.day);
    OverflowIff(date.year, m, d);
    if !Overflowing(date) {
      DayNumberBounds(date.year, m, d);
    }
  }

  /** What becomes of any readable fields: an overflow, or a value; never a rejection. */
  lemma ParseValue(s: string, date: DateFields, time: TimeFields)
    requires Reads(s, date, time)
    ensures date.month <= U32_MAX && date.day <= U32_MAX
    ensures ParseIso8601(s) ==
            if Overflowing(date) then Overflows
            else Seconds(ComputedDay(date) * 86_400 + time.hour * 3600 + time.minute * 60 + time.second)
  {
    ReadBounds(s, date, time);
    AssembleValue(date, time);
    assert ParseIso8601(s) == Assemble(date, time);
  }

  /** Texts are rejected only for fields that cannot be read. */
  lemma RejectedIffUnreadable(s: string)
    ensures ParseIso8601(s) == Rejected <==> forall date, time :: !Reads(s, date, time)
  {
    var halves := Split(s, OneOf({'T'}));
    if |halves| >= 2 && ReadDate(halves[0]).Some? && ReadTime(halves[1]).Some? {
      var date, time := ReadDate(halves[0]).value, ReadTime(halves[1]).value;
      assert Reads(s, date, time);
      ParseValue(s, date, time);
    }
  }

  predicate ClockInRange(t: TimeFields) { t.hour < 24 && t.minute < 60 && t.second < 60 }

  predicate InCalendar(i: Instant) { Valid(i.date) && ClockInRange(i.time) }

  /** Every number of seconds is the clock of exactly one instant of the calendar. */
  lemma SecondsNameOneInstant(seconds: int) returns (i: Instant)
    ensures InCalendar(i) && ClockSeconds(i) == seconds
    ensures forall j :: InCalendar(j) && ClockSeconds(j) == seconds ==> j == i
  {
    i := InstantAt(seconds / 86_400, seconds % 86_400);
    forall j | InCalendar(j) && ClockSeconds(j) == seconds
      ensures j == i
    {
      ClockOrder(i, j);
    }
  }

  lemma InstantAt(day: int, rest: nat) returns (i: Instant)
    requires rest < 86_400
    ensures InCalendar(i) && ClockSeconds(i) == day * 86_400 + rest
  {
    DateOnIsInverse(day);
    var t := ClockAt(rest);
    i := Instant(DateOn(day), t);
    assert Days(i.date) == day;
  }

  lemma ClockAt(rest: nat) returns (t: TimeFields)
    requires rest < 86_400
    ensures ClockInRange(t) && SecondsOfDay(t) == rest
  {
    t := TimeFields(rest / 3600, rest % 3600 / 60, rest % 60);
  }

  /** The instant the fields print, which need not exist. */
  function Printed(date: DateFields, time: TimeFields): Instant {
    Instant(Date(date.year, date.month, date.day), time)
  }

  /**
   * The instant `i` that the answer denotes is the one that was printed exactly
   * when that exists; the parser accepts the others and answers something else.
   */
  lemma DenotesPrintedIffValid(s: string, date: DateFields, time: TimeFields, i: Instant)
    requires Reads(s, date, time)
    requires InCalendar(i) && ParseIso8601(s) == Seconds(ClockSeconds(i))
    ensures i == Printed(date, time) <==> InCalendar(Printed(date, time))
  {
    ParseValue(s, date, time);
    if InCalendar(Printed(date, time)) {
      ComputedSeconds(date, time);
      ClockOrder(i, Printed(date, time));
    }
  }

  lemma ComputedSeconds(date: DateFields, time: TimeFields)
    requires Valid(Date(date.year, date.month, date.day))
    ensures ComputedDay(date) * 86_400 + SecondsOfDay(time) == ClockSeconds(Printed(date, time))
  {
  }

  /**
   * What it answers instead: a day outside its month counts on from the first
   * of the month, day 0 being the day before, and so does a month outside its
   * year, but only between ten months back and two months over.
   */
  lemma ParseRunsOnIff(s: string, date: DateFields, time: TimeFields)
    requires Reads(s, date, time)
    ensures date.month <= U32_MAX && date.day <= U32_MAX
    ensures ParseIso8601(s).Seconds? ==>
      (ParseIso8601(s).value ==
       (Days(FirstOf(date.year, AsI32(date.month))) + AsI32(date.day) - 1) * 86_400 + SecondsOfDay(time)
       <==> MonthRunsOn(date.year, AsI32(date.month)))
  {
    ParseValue(s, date, time);
    RunsOnIff(date.year, AsI32(date.month), AsI32(date.day));
  }

  /**
   * When the fields of an accepted text are in calendar range, parsing always
   * succeeds, without overflow, whatever the year.
   */
  lemma InRangeFieldsNeverOverflow(s: string, date: DateFields, time: TimeFields)
    requires Reads(s, date, time) && 1 <= date.month <= 12 && 1 <= date.day <= 31
    ensures ParseIso8601(s).Seconds?
  {
    ParseValue(s, date, time);
    MonthOffsetBounds(date.month);
  }

  const MIDNIGHT := TimeFields(0, 0, 0)

  /** Any digits for the three date fields, and midnight in UTC. */
  function Midnight(year: string, month: string, day: string): string {
    year + ['-'] + (month + ['-'] + day) + ['T'] + (PrintClock(MIDNIGHT, []) + "Z")
  }

  lemma MidnightReads(year: string, month: string, day: string)
    requires AllDigits(year) && year != [] && DigitsValue(year) <= I32_MAX
    requires AllDigits(month) && month != [] && DigitsValue(month) <= U32_MAX
    requires AllDigits(day) && day != [] && DigitsValue(day) <= U32_MAX
    ensures Reads(Midnight(year, month, day),
                  DateFields(DigitsValue(year), DigitsValue(month), DigitsValue(day)), MIDNIGHT)
  {
    var date, time := year + ['-'] + (month + ['-'] + day), MIDNIGHT;
    ReadDigits(year, month, day);
    HyphenatedClean(year, month, day);
    ReadPrintedTime(time, [], Zulu);
    ClockClean(time, [], {'T'});
    CleanConcat(PrintClock(time, []), "Z", OneOf({'T'}));
    SplitAt(date, 'T', PrintClock(time, []) + "Z", OneOf({'T'}));
    SplitClean(PrintClock(time, []) + "Z", OneOf({'T'}));
    var halves := Split(Midnight(year, month, day), OneOf({'T'}));
    assert halves == [date, PrintClock(time, []) + "Z"];
  }

  /** On the first of a month, overflow is a matter of the month alone. */
  lemma MonthOverflowsIff(year: nat, month: nat)
    requires year <= I32_MAX && month <= U32_MAX
    ensures ParseIso8601(Midnight(Decimal(year), Decimal(month), TwoDigits(1))) == Overflows
            <==> 14_035_843 < month < 0x1_0000_0000 - 14_035_849
  {
    DecimalValue(year);
    DecimalValue(month);
    TwoDigitsValue(1);
    MidnightReads(Decimal(year), Decimal(month), TwoDigits(1));
    FirstOverflowsIff(year, month);
    ParseValue(Midnight(Decimal(year), Decimal(month), TwoDigits(1)), DateFields(year, month, 1), MIDNIGHT);
  }

  lemma FirstOverflowsIff(year: nat, month: nat)
    requires month <= U32_MAX
    ensures Overflowing(DateFields(year, month, 1)) <==> 14_035_843 < month < 0x1_0000_0000 - 14_035_849
  {
  }

  /** The text of two-digit months and days, possible or not, at midnight. */
  function MidnightOf(date: DateFields): string
    requires 0 <= date.year < 10000 && date.month < 100 && date.day < 100
  {
    Midnight(FourDigits(date.year), TwoDigits(date.month), TwoDigits(date.day))
  }

  lemma MidnightOfReads(date: DateFields)
    requires 0 <= date.year < 10000 && date.month < 100 && date.day < 100
    ensures Reads(MidnightOf(date), date, MIDNIGHT)
  {
    FourDigitsValue(date.year);
    TwoDigitsValue(date.month);
    TwoDigitsValue(date.day);
    MidnightReads(FourDigits(date.year), TwoDigits(date.month), TwoDigits(date.day));
  }

  lemma NotOverflowing(date: DateFields)
    requires date.month < 100 && date.day < 100
    ensures !Overflowing(date)
  {
    MonthOffsetBounds(date.month);
  }

  /** Two-digit fields are always accepted, and taken for the date of the same day number. */
  lemma TakenFor(s: string, date: DateFields, time: TimeFields, other: Date)
    requires Reads(s, date, time) && date.month < 100 && date.day < 100
    requires ComputedDay(date) == Days(other)
    ensures ParseIso8601(s) == Seconds(ClockSeconds(Instant(other, time)))
  {
    ParseValue(s, date, time);
    NotOverflowing(date);
  }

  /** 30 February, 0 March, and months 13 and 15; the last counts 367 days for twelve months. */
  predicate Mistaken(date: DateFields, other: Date) {
    || (date == DateFields(2023, 2, 30) && other == Date(2023, 3, 2))
    || (date == DateFields(2024, 3, 0) && other == Date(2024, 2, 29))
    || (date == DateFields(2024, 13, 1) && other == Date(2025, 1, 1))
    || (date == DateFields(2024, 15, 1) && other == Date(2025, 3, 3))
  }

  lemma ImpossibleDatesAccepted(date: DateFields, other: Date)
    requires Mistaken(date, other)
    ensures ParseIso8601(MidnightOf(date)) == Seconds(ClockSeconds(Instant(other, MIDNIGHT)))
  {
    MistakenDays(date, other);
    MidnightTakenFor(date, other);
  }

  lemma MistakenDays(date: DateFields, other: Date)
    requires Mistaken(date, other)
    ensures ComputedDay(date) == Days(other)
  {
    LateFebruary();
    DayZero();
    MonthsOver();
  }

  lemma LateFebruary()
    ensures ComputedDay(DateFields(2023, 2, 30)) == Days(Date(2023, 3, 2))
  {
    assert DayNumber(2023, 2, 30) == 19_418;
  }

  lemma DayZero()
    ensures ComputedDay(DateFields(2024, 3, 0)) == Days(Date(2024, 2, 29))
  {
    assert DayNumber(2024, 3, 0) == 19_782;
  }

  lemma MonthsOver()
    ensures ComputedDay(DateFields(2024, 13, 1)) == Days(Date(2025, 1, 1))
    ensures ComputedDay(DateFields(2024, 15, 1)) == Days(Date(2025, 3, 3))
  {
    assert DayNumber(2024, 13, 1) == 20_089;
    assert DayNumber(2024, 15, 1) == 20_150;
  }

  lemma MidnightTakenFor(date: DateFields, other: Date)
    requires 0 <= date.year < 10000 && date.month < 100 && date.day < 100
    requires ComputedDay(date) == Days(other)
    ensures ParseIso8601(MidnightOf(date)) == Seconds(ClockSeconds(Instant(other, MIDNIGHT)))
  {
    MidnightOfReads(date);
    TakenFor(MidnightOf(date), date, MIDNIGHT, other);
  }
}
