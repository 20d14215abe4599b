/** RFC 3339 instants with fractions of any length: parsed to a UTC second and a zero-stripped fraction text. */
module Rfc3339 {
  import opened Wrappers
  import opened Orders
  import opened Text
  import opened Calendar

  datatype Instant = Instant(utcSecond: int, fraction: string)

  /** The ordering the frozen dataclass derives from its two fields. */
  predicate InstantLess(a: Instant, b: Instant) {
    a.utcSecond < b.utcSecond || (a.utcSecond == b.utcSecond && TextLess(a.fraction, b.fraction))
  }

  lemma {:induction false} InstantLessTotal()
    ensures StrictTotal(InstantLess)
  {
    TextLessTotal();
  }

  /** The date-time, fraction and offset a text matching the strict pattern is made of. */
  datatype Stamp = Stamp(date: Date, second: nat, fraction: string, offsetMinutes: int)

  function ClockMinutes(s: string): Option<nat>
    requires |s| == 5
  {
    if s[2] != ':' then None
    else
      match (Number(s[..2]), Number(s[3..]))
      case (Some(h), Some(m)) => if h < 24 && m < 60 then Some(h * 60 + m) else None
      case _ => None
  }

  function MatchOffset(s: string): Option<int> {
    if s == "Z" then Some(0)
    else if |s| != 6 || (s[0] != '+' && s[0] != '-') then None
    else
      match ClockMinutes(s[1..])
      case None => None
      case Some(m) => (var n: int := m; Some(if s[0] == '-' then -n else n))
  }

  function DigitRun(s: string): (k: nat)
    ensures k <= |s| && AllDigits(s[..k])
    ensures k < |s| ==> !IsDigit(s[k])
  {
    if s == "" || !IsDigit(s[0]) then 0
    else
      var k := DigitRun(s[1..]);
      assert s[..k + 1] == [s[0]] + s[1..][..k];
      k + 1
  }

  function MatchDate(s: string): Option<Date>
    requires |s| == 10
  {
    if s[4] != '-' || s[7] != '-' then None
    else
      match (Number(s[..4]), Number(s[5..7]), Number(s[8..]))
      case (Some(y), Some(m), Some(d)) => Some(Date(y, m, d))
      case _ => None
  }

  function MatchSecond(s: string): Option<nat>
    requires |s| == 8
  {
    if s[5] != ':' then None
    else
      match (ClockMinutes(s[..5]), Number(s[6..]))
      case (Some(m), Some(sec)) => if sec < 60 then Some(m * 60 + sec) else None
      case _ => None
  }

  /** Cuts an optional ".digits" off the front. */
  function MatchFraction(s: string): Option<(string, string)> {
    if s != "" && s[0] == '.' then
      var k := DigitRun(s[1..]);
      if k == 0 then None else Some((s[1..][..k], s[1..][k..]))
    else Some(("", s))
  }

  function MatchStamp(text: string): (r: Option<Stamp>)
    ensures r.Some? ==> AllDigits(r.value.fraction)
  {
    if |text| < 20 || text[10] != 'T' then None
    else
      match (MatchDate(text[..10]), MatchSecond(text[11..19]), MatchFraction(text[19..]))
      case (Some(date), Some(second), Some((fraction, rest))) =>
        (match MatchOffset(rest)
         case Some(offset) => Some(Stamp(date, second, fraction, offset))
         case None => None)
      case _ => None
  }

  function UtcSecond(stamp: Stamp): int {
    Ordinal(stamp.date) * 86400 + stamp.second - stamp.offsetMinutes * 60
  }

  const FIRST_SECOND: int := 86400
  const LAST_SECOND: int := LAST_ORDINAL * 86400 + 86399

  function StripZeros(s: string): string {
    if s != "" && s[|s| - 1] == '0' then StripZeros(s[..|s| - 1]) else s
  }

  /** The parser. None is its refusal: no match, no such day, or out of the library's range once in UTC. */
  function ParseInstant(text: string): Option<Instant> {
    match MatchStamp(text)
    case None => None
    case Some(stamp) =>
      if !Valid(stamp.date) then None
      else if UtcSecond(stamp) < FIRST_SECOND || UtcSecond(stamp) > LAST_SECOND then None
      else Some(Instant(UtcSecond(stamp), StripZeros(stamp.fraction)))
  }

  // ---- exact time ----

  /** The fraction of a second a digit string stands for. */
  function FractionValue(s: string): real
    requires AllDigits(s)
  {
    if s == "" then 0.0 else (DigitValue(s[0]) as real + FractionValue(s[1..])) / 10.0
  }

  /** The instant a text denotes, in seconds, with all its digits. */
  function ExactTime(text: string): real
    requires ParseInstant(text).Some?
  {
    var stamp := MatchStamp(text).value;
    UtcSecond(stamp) as real + FractionValue(stamp.fraction)
  }

  predicate Stripped(s: string) {
    s == "" || s[|s| - 1] != '0'
  }

  lemma {:induction false} FractionBounds(s: string)
    requires AllDigits(s)
    ensures 0.0 <= FractionValue(s) < 1.0
    ensures s != "" && Stripped(s) ==> FractionValue(s) > 0.0
  {
    if s != "" {
      FractionBounds(s[1..]);
    }
  }

  lemma {:induction false} TrailingZero(s: string)
    requires AllDigits(s)
    ensures AllDigits(s + "0") && FractionValue(s + "0") == FractionValue(s)
  {
    if s == "" {
      assert FractionValue("0") == (0.0 + FractionValue("")) / 10.0;
    } else {
      TrailingZero(s[1..]);
      assert (s + "0")[1..] == s[1..] + "0";
    }
  }

  lemma {:induction false} StripKeepsValue(s: string)
    requires AllDigits(s)
    ensures var t := StripZeros(s); AllDigits(t) && Stripped(t) && FractionValue(t) == FractionValue(s)
  {
    if s != "" && s[|s| - 1] == '0' {
      var front := s[..|s| - 1];
      StripKeepsValue(front);
      TrailingZero(front);
      assert s == front + "0";
    }
  }

  /** Zero-stripped digit strings of any lengths compare as text in the order of their values. */
  lemma {:induction false} FractionOrder(a: string, b: string)
    requires AllDigits(a) && AllDigits(b) && Stripped(a) && Stripped(b)
    ensures TextLess(a, b) <==> FractionValue(a) < FractionValue(b)
    ensures a == b <==> FractionValue(a) == FractionValue(b)
  {
    FractionBounds(a);
    FractionBounds(b);
    if a != "" && b != "" {
      FractionBounds(a[1..]);
      FractionBounds(b[1..]);
      FractionOrder(a[1..], b[1..]);
      assert a == [a[0]] + a[1..] && b == [b[0]] + b[1..];
      assert a[0] < b[0] <==> DigitValue(a[0]) < DigitValue(b[0]);
    }
  }

  /** Parsed instants compare, and are equal, exactly as the times their texts denote. */
  lemma {:induction false} InstantsCompareExactly(a: string, b: string)
    requires ParseInstant(a).Some? && ParseInstant(b).Some?
    ensures InstantLess(ParseInstant(a).value, ParseInstant(b).value) <==> ExactTime(a) < ExactTime(b)
    ensures ParseInstant(a) == ParseInstant(b) <==> ExactTime(a) == ExactTime(b)
  {
    var p, q := MatchStamp(a).value, MatchStamp(b).value;
    StripKeepsValue(p.fraction);
    StripKeepsValue(q.fraction);
    FractionBounds(p.fraction);
    FractionBounds(q.fraction);
    FractionOrder(StripZeros(p.fraction), StripZeros(q.fraction));
  }

  // ---- printed timestamps ----

  function Clock(hour: nat, minute: nat): string {
    Padded(hour, 2) + ":" + Padded(minute, 2)
  }

  /** An offset as written: 'Z', or a sign and a clock. */
  datatype Offset = Zulu | Ahead(hour: nat, minute: nat) | Behind(hour: nat, minute: nat)

  predicate OffsetFits(o: Offset) {
    o.Zulu? || (o.hour < 24 && o.minute < 60)
  }

  function OffsetText(o: Offset): string {
    match o case Zulu => "Z" case Ahead(h, m) => "+" + Clock(h, m) case Behind(h, m) => "-" + Clock(h, m)
  }

  /** Minutes that local time is ahead of UTC. */
  function OffsetMinutes(o: Offset): int {
    match o case Zulu => 0 case Ahead(h, m) => h * 60 + m case Behind(h, m) => -(h * 60 + m)
  }

  function FractionText(fraction: string): string {
    if fraction == "" then "" else "." + fraction
  }

  function Timestamp(d: Date, hour: nat, minute: nat, second: nat, fraction: string, o: Offset): string {
    Format(d) + "T" + (Clock(hour, minute) + ":" + Padded(second, 2)) + (FractionText(fraction) + OffsetText(o))
  }

  lemma {:induction false} TwoDigitNumber(n: nat)
    requires n < 100
    ensures |Padded(n, 2)| == 2 && Number(Padded(n, 2)) == Some(n)
  {
    assert Power10(2) == 100 by { assert Power10(1) == 10 * Power10(0); }
    DecimalLength(n, 2);
    DigitsValuePadded(n, 2);
  }

  lemma {:induction false} ReadClock(hour: nat, minute: nat)
    requires hour < 24 && minute < 60
    ensures |Clock(hour, minute)| == 5 && ClockMinutes(Clock(hour, minute)) == Some(hour * 60 + minute)
  {
    TwoDigitNumber(hour);
    TwoDigitNumber(minute);
    var s := Clock(hour, minute);
    assert s[..2] == Padded(hour, 2) && s[3..] == Padded(minute, 2);
  }

  lemma {:induction false} SignedOffset(sign: string, clock: string, minutes: nat)
    requires |clock| == 5 && ClockMinutes(clock) == Some(minutes)
    requires sign == "+" || sign == "-"
    ensures MatchOffset(sign + clock) == (var n: int := minutes; Some(if sign == "-" then -n else n))
  {
    assert (sign + clock)[1..] == clock && (sign + clock)[0] == sign[0];
  }

  lemma {:induction false} ReadSigned(o: Offset, sign: string, clock: string, minutes: nat)
    requires !o.Zulu? && sign == (if o.Ahead? then "+" else "-") && clock == Clock(o.hour, o.minute)
    requires minutes == o.hour * 60 + o.minute && |clock| == 5 && ClockMinutes(clock) == Some(minutes)
    ensures MatchOffset(OffsetText(o)) == Some(OffsetMinutes(o))
  {
    SignedOffset(sign, clock, minutes);
    assert OffsetText(o) == sign + clock;
  }

  lemma {:induction false} ReadOffset(o: Offset)
    requires OffsetFits(o)
    ensures MatchOffset(OffsetText(o)) == Some(OffsetMinutes(o))
  {
    if !o.Zulu? {
      ReadClock(o.hour, o.minute);
      ReadSigned(o, if o.Ahead? then "+" else "-", Clock(o.hour, o.minute), o.hour * 60 + o.minute);
    }
  }

  lemma {:induction false} OffsetStarts(o: Offset)
    ensures OffsetText(o) != "" && !IsDigit(OffsetText(o)[0]) && OffsetText(o)[0] != '.'
  {
  }

  lemma {:induction false} SecondParts(s: string, clock: string, digits: string, minutes: nat, second: nat)
    requires s == clock + ":" + digits && |clock| == 5 && |digits| == 2
    requires ClockMinutes(clock) == Some(minutes) && Number(digits) == Some(second) && second < 60
    ensures |s| == 8 && MatchSecond(s) == Some(minutes * 60 + second)
  {
    assert s[..5] == clock && s[6..] == digits;
  }

  lemma {:induction false} ReadSecond(hour: nat, minute: nat, second: nat)
    requires hour < 24 && minute < 60 && second < 60
    ensures var s := Clock(hour, minute) + ":" + Padded(second, 2);
            |s| == 8 && MatchSecond(s) == Some((hour * 60 + minute) * 60 + second)
  {
    ReadClock(hour, minute);
    TwoDigitNumber(second);
    SecondParts(Clock(hour, minute) + ":" + Padded(second, 2), Clock(hour, minute), Padded(second, 2),
                hour * 60 + minute, second);
  }

  lemma {:induction false} ReadDigits(digits: string, rest: string)
    requires AllDigits(digits) && rest != "" && !IsDigit(rest[0])
    ensures DigitRun(digits + rest) == |digits|
  {
    if digits == "" {
      assert digits + rest == rest;
    } else {
      ReadDigits(digits[1..], rest);
      assert (digits + rest)[1..] == digits[1..] + rest;
    }
  }

  lemma {:induction false} ReadFraction(fraction: string, rest: string)
    requires AllDigits(fraction) && rest != "" && !IsDigit(rest[0]) && rest[0] != '.'
    ensures MatchFraction(FractionText(fraction) + rest) == Some((fraction, rest))
  {
    if fraction == "" {
      assert "" + rest == rest;
    } else {
      var s := FractionText(fraction) + rest;
      assert s[1..] == fraction + rest;
      ReadDigits(fraction, rest);
      assert (fraction + rest)[..|fraction|] == fraction && (fraction + rest)[|fraction|..] == rest;
    }
  }

  lemma {:induction false} DateParts(s: string, y: string, m: string, n: string, d: Date)
    requires s == y + "-" + m + "-" + n && |y| == 4 && |m| == 2 && |n| == 2
    requires Number(y) == Some(d.year) && Number(m) == Some(d.month) && Number(n) == Some(d.day)
    ensures |s| == 10 && MatchDate(s) == Some(d)
  {
    assert s[..4] == y && s[5..7] == m && s[8..] == n;
  }

  lemma {:induction false} ReadDate(d: Date)
    requires Valid(d)
    ensures |Format(d)| == 10 && MatchDate(Format(d)) == Some(d)
  {
    FormatParts(d);
    DigitsValuePadded(d.year, 4);
    DigitsValuePadded(d.month, 2);
    DigitsValuePadded(d.day, 2);
    DateParts(Format(d), Padded(d.year, 4), Padded(d.month, 2), Padded(d.day, 2), d);
  }

  lemma {:induction false} StampParts(text: string, date: string, clock: string, tail: string, d: Date, second: nat,
      fraction: string, rest: string, minutes: int)
    requires text == date + "T" + clock + tail && |date| == 10 && |clock| == 8 && tail != ""
    requires MatchDate(date) == Some(d) && MatchSecond(clock) == Some(second)
    requires MatchFraction(tail) == Some((fraction, rest)) && MatchOffset(rest) == Some(minutes)
    ensures MatchStamp(text) == Some(Stamp(d, second, fraction, minutes))
  {
    assert text[..10] == date && text[10] == 'T' && text[11..19] == clock && text[19..] == tail;
  }

  lemma {:induction false} InstantOf(text: string, stamp: Stamp)
    requires MatchStamp(text) == Some(stamp) && Valid(stamp.date)
    ensures ParseInstant(text).Some? <==> FIRST_SECOND <= UtcSecond(stamp) <= LAST_SECOND
    ensures ParseInstant(text).Some? ==>
              ParseInstant(text).value == Instant(UtcSecond(stamp), StripZeros(stamp.fraction)) &&
              ExactTime(text) == UtcSecond(stamp) as real + FractionValue(stamp.fraction)
  {
  }

  /** Every printed timestamp is read back: its date, its clock, all its fraction digits and its offset. */
  lemma {:induction false} ReadsPrinted(d: Date, hour: nat, minute: nat, second: nat, fraction: string, o: Offset)
    requires Valid(d) && hour < 24 && minute < 60 && second < 60 && AllDigits(fraction) && OffsetFits(o)
    ensures MatchStamp(Timestamp(d, hour, minute, second, fraction, o)) ==
            Some(Stamp(d, (hour * 60 + minute) * 60 + second, fraction, OffsetMinutes(o)))
  {
    ReadDate(d);
    ReadSecond(hour, minute, second);
    ReadOffset(o);
    OffsetStarts(o);
    ReadFraction(fraction, OffsetText(o));
    StampParts(Timestamp(d, hour, minute, second, fraction, o), Format(d),
               Clock(hour, minute) + ":" + Padded(second, 2), FractionText(fraction) + OffsetText(o), d,
               (hour * 60 + minute) * 60 + second, fraction, OffsetText(o), OffsetMinutes(o));
  }

  // ---- nothing else is read ----

  lemma {:induction false} NumberBack(s: string, n: nat)
    requires Number(s) == Some(n)
    ensures s == Padded(n, |s|)
  {
    PaddedBack(s);
  }

  lemma {:induction false} ClockBack(s: string, minutes: nat) returns (hour: nat, minute: nat)
    requires |s| == 5 && ClockMinutes(s) == Some(minutes)
    ensures hour < 24 && minute < 60 && minutes == hour * 60 + minute && s == Clock(hour, minute)
  {
    hour, minute := Number(s[..2]).value, Number(s[3..]).value;
    NumberBack(s[..2], hour);
    NumberBack(s[3..], minute);
    assert s == s[..2] + ":" + s[3..];
  }

  lemma {:induction false} OffsetBack(s: string, minutes: int) returns (o: Offset)
    requires MatchOffset(s) == Some(minutes)
    ensures OffsetFits(o) && s == OffsetText(o) && minutes == OffsetMinutes(o)
  {
    if s == "Z" {
      o := Zulu;
    } else {
      var hour, minute := ClockBack(s[1..], ClockMinutes(s[1..]).value);
      o := if s[0] == '+' then Ahead(hour, minute) else Behind(hour, minute);
      assert s == [s[0]] + s[1..];
    }
  }

  lemma {:induction false} SecondBack(s: string, second: nat) returns (hour: nat, minute: nat, sec: nat)
    requires |s| == 8 && MatchSecond(s) == Some(second)
    ensures hour < 24 && minute < 60 && sec < 60 && second == (hour * 60 + minute) * 60 + sec
    ensures s == Clock(hour, minute) + ":" + Padded(sec, 2)
  {
    hour, minute := ClockBack(s[..5], ClockMinutes(s[..5]).value);
    sec := Number(s[6..]).value;
    NumberBack(s[6..], sec);
    assert s == s[..5] + ":" + s[6..];
  }

  lemma {:induction false} DateBack(s: string, d: Date)
    requires |s| == 10 && MatchDate(s) == Some(d)
    ensures s == Format(d)
  {
    NumberBack(s[..4], d.year);
    NumberBack(s[5..7], d.month);
    NumberBack(s[8..], d.day);
    assert s == s[..4] + "-" + s[5..7] + "-" + s[8..];
  }

  lemma {:induction false} FractionBack(s: string, fraction: string, rest: string)
    requires MatchFraction(s) == Some((fraction, rest))
    ensures s == FractionText(fraction) + rest && AllDigits(fraction)
  {
    if s != "" && s[0] == '.' {
      assert s == [s[0]] + s[1..];
      assert s[1..] == fraction + rest;
    }
  }

  lemma {:induction false} CutStamp(text: string)
    requires |text| >= 20 && text[10] == 'T'
    ensures text == text[..10] + "T" + text[11..19] + text[19..]
  {
  }

  /** The other way round: what is read is a printed timestamp, so those are exactly the texts that are read. */
  lemma {:induction false} ReadIsPrinted(text: string, stamp: Stamp)
    returns (hour: nat, minute: nat, second: nat, o: Offset)
    requires MatchStamp(text) == Some(stamp)
    ensures hour < 24 && minute < 60 && second < 60 && OffsetFits(o) && AllDigits(stamp.fraction)
    ensures stamp.second == (hour * 60 + minute) * 60 + second && stamp.offsetMinutes == OffsetMinutes(o)
    ensures text == Timestamp(stamp.date, hour, minute, second, stamp.fraction, o)
  {
    var rest := MatchFraction(text[19..]).value.1;
    CutStamp(text);
    DateBack(text[..10], stamp.date);
    hour, minute, second := SecondBack(text[11..19], stamp.second);
    FractionBack(text[19..], stamp.fraction, rest);
    o := OffsetBack(rest, stamp.offsetMinutes);
  }

  /** The instant of a printed timestamp: day number, clock and offset in UTC seconds and the stripped
      fraction; refused exactly when the library's UTC range is left. */
  lemma {:induction false} PrintedInstant(d: Date, hour: nat, minute: nat, second: nat, fraction: string, o: Offset)
    requires Valid(d) && hour < 24 && minute < 60 && second < 60 && AllDigits(fraction) && OffsetFits(o)
    ensures var text := Timestamp(d, hour, minute, second, fraction, o);
            var utc := Ordinal(d) * 86400 + hour * 3600 + (minute - OffsetMinutes(o)) * 60 + second;
            && (ParseInstant(text).Some? <==> FIRST_SECOND <= utc <= LAST_SECOND)
            && (ParseInstant(text).Some? ==>
                  ParseInstant(text).value == Instant(utc, StripZeros(fraction)) &&
                  ExactTime(text) == utc as real + FractionValue(fraction))
  {
    ReadsPrinted(d, hour, minute, second, fraction, o);
    InstantOf(Timestamp(d, hour, minute, second, fraction, o),
              Stamp(d, (hour * 60 + minute) * 60 + second, fraction, OffsetMinutes(o)));
  }
}
