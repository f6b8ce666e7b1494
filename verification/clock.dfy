/** Times of day and their textual forms.

    A time of day is a whole number of minutes since midnight (0 .. 1439); the
    current instant is a number of seconds since today's midnight. The text
    forms are the ones the plugin reads and writes: `"HH:MM"` in the activity
    catalog and in reminder messages, `"HHMM"` inside reminder job ids, and
    plain decimal numbers in display offsets such as `"+11"`. */
module Clock {
  import opened Basics

  const MinutesPerHour := 60
  const MinutesPerDay := 1440
  const SecondsPerMinute := 60
  const SecondsPerDay := 86400

  predicate IsMinuteOfDay(m: int) {
    0 <= m < MinutesPerDay
  }

  // ---------- decimal digits ----------

  /** ASCII decimal digit. */
  predicate IsDigit(c: char) {
    '0' <= c <= '9'
  }

  function DigitValue(c: char): nat
    requires IsDigit(c)
  {
    c as int - '0' as int
  }

  function DigitChar(d: nat): (c: char)
    requires d < 10
    ensures IsDigit(c) && DigitValue(c) == d
  {
    ('0' as int + d) as char
  }

  predicate AllDigits(s: string) {
    forall i :: 0 <= i < |s| ==> IsDigit(s[i])
  }

  /** The value of a string of decimal digits, most significant first. */
  function DigitsValue(s: string): nat
    requires AllDigits(s)
  {
    if |s| == 0 then 0 else DigitsValue(s[..|s| - 1]) * 10 + DigitValue(s[|s| - 1])
  }

  /** A non-negative decimal literal: one or more ASCII digits, nothing else. */
  function ParseNat(s: string): (r: Option<nat>)
    ensures r.Some? <==> |s| > 0 && AllDigits(s)
  {
    if |s| > 0 && AllDigits(s) then Some(DigitsValue(s)) else None
  }

  /** Shortest decimal rendering of `n`. */
  function Decimal(n: nat): (s: string)
    ensures |s| > 0 && AllDigits(s)
  {
    if n < 10 then [DigitChar(n)] else Decimal(n / 10) + [DigitChar(n % 10)]
  }

  lemma {:induction false} DecimalValue(n: nat)
    ensures DigitsValue(Decimal(n)) == n
  {
    var s := Decimal(n);
    if n < 10 {
      assert s[..0] == [];
    } else {
      assert s[..|s| - 1] == Decimal(n / 10);
      DecimalValue(n / 10);
    }
  }

  /** Reading back a rendered number gives the number. */
  lemma ParseDecimal(n: nat)
    ensures ParseNat(Decimal(n)) == Some(n)
  {
    DecimalValue(n);
  }

  /** Two digits, zero-padded (`%02d`). */
  function Pad2(n: nat): (s: string)
    requires n < 100
    ensures |s| == 2 && AllDigits(s)
  {
    [DigitChar(n / 10), DigitChar(n % 10)]
  }

  lemma Pad2Value(n: nat)
    requires n < 100
    ensures DigitsValue(Pad2(n)) == n
  {
    var s := Pad2(n);
    assert s[..1][..0] == [];
    assert DigitsValue(s[..1]) == n / 10;
    assert DigitsValue(s) == (n / 10) * 10 + n % 10;
  }

  // ---------- "HH:MM" ----------

  /** Time of day of minute `m` (which may lie on another day), as `strftime("%H:%M")`. */
  function FormatClock(m: int): (s: string)
    ensures |s| == 5 && s[2] == ':'
    ensures forall i :: 0 <= i < |s| ==> IsDigit(s[i]) || s[i] == ':'
  {
    var t := m % MinutesPerDay;
    Pad2(t / MinutesPerHour) + ":" + Pad2(t % MinutesPerHour)
  }

  /** Time of day of minute `m`, as `strftime("%H%M")`. */
  function FormatKey(m: int): (s: string)
    ensures |s| == 4 && AllDigits(s)
  {
    var t := m % MinutesPerDay;
    Pad2(t / MinutesPerHour) + Pad2(t % MinutesPerHour)
  }

  lemma Pad2Injective(x: nat, y: nat)
    requires x < 100 && y < 100 && Pad2(x) == Pad2(y)
    ensures x == y
  {
    Pad2Value(x);
    Pad2Value(y);
  }

  lemma Pad2PairSplit(a: nat, b: nat, c: nat, d: nat)
    requires a < 100 && b < 100 && c < 100 && d < 100
    requires Pad2(a) + Pad2(b) == Pad2(c) + Pad2(d)
    ensures a == c && b == d
  {
    assert Pad2(a) == (Pad2(a) + Pad2(b))[..2];
    assert Pad2(c) == (Pad2(c) + Pad2(d))[..2];
    assert Pad2(b) == (Pad2(a) + Pad2(b))[2..];
    assert Pad2(d) == (Pad2(c) + Pad2(d))[2..];
    Pad2Injective(a, c);
    Pad2Injective(b, d);
  }

  /** Two minutes of the day share a `"%H%M"` key only when they are equal. */
  lemma FormatKeyDetermines(a: int, b: int)
    requires IsMinuteOfDay(a) && IsMinuteOfDay(b)
    ensures FormatKey(a) == FormatKey(b) <==> a == b
  {
    if FormatKey(a) == FormatKey(b) {
      assert a % MinutesPerDay == a && b % MinutesPerDay == b;
      Pad2PairSplit(a / MinutesPerHour, a % MinutesPerHour, b / MinutesPerHour, b % MinutesPerHour);
    }
  }

  /** Position of the first occurrence of `c` in `s`. */
  function IndexOf(s: string, c: char): (i: nat)
    requires c in s
    ensures i < |s| && s[i] == c && c !in s[..i]
  {
    if s[0] == c then 0 else 1 + IndexOf(s[1..], c)
  }

  /** `strptime(s, "%H:%M").time()`: an hour of one or two digits up to 23, a
      colon, and a minute of one or two digits up to 59, with nothing before or
      after. Anything else is rejected. */
  function ParseClock(s: string): (r: Option<int>)
    ensures r.Some? ==> IsMinuteOfDay(r.value)
  {
    if ':' !in s then None
    else
      var i := IndexOf(s, ':');
      ParseFields(s[..i], s[i + 1..])
  }

  /** The hour and minute fields either side of the first colon. */
  function ParseFields(h: string, m: string): (r: Option<int>)
    ensures r.Some? ==> IsMinuteOfDay(r.value)
  {
    if 1 <= |h| <= 2 && 1 <= |m| <= 2 && AllDigits(h) && AllDigits(m)
       && DigitsValue(h) < 24 && DigitsValue(m) < MinutesPerHour
    then Some(DigitsValue(h) * MinutesPerHour + DigitsValue(m))
    else None
  }

  /** The first colon after a run of digits is the one that ends the run. */
  lemma ColonAfterDigits(hh: string, rest: string)
    requires AllDigits(hh) && |rest| > 0 && rest[0] == ':'
    ensures ':' in hh + rest && IndexOf(hh + rest, ':') == |hh|
  {
    var s := hh + rest;
    assert s[|hh|] == ':';
    var i := IndexOf(s, ':');
  }

  /** Digits before the first colon are the hour field. */
  lemma ParseParts(hh: string, mm: string)
    requires AllDigits(hh)
    ensures ParseClock(hh + ":" + mm) == ParseFields(hh, mm)
  {
    var s := hh + ":" + mm;
    assert s == hh + (":" + mm);
    ColonAfterDigits(hh, ":" + mm);
    assert s[..|hh|] == hh;
    assert s[|hh| + 1..] == mm;
  }

  /** The texts `%H` or `%M` of `strptime` read as `n`: two digits, or a single
      digit when `n` is below ten. */
  function FieldTexts(n: nat): (r: set<string>)
    requires n < 100
    ensures Pad2(n) in r
  {
    {Pad2(n)} + (if n < 10 then {[DigitChar(n)]} else {})
  }

  /** Every text that `strptime("%H:%M")` reads as the time of day `t`. */
  function ClockTexts(t: int): set<string>
    requires IsMinuteOfDay(t)
  {
    set hh, mm | hh in FieldTexts(t / MinutesPerHour) && mm in FieldTexts(t % MinutesPerHour) :: hh + ":" + mm
  }

  lemma FieldTextValue(n: nat, x: string)
    requires n < 100 && x in FieldTexts(n)
    ensures 1 <= |x| <= 2 && AllDigits(x) && DigitsValue(x) == n
  {
    if x == Pad2(n) {
      Pad2Value(n);
    } else {
      assert x == [DigitChar(n)] && x[..0] == [];
    }
  }

  lemma DigitCharOfValue(c: char)
    requires IsDigit(c)
    ensures DigitChar(DigitValue(c)) == c
  {
  }

  lemma OneDigitText(x: string)
    requires |x| == 1 && AllDigits(x)
    ensures DigitsValue(x) < 10 && x == [DigitChar(DigitsValue(x))]
  {
    assert x[..0] == [];
    DigitCharOfValue(x[0]);
  }

  lemma TwoDigitText(x: string)
    requires |x| == 2 && AllDigits(x)
    ensures DigitsValue(x) < 100 && x == Pad2(DigitsValue(x))
  {
    var n := DigitsValue(x);
    assert x[..1][..0] == [];
    var d0, d1 := DigitValue(x[0]), DigitValue(x[1]);
    assert DigitsValue(x[..1]) == d0;
    assert n == d0 * 10 + d1;
    assert n / 10 == d0 && n % 10 == d1 by {
      assert d1 < 10 && n == d0 * 10 + d1;
    }
    DigitCharOfValue(x[0]);
    DigitCharOfValue(x[1]);
  }

  /** A field of one or two digits is one of the texts of its value. */
  lemma FieldTextComplete(x: string)
    requires 1 <= |x| <= 2 && AllDigits(x)
    ensures DigitsValue(x) < 100 && x in FieldTexts(DigitsValue(x))
  {
    if |x| == 1 {
      OneDigitText(x);
    } else {
      TwoDigitText(x);
    }
  }

  /** `ParseClock` accepts exactly the texts of the times of day, each with
      its own value: the hour and the minute each zero-padded to two digits,
      or written with one digit when below ten. */
  lemma ParseClockIff(s: string, t: int)
    ensures ParseClock(s) == Some(t) <==> IsMinuteOfDay(t) && s in ClockTexts(t)
  {
    if ParseClock(s) == Some(t) {
      ParsedIsClockText(s, t);
    }
    if IsMinuteOfDay(t) && s in ClockTexts(t) {
      ClockTextParses(s, t);
    }
  }

  /** An accepted text is one of the texts of its value. */
  lemma ParsedIsClockText(s: string, t: int)
    requires ParseClock(s) == Some(t)
    ensures IsMinuteOfDay(t) && s in ClockTexts(t)
  {
    var i := IndexOf(s, ':');
    var h, m := s[..i], s[i + 1..];
    var hv, mv := DigitsValue(h), DigitsValue(m);
    assert t == hv * MinutesPerHour + mv && hv < 24 && mv < MinutesPerHour;
    assert t / MinutesPerHour == hv && t % MinutesPerHour == mv;
    FieldTextComplete(h);
    FieldTextComplete(m);
    assert s == h + ":" + m by {
      assert s == s[..i] + [s[i]] + s[i + 1..];
    }
  }

  /** Every text of a time of day parses to it. */
  lemma ClockTextParses(s: string, t: int)
    requires IsMinuteOfDay(t) && s in ClockTexts(t)
    ensures ParseClock(s) == Some(t)
  {
    var hh, mm :| hh in FieldTexts(t / MinutesPerHour) && mm in FieldTexts(t % MinutesPerHour) && s == hh + ":" + mm;
    FieldTextValue(t / MinutesPerHour, hh);
    FieldTextValue(t % MinutesPerHour, mm);
    ParseParts(hh, mm);
  }

  /** A one-digit hour reads as written. */
  lemma ParseShortHour()
    ensures ParseClock("9:05") == Some(545)
  {
    assert "9:05" == "9" + ":" + "05";
    ParseParts("9", "05");
    assert "9"[..0] == [] && "05"[..1] == "0" && "0"[..0] == [];
  }

  /** Hour 24 and minute 60 are out of range. */
  lemma ParseOutOfRange()
    ensures ParseClock("24:00") == None
    ensures ParseClock("12:60") == None
  {
    assert "24:00" == "24" + ":" + "00";
    ParseParts("24", "00");
    assert "24"[..1] == "2" && "2"[..0] == [];
    assert "12:60" == "12" + ":" + "60";
    ParseParts("12", "60");
    assert "60"[..1] == "6" && "6"[..0] == [];
  }

  /** An hour of three digits is rejected even when its value is in range. */
  lemma ParseLongHour()
    ensures ParseClock("012:30") == None
  {
    assert "012:30" == "012" + ":" + "30";
    ParseParts("012", "30");
  }

  /** Every time of day survives formatting and parsing. */
  lemma ParseFormatClock(t: int)
    requires IsMinuteOfDay(t)
    ensures ParseClock(FormatClock(t)) == Some(t)
  {
    var h, m := t / MinutesPerHour, t % MinutesPerHour;
    assert FormatClock(t) == Pad2(h) + ":" + Pad2(m) by {
      assert t % MinutesPerDay == t;
    }
    Pad2Value(h);
    Pad2Value(m);
    ParseParts(Pad2(h), Pad2(m));
  }
}
