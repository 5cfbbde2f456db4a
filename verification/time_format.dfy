/**
 * `formatTime` from src/utils/time.ts: a number of seconds rendered as
 * `MM:SS`, or `HH:MM:SS` from one hour on, each field zero-padded to two
 * digits. Parsing the fields back recovers the number of seconds.
 */
module TimeFormat {
  import opened Wrappers
  import Text

  predicate IsDigit(c: char)
  {
    '0' <= c <= '9'
  }

  predicate AllDigits(s: string)
  {
    forall i :: 0 <= i < |s| ==> IsDigit(s[i])
  }

  function DigitChar(d: nat): (c: char)
    requires d < 10
    ensures IsDigit(c) && c as int - '0' as int == d
  {
    ('0' as int + d) as char
  }

  /** `Number.prototype.toString()` of a natural number: its decimal digits, without leading zeros. */
  function Decimal(n: nat): (r: string)
    ensures 1 <= |r|
    ensures AllDigits(r)
    ensures |r| == 1 <==> n < 10
    ensures n < 100 ==> |r| <= 2
    ensures |r| > 1 ==> r[0] != '0'
  {
    if n < 10 then [DigitChar(n)] else Decimal(n / 10) + [DigitChar(n % 10)]
  }

  /** The value of a string of decimal digits (the empty string reads as 0). */
  function ParseDecimal(s: string): nat
    requires AllDigits(s)
  {
    if |s| == 0 then 0 else ParseDecimal(s[..|s| - 1]) * 10 + (s[|s| - 1] as int - '0' as int)
  }

  /** Reading the decimal rendering of `n` gives `n` back. */
  lemma {:induction false} ParseDecimalOfDecimal(n: nat)
    ensures ParseDecimal(Decimal(n)) == n
  {
    var r := Decimal(n);
    if n >= 10 {
      ParseDecimalOfDecimal(n / 10);
      assert r[..|r| - 1] == Decimal(n / 10);
    }
  }

  /** Leading zeros do not change the value of a digit string. */
  lemma {:induction false} ParseDecimalLeadingZero(s: string)
    requires AllDigits(s)
    ensures ParseDecimal("0" + s) == ParseDecimal(s)
  {
    if |s| > 0 {
      assert ("0" + s)[..|"0" + s| - 1] == "0" + s[..|s| - 1];
      ParseDecimalLeadingZero(s[..|s| - 1]);
    }
  }

  /** `num.toString().padStart(2, '0')`. */
  function Pad(n: nat): (r: string)
    ensures AllDigits(r) && ':' !in r
    ensures ParseDecimal(r) == n
    ensures |r| == if |Decimal(n)| < 2 then 2 else |Decimal(n)|
    ensures |Decimal(n)| >= 2 ==> r == Decimal(n)
    ensures n < 100 ==> |r| == 2
  {
    ParseDecimalOfDecimal(n);
    var d := Decimal(n);
    if |d| < 2 then
      ParseDecimalLeadingZero(d);
      "0" + d
    else
      d
  }

  /** A duration split into clock fields. */
  datatype Clock = Clock(hours: nat, minutes: nat, seconds: nat)

  /** The floor divisions and remainders of lines 2-4: the unique split with minutes and seconds below 60. */
  function Breakdown(total: nat): (c: Clock)
    ensures c.minutes < 60 && c.seconds < 60
    ensures c.hours * 3600 + c.minutes * 60 + c.seconds == total
    ensures c.hours > 0 <==> total >= 3600
  {
    var h := total / 3600;
    var rest := total % 3600;
    assert rest / 60 * 60 + rest % 60 == rest;
    assert (total % 3600) % 60 == total % 60 by {
      assert total == h * 3600 + rest;
      assert total == (h * 60 + rest / 60) * 60 + rest % 60;
    }
    Clock(h, rest / 60, total % 60)
  }

  /**
   * `formatTime(totalSeconds)`: the padded minutes and seconds of the
   * breakdown, preceded by the padded hours from one hour on.
   */
  function FormatTime(total: nat): (r: string)
    ensures total < 3600 ==> |r| == 5 && r[2] == ':' && AllDigits(r[..2]) && AllDigits(r[3..])
    ensures total < 3600 ==>
      ParseDecimal(r[..2]) == Breakdown(total).minutes && ParseDecimal(r[3..]) == Breakdown(total).seconds
    ensures total >= 3600 ==> |r| >= 8 && r[|r| - 3] == ':' && r[|r| - 6] == ':'
    ensures total >= 3600 ==>
      |r| - 6 == if Breakdown(total).hours < 10 then 2 else |Decimal(Breakdown(total).hours)|
    ensures total >= 3600 ==> AllDigits(r[..|r| - 6]) && AllDigits(r[|r| - 5..|r| - 3]) && AllDigits(r[|r| - 2..])
    ensures total >= 3600 ==>
      && ParseDecimal(r[..|r| - 6]) == Breakdown(total).hours
      && ParseDecimal(r[|r| - 5..|r| - 3]) == Breakdown(total).minutes
      && ParseDecimal(r[|r| - 2..]) == Breakdown(total).seconds
  {
    var c := Breakdown(total);
    var m, s := Pad(c.minutes), Pad(c.seconds);
    if c.hours > 0 then
      var h := Pad(c.hours);
      var r := h + ":" + m + ":" + s;
      assert r[..|r| - 6] == h && r[|r| - 5..|r| - 3] == m && r[|r| - 2..] == s;
      r
    else
      var r := m + ":" + s;
      assert r[..2] == m && r[3..] == s;
      r
  }

  /** 75 seconds show as one minute fifteen. */
  lemma FormatTimeExampleMinutes()
    ensures FormatTime(75) == "01:15"
  {
    assert Breakdown(75) == Clock(0, 1, 15);
  }

  /** One hour two minutes five seconds: the hours are padded too. */
  lemma FormatTimeExampleHours()
    ensures FormatTime(3725) == "01:02:05"
  {
    assert Breakdown(3725) == Clock(1, 2, 5);
  }

  /** A hundred hours: the hours field grows past two digits. */
  lemma FormatTimeExampleHundredHours()
    ensures FormatTime(360000) == "100:00:00"
  {
    assert Breakdown(360000) == Clock(100, 0, 0);
  }

  /** Reads a `MM:SS` or `HH:MM:SS` display back into seconds; `None` for anything else. */
  function ParseClock(s: string): Option<nat>
  {
    var fields := Text.SplitOn(s, ':');
    if forall k :: 0 <= k < |fields| ==> |fields[k]| > 0 && AllDigits(fields[k]) then
      if |fields| == 2 then
        Some(ParseDecimal(fields[0]) * 60 + ParseDecimal(fields[1]))
      else if |fields| == 3 then
        Some(ParseDecimal(fields[0]) * 3600 + ParseDecimal(fields[1]) * 60 + ParseDecimal(fields[2]))
      else None
    else None
  }

  /** Round trip: parsing the display as decimal fields recovers the number of seconds. */
  lemma FormatTimeRoundTrip(total: nat)
    ensures ParseClock(FormatTime(total)) == Some(total)
  {
    var c := Breakdown(total);
    var m, s := Pad(c.minutes), Pad(c.seconds);
    Text.SplitOnNoSeparator(s, ':');
    Text.SplitOnJoin(m, s, ':');
    if c.hours > 0 {
      var h := Pad(c.hours);
      Text.SplitOnJoin(h, m + ":" + s, ':');
      assert h + ":" + m + ":" + s == h + [':'] + (m + [':'] + s);
      assert Text.SplitOn(FormatTime(total), ':') == [h, m, s];
    } else {
      assert m + ":" + s == m + [':'] + s;
      assert Text.SplitOn(FormatTime(total), ':') == [m, s];
    }
  }

  /** Different durations never render alike. */
  lemma FormatTimeInjective(a: nat, b: nat)
    requires FormatTime(a) == FormatTime(b)
    ensures a == b
  {
    FormatTimeRoundTrip(a);
    FormatTimeRoundTrip(b);
  }
}
