/** The text shown inside the ring: a second count rendered as `[0H:]MM:SS`.
    Hours, minutes and seconds come from integer division and remainder; the
    hours field is dropped when it is zero and is otherwise the character '0'
    followed by the hours in decimal, so it has two digits only below ten hours. */
module TimerText {

  predicate IsDigit(c: char) { '0' <= c <= '9' }

  predicate AllDigits(s: string) { forall i :: 0 <= i < |s| ==> IsDigit(s[i]) }

  function DigitChar(d: nat): (c: char)
    requires d < 10
    ensures IsDigit(c) && c as int - '0' as int == d
  {
    ('0' as int + d) as char
  }

  /** The number a string of decimal digits denotes (most significant first). */
  function DigitsValue(s: string): nat
    requires AllDigits(s)
  {
    if s == [] then 0 else DigitsValue(s[..|s| - 1]) * 10 + (s[|s| - 1] as int - '0' as int)
  }

  /** `n` in decimal without leading zeros, as Swift's string interpolation prints it. */
  function Decimal(n: nat): string
    decreases n
  {
    if n < 10 then [DigitChar(n)] else Decimal(n / 10) + [DigitChar(n % 10)]
  }

  /** `Decimal` yields digits that denote `n`, one digit exactly below ten,
      and no leading zero. */
  lemma {:induction false} DecimalValue(n: nat)
    ensures |Decimal(n)| >= 1 && AllDigits(Decimal(n)) && DigitsValue(Decimal(n)) == n
    ensures |Decimal(n)| == 1 <==> n < 10
    ensures n < 100 ==> |Decimal(n)| <= 2
    ensures n > 0 ==> Decimal(n)[0] != '0'
    decreases n
  {
    if n >= 10 {
      DecimalValue(n / 10);
      var r := Decimal(n);
      assert r[..|r| - 1] == Decimal(n / 10);
      assert r[0] == Decimal(n / 10)[0];
    }
  }

  /** A minutes or seconds field: one digit gets a leading '0'. */
  function TwoDigits(n: nat): string
  {
    if n >= 10 then Decimal(n) else "0" + Decimal(n)
  }

  /** The hours field with its separator, or nothing when there are no hours. */
  function HoursField(hours: nat): string
  {
    if hours == 0 then "" else "0" + Decimal(hours) + ":"
  }

  /** The display text for `secs` remaining seconds. */
  function Format(secs: nat): string
  {
    HoursField(secs / 3600) + TwoDigits(secs / 60 % 60) + ":" + TwoDigits(secs % 60)
  }

  datatype Option<T> = None | Some(value: T)

  /** Reads a display text back: the last five characters must be `MM:SS`;
      anything before them must be a non-empty run of digits followed by ':'. */
  function ParseClock(t: string): Option<nat>
  {
    if |t| < 5 || t[|t| - 3] != ':' || !AllDigits(t[|t| - 5..|t| - 3]) || !AllDigits(t[|t| - 2..]) then None
    else
      var clock := DigitsValue(t[|t| - 5..|t| - 3]) * 60 + DigitsValue(t[|t| - 2..]);
      if |t| == 5 then Some(clock)
      else if |t| == 6 || t[|t| - 6] != ':' || !AllDigits(t[..|t| - 6]) then None
      else Some(DigitsValue(t[..|t| - 6]) * 3600 + clock)
  }

  /** A leading zero does not change the value of a digit string. */
  lemma {:induction false} LeadingZero(s: string)
    requires AllDigits(s)
    ensures AllDigits("0" + s) && DigitsValue("0" + s) == DigitsValue(s)
  {
    if s != [] {
      var z := "0" + s;
      assert z[..|z| - 1] == "0" + s[..|s| - 1];
      LeadingZero(s[..|s| - 1]);
    }
  }

  lemma TwoDigitsValue(n: nat)
    requires n < 100
    ensures |TwoDigits(n)| == 2 && AllDigits(TwoDigits(n)) && DigitsValue(TwoDigits(n)) == n
  {
    DecimalValue(n);
    if n < 10 {
      LeadingZero(Decimal(n));
    }
  }

  /** The shape of the display text: `MM:SS` below one hour, `0H…:MM:SS` from
      one hour on; every other character is a digit. */
  lemma FormatShape(secs: nat)
    ensures |Format(secs)| == 5 <==> secs < 3600
    ensures |Format(secs)| >= 5 && Format(secs)[|Format(secs)| - 3] == ':'
    ensures AllDigits(Format(secs)[|Format(secs)| - 5..|Format(secs)| - 3]) && AllDigits(Format(secs)[|Format(secs)| - 2..])
    ensures secs >= 3600 ==>
      |Format(secs)| >= 8 && Format(secs)[0] == '0' && Format(secs)[|Format(secs)| - 6] == ':' &&
      AllDigits(Format(secs)[..|Format(secs)| - 6])
  {
    var t := Format(secs);
    var h := HoursField(secs / 3600);
    var mm, ss := TwoDigits(secs / 60 % 60), TwoDigits(secs % 60);
    assert |mm| == 2 && AllDigits(mm) && |ss| == 2 && AllDigits(ss) by {
      TwoDigitsValue(secs / 60 % 60);
      TwoDigitsValue(secs % 60);
    }
    assert t == h + mm + ":" + ss;
    assert t[|t| - 5..|t| - 3] == mm && t[|t| - 3] == ':' && t[|t| - 2..] == ss;
    if secs >= 3600 {
      var d := Decimal(secs / 3600);
      assert |d| >= 1 && AllDigits(d) by {
        DecimalValue(secs / 3600);
      }
      assert h == "0" + d + ":";
      assert t[..|t| - 6] == "0" + d;
    }
  }

  /** What each field of the display text holds: the last two characters are
      the seconds and the two before the ':' the minutes, each below 60; from
      one hour on, the text begins with '0', the hours in decimal and ':'. */
  lemma FormatFields(secs: nat)
    ensures var t := Format(secs);
      |t| >= 5 && t[|t| - 3] == ':' &&
      t[|t| - 5..|t| - 3] == TwoDigits(secs / 60 % 60) && t[|t| - 2..] == TwoDigits(secs % 60) &&
      AllDigits(t[|t| - 5..|t| - 3]) && DigitsValue(t[|t| - 5..|t| - 3]) == secs / 60 % 60 < 60 &&
      AllDigits(t[|t| - 2..]) && DigitsValue(t[|t| - 2..]) == secs % 60 < 60
    ensures secs < 3600 ==> |Format(secs)| == 5
    ensures secs >= 3600 ==>
      |Format(secs)| > 5 && Format(secs)[..|Format(secs)| - 5] == "0" + Decimal(secs / 3600) + ":"
  {
    var t := Format(secs);
    var h := HoursField(secs / 3600);
    var mm, ss := TwoDigits(secs / 60 % 60), TwoDigits(secs % 60);
    assert |mm| == 2 && AllDigits(mm) && DigitsValue(mm) == secs / 60 % 60 &&
           |ss| == 2 && AllDigits(ss) && DigitsValue(ss) == secs % 60 by {
      TwoDigitsValue(secs / 60 % 60);
      TwoDigitsValue(secs % 60);
    }
    assert t == h + mm + ":" + ss;
    assert t[|t| - 5..|t| - 3] == mm && t[|t| - 2..] == ss && t[|t| - 3] == ':' && t[..|t| - 5] == h;
    assert secs < 3600 ==> h == "";
  }

  /** Hours, minutes and seconds recombine into the second count. */
  lemma ClockArithmetic(secs: nat)
    ensures secs == secs / 3600 * 3600 + secs / 60 % 60 * 60 + secs % 60
  {
    var m := secs / 60;
    assert secs == m * 60 + secs % 60;
    assert m == m / 60 * 60 + m % 60;
    assert m / 60 == secs / 3600;
  }

  /** What the parser makes of a text whose fields hold the given values. */
  lemma ParseFields(t: string, hours: nat, minutes: nat, seconds: nat)
    requires |t| >= 5 && t[|t| - 3] == ':'
    requires AllDigits(t[|t| - 5..|t| - 3]) && DigitsValue(t[|t| - 5..|t| - 3]) == minutes
    requires AllDigits(t[|t| - 2..]) && DigitsValue(t[|t| - 2..]) == seconds
    requires |t| == 5 ==> hours == 0
    requires |t| > 5 ==> |t| > 6 && t[|t| - 6] == ':' && AllDigits(t[..|t| - 6]) && DigitsValue(t[..|t| - 6]) == hours
    ensures ParseClock(t) == Some(hours * 3600 + minutes * 60 + seconds)
  {
    var clock := DigitsValue(t[|t| - 5..|t| - 3]) * 60 + DigitsValue(t[|t| - 2..]);
    assert clock == minutes * 60 + seconds;
    if |t| > 5 {
      assert DigitsValue(t[..|t| - 6]) * 3600 + clock == hours * 3600 + minutes * 60 + seconds;
    }
  }

  /** Reading the display text back gives the second count it was made from,
      so no two second counts share a display text. */
  lemma FormatRoundTrip(secs: nat)
    ensures ParseClock(Format(secs)) == Some(secs)
  {
    var hours, minutes, seconds := secs / 3600, secs / 60 % 60, secs % 60;
    var t := Format(secs);
    var h := HoursField(hours);
    var mm, ss := TwoDigits(minutes), TwoDigits(seconds);
    TwoDigitsValue(minutes);
    TwoDigitsValue(seconds);
    assert t == h + mm + ":" + ss;
    assert t[|t| - 5..|t| - 3] == mm;
    assert t[|t| - 2..] == ss;
    if hours > 0 {
      var d := Decimal(hours);
      DecimalValue(hours);
      assert t[..|t| - 6] == "0" + d;
      LeadingZero(d);
    }
    ParseFields(t, hours, minutes, seconds);
    ClockArithmetic(secs);
  }

  /** The worked examples below one hour. */
  lemma FormatWithoutHours()
    ensures Format(0) == "00:00"
    ensures Format(65) == "01:05"
    ensures Format(1200) == "20:00"
  {
  }

  /** The worked examples from one hour on. */
  lemma FormatWithHours()
    ensures Format(3661) == "01:01:01"
    ensures Format(7200) == "02:00:00"
  {
    assert Format(3661) == "01:01:01" by { assert 3661 / 3600 == 1 && 3661 / 60 % 60 == 1 && 3661 % 60 == 1; }
    assert Format(7200) == "02:00:00" by { assert 7200 / 3600 == 2 && 7200 / 60 % 60 == 0 && 7200 % 60 == 0; }
  }

  /** From ten hours on the hours field has three characters: the literal '0'
      is prefixed whatever the number of hours. */
  lemma FormatTenHours()
    ensures Format(36000) == "010:00:00"
  {
  }
}
