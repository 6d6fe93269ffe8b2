/**
 * The countdown text that `updateDisplay` writes: whole minutes (floor of the seconds over 60)
 * and the remaining seconds (JavaScript `%`), each padded to two digits with leading zeros and
 * joined by a colon.
 */
module TimerDisplay {
  import opened Wrappers
  import opened JsText

  /** The display text for `t` remaining seconds. Dafny's `/` by a positive divisor rounds down,
      which is `Math.floor(t / 60)` for every integer `t`. */
  function FormatTime(t: int): string
  {
    PadStart2(NumberToString(t / 60)) + ":" + PadStart2(NumberToString(JsRemainder(t, 60)))
  }

  /** Reads a display text of the form `M…M:SS` back into seconds; anything else reads as None. */
  function ReadClock(s: string): Option<nat>
  {
    if |s| >= 5 && s[|s| - 3] == ':' && AllDigits(s[..|s| - 3]) && AllDigits(s[|s| - 2..])
    then Some(60 * ParseDigits(s[..|s| - 3]) + ParseDigits(s[|s| - 2..]))
    else None
  }

  /** The padded minutes: at least two digits reading back as the count, exactly two below 100,
      and a leading zero exactly for a single-digit count. */
  lemma PaddedMinutes(n: nat)
    ensures var pm := PadStart2(NatToString(n));
      |pm| >= 2 && AllDigits(pm) && ParseDigits(pm) == n &&
      (|pm| == 2 <==> n < 100) && (pm[0] == '0' <==> n < 10)
  {
    NatToStringReadsBack(n);
    PadStart2Digits(NatToString(n));
  }

  /** The padded seconds: exactly two digits reading back as the count. */
  lemma PaddedSeconds(n: nat)
    requires n < 60
    ensures var ps := PadStart2(NatToString(n));
      |ps| == 2 && AllDigits(ps) && ParseDigits(ps) == n
  {
    NatToStringReadsBack(n);
    PadStart2Digits(NatToString(n));
  }

  /** For a non-negative count the text is the minutes in at least two digits, a colon and the
      seconds in exactly two digits; it is exactly five characters while the minutes stay below 100,
      and it starts with a zero exactly while they stay below 10. */
  lemma FormatTimeShape(t: nat)
    ensures var r := FormatTime(t);
      |r| >= 5 && r[|r| - 3] == ':' &&
      AllDigits(r[..|r| - 3]) && ParseDigits(r[..|r| - 3]) == t / 60 &&
      AllDigits(r[|r| - 2..]) && ParseDigits(r[|r| - 2..]) == t % 60 &&
      (|r| == 5 <==> t < 6000) && (r[0] == '0' <==> t < 600)
  {
    var pm, ps := PadStart2(NatToString(t / 60)), PadStart2(NatToString(t % 60));
    PaddedMinutes(t / 60);
    PaddedSeconds(t % 60);
    assert FormatTime(t) == pm + ":" + ps by {
      assert JsRemainder(t, 60) == t % 60;
    }
    Joined(pm, ps);
    assert t / 60 < 100 <==> t < 6000;
    assert t / 60 < 10 <==> t < 600;
  }

  /** The minutes field, a colon and a two-character seconds field, as slices of the joined text. */
  lemma Joined(pm: string, ps: string)
    requires |pm| >= 2 && |ps| == 2
    ensures var r := pm + ":" + ps;
      |r| >= 5 && r[|r| - 3] == ':' && r[..|r| - 3] == pm && r[|r| - 2..] == ps &&
      r[0] == pm[0] && (|r| == 5 <==> |pm| == 2)
  {
  }

  /** Reading the display text back gives the number of seconds it was made from. */
  lemma ReadClockFormatTime(t: nat)
    ensures ReadClock(FormatTime(t)) == Some(t)
  {
    FormatTimeShape(t);
  }

  /** Different non-negative counts are displayed differently. */
  lemma FormatTimeInjective(t: nat, u: nat)
    requires FormatTime(t) == FormatTime(u)
    ensures t == u
  {
    ReadClockFormatTime(t);
    ReadClockFormatTime(u);
  }

  /** Two sample counts, the largest count below an hour, and the growth of the minutes past
      two digits. */
  lemma FormatTimeExamples()
    ensures FormatTime(125) == "02:05"
    ensures FormatTime(0) == "00:00"
    ensures FormatTime(3599) == "59:59"
    ensures FormatTime(6000) == "100:00"
  {
    assert FormatTime(125) == "02:05" by {
      assert 125 / 60 == 2 && JsRemainder(125, 60) == 5;
      assert NatToString(2) == "2" && NatToString(5) == "5";
    }
    assert FormatTime(0) == "00:00" by {
      assert NatToString(0) == "0";
    }
    assert FormatTime(3599) == "59:59" by {
      assert 3599 / 60 == 59 && JsRemainder(3599, 60) == 59;
      assert NatToString(59) == "59";
    }
    assert FormatTime(6000) == "100:00" by {
      assert 6000 / 60 == 100 && JsRemainder(6000, 60) == 0;
      assert NatToString(100) == "100" && NatToString(0) == "0";
    }
  }

  /** A negative count, which the timer never holds while its durations are positive, shows a
      floored minute and a negative remainder, as the JavaScript operators produce. */
  lemma FormatTimeNegative()
    ensures FormatTime(-1) == "-1:-1"
    ensures FormatTime(-61) == "-2:-1"
  {
  }
}
