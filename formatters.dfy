/**
 * The two pure formatters of the task page: the `MM:SS` countdown text and
 * the "total time for this task" text built from a number of minutes.
 */
module Formatters {
  import opened Wrappers
  import opened Decimal

  /** `formatTime(seconds)`: whole minutes and leftover seconds, each zero-padded to two digits. */
  function FormatTime(seconds: nat): string {
    PadStart2(NatToString(seconds / 60)) + ":" + PadStart2(NatToString(seconds % 60))
  }

  /** The minute field of a clock text: everything before the colon and the two second digits. */
  function MinuteField(r: string): string
    requires |r| >= 3
  {
    r[..|r| - 3]
  }

  /** The second field of a clock text: its last two characters. */
  function SecondField(r: string): string
    requires |r| >= 2
  {
    r[|r| - 2..]
  }

  /**
   * Reads an `M...M:SS` clock text back into seconds: the last three
   * characters are the colon and two second digits, everything before is the
   * minute field. `None` for any text not of that shape.
   */
  function ParseClock(r: string): Option<nat> {
    if |r| >= 4 && r[|r| - 3] == ':' && AllDigits(MinuteField(r)) && AllDigits(SecondField(r))
       && DecimalValue(SecondField(r)) < 60
    then Some(DecimalValue(MinuteField(r)) * 60 + DecimalValue(SecondField(r)))
    else None
  }

  /** Two fields joined by a colon can be cut apart again around it. */
  lemma JoinFields(m: string, sec: string)
    requires |sec| == 2
    ensures |m + ":" + sec| == |m| + 3
    ensures (m + ":" + sec)[|m|] == ':'
    ensures MinuteField(m + ":" + sec) == m
    ensures SecondField(m + ":" + sec) == sec
  {
    var r := m + ":" + sec;
    assert r[..|r| - 3] == m;
    assert r[|r| - 2..] == sec;
  }

  /** A number padded to two digits: digits only, the number's value, two characters below 100. */
  lemma PaddedField(n: nat)
    ensures AllDigits(PadStart2(NatToString(n)))
    ensures DecimalValue(PadStart2(NatToString(n))) == n
    ensures |PadStart2(NatToString(n))| >= 2
    ensures n < 100 <==> |PadStart2(NatToString(n))| == 2
  {
    NatToStringLength(n);
    PadStart2Value(NatToString(n));
    DecimalValueOfNatToString(n);
  }

  /**
   * Any minute digits and two second digits joined by a colon: the colon
   * sits three from the end and both fields read back as the numbers they
   * denote.
   */
  lemma JoinedClock(m: string, sec: string, minutes: nat, secs: nat)
    requires |m| >= 2 && AllDigits(m) && DecimalValue(m) == minutes
    requires |sec| == 2 && AllDigits(sec) && DecimalValue(sec) == secs
    ensures |m + ":" + sec| >= 5
    ensures (m + ":" + sec)[|m + ":" + sec| - 3] == ':'
    ensures AllDigits(MinuteField(m + ":" + sec))
    ensures DecimalValue(MinuteField(m + ":" + sec)) == minutes
    ensures AllDigits(SecondField(m + ":" + sec))
    ensures DecimalValue(SecondField(m + ":" + sec)) == secs
    ensures |m| == 2 <==> |m + ":" + sec| == 5
  {
    JoinFields(m, sec);
  }

  /** Below 100 minutes exactly when below 6000 seconds. */
  lemma MinutesBelow100(seconds: nat)
    ensures seconds < 6000 <==> seconds / 60 < 100
  {
  }

  /**
   * The shape of `formatTime`'s result: at least two minute digits, a colon,
   * exactly two second digits; five characters for anything under 100 minutes.
   */
  lemma FormatTimeShape(seconds: nat)
    ensures |FormatTime(seconds)| >= 5
    ensures FormatTime(seconds)[|FormatTime(seconds)| - 3] == ':'
    ensures AllDigits(MinuteField(FormatTime(seconds)))
    ensures DecimalValue(MinuteField(FormatTime(seconds))) == seconds / 60
    ensures AllDigits(SecondField(FormatTime(seconds)))
    ensures DecimalValue(SecondField(FormatTime(seconds))) == seconds % 60
    ensures seconds < 6000 <==> |FormatTime(seconds)| == 5
  {
    var m, sec := PadStart2(NatToString(seconds / 60)), PadStart2(NatToString(seconds % 60));
    PaddedField(seconds / 60);
    PaddedField(seconds % 60);
    JoinedClock(m, sec, seconds / 60, seconds % 60);
    MinutesBelow100(seconds);
  }

  /** Round trip: the clock text decodes to the number of seconds it was made from. */
  lemma FormatTimeRoundTrip(seconds: nat)
    ensures ParseClock(FormatTime(seconds)) == Some(seconds)
  {
    FormatTimeShape(seconds);
  }

  /** Distinct second counts are never shown as the same text. */
  lemma FormatTimeInjective(a: nat, b: nat)
    requires FormatTime(a) == FormatTime(b)
    ensures a == b
  {
    FormatTimeRoundTrip(a);
    FormatTimeRoundTrip(b);
  }

  /** What `updateTaskTotalTime` does with the server's `total_minutes`. */
  datatype TimeInfo = Hidden | Shown(text: string)

  /**
   * The total-time text: nothing shown unless the total is positive; whole
   * hours with the hours label, followed by the leftover minutes with the
   * minutes label when there are any; under an hour, only the minutes.
   * The labels are the page's `t('hours')` and `t('minutes')`.
   */
  function TotalTimeText(totalMinutes: int, hoursLabel: string, minutesLabel: string): (info: TimeInfo)
    ensures info == Hidden <==> totalMinutes <= 0
  {
    if totalMinutes > 0 then
      var hours, minutes := totalMinutes / 60, totalMinutes % 60;
      if hours > 0 then
        Shown(NatToString(hours) + " " + hoursLabel
              + (if minutes > 0 then " " + NatToString(minutes) + " " + minutesLabel else ""))
      else
        Shown(NatToString(minutes) + " " + minutesLabel)
    else
      Hidden
  }

  /**
   * The total-time text case by case, in terms of the total alone: hidden
   * for a non-positive total, minutes only below an hour, hours only on a
   * whole hour, both otherwise; and the figures shown add up to the total.
   */
  lemma TotalTimeTextCases(total: int, hoursLabel: string, minutesLabel: string)
    ensures total <= 0 ==> TotalTimeText(total, hoursLabel, minutesLabel) == Hidden
    ensures 0 < total < 60 ==>
      TotalTimeText(total, hoursLabel, minutesLabel) == Shown(NatToString(total) + " " + minutesLabel)
    ensures 60 <= total && total % 60 == 0 ==>
      TotalTimeText(total, hoursLabel, minutesLabel) == Shown(NatToString(total / 60) + " " + hoursLabel)
    ensures 60 <= total && total % 60 != 0 ==>
      TotalTimeText(total, hoursLabel, minutesLabel)
        == Shown(NatToString(total / 60) + " " + hoursLabel + " " + NatToString(total % 60) + " " + minutesLabel)
    ensures 0 < total ==>
      DecimalValue(NatToString(total / 60)) * 60 + DecimalValue(NatToString(total % 60)) == total
  {
    if 0 < total {
      DecimalValueOfNatToString(total / 60);
      DecimalValueOfNatToString(total % 60);
      if total < 60 {
        assert total / 60 == 0 && total % 60 == total;
      }
    }
  }
}
