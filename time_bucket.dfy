/** The 3-hour time-interval tag of a commit (`format_time_interval`). */
module TimeBucket {
  import opened Common
  import opened Text
  import opened Timestamps

  /** The eight tags in the order of the day; the heatmap's second axis. */
  const Labels: seq<string> :=
    ["12am-3am", "3am-6am", "6am-9am", "9am-12pm", "12pm-3pm", "3pm-6pm", "6pm-9pm", "9pm-12am"]

  /** Reference definition: hour `h` belongs to the span that starts at
      `3 * (h / 3)`. */
  function Bucket(hour: nat): (tag: string)
    requires hour < 24
    ensures tag in Labels
  {
    Labels[hour / 3]
  }

  /** What `format_time_interval(date)` returns or raises, stated through the
      reference definition: `strptime` fails with `ValueError`, or the tag of
      the parsed hour. */
  function TimeInterval(date: string): Result<string, Error> {
    match Parse(date)
    case None => Err(ValueError)
    case Some(t) => Ok(Bucket(t.hour))
  }

  /** The `am`/`pm` suffix of a whole hour of the day. */
  function Meridiem(hour: nat): string {
    if hour < 12 then "am" else "pm"
  }

  /** The 12-hour clock number of the interval's start, with hour 0 shown as
      12; hours up to 12 are shown as they are. */
  function StartText(hour: nat): string {
    var s := if hour <= 12 then DecimalString(hour) else DecimalString(hour - 12);
    if s == "0" then "12" else s
  }

  /** The 12-hour clock number of the interval's end; this text has no special
      case for hour 0, which the end of a matched span never is. */
  function EndText(hour: nat): string {
    if hour <= 12 then DecimalString(hour) else DecimalString(hour - 12)
  }

  /** The tag built when the hour falls in `[start, end)`. */
  function SpanLabel(start: nat, end: nat): string {
    StartText(start) + Meridiem(start) + "-" + EndText(end) + Meridiem(end)
  }

  /** The tag built by the branch for the last span, whose end has wrapped
      round to hour 0 and is written as 12. */
  function WrapLabel(start: nat, end: nat): string {
    (if start < 12 then DecimalString(start) else DecimalString(start - 12)) + Meridiem(start) + "-" + "12" + Meridiem(end)
  }

  /** Twelve-hour rendering of a whole hour as the start of an interval:
      0 is 12am, 1 to 11 keep their number with am, 12 is 12pm, and 13 to 23
      lose 12 and take pm. */
  lemma StartClockText(hour: nat)
    requires hour < 24
    ensures StartText(hour) + Meridiem(hour) ==
      if hour == 0 then "12am"
      else if hour < 12 then DecimalString(hour) + "am"
      else if hour == 12 then "12pm"
      else DecimalString(hour - 12) + "pm"
  {
    if hour != 0 {
      var d := if hour <= 12 then hour else hour - 12;
      assert DecimalString(d) != "0" by {
        if d < 10 {
          assert DecimalString(d)[0] == DigitChar(d) != '0';
        }
      }
    }
  }

  /** The clock numbers the tags use. */
  lemma ClockNumbers()
    ensures DecimalString(0) == "0" && DecimalString(3) == "3" && DecimalString(6) == "6"
    ensures DecimalString(9) == "9" && DecimalString(12) == "12"
  {
    assert DecimalString(12) == DecimalString(1) + [DigitChar(2)];
  }

  /** The tags of the four spans that start before noon. */
  lemma MorningLabels()
    ensures SpanLabel(0, 3) == Labels[0] && SpanLabel(3, 6) == Labels[1]
    ensures SpanLabel(6, 9) == Labels[2] && SpanLabel(9, 12) == Labels[3]
  {
    ClockNumbers();
    assert SpanLabel(0, 3) == "12" + "am" + "-" + "3" + "am";
    assert SpanLabel(3, 6) == "3" + "am" + "-" + "6" + "am";
    assert SpanLabel(6, 9) == "6" + "am" + "-" + "9" + "am";
    assert SpanLabel(9, 12) == "9" + "am" + "-" + "12" + "pm";
  }

  /** The tags of the spans from noon to 9pm. */
  lemma AfternoonLabels()
    ensures SpanLabel(12, 15) == Labels[4] && SpanLabel(15, 18) == Labels[5]
    ensures SpanLabel(18, 21) == Labels[6]
  {
    ClockNumbers();
    assert SpanLabel(12, 15) == "12" + "pm" + "-" + "3" + "pm";
    assert SpanLabel(15, 18) == "3" + "pm" + "-" + "6" + "pm";
    assert SpanLabel(18, 21) == "6" + "pm" + "-" + "9" + "pm";
  }

  /** The tags that the loop's first labelling branch builds are the first
      seven of the fixed list, in order. */
  lemma SpanLabelsFormatted(k: nat)
    requires k < 7
    ensures SpanLabel(3 * k, 3 * k + 3) == Labels[k]
  {
    MorningLabels();
    AfternoonLabels();
    var start := 3 * k;
    assert start in {0, 3, 6, 9, 12, 15, 18};
  }

  /** The wrap-around branch builds the last tag of the list. */
  lemma WrapLabelFormatted()
    ensures WrapLabel(21, 0) == Labels[7]
  {
    ClockNumbers();
    assert WrapLabel(21, 0) == "9" + "pm" + "-" + "12" + "am";
  }

  /** The first branch of the loop tags an hour in a span with that span's tag. */
  lemma SpanTag(start: nat, hour: nat)
    requires start % 3 == 0 && start < 21 && start <= hour < start + 3
    ensures SpanLabel(start, start + 3) == Bucket(hour)
  {
    var k := start / 3;
    assert start == 3 * k && hour / 3 == k;
    SpanLabelsFormatted(k);
  }

  /** The wrap-around branch tags the hours from 21 on with the last tag. */
  lemma WrapTag(hour: nat)
    requires 21 <= hour < 24
    ensures WrapLabel(21, 0) == Bucket(hour)
  {
    WrapLabelFormatted();
  }

  /** `format_time_interval`: parse the date, keep only its hour, then step a
      3-hour window `[start, end)` from midnight until the hour falls in it;
      the last window's end wraps to hour 0 and is caught by its own branch.
      `steps` counts the windows tried. */
  method FormatTimeInterval(date: string) returns (r: Result<string, Error>, ghost steps: nat)
    ensures r == TimeInterval(date)
    ensures steps <= 8
  {
    var parsed := Parse(date);
    if parsed.None? {
      return Err(ValueError), 0;
    }
    var hour := parsed.value.hour;
    var start, end := 0, 3;
    var interval: Option<string> := None;
    steps := 1;
    while interval.None?
      invariant start % 3 == 0 && start <= 3 * (hour / 3) && start <= 21
      invariant end == if start == 21 then 0 else start + 3
      invariant steps == start / 3 + 1
      invariant interval.Some? ==> interval.value == Bucket(hour)
      decreases (if interval.None? then 1 else 0) + 21 - start
    {
      if start <= hour < end {
        SpanTag(start, hour);
        interval := Some(SpanLabel(start, end));
        break;
      } else if start == 21 && start <= hour {
        WrapTag(hour);
        interval := Some(WrapLabel(start, end));
      } else {
        start := start + 3;
        end := if end + 3 > 23 then 0 else end + 3;
        steps := steps + 1;
      }
    }
    r := Ok(interval.value);
  }

  lemma LabelsDistinct(i: nat, j: nat)
    requires i < 8 && j < 8 && i != j
    ensures Labels[i] != Labels[j]
  {
    var a, b := Labels[i], Labels[j];
    assert a[..2] != b[..2] || a[2..4] != b[2..4] || |a| != |b| || a[|a| - 3..] != b[|b| - 3..];
  }

  /** The spans are half-open and partition the day: hour `h` gets the tag of
      span `k` exactly when `3k <= h < 3k + 3`, so an hour on a boundary gets
      the span that starts there. */
  lemma BucketHalfOpen(hour: nat, k: nat)
    requires hour < 24 && k < 8
    ensures Bucket(hour) == Labels[k] <==> 3 * k <= hour < 3 * k + 3
  {
    if hour / 3 != k {
      LabelsDistinct(hour / 3, k);
    }
  }

  /** Only the hour of the timestamp decides the tag. */
  lemma OnlyHourMatters(s1: string, s2: string)
    requires Parse(s1).Some? && Parse(s2).Some?
    requires Parse(s1).value.hour == Parse(s2).value.hour
    ensures TimeInterval(s1) == TimeInterval(s2)
  {
  }

  /** The tag of a timestamp after `strftime` is the tag of its own hour: no
      timezone or other adjustment happens on the way. */
  lemma RenderedInterval(t: Timestamp)
    requires Valid(t)
    ensures TimeInterval(Render(t)) == Ok(Labels[t.hour / 3])
  {
    ParseRender(t);
  }
}
