/**
 * Wall-clock times on the day grid. The grid starts at 07:00 and one pixel is one
 * minute, so an event's `top` is the number of minutes after 07:00 and its height
 * is its length in minutes. Times travel as "HH:MM" text, written with
 * `toString().padStart(2, '0')` and read back with `split(':').map(Number)`.
 */
module Clock {
  import opened Wrappers
  import opened Text

  /** The hour shown at pixel row 0. */
  const FirstHour := 7

  datatype Time = Time(hour: int, minute: int)

  /**
   * JavaScript's `a % 60`, the only remainder the page takes: the result keeps the
   * sign of `a`, where Dafny's `%` is never negative.
   */
  function JsRem(a: int): (r: int)
    ensures -60 < r < 60
    ensures a >= 0 ==> r == a % 60
    ensures a < 0 ==> r <= 0
    ensures (a - r) % 60 == 0
  {
    if a >= 0 then a % 60 else -((-a) % 60)
  }

  /** Pixel offset from the top of the grid of a clock time: `(hour - 7) * 60 + minute`. */
  function TopOf(t: Time): int {
    (t.hour - FirstHour) * 60 + t.minute
  }

  /** "HH:MM", each part `toString().padStart(2, '0')`. */
  function Format(t: Time): string {
    PadStart2(IntString(t.hour)) + ":" + PadStart2(IntString(t.minute))
  }

  /**
   * `const [hour, minute] = text.split(':').map(Number)`: `None` when either part is
   * missing or is not a number.
   */
  function Parse(text: string): Option<Time> {
    var parts := Split(text, ':');
    if |parts| < 2 then None
    else
      match (NumberValue(parts[0]), NumberValue(parts[1]))
      case (Some(h), Some(m)) => Some(Time(h, m))
      case _ => None
  }

  /** Every time written by `Format` is read back unchanged by `Parse`. */
  lemma ParseFormat(t: Time)
    ensures Parse(Format(t)) == Some(t)
  {
    var a, b := PadStart2(IntString(t.hour)), PadStart2(IntString(t.minute));
    PaddedRoundTrip(t.hour);
    PaddedRoundTrip(t.minute);
    PaddedAvoids(t.hour, ':');
    PaddedAvoids(t.minute, ':');
    SplitPair(a, b, ':');
    assert Format(t) == a + [':'] + b;
  }

  /**
   * Clock time of a pixel offset as `updateEventTimes` computes it:
   * hour `Math.floor(top / 60) + 7`, minute `top % 60` with JavaScript's truncating `%`.
   * Above the grid (`top < 0`) the minute comes out negative.
   */
  function TimeOfTopAsWritten(top: int): Time {
    Time(top / 60 + FirstHour, JsRem(top))
  }

  /** Clock time of a pixel offset, with the minute taken modulo 60 (floored). */
  function TimeOfTop(top: int): (t: Time)
    ensures 0 <= t.minute < 60
    ensures TopOf(t) == top
  {
    Time(top / 60 + FirstHour, top % 60)
  }

  /** The written and the corrected conversion agree on the grid itself. */
  lemma AsWrittenOnGrid(top: int)
    requires top >= 0
    ensures TimeOfTopAsWritten(top) == TimeOfTop(top)
  {
  }

  /** Text round trip: formatting a pixel offset and parsing it back gives the offset. */
  lemma TopRoundTrip(top: int)
    ensures Parse(Format(TimeOfTop(top))).Some?
    ensures TopOf(Parse(Format(TimeOfTop(top))).value) == top
  {
    ParseFormat(TimeOfTop(top));
  }

  /**
   * Above the grid, except on a whole hour, the written conversion reads back as an
   * offset one hour higher: the hour is floored but the minute keeps the sign of `top`.
   */
  lemma AsWrittenShift(top: int)
    requires top < 0 && top % 60 != 0
    ensures TopOf(TimeOfTopAsWritten(top)) == top - 60
  {
    var q, r := top / 60, top % 60;
    assert top == q * 60 + r;
    assert -top == (-q - 1) * 60 + (60 - r);
    DivModUnique(-top, -q - 1, 60 - r);
  }

  /**
   * Five pixels above the grid the written conversion yields "06:-5", which reads
   * back as 65 minutes above the grid instead of 5.
   */
  lemma AsWrittenAboveGrid()
    ensures Format(TimeOfTopAsWritten(-5)) == "06:-5"
    ensures Parse(Format(TimeOfTopAsWritten(-5))) == Some(Time(6, -5))
    ensures TopOf(Time(6, -5)) == -65
  {
    var t := TimeOfTopAsWritten(-5);
    assert t == Time(6, -5);
    assert IntString(6) == "6";
    assert IntString(-5) == "-5";
    ParseFormat(t);
  }

  /**
   * Start and end of an event created by a double-click `y` pixels below the top
   * of the grid: the minute is snapped down to a quarter hour, the end is an hour later.
   */
  function SnapStart(y: int): Time {
    Time(y / 60 + FirstHour, (JsRem(y) / 15) * 15)
  }

  function SnapEnd(y: int): Time {
    Time(y / 60 + FirstHour + 1, (JsRem(y) / 15) * 15)
  }

  /**
   * On the grid, the snapped start is the last quarter hour at or before `y`,
   * and the event lasts exactly one hour.
   */
  lemma SnapQuarterHour(y: int)
    requires y >= 0
    ensures SnapStart(y).minute in {0, 15, 30, 45}
    ensures SnapStart(y).minute <= y % 60
    ensures TopOf(SnapStart(y)) == y - y % 15
    ensures TopOf(SnapEnd(y)) == TopOf(SnapStart(y)) + 60
  {
    var r := y % 60;
    assert JsRem(y) == r;
    assert y == (y / 60) * 60 + r;
    assert (r / 15) * 15 + r % 15 == r;
    assert y % 15 == r % 15 by {
      assert y - r == (y / 60) * 60 == 15 * ((y / 60) * 4);
    }
  }

  /**
   * End time `d` minutes after `start`, as the duration handlers compute it:
   * hour `startHour + Math.floor((startMinute + d) / 60)`,
   * minute `(startMinute + d) % 60` with JavaScript's `%`.
   */
  function EndAfter(start: Time, d: int): Time {
    Time(start.hour + (start.minute + d) / 60, JsRem(start.minute + d))
  }

  /** The end lies `d` minutes after the start whenever `startMinute + d` is not negative. */
  lemma EndAfterSpan(start: Time, d: int)
    requires start.minute + d >= 0
    ensures 0 <= EndAfter(start, d).minute < 60
    ensures TopOf(EndAfter(start, d)) == TopOf(start) + d
  {
    var x := start.minute + d;
    assert x == (x / 60) * 60 + x % 60;
  }

  /** From a time on the grid, `d >= 0` minutes later is the time of the offset `d` pixels lower. */
  lemma EndAfterOnGrid(top: int, d: int)
    requires d >= 0
    ensures EndAfter(TimeOfTop(top), d) == TimeOfTop(top + d)
  {
    var start := TimeOfTop(top);
    var x := start.minute + d;
    assert x == (x / 60) * 60 + x % 60;
    assert top == (top / 60) * 60 + start.minute;
    assert top + d == (top / 60 + x / 60) * 60 + x % 60;
    DivModUnique(top + d, top / 60 + x / 60, x % 60);
  }

  lemma DivModUnique(n: int, q: int, r: int)
    requires 0 <= r < 60 && n == q * 60 + r
    ensures n / 60 == q && n % 60 == r
  {
  }

  /**
   * The end text the duration handlers write into the end field. The hour and the
   * minute are computed separately: the hour is NaN unless both parts of the start
   * read as numbers, and the minute is NaN only when the minute part does not read.
   * The texts are written "NaN" + ":" + ... on purpose: the pieces line up with the
   * separator that `Split` looks for, which keeps the lemmas about them short.
   */
  function EndText(startText: string, d: int): string {
    match Numbers(startText)
    case (Some(h), Some(m)) => Format(EndAfter(Time(h, m), d))
    case (None, Some(m)) => "NaN" + ":" + PadStart2(IntString(JsRem(m + d)))
    case (_, None) => "NaN" + ":" + "NaN"
  }

  /** `text.split(':').map(Number)`: each of the first two parts as a number, `None` when missing or NaN. */
  function Numbers(text: string): (Option<int>, Option<int>) {
    var parts := Split(text, ':');
    (NumberValue(parts[0]), if |parts| < 2 then None else NumberValue(parts[1]))
  }

  /** `Parse` reads a time exactly when both numbers of `split(':').map(Number)` are there. */
  lemma ParseNumbers(text: string, h: int, m: int)
    ensures Parse(text) == Some(Time(h, m)) <==> Numbers(text) == (Some(h), Some(m))
  {
  }

  /** From a start that reads as a time, the end text is that time `d` minutes on, written as "HH:MM". */
  lemma EndTextOfTime(startText: string, t: Time, d: int)
    requires Parse(startText) == Some(t)
    ensures EndText(startText, d) == Format(EndAfter(t, d))
  {
    assert Numbers(startText) == (Some(t.hour), Some(t.minute));
  }

  /** Text whose hour part is "NaN" does not read as a time. */
  lemma NaNHourUnreadable(minuteText: string)
    requires ':' !in minuteText
    ensures Parse("NaN" + ":" + minuteText).None?
  {
    assert "NaN" + ":" + minuteText == "NaN" + [':'] + minuteText;
    SplitPair("NaN", minuteText, ':');
    assert NumberValue("NaN") == None;
  }

  /** An end text written from a start that does not read never reads as a time itself. */
  lemma EndTextUnreadable(startText: string, d: int)
    requires Parse(startText).None?
    ensures Parse(EndText(startText, d)).None?
  {
    match Numbers(startText)
    case (None, Some(m)) =>
      PaddedAvoids(JsRem(m + d), ':');
      NaNHourUnreadable(PadStart2(IntString(JsRem(m + d))));
    case (_, None) =>
      NaNHourUnreadable("NaN");
  }

  /**
   * A start whose minute reads but whose hour does not keeps a minute in the end text:
   * "xx:30" with 60 minutes more gives "NaN:30".
   */
  lemma EndTextKeepsMinute(hourText: string, minute: int, d: int)
    requires ':' !in hourText && NumberValue(hourText).None?
    ensures EndText(hourText + ":" + PadStart2(IntString(minute)), d)
      == "NaN" + ":" + PadStart2(IntString(JsRem(minute + d)))
  {
    var m := PadStart2(IntString(minute));
    PaddedAvoids(minute, ':');
    PaddedRoundTrip(minute);
    var text := hourText + ":" + m;
    assert text == hourText + [':'] + m;
    SplitPair(hourText, m, ':');
    assert Numbers(text) == (None, Some(minute));
  }

  /** The end text `d >= 0` minutes after a start written from the grid is the time written for `top + d`. */
  lemma EndTextOnGrid(top: int, d: int)
    requires d >= 0
    ensures EndText(Format(TimeOfTop(top)), d) == Format(TimeOfTop(top + d))
  {
    ParseFormat(TimeOfTop(top));
    EndTextOfTime(Format(TimeOfTop(top)), TimeOfTop(top), d);
    EndAfterOnGrid(top, d);
  }

  /** An end text that reads back is `d` minutes after the start text. */
  lemma EndTextSpan(startText: string, d: int)
    requires Parse(startText).Some? && Parse(startText).value.minute + d >= 0
    ensures Parse(EndText(startText, d)).Some?
    ensures TopOf(Parse(EndText(startText, d)).value) == TopOf(Parse(startText).value) + d
  {
    var start := Parse(startText).value;
    EndTextOfTime(startText, start, d);
    ParseFormat(EndAfter(start, d));
    EndAfterSpan(start, d);
  }
}
