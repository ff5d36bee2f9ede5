/** Parsing and validation of one break-time entry.

    An entry is either a line of the store (`HH:MM-HH:MM`) or a user input
    (`HH:MMHH:MM`).  The regular expression the program uses is written out
    here as a predicate over characters, and a parsed time of day is the
    number of minutes after midnight.
 */
module TimeEntry {

  /** A time of day with minute resolution: minutes after midnight. */
  type Minute = m: int | 0 <= m < 1440

  /** A driver's break, as the program keeps it: two times of day of the same day. */
  datatype Interval = Interval(start: Minute, end: Minute)

  datatype Option<T> = None | Some(value: T)

  /** The two patterns the parser is called with. */
  datatype Shape =
    | FileLine   // `^([01]\d|2[0-3]):[0-5]\d-([01]\d|2[0-3]):[0-5]\d$`
    | UserInput  // `^([01]\d|2[0-3]):[0-5]\d([01]\d|2[0-3]):[0-5]\d$`

  predicate IsDigit(c: char) {
    '0' <= c <= '9'
  }

  function DigitValue(c: char): (d: nat)
    requires IsDigit(c)
    ensures d < 10
  {
    (c as int) - ('0' as int)
  }

  function DigitChar(d: nat): (c: char)
    requires d < 10
    ensures IsDigit(c) && DigitValue(c) == d
  {
    (('0' as int) + d) as char
  }

  /** `([01]\d|2[0-3])` */
  predicate IsHour(a: char, b: char) {
    ((a == '0' || a == '1') && IsDigit(b)) || (a == '2' && '0' <= b <= '3')
  }

  /** `[0-5]\d` */
  predicate IsMinute(a: char, b: char) {
    '0' <= a <= '5' && IsDigit(b)
  }

  /** An `HH:MM` field starting at position `i` of `s`. */
  predicate IsClockAt(s: string, i: nat) {
    i + 5 <= |s| && IsHour(s[i], s[i + 1]) && s[i + 2] == ':' && IsMinute(s[i + 3], s[i + 4])
  }

  /** The whole-string match of the pattern for `shape` (both patterns are anchored by `^` and `$`). */
  predicate Matches(entry: string, shape: Shape) {
    match shape
    case FileLine => |entry| == 11 && IsClockAt(entry, 0) && entry[5] == '-' && IsClockAt(entry, 6)
    case UserInput => |entry| == 10 && IsClockAt(entry, 0) && IsClockAt(entry, 5)
  }

  /** `DateTime.ParseExact(field, "HH:mm", null)`, reduced to the time of day. */
  function ClockValue(field: string): Minute
    requires |field| == 5 && IsClockAt(field, 0)
  {
    var hour := 10 * DigitValue(field[0]) + DigitValue(field[1]);
    var minute := 10 * DigitValue(field[3]) + DigitValue(field[4]);
    hour * 60 + minute
  }

  /** A time of day written as zero-padded `HH:MM`. */
  function ClockText(m: Minute): string {
    var hour, minute := m / 60, m % 60;
    [DigitChar(hour / 10), DigitChar(hour % 10), ':', DigitChar(minute / 10), DigitChar(minute % 10)]
  }

  /** The text an interval is written as in `shape`: with a hyphen in the store, without one as user input. */
  function Format(iv: Interval, shape: Shape): string {
    ClockText(iv.start) + (if shape == FileLine then "-" else "") + ClockText(iv.end)
  }

  lemma NoHyphenInUserInput(entry: string)
    requires Matches(entry, UserInput)
    ensures '-' !in entry
  {
    forall i | 0 <= i < |entry|
      ensures entry[i] != '-'
    {
      assert i < 5 || 5 <= i < 10;
    }
  }

  /** ParseTimeEntry: null (None) unless `entry` matches the pattern and its two
      fields differ; the field after the start is found by looking for a hyphen. */
  function ParseTimeEntry(entry: string, shape: Shape): (r: Option<Interval>)
    ensures r.Some? ==> Matches(entry, shape) && r.value.start != r.value.end
  {
    if Matches(entry, shape) then
      var startTime := entry[..5];
      var endTime := if '-' in entry then entry[6..] else (NoHyphenInUserInput(entry); entry[5..]);
      if startTime != endTime then
        ClockFieldIsText(startTime);
        ClockFieldIsText(endTime);
        Some(Interval(ClockValue(startTime), ClockValue(endTime)))
      else
        None
    else
      None
  }

  /** The user input reformatted for the store: a hyphen inserted after the start field. */
  function Reformat(input: string): (line: string)
    requires |input| >= 5
    ensures |line| == |input| + 1 && line[5] == '-'
    ensures line[..5] == input[..5] && line[6..] == input[5..]
  {
    input[..5] + "-" + input[5..]
  }

  // ---------------------------------------------------------------------
  // Properties

  /** `ClockText` writes exactly the fields the pattern accepts, and parsing reads the time back. */
  lemma ClockTextParses(m: Minute)
    ensures |ClockText(m)| == 5 && IsClockAt(ClockText(m), 0)
    ensures ClockValue(ClockText(m)) == m
  {
    var t := ClockText(m);
    var hour, minute := m / 60, m % 60;
    assert hour < 24 && minute < 60;
    assert DigitValue(t[0]) == hour / 10 && DigitValue(t[1]) == hour % 10;
    assert DigitValue(t[3]) == minute / 10 && DigitValue(t[4]) == minute % 10;
  }

  /** Every field the pattern accepts is the `ClockText` of the time it parses to. */
  lemma ClockFieldIsText(field: string)
    requires |field| == 5 && IsClockAt(field, 0)
    ensures ClockText(ClockValue(field)) == field
  {
    var hour := 10 * DigitValue(field[0]) + DigitValue(field[1]);
    var minute := 10 * DigitValue(field[3]) + DigitValue(field[4]);
    var m := ClockValue(field);
    assert hour < 24 && minute < 60;
    assert m / 60 == hour && m % 60 == minute;
    var t := ClockText(m);
    assert t[0] == field[0] && t[1] == field[1] && t[3] == field[3] && t[4] == field[4];
  }

  lemma FormatFields(iv: Interval, shape: Shape)
    ensures Matches(Format(iv, shape), shape)
    ensures Format(iv, shape)[..5] == ClockText(iv.start)
    ensures shape == FileLine ==> Format(iv, shape)[6..] == ClockText(iv.end)
    ensures shape == UserInput ==> Format(iv, shape)[5..] == ClockText(iv.end)
  {
    ClockTextParses(iv.start);
    ClockTextParses(iv.end);
    var e := Format(iv, shape);
    var a, b := ClockText(iv.start), ClockText(iv.end);
    if shape == FileLine {
      assert e == a + "-" + b;
      assert e[..5] == a && e[6..] == b;
    } else {
      assert e == a + b;
      assert e[..5] == a && e[5..] == b;
    }
  }

  /** The patterns accept exactly the formatted intervals (equal fields included). */
  lemma {:induction false} MatchesExactlyFormats(entry: string, shape: Shape)
    ensures Matches(entry, shape) <==> exists iv: Interval :: entry == Format(iv, shape)
  {
    if Matches(entry, shape) {
      var startTime := entry[..5];
      var endTime := if shape == FileLine then entry[6..] else entry[5..];
      ClockFieldIsText(startTime);
      ClockFieldIsText(endTime);
      var iv := Interval(ClockValue(startTime), ClockValue(endTime));
      if shape == FileLine {
        assert entry == startTime + "-" + endTime;
      } else {
        assert entry == startTime + endTime;
      }
      assert entry == Format(iv, shape);
    }
    if exists iv: Interval :: entry == Format(iv, shape) {
      var iv: Interval :| entry == Format(iv, shape);
      FormatFields(iv, shape);
    }
  }

  /** A successful parse returns two distinct times, and the entry is exactly their text. */
  lemma ParseSound(entry: string, shape: Shape)
    requires ParseTimeEntry(entry, shape).Some?
    ensures var iv := ParseTimeEntry(entry, shape).value;
      iv.start != iv.end && entry == Format(iv, shape)
  {
    var startTime := entry[..5];
    var endTime := if shape == FileLine then entry[6..] else entry[5..];
    if shape == UserInput {
      NoHyphenInUserInput(entry);
    } else {
      assert entry[5] == '-';
    }
    ClockFieldIsText(startTime);
    ClockFieldIsText(endTime);
    if shape == FileLine {
      assert entry == startTime + "-" + endTime;
    } else {
      assert entry == startTime + endTime;
    }
  }

  /** Every interval of two distinct times, written in `shape`, parses back to itself;
      in particular an end before the start (`23:50-00:10`) is accepted. */
  lemma ParseComplete(iv: Interval, shape: Shape)
    requires iv.start != iv.end
    ensures ParseTimeEntry(Format(iv, shape), shape) == Some(iv)
  {
    var e := Format(iv, shape);
    FormatFields(iv, shape);
    ClockTextParses(iv.start);
    ClockTextParses(iv.end);
    if shape == UserInput {
      NoHyphenInUserInput(e);
    } else {
      assert e[5] == '-';
    }
  }

  /** An entry whose two fields are the same time is rejected. */
  lemma ParseRejectsZeroLength(m: Minute, shape: Shape)
    ensures Matches(Format(Interval(m, m), shape), shape)
    ensures ParseTimeEntry(Format(Interval(m, m), shape), shape) == None
  {
    var e := Format(Interval(m, m), shape);
    FormatFields(Interval(m, m), shape);
    if shape == UserInput {
      NoHyphenInUserInput(e);
    } else {
      assert e[5] == '-';
    }
  }

  /** The parser accepts exactly the formatted intervals of two distinct times. */
  lemma ParseAcceptsExactly(entry: string, shape: Shape)
    ensures ParseTimeEntry(entry, shape).Some? <==>
      exists iv: Interval :: iv.start != iv.end && entry == Format(iv, shape)
  {
    if ParseTimeEntry(entry, shape).Some? {
      ParseSound(entry, shape);
    }
    if exists iv: Interval :: iv.start != iv.end && entry == Format(iv, shape) {
      var iv: Interval :| iv.start != iv.end && entry == Format(iv, shape);
      ParseComplete(iv, shape);
    }
  }

  /** Inserting the hyphen turns an accepted user input into an accepted store line that
      parses to the same interval; any user input that matches gives a matching line. */
  lemma ReformatRoundTrip(input: string)
    requires Matches(input, UserInput)
    ensures Matches(Reformat(input), FileLine)
    ensures ParseTimeEntry(Reformat(input), FileLine) == ParseTimeEntry(input, UserInput)
  {
    MatchesExactlyFormats(input, UserInput);
    var iv: Interval :| input == Format(iv, UserInput);
    var a, b := ClockText(iv.start), ClockText(iv.end);
    ClockTextParses(iv.start);
    ClockTextParses(iv.end);
    assert input == a + b;
    assert input[..5] == a && input[5..] == b;
    assert Reformat(input) == Format(iv, FileLine);
    FormatFields(iv, FileLine);
    if iv.start != iv.end {
      ParseComplete(iv, UserInput);
      ParseComplete(iv, FileLine);
    } else {
      ParseRejectsZeroLength(iv.start, UserInput);
      ParseRejectsZeroLength(iv.start, FileLine);
    }
  }

  // ---------------------------------------------------------------------
  // Example entries: an end before the start, an hour out of range, equal fields

  lemma AcceptsEndBeforeStart()
    ensures ParseTimeEntry("23:50-00:10", FileLine) == Some(Interval(1430, 10))
  {
    assert ClockText(1430) == "23:50" && ClockText(10) == "00:10";
    assert Format(Interval(1430, 10), FileLine) == "23:50-00:10";
    ParseComplete(Interval(1430, 10), FileLine);
  }

  lemma RejectsHourOutOfRange()
    ensures ParseTimeEntry("25:00-08:00", FileLine) == None
  {
  }

  lemma RejectsEqualUserInput()
    ensures ParseTimeEntry("13:1513:15", UserInput) == None
  {
    assert ClockText(795) == "13:15";
    assert Format(Interval(795, 795), UserInput) == "13:1513:15";
    ParseRejectsZeroLength(795, UserInput);
  }
}
