/** The schedule-string engine of src/utils/scheduleUtils.ts. A meeting
    pattern such as "MWF 09:00-09:50" or "TTH 14:00-15:15" is read into a
    `TimeSlot` (weekdays plus start and end), its time part is rendered in
    12-hour form, and two patterns are checked for a clash.

    Times are minutes since midnight, `hours * 60 + minutes`: the source's
    fractional hours `hours + minutes / 60` scaled by 60, which keeps every
    comparison the code makes (see `HoursScaleToMinutes`). A result of
    `None` stands for the cases where the source throws a `TypeError` (a
    missing space, hyphen or field) or computes `NaN` (a time token that is
    not made of digits). */
module ScheduleUtils {
  import opened Types
  import opened Text

  datatype Day = Monday | Tuesday | Wednesday | Thursday | Friday

  /** A parsed meeting pattern (src/utils/scheduleUtils.ts:1-5). An entry of
      `days` is `None` where the source pushes `undefined`. */
  datatype TimeSlot = TimeSlot(days: seq<Option<Day>>, startTime: int, endTime: int)

  // ---------------------------------------------------------------------
  // day codes

  /** The code of each weekday in a schedule string. */
  function DayCode(d: Day): (code: string)
    ensures code in ["M", "T", "W", "TH", "F"]
  {
    match d
    case Monday => "M"
    case Tuesday => "T"
    case Wednesday => "W"
    case Thursday => "TH"
    case Friday => "F"
  }

  /** `dayMap[token]`: the five codes name their weekday and every other
      token is `undefined`. */
  function DayOfToken(token: string): (d: Option<Day>)
    ensures d.Some? <==> token in ["M", "T", "W", "TH", "F"]
    ensures d.Some? ==> DayCode(d.value) == token
  {
    if token == "M" then Some(Monday)
    else if token == "T" then Some(Tuesday)
    else if token == "W" then Some(Wednesday)
    else if token == "TH" then Some(Thursday)
    else if token == "F" then Some(Friday)
    else None
  }

  /** The greedy left-to-right segmentation the scan performs: where at
      least two characters remain and they are "TH" the token is "TH",
      otherwise it is one character. */
  function Tokenize(codes: string): (tokens: seq<string>)
    ensures forall k :: 0 <= k < |tokens| ==> tokens[k] == "TH" || |tokens[k]| == 1
    decreases |codes|
  {
    if |codes| == 0 then []
    else if |codes| >= 2 && codes[..2] == "TH" then ["TH"] + Tokenize(codes[2..])
    else [codes[..1]] + Tokenize(codes[1..])
  }

  /** Each token looked up in the day table, in order. */
  function DayEntries(tokens: seq<string>): (entries: seq<Option<Day>>)
    ensures |entries| == |tokens|
    decreases |tokens|
  {
    if |tokens| == 0 then [] else [DayOfToken(tokens[0])] + DayEntries(tokens[1..])
  }

  /** The `days` of a slot: the entries produced for a day-code block. */
  function DaysOf(codes: string): seq<Option<Day>>
  {
    DayEntries(Tokenize(codes))
  }

  /** One step of the scan: "TH" gives Thursday and skips two characters,
      anything else gives the table entry of one character and skips it. */
  lemma DaysOfStep(codes: string)
    requires |codes| > 0
    ensures |codes| >= 2 && codes[..2] == "TH" ==> DaysOf(codes) == [Some(Thursday)] + DaysOf(codes[2..])
    ensures !(|codes| >= 2 && codes[..2] == "TH") ==> DaysOf(codes) == [DayOfToken(codes[..1])] + DaysOf(codes[1..])
  {
    var tokens := Tokenize(codes);
    assert tokens[1..] == Tokenize(if |codes| >= 2 && codes[..2] == "TH" then codes[2..] else codes[1..]);
  }

  /** The tokens concatenate back to the whole block: the scan stops with
      its index exactly at the end. */
  function Concat(tokens: seq<string>): string
    decreases |tokens|
  {
    if |tokens| == 0 then "" else tokens[0] + Concat(tokens[1..])
  }

  lemma {:induction false} TokenizeConsumesAll(codes: string)
    ensures Concat(Tokenize(codes)) == codes
    decreases |codes|
  {
    if |codes| > 0 {
      var tokens := Tokenize(codes);
      if |codes| >= 2 && codes[..2] == "TH" {
        TokenizeConsumesAll(codes[2..]);
        assert tokens[1..] == Tokenize(codes[2..]);
        assert codes == codes[..2] + codes[2..];
      } else {
        TokenizeConsumesAll(codes[1..]);
        assert tokens[1..] == Tokenize(codes[1..]);
        assert codes == codes[..1] + codes[1..];
      }
    }
  }

  /** The scan emits at least one entry per two characters and at most one
      per character. */
  lemma {:induction false} DayCountBounds(codes: string)
    ensures (|codes| + 1) / 2 <= |DaysOf(codes)| <= |codes|
    decreases |codes|
  {
    if |codes| > 0 {
      DaysOfStep(codes);
      if |codes| >= 2 && codes[..2] == "TH" {
        DayCountBounds(codes[2..]);
      } else {
        DayCountBounds(codes[1..]);
      }
    }
  }

  /** "TH" starts at position `k` of the block. */
  predicate ThursdayAt(codes: string, k: int)
  {
    0 <= k && k + 1 < |codes| && codes[k] == 'T' && codes[k + 1] == 'H'
  }

  predicate HasThursdayCode(codes: string)
  {
    exists k :: 0 <= k < |codes| && ThursdayAt(codes, k)
  }

  /** Away from a leading "TH", a "TH" occurs in the block exactly when it
      occurs in its tail. */
  lemma ThursdayInTail(codes: string)
    requires |codes| > 0 && !(|codes| >= 2 && codes[..2] == "TH")
    ensures HasThursdayCode(codes) <==> HasThursdayCode(codes[1..])
  {
    var tail := codes[1..];
    if HasThursdayCode(codes) {
      var k :| 0 <= k < |codes| && ThursdayAt(codes, k);
      assert k != 0;
      assert tail[k - 1] == codes[k] && tail[k] == codes[k + 1];
      assert ThursdayAt(tail, k - 1);
    }
    if HasThursdayCode(tail) {
      var k :| 0 <= k < |tail| && ThursdayAt(tail, k);
      assert tail[k] == codes[k + 1] && tail[k + 1] == codes[k + 2];
      assert ThursdayAt(codes, k + 1);
    }
  }

  /** One entry per character exactly when the block holds no "TH". */
  lemma {:induction false} DayCountExact(codes: string)
    ensures |DaysOf(codes)| == |codes| <==> !HasThursdayCode(codes)
    decreases |codes|
  {
    if |codes| > 0 {
      DaysOfStep(codes);
      if |codes| >= 2 && codes[..2] == "TH" {
        DayCountBounds(codes[2..]);
        assert ThursdayAt(codes, 0);
      } else {
        DayCountExact(codes[1..]);
        ThursdayInTail(codes);
      }
    }
  }

  /** The day-code block of a sequence of weekdays. */
  function Encode(days: seq<Day>): string
    decreases |days|
  {
    if |days| == 0 then "" else DayCode(days[0]) + Encode(days[1..])
  }

  /** Weekdays as present entries. */
  function Present(days: seq<Day>): (entries: seq<Option<Day>>)
    ensures |entries| == |days|
    decreases |days|
  {
    if |days| == 0 then [] else [Some(days[0])] + Present(days[1..])
  }

  /** The weekdays of entries that are all present. */
  function Values(entries: seq<Option<Day>>): (days: seq<Day>)
    requires forall k :: 0 <= k < |entries| ==> entries[k].Some?
    ensures |days| == |entries|
    decreases |entries|
  {
    if |entries| == 0 then [] else [entries[0].value] + Values(entries[1..])
  }

  /** Scanning the encoding of any weekday sequence gives it back in order,
      repeats included: "TTH" is Tuesday then Thursday, never Tuesday,
      Tuesday and an unknown "H". */
  lemma {:induction false} DecodeEncode(days: seq<Day>)
    ensures DaysOf(Encode(days)) == Present(days)
    decreases |days|
  {
    if |days| > 0 {
      DecodeEncode(days[1..]);
      if |days| > 1 {
        EncodingStartsWithDay(days[1..]);
      }
      CodeThenRest(days[0], Encode(days[1..]));
    }
  }

  /** No encoding starts with 'H', the one letter that can extend a "T". */
  lemma EncodingStartsWithDay(days: seq<Day>)
    requires |days| > 0
    ensures Encode(days)[0] != 'H'
  {
    assert Encode(days) == DayCode(days[0]) + Encode(days[1..]);
  }

  /** A code followed by a block that does not start with 'H' scans as that
      code's weekday followed by the scan of the block. */
  lemma CodeThenRest(d: Day, rest: string)
    requires |rest| == 0 || rest[0] != 'H'
    ensures DaysOf(DayCode(d) + rest) == [Some(d)] + DaysOf(rest)
  {
    if d == Thursday {
      ThursdayThenRest(rest);
    } else {
      LetterThenRest(DayCode(d), rest);
    }
  }

  lemma ThursdayThenRest(rest: string)
    ensures DaysOf("TH" + rest) == [Some(Thursday)] + DaysOf(rest)
  {
    var codes := "TH" + rest;
    DaysOfStep(codes);
    assert codes[..2] == "TH" && codes[2..] == rest;
  }

  /** A one-letter code that is not followed by 'H' scans on its own. */
  lemma LetterThenRest(code: string, rest: string)
    requires code in ["M", "T", "W", "F"]
    requires |rest| == 0 || rest[0] != 'H'
    ensures DaysOf(code + rest) == [DayOfToken(code)] + DaysOf(rest)
  {
    var codes := code + rest;
    DaysOfStep(codes);
    assert codes[..1] == code && codes[1..] == rest;
    assert |codes| >= 2 ==> codes[1] == rest[0];
  }

  /** A block whose every token is a known code is the encoding of the
      weekdays it scans to. */
  lemma {:induction false} EncodeDecode(codes: string)
    requires forall k :: 0 <= k < |DaysOf(codes)| ==> DaysOf(codes)[k].Some?
    ensures Encode(Values(DaysOf(codes))) == codes
    decreases |codes|
  {
    if |codes| > 0 {
      var entries := DaysOf(codes);
      DaysOfStep(codes);
      var tail := if |codes| >= 2 && codes[..2] == "TH" then codes[2..] else codes[1..];
      assert entries[1..] == DaysOf(tail);
      EncodeDecode(tail);
      if |codes| >= 2 && codes[..2] == "TH" {
        assert codes == "TH" + codes[2..];
      } else {
        assert entries[0] == DayOfToken(codes[..1]);
        assert codes == codes[..1] + codes[1..];
      }
    }
  }

  /** A character that is neither one of M, T, W, F nor the start of "TH" is
      an undefined entry, not an error: "MS" scans to Monday and undefined. */
  lemma UnknownCodeIsUndefined()
    ensures DaysOf("MS") == [Some(Monday), None]
    ensures DaysOf("H") == [None]
  {
    DaysOfStep("MS");
    assert "MS"[1..] == "S";
    DaysOfStep("S");
    assert "S"[1..] == "";
    DaysOfStep("H");
    assert "H"[1..] == "";
  }

  /** The canonical scans. */
  lemma ScanExamples()
    ensures DaysOf("MWF") == [Some(Monday), Some(Wednesday), Some(Friday)]
    ensures DaysOf("TTH") == [Some(Tuesday), Some(Thursday)]
  {
    ScanMondayWednesdayFriday();
    ScanTuesdayThursday();
  }

  lemma ScanMondayWednesdayFriday()
    ensures DaysOf("MWF") == [Some(Monday), Some(Wednesday), Some(Friday)]
  {
    assert DaysOf("") == [];
    assert "F" == DayCode(Friday) + "";
    CodeThenRest(Friday, "");
    assert "WF" == DayCode(Wednesday) + "F";
    CodeThenRest(Wednesday, "F");
    assert "MWF" == DayCode(Monday) + "WF";
    CodeThenRest(Monday, "WF");
  }

  lemma ScanTuesdayThursday()
    ensures DaysOf("TTH") == [Some(Tuesday), Some(Thursday)]
  {
    assert DaysOf("") == [];
    assert "TH" == DayCode(Thursday) + "";
    CodeThenRest(Thursday, "");
    assert "TTH" == DayCode(Tuesday) + "TH";
    CodeThenRest(Tuesday, "TH");
  }

  // ---------------------------------------------------------------------
  // times

  /** `parseTimeToNumber` (src/utils/scheduleUtils.ts:31-34) in minutes:
      `Number` of the fields before and after the first ':'; a missing or
      non-numeric field makes the result `NaN`. */
  function MinutesOf(time: string): (minutes: Option<nat>)
    ensures minutes.Some? <==> ':' in time && AllDigits(Split(time, ':')[0]) && AllDigits(Split(time, ':')[1])
  {
    var parts := Split(time, ':');
    if |parts| < 2 then None
    else
      var hours := NumberOf(parts[0]);
      var mins := NumberOf(parts[1]);
      if hours.None? || mins.None? then None
      else Some(hours.value * 60 + mins.value)
  }

  /** Counting in minutes orders clock readings as the source's fractional
      hours do: the two agree on every `<=`, `<` and `==`. */
  lemma HoursScaleToMinutes(h1: nat, m1: nat, h2: nat, m2: nat)
    ensures (h1 as real + m1 as real / 60.0 <= h2 as real + m2 as real / 60.0) <==> h1 * 60 + m1 <= h2 * 60 + m2
    ensures (h1 as real + m1 as real / 60.0 < h2 as real + m2 as real / 60.0) <==> h1 * 60 + m1 < h2 * 60 + m2
    ensures (h1 as real + m1 as real / 60.0 == h2 as real + m2 as real / 60.0) <==> h1 * 60 + m1 == h2 * 60 + m2
  {
    assert (h1 as real + m1 as real / 60.0) * 60.0 == (h1 * 60 + m1) as real;
    assert (h2 as real + m2 as real / 60.0) * 60.0 == (h2 * 60 + m2) as real;
  }

  /** For minutes below 60 the minute count is the lexicographic order on
      (hours, minutes). */
  lemma ClockOrder(h1: nat, m1: nat, h2: nat, m2: nat)
    requires m1 < 60 && m2 < 60
    ensures h1 * 60 + m1 <= h2 * 60 + m2 <==> h1 < h2 || (h1 == h2 && m1 <= m2)
  {
  }

  /** Digit tokens never hold the separators of a schedule string. */
  lemma DigitsHoldNoSeparator(s: string)
    requires AllDigits(s)
    ensures ' ' !in s && '-' !in s && ':' !in s
  {
    forall c | c in s
      ensures c != ' ' && c != '-' && c != ':'
    {
      var k :| 0 <= k < |s| && s[k] == c;
      assert IsDigit(s[k]);
    }
  }

  /** An `HH:MM` token of digits reads as `HH * 60 + MM`. */
  lemma MinutesOfClock(hour: string, minute: string)
    requires AllDigits(hour) && AllDigits(minute)
    ensures MinutesOf(hour + ":" + minute).Some?
    ensures MinutesOf(hour + ":" + minute).value == DigitsValue(hour) * 60 + DigitsValue(minute)
  {
    DigitsHoldNoSeparator(hour);
    DigitsHoldNoSeparator(minute);
    SplitTwo(hour, minute, ':');
    assert NumberOf(hour) == Some(DigitsValue(hour));
    assert NumberOf(minute) == Some(DigitsValue(minute));
    MinutesOfFields(hour + ":" + minute, hour, minute);
  }

  lemma MinutesOfFields(time: string, hour: string, minute: string)
    requires Split(time, ':') == [hour, minute]
    requires NumberOf(hour).Some? && NumberOf(minute).Some?
    ensures MinutesOf(time) == Some(NumberOf(hour).value * 60 + NumberOf(minute).value)
  {
  }

  // ---------------------------------------------------------------------
  // parseTimeSlots

  /** What `parseTimeSlots` returns for a schedule string: the day codes
      are the text before the first space, the time range the text between
      the first and second space, and start and end the two fields of the
      range around its first hyphen. */
  function TimeSlotOf(timeString: string): (slot: Option<TimeSlot>)
    ensures slot.Some? ==> ' ' in timeString && '-' in Split(timeString, ' ')[1]
  {
    var fields := Split(timeString, ' ');
    if |fields| < 2 then None
    else
      var ends := Split(fields[1], '-');
      if |ends| < 2 then None
      else
        var start := MinutesOf(ends[0]);
        var end := MinutesOf(ends[1]);
        if start.None? || end.None? then None
        else Some(TimeSlot(DaysOf(fields[0]), start.value, end.value))
  }

  /** `parseTimeSlots` (src/utils/scheduleUtils.ts:7-41), with its scan of
      the day codes as the source's loop over an index that advances by one
      or two. */
  method ParseTimeSlots(timeString: string) returns (slot: Option<TimeSlot>)
    ensures slot == TimeSlotOf(timeString)
  {
    var fields := Split(timeString, ' ');
    if |fields| < 2 {
      return None;
    }
    var days, times := fields[0], fields[1];
    var ends := Split(times, '-');
    if |ends| < 2 {
      return None;
    }
    var parsedDays: seq<Option<Day>> := [];
    var i := 0;
    while i < |days|
      invariant 0 <= i <= |days|
      invariant parsedDays + DaysOf(days[i..]) == DaysOf(days)
      decreases |days| - i
    {
      DaysOfStep(days[i..]);
      if i < |days| - 1 && days[i..i + 2] == "TH" {
        assert days[i..][..2] == days[i..i + 2] && days[i..][2..] == days[i + 2..];
        parsedDays := parsedDays + [DayOfToken("TH")];
        i := i + 2;
      } else {
        assert days[i..][..1] == days[i..i + 1] && days[i..][1..] == days[i + 1..];
        parsedDays := parsedDays + [DayOfToken(days[i..i + 1])];
        i := i + 1;
      }
    }
    assert days[i..] == [];
    assert DaysOf(days[i..]) == [];
    assert parsedDays == DaysOf(days);
    var start := MinutesOf(ends[0]);
    var end := MinutesOf(ends[1]);
    if start.None? || end.None? {
      return None;
    }
    assert TimeSlotOf(timeString) == Some(TimeSlot(DaysOf(days), start.value, end.value));
    slot := Some(TimeSlot(parsedDays, start.value, end.value));
  }

  /** A schedule string as the catalogue writes it: day codes, one space,
      then `HH:MM-HH:MM`. */
  function Pattern(codes: string, startHour: string, startMinute: string, endHour: string, endMinute: string): string
  {
    codes + " " + startHour + ":" + startMinute + "-" + endHour + ":" + endMinute
  }

  /** The time range of a pattern, `HH:MM-HH:MM`, holds no space. */
  lemma RangeHoldsNoSpace(startHour: string, startMinute: string, endHour: string, endMinute: string)
    requires AllDigits(startHour) && AllDigits(startMinute) && AllDigits(endHour) && AllDigits(endMinute)
    ensures ' ' !in startHour + ":" + startMinute + "-" + endHour + ":" + endMinute
    ensures '-' !in startHour + ":" + startMinute && '-' !in endHour + ":" + endMinute
  {
    DigitsHoldNoSeparator(startHour);
    DigitsHoldNoSeparator(startMinute);
    DigitsHoldNoSeparator(endHour);
    DigitsHoldNoSeparator(endMinute);
  }

  /** A pattern splits into its day codes, its time range, and the two
      clock readings of the range. */
  lemma SplitPattern(codes: string, startHour: string, startMinute: string, endHour: string, endMinute: string)
    requires ' ' !in codes
    requires AllDigits(startHour) && AllDigits(startMinute) && AllDigits(endHour) && AllDigits(endMinute)
    ensures Split(Pattern(codes, startHour, startMinute, endHour, endMinute), ' ')
         == [codes, startHour + ":" + startMinute + "-" + endHour + ":" + endMinute]
    ensures Split(startHour + ":" + startMinute + "-" + endHour + ":" + endMinute, '-')
         == [startHour + ":" + startMinute, endHour + ":" + endMinute]
  {
    var startText := startHour + ":" + startMinute;
    var endText := endHour + ":" + endMinute;
    var range := startHour + ":" + startMinute + "-" + endHour + ":" + endMinute;
    assert Pattern(codes, startHour, startMinute, endHour, endMinute) == codes + [' '] + range;
    assert range == startText + ['-'] + endText;
    RangeHoldsNoSpace(startHour, startMinute, endHour, endMinute);
    SplitTwo(codes, range, ' ');
    SplitTwo(startText, endText, '-');
  }

  /** What `parseTimeSlots` makes of a string with a day-code field and a
      range of two fields. */
  lemma TimeSlotOfFields(text: string, codes: string, range: string, start: string, end: string)
    requires Split(text, ' ') == [codes, range] && Split(range, '-') == [start, end]
    ensures TimeSlotOf(text)
         == if MinutesOf(start).None? || MinutesOf(end).None? then None
            else Some(TimeSlot(DaysOf(codes), MinutesOf(start).value, MinutesOf(end).value))
  {
  }

  /** Every catalogue-style schedule string parses: the days are the scan of the
      codes and the times are the clock readings in minutes. */
  lemma ParsePattern(codes: string, startHour: string, startMinute: string, endHour: string, endMinute: string)
    requires ' ' !in codes
    requires AllDigits(startHour) && AllDigits(startMinute) && AllDigits(endHour) && AllDigits(endMinute)
    ensures TimeSlotOf(Pattern(codes, startHour, startMinute, endHour, endMinute)).Some?
    ensures var slot := TimeSlotOf(Pattern(codes, startHour, startMinute, endHour, endMinute)).value;
            slot.days == DaysOf(codes) &&
            slot.startTime == DigitsValue(startHour) * 60 + DigitsValue(startMinute) &&
            slot.endTime == DigitsValue(endHour) * 60 + DigitsValue(endMinute)
  {
    SplitPattern(codes, startHour, startMinute, endHour, endMinute);
    MinutesOfClock(startHour, startMinute);
    MinutesOfClock(endHour, endMinute);
    var range := startHour + ":" + startMinute + "-" + endHour + ":" + endMinute;
    var startText, endText := startHour + ":" + startMinute, endHour + ":" + endMinute;
    TimeSlotOfFields(Pattern(codes, startHour, startMinute, endHour, endMinute), codes, range, startText, endText);
  }

  // ---------------------------------------------------------------------
  // formatTimeRange

  /** AM before noon, PM from noon on. */
  function Period(hour: int): (period: string)
    ensures period == "PM" <==> hour >= 12
    ensures period == "AM" <==> hour < 12
  {
    if hour >= 12 then "PM" else "AM"
  }

  /** The printed hour: 12 is taken off hours above 12 only, so 0 prints
      as 0 and 12 as 12. */
  function DisplayHour(hour: nat): (shown: nat)
    ensures (hour - shown) % 12 == 0
    ensures hour <= 23 ==> shown <= 12
  {
    if hour > 12 then hour - 12 else hour
  }

  /** The 24-hour reading of a 12-hour clock face. */
  function WallClockHour(display: nat, period: string): nat
  {
    if display == 12 then (if period == "AM" then 0 else 12)
    else if period == "PM" then display + 12
    else display
  }

  /** For every hour of the day the printed hour and period determine the
      hour, and every hour but midnight prints between 1 and 12. */
  lemma TwelveHourRoundTrip(hour: nat)
    requires hour < 24
    ensures WallClockHour(DisplayHour(hour), Period(hour)) == hour
    ensures hour != 0 ==> 1 <= DisplayHour(hour) <= 12
  {
  }

  /** `formatTime` (src/utils/scheduleUtils.ts:47-53): the hour through
      `parseInt`, the period, and the minutes field copied as it is.
      JavaScript prints a missing minutes field as "undefined" and a `NaN`
      hour as "NaN" with period AM. */
  function FormatTime(time: string): (text: string)
    ensures |text| >= 2 && text[|text| - 2..] in ["AM", "PM"]
  {
    var parts := Split(time, ':');
    var minutes := if |parts| >= 2 then parts[1] else "undefined";
    var hour := ParseIntOf(parts[0]);
    var (clock, period) := if hour.None? then ("NaN:" + minutes + " ", "AM")
                           else (NatToString(DisplayHour(hour.value)) + ":" + minutes + " ", Period(hour.value));
    assert (clock + period)[|clock + period| - 2..] == period;
    clock + period
  }

  /** A digit hour followed by a colon and minutes prints as the hour value
      in 12-hour form, the minutes verbatim, and the period. */
  lemma FormatClock(hour: string, minute: string)
    requires |hour| > 0 && AllDigits(hour) && ':' !in minute
    ensures FormatTime(hour + ":" + minute)
         == NatToString(DisplayHour(DigitsValue(hour))) + ":" + minute + " " + Period(DigitsValue(hour))
  {
    DigitsHoldNoSeparator(hour);
    SplitAfterField(hour, minute, ':');
    SplitNoSeparator(minute, ':');
    ParseIntOfDigits(hour);
  }

  /** `formatTimeRange` (src/utils/scheduleUtils.ts:43-56): the two ends of
      the time range formatted and joined by " - "; the day codes are not
      looked at. */
  function FormatTimeRange(timeString: string): (text: Option<string>)
    ensures text.Some? <==> ' ' in timeString && '-' in Split(timeString, ' ')[1]
  {
    var fields := Split(timeString, ' ');
    if |fields| < 2 then None
    else
      var ends := Split(fields[1], '-');
      if |ends| < 2 then None
      else Some(FormatTime(ends[0]) + " - " + FormatTime(ends[1]))
  }

  /** The day-code prefix has no influence on the formatted range. */
  lemma FormatIgnoresDayCodes(codes1: string, codes2: string, rest: string)
    requires ' ' !in codes1 && ' ' !in codes2
    ensures FormatTimeRange(codes1 + " " + rest) == FormatTimeRange(codes2 + " " + rest)
  {
    SplitAfterField(codes1, rest, ' ');
    SplitAfterField(codes2, rest, ' ');
  }

  /** A catalogue-style schedule string formats as its two clock readings. */
  lemma FormatPattern(codes: string, startHour: string, startMinute: string, endHour: string, endMinute: string)
    requires ' ' !in codes
    requires AllDigits(startHour) && AllDigits(startMinute) && AllDigits(endHour) && AllDigits(endMinute)
    ensures FormatTimeRange(Pattern(codes, startHour, startMinute, endHour, endMinute))
         == Some(FormatTime(startHour + ":" + startMinute) + " - " + FormatTime(endHour + ":" + endMinute))
  {
    SplitPattern(codes, startHour, startMinute, endHour, endMinute);
  }

  /** The clock face at the boundary hours: midnight reads 0 AM (only
      hours above 12 are shifted), noon 12 PM, 13:00 1 PM, 09:00 9 AM. */
  lemma ClockFaceBoundaries()
    ensures DisplayHour(0) == 0 && Period(0) == "AM"
    ensures DisplayHour(9) == 9 && Period(9) == "AM"
    ensures DisplayHour(12) == 12 && Period(12) == "PM"
    ensures DisplayHour(13) == 1 && Period(13) == "PM"
  {
  }

  /** A reading whose hour field has a known value and printed form
      formats as that form, the minutes and the period. */
  lemma FormatReading(hour: string, minute: string, value: nat, shown: string, period: string, time: string, text: string)
    requires |hour| > 0 && AllDigits(hour) && ':' !in minute && time == hour + ":" + minute
    requires DigitsValue(hour) == value && NatToString(DisplayHour(value)) == shown && Period(value) == period
    requires text == shown + ":" + minute + " " + period
    ensures FormatTime(time) == text
  {
    FormatClock(hour, minute);
  }

  /** Midnight prints as "0:00 AM". */
  lemma FormatMidnight()
    ensures FormatTime("00:00") == "0:00 AM"
  {
    assert "00"[..1] == "0";
    assert DigitsValue("00") == 0;
    FormatReading("00", "00", 0, "0", "AM", "00:00", "0:00 AM");
  }

  /** A morning hour loses its leading zero: "09:50" prints as "9:50 AM". */
  lemma FormatMorning()
    ensures FormatTime("09:50") == "9:50 AM"
  {
    assert "09"[..1] == "0";
    assert DigitsValue("09") == 9;
    FormatReading("09", "50", 9, "9", "AM", "09:50", "9:50 AM");
  }

  /** Noon prints as "12:00 PM". */
  lemma FormatNoon()
    ensures FormatTime("12:00") == "12:00 PM"
  {
    assert "12"[..1] == "1";
    assert DigitsValue("12") == 12;
    TwelveRendered();
    FormatReading("12", "00", 12, "12", "PM", "12:00", "12:00 PM");
  }

  lemma TwelveRendered()
    ensures NatToString(DisplayHour(12)) == "12"
  {
    assert NatToString(12) == NatToString(1) + [DigitChar(2)];
  }

  /** An afternoon hour is shifted by 12: "13:15" prints as "1:15 PM". */
  lemma FormatAfternoon()
    ensures FormatTime("13:15") == "1:15 PM"
  {
    assert "13"[..1] == "1";
    assert DigitsValue("13") == 13;
    FormatReading("13", "15", 13, "1", "PM", "13:15", "1:15 PM");
  }

  // ---------------------------------------------------------------------
  // checkTimeConflict

  /** `slot1.days.filter(day => slot2.days.includes(day))`: the entries of
      the first list that occur in the second, in order. An undefined entry
      matches an undefined entry, as `includes(undefined)` does. */
  function CommonDays(days1: seq<Option<Day>>, days2: seq<Option<Day>>): (common: seq<Option<Day>>)
    ensures forall d :: d in common <==> d in days1 && d in days2
    ensures |common| == 0 <==> forall d :: d in days1 ==> d !in days2
    ensures IsSubsequence(common, days1)
    decreases |days1|
  {
    if |days1| == 0 then []
    else
      var rest := CommonDays(days1[1..], days2);
      if days1[0] in days2 then
        assert ([days1[0]] + rest)[1..] == rest;
        [days1[0]] + rest
      else rest
  }

  /** Lines 62-67 on two parsed slots: some entry in common, and the
      intervals neither end before the other starts. */
  predicate SlotsConflict(slot1: TimeSlot, slot2: TimeSlot)
  {
    |CommonDays(slot1.days, slot2.days)| != 0
    && !(slot1.endTime <= slot2.startTime || slot2.endTime <= slot1.startTime)
  }

  /** `checkTimeConflict` (src/utils/scheduleUtils.ts:58-68) on two schedule
      strings; `None` when either does not parse. */
  function CheckTimeConflict(course1: string, course2: string): (conflict: Option<bool>)
    ensures conflict.Some? <==> TimeSlotOf(course1).Some? && TimeSlotOf(course2).Some?
  {
    var slot1 := TimeSlotOf(course1);
    var slot2 := TimeSlotOf(course2);
    if slot1.None? || slot2.None? then None
    else Some(SlotsConflict(slot1.value, slot2.value))
  }

  /** Minute `t` lies in the half-open interval [start, end) of a slot. */
  predicate Occupies(slot: TimeSlot, t: int)
  {
    slot.startTime <= t < slot.endTime
  }

  /** For slots that start before they end, a conflict is exactly a shared
      weekday entry together with a shared minute: intervals that only
      touch at an endpoint share no minute. */
  lemma ConflictIffSharedMinute(slot1: TimeSlot, slot2: TimeSlot)
    requires slot1.startTime < slot1.endTime && slot2.startTime < slot2.endTime
    ensures SlotsConflict(slot1, slot2) <==>
              (exists d :: d in slot1.days && d in slot2.days) &&
              (exists t :: Occupies(slot1, t) && Occupies(slot2, t))
  {
    var common := CommonDays(slot1.days, slot2.days);
    if |common| != 0 {
      assert common[0] in common;
    }
    if !(slot1.endTime <= slot2.startTime || slot2.endTime <= slot1.startTime) {
      var t := if slot1.startTime < slot2.startTime then slot2.startTime else slot1.startTime;
      assert Occupies(slot1, t) && Occupies(slot2, t);
    }
  }

  /** A conflict does not depend on the order of the two slots. */
  lemma ConflictSymmetric(slot1: TimeSlot, slot2: TimeSlot)
    ensures SlotsConflict(slot1, slot2) <==> SlotsConflict(slot2, slot1)
  {
    var c12 := CommonDays(slot1.days, slot2.days);
    var c21 := CommonDays(slot2.days, slot1.days);
    if |c12| != 0 {
      assert c12[0] in c21;
    }
    if |c21| != 0 {
      assert c21[0] in c12;
    }
  }

  /** A slot that ends when another starts does not clash with it. */
  lemma TouchingDoesNotConflict(slot1: TimeSlot, slot2: TimeSlot)
    requires slot1.endTime == slot2.startTime
    ensures !SlotsConflict(slot1, slot2) && !SlotsConflict(slot2, slot1)
  {
  }

  /** A slot with a day that starts before it ends clashes with itself. */
  lemma SelfConflict(slot: TimeSlot)
    requires |slot.days| > 0 && slot.startTime < slot.endTime
    ensures SlotsConflict(slot, slot)
  {
    assert slot.days[0] in CommonDays(slot.days, slot.days);
  }

  /** No shared weekday entry, no conflict, whatever the times. */
  lemma DisjointDaysDoNotConflict(slot1: TimeSlot, slot2: TimeSlot)
    requires forall d :: d in slot1.days ==> d !in slot2.days
    ensures !SlotsConflict(slot1, slot2)
  {
  }

  /** The start is not checked against the end: a slot that ends before it
      starts still clashes with one covering its start. */
  lemma InvertedIntervalConflicts()
    ensures SlotsConflict(TimeSlot([Some(Monday)], 600, 540), TimeSlot([Some(Monday)], 500, 700))
  {
    assert Some(Monday) in CommonDays([Some(Monday)], [Some(Monday)]);
  }

  /** Two undefined day entries count as a common day. */
  lemma UndefinedDaysMatch()
    ensures SlotsConflict(TimeSlot([None], 540, 600), TimeSlot([None], 570, 630))
  {
    assert None in CommonDays([None], [None]);
  }

  /** The clock fields of the examples below. */
  lemma ExampleFieldValues()
    ensures DigitsValue("00") == 0 && DigitsValue("09") == 9 && DigitsValue("10") == 10
    ensures DigitsValue("30") == 30 && DigitsValue("40") == 40 && DigitsValue("50") == 50
  {
    assert "00"[..1] == "0" && "09"[..1] == "0" && "10"[..1] == "1";
    assert "30"[..1] == "3" && "40"[..1] == "4" && "50"[..1] == "5";
  }

  /** A catalogue-style schedule string whose readings are known minute counts
      parses to the slot with those times. */
  lemma PatternReadings(codes: string, startHour: string, startMinute: string, endHour: string, endMinute: string, start: int, end: int)
    requires ' ' !in codes
    requires AllDigits(startHour) && AllDigits(startMinute) && AllDigits(endHour) && AllDigits(endMinute)
    requires DigitsValue(startHour) * 60 + DigitsValue(startMinute) == start
    requires DigitsValue(endHour) * 60 + DigitsValue(endMinute) == end
    ensures TimeSlotOf(Pattern(codes, startHour, startMinute, endHour, endMinute)).Some?
    ensures TimeSlotOf(Pattern(codes, startHour, startMinute, endHour, endMinute)).value == TimeSlot(DaysOf(codes), start, end)
  {
    ParsePattern(codes, startHour, startMinute, endHour, endMinute);
  }

  /** The verdict on two strings that parse is the conflict of their slots. */
  lemma ConflictVerdict(course1: string, course2: string, slot1: TimeSlot, slot2: TimeSlot, verdict: bool)
    requires TimeSlotOf(course1).Some? && TimeSlotOf(course1).value == slot1
    requires TimeSlotOf(course2).Some? && TimeSlotOf(course2).value == slot2
    requires SlotsConflict(slot1, slot2) == verdict
    ensures CheckTimeConflict(course1, course2) == Some(verdict)
  {
  }

  /** A meeting that starts at the very reading another one ends with
      never clashes with it, whatever the days. */
  lemma BackToBackPatterns(codes1: string, codes2: string, hour1: string, minute1: string,
                           hour2: string, minute2: string, hour3: string, minute3: string)
    requires ' ' !in codes1 && ' ' !in codes2
    requires AllDigits(hour1) && AllDigits(minute1) && AllDigits(hour2) && AllDigits(minute2)
    requires AllDigits(hour3) && AllDigits(minute3)
    ensures CheckTimeConflict(Pattern(codes1, hour1, minute1, hour2, minute2), Pattern(codes2, hour2, minute2, hour3, minute3)) == Some(false)
  {
    var course1, course2 := Pattern(codes1, hour1, minute1, hour2, minute2), Pattern(codes2, hour2, minute2, hour3, minute3);
    ParsePattern(codes1, hour1, minute1, hour2, minute2);
    ParsePattern(codes2, hour2, minute2, hour3, minute3);
    TouchingDoesNotConflict(TimeSlotOf(course1).value, TimeSlotOf(course2).value);
  }

  /** Meetings that only touch at 09:50 do not clash. */
  lemma TouchingExample()
    ensures CheckTimeConflict(Pattern("MWF", "09", "00", "09", "50"), Pattern("MWF", "09", "50", "10", "40")) == Some(false)
  {
    BackToBackPatterns("MWF", "MWF", "09", "00", "09", "50", "10", "40");
  }

  /** Two meetings on the same day codes whose times overlap clash. */
  lemma OverlappingPatterns(codes: string, hour1: string, minute1: string, hour2: string, minute2: string,
                            hour3: string, minute3: string, hour4: string, minute4: string,
                            start1: int, end1: int, start2: int, end2: int)
    requires ' ' !in codes && |DaysOf(codes)| > 0
    requires AllDigits(hour1) && AllDigits(minute1) && AllDigits(hour2) && AllDigits(minute2)
    requires AllDigits(hour3) && AllDigits(minute3) && AllDigits(hour4) && AllDigits(minute4)
    requires DigitsValue(hour1) * 60 + DigitsValue(minute1) == start1
    requires DigitsValue(hour2) * 60 + DigitsValue(minute2) == end1
    requires DigitsValue(hour3) * 60 + DigitsValue(minute3) == start2
    requires DigitsValue(hour4) * 60 + DigitsValue(minute4) == end2
    requires start1 < end2 && start2 < end1
    ensures CheckTimeConflict(Pattern(codes, hour1, minute1, hour2, minute2), Pattern(codes, hour3, minute3, hour4, minute4)) == Some(true)
  {
    ParsePattern(codes, hour1, minute1, hour2, minute2);
    ParsePattern(codes, hour3, minute3, hour4, minute4);
    var days := DaysOf(codes);
    assert days[0] in CommonDays(days, days);
  }

  /** Meetings on the same days that overlap from 09:30 to 09:50 clash. */
  lemma OverlapExample()
    ensures CheckTimeConflict(Pattern("MWF", "09", "00", "09", "50"), Pattern("MWF", "09", "30", "10", "30")) == Some(true)
  {
    ExampleFieldValues();
    ScanMondayWednesdayFriday();
    OverlappingPatterns("MWF", "09", "00", "09", "50", "09", "30", "10", "30", 540, 590, 570, 630);
  }

  /** "MWF 09:00-09:50" and "TTH 09:00-09:50" parse to their weekdays. */
  lemma ExampleSlotDays()
    ensures TimeSlotOf(Pattern("MWF", "09", "00", "09", "50")).Some?
    ensures TimeSlotOf(Pattern("MWF", "09", "00", "09", "50")).value.days == [Some(Monday), Some(Wednesday), Some(Friday)]
    ensures TimeSlotOf(Pattern("TTH", "09", "00", "09", "50")).Some?
    ensures TimeSlotOf(Pattern("TTH", "09", "00", "09", "50")).value.days == [Some(Tuesday), Some(Thursday)]
  {
    ParsePattern("MWF", "09", "00", "09", "50");
    ParsePattern("TTH", "09", "00", "09", "50");
    ScanExamples();
  }

  lemma NoCommonWeekday(slot1: TimeSlot, slot2: TimeSlot)
    requires slot1.days == [Some(Monday), Some(Wednesday), Some(Friday)]
    requires slot2.days == [Some(Tuesday), Some(Thursday)]
    ensures !SlotsConflict(slot1, slot2)
  {
    DisjointDaysDoNotConflict(slot1, slot2);
  }

  /** Meetings at the same time on disjoint days do not clash. */
  lemma DisjointDaysExample()
    ensures CheckTimeConflict(Pattern("MWF", "09", "00", "09", "50"), Pattern("TTH", "09", "00", "09", "50")) == Some(false)
  {
    ExampleSlotDays();
    var slot1 := TimeSlotOf(Pattern("MWF", "09", "00", "09", "50")).value;
    var slot2 := TimeSlotOf(Pattern("TTH", "09", "00", "09", "50")).value;
    NoCommonWeekday(slot1, slot2);
  }
}
