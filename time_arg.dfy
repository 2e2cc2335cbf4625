/** `parse_time_arg` (src/lib.rs:27-40): an optional "H:M" command-line
    value becomes a local time of day with seconds and nanoseconds zeroed;
    an absent value leaves the caller's default in place. */
module TimeArg {
  import opened Wrappers
  import opened Text
  import opened NumberText

  const SecondsPerMinute: nat := 60
  const SecondsPerHour: nat := 3600
  const SecondsPerDay: nat := 86400

  /** A local time of day as seconds since midnight, which is all the
      availability engine reads of a date-time (`num_seconds_from_midnight`). */
  type TimeOfDay = t: nat | t < 86400

  /** Why an "H:M" value was refused. Splitting always yields a first
      segment, so the source's "no hour segment" failure cannot occur. */
  datatype TimeError =
    | HourNotNumeric    // the first segment does not parse as a u32
    | HourOutOfRange    // `with_hour` refuses an hour above 23
    | MinuteMissing     // there is no second segment: the value has no ':'
    | MinuteNotNumeric  // the second segment does not parse as a u32
    | MinuteOutOfRange  // `with_minute` refuses a minute above 59

  /** The time of day `hour:minute:00`. */
  function TimeOfDayOf(hour: nat, minute: nat): (t: TimeOfDay)
    requires hour <= 23 && minute <= 59
    ensures t / SecondsPerHour == hour
    ensures t % SecondsPerHour / SecondsPerMinute == minute
    ensures t % SecondsPerMinute == 0
  {
    SecondsPerHour * hour + SecondsPerMinute * minute
  }

  function ParseTimeArg(arg: Option<string>, default: TimeOfDay): (r: Result<TimeOfDay, TimeError>)
    ensures arg.None? ==> r == Ok(default)
    ensures arg.Some? && r.Ok? ==> r.value % SecondsPerMinute == 0
  {
    match arg
    case None => Ok(default)
    case Some(text) => TimeOfSegments(Split(text, ':'))
  }

  /** The steps of `parse_time_arg` after splitting, in the source's order:
      hour parsed, hour range checked, minute segment looked up, minute
      parsed, minute range checked. */
  function TimeOfSegments(segments: seq<string>): Result<TimeOfDay, TimeError>
    requires |segments| >= 1
  {
    var hour :- ParseU32(segments[0]).OkOr(HourNotNumeric);
    if hour > 23 then Err(HourOutOfRange)
    else if |segments| < 2 then Err(MinuteMissing)
    else
      var minute :- ParseU32(segments[1]).OkOr(MinuteNotNumeric);
      if minute > 59 then Err(MinuteOutOfRange)
      else Ok(TimeOfDayOf(hour, minute))
  }

  /** The first two segments of `hourText:minuteText` followed by nothing
      or by further ':'-segments. */
  lemma FirstTwoSegments(hourText: string, minuteText: string, rest: string)
    requires ':' !in hourText && ':' !in minuteText
    requires rest == [] || rest[0] == ':'
    ensures |Split(hourText + ":" + minuteText + rest, ':')| >= 2
    ensures Split(hourText + ":" + minuteText + rest, ':')[0] == hourText
    ensures Split(hourText + ":" + minuteText + rest, ':')[1] == minuteText
  {
    var afterHour := minuteText + rest;
    var tail := [':'] + afterHour;
    assert hourText + ":" + minuteText + rest == hourText + tail;
    SplitHead(hourText, ':', tail);
    assert tail[1..] == afterHour;
    SplitHead(minuteText, ':', rest);
    var later := if rest == [] then [] else Split(rest[1..], ':');
    assert Split(hourText + tail, ':') == [hourText] + ([minuteText] + later);
  }

  /** A well-formed value: an hour text that parses as a u32 up to 23,
      ':', a minute text that parses as a u32 up to 59, then nothing or
      further ':'-separated segments, which are ignored. The result is that
      hour and minute whatever the default. */
  lemma ParseWellFormed(hourText: string, minuteText: string, rest: string, default: TimeOfDay)
    requires ParseU32(hourText).Some? && ParseU32(hourText).value <= 23
    requires ParseU32(minuteText).Some? && ParseU32(minuteText).value <= 59
    requires rest == [] || rest[0] == ':'
    ensures ParseTimeArg(Some(hourText + ":" + minuteText + rest), default)
         == Ok(TimeOfDayOf(ParseU32(hourText).value, ParseU32(minuteText).value))
  {
    ParseU32Characters(hourText);
    ParseU32Characters(minuteText);
    assert ':' !in hourText && ':' !in minuteText by {
      assert !IsDigit(':');
    }
    FirstTwoSegments(hourText, minuteText, rest);
  }

  /** Every accepted value has that shape: an hour text and a minute text,
      each a u32 in range, separated by the first ':', and a remainder that
      is empty or starts with ':'. */
  lemma ParsedValueShape(text: string, default: TimeOfDay) returns (hourText: string, minuteText: string, rest: string)
    requires ParseTimeArg(Some(text), default).Ok?
    ensures text == hourText + ":" + minuteText + rest
    ensures ':' !in hourText && ':' !in minuteText && (rest == [] || rest[0] == ':')
    ensures ParseU32(hourText).Some? && ParseU32(hourText).value <= 23
    ensures ParseU32(minuteText).Some? && ParseU32(minuteText).value <= 59
    ensures ParseTimeArg(Some(text), default)
         == Ok(TimeOfDayOf(ParseU32(hourText).value, ParseU32(minuteText).value))
  {
    var segments := Split(text, ':');
    assert |segments| >= 2;
    JoinSplit(text, ':');
    JoinFirstTwo(segments, ':');
    hourText, minuteText := segments[0], segments[1];
    rest := if |segments| == 2 then [] else [':'] + Join(segments[2..], ':');
  }

  /** An hour above 23 is refused. */
  lemma ParseRejectsLargeHour(hourText: string, rest: string, default: TimeOfDay)
    requires ':' !in hourText && ParseU32(hourText).Some? && ParseU32(hourText).value > 23
    requires rest == [] || rest[0] == ':'
    ensures ParseTimeArg(Some(hourText + rest), default) == Err(HourOutOfRange)
  {
    SplitHead(hourText, ':', rest);
  }

  /** A first segment that is not a u32 is refused. */
  lemma ParseRejectsNonNumericHour(hourText: string, rest: string, default: TimeOfDay)
    requires ':' !in hourText && ParseU32(hourText).None?
    requires rest == [] || rest[0] == ':'
    ensures ParseTimeArg(Some(hourText + rest), default) == Err(HourNotNumeric)
  {
    SplitHead(hourText, ':', rest);
  }

  /** A value without ':' is refused whatever its hour part; if that part
      is a valid hour, the failure is the missing minute. */
  lemma ParseRejectsMissingColon(text: string, default: TimeOfDay)
    requires ':' !in text
    ensures ParseTimeArg(Some(text), default).Err?
    ensures ParseU32(text).Some? && ParseU32(text).value <= 23
        ==> ParseTimeArg(Some(text), default) == Err(MinuteMissing)
  {
    SplitWithoutSeparator(text, ':');
  }

  /** A valid hour followed by a minute above 59 is refused. */
  lemma ParseRejectsLargeMinute(hourText: string, minuteText: string, rest: string, default: TimeOfDay)
    requires ':' !in hourText && ParseU32(hourText).Some? && ParseU32(hourText).value <= 23
    requires ':' !in minuteText && ParseU32(minuteText).Some? && ParseU32(minuteText).value > 59
    requires rest == [] || rest[0] == ':'
    ensures ParseTimeArg(Some(hourText + ":" + minuteText + rest), default) == Err(MinuteOutOfRange)
  {
    FirstTwoSegments(hourText, minuteText, rest);
  }

  /** A valid hour followed by a second segment that is not a u32 is refused. */
  lemma ParseRejectsNonNumericMinute(hourText: string, minuteText: string, rest: string, default: TimeOfDay)
    requires ':' !in hourText && ParseU32(hourText).Some? && ParseU32(hourText).value <= 23
    requires ':' !in minuteText && ParseU32(minuteText).None?
    requires rest == [] || rest[0] == ':'
    ensures ParseTimeArg(Some(hourText + ":" + minuteText + rest), default) == Err(MinuteNotNumeric)
  {
    FirstTwoSegments(hourText, minuteText, rest);
  }

  /** The source's unit test `parses_simple_time`. */
  lemma ParsesSimpleTime(default: TimeOfDay)
    ensures ParseTimeArg(Some("8:30"), default) == Ok(TimeOfDayOf(8, 30))
  {
    assert DigitsValue("8") == 8;
    assert DigitsValue("30") == 30 by {
      assert "30"[..1] == "3";
    }
    ParseU32OfDigits("8");
    ParseU32OfDigits("30");
    ParseWellFormed("8", "30", "", default);
    assert "8" + ":" + "30" + "" == "8:30";
  }

  /** The hour and minute texts of the examples below. */
  lemma ExampleNumbers()
    ensures ParseU32("08") == Some(8) && ParseU32("05") == Some(5)
    ensures ParseU32("+8") == Some(8) && ParseU32("30") == Some(30)
  {
    assert DigitsValue("08") == 8 by {
      assert "08"[..1] == "0";
    }
    assert DigitsValue("05") == 5 by {
      assert "05"[..1] == "0";
    }
    assert DigitsValue("30") == 30 by {
      assert "30"[..1] == "3";
    }
    assert UnsignedDigits("+8") == "8";
  }

  /** The source's unit test `parses_time_with_zero_padding`. */
  lemma ParsesZeroPaddedTime(default: TimeOfDay)
    ensures ParseTimeArg(Some("08:05"), default) == Ok(TimeOfDayOf(8, 5))
  {
    ExampleNumbers();
    ParseWellFormed("08", "05", "", default);
    assert "08" + ":" + "05" + "" == "08:05";
  }

  /** A leading '+' on the hour is accepted, as the u32 parse accepts it. */
  lemma ParsesPlusSignedHour(default: TimeOfDay)
    ensures ParseTimeArg(Some("+8:30"), default) == Ok(TimeOfDayOf(8, 30))
  {
    ExampleNumbers();
    ParseWellFormed("+8", "30", "", default);
    assert "+8" + ":" + "30" + "" == "+8:30";
  }

  /** The source's unit test `fails_when_hours_gt_23`. */
  lemma RejectsHour24(default: TimeOfDay)
    ensures ParseTimeArg(Some("24:00"), default) == Err(HourOutOfRange)
  {
    assert DigitsValue("24") == 24 by {
      assert "24"[..1] == "2";
    }
    ParseU32OfDigits("24");
    ParseRejectsLargeHour("24", ":00", default);
    assert "24" + ":00" == "24:00";
  }

  /** The source's unit test `fails_when_hours_not_numeric`. */
  lemma RejectsWordHour(default: TimeOfDay)
    ensures ParseTimeArg(Some("hello:00"), default) == Err(HourNotNumeric)
  {
    ParseU32RejectsNonDigit("hello", 0);
    ParseRejectsNonNumericHour("hello", ":00", default);
    assert "hello" + ":00" == "hello:00";
  }
}
