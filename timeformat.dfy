/**
 * The text helpers of the task manager: the d/h/m rendering of a duration in minutes,
 * and the conversions between the 24-hour `HH:MM` value of a time input and the
 * 12-hour `h:MM AM` text shown on a daily task.
 */
module TimeFormat {
  import opened Wrappers
  import opened Lists
  import opened Text

  // ----- durations -----

  /**
   * `TaskManager.formatTime(minutes)`: `0m`; under an hour `Nm`; under a day `Nh` or
   * `Nh Nm`; from a day on `Nd` or `Nd Nh`, leaving the minutes out. Reading the text
   * back gives the minutes, less the minutes within the hour from one day on.
   */
  function FormatDuration(minutes: nat): (s: string)
    ensures |s| >= 2
    ensures ReadDuration(s) == Some(if minutes >= 1440 then minutes - minutes % 60 else minutes)
  {
    if minutes == 0 then
      assert Part(0, 'm') == "0m";
      ReadOnePart(0, 'm');
      "0m"
    else
      var hours, mins := minutes / 60, minutes % 60;
      assert minutes == 60 * hours + mins;
      assert hours >= 24 <==> minutes >= 1440;
      if hours >= 24 then
        var days, rest := hours / 24, hours % 24;
        DaysAndHours(minutes);
        if rest > 0 then
          ReadTwoParts(days, 'd', rest, 'h');
          Part(days, 'd') + " " + Part(rest, 'h')
        else
          ReadOnePart(days, 'd');
          Part(days, 'd')
      else if hours > 0 then
        if mins > 0 then
          ReadTwoParts(hours, 'h', mins, 'm');
          Part(hours, 'h') + " " + Part(mins, 'm')
        else
          ReadOnePart(hours, 'h');
          Part(hours, 'h')
      else
        ReadOnePart(mins, 'm');
        Part(mins, 'm')
  }

  /**
   * The shape of a rendered duration: it ends in the unit of its smaller part, and it has
   * two parts, separated by a space, exactly when days have hours left over or hours have
   * minutes left over.
   */
  lemma FormatDurationShape(minutes: nat)
    ensures var s := FormatDuration(minutes);
            s[|s| - 1] == (if minutes < 60 || (minutes < 1440 && minutes % 60 != 0) then 'm'
                           else if minutes >= 1440 && minutes / 60 % 24 == 0 then 'd' else 'h')
    ensures ' ' in FormatDuration(minutes) <==>
              (minutes >= 1440 && minutes / 60 % 24 != 0) || (60 <= minutes < 1440 && minutes % 60 != 0)
  {
    var hours, mins := minutes / 60, minutes % 60;
    assert minutes == 60 * hours + mins;
    if minutes == 0 {
    } else if hours >= 24 {
      assert minutes >= 1440;
      if hours % 24 > 0 {
        assert FormatDuration(minutes) == Part(hours / 24, 'd') + " " + Part(hours % 24, 'h');
      } else {
        assert FormatDuration(minutes) == Part(hours / 24, 'd');
      }
    } else if hours > 0 {
      assert 60 <= minutes < 1440;
      if mins > 0 {
        assert FormatDuration(minutes) == Part(hours, 'h') + " " + Part(mins, 'm');
      } else {
        assert FormatDuration(minutes) == Part(hours, 'h');
      }
    } else {
      assert FormatDuration(minutes) == Part(mins, 'm');
    }
  }

  /** One part of a rendered duration: a number and its unit letter, as in `${hours}h`. */
  function Part(n: nat, unit: char): string {
    NatToString(n) + [unit]
  }

  /** Minutes in one unit of a duration part. */
  function UnitMinutes(c: char): Option<nat> {
    if c == 'd' then Some(1440) else if c == 'h' then Some(60) else if c == 'm' then Some(1) else None
  }

  /** Reads one part of a rendered duration, a number followed by its unit, as minutes. */
  function ReadPart(part: string): (r: Option<nat>)
    ensures r.Some? ==> |part| >= 2
  {
    if |part| >= 2 && AllDigits(part[..|part| - 1]) && UnitMinutes(part[|part| - 1]).Some? then
      Some(DigitsValue(part[..|part| - 1]) * UnitMinutes(part[|part| - 1]).value)
    else None
  }

  predicate IsSpace(c: char) { c == ' ' }

  /** Reads a rendered duration back: one part, or two parts separated by a space. */
  function ReadDuration(s: string): Option<nat> {
    var space := FindFirst(s, IsSpace);
    if space.None? then ReadPart(s)
    else
      var first, second := ReadPart(s[..space.value]), ReadPart(s[space.value + 1..]);
      if first.Some? && second.Some? then Some(first.value + second.value) else None
  }

  lemma ReadNumberAndUnit(n: nat, u: char)
    requires UnitMinutes(u).Some?
    ensures ReadPart(NatToString(n) + [u]) == Some(n * UnitMinutes(u).value)
  {
    var part := NatToString(n) + [u];
    assert part[..|part| - 1] == NatToString(n);
    NatToStringRoundTrip(n);
  }

  /** A rendering of one part reads back as that part. */
  lemma ReadOnePart(n: nat, u: char)
    requires UnitMinutes(u).Some?
    ensures ReadDuration(Part(n, u)) == Some(n * UnitMinutes(u).value)
  {
    var s := Part(n, u);
    assert forall j :: 0 <= j < |s| - 1 ==> s[j] == NatToString(n)[j];
    ReadNumberAndUnit(n, u);
  }

  /** A rendering of two parts reads back as their sum: numbers have no space, so the first space separates them. */
  lemma ReadTwoParts(a: nat, u1: char, b: nat, u2: char)
    requires UnitMinutes(u1).Some? && UnitMinutes(u2).Some?
    ensures ReadDuration(Part(a, u1) + " " + Part(b, u2)) == Some(a * UnitMinutes(u1).value + b * UnitMinutes(u2).value)
  {
    var first, second := Part(a, u1), Part(b, u2);
    ReadNumberAndUnit(a, u1);
    ReadNumberAndUnit(b, u2);
    ReadJoined(first, second);
  }

  /** Two readable parts joined by a space read as their sum when the first part has no space. */
  lemma ReadJoined(first: string, second: string)
    requires forall j :: 0 <= j < |first| ==> first[j] != ' '
    requires ReadPart(first).Some? && ReadPart(second).Some?
    ensures ReadDuration(first + " " + second) == Some(ReadPart(first).value + ReadPart(second).value)
  {
    var s := first + " " + second;
    assert forall j :: 0 <= j < |first| ==> s[j] == first[j];
    FindFirstIs(s, IsSpace, |first|);
    assert s[..|first|] == first && s[|first| + 1..] == second;
  }

  /** Whole days and the hours left over add up to the minutes less those within the hour. */
  lemma DaysAndHours(minutes: nat)
    ensures var hours := minutes / 60;
            (hours / 24) * 1440 + (hours % 24) * 60 == minutes - minutes % 60
  {
    var hours := minutes / 60;
    assert minutes == 60 * hours + minutes % 60;
    assert hours == 24 * (hours / 24) + hours % 24;
  }

  // ----- clock times -----

  /** The value of an `<input type="time">`: two-digit hours 00..23, a colon, two-digit minutes 00..59. */
  predicate IsTime24(t: string) {
    |t| == 5 && AllDigits(t[..2]) && t[2] == ':' && AllDigits(t[3..])
    && DigitsValue(t[..2]) <= 23 && DigitsValue(t[3..]) <= 59
  }

  /**
   * The 12-hour text shown on a daily task: hours 1..12 without a leading zero, a colon,
   * two-digit minutes, a space and `AM` or `PM`.
   */
  predicate IsTime12(t: string) {
    7 <= |t| <= 8 &&
    var hl := |t| - 6;
    AllDigits(t[..hl]) && 1 <= DigitsValue(t[..hl]) <= 12 && t[..hl] == NatToString(DigitsValue(t[..hl]))
    && t[hl] == ':' && AllDigits(t[hl + 1..hl + 3]) && DigitsValue(t[hl + 1..hl + 3]) <= 59
    && t[hl + 3] == ' ' && (t[hl + 4..] == "AM" || t[hl + 4..] == "PM")
  }

  /** `hour % 12 || 12`. */
  function Hour12(hour: nat): (h: nat)
    ensures 1 <= h <= 12
  {
    if hour % 12 == 0 then 12 else hour % 12
  }

  /** `hour >= 12 ? 'PM' : 'AM'`. */
  function Meridiem(hour: nat): string {
    if hour >= 12 then "PM" else "AM"
  }

  /** The text `${hour12}:${minutes} ${ampm}`. */
  function Clock12(hs: string, minutes: string, ampm: string): string {
    hs + ":" + minutes + " " + ampm
  }

  /** The text `${hours}:${minutes}`. */
  function Clock24(hours: string, minutes: string): string {
    hours + ":" + minutes
  }

  /** Where the parts of a 12-hour text sit. */
  lemma Clock12Parts(hs: string, minutes: string, ampm: string)
    requires |minutes| == 2 && |ampm| == 2
    ensures var u := Clock12(hs, minutes, ampm);
            |u| == |hs| + 6 && u[..|hs|] == hs && u[|hs|] == ':' && u[|hs| + 1..|hs| + 3] == minutes
            && u[|hs| + 3] == ' ' && u[|hs| + 4..] == ampm
  {
    var u := Clock12(hs, minutes, ampm);
    assert u == hs + [':'] + minutes + [' '] + ampm;
  }

  /** A text with a colon six and a space three places from its end is made of its parts. */
  lemma Clock12Of(u: string)
    requires |u| >= 6 && u[|u| - 6] == ':' && u[|u| - 3] == ' '
    ensures u == Clock12(u[..|u| - 6], u[|u| - 5..|u| - 3], u[|u| - 2..])
  {
  }

  /** Where the parts of a 24-hour value sit. */
  lemma Clock24Parts(hours: string, minutes: string)
    requires |hours| == 2
    ensures var t := Clock24(hours, minutes);
            |t| == |minutes| + 3 && t[..2] == hours && t[2] == ':' && t[3..] == minutes
  {
  }

  /**
   * The global `formatTime(time24)`: split at the colon, `PM` from hour 12 on, the hour
   * taken modulo 12 with 0 shown as 12, the minutes kept as they are.
   */
  function FormatTime12(time24: string): (r: string)
    requires IsTime24(time24)
    ensures IsTime12(r)
  {
    var hours, minutes := time24[..2], time24[3..];
    var hour := DigitsValue(hours);
    var hs := NatToString(Hour12(hour));
    NatToStringRoundTrip(Hour12(hour));
    Clock12Parts(hs, minutes, Meridiem(hour));
    Clock12(hs, minutes, Meridiem(hour))
  }

  /**
   * The hour half of `convertTo24Hour`: `12` becomes `00`, `PM` adds 12, and the result
   * is padded to two digits.
   */
  function Hour24Text(hours0: string, modifier: string): string
    requires AllDigits(hours0)
  {
    var hours := if hours0 == "12" then "00" else hours0;
    var h := if modifier == "PM" then NatToString(DigitsValue(hours) + 12) else hours;
    PadStart2(h)
  }

  /**
   * `convertTo24Hour(time12h)`: the text before the space is split at the colon into
   * hours and minutes, the text after it is the modifier; the hour is converted and the
   * minutes kept.
   */
  function ConvertTo24Hour(time12h: string): (r: string)
    requires IsTime12(time12h)
    ensures IsTime24(r)
  {
    var sp := |time12h| - 3;
    var hours0, minutes, modifier := time12h[..sp - 3], time12h[sp - 2..sp], time12h[sp + 1..];
    Hour12Back(hours0, modifier);
    Clock24Parts(Hour24Text(hours0, modifier), minutes);
    Clock24(Hour24Text(hours0, modifier), minutes)
  }

  /** A two-digit string is the padded rendering of its value. */
  lemma TwoDigits(s: string)
    requires |s| == 2 && AllDigits(s)
    ensures PadStart2(NatToString(DigitsValue(s))) == s
  {
    var n := DigitsValue(s);
    DigitsValueTwo(s);
    if n >= 10 {
      assert NatToString(n) == NatToString(n / 10) + [DigitChar(n % 10)];
    }
  }

  /** The value of two digits. */
  lemma DigitsValueTwo(s: string)
    requires |s| == 2 && AllDigits(s)
    ensures DigitsValue(s) == 10 * DigitValue(s[0]) + DigitValue(s[1])
  {
    var first := s[..1];
    assert first[..0] == [] && first[0] == s[0] && s[..|s| - 1] == first;
    assert DigitsValue(first) == DigitValue(s[0]);
    assert DigitsValue(s) == DigitsValue(first) * 10 + DigitValue(s[1]);
  }

  /** The value of one digit. */
  lemma DigitsValueOne(s: string)
    requires |s| == 1 && AllDigits(s)
    ensures DigitsValue(s) == DigitValue(s[0])
  {
    assert s[..0] == [];
  }

  /** Padding with a leading zero does not change the value of a digit string. */
  lemma PaddedValue(s: string)
    requires 1 <= |s| <= 2 && AllDigits(s)
    ensures |PadStart2(s)| == 2 && AllDigits(PadStart2(s)) && DigitsValue(PadStart2(s)) == DigitsValue(s)
  {
    var p := PadStart2(s);
    if |s| == 1 {
      DigitsValueOne(s);
      DigitsValueTwo(p);
    }
  }

  /** The few literal renderings the hour conversion relies on. */
  lemma TwelveFacts()
    ensures NatToString(12) == "12" && NatToString(0) == "0"
    ensures DigitsValue("12") == 12 && DigitsValue("00") == 0
    ensures PadStart2("00") == "00" && PadStart2("0") == "00"
  {
    assert NatToString(12) == NatToString(1) + [DigitChar(2)];
    assert "12"[..1] == "1" && "00"[..1] == "0";
    assert "1"[..0] == [] && "0"[..0] == [];
  }

  /** Only 12 is rendered as `12`. */
  lemma NotTwelve(n: nat)
    requires n != 12
    ensures NatToString(n) != "12"
  {
    NatToStringRoundTrip(n);
    TwelveFacts();
  }

  /** Converting the 12-hour rendering of an hour back gives the hour, padded to two digits. */
  lemma Hour24OfHour12(hour: nat)
    requires hour <= 23
    ensures Hour24Text(NatToString(Hour12(hour)), Meridiem(hour)) == PadStart2(NatToString(hour))
  {
    TwelveFacts();
    if hour == 0 {
      assert Hour12(hour) == 12 && Meridiem(hour) == "AM";
    } else if hour < 12 {
      assert Hour12(hour) == hour && Meridiem(hour) == "AM";
      NotTwelve(hour);
    } else if hour == 12 {
      assert Hour12(hour) == 12 && Meridiem(hour) == "PM";
    } else {
      assert Hour12(hour) == hour - 12 && Meridiem(hour) == "PM";
      NotTwelve(hour - 12);
      NatToStringRoundTrip(hour - 12);
    }
  }

  /** The hour `convertTo24Hour` computes before padding, as a number. */
  lemma Hour24Value(hs: string, modifier: string) returns (v: nat)
    requires AllDigits(hs) && 1 <= DigitsValue(hs) <= 12 && hs == NatToString(DigitsValue(hs))
    ensures var h := DigitsValue(hs);
            v == (if h == 12 then 0 else h) + (if modifier == "PM" then 12 else 0)
    ensures Hour24Text(hs, modifier) == PadStart2(NatToString(v))
  {
    var h := DigitsValue(hs);
    TwelveFacts();
    if h == 12 {
      assert hs == "12";
    } else {
      NotTwelve(h);
    }
    var hours := if hs == "12" then "00" else hs;
    v := DigitsValue(hours) + (if modifier == "PM" then 12 else 0);
    if modifier != "PM" {
      if h == 12 {
        assert hours == "00";
      } else {
        assert hours == NatToString(v);
      }
    }
  }

  /**
   * Converting a 12-hour hour gives a two-digit hour 00..23 whose 12-hour rendering and
   * meridiem are the ones converted.
   */
  lemma Hour12Back(hs: string, modifier: string)
    requires AllDigits(hs) && 1 <= DigitsValue(hs) <= 12 && hs == NatToString(DigitsValue(hs))
    ensures var p := Hour24Text(hs, modifier);
            |p| == 2 && AllDigits(p) && DigitsValue(p) <= 23
            && NatToString(Hour12(DigitsValue(p))) == hs
            && (modifier == "AM" || modifier == "PM" ==> Meridiem(DigitsValue(p)) == modifier)
  {
    var v := Hour24Value(hs, modifier);
    var n := NatToString(v);
    NatToStringRoundTrip(v);
    AtMostTwoDigits(v);
    PaddedValue(n);
    var p := Hour24Text(hs, modifier);
    assert DigitsValue(p) == v;
    Hour12Cases(v);
  }

  /** An hour below 24 is written with at most two digits. */
  lemma AtMostTwoDigits(v: nat)
    requires v < 100
    ensures |NatToString(v)| <= 2
  {
    if v >= 10 {
      var q := v / 10;
      assert q < 10;
      assert |NatToString(q)| == 1;
    }
  }

  /** The hour on a 12-hour clock, case by case. */
  lemma Hour12Cases(v: nat)
    requires v < 24
    ensures Hour12(v) == (if v == 0 || v == 12 then 12 else if v > 12 then v - 12 else v)
  {
    if v >= 12 {
      assert v % 12 == v - 12;
    } else {
      assert v % 12 == v;
    }
  }

  /** Converting the text `formatTime` shows back to 24 hours gives the original input value. */
  lemma Time24RoundTrip(t: string)
    requires IsTime24(t)
    ensures ConvertTo24Hour(FormatTime12(t)) == t
  {
    var hour := DigitsValue(t[..2]);
    var hs := NatToString(Hour12(hour));
    Clock12Parts(hs, t[3..], Meridiem(hour));
    Hour24OfHour12(hour);
    TwoDigits(t[..2]);
    assert t == Clock24(t[..2], t[3..]);
  }

  /** Rendering the converted 24-hour value gives back the 12-hour text. */
  lemma Time12RoundTrip(u: string)
    requires IsTime12(u)
    ensures FormatTime12(ConvertTo24Hour(u)) == u
  {
    var hs, minutes, modifier := u[..|u| - 6], u[|u| - 5..|u| - 3], u[|u| - 2..];
    Clock12Of(u);
    Hour12Back(hs, modifier);
    var p := Hour24Text(hs, modifier);
    var c := Clock24(p, minutes);
    assert ConvertTo24Hour(u) == c;
    Clock24Parts(p, minutes);
    var h := DigitsValue(p);
    assert FormatTime12(c) == Clock12(NatToString(Hour12(h)), minutes, Meridiem(h));
  }
}
