/**
 * checkAlarms: once a minute, every schedule entry for today's weekday whose
 * class time minus five minutes (on the 24-hour clock, wrapping past
 * midnight) is the current hour and minute yields one notification intent.
 * The current weekday name, hour and minute are parameters.
 */
module Alarms {
  import opened Wrappers
  import opened JsBuiltins
  import opened Records
  import opened ScheduleOrder

  /** The arguments of `sendNotification(item.subject, item.time)`. */
  datatype Intent = Intent(subject: string, time: string)

  const MinutesPerDay: nat := 1440
  const MinutesPerWeek: nat := 7 * MinutesPerDay
  /** The alarm goes off this many minutes before the class. */
  const LeadMinutes: nat := 5

  /**
   * `const [hours, minutes] = item.time.split(':')`, each converted by Number()
   * inside setHours; None where setHours would receive NaN.
   */
  function ParseClock(time: string): Option<(nat, nat)> {
    var fields := Split(time, ':');
    if |fields| < 2 then None
    else
      match (ToNumber(fields[0]), ToNumber(fields[1]))
      case (Some(h), Some(m)) => Some((h, m))
      case _ => None
  }

  /** Two decimal digits read back as the number they were written from. */
  lemma TwoDigits(n: nat)
    requires n < 100
    ensures ToNumber([Digit(n / 10), Digit(n % 10)]) == Some(n)
  {
    var d0, d1 := Digit(n / 10), Digit(n % 10);
    var s := [d0, d1];
    assert s[..1] == [d0] && [d0][..0] == [];
    assert DigitsValue([d0]) == n / 10;
    assert DigitsValue(s) == 10 * (n / 10) + n % 10;
  }

  /** A string with one separator splits into the text before it and the text after it. */
  lemma SplitOnce(s: string, i: nat, sep: char)
    requires i < |s| && s[i] == sep && sep !in s[..i] && sep !in s[i + 1..]
    ensures Split(s, sep) == [s[..i], s[i + 1..]]
  {
    IndexOfFirst(s, sep, i);
    assert IndexOf(s[i + 1..], sep) == -1;
    assert Split(s[i + 1..], sep) == [s[i + 1..]];
  }

  /** Reading back a well-formed "HH:MM" gives its hour and minute. */
  lemma ParseFormatClock(h: nat, m: nat)
    requires h < 24 && m < 60
    ensures ParseClock(FormatClock(h, m)) == Some((h, m))
  {
    var s := FormatClock(h, m);
    assert s[..2] == [Digit(h / 10), Digit(h % 10)] && s[3..] == [Digit(m / 10), Digit(m % 10)];
    SplitOnce(s, 2, ':');
    TwoDigits(h);
    TwoDigits(m);
  }

  /** The minute of the day of `new Date(classTime - 5 * 60000)`, class time being today at h:m. */
  function AlarmMinute(h: nat, m: nat): (r: nat)
    ensures r < MinutesPerDay
    ensures (r + LeadMinutes) % MinutesPerDay == (h * 60 + m) % MinutesPerDay
  {
    (h * 60 + m - LeadMinutes) % MinutesPerDay
  }

  /**
   * The test inside the forEach of checkAlarms: same weekday, then the hours
   * and the minutes of the alarm time each equal the clock's.
   */
  predicate Fires(item: ScheduleEntry, currentDay: string, hour: int, minute: int) {
    && item.day == currentDay
    && match ParseClock(item.time)
       case None => false
       case Some((h, m)) => AlarmMinute(h, m) / 60 == hour && AlarmMinute(h, m) % 60 == minute
  }

  /** The test as a function of the entry, for a fixed day and time. */
  function FiresAt(currentDay: string, hour: int, minute: int): ScheduleEntry -> bool {
    item => Fires(item, currentDay, hour, minute)
  }

  /** The intents for the entries that `fires` picks, in schedule order. */
  function IntentsWhere(schedule: seq<ScheduleEntry>, fires: ScheduleEntry -> bool): seq<Intent> {
    if schedule == [] then []
    else
      var last := schedule[|schedule| - 1];
      IntentsWhere(schedule[..|schedule| - 1], fires) + (if fires(last) then [Intent(last.subject, last.time)] else [])
  }

  /** The intents of one checkAlarms pass, in schedule order. */
  function Fired(schedule: seq<ScheduleEntry>, currentDay: string, hour: int, minute: int): seq<Intent> {
    IntentsWhere(schedule, FiresAt(currentDay, hour, minute))
  }

  /** One pass of checkAlarms over the schedule. */
  method CheckAlarms(schedule: seq<ScheduleEntry>, currentDay: string, hour: int, minute: int)
    returns (intents: seq<Intent>)
    ensures intents == Fired(schedule, currentDay, hour, minute)
  {
    intents := [];
    for i := 0 to |schedule|
      invariant intents == Fired(schedule[..i], currentDay, hour, minute)
    {
      var item := schedule[i];
      if item.day == currentDay {
        match ParseClock(item.time) {
          case Some((h, m)) =>
            var alarm := AlarmMinute(h, m);
            if alarm / 60 == hour && alarm % 60 == minute {
              intents := intents + [Intent(item.subject, item.time)];
            }
          case None =>
        }
      }
      assert schedule[..i + 1][..i] == schedule[..i];
    }
    assert schedule[..|schedule|] == schedule;
  }

  /** A scan over two runs of entries is the scan over the first followed by the scan over the second. */
  lemma {:induction false} IntentsWhereAppend(s: seq<ScheduleEntry>, t: seq<ScheduleEntry>, fires: ScheduleEntry -> bool)
    ensures IntentsWhere(s + t, fires) == IntentsWhere(s, fires) + IntentsWhere(t, fires)
    decreases |t|
  {
    if t == [] {
      assert s + t == s;
    } else {
      var init, last := t[..|t| - 1], t[|t| - 1];
      assert (s + t)[..|s + t| - 1] == s + init;
      assert (s + t)[|s + t| - 1] == last;
      IntentsWhereAppend(s, init, fires);
    }
  }

  /** The positions of the entries a scan picks. */
  function Picked(schedule: seq<ScheduleEntry>, fires: ScheduleEntry -> bool): set<int> {
    set k | 0 <= k < |schedule| && fires(schedule[k])
  }

  /** One more entry adds its own position to the picked ones exactly when it is picked. */
  lemma PickedSnoc(schedule: seq<ScheduleEntry>, fires: ScheduleEntry -> bool)
    requires schedule != []
    ensures |Picked(schedule, fires)| ==
      |Picked(schedule[..|schedule| - 1], fires)| + (if fires(schedule[|schedule| - 1]) then 1 else 0)
  {
    var n := |schedule| - 1;
    var before := Picked(schedule[..n], fires);
    assert n !in before;
    if fires(schedule[n]) {
      assert Picked(schedule, fires) == before + {n};
    } else {
      assert Picked(schedule, fires) == before;
    }
  }

  /** As many intents as picked positions. */
  lemma {:induction false} IntentsWhereCount(schedule: seq<ScheduleEntry>, fires: ScheduleEntry -> bool)
    ensures |IntentsWhere(schedule, fires)| == |Picked(schedule, fires)|
  {
    if schedule != [] {
      IntentsWhereCount(schedule[..|schedule| - 1], fires);
      PickedSnoc(schedule, fires);
    }
  }

  /** An intent exactly for each picked entry. */
  lemma {:induction false} IntentsWhereOnePerEntry(schedule: seq<ScheduleEntry>, fires: ScheduleEntry -> bool)
    ensures forall x :: x in IntentsWhere(schedule, fires) <==>
      exists k :: 0 <= k < |schedule| && fires(schedule[k]) && x == Intent(schedule[k].subject, schedule[k].time)
  {
    if schedule != [] {
      var init := schedule[..|schedule| - 1];
      IntentsWhereOnePerEntry(init, fires);
      forall x | x in IntentsWhere(schedule, fires)
        ensures exists k :: 0 <= k < |schedule| && fires(schedule[k]) && x == Intent(schedule[k].subject, schedule[k].time)
      {
        if x in IntentsWhere(init, fires) {
          var k :| 0 <= k < |init| && fires(init[k]) && x == Intent(init[k].subject, init[k].time);
          assert schedule[k] == init[k];
        }
      }
      forall k | 0 <= k < |schedule| && fires(schedule[k])
        ensures Intent(schedule[k].subject, schedule[k].time) in IntentsWhere(schedule, fires)
      {
        if k < |init| { assert schedule[k] == init[k]; }
      }
    }
  }

  /** A scan that picks no entry yields nothing. */
  lemma {:induction false} IntentsWhereNone(schedule: seq<ScheduleEntry>, fires: ScheduleEntry -> bool)
    requires forall k :: 0 <= k < |schedule| ==> !fires(schedule[k])
    ensures IntentsWhere(schedule, fires) == []
  {
    if schedule != [] {
      IntentsWhereNone(schedule[..|schedule| - 1], fires);
    }
  }

  /** A pass over two runs of entries is the pass over the first followed by the pass over the second. */
  lemma FiredAppend(s: seq<ScheduleEntry>, t: seq<ScheduleEntry>, currentDay: string, hour: int, minute: int)
    ensures Fired(s + t, currentDay, hour, minute) == Fired(s, currentDay, hour, minute) + Fired(t, currentDay, hour, minute)
  {
    IntentsWhereAppend(s, t, FiresAt(currentDay, hour, minute));
  }

  /**
   * Exactly one intent per firing entry: as many intents as positions whose
   * entry fires, and an intent is there exactly when an entry with that
   * subject and time fires.
   */
  lemma FiredOnePerEntry(schedule: seq<ScheduleEntry>, currentDay: string, hour: int, minute: int)
    ensures |Fired(schedule, currentDay, hour, minute)| == |set k | 0 <= k < |schedule| && Fires(schedule[k], currentDay, hour, minute)|
    ensures forall x :: x in Fired(schedule, currentDay, hour, minute) <==>
      exists k :: 0 <= k < |schedule| && Fires(schedule[k], currentDay, hour, minute)
                  && x == Intent(schedule[k].subject, schedule[k].time)
  {
    var fires := FiresAt(currentDay, hour, minute);
    IntentsWhereOnePerEntry(schedule, fires);
    IntentsWhereCount(schedule, fires);
    assert Picked(schedule, fires) == set k | 0 <= k < |schedule| && Fires(schedule[k], currentDay, hour, minute);
  }

  /** Entries for other weekdays never fire. */
  lemma OtherDaysNeverFire(schedule: seq<ScheduleEntry>, currentDay: string, hour: int, minute: int)
    requires forall k :: 0 <= k < |schedule| ==> schedule[k].day != currentDay
    ensures Fired(schedule, currentDay, hour, minute) == []
  {
    IntentsWhereNone(schedule, FiresAt(currentDay, hour, minute));
  }

  /**
   * On its own weekday an entry fires at exactly one reading of the clock:
   * a valid hour and minute whose minute of the day is the alarm minute.
   */
  lemma FiresAtOneTick(item: ScheduleEntry, h: nat, m: nat, hour: int, minute: int)
    requires ParseClock(item.time) == Some((h, m))
    ensures Fires(item, item.day, hour, minute)
      <==> 0 <= hour < 24 && 0 <= minute < 60 && hour * 60 + minute == AlarmMinute(h, m)
  {
    var a := AlarmMinute(h, m);
    assert a == a / 60 * 60 + a % 60 && 0 <= a / 60 < 24 && 0 <= a % 60 < 60;
    if 0 <= minute < 60 && hour * 60 + minute == a {
      assert (hour * 60 + minute) / 60 == hour && (hour * 60 + minute) % 60 == minute;
    }
  }

  /** Away from midnight an entry fires exactly five minutes before its class. */
  lemma FiresFiveMinutesBefore(item: ScheduleEntry, h: nat, m: nat, hour: int, minute: int)
    requires ParseClock(item.time) == Some((h, m)) && h < 24 && m < 60
    requires h * 60 + m >= LeadMinutes
    requires 0 <= hour < 24 && 0 <= minute < 60
    ensures Fires(item, item.day, hour, minute) <==> hour * 60 + minute + LeadMinutes == h * 60 + m
  {
    AlarmMinuteAwayFromMidnight(h, m);
    FiresAtOneTick(item, h, m, hour, minute);
  }

  /** For a class at 00:05 or later the alarm minute is five minutes earlier on the same day. */
  lemma AlarmMinuteAwayFromMidnight(h: nat, m: nat)
    requires h < 24 && m < 60 && h * 60 + m >= LeadMinutes
    ensures AlarmMinute(h, m) == h * 60 + m - LeadMinutes
  {
    assert h * 60 <= 23 * 60;
    var c := h * 60 + m;
    assert 0 <= c - LeadMinutes < MinutesPerDay;
    assert (c - LeadMinutes) % MinutesPerDay == c - LeadMinutes;
  }

  /** "14:00" reads as 14:00. */
  lemma ParseTwoPm()
    ensures ParseClock("14:00") == Some((14, 0))
  {
    var s := FormatClock(14, 0);
    assert s[0] == '1' && s[1] == '4' && s[3] == '0' && s[4] == '0';
    assert s == "14:00";
    ParseFormatClock(14, 0);
  }

  /**
   * The worked example: a Monday class whose time reads as 14:00 (as "14:00"
   * does, by ParseTwoPm) alerts at 13:55 on Monday, not at 13:54 or 13:56.
   */
  lemma WorkedExample(e: ScheduleEntry)
    requires e.day == "Monday" && ParseClock(e.time) == Some((14, 0))
    ensures Fires(e, "Monday", 13, 55)
    ensures !Fires(e, "Monday", 13, 54) && !Fires(e, "Monday", 13, 56)
  {
    assert AlarmMinute(14, 0) == 835 && 835 / 60 == 13 && 835 % 60 == 55;
  }

  /** "00:02" reads as 00:02. */
  lemma ParseTwoPastMidnight()
    ensures ParseClock("00:02") == Some((0, 2))
  {
    var s := FormatClock(0, 2);
    assert s[0] == '0' && s[1] == '0' && s[3] == '0' && s[4] == '2';
    assert s == "00:02";
    ParseFormatClock(0, 2);
  }

  /**
   * As written, the alarm of a class in the first five minutes of a day goes
   * off at the end of the class's own weekday, almost a day after the class,
   * and not on the evening before.
   */
  lemma MidnightClassAlertsLate(e: ScheduleEntry)
    requires e.day == "Tuesday" && ParseClock(e.time) == Some((0, 2))
    ensures Fires(e, "Tuesday", 23, 57)
    ensures !Fires(e, "Monday", 23, 57)
  {
    assert AlarmMinute(0, 2) == 1437 && 1437 / 60 == 23 && 1437 % 60 == 57;
  }

  /** The weekday index and clock time five minutes on, carrying into the next hour and the next day. */
  function FiveMinutesLater(day: nat, hour: nat, minute: nat): (nat, nat, nat)
    requires day < 7 && hour < 24 && minute < 60
  {
    if minute + LeadMinutes < 60 then (day, hour, minute + LeadMinutes)
    else if hour + 1 < 24 then (day, hour + 1, minute + LeadMinutes - 60)
    else ((day + 1) % 7, 0, minute + LeadMinutes - 60)
  }

  /** Minutes since Monday 00:00. */
  function WeekMinute(day: int, hour: int, minute: int): int {
    day * MinutesPerDay + hour * 60 + minute
  }

  /**
   * The matcher as "5 minutes before" intends it: the class starts five minutes
   * after now on the weekly clock, so a class just after midnight alerts on the
   * evening before.
   */
  predicate FiresBeforeClass(item: ScheduleEntry, currentDay: string, hour: int, minute: int) {
    && 0 <= DayIndex(item.day)
    && 0 <= DayIndex(currentDay)
    && match ParseClock(item.time)
       case None => false
       case Some((h, m)) =>
         (WeekMinute(DayIndex(currentDay), hour, minute) + LeadMinutes) % MinutesPerWeek
           == WeekMinute(DayIndex(item.day), h, m) % MinutesPerWeek
  }

  /** A time of the week is determined by its minute count. */
  lemma WeekMinuteInjective(d1: nat, h1: nat, m1: nat, d2: nat, h2: nat, m2: nat)
    requires d1 < 7 && h1 < 24 && m1 < 60 && d2 < 7 && h2 < 24 && m2 < 60
    requires WeekMinute(d1, h1, m1) == WeekMinute(d2, h2, m2)
    ensures d1 == d2 && h1 == h2 && m1 == m2
  {
  }

  /** FiveMinutesLater counts five minutes on the weekly clock. */
  lemma FiveMinutesLaterCounts(day: nat, hour: nat, minute: nat)
    requires day < 7 && hour < 24 && minute < 60
    ensures var (d, h, m) := FiveMinutesLater(day, hour, minute);
      d < 7 && h < 24 && m < 60
      && WeekMinute(d, h, m) == (WeekMinute(day, hour, minute) + LeadMinutes) % MinutesPerWeek
  {
    assert day * MinutesPerDay <= 6 * MinutesPerDay && hour * 60 <= 23 * 60;
    if minute + LeadMinutes >= 60 && hour + 1 == 24 && day == 6 {
      assert WeekMinute(day, hour, minute) + LeadMinutes - MinutesPerWeek == minute + LeadMinutes - 60;
    }
  }

  /** On the weekly clock, "now plus five minutes is the class time" is what FiveMinutesLater computes. */
  lemma FiveMinutesLaterMatches(d: nat, hour: nat, minute: nat, c: nat, h: nat, m: nat)
    requires d < 7 && hour < 24 && minute < 60 && c < 7 && h < 24 && m < 60
    ensures (WeekMinute(d, hour, minute) + LeadMinutes) % MinutesPerWeek == WeekMinute(c, h, m) % MinutesPerWeek
      <==> FiveMinutesLater(d, hour, minute) == (c, h, m)
  {
    FiveMinutesLaterCounts(d, hour, minute);
    var (d', h', m') := FiveMinutesLater(d, hour, minute);
    var w := WeekMinute(c, h, m);
    assert 0 <= w < MinutesPerWeek by {
      assert c * MinutesPerDay <= 6 * MinutesPerDay && h * 60 <= 23 * 60;
    }
    assert w % MinutesPerWeek == w;
    if WeekMinute(d', h', m') == w {
      WeekMinuteInjective(d', h', m', c, h, m);
    }
  }

  /** The corrected matcher fires exactly when the class begins five minutes later, across midnight and the week's end. */
  lemma FiresBeforeClassIsFiveMinutesBefore(item: ScheduleEntry, h: nat, m: nat, currentDay: string, hour: nat, minute: nat)
    requires ParseClock(item.time) == Some((h, m)) && h < 24 && m < 60
    requires 0 <= DayIndex(item.day) && 0 <= DayIndex(currentDay)
    requires hour < 24 && minute < 60
    ensures FiresBeforeClass(item, currentDay, hour, minute)
      <==> FiveMinutesLater(DayIndex(currentDay), hour, minute) == (DayIndex(item.day), h, m)
  {
    FiveMinutesLaterMatches(DayIndex(currentDay), hour, minute, DayIndex(item.day), h, m);
  }

  /** Five minutes on from a time that is not in the last five minutes of the day stays on the same day. */
  lemma FiveMinutesLaterSameDay(d: nat, hour: nat, minute: nat, c: nat, h: nat, m: nat)
    requires d < 7 && hour < 24 && minute < 60 && h < 24 && m < 60 && h * 60 + m >= LeadMinutes
    ensures FiveMinutesLater(d, hour, minute) == (c, h, m) <==> c == d && hour * 60 + minute + LeadMinutes == h * 60 + m
  {
    if minute + LeadMinutes >= 60 && hour + 1 == 24 {
      assert FiveMinutesLater(d, hour, minute).1 == 0 && FiveMinutesLater(d, hour, minute).2 < LeadMinutes;
    }
  }

  /** Away from midnight the corrected matcher agrees with checkAlarms on every weekday. */
  lemma FiresBeforeClassAgrees(item: ScheduleEntry, h: nat, m: nat, currentDay: string, hour: nat, minute: nat)
    requires ParseClock(item.time) == Some((h, m)) && h < 24 && m < 60 && h * 60 + m >= LeadMinutes
    requires 0 <= DayIndex(item.day) && 0 <= DayIndex(currentDay)
    requires hour < 24 && minute < 60
    ensures FiresBeforeClass(item, currentDay, hour, minute) <==> Fires(item, currentDay, hour, minute)
  {
    var d := DayIndex(currentDay);
    var c := DayIndex(item.day);
    FiresBeforeClassIsFiveMinutesBefore(item, h, m, currentDay, hour, minute);
    FiveMinutesLaterSameDay(d, hour, minute, c, h, m);
    if item.day == currentDay {
      FiresFiveMinutesBefore(item, h, m, hour, minute);
    } else {
      DayIndexIsIndexOf(item.day);
      DayIndexIsIndexOf(currentDay);
      assert c != d;
      assert !Fires(item, currentDay, hour, minute);
    }
  }

  /** The corrected matcher alerts for the Tuesday 00:02 class on Monday at 23:57, not on Tuesday. */
  lemma MidnightClassAlertsOnTime(e: ScheduleEntry)
    requires e.day == "Tuesday" && ParseClock(e.time) == Some((0, 2))
    ensures FiresBeforeClass(e, "Monday", 23, 57)
    ensures !FiresBeforeClass(e, "Tuesday", 23, 57)
  {
    assert DayIndex("Monday") == 0 && DayIndex("Tuesday") == 1;
    FiresBeforeClassIsFiveMinutesBefore(e, 0, 2, "Monday", 23, 57);
    FiresBeforeClassIsFiveMinutesBefore(e, 0, 2, "Tuesday", 23, 57);
  }
}
