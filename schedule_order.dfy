/**
 * The order in which renderSchedule lists classes: by weekday index (an
 * unknown day, index -1, before Monday), then by the "HH:MM" string, which
 * for zero-padded times is the order of the times in the day.
 */
module ScheduleOrder {
  import opened JsBuiltins
  import opened Records
  import opened ArraySort

  /** The comparator handed to `schedule.sort`. */
  function Compare(a: ScheduleEntry, b: ScheduleEntry): int {
    if DayIndex(a.day) != DayIndex(b.day) then DayIndex(a.day) - DayIndex(b.day)
    else CompareStrings(a.time, b.time)
  }

  /** Compare is a consistent comparator, so sorting with it is well defined. */
  lemma CompareIsConsistent()
    ensures Consistent(Compare)
  {
    forall a, b ensures Flips(Compare, a, b) {
      CompareStringsAntisymmetric(a.time, b.time);
    }
    forall a, b, c ensures Chains(Compare, a, b, c) {
      if DayIndex(a.day) == DayIndex(b.day) == DayIndex(c.day) && Compare(a, b) <= 0 && Compare(b, c) <= 0 {
        CompareStringsTransitive(a.time, b.time, c.time);
      }
    }
  }

  /** Two entries tie exactly when they have the same weekday index and the same time string. */
  lemma CompareZeroIsSameSlot(a: ScheduleEntry, b: ScheduleEntry)
    ensures Compare(a, b) == 0 <==> DayIndex(a.day) == DayIndex(b.day) && a.time == b.time
  {
    CompareStringsZero(a.time, b.time);
  }

  /** A day missing from dayOrder goes before every real weekday, Monday included. */
  lemma UnknownDayFirst(a: ScheduleEntry, b: ScheduleEntry)
    requires a.day !in DayOrder && b.day in DayOrder
    ensures Compare(a, b) < 0 && Compare(b, a) > 0
  {
    DayIndexIsIndexOf(a.day);
    DayIndexIsIndexOf(b.day);
  }

  /** The character of one decimal digit. */
  function Digit(d: nat): (c: char)
    requires d < 10
    ensures '0' <= c <= '9' && c as int - '0' as int == d
  {
    ('0' as int + d) as char
  }

  /** The zero-padded "HH:MM" string a time input produces. */
  function FormatClock(h: nat, m: nat): (s: string)
    requires h < 24 && m < 60
    ensures |s| == 5 && s[2] == ':'
  {
    [Digit(h / 10), Digit(h % 10), ':', Digit(m / 10), Digit(m % 10)]
  }

  /** The first differing character decides a comparison. */
  lemma CompareStringsStep(s: string, t: string)
    requires s != [] && t != []
    ensures CompareStrings(s, t) == if s[0] < t[0] then -1 else if s[0] > t[0] then 1 else CompareStrings(s[1..], t[1..])
  {
  }

  /** Two-digit numbers compare as their tens digit, then their units digit. */
  lemma TwoDigitOrder(a: nat, b: nat)
    requires a < 100 && b < 100
    ensures a < b <==> a / 10 < b / 10 || (a / 10 == b / 10 && a % 10 < b % 10)
  {
  }

  /** Zero-padded times compare as strings the way they compare on the clock. */
  lemma ClockStringsInTimeOrder(h1: nat, m1: nat, h2: nat, m2: nat)
    requires h1 < 24 && m1 < 60 && h2 < 24 && m2 < 60
    ensures CompareStrings(FormatClock(h1, m1), FormatClock(h2, m2)) < 0 <==> h1 * 60 + m1 < h2 * 60 + m2
  {
    var s, t := FormatClock(h1, m1), FormatClock(h2, m2);
    CompareStringsStep(s, t);
    CompareStringsStep(s[1..], t[1..]);
    CompareStringsStep(s[2..], t[2..]);
    CompareStringsStep(s[3..], t[3..]);
    CompareStringsStep(s[4..], t[4..]);
    assert s[1..][1..] == s[2..] && t[1..][1..] == t[2..];
    assert s[2..][1..] == s[3..] && t[2..][1..] == t[3..];
    assert s[3..][1..] == s[4..] && t[3..][1..] == t[4..];
    assert s[4..][1..] == [] && t[4..][1..] == [];
    TwoDigitOrder(h1, h2);
    TwoDigitOrder(m1, m2);
    assert h1 * 60 + m1 < h2 * 60 + m2 <==> h1 < h2 || (h1 == h2 && m1 < m2);
  }

  /** The schedule as renderSchedule leaves it. */
  function SortedSchedule(s: seq<ScheduleEntry>): (r: seq<ScheduleEntry>)
    ensures multiset(r) == multiset(s)
    ensures Sorted(r, Compare)
  {
    InsertionSortedIsPermutation(s, Compare);
    CompareIsConsistent();
    InsertionSortedIsSorted(s, Compare);
    InsertionSorted(s, Compare)
  }

  /** Monday 08:00 before Monday 14:00 before Wednesday 09:00. */
  lemma WorkedComparisons(w9: ScheduleEntry, m14: ScheduleEntry, m8: ScheduleEntry)
    requires w9 == ScheduleEntry("Biology", "Wednesday", "09:00")
    requires m14 == ScheduleEntry("Math", "Monday", "14:00")
    requires m8 == ScheduleEntry("Physics", "Monday", "08:00")
    ensures Compare(m14, w9) < 0 && Compare(m8, m14) < 0 && Compare(m8, w9) < 0
  {
    assert DayIndex(w9.day) == 2 && DayIndex(m14.day) == 0 && DayIndex(m8.day) == 0;
    assert m8.time[0] < m14.time[0];
  }

  /** Wednesday 09:00, Monday 14:00, Monday 08:00 sort to Monday 08:00, Monday 14:00, Wednesday 09:00. */
  lemma WorkedSortExample()
    ensures InsertionSorted([ScheduleEntry("Biology", "Wednesday", "09:00"), ScheduleEntry("Math", "Monday", "14:00"), ScheduleEntry("Physics", "Monday", "08:00")], Compare)
         == [ScheduleEntry("Physics", "Monday", "08:00"), ScheduleEntry("Math", "Monday", "14:00"), ScheduleEntry("Biology", "Wednesday", "09:00")]
  {
    var w9, m14, m8 := ScheduleEntry("Biology", "Wednesday", "09:00"), ScheduleEntry("Math", "Monday", "14:00"), ScheduleEntry("Physics", "Monday", "08:00");
    WorkedComparisons(w9, m14, m8);
    ReversedThreeSort(w9, m14, m8, Compare);
  }
}
