/**
 * The records attendance.js keeps: subjects with their two counters and
 * weekly schedule entries, the weekday order used to sort the schedule, and
 * the invariant the subject list keeps (names trimmed, non-empty and
 * distinct ignoring case; no more attended classes than held ones).
 */
module Records {
  import opened Wrappers
  import opened JsBuiltins

  /** `{name, attended, total}` */
  datatype Subject = Subject(name: string, attended: nat, total: nat)

  /** `{subject, day, time}`, with day a weekday name and time an "HH:MM" string. */
  datatype ScheduleEntry = ScheduleEntry(subject: string, day: string, time: string)

  /** `dayOrder` of renderSchedule. */
  const DayOrder: seq<string> := ["Monday", "Tuesday", "Wednesday", "Thursday", "Friday", "Saturday", "Sunday"]

  /** The weekday index: 0 for Monday up to 6 for Sunday, and -1 for any other string. */
  function DayIndex(day: string): (r: int)
    ensures -1 <= r < 7
  {
    if day == "Monday" then 0 else if day == "Tuesday" then 1 else if day == "Wednesday" then 2
    else if day == "Thursday" then 3 else if day == "Friday" then 4 else if day == "Saturday" then 5
    else if day == "Sunday" then 6 else -1
  }

  /** DayIndex is `dayOrder.indexOf(day)`. */
  lemma DayIndexIsIndexOf(day: string)
    ensures DayIndex(day) == IndexOf(DayOrder, day)
    ensures DayIndex(day) == -1 <==> day !in DayOrder
    ensures DayIndex(day) >= 0 ==> DayOrder[DayIndex(day)] == day
  {
    var d := DayIndex(day);
    if d == -1 {
      assert day !in DayOrder by {
        assert forall k :: 0 <= k < |DayOrder| ==> DayOrder[k] != day;
      }
    } else {
      assert DayOrder[d] == day;
      assert day !in DayOrder[..d];
      IndexOfFirst(DayOrder, day, d);
    }
  }

  /**
   * `subjects.find(s => s.name.toLowerCase() === name.toLowerCase())`, given as
   * the position of the first match.
   */
  function FindByName(subjects: seq<Subject>, name: string): (r: Option<nat>)
    ensures r.Some? ==> r.value < |subjects| && SameIgnoringCase(subjects[r.value].name, name)
    ensures r.Some? ==> forall j :: 0 <= j < r.value ==> !SameIgnoringCase(subjects[j].name, name)
    ensures r.None? <==> forall j :: 0 <= j < |subjects| ==> !SameIgnoringCase(subjects[j].name, name)
  {
    if subjects == [] then None
    else if SameIgnoringCase(subjects[0].name, name) then Some(0)
    else
      match FindByName(subjects[1..], name)
      case None => None
      case Some(k) => Some(k + 1)
  }

  /** A subject as addSubject creates it and the counter updates keep it. */
  predicate WellFormedSubject(s: Subject) {
    s.name != [] && Trim(s.name) == s.name && s.attended <= s.total
  }

  /** No two subjects share a name ignoring case. */
  predicate NamesDistinct(subjects: seq<Subject>) {
    forall i, j :: 0 <= i < j < |subjects| ==> !SameIgnoringCase(subjects[i].name, subjects[j].name)
  }

  predicate SubjectsValid(subjects: seq<Subject>) {
    && (forall i :: 0 <= i < |subjects| ==> WellFormedSubject(subjects[i]))
    && NamesDistinct(subjects)
  }

  /** Appending a well-formed subject whose name matches none of the others keeps the list valid. */
  lemma AppendKeepsValid(subjects: seq<Subject>, s: Subject)
    requires SubjectsValid(subjects) && WellFormedSubject(s)
    requires forall j :: 0 <= j < |subjects| ==> !SameIgnoringCase(subjects[j].name, s.name)
    ensures SubjectsValid(subjects + [s])
  {
    var t := subjects + [s];
    assert forall i :: 0 <= i < |subjects| ==> t[i] == subjects[i];
  }
}
