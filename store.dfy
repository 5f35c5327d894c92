/**
 * The in-memory record store of attendance.js: the global `subjects` and
 * `schedule` arrays and the handlers that change them. A confirmation dialog
 * becomes a `confirmed` parameter. Every handler that changes the schedule
 * ends with renderSchedule, which sorts the schedule in place, so between
 * handlers the schedule is always sorted and the indices the schedule table
 * hands to removeScheduleItem are positions in that order.
 */
module Store {
  import opened JsBuiltins
  import opened Records
  import opened ArraySort
  import opened ScheduleOrder

  /** What addSubject does: adds, ignores a blank name, or alerts about a duplicate. */
  datatype AddSubjectOutcome = Added | BlankName | DuplicateName

  /** `schedule.filter(item => item.subject !== name)` */
  function WithoutSubject(schedule: seq<ScheduleEntry>, name: string): (r: seq<ScheduleEntry>)
    ensures forall e :: e in r <==> e in schedule && e.subject != name
  {
    if schedule == [] then []
    else
      var init, last := schedule[..|schedule| - 1], schedule[|schedule| - 1];
      assert schedule == init + [last];
      var rest := WithoutSubject(init, name);
      if last.subject != name then rest + [last] else rest
  }

  /** Every entry naming the removed subject goes, every other entry stays as often as it was there. */
  lemma {:induction false} WithoutSubjectCounts(schedule: seq<ScheduleEntry>, name: string, e: ScheduleEntry)
    ensures multiset(WithoutSubject(schedule, name))[e] == if e.subject == name then 0 else multiset(schedule)[e]
  {
    if schedule != [] {
      var init, last := schedule[..|schedule| - 1], schedule[|schedule| - 1];
      assert schedule == init + [last];
      WithoutSubjectCounts(init, name, e);
    }
  }

  /** Filtering keeps the relative order: it distributes over concatenation. */
  lemma {:induction false} WithoutSubjectAppend(s: seq<ScheduleEntry>, t: seq<ScheduleEntry>, name: string)
    ensures WithoutSubject(s + t, name) == WithoutSubject(s, name) + WithoutSubject(t, name)
    decreases |t|
  {
    if t == [] {
      assert s + t == s;
    } else {
      var init, last := t[..|t| - 1], t[|t| - 1];
      assert (s + t)[..|s + t| - 1] == s + init;
      assert (s + t)[|s + t| - 1] == last;
      WithoutSubjectAppend(s, init, name);
    }
  }

  /** Filtering a sorted schedule leaves it sorted. */
  lemma {:induction false} WithoutSubjectSorted(schedule: seq<ScheduleEntry>, name: string)
    requires Sorted(schedule, Compare)
    ensures Sorted(WithoutSubject(schedule, name), Compare)
  {
    if schedule != [] {
      var init, last := schedule[..|schedule| - 1], schedule[|schedule| - 1];
      assert Sorted(init, Compare);
      WithoutSubjectSorted(init, name);
      var rest := WithoutSubject(init, name);
      if last.subject != name {
        forall i, j | 0 <= i < j < |rest| + 1 ensures Compare((rest + [last])[i], (rest + [last])[j]) <= 0 {
          if j == |rest| {
            assert rest[i] in init;
            var k :| 0 <= k < |init| && init[k] == rest[i];
            assert schedule[k] == rest[i];
          } else {
            assert (rest + [last])[i] == rest[i] && (rest + [last])[j] == rest[j];
          }
        }
      }
    }
  }

  /** Where `array.splice(index, 1)` removes: a negative index counts from the end. */
  function SpliceStart(index: int, length: nat): (k: nat)
    ensures k <= length
    ensures 0 <= index <= length ==> k == index
    ensures index < 0 && length + index >= 0 ==> k == length + index
    ensures index > length ==> k == length
    ensures length + index < 0 ==> k == 0
  {
    if index < 0 then (if length + index < 0 then 0 else length + index)
    else if index > length then length else index
  }

  /** `array.splice(index, 1)`: the element at the start position goes, if there is one. */
  function SpliceOne<T>(s: seq<T>, index: int): (r: seq<T>)
    ensures SpliceStart(index, |s|) < |s| ==> |r| == |s| - 1
    ensures SpliceStart(index, |s|) < |s| ==>
      && (forall j :: 0 <= j < SpliceStart(index, |s|) ==> r[j] == s[j])
      && (forall j :: SpliceStart(index, |s|) <= j < |r| ==> r[j] == s[j + 1])
    ensures SpliceStart(index, |s|) == |s| ==> r == s
  {
    var k := SpliceStart(index, |s|);
    if k < |s| then s[..k] + s[k + 1..] else s
  }

  class AttendanceStore {
    var subjects: seq<Subject>
    var schedule: seq<ScheduleEntry>

    /** Names trimmed, non-empty and distinct ignoring case; counts consistent; schedule sorted. */
    ghost predicate Valid()
      reads this
    {
      SubjectsValid(subjects) && Sorted(schedule, Compare)
    }

    /**
     * Startup: the arrays saveData wrote are read back, then renderSchedule
     * sorts the schedule.
     */
    constructor Load(savedSubjects: seq<Subject>, savedSchedule: seq<ScheduleEntry>)
      requires SubjectsValid(savedSubjects)
      ensures Valid()
      ensures subjects == savedSubjects
      ensures schedule == SortedSchedule(savedSchedule)
    {
      subjects := savedSubjects;
      schedule := savedSchedule;
      new;
      RenderSchedule();
    }

    /** The sorting step of renderSchedule: `schedule.sort(comparator)` on the global array. */
    method RenderSchedule()
      modifies this
      ensures subjects == old(subjects)
      ensures schedule == SortedSchedule(old(schedule))
    {
      if |schedule| == 0 {
        return;
      }
      var s := schedule;
      var a := new ScheduleEntry[|s|](i requires 0 <= i < |s| => s[i]);
      assert a[..] == s;
      Sort(a, Compare);
      schedule := a[..];
    }

    /** addSubject, with the text of the name field as `input`. */
    method AddSubject(input: string) returns (outcome: AddSubjectOutcome)
      requires Valid()
      modifies this
      ensures Valid()
      ensures schedule == old(schedule)
      ensures outcome == BlankName <==> Trim(input) == []
      ensures outcome == DuplicateName <==> Trim(input) != [] && FindByName(old(subjects), Trim(input)).Some?
      ensures outcome == Added ==> subjects == old(subjects) + [Subject(Trim(input), 0, 0)]
      ensures outcome != Added ==> subjects == old(subjects)
    {
      var name := Trim(input);
      if name == [] {
        return BlankName;
      }
      match FindByName(subjects, name) {
        case Some(_) =>
          return DuplicateName;
        case None =>
          TrimIdempotent(input);
          AppendKeepsValid(subjects, Subject(name, 0, 0));
          subjects := subjects + [Subject(name, 0, 0)];
          return Added;
      }
    }

    /** removeSubject: the subject goes, and with it every schedule entry naming it. */
    method RemoveSubject(index: nat, confirmed: bool)
      requires Valid() && index < |subjects|
      modifies this
      ensures Valid()
      ensures !confirmed ==> subjects == old(subjects) && schedule == old(schedule)
      ensures confirmed ==> subjects == old(subjects[..index] + subjects[index + 1..])
      ensures confirmed ==> schedule == WithoutSubject(old(schedule), old(subjects[index].name))
    {
      if confirmed {
        var name := subjects[index].name;
        subjects := subjects[..index] + subjects[index + 1..];
        schedule := WithoutSubject(schedule, name);
        WithoutSubjectSorted(old(schedule), name);
        CompareIsConsistent();
        SortedUnchanged(schedule, Compare);
        RenderSchedule();
      }
    }

    /** updateAttendance: "attended" counts a class held and attended, "missed" one held only. */
    method UpdateAttendance(index: nat, kind: string)
      requires Valid()
      requires kind == "attended" || kind == "missed" ==> index < |subjects|
      modifies this
      ensures Valid()
      ensures schedule == old(schedule) && |subjects| == |old(subjects)|
      ensures forall j :: 0 <= j < |subjects| && j != index ==> subjects[j] == old(subjects[j])
      ensures kind == "attended" ==>
        subjects[index] == old(subjects[index]).(attended := old(subjects[index].attended) + 1,
                                                 total := old(subjects[index].total) + 1)
      ensures kind == "missed" ==>
        subjects[index] == old(subjects[index]).(total := old(subjects[index].total) + 1)
      ensures kind != "attended" && kind != "missed" ==> subjects == old(subjects)
    {
      if kind == "attended" {
        var s := subjects[index];
        subjects := subjects[index := s.(attended := s.attended + 1, total := s.total + 1)];
      } else if kind == "missed" {
        var s := subjects[index];
        subjects := subjects[index := s.(total := s.total + 1)];
      }
    }

    /** resetAttendance: both counters back to zero. */
    method ResetAttendance(index: nat, confirmed: bool)
      requires Valid() && index < |subjects|
      modifies this
      ensures Valid()
      ensures schedule == old(schedule)
      ensures !confirmed ==> subjects == old(subjects)
      ensures confirmed ==> subjects == old(subjects)[index := Subject(old(subjects[index].name), 0, 0)]
    {
      if confirmed {
        subjects := subjects[index := subjects[index].(attended := 0, total := 0)];
      }
    }

    /** addScheduleItem: a class with all three fields filled in is added, then the schedule is sorted. */
    method AddScheduleItem(subject: string, day: string, time: string) returns (ok: bool)
      requires Valid()
      modifies this
      ensures Valid()
      ensures subjects == old(subjects)
      ensures ok <==> subject != [] && day != [] && time != []
      ensures !ok ==> schedule == old(schedule)
      ensures ok ==> schedule == Insert(old(schedule), ScheduleEntry(subject, day, time), Compare)
      ensures ok ==> multiset(schedule) == multiset(old(schedule)) + multiset{ScheduleEntry(subject, day, time)}
    {
      if subject == [] || day == [] || time == [] {
        return false;
      }
      var entry := ScheduleEntry(subject, day, time);
      CompareIsConsistent();
      AppendThenSort(schedule, entry, Compare);
      InsertSorted(schedule, entry, Compare);
      InsertPermutation(schedule, entry, Compare);
      schedule := schedule + [entry];
      RenderSchedule();
      return true;
    }

    /** removeScheduleItem: the entry at that position of the sorted schedule goes. */
    method RemoveScheduleItem(index: int, confirmed: bool)
      requires Valid()
      modifies this
      ensures Valid()
      ensures subjects == old(subjects)
      ensures !confirmed ==> schedule == old(schedule)
      ensures confirmed ==> schedule == SpliceOne(old(schedule), index)
    {
      if confirmed {
        var k := SpliceStart(index, |schedule|);
        if k < |schedule| {
          SortedWithout(schedule, k, Compare);
        }
        schedule := SpliceOne(schedule, index);
        CompareIsConsistent();
        SortedUnchanged(schedule, Compare);
        RenderSchedule();
      }
    }
  }
}
