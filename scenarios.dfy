/**
 * Sequences of user actions replayed against the store: adding a name twice
 * in different letter case, adding two distinct names of the same length,
 * marking attended then missed, and removing a subject together with its
 * classes. Each `assert` is the outcome the handlers produce, checked from
 * their contracts alone. Names and classes are arbitrary values with the
 * properties the sequence needs; the lemmas about "Math", "math" and "Path"
 * show that concrete names have them.
 */
module Scenarios {
  import opened JsBuiltins
  import opened Records
  import opened Store

  /** "Math" and "math" are typed without padding. */
  lemma SpellingsOfMathAreTrimmed()
    ensures Trim("Math") == "Math" && Trim("math") == "math"
  {
    TrimUnpadded("Math");
    TrimUnpadded("math");
  }

  /** "Math" and "math" are the same name ignoring case. */
  lemma SpellingsOfMathMatch()
    ensures SameIgnoringCase("Math", "math")
  {
    var a, b := "Math", "math";
    assert LowerChar(a[0]) == LowerChar(b[0]) == 'm';
    CaseVariantsMatch(a, b);
  }

  /** "Math" and "Path" have the same length but differ in a letter other than by case, so they are distinct names. */
  lemma MathAndPathDiffer()
    ensures !SameIgnoringCase("Math", "Path")
  {
    var a, b := "Math", "Path";
    assert LowerChar(a[0]) != LowerChar(b[0]);
    SameIgnoringCaseIff(a, b);
  }

  /** "Math" and then "Path" are both added: neither is refused as a duplicate of the other. */
  method MathThenPath()
  {
    SpellingsOfMathAreTrimmed();
    TrimUnpadded("Path");
    MathAndPathDiffer();
    var store := TwoSubjects("Math", "Path");
    assert |store.subjects| == 2;
  }

  /** A name, then the same name in other letter case: the second add is refused as a duplicate and nothing changes. */
  method DuplicateNameIsRefused(name: string, variant: string)
    requires Trim(name) == name != [] && Trim(variant) == variant
    requires SameIgnoringCase(name, variant)
  {
    var store := new AttendanceStore.Load([], []);
    var first := store.AddSubject(name);
    assert first == Added && store.subjects == [Subject(name, 0, 0)];
    var second := store.AddSubject(variant);
    assert second == DuplicateName;
    assert store.subjects == [Subject(name, 0, 0)];
  }

  /** Marking attended then missed from (0, 0) gives (1, 2). */
  method AttendedThenMissed(name: string)
    requires Trim(name) == name != []
  {
    var store := new AttendanceStore.Load([], []);
    var added := store.AddSubject(name);
    assert added == Added && store.subjects == [Subject(name, 0, 0)];
    store.UpdateAttendance(0, "attended");
    assert store.subjects[0] == Subject(name, 1, 1);
    store.UpdateAttendance(0, "missed");
    assert store.subjects[0] == Subject(name, 1, 2);
  }

  /** A fresh store holding two subjects with different names and no classes. */
  method TwoSubjects(a: string, b: string) returns (store: AttendanceStore)
    requires Trim(a) == a != [] && Trim(b) == b != []
    requires !SameIgnoringCase(a, b)
    ensures fresh(store) && store.Valid()
    ensures store.subjects == [Subject(a, 0, 0), Subject(b, 0, 0)]
    ensures store.schedule == []
  {
    store := new AttendanceStore.Load([], []);
    var added := store.AddSubject(a);
    assert store.subjects == [Subject(a, 0, 0)];
    added := store.AddSubject(b);
  }

  /** The store of TwoSubjects after adding three classes through the schedule form. */
  method WithThreeClasses(a: string, b: string, c1: ScheduleEntry, c2: ScheduleEntry, c3: ScheduleEntry)
    returns (store: AttendanceStore)
    requires Trim(a) == a != [] && Trim(b) == b != []
    requires !SameIgnoringCase(a, b)
    requires c1.subject != [] && c1.day != [] && c1.time != []
    requires c2.subject != [] && c2.day != [] && c2.time != []
    requires c3.subject != [] && c3.day != [] && c3.time != []
    ensures fresh(store) && store.Valid()
    ensures store.subjects == [Subject(a, 0, 0), Subject(b, 0, 0)]
    ensures multiset(store.schedule) == multiset{c1} + multiset{c2} + multiset{c3}
  {
    store := TwoSubjects(a, b);
    assert multiset(store.schedule) == multiset{};
    var ok := store.AddScheduleItem(c1.subject, c1.day, c1.time);
    ok := store.AddScheduleItem(c2.subject, c2.day, c2.time);
    ok := store.AddScheduleItem(c3.subject, c3.day, c3.time);
  }

  /**
   * Two classes of one subject and one of another, on any days and times:
   * removing the first subject removes both of its classes and keeps the other one.
   */
  method RemovingSubjectRemovesItsClasses(kept: string, removed: string, c1: ScheduleEntry, other: ScheduleEntry, c2: ScheduleEntry)
    requires Trim(kept) == kept != [] && Trim(removed) == removed != []
    requires !SameIgnoringCase(kept, removed)
    requires c1.subject == c2.subject == removed && other.subject == kept
    requires c1.day != [] && c1.time != [] && c2.day != [] && c2.time != []
    requires other.day != [] && other.time != []
  {
    var store := WithThreeClasses(kept, removed, c1, other, c2);
    assert other in multiset(store.schedule);
    RemoveSecondSubject(store, kept, removed, other);
    assert c1 !in store.schedule && c2 !in store.schedule;
  }

  /** Removing the second of two subjects keeps the first and its class, and drops every class of the second. */
  method RemoveSecondSubject(store: AttendanceStore, kept: string, removed: string, other: ScheduleEntry)
    requires store.Valid() && |store.subjects| == 2
    requires store.subjects[0] == Subject(kept, 0, 0) && store.subjects[1].name == removed
    requires other in store.schedule && other.subject == kept && kept != removed
    modifies store
    ensures store.Valid()
    ensures |store.subjects| == 1 && store.subjects[0] == Subject(kept, 0, 0)
    ensures other in store.schedule
    ensures forall e :: e in store.schedule ==> e.subject != removed
  {
    store.RemoveSubject(1, true);
  }
}
