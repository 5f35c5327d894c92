/**
 * The status line of a subject card: from the counts and the attendance goal
 * (a percentage strictly between 0 and 100), either "no classes held yet",
 * "on track" with how many classes can still be missed, or "at risk" with how
 * many consecutive classes must be attended to reach the goal again.
 */
module Projection {

  datatype Status = NoData | OnTrack(canMiss: int) | AtRisk(needToAttend: int)

  /** `percentage >= goal` with percentage = attended / total * 100, multiplied out. */
  predicate MeetsGoal(attended: int, total: int, goal: int) {
    100 * attended >= goal * total
  }

  /** Math.floor(x / d) */
  function Floor(x: int, d: int): (q: int)
    requires d > 0
    ensures d * q <= x < d * (q + 1)
  {
    x / d
  }

  /** Math.ceil(x / d) */
  function Ceil(x: int, d: int): (q: int)
    requires d > 0
    ensures d * (q - 1) < x <= d * q
  {
    Floor(x + d - 1, d)
  }

  lemma MulLeft(g: int, x: int, y: int)
    requires g > 0
    ensures x <= y <==> g * x <= g * y
  {
    assert g * y - g * x == g * (y - x);
    if x > y { assert g * (x - y) > 0; }
  }

  /** The status branch of renderSubjects for one subject. */
  function Project(attended: nat, total: nat, goal: int): (r: Status)
    requires 0 < goal < 100
    ensures r.NoData? <==> total == 0
    ensures r.OnTrack? <==> total > 0 && MeetsGoal(attended, total, goal)
    ensures r.AtRisk? <==> total > 0 && !MeetsGoal(attended, total, goal)
    ensures r.OnTrack? ==> r.canMiss >= 0
    ensures r.AtRisk? ==> r.needToAttend >= 1
  {
    if total == 0 then NoData
    else if MeetsGoal(attended, total, goal) then
      var q := Floor(100 * attended, goal);
      MulLeft(goal, total, q + 1);
      OnTrack(q - total)
    else
      var n := Ceil(goal * total - 100 * attended, 100 - goal);
      MulLeft(100 - goal, n, 0);
      AtRisk(n)
  }

  /**
   * "You can miss the next N class(es)": after missing k more classes the goal
   * is still met exactly when k is at most canMiss. With canMiss == 0 this is
   * "Do not miss the next class".
   */
  lemma {:induction false} CanMissIsLargest(attended: nat, total: nat, goal: int, k: nat)
    requires 0 < goal < 100
    requires Project(attended, total, goal).OnTrack?
    ensures MeetsGoal(attended, total + k, goal) <==> k <= Project(attended, total, goal).canMiss
  {
    var q := Floor(100 * attended, goal);
    MulLeft(goal, total + k, q);
    if total + k > q { MulLeft(goal, q + 1, total + k); }
  }

  /**
   * "You need to attend the next N class(es)": after attending k more classes
   * the goal is met exactly when k is at least needToAttend.
   */
  lemma {:induction false} NeedToAttendIsSmallest(attended: nat, total: nat, goal: int, k: nat)
    requires 0 < goal < 100
    requires Project(attended, total, goal).AtRisk?
    ensures MeetsGoal(attended + k, total + k, goal) <==> k >= Project(attended, total, goal).needToAttend
  {
    var d := 100 - goal;
    var n := Ceil(goal * total - 100 * attended, d);
    assert 100 * (attended + k) - goal * (total + k) == d * k - (goal * total - 100 * attended);
    MulLeft(d, k, n - 1);
    if k >= n { MulLeft(d, n, k); }
  }

  /** The two worked examples: 8 of 10 at 75% may miss none, 5 of 10 needs 10 more. */
  lemma WorkedExamples()
    ensures Project(8, 10, 75) == OnTrack(0)
    ensures Project(5, 10, 75) == AtRisk(10)
  {
  }
}
