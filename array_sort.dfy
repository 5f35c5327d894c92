/**
 * Array.prototype.sort with a comparator function, as renderSchedule calls it
 * on the schedule. The comparator must be consistent (section 23.1.3.30 of
 * ECMA-262): swapping its operands flips its sign, and "not after" is
 * transitive. The result is specified as stable insertion sort and computed
 * in place on the array.
 */
module ArraySort {

  /** Swapping the operands flips the sign. */
  ghost predicate Flips<T>(cmp: (T, T) -> int, a: T, b: T) {
    cmp(a, b) < 0 <==> cmp(b, a) > 0
  }

  /** "Not after" carries over from a, b and b, c to a, c. */
  ghost predicate Chains<T>(cmp: (T, T) -> int, a: T, b: T, c: T) {
    cmp(a, b) <= 0 && cmp(b, c) <= 0 ==> cmp(a, c) <= 0
  }

  ghost predicate Consistent<T(!new)>(cmp: (T, T) -> int) {
    && (forall a, b :: Flips(cmp, a, b))
    && (forall a, b, c :: Chains(cmp, a, b, c))
  }

  /** Every entry may stand before every later one. */
  ghost predicate Sorted<T>(s: seq<T>, cmp: (T, T) -> int) {
    forall i, j :: 0 <= i < j < |s| ==> cmp(s[i], s[j]) <= 0
  }

  /** Where stable insertion puts x: after the last element it need not precede. */
  function InsertPosition<T>(s: seq<T>, x: T, cmp: (T, T) -> int): (p: nat)
    ensures p <= |s|
  {
    if s == [] || cmp(x, s[|s| - 1]) >= 0 then |s| else InsertPosition(s[..|s| - 1], x, cmp)
  }

  /** x need not precede the element just before its position, and must precede every element from it on. */
  lemma {:induction false} InsertPositionSplits<T>(s: seq<T>, x: T, cmp: (T, T) -> int)
    ensures var p := InsertPosition(s, x, cmp);
      && (p > 0 ==> cmp(x, s[p - 1]) >= 0)
      && (forall k :: p <= k < |s| ==> cmp(x, s[k]) < 0)
  {
    if s != [] && cmp(x, s[|s| - 1]) < 0 {
      var init := s[..|s| - 1];
      InsertPositionSplits(init, x, cmp);
      var p := InsertPosition(init, x, cmp);
      assert forall k :: p <= k < |init| ==> s[k] == init[k];
    }
  }

  /** One step of insertion sort: x goes in at its stable position. */
  function Insert<T>(s: seq<T>, x: T, cmp: (T, T) -> int): seq<T> {
    var p := InsertPosition(s, x, cmp);
    s[..p] + [x] + s[p..]
  }

  /** The sequence after sorting: each element in turn inserted into the sorted prefix. */
  function InsertionSorted<T>(s: seq<T>, cmp: (T, T) -> int): seq<T> {
    if s == [] then [] else Insert(InsertionSorted(s[..|s| - 1], cmp), s[|s| - 1], cmp)
  }

  /** Insertion adds exactly the one element. */
  lemma InsertPermutation<T>(s: seq<T>, x: T, cmp: (T, T) -> int)
    ensures multiset(Insert(s, x, cmp)) == multiset(s) + multiset{x}
  {
    var p := InsertPosition(s, x, cmp);
    assert s == s[..p] + s[p..];
  }

  /** Any two positions of the sequence with x put in at a position where it fits are in order. */
  lemma InsertedPairInOrder<T(!new)>(s: seq<T>, x: T, cmp: (T, T) -> int, p: nat, i: nat, j: nat)
    requires Consistent(cmp) && Sorted(s, cmp) && p <= |s|
    requires p > 0 ==> cmp(x, s[p - 1]) >= 0
    requires forall k :: p <= k < |s| ==> cmp(x, s[k]) < 0
    requires i < j <= |s|
    ensures cmp((s[..p] + [x] + s[p..])[i], (s[..p] + [x] + s[p..])[j]) <= 0
  {
    var r := s[..p] + [x] + s[p..];
    if i == p {
      assert r[i] == x && r[j] == s[j - 1];
    } else if j == p {
      assert r[i] == s[i] && r[j] == x;
      assert Flips(cmp, x, s[p - 1]);
      if i < p - 1 {
        assert Chains(cmp, s[i], s[p - 1], x);
      }
    } else {
      var i', j' := if i < p then i else i - 1, if j < p then j else j - 1;
      assert r[i] == s[i'] && r[j] == s[j'];
    }
  }

  /** Inserting into a sorted sequence keeps it sorted. */
  lemma InsertSorted<T(!new)>(s: seq<T>, x: T, cmp: (T, T) -> int)
    requires Consistent(cmp) && Sorted(s, cmp)
    ensures Sorted(Insert(s, x, cmp), cmp)
  {
    var p := InsertPosition(s, x, cmp);
    InsertPositionSplits(s, x, cmp);
    forall i, j | 0 <= i < j < |s| + 1
      ensures cmp((s[..p] + [x] + s[p..])[i], (s[..p] + [x] + s[p..])[j]) <= 0
    {
      InsertedPairInOrder(s, x, cmp, p, i, j);
    }
  }

  /** The result of sorting is sorted. */
  lemma {:induction false} InsertionSortedIsSorted<T(!new)>(s: seq<T>, cmp: (T, T) -> int)
    requires Consistent(cmp)
    ensures Sorted(InsertionSorted(s, cmp), cmp)
  {
    if s != [] {
      InsertionSortedIsSorted(s[..|s| - 1], cmp);
      InsertSorted(InsertionSorted(s[..|s| - 1], cmp), s[|s| - 1], cmp);
    }
  }

  /** The result of sorting holds exactly the elements of the input, each as often. */
  lemma {:induction false} InsertionSortedIsPermutation<T>(s: seq<T>, cmp: (T, T) -> int)
    ensures multiset(InsertionSorted(s, cmp)) == multiset(s)
  {
    if s != [] {
      var init := s[..|s| - 1];
      var last := s[|s| - 1];
      var sorted := InsertionSorted(init, cmp);
      InsertionSortedIsPermutation(init, cmp);
      InsertPermutation(sorted, last, cmp);
      assert s == init + [last];
      assert multiset(s) == multiset(init) + multiset{last};
    }
  }

  /** Sorting a sorted sequence leaves it as it is. */
  lemma {:induction false} SortedUnchanged<T(!new)>(s: seq<T>, cmp: (T, T) -> int)
    requires Consistent(cmp) && Sorted(s, cmp)
    ensures InsertionSorted(s, cmp) == s
  {
    if s != [] {
      var init, last := s[..|s| - 1], s[|s| - 1];
      assert Sorted(init, cmp);
      SortedUnchanged(init, cmp);
      if init != [] {
        assert Flips(cmp, last, init[|init| - 1]);
      }
      InsertPositionIs(init, last, cmp, |init|);
      assert init[..|init|] + [last] + init[|init|..] == s;
    }
  }

  /** Sorting a sorted sequence with one element appended inserts that element. */
  lemma AppendThenSort<T(!new)>(s: seq<T>, x: T, cmp: (T, T) -> int)
    requires Consistent(cmp) && Sorted(s, cmp)
    ensures InsertionSorted(s + [x], cmp) == Insert(s, x, cmp)
  {
    assert (s + [x])[..|s|] == s;
    SortedUnchanged(s, cmp);
  }

  /** Deleting an element keeps a sorted sequence sorted. */
  lemma SortedWithout<T>(s: seq<T>, i: nat, cmp: (T, T) -> int)
    requires Sorted(s, cmp) && i < |s|
    ensures Sorted(s[..i] + s[i + 1..], cmp)
  {
    var r := s[..i] + s[i + 1..];
    forall k, l | 0 <= k < l < |r| ensures cmp(r[k], r[l]) <= 0 {
      var k' := if k < i then k else k + 1;
      var l' := if l < i then l else l + 1;
      assert r[k] == s[k'] && r[l] == s[l'];
    }
  }

  /** InsertPosition is the one place with nothing x must precede before it and only such elements after it. */
  lemma InsertPositionIs<T>(s: seq<T>, x: T, cmp: (T, T) -> int, p: nat)
    requires p <= |s|
    requires p > 0 ==> cmp(x, s[p - 1]) >= 0
    requires forall k :: p <= k < |s| ==> cmp(x, s[k]) < 0
    ensures InsertPosition(s, x, cmp) == p
  {
    InsertPositionSplits(s, x, cmp);
  }

  /** Three elements listed in reverse comparator order come out reversed. */
  lemma ReversedThreeSort<T>(x: T, y: T, z: T, cmp: (T, T) -> int)
    requires cmp(y, x) < 0 && cmp(z, y) < 0 && cmp(z, x) < 0
    ensures InsertionSorted([x, y, z], cmp) == [z, y, x]
  {
    InsertPositionIs([], x, cmp, 0);
    InsertPositionIs([x], y, cmp, 0);
    InsertPositionIs([y, x], z, cmp, 0);
    assert [x, y, z][..2] == [x, y] && [x, y][..1] == [x] && [x][..0] == [];
    assert InsertionSorted([x], cmp) == [x];
    assert InsertionSorted([x, y], cmp) == [y, x];
  }

  /** A sequence that holds x at j, done[..j] before it and done[j..] after it. */
  lemma Reassembled<T>(b: seq<T>, done: seq<T>, x: T, j: nat)
    requires j <= |done| && |b| == |done| + 1 && b[j] == x
    requires forall k :: 0 <= k < j ==> b[k] == done[k]
    requires forall k :: j < k < |b| ==> b[k] == done[k - 1]
    ensures b == done[..j] + [x] + done[j..]
  {
  }

  /** The inner loop of insertion sort: a[i] moves left into the sorted prefix a[..i]. */
  method InsertInPlace<T>(a: array<T>, i: nat, cmp: (T, T) -> int)
    requires i < a.Length
    modifies a
    ensures a[..i + 1] == Insert(old(a[..i]), old(a[i]), cmp)
    ensures a[i + 1..] == old(a[i + 1..])
  {
    ghost var done := a[..i];
    var x := a[i];
    var j := i;
    while j > 0 && cmp(a[j], a[j - 1]) < 0
      invariant 0 <= j <= i
      invariant a[j] == x
      invariant forall k :: 0 <= k < j ==> a[k] == done[k]
      invariant forall k :: j < k <= i ==> a[k] == done[k - 1]
      invariant forall k :: j <= k < i ==> cmp(x, done[k]) < 0
      invariant forall k :: i < k < a.Length ==> a[k] == old(a[k])
    {
      a[j - 1], a[j] := a[j], a[j - 1];
      j := j - 1;
    }
    InsertPositionIs(done, x, cmp, j);
    Reassembled(a[..i + 1], done, x, j);
  }

  /** `a.sort(cmp)`, in place. */
  method Sort<T>(a: array<T>, cmp: (T, T) -> int)
    modifies a
    ensures a[..] == InsertionSorted(old(a[..]), cmp)
  {
    ghost var input := a[..];
    var i := 0;
    while i < a.Length
      invariant 0 <= i <= a.Length
      invariant a[..i] == InsertionSorted(input[..i], cmp)
      invariant a[i..] == input[i..]
    {
      assert a[i] == a[i..][0] == input[i] && a[i + 1..] == a[i..][1..] == input[i + 1..];
      InsertInPlace(a, i, cmp);
      assert input[..i + 1][..i] == input[..i] && input[..i + 1][i] == input[i];
      assert InsertionSorted(input[..i + 1], cmp) == Insert(InsertionSorted(input[..i], cmp), input[i], cmp);
      i := i + 1;
    }
    assert a[..] == a[..a.Length] && input == input[..a.Length];
  }
}
