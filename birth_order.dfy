/** Ordering people by birth date, as the source's
    `sort((a, b) => new Date(a.birthDate).getTime() - new Date(b.birthDate).getTime())`
    does for sibling ranks and for the child order of the layout. */
module BirthOrder {
  import opened FamilyTypes

  /** `new Date(a) < new Date(b)`: false as soon as either date is NaN. */
  predicate Before(a: Option<int>, b: Option<int>)
  {
    a.Some? && b.Some? && a.value < b.value
  }

  /** Every record carries a valid date. */
  predicate AllDated(s: seq<Member>)
  {
    forall i :: 0 <= i < |s| ==> s[i].birthDate.Some?
  }

  /** No record is born strictly before one placed ahead of it. */
  predicate Ascending(s: seq<Member>)
  {
    forall i, j :: 0 <= i < j < |s| ==> !Before(s[j].birthDate, s[i].birthDate)
  }

  /** One step of a stable insertion sort: `x` moves in from the back past every
      record born strictly after it. A NaN comparison (+0 in ECMAScript's
      SortCompare) counts as "not before". */
  function Insert(s: seq<Member>, x: Member): (r: seq<Member>)
    ensures |r| == |s| + 1
  {
    if s == [] || !Before(x.birthDate, s[|s| - 1].birthDate) then s + [x]
    else
      var init := s[..|s| - 1];
      assert s == init + [s[|s| - 1]];
      Insert(init, x) + [s[|s| - 1]]
  }

  /** The stable sort by birth date, one record at a time from the front. */
  function SortByBirth(s: seq<Member>): (r: seq<Member>)
    ensures |r| == |s|
  {
    if s == [] then []
    else
      var init := s[..|s| - 1];
      assert s == init + [s[|s| - 1]];
      Insert(SortByBirth(init), s[|s| - 1])
  }

  /** Every record is dated no later than `v`. */
  predicate AtMost(s: seq<Member>, v: int)
  {
    forall i :: 0 <= i < |s| ==> s[i].birthDate.Some? && s[i].birthDate.value <= v
  }

  lemma {:induction false} InsertAtMost(s: seq<Member>, x: Member, v: int)
    requires AtMost(s, v) && x.birthDate.Some? && x.birthDate.value <= v
    ensures AtMost(Insert(s, x), v)
    decreases |s|
  {
    if s != [] && Before(x.birthDate, s[|s| - 1].birthDate) {
      var init := s[..|s| - 1];
      InsertAtMost(init, x, v);
    }
  }

  lemma AscendingAppend(s: seq<Member>, y: Member)
    requires Ascending(s) && y.birthDate.Some? && AtMost(s, y.birthDate.value)
    ensures Ascending(s + [y]) && AllDated(s + [y]) == AllDated(s)
  {
  }

  lemma {:induction false} InsertPermutes(s: seq<Member>, x: Member)
    ensures multiset(Insert(s, x)) == multiset(s) + multiset{x}
    decreases |s|
  {
    if s != [] && Before(x.birthDate, s[|s| - 1].birthDate) {
      var init := s[..|s| - 1];
      InsertPermutes(init, x);
      assert s == init + [s[|s| - 1]];
    }
  }

  /** The sort only reorders: the result is a permutation of its input. */
  lemma {:induction false} SortByBirthPermutes(s: seq<Member>)
    ensures multiset(SortByBirth(s)) == multiset(s)
  {
    if s != [] {
      var init := s[..|s| - 1];
      SortByBirthPermutes(init);
      InsertPermutes(SortByBirth(init), s[|s| - 1]);
      assert s == init + [s[|s| - 1]];
    }
  }

  lemma {:induction false} InsertAscending(s: seq<Member>, x: Member)
    requires AllDated(s) && x.birthDate.Some? && Ascending(s)
    ensures AllDated(Insert(s, x)) && Ascending(Insert(s, x))
    decreases |s|
  {
    if s == [] {
    } else {
      var init := s[..|s| - 1];
      var last := s[|s| - 1];
      assert AtMost(init, last.birthDate.value);
      if !Before(x.birthDate, last.birthDate) {
        assert AtMost(s, x.birthDate.value);
        AscendingAppend(s, x);
      } else {
        InsertAscending(init, x);
        InsertAtMost(init, x, last.birthDate.value);
        AscendingAppend(Insert(init, x), last);
      }
    }
  }

  /** With every date valid, the sort puts the records in ascending birth order. */
  lemma {:induction false} SortByBirthAscending(s: seq<Member>)
    requires AllDated(s)
    ensures AllDated(SortByBirth(s)) && Ascending(SortByBirth(s))
  {
    if s != [] {
      var init := s[..|s| - 1];
      SortByBirthAscending(init);
      InsertAscending(SortByBirth(init), s[|s| - 1]);
    }
  }

  /** The inner loop of insertion sort: `a[i]` moves left past every record born
      after it; `a[..i]` must already be sorted for this to be one sort step. */
  method InsertAt(a: array<Member>, i: int)
    requires 0 <= i < a.Length
    modifies a
    ensures a[..i + 1] == Insert(old(a[..i]), old(a[i]))
    ensures a[i + 1..] == old(a[i + 1..])
  {
    ghost var orig := a[..];
    var x := a[i];
    var j := i;
    assert orig[..i] + orig[i..i] == orig[..i];
    while j > 0 && Before(x.birthDate, a[j - 1].birthDate)
      invariant 0 <= j <= i
      invariant a[..] == Shifted(orig, i, j, orig[j])
      invariant Insert(orig[..i], x) == Insert(orig[..j], x) + orig[j..i]
    {
      ShiftedAt(orig, i, j, orig[j]);
      ShiftStep(orig, i, j, x);
      a[j] := a[j - 1];
      j := j - 1;
    }
    ShiftedPlace(orig, i, j, x);
    a[j] := x;
  }

  /** The array during the inner loop: the first `j` records, the record `v` at
      position `j`, the records `j..i` moved one place right, then the rest. */
  function Shifted(orig: seq<Member>, i: int, j: int, v: Member): (r: seq<Member>)
    requires 0 <= j <= i < |orig|
    ensures |r| == |orig|
  {
    orig[..j] + [v] + orig[j..i] + orig[i + 1..]
  }

  /** Reading the shifted array below position `j`. */
  lemma ShiftedAt(orig: seq<Member>, i: int, j: int, v: Member)
    requires 0 < j <= i < |orig|
    ensures Shifted(orig, i, j, v)[j - 1] == orig[j - 1]
  {
  }

  /** One step of the inner loop: copying the record in front of the gap into the
      gap moves the gap one place left, and `x` moves past that record, born after it. */
  lemma ShiftStep(orig: seq<Member>, i: int, j: int, x: Member)
    requires 0 < j <= i < |orig| && Before(x.birthDate, orig[j - 1].birthDate)
    requires Insert(orig[..i], x) == Insert(orig[..j], x) + orig[j..i]
    ensures Shifted(orig, i, j, orig[j])[j := orig[j - 1]] == Shifted(orig, i, j - 1, orig[j - 1])
    ensures Insert(orig[..i], x) == Insert(orig[..j - 1], x) + orig[j - 1..i]
  {
    GapMoves(orig, i, j);
    InsertPastOne(orig[..i], x, j);
    assert orig[..i][..j] == orig[..j] && orig[..i][..j - 1] == orig[..j - 1];
    assert orig[..i][j..] == orig[j..i] && orig[..i][j - 1..] == orig[j - 1..i];
  }

  lemma GapMoves(orig: seq<Member>, i: int, j: int)
    requires 0 < j <= i < |orig|
    ensures Shifted(orig, i, j, orig[j])[j := orig[j - 1]] == Shifted(orig, i, j - 1, orig[j - 1])
  {
    var a := Shifted(orig, i, j, orig[j])[j := orig[j - 1]];
    var b := Shifted(orig, i, j - 1, orig[j - 1]);
    forall k | 0 <= k < |orig| ensures a[k] == b[k] {
      if k < j - 1 {
      } else if k <= j {
      } else if k <= i {
        assert a[k] == orig[k - 1] == b[k];
      }
    }
  }

  /** When the loop stops, filling the gap with `x` gives the inserted prefix and
      leaves the rest untouched. */
  lemma ShiftedPlace(orig: seq<Member>, i: int, j: int, x: Member)
    requires 0 <= j <= i < |orig| && (j == 0 || !Before(x.birthDate, orig[j - 1].birthDate))
    requires Insert(orig[..i], x) == Insert(orig[..j], x) + orig[j..i]
    ensures Shifted(orig, i, j, orig[j])[j := x][..i + 1] == Insert(orig[..i], x)
    ensures Shifted(orig, i, j, orig[j])[j := x][i + 1..] == orig[i + 1..]
  {
    var a := Shifted(orig, i, j, orig[j])[j := x];
    assert a == Shifted(orig, i, j, x);
    assert a[..i + 1] == orig[..j] + [x] + orig[j..i];
  }

  /** One step of the inner loop: `x` moves past `s[j - 1]`, born after it. */
  lemma InsertPastOne(s: seq<Member>, x: Member, j: int)
    requires 0 < j <= |s| && Before(x.birthDate, s[j - 1].birthDate)
    ensures Insert(s[..j], x) + s[j..] == Insert(s[..j - 1], x) + s[j - 1..]
  {
    var pre := s[..j];
    assert pre[..|pre| - 1] == s[..j - 1];
    assert [s[j - 1]] + s[j..] == s[j - 1..];
  }

  /** `a.sort(...)` on an array: a stable insertion sort in place. */
  method SortInPlace(a: array<Member>)
    modifies a
    ensures a[..] == SortByBirth(old(a[..]))
  {
    ghost var orig := a[..];
    var i := 0;
    while i < a.Length
      invariant 0 <= i <= a.Length
      invariant a[..i] == SortByBirth(orig[..i])
      invariant a[i..] == orig[i..]
    {
      ghost var sorted := a[..i];
      assert a[i] == orig[i];
      InsertAt(a, i);
      assert a[..i + 1] == Insert(sorted, orig[i]);
      ghost var pre := orig[..i + 1];
      assert pre[..|pre| - 1] == orig[..i] && pre[|pre| - 1] == orig[i];
      assert SortByBirth(pre) == Insert(SortByBirth(orig[..i]), orig[i]);
      i := i + 1;
    }
    assert orig[..a.Length] == orig;
  }
}
