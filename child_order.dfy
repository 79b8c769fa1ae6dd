/** The order in which the layout places the children of one parent (the
    `root.each` pass of `calculateLayout`): the females split in two halves around
    the males, each gender group in birth order. Every gender other than male
    counts as female here. */
module ChildOrdering {
  import opened FamilyTypes
  import opened BirthOrder

  function IsMale(): Member -> bool
  {
    (m: Member) => m.gender == Male
  }

  function NotMale(): Member -> bool
  {
    (m: Member) => m.gender != Male
  }

  /** The new `node.children`: the first `floor(F / 2)` of the sorted females, all
      sorted males, then the remaining sorted females. */
  function ChildOrder(cs: seq<Member>): seq<Member>
  {
    var males := SortByBirth(Filter(cs, IsMale()));
    var females := SortByBirth(Filter(cs, NotMale()));
    var half := |females| / 2;
    females[..half] + males + females[half..]
  }

  /** Number of males and of non-males among the children. */
  function MaleCount(cs: seq<Member>): nat
  {
    |Filter(cs, IsMale())|
  }

  function FemaleCount(cs: seq<Member>): nat
  {
    |Filter(cs, NotMale())|
  }

  /** The two gender filters split a list without loss. */
  lemma {:induction false} GenderSplit(s: seq<Member>)
    ensures multiset(Filter(s, IsMale())) + multiset(Filter(s, NotMale())) == multiset(s)
  {
    if s != [] {
      var init, last := s[..|s| - 1], s[|s| - 1];
      GenderSplit(init);
      GenderSplitStep(init, last);
      assert s == init + [last];
    }
  }

  /** One more child goes to exactly one of the two gender groups. */
  lemma GenderSplitStep(init: seq<Member>, last: Member)
    requires multiset(Filter(init, IsMale())) + multiset(Filter(init, NotMale())) == multiset(init)
    ensures multiset(Filter(init + [last], IsMale())) + multiset(Filter(init + [last], NotMale()))
      == multiset(init + [last])
  {
    var s := init + [last];
    assert s[..|s| - 1] == init;
    assert multiset(s) == multiset(init) + multiset{last};
  }

  /** Reordering only permutes the children. */
  lemma ChildOrderPermutes(cs: seq<Member>)
    ensures multiset(ChildOrder(cs)) == multiset(cs)
    ensures |ChildOrder(cs)| == |cs| == MaleCount(cs) + FemaleCount(cs)
  {
    var ms := Filter(cs, IsMale());
    var fs := Filter(cs, NotMale());
    var males := SortByBirth(ms);
    var females := SortByBirth(fs);
    var half := |females| / 2;
    SortByBirthPermutes(ms);
    SortByBirthPermutes(fs);
    GenderSplit(cs);
    Splice(females, males, half);
    assert |multiset(cs)| == |multiset(ms)| + |multiset(fs)|;
  }

  /** Putting a list into another at any position keeps all elements of both. */
  lemma Splice(outer: seq<Member>, inner: seq<Member>, at: int)
    requires 0 <= at <= |outer|
    ensures multiset(outer[..at] + inner + outer[at..]) == multiset(outer) + multiset(inner)
  {
    assert outer[..at] + outer[at..] == outer;
  }

  /** A sorted gender group holds only records of that group. */
  lemma SortedGroup(cs: seq<Member>, keep: Member -> bool)
    ensures forall x :: x in SortByBirth(Filter(cs, keep)) ==> x in cs && keep(x)
  {
    SortByBirthPermutes(Filter(cs, keep));
    forall x | x in SortByBirth(Filter(cs, keep)) ensures x in cs && keep(x) {
      assert x in multiset(SortByBirth(Filter(cs, keep)));
      assert x in Filter(cs, keep);
    }
  }

  /** The new order is exactly `floor(F / 2)` females, then all `M` males, then the
      other females. */
  lemma ChildOrderGroups(cs: seq<Member>)
    ensures forall i :: 0 <= i < |ChildOrder(cs)| ==>
      (ChildOrder(cs)[i].gender == Male <==>
       FemaleCount(cs) / 2 <= i < FemaleCount(cs) / 2 + MaleCount(cs))
  {
    var r := ChildOrder(cs);
    var males := SortByBirth(Filter(cs, IsMale()));
    var females := SortByBirth(Filter(cs, NotMale()));
    var half := |females| / 2;
    SortedGroup(cs, IsMale());
    SortedGroup(cs, NotMale());
    forall i | 0 <= i < |r|
      ensures r[i].gender == Male <==> half <= i < half + |males|
    {
      if i < half {
        assert r[i] == females[i];
        assert females[i] in females;
      } else if i < half + |males| {
        assert r[i] == males[i - half];
        assert males[i - half] in males;
      } else {
        assert r[i] == females[i - |males|];
        assert females[i - |males|] in females;
      }
    }
  }

  /** Filtering keeps every date valid. */
  lemma FilterDated(s: seq<Member>, keep: Member -> bool)
    requires AllDated(s)
    ensures AllDated(Filter(s, keep))
  {
    var r := Filter(s, keep);
    forall i | 0 <= i < |r| ensures r[i].birthDate.Some? {
      assert r[i] in r;
    }
  }

  /** With valid dates, the males come in birth order and so do the females read
      across both of their halves. */
  lemma ChildOrderAscending(cs: seq<Member>)
    requires AllDated(cs)
    ensures var h, m := FemaleCount(cs) / 2, MaleCount(cs);
      && Ascending(ChildOrder(cs)[h..h + m])
      && Ascending(ChildOrder(cs)[..h] + ChildOrder(cs)[h + m..])
  {
    var r := ChildOrder(cs);
    var males := SortByBirth(Filter(cs, IsMale()));
    var females := SortByBirth(Filter(cs, NotMale()));
    var half := |females| / 2;
    FilterDated(cs, IsMale());
    FilterDated(cs, NotMale());
    SortByBirthAscending(Filter(cs, IsMale()));
    SortByBirthAscending(Filter(cs, NotMale()));
    assert r[half..half + |males|] == males;
    assert r[..half] + r[half + |males|..] == females;
  }

  /** `root.each(node => node.children = ...)`: every node's child list, here one
      array slot per node, is replaced by its reordering. */
  method ReorderAll(children: array<seq<Member>>)
    modifies children
    ensures forall i :: 0 <= i < children.Length ==> children[i] == ChildOrder(old(children[i]))
  {
    ghost var orig := children[..];
    for n := 0 to children.Length
      invariant forall i :: 0 <= i < n ==> children[i] == ChildOrder(orig[i])
      invariant children[n..] == orig[n..]
    {
      assert children[n] == orig[n];
      var next := OrderChildren(children[n]);
      children[n] := next;
      assert children[n + 1..] == orig[n + 1..];
    }
  }

  /** One node: filter by gender, sort each group in place, splice the halves. */
  method OrderChildren(cs: seq<Member>) returns (r: seq<Member>)
    ensures r == ChildOrder(cs)
  {
    var ms := Filter(cs, IsMale());
    var fs := Filter(cs, NotMale());
    var males := new Member[|ms|](i requires 0 <= i < |ms| => ms[i]);
    var females := new Member[|fs|](i requires 0 <= i < |fs| => fs[i]);
    assert males[..] == ms && females[..] == fs;
    SortInPlace(males);
    SortInPlace(females);
    var half := females.Length / 2;
    r := females[..half] + males[..] + females[half..];
  }
}
