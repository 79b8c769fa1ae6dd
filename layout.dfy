/** Layout pre-processing of the family graph (`calculateLayout`): finding the
    roots, joining several roots under a synthetic root, the conditions under which
    the hierarchy builder (`d3.stratify`) accepts the records, and the depth of
    each laid-out node. Coordinates are left to the tree layout and not modelled. */
module Layout {
  import opened FamilyTypes
  import opened Ancestry

  const SyntheticId: string := "synthetic-root"

  /** The record pushed when there are several roots: no date, gender other, no parent. */
  const SyntheticRoot: Member := Member(SyntheticId, "万脉归宗", None, false, "", Other, None, None, None, false, false)

  /** A root: its parent id is falsy or is not the id of any record. */
  predicate IsRoot(data: seq<Member>, d: Member)
  {
    !HasParentIn(MemberMap(data), d)
  }

  function RootTest(data: seq<Member>): Member -> bool
  {
    d => IsRoot(data, d)
  }

  /** `activeData.filter(d => !d.parentId || !dataMap.has(d.parentId))` */
  function Roots(data: seq<Member>): (r: seq<Member>)
    ensures forall d :: d in r <==> d in data && IsRoot(data, d)
  {
    Filter(data, RootTest(data))
  }

  /** A record whose id is among the roots' ids gets the synthetic root as parent. */
  function Reparent(roots: seq<Member>, d: Member): (r: Member)
    ensures r.id == d.id
  {
    if Find(roots, d.id).Some? then d.(parentId := Some(SyntheticId)) else d
  }

  function ReparentTo(roots: seq<Member>): Member -> Member
  {
    d => Reparent(roots, d)
  }

  /** The records with the synthetic root pushed and the roots re-parented to it. */
  function Joined(data: seq<Member>): seq<Member>
  {
    Apply(data + [SyntheticRoot], ReparentTo(Roots(data)))
  }

  /** The correction for the single-root case: a root whose parent id is truthy but
      unknown loses that parent id, so the hierarchy builder sees it as the root. */
  function ClearDangling(data: seq<Member>, d: Member): (r: Member)
    ensures r.id == d.id
  {
    if IsRoot(data, d) && Truthy(d.parentId) then d.(parentId := None) else d
  }

  function ClearIn(data: seq<Member>): Member -> Member
  {
    d => ClearDangling(data, d)
  }

  /** `processedData` as the source builds it: joined when there are several roots,
      the records themselves otherwise. */
  function ProcessedAsWritten(data: seq<Member>): seq<Member>
  {
    if |Roots(data)| > 1 then Joined(data) else data
  }

  /** `processedData` with the single-root case corrected. */
  function Processed(data: seq<Member>): seq<Member>
  {
    if |Roots(data)| > 1 then Joined(data) else Apply(data, ClearIn(data))
  }

  /** How many records carry the id `p`. */
  function CountId(s: seq<Member>, p: string): nat
  {
    if s == [] then 0 else CountId(s[..|s| - 1], p) + (if s[|s| - 1].id == p then 1 else 0)
  }

  /** How many records have a falsy parent id. */
  function CountUnparented(s: seq<Member>): nat
  {
    if s == [] then 0 else CountUnparented(s[..|s| - 1]) + (if Truthy(s[|s| - 1].parentId) then 0 else 1)
  }

  /** When `d3.stratify` builds a hierarchy instead of throwing: every truthy parent
      id names exactly one record (else "missing" or "ambiguous"), exactly one record
      has no parent id (else "no root" or "multiple roots"), and every record is
      reachable from that root (else "cycle"). */
  predicate StratifySucceeds(pd: seq<Member>)
  {
    && (forall d :: d in pd && Truthy(d.parentId) ==> CountId(pd, d.parentId.value) == 1)
    && CountUnparented(pd) == 1
    && Acyclic(pd)
  }

  /** One entry of `newNodes`, without the coordinates. */
  datatype LayoutNode = LayoutNode(id: string, data: Member, depth: int)

  /** `Skipped`: the function returned early or the hierarchy builder threw, and the
      previous nodes stay on screen. */
  datatype LayoutResult = Skipped | Laid(nodes: seq<LayoutNode>)

  function IsReal(): Member -> bool
  {
    (d: Member) => d.id != SyntheticId
  }

  /** Every hierarchy node except the synthetic root, with its depth shifted. */
  function NodesOf(pd: seq<Member>, shift: int): (r: seq<LayoutNode>)
    ensures forall n :: n in r ==> n.id != SyntheticId && n.data in pd && n.id == n.data.id
  {
    var kept := Filter(pd, IsReal());
    assert forall i :: 0 <= i < |kept| ==> kept[i] in kept;
    seq(|kept|, i requires 0 <= i < |kept| => LayoutNode(kept[i].id, kept[i], |AncestryPath(pd, kept[i])| - 1 - shift))
  }

  function LayoutOf(data: seq<Member>, pd: seq<Member>): (r: LayoutResult)
    ensures r.Laid? ==> |data| > 0 && |Roots(data)| > 0 && StratifySucceeds(pd)
    ensures r.Laid? ==> forall n :: n in r.nodes ==> n.id != SyntheticId
  {
    if |data| == 0 || |Roots(data)| == 0 || !StratifySucceeds(pd) then Skipped
    else Laid(NodesOf(pd, if |Roots(data)| > 1 then 1 else 0))
  }

  /** `calculateLayout` as written. */
  function CalculateLayoutAsWritten(data: seq<Member>): (r: LayoutResult)
    ensures |data| > 0 && |Roots(data)| == 0 ==> r == Skipped
  {
    LayoutOf(data, ProcessedAsWritten(data))
  }

  /** `calculateLayout` with the single dangling root treated as the root. */
  function CalculateLayout(data: seq<Member>): (r: LayoutResult)
    ensures |data| > 0 && |Roots(data)| == 0 ==> r == Skipped
  {
    LayoutOf(data, Processed(data))
  }

  /** No record uses the synthetic root's id. */
  predicate NoSyntheticId(data: seq<Member>)
  {
    forall d :: d in data ==> d.id != SyntheticId
  }

  /** What the layout needs of its input: records, unique ids, no parent cycle and
      the synthetic id left free. */
  predicate ValidForLayout(data: seq<Member>)
  {
    |data| > 0 && UniqueIds(data) && Acyclic(data) && NoSyntheticId(data)
  }

  /** With unique ids, a record's id is a root id exactly when the record is a root. */
  lemma FindInRoots(data: seq<Member>, d: Member)
    requires UniqueIds(data) && d in data
    ensures Find(Roots(data), d.id).Some? <==> IsRoot(data, d)
  {
    var roots := Roots(data);
    if Find(roots, d.id).Some? {
      var r := Find(roots, d.id).value;
      SameIdSameRecord(data, r, d);
    } else {
      assert d !in roots;
    }
  }

  /** Joining: the list grows by the synthetic root at the end, each root gets the
      synthetic root as parent and every other record stays as it is. */
  lemma JoinedShape(data: seq<Member>)
    requires UniqueIds(data) && NoSyntheticId(data)
    ensures |Joined(data)| == |data| + 1
    ensures Joined(data)[|data|] == SyntheticRoot
    ensures forall i :: 0 <= i < |data| ==>
      Joined(data)[i] == (if IsRoot(data, data[i]) then data[i].(parentId := Some(SyntheticId)) else data[i])
  {
    var roots := Roots(data);
    assert Find(roots, SyntheticId).None?;
    forall i | 0 <= i < |data|
      ensures Joined(data)[i] == (if IsRoot(data, data[i]) then data[i].(parentId := Some(SyntheticId)) else data[i])
    {
      FindInRoots(data, data[i]);
    }
  }

  /** Mapping with an id-preserving function keeps every id count. */
  lemma {:induction false} CountIdApply(s: seq<Member>, f: Member -> Member, p: string)
    requires forall m :: f(m).id == m.id
    ensures CountId(Apply(s, f), p) == CountId(s, p)
  {
    if s != [] {
      var r := Apply(s, f);
      assert r[..|r| - 1] == Apply(s[..|s| - 1], f);
      CountIdApply(s[..|s| - 1], f, p);
    }
  }

  /** An id no record carries is counted zero times. */
  lemma {:induction false} CountIdAbsent(s: seq<Member>, p: string)
    requires forall m :: m in s ==> m.id != p
    ensures CountId(s, p) == 0
  {
    if s != [] {
      CountIdAbsent(s[..|s| - 1], p);
    }
  }

  /** With unique ids, an id of the list is counted exactly once. */
  lemma {:induction false} CountIdUnique(s: seq<Member>, p: string)
    requires UniqueIds(s) && p in MemberMap(s)
    ensures CountId(s, p) == 1
  {
    var init := s[..|s| - 1];
    var last := s[|s| - 1];
    if last.id == p {
      forall m | m in init ensures m.id != p {
        var i :| 0 <= i < |init| && init[i] == m;
        assert s[i] == m;
      }
      CountIdAbsent(init, p);
    } else {
      var m := MemberMap(s)[p];
      MemberMapValue(s, p);
      var i :| 0 <= i < |s| && s[i] == m;
      assert init[i] == m;
      CountIdUnique(init, p);
    }
  }

  /** When every record has a truthy parent id, none is counted as unparented. */
  lemma {:induction false} CountUnparentedNone(s: seq<Member>)
    requires forall i :: 0 <= i < |s| ==> Truthy(s[i].parentId)
    ensures CountUnparented(s) == 0
  {
    if s != [] {
      CountUnparentedNone(s[..|s| - 1]);
    }
  }

  /** After the correction, the unparented records are exactly the roots. */
  lemma {:induction false} CountUnparentedCleared(data: seq<Member>, s: seq<Member>)
    ensures CountUnparented(Apply(s, ClearIn(data))) == |Filter(s, RootTest(data))|
  {
    if s != [] {
      var init := s[..|s| - 1];
      var r := Apply(s, ClearIn(data));
      assert r[..|r| - 1] == Apply(init, ClearIn(data));
      CountUnparentedCleared(data, init);
    }
  }

  /** The table of the joined list: every record's key maps to the re-parented
      record and the synthetic id to the synthetic root. */
  lemma JoinedTable(data: seq<Member>)
    requires UniqueIds(data) && NoSyntheticId(data)
    ensures forall k :: k in MemberMap(data) ==>
      k in MemberMap(Joined(data)) && MemberMap(Joined(data))[k] == Reparent(Roots(data), MemberMap(data)[k])
    ensures SyntheticId in MemberMap(Joined(data)) && MemberMap(Joined(data))[SyntheticId] == SyntheticRoot
  {
    var f := ReparentTo(Roots(data));
    var pd := Joined(data);
    var front := Apply(data, f);
    JoinedShape(data);
    assert pd == front + [SyntheticRoot];
    assert pd[..|pd| - 1] == front;
    MemberMapApply(data, f);
    assert MemberMap(pd) == MemberMap(front)[SyntheticId := SyntheticRoot];
    forall k | k in MemberMap(data) ensures k != SyntheticId {
      MemberMapValue(data, k);
    }
  }

  /** The walk in the joined list from a re-parented record runs along the original
      walk and then takes one more step, to the synthetic root. */
  lemma {:induction false} JoinedWalk(data: seq<Member>, d: Member, f: nat)
    requires UniqueIds(data) && NoSyntheticId(data) && d in data
    requires Terminates(MemberMap(data), d, f)
    ensures Terminates(MemberMap(Joined(data)), Reparent(Roots(data), d), f + 1)
    ensures |Path(MemberMap(Joined(data)), Reparent(Roots(data), d), f + 1)| == |Path(MemberMap(data), d, f)| + 1
    decreases f
  {
    var mmD := MemberMap(data);
    var mmP := MemberMap(Joined(data));
    var roots := Roots(data);
    JoinedTable(data);
    FindInRoots(data, d);
    if HasParentIn(mmD, d) {
      var q := mmD[d.parentId.value];
      MemberMapValue(data, d.parentId.value);
      JoinedWalk(data, q, f - 1);
      WalkOneMore(mmD, mmP, d, Reparent(roots, d), Reparent(roots, q), f);
    } else {
      WalkToTop(mmD, mmP, d, Reparent(roots, d), f);
    }
  }

  /** A walk that matches the original one step up matches it from here too. */
  lemma WalkOneMore(mmD: map<string, Member>, mmP: map<string, Member>, d: Member, rd: Member, rq: Member, f: nat)
    requires HasParentIn(mmD, d) && Terminates(mmD, d, f)
    requires rd == d && d.parentId.value in mmP && mmP[d.parentId.value] == rq
    requires Terminates(mmP, rq, f) && |Path(mmP, rq, f)| == |Path(mmD, ParentIn(mmD, d), f - 1)| + 1
    ensures Terminates(mmP, rd, f + 1) && |Path(mmP, rd, f + 1)| == |Path(mmD, d, f)| + 1
  {
  }

  /** A root of the original list is one step below the synthetic root. */
  lemma WalkToTop(mmD: map<string, Member>, mmP: map<string, Member>, d: Member, rd: Member, f: nat)
    requires !HasParentIn(mmD, d) && rd.id == d.id && rd.parentId == Some(SyntheticId)
    requires SyntheticId in mmP && mmP[SyntheticId] == SyntheticRoot
    ensures Terminates(mmP, rd, f + 1) && |Path(mmP, rd, f + 1)| == |Path(mmD, d, f)| + 1
  {
    assert Path(mmP, SyntheticRoot, f) == [SyntheticId];
  }

  /** After the correction, the walk from a record has the same length as before. */
  lemma {:induction false} ClearedWalk(data: seq<Member>, d: Member, f: nat)
    requires Terminates(MemberMap(data), d, f)
    ensures Terminates(MemberMap(Apply(data, ClearIn(data))), ClearDangling(data, d), f)
    ensures |Path(MemberMap(Apply(data, ClearIn(data))), ClearDangling(data, d), f)| == |Path(MemberMap(data), d, f)|
    decreases f
  {
    var mmD := MemberMap(data);
    var mmC := MemberMap(Apply(data, ClearIn(data)));
    if HasParentIn(mmD, d) {
      var q := mmD[d.parentId.value];
      MemberMapApply(data, ClearIn(data));
      ClearedWalk(data, q, f - 1);
      WalkAlong(mmD, mmC, d, ClearDangling(data, q), f);
    }
  }

  /** A walk that matches the original one step up matches it from here too. */
  lemma WalkAlong(mmD: map<string, Member>, mmC: map<string, Member>, d: Member, rq: Member, f: nat)
    requires HasParentIn(mmD, d) && Terminates(mmD, d, f)
    requires d.parentId.value in mmC && mmC[d.parentId.value] == rq
    requires Terminates(mmC, rq, f - 1) && |Path(mmC, rq, f - 1)| == |Path(mmD, ParentIn(mmD, d), f - 1)|
    ensures Terminates(mmC, d, f) && |Path(mmC, d, f)| == |Path(mmD, d, f)|
  {
  }

  /** With several roots, the joined list is accepted by the hierarchy builder. */
  lemma JoinedStratifies(data: seq<Member>)
    requires ValidForLayout(data) && |Roots(data)| > 1
    ensures StratifySucceeds(Joined(data))
  {
    JoinedParentsCounted(data);
    JoinedOneUnparented(data);
    JoinedAcyclic(data);
  }

  /** In the joined list every truthy parent id names exactly one record. */
  lemma JoinedParentsCounted(data: seq<Member>)
    requires ValidForLayout(data)
    ensures forall d :: d in Joined(data) && Truthy(d.parentId) ==> CountId(Joined(data), d.parentId.value) == 1
  {
    var pd := Joined(data);
    var f := ReparentTo(Roots(data));
    var front := Apply(data, f);
    JoinedShape(data);
    assert pd == front + [SyntheticRoot];
    CountIdApply(data, f, SyntheticId);
    CountIdAbsent(data, SyntheticId);
    assert CountId(pd, SyntheticId) == 1;
    forall d | d in pd && Truthy(d.parentId) ensures CountId(pd, d.parentId.value) == 1 {
      var i :| 0 <= i < |pd| && pd[i] == d;
      if i < |data| && !IsRoot(data, data[i]) {
        var p := d.parentId.value;
        assert p in MemberMap(data);
        CountIdUnique(data, p);
        CountIdApply(data, f, p);
        MemberMapValue(data, p);
      }
    }
  }

  /** In the joined list only the synthetic root has no parent id. */
  lemma JoinedOneUnparented(data: seq<Member>)
    requires ValidForLayout(data)
    ensures CountUnparented(Joined(data)) == 1
  {
    var pd := Joined(data);
    var front := Apply(data, ReparentTo(Roots(data)));
    JoinedShape(data);
    assert pd == front + [SyntheticRoot];
    assert pd[..|pd| - 1] == front;
    CountUnparentedNone(front);
  }

  lemma JoinedAcyclic(data: seq<Member>)
    requires ValidForLayout(data) && |Roots(data)| > 1
    ensures Acyclic(Joined(data))
  {
    var pd := Joined(data);
    JoinedShape(data);
    JoinedTable(data);
    forall x | x in pd ensures Terminates(MemberMap(pd), x, |pd|) {
      var i :| 0 <= i < |pd| && pd[i] == x;
      if i < |data| {
        JoinedWalk(data, data[i], |data|);
        FindInRoots(data, data[i]);
      }
    }
  }

  /** With exactly one root, the corrected list is accepted by the hierarchy builder. */
  lemma ClearedStratifies(data: seq<Member>)
    requires ValidForLayout(data) && |Roots(data)| == 1
    ensures StratifySucceeds(Apply(data, ClearIn(data)))
  {
    ClearedParentsCounted(data);
    CountUnparentedCleared(data, data);
    ClearedAcyclic(data);
  }

  /** In the corrected list every truthy parent id names exactly one record. */
  lemma ClearedParentsCounted(data: seq<Member>)
    requires ValidForLayout(data)
    ensures var pd := Apply(data, ClearIn(data));
      forall d :: d in pd && Truthy(d.parentId) ==> CountId(pd, d.parentId.value) == 1
  {
    var pd := Apply(data, ClearIn(data));
    forall d | d in pd && Truthy(d.parentId) ensures CountId(pd, d.parentId.value) == 1 {
      var i :| 0 <= i < |pd| && pd[i] == d;
      var p := d.parentId.value;
      assert p in MemberMap(data);
      CountIdUnique(data, p);
      CountIdApply(data, ClearIn(data), p);
    }
  }

  lemma ClearedAcyclic(data: seq<Member>)
    requires ValidForLayout(data)
    ensures Acyclic(Apply(data, ClearIn(data)))
  {
    var pd := Apply(data, ClearIn(data));
    forall x | x in pd ensures Terminates(MemberMap(pd), x, |pd|) {
      var i :| 0 <= i < |pd| && pd[i] == x;
      ClearedWalk(data, data[i], |data|);
    }
  }

  /** A non-empty acyclic list always has a root: the end of any record's walk. */
  lemma SomeRoot(data: seq<Member>)
    requires |data| > 0 && UniqueIds(data) && Acyclic(data)
    ensures |Roots(data)| > 0
  {
    var mm := MemberMap(data);
    var p := AncestryPath(data, data[0]);
    AncestryPathProperties(data, data[0]);
    var top := mm[p[|p| - 1]];
    MemberMapValue(data, p[|p| - 1]);
    assert top in data && IsRoot(data, top);
    assert top in Roots(data);
  }

  /** Dropping the synthetic root from the joined list leaves the mapped records. */
  lemma {:induction false} FilterKeepsAll(s: seq<Member>, keep: Member -> bool)
    requires forall i :: 0 <= i < |s| ==> keep(s[i])
    ensures Filter(s, keep) == s
  {
    if s != [] {
      var init := s[..|s| - 1];
      FilterKeepsAll(init, keep);
      assert init + [s[|s| - 1]] == s;
    }
  }

  /** On valid data the corrected layout succeeds and lists one node per record, in
      record order, with the record's id and with depth equal to the number of
      ancestors above it in its own tree: the synthetic root is never shown and the
      depth shift undoes the extra level it adds. */
  lemma LayoutMatchesData(data: seq<Member>)
    requires ValidForLayout(data)
    ensures CalculateLayout(data).Laid?
    ensures |CalculateLayout(data).nodes| == |data|
    ensures forall i :: 0 <= i < |data| ==>
      && CalculateLayout(data).nodes[i].id == data[i].id
      && CalculateLayout(data).nodes[i].data == Processed(data)[i]
      && CalculateLayout(data).nodes[i].depth == |AncestryPath(data, data[i])| - 1
  {
    SomeRoot(data);
    if |Roots(data)| > 1 {
      JoinedLayout(data);
    } else {
      ClearedLayout(data);
    }
  }

  lemma JoinedLayout(data: seq<Member>)
    requires ValidForLayout(data) && |Roots(data)| > 1
    ensures CalculateLayout(data).Laid?
    ensures |CalculateLayout(data).nodes| == |data|
    ensures forall i :: 0 <= i < |data| ==>
      && CalculateLayout(data).nodes[i].id == data[i].id
      && CalculateLayout(data).nodes[i].data == Processed(data)[i]
      && CalculateLayout(data).nodes[i].depth == |AncestryPath(data, data[i])| - 1
  {
    JoinedLaid(data);
    JoinedNodes(data);
  }

  lemma JoinedLaid(data: seq<Member>)
    requires ValidForLayout(data) && |Roots(data)| > 1
    ensures CalculateLayout(data) == Laid(NodesOf(Joined(data), 1))
  {
    JoinedStratifies(data);
  }

  /** The nodes of the joined list: one per record, in record order. */
  lemma JoinedNodes(data: seq<Member>)
    requires ValidForLayout(data)
    ensures |NodesOf(Joined(data), 1)| == |data|
    ensures forall i :: 0 <= i < |data| ==>
      && NodesOf(Joined(data), 1)[i].id == data[i].id
      && NodesOf(Joined(data), 1)[i].data == Joined(data)[i]
      && NodesOf(Joined(data), 1)[i].depth == |AncestryPath(data, data[i])| - 1
  {
    JoinedKept(data);
    forall i | 0 <= i < |data|
      ensures NodesOf(Joined(data), 1)[i] == LayoutNode(data[i].id, Joined(data)[i], |AncestryPath(data, data[i])| - 1)
    {
      JoinedNode(data, i);
    }
  }

  /** One record of the joined list: its re-parented self, one level deeper. */
  lemma JoinedNode(data: seq<Member>, i: int)
    requires ValidForLayout(data) && 0 <= i < |data|
    requires Filter(Joined(data), IsReal()) == Apply(data, ReparentTo(Roots(data)))
    ensures NodesOf(Joined(data), 1)[i] == LayoutNode(data[i].id, Joined(data)[i], |AncestryPath(data, data[i])| - 1)
  {
    var kept := Apply(data, ReparentTo(Roots(data)));
    NodesOfAt(Joined(data), 1, kept, i);
    JoinedDepth(data, i);
  }

  /** Entry `i` of the nodes is made from the `i`-th record that is not the synthetic root. */
  lemma NodesOfAt(pd: seq<Member>, shift: int, kept: seq<Member>, i: int)
    requires Filter(pd, IsReal()) == kept && 0 <= i < |kept|
    ensures |NodesOf(pd, shift)| == |kept|
    ensures NodesOf(pd, shift)[i] == LayoutNode(kept[i].id, kept[i], |AncestryPath(pd, kept[i])| - 1 - shift)
  {
  }

  /** The `i`-th joined record is the re-parented record, one step further from its
      root than before. */
  lemma JoinedDepth(data: seq<Member>, i: int)
    requires ValidForLayout(data) && 0 <= i < |data|
    ensures Apply(data, ReparentTo(Roots(data)))[i] == Joined(data)[i] == Reparent(Roots(data), data[i])
    ensures |AncestryPath(Joined(data), Joined(data)[i])| == |AncestryPath(data, data[i])| + 1
  {
    JoinedShape(data);
    assert data[i] in data;
    JoinedWalk(data, data[i], |data|);
  }

  /** Dropping the synthetic root from the joined list leaves the re-parented records. */
  lemma JoinedKept(data: seq<Member>)
    requires ValidForLayout(data)
    ensures Filter(Joined(data), IsReal()) == Apply(data, ReparentTo(Roots(data)))
  {
    var pd := Joined(data);
    var front := Apply(data, ReparentTo(Roots(data)));
    JoinedShape(data);
    assert pd == front + [SyntheticRoot];
    FilterConcat(front, [SyntheticRoot], IsReal());
    assert Filter([SyntheticRoot], IsReal()) == [];
    FilterKeepsAll(front, IsReal());
  }

  lemma ClearedLayout(data: seq<Member>)
    requires ValidForLayout(data) && |Roots(data)| == 1
    ensures CalculateLayout(data).Laid?
    ensures |CalculateLayout(data).nodes| == |data|
    ensures forall i :: 0 <= i < |data| ==>
      && CalculateLayout(data).nodes[i].id == data[i].id
      && CalculateLayout(data).nodes[i].data == Processed(data)[i]
      && CalculateLayout(data).nodes[i].depth == |AncestryPath(data, data[i])| - 1
  {
    var pd := Apply(data, ClearIn(data));
    ClearedStratifies(data);
    assert CalculateLayout(data) == Laid(NodesOf(pd, 0));
    ClearedNode(data, 0);
    forall i | 0 <= i < |data|
      ensures NodesOf(pd, 0)[i] == LayoutNode(data[i].id, pd[i], |AncestryPath(data, data[i])| - 1)
    {
      ClearedNode(data, i);
    }
  }

  /** One node of the corrected layout: the record at that position, at the depth
      of its original walk. */
  lemma ClearedNode(data: seq<Member>, i: int)
    requires ValidForLayout(data) && 0 <= i < |data|
    ensures var pd := Apply(data, ClearIn(data));
      && |NodesOf(pd, 0)| == |data|
      && NodesOf(pd, 0)[i] == LayoutNode(data[i].id, pd[i], |AncestryPath(data, data[i])| - 1)
  {
    var pd := Apply(data, ClearIn(data));
    forall j | 0 <= j < |pd| ensures IsReal()(pd[j]) {
      assert pd[j].id == data[j].id && data[j] in data;
    }
    FilterKeepsAll(pd, IsReal());
    NodesOfAt(pd, 0, pd, i);
    assert pd[i] == ClearDangling(data, data[i]) && data[i] in data;
    ClearedWalk(data, data[i], |data|);
  }

  /** As written, a single root whose parent id is truthy but unknown (its parent was
      deleted or never loaded) makes the hierarchy builder throw, and the layout is
      skipped. */
  lemma AsWrittenDanglingRootSkips(data: seq<Member>)
    requires |Roots(data)| == 1 && Truthy(Roots(data)[0].parentId)
    ensures CalculateLayoutAsWritten(data) == Skipped
  {
    var r := Roots(data)[0];
    assert r in Roots(data);
    var p := r.parentId.value;
    forall m | m in data ensures m.id != p {
      assert m.id in MemberMap(data);
    }
    CountIdAbsent(data, p);
    assert !StratifySucceeds(data);
  }

  /** Outside that case the source and the corrected layout agree. */
  lemma AsWrittenAgrees(data: seq<Member>)
    requires !(|Roots(data)| == 1 && Truthy(Roots(data)[0].parentId))
    ensures CalculateLayoutAsWritten(data) == CalculateLayout(data)
  {
    if |Roots(data)| == 1 {
      var roots := Roots(data);
      forall i | 0 <= i < |data| ensures ClearDangling(data, data[i]) == data[i] {
        if IsRoot(data, data[i]) {
          assert data[i] in roots;
        }
      }
      assert Apply(data, ClearIn(data)) == data;
    }
  }

  /** A single record whose parent id names no other record is a valid, single-root
      input. */
  lemma SingletonFacts(c: Member)
    requires Truthy(c.parentId) && c.parentId.value != c.id && c.id != SyntheticId
    ensures IsRoot([c], c) && Roots([c]) == [c]
    ensures ValidForLayout([c])
    ensures AncestryPath([c], c) == [c.id]
  {
    var data := [c];
    assert MemberMap(data) == map[c.id := c];
    assert Roots(data) == [c] by {
      assert data[..0] == [];
    }
    assert Terminates(MemberMap(data), c, 1);
  }

  /** The smallest witness: one record whose parent id names no record. The source
      skips its layout. */
  lemma DanglingRootExample(c: Member)
    requires Truthy(c.parentId) && c.parentId.value != c.id && c.id != SyntheticId
    ensures CalculateLayoutAsWritten([c]) == Skipped
  {
    SingletonFacts(c);
    AsWrittenDanglingRootSkips([c]);
  }

  /** The corrected layout shows that record alone, at depth 0, without its
      dangling parent id. */
  lemma DanglingRootCorrected(c: Member)
    requires Truthy(c.parentId) && c.parentId.value != c.id && c.id != SyntheticId
    ensures CalculateLayout([c]) == Laid([LayoutNode(c.id, c.(parentId := None), 0)])
  {
    SingletonFacts(c);
    LayoutMatchesData([c]);
    SingletonProcessed(c);
    var nodes := CalculateLayout([c]).nodes;
    assert nodes[0] == LayoutNode(c.id, c.(parentId := None), 0);
  }

  /** The corrected list of that record: the record without its parent id. */
  lemma SingletonProcessed(c: Member)
    requires Truthy(c.parentId) && c.parentId.value != c.id
    requires IsRoot([c], c) && Roots([c]) == [c]
    ensures Processed([c]) == [c.(parentId := None)]
  {
    assert Apply([c], ClearIn([c]))[0] == ClearDangling([c], c);
  }
}
