/** The record-list side of the application: collecting the live descendants of a
    person (`getDescendants`), the active/deleted split of the list, and the list
    edits behind soft deletion, restoring, adding a child or an ancestor and saving
    an edited record. */
module Records {
  import opened FamilyTypes
  import opened Ancestry

  function LiveChildOf(parentId: string): Member -> bool
  {
    (m: Member) => m.parentId == Some(parentId) && !m.isDeleted
  }

  /** `all.filter(m => m.parentId === parentId && !m.isDeleted)` */
  function LiveChildren(parentId: string, all: seq<Member>): (cs: seq<Member>)
    ensures forall c {:trigger c in cs} :: c in cs <==> c in all && c.parentId == Some(parentId) && !c.isDeleted
  {
    Filter(all, LiveChildOf(parentId))
  }

  /** `getDescendants` with at most `fuel` generations explored: the ids of the live
      children, then, child by child, the ids collected below each of them. The
      source recurses without a bound and overflows its stack on a parent cycle. */
  function Descendants(parentId: string, all: seq<Member>, fuel: nat): seq<string>
    decreases fuel, 0
  {
    if fuel == 0 then []
    else
      var cs := LiveChildren(parentId, all);
      Ids(cs) + DescendantsOfEach(cs, all, fuel - 1)
  }

  /** The `children.forEach(c => ids = [...ids, ...getDescendants(c.id, all)])` part. */
  function DescendantsOfEach(cs: seq<Member>, all: seq<Member>, fuel: nat): seq<string>
    decreases fuel, |cs|
  {
    if cs == [] then []
    else DescendantsOfEach(cs[..|cs| - 1], all, fuel) + Descendants(cs[|cs| - 1].id, all, fuel)
  }

  /** `getDescendants(parentId, all)`: with acyclic data no chain is longer than the list. */
  function GetDescendants(parentId: string, all: seq<Member>): seq<string>
  {
    Descendants(parentId, all, |all|)
  }

  /** `x` hangs below `p` through live records only, within `n` generations: `x` is
      a live child of `p`, or a live child of a record that hangs below `p`. */
  predicate Below(mm: map<string, Member>, x: Member, p: string, n: nat)
    decreases n
  {
    && n > 0 && !x.isDeleted && x.parentId.Some?
    && (x.parentId.value == p || (x.parentId.value in mm && Below(mm, mm[x.parentId.value], p, n - 1)))
  }

  /** `x` is a live descendant of `p` reached through live records only. */
  ghost predicate DescendsFrom(all: seq<Member>, x: Member, p: string)
  {
    exists n: nat :: Below(MemberMap(all), x, p, n)
  }

  lemma {:induction false} BelowMono(mm: map<string, Member>, x: Member, p: string, n: nat, m: nat)
    requires Below(mm, x, p, n) && n <= m
    ensures Below(mm, x, p, m)
    decreases n
  {
    if x.parentId.value != p {
      BelowMono(mm, mm[x.parentId.value], p, n - 1, m - 1);
    }
  }

  /** The collected ids below a list of children are those collected below one of them. */
  lemma {:induction false} DescendantsOfEachMembers(cs: seq<Member>, all: seq<Member>, fuel: nat, id: string)
    ensures id in DescendantsOfEach(cs, all, fuel) <==> exists c :: c in cs && id in Descendants(c.id, all, fuel)
    decreases |cs|
  {
    if cs != [] {
      var init := cs[..|cs| - 1];
      var last := cs[|cs| - 1];
      DescendantsOfEachMembers(init, all, fuel, id);
      assert cs == init + [last];
      if id in Descendants(last.id, all, fuel) {
        assert last in cs;
      }
      if exists c :: c in init && id in Descendants(c.id, all, fuel) {
        var c :| c in init && id in Descendants(c.id, all, fuel);
        assert c in cs;
      }
    }
  }

  /** Hanging below a live child of `p` means hanging below `p`, one generation deeper. */
  lemma {:induction false} BelowExtend(mm: map<string, Member>, x: Member, c: Member, p: string, n: nat)
    requires Below(mm, x, c.id, n)
    requires c.id in mm && mm[c.id] == c && !c.isDeleted && c.parentId == Some(p)
    ensures Below(mm, x, p, n + 1)
    decreases n
  {
    if x.parentId.value != c.id {
      BelowExtend(mm, mm[x.parentId.value], c, p, n - 1);
    }
  }

  /** A record below `p` hangs below one of `p`'s live children (or is one). */
  lemma {:induction false} BelowTop(all: seq<Member>, x: Member, p: string, n: nat) returns (c: Member)
    requires Below(MemberMap(all), x, p, n) && x in all
    ensures c in all && !c.isDeleted && c.parentId == Some(p)
    ensures c == x || Below(MemberMap(all), x, c.id, n - 1)
    decreases n
  {
    var mm := MemberMap(all);
    if x.parentId.value == p {
      c := x;
    } else {
      var k := x.parentId.value;
      var q := mm[k];
      MemberMapValue(all, k);
      c := BelowTop(all, q, p, n - 1);
      if c != q {
        assert Below(mm, x, c.id, n - 1);
      }
    }
  }

  /** Every collected id belongs to a listed record hanging below the start. */
  lemma {:induction false} DescendantsSound(p: string, all: seq<Member>, fuel: nat, id: string) returns (x: Member)
    requires UniqueIds(all) && id in Descendants(p, all, fuel)
    ensures x in all && x.id == id && Below(MemberMap(all), x, p, fuel)
    decreases fuel, 1
  {
    if id in Ids(LiveChildren(p, all)) {
      x := LiveChildListed(p, all, fuel, id);
    } else {
      var c := CollectedBelowChild(p, all, fuel, id);
      x := SoundBelowChild(p, all, c, fuel, id);
    }
  }

  /** The deeper case of `DescendantsSound`: the id was collected below the live
      child `c` of `p`. */
  lemma {:induction false} SoundBelowChild(p: string, all: seq<Member>, c: Member, fuel: nat, id: string) returns (x: Member)
    requires UniqueIds(all) && fuel > 0 && c in all && c.parentId == Some(p) && !c.isDeleted
    requires id in Descendants(c.id, all, fuel - 1)
    ensures x in all && x.id == id && Below(MemberMap(all), x, p, fuel)
    decreases fuel, 0
  {
    x := DescendantsSound(c.id, all, fuel - 1, id);
    LiveChildBelow(p, all, c, x, fuel - 1);
  }

  /** An id collected below `p` that is not a live child's was collected below one
      of the live children. */
  lemma CollectedBelowChild(p: string, all: seq<Member>, fuel: nat, id: string) returns (c: Member)
    requires id in Descendants(p, all, fuel) && id !in Ids(LiveChildren(p, all))
    ensures fuel > 0 && c in all && c.parentId == Some(p) && !c.isDeleted
    ensures id in Descendants(c.id, all, fuel - 1)
  {
    var cs := LiveChildren(p, all);
    assert id in DescendantsOfEach(cs, all, fuel - 1);
    DescendantsOfEachMembers(cs, all, fuel - 1, id);
    c :| c in cs && id in Descendants(c.id, all, fuel - 1);
  }

  /** A live child's id belongs to a listed record one generation below `p`. */
  lemma LiveChildListed(p: string, all: seq<Member>, fuel: nat, id: string) returns (x: Member)
    requires id in Descendants(p, all, fuel) && id in Ids(LiveChildren(p, all))
    ensures x in all && x.id == id && Below(MemberMap(all), x, p, fuel)
  {
    var cs := LiveChildren(p, all);
    var i :| 0 <= i < |cs| && Ids(cs)[i] == id;
    x := cs[i];
    assert x in cs;
  }

  /** One generation more: a record below a live child of `p` is below `p`. */
  lemma LiveChildBelow(p: string, all: seq<Member>, c: Member, x: Member, n: nat)
    requires UniqueIds(all) && c in all && c.parentId == Some(p) && !c.isDeleted
    requires Below(MemberMap(all), x, c.id, n)
    ensures Below(MemberMap(all), x, p, n + 1)
  {
    var j :| 0 <= j < |all| && all[j] == c;
    MemberMapFindsEach(all, j);
    BelowExtend(MemberMap(all), x, c, p, n);
  }

  /** Every listed record hanging below the start is collected. */
  lemma {:induction false} DescendantsComplete(p: string, all: seq<Member>, fuel: nat, x: Member)
    requires x in all && Below(MemberMap(all), x, p, fuel)
    ensures x.id in Descendants(p, all, fuel)
    decreases fuel
  {
    var cs := LiveChildren(p, all);
    var c := BelowTop(all, x, p, fuel);
    assert c in cs;
    var i :| 0 <= i < |cs| && cs[i] == c;
    if c == x {
      assert Ids(cs)[i] == x.id;
    } else {
      DescendantsComplete(c.id, all, fuel - 1, x);
      DescendantsOfEachMembers(cs, all, fuel - 1, x.id);
    }
  }

  /** No table key is the empty string. */
  lemma KeysNonEmpty(all: seq<Member>, k: string)
    requires NonEmptyIds(all) && k in MemberMap(all)
    ensures k != ""
  {
    MemberMapValue(all, k);
  }

  /** A chain of live records below `p` is no longer than the ancestry walk. */
  lemma {:induction false} BelowWithinPath(all: seq<Member>, x: Member, p: string, n: nat, f: nat)
    requires NonEmptyIds(all)
    requires Terminates(MemberMap(all), x, f) && Below(MemberMap(all), x, p, n)
    ensures Below(MemberMap(all), x, p, |Path(MemberMap(all), x, f)|)
    decreases n
  {
    var mm := MemberMap(all);
    if x.parentId.value != p {
      var k := x.parentId.value;
      KeysNonEmpty(all, k);
      assert HasParentIn(mm, x);
      BelowWithinPath(all, mm[k], p, n - 1, f - 1);
    }
  }

  /** A listed record hanging below the id of a listed record meets that id on its
      ancestry walk, after its first entry. */
  lemma {:induction false} BelowOnPath(all: seq<Member>, x: Member, p: string, n: nat, f: nat) returns (j: nat)
    requires NonEmptyIds(all) && p in MemberMap(all)
    requires Terminates(MemberMap(all), x, f) && Below(MemberMap(all), x, p, n)
    ensures 1 <= j < |Path(MemberMap(all), x, f)| && Path(MemberMap(all), x, f)[j] == p
    decreases n
  {
    var mm := MemberMap(all);
    var k := x.parentId.value;
    KeysNonEmpty(all, k);
    if k == p {
      assert HasParentIn(mm, x);
      j := 1;
    } else {
      assert HasParentIn(mm, x);
      var j' := BelowOnPath(all, mm[k], p, n - 1, f - 1);
      j := j' + 1;
    }
  }

  /** On a well-formed tree, `getDescendants(p)` collects exactly the listed records
      that descend from `p` through live records. */
  lemma GetDescendantsExact(p: string, all: seq<Member>, x: Member)
    requires WellFormed(all) && x in all
    ensures x.id in GetDescendants(p, all) <==> DescendsFrom(all, x, p)
  {
    var mm := MemberMap(all);
    if x.id in GetDescendants(p, all) {
      var y := DescendantsSound(p, all, |all|, x.id);
      SameIdSameRecord(all, x, y);
    }
    if DescendsFrom(all, x, p) {
      var n: nat :| Below(mm, x, p, n);
      ListedRecordWalks(all, x);
      BelowWithinPath(all, x, p, n, |all|);
      AncestryPathProperties(all, x);
      BelowMono(mm, x, p, |AncestryPath(all, x)|, |all|);
      DescendantsComplete(p, all, |all|, x);
    }
  }

  /** Every collected id is the id of a listed live record. */
  lemma GetDescendantsListed(p: string, all: seq<Member>, id: string)
    requires UniqueIds(all) && id in GetDescendants(p, all)
    ensures exists x :: x in all && x.id == id && !x.isDeleted && DescendsFrom(all, x, p)
  {
    var x := DescendantsSound(p, all, |all|, id);
    assert Below(MemberMap(all), x, p, |all|);
  }

  /** On a well-formed tree a person is never collected among their own descendants. */
  lemma GetDescendantsExcludesSelf(p: string, all: seq<Member>)
    requires WellFormed(all)
    ensures p !in GetDescendants(p, all)
  {
    if p in GetDescendants(p, all) {
      var x := DescendantsSound(p, all, |all|, p);
      ListedRecordWalks(all, x);
      var j := BelowOnPath(all, x, p, |all|, |all|);
      AncestryPathProperties(all, x);
      assert false;
    }
  }

  /** A deleted record blocks its subtree: its children are not collected from any
      other start. */
  lemma DeletedChildBlocks(p: string, all: seq<Member>, c: Member, x: Member)
    requires WellFormed(all) && c in all && x in all
    requires c.isDeleted && c.id != p && x.parentId == Some(c.id)
    ensures x.id !in GetDescendants(p, all)
  {
    var mm := MemberMap(all);
    ListedRecordWalks(all, c);
    forall n: nat ensures !Below(mm, x, p, n) {
      DeletedParentBlocks(mm, x, c, p, n);
    }
    GetDescendantsExact(p, all, x);
  }

  lemma DeletedParentBlocks(mm: map<string, Member>, x: Member, c: Member, p: string, n: nat)
    requires c.id in mm && mm[c.id] == c && c.isDeleted && c.id != p && x.parentId == Some(c.id)
    ensures !Below(mm, x, p, n)
  {
  }

  function NotDeleted(): Member -> bool
  {
    (m: Member) => !m.isDeleted
  }

  function IsDeleted(): Member -> bool
  {
    (m: Member) => m.isDeleted
  }

  /** `activeMembers`: the records the graph shows. */
  function ActiveMembers(ms: seq<Member>): seq<Member>
  {
    Filter(ms, NotDeleted())
  }

  /** `deletedMembers`: the records in the recycle bin. */
  function DeletedMembers(ms: seq<Member>): seq<Member>
  {
    Filter(ms, IsDeleted())
  }

  /** The two lists split the records between them without loss or overlap. */
  lemma {:induction false} ActiveDeletedPartition(ms: seq<Member>)
    ensures multiset(ActiveMembers(ms)) + multiset(DeletedMembers(ms)) == multiset(ms)
    ensures |ActiveMembers(ms)| + |DeletedMembers(ms)| == |ms|
    ensures forall m :: m in ActiveMembers(ms) <==> m in ms && !m.isDeleted
    ensures forall m :: m in DeletedMembers(ms) <==> m in ms && m.isDeleted
  {
    if ms != [] {
      var init := ms[..|ms| - 1];
      ActiveDeletedPartition(init);
      assert ms == init + [ms[|ms| - 1]];
    }
    assert |multiset(ActiveMembers(ms))| + |multiset(DeletedMembers(ms))| == |multiset(ms)|;
  }

  /** Both lists keep the records in list order: splitting the list splits them. */
  lemma ActiveDeletedKeepOrder(a: seq<Member>, b: seq<Member>)
    ensures ActiveMembers(a + b) == ActiveMembers(a) + ActiveMembers(b)
    ensures DeletedMembers(a + b) == DeletedMembers(a) + DeletedMembers(b)
  {
    FilterConcat(a, b, NotDeleted());
    FilterConcat(a, b, IsDeleted());
  }

  /** `idsToRemove`: the target and every id collected below it. */
  function RemovalIds(target: string, ms: seq<Member>): seq<string>
  {
    [target] + GetDescendants(target, ms)
  }

  function MarkDeleted(ids: seq<string>): Member -> Member
  {
    (m: Member) => if m.id in ids then m.(isDeleted := true) else m
  }

  /** The new member list of `executeDelete`: every record whose id is to be removed
      is flagged deleted, in place. */
  function DeleteCascade(ms: seq<Member>, target: string): seq<Member>
  {
    Apply(ms, MarkDeleted(RemovalIds(target, ms)))
  }

  /** After the cascade a record is deleted exactly when it was already, or is the
      target, or descends from the target through live records; nothing but the
      flag changes. */
  lemma DeleteCascadeMarks(ms: seq<Member>, target: string, i: int)
    requires WellFormed(ms) && 0 <= i < |ms|
    ensures |DeleteCascade(ms, target)| == |ms|
    ensures DeleteCascade(ms, target)[i].isDeleted <==>
      ms[i].isDeleted || ms[i].id == target || DescendsFrom(ms, ms[i], target)
    ensures DeleteCascade(ms, target)[i] == ms[i].(isDeleted := DeleteCascade(ms, target)[i].isDeleted)
  {
    GetDescendantsExact(target, ms, ms[i]);
  }

  /** After the cascade neither the target nor any live descendant of it is active;
      every other active record stays active and unchanged. */
  lemma DeleteCascadeActive(ms: seq<Member>, target: string, m: Member)
    requires WellFormed(ms)
    ensures m in ActiveMembers(DeleteCascade(ms, target)) <==>
      m in ActiveMembers(ms) && m.id != target && !DescendsFrom(ms, m, target)
  {
    var r := DeleteCascade(ms, target);
    if m in ActiveMembers(r) {
      var i :| 0 <= i < |r| && r[i] == m;
      DeleteCascadeMarks(ms, target, i);
      assert ms[i] == m;
    }
    if m in ActiveMembers(ms) && m.id != target && !DescendsFrom(ms, m, target) {
      var i :| 0 <= i < |ms| && ms[i] == m;
      DeleteCascadeMarks(ms, target, i);
      assert r[i] == m;
    }
  }

  function ReplaceWith(id: string, rec: Member): Member -> Member
  {
    (m: Member) => if m.id == id then rec else m
  }

  /** `ms.map(m => m.id === id ? rec : m)`: every record with that id becomes `rec`. */
  function ReplaceById(ms: seq<Member>, id: string, rec: Member): seq<Member>
  {
    Apply(ms, ReplaceWith(id, rec))
  }

  /** Replacing a record under its own id keeps every id, the list order and the
      uniqueness of ids; looking the id up gives the new record, looking any other id
      up gives what it gave before. */
  lemma ReplaceByIdLookup(ms: seq<Member>, rec: Member, other: string)
    requires UniqueIds(ms)
    ensures Ids(ReplaceById(ms, rec.id, rec)) == Ids(ms)
    ensures UniqueIds(ReplaceById(ms, rec.id, rec))
    ensures Find(ReplaceById(ms, rec.id, rec), rec.id) == if Find(ms, rec.id).Some? then Some(rec) else None
    ensures other != rec.id ==> Find(ReplaceById(ms, rec.id, rec), other) == Find(ms, other)
  {
    var r := ReplaceById(ms, rec.id, rec);
    assert Ids(r) == Ids(ms);
    FindReplaced(ms, rec, rec.id);
    FindReplaced(ms, rec, other);
  }

  lemma {:induction false} FindReplaced(ms: seq<Member>, rec: Member, id: string)
    ensures Find(ReplaceById(ms, rec.id, rec), id) ==
      if id == rec.id then (if Find(ms, id).Some? then Some(rec) else None) else Find(ms, id)
    decreases |ms|
  {
    if ms != [] {
      var r := ReplaceById(ms, rec.id, rec);
      assert r[1..] == ReplaceById(ms[1..], rec.id, rec);
      FindReplaced(ms[1..], rec, id);
    }
  }

  /** Saving the same edit twice changes nothing more. */
  lemma ReplaceByIdIdempotent(ms: seq<Member>, rec: Member)
    ensures ReplaceById(ReplaceById(ms, rec.id, rec), rec.id, rec) == ReplaceById(ms, rec.id, rec)
  {
  }

  /** The member list after the edit form is saved: `updated` replaces the record
      with its id. */
  function SaveEdit(ms: seq<Member>, updated: Member): seq<Member>
  {
    ReplaceById(ms, updated.id, updated)
  }

  /** The member list after `handleRestore(id)`: the first record with that id, with
      the deleted flag cleared, replaces every record with that id; an unknown id
      changes nothing. */
  function Restore(ms: seq<Member>, id: string): seq<Member>
  {
    match Find(ms, id)
    case None => ms
    case Some(m) => ReplaceById(ms, id, m.(isDeleted := false))
  }

  /** With unique ids, restoring clears the flag of that one record and touches no
      other record, its descendants included. */
  lemma RestoreOnlyTarget(ms: seq<Member>, id: string)
    requires UniqueIds(ms)
    ensures |Restore(ms, id)| == |ms|
    ensures forall i :: 0 <= i < |ms| ==>
      Restore(ms, id)[i] == if ms[i].id == id then ms[i].(isDeleted := false) else ms[i]
  {
    if Find(ms, id).Some? {
      var m := Find(ms, id).value;
      forall i | 0 <= i < |ms| && ms[i].id == id ensures m == ms[i] {
        SameIdSameRecord(ms, m, ms[i]);
      }
    }
  }

  /** Deleting a live person and restoring them brings back that one record: every
      live descendant stays deleted, every other record is as it was. */
  lemma DeleteThenRestore(ms: seq<Member>, k: int)
    requires WellFormed(ms) && 0 <= k < |ms| && !ms[k].isDeleted
    ensures var r := Restore(DeleteCascade(ms, ms[k].id), ms[k].id);
      && |r| == |ms|
      && forall i :: 0 <= i < |ms| ==>
        r[i] == if DescendsFrom(ms, ms[i], ms[k].id) then ms[i].(isDeleted := true) else ms[i]
  {
    var t := ms[k].id;
    var d := DeleteCascade(ms, t);
    assert Ids(d) == Ids(ms);
    RestoreOnlyTarget(d, t);
    forall i | 0 <= i < |ms|
      ensures Restore(d, t)[i] == if DescendsFrom(ms, ms[i], t) then ms[i].(isDeleted := true) else ms[i]
    {
      DeleteCascadeMarks(ms, t, i);
      if ms[i].id == t {
        SameIdSameRecord(ms, ms[i], ms[k]);
        GetDescendantsExcludesSelf(t, ms);
        GetDescendantsExact(t, ms, ms[i]);
      }
    }
  }

  /** The record `handleAddChildNode` creates: male, undated, not deleted, under
      `parentId`, with the parent's address when the parent is listed. */
  function NewChild(ms: seq<Member>, parentId: string, newId: string): Member
  {
    var address := match Find(ms, parentId) case Some(p) => p.address case None => "";
    Member(newId, "新成员", None, false, address, Male, Some(parentId), None, None, false, false)
  }

  /** The member list after `handleAddChildNode`. */
  function AddChild(ms: seq<Member>, parentId: string, newId: string): seq<Member>
  {
    ms + [NewChild(ms, parentId, newId)]
  }

  /** Adding a child keeps every record and appends exactly one: a live male under
      the parent, carrying the parent's address when the parent is listed and ""
      otherwise. */
  lemma AddChildAppends(ms: seq<Member>, parentId: string, newId: string)
    ensures var r := AddChild(ms, parentId, newId);
      && |r| == |ms| + 1 && r[..|ms|] == ms
      && r[|ms|].id == newId && r[|ms|].parentId == Some(parentId)
      && r[|ms|].gender == Male && !r[|ms|].isDeleted
      && (Find(ms, parentId).Some? ==> r[|ms|].address == Find(ms, parentId).value.address)
      && (Find(ms, parentId).None? ==> r[|ms|].address == "")
  {
  }

  /** The new child joins the parent's live children, after the existing ones, and is
      collected among the parent's descendants. */
  lemma AddChildCollected(ms: seq<Member>, parentId: string, newId: string)
    ensures LiveChildren(parentId, AddChild(ms, parentId, newId)) ==
      LiveChildren(parentId, ms) + [NewChild(ms, parentId, newId)]
    ensures newId in GetDescendants(parentId, AddChild(ms, parentId, newId))
  {
    var c := NewChild(ms, parentId, newId);
    var r := AddChild(ms, parentId, newId);
    FilterConcat(ms, [c], LiveChildOf(parentId));
    assert Filter([c], LiveChildOf(parentId)) == [c] by {
      assert [c][..0] == [];
    }
    assert c in r;
    assert Below(MemberMap(r), c, parentId, 1);
    BelowMono(MemberMap(r), c, parentId, 1, |r|);
    DescendantsComplete(parentId, r, |r|, c);
  }

  /** The ancestor `handleAddParentNode` creates: male, undated, not deleted, with
      the child's address and the child's old parent id. */
  function NewAncestor(child: Member, newId: string): Member
  {
    Member(newId, "先祖讳名", None, false, child.address, Male, child.parentId, None, None, false, false)
  }

  /** The member list after `handleAddParentNode`: nothing when the child is not
      listed; otherwise the child points at the new ancestor, which is appended. */
  function AddParent(ms: seq<Member>, childId: string, newId: string): seq<Member>
  {
    match Find(ms, childId)
    case None => ms
    case Some(child) =>
      ReplaceById(ms, childId, child.(parentId := Some(newId))) + [NewAncestor(child, newId)]
  }

  /** The ancestor slots in between the child and its old parent: the child now
      points at the ancestor, the ancestor at the child's old parent, and every other
      record stays as it was. */
  lemma AddParentRewires(ms: seq<Member>, childId: string, newId: string)
    requires UniqueIds(ms) && Find(ms, childId).Some?
    ensures var child := Find(ms, childId).value;
      var r := AddParent(ms, childId, newId);
      && |r| == |ms| + 1
      && r[|ms|].id == newId && r[|ms|].parentId == child.parentId
      && Find(r, childId) == Some(child.(parentId := Some(newId)))
      && forall i :: 0 <= i < |ms| && ms[i].id != childId ==> r[i] == ms[i]
  {
    var child := Find(ms, childId).value;
    var upd := child.(parentId := Some(newId));
    ReplaceByIdLookup(ms, upd, childId);
    FindConcat(ReplaceById(ms, childId, upd), [NewAncestor(child, newId)], childId);
  }

  lemma {:induction false} FindConcat(a: seq<Member>, b: seq<Member>, id: string)
    requires Find(a, id).Some?
    ensures Find(a + b, id) == Find(a, id)
    decreases |a|
  {
    if a[0].id != id {
      assert (a + b)[1..] == a[1..] + b;
      FindConcat(a[1..], b, id);
    }
  }
}
