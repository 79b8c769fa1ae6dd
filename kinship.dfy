/** The kinship engine: sibling rank and the relationship label of one person
    (the target) seen from another (the center), by tracing both ancestry paths
    to their lowest common ancestor. */
module Kinship {
  import opened FamilyTypes
  import opened Ancestry
  import opened BirthOrder
  import opened KinTerms

  /** Same parent id (compared strictly, so null matches null) and same gender. */
  predicate SameFamily(person: Member, m: Member)
  {
    m.parentId == person.parentId && m.gender == person.gender
  }

  /** The records with the given parent id and gender, in list order. */
  function SiblingGroup(parentId: Option<string>, gender: Gender, all: seq<Member>): (r: seq<Member>)
    ensures forall m :: m in r <==> m in all && m.parentId == parentId && m.gender == gender
  {
    Filter(all, (m: Member) => m.parentId == parentId && m.gender == gender)
  }

  /** `allMembers.filter(...)` in `getSiblingRank`: the person's same-gender
      siblings, the person included, in list order. */
  function Siblings(person: Member, all: seq<Member>): (r: seq<Member>)
    ensures forall m :: m in r <==> m in all && SameFamily(person, m)
  {
    SiblingGroup(person.parentId, person.gender, all)
  }

  /** `findIndex(m => m.id === id)`: the first position holding the id, or -1. */
  function IndexOfId(s: seq<Member>, id: string): (r: int)
    ensures -1 <= r < |s|
    ensures r >= 0 ==> s[r].id == id && forall k :: 0 <= k < r ==> s[k].id != id
    ensures r == -1 <==> forall k :: 0 <= k < |s| ==> s[k].id != id
  {
    if s == [] then -1
    else if s[0].id == id then 0
    else
      var t := IndexOfId(s[1..], id);
      if t == -1 then -1 else t + 1
  }

  /** `getSiblingRank`: 1 without a (truthy) parent id, otherwise the 1-based
      position of the person among the same-gender siblings sorted by birth;
      0 when the person is not in the list. */
  function SiblingRank(person: Member, all: seq<Member>): nat
  {
    if !Truthy(person.parentId) then 1
    else IndexOfId(SortByBirth(Siblings(person, all)), person.id) + 1
  }

  /** `getSiblingRank` with its sort done in place on an array. */
  method GetSiblingRank(person: Member, all: seq<Member>) returns (rank: nat)
    ensures rank == SiblingRank(person, all)
  {
    if !Truthy(person.parentId) {
      return 1;
    }
    var siblings := Siblings(person, all);
    var a := new Member[|siblings|](k requires 0 <= k < |siblings| => siblings[k]);
    assert a[..] == siblings;
    SortInPlace(a);
    var i := FindIndex(a[..], person.id);
    rank := i + 1;
  }

  /** `findIndex` as a linear search. */
  method FindIndex(s: seq<Member>, id: string) returns (i: int)
    ensures i == IndexOfId(s, id)
  {
    i := 0;
    while i < |s| && s[i].id != id
      invariant 0 <= i <= |s|
      invariant forall k :: 0 <= k < i ==> s[k].id != id
    {
      i := i + 1;
    }
    if i == |s| {
      i := -1;
    }
    IndexOfIdIs(s, id, i);
  }

  /** The first position holding the id (or -1 when none does) is what `IndexOfId` finds. */
  lemma IndexOfIdIs(s: seq<Member>, id: string, i: int)
    requires -1 <= i < |s|
    requires forall k :: 0 <= k < (if i == -1 then |s| else i) ==> s[k].id != id
    requires i >= 0 ==> s[i].id == id
    ensures IndexOfId(s, id) == i
  {
  }

  /** A listed person has a rank between 1 and the number of same-gender siblings. */
  lemma SiblingRankBounds(person: Member, all: seq<Member>)
    requires person in all
    ensures 1 <= SiblingRank(person, all) <= |Siblings(person, all)|
  {
    var sibs := Siblings(person, all);
    assert person in sibs;
    SortByBirthPermutes(sibs);
    assert person in multiset(SortByBirth(sibs));
  }

  /** The first-born of the siblings (every other sibling born strictly later)
      ranks 1. */
  lemma SiblingRankEldest(person: Member, all: seq<Member>)
    requires person in all && person.birthDate.Some?
    requires forall s :: s in Siblings(person, all) && s != person ==> Before(person.birthDate, s.birthDate)
    ensures SiblingRank(person, all) == 1
  {
    var sibs := Siblings(person, all);
    if Truthy(person.parentId) {
      var r := SortByBirth(sibs);
      assert AllDated(sibs) by {
        forall i | 0 <= i < |sibs| ensures sibs[i].birthDate.Some? {
          assert sibs[i] in sibs;
        }
      }
      SortByBirthAscending(sibs);
      SortByBirthPermutes(sibs);
      assert person in multiset(r);
      var k :| 0 <= k < |r| && r[k] == person;
      assert r[0] in multiset(sibs);
      assert r[0] == person;
    }
  }

  /** The position `IndexOfId` finds in the sorted siblings holds the person. */
  lemma RankPosition(person: Member, all: seq<Member>) returns (i: int)
    requires UniqueIds(all) && person in all && Truthy(person.parentId)
    ensures 0 <= i < |SortByBirth(Siblings(person, all))|
    ensures i == SiblingRank(person, all) - 1
    ensures SortByBirth(Siblings(person, all))[i] == person
  {
    var sibs := Siblings(person, all);
    var r := SortByBirth(sibs);
    SiblingRankBounds(person, all);
    i := IndexOfId(r, person.id);
    SortByBirthPermutes(sibs);
    assert r[i] in multiset(sibs);
    SameIdSameRecord(all, r[i], person);
  }

  /** Among siblings of the same gender whose dates are all valid and pairwise
      different, a smaller rank means born earlier, and different people get
      different ranks. */
  lemma SiblingRankOrder(a: Member, b: Member, all: seq<Member>)
    requires UniqueIds(all) && a in all && b in all
    requires Truthy(a.parentId) && SameFamily(a, b)
    requires AllDated(Siblings(a, all))
    requires forall x, y :: x in Siblings(a, all) && y in Siblings(a, all) && x != y ==> x.birthDate != y.birthDate
    ensures SiblingRank(a, all) < SiblingRank(b, all) <==> Before(a.birthDate, b.birthDate)
    ensures a != b ==> SiblingRank(a, all) != SiblingRank(b, all)
  {
    var sibs := Siblings(a, all);
    assert Siblings(b, all) == sibs;
    var ia := RankPosition(a, all);
    var ib := RankPosition(b, all);
    if a != b {
      RankInjective(a, b, all);
      assert a in sibs && b in sibs;
      SortByBirthAscending(sibs);
      AscendingStrict(SortByBirth(sibs), ia, ib);
    }
  }

  /** Whatever the dates (missing and equal ones included), two different
      same-gender siblings never share a rank: the sorted list holds each of them
      at its own position. */
  lemma RankInjective(a: Member, b: Member, all: seq<Member>)
    requires UniqueIds(all) && a in all && b in all
    requires Truthy(a.parentId) && SameFamily(a, b) && a != b
    ensures SiblingRank(a, all) != SiblingRank(b, all)
  {
    assert Siblings(b, all) == Siblings(a, all);
    var ia := RankPosition(a, all);
    var ib := RankPosition(b, all);
  }

  /** In an ascending list of valid dates, two entries with different dates are
      in date order exactly when they are in position order. */
  lemma AscendingStrict(r: seq<Member>, i: int, j: int)
    requires AllDated(r) && Ascending(r)
    requires 0 <= i < |r| && 0 <= j < |r| && r[i].birthDate != r[j].birthDate
    ensures i < j <==> Before(r[i].birthDate, r[j].birthDate)
  {
  }

  /** The loop over `centerPath` with `break`: the first id of `cp` that also
      lies on `tp`. */
  function FirstCommon(cp: seq<string>, tp: seq<string>): (r: Option<string>)
    ensures r.None? <==> forall j :: 0 <= j < |cp| ==> cp[j] !in tp
    ensures r.Some? ==> r.value in cp && r.value in tp
  {
    if cp == [] then None
    else if cp[0] in tp then Some(cp[0])
    else FirstCommon(cp[1..], tp)
  }

  /** `indexOf`: the first position of `x` in `p`. */
  function IndexOf(p: seq<string>, x: string): (r: nat)
    requires x in p
    ensures r < |p| && p[r] == x
    ensures forall j :: 0 <= j < r ==> p[j] != x
  {
    if p[0] == x then 0 else 1 + IndexOf(p[1..], x)
  }

  /** The first common id sits at the smallest position of `cp` whose id lies on `tp`. */
  lemma {:induction false} FirstCommonAt(cp: seq<string>, tp: seq<string>, u: nat)
    requires u < |cp| && cp[u] in tp
    requires forall j :: 0 <= j < u ==> cp[j] !in tp
    ensures FirstCommon(cp, tp) == Some(cp[u])
  {
    if u > 0 {
      FirstCommonAt(cp[1..], tp, u - 1);
    }
  }

  /** Generations from the center up to the lowest common ancestor (`up`) and from
      the target up to it (`down`), or None when the paths share no truthy id. */
  function Generations(target: Member, center: Member, all: seq<Member>): (g: Option<(nat, nat)>)
    ensures g.Some? ==>
      && g.value.0 < |AncestryPath(all, center)|
      && g.value.1 < |AncestryPath(all, target)|
      && AncestryPath(all, center)[g.value.0] == AncestryPath(all, target)[g.value.1]
      && (forall j :: 0 <= j < g.value.0 ==> AncestryPath(all, center)[j] !in AncestryPath(all, target))
    ensures g.None? <==> !Truthy(FirstCommon(AncestryPath(all, center), AncestryPath(all, target)))
  {
    var cp := AncestryPath(all, center);
    var tp := AncestryPath(all, target);
    var lca := FirstCommon(cp, tp);
    if !Truthy(lca) then None
    else
      var up := IndexOf(cp, lca.value);
      LcaIsFirst(cp, tp);
      Some((up, IndexOf(tp, lca.value)))
  }

  /** No position of `cp` before the first common id holds an id of `tp`. */
  lemma {:induction false} LcaIsFirst(cp: seq<string>, tp: seq<string>)
    requires FirstCommon(cp, tp).Some?
    ensures forall j :: 0 <= j < IndexOf(cp, FirstCommon(cp, tp).value) ==> cp[j] !in tp
  {
    if cp[0] !in tp {
      LcaIsFirst(cp[1..], tp);
      var x := FirstCommon(cp, tp).value;
      assert IndexOf(cp, x) == 1 + IndexOf(cp[1..], x);
      forall j | 0 <= j < IndexOf(cp, x) ensures cp[j] !in tp {
        if j > 0 {
          assert cp[j] == cp[1..][j - 1];
        }
      }
    }
  }

  /** `memberMap.get(center.parentId!)`. */
  function FatherOf(all: seq<Member>, center: Member): (f: Option<Member>)
    ensures f.Some? ==> f.value in all && center.parentId == Some(f.value.id)
  {
    var mm := MemberMap(all);
    if center.parentId.Some? && center.parentId.value in mm then
      MemberMapValue(all, center.parentId.value);
      Some(mm[center.parentId.value])
    else None
  }

  /** `calculateRelationshipLabel`: "本尊" for the person themself, None when the
      two ancestry paths share no truthy id, otherwise the kinship term for the
      pair of generation distances. */
  function RelationshipLabel(target: Member, center: Member, all: seq<Member>): (r: Option<string>)
    ensures target.id == center.id ==> r == Some(SelfTerm)
    ensures target.id != center.id ==> (r.None? <==> Generations(target, center, all).None?)
  {
    if target.id == center.id then Some(SelfTerm)
    else match Generations(target, center, all)
      case None => None
      case Some((up, down)) =>
        Some(KinTerm(up, down, target, center, FatherOf(all, center), SiblingRank(target, all)))
  }

  /** The source's procedure step by step: both ancestry paths, the search for the
      first center-path id on the target path, and the classification. The sibling
      rank is computed only for the three shapes that print it. The source hangs on a
      parent cycle; the precondition says both walks end. */
  method CalculateRelationshipLabel(target: Member, center: Member, all: seq<Member>) returns (kin: Option<string>)
    requires Terminates(MemberMap(all), center, |all|) && Terminates(MemberMap(all), target, |all|)
    ensures kin == RelationshipLabel(target, center, all)
  {
    if target.id == center.id {
      return Some(SelfTerm);
    }
    var centerPath := GetAncestryPath(all, center);
    var targetPath := GetAncestryPath(all, target);
    var lcaId: Option<string> := None;
    for i := 0 to |centerPath|
      invariant lcaId == None
      invariant FirstCommon(centerPath, targetPath) == FirstCommon(centerPath[i..], targetPath)
    {
      assert centerPath[i..][1..] == centerPath[i + 1..];
      if centerPath[i] in targetPath {
        lcaId := Some(centerPath[i]);
        break;
      }
    }
    assert lcaId == FirstCommon(centerPath, targetPath);
    if !Truthy(lcaId) {
      return None;
    }
    var up := IndexOf(centerPath, lcaId.value);
    var down := IndexOf(targetPath, lcaId.value);
    var rank := 0;
    if (up == 0 && down == 1) || (up == 1 && down == 1) || (up == 2 && down == 1) {
      rank := GetSiblingRank(target, all);
    }
    kin := Some(KinTerm(up, down, target, center, FatherOf(all, center), rank));
    assert KinTerm(up, down, target, center, FatherOf(all, center), rank)
        == KinTerm(up, down, target, center, FatherOf(all, center), SiblingRank(target, all));
  }

  /** The ancestry path from the k-th entry of a listed person's path is the rest
      of that path. */
  lemma AncestorPathIsSuffix(all: seq<Member>, m: Member, k: nat)
    requires Terminates(MemberMap(all), m, |all|) && 1 <= k < |AncestryPath(all, m)|
    ensures AncestryPath(all, m)[k] in MemberMap(all)
    ensures MemberMap(all)[AncestryPath(all, m)[k]] in all
    ensures AncestryPath(all, MemberMap(all)[AncestryPath(all, m)[k]]) == AncestryPath(all, m)[k..]
  {
    var mm := MemberMap(all);
    var p := AncestryPath(all, m);
    PathSuffix(mm, m, |all|, k);
    var q := mm[p[k]];
    MemberMapValue(all, p[k]);
    assert p[k..] == Path(mm, q, |all| - k);
    FuelIndependent(mm, q, |all| - k, |all|);
  }

  /** On a well-formed tree, two listed people always share an ancestry id exactly
      when their paths meet; then `up` and `down` point at the same id, and no
      lower ancestor of the center lies on the target's path. */
  lemma LabelDefinedIffPathsMeet(target: Member, center: Member, all: seq<Member>)
    requires WellFormed(all) && target in all && center in all && target.id != center.id
    ensures RelationshipLabel(target, center, all).Some? <==>
      exists j :: 0 <= j < |AncestryPath(all, center)| && AncestryPath(all, center)[j] in AncestryPath(all, target)
  {
    var cp := AncestryPath(all, center);
    var tp := AncestryPath(all, target);
    var lca := FirstCommon(cp, tp);
    if lca.Some? {
      AncestryPathProperties(all, center);
      var u := IndexOf(cp, lca.value);
      if u > 0 {
        assert LinksAt(MemberMap(all), cp, u - 1);
      } else {
        assert cp[0] == center.id;
      }
    }
  }

  /** The target is the center's ancestor u generations up: the label is the
      ancestor term for u (父亲, 祖父, 曾祖, 高祖, "u世祖"). */
  lemma DirectAncestorLabel(target: Member, center: Member, all: seq<Member>, u: nat)
    requires WellFormed(all) && target in all && center in all
    requires 1 <= u < |AncestryPath(all, center)| && AncestryPath(all, center)[u] == target.id
    ensures RelationshipLabel(target, center, all) == Some(AncestorTerm(u))
  {
    var cp := AncestryPath(all, center);
    AncestryPathProperties(all, center);
    ListedRecordWalks(all, center);
    AncestorPathIsSuffix(all, center, u);
    ListedRecordWalks(all, target);
    var tp := AncestryPath(all, target);
    assert tp == cp[u..];
    assert target.id != center.id;
    FirstCommonAt(cp, tp, u);
    assert IndexOf(tp, target.id) == 0;
  }

  /** The target is the center's descendant d generations down: the label is the
      descendant term for d (child by rank, 孙子/孙女, "d世孙"). */
  lemma DirectDescendantLabel(target: Member, center: Member, all: seq<Member>, d: nat)
    requires WellFormed(all) && target in all && center in all
    requires 1 <= d < |AncestryPath(all, target)| && AncestryPath(all, target)[d] == center.id
    ensures RelationshipLabel(target, center, all) == Some(DescendantTerm(d, target, SiblingRank(target, all)))
  {
    var tp := AncestryPath(all, target);
    AncestryPathProperties(all, target);
    ListedRecordWalks(all, target);
    AncestorPathIsSuffix(all, target, d);
    ListedRecordWalks(all, center);
    var cp := AncestryPath(all, center);
    assert cp == tp[d..];
    assert target.id != center.id;
    FirstCommonAt(cp, tp, 0);
    assert IndexOf(tp, center.id) == d;
  }

  /** Two different people with the same known parent are siblings (up = down = 1):
      rank word plus elder/younger brother or sister. */
  lemma SiblingLabel(target: Member, center: Member, all: seq<Member>)
    requires WellFormed(all) && target in all && center in all && target.id != center.id
    requires HasParentIn(MemberMap(all), center) && target.parentId == center.parentId
    ensures RelationshipLabel(target, center, all) ==
      Some(ToChineseNum(SiblingRank(target, all)) + AgeSuffix(target, center))
  {
    var cp := AncestryPath(all, center);
    var tp := AncestryPath(all, target);
    AncestryPathProperties(all, center);
    AncestryPathProperties(all, target);
    assert LinksAt(MemberMap(all), cp, 0) && LinksAt(MemberMap(all), tp, 0);
    ListedRecordWalks(all, center);
    ListedRecordWalks(all, target);
    AncestorPathIsSuffix(all, center, 1);
    AncestorPathIsSuffix(all, target, 1);
    assert cp[1..] == tp[1..];
    assert cp[0] !in tp;
    FirstCommonAt(cp, tp, 1);
    assert IndexOf(tp, cp[1]) == 1;
  }

  /** One step up: a listed person with a parent in the table walks to that
      parent, which is listed too, and goes on along the parent's own path. */
  lemma PathStep(all: seq<Member>, m: Member)
    requires WellFormed(all) && m in all && HasParentIn(MemberMap(all), m)
    ensures ParentIn(MemberMap(all), m) in all
    ensures AncestryPath(all, m) == [m.id] + AncestryPath(all, ParentIn(MemberMap(all), m))
  {
    var p := AncestryPath(all, m);
    AncestryPathProperties(all, m);
    ListedRecordWalks(all, m);
    assert |p| >= 2;
    assert LinksAt(MemberMap(all), p, 0);
    AncestorPathIsSuffix(all, m, 1);
    assert p == [p[0]] + p[1..];
  }

  /** The father `FatherOf` finds is listed, and the center's walk goes on from him. */
  lemma FatherStep(all: seq<Member>, center: Member, f: Member)
    requires WellFormed(all) && center in all && FatherOf(all, center) == Some(f)
    ensures f in all && HasParentIn(MemberMap(all), center) && ParentIn(MemberMap(all), center) == f
    ensures AncestryPath(all, center) == [center.id] + AncestryPath(all, f)
  {
    PathStep(all, center);
  }

  /** Two paths that run apart below and then share the same upper part `g`
      (and whose lower parts share no id) meet first at `g[0]`: `up` and `down`
      are the lengths of the two lower parts. */
  lemma JoinAt(cs: seq<string>, ts: seq<string>, g: seq<string>)
    requires |g| >= 1 && Distinct(cs + g) && Distinct(ts + g)
    requires forall x :: x in cs ==> x !in ts
    ensures FirstCommon(cs + g, ts + g) == Some(g[0])
    ensures IndexOf(cs + g, g[0]) == |cs| && IndexOf(ts + g, g[0]) == |ts|
  {
    var cp, tp := cs + g, ts + g;
    forall j | 0 <= j < |cs| ensures cp[j] !in tp {
      assert cp[j] == cs[j] && cs[j] in cs;
      forall k | 0 <= k < |g| ensures g[k] != cs[j] {
        assert cp[|cs| + k] == g[k];
      }
    }
    assert cp[|cs|] == g[0] && g[0] in tp by { assert tp[|ts|] == g[0]; }
    FirstCommonAt(cp, tp, |cs|);
    assert tp[|ts|] == g[0];
  }

  /** The relationship label when the two paths meet at the listed record `a`,
      after `|cs|` steps from the center and `|ts|` from the target. */
  lemma LabelAtJoin(target: Member, center: Member, all: seq<Member>, cs: seq<string>, ts: seq<string>, a: Member)
    requires WellFormed(all) && target in all && center in all && a in all && target.id != center.id
    requires AncestryPath(all, center) == cs + AncestryPath(all, a)
    requires AncestryPath(all, target) == ts + AncestryPath(all, a)
    requires forall x :: x in cs ==> x !in ts
    ensures RelationshipLabel(target, center, all) ==
      Some(KinTerm(|cs|, |ts|, target, center, FatherOf(all, center), SiblingRank(target, all)))
  {
    AncestryPathProperties(all, center);
    AncestryPathProperties(all, target);
    AncestryPathProperties(all, a);
    JoinAt(cs, ts, AncestryPath(all, a));
  }

  /** Seen from the center, a different child of the center's grandparent than
      the center's father (up = 2, down = 1) is named by rank word plus 伯 (male,
      born before the father), 叔 (other males) or 姑. */
  lemma UncleLabel(target: Member, center: Member, all: seq<Member>, f: Member)
    requires WellFormed(all) && target in all && center in all
    requires FatherOf(all, center) == Some(f) && HasParentIn(MemberMap(all), f)
    requires target.parentId == f.parentId && target.id != f.id
    ensures RelationshipLabel(target, center, all) ==
      Some(ToChineseNum(SiblingRank(target, all)) +
        (if target.gender == Male then (if Before(target.birthDate, f.birthDate) then "伯" else "叔") else "姑"))
  {
    var mm := MemberMap(all);
    FatherStep(all, center, f);
    PathStep(all, f);
    PathStep(all, target);
    var g := ParentIn(mm, f);
    assert ParentIn(mm, target) == g;
    if target.id == center.id {
      SameIdSameRecord(all, target, center);
      assert false;
    }
    assert AncestryPath(all, center) == [center.id, f.id] + AncestryPath(all, g);
    LabelAtJoin(target, center, all, [center.id, f.id], [target.id], g);
  }

  /** Seen from the center, a child of a different sibling of the center
      (up = 1, down = 2) is 侄子 (male) or 侄女. */
  lemma NephewLabel(target: Member, center: Member, all: seq<Member>, p: Member)
    requires WellFormed(all) && target in all && center in all
    requires FatherOf(all, target) == Some(p) && HasParentIn(MemberMap(all), center)
    requires p.parentId == center.parentId && p.id != center.id
    ensures RelationshipLabel(target, center, all) == Some(if target.gender == Male then "侄子" else "侄女")
  {
    var mm := MemberMap(all);
    FatherStep(all, target, p);
    PathStep(all, p);
    PathStep(all, center);
    var g := ParentIn(mm, center);
    assert ParentIn(mm, p) == g;
    if target.id == center.id {
      SameIdSameRecord(all, target, center);
      assert false;
    }
    assert AncestryPath(all, target) == [target.id, p.id] + AncestryPath(all, g);
    LabelAtJoin(target, center, all, [center.id], [target.id, p.id], g);
  }

  /** Seen from the center, a child of a different sibling of the center's father
      (up = 2, down = 2) is a paternal cousin: 堂 plus elder/younger brother or
      sister. */
  lemma CousinLabel(target: Member, center: Member, all: seq<Member>, f: Member, q: Member)
    requires WellFormed(all) && target in all && center in all
    requires FatherOf(all, center) == Some(f) && FatherOf(all, target) == Some(q)
    requires HasParentIn(MemberMap(all), f) && q.parentId == f.parentId && q.id != f.id
    ensures RelationshipLabel(target, center, all) == Some("堂" + AgeSuffix(target, center))
  {
    var mm := MemberMap(all);
    FatherStep(all, center, f);
    FatherStep(all, target, q);
    PathStep(all, f);
    PathStep(all, q);
    var g := ParentIn(mm, f);
    assert ParentIn(mm, q) == g;
    var cp, tp := AncestryPath(all, center), AncestryPath(all, target);
    assert cp == [center.id, f.id] + AncestryPath(all, g);
    assert tp == [target.id, q.id] + AncestryPath(all, g);
    if target.id == center.id {
      SameIdSameRecord(all, target, center);
    }
    if q.id == center.id {
      SameIdSameRecord(all, q, center);
      assert false;
    }
    if f.id == target.id {
      SameIdSameRecord(all, f, target);
      assert false;
    }
    LabelAtJoin(target, center, all, [center.id, f.id], [target.id, q.id], g);
  }

  /** A male person born in the given year with the given parent id. */
  function Person(id: string, year: int, parent: Option<string>): (m: Member)
    ensures m.id == id && m.birthDate == Some(year) && m.parentId == parent && m.gender == Male
  {
    Member(id, id, Some(year), false, "", Male, parent, None, None, false, false)
  }

  /** Ids for the worked example: five different non-empty strings. */
  predicate ExampleIds(ids: seq<string>)
  {
    |ids| == 5 && Distinct(ids) && forall i :: 0 <= i < 5 ==> ids[i] != ""
  }

  /** The family used as a worked example: a root born 1900, two sons (1930 and
      1932), a grandson by the first son (1960) and a great-grandson (1990), all
      male, under any choice of five different ids. */
  function ExampleFamily(ids: seq<string>): (f: seq<Member>)
    requires ExampleIds(ids)
    ensures |f| == 5 && forall i :: 0 <= i < 5 ==> f[i].id == ids[i]
  {
    [Person(ids[0], 1900, None), Person(ids[1], 1930, Some(ids[0])), Person(ids[2], 1932, Some(ids[0])),
     Person(ids[3], 1960, Some(ids[1])), Person(ids[4], 1990, Some(ids[3]))]
  }

  lemma ExampleUnique(ids: seq<string>, f: seq<Member>)
    requires ExampleIds(ids) && f == ExampleFamily(ids)
    ensures UniqueIds(f) && NonEmptyIds(f)
  {
  }

  /** Each record of the example family sits in the table under its own id. */
  lemma ExampleStored(ids: seq<string>, f: seq<Member>, i: int)
    requires ExampleIds(ids) && f == ExampleFamily(ids) && UniqueIds(f) && 0 <= i < 5
    ensures ids[i] in MemberMap(f) && MemberMap(f)[ids[i]] == f[i]
  {
    MemberMapFindsEach(f, i);
  }

  /** The example family is a well-formed tree. */
  lemma ExampleWellFormed(ids: seq<string>, f: seq<Member>)
    requires ExampleIds(ids) && f == ExampleFamily(ids)
    ensures WellFormed(f)
  {
    ExampleUnique(ids, f);
    var mm := MemberMap(f);
    ExampleStored(ids, f, 0);
    ExampleStored(ids, f, 1);
    ExampleStored(ids, f, 3);
    ExampleWalks(mm, f[0], f[1], f[3], f[4]);
    ExampleWalkOne(mm, f[2], f[0]);
    forall m | m in f ensures Terminates(mm, m, |f|) {
      var i :| 0 <= i < |f| && f[i] == m;
      FuelIndependent(mm, m, i, |f|);
    }
  }

  lemma ExampleWalkOne(mm: map<string, Member>, b: Member, a: Member)
    requires a.parentId.None? && b.parentId == Some(a.id) && a.id in mm && mm[a.id] == a
    ensures Terminates(mm, b, 1)
  {
    assert Terminates(mm, a, 0);
  }

  /** A chain of four records, each the parent of the next, ends within as many steps. */
  lemma ExampleWalks(mm: map<string, Member>, a: Member, b: Member, c: Member, d: Member)
    requires a.parentId.None?
    requires b.parentId == Some(a.id) && a.id in mm && mm[a.id] == a
    requires c.parentId == Some(b.id) && b.id in mm && mm[b.id] == b
    requires d.parentId == Some(c.id) && c.id in mm && mm[c.id] == c
    ensures Terminates(mm, a, 0) && Terminates(mm, b, 1) && Terminates(mm, c, 2) && Terminates(mm, d, 3)
  {
    assert Terminates(mm, a, 0);
    assert Terminates(mm, b, 1);
    assert Terminates(mm, c, 2);
  }

  /** The ancestry paths of the example family. */
  lemma ExamplePaths(ids: seq<string>, f: seq<Member>)
    requires ExampleIds(ids) && f == ExampleFamily(ids)
    ensures AncestryPath(f, f[1]) == [ids[1], ids[0]]
    ensures AncestryPath(f, f[3]) == [ids[3], ids[1], ids[0]]
    ensures AncestryPath(f, f[4]) == [ids[4], ids[3], ids[1], ids[0]]
  {
    ExampleUnique(ids, f);
    ExampleStored(ids, f, 0);
    ExampleStored(ids, f, 1);
    ExampleStored(ids, f, 3);
    var mm := MemberMap(f);
    assert Path(mm, f[0], 2) == [ids[0]];
    assert Path(mm, f[1], 3) == [ids[1], ids[0]];
    assert Path(mm, f[3], 4) == [ids[3], ids[1], ids[0]];
    assert Path(mm, f[4], 5) == [ids[4], ids[3], ids[1], ids[0]];
    FuelIndependent(mm, f[1], 3, 5);
    FuelIndependent(mm, f[3], 4, 5);
  }

  /** Seen from a son, a grandson and a great-grandson, the root of the example
      family is father, grandfather and great-grandfather. */
  lemma ExampleAncestorLabels(ids: seq<string>, f: seq<Member>)
    requires ExampleIds(ids) && f == ExampleFamily(ids)
    ensures RelationshipLabel(f[0], f[1], f) == Some("父亲")
    ensures RelationshipLabel(f[0], f[3], f) == Some("祖父")
    ensures RelationshipLabel(f[0], f[4], f) == Some("曾祖")
  {
    ExampleWellFormed(ids, f);
    ExamplePaths(ids, f);
    DirectAncestorLabel(f[0], f[1], f, 1);
    DirectAncestorLabel(f[0], f[3], f, 2);
    DirectAncestorLabel(f[0], f[4], f, 3);
  }

  /** Seen from the root of the example family, the first son is the eldest son
      and the grandson is a grandson. */
  lemma ExampleDescendantLabels(ids: seq<string>, f: seq<Member>)
    requires ExampleIds(ids) && f == ExampleFamily(ids)
    ensures RelationshipLabel(f[1], f[0], f) == Some("长子")
    ensures RelationshipLabel(f[3], f[0], f) == Some("孙子")
  {
    ExampleWellFormed(ids, f);
    ExamplePaths(ids, f);
    ExampleEldestSon(ids, f);
    EldestSonLabel(f[1], f[0], f);
    DirectDescendantLabel(f[3], f[0], f, 2);
  }

  /** A father sees his first-ranked son as the eldest son. */
  lemma EldestSonLabel(target: Member, center: Member, all: seq<Member>)
    requires WellFormed(all) && target in all && center in all
    requires 1 < |AncestryPath(all, target)| && AncestryPath(all, target)[1] == center.id
    requires SiblingRank(target, all) == 1 && target.gender == Male
    ensures RelationshipLabel(target, center, all) == Some("长子")
  {
    DirectDescendantLabel(target, center, all, 1);
    assert DescendantTerm(1, target, 1) == "长" + "子" == "长子";
  }

  /** Seen from the second son, the first son is the eldest elder brother. */
  lemma ExampleSiblingLabel(ids: seq<string>, f: seq<Member>)
    requires ExampleIds(ids) && f == ExampleFamily(ids)
    ensures RelationshipLabel(f[1], f[2], f) == Some("大兄")
  {
    ExampleWellFormed(ids, f);
    ExampleEldestSon(ids, f);
    ExampleStored(ids, f, 0);
    ElderBrotherLabel(f[1], f[2], f);
  }

  /** Two sons of one known father: the first-ranked, born earlier, is the eldest
      elder brother of the other. */
  lemma ElderBrotherLabel(target: Member, center: Member, all: seq<Member>)
    requires WellFormed(all) && target in all && center in all && target.id != center.id
    requires HasParentIn(MemberMap(all), center) && target.parentId == center.parentId
    requires SiblingRank(target, all) == 1 && target.gender == Male
    requires Before(target.birthDate, center.birthDate)
    ensures RelationshipLabel(target, center, all) == Some("大兄")
  {
    SiblingLabel(target, center, all);
    assert AgeSuffix(target, center) == "兄";
    assert ToChineseNum(1) + "兄" == "大兄";
  }

  /** In the example family the first son ranks first among the sons of the root. */
  lemma ExampleEldestSon(ids: seq<string>, f: seq<Member>)
    requires ExampleIds(ids) && f == ExampleFamily(ids)
    ensures SiblingRank(f[1], f) == 1
  {
    forall s | s in Siblings(f[1], f) && s != f[1] ensures Before(f[1].birthDate, s.birthDate) {
      assert s == f[2];
    }
    assert f[1] in f;
    SiblingRankEldest(f[1], f);
  }
}
