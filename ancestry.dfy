/** The ancestry path resolver: from one person up the `parentId` chain,
    as `getAncestryPath` inside `calculateRelationshipLabel` walks it. */
module Ancestry {
  import opened FamilyTypes

  /** The walk goes on from `m`: its parent id is truthy and names a record in the table. */
  predicate HasParentIn(mm: map<string, Member>, m: Member)
  {
    Truthy(m.parentId) && m.parentId.value in mm
  }

  function ParentIn(mm: map<string, Member>, m: Member): Member
    requires HasParentIn(mm, m)
  {
    mm[m.parentId.value]
  }

  /** The ids visited by the walk from `m`, taking at most `fuel` parent steps.
      The source has no bound; with acyclic data the bound is never reached
      (see `Terminates` and `FuelIndependent`). */
  function Path(mm: map<string, Member>, m: Member, fuel: nat): (p: seq<string>)
    ensures 1 <= |p| <= fuel + 1
    ensures p[0] == m.id
    decreases fuel
  {
    if fuel > 0 && HasParentIn(mm, m) then [m.id] + Path(mm, ParentIn(mm, m), fuel - 1)
    else [m.id]
  }

  /** The walk from `m` stops by itself (null, "" or unknown parent) within `fuel` steps. */
  predicate Terminates(mm: map<string, Member>, m: Member, fuel: nat)
    decreases fuel
  {
    !HasParentIn(mm, m) || (fuel > 0 && Terminates(mm, ParentIn(mm, m), fuel - 1))
  }

  /** The path the source computes for `m` against the record list `all`,
      with the number of records as the step bound. */
  function AncestryPath(all: seq<Member>, m: Member): seq<string>
  {
    Path(MemberMap(all), m, |all|)
  }

  /** Every record's chain of parents ends within |all| steps, i.e. never comes
      back to a record already visited. */
  predicate Acyclic(all: seq<Member>)
  {
    forall m :: m in all ==> Terminates(MemberMap(all), m, |all|)
  }

  /** Ids are never empty strings. */
  predicate NonEmptyIds(all: seq<Member>)
  {
    forall m :: m in all ==> m.id != ""
  }

  /** A well-formed family tree: unique non-empty ids and no parent cycle. */
  predicate WellFormed(all: seq<Member>)
  {
    UniqueIds(all) && NonEmptyIds(all) && Acyclic(all)
  }

  /** Position k+1 of `p` holds the parent id of the record found under position k. */
  predicate LinksAt(mm: map<string, Member>, p: seq<string>, k: int)
  {
    && 0 <= k < |p| - 1
    && p[k] in mm
    && HasParentIn(mm, mm[p[k]])
    && p[k + 1] == mm[p[k]].parentId.value
  }

  /** The shape of the path: the second id is the parent id of `m`, every later id
      is in the table and is the parent id of the record before it, and when the
      walk stops by itself, the last record has no parent in the table. */
  lemma {:induction false} PathShape(mm: map<string, Member>, m: Member, fuel: nat)
    requires WellKeyed(mm)
    ensures var p := Path(mm, m, fuel);
      && (|p| > 1 ==> HasParentIn(mm, m) && p[1] == m.parentId.value)
      && (forall k :: 1 <= k < |p| ==> p[k] in mm)
      && (forall k :: 1 <= k < |p| - 1 ==> LinksAt(mm, p, k))
      && (Terminates(mm, m, fuel) && |p| == 1 ==> !HasParentIn(mm, m))
      && (Terminates(mm, m, fuel) && |p| > 1 ==> !HasParentIn(mm, mm[p[|p| - 1]]))
    decreases fuel
  {
    var p := Path(mm, m, fuel);
    if fuel > 0 && HasParentIn(mm, m) {
      var q := ParentIn(mm, m);
      PathShape(mm, q, fuel - 1);
      var t := Path(mm, q, fuel - 1);
      assert p == [m.id] + t;
      assert q.id == m.parentId.value && mm[q.id] == q;
      forall k | 1 <= k < |p| ensures p[k] in mm {
        assert p[k] == t[k - 1];
      }
      forall k | 1 <= k < |p| - 1 ensures LinksAt(mm, p, k) {
        assert p[k] == t[k - 1] && p[k + 1] == t[k];
        if k > 1 {
          assert LinksAt(mm, t, k - 1);
        }
      }
      if Terminates(mm, m, fuel) && |t| > 1 {
        assert p[|p| - 1] == t[|t| - 1];
      }
    }
  }

  /** Extra steps change nothing once the walk stops by itself. */
  lemma {:induction false} FuelIndependent(mm: map<string, Member>, m: Member, f: nat, g: nat)
    requires Terminates(mm, m, f) && f <= g
    ensures Terminates(mm, m, g)
    ensures Path(mm, m, f) == Path(mm, m, g)
    decreases f
  {
    if HasParentIn(mm, m) {
      FuelIndependent(mm, ParentIn(mm, m), f - 1, g - 1);
    }
  }

  /** The path from the record at position k is the rest of the path. */
  lemma {:induction false} PathSuffix(mm: map<string, Member>, m: Member, f: nat, k: nat)
    requires WellKeyed(mm)
    requires 1 <= k < |Path(mm, m, f)|
    ensures k <= f
    ensures Path(mm, m, f)[k] in mm
    ensures Path(mm, m, f)[k..] == Path(mm, mm[Path(mm, m, f)[k]], f - k)
    ensures Terminates(mm, m, f) ==> Terminates(mm, mm[Path(mm, m, f)[k]], f - k)
    decreases k
  {
    var p := Path(mm, m, f);
    var q := ParentIn(mm, m);
    var t := Path(mm, q, f - 1);
    assert p == [m.id] + t;
    if k == 1 {
      assert p[1] == q.id;
      assert mm[q.id] == q;
      assert p[1..] == t;
    } else {
      PathSuffix(mm, q, f - 1, k - 1);
      assert p[k..] == t[k - 1..];
    }
  }

  /** No id occurs twice. */
  predicate Distinct(p: seq<string>)
  {
    forall i, j :: 0 <= i < j < |p| ==> p[i] != p[j]
  }

  /** A path whose walk stops by itself never repeats an id, provided the starting
      record is the one the table holds under its id (or is not in the table). */
  lemma {:induction false} PathNoRepeats(mm: map<string, Member>, m: Member, f: nat)
    requires WellKeyed(mm)
    requires Terminates(mm, m, f)
    requires m.id in mm ==> mm[m.id] == m
    ensures Distinct(Path(mm, m, f))
    decreases f
  {
    var p := Path(mm, m, f);
    if f > 0 && HasParentIn(mm, m) {
      var q := ParentIn(mm, m);
      PathNoRepeats(mm, q, f - 1);
      var t := Path(mm, q, f - 1);
      assert p == [m.id] + t;
      forall j | 1 <= j < |p| ensures p[0] != p[j] {
        if p[j] == m.id {
          PathShape(mm, m, f);
          assert p[j] in mm;
          PathSuffix(mm, m, f, j);
          assert mm[p[j]] == m;
          FuelIndependent(mm, m, f - j, f);
          assert false;
        }
      }
      forall i, j | 0 <= i < j < |p| ensures p[i] != p[j] {
        if i == 0 {
          assert p[0] != p[j];
        } else {
          assert p[i] == t[i - 1] && p[j] == t[j - 1];
          assert Distinct(t);
        }
      }
    }
  }

  /** Distinct entries: the set of a sequence is as large as the sequence. */
  lemma {:induction false} DistinctCard(p: seq<string>)
    requires Distinct(p)
    ensures |set x | x in p| == |p|
  {
    if p != [] {
      var rest := p[1..];
      DistinctCard(rest);
      assert (set x | x in p) == (set x | x in rest) + {p[0]};
      assert p[0] !in rest;
    }
  }

  lemma CardSubset(a: set<string>, b: set<string>)
    requires a <= b
    ensures |a| <= |b|
  {
    assert b == a + (b - a);
  }

  /** The resolver's guarantees on acyclic data, for a record of the list:
      the path starts with the person, follows `parentId`, stops exactly at a
      record without a known parent, never repeats an id and is at most as long
      as the list. */
  lemma AncestryPathProperties(all: seq<Member>, m: Member)
    requires Acyclic(all) && UniqueIds(all) && m in all
    ensures AncestryPath(all, m)[0] == m.id
    ensures forall k :: 0 <= k < |AncestryPath(all, m)| ==> AncestryPath(all, m)[k] in MemberMap(all)
    ensures forall k :: 0 <= k < |AncestryPath(all, m)| - 1 ==> LinksAt(MemberMap(all), AncestryPath(all, m), k)
    ensures !HasParentIn(MemberMap(all), MemberMap(all)[AncestryPath(all, m)[|AncestryPath(all, m)| - 1]])
    ensures Distinct(AncestryPath(all, m))
    ensures |AncestryPath(all, m)| <= |all|
  {
    ListedRecordWalks(all, m);
    StoredPathShape(all, m);
    StoredPathDistinct(all, m);
  }

  /** A record of an acyclic list with unique ids is stored under its own id and its walk ends. */
  lemma ListedRecordWalks(all: seq<Member>, m: Member)
    requires Acyclic(all) && UniqueIds(all) && m in all
    ensures Terminates(MemberMap(all), m, |all|)
    ensures m.id in MemberMap(all) && MemberMap(all)[m.id] == m
  {
    var i :| 0 <= i < |all| && all[i] == m;
    MemberMapFindsEach(all, i);
  }

  lemma StoredPathDistinct(all: seq<Member>, m: Member)
    requires Terminates(MemberMap(all), m, |all|)
    requires m.id in MemberMap(all) && MemberMap(all)[m.id] == m
    ensures Distinct(AncestryPath(all, m))
    ensures |AncestryPath(all, m)| <= |all|
  {
    var mm := MemberMap(all);
    var p := AncestryPath(all, m);
    PathShape(mm, m, |all|);
    PathNoRepeats(mm, m, |all|);
    DistinctCard(p);
    assert (set x | x in p) <= mm.Keys;
    CardSubset((set x | x in p), mm.Keys);
    MemberMapSize(all);
  }

  lemma StoredPathShape(all: seq<Member>, m: Member)
    requires Terminates(MemberMap(all), m, |all|)
    requires m.id in MemberMap(all) && MemberMap(all)[m.id] == m
    ensures forall k :: 0 <= k < |AncestryPath(all, m)| ==> AncestryPath(all, m)[k] in MemberMap(all)
    ensures forall k :: 0 <= k < |AncestryPath(all, m)| - 1 ==> LinksAt(MemberMap(all), AncestryPath(all, m), k)
    ensures !HasParentIn(MemberMap(all), MemberMap(all)[AncestryPath(all, m)[|AncestryPath(all, m)| - 1]])
  {
    var mm := MemberMap(all);
    var p := AncestryPath(all, m);
    PathShape(mm, m, |all|);
    if |p| > 1 {
      assert LinksAt(mm, p, 0);
    }
  }

  /** The loop of `getAncestryPath`: push parent ids while the parent id is truthy
      and known. The source loops forever on a cycle; the precondition says the
      chain ends. */
  method GetAncestryPath(all: seq<Member>, m: Member) returns (path: seq<string>)
    requires Terminates(MemberMap(all), m, |all|)
    ensures path == AncestryPath(all, m)
  {
    var mm := MemberMap(all);
    path := [m.id];
    var curr := m;
    ghost var fuel: nat := |all|;
    while Truthy(curr.parentId) && curr.parentId.value in mm
      invariant Terminates(mm, curr, fuel)
      invariant path + Path(mm, curr, fuel)[1..] == AncestryPath(all, m)
      decreases fuel
    {
      assert HasParentIn(mm, curr);
      var next := mm[curr.parentId.value];
      assert Path(mm, curr, fuel) == [curr.id] + Path(mm, next, fuel - 1);
      path := path + [next.id];
      curr := next;
      fuel := fuel - 1;
    }
  }
}
