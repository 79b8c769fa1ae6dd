/** The person record shared by the kinship engine, the layout engine and the
    record edits, with the two ways the source looks a person up by id. */
module FamilyTypes {

  datatype Option<T> = None | Some(value: T)

  datatype Gender = Male | Female | Other

  /** One person (`FamilyMember` in types.ts).
      `birthDate` is a day number; `None` stands for an empty or unparseable
      date, for which JavaScript's `Date` yields NaN.
      `isDeleted` and `isHighlight` are optional in the source; absent reads as false. */
  datatype Member = Member(
    id: string,
    name: string,
    birthDate: Option<int>,
    isMarried: bool,
    address: string,
    gender: Gender,
    parentId: Option<string>,
    spouseName: Option<string>,
    biography: Option<string>,
    isDeleted: bool,
    isHighlight: bool)

  /** JavaScript truthiness of a `string | null` id: both null and "" are falsy. */
  predicate Truthy(p: Option<string>)
  {
    p.Some? && p.value != ""
  }

  /** The ids of a list of records, in order. */
  function Ids(s: seq<Member>): (r: seq<string>)
    ensures |r| == |s|
    ensures forall i :: 0 <= i < |s| ==> r[i] == s[i].id
  {
    seq(|s|, i requires 0 <= i < |s| => s[i].id)
  }

  /** No two records share an id (ids are generated unique). */
  predicate UniqueIds(s: seq<Member>)
  {
    forall i, j :: 0 <= i < j < |s| ==> s[i].id != s[j].id
  }

  /** Every key of a lookup table names the record stored under it. */
  predicate WellKeyed(mm: map<string, Member>)
  {
    forall k :: k in mm ==> mm[k].id == k
  }

  /** `new Map(all.map(m => [m.id, m]))`: later records overwrite earlier ones. */
  function MemberMap(s: seq<Member>): (mm: map<string, Member>)
    ensures forall m :: m in s ==> m.id in mm
    ensures WellKeyed(mm)
  {
    if s == [] then map[]
    else
      var prev := MemberMap(s[..|s| - 1]);
      var last := s[|s| - 1];
      assert s == s[..|s| - 1] + [last];
      prev[last.id := last]
  }

  /** Every value of the table is one of the records. (Kept out of the function's
      contract: as an automatic fact it lets the prover chase parent links forever.) */
  lemma {:induction false} MemberMapValue(s: seq<Member>, k: string)
    requires k in MemberMap(s)
    ensures MemberMap(s)[k] in s
  {
    var init := s[..|s| - 1];
    if k != s[|s| - 1].id {
      MemberMapValue(init, k);
    }
  }

  /** The table holds at most one entry per record. */
  lemma {:induction false} MemberMapSize(s: seq<Member>)
    ensures |MemberMap(s)| <= |s|
  {
    if s != [] {
      var init := s[..|s| - 1];
      MemberMapSize(init);
      var prev := MemberMap(init);
      var last := s[|s| - 1];
      assert MemberMap(s) == prev[last.id := last];
      assert prev[last.id := last].Keys <= prev.Keys + {last.id};
    }
  }

  /** With unique ids the table returns each record under its own id. */
  lemma {:induction false} MemberMapFindsEach(s: seq<Member>, i: int)
    requires UniqueIds(s) && 0 <= i < |s|
    ensures s[i].id in MemberMap(s) && MemberMap(s)[s[i].id] == s[i]
  {
    if i < |s| - 1 {
      var init := s[..|s| - 1];
      assert init[i] == s[i];
      MemberMapFindsEach(init, i);
      assert s[|s| - 1].id != s[i].id;
    }
  }

  /** Two records of a list with unique ids that agree on the id are the same record. */
  lemma SameIdSameRecord(all: seq<Member>, a: Member, b: Member)
    requires UniqueIds(all) && a in all && b in all && a.id == b.id
    ensures a == b
  {
    var i :| 0 <= i < |all| && all[i] == a;
    var j :| 0 <= j < |all| && all[j] == b;
  }

  /** `all.find(m => m.id === id)`: the first record with that id. */
  function Find(s: seq<Member>, id: string): (r: Option<Member>)
    ensures r.Some? ==> r.value in s && r.value.id == id
    ensures r.None? <==> (forall m :: m in s ==> m.id != id)
  {
    if s == [] then None
    else if s[0].id == id then Some(s[0])
    else Find(s[1..], id)
  }

  /** `s.map(f)` */
  function Apply(s: seq<Member>, f: Member -> Member): (r: seq<Member>)
    ensures |r| == |s|
    ensures forall i :: 0 <= i < |s| ==> r[i] == f(s[i])
  {
    if s == [] then [] else Apply(s[..|s| - 1], f) + [f(s[|s| - 1])]
  }

  /** The lookup table of a mapped list: same keys, each value mapped. */
  lemma {:induction false} MemberMapApply(s: seq<Member>, f: Member -> Member)
    requires forall m :: f(m).id == m.id
    ensures forall k :: k in MemberMap(Apply(s, f)) <==> k in MemberMap(s)
    ensures forall k :: k in MemberMap(s) ==> MemberMap(Apply(s, f))[k] == f(MemberMap(s)[k])
  {
    if s != [] {
      var init := s[..|s| - 1];
      MemberMapApply(init, f);
      var r := Apply(s, f);
      assert r[..|r| - 1] == Apply(init, f);
    }
  }

  /** `s.filter(keep)`: the elements that pass, in their original order. */
  function Filter(s: seq<Member>, keep: Member -> bool): (r: seq<Member>)
    ensures |r| <= |s|
    ensures forall x {:trigger x in r} :: x in r <==> x in s && keep(x)
  {
    if s == [] then []
    else
      var init := s[..|s| - 1];
      var last := s[|s| - 1];
      assert s == init + [last];
      Filter(init, keep) + (if keep(last) then [last] else [])
  }

  /** Filtering distributes over concatenation, so it keeps the original order. */
  lemma {:induction false} FilterConcat(a: seq<Member>, b: seq<Member>, keep: Member -> bool)
    ensures Filter(a + b, keep) == Filter(a, keep) + Filter(b, keep)
    decreases |b|
  {
    if b != [] {
      var init := b[..|b| - 1];
      assert (a + b)[..|a + b| - 1] == a + init;
      FilterConcat(a, init, keep);
    } else {
      assert a + b == a;
    }
  }
}
