/**
 * The query examples of `QuerydslBasicTest`: the fixture its `before`
 * persists, the null-based dynamic predicates (built step by step in a
 * `BooleanBuilder`, or passed as nullable `where` arguments), and the
 * ordering, paging, join and subquery scenarios over the fixture.
 */
module QuerydslBasicTest {
  import opened Wrappers
  import opened Entities
  import opened Query
  import opened Ordering
  import Repository = MemberRepository

  /** Storage as the test's entity manager fills it: `persist` appends and draws the next id. */
  class EntityManager {
    var teams: seq<Team>
    var members: seq<Member>
    var nextId: Id

    constructor ()
      ensures teams == [] && members == [] && nextId == 1
    {
      teams, members, nextId := [], [], 1;
    }

    function Contents(): Store
      reads this
    {
      Store(members, teams)
    }

    /** `em.persist(new Team(name))`. */
    method PersistTeam(name: string) returns (t: Team)
      modifies this
      ensures t == Team(old(nextId), name)
      ensures teams == old(teams) + [t] && members == old(members) && nextId == old(nextId) + 1
    {
      t := Team(nextId, name);
      teams := teams + [t];
      nextId := nextId + 1;
    }

    /** `em.persist(new Member(username, age, team))`; a null team leaves the reference empty. */
    method PersistMember(username: Option<string>, age: int, team: Option<Team>) returns (m: Member)
      modifies this
      ensures m == Member(old(nextId), username, age, if team.Some? then Some(team.value.id) else None)
      ensures members == old(members) + [m] && teams == old(teams) && nextId == old(nextId) + 1
    {
      m := Member(nextId, username, age, if team.Some? then Some(team.value.id) else None);
      members := members + [m];
      nextId := nextId + 1;
    }
  }

  function FixtureTeams(): seq<Team> {
    [Team(1, "teamA"), Team(2, "teamB")]
  }

  function FixtureMembers(): seq<Member> {
    [Member(3, Some("member1"), 10, Some(1)),
     Member(4, Some("member2"), 20, Some(1)),
     Member(5, Some("member3"), 30, Some(2)),
     Member(6, Some("member4"), 40, Some(2))]
  }

  /** Two teams, then four members, two in each team. */
  function Fixture(): (s: Store)
    ensures |s.members| == 4 && |s.teams| == 2
    ensures forall i :: 0 <= i < |s.members| ==> TeamOf(s.teams, s.members[i]).Some?
  {
    Store(FixtureMembers(), FixtureTeams())
  }

  /** `before`: persists teamA and teamB, then member1..member4 with ages 10..40. */
  method Before() returns (em: EntityManager)
    ensures em.Contents() == Fixture()
    ensures em.nextId == 7
  {
    em := new EntityManager();
    var teamA := em.PersistTeam("teamA");
    var teamB := em.PersistTeam("teamB");
    var member1 := em.PersistMember(Some("member1"), 10, Some(teamA));
    var member2 := em.PersistMember(Some("member2"), 20, Some(teamA));
    var member3 := em.PersistMember(Some("member3"), 30, Some(teamB));
    var member4 := em.PersistMember(Some("member4"), 40, Some(teamB));
  }

  /** Predicates over `member` alone (the queries here select from `member` without a join). */
  datatype MemberExpr =
    | UsernameIs(username: string)
    | AgeIs(age: int)
    | AndExpr(left: MemberExpr, right: MemberExpr)

  /** SQL truth: `username = x` is not true of a null username. */
  predicate Eval(e: MemberExpr, m: Member) {
    match e
    case UsernameIs(u) => m.username == Some(u)
    case AgeIs(a) => m.age == a
    case AndExpr(l, r) => Eval(l, m) && Eval(r, m)
  }

  /** A null predicate constrains nothing. */
  predicate Accepts(p: Option<MemberExpr>, m: Member) {
    p.None? || Eval(p.value, m)
  }

  /** `where(p1, ..., pn)` (and successive `where` calls): null arguments skipped, the rest ANDed. */
  function WhereAll(preds: seq<Option<MemberExpr>>): Member -> bool {
    m => forall i :: 0 <= i < |preds| ==> Accepts(preds[i], m)
  }

  /** `selectFrom(member).where(preds).fetch()`. */
  function SelectFrom(members: seq<Member>, preds: seq<Option<MemberExpr>>): seq<Member> {
    Select(members, WhereAll(preds))
  }

  /** `BooleanBuilder`: holds a nullable predicate that `and` extends. */
  class BooleanBuilder {
    var current: Option<MemberExpr>  // `getValue()`

    constructor ()
      ensures current.None?
    {
      current := None;
    }

    /** `and(right)`: a null `right` changes nothing; otherwise it becomes, or is ANDed onto, the held predicate. */
    method And(right: Option<MemberExpr>)
      modifies this
      ensures right.None? ==> current == old(current)
      ensures right.Some? && old(current).None? ==> current == right
      ensures right.Some? && old(current).Some? ==> current == Some(AndExpr(old(current).value, right.value))
      ensures forall m :: Accepts(current, m) <==> Accepts(old(current), m) && Accepts(right, m)
    {
      if right.Some? {
        if current.None? {
          current := right;
        } else {
          current := Some(AndExpr(current.value, right.value));
        }
      }
    }
  }

  /** The filter the tests mean: each condition applies exactly when it is non-null. */
  predicate NullCheckMatches(usernameCond: Option<string>, ageCond: Option<int>, m: Member) {
    && (usernameCond.Some? ==> m.username == usernameCond)
    && (ageCond.Some? ==> m.age == ageCond.value)
  }

  function NullCheck(usernameCond: Option<string>, ageCond: Option<int>): Member -> bool {
    m => NullCheckMatches(usernameCond, ageCond, m)
  }

  /**
   * `searchMember1`: adds the username equality when `usernameCond` is
   * non-null and the age equality when `ageCond` is non-null, then selects.
   */
  method SearchMember1(members: seq<Member>, usernameCond: Option<string>, ageCond: Option<int>)
    returns (result: seq<Member>)
    ensures result == Select(members, NullCheck(usernameCond, ageCond))
  {
    var builder := new BooleanBuilder();
    if usernameCond.Some? {
      builder.And(Some(UsernameIs(usernameCond.value)));
    }
    if ageCond.Some? {
      builder.And(Some(AgeIs(ageCond.value)));
    }
    var where := [builder.current];
    result := SelectFrom(members, where);
    forall m | m in members ensures WhereAll(where)(m) == NullCheck(usernameCond, ageCond)(m) {
      assert where[0] == builder.current;
    }
    SelectExt(members, WhereAll(where), NullCheck(usernameCond, ageCond));
  }

  /** The test `dynamicQuery_BooleanBuilder`. */
  method DynamicQueryBooleanBuilder() returns (result: seq<Member>)
    ensures result == [FixtureMembers()[0]]
    ensures |result| == 1
  {
    var em := Before();
    result := SearchMember1(em.members, Some("member1"), Some(10));
    SearchMember1OnFixture();
  }

  /** `usernameEq` of the test: no constraint only for null (an empty string is still an equality). */
  function UsernameEq(usernameCond: Option<string>): (e: Option<MemberExpr>)
    ensures e.None? <==> usernameCond.None?
    ensures forall m :: Accepts(e, m) <==> (usernameCond.Some? ==> m.username == usernameCond)
  {
    if usernameCond.None? then None else Some(UsernameIs(usernameCond.value))
  }

  /** `ageEq` of the test: no constraint only for null. */
  function AgeEq(ageCond: Option<int>): (e: Option<MemberExpr>)
    ensures e.None? <==> ageCond.None?
    ensures forall m :: Accepts(e, m) <==> (ageCond.Some? ==> m.age == ageCond.value)
  {
    if ageCond.None? then None else Some(AgeIs(ageCond.value))
  }

  /**
   * An empty username is an equality here (it selects the members named "")
   * but no constraint at all in the repository's `hasText`-based helper.
   */
  lemma EmptyUsernameStillConstrains()
    ensures UsernameEq(Some("")) == Some(UsernameIs(""))
    ensures forall m :: Accepts(UsernameEq(Some("")), m) <==> m.username == Some("")
    ensures Repository.UsernameEq(Some("")).None?
  {
  }

  datatype TestError = NullPointerException

  /**
   * `allEq`: `usernameEq(usernameCond).and(ageEq(ageCond))`. Calling `and`
   * on a null `usernameEq` throws; `and(null)` returns the left operand.
   */
  function AllEq(usernameCond: Option<string>, ageCond: Option<int>): (r: Result<MemberExpr, TestError>)
    ensures r.Err? <==> usernameCond.None?
    ensures r.Ok? ==> forall m :: Eval(r.value, m) <==> NullCheckMatches(usernameCond, ageCond, m)
  {
    var left := UsernameEq(usernameCond);
    if left.None? then Err(NullPointerException)
    else
      var right := AgeEq(ageCond);
      Ok(if right.None? then left.value else AndExpr(left.value, right.value))
  }

  /** Repeating a filter that the where list already implies selects nothing less. */
  lemma DuplicateFilterIsIdempotent(members: seq<Member>, preds: seq<Option<MemberExpr>>, extra: MemberExpr)
    requires forall m :: WhereAll(preds)(m) ==> Eval(extra, m)
    ensures SelectFrom(members, preds + [Some(extra)]) == SelectFrom(members, preds)
  {
    forall m | m in members ensures WhereAll(preds + [Some(extra)])(m) == WhereAll(preds)(m) {
      if WhereAll(preds)(m) {
        forall i | 0 <= i < |preds + [Some(extra)]| ensures Accepts((preds + [Some(extra)])[i], m) {
          if i < |preds| {
            assert (preds + [Some(extra)])[i] == preds[i];
          }
        }
      } else {
        var i :| 0 <= i < |preds| && !Accepts(preds[i], m);
        assert (preds + [Some(extra)])[i] == preds[i];
      }
    }
    SelectExt(members, WhereAll(preds + [Some(extra)]), WhereAll(preds));
  }

  /**
   * `searchMember2`: `where(usernameEq, ageEq).where(allEq)`. It fails when
   * `usernameCond` is null; otherwise it selects what `searchMember1` does.
   */
  function SearchMember2(members: seq<Member>, usernameCond: Option<string>, ageCond: Option<int>)
    : (r: Result<seq<Member>, TestError>)
    ensures r.Err? <==> usernameCond.None?
    ensures r.Ok? ==> r.value == Select(members, NullCheck(usernameCond, ageCond))
  {
    match AllEq(usernameCond, ageCond)
    case Err(e) => Err(e)
    case Ok(all) =>
      var preds := [UsernameEq(usernameCond), AgeEq(ageCond)];
      assert forall m :: WhereAll(preds)(m) == NullCheck(usernameCond, ageCond)(m) by {
        forall m ensures WhereAll(preds)(m) == NullCheck(usernameCond, ageCond)(m) {
          assert WhereAll(preds)(m) == (Accepts(preds[0], m) && Accepts(preds[1], m));
        }
      }
      DuplicateFilterIsIdempotent(members, preds, all);
      SelectExt(members, WhereAll(preds), NullCheck(usernameCond, ageCond));
      Ok(SelectFrom(members, preds + [Some(all)]))
  }

  /** With both conditions null, `searchMember1` selects every member. */
  lemma NullConditionsSelectAll(members: seq<Member>)
    ensures Select(members, NullCheck(None, None)) == members
  {
    SelectAll(members, NullCheck(None, None));
  }

  /** `dynamicQuery_BooleanBuilder` / `dynamicQuery_whereParam`: ("member1", 10) selects member1 only. */
  lemma SearchMember1OnFixture()
    ensures Select(FixtureMembers(), NullCheck(Some("member1"), Some(10))) == [FixtureMembers()[0]]
    ensures SearchMember2(FixtureMembers(), Some("member1"), Some(10)) == Ok([FixtureMembers()[0]])
  {
    var p := NullCheck(Some("member1"), Some(10));
    var ms := FixtureMembers();
    assert p(ms[0]) && !p(ms[1]) && !p(ms[2]) && !p(ms[3]);
    assert ms[1..][1..][1..][1..] == [];
  }

  /** The three members the `sort` test persists after the fixture: none has a team. */
  function SortMembers(): seq<Member> {
    FixtureMembers() + [Member(7, None, 100, None), Member(8, Some("member5"), 100, None), Member(9, Some("member6"), 100, None)]
  }

  /** `orderBy(member.age.desc(), member.username.asc().nullsLast())`. */
  function AgeDescUsernameAscNullsLast(): seq<OrderSpecifier> {
    [OrderSpecifier(Age, Desc, Default), OrderSpecifier(Username, Asc, NullsLast)]
  }

  function UsernameOf(m: Member): Option<string> {
    m.username
  }

  function AgeOf(m: Member): int {
    m.age
  }

  /** `where(member.age.eq(100))` drops the members of other ages and keeps those of age 100, in order. */
  lemma SelectAge100(others: seq<Member>, hundreds: seq<Member>)
    requires forall i :: 0 <= i < |others| ==> others[i].age != 100
    requires forall i :: 0 <= i < |hundreds| ==> hundreds[i].age == 100
    ensures SelectFrom(others + hundreds, [Some(AgeIs(100))]) == hundreds
  {
    var preds := [Some(AgeIs(100))];
    var w := WhereAll(preds);
    forall m ensures w(m) == (m.age == 100) {
      assert preds[0] == Some(AgeIs(100));
    }
    SelectAppend(others, hundreds, w);
    SelectNone(others, w);
    SelectAll(hundreds, w);
  }

  /** Over the `sort` test's storage, the age filter keeps the three members it added. */
  lemma SortSelection()
    ensures SelectFrom(SortMembers(), [Some(AgeIs(100))]) == SortMembers()[4..]
  {
    var ms := SortMembers();
    assert ms == ms[..4] + ms[4..];
    SelectAge100(ms[..4], ms[4..]);
  }

  /** Between members of one age, `age desc, username asc nulls last` puts a null username last. */
  lemma SameAgeComparesUsernames(a: Member, b: Member)
    requires a.age == b.age
    ensures Compare(AgeDescUsernameAscNullsLast(), a, b)
         == NullableCompare(OrderSpecifier(Username, Asc, NullsLast), a.username, b.username)
  {
    var specs := AgeDescUsernameAscNullsLast();
    var byName := OrderSpecifier(Username, Asc, NullsLast);
    assert specs[0] == OrderSpecifier(Age, Desc, Default) && specs[1..] == [byName];
    assert KeyCompare(specs[0], a, b) == 0;
    assert [byName][1..] == [];
    assert Compare([byName], a, b) == KeyCompare(byName, a, b);
  }

  /** Of three members, a first one that follows both others while those two are in order moves to the end. */
  lemma OrderByMovesFirstToEnd(specs: seq<OrderSpecifier>, a: Member, b: Member, c: Member)
    requires Compare(specs, b, c) <= 0
    requires Compare(specs, a, b) > 0 && Compare(specs, a, c) > 0
    ensures OrderBy(specs, [a, b, c]) == [b, c, a]
  {
    OrderByCons(specs, c, []);
    InsertAtEnd(specs, c, []);
    OrderByCons(specs, b, [c]);
    assert Insert(specs, b, [c]) == [b, c];
    OrderByCons(specs, a, [b, c]);
    InsertAtEnd(specs, a, [b, c]);
  }

  /** Three members of age 100 named nothing, "member5" and "member6" sort as member5, member6, nameless. */
  lemma SortOfSameAge(nameless: Member, member5: Member, member6: Member)
    requires nameless.age == member5.age == member6.age
    requires nameless.username.None?
    requires member5.username == Some("member5") && member6.username == Some("member6")
    ensures Map(UsernameOf, OrderBy(AgeDescUsernameAscNullsLast(), [nameless, member5, member6]))
         == [Some("member5"), Some("member6"), None]
  {
    MemberNamesAscend();
    SameAgeComparesUsernames(member5, member6);
    SameAgeComparesUsernames(nameless, member5);
    SameAgeComparesUsernames(nameless, member6);
    OrderByMovesFirstToEnd(AgeDescUsernameAscNullsLast(), nameless, member5, member6);
  }

  /** `sort`: the age-100 members come out as member5, member6, then the one without a username. */
  lemma SortScenario()
    ensures Map(UsernameOf, OrderBy(AgeDescUsernameAscNullsLast(), SelectFrom(SortMembers(), [Some(AgeIs(100))])))
         == [Some("member5"), Some("member6"), None]
  {
    SortSelection();
    var ms := SortMembers();
    assert ms[4..] == [ms[4], ms[5], ms[6]];
    SortOfSameAge(ms[4], ms[5], ms[6]);
  }

  /** `orderBy(member.username.desc())`. */
  function UsernameDesc(): seq<OrderSpecifier> {
    [OrderSpecifier(Username, Desc, Default)]
  }

  /**
   * `paging1` and `paging2`: offset 1, limit 2 over the four members yields
   * two rows (member3, member2), while `fetchResults` reports total 4,
   * limit 2 and offset 1.
   */
  lemma PagingScenario()
    ensures |Slice(OrderBy(UsernameDesc(), FixtureMembers()), 1, 2)| == 2
    ensures Map(UsernameOf, Slice(OrderBy(UsernameDesc(), FixtureMembers()), 1, 2))
         == [Some("member3"), Some("member2")]
    ensures FetchResults(OrderBy(UsernameDesc(), FixtureMembers()), 1, 2).total == 4
    ensures FetchResults(OrderBy(UsernameDesc(), FixtureMembers()), 1, 2).limit == Some(2)
    ensures FetchResults(OrderBy(UsernameDesc(), FixtureMembers()), 1, 2).offset == 1
    ensures |FetchResults(OrderBy(UsernameDesc(), FixtureMembers()), 1, 2).results| == 2
  {
    var ms := FixtureMembers();
    var sorted := OrderBy(UsernameDesc(), ms);
    UsernameDescOrdersFixture();
    assert sorted == [ms[3], ms[2], ms[1], ms[0]];
    var window := Slice(sorted, 1, 2);
    assert window[0] == ms[2] && window[1] == ms[1];
    assert window == [ms[2], ms[1]];
  }

  /** "member1" < "member2" < ... < "member6" by character code. */
  lemma MemberNamesAscend()
    ensures StringCompare("member1", "member2") == -1 && StringCompare("member2", "member3") == -1
    ensures StringCompare("member3", "member4") == -1 && StringCompare("member5", "member6") == -1
  {
    assert "member1" == "member" + "1" && "member2" == "member" + "2" && "member3" == "member" + "3";
    assert "member4" == "member" + "4" && "member5" == "member" + "5" && "member6" == "member" + "6";
    StringComparePrefix("member", "1", "2");
    StringComparePrefix("member", "2", "3");
    StringComparePrefix("member", "3", "4");
    StringComparePrefix("member", "5", "6");
  }

  /** Four members, each placed after the ones behind it, come out reversed. */
  lemma OrderByReversesFour(specs: seq<OrderSpecifier>, m1: Member, m2: Member, m3: Member, m4: Member)
    requires Compare(specs, m3, m4) > 0
    requires Compare(specs, m2, m4) > 0 && Compare(specs, m2, m3) > 0
    requires Compare(specs, m1, m4) > 0 && Compare(specs, m1, m3) > 0 && Compare(specs, m1, m2) > 0
    ensures OrderBy(specs, [m1, m2, m3, m4]) == [m4, m3, m2, m1]
  {
    OrderByCons(specs, m4, []);
    InsertAtEnd(specs, m4, []);
    OrderByCons(specs, m3, [m4]);
    InsertAtEnd(specs, m3, [m4]);
    OrderByCons(specs, m2, [m3, m4]);
    InsertAtEnd(specs, m2, [m4, m3]);
    OrderByCons(specs, m1, [m2, m3, m4]);
    InsertAtEnd(specs, m1, [m4, m3, m2]);
  }

  /** Descending by username, the fixture comes out as member4, member3, member2, member1. */
  lemma UsernameDescOrdersFixture()
    ensures OrderBy(UsernameDesc(), FixtureMembers())
         == [FixtureMembers()[3], FixtureMembers()[2], FixtureMembers()[1], FixtureMembers()[0]]
  {
    var ms := FixtureMembers();
    var specs := UsernameDesc();
    MemberNamesAscend();
    assert Compare(specs, ms[2], ms[3]) == 1;
    assert Compare(specs, ms[1], ms[3]) == 1 && Compare(specs, ms[1], ms[2]) == 1;
    assert Compare(specs, ms[0], ms[3]) == 1 && Compare(specs, ms[0], ms[2]) == 1 && Compare(specs, ms[0], ms[1]) == 1;
    OrderByReversesFour(specs, ms[0], ms[1], ms[2], ms[3]);
  }

  /** `team.name.eq(name)` on a joined row. */
  function TeamNamed(name: string): JoinedRow -> bool {
    (row: JoinedRow) => row.team.Some? && row.team.value.name == name
  }

  function RowUsername(row: JoinedRow): Option<string> {
    row.member.username
  }

  /** `join`: the members of teamA are member1 and member2. */
  lemma JoinScenario()
    ensures Map(RowUsername, Select(InnerJoin(Fixture()), TeamNamed("teamA"))) == [Some("member1"), Some("member2")]
  {
    var rows := LeftJoin(Fixture());
    var ms := FixtureMembers();
    var ts := FixtureTeams();
    assert rows == [JoinedRow(ms[0], Some(ts[0])), JoinedRow(ms[1], Some(ts[0])),
                    JoinedRow(ms[2], Some(ts[1])), JoinedRow(ms[3], Some(ts[1]))];
    assert rows[1..][1..][1..][1..] == [];
  }

  predicate AgeOver10(m: Member) {
    m.age > 10
  }

  /** `select(memberSub.age).from(memberSub).where(memberSub.age.gt(10))`. */
  function SubQueryAges(members: seq<Member>): seq<int> {
    Map(AgeOf, Select(members, AgeOver10))
  }

  function AgeIn(ages: seq<int>): Member -> bool {
    (m: Member) => m.age in ages
  }

  /** `selectFrom(member).where(member.age.in(subquery))`. */
  function SubQueryIn(members: seq<Member>): seq<Member> {
    Select(members, AgeIn(SubQueryAges(members)))
  }

  /** Over any storage, `age in (ages above 10)` selects exactly the members older than 10. */
  lemma SubQueryInIsAgeOver10(members: seq<Member>)
    ensures SubQueryIn(members) == Select(members, AgeOver10)
  {
    var ages := SubQueryAges(members);
    forall m | m in members ensures AgeIn(ages)(m) == AgeOver10(m) {
      if AgeOver10(m) {
        var sel := Select(members, AgeOver10);
        var j :| 0 <= j < |sel| && sel[j] == m;
        assert ages[j] == m.age;
      } else if m.age in ages {
        var sel := Select(members, AgeOver10);
        var j :| 0 <= j < |ages| && ages[j] == m.age;
        assert sel[j] in sel;
      }
    }
    SelectExt(members, AgeIn(ages), AgeOver10);
  }

  /** `subQueryIn`: over the fixture the ages are 20, 30, 40. */
  lemma SubQueryInScenario()
    ensures Map(AgeOf, SubQueryIn(FixtureMembers())) == [20, 30, 40]
  {
    SubQueryInIsAgeOver10(FixtureMembers());
    var ms := FixtureMembers();
    assert ms[1..][1..][1..][1..] == [];
  }
}
