/**
 * The member search over the four members that `before` persists: every
 * member without a condition, the age lower bound, and the two paging
 * outcomes of `searchPageComplex` (a full first page that counts, and a
 * short first page that does not).
 */
module MemberRepositoryScenarios {
  import opened Wrappers
  import opened Entities
  import opened Query
  import opened Paging
  import opened MemberRepository
  import Fixtures = QuerydslBasicTest

  function NoCondition(): MemberSearchCondition {
    MemberSearchCondition(None, None, None, None)
  }

  function DtoUsername(d: MemberTeamDto): Option<string> {
    d.username
  }

  /** Without a condition, the search returns the four members with their teams. */
  lemma SearchAllOnFixture()
    ensures |Search(Fixtures.Fixture(), NoCondition())| == 4
  {
    UnconstrainedSearchReturnsAll(Fixtures.Fixture(), NoCondition());
  }

  /**
   * Of four joined rows whose first two members are below the bound and
   * whose last two are not, `ageGoe(bound)` keeps the last two.
   */
  lemma AgeGoeKeepsLastTwo(store: Store, bound: int)
    requires |store.members| == 4
    requires store.members[0].age < bound && store.members[1].age < bound
    requires store.members[2].age >= bound && store.members[3].age >= bound
    ensures Filtered(store, NoCondition().(ageGoe := Some(bound))) == LeftJoin(store)[2..]
  {
    var condition := NoCondition().(ageGoe := Some(bound));
    var rows := LeftJoin(store);
    var w := WhereClause(condition);
    forall row ensures w(row) == (row.member.age >= bound) {
      WhereMeansMatches(condition, row);
    }
    assert rows == rows[..2] + rows[2..];
    SelectAppend(rows[..2], rows[2..], w);
    SelectNone(rows[..2], w);
    SelectAll(rows[2..], w);
  }

  /** Projecting two joined rows and reading their usernames gives the two members' usernames. */
  lemma UsernamesOfTwo(rows: seq<JoinedRow>)
    requires |rows| == 2
    ensures Map(DtoUsername, Map(ToDto, rows)) == [rows[0].member.username, rows[1].member.username]
  {
    var names := Map(DtoUsername, Map(ToDto, rows));
    assert names[0] == rows[0].member.username && names[1] == rows[1].member.username;
  }

  /** The same four rows, projected: the search returns the usernames of the last two members. */
  lemma AgeGoeKeepsOlder(store: Store, bound: int)
    requires |store.members| == 4
    requires store.members[0].age < bound && store.members[1].age < bound
    requires store.members[2].age >= bound && store.members[3].age >= bound
    ensures Map(DtoUsername, Search(store, NoCondition().(ageGoe := Some(bound))))
         == [store.members[2].username, store.members[3].username]
  {
    var condition := NoCondition().(ageGoe := Some(bound));
    AgeGoeKeepsLastTwo(store, bound);
    var kept := Filtered(store, condition);
    assert kept == LeftJoin(store)[2..];
    assert kept[0].member == store.members[2] && kept[1].member == store.members[3];
    UsernamesOfTwo(kept);
  }

  /** `search(ageGoe = 25)` returns member3 and member4. */
  lemma SearchAgeGoeOnFixture()
    ensures Map(DtoUsername, Search(Fixtures.Fixture(), NoCondition().(ageGoe := Some(25))))
         == [Some("member3"), Some("member4")]
  {
    var store := Fixtures.Fixture();
    AgeGoeKeepsOlder(store, 25);
  }

  /** A full first page (two of four rows) issues the count, which reports all four. */
  lemma FullFirstPageCounts()
    ensures |SearchPageComplex(Fixtures.Fixture(), NoCondition(), Pageable(0, 2)).page.content| == 2
    ensures SearchPageComplex(Fixtures.Fixture(), NoCondition(), Pageable(0, 2)).countIssued
    ensures SearchPageComplex(Fixtures.Fixture(), NoCondition(), Pageable(0, 2)).page.total == 4
  {
    UnconstrainedSearchReturnsAll(Fixtures.Fixture(), NoCondition());
  }

  /** A short first page (four rows, size ten) skips the count and still reports four. */
  lemma ShortFirstPageSkipsCount()
    ensures |SearchPageComplex(Fixtures.Fixture(), NoCondition(), Pageable(0, 10)).page.content| == 4
    ensures !SearchPageComplex(Fixtures.Fixture(), NoCondition(), Pageable(0, 10)).countIssued
    ensures SearchPageComplex(Fixtures.Fixture(), NoCondition(), Pageable(0, 10)).page.total == 4
  {
    UnconstrainedSearchReturnsAll(Fixtures.Fixture(), NoCondition());
  }
}
