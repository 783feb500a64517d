/**
 * `MemberRepositoryImpl`: the member search with four optional filters, a
 * left join from member to team, a five-field projection, and two ways of
 * paging the result (always counting, or counting only when the page does
 * not already determine the total).
 */
module MemberRepository {
  import opened Wrappers
  import opened StringUtils
  import opened Entities
  import opened Query
  import opened Paging

  /** `MemberSearchCondition`: every field may be null. */
  datatype MemberSearchCondition = MemberSearchCondition(
    username: Option<string>,
    teamName: Option<string>,
    ageGoe: Option<int>,
    ageLoe: Option<int>)

  /** `MemberTeamDto`: team id and name are null for a member without a team. */
  datatype MemberTeamDto = MemberTeamDto(
    memberId: Id,
    username: Option<string>,
    age: int,
    teamId: Option<Id>,
    teamName: Option<string>)

  /** The select clause: `member.id, member.username, member.age, team.id, team.name`. */
  function ToDto(row: JoinedRow): (d: MemberTeamDto)
    ensures d.memberId == row.member.id && d.username == row.member.username && d.age == row.member.age
    ensures d.teamId.Some? <==> row.team.Some?
    ensures d.teamName.Some? <==> row.team.Some?
    ensures row.team.Some? ==> d.teamId == Some(row.team.value.id) && d.teamName == Some(row.team.value.name)
  {
    MemberTeamDto(
      row.member.id, row.member.username, row.member.age,
      if row.team.Some? then Some(row.team.value.id) else None,
      if row.team.Some? then Some(row.team.value.name) else None)
  }

  /** The four predicates the helpers can contribute. */
  datatype BooleanExpression =
    | UsernameIs(username: string)
    | TeamNameIs(name: string)
    | AgeAtLeast(lower: int)
    | AgeAtMost(upper: int)

  /**
   * SQL truth of a predicate on a joined row: a comparison with a null
   * column (no username, no team) is not true, so the row is not selected.
   */
  predicate Holds(e: BooleanExpression, row: JoinedRow) {
    match e
    case UsernameIs(u) => row.member.username == Some(u)
    case TeamNameIs(n) => row.team.Some? && row.team.value.name == n
    case AgeAtLeast(v) => row.member.age >= v
    case AgeAtMost(v) => row.member.age <= v
  }

  /** `usernameEq`: an equality on the username when the text has a non-whitespace character, else nothing. */
  function UsernameEq(username: Option<string>): (e: Option<BooleanExpression>)
    ensures e.Some? <==> HasText(username)
    ensures e.Some? ==> e.value == UsernameIs(username.value)
  {
    if HasText(username) then Some(UsernameIs(username.value)) else None
  }

  /** `teamNameEq`: an equality on the joined team's name when the text has a non-whitespace character. */
  function TeamNameEq(teamName: Option<string>): (e: Option<BooleanExpression>)
    ensures e.Some? <==> HasText(teamName)
    ensures e.Some? ==> e.value == TeamNameIs(teamName.value)
  {
    if HasText(teamName) then Some(TeamNameIs(teamName.value)) else None
  }

  /** `ageGoe`: age >= bound when the bound is non-null. */
  function AgeGoe(ageGoe: Option<int>): (e: Option<BooleanExpression>)
    ensures e.Some? <==> ageGoe.Some?
    ensures e.Some? ==> e.value == AgeAtLeast(ageGoe.value)
  {
    if ageGoe.Some? then Some(AgeAtLeast(ageGoe.value)) else None
  }

  /** `ageLoe`: age <= bound when the bound is non-null. */
  function AgeLoe(ageLoe: Option<int>): (e: Option<BooleanExpression>)
    ensures e.Some? <==> ageLoe.Some?
    ensures e.Some? ==> e.value == AgeAtMost(ageLoe.value)
  {
    if ageLoe.Some? then Some(AgeAtMost(ageLoe.value)) else None
  }

  /** The argument list of `where(...)`, one slot per helper. */
  function Conditions(condition: MemberSearchCondition): (preds: seq<Option<BooleanExpression>>)
    ensures |preds| == 4
  {
    [UsernameEq(condition.username), TeamNameEq(condition.teamName),
     AgeGoe(condition.ageGoe), AgeLoe(condition.ageLoe)]
  }

  /** `where(p1, ..., pn)`: null arguments are skipped and the others are ANDed. */
  predicate Where(preds: seq<Option<BooleanExpression>>, row: JoinedRow) {
    forall i :: 0 <= i < |preds| && preds[i].Some? ==> Holds(preds[i].value, row)
  }

  function WhereClause(condition: MemberSearchCondition): JoinedRow -> bool {
    row => Where(Conditions(condition), row)
  }

  /**
   * What a returned row must satisfy, stated on the projected fields: each
   * constraint applies only when its field is given (text fields: with text).
   */
  predicate Matches(condition: MemberSearchCondition, d: MemberTeamDto) {
    && (HasText(condition.username) ==> d.username == condition.username)
    && (HasText(condition.teamName) ==> d.teamName == condition.teamName)
    && (condition.ageGoe.Some? ==> d.age >= condition.ageGoe.value)
    && (condition.ageLoe.Some? ==> d.age <= condition.ageLoe.value)
  }

  /** The where list built from a condition accepts a row exactly when the row's projection matches it. */
  lemma WhereMeansMatches(condition: MemberSearchCondition, row: JoinedRow)
    ensures Where(Conditions(condition), row) <==> Matches(condition, ToDto(row))
  {
    var preds := Conditions(condition);
    if Where(preds, row) {
      assert preds[0].Some? ==> Holds(preds[0].value, row);
      assert preds[1].Some? ==> Holds(preds[1].value, row);
      assert preds[2].Some? ==> Holds(preds[2].value, row);
      assert preds[3].Some? ==> Holds(preds[3].value, row);
    }
  }

  lemma WhereMeansMatchesAll(condition: MemberSearchCondition)
    ensures forall row :: Where(Conditions(condition), row) <==> Matches(condition, ToDto(row))
  {
    forall row ensures Where(Conditions(condition), row) <==> Matches(condition, ToDto(row)) {
      WhereMeansMatches(condition, row);
    }
  }

  /** The joined rows the shared query shape keeps, in storage order. */
  function Filtered(store: Store, condition: MemberSearchCondition): (rows: seq<JoinedRow>)
    ensures |rows| <= |store.members|
    ensures forall row :: row in rows <==> row in LeftJoin(store) && Matches(condition, ToDto(row))
  {
    WhereMeansMatchesAll(condition);
    Select(LeftJoin(store), WhereClause(condition))
  }

  /**
   * `search(condition)`: every returned row matches the condition, and every
   * stored member whose joined row matches is returned in projected form.
   */
  function Search(store: Store, condition: MemberSearchCondition): (r: seq<MemberTeamDto>)
    ensures r == Map(ToDto, Filtered(store, condition))
    ensures forall d :: d in r ==> exists i :: 0 <= i < |store.members| && d == ToDto(LeftJoin(store)[i])
    ensures |r| <= |store.members|
    ensures forall d :: d in r ==> Matches(condition, d)
    ensures forall i :: 0 <= i < |store.members| && Matches(condition, ToDto(LeftJoin(store)[i]))
              ==> ToDto(LeftJoin(store)[i]) in r
  {
    var rows := Filtered(store, condition);
    var r := Map(ToDto, rows);
    assert forall d :: d in r ==> exists j :: 0 <= j < |rows| && d == ToDto(rows[j]);
    assert forall j :: 0 <= j < |rows| ==> rows[j] in LeftJoin(store);
    assert forall i :: 0 <= i < |store.members| && Matches(condition, ToDto(LeftJoin(store)[i]))
             ==> LeftJoin(store)[i] in rows;
    r
  }

  /** A condition with no field in effect: no username or team name with text, no age bound. */
  predicate Unconstrained(condition: MemberSearchCondition) {
    && !HasText(condition.username) && !HasText(condition.teamName)
    && condition.ageGoe.None? && condition.ageLoe.None?
  }

  /** With no field in effect, `search` returns one row per stored member, in storage order. */
  lemma UnconstrainedSearchReturnsAll(store: Store, condition: MemberSearchCondition)
    requires Unconstrained(condition)
    ensures Search(store, condition) == Map(ToDto, LeftJoin(store))
    ensures |Search(store, condition)| == |store.members|
  {
    SelectAll(LeftJoin(store), WhereClause(condition));
  }

  /** Text fields without text behave exactly like null ones. */
  lemma BlankTextIsAbsent(store: Store, condition: MemberSearchCondition)
    ensures !HasText(condition.username) ==>
              Search(store, condition) == Search(store, condition.(username := None))
    ensures !HasText(condition.teamName) ==>
              Search(store, condition) == Search(store, condition.(teamName := None))
  {
  }

  /** Both age bounds are inclusive: a member whose age equals a bound satisfies that bound. */
  lemma AgeBoundsInclusive(row: JoinedRow, bound: int)
    ensures Where([AgeGoe(Some(bound))], row) <==> row.member.age >= bound
    ensures Where([AgeLoe(Some(bound))], row) <==> row.member.age <= bound
    ensures row.member.age == bound ==> Where([AgeGoe(Some(bound)), AgeLoe(Some(bound))], row)
  {
    assert [AgeGoe(Some(bound))][0] == Some(AgeAtLeast(bound));
    assert [AgeLoe(Some(bound))][0] == Some(AgeAtMost(bound));
  }

  /**
   * The left join never drops a member: a member without a team yields a
   * row with null team id and team name, and that row is excluded
   * exactly when a team name is constrained (the other fields permitting).
   */
  lemma MemberWithoutTeam(store: Store, condition: MemberSearchCondition, i: nat)
    requires i < |store.members|
    requires TeamOf(store.teams, store.members[i]).None?
    ensures LeftJoin(store)[i].member == store.members[i]
    ensures ToDto(LeftJoin(store)[i]).teamId.None? && ToDto(LeftJoin(store)[i]).teamName.None?
    ensures HasText(condition.teamName) ==> ToDto(LeftJoin(store)[i]) !in Search(store, condition)
    ensures (!HasText(condition.teamName) && Matches(condition, ToDto(LeftJoin(store)[i])))
            ==> ToDto(LeftJoin(store)[i]) in Search(store, condition)
  {
  }

  /** A team-name constraint turns the left join into an inner join. */
  lemma TeamNameMakesJoinInner(store: Store, condition: MemberSearchCondition)
    requires HasText(condition.teamName)
    ensures Filtered(store, condition) == Select(InnerJoin(store), WhereClause(condition))
  {
    var w := WhereClause(condition);
    var both := (row: JoinedRow) => HasTeam(row) && w(row);
    SelectSelect(LeftJoin(store), HasTeam, w, both);
    forall row | row in LeftJoin(store) ensures w(row) == both(row) {
      if w(row) {
        WhereMeansMatches(condition, row);
      }
    }
    SelectExt(LeftJoin(store), w, both);
  }

  /** Rows come back in storage order: searching concatenated storage concatenates the results. */
  lemma SearchKeepsStorageOrder(a: seq<Member>, b: seq<Member>, teams: seq<Team>, condition: MemberSearchCondition)
    ensures Search(Store(a + b, teams), condition)
         == Search(Store(a, teams), condition) + Search(Store(b, teams), condition)
  {
    var w := WhereClause(condition);
    LeftJoinAppend(a, b, teams);
    SelectAppend(LeftJoin(Store(a, teams)), LeftJoin(Store(b, teams)), w);
    assert Filtered(Store(a + b, teams), condition)
        == Filtered(Store(a, teams), condition) + Filtered(Store(b, teams), condition);
    MapAppend(ToDto, Filtered(Store(a, teams), condition), Filtered(Store(b, teams), condition));
  }

  /**
   * `searchPageSimple`: `fetchResults` returns the window
   * [offset, offset + pageSize) of the search and the count of all of it.
   */
  function SearchPageSimple(store: Store, condition: MemberSearchCondition, pageable: Pageable): (page: Page<MemberTeamDto>)
    ensures page.pageable == pageable
    ensures page.content == Slice(Search(store, condition), pageable.offset, pageable.pageSize)
    ensures |page.content| <= pageable.pageSize
    ensures page.total == |Search(store, condition)|
  {
    var results := FetchResults(Search(store, condition), pageable.offset, pageable.pageSize);
    PageImpl(results.results, pageable, results.total)
  }

  /** The reported total depends only on the condition, never on the page asked for. */
  lemma SimpleTotalIgnoresPageable(store: Store, condition: MemberSearchCondition, p: Pageable, q: Pageable)
    ensures SearchPageSimple(store, condition, p).total == SearchPageSimple(store, condition, q).total
  {
  }

  /** The `countQuery`: same left join, same four predicates, counted without projection. */
  function CountQuery(store: Store, condition: MemberSearchCondition): (n: nat)
    ensures n == |Search(store, condition)|
  {
    CountIsSelectSize(LeftJoin(store), WhereClause(condition));
    Count(LeftJoin(store), WhereClause(condition))
  }

  /**
   * `searchPageComplex`: the content query, then `getPage` with the count
   * deferred. The page equals `searchPageSimple`'s, content and total; the
   * count runs only when the page does not determine the total, and when it
   * does not run the total is offset + content size.
   */
  function SearchPageComplex(store: Store, condition: MemberSearchCondition, pageable: Pageable)
    : (r: PageOutcome<MemberTeamDto>)
    ensures r.page == SearchPageSimple(store, condition, pageable)
    ensures r.countIssued <==> !CountAvoidable(pageable, |r.page.content|)
    ensures !r.countIssued ==> r.page.total == pageable.offset + |r.page.content|
  {
    var content := Slice(Search(store, condition), pageable.offset, pageable.pageSize);
    var supplier := () => CountQuery(store, condition);
    GetPageIsExact(Search(store, condition), pageable, supplier);
    GetPage(content, pageable, supplier)
  }

  /** A short page that starts inside the result skips the count and still reports the true total. */
  lemma ShortPageSkipsCount(store: Store, condition: MemberSearchCondition, pageable: Pageable)
    requires pageable.offset <= |Search(store, condition)|
    requires |SearchPageComplex(store, condition, pageable).page.content| < pageable.pageSize
    requires pageable.offset == 0 || |SearchPageComplex(store, condition, pageable).page.content| > 0
    ensures !SearchPageComplex(store, condition, pageable).countIssued
    ensures SearchPageComplex(store, condition, pageable).page.total
         == pageable.offset + |SearchPageComplex(store, condition, pageable).page.content|
         == SearchPageSimple(store, condition, pageable).total
  {
  }

  /**
   * Past the end the page is empty, hence short, yet offset + content size
   * would overstate the total: the count has to run there, and does.
   */
  lemma EmptyPagePastTheEndIssuesCount(store: Store, condition: MemberSearchCondition, pageable: Pageable)
    requires pageable.offset > |Search(store, condition)|
    ensures SearchPageComplex(store, condition, pageable).page.content == []
    ensures SearchPageComplex(store, condition, pageable).countIssued
    ensures pageable.offset + |SearchPageComplex(store, condition, pageable).page.content|
         != SearchPageComplex(store, condition, pageable).page.total
  {
  }
}
