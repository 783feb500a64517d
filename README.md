# Member search with count-avoiding pagination

A Dafny model of the Querydsl study project's member search. Members have an id, a nullable username, an age and an optional reference to a team. Teams have an id and a name.

`MemberRepositoryImpl` turns a `MemberSearchCondition` (username, team name, lower and upper age bound, each nullable) into a `where(...)` list:

- each of `usernameEq`, `teamNameEq`, `ageGoe` and `ageLoe` either contributes a predicate or contributes nothing;
- the predicates that are present are ANDed;
- the query shape is a left join from member to team, projected to five fields (`MemberTeamDto`).

There are three retrieval modes:

- `search` returns every matching row.
- `searchPageSimple` returns an offset/limit window together with an unconditional total.
- `searchPageComplex` returns the same window, but hands the count query to `PageableExecutionUtils.getPage` as a deferred supplier. That supplier runs only when the page does not already determine the total.

`QuerydslBasicTest` is modelled as well:

- the fixture its `before` persists;
- the null-based dynamic predicates, both built step by step in a `BooleanBuilder` (`searchMember1`) and passed as nullable `where` arguments (`searchMember2`, `usernameEq`, `ageEq`, `allEq`);
- the `sort`, `paging1`/`paging2`, `join` and `subQueryIn` scenarios over that fixture.

Modules:

- `Wrappers`: `Option` and `Result`.
- `StringUtils`: Spring's `hasText`, over Java's `Character.isWhitespace`.
- `Query`: `where` as an order-keeping selection; `fetchCount`, `offset`/`limit` and `fetchResults`.
- `Entities`: members, teams, storage, and the left and inner joins.
- `Paging`: `Pageable`, `PageImpl`, and the page builder with its count-avoidance rule.
- `MemberRepository`: the repository.
- `MemberRepositoryScenarios`: the repository over the four fixture members.
- `Ordering`: `orderBy` with directions and null placement, as a stable insertion sort.
- `QuerydslBasicTest`: the test class. Its entity manager, its `BooleanBuilder` and `searchMember1` are imperative: a class with fields, and a method.

The deferred count is the parameter `totalSupplier: () -> nat` of `Paging.GetPage`. Whether it was invoked is returned as `countIssued`.

The repository's own code only hands content, request and count supplier to `PageableExecutionUtils.getPage` (`MemberRepositoryImpl.java:130`); the rule is that Spring Data method's body, reproduced here, and it is the rule the comment at `MemberRepositoryImpl.java:129` describes: the count is skipped "on the first page or the last page". A short page skips the count only when it is the first page (offset 0) or it is non-empty. An empty page past the end of the results is neither, so the count runs there. `MemberRepository.EmptyPagePastTheEndIssuesCount` shows that offset + content size would overstate the total in that case.

A simpler uniform rule, "skip the count whenever the page is short", would get that case wrong. This model follows the library's first-or-last-page rule. Because of that guard, `searchPageComplex`'s page is `searchPageSimple`'s page for every condition and every page request.

## Model

| member | source | states |
|---|---|---|
| `StringUtils.HasTextIff` | querydsl/src/main/java/study/querydsl/repository/MemberRepositoryImpl.java:134 | `hasText` holds exactly when the string is present and has a character that is not Java whitespace |
| `StringUtils.BlankHasNoText` | querydsl/src/main/java/study/querydsl/repository/MemberRepositoryImpl.java:133-141 | null, the empty string and whitespace-only strings fail `hasText` |
| `Query.Select` | querydsl/src/main/java/study/querydsl/repository/MemberRepositoryImpl.java:49-55 | `where` keeps exactly the rows the predicate accepts (membership both ways) and never adds rows |
| `Query.SelectAppend` | querydsl/src/main/java/study/querydsl/repository/MemberRepositoryImpl.java:49-55 | selection distributes over concatenation, so rows keep their storage order |
| `Query.SelectAll` | querydsl/src/main/java/study/querydsl/repository/MemberRepositoryImpl.java:49-55 | a predicate accepting every row returns the input unchanged |
| `Query.SelectNone` | querydsl/src/main/java/study/querydsl/repository/MemberRepositoryImpl.java:49-55 | a predicate accepting no row returns nothing |
| `Query.SelectExt` | querydsl/src/main/java/study/querydsl/repository/MemberRepositoryImpl.java:49-55 | predicates that agree on the rows select the same rows |
| `Query.SelectSelect` | querydsl/src/test/java/study/querydsl/QuerydslBasicTest.java:707-708 | two successive `where` clauses select what their conjunction selects |
| `Query.CountIsSelectSize` | querydsl/src/main/java/study/querydsl/repository/MemberRepositoryImpl.java:115-130 | `fetchCount` over a where clause equals the number of rows the content query selects |
| `Query.Slice` | querydsl/src/main/java/study/querydsl/repository/MemberRepositoryImpl.java:79-80 | `offset`/`limit` yields at most `limit` rows, exactly min(limit, size - offset) when the offset is inside, each the row at offset + i |
| `Query.FetchResults` | querydsl/src/main/java/study/querydsl/repository/MemberRepositoryImpl.java:81-84 | `fetchResults` reports the window and the count of all rows; with a non-zero count it reports the limit and offset it was given, with a zero count (`emptyResults()`) no limit and offset 0 |
| `Entities.FindTeam` | querydsl/src/main/java/study/querydsl/repository/MemberRepositoryImpl.java:48 | a resolved team is stored and has the referenced id; no team means no stored team has that id |
| `Entities.LeftJoin` | querydsl/src/main/java/study/querydsl/repository/MemberRepositoryImpl.java:47-48 | one row per stored member, in order, carrying the member and the team its reference resolves to, if any |
| `Entities.LeftJoinAppend` | querydsl/src/main/java/study/querydsl/repository/MemberRepositoryImpl.java:47-48 | joining concatenated storage concatenates the joined rows |
| `Entities.InnerJoin` | querydsl/src/test/java/study/querydsl/QuerydslBasicTest.java:273 | the inner join holds exactly the left-joined rows that have a team |
| `Paging.GetPage` | querydsl/src/main/java/study/querydsl/repository/MemberRepositoryImpl.java:129-130 | content and request pass through; the supplier runs iff the page is not short-and-(first or non-empty); skipped, total is offset + content size; run, total is the supplier's value |
| `Paging.ShortWindowEndsAtLastRow` | querydsl/src/main/java/study/querydsl/repository/MemberRepositoryImpl.java:129 | a short window starting inside the rows ends at the last row |
| `Paging.AvoidableWindowStartsInside` | querydsl/src/main/java/study/querydsl/repository/MemberRepositoryImpl.java:129 | when the count is skipped, the offset lies within the rows |
| `Paging.GetPageIsExact` | querydsl/src/main/java/study/querydsl/repository/MemberRepositoryImpl.java:129-130 | on either branch the total equals the true row count, given a supplier that counts the rows |
| `Paging.FullWindowIssuesCount` | querydsl/src/main/java/study/querydsl/repository/MemberRepositoryImpl.java:129-130 | a saturated page always runs the count, and the total is at least offset + page size |
| `MemberRepository.ToDto` | querydsl/src/main/java/study/querydsl/repository/MemberRepositoryImpl.java:41-46 | the projection copies id, username and age; team id and name are present exactly when the row has a team, and are that team's |
| `MemberRepository.UsernameEq` | querydsl/src/main/java/study/querydsl/repository/MemberRepositoryImpl.java:133-136 | contributes the username equality iff the text passes `hasText`, else nothing |
| `MemberRepository.TeamNameEq` | querydsl/src/main/java/study/querydsl/repository/MemberRepositoryImpl.java:138-141 | contributes the team-name equality iff the text passes `hasText`, else nothing |
| `MemberRepository.AgeGoe` | querydsl/src/main/java/study/querydsl/repository/MemberRepositoryImpl.java:143-146 | contributes age >= bound iff the bound is non-null |
| `MemberRepository.AgeLoe` | querydsl/src/main/java/study/querydsl/repository/MemberRepositoryImpl.java:148-151 | contributes age <= bound iff the bound is non-null |
| `MemberRepository.Conditions` | querydsl/src/main/java/study/querydsl/repository/MemberRepositoryImpl.java:49-54 | the where list has one slot per helper |
| `MemberRepository.WhereMeansMatches` | querydsl/src/main/java/study/querydsl/repository/MemberRepositoryImpl.java:49-54 | the ANDed where list accepts a row iff its projection meets every given field (text fields only with text) |
| `MemberRepository.WhereMeansMatchesAll` | querydsl/src/main/java/study/querydsl/repository/MemberRepositoryImpl.java:49-54 | the same equivalence for every row |
| `MemberRepository.Filtered` | querydsl/src/main/java/study/querydsl/repository/MemberRepositoryImpl.java:47-54 | the kept joined rows are exactly the left-joined rows whose projection matches |
| `MemberRepository.Search` | querydsl/src/main/java/study/querydsl/repository/MemberRepositoryImpl.java:39-56 | the result is the projection of the kept joined rows, in storage order; every returned row is the projection of a stored member's joined row and matches the condition; every stored member whose joined row matches is returned; never more rows than members |
| `MemberRepository.UnconstrainedSearchReturnsAll` | querydsl/src/main/java/study/querydsl/repository/MemberRepositoryImpl.java:49-55 | with all four fields absent the search returns one projected row per member, in storage order |
| `MemberRepository.BlankTextIsAbsent` | querydsl/src/main/java/study/querydsl/repository/MemberRepositoryImpl.java:133-141 | a username or team name without text selects exactly what a null one does |
| `MemberRepository.AgeBoundsInclusive` | querydsl/src/main/java/study/querydsl/repository/MemberRepositoryImpl.java:143-151 | `ageGoe` means age >= v, `ageLoe` means age <= v, and a member whose age is the bound satisfies both |
| `MemberRepository.MemberWithoutTeam` | querydsl/src/main/java/study/querydsl/repository/MemberRepositoryImpl.java:41-48 | a member without a team keeps its row with null team id and name; it is excluded when a team name with text is given and kept when none is and the other fields match |
| `MemberRepository.TeamNameMakesJoinInner` | querydsl/src/main/java/study/querydsl/repository/MemberRepositoryImpl.java:138-141 | with a team-name constraint the left join selects what the inner join does |
| `MemberRepository.SearchKeepsStorageOrder` | querydsl/src/main/java/study/querydsl/repository/MemberRepositoryImpl.java:39-56 | searching concatenated storage concatenates the results |
| `MemberRepository.SearchPageSimple` | querydsl/src/main/java/study/querydsl/repository/MemberRepositoryImpl.java:62-87 | the content is the window [offset, offset + pageSize) of the search, at most pageSize rows; the total is the size of the whole search |
| `MemberRepository.SimpleTotalIgnoresPageable` | querydsl/src/main/java/study/querydsl/repository/MemberRepositoryImpl.java:78-84 | the reported total is the same for every page request |
| `MemberRepository.CountQuery` | querydsl/src/main/java/study/querydsl/repository/MemberRepositoryImpl.java:115-124 | the count query over the same join and predicates counts exactly the rows the search returns |
| `MemberRepository.SearchPageComplex` | querydsl/src/main/java/study/querydsl/repository/MemberRepositoryImpl.java:94-131 | the page equals `searchPageSimple`'s (content and total); the count runs iff the page is not short-and-(first or non-empty); skipped, total is offset + content size |
| `MemberRepository.ShortPageSkipsCount` | querydsl/src/main/java/study/querydsl/repository/MemberRepositoryImpl.java:129-130 | a short first or last page skips the count and its total offset + content size equals the simple total |
| `MemberRepository.EmptyPagePastTheEndIssuesCount` | querydsl/src/main/java/study/querydsl/repository/MemberRepositoryImpl.java:129-130 | past the end the page is empty, the count runs, and offset + content size differs from the reported total |
| `MemberRepositoryScenarios.SearchAllOnFixture` | querydsl/src/main/java/study/querydsl/repository/MemberRepositoryImpl.java:39-56 | without a condition the search over the fixture returns four rows |
| `MemberRepositoryScenarios.AgeGoeKeepsLastTwo` | querydsl/src/main/java/study/querydsl/repository/MemberRepositoryImpl.java:143-146 | over four members, the first two below the bound and the last two not, `ageGoe` keeps the last two joined rows |
| `MemberRepositoryScenarios.AgeGoeKeepsOlder` | querydsl/src/main/java/study/querydsl/repository/MemberRepositoryImpl.java:39-56 | the same search returns the usernames of the last two members |
| `MemberRepositoryScenarios.SearchAgeGoeOnFixture` | querydsl/src/main/java/study/querydsl/repository/MemberRepositoryImpl.java:39-56 | `search(ageGoe = 25)` over the fixture returns member3 and member4 |
| `MemberRepositoryScenarios.FullFirstPageCounts` | querydsl/src/main/java/study/querydsl/repository/MemberRepositoryImpl.java:94-131 | offset 0, size 2 over the fixture: two rows, the count runs, total 4 |
| `MemberRepositoryScenarios.ShortFirstPageSkipsCount` | querydsl/src/main/java/study/querydsl/repository/MemberRepositoryImpl.java:94-131 | offset 0, size 10 over the fixture: four rows, no count, total 4 |
| `Ordering.StringCompare` | querydsl/src/test/java/study/querydsl/QuerydslBasicTest.java:187 | the string comparison is three-way and is zero exactly on equal strings |
| `Ordering.StringCompareFlip` | querydsl/src/test/java/study/querydsl/QuerydslBasicTest.java:187 | swapping the strings negates the comparison |
| `Ordering.StringComparePrefix` | querydsl/src/test/java/study/querydsl/QuerydslBasicTest.java:187 | a common prefix does not change the comparison |
| `Ordering.KeyCompare` | querydsl/src/test/java/study/querydsl/QuerydslBasicTest.java:168 | one order specifier compares two members three-way |
| `Ordering.Compare` | querydsl/src/test/java/study/querydsl/QuerydslBasicTest.java:168 | the specifier list compares three-way, the first non-tie deciding |
| `Ordering.StringCompareTrans` | querydsl/src/test/java/study/querydsl/QuerydslBasicTest.java:187 | the string comparison is transitive |
| `Ordering.KeyCompareTrans` | querydsl/src/test/java/study/querydsl/QuerydslBasicTest.java:168 | one order specifier, with its direction and null placement, is transitive |
| `Ordering.CompareTrans` | querydsl/src/test/java/study/querydsl/QuerydslBasicTest.java:168 | the specifier list is transitive, so with `CompareFlip` it is a total preorder on members |
| `Ordering.SortedPairwise` | querydsl/src/test/java/study/querydsl/QuerydslBasicTest.java:168 | a sequence sorted on neighbours has every member in order with every later member |
| `Ordering.CompareFlip` | querydsl/src/test/java/study/querydsl/QuerydslBasicTest.java:168 | swapping the members negates the comparison |
| `Ordering.ConsSorted` | querydsl/src/test/java/study/querydsl/QuerydslBasicTest.java:168 | a member not after the head of a sorted sequence keeps it sorted when put in front |
| `Ordering.Insert` | querydsl/src/test/java/study/querydsl/QuerydslBasicTest.java:168 | insertion adds one member and starts with it or with the old head |
| `Ordering.InsertPermutes` | querydsl/src/test/java/study/querydsl/QuerydslBasicTest.java:168 | insertion adds exactly that member to the multiset |
| `Ordering.InsertSorted` | querydsl/src/test/java/study/querydsl/QuerydslBasicTest.java:168 | insertion into a sorted sequence keeps it sorted |
| `Ordering.InsertAtEnd` | querydsl/src/test/java/study/querydsl/QuerydslBasicTest.java:168 | a member after every other one is inserted at the end |
| `Ordering.OrderBy` | querydsl/src/test/java/study/querydsl/QuerydslBasicTest.java:165-169 | `orderBy` returns as many rows as it was given |
| `Ordering.OrderBySorted` | querydsl/src/test/java/study/querydsl/QuerydslBasicTest.java:165-169 | the result is sorted by the specifiers: each row is in order with its neighbour and with every later row |
| `Ordering.OrderByPermutes` | querydsl/src/test/java/study/querydsl/QuerydslBasicTest.java:165-169 | the result is a permutation of the input |
| `Ordering.OrderByCons` | querydsl/src/test/java/study/querydsl/QuerydslBasicTest.java:165-169 | ordering a row followed by others inserts it into the ordered others |
| `QuerydslBasicTest.EntityManager.constructor` | querydsl/src/test/java/study/querydsl/QuerydslBasicTest.java:45 | the entity manager starts with empty storage and id counter 1 |
| `QuerydslBasicTest.EntityManager.PersistTeam` | querydsl/src/test/java/study/querydsl/QuerydslBasicTest.java:54-55 | persisting a team appends it with the next id and changes nothing else |
| `QuerydslBasicTest.EntityManager.PersistMember` | querydsl/src/test/java/study/querydsl/QuerydslBasicTest.java:62-65 | persisting a member appends it with the next id and its team's id, and changes nothing else |
| `QuerydslBasicTest.Fixture` | querydsl/src/test/java/study/querydsl/QuerydslBasicTest.java:52-65 | two teams and four members, each member in a stored team |
| `QuerydslBasicTest.Before` | querydsl/src/test/java/study/querydsl/QuerydslBasicTest.java:49-66 | `before` leaves storage equal to the fixture, with ids 1..6 drawn |
| `QuerydslBasicTest.BooleanBuilder.constructor` | querydsl/src/test/java/study/querydsl/QuerydslBasicTest.java:677 | a new builder holds no predicate |
| `QuerydslBasicTest.BooleanBuilder.And` | querydsl/src/test/java/study/querydsl/QuerydslBasicTest.java:679 | `and(null)` keeps the predicate; otherwise the argument is held or ANDed on; the result accepts what both accepted |
| `QuerydslBasicTest.SearchMember1` | querydsl/src/test/java/study/querydsl/QuerydslBasicTest.java:675-690 | selects exactly the members meeting each non-null condition, in storage order |
| `QuerydslBasicTest.DynamicQueryBooleanBuilder` | querydsl/src/test/java/study/querydsl/QuerydslBasicTest.java:663-670 | `dynamicQuery_BooleanBuilder`: after `before`, `searchMember1("member1", 10)` returns exactly one member, member1 |
| `QuerydslBasicTest.UsernameEq` | querydsl/src/test/java/study/querydsl/QuerydslBasicTest.java:712-715 | no constraint exactly for null; otherwise the username equality |
| `QuerydslBasicTest.AgeEq` | querydsl/src/test/java/study/querydsl/QuerydslBasicTest.java:717-720 | no constraint exactly for null; otherwise the age equality |
| `QuerydslBasicTest.EmptyUsernameStillConstrains` | querydsl/src/test/java/study/querydsl/QuerydslBasicTest.java:712-715 | an empty username is an equality here (matching only username "") but no constraint in the repository |
| `QuerydslBasicTest.AllEq` | querydsl/src/test/java/study/querydsl/QuerydslBasicTest.java:725-727 | fails exactly for a null username; otherwise accepts exactly the members meeting each non-null condition |
| `QuerydslBasicTest.DuplicateFilterIsIdempotent` | querydsl/src/test/java/study/querydsl/QuerydslBasicTest.java:707-708 | adding a filter the where list already implies selects the same members |
| `QuerydslBasicTest.SearchMember2` | querydsl/src/test/java/study/querydsl/QuerydslBasicTest.java:704-710 | fails exactly for a null username; otherwise selects what `searchMember1` selects |
| `QuerydslBasicTest.NullConditionsSelectAll` | querydsl/src/test/java/study/querydsl/QuerydslBasicTest.java:675-690 | with both conditions null every member is selected |
| `QuerydslBasicTest.SearchMember1OnFixture` | querydsl/src/test/java/study/querydsl/QuerydslBasicTest.java:663-670 | ("member1", 10) over the fixture selects member1 alone, through either search |
| `QuerydslBasicTest.SelectAge100` | querydsl/src/test/java/study/querydsl/QuerydslBasicTest.java:167 | `age.eq(100)` drops members of other ages and keeps those of age 100 in order |
| `QuerydslBasicTest.SortSelection` | querydsl/src/test/java/study/querydsl/QuerydslBasicTest.java:161-167 | over the `sort` test's storage the filter keeps the three members it added |
| `QuerydslBasicTest.SameAgeComparesUsernames` | querydsl/src/test/java/study/querydsl/QuerydslBasicTest.java:168 | between members of one age the order falls to username ascending, nulls last |
| `QuerydslBasicTest.OrderByMovesFirstToEnd` | querydsl/src/test/java/study/querydsl/QuerydslBasicTest.java:168 | a first member placed after both others, which are in order, moves to the end |
| `QuerydslBasicTest.SortOfSameAge` | querydsl/src/test/java/study/querydsl/QuerydslBasicTest.java:168-177 | three same-age members named nothing, member5, member6 order as member5, member6, nameless |
| `QuerydslBasicTest.SortScenario` | querydsl/src/test/java/study/querydsl/QuerydslBasicTest.java:158-178 | `sort` returns member5, member6, then the member without a username |
| `QuerydslBasicTest.MemberNamesAscend` | querydsl/src/test/java/study/querydsl/QuerydslBasicTest.java:187 | member1 < member2 < member3 < member4 and member5 < member6 by character code |
| `QuerydslBasicTest.OrderByReversesFour` | querydsl/src/test/java/study/querydsl/QuerydslBasicTest.java:187 | four members each placed after the ones behind it come out reversed |
| `QuerydslBasicTest.UsernameDescOrdersFixture` | querydsl/src/test/java/study/querydsl/QuerydslBasicTest.java:185-190 | username descending orders the fixture member4, member3, member2, member1 |
| `QuerydslBasicTest.PagingScenario` | querydsl/src/test/java/study/querydsl/QuerydslBasicTest.java:183-212 | offset 1, limit 2 yields two rows (member3, member2); `fetchResults` reports total 4, limit 2, offset 1 |
| `QuerydslBasicTest.JoinScenario` | querydsl/src/test/java/study/querydsl/QuerydslBasicTest.java:269-280 | the inner join filtered by team name teamA yields member1, member2 |
| `QuerydslBasicTest.SubQueryInIsAgeOver10` | querydsl/src/test/java/study/querydsl/QuerydslBasicTest.java:438-446 | over any storage, `age in (ages above 10)` selects exactly the members older than 10 |
| `QuerydslBasicTest.SubQueryInScenario` | querydsl/src/test/java/study/querydsl/QuerydslBasicTest.java:432-450 | over the fixture the subquery selects ages 20, 30, 40 |

## Left out

- SQL generation, JPA persistence and the ORM entity lifecycle. Storage is a pair of sequences, and queries are functions over them.
- The HTTP controller (`MemberController`). It only routes requests and wraps results.
- Failures of the underlying storage. Every query in the model succeeds.
- `PageableExecutionUtils` handles an unpaged `Pageable` specially. That case is not reachable through the repository's offset/limit use, so it is not modelled.
- `PageImpl`'s own adjustment of the total it is handed is not modelled. The page records the total it receives.
- `long` offsets and counts, and `Integer` ages, are unbounded integers. The fixture's values are far from any overflow.
- `hasText` looks at UTF-16 code units. The model looks at Unicode scalar values with Java's whitespace classification written out. The two differ only for surrogate pairs, which are never whitespace.
- Database collation is not modelled. Strings compare by character code. H2's default null placement is lowest, which puts nulls first ascending and last descending.
- Ordering is a stable insertion sort, so rows that tie keep their storage order. SQL leaves the order of ties unspecified.
- `search` has no `orderBy`. Its rows come back in storage order, whereas a database promises no order.
- Ids are assigned by one counter shared by teams and members, starting at 1. The entity classes and their id generation are not part of this model.
- Fetch-join loading checks, aggregates and group-by averages (floating point) are not modelled.
- SQL function templates, `case`, `concat`, bulk update and delete, theta and `on` joins, and DTO projection variants are not modelled. Each is executed by the database or the library, or only prints results.
- Ordering.OrderBy: states only its length in its own contract. Sortedness and permutation are separate lemmas (`Ordering.OrderBySorted`, `Ordering.OrderByPermutes`), so that concrete scenarios stay cheap to check.
- Ordering.Insert: states only its length and head in its own contract. Its sortedness and permutation properties are `Ordering.InsertSorted` and `Ordering.InsertPermutes`.
- A `Pageable` with a negative offset or a page size below one cannot be represented (`Paging.Pageable`, `Paging.PageSize`): Spring's `PageRequest` rejects them with an `IllegalArgumentException` when the request is built, before the repository runs, so the repository never sees them.
- The test class is `@Transactional` and `@Commit`, so each test commits its fixture. The scenario lemmas start every test from fresh storage holding only what `before` (and, for `sort`, the test itself) persists; rows left by earlier committed tests are not modelled.
