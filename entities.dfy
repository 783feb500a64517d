/**
 * The two entities of the member search and the joins between them. A member
 * refers to its team by id; the storage is a pair of sequences, in the order
 * the rows were persisted.
 */
module Entities {
  import opened Wrappers
  import opened Query

  type Id = nat

  datatype Team = Team(id: Id, name: string)

  /** `username` is nullable in the entity; `teamId` is `None` for a member without a team. */
  datatype Member = Member(id: Id, username: Option<string>, age: int, teamId: Option<Id>)

  datatype Store = Store(members: seq<Member>, teams: seq<Team>)

  /** The first team whose id is `id`, or `None` when no stored team has it. */
  function FindTeam(teams: seq<Team>, id: Id): (r: Option<Team>)
    ensures r.Some? ==> r.value in teams && r.value.id == id
    ensures r.None? ==> forall t :: t in teams ==> t.id != id
  {
    if teams == [] then None
    else if teams[0].id == id then Some(teams[0])
    else FindTeam(teams[1..], id)
  }

  /** The team a member's reference resolves to, if any. */
  function TeamOf(teams: seq<Team>, m: Member): Option<Team> {
    if m.teamId.Some? then FindTeam(teams, m.teamId.value) else None
  }

  /** One row of `from member ... join member.team team`: the team half is null-extended when absent. */
  datatype JoinedRow = JoinedRow(member: Member, team: Option<Team>)

  /** `from(member).leftJoin(member.team, team)`: one row per stored member, in storage order. */
  function LeftJoin(store: Store): (rows: seq<JoinedRow>)
    ensures |rows| == |store.members|
    ensures forall i :: 0 <= i < |rows| ==> rows[i].member == store.members[i]
    ensures forall i :: 0 <= i < |rows| ==> rows[i].team == TeamOf(store.teams, store.members[i])
  {
    seq(|store.members|, i requires 0 <= i < |store.members| =>
      JoinedRow(store.members[i], TeamOf(store.teams, store.members[i])))
  }

  /** Joining concatenated storage concatenates the joined rows. */
  lemma LeftJoinAppend(a: seq<Member>, b: seq<Member>, teams: seq<Team>)
    ensures LeftJoin(Store(a + b, teams)) == LeftJoin(Store(a, teams)) + LeftJoin(Store(b, teams))
  {
  }

  predicate HasTeam(row: JoinedRow) {
    row.team.Some?
  }

  /** `from(member).join(member.team, team)`: the left join without its null-extended rows. */
  function InnerJoin(store: Store): (rows: seq<JoinedRow>)
    ensures |rows| <= |store.members|
    ensures forall row :: row in rows <==> row in LeftJoin(store) && row.team.Some?
  {
    Select(LeftJoin(store), HasTeam)
  }
}
