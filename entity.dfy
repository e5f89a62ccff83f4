/** The `Member` entity and the `Team` it belongs to, with the two sides of
    their many-to-one association: `Member.team` (the owning side) and
    `Team.members` (the inverse side). `Member.ChangeTeam` is the one place
    that updates both sides together. */
module Entity {
  import opened ListOps

  /** Java `int`. */
  newtype Int32 = x: int | -0x8000_0000 <= x < 0x8000_0000

  /** A nullable Java value, such as the `Long` identifier before the
      persistence provider assigns one. */
  datatype Option<T> = None | Some(value: T)

  /** A team. Its list of members is the inverse side of the association and
      is changed in place through `Remove` and `Add`. */
  class Team {
    var name: string
    var members: seq<Member>

    constructor (name: string)
      ensures this.name == name && members == []
    {
      this.name := name;
      members := [];
    }

    /** `getMembers().remove(o)`: scans the list from the front, compares by
        identity and deletes the first match; the result says whether a match
        was found. */
    method Remove(o: Member) returns (removed: bool)
      modifies this`members
      ensures removed <==> o in old(members)
      ensures members == RemoveFirst(old(members), o)
    {
      var i := 0;
      while i < |members| && members[i] != o
        invariant 0 <= i <= |members|
        invariant forall j :: 0 <= j < i ==> members[j] != o
      {
        i := i + 1;
      }
      removed := i < |members|;
      if removed {
        RemoveFirstAtFirstIndex(members, o);
        members := members[..i] + members[i + 1..];
      }
    }

    /** `getMembers().add(o)`: appends. */
    method Add(o: Member)
      modifies this`members
      ensures members == old(members) + [o]
    {
      members := members + [o];
    }
  }

  /** A snapshot of both sides of the association: for each member the team
      its `team` field points to, and for each team its list of members. */
  ghost function TeamsOf(ms: set<Member>): (v: map<Member, Team?>)
    reads ms
  {
    map m | m in ms :: m.team
  }

  /** The list half of the snapshot. */
  ghost function ListsOf(ts: set<Team>): (v: map<Team, seq<Member>>)
    reads ts
  {
    map u | u in ts :: u.members
  }

  /** The back-reference invariant on a snapshot: every team a member points
      to is part of the snapshot, and each team's list holds a member exactly
      once when the member points to that team and not at all otherwise. */
  predicate LinkedView(teamOf: map<Member, Team?>, lists: map<Team, seq<Member>>)
  {
    && (forall m :: m in teamOf && teamOf[m] != null ==> teamOf[m] in lists)
    && (forall m, u :: m in teamOf && u in lists ==>
          multiset(lists[u])[m] == if teamOf[m] == u then 1 else 0)
  }

  /** The invariant on the heap, for the members `ms` and the teams `ts`. */
  ghost predicate Linked(ms: set<Member>, ts: set<Team>)
    reads ms, ts
  {
    LinkedView(TeamsOf(ms), ListsOf(ts))
  }

  /** What the invariant means for one member and one team: the member points
      to the team exactly when the member appears in the team's list. */
  lemma LinkedBackReference(teamOf: map<Member, Team?>, lists: map<Team, seq<Member>>,
                            m: Member, u: Team)
    requires LinkedView(teamOf, lists) && m in teamOf && u in lists
    ensures teamOf[m] == u <==> m in lists[u]
  {
  }

  /** A member that points to no team and is in no list can join the
      snapshot without breaking the invariant. */
  lemma NewMemberKeepsLinked(teamOf: map<Member, Team?>, lists: map<Team, seq<Member>>,
                             m: Member)
    requires LinkedView(teamOf, lists) && m !in teamOf
    requires forall u :: u in lists ==> m !in lists[u]
    ensures LinkedView(teamOf[m := null], lists)
  {
  }

  /** `changeTeam` on a snapshot: `m` is removed from the list of the team it
      pointed to (when it pointed to one), then points to `t` and is appended
      to `t`'s list. */
  function ChangeTeamView(teamOf: map<Member, Team?>, lists: map<Team, seq<Member>>,
                          m: Member, t: Team): (r: (map<Member, Team?>, map<Team, seq<Member>>))
    requires m in teamOf && t in lists
    requires teamOf[m] != null ==> teamOf[m] in lists
    ensures r.0.Keys == teamOf.Keys && r.1.Keys == lists.Keys
    ensures r.0[m] == t && |r.1[t]| > 0 && r.1[t][|r.1[t]| - 1] == m
    ensures forall x :: x in teamOf && x != m ==> r.0[x] == teamOf[x]
    ensures forall u :: u in lists && u != t && u != teamOf[m] ==> r.1[u] == lists[u]
  {
    var p := teamOf[m];
    var left := if p == null then lists else lists[p := RemoveFirst(lists[p], m)];
    (teamOf[m := t], left[t := left[t] + [m]])
  }

  /** One entry of the invariant after a move: how often `x` occurs in the
      list of `u` once `m` has moved to `t`, given how often `x` and `m`
      occurred before. */
  lemma ChangeTeamCount(teamOf: map<Member, Team?>, lists: map<Team, seq<Member>>,
                        m: Member, t: Team, x: Member, u: Team)
    requires m in teamOf && t in lists && x in teamOf && u in lists
    requires teamOf[m] != null ==> teamOf[m] in lists
    requires teamOf[m] != null ==> multiset(lists[teamOf[m]])[m] == 1
    requires multiset(lists[u])[x] == if teamOf[x] == u then 1 else 0
    ensures var r := ChangeTeamView(teamOf, lists, m, t);
      multiset(r.1[u])[x] == if r.0[x] == u then 1 else 0
  {
    var p := teamOf[m];
    var r := ChangeTeamView(teamOf, lists, m, t);
    if p != null && (u == p || u == t) {
      RemoveFirstMultiset(lists[p], m);
    }
    if u == t && p == t {
      assert r.1[u] == RemoveFirst(lists[t], m) + [m];
    } else if u == t {
      assert r.1[u] == lists[t] + [m];
    } else if u == p {
      assert r.1[u] == RemoveFirst(lists[p], m);
    } else {
      assert r.1[u] == lists[u];
    }
  }

  /** Moving a member keeps the back-reference invariant, for every member and
      every team in the snapshot. */
  lemma ChangeTeamKeepsLinked(teamOf: map<Member, Team?>, lists: map<Team, seq<Member>>,
                              m: Member, t: Team)
    requires LinkedView(teamOf, lists) && m in teamOf && t in lists
    ensures LinkedView(ChangeTeamView(teamOf, lists, m, t).0, ChangeTeamView(teamOf, lists, m, t).1)
  {
    var r := ChangeTeamView(teamOf, lists, m, t);
    var p := teamOf[m];
    assert p != null ==> multiset(lists[p])[m] == 1;
    forall x, u | x in r.0 && u in r.1
      ensures multiset(r.1[u])[x] == if r.0[x] == u then 1 else 0
    {
      assert multiset(lists[u])[x] == if teamOf[x] == u then 1 else 0;
      ChangeTeamCount(teamOf, lists, m, t, x, u);
    }
  }

  /** The `setTeam` setter on a snapshot points `m` at `t` and touches no
      list. Starting from a linked snapshot in which `m` points elsewhere,
      the result is never linked: `t`'s list does not hold `m`. */
  lemma SetTeamBreaksLinked(teamOf: map<Member, Team?>, lists: map<Team, seq<Member>>,
                            m: Member, t: Team)
    requires LinkedView(teamOf, lists) && m in teamOf && t in lists && teamOf[m] != t
    ensures !LinkedView(teamOf[m := t], lists)
  {
    var moved := teamOf[m := t];
    assert moved[m] == t && multiset(lists[t])[m] == 0;
  }

  /** The snapshot after `ChangeTeam`, read off the heap: when `m` now points
      to `t`, no other member of `ms` changed team, and the lists of `ts`
      differ from `lists` only as `remove` on the previous team `p` and `add`
      on `t` make them, the snapshot is `ChangeTeamView` of the earlier one. */
  lemma SnapshotAfterMove(ms: set<Member>, ts: set<Team>, m: Member, p: Team?, t: Team,
                          teamOf: map<Member, Team?>, lists: map<Team, seq<Member>>)
    requires teamOf.Keys == ms && lists.Keys == ts
    requires m in ms && t in ts && (p != null ==> p in ts) && teamOf[m] == p
    requires m.team == t
    requires forall x :: x in ms && x != m ==> x.team == teamOf[x]
    requires forall u :: u in ts && u != p && u != t ==> u.members == lists[u]
    requires p != null && p != t ==> p.members == RemoveFirst(lists[p], m)
    requires t.members == (if p == t then RemoveFirst(lists[t], m) else lists[t]) + [m]
    ensures TeamsOf(ms) == ChangeTeamView(teamOf, lists, m, t).0
    ensures ListsOf(ts) == ChangeTeamView(teamOf, lists, m, t).1
  {
  }

  class Member {
    var id: Option<int>
    var username: string
    var age: Int32
    var team: Team?

    /** `Member(String username)`: only the name is set. */
    constructor (username: string)
      ensures this.username == username
      ensures age == 0 && team == null && id == None
    {
      this.username := username;
      id := None;
      age := 0;
      team := null;
    }

    /** `Member(String username, int age, Team team)`: a non-null team is
        joined through `ChangeTeam`, which puts the new member at the end of
        that team's list. */
    constructor WithTeam(username: string, age: Int32, team: Team?,
                         ghost ms: set<Member>, ghost ts: set<Team>)
      modifies (if team == null then {} else {team})`members
      ensures this.username == username && this.age == age && id == None
      ensures this.team == team
      ensures team != null ==> team.members == old(team.members) + [this]
      ensures team != null ==> multiset(team.members)[this] == 1
      ensures old(Linked(ms, ts)) && (team != null ==> team in ts) ==>
                Linked(ms + {this}, ts)
    {
      this.username := username;
      this.age := age;
      id := None;
      this.team := null;
      new;
      if Linked(ms, ts) {
        var teamOf, lists := TeamsOf(ms), ListsOf(ts);
        assert TeamsOf(ms + {this}) == teamOf[this := null];
        assert forall u :: u in lists ==> this !in lists[u];
        NewMemberKeepsLinked(teamOf, lists, this);
      }
      if team != null {
        ChangeTeam(team, ms + {this}, ts);
      }
    }

    /** `changeTeam(Team team)`: leaves the current team's list (when there is
        a current team), points at `t`, and joins the end of `t`'s list.
        `t` must not be null: the source dereferences it unconditionally. */
    method ChangeTeam(t: Team, ghost ms: set<Member>, ghost ts: set<Team>)
      modifies this`team, (if team == null then {} else {team})`members, t`members
      ensures team == t
      ensures old(team) == null ==> t.members == old(t.members) + [this]
      ensures old(team) != null && old(team) != t ==>
                && old(team).members == RemoveFirst(old(team.members), this)
                && t.members == old(t.members) + [this]
      ensures old(team) == t ==> t.members == RemoveFirst(old(t.members), this) + [this]
      ensures old(team) == t && multiset(old(t.members))[this] == 1 ==>
                |t.members| == |old(t.members)| && multiset(t.members) == multiset(old(t.members))
      ensures this in ms && t in ts && (old(team) != null ==> old(team) in ts) ==>
                && TeamsOf(ms) == ChangeTeamView(old(TeamsOf(ms)), old(ListsOf(ts)), this, t).0
                && ListsOf(ts) == ChangeTeamView(old(TeamsOf(ms)), old(ListsOf(ts)), this, t).1
      ensures old(Linked(ms, ts)) && this in ms && t in ts ==> Linked(ms, ts)
    {
      ghost var previous := team;
      ghost var teamOf, lists := TeamsOf(ms), ListsOf(ts);
      ghost var lists0: seq<Member> := t.members;
      if team != null {
        var _ := team.Remove(this);
      }
      team := t;
      t.Add(this);
      if previous == t && multiset(lists0)[this] == 1 {
        MoveToEnd(lists0, this);
      }
      if this in ms && t in ts && (previous != null ==> previous in ts) {
        SnapshotAfterMove(ms, ts, this, previous, t, teamOf, lists);
        if LinkedView(teamOf, lists) {
          ChangeTeamKeepsLinked(teamOf, lists, this, t);
        }
      }
    }

    /** The `setTeam` setter: a plain field write that updates no team's list. */
    method SetTeam(t: Team?)
      modifies this`team
      ensures team == t
    {
      team := t;
    }
  }
}

/** The set-up of `MemberTest.testEntity`, without the persistence calls:
    two teams, then five members with ages 10 to 50 handed to the teams in
    turn. */
module EntityScenario {
  import opened Entity

  method TestEntity() returns (team1: Team, team2: Team, members: seq<Member>)
    ensures |members| == 5 && team1 != team2
    ensures forall i :: 0 <= i < 5 ==>
              && members[i].team == (if i % 2 == 0 then team1 else team2)
              && members[i].age == (10 * (i + 1)) as Int32
    ensures team1.members == [members[0], members[2], members[4]]
    ensures team2.members == [members[1], members[3]]
  {
    team1 := new Team("team1");
    team2 := new Team("team2");
    members := [];
    var i := 0;
    while i < 5
      invariant 0 <= i <= 5 && |members| == i && team1 != team2
      invariant forall j :: 0 <= j < i ==>
                  && members[j].team == (if j % 2 == 0 then team1 else team2)
                  && members[j].age == (10 * (j + 1)) as Int32
      invariant |team1.members| == (i + 1) / 2
      invariant forall k :: 0 <= k < (i + 1) / 2 ==> team1.members[k] == members[2 * k]
      invariant |team2.members| == i / 2
      invariant forall k :: 0 <= k < i / 2 ==> team2.members[k] == members[2 * k + 1]
    {
      var team := if i % 2 == 0 then team1 else team2;
      var member := new Member.WithTeam("member" + [('1' as int + i) as char],
                                        (10 * (i + 1)) as Int32, team, {}, {});
      members := members + [member];
      i := i + 1;
    }
  }
}
