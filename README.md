# Member ↔ Team back-reference

This project models the one piece of hand-written logic in the `study.datajpa`
JPA study project: how a `Member` entity keeps its many-to-one association with a
`Team` consistent on both sides. `Member.team` is the owning side. The team's
`members` list is the inverse side. `Member.changeTeam(team)` updates both sides:

1. If the member already has a team, it removes itself from that team's list.
   This is `List.remove(Object)`: the first occurrence goes, compared by identity.
2. It sets its own `team` field.
3. It appends itself to the new team's list.

The three-argument constructor routes a non-null team through `changeTeam`. The
one-argument constructor sets only the username.

Layout:

- `list_ops.dfy` (module `ListOps`) gives the `java.util.List` behaviour that
  `changeTeam` relies on, stated over sequences. `RemoveFirst` is `remove(Object)`.
  It comes with lemmas for relative order, element counts, and the remove-then-re-add
  move.
- `entity.dfy` (module `Entity`) has `Team` and `Member` as classes whose methods
  change fields in place, with field-granular `modifies` frames.
  `Member.ChangeTeam` may change only `this.team`, the previous team's `members`
  and the new team's `members`.
  - The back-reference invariant is stated on a snapshot of the heap, and on
    the heap itself through `Linked(ms, ts)`. The snapshot is a map from each
    member to its team and a map from each team to its list. The invariant
    says a member's `team` points to a team exactly when the member appears in
    that team's list, and then it appears exactly once.
  - `ChangeTeamView` is the specification of `changeTeam` on snapshots.
    `ChangeTeamKeepsLinked` proves that it preserves the invariant.
  - `Member.ChangeTeam` takes a set of members and a set of teams as ghost
    arguments. It is proved to change the heap exactly as `ChangeTeamView`
    says, for any such sets that contain the member, its previous team and the
    new team.
- Module `EntityScenario` (in `entity.dfy`) replays the object set-up of
  `MemberTest.testEntity`: two teams and five members handed to them in turn.

## Model

| member | source | states |
|---|---|---|
| ListOps.FirstIndex | src/main/java/study/datajpa/entity/Member.java:49 | the position `remove(this)` deletes: an index holding the member with no earlier occurrence before it |
| ListOps.RemoveFirst | src/main/java/study/datajpa/entity/Member.java:49 | `remove(o)` shortens the list by exactly one when `o` is present and leaves it unchanged when `o` is absent |
| ListOps.RemoveFirstAtFirstIndex | src/main/java/study/datajpa/entity/Member.java:48-49 | removal deletes exactly the first occurrence; all other elements keep their relative order |
| ListOps.RemoveFirstMultiset | src/main/java/study/datajpa/entity/Member.java:48-49 | removal takes one copy of the member out of the list (when there is one) and changes the count of no other element |
| ListOps.MoveToEnd | src/main/java/study/datajpa/entity/Member.java:48-52 | reassigning to the same team, when the member is in its list once: same length, same elements, the member last and not elsewhere, the others in their old order |
| Entity.Team.constructor | src/test/java/study/datajpa/entity/MemberTest.java:33 | a new team has the given name and an empty member list |
| Entity.Team.Remove | src/main/java/study/datajpa/entity/Member.java:49 | the identity-comparing scan deletes the first occurrence (the list becomes `RemoveFirst` of the old list) and reports whether the member was present |
| Entity.Team.Add | src/main/java/study/datajpa/entity/Member.java:52 | appends the member to the end of the list |
| Entity.LinkedBackReference | src/main/java/study/datajpa/entity/Member.java:47-53 | under the invariant, a member points to a team if and only if it appears in that team's list |
| Entity.NewMemberKeepsLinked | src/main/java/study/datajpa/entity/Member.java:35-45 | a freshly constructed member with no team, in no list, can join a linked snapshot without breaking the invariant |
| Entity.ChangeTeamView | src/main/java/study/datajpa/entity/Member.java:47-53 | `changeTeam` on a snapshot: the member points to `t` and is last in `t`'s list; every other member's team and every list other than the old and the new team's stay as they were |
| Entity.ChangeTeamCount | src/main/java/study/datajpa/entity/Member.java:47-53 | after the move, each member occurs once in the list of the team it points to and nowhere else, given that this held before |
| Entity.ChangeTeamKeepsLinked | src/main/java/study/datajpa/entity/Member.java:47-53 | `changeTeam` preserves the back-reference invariant for every member and every team in the snapshot, including a move to the same team |
| Entity.SetTeamBreaksLinked | src/main/java/study/datajpa/entity/Member.java:20 | the generated setter, used at src/test/java/study/datajpa/repository/MemberRepositoryTest.java:128, bypasses the list: a linked snapshot in which the member is pointed at a different team is never linked afterwards |
| Entity.SnapshotAfterMove | src/main/java/study/datajpa/entity/Member.java:47-53 | the heap after the remove, the field write and the add, read as a snapshot, equals `ChangeTeamView` of the snapshot before |
| Entity.Member.constructor | src/main/java/study/datajpa/entity/Member.java:35-37 | `Member(username)` sets the username, leaves age 0, team null and id unassigned, and changes no team's list (it modifies nothing) |
| Entity.Member.WithTeam | src/main/java/study/datajpa/entity/Member.java:39-45 | `Member(username, age, team)` sets username and age. With a null team it leaves `team` null and touches no list. With a team, `team` points to it and the new member is its list's last element and occurs there exactly once. The invariant extends to the new member |
| Entity.Member.ChangeTeam | src/main/java/study/datajpa/entity/Member.java:47-53 | needs a non-null team. Afterwards `team == t` and `t`'s list ends with the member. The old team (if any) loses exactly the first occurrence. A same-team move of a member listed once keeps the length and the contents. Only `this.team` and those two lists change. The snapshot after is `ChangeTeamView` of the snapshot before, and the invariant is kept |
| Entity.Member.SetTeam | src/main/java/study/datajpa/entity/Member.java:20 | the setter writes `team` and nothing else |
| EntityScenario.TestEntity | src/test/java/study/datajpa/entity/MemberTest.java:30-41 | two teams and five members with ages 10 to 50 assigned alternately: team1's list is members 1, 3, 5 and team2's is members 2, 4, in creation order |

## Left out

- Persistence-provider behaviour is not modelled. This covers id generation (`@GeneratedValue`), the lazy proxy behind `team`, flushing and clearing the persistence context, and the protected no-argument constructor that the provider uses. `id` is held as an optional integer that no operation assigns.
- The Lombok getters and `toString` carry no logic and are not modelled. The setters are modelled only for `team`, as a plain field write.
- `Team.java` is not part of this model. `Team` is reconstructed from its uses: a name given to its constructor and a mutable `members` list. That list is `getMembers()`, and the model keeps it as a field of the team, so that `remove` and `add` change the team's own list. Any other fields of `Team` are unknown. A new team's list is assumed to start empty, as a field initialised with `new ArrayList<>()` would; the exact lists in `EntityScenario.TestEntity` depend on that assumption.
- The boolean results of `add` and `remove` are ignored by `changeTeam`. `Team.Add` does not return one.
- `username` is a `string`, so a null username is not representable.
- `age` is a 32-bit integer type. No operation computes with it, so wrap-around does not arise.
- A two-argument constructor `Member(String, int)` is called by the start-up seeding in `MemberController.java:45` and by the tests. `Member.java` does not declare it, so it is not modelled.
- The tests also call auditing getters such as `getCreatedDate` that `Member.java` does not declare. They are not modelled.
- `MemberRepository` (derived and `@Query` finders), `MemberController` (HTTP endpoints, paging, start-up data seeding) and `Item` (auditing timestamps from the clock) are framework behaviour with no logic in this repository. They are not modelled.
- The tests' assertions about database round-trips are not modelled.
- EntityScenario.TestEntity: does not restate the back-reference invariant for its five members. `Member.WithTeam` proves that invariant for each construction. Restating it across the scenario would cost more proof effort than it adds.
- Member.ChangeTeam: a null team is excluded by the parameter's type. Called with null, the source would first remove the member from its old team's list, then set its `team` field to null, and only then throw `NullPointerException` at `Member.java:52`. That partial update before the throw is not represented. The one caller in `Member.java:42-43` never passes null.
