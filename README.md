# Team registry, modelled in Dafny

This project models the team registry of a multiplayer game server: the Go
type `TeamSystem` in `pkg/team.go`. `main.go` repeats the same type with the
same behaviour, except that its result codes are named `kRetTeam*` instead of
`kTeam*` (the numbers are the same). One model covers both copies.

The registry keeps three pieces of state:

- a team directory, mapping each team id to a team (leader, id, ordered
  members, ordered applicant queue, capacity);
- a player index, mapping each player to the id of the team they belong to;
- a counter holding the last team id handed out.

Each operation checks its conditions in a fixed order. It returns `0` on
success and one of the codes 5002–5021 otherwise.

## Files

- `sequences.dfy` (module `Sequences`): the ordered id lists teams keep.
  It covers duplicate-freedom and the splice `append(s[:i], s[i+1:]...)`
  that removes the first occurrence of an id. It also finds the first
  repeated entry of a list, which is where `JoinTeamByMemberList` stops.
- `team_model.dfy` (module `TeamModel`): ids, result codes and limits as
  constants; the `Team`, `CreateTeamParam` and `Registry` values; and the
  registry invariant `Consistent`. For each successful operation it has a
  function giving the state that operation leaves behind (`Created`,
  `Admitted`, `AdmittedAll`, `MemberRemoved`, `Appointed`, `Erased`,
  `Departed`, `WithApplicants`). It also has the lemmas showing that each
  of these states stays consistent, plus leader succession and what the
  invariant implies for lookups.
- `team_system.dfy` (module `TeamRegistry`): the class `TeamSystem` with
  the fields `teams`, `playerLists` and `lastTeamID`, which its methods
  update in place.
  - `Valid()` is `Consistent` applied to the fields.
  - Each public operation except `LeaveTeam` runs in any state, as in the
    source, and promises `Valid()` afterwards when it held before.
    `LeaveTeam` requires `Valid()`.
  - Each one states its result code as the source's chain of checks, in
    the source's order.
  - Each one states its new state: unchanged on failure, otherwise the
    matching `TeamModel` function of the old state.
  - The read-only queries are functions.
  - The scans (`HasMember`, `IsApplicant`, `FindApplicantIndex`,
    `CheckMemberInTeam`) and the internal steps `DelMember` and
    `EraseTeam` are methods with loops, as in the source.
    `OnAppointLeader` is a method without a loop.

A team is a value stored in the directory. The Go code keeps `*Team`
pointers in its map, but no pointer ever leaves the map. So changing a
team's fields in place has the same effect as storing a new team value
under the same id.

The registry invariant says:

- every team is filed under its own id, and that id is between 1 and the
  counter;
- each team's members are duplicate-free and fit the capacity, and the
  leader is one of them;
- each team's applicants are duplicate-free, at most 20, and disjoint from
  its members;
- the player index is exactly the inverse of the union of all member
  lists;
- there are at most 10000 teams.

`CreateTeam` checks neither that the leader is in the member list nor that
the list is free of duplicates. The model therefore promises `Valid()` after
a successful `CreateTeam` only for lists that meet both conditions. Every
other operation keeps `Valid()` whenever it held before the call.

Starting from a state that is not consistent, the source reaches
behaviours a consistent registry never shows. The model states them:

- `KickMember` can empty a team whose leader is not a member, and the
  empty team stays in the directory (`KickCanEmptyTeam`).
- `ApplyToTeam` returns `kTeamApplyExist` for a member who has no index
  entry. A member list that repeats a player, followed by a kick of that
  player, produces such a member (`ApplyExistReachable`).

### Where the code and the written design differ

Where the design description and the Go code disagree, the model follows the
code:

- `ApplyToTeam` with 20 applicants already queued returns
  `kTeamApplyListFull` and changes nothing. It does not evict the oldest
  applicant, so a team that received 40 applications holds the first 20.
- `ApplyToTeam` does not check whether the team is full.
- `AppointLeader` accepts re-appointing the current leader. It never
  returns `kRetTeamAppointSelf`.
- `DelApplicant` for a player who is not queued returns
  `kTeamHasNotTeamId`. It does not report success.
- `LeaveTeam` for a player without a team returns `kTeamHasNotTeamId`.
- The "already a member" checks in `ApplyToTeam` (`pkg/team.go:329`) and
  `LeaveTeam` (`pkg/team.go:256`) can never fail once the invariant holds
  (`UnindexedIsNoMember`, `IndexSound`). `ApplyToTeam` models its check and
  promises that it does not fire from a consistent state. `LeaveTeam`,
  which requires the invariant, proves it with an `assert` where the source
  returns.

## Model

| member | source | states |
|---|---|---|
| Sequences.RemoveFirst | pkg/team.go:373-383 | Removing an id from a list: if the id occurs, the list gets one shorter; if it does not occur, the list is unchanged |
| Sequences.RemoveFirstMultiset | pkg/team.go:344-354 | The splice removes exactly one occurrence of the id when there is one, and touches no other element |
| Sequences.RemoveFirstAt | pkg/team.go:216-217 | Splicing out the first occurrence at index `i` leaves everything before `i` followed by everything after it, in the same order |
| Sequences.RemoveFirstElems | pkg/team.go:344-354 | Every other id keeps its presence in the list, and no id appears that was not there |
| Sequences.RemoveFirstNoDuplicates | pkg/team.go:373-383 | In a duplicate-free list the removed id is gone entirely, and the list stays duplicate-free |
| Sequences.FirstRepeatFrom | pkg/team.go:234-238 | Finds the first index at or after `from` whose id already occurred earlier; no index before it repeats |
| Sequences.FirstRepeat | pkg/team.go:234-238 | Length of the longest duplicate-free prefix; it equals the whole length exactly when the list has no duplicates, otherwise the next id repeats an earlier one |
| TeamModel.TeamInvariant | pkg/team.go:50-57 | What every team of a consistent registry satisfies: duplicate-free members within capacity, the leader among them, and at most 20 duplicate-free applicants who are not members |
| TeamModel.Consistent | pkg/team.go:59-64 | The registry invariant: at most 10000 teams, every team well formed, and the player index exactly the inverse of the member lists |
| TeamModel.TeamsWellFormed | pkg/team.go:59-64 | Every team is filed under its own id, between 1 and the counter, and satisfies `TeamInvariant` |
| TeamModel.IndexSound | pkg/team.go:59-64 | Every index entry names an existing team that lists the player |
| TeamModel.IndexComplete | pkg/team.go:59-64 | Every member of every team is indexed to that team |
| TeamModel.Created | pkg/team.go:188-203 | The state after a successful `CreateTeam`: the counter advanced, a new team under the new id with the list copied and no applicants, each listed player indexed to it |
| TeamModel.Admit | pkg/team.go:216-219 | A team after admitting a player: the player appended to the members, their first application removed |
| TeamModel.Admitted | pkg/team.go:216-220 | The state after a successful `JoinTeam`: the team replaced by `Admit`, and the player indexed to it |
| TeamModel.MemberRemoved | pkg/team.go:373-383 | The state after `DelMember` found the player: the first occurrence spliced out of the members and the player's index entry deleted, the leader untouched |
| TeamModel.Appointed | pkg/team.go:385-389 | The state after `OnAppointLeader` on an existing team: only its leader changes |
| TeamModel.Erased | pkg/team.go:364-371 | The state after `EraseTeam` on an existing team: the team gone, and every member's index entry deleted |
| TeamModel.Departed | pkg/team.go:253-270 | The state after a successful `LeaveTeam`: the player spliced out and unindexed; the head of the remaining members leads if the leader left; the team erased if nobody remains |
| TeamModel.WithApplicants | pkg/team.go:324-362 | A team's applicant queue replaced, everything else unchanged |
| TeamModel.Disbanding | pkg/team.go:294-296 | The state part way through the disband loop: the first `i` members removed from the team and the index |
| TeamModel.IndexedTo | pkg/team.go:201-203 | Storing each listed player under team `id`: the keys become the old keys plus the listed players; listed players map to `id`, all others keep their old entry |
| TeamModel.AdmittedAll | pkg/team.go:234-238 | Admitting players one after another never adds or removes a team |
| TeamModel.AdmittedAllEffect | pkg/team.go:234-238 | Admitting a list in order appends it to the team's members and indexes each listed player to that team |
| TeamModel.AdmittedAllFrame | pkg/team.go:216-220 | Admitting a list leaves the team's leader, id and capacity, every other team, the entries of unlisted players and the counter unchanged |
| TeamModel.AdmitListStep | pkg/team.go:234-238 | Each loop iteration admits exactly the next listed player |
| TeamModel.AdmitListNext | pkg/team.go:226-238 | After the capacity and membership checks, admitting the prefix keeps the team below capacity; the next player already has a team exactly when they repeat an earlier entry of the list |
| TeamModel.SetTeamKeepsConsistent | pkg/team.go:59-64 | Replacing or adding one team keeps the invariant when the new index maps its members to it, keeps every entry pointing elsewhere, and adds nothing else |
| TeamModel.SetTeamWellFormed | pkg/team.go:50-57 | The frame condition for the per-team part of the invariant |
| TeamModel.SetTeamIndexSound | pkg/team.go:59-64 | The frame condition for "every index entry names a team that lists the player" |
| TeamModel.SetTeamIndexComplete | pkg/team.go:59-64 | The frame condition for "every member of every team is indexed to that team" |
| TeamModel.CreatedKeepsConsistent | pkg/team.go:188-205 | A created team whose list contains the leader, has no duplicates and names nobody already indexed keeps the invariant; its id `lastTeamID+1` was unused and exceeds every id in use, so ids are never reused |
| TeamModel.AdmittedKeepsConsistent | pkg/team.go:208-224 | Admitting a player without a team to a team below capacity keeps the invariant, with the player's application consumed |
| TeamModel.MemberLeftKeepsConsistent | pkg/team.go:259-263 | Splicing a member out and naming a remaining member as leader keeps the invariant |
| TeamModel.MemberRemovedKeepsConsistent | pkg/team.go:272-287 | Kicking a non-leader keeps the invariant; only the target leaves the team and the index; the leader stays; the team is not emptied |
| TeamModel.AppointCurrentLeader | pkg/team.go:310-322 | The current leader is a member, so re-appointing them succeeds and changes nothing |
| TeamModel.AppointedKeepsConsistent | pkg/team.go:385-389 | Appointing any current member keeps the invariant |
| TeamModel.WithApplicantsKeepsConsistent | pkg/team.go:324-362 | A new applicant queue that is duplicate-free, at most 20 long and disjoint from the members keeps the invariant |
| TeamModel.ErasedKeepsConsistent | pkg/team.go:364-371 | Erasing a team and its members' index entries keeps the invariant, and leaves every other team and every other team's entries in place |
| TeamModel.DepartedKeepsConsistent | pkg/team.go:253-270 | A player leaving keeps the invariant, in all three cases: the leader leaves, another member leaves, or the last member leaves |
| TeamModel.LeaveSteps | pkg/team.go:259-266 | `DelMember`, then `OnAppointLeader` if the leader left members behind, then `EraseTeam` if nobody remains, add up to the net effect of leaving |
| TeamModel.DisbandStep | pkg/team.go:294-296 | Each `DelMember` in the disband loop removes the next member of the snapshot |
| TeamModel.DisbandDone | pkg/team.go:294-297 | Removing every member and then erasing the team leaves the same state as erasing it outright |
| TeamModel.IndexedIffMember | pkg/team.go:159-162 | Under the invariant, a player is indexed exactly when some team lists them as a member |
| TeamModel.UnindexedIsNoMember | pkg/team.go:256-258 | Under the invariant, a player without an index entry is a member of no team, so the membership checks after an index lookup never fire |
| TeamModel.KickCanEmptyTeam | pkg/team.go:272-287 | In a registry whose team is led by a non-member, which an ill-formed `CreateTeam` produces, a kick empties the team and the empty team stays in the directory |
| TeamModel.ApplyExistReachable | pkg/team.go:329-331 | Creating a team from a list that repeats a player and then kicking that player leaves a member without an index entry, so `ApplyToTeam`'s `kTeamApplyExist` check is reachable |
| TeamModel.NoTeamsIffNoPlayers | pkg/team.go:106-113 | Under the invariant, no teams exist exactly when nobody is indexed |
| TeamModel.LeaderSuccession | pkg/team.go:253-270 | When the player leaves, the team disappears exactly when they were its only member; if the leader leaves a team of two or more, the earliest joiner among those remaining becomes leader |
| TeamRegistry.TeamSystem.Model | pkg/team.go:59-64 | The registry value the three fields hold |
| TeamRegistry.TeamSystem.Valid | pkg/team.go:59-64 | The object invariant: the registry the fields hold is `Consistent` |
| TeamRegistry.TeamSystem.constructor | pkg/team.go:67-71 | A new registry is empty, has handed out no id, and is valid |
| TeamRegistry.TeamSystem.TeamSize | pkg/team.go:75-77 | The number of teams, never above 10000 |
| TeamRegistry.TeamSystem.LastTeamID | pkg/team.go:79-81 | Every existing team id lies between 1 and the counter |
| TeamRegistry.TeamSystem.IsTeamListMax | pkg/team.go:83-85 | True exactly when 10000 teams exist |
| TeamRegistry.TeamSystem.MemberSize | pkg/team.go:87-92 | 0 for an unknown team; otherwise between 1 and the team's capacity |
| TeamRegistry.TeamSystem.ApplicantSizeByTeamID | pkg/team.go:99-104 | 0 for an unknown team; never above 20 |
| TeamRegistry.TeamSystem.ApplicantSizeByPlayerID | pkg/team.go:94-97 | The queue length of the player's team, or 0 for a player without a team; never above 20 |
| TeamRegistry.TeamSystem.PlayersSize | pkg/team.go:106-113 | The number of indexed players, which is 0 exactly when there are no teams |
| TeamRegistry.TeamSystem.GetTeamID | pkg/team.go:115-120 | 0 for a player without a team; otherwise a team that lists the player, and never 0 |
| TeamRegistry.TeamSystem.GetLeaderIDByTeamID | pkg/team.go:122-127 | 0 for an unknown team; otherwise a member of the team whose own index entry is the team |
| TeamRegistry.TeamSystem.GetLeaderIDByPlayerID | pkg/team.go:129-132 | 0 for a player without a team; otherwise the leader of the player's team |
| TeamRegistry.TeamSystem.FirstApplicant | pkg/team.go:134-139 | The head of the queue, or 0 for an unknown team or an empty queue; the head is never a member of the team |
| TeamRegistry.TeamSystem.IsTeamFull | pkg/team.go:141-146 | True exactly when the team exists and its members reach its capacity; under the invariant that means equal to it |
| TeamRegistry.TeamSystem.HasTeam | pkg/team.go:159-162 | Under the invariant, true exactly when some team lists the player |
| TeamRegistry.TeamSystem.HasMember | pkg/team.go:148-157 | True exactly when the team exists and lists the player |
| TeamRegistry.TeamSystem.IsApplicant | pkg/team.go:164-173 | True exactly when the team exists and has the player queued |
| TeamRegistry.TeamSystem.FindApplicantIndex | pkg/team.go:391-398 | The index of the first application of the player, or -1 exactly when the player is not queued |
| TeamRegistry.TeamSystem.CheckMemberInTeam | pkg/team.go:244-251 | OK exactly when nobody listed has a team; otherwise kTeamMemberInTeam |
| TeamRegistry.TeamSystem.DelMember | pkg/team.go:373-383 | Splices the player out of the team and the index if listed; otherwise changes nothing |
| TeamRegistry.TeamSystem.OnAppointLeader | pkg/team.go:385-389 | Sets the leader of an existing team; a no-op for an unknown team |
| TeamRegistry.TeamSystem.EraseTeam | pkg/team.go:364-371 | Drops every member's index entry and then the team; a no-op for an unknown team |
| TeamRegistry.TeamSystem.CreateTeam | pkg/team.go:175-206 | The four checks in source order, with nothing changed on failure, not even the counter. On success the state is `Created`: a new team under `lastTeamID+1` holding a copy of the list and no applicants, with each listed player indexed to it. Runs in any state; keeps a valid registry valid for well-formed lists |
| TeamRegistry.TeamSystem.JoinTeam | pkg/team.go:208-224 | Unknown team, then player already in a team, then team full, with nothing changed on failure. On success the player is appended and indexed and their application is consumed (`Admitted`). Runs in any state; keeps a valid registry valid |
| TeamRegistry.TeamSystem.JoinTeamByMemberList | pkg/team.go:226-242 | The capacity and membership checks change nothing when they fail. Otherwise the players are admitted in list order up to the first repeated entry, which fails with kTeamMemberInTeam; earlier admissions are not undone. Runs in any state; keeps a valid registry valid |
| TeamRegistry.TeamSystem.LeaveTeam | pkg/team.go:253-270 | kTeamHasNotTeamId for a player without a team; otherwise the state is `Departed`, and the invariant holds |
| TeamRegistry.TeamSystem.KickMember | pkg/team.go:272-287 | Not leader, then self-kick, then not a member, with nothing changed on failure; on success only the target is removed (`MemberRemoved`). Runs in any state, including one where the kick empties the team; keeps a valid registry valid |
| TeamRegistry.TeamSystem.Disbanded | pkg/team.go:289-301 | kTeamDismissNotLeader for anyone but the leader, changing nothing; on success the team and all its members' index entries are gone (`Erased`), in any state; keeps a valid registry valid |
| TeamRegistry.TeamSystem.DisbandedTeamNoLeader | pkg/team.go:303-308 | Any existing team is disbanded as if by its own leader; kTeamHasNotTeamId otherwise |
| TeamRegistry.TeamSystem.AppointLeader | pkg/team.go:310-322 | Not leader, then new leader not a member, with nothing changed on failure; on success only the leader changes (`Appointed`), even to the current leader. Runs in any state; keeps a valid registry valid |
| TeamRegistry.TeamSystem.ApplyToTeam | pkg/team.go:324-342 | Player in a team, then already a member, then already queued, then 20 queued, with nothing changed on failure; on success the player is appended at the tail of the queue. From a valid registry kTeamApplyExist never occurs, and validity is kept |
| TeamRegistry.TeamSystem.DelApplicant | pkg/team.go:344-354 | Removes the player's application and keeps the others in order; kTeamHasNotTeamId, changing nothing, for an unknown team or a player who is not queued. Runs in any state; keeps a valid registry valid |
| TeamRegistry.TeamSystem.ClearApplyList | pkg/team.go:356-362 | Empties only that team's queue; kTeamHasNotTeamId for an unknown team. Runs in any state; keeps a valid registry valid |

## Left out

- `main()` in `main.go` only prints example results. It is not modelled.
- `playerLists` is a `sync.Map` in Go. It is modelled as a plain map. The
  concurrency guarantees of `sync.Map` and any interleaving of calls are
  not modelled; the source has no locks.
- `PlayersSize` counts entries with `Range`. It is modelled as the size of
  the map.
- TeamRegistry.TeamSystem.Disbanded: the Go loop ranges over `Members`
  while `DelMember` shifts the same backing array, so it skips and
  re-reads entries. `EraseTeam` then clears whatever is left. The model
  loops over a snapshot of the members and proves the same net effect: all
  members unindexed and the team gone. The intermediate steps of the
  aliased loop are not modelled.
- TeamRegistry.TeamSystem.CreateTeam: `lastTeamID` is an unbounded
  natural number. Wrap-around of the uint64 counter after 2^64 teams is
  not modelled.
- TeamRegistry.TeamSystem.CreateTeam: the invariant is promised only when
  the member list contains the leader and has no duplicates. The source
  accepts other lists, and the resulting state is not consistent. The
  other operations then still have their result codes and new states
  stated, but `Valid()` is no longer promised.
- TeamRegistry.TeamSystem.LeaveTeam: requires a consistent registry, so
  its behaviour after an ill-formed `CreateTeam` is not modelled. Its
  contract does not cover the source's `kTeamMemberNotInTeam` branch
  (`pkg/team.go:256-257`), which the invariant rules out.
- `int(TeamTypeSize)` conversions and `int` lengths in Go are modelled as
  unbounded naturals, so overflow of capacities near 2^63 is not modelled.
- Result codes the code never returns (`kRetTeamAppointSelf`,
  `kRetTeamPlayerNotFound`, `kRetTeamNotInApplicants`, among others) and
  the unused sizes `kFiveMemberMaxSize` and `kTenMemberMaxSize` are not
  modelled.
- `NewCreateTeamParam`, called by `pkg/team_test.go`, is not part of this
  model.
