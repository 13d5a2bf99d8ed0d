/** The team registry as the Go `TeamSystem` keeps it: a team directory, a
    player index and a counter, updated in place by its methods. Every
    mutating method states the whole new state through the functions of
    `TeamModel`, and keeps `Valid()`. */
module TeamRegistry {
  import opened Sequences
  import opened TeamModel

  class TeamSystem {
    /** Team id to team. */
    var teams: map<Guid, Team>
    /** Player id to the id of the team the player is a member of. */
    var playerLists: map<Guid, Guid>
    /** The last team id handed out; ids start at 1. */
    var lastTeamID: nat

    /** The registry these fields hold. */
    ghost function Model(): Registry
      reads this
    {
      Registry(teams, playerLists, lastTeamID)
    }

    /** The object invariant: the registry is consistent. */
    ghost predicate Valid()
      reads this
    {
      Consistent(Model())
    }

    /** `NewTeamSystem`: no teams, nobody indexed, no id handed out. */
    constructor ()
      ensures Valid()
      ensures teams == map[] && playerLists == map[] && lastTeamID == 0
    {
      teams := map[];
      playerLists := map[];
      lastTeamID := 0;
    }

    // -------------------------------------------------------------------
    // Queries
    // -------------------------------------------------------------------

    function TeamSize(): (n: nat)
      reads this
      ensures Valid() ==> n <= MaxTeamSize
    {
      |teams|
    }

    function LastTeamID(): (last: nat)
      reads this
      ensures Valid() ==> forall id :: id in teams ==> 0 < id <= last
    {
      lastTeamID
    }

    function IsTeamListMax(): (b: bool)
      reads this
      ensures Valid() ==> (b <==> TeamSize() == MaxTeamSize)
    {
      |teams| >= MaxTeamSize
    }

    function MemberSize(teamID: Guid): (n: nat)
      reads this
      ensures teamID !in teams ==> n == 0
      ensures Valid() && teamID in teams ==> 1 <= n <= teams[teamID].teamTypeSize
    {
      if teamID in teams then |teams[teamID].members| else 0
    }

    function ApplicantSizeByTeamID(teamID: Guid): (n: nat)
      reads this
      ensures teamID !in teams ==> n == 0
      ensures Valid() ==> n <= MaxApplicantSize
    {
      if teamID in teams then |teams[teamID].applicants| else 0
    }

    function ApplicantSizeByPlayerID(guid: Guid): (n: nat)
      reads this
      ensures Valid() ==> n <= MaxApplicantSize
      ensures Valid() && guid !in playerLists ==> n == 0
      ensures Valid() && guid in playerLists ==> n == |teams[playerLists[guid]].applicants|
    {
      ApplicantSizeByTeamID(GetTeamID(guid))
    }

    function PlayersSize(): (n: nat)
      reads this
      ensures Valid() ==> (n == 0 <==> TeamSize() == 0)
    {
      NoTeamsIffNoPlayers(Model());
      |playerLists|
    }

    function GetTeamID(guid: Guid): (id: Guid)
      reads this
      ensures guid !in playerLists ==> id == InvalidGuid
      ensures Valid() && guid in playerLists ==> id != InvalidGuid && id in teams && guid in teams[id].members
    {
      if guid in playerLists then playerLists[guid] else InvalidGuid
    }

    function GetLeaderIDByTeamID(teamID: Guid): (leader: Guid)
      reads this
      ensures teamID !in teams ==> leader == InvalidGuid
      ensures Valid() && teamID in teams ==> leader in teams[teamID].members && GetTeamID(leader) == teamID
    {
      if teamID in teams then teams[teamID].leaderID else InvalidGuid
    }

    function GetLeaderIDByPlayerID(guid: Guid): (leader: Guid)
      reads this
      ensures Valid() && guid !in playerLists ==> leader == InvalidGuid
      ensures Valid() && guid in playerLists ==>
                leader == teams[playerLists[guid]].leaderID && GetTeamID(leader) == GetTeamID(guid)
    {
      GetLeaderIDByTeamID(GetTeamID(guid))
    }

    function FirstApplicant(teamID: Guid): (a: Guid)
      reads this
      ensures teamID !in teams || teams[teamID].applicants == [] ==> a == InvalidGuid
      ensures teamID in teams && teams[teamID].applicants != [] ==> a == teams[teamID].applicants[0]
      ensures Valid() && teamID in teams && teams[teamID].applicants != [] ==> GetTeamID(a) != teamID
    {
      if teamID in teams && |teams[teamID].applicants| > 0 then teams[teamID].applicants[0] else InvalidGuid
    }

    function IsTeamFull(teamID: Guid): (b: bool)
      reads this
      ensures b ==> teamID in teams
      ensures teamID in teams ==> (b <==> |teams[teamID].members| >= teams[teamID].teamTypeSize)
      ensures Valid() && b ==> |teams[teamID].members| == teams[teamID].teamTypeSize
    {
      if teamID in teams then |teams[teamID].members| >= teams[teamID].teamTypeSize else false
    }

    function HasTeam(guid: Guid): (b: bool)
      reads this
      ensures Valid() ==> (b <==> exists id :: id in teams && guid in teams[id].members)
    {
      IndexedIffMember(Model(), guid);
      guid in playerLists
    }

    // -------------------------------------------------------------------
    // Scans
    // -------------------------------------------------------------------

    method HasMember(teamID: Guid, guid: Guid) returns (b: bool)
      ensures b <==> teamID in teams && guid in teams[teamID].members
    {
      if teamID in teams {
        var members := teams[teamID].members;
        for i := 0 to |members|
          invariant guid !in members[..i]
        {
          if members[i] == guid {
            return true;
          }
        }
        assert members[..|members|] == members;
      }
      return false;
    }

    method IsApplicant(teamID: Guid, guid: Guid) returns (b: bool)
      ensures b <==> teamID in teams && guid in teams[teamID].applicants
    {
      if teamID in teams {
        var applicants := teams[teamID].applicants;
        for i := 0 to |applicants|
          invariant guid !in applicants[..i]
        {
          if applicants[i] == guid {
            return true;
          }
        }
        assert applicants[..|applicants|] == applicants;
      }
      return false;
    }

    /** The index of the first application of `guid` in `team`, or -1. */
    method FindApplicantIndex(team: Team, guid: Guid) returns (idx: int)
      ensures -1 <= idx < |team.applicants|
      ensures idx == -1 <==> guid !in team.applicants
      ensures 0 <= idx ==> team.applicants[idx] == guid && guid !in team.applicants[..idx]
    {
      for i := 0 to |team.applicants|
        invariant guid !in team.applicants[..i]
      {
        if team.applicants[i] == guid {
          return i;
        }
      }
      assert team.applicants[..|team.applicants|] == team.applicants;
      return -1;
    }

    /** OK when nobody in `memberList` belongs to a team yet. */
    method CheckMemberInTeam(memberList: seq<Guid>) returns (code: Code)
      ensures code == OK || code == TeamMemberInTeam
      ensures code == OK <==> forall m :: m in memberList ==> m !in playerLists
    {
      for i := 0 to |memberList|
        invariant forall m :: m in memberList[..i] ==> m !in playerLists
      {
        if HasTeam(memberList[i]) {
          return TeamMemberInTeam;
        }
      }
      assert memberList[..|memberList|] == memberList;
      return OK;
    }

    // -------------------------------------------------------------------
    // Internal steps (they may pass through states that are not Valid())
    // -------------------------------------------------------------------

    /** Splices the first occurrence of `guid` out of the team's members and
        drops `guid` from the index; does nothing if it is not a member. */
    method DelMember(teamID: Guid, guid: Guid)
      modifies this
      ensures teamID in old(teams) && guid in old(teams)[teamID].members ==>
                Model() == MemberRemoved(old(Model()), teamID, guid)
      ensures !(teamID in old(teams) && guid in old(teams)[teamID].members) ==> Model() == old(Model())
    {
      if teamID in teams {
        var members := teams[teamID].members;
        for idx := 0 to |members|
          invariant guid !in members[..idx]
          invariant Model() == old(Model())
        {
          if members[idx] == guid {
            RemoveFirstAt(members, guid, idx);
            teams := teams[teamID := teams[teamID].(members := members[..idx] + members[idx + 1..])];
            playerLists := playerLists - {guid};
            return;
          }
        }
        assert members[..|members|] == members;
      }
    }

    method OnAppointLeader(teamID: Guid, newLeaderID: Guid)
      modifies this
      ensures teamID in old(teams) ==> Model() == Appointed(old(Model()), teamID, newLeaderID)
      ensures teamID !in old(teams) ==> Model() == old(Model())
    {
      if teamID in teams {
        teams := teams[teamID := teams[teamID].(leaderID := newLeaderID)];
      }
    }

    /** Drops the index entry of every member of the team, then the team. */
    method EraseTeam(teamID: Guid)
      modifies this
      ensures teamID in old(teams) ==> Model() == Erased(old(Model()), teamID)
      ensures teamID !in old(teams) ==> Model() == old(Model())
    {
      if teamID in teams {
        var members := teams[teamID].members;
        for i := 0 to |members|
          invariant teams == old(teams) && lastTeamID == old(lastTeamID)
          invariant playerLists == old(playerLists) - Elems(members[..i])
        {
          assert Elems(members[..i + 1]) == Elems(members[..i]) + {members[i]} by {
            assert members[..i + 1] == members[..i] + [members[i]];
          }
          playerLists := playerLists - {members[i]};
        }
        assert members[..|members|] == members;
        teams := teams - {teamID};
      }
    }

    // -------------------------------------------------------------------
    // Operations
    // -------------------------------------------------------------------

    /** Creates a team from `param`, checking in order: room for another
        team, the leader has no team, the list fits the capacity, nobody
        listed has a team. A consistent registry stays consistent when the
        list holds the leader and no duplicates, which the source leaves to
        its callers. */
    method CreateTeam(param: CreateTeamParam) returns (code: Code)
      modifies this
      ensures code == (if |old(teams)| >= MaxTeamSize then TeamListMaxSize
                       else if param.leaderID in old(playerLists) then TeamMemberInTeam
                       else if |param.memberList| > param.teamTypeSize then TeamCreateTeamMaxMemberSize
                       else if exists m :: m in param.memberList && m in old(playerLists) then TeamMemberInTeam
                       else OK)
      ensures code != OK ==> Model() == old(Model())
      ensures code == OK ==> Model() == Created(old(Model()), param)
      ensures old(Valid()) && (code != OK || (param.leaderID in param.memberList && NoDuplicates(param.memberList)))
              ==> Valid()
    {
      if IsTeamListMax() {
        return TeamListMaxSize;
      }
      if HasTeam(param.leaderID) {
        return TeamMemberInTeam;
      }
      if |param.memberList| > param.teamTypeSize {
        return TeamCreateTeamMaxMemberSize;
      }
      var err := CheckMemberInTeam(param.memberList);
      if err != OK {
        return err;
      }
      ghost var r0 := Model();
      var teamID := lastTeamID + 1;
      lastTeamID := teamID;
      teams := teams[teamID := Team(param.leaderID, teamID, param.memberList, [], param.teamTypeSize)];
      var index := playerLists;
      for i := 0 to |param.memberList|
        invariant index == IndexedTo(r0.playerLists, param.memberList[..i], teamID)
      {
        assert param.memberList[..i + 1][..i] == param.memberList[..i];
        index := index[param.memberList[i] := teamID];
      }
      assert param.memberList[..|param.memberList|] == param.memberList;
      playerLists := index;
      assert Model() == Created(r0, param);
      ghost var wellFormed := param.leaderID in param.memberList && NoDuplicates(param.memberList);
      if Consistent(r0) && wellFormed {
        CreatedKeepsConsistent(r0, param);
      }
      return OK;
    }

    /** Admits `guid` to team `teamID`: fails on an unknown team, on a
        player who already has a team, and on a full team. */
    method JoinTeam(teamID: Guid, guid: Guid) returns (code: Code)
      modifies this
      ensures old(Valid()) ==> Valid()
      ensures code == (if teamID !in old(teams) then TeamHasNotTeamId
                       else if guid in old(playerLists) then TeamMemberInTeam
                       else if |old(teams)[teamID].members| >= old(teams)[teamID].teamTypeSize then TeamMembersFull
                       else OK)
      ensures code != OK ==> Model() == old(Model())
      ensures code == OK ==> Model() == Admitted(old(Model()), teamID, guid)
    {
      if teamID in teams {
        if HasTeam(guid) {
          return TeamMemberInTeam;
        }
        if IsTeamFull(teamID) {
          return TeamMembersFull;
        }
        ghost var r0 := Model();
        var team := teams[teamID];
        var idx := FindApplicantIndex(team, guid);
        var applicants := team.applicants;
        if idx != -1 {
          RemoveFirstAt(applicants, guid, idx);
          applicants := applicants[..idx] + applicants[idx + 1..];
        }
        teams := teams[teamID := team.(members := team.members + [guid], applicants := applicants)];
        playerLists := playerLists[guid := teamID];
        assert Model() == Admitted(r0, teamID, guid);
        if Consistent(r0) {
          AdmittedKeepsConsistent(r0, teamID, guid);
        }
        return OK;
      }
      return TeamHasNotTeamId;
    }

    /** Admits every player of `memberList` in order after checking that
        they all fit and none has a team. A player listed twice makes the
        second `JoinTeam` fail: the call stops there and keeps the players
        admitted before it. */
    method JoinTeamByMemberList(memberList: seq<Guid>, teamID: Guid) returns (code: Code)
      modifies this
      ensures old(Valid()) ==> Valid()
      ensures code == (if teamID !in old(teams) then TeamHasNotTeamId
                       else if |old(teams)[teamID].members| + |memberList| > old(teams)[teamID].teamTypeSize
                         then TeamJoinTeamMemberListToMax
                       else if exists m :: m in memberList && m in old(playerLists) then TeamMemberInTeam
                       else if NoDuplicates(memberList) then OK
                       else TeamMemberInTeam)
      ensures teamID !in old(teams)
              || |old(teams)[teamID].members| + |memberList| > old(teams)[teamID].teamTypeSize
              || (exists m :: m in memberList && m in old(playerLists))
              ==> Model() == old(Model())
      ensures teamID in old(teams)
              && |old(teams)[teamID].members| + |memberList| <= old(teams)[teamID].teamTypeSize
              && (forall m :: m in memberList ==> m !in old(playerLists))
              ==> Model() == AdmittedAll(old(Model()), teamID, memberList[..FirstRepeat(memberList)])
    {
      if teamID in teams {
        if |teams[teamID].members| + |memberList| > teams[teamID].teamTypeSize {
          return TeamJoinTeamMemberListToMax;
        }
        var err := CheckMemberInTeam(memberList);
        if err != OK {
          return err;
        }
        ghost var r0 := Model();
        ghost var k := FirstRepeat(memberList);
        for i := 0 to |memberList|
          invariant i <= k
          invariant Consistent(r0) ==> Valid()
          invariant Model() == AdmittedAll(r0, teamID, memberList[..i])
        {
          AdmitListStep(r0, teamID, memberList, i);
          AdmitListNext(r0, teamID, memberList, i);
          assert teamID in teams && |teams[teamID].members| < teams[teamID].teamTypeSize;
          err := JoinTeam(teamID, memberList[i]);
          if err != OK {
            // Only a repeated entry can fail here, and it stops the loop at k.
            assert i == k && k < |memberList|;
            return err;
          }
        }
        assert memberList[..|memberList|] == memberList;
        return OK;
      }
      return TeamHasNotTeamId;
    }

    /** Removes `guid` from its team. If the leader left and members remain,
        the first remaining member leads; a team left empty is erased. */
    method LeaveTeam(guid: Guid) returns (code: Code)
      requires Valid()
      modifies this
      ensures Valid()
      ensures code == (if guid in old(playerLists) then OK else TeamHasNotTeamId)
      ensures code != OK ==> Model() == old(Model())
      ensures code == OK ==> Model() == Departed(old(Model()), guid)
    {
      var teamID := GetTeamID(guid);
      if teamID in teams {
        var has := HasMember(teamID, guid);
        // The index only names members, so the source's
        // TeamMemberNotInTeam return is never taken.
        assert has;
        ghost var r0 := Model();
        var isLeaderLeave := teams[teamID].leaderID == guid;
        LeaveSteps(r0, guid);
        DelMember(teamID, guid);
        if |teams[teamID].members| > 0 && isLeaderLeave {
          OnAppointLeader(teamID, teams[teamID].members[0]);
        }
        if |teams[teamID].members| == 0 {
          EraseTeam(teamID);
        }
        DepartedKeepsConsistent(r0, guid);
        return OK;
      }
      return TeamHasNotTeamId;
    }

    /** The leader removes another member; the leader does not change. */
    method KickMember(teamID: Guid, currentLeaderID: Guid, beKickID: Guid) returns (code: Code)
      modifies this
      ensures old(Valid()) ==> Valid()
      ensures code == (if teamID !in old(teams) then TeamHasNotTeamId
                       else if old(teams)[teamID].leaderID != currentLeaderID then TeamKickNotLeader
                       else if old(teams)[teamID].leaderID == beKickID || currentLeaderID == beKickID then TeamKickSelf
                       else if beKickID !in old(teams)[teamID].members then TeamMemberNotInTeam
                       else OK)
      ensures code != OK ==> Model() == old(Model())
      ensures code == OK ==> Model() == MemberRemoved(old(Model()), teamID, beKickID)
    {
      if teamID in teams {
        if teams[teamID].leaderID != currentLeaderID {
          return TeamKickNotLeader;
        }
        if teams[teamID].leaderID == beKickID || currentLeaderID == beKickID {
          return TeamKickSelf;
        }
        var has := HasMember(teamID, beKickID);
        if !has {
          return TeamMemberNotInTeam;
        }
        if Valid() {
          MemberRemovedKeepsConsistent(Model(), teamID, beKickID);
        }
        DelMember(teamID, beKickID);
        return OK;
      }
      return TeamHasNotTeamId;
    }

    /** The leader dissolves the team: every member leaves the index and the
        team is deleted. */
    method Disbanded(teamID: Guid, currentLeaderID: Guid) returns (code: Code)
      modifies this
      ensures old(Valid()) ==> Valid()
      ensures code == (if teamID !in old(teams) then TeamHasNotTeamId
                       else if old(teams)[teamID].leaderID != currentLeaderID then TeamDismissNotLeader
                       else OK)
      ensures code != OK ==> Model() == old(Model())
      ensures code == OK ==> Model() == Erased(old(Model()), teamID)
    {
      if teamID in teams {
        var team := teams[teamID];
        if team.leaderID != currentLeaderID {
          return TeamDismissNotLeader;
        }
        ghost var r0 := Model();
        var members := team.members;
        assert Model() == Disbanding(r0, teamID, 0);
        for i := 0 to |members|
          invariant Model() == Disbanding(r0, teamID, i)
        {
          DisbandStep(r0, teamID, i);
          DelMember(teamID, members[i]);
        }
        DisbandDone(r0, teamID);
        EraseTeam(teamID);
        if Consistent(r0) {
          ErasedKeepsConsistent(r0, teamID);
        }
        return OK;
      }
      return TeamHasNotTeamId;
    }

    /** Disbands the team on behalf of its own leader. */
    method DisbandedTeamNoLeader(teamID: Guid) returns (code: Code)
      modifies this
      ensures old(Valid()) ==> Valid()
      ensures code == (if teamID in old(teams) then OK else TeamHasNotTeamId)
      ensures code != OK ==> Model() == old(Model())
      ensures code == OK ==> Model() == Erased(old(Model()), teamID)
    {
      if teamID in teams {
        code := Disbanded(teamID, teams[teamID].leaderID);
        return;
      }
      return TeamHasNotTeamId;
    }

    /** The leader hands leadership to a member (possibly itself); the
        member order is untouched. */
    method AppointLeader(teamID: Guid, currentLeaderID: Guid, newLeaderID: Guid) returns (code: Code)
      modifies this
      ensures old(Valid()) ==> Valid()
      ensures code == (if teamID !in old(teams) then TeamHasNotTeamId
                       else if old(teams)[teamID].leaderID != currentLeaderID then TeamAppointNotLeader
                       else if newLeaderID !in old(teams)[teamID].members then TeamMemberNotInTeam
                       else OK)
      ensures code != OK ==> Model() == old(Model())
      ensures code == OK ==> Model() == Appointed(old(Model()), teamID, newLeaderID)
    {
      if teamID in teams {
        if teams[teamID].leaderID != currentLeaderID {
          return TeamAppointNotLeader;
        }
        var has := HasMember(teamID, newLeaderID);
        if !has {
          return TeamMemberNotInTeam;
        }
        if Valid() {
          AppointedKeepsConsistent(Model(), teamID, newLeaderID);
        }
        OnAppointLeader(teamID, newLeaderID);
        return OK;
      }
      return TeamHasNotTeamId;
    }

    /** Queues `guid` at the tail of the team's applicants. A full queue
        rejects the application; nobody is evicted. */
    method ApplyToTeam(teamID: Guid, guid: Guid) returns (code: Code)
      modifies this
      ensures old(Valid()) ==> Valid()
      ensures code == (if teamID !in old(teams) then TeamHasNotTeamId
                       else if guid in old(playerLists) then TeamMemberInTeam
                       else if guid in old(teams)[teamID].members then TeamApplyExist
                       else if guid in old(teams)[teamID].applicants then TeamApplyJoin
                       else if |old(teams)[teamID].applicants| >= MaxApplicantSize then TeamApplyListFull
                       else OK)
      ensures old(Valid()) ==> code != TeamApplyExist
      ensures code != OK ==> Model() == old(Model())
      ensures code == OK ==> Model() == WithApplicants(old(Model()), teamID, old(teams)[teamID].applicants + [guid])
    {
      if teamID in teams {
        if HasTeam(guid) {
          return TeamMemberInTeam;
        }
        if Valid() {
          UnindexedIsNoMember(Model(), guid, teamID);
        }
        var isMember := HasMember(teamID, guid);
        if isMember {
          // Only reachable from a registry that is not consistent: in a
          // consistent one a player without a team is a member of none.
          return TeamApplyExist;
        }
        var queued := IsApplicant(teamID, guid);
        if queued {
          return TeamApplyJoin;
        }
        if |teams[teamID].applicants| >= MaxApplicantSize {
          return TeamApplyListFull;
        }
        var applicants := teams[teamID].applicants + [guid];
        if Valid() {
          NoDuplicatesAppend(teams[teamID].applicants, guid);
          WithApplicantsKeepsConsistent(Model(), teamID, applicants);
        }
        teams := teams[teamID := teams[teamID].(applicants := applicants)];
        return OK;
      }
      return TeamHasNotTeamId;
    }

    /** Withdraws the first application of `guid`, keeping the order of the
        others; an unknown team and a player who is not queued both give
        TeamHasNotTeamId. */
    method DelApplicant(teamID: Guid, guid: Guid) returns (code: Code)
      modifies this
      ensures old(Valid()) ==> Valid()
      ensures code == (if teamID in old(teams) && guid in old(teams)[teamID].applicants then OK
                       else TeamHasNotTeamId)
      ensures code != OK ==> Model() == old(Model())
      ensures code == OK ==>
                Model() == WithApplicants(old(Model()), teamID, RemoveFirst(old(teams)[teamID].applicants, guid))
    {
      if teamID in teams {
        var applicants := teams[teamID].applicants;
        for idx := 0 to |applicants|
          invariant guid !in applicants[..idx]
          invariant Model() == old(Model())
        {
          if applicants[idx] == guid {
            RemoveFirstAt(applicants, guid, idx);
            if Valid() {
              RemoveFirstNoDuplicates(applicants, guid);
              RemoveFirstElems(applicants, guid);
              WithApplicantsKeepsConsistent(Model(), teamID, RemoveFirst(applicants, guid));
            }
            teams := teams[teamID := teams[teamID].(applicants := applicants[..idx] + applicants[idx + 1..])];
            return OK;
          }
        }
        assert applicants[..|applicants|] == applicants;
      }
      return TeamHasNotTeamId;
    }

    /** Empties the team's applicant queue. */
    method ClearApplyList(teamID: Guid) returns (code: Code)
      modifies this
      ensures old(Valid()) ==> Valid()
      ensures code == (if teamID in old(teams) then OK else TeamHasNotTeamId)
      ensures code != OK ==> Model() == old(Model())
      ensures code == OK ==> Model() == WithApplicants(old(Model()), teamID, [])
    {
      if teamID in teams {
        if Valid() {
          WithApplicantsKeepsConsistent(Model(), teamID, []);
        }
        teams := teams[teamID := teams[teamID].(applicants := [])];
        return OK;
      }
      return TeamHasNotTeamId;
    }
  }
}
