/** The team registry as a value: its constants and result codes, the team
    record, the invariant every operation keeps, and the state each
    successful operation leaves behind. */
module TeamModel {
  import opened Sequences

  /** A player or team id (a Go `uint64`); 0 is never a team id. */
  type Guid = nat
  /** The result code every operation returns (a Go `uint32`). */
  type Code = nat

  const InvalidGuid: Guid := 0
  /** At most this many applicants queue for one team. */
  const MaxApplicantSize: nat := 20
  /** At most this many teams exist at once. */
  const MaxTeamSize: nat := 10000

  const OK: Code := 0
  const TeamMembersFull: Code := 5002
  const TeamMemberInTeam: Code := 5003
  const TeamMemberNotInTeam: Code := 5004
  const TeamKickSelf: Code := 5005
  const TeamKickNotLeader: Code := 5006
  const TeamListMaxSize: Code := 5012
  const TeamHasNotTeamId: Code := 5013
  const TeamDismissNotLeader: Code := 5014
  const TeamJoinTeamMemberListToMax: Code := 5015
  const TeamCreateTeamMaxMemberSize: Code := 5016
  const TeamApplyExist: Code := 5018
  const TeamAppointNotLeader: Code := 5019
  const TeamApplyJoin: Code := 5020
  const TeamApplyListFull: Code := 5021

  /** What a caller asks `CreateTeam` for. */
  datatype CreateTeamParam = CreateTeamParam(leaderID: Guid, memberList: seq<Guid>, teamTypeSize: nat)

  /** One team: its leader, its id, its members in join order, its queue of
      applicants (oldest first) and its capacity. */
  datatype Team = Team(leaderID: Guid, teamID: Guid, members: seq<Guid>, applicants: seq<Guid>, teamTypeSize: nat)

  /** The whole registry: the team directory, the player index (player to
      team id) and the last team id handed out. */
  datatype Registry = Registry(teams: map<Guid, Team>, playerLists: map<Guid, Guid>, lastTeamID: nat)

  /** What holds of every team in a consistent registry. */
  predicate TeamInvariant(t: Team) {
    && NoDuplicates(t.members)
    && |t.members| <= t.teamTypeSize
    && t.leaderID in t.members
    && NoDuplicates(t.applicants)
    && |t.applicants| <= MaxApplicantSize
    && (forall a :: a in t.applicants ==> a !in t.members)
  }

  /** The registry invariant: every team is well formed and has an id in
      1..lastTeamID, and the player index is exactly the inverse of the
      union of all member lists. */
  ghost predicate Consistent(r: Registry) {
    && |r.teams| <= MaxTeamSize
    && TeamsWellFormed(r)
    && IndexSound(r)
    && IndexComplete(r)
  }

  /** Every team is well formed and is filed under its own id, which the
      counter has already handed out. */
  ghost predicate TeamsWellFormed(r: Registry) {
    forall id :: id in r.teams ==>
      0 < id <= r.lastTeamID && r.teams[id].teamID == id && TeamInvariant(r.teams[id])
  }

  /** Every index entry names an existing team that lists the player. */
  ghost predicate IndexSound(r: Registry) {
    forall p :: p in r.playerLists ==>
      r.playerLists[p] in r.teams && p in r.teams[r.playerLists[p]].members
  }

  /** Every member of every team is indexed to that team. */
  ghost predicate IndexComplete(r: Registry) {
    forall id, p :: id in r.teams && p in r.teams[id].members ==>
      p in r.playerLists && r.playerLists[p] == id
  }

  // ---------------------------------------------------------------------
  // The state each successful operation leaves behind
  // ---------------------------------------------------------------------

  /** After a successful `CreateTeam`: a new team under the next id, holding
      a copy of the member list and no applicants, and every listed member
      indexed to it. */
  function Created(r: Registry, param: CreateTeamParam): Registry {
    var id := r.lastTeamID + 1;
    Registry(r.teams[id := Team(param.leaderID, id, param.memberList, [], param.teamTypeSize)],
             IndexedTo(r.playerLists, param.memberList, id),
             id)
  }

  /** `index` after mapping each player of `ps` to `id`, one at a time. */
  function IndexedTo(index: map<Guid, Guid>, ps: seq<Guid>, id: Guid): (r: map<Guid, Guid>)
    ensures r.Keys == index.Keys + Elems(ps)
    ensures forall m :: m in r ==> r[m] == if m in ps then id else index[m]
  {
    if ps == [] then index
    else
      var init, last := ps[..|ps| - 1], ps[|ps| - 1];
      assert ps == init + [last];
      IndexedTo(index, init, id)[last := id]
  }

  /** Team `t` after admitting `p`: appended to the members, and its
      application, if any, consumed. */
  function Admit(t: Team, p: Guid): Team {
    t.(members := t.members + [p], applicants := RemoveFirst(t.applicants, p))
  }

  /** After a successful `JoinTeam(id, p)`. */
  function Admitted(r: Registry, id: Guid, p: Guid): Registry
    requires id in r.teams
  {
    r.(teams := r.teams[id := Admit(r.teams[id], p)], playerLists := r.playerLists[p := id])
  }

  /** After admitting every player of `ps` to team `id`, in order. */
  function AdmittedAll(r: Registry, id: Guid, ps: seq<Guid>): (r': Registry)
    requires id in r.teams
    ensures r'.teams.Keys == r.teams.Keys
  {
    if ps == [] then r
    else Admitted(AdmittedAll(r, id, ps[..|ps| - 1]), id, ps[|ps| - 1])
  }

  /** Admitting a list appends it to team `id`'s members and indexes each
      of its players to `id`. */
  lemma {:induction false} AdmittedAllEffect(r: Registry, id: Guid, ps: seq<Guid>)
    requires id in r.teams
    ensures var r' := AdmittedAll(r, id, ps);
            && r'.teams[id].members == r.teams[id].members + ps
            && r'.playerLists.Keys == r.playerLists.Keys + Elems(ps)
            && (forall p :: p in ps ==> r'.playerLists[p] == id)
  {
    if ps != [] {
      var init, last := ps[..|ps| - 1], ps[|ps| - 1];
      assert ps == init + [last];
      AdmittedAllEffect(r, id, init);
      var prev, r' := AdmittedAll(r, id, init), AdmittedAll(r, id, ps);
      assert r' == Admitted(prev, id, last);
      assert Elems(ps) == Elems(init) + {last};
      forall p | p in ps ensures r'.playerLists[p] == id {
        if p != last {
          assert p in init;
        }
      }
    }
  }

  /** Admitting a list changes nothing else but team `id`'s applicants: not
      the team's leader, id or capacity, not the other teams, not the index
      entries of unlisted players, not the counter. */
  lemma {:induction false} AdmittedAllFrame(r: Registry, id: Guid, ps: seq<Guid>)
    requires id in r.teams
    ensures var r' := AdmittedAll(r, id, ps);
            && r'.lastTeamID == r.lastTeamID
            && r'.teams[id].leaderID == r.teams[id].leaderID
            && r'.teams[id].teamID == r.teams[id].teamID
            && r'.teams[id].teamTypeSize == r.teams[id].teamTypeSize
            && (forall other :: other in r.teams && other != id ==> r'.teams[other] == r.teams[other])
            && (forall p :: p in r.playerLists && p !in ps ==> p in r'.playerLists && r'.playerLists[p] == r.playerLists[p])
  {
    if ps != [] {
      var init, last := ps[..|ps| - 1], ps[|ps| - 1];
      assert ps == init + [last];
      AdmittedAllFrame(r, id, init);
    }
  }


  /** After `DelMember(id, p)` found `p`: `p` spliced out of the members and
      dropped from the index. The leader is left as it was. */
  function MemberRemoved(r: Registry, id: Guid, p: Guid): Registry
    requires id in r.teams
  {
    var t := r.teams[id];
    r.(teams := r.teams[id := t.(members := RemoveFirst(t.members, p))], playerLists := r.playerLists - {p})
  }

  /** After `OnAppointLeader(id, q)`. */
  function Appointed(r: Registry, id: Guid, q: Guid): Registry
    requires id in r.teams
  {
    r.(teams := r.teams[id := r.teams[id].(leaderID := q)])
  }

  /** After `EraseTeam(id)`: the team and the index entries of its members gone. */
  function Erased(r: Registry, id: Guid): Registry
    requires id in r.teams
  {
    r.(teams := r.teams - {id}, playerLists := r.playerLists - Elems(r.teams[id].members))
  }

  /** After a successful `LeaveTeam(p)`: `p` removed; if the leader left and
      members remain, the head of the remaining members leads; if nobody
      remains, the team is erased. */
  function Departed(r: Registry, p: Guid): Registry
    requires p in r.playerLists && r.playerLists[p] in r.teams
  {
    var id := r.playerLists[p];
    var t := r.teams[id];
    var rest := RemoveFirst(t.members, p);
    if |rest| == 0 then
      r.(teams := r.teams - {id}, playerLists := r.playerLists - {p})
    else
      var leader := if t.leaderID == p then rest[0] else t.leaderID;
      r.(teams := r.teams[id := t.(members := rest, leaderID := leader)], playerLists := r.playerLists - {p})
  }

  /** Team `id` with its applicant queue replaced by `a`. */
  function WithApplicants(r: Registry, id: Guid, a: seq<Guid>): Registry
    requires id in r.teams
  {
    r.(teams := r.teams[id := r.teams[id].(applicants := a)])
  }

  // ---------------------------------------------------------------------
  // Every successful operation keeps the registry consistent
  // ---------------------------------------------------------------------

  /** The frame argument shared by all operations that touch one team:
      installing a well-formed team `t'` under `id` with index `index'`
      keeps the registry consistent when `index'` maps the members of `t'`
      to `id`, keeps every entry that pointed to another team, and has no
      other entries. */
  lemma SetTeamKeepsConsistent(r: Registry, id: Guid, t': Team, index': map<Guid, Guid>, last': nat)
    requires Consistent(r)
    requires id in r.teams || |r.teams| < MaxTeamSize
    requires r.lastTeamID <= last' && 0 < id <= last'
    requires t'.teamID == id && TeamInvariant(t')
    requires forall p :: p in t'.members ==> p in index' && index'[p] == id
    requires forall p :: p in r.playerLists && r.playerLists[p] != id ==> p in index' && index'[p] == r.playerLists[p]
    requires forall p :: p in index' && p !in t'.members ==> p in r.playerLists && r.playerLists[p] != id
    ensures Consistent(Registry(r.teams[id := t'], index', last'))
  {
    var r' := Registry(r.teams[id := t'], index', last');
    assert r'.teams.Keys == r.teams.Keys + {id};
    SetTeamWellFormed(r, id, t', index', last');
    SetTeamIndexSound(r, id, t', index', last');
    SetTeamIndexComplete(r, id, t', index', last');
  }

  lemma SetTeamWellFormed(r: Registry, id: Guid, t': Team, index': map<Guid, Guid>, last': nat)
    requires TeamsWellFormed(r)
    requires r.lastTeamID <= last' && 0 < id <= last'
    requires t'.teamID == id && TeamInvariant(t')
    ensures TeamsWellFormed(Registry(r.teams[id := t'], index', last'))
  {
    var r' := Registry(r.teams[id := t'], index', last');
    forall i | i in r'.teams
      ensures 0 < i <= last' && r'.teams[i].teamID == i && TeamInvariant(r'.teams[i])
    {
      if i != id { assert r'.teams[i] == r.teams[i]; }
    }
  }

  lemma SetTeamIndexSound(r: Registry, id: Guid, t': Team, index': map<Guid, Guid>, last': nat)
    requires IndexSound(r)
    requires forall p :: p in t'.members ==> p in index' && index'[p] == id
    requires forall p :: p in r.playerLists && r.playerLists[p] != id ==> p in index' && index'[p] == r.playerLists[p]
    requires forall p :: p in index' && p !in t'.members ==> p in r.playerLists && r.playerLists[p] != id
    ensures IndexSound(Registry(r.teams[id := t'], index', last'))
  {
    var r' := Registry(r.teams[id := t'], index', last');
    forall p | p in index'
      ensures index'[p] in r'.teams && p in r'.teams[index'[p]].members
    {
      if p !in t'.members {
        var j := r.playerLists[p];
        assert j != id && index'[p] == j;
        assert p in r.teams[j].members;
      }
    }
  }

  lemma SetTeamIndexComplete(r: Registry, id: Guid, t': Team, index': map<Guid, Guid>, last': nat)
    requires IndexComplete(r)
    requires forall p :: p in t'.members ==> p in index' && index'[p] == id
    requires forall p :: p in r.playerLists && r.playerLists[p] != id ==> p in index' && index'[p] == r.playerLists[p]
    ensures IndexComplete(Registry(r.teams[id := t'], index', last'))
  {
    var r' := Registry(r.teams[id := t'], index', last');
    forall i, p | i in r'.teams && p in r'.teams[i].members
      ensures p in index' && index'[p] == i
    {
      if i != id {
        assert p in r.teams[i].members;
        assert p in r.playerLists && r.playerLists[p] == i;
      }
    }
  }

  /** A new team built from a duplicate-free list that contains the leader
      and names nobody already indexed keeps the registry consistent, and
      its id is above every id in use. */
  lemma CreatedKeepsConsistent(r: Registry, param: CreateTeamParam)
    requires Consistent(r)
    requires |r.teams| < MaxTeamSize
    requires |param.memberList| <= param.teamTypeSize
    requires forall m :: m in param.memberList ==> m !in r.playerLists
    requires param.leaderID in param.memberList && NoDuplicates(param.memberList)
    ensures Consistent(Created(r, param))
    ensures r.lastTeamID + 1 !in r.teams
    ensures forall id :: id in r.teams ==> id < Created(r, param).lastTeamID
  {
    var id := r.lastTeamID + 1;
    var t' := Team(param.leaderID, id, param.memberList, [], param.teamTypeSize);
    var index' := IndexedTo(r.playerLists, param.memberList, id);
    assert TeamInvariant(t');
    forall p | p in r.playerLists ensures r.playerLists[p] != id && p !in param.memberList {
      assert r.playerLists[p] in r.teams;
    }
    SetTeamKeepsConsistent(r, id, t', index', id);
  }

  /** Admitting a player who has no team to a team below capacity keeps
      the registry consistent. */
  lemma AdmittedKeepsConsistent(r: Registry, id: Guid, p: Guid)
    requires Consistent(r)
    requires id in r.teams && p !in r.playerLists
    requires |r.teams[id].members| < r.teams[id].teamTypeSize
    ensures Consistent(Admitted(r, id, p))
  {
    var t := r.teams[id];
    var t' := Admit(t, p);
    var index' := r.playerLists[p := id];
    assert p !in t.members by {
      assert IndexComplete(r);
    }
    assert TeamInvariant(t') by {
      assert TeamInvariant(t);
      NoDuplicatesAppend(t.members, p);
      RemoveFirstNoDuplicates(t.applicants, p);
      RemoveFirstElems(t.applicants, p);
      forall a | a in t'.applicants ensures a !in t'.members {
        assert a in t.applicants && a != p;
      }
    }
    assert forall q :: q in t'.members ==> q in index' && index'[q] == id by {
      assert IndexComplete(r);
    }
    assert forall q :: q in index' && q !in t'.members ==> q in r.playerLists && r.playerLists[q] != id by {
      forall q | q in index' && q !in t'.members
        ensures q in r.playerLists && r.playerLists[q] != id
      {
        assert q != p && q !in t.members;
        assert IndexSound(r);
      }
    }
    SetTeamKeepsConsistent(r, id, t', index', r.lastTeamID);
  }

  /** Admitting a list in order grows the admitted prefix one player at a time. */
  lemma AdmitListStep(r: Registry, id: Guid, ps: seq<Guid>, i: nat)
    requires id in r.teams && i < |ps|
    ensures AdmittedAll(r, id, ps[..i + 1]) == Admitted(AdmittedAll(r, id, ps[..i]), id, ps[i])
  {
    assert ps[..i + 1][..i] == ps[..i];
  }

  /** Part way through admitting a list of players none of whom has a team:
      the team has grown by the prefix, and the next player already has a
      team exactly when they repeat an earlier entry of the list. */
  lemma AdmitListNext(r: Registry, id: Guid, ps: seq<Guid>, i: nat)
    requires id in r.teams && i < |ps| && i <= FirstRepeat(ps)
    requires forall m :: m in ps ==> m !in r.playerLists
    ensures |AdmittedAll(r, id, ps[..i]).teams[id].members| == |r.teams[id].members| + i
    ensures AdmittedAll(r, id, ps[..i]).teams[id].teamTypeSize == r.teams[id].teamTypeSize
    ensures ps[i] in AdmittedAll(r, id, ps[..i]).playerLists <==> i == FirstRepeat(ps)
  {
    var k := FirstRepeat(ps);
    var prev := AdmittedAll(r, id, ps[..i]);
    assert && prev.playerLists.Keys == r.playerLists.Keys + Elems(ps[..i])
           && prev.teams[id].members == r.teams[id].members + ps[..i]
           && prev.teams[id].teamTypeSize == r.teams[id].teamTypeSize
    by {
      AdmittedAllEffect(r, id, ps[..i]);
      AdmittedAllFrame(r, id, ps[..i]);
    }
    assert ps[i] in ps[..i] <==> i == k by {
      if i < k {
        NoDuplicatesBefore(ps[..k], i);
        assert ps[..k][..i] == ps[..i];
      }
    }
    assert ps[i] !in r.playerLists;
    assert ps[i] in Elems(ps[..i]) <==> ps[i] in ps[..i];
  }


  /** Splicing member `p` out of team `id` and naming `leader`, a remaining
      member, as leader keeps the registry consistent once `p` is dropped
      from the index. */
  lemma MemberLeftKeepsConsistent(r: Registry, id: Guid, p: Guid, leader: Guid)
    requires Consistent(r)
    requires id in r.teams && p in r.teams[id].members
    requires leader in RemoveFirst(r.teams[id].members, p)
    ensures Consistent(Registry(r.teams[id := r.teams[id].(members := RemoveFirst(r.teams[id].members, p), leaderID := leader)],
                                r.playerLists - {p}, r.lastTeamID))
  {
    var t := r.teams[id];
    var rest := RemoveFirst(t.members, p);
    var t' := t.(members := rest, leaderID := leader);
    RemoveFirstElems(t.members, p);
    RemoveFirstNoDuplicates(t.members, p);
    assert TeamInvariant(t') by {
      forall a | a in t'.applicants ensures a !in rest {
        assert a !in t.members;
      }
    }
    var index' := r.playerLists - {p};
    forall q | q in rest ensures q in index' && index'[q] == id {
      assert q in t.members && q != p;
    }
    forall q | q in index' && q !in rest
      ensures q in r.playerLists && r.playerLists[q] != id
    {
      assert q != p && q !in t.members;
    }
    SetTeamKeepsConsistent(r, id, t', index', r.lastTeamID);
  }

  /** Removing a member other than the leader keeps the registry consistent;
      that member is no longer in the team nor in the index, nobody else's
      membership changes, the leader stays, and the team is never left
      empty. */
  lemma MemberRemovedKeepsConsistent(r: Registry, id: Guid, p: Guid)
    requires Consistent(r)
    requires id in r.teams && p in r.teams[id].members && p != r.teams[id].leaderID
    ensures Consistent(MemberRemoved(r, id, p))
    ensures p !in MemberRemoved(r, id, p).teams[id].members
    ensures p !in MemberRemoved(r, id, p).playerLists
    ensures forall q :: q != p ==> (q in MemberRemoved(r, id, p).teams[id].members <==> q in r.teams[id].members)
    ensures |MemberRemoved(r, id, p).teams[id].members| == |r.teams[id].members| - 1 > 0
    ensures MemberRemoved(r, id, p).teams[id].leaderID == r.teams[id].leaderID
  {
    var t := r.teams[id];
    RemoveFirstElems(t.members, p);
    RemoveFirstNoDuplicates(t.members, p);
    MemberLeftKeepsConsistent(r, id, p, t.leaderID);
    assert t.(members := RemoveFirst(t.members, p), leaderID := t.leaderID) == t.(members := RemoveFirst(t.members, p));
  }

  /** Re-appointing the current leader is allowed and changes nothing. */
  lemma AppointCurrentLeader(r: Registry, id: Guid)
    requires Consistent(r) && id in r.teams
    ensures r.teams[id].leaderID in r.teams[id].members
    ensures Appointed(r, id, r.teams[id].leaderID) == r
  {
    assert TeamInvariant(r.teams[id]);
    assert r.teams[id].(leaderID := r.teams[id].leaderID) == r.teams[id];
  }

  /** Appointing a current member keeps the registry consistent. */
  lemma AppointedKeepsConsistent(r: Registry, id: Guid, q: Guid)
    requires Consistent(r)
    requires id in r.teams && q in r.teams[id].members
    ensures Consistent(Appointed(r, id, q))
  {
    var t' := r.teams[id].(leaderID := q);
    assert TeamInvariant(t');
    SetTeamKeepsConsistent(r, id, t', r.playerLists, r.lastTeamID);
  }

  /** Any duplicate-free queue of at most `MaxApplicantSize` players, none a
      member of the team, keeps the registry consistent. */
  lemma WithApplicantsKeepsConsistent(r: Registry, id: Guid, a: seq<Guid>)
    requires Consistent(r)
    requires id in r.teams
    requires NoDuplicates(a) && |a| <= MaxApplicantSize
    requires forall x :: x in a ==> x !in r.teams[id].members
    ensures Consistent(WithApplicants(r, id, a))
  {
    var t' := r.teams[id].(applicants := a);
    assert TeamInvariant(t');
    SetTeamKeepsConsistent(r, id, t', r.playerLists, r.lastTeamID);
  }

  /** Erasing a team together with its members' index entries keeps the
      registry consistent and leaves every other team, and every index
      entry pointing to another team, as it was. */
  lemma ErasedKeepsConsistent(r: Registry, id: Guid)
    requires Consistent(r)
    requires id in r.teams
    ensures Consistent(Erased(r, id))
    ensures forall i :: i in r.teams && i != id ==> i in Erased(r, id).teams && Erased(r, id).teams[i] == r.teams[i]
    ensures forall p :: p in r.playerLists && r.playerLists[p] != id ==> p in Erased(r, id).playerLists
  {
    var r' := Erased(r, id);
    var gone := Elems(r.teams[id].members);
    forall p | p in r'.playerLists
      ensures r'.playerLists[p] in r'.teams && p in r'.teams[r'.playerLists[p]].members
    {
      assert p !in gone;
    }
    forall i, p | i in r'.teams && p in r'.teams[i].members
      ensures p in r'.playerLists && r'.playerLists[p] == i
    {
      assert p in r.playerLists && r.playerLists[p] == i;
      assert p !in gone;
    }
    forall p | p in r.playerLists && r.playerLists[p] != id
      ensures p in r'.playerLists
    {
      assert p !in gone;
    }
  }

  /** A player leaving keeps the registry consistent. */
  lemma DepartedKeepsConsistent(r: Registry, p: Guid)
    requires Consistent(r)
    requires p in r.playerLists
    ensures Consistent(Departed(r, p))
  {
    var id := r.playerLists[p];
    var t := r.teams[id];
    var rest := RemoveFirst(t.members, p);
    if |rest| == 0 {
      // `p` was the only member: the team goes, and so does `p`'s entry.
      assert Elems(t.members) == {p} by {
        RemoveFirstElems(t.members, p);
        assert forall q :: q in t.members ==> q == p;
      }
      ErasedKeepsConsistent(r, id);
    } else if t.leaderID == p {
      MemberLeftKeepsConsistent(r, id, p, rest[0]);
    } else {
      RemoveFirstElems(t.members, p);
      assert t.leaderID in rest;
      MemberLeftKeepsConsistent(r, id, p, t.leaderID);
    }
  }

  /** The steps of `LeaveTeam` add up to `Departed`: splice the player out,
      then hand the lead to the head of the remaining members if the leader
      left, or erase the team if nobody remains. */
  lemma LeaveSteps(r: Registry, p: Guid)
    requires p in r.playerLists && r.playerLists[p] in r.teams
    ensures var id := r.playerLists[p];
            var r1 := MemberRemoved(r, id, p);
            var rest := r1.teams[id].members;
            && (|rest| > 0 && r.teams[id].leaderID == p ==> Departed(r, p) == Appointed(r1, id, rest[0]))
            && (|rest| > 0 && r.teams[id].leaderID != p ==> Departed(r, p) == r1)
            && (|rest| == 0 ==> Departed(r, p) == Erased(r1, id))
  {
    var id := r.playerLists[p];
    var rest := MemberRemoved(r, id, p).teams[id].members;
    if |rest| == 0 {
      assert Elems(rest) == {};
    } else if r.teams[id].leaderID != p {
      assert r.teams[id].(members := rest, leaderID := r.teams[id].leaderID) == r.teams[id].(members := rest);
    }
  }

  /** Part way through `Disbanded`: the first `i` members removed one by
      one, the team itself still in place. */
  function Disbanding(r: Registry, id: Guid, i: nat): Registry
    requires id in r.teams && i <= |r.teams[id].members|
  {
    var t := r.teams[id];
    r.(teams := r.teams[id := t.(members := t.members[i..])], playerLists := r.playerLists - Elems(t.members[..i]))
  }

  /** Removing the next member is one more step of disbanding. */
  lemma DisbandStep(r: Registry, id: Guid, i: nat)
    requires id in r.teams && i < |r.teams[id].members|
    ensures var m := r.teams[id].members;
            && m[i] in Disbanding(r, id, i).teams[id].members
            && MemberRemoved(Disbanding(r, id, i), id, m[i]) == Disbanding(r, id, i + 1)
  {
    var m := r.teams[id].members;
    assert m[i..][0] == m[i] && m[i..][1..] == m[i + 1..];
    assert Elems(m[..i + 1]) == Elems(m[..i]) + {m[i]} by {
      assert m[..i + 1] == m[..i] + [m[i]];
    }
  }

  /** Once every member is removed, erasing the team leaves what erasing it
      at the start would have. */
  lemma DisbandDone(r: Registry, id: Guid)
    requires id in r.teams
    ensures Erased(Disbanding(r, id, |r.teams[id].members|), id) == Erased(r, id)
  {
    var m := r.teams[id].members;
    assert m[..|m|] == m;
    assert Elems(m[|m|..]) == {};
    assert r.teams[id := r.teams[id].(members := m[|m|..])] - {id} == r.teams - {id};
  }

  // ---------------------------------------------------------------------
  // Outside the invariant
  // ---------------------------------------------------------------------

  /** A kick can leave an empty team behind: in a registry whose team 1 is
      led by a non-member, kicking its only member keeps team 1 in the
      directory with no members. */
  lemma KickCanEmptyTeam()
    ensures var r := Registry(map[1 := Team(1, 1, [2], [], 5)], map[2 := 1], 1);
            && !Consistent(r)
            && 1 in MemberRemoved(r, 1, 2).teams
            && MemberRemoved(r, 1, 2).teams[1].members == []
  {
    var r := Registry(map[1 := Team(1, 1, [2], [], 5)], map[2 := 1], 1);
    assert !TeamInvariant(r.teams[1]);
  }

  /** A member list that repeats a player, then a kick of that player,
      leaves a member without an index entry, so a later application of
      that player reaches the `TeamApplyExist` check. */
  lemma ApplyExistReachable()
    ensures var r := MemberRemoved(Created(Registry(map[], map[], 0), CreateTeamParam(1, [1, 2, 2], 5)), 1, 2);
            && 1 in r.teams
            && 2 !in r.playerLists
            && 2 in r.teams[1].members
  {
    var r0 := Created(Registry(map[], map[], 0), CreateTeamParam(1, [1, 2, 2], 5));
    assert r0.teams[1].members == [1, 2, 2];
    assert RemoveFirst([1, 2, 2], 2) == [1, 2];
  }

  // ---------------------------------------------------------------------
  // What the invariant implies
  // ---------------------------------------------------------------------

  /** A player is indexed exactly when some team lists them as a member. */
  lemma IndexedIffMember(r: Registry, p: Guid)
    ensures Consistent(r) ==> (p in r.playerLists <==> exists id :: id in r.teams && p in r.teams[id].members)
  {
    if Consistent(r) && p in r.playerLists {
      var id := r.playerLists[p];
      assert id in r.teams && p in r.teams[id].members;
    }
  }

  /** A player without an index entry is a member of no team, so the
      membership checks that follow an index lookup never fire. */
  lemma UnindexedIsNoMember(r: Registry, p: Guid, id: Guid)
    requires Consistent(r)
    requires p !in r.playerLists && id in r.teams
    ensures p !in r.teams[id].members
  {
  }

  /** No team exists exactly when nobody is indexed: every team holds at
      least its leader. */
  lemma NoTeamsIffNoPlayers(r: Registry)
    ensures Consistent(r) ==> (|r.teams| == 0 <==> |r.playerLists| == 0)
  {
    if Consistent(r) && |r.teams| != 0 {
      var id :| id in r.teams;
      assert r.teams[id].leaderID in r.playerLists;
    }
    if Consistent(r) && |r.playerLists| != 0 {
      var p :| p in r.playerLists;
      assert r.playerLists[p] in r.teams;
    }
  }

  /** When the leader leaves a team of two or more, the member who joined
      earliest among those remaining leads, and the team survives; the team
      is erased exactly when the leaver was its only member. */
  lemma LeaderSuccession(r: Registry, p: Guid)
    requires Consistent(r)
    requires p in r.playerLists
    ensures var id := r.playerLists[p];
            var t := r.teams[id];
            && (id !in Departed(r, p).teams <==> t.members == [p])
            && (|t.members| >= 2 && t.leaderID == p ==>
                  Departed(r, p).teams[id].leaderID == (if t.members[0] == p then t.members[1] else t.members[0]))
  {
    var id := r.playerLists[p];
    var t := r.teams[id];
    var rest := RemoveFirst(t.members, p);
    var i :| 0 <= i < |t.members| && t.members[i] == p;
    NoDuplicatesBefore(t.members, i);
    RemoveFirstAt(t.members, p, i);
    assert |rest| == |t.members| - 1;
    if |t.members| >= 2 {
      if t.members[0] == p {
        assert i == 0;
        assert rest[0] == t.members[1];
      } else {
        assert i > 0;
        assert rest[0] == t.members[..i][0];
      }
    }
    if |rest| == 0 {
      assert t.members == [t.members[0]];
    }
  }
}
