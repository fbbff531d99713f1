/**
 * Players and the player registry (`Player`, `Players`). A player holds one
 * replicated team reference; every change of it leaves the previous team's
 * member list and joins the new one. Member lists hold client ids.
 */
module Players {
  import opened Wrappers
  import opened Text
  import opened Teams
  import Lists
  import Emote

  /** What a `NetworkBehaviourReference` resolves to on this node. */
  datatype BehaviourRef = Unresolved | OtherBehaviour | TeamBehaviour(team: Team)

  /** `TeamRef`: the replicated team reference; `hasValue` false means "no team". */
  datatype TeamRef = TeamRef(hasValue: bool, target: BehaviourRef) {
    /** `TryGet`: the referenced team, when there is a reference and it resolves to a team. */
    function TryGet(): (r: Option<Team>)
      ensures r.Some? <==> hasValue && target.TeamBehaviour?
      ensures r.Some? ==> r.value == target.team
    {
      if hasValue && target.TeamBehaviour? then Some(target.team) else None
    }
  }

  /** The empty reference `ClearTeamFromServer` writes. */
  const NO_TEAM: TeamRef := TeamRef(false, Unresolved)

  /** The teams a resolved value names: the only member list a change of reference touches. */
  function Targets(t: Option<Team>): set<Team> {
    match t
    case Some(team) => {team}
    case None => {}
  }

  /** One invocation of `OnTeamChanged(previous, current)`. */
  datatype TeamChange = TeamChanged(previous: Option<Team>, current: Option<Team>)

  /**
   * A team's member list after a player's reference changes from `prev` to
   * `cur`: the player leaves the previous team first, then joins the new one.
   */
  function MembersAfter(members: seq<ClientId>, t: Team, id: ClientId, prev: Option<Team>, cur: Option<Team>): seq<ClientId> {
    var left := if prev == Some(t) then Lists.RemoveFirst(members, id) else members;
    if cur == Some(t) then left + [id] else left
  }

  /**
   * Leaving before joining keeps a member list free of duplicates and puts
   * the player in the new team's list and in no other target's list, even
   * when the old and new team are the same; other ids stay where they were.
   */
  lemma MembersAfterMoves(members: seq<ClientId>, t: Team, id: ClientId, prev: Option<Team>, cur: Option<Team>)
    requires Lists.NoDup(members)
    requires prev == Some(t) || id !in members
    ensures Lists.NoDup(MembersAfter(members, t, id, prev, cur))
    ensures id in MembersAfter(members, t, id, prev, cur) <==> cur == Some(t)
    ensures forall x :: x != id ==> (x in MembersAfter(members, t, id, prev, cur) <==> x in members)
  {
    var left := if prev == Some(t) then Lists.RemoveFirst(members, id) else members;
    if prev == Some(t) {
      Lists.RemoveFirstNoDup(members, id);
    }
    assert id !in left;
    if cur == Some(t) {
      Lists.AppendNoDup(left, id);
    }
  }

  /** `SetItemInElevator`'s check-and-insert on `CollectedItemIds`: the new set, and whether the item scores. */
  function Collect(collected: set<nat>, itemId: nat, inShip: bool): (r: (set<nat>, bool))
    ensures r.1 <==> inShip && itemId !in collected
    ensures r.0 == if inShip then collected + {itemId} else collected
  {
    if !inShip then (collected, false)
    else if itemId in collected then (collected, false)
    else (collected + {itemId}, true)
  }

  /** An item dropped into (or out of) the ship: its network id and whether it landed in the ship. */
  datatype Delivery = Delivery(itemId: nat, inShip: bool)

  /** The ids that score, in order, when `deliveries` arrive with `collected` already recorded. */
  function ScoredItems(collected: set<nat>, deliveries: seq<Delivery>): seq<nat>
    decreases |deliveries|
  {
    if deliveries == [] then []
    else
      var (next, scores) := Collect(collected, deliveries[0].itemId, deliveries[0].inShip);
      (if scores then [deliveries[0].itemId] else []) + ScoredItems(next, deliveries[1..])
  }

  /**
   * Each item scores at most once per session: the scored ids are distinct,
   * none was collected beforehand, and each was delivered into the ship.
   */
  lemma {:induction false} ScoredAtMostOnce(collected: set<nat>, deliveries: seq<Delivery>)
    ensures Lists.NoDup(ScoredItems(collected, deliveries))
    ensures forall x :: x in ScoredItems(collected, deliveries) ==> x !in collected
    ensures forall x :: x in ScoredItems(collected, deliveries) ==>
      exists i :: 0 <= i < |deliveries| && deliveries[i] == Delivery(x, true)
    decreases |deliveries|
  {
    if deliveries != [] {
      var d := deliveries[0];
      var (next, scores) := Collect(collected, d.itemId, d.inShip);
      var rest := ScoredItems(next, deliveries[1..]);
      ScoredAtMostOnce(next, deliveries[1..]);
      assert ScoredItems(collected, deliveries) == (if scores then [d.itemId] else []) + rest;
      forall x | x in rest
        ensures exists i :: 0 <= i < |deliveries| && deliveries[i] == Delivery(x, true)
      {
        var i :| 0 <= i < |deliveries[1..]| && deliveries[1..][i] == Delivery(x, true);
        assert deliveries[i + 1] == Delivery(x, true);
      }
      if scores {
        assert d.itemId !in rest;
        assert deliveries[0] == Delivery(d.itemId, true);
      }
    }
  }

  /** A player object of the newer snapshots. */
  class Player {
    /** `OwnerClientId`: also the id the player's teams list it under. */
    const id: ClientId
    /** `IsOwner`: whether this node controls the player. */
    const isOwner: bool
    /** `Controller.playerUsername`. */
    var name: string
    /** `_teamReference`. */
    var teamRef: TeamRef
    /** `Team`: the team the player last joined. */
    var team: Option<Team>
    /** `_isSpectating`. */
    var isSpectating: bool
    /** `_endOfMatchEmote`: an emote id, possibly of an emote this game does not have. */
    var endOfMatchEmote: int
    /** The `OnTeamChanged` invocations so far. */
    var teamChanges: seq<TeamChange>

    constructor (id: ClientId, isOwner: bool, name: string)
      ensures this.id == id && this.isOwner == isOwner && this.name == name
      ensures teamRef == NO_TEAM && team == None && !isSpectating && endOfMatchEmote == 0 && teamChanges == []
    {
      this.id := id;
      this.isOwner := isOwner;
      this.name := name;
      teamRef := NO_TEAM;
      team := None;
      isSpectating := false;
      endOfMatchEmote := 0;
      teamChanges := [];
    }

    /**
     * `EndOfMatchEmoteChecked`: without the emote mod, an emote the game
     * lacks falls back to Dance; otherwise the chosen emote is kept.
     */
    function EndOfMatchEmoteChecked(betterEmotesLoaded: bool): (r: int)
      reads this`endOfMatchEmote
      ensures !betterEmotesLoaded ==> Emote.IsVanilla(r)
      ensures betterEmotesLoaded || Emote.IsVanilla(endOfMatchEmote) ==> r == endOfMatchEmote
      ensures r != endOfMatchEmote ==> r == Emote.DANCE
    {
      if !betterEmotesLoaded && !Emote.IsVanilla(endOfMatchEmote) then Emote.DANCE else endOfMatchEmote
    }

    /** `JoinTeam`: the player's team becomes `t` and its id goes to the end of `t`'s member list. */
    method JoinTeam(t: Team)
      modifies this`team, t`members
      ensures team == Some(t) && t.members == old(t.members) + [id]
    {
      team := Some(t);
      t.members := t.members + [id];
    }

    /** `LeaveTeam`: the player has no team and the first occurrence of its id leaves `t`'s member list. */
    method LeaveTeam(t: Team)
      modifies this`team, t`members
      ensures team == None && t.members == Lists.RemoveFirst(old(t.members), id)
    {
      team := None;
      t.members := Lists.RemoveFirst(t.members, id);
    }

    /**
     * `OnTeamReferenceChanged(previous, current)`: leave the previous team
     * if it resolves, join the current one if it resolves, then fire
     * `OnTeamChanged` with both.
     */
    method OnTeamReferenceChanged(previous: TeamRef, current: TeamRef)
      modifies this`team, this`teamChanges, Targets(previous.TryGet())`members, Targets(current.TryGet())`members
      ensures team == if current.TryGet().Some? then current.TryGet()
                      else if previous.TryGet().Some? then None
                      else old(team)
      ensures forall t | t in Targets(previous.TryGet()) + Targets(current.TryGet()) ::
        t.members == MembersAfter(old(t.members), t, id, previous.TryGet(), current.TryGet())
      ensures teamChanges == old(teamChanges) + [TeamChanged(previous.TryGet(), current.TryGet())]
    {
      var prevTeam := previous.TryGet();
      var newTeam := current.TryGet();
      if prevTeam.Some? {
        LeaveTeam(prevTeam.value);
      }
      if newTeam.Some? {
        JoinTeam(newTeam.value);
      }
      teamChanges := teamChanges + [TeamChanged(prevTeam, newTeam)];
    }

    /**
     * A write to `_teamReference`: the change handler runs only when the new
     * value differs from the stored one.
     */
    method SetTeamReference(r: TeamRef, ghost teams: seq<Team>, ghost players: seq<Player>)
      modifies this`teamRef, this`team, this`teamChanges, Targets(teamRef.TryGet())`members, Targets(r.TryGet())`members
      ensures teamRef == r
      ensures r == old(teamRef) ==> team == old(team) && teamChanges == old(teamChanges)
      ensures r != old(teamRef) ==> team == if r.TryGet().Some? then r.TryGet()
                                           else if old(teamRef).TryGet().Some? then None
                                           else old(team)
      ensures r != old(teamRef) ==> teamChanges == old(teamChanges) + [TeamChanged(old(teamRef).TryGet(), r.TryGet())]
      ensures forall t | t in Targets(old(teamRef).TryGet()) + Targets(r.TryGet()) ::
        t.members == if r == old(teamRef) then old(t.members) else MembersAfter(old(t.members), t, id, old(teamRef).TryGet(), r.TryGet())
      ensures old(Membership(teams, players)) && this in players && Targets(r.TryGet()) <= Objs(teams) ==> Membership(teams, players)
    {
      ghost var kept := Membership(teams, players) && this in players && Targets(r.TryGet()) <= Objs(teams);
      var previous := teamRef;
      if r != previous {
        teamRef := r;
        OnTeamReferenceChanged(previous, r);
        if kept {
          ghost var prev, cur := previous.TryGet(), r.TryGet();
          forall t | t in teams
            ensures Lists.NoDup(t.members)
            ensures forall x | x in t.members :: x in Ids(players)
            ensures id in t.members <==> team == Some(t)
            ensures forall x | x != id :: x in t.members <==> x in old(t.members)
          {
            if t in Targets(prev) + Targets(cur) {
              MembersAfterMoves(old(t.members), t, id, prev, cur);
            }
          }
        }
      }
    }

    /** `ClearTeamFromServer`: the reference becomes "no team". */
    method ClearTeamFromServer(ghost teams: seq<Team>, ghost players: seq<Player>)
      modifies this`teamRef, this`team, this`teamChanges, Targets(teamRef.TryGet())`members
      ensures teamRef == NO_TEAM
      ensures forall t | t in Targets(old(teamRef).TryGet()) ::
        t.members == MembersAfter(old(t.members), t, id, old(teamRef).TryGet(), None)
      ensures old(teamRef).TryGet().Some? ==> team == None
      ensures old(Membership(teams, players)) && this in players ==> Membership(teams, players) && team == None
    {
      if teamRef != NO_TEAM {
        assert Targets(NO_TEAM.TryGet()) == {};
      }
      SetTeamReference(NO_TEAM, teams, players);
    }

    /**
     * `SetTeamFromServer(reference)`: only a reference that resolves to a
     * team is stored; any other reference leaves the player as it was.
     */
    method SetTeamFromServer(reference: BehaviourRef, ghost teams: seq<Team>, ghost players: seq<Player>)
      modifies this`teamRef, this`team, this`teamChanges, Targets(teamRef.TryGet())`members,
        Targets(TeamRef(true, reference).TryGet())`members
      ensures !reference.TeamBehaviour? ==> teamRef == old(teamRef) && team == old(team) && teamChanges == old(teamChanges)
      ensures reference.TeamBehaviour? ==> teamRef == TeamRef(true, reference)
      ensures reference.TeamBehaviour? && TeamRef(true, reference) != old(teamRef) ==>
        team == Some(reference.team)
        && reference.team.members == MembersAfter(old(reference.team.members), reference.team, id, old(teamRef).TryGet(), Some(reference.team))
      ensures old(Membership(teams, players)) && this in players && (reference.TeamBehaviour? ==> reference.team in teams) ==>
        Membership(teams, players)
    {
      if reference.TeamBehaviour? {
        SetTeamReference(TeamRef(true, reference), teams, players);
      }
    }

    /**
     * `SetItemInElevator(item, inShip)` on the server: an item landing in the
     * ship whose id is not yet in `collected` (`CollectedItemIds`) is recorded
     * and its scrap value goes to the player's team, if there is one.
     */
    method SetItemInElevator(itemId: nat, scrapValue: int, inShip: bool, collected: set<nat>) returns (collectedAfter: set<nat>)
      modifies Targets(team)`roundScore, Targets(team)`totalScore, Targets(team)`credits
      ensures collectedAfter == Collect(collected, itemId, inShip).0
      ensures team.Some? && Collect(collected, itemId, inShip).1 ==>
        && team.value.roundScore == old(team.value.roundScore) + scrapValue
        && team.value.totalScore == old(team.value.totalScore) + scrapValue
        && team.value.credits == old(team.value.credits) + scrapValue
      ensures team.Some? && !Collect(collected, itemId, inShip).1 ==>
        && team.value.roundScore == old(team.value.roundScore)
        && team.value.totalScore == old(team.value.totalScore)
        && team.value.credits == old(team.value.credits)
    {
      if !inShip || itemId in collected {
        return collected;
      }
      collectedAfter := collected + {itemId};
      if team.Some? {
        team.value.AddScore(scrapValue);
      }
    }

    /** `StartSpectatingServerRpc` (newest snapshot): clear the team, then mark the player as spectating. */
    method StartSpectatingServerRpc(ghost teams: seq<Team>, ghost players: seq<Player>)
      modifies this`teamRef, this`team, this`teamChanges, this`isSpectating, Targets(teamRef.TryGet())`members
      ensures teamRef == NO_TEAM && isSpectating
      ensures old(Membership(teams, players)) && this in players ==> Membership(teams, players) && team == None
    {
      ClearTeamFromServer(teams, players);
      isSpectating := true;
    }

    /**
     * `StopSpectatingServerRpc` (newest snapshot): join a smallest of the
     * registered `teams`, then stop spectating. With no teams `GetSmallest`
     * throws and nothing changes.
     */
    method StopSpectatingServerRpc(teams: seq<Team>, choice: nat, ghost players: seq<Player>)
      modifies this`teamRef, this`team, this`teamChanges, this`isSpectating, Targets(teamRef.TryGet())`members, Objs(teams)`members
      ensures teams == [] ==> teamRef == old(teamRef) && isSpectating == old(isSpectating)
      ensures teams != [] ==> !isSpectating
      ensures teams != [] ==> teamRef == TeamRef(true, TeamBehaviour(old(GetSmallestRandom(teams, choice)).value))
      ensures old(Membership(teams, players)) && this in players ==> Membership(teams, players)
    {
      var smallest := GetSmallestRandom(teams, choice);
      if smallest.Some? {
        SetTeamFromServer(TeamBehaviour(smallest.value), teams, players);
        isSpectating := false;
      }
    }

    /**
     * `StartSpectating` (src snapshot): only the owner may start, and only
     * when not already spectating; then the player spectates and its team is
     * cleared.
     */
    method StartSpectating(ghost teams: seq<Team>, ghost players: seq<Player>)
      modifies this`teamRef, this`team, this`teamChanges, this`isSpectating, Targets(teamRef.TryGet())`members
      ensures !isOwner || old(isSpectating) ==> teamRef == old(teamRef) && team == old(team) && isSpectating == old(isSpectating)
      ensures isOwner && !old(isSpectating) ==> isSpectating && teamRef == NO_TEAM
      ensures old(Membership(teams, players)) && this in players ==> Membership(teams, players)
    {
      if !isOwner || isSpectating {
        return;
      }
      isSpectating := true;
      ClearTeamFromServer(teams, players);
    }

    /**
     * `StopSpectating` (src snapshot): only the owner may stop, and only when
     * spectating; the flag is cleared first, then the player joins the
     * first smallest team. With no teams `GetSmallest` throws after the flag
     * was cleared, so the player stops spectating without a team.
     */
    method StopSpectating(teams: seq<Team>, ghost players: seq<Player>)
      modifies this`teamRef, this`team, this`teamChanges, this`isSpectating, Targets(teamRef.TryGet())`members, Objs(teams)`members
      ensures !isOwner || !old(isSpectating) ==> teamRef == old(teamRef) && team == old(team) && isSpectating == old(isSpectating)
      ensures isOwner && old(isSpectating) ==> !isSpectating
      ensures isOwner && old(isSpectating) && teams == [] ==> teamRef == old(teamRef)
      ensures isOwner && old(isSpectating) && teams != [] ==>
        teamRef == TeamRef(true, TeamBehaviour(old(GetSmallestFirst(teams)).value))
      ensures old(Membership(teams, players)) && this in players ==> Membership(teams, players)
    {
      if isOwner && isSpectating {
        var smallest := GetSmallestFirst(teams);
        isSpectating := false;
        if smallest.Some? {
          SetTeamFromServer(TeamBehaviour(smallest.value), teams, players);
        }
      }
    }

    /**
     * `OnNetworkSpawn`: register and subscribe the change handlers. Joining
     * the referenced team waits for the next frame (`InitializeNextFrame`),
     * so until then the player is registered but in no member list.
     */
    method OnNetworkSpawn(registry: PlayerRegistry)
      modifies registry
      ensures registry.list == old(registry.list) + [this]
    {
      registry.Register(this);
    }

    /**
     * `InitializeNextFrame`, one frame after spawning: join the team the
     * replicated reference resolves to, if any.
     */
    method InitializeNextFrame()
      modifies this`team, Targets(teamRef.TryGet())`members
      ensures teamRef.TryGet().Some? ==> team == teamRef.TryGet() && teamRef.TryGet().value.members == old(teamRef.TryGet().value.members) + [id]
      ensures teamRef.TryGet().None? ==> team == old(team)
    {
      var t := teamRef.TryGet();
      if t.Some? {
        JoinTeam(t.value);
      }
    }

    /** `OnNetworkDespawn`: deregister, then leave the current team. */
    method OnNetworkDespawn(registry: PlayerRegistry)
      modifies registry, this`team, Targets(team)`members
      ensures registry.list == Lists.RemoveFirst(old(registry.list), this)
      ensures team == None
      ensures old(team).Some? ==> old(team).value.members == Lists.RemoveFirst(old(team.value.members), id)
    {
      registry.Deregister(this);
      if team.Some? {
        LeaveTeam(team.value);
      }
    }
  }

  function PlayerObjs(ps: seq<Player>): set<Player> {
    set p | p in ps
  }

  /** The client ids of the players. */
  function Ids(ps: seq<Player>): set<ClientId> {
    set p | p in ps :: p.id
  }

  /**
   * The membership invariant between registered players and teams: each
   * player's team is the one its reference resolves to and is registered;
   * a player's id is in a team's member list exactly when that is the
   * player's team; member lists have no duplicates and hold only ids of
   * registered players; no two players share an id.
   */
  ghost predicate Membership(teams: seq<Team>, players: seq<Player>)
    reads Objs(teams)`members, PlayerObjs(players)`team, PlayerObjs(players)`teamRef
  {
    && (forall p, q | p in players && q in players :: p.id == q.id ==> p == q)
    && (forall p | p in players :: p.team == p.teamRef.TryGet())
    && (forall p | p in players :: p.team.Some? ==> p.team.value in teams)
    && (forall t | t in teams :: Lists.NoDup(t.members))
    && (forall t | t in teams :: forall x | x in t.members :: x in Ids(players))
    && (forall p, t | p in players && t in teams :: p.id in t.members <==> p.team == Some(t))
  }

  /** Under the membership invariant a player is listed by at most one team. */
  lemma AtMostOneTeam(teams: seq<Team>, players: seq<Player>, x: ClientId, t1: Team, t2: Team)
    requires Membership(teams, players)
    requires t1 in teams && t2 in teams && x in t1.members && x in t2.members
    ensures t1 == t2
  {
    var p :| p in players && p.id == x;
  }

  /** The player list (`_players`), in registration order. */
  class PlayerRegistry {
    var list: seq<Player>

    constructor ()
      ensures list == []
    {
      list := [];
    }

    /** `Count`. */
    function Count(): (n: nat)
      reads this
      ensures n == |list|
    {
      |list|
    }

    /** The indexer: the player registered at `index`; out of range it throws (`None`). */
    function At(index: int): (r: Option<Player>)
      reads this
      ensures r.Some? <==> 0 <= index < |list|
      ensures r.Some? ==> r.value == list[index]
    {
      if 0 <= index < |list| then Some(list[index]) else None
    }

    /** `TryGetByName(name, comparison)`: the first registered player whose name matches. */
    method TryGetByName(name: string, comparison: StringComparison) returns (found: bool, player: Player?)
      ensures found <==> player != null
      ensures player == null <==> forall j :: 0 <= j < |list| ==> !NamesEqual(list[j].name, name, comparison)
      ensures player != null ==>
        exists k :: (0 <= k < |list| && list[k] == player && NamesEqual(player.name, name, comparison)
                     && forall j :: 0 <= j < k ==> !NamesEqual(list[j].name, name, comparison))
    {
      var i := 0;
      while i < |list|
        invariant 0 <= i <= |list|
        invariant forall j :: 0 <= j < i ==> !NamesEqual(list[j].name, name, comparison)
      {
        if NamesEqual(list[i].name, name, comparison) {
          return true, list[i];
        }
        i := i + 1;
      }
      return false, null;
    }

    /** `GetByName(name, comparison)`: the player `TryGetByName` finds, or null exactly when it finds none. */
    method GetByName(name: string, comparison: StringComparison) returns (player: Player?)
      ensures player == null <==> forall j :: 0 <= j < |list| ==> !NamesEqual(list[j].name, name, comparison)
      ensures player != null ==>
        exists k :: (0 <= k < |list| && list[k] == player && NamesEqual(player.name, name, comparison)
                     && forall j :: 0 <= j < k ==> !NamesEqual(list[j].name, name, comparison))
    {
      var _, p := TryGetByName(name, comparison);
      player := p;
    }

    /** `Register`: append. */
    method Register(p: Player)
      modifies this
      ensures list == old(list) + [p]
    {
      list := list + [p];
    }

    /** `Deregister` (`Unregister` in the older snapshot): remove the first occurrence. */
    method Deregister(p: Player)
      modifies this
      ensures list == Lists.RemoveFirst(old(list), p)
    {
      list := Lists.RemoveFirst(list, p);
    }
  }
}
