/**
 * Teams and the team registry (`Team`, `Teams`). A team's member list holds
 * the client ids of its players. The registry keeps the teams in
 * registration order and, in the two newer snapshots, an index from suit id
 * to team; the oldest snapshot keeps the list only (`withSuitIndex` false).
 */
module Teams {
  import opened Wrappers
  import opened Text
  import opened Colors
  import Lists
  import Selection
  import TeamTable

  type ClientId = nat

  /** Which score to rank teams by. */
  datatype TeamMetric = RoundScore | TotalScore

  /** An entry of the host's unlockables list; suits are unlockables. */
  datatype Unlockable = Unlockable(name: string)

  class Team {
    var name: string
    var color: Color
    var roundScore: int
    var totalScore: int
    var credits: int
    var suitId: int
    /** `MembersInternal`, in joining order. */
    var members: seq<ClientId>
    /** The usernames the roster file assigns to this team (`AssignedPlayers`), if any. */
    var assignedPlayers: Option<seq<string>>

    /** A freshly spawned team object, before its name and colour are set. */
    constructor (name: string, color: Color)
      ensures this.name == name && this.color == color
      ensures roundScore == 0 && totalScore == 0 && credits == 0 && suitId == 0
      ensures members == [] && assignedPlayers == None
    {
      this.name := name;
      this.color := color;
      roundScore, totalScore, credits, suitId := 0, 0, 0, 0;
      members := [];
      assignedPlayers := None;
    }

    /** `GetScore(metric)`: the score the metric names. */
    function GetScore(metric: TeamMetric): (score: int)
      reads this`roundScore, this`totalScore
      ensures metric.RoundScore? ==> score == roundScore
      ensures metric.TotalScore? ==> score == totalScore
    {
      match metric
      case RoundScore => roundScore
      case TotalScore => totalScore
    }

    /** `AddScore`: the same amount, possibly negative, goes to all three counters. */
    method AddScore(score: int)
      modifies this`roundScore, this`totalScore, this`credits
      ensures roundScore == old(roundScore) + score
      ensures totalScore == old(totalScore) + score
      ensures credits == old(credits) + score
    {
      roundScore := roundScore + score;
      totalScore := totalScore + score;
      credits := credits + score;
    }

    /**
     * The credit-sync RPCs (buying items, a ship unlockable, a reroute or a
     * vehicle; `SyncBoughtItemsServerRpc` in the oldest snapshot): the
     * caller's value replaces the credit count.
     */
    method SetCredits(newCredits: int)
      modifies this`credits
      ensures credits == newCredits
    {
      credits := newCredits;
    }

    /** `SetNameServerRpc`. */
    method SetName(newName: string)
      modifies this`name
      ensures name == newName
    {
      name := newName;
    }

    /** `SetColorServerRpc`. */
    method SetColor(newColor: Color)
      modifies this`color
      ensures color == newColor
    {
      color := newColor;
    }

    /** The suit unlockable created for this team. */
    function Suit(): Unlockable
      reads this`name
    {
      SuitNamed(name)
    }

    /**
     * `CreateSuit`: the server appends the team's suit and takes the last
     * index as its suit id; a client, which received the suit id, pads the
     * list with nulls until that index exists and stores the suit there.
     */
    method CreateSuit(unlockables: seq<Option<Unlockable>>, isServer: bool) returns (updated: seq<Option<Unlockable>>)
      requires !isServer ==> suitId >= 0
      modifies this`suitId
      ensures isServer ==> updated == unlockables + [Some(Suit())] && suitId == |updated| - 1
      ensures !isServer ==> suitId == old(suitId)
      ensures !isServer ==> |updated| == if suitId < |unlockables| then |unlockables| else suitId + 1
      ensures !isServer ==> updated[suitId] == Some(Suit())
      ensures !isServer ==> forall i :: 0 <= i < |updated| && i != suitId ==>
        updated[i] == if i < |unlockables| then unlockables[i] else None
    {
      updated := unlockables;
      if isServer {
        updated := updated + [Some(Suit())];
        suitId := |updated| - 1;
      } else {
        while |updated| <= suitId
          invariant |unlockables| <= |updated| <= if suitId < |unlockables| then |unlockables| else suitId + 1
          invariant updated[..|unlockables|] == unlockables
          invariant forall i :: |unlockables| <= i < |updated| ==> updated[i] == None
        {
          updated := updated + [None];
        }
        updated := updated[suitId := Some(Suit())];
      }
    }

    /** `Start` in the oldest snapshot: the suit id is the old length, and the suit is appended there. */
    method Start(unlockables: seq<Option<Unlockable>>) returns (updated: seq<Option<Unlockable>>)
      modifies this`suitId
      ensures suitId == |unlockables| && updated == unlockables + [Some(Unlockable("CompetitiveCompanySuit"))]
      ensures updated[suitId] == Some(Unlockable("CompetitiveCompanySuit"))
    {
      suitId := |unlockables|;
      updated := unlockables + [Some(Unlockable("CompetitiveCompanySuit"))];
    }

    /** `OnNetworkSpawn` in the newer snapshots: create the suit, then register. */
    method OnNetworkSpawn(registry: TeamRegistry, unlockables: seq<Option<Unlockable>>, isServer: bool) returns (updated: seq<Option<Unlockable>>)
      requires !isServer ==> suitId >= 0
      modifies this`suitId, registry
      ensures isServer ==> updated == unlockables + [Some(Suit())] && suitId == |updated| - 1
      ensures !isServer ==> suitId == old(suitId) && 0 <= suitId < |updated| && updated[suitId] == Some(Suit())
      ensures registry.list == old(registry.list) + [this]
      ensures registry.suits == if registry.withSuitIndex then old(registry.suits)[suitId := this] else old(registry.suits)
    {
      updated := CreateSuit(unlockables, isServer);
      registry.Register(this);
    }

    /** `OnNetworkDespawn`: unregister. */
    method OnNetworkDespawn(registry: TeamRegistry)
      modifies registry
      ensures registry.list == Lists.RemoveFirst(old(registry.list), this)
      ensures registry.suits == if registry.withSuitIndex then old(registry.suits) - {suitId} else old(registry.suits)
    {
      registry.Unregister(this);
    }

    /** `DeleteServerRpc`: refused while the team has members; otherwise the team despawns. */
    method DeleteServerRpc(registry: TeamRegistry) returns (deleted: bool)
      modifies registry
      ensures deleted <==> members == []
      ensures !deleted ==> registry.list == old(registry.list) && registry.suits == old(registry.suits)
      ensures deleted ==> registry.list == Lists.RemoveFirst(old(registry.list), this)
      ensures deleted ==> registry.suits == if registry.withSuitIndex then old(registry.suits) - {suitId} else old(registry.suits)
    {
      if |members| > 0 {
        return false;
      }
      OnNetworkDespawn(registry);
      return true;
    }
  }

  function Objs(ts: seq<Team>): set<Team> {
    set t | t in ts
  }

  /** The suit unlockable of a team named `name`. */
  function SuitNamed(name: string): Unlockable {
    Unlockable(name + " Team Suit")
  }

  /** Team names in registration order. */
  function Names(ts: seq<Team>): (names: seq<string>)
    reads Objs(ts)`name
    ensures |names| == |ts| && forall i :: 0 <= i < |ts| ==> names[i] == ts[i].name
  {
    if ts == [] then [] else [ts[0].name] + Names(ts[1..])
  }

  /** The first team whose name equals `name` under `comparison`: the team `TryGet` finds. */
  function Lookup(ts: seq<Team>, name: string, comparison: StringComparison): (r: Option<Team>)
    reads Objs(ts)`name
    ensures r.None? <==> forall j :: 0 <= j < |ts| ==> !NamesEqual(ts[j].name, name, comparison)
    ensures r.Some? ==> exists k :: 0 <= k < |ts| && ts[k] == r.value && NamesEqual(ts[k].name, name, comparison)
                                    && forall j :: 0 <= j < k ==> !NamesEqual(ts[j].name, name, comparison)
  {
    match FirstMatch(Names(ts), name, comparison)
    case None => None
    case Some(k) => Some(ts[k])
  }

  /** A matching team with no match before it is the one `Lookup` names. */
  lemma LookupAgrees(ts: seq<Team>, name: string, comparison: StringComparison, k: nat)
    requires k < |ts| && NamesEqual(ts[k].name, name, comparison)
    requires forall j :: 0 <= j < k ==> !NamesEqual(ts[j].name, name, comparison)
    ensures Lookup(ts, name, comparison) == Some(ts[k])
  {
    var m := FirstMatch(Names(ts), name, comparison);
    assert m.Some? && m.value == k by {
      assert NamesEqual(Names(ts)[k], name, comparison);
    }
  }

  /** Member counts in registration order. */
  function MemberCounts(ts: seq<Team>): (counts: seq<int>)
    reads Objs(ts)`members
    ensures |counts| == |ts| && forall i :: 0 <= i < |ts| ==> counts[i] == |ts[i].members|
  {
    if ts == [] then [] else [|ts[0].members|] + MemberCounts(ts[1..])
  }

  /** Scores for a metric in registration order. */
  function Scores(ts: seq<Team>, metric: TeamMetric): (scores: seq<int>)
    reads Objs(ts)`roundScore, Objs(ts)`totalScore
    ensures |scores| == |ts| && forall i :: 0 <= i < |ts| ==> scores[i] == ts[i].GetScore(metric)
  {
    if ts == [] then [] else [ts[0].GetScore(metric)] + Scores(ts[1..], metric)
  }

  /** `GetSmallest` of the two older snapshots: the first-registered team with the fewest members; throws when empty. */
  function GetSmallestFirst(ts: seq<Team>): (r: Option<Team>)
    reads Objs(ts)`members
    ensures r.None? <==> |ts| == 0
    ensures r.Some? ==> exists k :: 0 <= k < |ts| && ts[k] == r.value && forall j :: 0 <= j < k ==> |ts[k].members| < |ts[j].members|
    ensures r.Some? ==> forall j :: 0 <= j < |ts| ==> |r.value.members| <= |ts[j].members|
  {
    if |ts| == 0 then None
    else
      var k := Selection.FirstMinIndex(MemberCounts(ts));
      Selection.MinOfSpec(MemberCounts(ts));
      Some(ts[k])
  }

  /**
   * `GetSmallest` of the newest snapshot: among the teams with the fewest
   * members, the one a random index picks. `choice` stands for that index
   * and is taken modulo the number of tied teams.
   */
  function GetSmallestRandom(ts: seq<Team>, choice: nat): (r: Option<Team>)
    reads Objs(ts)`members
    ensures r.None? <==> |ts| == 0
    ensures r.Some? ==> r.value in ts
    ensures r.Some? ==> forall j :: 0 <= j < |ts| ==> |r.value.members| <= |ts[j].members|
  {
    if |ts| == 0 then None
    else
      var available := Selection.MinimalIndices(MemberCounts(ts));
      Selection.MinimalIndicesSpec(MemberCounts(ts));
      Selection.MinOfSpec(MemberCounts(ts));
      Some(ts[available[choice % |available|]])
  }

  /** The choice among tied teams is free: every team with the fewest members can be picked. */
  lemma AnySmallestCanBeChosen(ts: seq<Team>, k: nat)
    requires k < |ts| && forall j :: 0 <= j < |ts| ==> |ts[k].members| <= |ts[j].members|
    ensures exists choice: nat :: GetSmallestRandom(ts, choice) == Some(ts[k])
  {
    var counts := MemberCounts(ts);
    var p := Selection.MinimalIndexReachable(counts, k);
    var available := Selection.MinimalIndices(counts);
    Selection.SmallModulo(p, |available|);
    assert GetSmallestRandom(ts, p) == Some(ts[available[p % |available|]]);
  }

  /** `GetLeader(metric)`: a team with the highest score; ties go to the earliest registered. */
  function GetLeader(ts: seq<Team>, metric: TeamMetric): (r: Option<Team>)
    reads Objs(ts)`roundScore, Objs(ts)`totalScore
    ensures r.None? <==> |ts| == 0
    ensures r.Some? ==> forall j :: 0 <= j < |ts| ==> ts[j].GetScore(metric) <= r.value.GetScore(metric)
    ensures r.Some? ==> exists k :: 0 <= k < |ts| && ts[k] == r.value && forall j :: 0 <= j < k ==> ts[j].GetScore(metric) < ts[k].GetScore(metric)
  {
    if |ts| == 0 then None
    else
      var k := Selection.FirstMaxIndex(Scores(ts, metric));
      Some(ts[k])
  }

  /** The team has a member who is not dead. */
  predicate HasLivingMember(t: Team, dead: set<ClientId>)
    reads t`members
  {
    exists i :: 0 <= i < |t.members| && t.members[i] !in dead
  }

  /** `GetLiving`: the teams, in order, that have at least one living member. */
  function GetLiving(ts: seq<Team>, dead: set<ClientId>): seq<Team>
    reads Objs(ts)`members
  {
    if ts == [] then []
    else (if HasLivingMember(ts[0], dead) then [ts[0]] else []) + GetLiving(ts[1..], dead)
  }

  /** `GetLiving` keeps exactly the teams with a living member, and keeps them in order. */
  lemma {:induction false} GetLivingKeepsExactly(ts: seq<Team>, dead: set<ClientId>)
    ensures forall t :: t in GetLiving(ts, dead) <==> t in ts && HasLivingMember(t, dead)
    ensures |GetLiving(ts, dead)| <= |ts|
    ensures (forall i :: 0 <= i < |ts| ==> HasLivingMember(ts[i], dead)) ==> GetLiving(ts, dead) == ts
  {
    if ts != [] {
      GetLivingKeepsExactly(ts[1..], dead);
      assert ts == [ts[0]] + ts[1..];
      if forall i :: 0 <= i < |ts| ==> HasLivingMember(ts[i], dead) {
        assert forall i :: 0 <= i < |ts[1..]| ==> HasLivingMember(ts[1..][i], dead) by {
          forall i | 0 <= i < |ts[1..]| ensures HasLivingMember(ts[1..][i], dead) {
            assert ts[1..][i] == ts[i + 1];
          }
        }
      }
    }
  }

  /** The team list (`_list`) and, when `withSuitIndex`, the suit index (`_suits`). */
  class TeamRegistry {
    const withSuitIndex: bool
    var list: seq<Team>
    var suits: map<int, Team>

    constructor (withSuitIndex: bool)
      ensures this.withSuitIndex == withSuitIndex && list == [] && suits == map[]
    {
      this.withSuitIndex := withSuitIndex;
      list := [];
      suits := map[];
    }

    /** `Count`. */
    function Count(): nat
      reads this
    {
      |list|
    }

    /** The suit index maps each registered team's suit id to it and nothing else; no team is listed twice. */
    ghost predicate SuitIndexed()
      reads this, Objs(list)`suitId
    {
      && Lists.NoDup(list)
      && (forall id :: id in suits ==> suits[id] in list && suits[id].suitId == id)
      && (forall i :: 0 <= i < |list| ==> list[i].suitId in suits && suits[list[i].suitId] == list[i])
    }

    /** `Register`: append the team and map its suit id to it. */
    method Register(team: Team)
      modifies this
      ensures list == old(list) + [team]
      ensures suits == if withSuitIndex then old(suits)[team.suitId := team] else old(suits)
      ensures (withSuitIndex && old(SuitIndexed()) && team !in old(list)
               && forall i :: 0 <= i < |old(list)| ==> old(list)[i].suitId != team.suitId) ==> SuitIndexed()
    {
      list := list + [team];
      if withSuitIndex {
        suits := suits[team.suitId := team];
      }
    }

    /** `Unregister`: remove the first occurrence of the team and its suit id's entry. */
    method Unregister(team: Team)
      modifies this
      ensures list == Lists.RemoveFirst(old(list), team)
      ensures suits == if withSuitIndex then old(suits) - {team.suitId} else old(suits)
      ensures withSuitIndex && old(SuitIndexed()) && team in old(list) ==> SuitIndexed()
    {
      ghost var wasIndexed := withSuitIndex && SuitIndexed() && team in list;
      if wasIndexed {
        Lists.RemoveFirstNoDup(list, team);
      }
      list := Lists.RemoveFirst(list, team);
      if withSuitIndex {
        suits := suits - {team.suitId};
      }
      if wasIndexed {
        forall id | id in suits ensures suits[id] in list && suits[id].suitId == id {
          assert old(suits)[id].suitId == id && id != team.suitId;
        }
        forall i | 0 <= i < |list| ensures list[i].suitId in suits && suits[list[i].suitId] == list[i] {
          var u := list[i];
          assert u in old(list) && u != team;
          var k :| 0 <= k < |old(list)| && old(list)[k] == u;
          assert old(suits)[u.suitId] == u;
        }
      }
    }

    /** `TryGetFromSuit`. */
    function TryGetFromSuit(suitId: int): (r: Option<Team>)
      reads this
      ensures r.Some? <==> suitId in suits
      ensures r.Some? ==> r.value == suits[suitId]
    {
      if suitId in suits then Some(suits[suitId]) else None
    }

    /** With a consistent index, a suit lookup succeeds iff a registered team has that suit id, and finds that team. */
    lemma SuitLookupFindsRegistered(suitId: int)
      requires SuitIndexed()
      ensures TryGetFromSuit(suitId).Some? <==> exists i :: 0 <= i < |list| && list[i].suitId == suitId
      ensures TryGetFromSuit(suitId).Some? ==> TryGetFromSuit(suitId).value in list && TryGetFromSuit(suitId).value.suitId == suitId
    {
      if suitId in suits {
        var t := suits[suitId];
        var i :| 0 <= i < |list| && list[i] == t;
      }
    }

    /** `TryGet(name, comparison)`: the first team, in registration order, whose name matches. */
    method TryGet(name: string, comparison: StringComparison) returns (found: bool, team: Team?)
      ensures found <==> team != null
      ensures team == null <==> forall j :: 0 <= j < |list| ==> !NamesEqual(list[j].name, name, comparison)
      ensures team != null ==>
        exists k :: (0 <= k < |list| && list[k] == team && NamesEqual(team.name, name, comparison)
                     && forall j :: 0 <= j < k ==> !NamesEqual(list[j].name, name, comparison))
    {
      var i := 0;
      while i < |list|
        invariant 0 <= i <= |list|
        invariant forall j :: 0 <= j < i ==> !NamesEqual(list[j].name, name, comparison)
      {
        if NamesEqual(list[i].name, name, comparison) {
          LookupAgrees(list, name, comparison, i);
          return true, list[i];
        }
        i := i + 1;
      }
      return false, null;
    }

    /** `Get(name, comparison)`: the team `TryGet` finds, or null exactly when it finds none. */
    method Get(name: string, comparison: StringComparison) returns (team: Team?)
      ensures team == null <==> forall j :: 0 <= j < |list| ==> !NamesEqual(list[j].name, name, comparison)
      ensures team != null ==>
        exists k :: (0 <= k < |list| && list[k] == team && NamesEqual(team.name, name, comparison)
                     && forall j :: 0 <= j < k ==> !NamesEqual(list[j].name, name, comparison))
    {
      var _, t := TryGet(name, comparison);
      team := t;
    }

    /** The table row data for each team, as `PrettyPrint` reads it. */
    function Entries(localTeam: Team?, colorTag: Color -> string): (entries: seq<TeamTable.Entry>)
      reads this, Objs(list)`name, Objs(list)`color, Objs(list)`members, Objs(list)`roundScore, Objs(list)`totalScore
      ensures |entries| == |list|
      ensures forall i :: 0 <= i < |list| ==> entries[i].name == list[i].name && entries[i].memberCount == |list[i].members|
      ensures forall i :: 0 <= i < |list| ==> entries[i].roundScore == list[i].roundScore && entries[i].totalScore == list[i].totalScore
      ensures forall i :: 0 <= i < |list| ==> (entries[i].isLocal <==> list[i] == localTeam)
    {
      EntriesOf(list, localTeam, colorTag)
    }

    /**
     * `PrettyPrint(width, color)`. `withCounts` selects the newest snapshot's
     * member-count suffix; `localTeam` is the local player's team and
     * `colorTag` the engine's hex rendering of a colour.
     */
    method PrettyPrint(width: int, color: bool, withCounts: bool, localTeam: Team?, colorTag: Color -> string)
      returns (lines: Option<seq<TeamTable.Line>>, w: TeamTable.Widths)
      ensures lines.None? <==> |list| == 0 || width < 4
      ensures lines.Some? ==> |lines.value| == |list| + 4
      ensures lines.Some? ==>
        && width >= 4 && TeamTable.Fits(Entries(localTeam, colorTag), w, withCounts)
        && TeamTable.IsTable(lines.value, Entries(localTeam, colorTag), w, width, color, withCounts)
        && TeamTable.Distributed(Entries(localTeam, colorTag), w, width, withCounts)
      ensures lines.Some? && TeamTable.AvailableSpace(Entries(localTeam, colorTag), width, withCounts) >= 0 ==>
        TeamTable.ShowsWidth(lines.value, Entries(localTeam, colorTag), width)
      ensures lines.Some? && !color ==> forall k :: 0 <= k < |lines.value| ==> TeamTable.NoMarkup(lines.value[k])
    {
      var entries := Entries(localTeam, colorTag);
      lines, w := TeamTable.PrettyPrint(entries, width, color, withCounts);
      assert entries == Entries(localTeam, colorTag);
    }
  }

  function EntriesOf(ts: seq<Team>, localTeam: Team?, colorTag: Color -> string): (entries: seq<TeamTable.Entry>)
    reads Objs(ts)`name, Objs(ts)`color, Objs(ts)`members, Objs(ts)`roundScore, Objs(ts)`totalScore
    ensures |entries| == |ts|
    ensures forall i :: 0 <= i < |ts| ==>
      entries[i] == TeamTable.Entry(ts[i].name, colorTag(ts[i].color), |ts[i].members|, ts[i].roundScore, ts[i].totalScore, ts[i] == localTeam)
  {
    if ts == [] then []
    else
      [TeamTable.Entry(ts[0].name, colorTag(ts[0].color), |ts[0].members|, ts[0].roundScore, ts[0].totalScore, ts[0] == localTeam)]
      + EntriesOf(ts[1..], localTeam, colorTag)
  }
}
