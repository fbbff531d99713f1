/**
 * The older session of Game/Session.cs. It differs from the newer one in
 * three ways that matter: `StartRound` raises `OnMatchStarted` before it
 * increments the round number (so the first round of a match does raise
 * it), `EndMatch` resets only the total scores and names no winner, and a
 * joining player always goes to the smallest team. Spawning creates two
 * fixed teams instead of reading a roster.
 */
module LegacySession {
  import opened Wrappers
  import opened Colors
  import opened Teams
  import opened Players
  import opened Settings
  import Combat
  import Session

  /** `Session.MinTeams`. */
  const MIN_TEAMS: int := 2
  /** `Session.MaxTeams`. */
  const MAX_TEAMS: int := 6

  /** The two teams `OnNetworkSpawn` creates, by name. */
  const DEFAULT_TEAM_NAMES: seq<string> := ["Hoarding bugs", "Manticoils"]

  /** The number of teams spawning creates lies within the bounds the commands keep. */
  lemma DefaultTeamsWithinBounds()
    ensures MIN_TEAMS <= |DEFAULT_TEAM_NAMES| <= MAX_TEAMS
    ensures MIN_TEAMS < MAX_TEAMS
  {
  }

  /** The events of the older session; they carry no data. */
  datatype LegacyEvent = SessionStarted | MatchStarted | RoundStarted | RoundEnded | MatchEnded

  /**
   * `StartRound`: nothing while a round is active; otherwise `OnMatchStarted`
   * if no match is running yet, then the round becomes active,
   * `OnRoundStarted` fires, and the round number goes up by one.
   */
  function StartStep(p: Session.Phase): (r: (Session.Phase, seq<LegacyEvent>))
    ensures p.isRoundActive ==> r == (p, [])
    ensures !p.isRoundActive ==> r.0 == Session.Phase(p.roundNumber + 1, true)
    ensures !p.isRoundActive ==> (MatchStarted in r.1 <==> p.roundNumber < 0)
  {
    if p.isRoundActive then (p, [])
    else (Session.Phase(p.roundNumber + 1, true), (if p.roundNumber < 0 then [MatchStarted] else []) + [RoundStarted])
  }

  /**
   * `EndRound`: nothing while no round is active; otherwise the round ends,
   * `OnRoundEnded` fires, and after the last round `EndMatch` raises
   * `OnMatchEnded` and returns to the pre-game round number.
   */
  function EndStep(p: Session.Phase, numberOfRounds: int): (Session.Phase, seq<LegacyEvent>) {
    if !p.isRoundActive then (p, [])
    else if p.roundNumber >= numberOfRounds - 1 then (Session.Phase(-1, false), [RoundEnded, MatchEnded])
    else (Session.Phase(p.roundNumber, false), [RoundEnded])
  }

  /** `pairs` start/end pairs in a row. */
  function Play(p: Session.Phase, pairs: nat, numberOfRounds: int): (Session.Phase, seq<LegacyEvent>)
    decreases pairs
  {
    if pairs == 0 then (p, [])
    else
      var started := StartStep(p);
      var ended := EndStep(started.0, numberOfRounds);
      var rest := Play(ended.0, pairs - 1, numberOfRounds);
      (rest.0, started.1 + ended.1 + rest.1)
  }

  /** `m` rounds' worth of events: a start and an end each. */
  function Rounds(m: nat): seq<LegacyEvent> {
    if m == 0 then [] else [RoundStarted, RoundEnded] + Rounds(m - 1)
  }

  /** A run of rounds never raises `OnMatchStarted` and has a start then an end for each round. */
  lemma {:induction false} RoundsShape(m: nat)
    ensures |Rounds(m)| == 2 * m
    ensures MatchStarted !in Rounds(m) && MatchEnded !in Rounds(m)
    ensures forall i :: 0 <= i < m ==> Rounds(m)[2 * i] == RoundStarted && Rounds(m)[2 * i + 1] == RoundEnded
  {
    if m > 0 {
      RoundsShape(m - 1);
      var r := Rounds(m);
      forall i | 1 <= i < m ensures r[2 * i] == RoundStarted && r[2 * i + 1] == RoundEnded {
        assert r[2 * i] == Rounds(m - 1)[2 * (i - 1)];
        assert r[2 * i + 1] == Rounds(m - 1)[2 * (i - 1) + 1];
      }
    }
  }

  /** From the state before round `k` of an `n`-round match, the rest of the match runs to its end. */
  lemma {:induction false} MatchRunsFrom(k: int, n: int)
    requires 0 <= k < n
    ensures Play(Session.Phase(k - 1, false), n - k, n)
         == (Session.Phase(-1, false), (if k == 0 then [MatchStarted] else []) + Rounds(n - k) + [MatchEnded])
    decreases n - k
  {
    var front: seq<LegacyEvent> := if k == 0 then [MatchStarted] else [];
    var ended := EndStep(Session.Phase(k, true), n);
    var rest := Play(ended.0, n - k - 1, n);
    assert StartStep(Session.Phase(k - 1, false)) == (Session.Phase(k, true), front + [RoundStarted]);
    assert Play(Session.Phase(k - 1, false), n - k, n) == (rest.0, front + [RoundStarted] + ended.1 + rest.1);
    assert Rounds(n - k) == [RoundStarted, RoundEnded] + Rounds(n - k - 1);
    if k == n - 1 {
      assert rest == (Session.Phase(-1, false), []);
      assert ended.1 == [RoundEnded, MatchEnded];
    } else {
      assert ended == (Session.Phase(k, false), [RoundEnded]);
      MatchRunsFrom(k + 1, n);
      var none: seq<LegacyEvent> := [];
      assert (if k + 1 == 0 then [MatchStarted] else none) + Rounds(n - k - 1) + [MatchEnded] == Rounds(n - k - 1) + [MatchEnded];
    }
    assert front + [RoundStarted] + ended.1 + rest.1 == front + Rounds(n - k) + [MatchEnded];
  }

  /**
   * A whole match of `n >= 1` rounds from the pre-game state: `OnMatchStarted`
   * exactly once and first, before the first `OnRoundStarted`; then a start
   * and an end per round; then `OnMatchEnded`; and the pre-game state again.
   */
  lemma WholeMatch(n: int)
    requires n >= 1
    ensures var (p, log) := Play(Session.Phase(-1, false), n, n);
      && p == Session.Phase(-1, false)
      && log == [MatchStarted] + Rounds(n) + [MatchEnded]
      && |log| == 2 * n + 2
      && log[0] == MatchStarted && log[1] == RoundStarted
      && multiset(log)[MatchStarted] == 1
  {
    MatchRunsFrom(0, n);
    RoundsShape(n);
    var log := [MatchStarted] + Rounds(n) + [MatchEnded];
    assert log[1] == Rounds(n)[0];
    calc {
      multiset(log)[MatchStarted];
      multiset([MatchStarted])[MatchStarted] + multiset(Rounds(n))[MatchStarted] + multiset([MatchEnded])[MatchStarted];
      1;
    }
  }

  class LegacySession {
    var settings: LegacySettings
    var roundNumber: int
    var isRoundActive: bool
    const teams: TeamRegistry
    const players: PlayerRegistry
    const combat: Combat.Combat<Session.Rule>
    var events: seq<LegacyEvent>

    /** The lifecycle part of the state. */
    function CurrentPhase(): Session.Phase
      reads this`roundNumber, this`isRoundActive
    {
      Session.Phase(roundNumber, isRoundActive)
    }

    /** The new session, with `Awake` run: the chain [round-active, friendly-fire, safe-radius]. */
    constructor ()
      ensures settings == DEFAULT_LEGACY_SETTINGS && roundNumber == -1 && !isRoundActive
      ensures fresh(teams) && !teams.withSuitIndex && teams.list == []
      ensures fresh(players) && players.list == []
      ensures fresh(combat) && combat.predicates == Session.DEFAULT_RULES
      ensures events == []
    {
      settings := DEFAULT_LEGACY_SETTINGS;
      roundNumber := -1;
      isRoundActive := false;
      teams := new TeamRegistry(false);
      players := new PlayerRegistry();
      combat := new Combat.Combat.FromList(Session.DEFAULT_RULES);
      events := [];
    }

    /**
     * `StartRound`: nothing while a round is active; otherwise the events of
     * `StartStep`, the round number up by one, and every team's round score
     * zeroed, totals and credits kept.
     */
    method StartRound()
      modifies this`roundNumber, this`isRoundActive, this`events, Objs(teams.list)`roundScore
      ensures CurrentPhase() == StartStep(old(CurrentPhase())).0
      ensures events == old(events) + StartStep(old(CurrentPhase())).1
      ensures forall t | t in teams.list :: t.roundScore == if old(isRoundActive) then old(t.roundScore) else 0
      ensures forall t | t in teams.list :: t.totalScore == old(t.totalScore) && t.credits == old(t.credits)
    {
      if !isRoundActive {
        if roundNumber < 0 {
          events := events + [MatchStarted];
        }
        isRoundActive := true;
        events := events + [RoundStarted];
        roundNumber := roundNumber + 1;
        var ts := teams.list;
        var i := 0;
        while i < |ts|
          invariant 0 <= i <= |ts|
          invariant forall j :: 0 <= j < i ==> ts[j].roundScore == 0
          modifies Objs(ts)`roundScore
        {
          ts[i].roundScore := 0;
          i := i + 1;
        }
      }
    }

    /** `EndMatch`: `OnMatchEnded`, every total score zeroed, and the pre-game round number. */
    method EndMatch()
      modifies this`roundNumber, this`events, Objs(teams.list)`totalScore
      ensures roundNumber == -1 && events == old(events) + [MatchEnded]
      ensures forall t | t in teams.list :: t.totalScore == 0
      ensures forall t | t in teams.list :: t.roundScore == old(t.roundScore) && t.credits == old(t.credits)
    {
      events := events + [MatchEnded];
      var ts := teams.list;
      var i := 0;
      while i < |ts|
        invariant 0 <= i <= |ts|
        invariant forall j :: 0 <= j < i ==> ts[j].totalScore == 0
        modifies Objs(ts)`totalScore
      {
        ts[i].totalScore := 0;
        i := i + 1;
      }
      roundNumber := -1;
    }

    /**
     * `EndRound`: nothing while no round is active; otherwise the events of
     * `EndStep`, and after the last round only the total scores are reset.
     */
    method EndRound()
      modifies this`roundNumber, this`isRoundActive, this`events, Objs(teams.list)`totalScore
      ensures CurrentPhase() == EndStep(old(CurrentPhase()), settings.numberOfRounds).0
      ensures events == old(events) + EndStep(old(CurrentPhase()), settings.numberOfRounds).1
      ensures forall t | t in teams.list :: t.totalScore == if Session.EndsMatch(old(CurrentPhase()), settings.numberOfRounds) then 0 else old(t.totalScore)
      ensures forall t | t in teams.list :: t.roundScore == old(t.roundScore) && t.credits == old(t.credits)
    {
      if isRoundActive {
        isRoundActive := false;
        events := events + [RoundEnded];
        if roundNumber >= settings.numberOfRounds - 1 {
          EndMatch();
        }
      }
    }

    /** `SyncSettings`: the host publishes the configuration. */
    method SyncSettings(config: LegacySettings)
      modifies this`settings
      ensures settings == config
    {
      settings := config;
    }

    /**
     * `CreateTeamServerRpc`: spawns a new team, which registers itself (the
     * older team has no suit index; its suit comes from `Start`), then gives
     * it its name and colour.
     */
    method CreateTeamServerRpc(name: string, color: Color) returns (team: Team)
      modifies teams
      ensures fresh(team) && team.name == name && team.color == color
      ensures team.members == [] && team.roundScore == 0 && team.totalScore == 0 && team.credits == 0
      ensures teams.list == old(teams.list) + [team]
      ensures !teams.withSuitIndex ==> teams.suits == old(teams.suits)
    {
      team := new Team("", Rgba(0.0, 0.0, 0.0, 0.0));
      teams.Register(team);
      team.SetName(name);
      team.SetColor(color);
    }

    /** `OnNetworkSpawn` on the host: publish the configuration, create the two fixed teams, raise `OnSessionStarted`. */
    method OnNetworkSpawn(config: LegacySettings)
      modifies this`settings, this`events, teams
      ensures settings == config
      ensures |teams.list| == |old(teams.list)| + |DEFAULT_TEAM_NAMES|
      ensures teams.list[..|old(teams.list)|] == old(teams.list)
      ensures teams.list[|old(teams.list)|].name == DEFAULT_TEAM_NAMES[0]
      ensures teams.list[|old(teams.list)| + 1].name == DEFAULT_TEAM_NAMES[1]
      ensures teams.list[|old(teams.list)|].color == Rgba(0.99, 0.55, 0.11, 1.0)
      ensures teams.list[|old(teams.list)| + 1].color == Rgba(0.20, 0.57, 0.16, 1.0)
      ensures events == old(events) + [SessionStarted]
    {
      SyncSettings(config);
      var first := CreateTeamServerRpc("Hoarding bugs", Rgba(0.99, 0.55, 0.11, 1.0));
      var second := CreateTeamServerRpc("Manticoils", Rgba(0.20, 0.57, 0.16, 1.0));
      events := events + [SessionStarted];
    }

    /**
     * `OnPlayerJoined`: the player joins the smallest team, the first of the
     * smallest; with no teams `GetSmallest` throws and nothing changes.
     */
    method OnPlayerJoined(p: Player)
      modifies p`teamRef, p`team, p`teamChanges, Targets(p.teamRef.TryGet())`members, Objs(teams.list)`members
      ensures teams.list == [] ==> p.teamRef == old(p.teamRef) && p.team == old(p.team)
      ensures teams.list != [] ==> p.teamRef == TeamRef(true, TeamBehaviour(old(GetSmallestFirst(teams.list)).value))
      ensures old(Membership(teams.list, players.list)) && p in players.list ==> Membership(teams.list, players.list)
    {
      var smallest := GetSmallestFirst(teams.list);
      if smallest.Some? {
        p.SetTeamFromServer(TeamBehaviour(smallest.value), teams.list, players.list);
      }
    }

    /** The damage check: the verdict of the chain over the older session's state. */
    method CanDamage(attacker: Player, victim: Player, attackerDistance: real, victimDistance: real,
                     added: nat -> Combat.DamagePredicateResult) returns (r: Combat.DamagePredicateResult)
      ensures var s := Session.Situation(isRoundActive, settings.friendlyFire, settings.shipSafeRadius,
                                         attacker.team, victim.team, attackerDistance, victimDistance);
        r == Combat.Verdict(combat.predicates, rule => Session.Evaluate(rule, s, added))
      ensures combat.predicates == Session.DEFAULT_RULES ==>
        (r.AsBool() <==> isRoundActive && (settings.friendlyFire || attacker.team != victim.team)
                         && (settings.shipSafeRadius <= 0.0 || (attackerDistance >= settings.shipSafeRadius && victimDistance >= settings.shipSafeRadius)))
    {
      var s := Session.Situation(isRoundActive, settings.friendlyFire, settings.shipSafeRadius,
                                 attacker.team, victim.team, attackerDistance, victimDistance);
      r := combat.CanDamage(rule => Session.Evaluate(rule, s, added));
      Session.DefaultChainVerdict(s, added);
    }
  }
}
