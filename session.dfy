/**
 * The session of src/Game/Session.cs: it owns the teams, the players and
 * the damage-predicate chain, and drives a match as a sequence of rounds.
 *
 * `roundNumber` is -1 while no match is running and counts rounds from 0
 * during a match. The host is the single authoritative node: client RPCs
 * are direct calls and C# events are appended to `events`.
 */
module Session {
  import opened Wrappers
  import opened Text
  import opened Colors
  import opened Teams
  import opened Players
  import opened Settings
  import Combat
  import DefaultTeams
  import Lists

  /** The C# events a session raises, in the order raised. */
  datatype SessionEvent =
    | SessionStarted
    | MatchStarted
    | RoundStarted(roundNumber: int)
    | RoundEnded(wasLastRound: bool, roundNumber: int)
    | MatchEnded(winner: Team)
    | SuitsRefreshed

  /* ---------- The damage predicates installed by `Awake` ---------- */

  /** A predicate of the chain: the session's three, or one another mod added. */
  datatype Rule = IsPlaying | FriendlyFire | ShipSafeRadius | Added(id: nat)

  /** The three predicates `Awake` installs, in order. */
  const DEFAULT_RULES: seq<Rule> := [IsPlaying, FriendlyFire, ShipSafeRadius]

  /**
   * What the predicates look at when one player hits another: the session
   * state, both players' teams, and each player's distance to the centre of
   * the ship (computed by the engine).
   */
  datatype Situation = Situation(
    isRoundActive: bool,
    friendlyFire: bool,
    shipSafeRadius: real,
    attackerTeam: Option<Team>,
    victimTeam: Option<Team>,
    attackerDistance: real,
    victimDistance: real)

  /** `IsPlayingPredicate`: combat only while a round is active. */
  function IsPlayingPredicate(isRoundActive: bool): (r: Combat.DamagePredicateResult)
    ensures r.AsBool() <==> isRoundActive
    ensures !r.AsBool() ==> r.reason == Some("Combat is disabled while in orbit")
  {
    if isRoundActive then Combat.Allow() else Combat.Deny("Combat is disabled while in orbit")
  }

  /** `FriendlyFirePredicate`: without friendly fire, players of one team cannot hurt each other. */
  function FriendlyFirePredicate(friendlyFire: bool, attackerTeam: Option<Team>, victimTeam: Option<Team>): (r: Combat.DamagePredicateResult)
    ensures r.AsBool() <==> friendlyFire || attackerTeam != victimTeam
    ensures !friendlyFire && attackerTeam.None? && victimTeam.None? ==> !r.AsBool()
    ensures !r.AsBool() ==> r.reason == Some("Friendly fire is disabled")
  {
    if friendlyFire || attackerTeam != victimTeam then Combat.Allow() else Combat.Deny("Friendly fire is disabled")
  }

  /** `ShipSafeRadiusPredicate`: with a positive radius, nobody near the ship may hit or be hit. */
  function ShipSafeRadiusPredicate(radius: real, attackerDistance: real, victimDistance: real): (r: Combat.DamagePredicateResult)
    ensures radius <= 0.0 ==> r == Combat.Allow()
    ensures radius > 0.0 ==> (!r.AsBool() <==> attackerDistance < radius || victimDistance < radius)
    ensures !r.AsBool() ==> r.reason == Some("Inside ship safe radius")
  {
    if radius <= 0.0 then Combat.Allow()
    else if attackerDistance < radius || victimDistance < radius then Combat.Deny("Inside ship safe radius")
    else Combat.Allow()
  }

  /** The verdict of one rule in a situation; `added` gives the verdicts of rules other mods added. */
  function Evaluate(rule: Rule, s: Situation, added: nat -> Combat.DamagePredicateResult): Combat.DamagePredicateResult {
    match rule
    case IsPlaying => IsPlayingPredicate(s.isRoundActive)
    case FriendlyFire => FriendlyFirePredicate(s.friendlyFire, s.attackerTeam, s.victimTeam)
    case ShipSafeRadius => ShipSafeRadiusPredicate(s.shipSafeRadius, s.attackerDistance, s.victimDistance)
    case Added(id) => added(id)
  }

  /**
   * With the chain `Awake` installs, damage is allowed iff a round is active,
   * friendly fire is on or the teams differ, and nobody is inside a positive
   * safe radius; a denial carries the reason of the first rule that fails.
   */
  lemma DefaultChainVerdict(s: Situation, added: nat -> Combat.DamagePredicateResult)
    ensures var r := Combat.Verdict(DEFAULT_RULES, rule => Evaluate(rule, s, added));
      && (r.AsBool() <==> s.isRoundActive && (s.friendlyFire || s.attackerTeam != s.victimTeam)
                          && (s.shipSafeRadius <= 0.0 || (s.attackerDistance >= s.shipSafeRadius && s.victimDistance >= s.shipSafeRadius)))
      && (!s.isRoundActive ==> r.reason == Some("Combat is disabled while in orbit"))
      && (s.isRoundActive && !s.friendlyFire && s.attackerTeam == s.victimTeam ==> r.reason == Some("Friendly fire is disabled"))
      && (r.AsBool() ==> r == Combat.Allow())
  {
    var eval := rule => Evaluate(rule, s, added);
    Combat.AllowsIffNoneDenies(DEFAULT_RULES, eval);
    if !s.isRoundActive {
      Combat.FirstDenialDecides(DEFAULT_RULES, eval, 0);
    } else if !s.friendlyFire && s.attackerTeam == s.victimTeam {
      Combat.FirstDenialDecides(DEFAULT_RULES, eval, 1);
    }
  }

  /* ---------- The round and match lifecycle ---------- */

  /** The part of the session state the lifecycle changes. */
  datatype Phase = Phase(roundNumber: int, isRoundActive: bool)

  /** A match is running iff the round number is not negative. */
  predicate IsMatchActive(p: Phase) {
    p.roundNumber >= 0
  }

  /**
   * `StartRound` followed by `StartRoundClientRpc`: nothing while a round is
   * active; otherwise the round number goes up by one, the round becomes
   * active, `OnMatchStarted` fires if the NEW round number is negative, then
   * `OnRoundStarted` fires with the new number.
   */
  function StartStep(p: Phase): (r: (Phase, seq<SessionEvent>))
    ensures p.isRoundActive ==> r == (p, [])
    ensures !p.isRoundActive ==> r.0 == Phase(p.roundNumber + 1, true)
    ensures !p.isRoundActive ==> |r.1| >= 1 && r.1[|r.1| - 1] == RoundStarted(p.roundNumber + 1)
  {
    if p.isRoundActive then (p, [])
    else
      var n := p.roundNumber + 1;
      (Phase(n, true), (if n < 0 then [MatchStarted] else []) + [RoundStarted(n)])
  }

  /** Whether ending a round in phase `p` ends the match: the round was active and was the last one. */
  predicate EndsMatch(p: Phase, numberOfRounds: int) {
    p.isRoundActive && p.roundNumber >= numberOfRounds - 1
  }

  /**
   * `EndRound` followed by `EndRoundClientRpc` and `EndMatch`: nothing while
   * no round is active; otherwise the round becomes inactive and
   * `OnRoundEnded` fires. After the last round, `EndMatch` reports `leader`
   * (the team `GetLeader(TotalScore)` picks before anything is reset) and sets
   * the round number to -1; with no teams `GetLeader` throws and nothing
   * after `OnRoundEnded` happens.
   */
  function EndStep(p: Phase, numberOfRounds: int, leader: Option<Team>): (r: (Phase, seq<SessionEvent>)) {
    if !p.isRoundActive then (p, [])
    else
      var ended := [RoundEnded(EndsMatch(p, numberOfRounds), p.roundNumber)];
      if EndsMatch(p, numberOfRounds) && leader.Some? then (Phase(-1, false), ended + [MatchEnded(leader.value)])
      else (Phase(p.roundNumber, false), ended)
  }

  /** `pairs` start/end pairs in a row, with the same leader at each end. */
  function Play(p: Phase, pairs: nat, numberOfRounds: int, leader: Option<Team>): (Phase, seq<SessionEvent>)
    decreases pairs
  {
    if pairs == 0 then (p, [])
    else
      var started := StartStep(p);
      var ended := EndStep(started.0, numberOfRounds, leader);
      var rest := Play(ended.0, pairs - 1, numberOfRounds, leader);
      (rest.0, started.1 + ended.1 + rest.1)
  }

  /** The events of rounds `k` to `n - 1` of an `n`-round match, without the final `MatchEnded`. */
  function RoundLog(k: int, n: int): seq<SessionEvent>
    decreases n - k
  {
    if k >= n then [] else [RoundStarted(k), RoundEnded(k == n - 1, k)] + RoundLog(k + 1, n)
  }

  /** The round log holds, for each round in order, its start and then its end, only the last flagged as last. */
  lemma {:induction false} RoundLogShape(k: int, n: int)
    requires k <= n
    ensures |RoundLog(k, n)| == 2 * (n - k)
    ensures forall i :: 0 <= i < n - k ==> RoundLog(k, n)[2 * i] == RoundStarted(k + i)
    ensures forall i :: 0 <= i < n - k ==> RoundLog(k, n)[2 * i + 1] == RoundEnded(k + i == n - 1, k + i)
    ensures MatchStarted !in RoundLog(k, n)
    decreases n - k
  {
    if k < n {
      RoundLogShape(k + 1, n);
      var log := RoundLog(k, n);
      assert log == [RoundStarted(k), RoundEnded(k == n - 1, k)] + RoundLog(k + 1, n);
      forall i | 1 <= i < n - k
        ensures log[2 * i] == RoundStarted(k + i) && log[2 * i + 1] == RoundEnded(k + i == n - 1, k + i)
      {
        assert log[2 * i] == RoundLog(k + 1, n)[2 * (i - 1)];
        assert log[2 * i + 1] == RoundLog(k + 1, n)[2 * (i - 1) + 1];
      }
    }
  }

  /** From the state before round `k`, the remaining rounds of an `n`-round match run to its end. */
  lemma {:induction false} MatchRunsFrom(k: int, n: int, winner: Team)
    requires 0 <= k < n
    ensures Play(Phase(k - 1, false), n - k, n, Some(winner)) == (Phase(-1, false), RoundLog(k, n) + [MatchEnded(winner)])
    decreases n - k
  {
    var started := StartStep(Phase(k - 1, false));
    assert started.0 == Phase(k, true);
    assert started.1 == [] + [RoundStarted(k)] == [RoundStarted(k)];
    var ended := EndStep(started.0, n, Some(winner));
    var rest := Play(ended.0, n - k - 1, n, Some(winner));
    assert Play(Phase(k - 1, false), n - k, n, Some(winner)) == (rest.0, started.1 + ended.1 + rest.1);
    if k == n - 1 {
      assert ended == (Phase(-1, false), [RoundEnded(true, k)] + [MatchEnded(winner)]);
      assert rest == (Phase(-1, false), []);
      assert RoundLog(k, n) == [RoundStarted(k), RoundEnded(true, k)] + RoundLog(k + 1, n);
      assert RoundLog(k + 1, n) == [];
      assert started.1 + ended.1 + rest.1 == RoundLog(k, n) + [MatchEnded(winner)];
    } else {
      assert ended == (Phase(k, false), [RoundEnded(false, k)]);
      MatchRunsFrom(k + 1, n, winner);
      assert rest == (Phase(-1, false), RoundLog(k + 1, n) + [MatchEnded(winner)]);
      assert RoundLog(k, n) == [RoundStarted(k), RoundEnded(false, k)] + RoundLog(k + 1, n);
      assert started.1 + ended.1 + rest.1 == RoundLog(k, n) + [MatchEnded(winner)];
    }
  }

  /**
   * A whole match: from the pre-game state, `n >= 1` start/end pairs raise
   * `n` round starts and `n` round ends, in order, only the last flagged as
   * the last round, then `MatchEnded`, and leave the session in the pre-game
   * state again. `OnMatchStarted` is never raised: the start test reads the
   * round number after it was incremented.
   */
  lemma WholeMatch(n: int, winner: Team)
    requires n >= 1
    ensures var (p, log) := Play(Phase(-1, false), n, n, Some(winner));
      && p == Phase(-1, false)
      && |log| == 2 * n + 1
      && (forall i :: 0 <= i < n ==> log[2 * i] == RoundStarted(i) && log[2 * i + 1] == RoundEnded(i == n - 1, i))
      && log[2 * n] == MatchEnded(winner)
      && MatchStarted !in log
  {
    MatchRunsFrom(0, n, winner);
    RoundLogShape(0, n);
  }

  /** Starting a round from any reachable round number (at least -1) never raises `OnMatchStarted`. */
  lemma MatchStartedNeverRaised(p: Phase)
    requires p.roundNumber >= -1
    ensures MatchStarted !in StartStep(p).1
    ensures !p.isRoundActive ==> IsMatchActive(StartStep(p).0)
  {
  }

  /* ---------- Joining players ---------- */

  /** Whether a team's roster from the definition file lists the player name, ignoring case. */
  predicate ListsPlayer(t: Team, name: string)
    reads t`assignedPlayers
  {
    t.assignedPlayers.Some? && exists n | n in t.assignedPlayers.value :: NamesEqual(n, name, OrdinalIgnoreCase)
  }

  /** The first team, in registration order, whose roster lists the player. */
  function RosterTeam(ts: seq<Team>, name: string): (r: Option<Team>)
    reads Objs(ts)`assignedPlayers
    ensures r.None? <==> forall i :: 0 <= i < |ts| ==> !ListsPlayer(ts[i], name)
    ensures r.Some? ==> exists k :: 0 <= k < |ts| && ts[k] == r.value && ListsPlayer(ts[k], name)
                                   && forall j :: 0 <= j < k ==> !ListsPlayer(ts[j], name)
  {
    if ts == [] then None
    else if ListsPlayer(ts[0], name) then Some(ts[0])
    else
      var r := RosterTeam(ts[1..], name);
      assert forall i :: 1 <= i < |ts| ==> ts[i] == ts[1..][i - 1];
      r
  }

  /**
   * The team `OnPlayerJoined` picks: the roster team if there is one,
   * otherwise the smallest team; `None` when there are no teams, where
   * `GetSmallest` throws.
   */
  function JoinTarget(ts: seq<Team>, name: string): (r: Option<Team>)
    reads Objs(ts)`assignedPlayers, Objs(ts)`members
    ensures r.None? <==> ts == []
    ensures r.Some? ==> r.value in ts
    ensures RosterTeam(ts, name).Some? ==> r == RosterTeam(ts, name)
    ensures RosterTeam(ts, name).None? ==> r == GetSmallestFirst(ts)
  {
    var roster := RosterTeam(ts, name);
    if roster.Some? then roster else GetSmallestFirst(ts)
  }

  /** `ts[k]` is the first team named `name`, ignoring case: the team a case-insensitive lookup finds. */
  predicate FirstNamed(ts: seq<Team>, name: string, k: nat)
    reads Objs(ts)`name
  {
    k < |ts| && NamesEqual(ts[k].name, name, OrdinalIgnoreCase)
    && forall j :: 0 <= j < k ==> !NamesEqual(ts[j].name, name, OrdinalIgnoreCase)
  }

  /** The first team named `name` (ignoring case) holds `roster` as its roster. */
  predicate RosterStored(ts: seq<Team>, name: string, roster: seq<string>)
    reads Objs(ts)`name, Objs(ts)`assignedPlayers
  {
    exists k :: 0 <= k < |ts| && FirstNamed(ts, name, k) && ts[k].assignedPlayers == Some(roster)
  }

  /**
   * The roster that ends up stored under `name` after the definitions are
   * created in order: each definition overwrites the roster of the first
   * team of its name, so the last definition of that name (ignoring case) wins.
   */
  function LastRoster(defs: seq<DefaultTeams.TeamDefinition>, name: string): Option<seq<string>>
  {
    if defs == [] then None
    else if NamesEqual(defs[|defs| - 1].name, name, OrdinalIgnoreCase) then Some(defs[|defs| - 1].players)
    else LastRoster(defs[..|defs| - 1], name)
  }

  /** `LastRoster` is absent exactly when no definition has the name, and otherwise is the roster of the last one that has it. */
  lemma {:induction false} LastRosterIsLast(defs: seq<DefaultTeams.TeamDefinition>, name: string)
    ensures LastRoster(defs, name).None? <==> forall k :: 0 <= k < |defs| ==> !NamesEqual(defs[k].name, name, OrdinalIgnoreCase)
    ensures LastRoster(defs, name).Some? ==>
      exists k :: 0 <= k < |defs| && NamesEqual(defs[k].name, name, OrdinalIgnoreCase) && LastRoster(defs, name) == Some(defs[k].players)
                  && forall j :: k < j < |defs| ==> !NamesEqual(defs[j].name, name, OrdinalIgnoreCase)
  {
    if defs != [] && !NamesEqual(defs[|defs| - 1].name, name, OrdinalIgnoreCase) {
      var init := defs[..|defs| - 1];
      LastRosterIsLast(init, name);
      assert forall k :: 0 <= k < |init| ==> init[k] == defs[k];
    }
  }

  /** Each team's stored roster, in registration order. */
  function Rosters(ts: seq<Team>): (rs: seq<Option<seq<string>>>)
    reads Objs(ts)`assignedPlayers
    ensures |rs| == |ts| && forall j :: 0 <= j < |ts| ==> rs[j] == ts[j].assignedPlayers
  {
    if ts == [] then [] else Rosters(ts[..|ts| - 1]) + [ts[|ts| - 1].assignedPlayers]
  }

  /**
   * `RostersFrom` with the rosters given as values: every definition's name
   * finds a team, whose entry in `rosters` is the last roster defined under the name.
   */
  ghost predicate RostersAt(ts: seq<Team>, rosters: seq<Option<seq<string>>>, defs: seq<DefaultTeams.TeamDefinition>)
    reads Objs(ts)`name
  {
    forall k :: 0 <= k < |defs| ==> RosterAt(ts, rosters, defs, k)
  }

  /** `defs[k]`'s name finds a team whose entry in `rosters` is the last roster defined under that name. */
  ghost predicate RosterAt(ts: seq<Team>, rosters: seq<Option<seq<string>>>, defs: seq<DefaultTeams.TeamDefinition>, k: nat)
    requires k < |defs|
    reads Objs(ts)`name
  {
    exists f: nat :: FirstNamed(ts, defs[k].name, f) && f < |rosters| && rosters[f] == LastRoster(defs, defs[k].name)
  }

  /**
   * Every definition's name finds a team (the first of that name, ignoring
   * case), and that team holds the last roster defined under the name.
   */
  ghost predicate RostersFrom(ts: seq<Team>, defs: seq<DefaultTeams.TeamDefinition>)
    reads Objs(ts)`name, Objs(ts)`assignedPlayers
  {
    forall k :: 0 <= k < |defs| ==> RosterHeld(ts, defs, k)
  }

  /** `defs[k]`'s name finds a team holding the last roster defined under that name. */
  ghost predicate RosterHeld(ts: seq<Team>, defs: seq<DefaultTeams.TeamDefinition>, k: nat)
    requires k < |defs|
    reads Objs(ts)`name, Objs(ts)`assignedPlayers
  {
    exists f: nat :: FirstNamed(ts, defs[k].name, f) && ts[f].assignedPlayers == LastRoster(defs, defs[k].name)
  }

  /** The rosters the teams hold now, taken as values. */
  lemma RostersSnapshot(ts: seq<Team>, defs: seq<DefaultTeams.TeamDefinition>)
    requires RostersFrom(ts, defs)
    ensures RostersAt(ts, Rosters(ts), defs)
  {
    var rs := Rosters(ts);
    forall k | 0 <= k < |defs|
      ensures RosterAt(ts, rs, defs, k)
    {
      assert RosterHeld(ts, defs, k);
      var f: nat :| FirstNamed(ts, defs[k].name, f) && ts[f].assignedPlayers == LastRoster(defs, defs[k].name);
      assert rs[f] == ts[f].assignedPlayers;
    }
  }

  /** The first team named `a` is also the first named `b` when the two names are equal ignoring case. */
  lemma FirstNamedSameName(ts: seq<Team>, a: string, b: string, f: nat)
    requires FirstNamed(ts, a, f) && NamesEqual(a, b, OrdinalIgnoreCase)
    ensures FirstNamed(ts, b, f)
  {
    forall j | 0 <= j <= f
      ensures NamesEqual(ts[j].name, a, OrdinalIgnoreCase) <==> NamesEqual(ts[j].name, b, OrdinalIgnoreCase)
    {
      IgnoreCaseEquivalence(ts[j].name, a, b);
      IgnoreCaseEquivalence(a, b, a);
      IgnoreCaseEquivalence(ts[j].name, b, a);
    }
  }

  /**
   * Creating `def` as `team` after `prev` and storing its roster on every
   * slot holding the first team of its name keeps every earlier definition's
   * roster found, and adds `def`'s.
   */
  lemma RostersStep(prev: seq<Team>, team: Team, prevRosters: seq<Option<seq<string>>>,
                    earlier: seq<DefaultTeams.TeamDefinition>, def: DefaultTeams.TeamDefinition, at: nat)
    requires |prevRosters| == |prev| && RostersAt(prev, prevRosters, earlier)
    requires team.name == def.name && FirstNamed(prev + [team], def.name, at)
    requires forall j :: 0 <= j < |prev| ==>
      prev[j].assignedPlayers == if prev[j] == (prev + [team])[at] then Some(def.players) else prevRosters[j]
    requires team == (prev + [team])[at] ==> team.assignedPlayers == Some(def.players)
    ensures RostersFrom(prev + [team], earlier + [def])
  {
    var ts := prev + [team];
    var d := earlier + [def];
    assert d[..|earlier|] == earlier;
    forall k | 0 <= k < |d|
      ensures RosterHeld(ts, d, k)
    {
      if NamesEqual(def.name, d[k].name, OrdinalIgnoreCase) {
        FirstNamedSameName(ts, def.name, d[k].name, at);
        assert ts[at].assignedPlayers == Some(def.players);
        assert LastRoster(d, d[k].name) == Some(def.players);
      } else {
        var n := earlier[k].name;
        assert d[k] == earlier[k] && LastRoster(d, n) == LastRoster(earlier, n);
        assert RosterAt(prev, prevRosters, earlier, k);
        var f: nat :| FirstNamed(prev, n, f) && f < |prevRosters| && prevRosters[f] == LastRoster(earlier, n);
        assert ts[f] == prev[f];
        assert FirstNamed(ts, n, f);
        IgnoreCaseEquivalence(ts[f].name, def.name, ts[f].name);
        IgnoreCaseEquivalence(def.name, ts[f].name, n);
        assert ts[f] != ts[at];
      }
    }
  }

  /** The suits of teams created from `defs`, in order: what registering them appends to the unlockables. */
  function DefinitionSuits(defs: seq<DefaultTeams.TeamDefinition>): seq<Option<Unlockable>> {
    if defs == [] then [] else DefinitionSuits(defs[..|defs| - 1]) + [Some(SuitNamed(defs[|defs| - 1].name))]
  }

  lemma DefinitionSuitsAppend(defs: seq<DefaultTeams.TeamDefinition>, def: DefaultTeams.TeamDefinition)
    ensures DefinitionSuits(defs + [def]) == DefinitionSuits(defs) + [Some(SuitNamed(def.name))]
  {
    assert (defs + [def])[..|defs|] == defs;
  }

  /* ---------- The session ---------- */

  /** Each team has the name and colour of the definition at its position. */
  predicate FromDefinitions(ts: seq<Team>, defs: seq<DefaultTeams.TeamDefinition>)
    reads Objs(ts)`name, Objs(ts)`color
  {
    |ts| == |defs| && forall j :: 0 <= j < |ts| ==> ts[j].name == defs[j].name && ts[j].color == defs[j].color
  }

  /** One more team built from one more definition. */
  lemma FromDefinitionsAppend(ts: seq<Team>, t: Team, defs: seq<DefaultTeams.TeamDefinition>, def: DefaultTeams.TeamDefinition)
    requires FromDefinitions(ts, defs) && t.name == def.name && t.color == def.color
    ensures FromDefinitions(ts + [t], defs + [def])
  {
  }

  class Session {
    var settings: NetworkedSettings
    var roundNumber: int
    var isRoundActive: bool
    const teams: TeamRegistry
    const players: PlayerRegistry
    const combat: Combat.Combat<Rule>
    /** The suits known to the game, indexed by suit id; teams append theirs. */
    var unlockables: seq<Option<Unlockable>>
    var events: seq<SessionEvent>

    /** The lifecycle part of the state. */
    function CurrentPhase(): Phase
      reads this`roundNumber, this`isRoundActive
    {
      Phase(roundNumber, isRoundActive)
    }

    /**
     * The new session, with `Awake` run: no match yet, no round active, and
     * the chain [round-active, friendly-fire, safe-radius].
     */
    constructor (unlockables: seq<Option<Unlockable>>)
      ensures settings == DEFAULT_SETTINGS && roundNumber == -1 && !isRoundActive
      ensures fresh(teams) && teams.withSuitIndex && teams.list == [] && teams.suits == map[]
      ensures fresh(players) && players.list == []
      ensures fresh(combat) && combat.predicates == DEFAULT_RULES
      ensures this.unlockables == unlockables && events == []
    {
      settings := DEFAULT_SETTINGS;
      roundNumber := -1;
      isRoundActive := false;
      teams := new TeamRegistry(true);
      players := new PlayerRegistry();
      combat := new Combat.Combat.FromList(DEFAULT_RULES);
      this.unlockables := unlockables;
      events := [];
    }

    /** `IsMatchActive`. */
    function MatchActive(): (active: bool)
      reads this`roundNumber
      ensures active <==> IsMatchActive(CurrentPhase())
    {
      roundNumber >= 0
    }

    /** `StartRoundClientRpc`: the round is active; the events follow. */
    method StartRoundClientRpc()
      modifies this`isRoundActive, this`events
      ensures isRoundActive
      ensures events == old(events) + (if roundNumber < 0 then [MatchStarted] else []) + [RoundStarted(roundNumber)]
    {
      isRoundActive := true;
      if !MatchActive() {
        events := events + [MatchStarted];
      }
      events := events + [RoundStarted(roundNumber)];
    }

    /**
     * `StartRound`: nothing while a round is active; otherwise the next round
     * starts and every team's round score is zeroed, totals and credits kept.
     */
    method StartRound()
      modifies this`roundNumber, this`isRoundActive, this`events, Objs(teams.list)`roundScore
      ensures CurrentPhase() == StartStep(old(CurrentPhase())).0
      ensures events == old(events) + StartStep(old(CurrentPhase())).1
      ensures forall t | t in teams.list :: t.roundScore == if old(isRoundActive) then old(t.roundScore) else 0
      ensures forall t | t in teams.list :: t.totalScore == old(t.totalScore) && t.credits == old(t.credits)
    {
      if !isRoundActive {
        roundNumber := roundNumber + 1;
        var ts := teams.list;
        var i := 0;
        while i < |ts|
          invariant 0 <= i <= |ts|
          invariant forall j :: 0 <= j < i ==> ts[j].roundScore == 0
          modifies Objs(ts)`roundScore
        {
          ts[i].roundScore := 0;
          i := i + 1;
        }
        StartRoundClientRpc();
        assert events == old(events) + ((if roundNumber < 0 then [MatchStarted] else []) + [RoundStarted(roundNumber)]);
      }
    }

    /**
     * `EndMatch`: raises `OnMatchEnded` with the leader by total score, then
     * zeroes every team's round score, total score and credits and returns to
     * the pre-game round number. With no teams `GetLeader` throws first.
     */
    method EndMatch()
      modifies this`roundNumber, this`events, Objs(teams.list)`roundScore, Objs(teams.list)`totalScore, Objs(teams.list)`credits
      ensures teams.list == [] ==> roundNumber == old(roundNumber) && events == old(events)
      ensures teams.list != [] ==> roundNumber == -1
      ensures teams.list != [] ==> events == old(events) + [MatchEnded(old(GetLeader(teams.list, TotalScore)).value)]
      ensures forall t | t in teams.list :: t.roundScore == 0 && t.totalScore == 0 && t.credits == 0
    {
      var ts := teams.list;
      var leader := GetLeader(ts, TotalScore);
      if leader.Some? {
        events := events + [MatchEnded(leader.value)];
        ResetScores(ts);
        roundNumber := -1;
      }
    }

    /** The reset loop of `EndMatch`: every team's round score, total score and credits become 0. */
    static method ResetScores(ts: seq<Team>)
      modifies Objs(ts)`roundScore, Objs(ts)`totalScore, Objs(ts)`credits
      ensures forall t | t in ts :: t.roundScore == 0 && t.totalScore == 0 && t.credits == 0
    {
      var i := 0;
      while i < |ts|
        invariant 0 <= i <= |ts|
        invariant forall j :: 0 <= j < i ==> ts[j].roundScore == 0 && ts[j].totalScore == 0 && ts[j].credits == 0
      {
        ts[i].roundScore := 0;
        ts[i].totalScore := 0;
        ts[i].credits := 0;
        i := i + 1;
      }
    }

    /**
     * `EndRoundClientRpc`: the round ends and `OnRoundEnded` reports whether
     * it was the last; after the last one the match ends.
     */
    method EndRoundClientRpc()
      modifies this`roundNumber, this`isRoundActive, this`events,
        Objs(teams.list)`roundScore, Objs(teams.list)`totalScore, Objs(teams.list)`credits
      ensures CurrentPhase() == EndStep(Phase(old(roundNumber), true), settings.numberOfRounds, old(GetLeader(teams.list, TotalScore))).0
      ensures events == old(events) + EndStep(Phase(old(roundNumber), true), settings.numberOfRounds, old(GetLeader(teams.list, TotalScore))).1
      ensures EndsMatch(Phase(old(roundNumber), true), settings.numberOfRounds) ==>
        forall t | t in teams.list :: t.roundScore == 0 && t.totalScore == 0 && t.credits == 0
      ensures !EndsMatch(Phase(old(roundNumber), true), settings.numberOfRounds) ==>
        forall t | t in teams.list :: t.roundScore == old(t.roundScore) && t.totalScore == old(t.totalScore) && t.credits == old(t.credits)
    {
      ghost var leader := GetLeader(teams.list, TotalScore);
      ghost var step := EndStep(Phase(roundNumber, true), settings.numberOfRounds, leader);
      isRoundActive := false;
      var wasLastRound := roundNumber >= settings.numberOfRounds - 1;
      events := events + [RoundEnded(wasLastRound, roundNumber)];
      if wasLastRound {
        assert leader == GetLeader(teams.list, TotalScore);
        EndMatch();
      }
    }

    /** `EndRound`: nothing while no round is active; otherwise `EndRoundClientRpc`. */
    method EndRound()
      modifies this`roundNumber, this`isRoundActive, this`events,
        Objs(teams.list)`roundScore, Objs(teams.list)`totalScore, Objs(teams.list)`credits
      ensures CurrentPhase() == EndStep(old(CurrentPhase()), settings.numberOfRounds, old(GetLeader(teams.list, TotalScore))).0
      ensures events == old(events) + EndStep(old(CurrentPhase()), settings.numberOfRounds, old(GetLeader(teams.list, TotalScore))).1
      ensures EndsMatch(old(CurrentPhase()), settings.numberOfRounds) ==>
        forall t | t in teams.list :: t.roundScore == 0 && t.totalScore == 0 && t.credits == 0
      ensures !EndsMatch(old(CurrentPhase()), settings.numberOfRounds) ==>
        forall t | t in teams.list :: t.roundScore == old(t.roundScore) && t.totalScore == old(t.totalScore) && t.credits == old(t.credits)
    {
      if isRoundActive {
        EndRoundClientRpc();
      }
    }

    /** `OnSettingsChanged`: the suits are refreshed iff the suit switch changed. */
    method OnSettingsChanged(previous: NetworkedSettings, current: NetworkedSettings)
      modifies this`events
      ensures events == old(events) + if previous.forceSuits != current.forceSuits then [SuitsRefreshed] else []
    {
      if previous.forceSuits != current.forceSuits {
        events := events + [SuitsRefreshed];
      }
    }

    /**
     * `SyncSettings`: the host publishes the configuration; as with any
     * `NetworkVariable`, the change handler runs only when the value differs.
     */
    method SyncSettings(config: NetworkedSettings)
      modifies this`settings, this`events
      ensures settings == config
      ensures events == old(events) + if old(settings).forceSuits != config.forceSuits then [SuitsRefreshed] else []
    {
      if config != settings {
        var previous := settings;
        settings := config;
        OnSettingsChanged(previous, config);
      }
    }

    /**
     * `CreateTeamServerRpc`: spawns a new team, which registers itself and
     * appends its suit, then gives it its name and colour; the name-change
     * handler renames the team's suit.
     */
    method CreateTeamServerRpc(name: string, color: Color) returns (team: Team)
      modifies this`unlockables, teams
      ensures fresh(team) && team.name == name && team.color == color
      ensures team.members == [] && team.assignedPlayers == None
      ensures team.roundScore == 0 && team.totalScore == 0 && team.credits == 0
      ensures teams.list == old(teams.list) + [team]
      ensures teams.withSuitIndex ==> teams.suits == old(teams.suits)[team.suitId := team]
      ensures team.suitId == |old(unlockables)| && unlockables == old(unlockables) + [Some(team.Suit())]
    {
      team := new Team("", Rgba(0.0, 0.0, 0.0, 0.0));
      unlockables := team.OnNetworkSpawn(teams, unlockables, true);
      team.SetName(name);
      team.SetColor(color);
      unlockables := unlockables[team.suitId := Some(team.Suit())];
    }

    /**
     * `CreateTeamFromDefinition`: creates the team, then looks it up by name
     * (ignoring case) and stores the definition's roster on the team found,
     * which is the first registered team of that name.
     */
    method CreateTeamFromDefinition(def: DefaultTeams.TeamDefinition, ghost earlier: seq<DefaultTeams.TeamDefinition>)
      returns (team: Team)
      requires RostersFrom(teams.list, earlier)
      modifies this`unlockables, teams, Objs(teams.list)`assignedPlayers
      ensures fresh(team) && team.name == def.name && team.color == def.color
      ensures teams.list == old(teams.list) + [team]
      ensures unlockables == old(unlockables) + [Some(SuitNamed(def.name))]
      ensures RosterStored(teams.list, def.name, def.players)
      ensures RostersFrom(teams.list, earlier + [def])
    {
      RostersSnapshot(teams.list, earlier);
      ghost var prev, prevRosters := teams.list, Rosters(teams.list);
      team := CreateTeamServerRpc(def.name, def.color);
      OrdinalImpliesIgnoreCase(def.name, def.name);
      assert NamesEqual(teams.list[|teams.list| - 1].name, def.name, OrdinalIgnoreCase);
      var found := teams.Get(def.name, OrdinalIgnoreCase);
      ghost var at :| 0 <= at < |teams.list| && teams.list[at] == found && FirstNamed(teams.list, def.name, at);
      found.assignedPlayers := Some(def.players);
      RostersStep(prev, team, prevRosters, earlier, def, at);
    }

    /**
     * `OnNetworkSpawn` on the host: publish the configuration, create the
     * default teams in order, then raise `OnSessionStarted`. The settings
     * handler is subscribed only after the configuration is published, so
     * publishing it runs no handler.
     */
    method OnNetworkSpawn(config: NetworkedSettings, file: DefaultTeams.RosterFile, html: string -> Option<Color>)
      modifies this`settings, this`events, this`unlockables, teams, Objs(teams.list)`assignedPlayers
      ensures settings == config
      ensures events == old(events) + [SessionStarted]
      ensures |teams.list| == |old(teams.list)| + |DefaultTeams.Get(file, html)|
      ensures teams.list[..|old(teams.list)|] == old(teams.list)
      ensures forall j :: |old(teams.list)| <= j < |teams.list| ==> fresh(teams.list[j])
      ensures FromDefinitions(teams.list[|old(teams.list)|..], DefaultTeams.Get(file, html))
      ensures unlockables == old(unlockables) + DefinitionSuits(DefaultTeams.Get(file, html))
      ensures RostersFrom(teams.list, DefaultTeams.Get(file, html))
    {
      settings := config;
      CreateDefaultTeams(DefaultTeams.Get(file, html));
      events := events + [SessionStarted];
    }

    /** The loop of `OnNetworkSpawn`: one new team per definition, appended in order. */
    method CreateDefaultTeams(defs: seq<DefaultTeams.TeamDefinition>)
      modifies this`unlockables, teams, Objs(teams.list)`assignedPlayers
      ensures |teams.list| == |old(teams.list)| + |defs|
      ensures teams.list[..|old(teams.list)|] == old(teams.list)
      ensures forall j :: |old(teams.list)| <= j < |teams.list| ==> fresh(teams.list[j])
      ensures FromDefinitions(teams.list[|old(teams.list)|..], defs)
      ensures unlockables == old(unlockables) + DefinitionSuits(defs)
      ensures RostersFrom(teams.list, defs)
    {
      ghost var before := teams.list;
      ghost var created: seq<Team> := [];
      ghost var done: seq<DefaultTeams.TeamDefinition> := [];
      var i := 0;
      while i < |defs|
        invariant 0 <= i <= |defs| && |created| == i && done == defs[..i]
        invariant teams.list == before + created
        invariant forall j :: 0 <= j < i ==> fresh(created[j])
        invariant FromDefinitions(created, done)
        invariant unlockables == old(unlockables) + DefinitionSuits(done)
        invariant RostersFrom(teams.list, done)
      {
        var team := CreateTeamFromDefinition(defs[i], done);
        DefinitionSuitsAppend(done, defs[i]);
        FromDefinitionsAppend(created, team, done, defs[i]);
        assert defs[..i + 1] == done + [defs[i]];
        created, done := created + [team], done + [defs[i]];
        i := i + 1;
      }
      assert done == defs;
      assert teams.list[|before|..] == created;
    }

    /**
     * `OnPlayerJoined`: the player joins the first team whose roster lists
     * their name, ignoring case, and otherwise the smallest team (the first
     * of the smallest). With no teams `GetSmallest` throws and nothing changes.
     */
    method OnPlayerJoined(p: Player)
      modifies p`teamRef, p`team, p`teamChanges, Targets(p.teamRef.TryGet())`members, Objs(teams.list)`members
      ensures old(JoinTarget(teams.list, p.name)).None? ==> p.teamRef == old(p.teamRef) && p.team == old(p.team)
      ensures old(JoinTarget(teams.list, p.name)).Some? ==>
        p.teamRef == TeamRef(true, TeamBehaviour(old(JoinTarget(teams.list, p.name)).value))
      ensures old(Membership(teams.list, players.list)) && p in players.list ==> Membership(teams.list, players.list)
    {
      var target := JoinTarget(teams.list, p.name);
      if target.Some? {
        p.SetTeamFromServer(TeamBehaviour(target.value), teams.list, players.list);
      }
    }

    /** The situation the predicates judge when `attacker` hits `victim`. */
    function SituationOf(attacker: Player, victim: Player, attackerDistance: real, victimDistance: real): (s: Situation)
      reads this`isRoundActive, this`settings, attacker`team, victim`team
      ensures s.isRoundActive == isRoundActive && s.friendlyFire == settings.friendlyFire && s.shipSafeRadius == settings.shipSafeRadius
      ensures s.attackerTeam == attacker.team && s.victimTeam == victim.team
    {
      Situation(isRoundActive, settings.friendlyFire, settings.shipSafeRadius, attacker.team, victim.team, attackerDistance, victimDistance)
    }

    /**
     * The damage check the host runs when `attacker` hits `victim`: the verdict
     * of the chain. With the chain `Awake` installs it allows iff a round is
     * active, the teams differ or friendly fire is on, and neither player is
     * inside a positive safe radius of the ship.
     */
    method CanDamage(attacker: Player, victim: Player, attackerDistance: real, victimDistance: real,
                     added: nat -> Combat.DamagePredicateResult) returns (r: Combat.DamagePredicateResult)
      ensures var s := SituationOf(attacker, victim, attackerDistance, victimDistance);
        r == Combat.Verdict(combat.predicates, rule => Evaluate(rule, s, added))
      ensures combat.predicates == DEFAULT_RULES ==>
        (r.AsBool() <==> isRoundActive && (settings.friendlyFire || attacker.team != victim.team)
                         && (settings.shipSafeRadius <= 0.0 || (attackerDistance >= settings.shipSafeRadius && victimDistance >= settings.shipSafeRadius)))
    {
      var s := SituationOf(attacker, victim, attackerDistance, victimDistance);
      r := combat.CanDamage(rule => Evaluate(rule, s, added));
      DefaultChainVerdict(s, added);
    }
  }
}
