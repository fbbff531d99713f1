/**
 * The older terminal commands of TerminalCommands.cs, run on the host's
 * older session. They share the check order and most messages of the newer
 * commands (module Commands); they differ in the join command, which takes
 * a bare team name and compares it with the player's own team exactly, in
 * the colour reply, which shows the engine's hex rendering without '#', and
 * in renaming, which changes only the team's name.
 */
module LegacyCommands {
  import opened Wrappers
  import opened Text
  import opened Colors
  import opened Teams
  import opened Players
  import opened Settings
  import opened Commands
  import LegacySession
  import Lists

  /** The reply of `spectate`, whatever the player's state. */
  const SPECTATING: string := "You are now spectating."

  /**
   * `SpectateCommand`: the local player (which this node owns) starts
   * spectating unless it already does; the reply is the same either way.
   */
  method SpectateCommand(local: Player, ghost teams: seq<Team>, ghost players: seq<Player>) returns (reply: string)
    requires local.isOwner
    modifies local`teamRef, local`team, local`teamChanges, local`isSpectating, Targets(local.teamRef.TryGet())`members
    ensures reply == SPECTATING
    ensures old(local.isSpectating) ==> local.teamRef == old(local.teamRef) && local.team == old(local.team) && local.isSpectating
    ensures !old(local.isSpectating) ==> local.isSpectating && local.teamRef == NO_TEAM
    ensures old(Membership(teams, players)) && local in players ==> Membership(teams, players)
  {
    local.StartSpectating(teams, players);
    return SPECTATING;
  }

  /** `join`: round, permission, unknown name (ignoring case), then the player's own team (compared exactly). */
  function JoinGuards(roundActive: bool, permitted: bool, found: bool, alreadyIn: bool, teamName: string): seq<Guard> {
    Preamble(roundActive, permitted) + [
      Guard(!found, "Team '" + teamName + "' not found!"),
      Guard(alreadyIn, "You are already in team " + teamName + "!")]
  }

  /** The reply of `join` when the player is moved: the found team's own name. */
  function Joined(teamName: string): string {
    "Joined team " + teamName + "."
  }

  /**
   * The reply of `join`: `found` is the name of the team the lookup returned,
   * `current` the name of the player's team; the player counts as already in
   * the team only when `current` equals the typed name exactly.
   */
  function JoinReply(roundActive: bool, permitted: bool, found: Option<string>, current: Option<string>, teamName: string): string {
    Decide(JoinGuards(roundActive, permitted, found.Some?, current == Some(teamName), teamName),
           if found.Some? then Joined(found.value) else "")
  }

  /** `join` answers with the first check that fails, in the source's order, and moves the player only when all pass. */
  lemma JoinOrder(roundActive: bool, permitted: bool, found: Option<string>, current: Option<string>, teamName: string)
    ensures var reply := JoinReply(roundActive, permitted, found, current, teamName);
      && (roundActive ==> reply == ALREADY_PLAYING)
      && (!roundActive && !permitted ==> reply == NO_PERMS)
      && (!roundActive && permitted && found.None? ==> reply == "Team '" + teamName + "' not found!")
      && (!roundActive && permitted && found.Some? && current == Some(teamName) ==> reply == "You are already in team " + teamName + "!")
      && (!roundActive && permitted && found.Some? && current != Some(teamName) ==> reply == Joined(found.value))
    ensures FirstFailure(JoinGuards(roundActive, permitted, found.Some?, current == Some(teamName), teamName)).None?
        <==> !roundActive && permitted && found.Some? && current != Some(teamName)
  {
    var g := JoinGuards(roundActive, permitted, found.Some?, current == Some(teamName), teamName);
    if roundActive { FailingGuardDecides(g, 0); }
    else if !permitted { FailingGuardDecides(g, 1); }
    else if found.None? { FailingGuardDecides(g, 2); }
    else if current == Some(teamName) { FailingGuardDecides(g, 3); }
  }

  /** The name of a team, if there is one. */
  function TeamName(t: Option<Team>): (r: Option<string>)
    reads Targets(t)`name
    ensures r.Some? <==> t.Some?
  {
    if t.Some? then Some(t.value.name) else None
  }

  /** The checks of `join` against the session's state and the local player's team. */
  function JoinChecks(session: LegacySession.LegacySession, isHost: bool, local: Player, teamName: string): seq<Guard>
    reads session`isRoundActive, session`settings, session.teams, Objs(session.teams.list)`name, local`team, Targets(local.team)`name
  {
    JoinGuards(session.isRoundActive, CheckPerms(isHost, session.settings.joinTeamPerm),
               Lookup(session.teams.list, teamName, OrdinalIgnoreCase).Some?, TeamName(local.team) == Some(teamName), teamName)
  }

  /** The reply of `join` on the session's state and the local player's team. */
  function JoinReplyOf(session: LegacySession.LegacySession, isHost: bool, local: Player, teamName: string): string
    reads session`isRoundActive, session`settings, session.teams, Objs(session.teams.list)`name, local`team, Targets(local.team)`name
  {
    JoinReply(session.isRoundActive, CheckPerms(isHost, session.settings.joinTeamPerm),
              TeamName(Lookup(session.teams.list, teamName, OrdinalIgnoreCase)), TeamName(local.team), teamName)
  }

  /**
   * Asking to join one's own team is refused only when the typed name is
   * exactly the team's name: the lookup ignores case, the "already in" check
   * does not, so the same name in another case is answered as a join.
   */
  lemma OwnTeamRejoined(session: LegacySession.LegacySession, isHost: bool, local: Player, teamName: string)
    requires !session.isRoundActive && CheckPerms(isHost, session.settings.joinTeamPerm)
    requires local.team.Some? && Lookup(session.teams.list, teamName, OrdinalIgnoreCase) == Some(local.team.value)
    ensures JoinReplyOf(session, isHost, local, teamName)
         == if local.team.value.name == teamName then "You are already in team " + teamName + "!"
            else Joined(local.team.value.name)
  {
    var name := Some(local.team.value.name);
    JoinOrder(false, true, name, name, teamName);
  }

  /**
   * `JoinCommand`: replies as the checks decide; only when all pass is the
   * local player's team set (`SetTeamServerRpc`, which on the server is
   * `SetTeamFromServer`) to the team the lookup found.
   */
  method JoinCommand(session: LegacySession.LegacySession, isHost: bool, local: Player, teamName: string) returns (reply: string)
    modifies local`teamRef, local`team, local`teamChanges, Targets(local.teamRef.TryGet())`members, Objs(session.teams.list)`members
    ensures reply == old(JoinReplyOf(session, isHost, local, teamName))
    ensures old(FirstFailure(JoinChecks(session, isHost, local, teamName))).Some? ==>
      local.teamRef == old(local.teamRef) && local.team == old(local.team)
    ensures old(FirstFailure(JoinChecks(session, isHost, local, teamName))).None? ==>
      old(Lookup(session.teams.list, teamName, OrdinalIgnoreCase)).Some?
      && local.teamRef == TeamRef(true, TeamBehaviour(old(Lookup(session.teams.list, teamName, OrdinalIgnoreCase)).value))
    ensures !old(Membership(session.teams.list, session.players.list)) || local !in session.players.list
         || Membership(session.teams.list, session.players.list)
  {
    var permitted := CheckPerms(isHost, session.settings.joinTeamPerm);
    var found := Lookup(session.teams.list, teamName, OrdinalIgnoreCase);
    JoinOrder(session.isRoundActive, permitted, TeamName(found), TeamName(local.team), teamName);
    if session.isRoundActive {
      return ALREADY_PLAYING;
    }
    if !permitted {
      return NO_PERMS;
    }
    if found.None? {
      return "Team '" + teamName + "' not found!";
    }
    if local.team.Some? && local.team.value.name == teamName {
      return "You are already in team " + teamName + "!";
    }
    var team := found.value;
    assert team in session.teams.list;
    local.SetTeamFromServer(TeamBehaviour(team), session.teams.list, session.players.list);
    return Joined(team.name);
  }

  /** The checks of `create-team` against the older session; its bounds equal the plugin's. */
  function CreateChecks(session: LegacySession.LegacySession, isHost: bool, teamName: string): seq<Guard>
    reads session`isRoundActive, session`settings, session.teams, Objs(session.teams.list)`name
  {
    CreateTeamGuards(session.isRoundActive, CheckPerms(isHost, session.settings.createAndDeleteTeamPerm),
                     |session.teams.list|, Lookup(session.teams.list, teamName, OrdinalIgnoreCase).Some?, teamName)
  }

  /**
   * `CreateTeam`: replies as the checks decide; only when all pass is a team
   * of that name and the given colour (the random colour) created and appended.
   */
  method CreateTeam(session: LegacySession.LegacySession, isHost: bool, teamName: string, color: Color) returns (reply: string)
    modifies session.teams
    ensures reply == old(Decide(CreateChecks(session, isHost, teamName), Created(teamName)))
    ensures old(FirstFailure(CreateChecks(session, isHost, teamName))).Some? ==> unchanged(session.teams)
    ensures old(FirstFailure(CreateChecks(session, isHost, teamName))).None? ==>
      && |session.teams.list| == old(|session.teams.list|) + 1
      && session.teams.list[..old(|session.teams.list|)] == old(session.teams.list)
      && var t := session.teams.list[old(|session.teams.list|)];
         fresh(t) && t.name == teamName && t.color == color && t.members == []
    ensures LegacySession.MIN_TEAMS <= old(|session.teams.list|) <= LegacySession.MAX_TEAMS ==> LegacySession.MIN_TEAMS <= |session.teams.list| <= LegacySession.MAX_TEAMS
  {
    var permitted := CheckPerms(isHost, session.settings.createAndDeleteTeamPerm);
    var taken := Lookup(session.teams.list, teamName, OrdinalIgnoreCase).Some?;
    CreateTeamOrder(session.isRoundActive, permitted, |session.teams.list|, taken, teamName);
    if session.isRoundActive {
      return ALREADY_PLAYING;
    }
    if !permitted {
      return NO_PERMS;
    }
    if |session.teams.list| >= LegacySession.MAX_TEAMS {
      return "Maximum number of teams reached!";
    }
    if taken {
      return "Team " + teamName + " already exists!";
    }
    if Utf16Length(teamName) > MAX_CREATE_NAME {
      return TOO_LONG;
    }
    var _ := session.CreateTeamServerRpc(teamName, color);
    return Created(teamName);
  }

  /** The checks of `delete-team` against the older session. */
  function DeleteChecks(session: LegacySession.LegacySession, isHost: bool, teamName: string): seq<Guard>
    reads session`isRoundActive, session`settings, session.teams, Objs(session.teams.list)`name, Objs(session.teams.list)`members
  {
    var target := Lookup(session.teams.list, teamName, OrdinalIgnoreCase);
    DeleteTeamGuards(session.isRoundActive, CheckPerms(isHost, session.settings.createAndDeleteTeamPerm),
                     |session.teams.list|, target.Some?, HasMembers(target), teamName)
  }

  /**
   * `DeleteTeam`: replies as the checks decide; only when all pass is the
   * named team (the first match, ignoring case) despawned, which unregisters it.
   */
  method DeleteTeam(session: LegacySession.LegacySession, isHost: bool, teamName: string) returns (reply: string)
    modifies session.teams
    ensures reply == old(Decide(DeleteChecks(session, isHost, teamName), Deleted(teamName)))
    ensures old(FirstFailure(DeleteChecks(session, isHost, teamName))).Some? ==> unchanged(session.teams)
    ensures old(FirstFailure(DeleteChecks(session, isHost, teamName))).None? ==>
      old(Lookup(session.teams.list, teamName, OrdinalIgnoreCase)).Some?
      && session.teams.list == Lists.RemoveFirst(old(session.teams.list), old(Lookup(session.teams.list, teamName, OrdinalIgnoreCase)).value)
      && (!session.teams.withSuitIndex ==> session.teams.suits == old(session.teams.suits))
    ensures LegacySession.MIN_TEAMS <= old(|session.teams.list|) <= LegacySession.MAX_TEAMS ==> LegacySession.MIN_TEAMS <= |session.teams.list| <= LegacySession.MAX_TEAMS
  {
    var permitted := CheckPerms(isHost, session.settings.createAndDeleteTeamPerm);
    var target := Lookup(session.teams.list, teamName, OrdinalIgnoreCase);
    DeleteTeamOrder(session.isRoundActive, permitted, |session.teams.list|, target.Some?, HasMembers(target), teamName);
    if session.isRoundActive {
      return ALREADY_PLAYING;
    }
    if !permitted {
      return NO_PERMS;
    }
    if |session.teams.list| <= LegacySession.MIN_TEAMS {
      return "Minimum number of teams reached!";
    }
    if target.None? {
      return "Team " + teamName + " not found!";
    }
    var team := target.value;
    if |team.members| > 0 {
      return "Team " + teamName + " still has members!";
    }
    var _ := team.DeleteServerRpc(session.teams);
    return Deleted(teamName);
  }

  /** The checks of `set-team-name` against the older session and the local player's team. */
  function RenameChecks(session: LegacySession.LegacySession, isHost: bool, local: Player, name: string): seq<Guard>
    reads session`isRoundActive, session`settings, session.teams, Objs(session.teams.list)`name, local`team
  {
    RenameGuards(session.isRoundActive, CheckPerms(isHost, session.settings.editTeamPerm),
                 local.team.Some?, Lookup(session.teams.list, name, OrdinalIgnoreCase).Some?, name)
  }

  /**
   * `RenameCommand`: replies as the checks decide; only when all pass does
   * the local player's team take the new name. The older team has no suit
   * to rename.
   */
  method RenameCommand(session: LegacySession.LegacySession, isHost: bool, local: Player, name: string) returns (reply: string)
    modifies Targets(local.team)`name
    ensures reply == old(Decide(RenameChecks(session, isHost, local, name), Renamed(name)))
    ensures old(FirstFailure(RenameChecks(session, isHost, local, name))).Some? ==>
      local.team.Some? ==> local.team.value.name == old(local.team.value.name)
    ensures old(FirstFailure(RenameChecks(session, isHost, local, name))).None? ==>
      local.team.Some? && local.team.value.name == name
  {
    var permitted := CheckPerms(isHost, session.settings.editTeamPerm);
    var taken := Lookup(session.teams.list, name, OrdinalIgnoreCase).Some?;
    RenameOrder(session.isRoundActive, permitted, local.team.Some?, taken, name);
    if session.isRoundActive {
      return ALREADY_PLAYING;
    }
    if !permitted {
      return NO_PERMS;
    }
    if local.team.None? {
      return NOT_IN_TEAM;
    }
    var team := local.team.value;
    if taken {
      return "Team " + name + " already exists!";
    }
    if Utf16Length(name) > MAX_RENAME_NAME {
      return TOO_LONG;
    }
    team.SetName(name);
    return Renamed(name);
  }

  /**
   * The reply of the older `set-team-color` when the colour is set: the
   * engine's hex rendering, without '#', whatever the input was.
   */
  function ColorSetHex(teamName: string, input: string, hex: string): string {
    "Set color of team " + teamName + " to <color=" + hex + ">" + input + "</color>."
  }

  /**
   * The older reply differs from the newer one exactly in the colour tag: the
   * newer reply shows an input starting with '#' as typed, and otherwise
   * puts '#' before the hex rendering.
   */
  lemma ColorRepliesDiffer(teamName: string, input: string, hex: string)
    ensures ColorSet(teamName, input, hex)
         == ColorSetHex(teamName, input, if |input| >= 1 && input[0] == '#' then input else "#" + hex)
    ensures ColorSetHex(teamName, input, hex) != ColorSet(teamName, input, hex)
         <==> (if |input| >= 1 && input[0] == '#' then input else "#" + hex) != hex
  {
    var shown := if |input| >= 1 && input[0] == '#' then input else "#" + hex;
    var prefix := "Set color of team " + teamName + " to <color=";
    var suffix := ">" + input + "</color>.";
    assert ColorSetHex(teamName, input, hex) == prefix + hex + suffix;
    assert ColorSet(teamName, input, hex) == prefix + shown + suffix;
    if shown != hex {
      SplicesDiffer(prefix, hex, shown, suffix);
    }
  }

  /** Two texts that differ only in their middle parts are different when those parts are. */
  lemma SplicesDiffer(prefix: string, a: string, b: string, suffix: string)
    requires a != b
    ensures prefix + a + suffix != prefix + b + suffix
  {
    if |a| == |b| {
      var i :| 0 <= i < |a| && a[i] != b[i];
      assert (prefix + a + suffix)[|prefix| + i] == a[i];
      assert (prefix + b + suffix)[|prefix| + i] == b[i];
    } else {
      assert |prefix + a + suffix| != |prefix + b + suffix|;
    }
  }

  /**
   * The entries of the colour table as `string.Join` shows them: each
   * key-value pair as "[name, colour]", with `colorText` the engine's text
   * form of a colour.
   */
  function EntryTexts(names: seq<string>, colorText: Color -> string): (texts: seq<string>)
    requires forall k :: 0 <= k < |names| ==> names[k] in COLOR_NAMES
    ensures |texts| == |names|
  {
    if names == [] then []
    else ["[" + names[0] + ", " + colorText(COLOR_NAMES[names[0]]) + "]"] + EntryTexts(names[1..], colorText)
  }

  /** Each entry shows as "[name, colour]", in the table's order. */
  lemma {:induction false} EntryTextsShowPairs(names: seq<string>, colorText: Color -> string)
    requires forall k :: 0 <= k < |names| ==> names[k] in COLOR_NAMES
    ensures forall k :: 0 <= k < |names| ==>
      EntryTexts(names, colorText)[k] == "[" + names[k] + ", " + colorText(COLOR_NAMES[names[k]]) + "]"
  {
    if names != [] {
      EntryTextsShowPairs(names[1..], colorText);
    }
  }

  /** The older reply to an unreadable colour: it lists the table's entries, not only its names. */
  function LegacyInvalidColor(colorText: Color -> string): string {
    INVALID_COLOR_PREFIX + JoinStrings(EntryTexts(COLOR_NAME_ORDER, colorText), ", ") + "."
  }

  /**
   * The two invalid-colour replies part right after the lead-in: the older
   * one opens the list with '[', the newer one with the first name, "red".
   */
  lemma InvalidColorRepliesDiffer(colorText: Color -> string)
    ensures INVALID_COLOR[..|INVALID_COLOR_PREFIX|] == LegacyInvalidColor(colorText)[..|INVALID_COLOR_PREFIX|] == INVALID_COLOR_PREFIX
    ensures INVALID_COLOR[|INVALID_COLOR_PREFIX|] == 'r' && LegacyInvalidColor(colorText)[|INVALID_COLOR_PREFIX|] == '['
    ensures LegacyInvalidColor(colorText) != INVALID_COLOR
  {
    var n := |INVALID_COLOR_PREFIX|;
    var entries := EntryTexts(COLOR_NAME_ORDER, colorText);
    var listed := JoinStrings(entries, ", ");
    assert listed == entries[0] + ", " + JoinStrings(entries[1..], ", ");
    assert listed[0] == '[';
    var names := JoinStrings(COLOR_NAME_ORDER, ", ");
    assert names == "red" + ", " + JoinStrings(COLOR_NAME_ORDER[1..], ", ");
    assert names[0] == 'r';
    assert INVALID_COLOR == INVALID_COLOR_PREFIX + names + ".";
    assert LegacyInvalidColor(colorText)[n] == listed[0];
    assert INVALID_COLOR[n] == names[0];
  }

  /** The older `set-team-color`: round, permission, no team, then an unreadable colour with the older reply. */
  function LegacyColorGuards(roundActive: bool, permitted: bool, inTeam: bool, valid: bool, colorText: Color -> string): seq<Guard> {
    Preamble(roundActive, permitted) + [
      Guard(!inTeam, NOT_IN_TEAM),
      Guard(!valid, LegacyInvalidColor(colorText))]
  }

  /** The older `set-team-color` answers with the first check that fails, in the source's order. */
  lemma LegacyColorOrder(roundActive: bool, permitted: bool, inTeam: bool, valid: bool, colorText: Color -> string, success: string)
    ensures var reply := Decide(LegacyColorGuards(roundActive, permitted, inTeam, valid, colorText), success);
      && (roundActive ==> reply == ALREADY_PLAYING)
      && (!roundActive && !permitted ==> reply == NO_PERMS)
      && (!roundActive && permitted && !inTeam ==> reply == NOT_IN_TEAM)
      && (!roundActive && permitted && inTeam && !valid ==> reply == LegacyInvalidColor(colorText))
    ensures FirstFailure(LegacyColorGuards(roundActive, permitted, inTeam, valid, colorText)).None? <==> !roundActive && permitted && inTeam && valid
  {
    var g := LegacyColorGuards(roundActive, permitted, inTeam, valid, colorText);
    var k := if roundActive then 0 else if !permitted then 1 else if !inTeam then 2 else 3;
    if k < 3 || !valid {
      FailingGuardDecides(g, k);
    }
  }

  /** The checks of the older `set-team-color` against the older session. */
  function ColorChecks(session: LegacySession.LegacySession, isHost: bool, local: Player, input: string,
                       html: string -> Option<Color>, colorText: Color -> string): seq<Guard>
    reads session`isRoundActive, session`settings, local`team
  {
    LegacyColorGuards(session.isRoundActive, CheckPerms(isHost, session.settings.editTeamPerm),
                      local.team.Some?, ParseColor(input, html).Some?, colorText)
  }

  /**
   * `ColorCommand`: replies as the checks decide; only when all pass does the
   * local player's team take the parsed colour. `html` is the engine's HTML
   * colour parser, `hex` its hex rendering of a colour and `colorText` its
   * text form of a colour.
   */
  method ColorCommand(session: LegacySession.LegacySession, isHost: bool, local: Player, input: string,
                      html: string -> Option<Color>, hex: Color -> string, colorText: Color -> string) returns (reply: string)
    modifies Targets(local.team)`color
    ensures old(FirstFailure(ColorChecks(session, isHost, local, input, html, colorText))).Some? ==>
      && reply == old(FirstFailure(ColorChecks(session, isHost, local, input, html, colorText))).value
      && (local.team.Some? ==> local.team.value.color == old(local.team.value.color))
    ensures old(FirstFailure(ColorChecks(session, isHost, local, input, html, colorText))).None? ==>
      && local.team.Some? && ParseColor(input, html).Some?
      && local.team.value.color == ParseColor(input, html).value
      && reply == ColorSetHex(local.team.value.name, input, hex(ParseColor(input, html).value))
  {
    var permitted := CheckPerms(isHost, session.settings.editTeamPerm);
    var color := ParseColor(input, html);
    LegacyColorOrder(session.isRoundActive, permitted, local.team.Some?, color.Some?, colorText, "");
    if session.isRoundActive {
      return ALREADY_PLAYING;
    }
    if !permitted {
      return NO_PERMS;
    }
    if local.team.None? {
      return NOT_IN_TEAM;
    }
    var team := local.team.value;
    if color.None? {
      return LegacyInvalidColor(colorText);
    }
    team.SetColor(color.value);
    return ColorSetHex(team.name, input, hex(color.value));
  }
}
