/**
 * The terminal commands of src/TerminalCommands.cs: each command is a chain
 * of guard checks that replies with the first failing check's message and
 * changes nothing, or, when every check passes, acts on the session and
 * replies with a confirmation. The host's `IsHost`, the local player and
 * the engine's random index and colour routines are parameters.
 */
module Commands {
  import opened Wrappers
  import opened Text
  import opened Colors
  import opened Teams
  import opened Players
  import opened Settings
  import Plugin
  import Selection
  import Session
  import Scramble
  import Lists

  const NO_PERMS: string := "You do not have permission to use this command!"
  const ALREADY_PLAYING: string := "You cannot use this command while a round is active!"
  const NOT_IN_TEAM: string := "You are not in a team!"
  const TOO_LONG: string := "Team name is too long!"

  /** The longest name `create-team` accepts, in UTF-16 code units (`string.Length`). */
  const MAX_CREATE_NAME: int := 128
  /** The longest name `set-team-name` accepts, in UTF-16 code units. */
  const MAX_RENAME_NAME: int := 64

  /** The limits count UTF-16 units: 33 characters beyond the Basic Multilingual Plane are over the rename limit. */
  lemma WideNameTooLong(c: char)
    requires c as int >= 0x1_0000
    ensures |Repeat(c, 33)| <= MAX_RENAME_NAME < Utf16Length(Repeat(c, 33))
  {
    Utf16LengthRepeat(c, 33);
  }

  /** One check of a command: when `fails` holds the command replies `message` and stops. */
  datatype Guard = Guard(fails: bool, message: string)

  /** The reply of the first failing check, in order; `None` when every check passes. */
  function FirstFailure(guards: seq<Guard>): (r: Option<string>)
    ensures r.None? <==> forall k :: 0 <= k < |guards| ==> !guards[k].fails
    ensures r.Some? ==> exists k :: 0 <= k < |guards| && guards[k].fails && guards[k].message == r.value
                                    && forall j :: 0 <= j < k ==> !guards[j].fails
  {
    if guards == [] then None
    else if guards[0].fails then Some(guards[0].message)
    else
      var r := FirstFailure(guards[1..]);
      assert r.Some? ==> exists k :: 1 <= k < |guards| && guards[k].fails && guards[k].message == r.value
                                     && forall j :: 1 <= j < k ==> !guards[j].fails by {
        if r.Some? {
          var k :| 0 <= k < |guards[1..]| && guards[1..][k].fails && guards[1..][k].message == r.value
                   && forall j :: 0 <= j < k ==> !guards[1..][j].fails;
          assert forall j :: 1 <= j < k + 1 ==> guards[j] == guards[1..][j - 1];
        }
      }
      r
  }

  /** A failing check decides the reply when every check before it passes; later checks are not consulted. */
  lemma {:induction false} FailingGuardDecides(guards: seq<Guard>, k: nat)
    requires k < |guards| && guards[k].fails
    requires forall j :: 0 <= j < k ==> !guards[j].fails
    ensures FirstFailure(guards) == Some(guards[k].message)
  {
    if k > 0 {
      FailingGuardDecides(guards[1..], k - 1);
    }
  }

  /** The two checks every mutating command starts with: no active round, then the permission. */
  function Preamble(roundActive: bool, permitted: bool): seq<Guard> {
    [Guard(roundActive, ALREADY_PLAYING), Guard(!permitted, NO_PERMS)]
  }

  /** While a round is active every command that starts with the preamble answers with the round message. */
  lemma RoundActiveComesFirst(permitted: bool, rest: seq<Guard>)
    ensures FirstFailure(Preamble(true, permitted) + rest) == Some(ALREADY_PLAYING)
  {
    var g := Preamble(true, permitted) + rest;
    FailingGuardDecides(g, 0);
  }

  /** Outside a round, a refused permission wins over every later check. */
  lemma PermissionComesSecond(rest: seq<Guard>)
    ensures FirstFailure(Preamble(false, false) + rest) == Some(NO_PERMS)
  {
    var g := Preamble(false, false) + rest;
    FailingGuardDecides(g, 1);
  }

  /** `create-team`: round, permission, team count, duplicate name (ignoring case), then name length. */
  function CreateTeamGuards(roundActive: bool, permitted: bool, count: int, taken: bool, teamName: string): seq<Guard> {
    Preamble(roundActive, permitted) + [
      Guard(count >= Plugin.MAX_TEAMS, "Maximum number of teams reached!"),
      Guard(taken, "Team " + teamName + " already exists!"),
      Guard(Utf16Length(teamName) > MAX_CREATE_NAME, TOO_LONG)]
  }

  /** The reply of a command: the first failing check's message, or `success` when every check passes. */
  function Decide(guards: seq<Guard>, success: string): string {
    match FirstFailure(guards)
    case Some(message) => message
    case None => success
  }

  /** The reply of `create-team` when the team is created. */
  function Created(teamName: string): string {
    "Created team " + teamName + "."
  }

  /** The reply of `create-team`. */
  function CreateTeamReply(roundActive: bool, permitted: bool, count: int, taken: bool, teamName: string): string {
    Decide(CreateTeamGuards(roundActive, permitted, count, taken, teamName), Created(teamName))
  }

  /** `create-team` answers with the first check that fails, in the source's order, and creates only when all pass. */
  lemma CreateTeamOrder(roundActive: bool, permitted: bool, count: int, taken: bool, teamName: string)
    ensures var reply := CreateTeamReply(roundActive, permitted, count, taken, teamName);
      && (roundActive ==> reply == ALREADY_PLAYING)
      && (!roundActive && !permitted ==> reply == NO_PERMS)
      && (!roundActive && permitted && count >= Plugin.MAX_TEAMS ==> reply == "Maximum number of teams reached!")
      && (!roundActive && permitted && count < Plugin.MAX_TEAMS && taken ==> reply == "Team " + teamName + " already exists!")
      && (!roundActive && permitted && count < Plugin.MAX_TEAMS && !taken && Utf16Length(teamName) > MAX_CREATE_NAME ==> reply == TOO_LONG)
    ensures FirstFailure(CreateTeamGuards(roundActive, permitted, count, taken, teamName)).None?
        <==> !roundActive && permitted && count < Plugin.MAX_TEAMS && !taken && Utf16Length(teamName) <= MAX_CREATE_NAME
  {
    var g := CreateTeamGuards(roundActive, permitted, count, taken, teamName);
    if roundActive { FailingGuardDecides(g, 0); }
    else if !permitted { FailingGuardDecides(g, 1); }
    else if count >= Plugin.MAX_TEAMS { FailingGuardDecides(g, 2); }
    else if taken { FailingGuardDecides(g, 3); }
    else if Utf16Length(teamName) > MAX_CREATE_NAME { FailingGuardDecides(g, 4); }
  }

  /** `delete-team`: round, permission, team count, unknown name, then remaining members. */
  function DeleteTeamGuards(roundActive: bool, permitted: bool, count: int, found: bool, hasMembers: bool, teamName: string): seq<Guard> {
    Preamble(roundActive, permitted) + [
      Guard(count <= Plugin.MIN_TEAMS, "Minimum number of teams reached!"),
      Guard(!found, "Team " + teamName + " not found!"),
      Guard(hasMembers, "Team " + teamName + " still has members!")]
  }

  /** The reply of `delete-team` when the team is deleted. */
  function Deleted(teamName: string): string {
    "Deleted team " + teamName + "."
  }

  /** The reply of `delete-team`. */
  function DeleteTeamReply(roundActive: bool, permitted: bool, count: int, found: bool, hasMembers: bool, teamName: string): string {
    Decide(DeleteTeamGuards(roundActive, permitted, count, found, hasMembers, teamName), Deleted(teamName))
  }

  /** `delete-team` answers with the first check that fails, in the source's order, and deletes only when all pass. */
  lemma DeleteTeamOrder(roundActive: bool, permitted: bool, count: int, found: bool, hasMembers: bool, teamName: string)
    ensures var reply := DeleteTeamReply(roundActive, permitted, count, found, hasMembers, teamName);
      && (roundActive ==> reply == ALREADY_PLAYING)
      && (!roundActive && !permitted ==> reply == NO_PERMS)
      && (!roundActive && permitted && count <= Plugin.MIN_TEAMS ==> reply == "Minimum number of teams reached!")
      && (!roundActive && permitted && count > Plugin.MIN_TEAMS && !found ==> reply == "Team " + teamName + " not found!")
      && (!roundActive && permitted && count > Plugin.MIN_TEAMS && found && hasMembers ==> reply == "Team " + teamName + " still has members!")
    ensures FirstFailure(DeleteTeamGuards(roundActive, permitted, count, found, hasMembers, teamName)).None?
        <==> !roundActive && permitted && count > Plugin.MIN_TEAMS && found && !hasMembers
  {
    var g := DeleteTeamGuards(roundActive, permitted, count, found, hasMembers, teamName);
    if roundActive { FailingGuardDecides(g, 0); }
    else if !permitted { FailingGuardDecides(g, 1); }
    else if count <= Plugin.MIN_TEAMS { FailingGuardDecides(g, 2); }
    else if !found { FailingGuardDecides(g, 3); }
    else if hasMembers { FailingGuardDecides(g, 4); }
  }

  /** `set-team-name`: round, permission, no team, a taken name (ignoring case), then name length. */
  function RenameGuards(roundActive: bool, permitted: bool, inTeam: bool, taken: bool, name: string): seq<Guard> {
    Preamble(roundActive, permitted) + [
      Guard(!inTeam, NOT_IN_TEAM),
      Guard(taken, "Team " + name + " already exists!"),
      Guard(Utf16Length(name) > MAX_RENAME_NAME, TOO_LONG)]
  }

  /** The reply of `set-team-name` when the team is renamed. */
  function Renamed(name: string): string {
    "Renamed team to " + name + "."
  }

  /** The reply of `set-team-name`. */
  function RenameReply(roundActive: bool, permitted: bool, inTeam: bool, taken: bool, name: string): string {
    Decide(RenameGuards(roundActive, permitted, inTeam, taken, name), Renamed(name))
  }

  /** `set-team-name` answers with the first check that fails, in the source's order, and renames only when all pass. */
  lemma RenameOrder(roundActive: bool, permitted: bool, inTeam: bool, taken: bool, name: string)
    ensures var reply := RenameReply(roundActive, permitted, inTeam, taken, name);
      && (roundActive ==> reply == ALREADY_PLAYING)
      && (!roundActive && !permitted ==> reply == NO_PERMS)
      && (!roundActive && permitted && !inTeam ==> reply == NOT_IN_TEAM)
      && (!roundActive && permitted && inTeam && taken ==> reply == "Team " + name + " already exists!")
      && (!roundActive && permitted && inTeam && !taken && Utf16Length(name) > MAX_RENAME_NAME ==> reply == TOO_LONG)
    ensures FirstFailure(RenameGuards(roundActive, permitted, inTeam, taken, name)).None?
        <==> !roundActive && permitted && inTeam && !taken && Utf16Length(name) <= MAX_RENAME_NAME
  {
    var g := RenameGuards(roundActive, permitted, inTeam, taken, name);
    if roundActive { FailingGuardDecides(g, 0); }
    else if !permitted { FailingGuardDecides(g, 1); }
    else if !inTeam { FailingGuardDecides(g, 2); }
    else if taken { FailingGuardDecides(g, 3); }
    else if Utf16Length(name) > MAX_RENAME_NAME { FailingGuardDecides(g, 4); }
  }

  /** The colour names in the order the colour table lists them. */
  const COLOR_NAME_ORDER: seq<string> := ["red", "green", "blue", "yellow", "cyan", "magenta", "white", "black"]

  /** The listed names are exactly the colour table's names. */
  lemma ColorNameOrderComplete()
    ensures forall n :: n in COLOR_NAME_ORDER <==> n in COLOR_NAMES
    ensures |COLOR_NAME_ORDER| == |COLOR_NAMES|
  {
  }

  /** `string.Join(separator, items)`. */
  function JoinStrings(items: seq<string>, separator: string): (s: string)
    ensures items == [] ==> s == ""
    ensures |items| == 1 ==> s == items[0]
  {
    if items == [] then ""
    else if |items| == 1 then items[0]
    else items[0] + separator + JoinStrings(items[1..], separator)
  }

  /** The lead-in of the reply to an unreadable colour. */
  const INVALID_COLOR_PREFIX: string := "Invalid color! Please use hex format (e.g. #FF0000) or one of the following: "

  /** The reply to a colour that is neither a table name nor an HTML colour. */
  const INVALID_COLOR: string := INVALID_COLOR_PREFIX + JoinStrings(COLOR_NAME_ORDER, ", ") + "."

  /** `set-team-color`: round, permission, no team, then an unreadable colour. */
  function ColorGuards(roundActive: bool, permitted: bool, inTeam: bool, valid: bool): seq<Guard> {
    Preamble(roundActive, permitted) + [
      Guard(!inTeam, NOT_IN_TEAM),
      Guard(!valid, INVALID_COLOR)]
  }

  /**
   * The reply of `set-team-color` when the colour is set: the input itself
   * when it starts with '#', otherwise '#' and the engine's hex rendering.
   */
  function ColorSet(teamName: string, input: string, hex: string): string {
    var shown := if |input| >= 1 && input[0] == '#' then input else "#" + hex;
    "Set color of team " + teamName + " to <color=" + shown + ">" + input + "</color>."
  }

  /** `set-team-color` answers with the first check that fails, in the source's order. */
  lemma ColorOrder(roundActive: bool, permitted: bool, inTeam: bool, valid: bool, success: string)
    ensures var reply := Decide(ColorGuards(roundActive, permitted, inTeam, valid), success);
      && (roundActive ==> reply == ALREADY_PLAYING)
      && (!roundActive && !permitted ==> reply == NO_PERMS)
      && (!roundActive && permitted && !inTeam ==> reply == NOT_IN_TEAM)
      && (!roundActive && permitted && inTeam && !valid ==> reply == INVALID_COLOR)
    ensures FirstFailure(ColorGuards(roundActive, permitted, inTeam, valid)).None? <==> !roundActive && permitted && inTeam && valid
  {
    var g := ColorGuards(roundActive, permitted, inTeam, valid);
    var k := if roundActive then 0 else if !permitted then 1 else if !inTeam then 2 else 3;
    if k < 3 || !valid {
      FailingGuardDecides(g, k);
    }
  }

  /**
   * The `Hours` and `Minutes` components of `TimeSpan.FromHours` for a
   * non-negative span of whole minutes: whole days are not part of either.
   */
  datatype Clock = Clock(hours: nat, minutes: nat)

  function SpanOf(totalMinutes: nat): (c: Clock)
    ensures c.hours < 24 && c.minutes < 60
  {
    Clock((totalMinutes / 60) % 24, totalMinutes % 60)
  }

  /** The two components give back the span modulo a day. */
  lemma SpanRecomposes(totalMinutes: nat)
    ensures SpanOf(totalMinutes).hours * 60 + SpanOf(totalMinutes).minutes == totalMinutes % (24 * 60)
  {
    var h := totalMinutes / 60;
    var m := totalMinutes % 60;
    var d := h / 24;
    var r := (h % 24) * 60 + m;
    assert totalMinutes == d * (24 * 60) + r by {
      assert totalMinutes == h * 60 + m;
      assert h == d * 24 + h % 24;
    }
    DivisionIsUnique(totalMinutes, 24 * 60, d, r);
  }

  /** Euclidean division has one quotient and one remainder. */
  lemma DivisionIsUnique(n: nat, k: nat, q: nat, r: nat)
    requires 0 < k && r < k && n == q * k + r
    ensures n % k == r
  {
    var q', r' := n / k, n % k;
    var d := q - q';
    ProductDifference(q, q', k);
    assert d * k == r' - r;
    if d > 0 {
      ProductAtLeast(d, k);
      assert false;
    } else if d < 0 {
      ProductAtLeast(-d, k);
      ProductDifference(0, d, k);
      assert false;
    }
  }

  lemma ProductDifference(a: int, b: int, k: int)
    ensures a * k - b * k == (a - b) * k
  {
  }

  lemma ProductAtLeast(d: int, k: int)
    requires d >= 1 && k >= 0
    ensures d * k >= k
  {
    ProductDifference(d, 1, k);
  }

  /** A number below 100 as exactly two digits (the `D2` format). */
  function TwoDigits(n: nat): (s: string)
    requires n < 100
    ensures |s| == 2 && '0' <= s[0] <= '9' && '0' <= s[1] <= '9'
    ensures (s[0] as int - '0' as int) * 10 + (s[1] as int - '0' as int) == n
  {
    [Digit(n / 10), Digit(n % 10)]
  }

  /** `FormatTimeSpan`: "{h}h", or "{h}h {m}m" when the minutes are not 0. */
  function FormatTimeSpan(totalMinutes: nat): string {
    var c := SpanOf(totalMinutes);
    if c.minutes == 0 then NatString(c.hours) + "h"
    else NatString(c.hours) + "h " + NatString(c.minutes) + "m"
  }

  /** The minutes are left out exactly when they are 0: the text then ends in 'h', otherwise in 'm'. */
  lemma TimeSpanOmitsZeroMinutes(totalMinutes: nat)
    ensures var s := FormatTimeSpan(totalMinutes);
      && |s| >= 2
      && (s[|s| - 1] == 'h' <==> totalMinutes % 60 == 0)
      && (totalMinutes % 60 == 0 ==> s == NatString(totalMinutes / 60 % 24) + "h")
  {
  }

  /** The hour on a 12-hour dial: 0 and 12 both show as 12. */
  function TwelveHour(hours: nat): (h: nat)
    ensures 1 <= h <= 12
    ensures h % 12 == hours % 12
  {
    if hours % 12 == 0 then 12 else hours % 12
  }

  /** Reading a 12-hour dial back: the displayed hour and the PM mark give the 24-hour hour. */
  function FromTwelveHour(h: nat, pm: bool): nat {
    h % 12 + (if pm then 12 else 0)
  }

  /** `FormatTimeOfDay`: a 24-hour time as "{h}:{mm} AM" or "{h}:{mm} PM" on a 12-hour dial. */
  function FormatTimeOfDay(totalMinutes: nat): string {
    var c := SpanOf(totalMinutes);
    NatString(TwelveHour(c.hours)) + ":" + TwoDigits(c.minutes) + " " + (if c.hours < 12 then "AM" else "PM")
  }

  /**
   * The 12-hour text loses nothing: it ends in AM exactly for hours below 12,
   * the displayed hour is between 1 and 12 and reads back, with the AM/PM
   * mark, to the 24-hour hour, and the two digits before it are the minutes.
   */
  lemma {:induction false} TimeOfDayReadsBack(totalMinutes: nat)
    ensures var c := SpanOf(totalMinutes);
      var s := FormatTimeOfDay(totalMinutes);
      && |s| >= 7
      && (s[|s| - 2..] == "AM" <==> c.hours < 12)
      && (s[|s| - 2..] == "PM" <==> c.hours >= 12)
      && s[|s| - 6] == ':' && s[|s| - 5..|s| - 3] == TwoDigits(c.minutes)
      && s[..|s| - 6] == NatString(TwelveHour(c.hours))
      && FromTwelveHour(TwelveHour(c.hours), c.hours >= 12) == c.hours
  {
    var c := SpanOf(totalMinutes);
    var hour := NatString(TwelveHour(c.hours));
    var mark := if c.hours < 12 then "AM" else "PM";
    var s := FormatTimeOfDay(totalMinutes);
    assert s == hour + ":" + TwoDigits(c.minutes) + " " + mark;
    assert s[|s| - 2..] == mark;
    assert s[|s| - 5..|s| - 3] == TwoDigits(c.minutes);
    assert s[..|s| - 6] == hour;
  }

  /** Break points of `input`: the last is its length, the others are inside it. */
  predicate ValidPoints(input: string, points: seq<nat>) {
    && |points| >= 1
    && points[|points| - 1] == |input|
    && forall k :: 0 <= k < |points| - 1 ==> points[k] < |input|
  }

  /** The break points the server join tries from `from` on: every space's index, left to right, then the input's length. */
  function SplitPoints(input: string, from: nat): (points: seq<nat>)
    requires from <= |input|
    decreases |input| - from
    ensures |points| >= 1 && points[|points| - 1] == |input|
    ensures forall k :: 0 <= k < |points| - 1 ==> from <= points[k] < |input|
  {
    if from == |input| then [|input|]
    else if input[from] == ' ' then [from] + SplitPoints(input, from + 1)
    else SplitPoints(input, from + 1)
  }

  /** Every break point but the last is the index of a space. */
  lemma {:induction false} SplitPointsAreSpaces(input: string, from: nat)
    requires from <= |input|
    decreases |input| - from
    ensures forall k :: 0 <= k < |SplitPoints(input, from)| - 1 ==> input[SplitPoints(input, from)[k]] == ' '
  {
    if from < |input| {
      var rest := SplitPoints(input, from + 1);
      SplitPointsAreSpaces(input, from + 1);
      if input[from] == ' ' {
        var points := [from] + rest;
        assert SplitPoints(input, from) == points;
        forall k | 0 <= k < |points| - 1 ensures input[points[k]] == ' ' {
          if k > 0 {
            assert points[k] == rest[k - 1];
          }
        }
      }
    }
  }

  /** The break points go strictly left to right. */
  lemma {:induction false} SplitPointsIncrease(input: string, from: nat)
    requires from <= |input|
    decreases |input| - from
    ensures forall k, l :: 0 <= k < l < |SplitPoints(input, from)| ==> SplitPoints(input, from)[k] < SplitPoints(input, from)[l]
  {
    if from < |input| {
      var rest := SplitPoints(input, from + 1);
      SplitPointsIncrease(input, from + 1);
      if input[from] == ' ' {
        var points := [from] + rest;
        assert SplitPoints(input, from) == points;
        forall k, l | 0 <= k < l < |points| ensures points[k] < points[l] {
          assert points[l] == rest[l - 1];
          if k > 0 {
            assert points[k] == rest[k - 1];
          } else if l - 1 < |rest| - 1 {
            assert from + 1 <= rest[l - 1];
          }
        }
      }
    }
  }

  /** Every space of the input from `from` on is a break point. */
  lemma {:induction false} SplitPointsCoverSpaces(input: string, from: nat)
    requires from <= |input|
    decreases |input| - from
    ensures forall i :: from <= i < |input| && input[i] == ' ' ==> i in SplitPoints(input, from)
  {
    if from < |input| {
      SplitPointsCoverSpaces(input, from + 1);
    }
  }




  /**
   * What the server join's search settles on: a team (an index into the
   * team list) and either a player (an index into the player list) or the
   * local player; or nothing. `playerName` is the last player name tried.
   */
  datatype Resolution =
    | Found(team: nat, player: Option<nat>, playerName: Option<string>)
    | NotFound(playerName: Option<string>)

  /**
   * What the lookups give at one break point: the team named by the text
   * before it, and, at any break point but the last, the text after the
   * space and the player it names.
   */
  datatype Attempt = Attempt(team: Option<nat>, player: Option<nat>, suffix: string)

  /** The lookups at every break point, left to right (team and player names are matched ignoring case). */
  function Attempts(teamNames: seq<string>, playerNames: seq<string>, input: string, points: seq<nat>): (attempts: seq<Attempt>)
    requires ValidPoints(input, points)
    ensures |attempts| == |points| && attempts[|points| - 1].player.None?
    ensures forall k :: 0 <= k < |points| ==> attempts[k].team == FirstMatch(teamNames, input[..points[k]], OrdinalIgnoreCase)
    ensures forall k :: 0 <= k < |points| - 1 ==>
      && attempts[k].suffix == input[points[k] + 1..]
      && attempts[k].player == FirstMatch(playerNames, input[points[k] + 1..], OrdinalIgnoreCase)
  {
    seq(|points|, k requires 0 <= k < |points| =>
      if k == |points| - 1 then Attempt(FirstMatch(teamNames, input, OrdinalIgnoreCase), None, "")
      else Attempt(FirstMatch(teamNames, input[..points[k]], OrdinalIgnoreCase),
                   FirstMatch(playerNames, input[points[k] + 1..], OrdinalIgnoreCase),
                   input[points[k] + 1..]))
  }

  /**
   * The search of the server join from break point `i` on: a team must be
   * named before the break point; at the last break point (the whole input)
   * the local player is meant, at any other the text after the space must
   * name a player, or the search goes on.
   */
  function Resolve(attempts: seq<Attempt>, i: nat, playerName: Option<string>): (r: Resolution)
    requires i <= |attempts|
    decreases |attempts| - i
  {
    if i == |attempts| then NotFound(playerName)
    else
      match attempts[i].team
      case None => Resolve(attempts, i + 1, playerName)
      case Some(t) =>
        if i == |attempts| - 1 then Found(t, None, playerName)
        else
          match attempts[i].player
          case Some(q) => Found(t, Some(q), Some(attempts[i].suffix))
          case None => Resolve(attempts, i + 1, Some(attempts[i].suffix))
  }

  /** Break point `k`, not the last, has a team name before it and a player name after it. */
  predicate SplitWorks(attempts: seq<Attempt>, k: nat)
    requires k < |attempts|
  {
    k < |attempts| - 1 && attempts[k].team.Some? && attempts[k].player.Some?
  }

  /** The first working break point from `i` on, if any. */
  function FirstWorkingSplit(attempts: seq<Attempt>, i: nat): (w: Option<nat>)
    decreases |attempts| - i
    ensures w.Some? ==> && i <= w.value < |attempts| && SplitWorks(attempts, w.value)
                        && forall j :: i <= j < w.value ==> !SplitWorks(attempts, j)
    ensures w.None? <==> forall k :: i <= k < |attempts| ==> !SplitWorks(attempts, k)
  {
    if i >= |attempts| then None
    else if SplitWorks(attempts, i) then Some(i)
    else FirstWorkingSplit(attempts, i + 1)
  }

  /** The search finds its result within the attempts. */
  lemma {:induction false} ResolveInRange(attempts: seq<Attempt>, i: nat, playerName: Option<string>)
    requires i <= |attempts|
    decreases |attempts| - i
    ensures var r := Resolve(attempts, i, playerName);
      r.Found? ==> exists k :: i <= k < |attempts| && attempts[k].team == Some(r.team)
                               && (r.player.Some? ==> attempts[k].player == r.player)
  {
    if i < |attempts| {
      var r := Resolve(attempts, i, playerName);
      if attempts[i].team.None? || (i < |attempts| - 1 && attempts[i].player.None?) {
        ResolveInRange(attempts, i + 1, if attempts[i].team.None? then playerName else Some(attempts[i].suffix));
      } else {
        assert attempts[i].team == Some(r.team);
      }
    }
  }

  /** A search that succeeds names a team and, if any, a player that are in the lists. */
  lemma SearchInRange(teamNames: seq<string>, playerNames: seq<string>, input: string, points: seq<nat>)
    requires ValidPoints(input, points)
    ensures var r := Resolve(Attempts(teamNames, playerNames, input, points), 0, None);
      r.Found? ==> r.team < |teamNames| && (r.player.Some? ==> r.player.value < |playerNames|)
  {
    var attempts := Attempts(teamNames, playerNames, input, points);
    var r := Resolve(attempts, 0, None);
    ResolveInRange(attempts, 0, None);
    if r.Found? {
      var k :| 0 <= k < |attempts| && attempts[k].team == Some(r.team) && (r.player.Some? ==> attempts[k].player == r.player);
    }
  }

  /**
   * The search ends on a named player exactly when some break point, not the
   * last, has a team before it and a player after it; it then settles on the
   * first such break point, left to right: the team before it, the player
   * and the name after it.
   */
  lemma {:induction false} ResolveFindsFirstWorkingSplit(attempts: seq<Attempt>, i: nat, playerName: Option<string>)
    requires i <= |attempts|
    decreases |attempts| - i
    ensures var r := Resolve(attempts, i, playerName);
      var w := FirstWorkingSplit(attempts, i);
      && ((r.Found? && r.player.Some?) <==> w.Some?)
      && (w.Some? ==> r == Found(attempts[w.value].team.value, attempts[w.value].player, Some(attempts[w.value].suffix)))
  {
    if i < |attempts| && !SplitWorks(attempts, i) {
      var next := if attempts[i].team.Some? then Some(attempts[i].suffix) else playerName;
      ResolveFindsFirstWorkingSplit(attempts, i + 1, next);
    }
  }

  /**
   * Without a working break point the search falls back to the whole input
   * as a team name for the local player, and finds nothing when that fails.
   */
  lemma {:induction false} ResolveFallsBackToWholeInput(attempts: seq<Attempt>, i: nat, playerName: Option<string>)
    requires i < |attempts|
    requires forall k :: i <= k < |attempts| ==> !SplitWorks(attempts, k)
    decreases |attempts| - i
    ensures var r := Resolve(attempts, i, playerName);
      var last := attempts[|attempts| - 1].team;
      && (r.Found? <==> last.Some?)
      && (r.Found? ==> r.player.None? && r.team == last.value)
  {
    if i < |attempts| - 1 {
      assert !SplitWorks(attempts, i);
      var next := if attempts[i].team.Some? then Some(attempts[i].suffix) else playerName;
      ResolveFallsBackToWholeInput(attempts, i + 1, next);
    } else {
      assert Resolve(attempts, i + 1, playerName).NotFound?;
    }
  }

  /** Once a player name was tried, a failed search reports some name. */
  lemma {:induction false} ResolveKeepsName(attempts: seq<Attempt>, i: nat, playerName: Option<string>)
    requires i <= |attempts|
    decreases |attempts| - i
    ensures var r := Resolve(attempts, i, playerName);
      r.NotFound? && playerName.Some? ==> r.playerName.Some?
  {
    if i < |attempts| && (attempts[i].team.None? || (i < |attempts| - 1 && attempts[i].player.None?)) {
      ResolveKeepsName(attempts, i + 1, if attempts[i].team.None? then playerName else Some(attempts[i].suffix));
    }
  }

  /**
   * When the search finds nothing, a player name is reported exactly when
   * some break point other than the last had a team name before it.
   */
  lemma {:induction false} ResolveReportsTriedName(attempts: seq<Attempt>, i: nat)
    requires i <= |attempts|
    decreases |attempts| - i
    ensures var r := Resolve(attempts, i, None);
      r.NotFound? ==> (r.playerName.None? <==> forall k :: i <= k < |attempts| - 1 ==> attempts[k].team.None?)
  {
    if i < |attempts| - 1 {
      if attempts[i].team.None? {
        ResolveReportsTriedName(attempts, i + 1);
      } else if attempts[i].player.None? {
        ResolveKeepsName(attempts, i + 1, Some(attempts[i].suffix));
      }
    }
  }

  /* ---------- The commands on the host's session ---------- */

  /** The checks of `create-team` against the session's state. */
  function CreateTeamChecks(session: Session.Session, isHost: bool, teamName: string): seq<Guard>
    reads session`isRoundActive, session`settings, session.teams, Objs(session.teams.list)`name
  {
    CreateTeamGuards(session.isRoundActive, CheckPerms(isHost, session.settings.createAndDeleteTeamPerm),
                     |session.teams.list|, Lookup(session.teams.list, teamName, OrdinalIgnoreCase).Some?, teamName)
  }

  /**
   * `CreateTeam`: replies as the checks decide; only when all pass is a team
   * of that name and the given colour (the random colour) created and appended.
   */
  method CreateTeam(session: Session.Session, isHost: bool, teamName: string, color: Color) returns (reply: string)
    modifies session`unlockables, session.teams
    ensures reply == old(Decide(CreateTeamChecks(session, isHost, teamName), Created(teamName)))
    ensures old(FirstFailure(CreateTeamChecks(session, isHost, teamName))).Some? ==>
      unchanged(session.teams) && session.unlockables == old(session.unlockables)
    ensures old(FirstFailure(CreateTeamChecks(session, isHost, teamName))).None? ==>
      && |session.teams.list| == old(|session.teams.list|) + 1
      && session.teams.list[..old(|session.teams.list|)] == old(session.teams.list)
      && var t := session.teams.list[old(|session.teams.list|)];
         fresh(t) && t.name == teamName && t.color == color && t.members == []
    ensures Plugin.MIN_TEAMS <= old(|session.teams.list|) <= Plugin.MAX_TEAMS ==> Plugin.MIN_TEAMS <= |session.teams.list| <= Plugin.MAX_TEAMS
  {
    var permitted := CheckPerms(isHost, session.settings.createAndDeleteTeamPerm);
    CreateTeamOrder(session.isRoundActive, permitted, |session.teams.list|, Lookup(session.teams.list, teamName, OrdinalIgnoreCase).Some?, teamName);
    if session.isRoundActive {
      return ALREADY_PLAYING;
    }
    if !permitted {
      return NO_PERMS;
    }
    if |session.teams.list| >= Plugin.MAX_TEAMS {
      return "Maximum number of teams reached!";
    }
    var taken, _ := session.teams.TryGet(teamName, OrdinalIgnoreCase);
    if taken {
      return "Team " + teamName + " already exists!";
    }
    if Utf16Length(teamName) > MAX_CREATE_NAME {
      return TOO_LONG;
    }
    var _ := session.CreateTeamServerRpc(teamName, color);
    return Created(teamName);
  }

  /** The team `delete-team` would delete, if any. */
  function HasMembers(t: Option<Team>): bool
    reads Targets(t)`members
  {
    t.Some? && t.value.members != []
  }

  /** The checks of `delete-team` against the session's state. */
  function DeleteTeamChecks(session: Session.Session, isHost: bool, teamName: string): seq<Guard>
    reads session`isRoundActive, session`settings, session.teams, Objs(session.teams.list)`name, Objs(session.teams.list)`members
  {
    var target := Lookup(session.teams.list, teamName, OrdinalIgnoreCase);
    DeleteTeamGuards(session.isRoundActive, CheckPerms(isHost, session.settings.createAndDeleteTeamPerm),
                     |session.teams.list|, target.Some?, HasMembers(target), teamName)
  }

  /**
   * `DeleteTeam`: replies as the checks decide; only when all pass is the
   * named team (the first match, ignoring case) deleted, which unregisters it.
   */
  method DeleteTeam(session: Session.Session, isHost: bool, teamName: string) returns (reply: string)
    modifies session.teams
    ensures reply == old(Decide(DeleteTeamChecks(session, isHost, teamName), Deleted(teamName)))
    ensures old(FirstFailure(DeleteTeamChecks(session, isHost, teamName))).Some? ==> unchanged(session.teams)
    ensures old(FirstFailure(DeleteTeamChecks(session, isHost, teamName))).None? ==>
      old(Lookup(session.teams.list, teamName, OrdinalIgnoreCase)).Some? &&
      var t := old(Lookup(session.teams.list, teamName, OrdinalIgnoreCase)).value;
      && session.teams.list == Lists.RemoveFirst(old(session.teams.list), t)
      && (session.teams.withSuitIndex ==> session.teams.suits == old(session.teams.suits) - {t.suitId})
    ensures Plugin.MIN_TEAMS <= old(|session.teams.list|) <= Plugin.MAX_TEAMS ==> Plugin.MIN_TEAMS <= |session.teams.list| <= Plugin.MAX_TEAMS
  {
    var permitted := CheckPerms(isHost, session.settings.createAndDeleteTeamPerm);
    var target := Lookup(session.teams.list, teamName, OrdinalIgnoreCase);
    DeleteTeamOrder(session.isRoundActive, permitted, |session.teams.list|, target.Some?, HasMembers(target), teamName);
    if session.isRoundActive {
      return ALREADY_PLAYING;
    }
    if !permitted {
      return NO_PERMS;
    }
    if |session.teams.list| <= Plugin.MIN_TEAMS {
      return "Minimum number of teams reached!";
    }
    if target.None? {
      return "Team " + teamName + " not found!";
    }
    var team := target.value;
    if |team.members| > 0 {
      return "Team " + teamName + " still has members!";
    }
    var _ := team.DeleteServerRpc(session.teams);
    return Deleted(teamName);
  }

  /** The checks of `set-team-name` against the session's state and the local player's team. */
  function RenameChecks(session: Session.Session, isHost: bool, local: Player, name: string): seq<Guard>
    reads session`isRoundActive, session`settings, session.teams, Objs(session.teams.list)`name, local`team
  {
    RenameGuards(session.isRoundActive, CheckPerms(isHost, session.settings.editTeamPerm),
                 local.team.Some?, Lookup(session.teams.list, name, OrdinalIgnoreCase).Some?, name)
  }

  /**
   * `RenameCommand`: replies as the checks decide; only when all pass does
   * the local player's team take the new name, and the name-change handler
   * renames the team's suit.
   */
  method RenameCommand(session: Session.Session, isHost: bool, local: Player, name: string) returns (reply: string)
    modifies Targets(local.team)`name, session`unlockables
    ensures reply == old(Decide(RenameChecks(session, isHost, local, name), Renamed(name)))
    ensures old(FirstFailure(RenameChecks(session, isHost, local, name))).Some? ==>
      (local.team.Some? ==> local.team.value.name == old(local.team.value.name)) && session.unlockables == old(session.unlockables)
    ensures old(FirstFailure(RenameChecks(session, isHost, local, name))).None? ==>
      && local.team.Some? && local.team.value.name == name
      && var t := local.team.value;
         session.unlockables == if 0 <= t.suitId < |old(session.unlockables)|
                                then old(session.unlockables)[t.suitId := Some(t.Suit())]
                                else old(session.unlockables)
  {
    var permitted := CheckPerms(isHost, session.settings.editTeamPerm);
    RenameOrder(session.isRoundActive, permitted, local.team.Some?, Lookup(session.teams.list, name, OrdinalIgnoreCase).Some?, name);
    if session.isRoundActive {
      return ALREADY_PLAYING;
    }
    if !permitted {
      return NO_PERMS;
    }
    if local.team.None? {
      return NOT_IN_TEAM;
    }
    var team := local.team.value;
    var taken, _ := session.teams.TryGet(name, OrdinalIgnoreCase);
    if taken {
      return "Team " + name + " already exists!";
    }
    if Utf16Length(name) > MAX_RENAME_NAME {
      return TOO_LONG;
    }
    team.SetName(name);
    if 0 <= team.suitId < |session.unlockables| {
      session.unlockables := session.unlockables[team.suitId := Some(team.Suit())];
    }
    return Renamed(name);
  }

  /** The checks of `set-team-color` against the session's state and the local player's team. */
  function ColorChecks(session: Session.Session, isHost: bool, local: Player, input: string, html: string -> Option<Color>): seq<Guard>
    reads session`isRoundActive, session`settings, local`team
  {
    ColorGuards(session.isRoundActive, CheckPerms(isHost, session.settings.editTeamPerm),
                local.team.Some?, ParseColor(input, html).Some?)
  }

  /**
   * `ColorCommand`: replies as the checks decide; only when all pass does the
   * local player's team take the parsed colour. `html` is the engine's HTML
   * colour parser and `hex` its hex rendering of a colour.
   */
  method ColorCommand(session: Session.Session, isHost: bool, local: Player, input: string,
                      html: string -> Option<Color>, hex: Color -> string) returns (reply: string)
    modifies Targets(local.team)`color
    ensures old(FirstFailure(ColorChecks(session, isHost, local, input, html))).Some? ==>
      && reply == old(FirstFailure(ColorChecks(session, isHost, local, input, html))).value
      && (local.team.Some? ==> local.team.value.color == old(local.team.value.color))
    ensures old(FirstFailure(ColorChecks(session, isHost, local, input, html))).None? ==>
      && local.team.Some? && ParseColor(input, html).Some?
      && local.team.value.color == ParseColor(input, html).value
      && reply == ColorSet(local.team.value.name, input, hex(ParseColor(input, html).value))
  {
    var permitted := CheckPerms(isHost, session.settings.editTeamPerm);
    var color := ParseColor(input, html);
    ColorOrder(session.isRoundActive, permitted, local.team.Some?, color.Some?, "");
    if session.isRoundActive {
      return ALREADY_PLAYING;
    }
    if !permitted {
      return NO_PERMS;
    }
    if local.team.None? {
      return NOT_IN_TEAM;
    }
    var team := local.team.value;
    if color.None? {
      return INVALID_COLOR;
    }
    team.SetColor(color.value);
    return ColorSet(team.name, input, hex(color.value));
  }

  /**
   * The players' usernames in registration order. This is the player-side
   * twin of `Teams.Names`: the two read the `name` field of different
   * classes, so each needs its own `reads` frame and cannot share one definition.
   */
  function Usernames(ps: seq<Player>): (names: seq<string>)
    reads PlayerObjs(ps)`name
    ensures |names| == |ps| && forall i :: 0 <= i < |ps| ==> names[i] == ps[i].name
  {
    if ps == [] then [] else [ps[0].name] + Usernames(ps[1..])
  }

  /** The server join's search on the session's teams and players. */
  function ServerSearch(session: Session.Session, input: string): (r: Resolution)
    reads session.teams, session.players, Objs(session.teams.list)`name, PlayerObjs(session.players.list)`name
    ensures r.Found? ==> r.team < |session.teams.list| && (r.player.Some? ==> r.player.value < |session.players.list|)
  {
    var teamNames, playerNames := Names(session.teams.list), Usernames(session.players.list);
    var points := SplitPoints(input, 0);
    SearchInRange(teamNames, playerNames, input, points);
    Resolve(Attempts(teamNames, playerNames, input, points), 0, None)
  }

  /** The player the server join moves: the named one, or the local player when only a team was given. */
  function SearchedPlayer(session: Session.Session, local: Player, r: Resolution): Player
    reads session.players
    requires r.Found? && (r.player.Some? ==> r.player.value < |session.players.list|)
  {
    if r.player.Some? then session.players.list[r.player.value] else local
  }

  /** A name interpolated into a reply; a missing one shows as nothing. */
  function Shown(name: Option<string>): string {
    match name
    case Some(n) => n
    case None => ""
  }

  /** The reply when the search finds no team and player. */
  function NotFoundReply(playerName: Option<string>): string {
    match playerName
    case None => "Invalid team or player name!"
    case Some(n) => "Player '" + n + "' not found!"
  }

  /** The reply when the player already is in the team. */
  function AlreadyInReply(isOwner: bool, playerName: Option<string>, teamName: string): string {
    if isOwner then "You are already in team " + teamName + "!"
    else "Player " + Shown(playerName) + " is already in team " + teamName + "!"
  }

  /** The reply when the player is moved. */
  function JoinedReply(isOwner: bool, playerName: Option<string>, teamName: string): string {
    if isOwner then "Joined team " + teamName + "."
    else "Moved " + Shown(playerName) + " to team " + teamName
  }

  /** Teams the players' references resolve to. */
  function ReferencedTeams(ps: seq<Player>): set<Team>
    reads PlayerObjs(ps)`teamRef
  {
    set p | p in ps && p.teamRef.TryGet().Some? :: p.teamRef.TryGet().value
  }

  /**
   * The search loop of the server join: tries the break points left to
   * right, each time looking the text before it up among the team names and
   * the text after it among the usernames (both ignoring case), and settles
   * as `Resolve` describes.
   */
  method SearchJoin(teamNames: seq<string>, playerNames: seq<string>, input: string, points: seq<nat>) returns (r: Resolution)
    requires ValidPoints(input, points)
    ensures r == Resolve(Attempts(teamNames, playerNames, input, points), 0, None)
  {
    ghost var attempts := Attempts(teamNames, playerNames, input, points);
    ghost var search := Resolve(attempts, 0, None);
    var playerName: Option<string> := None;
    var i := 0;
    while i < |points|
      invariant 0 <= i <= |points|
      invariant Resolve(attempts, i, playerName) == search
    {
      var t := FirstMatch(teamNames, input[..points[i]], OrdinalIgnoreCase);
      assert attempts[i].team == t;
      if t.Some? {
        if i == |points| - 1 {
          return Found(t.value, None, playerName);
        }
        playerName := Some(input[points[i] + 1..]);
        var p := FirstMatch(playerNames, playerName.value, OrdinalIgnoreCase);
        if p.Some? {
          return Found(t.value, p, playerName);
        }
      }
      i := i + 1;
    }
    return NotFound(playerName);
  }

  /** The reply of a server join once the search has settled on `r`. */
  function SettleReply(session: Session.Session, local: Player, r: Resolution): string
    requires r.Found? ==> r.team < |session.teams.list| && (r.player.Some? ==> r.player.value < |session.players.list|)
    reads session.teams, session.players, Objs(session.teams.list)`name, PlayerObjs(session.players.list + [local])`team
  {
    if r.NotFound? then NotFoundReply(r.playerName)
    else
      var t := session.teams.list[r.team];
      var p := SearchedPlayer(session, local, r);
      if p.team == Some(t) then AlreadyInReply(p.isOwner, r.playerName, t.name)
      else JoinedReply(p.isOwner, r.playerName, t.name)
  }

  /** The reply of the server join, as a function of the state before it. */
  function ServerJoinReply(session: Session.Session, local: Player, input: string): string
    reads session.teams, session.players, Objs(session.teams.list)`name, PlayerObjs(session.players.list)`name,
      PlayerObjs(session.players.list + [local])`team
  {
    SettleReply(session, local, ServerSearch(session, input))
  }

  /**
   * The end of the server join once the search settled on `r`: nothing
   * happens when no team was found or the player already is in it; otherwise
   * the player is moved with `SetTeamFromServer`.
   */
  method Settle(session: Session.Session, local: Player, r: Resolution) returns (reply: string)
    requires r.Found? ==> r.team < |session.teams.list| && (r.player.Some? ==> r.player.value < |session.players.list|)
    modifies PlayerObjs(session.players.list + [local])`teamRef, PlayerObjs(session.players.list + [local])`team,
      PlayerObjs(session.players.list + [local])`teamChanges,
      ReferencedTeams(session.players.list + [local])`members, Objs(session.teams.list)`members
    ensures reply == old(SettleReply(session, local, r))
    ensures r.NotFound? ==>
      && reply == NotFoundReply(r.playerName)
      && unchanged(PlayerObjs(session.players.list + [local]))
      && unchanged(ReferencedTeams(session.players.list + [local]) + Objs(session.teams.list))
    ensures r.Found? ==>
      var t := session.teams.list[r.team];
      var p := SearchedPlayer(session, local, r);
      && (old(p.team) == Some(t) ==>
            && reply == AlreadyInReply(p.isOwner, r.playerName, t.name)
            && p.teamRef == old(p.teamRef)
            && unchanged(PlayerObjs(session.players.list + [local]))
            && unchanged(ReferencedTeams(session.players.list + [local]) + Objs(session.teams.list)))
      && (old(p.team) != Some(t) ==>
            && reply == JoinedReply(p.isOwner, r.playerName, t.name)
            && p.teamRef == TeamRef(true, TeamBehaviour(t)))
    ensures old(Players.Membership(session.teams.list, session.players.list)) && local in session.players.list ==>
      Players.Membership(session.teams.list, session.players.list)
  {
    if r.NotFound? {
      return NotFoundReply(r.playerName);
    }
    var t := session.teams.list[r.team];
    var player := if r.player.Some? then session.players.list[r.player.value] else local;
    if player.team == Some(t) {
      return AlreadyInReply(player.isOwner, r.playerName, t.name);
    }
    player.SetTeamFromServer(TeamBehaviour(t), session.teams.list, session.players.list);
    return JoinedReply(player.isOwner, r.playerName, t.name);
  }

  /**
   * The server half of `JoinCommand`: the search settles on a team and a
   * player, who is moved to the team unless already in it.
   */
  method JoinServer(session: Session.Session, local: Player, input: string) returns (reply: string, r: Resolution)
    modifies PlayerObjs(session.players.list + [local])`teamRef, PlayerObjs(session.players.list + [local])`team,
      PlayerObjs(session.players.list + [local])`teamChanges,
      ReferencedTeams(session.players.list + [local])`members, Objs(session.teams.list)`members
    ensures r == old(ServerSearch(session, input))
    ensures reply == old(SettleReply(session, local, r))
    ensures r.Found? ==>
      var t := session.teams.list[r.team];
      var p := SearchedPlayer(session, local, r);
      && (old(p.team) == Some(t) ==> p.teamRef == old(p.teamRef))
      && (old(p.team) != Some(t) ==> p.teamRef == TeamRef(true, TeamBehaviour(t)))
    ensures old(Players.Membership(session.teams.list, session.players.list)) && local in session.players.list ==>
      Players.Membership(session.teams.list, session.players.list)
  {
    var teamNames, playerNames, points := Names(session.teams.list), Usernames(session.players.list), SplitPoints(input, 0);
    r := SearchJoin(teamNames, playerNames, input, points);
    SearchInRange(teamNames, playerNames, input, points);
    if r.Found? {
      ghost var p := SearchedPlayer(session, local, r);
      assert p.team == old(p.team) && p.teamRef == old(p.teamRef);
    }
    reply := Settle(session, local, r);
  }
  /** The reply of the client join, as a function of the state before it. */
  function ClientJoinReply(session: Session.Session, local: Player, input: string): string
    reads session.teams, Objs(session.teams.list)`name, local`team
  {
    match Lookup(session.teams.list, input, OrdinalIgnoreCase)
    case None => "Team '" + input + "' not found!"
    case Some(t) =>
      if local.team == Some(t) then "You are already in team " + t.name + "!"
      else "Joined team " + t.name + "."
  }

  /**
   * The client half of `JoinCommand`: the whole input names a team (ignoring
   * case), which the local player asks to join unless already in it.
   */
  method JoinClient(session: Session.Session, local: Player, input: string) returns (reply: string)
    modifies local`teamRef, local`team, local`teamChanges, Targets(local.teamRef.TryGet())`members,
      Objs(session.teams.list)`members
    ensures reply == old(ClientJoinReply(session, local, input))
    ensures var t := old(Lookup(session.teams.list, input, OrdinalIgnoreCase));
      && (t.None? || old(local.team) == t ==> local.teamRef == old(local.teamRef))
      && (t.Some? && old(local.team) != t ==> local.teamRef == TeamRef(true, TeamBehaviour(t.value)))
    ensures old(Players.Membership(session.teams.list, session.players.list)) && local in session.players.list ==>
      Players.Membership(session.teams.list, session.players.list)
  {
    var team := Lookup(session.teams.list, input, OrdinalIgnoreCase);
    if team.None? {
      return "Team '" + input + "' not found!";
    }
    var t := team.value;
    if local.team == Some(t) {
      return "You are already in team " + t.name + "!";
    }
    local.SetTeamFromServer(TeamBehaviour(t), session.teams.list, session.players.list);
    return "Joined team " + t.name + ".";
  }

  /** `join`: round and permission checks, then the server or the client half. */
  method JoinCommand(session: Session.Session, isHost: bool, isServer: bool, local: Player, input: string) returns (reply: string)
    modifies PlayerObjs(session.players.list + [local])`teamRef, PlayerObjs(session.players.list + [local])`team,
      PlayerObjs(session.players.list + [local])`teamChanges,
      ReferencedTeams(session.players.list + [local])`members, Objs(session.teams.list)`members
    ensures var pre := FirstFailure(Preamble(session.isRoundActive, CheckPerms(isHost, session.settings.joinTeamPerm)));
      && (pre.Some? ==>
            && reply == pre.value
            && unchanged(PlayerObjs(session.players.list + [local]))
            && unchanged(ReferencedTeams(session.players.list + [local]) + Objs(session.teams.list)))
      && (pre.None? && isServer ==> reply == old(ServerJoinReply(session, local, input)))
      && (pre.None? && !isServer ==> reply == old(ClientJoinReply(session, local, input)))
    ensures old(Players.Membership(session.teams.list, session.players.list)) && local in session.players.list ==>
      Players.Membership(session.teams.list, session.players.list)
  {
    var permitted := CheckPerms(isHost, session.settings.joinTeamPerm);
    RoundActiveComesFirst(permitted, []);
    PermissionComesSecond([]);
    if session.isRoundActive {
      return ALREADY_PLAYING;
    }
    if !permitted {
      return NO_PERMS;
    }
    if isServer {
      var r;
      reply, r := JoinServer(session, local, input);
    } else {
      reply := JoinClient(session, local, input);
    }
  }

  /* ---------- scramble-teams ---------- */

  const SCRAMBLED: string := "Teams scrambled!"

  /** Whether each player is in a team, in registration order. */
  function Teamed(ps: seq<Player>): (flags: seq<bool>)
    reads PlayerObjs(ps)`team
    ensures |flags| == |ps| && forall k :: 0 <= k < |ps| ==> (flags[k] <==> ps[k].team.Some?)
  {
    if ps == [] then [] else [ps[0].team.Some?] + Teamed(ps[1..])
  }

  /** The players' team references, in registration order. */
  function Refs(ps: seq<Player>): (refs: seq<TeamRef>)
    reads PlayerObjs(ps)`teamRef
    ensures |refs| == |ps| && forall k :: 0 <= k < |ps| ==> refs[k] == ps[k].teamRef
  {
    if ps == [] then [] else [ps[0].teamRef] + Refs(ps[1..])
  }

  /** The reference a player holds after the deal: the team it was dealt to, or the one it held when it was skipped. */
  function DealtRef(ts: seq<Team>, before: TeamRef, slot: Option<nat>): TeamRef {
    if slot.Some? && slot.value < |ts| then TeamRef(true, TeamBehaviour(ts[slot.value])) else before
  }

  /**
   * The state of the deal after the first `i` players: the dealt slots and
   * counts are the deal's first `i` steps, those players hold the reference
   * the deal gave them, and the others still hold their reference from
   * `before` and are in a team exactly when `teamed` says so.
   */
  ghost predicate Dealing(teams: seq<Team>, players: seq<Player>, pick: nat -> nat, teamed: seq<bool>, before: seq<TeamRef>,
                          i: nat, dealt: seq<Option<nat>>, count: seq<int>)
    reads PlayerObjs(players)`teamRef, PlayerObjs(players)`team
  {
    && i <= |players| && |teamed| == |players| && |before| == |players|
    && (|teams| > 0 || forall k :: 0 <= k < |teamed| ==> !teamed[k])
    && (dealt, count) == Scramble.Dealt(teamed, Scramble.Zeros(|teams|), pick, i)
    && (forall k :: 0 <= k < i ==> players[k].teamRef == DealtRef(teams, before[k], dealt[k]))
    && (forall k :: i <= k < |players| ==> players[k].teamRef == before[k] && (players[k].team.Some? <==> teamed[k]))
  }

  /**
   * `player.SetTeamFromServer(team)` for the `i`-th player, when the deal
   * gave it a slot: it then holds a reference to that team; no other player
   * changes.
   */
  method MoveTo(teams: seq<Team>, players: seq<Player>, i: nat, slot: Option<nat>)
    requires i < |players|
    requires forall k :: 0 <= k < |players| && k != i ==> players[k] != players[i]
    requires slot.Some? ==> slot.value < |teams|
    modifies {players[i]}`teamRef, {players[i]}`team, {players[i]}`teamChanges,
      Targets(players[i].teamRef.TryGet())`members, Objs(teams)`members
    ensures players[i].teamRef == DealtRef(teams, old(players[i].teamRef), slot)
    ensures slot.None? ==> players[i].team == old(players[i].team)
    ensures forall k :: 0 <= k < |players| && k != i ==> players[k].teamRef == old(players[k].teamRef) && players[k].team == old(players[k].team)
    ensures !old(Membership(teams, players)) || Membership(teams, players)
  {
    if slot.Some? {
      players[i].SetTeamFromServer(TeamBehaviour(teams[slot.value]), teams, players);
    }
  }

  /**
   * One turn of the deal, for the `i`-th player: a player in a team goes to
   * the smallest team `pick(i)` chooses and that team's count goes up; any
   * other player is skipped. The deal moves one step further.
   */
  method DealOne(teams: seq<Team>, players: seq<Player>, pick: nat -> nat, i: nat, count: seq<int>,
                 ghost teamed: seq<bool>, ghost before: seq<TeamRef>, ghost dealt: seq<Option<nat>>)
    returns (next: seq<int>, slot: Option<nat>)
    requires i < |players|
    requires forall k :: 0 <= k < |players| && k != i ==> players[k] != players[i]
    requires Dealing(teams, players, pick, teamed, before, i, dealt, count)
    modifies {players[i]}`teamRef, {players[i]}`team, {players[i]}`teamChanges,
      Targets(players[i].teamRef.TryGet())`members, Objs(teams)`members
    ensures Dealing(teams, players, pick, teamed, before, i + 1, dealt + [slot], next)
    ensures !old(Membership(teams, players)) || Membership(teams, players)
  {
    Scramble.DealtStep(teamed, Scramble.Zeros(|teams|), pick, i, dealt, count);
    if players[i].team.Some? {
      var t := Scramble.Smallest(count, pick(i));
      next, slot := count[t := count[t] + 1], Some(t);
    } else {
      next, slot := count, None;
    }
    MoveTo(teams, players, i, slot);
    assert forall k :: 0 <= k < i ==> (dealt + [slot])[k] == dealt[k];
  }

  /**
   * The loop of `scramble-teams`: each player in a team, in order, is moved
   * to a team drawn from those with the fewest players dealt so far.
   */
  method DealTeams(teams: seq<Team>, players: seq<Player>, pick: nat -> nat) returns (count: seq<int>)
    requires Lists.NoDup(players)
    requires |teams| > 0 || forall k :: 0 <= k < |players| ==> players[k].team.None?
    modifies PlayerObjs(players)`teamRef, PlayerObjs(players)`team, PlayerObjs(players)`teamChanges,
      ReferencedTeams(players)`members, Objs(teams)`members
    ensures var dealt := Scramble.Dealt(old(Teamed(players)), Scramble.Zeros(|teams|), pick, |players|);
      && count == dealt.1
      && forall k :: 0 <= k < |players| ==> players[k].teamRef == DealtRef(teams, old(players[k].teamRef), dealt.0[k])
    ensures old(Membership(teams, players)) ==> Membership(teams, players)
  {
    ghost var teamed, before := Teamed(players), Refs(players);
    ghost var dealt: seq<Option<nat>> := [];
    count := Scramble.Zeros(|teams|);
    var i := 0;
    while i < |players|
      invariant 0 <= i <= |players|
      invariant Dealing(teams, players, pick, teamed, before, i, dealt, count)
      invariant !old(Membership(teams, players)) || Membership(teams, players)
    {
      forall k | 0 <= k < |players| && k != i ensures players[k] != players[i] {
        Lists.NoDupDistinct(players, k, i);
      }
      var slot;
      count, slot := DealOne(teams, players, pick, i, count, teamed, before, dealt);
      dealt := dealt + [slot];
      i := i + 1;
    }
  }

  /**
   * `scramble-teams`: refused during a round and for anyone but the host;
   * otherwise the deal, and "Teams scrambled!". `count` is the command's
   * per-team tally, indexed by registration order.
   */
  method ScrambleTeams(session: Session.Session, isHost: bool, pick: nat -> nat) returns (reply: string, count: seq<int>)
    requires Lists.NoDup(session.players.list)
    requires |session.teams.list| > 0 || forall k :: 0 <= k < |session.players.list| ==> session.players.list[k].team.None?
    modifies PlayerObjs(session.players.list)`teamRef, PlayerObjs(session.players.list)`team,
      PlayerObjs(session.players.list)`teamChanges,
      ReferencedTeams(session.players.list)`members, Objs(session.teams.list)`members
    ensures reply == Decide(Preamble(session.isRoundActive, isHost), SCRAMBLED)
    ensures FirstFailure(Preamble(session.isRoundActive, isHost)).Some? ==>
      && count == []
      && unchanged(PlayerObjs(session.players.list))
      && unchanged(ReferencedTeams(session.players.list) + Objs(session.teams.list))
    ensures FirstFailure(Preamble(session.isRoundActive, isHost)).None? ==>
      var dealt := Scramble.Dealt(old(Teamed(session.players.list)), Scramble.Zeros(|session.teams.list|), pick, |session.players.list|);
      && count == dealt.1
      && forall k :: 0 <= k < |session.players.list| ==>
           session.players.list[k].teamRef == DealtRef(session.teams.list, old(session.players.list[k].teamRef), dealt.0[k])
    ensures old(Membership(session.teams.list, session.players.list)) ==> Membership(session.teams.list, session.players.list)
  {
    RoundActiveComesFirst(isHost, []);
    PermissionComesSecond([]);
    if session.isRoundActive {
      return ALREADY_PLAYING, [];
    }
    if !isHost {
      return NO_PERMS, [];
    }
    count := DealTeams(session.teams.list, session.players.list, pick);
    reply := SCRAMBLED;
  }
}
