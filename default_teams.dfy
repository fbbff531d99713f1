/**
 * The default team roster (src/Game/DefaultTeams.cs): a user file may
 * override the built-in two teams, but only with between `MIN_TEAMS` and
 * `MAX_TEAMS` valid definitions. Reading and deserialising the file are
 * input: the model receives what the JSON reader produced.
 */
module DefaultTeams {
  import opened Wrappers
  import opened Colors
  import Plugin

  /** A team to create when the session starts: name, colour, usernames that join it. */
  datatype TeamDefinition = TeamDefinition(name: string, color: Color, players: seq<string>)

  /** One roster entry as written in the file: the colour as text, the player list possibly null. */
  datatype RawDefinition = RawDefinition(name: string, color: string, players: Option<seq<string>>)

  /** What reading the roster file gave. */
  datatype RosterFile =
    | FileMissing
    | Unreadable              // I/O error, malformed JSON or a null document
    | Parsed(entries: seq<RawDefinition>)

  /** The typed constructor: a null player list becomes an empty one. */
  function NewDefinition(name: string, color: Color, players: Option<seq<string>>): (d: TeamDefinition)
    ensures d.name == name && d.color == color
    ensures players.None? ==> d.players == []
    ensures players.Some? ==> d.players == players.value
  {
    TeamDefinition(name, color, if players.Some? then players.value else [])
  }

  /**
   * The JSON constructor: the colour is parsed by `ParseColor`; an invalid
   * colour throws, modelled as `None`.
   */
  function NewDefinitionFromText(raw: RawDefinition, html: string -> Option<Color>): (r: Option<TeamDefinition>)
    ensures r.None? <==> ParseColor(raw.color, html).None?
    ensures r.Some? ==> r.value == NewDefinition(raw.name, ParseColor(raw.color, html).value, raw.players)
  {
    match ParseColor(raw.color, html)
    case None => None
    case Some(c) => Some(NewDefinition(raw.name, c, raw.players))
  }

  /** Deserialising the whole array: any entry whose constructor throws fails the lot. */
  function DefinitionsFromText(entries: seq<RawDefinition>, html: string -> Option<Color>): (r: Option<seq<TeamDefinition>>)
    ensures r.Some? <==> forall i :: 0 <= i < |entries| ==> NewDefinitionFromText(entries[i], html).Some?
    ensures r.Some? ==> |r.value| == |entries|
    ensures r.Some? ==> forall i :: 0 <= i < |entries| ==> r.value[i] == NewDefinitionFromText(entries[i], html).value
  {
    if entries == [] then Some([])
    else
      assert forall i :: 1 <= i < |entries| ==> entries[i] == entries[1..][i - 1];
      match NewDefinitionFromText(entries[0], html)
      case None => None
      case Some(d) =>
        match DefinitionsFromText(entries[1..], html)
        case None => None
        case Some(ds) => Some([d] + ds)
  }

  /** The built-in roster used whenever the file cannot be used. */
  const FALLBACK: seq<TeamDefinition> := [
    NewDefinition("Loot bugs", Rgba(0.99, 0.55, 0.11, 1.0), None),
    NewDefinition("Manticoils", Rgba(0.20, 0.57, 0.16, 1.0), None)
  ]

  /** The fallback roster is itself within the team-count bounds. */
  lemma FallbackWithinBounds()
    ensures Plugin.MIN_TEAMS <= |FALLBACK| <= Plugin.MAX_TEAMS
    ensures |FALLBACK| == 2 && FALLBACK[0].name == "Loot bugs" && FALLBACK[1].name == "Manticoils"
    ensures forall i :: 0 <= i < |FALLBACK| ==> FALLBACK[i].players == []
  {
  }

  /**
   * `DefaultTeams.Get`: the parsed roster when every entry constructs and
   * its length is within bounds; the fallback for a missing file, a read or
   * parse failure, an invalid colour, or too few or too many teams.
   */
  function Get(file: RosterFile, html: string -> Option<Color>): (r: seq<TeamDefinition>)
    ensures Plugin.MIN_TEAMS <= |r| <= Plugin.MAX_TEAMS
    ensures file.FileMissing? || file.Unreadable? ==> r == FALLBACK
    ensures file.Parsed? ==>
      var parsed := DefinitionsFromText(file.entries, html);
      r == if parsed.Some? && Plugin.MIN_TEAMS <= |file.entries| <= Plugin.MAX_TEAMS then parsed.value else FALLBACK
  {
    match file
    case FileMissing => FALLBACK
    case Unreadable => FALLBACK
    case Parsed(entries) =>
      match DefinitionsFromText(entries, html)
      case None => FALLBACK
      case Some(teams) =>
        if |teams| < Plugin.MIN_TEAMS then FALLBACK
        else if |teams| > Plugin.MAX_TEAMS then FALLBACK
        else teams
  }
}
