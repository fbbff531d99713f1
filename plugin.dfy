/** The plugin-wide team-count bounds (src/Plugin.cs). */
module Plugin {
  /** The minimum number of teams allowed in a session. */
  const MIN_TEAMS: int := 2
  /** The maximum number of teams allowed in a session. */
  const MAX_TEAMS: int := 6
}
