/**
 * The settings the host shares with every client (src/NetworkedSettings.cs,
 * NetworkedSettings.cs) and the permission levels of the terminal commands
 * (src/Config.cs, Config.cs).
 */
module Settings {
  /** Who may use a command: everyone, or only the host. */
  datatype Permission = Everyone | HostOnly

  /** The synced settings of src/NetworkedSettings.cs. */
  datatype NetworkedSettings = NetworkedSettings(
    forceSuits: bool,
    friendlyFire: bool,
    numberOfRounds: int,
    shipSafeRadius: real,
    joinTeamPerm: Permission,
    createAndDeleteTeamPerm: Permission,
    editTeamPerm: Permission)

  /** The value of a `NetworkVariable<NetworkedSettings>` before the host first writes it. */
  const DEFAULT_SETTINGS: NetworkedSettings := NetworkedSettings(false, false, 0, 0.0, Everyone, Everyone, Everyone)

  /** The older synced settings of NetworkedSettings.cs, which have no suit switch. */
  datatype LegacySettings = LegacySettings(
    friendlyFire: bool,
    numberOfRounds: int,
    shipSafeRadius: real,
    joinTeamPerm: Permission,
    createAndDeleteTeamPerm: Permission,
    editTeamPerm: Permission)

  /** The value of a `NetworkVariable<NetworkedSettings>` before the host first writes it. */
  const DEFAULT_LEGACY_SETTINGS: LegacySettings := LegacySettings(false, 0, 0.0, Everyone, Everyone, Everyone)

  /** `CheckPerms`: the host may always act; anyone else only when the permission is `Everyone`. */
  function CheckPerms(isHost: bool, perm: Permission): (allowed: bool)
    ensures allowed <==> isHost || perm == Everyone
    ensures perm == HostOnly ==> (allowed <==> isHost)
  {
    isHost || perm == Everyone
  }
}
