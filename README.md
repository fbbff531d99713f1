# CompetitiveCompany: teams, rounds and matches in Dafny

This project models the bookkeeping core of the CompetitiveCompany mod for
Lethal Company. In that mod, players form teams, each round scores the
scrap every team collects, and a match is a fixed number of rounds. The
model follows three snapshots of the repository:

- the newest `CompetitiveCompany/src/Game` classes (`Team` with its scores,
  `Player`, `Players`);
- the `src` snapshot: `Session`, `Teams`, `Combat`, `DefaultTeams`,
  `NetworkedSettings`, `Config` and the terminal commands of
  `src/TerminalCommands.cs`;
- the oldest root snapshot: `Game/Session.cs`, `Game/Team.cs`,
  `Game/Teams.cs` and the terminal commands of `TerminalCommands.cs`.

Where the source changes objects in place (a team's members and scores, a
player's team reference, the team registry, the session's round counter
and its damage-predicate chain), the model is a `class` whose methods
state the whole new state and keep the class invariant. Pure logic
(selections over the teams, the team table, guard chains of the commands,
colour lookup, the scramble deal) is written as functions, with lemmas
stating what they promise.

Modelling conventions:

- The host is the single authoritative node. A `ServerRpc` or `ClientRpc`
  is a direct call, and C# events become entries appended to an event log.
- A `NetworkVariable` write runs its change handler only when the new value
  differs from the old one.
- A team's member list holds the players' client ids.
- Each `Random.Range` draw is an index parameter (`choice`, `pick`), reduced
  modulo the number of candidates. Theorems quantify over every draw.
- Engine routines are function parameters: `ColorUtility` hex parsing and
  formatting, `Color.ToString`, and the distance between two positions.
  `IsHost` and the local player are parameters too.
- Case-insensitive name comparison (`OrdinalIgnoreCase`) is upper-case
  folding of ASCII letters.

Behaviour modelled as the code has it:

- `src/Game/Session.cs` `StartRound` increments the round number before it
  tests `IsMatchActive`, so `OnMatchStarted` is never raised there. The
  older `Game/Session.cs` raises it first and so does raise it. Lemmas in
  `Session` and `LegacySession` state both outcomes.
- The server side of `join-team` in `src/TerminalCommands.cs` moves the
  player whether or not they are spectating. It can therefore give a
  spectator a team.
- In the older `join` command, the team lookup ignores case, but the
  "already in this team" test compares the names exactly.
- The older `color` command replies with the engine's hex rendering
  without a leading `#`. Its reply to an unreadable colour lists the
  name table's `[name, colour]` entries rather than the bare names.
- Team names live in a `FixedString128Bytes`, whose `Length` counts UTF-8
  bytes. The team table pads a name's cell by that byte count, so the row
  of a name with non-ASCII letters is shorter than the other lines by the
  extra bytes. The model pads the same way and states the shortfall.
- The name-length limits of `create-team` (128) and `set-team-name` (64)
  compare `string.Length`, which counts UTF-16 units. A character outside
  the Basic Multilingual Plane counts twice.
- `scramble-teams` counts the players given to each team by the teams'
  registration order. Its `.First()` throws when there are no teams, so the
  deal requires at least one team whenever a player is in a team.

## Model

| member | source | states |
|---|---|---|
| Combat.Allow | src/Game/Combat.cs:111 | `Allow()` converts to true and carries no reason |
| Combat.Deny | src/Game/Combat.cs:116-118 | `Deny(r)` converts to false and carries the reason `r` |
| Combat.AllowsIffNoneDenies | src/Game/Combat.cs:77-86 | the chain allows exactly when every predicate allows, and then its verdict is `Allow()` (so an empty chain allows everything) |
| Combat.FirstDenialDecides | src/Game/Combat.cs:78-83 | when predicate `k` denies and all before it allow, the verdict is predicate `k`'s own result |
| Combat.LaterPredicatesIgnored | src/Game/Combat.cs:78-83 | a chain that already denies decides for any extension of it; an allowing front defers to the rest |
| Combat.OrderDecides | src/Game/Combat.cs:78-83 | example: with two denying predicates, the verdict is the reason of whichever is registered first |
| Combat.Combat.constructor | src/Game/Combat.cs:44-46 | a new chain has no predicates |
| Combat.Combat.FromList | src/Game/Combat.cs:51-53 | the chain holds exactly the given predicates, in order |
| Combat.Combat.AddPredicate | src/Game/Combat.cs:59-61 | a negative index appends; `0 <= i <= Count` inserts at `i`, the others keeping their order; an index past the end is refused (where `List.Insert` throws) and changes nothing |
| Combat.Combat.RemovePredicate | src/Game/Combat.cs:67-69 | true iff the predicate was present; exactly the first occurrence is removed |
| Combat.Combat.CanDamage | src/Game/Combat.cs:77-86 | the loop returns the chain's verdict: the first denial in list order, which is the result of some listed predicate, or `Allow()` |
| Lists.NoDupDistinct | src/TerminalCommands.cs:166-183 | two positions of a duplicate-free list hold different elements (the registered players the deal indexes are distinct objects) |
| Lists.FirstIndex | src/Game/Combat.cs:67-69 | `List.IndexOf`: the position holds `x` and no earlier position does |
| Lists.InsertAt | src/Game/Combat.cs:59-61 | `List.Insert`: one element longer, with `x` at index `i` |
| Lists.RemoveAt | src/Game/Combat.cs:67-69 | `List.RemoveAt`: one element shorter |
| Lists.RemoveFirst | CompetitiveCompany/src/Game/Teams.cs:192-195 | `List.Remove`: one element shorter when `x` is present, the list unchanged when it is not |
| Lists.InsertThenRemove | src/Game/Combat.cs:59-61 | inserting at `i` keeps the elements before `i` and shifts the rest up by one, and removing at `i` undoes it |
| Lists.RemoveFirstMultiset | src/Game/Combat.cs:67-69 | removal takes away exactly one copy of `x` when present and nothing else |
| Lists.RemoveFirstKeepsOrder | src/Game/Combat.cs:67-69 | the elements before the removed one stay in place and the later ones move down by one, in order |
| Lists.RemoveAtIndex | src/Game/Combat.cs:67-69 | where each element after `RemoveAt` came from |
| Lists.RemoveFirstKeepsNoDup | CompetitiveCompany/src/Game/Player.cs:258-259 | removal keeps a member list free of duplicates |
| Lists.RemoveFirstNoDup | CompetitiveCompany/src/Game/Player.cs:258-259 | on a duplicate-free list, removal makes `x` absent and keeps every other element |
| Lists.AppendNoDup | CompetitiveCompany/src/Game/Player.cs:221-222 | appending an absent element keeps the list duplicate-free |
| Selection.MinOfSpec | src/Game/Teams.cs:24-30 | `Min` is no greater than any key and is one of the keys |
| Selection.MaxOf | src/Game/Teams.cs:165-167 | `Max` is at least every key and is one of the keys |
| Selection.FirstMinIndex | src/Game/Teams.cs:29 | the stable `OrderBy(...).First()` picks an index holding the minimum, and every earlier index holds a strictly larger key |
| Selection.FirstMaxIndex | src/Game/Teams.cs:166 | the stable `OrderByDescending(...).First()` picks an index holding the maximum, and every earlier index holds a strictly smaller key |
| Selection.IndicesOf | CompetitiveCompany/src/Game/Teams.cs:30-34 | the indices of one group lie within the list |
| Selection.IndicesOfSpec | CompetitiveCompany/src/Game/Teams.cs:30-34 | the group keeps exactly the indices holding the key, each once and in increasing order |
| Selection.MinimalIndices | CompetitiveCompany/src/Game/Teams.cs:30-34 | the group of smallest keys is never empty and lies within the list |
| Selection.MinimalIndicesSpec | CompetitiveCompany/src/Game/Teams.cs:30-34 | `GroupBy(key).OrderBy(g => g.Key).First()` holds exactly the indices with the minimal key, in registration order |
| Selection.FirstOfMinimalGroup | src/Game/Teams.cs:24-30 | the first index of the smallest group is the one the stable `OrderBy` picks, relating the older and newest `GetSmallest` |
| Selection.MinimalIndexReachable | CompetitiveCompany/src/Game/Teams.cs:36 | every index holding the minimal key has a position in the group, so some random draw reaches it |
| Text.FirstMatch | CompetitiveCompany/src/Game/Teams.cs:43-53 | the `foreach` with early return finds the first name equal under the comparison, and `None` exactly when no name is equal |
| Text.OrdinalImpliesIgnoreCase | CompetitiveCompany/src/Game/Teams.cs:59-61 | an exact match is also a case-insensitive match |
| Text.Digit | src/Game/Teams.cs:93-94 | a digit character for each value below ten |
| Text.NatString | src/Game/Teams.cs:93-94 | `ToString()` of a non-negative score: at least one decimal digit, and one digit iff below ten |
| Text.IntString | src/Game/Teams.cs:93-94 | `ToString()` of a score starts with '-' iff it is negative |
| Text.Repeat | CompetitiveCompany/src/Game/Teams.cs:160-162 | `new string(c, n)` is `n` copies of `c` |
| Text.Utf16Length | src/TerminalCommands.cs:204 | `string.Length` counts UTF-16 units: between one and two per character |
| Text.Utf8Length | CompetitiveCompany/src/Game/Teams.cs:90 | the `Length` of a `FixedString128Bytes` counts UTF-8 bytes: between one and four per character |
| Text.Utf8LengthExact | CompetitiveCompany/src/Game/Teams.cs:90 | a text's byte count equals its character count iff it is ASCII |
| Text.Utf16LengthExact | src/TerminalCommands.cs:204 | a text's UTF-16 length equals its character count iff no character lies beyond the Basic Multilingual Plane |
| Text.Utf16LengthRepeat | src/TerminalCommands.cs:288 | `n` copies of a character take `n` times its UTF-16 units |
| Text.NatStringValue | src/Game/Teams.cs:93-94 | the decimal text of a natural reads back as that number and starts with '0' only for zero |
| Text.IntStringValue | src/Game/Teams.cs:93-94 | the text of a score is its magnitude in decimal digits, after a '-' when negative |
| Colors.ParseColor | TerminalCommands.cs:141-151 | an exact (case-sensitive) key of the eight-name table wins; otherwise the HTML parse decides; `None` exactly when both fail |
| Emote.Id | CompetitiveCompany/src/Util/Emote.cs:13-21 | every emote id lies in 1..9 |
| Emote.FromId | CompetitiveCompany/src/Util/Emote.cs:13-21 | an id names an emote exactly when it lies in 1..9 |
| Emote.IdsAreOneToNine | CompetitiveCompany/src/Util/Emote.cs:13-21 | check of the constant table: the ids are the consecutive integers 1..9, one per emote, so `FromId` finds each |
| Emote.VanillaEmotes | CompetitiveCompany/src/Util/Emote.cs:33-35 | `IsVanilla` holds for an emote iff it is Dance or Point; ids 1 and 2 are vanilla and 3..9 are not |
| Settings.CheckPerms | src/TerminalCommands.cs:296-299 | permitted iff the caller is the host or the permission is `Everyone`; a host-only permission admits the host alone |
| DefaultTeams.NewDefinition | src/Game/DefaultTeams.cs:77-81 | the typed constructor keeps name and colour, and a null player list becomes empty |
| DefaultTeams.NewDefinitionFromText | src/Game/DefaultTeams.cs:89-93 | the text constructor fails exactly when `ParseColor` rejects the colour, and otherwise equals the typed constructor on the parsed colour |
| DefaultTeams.DefinitionsFromText | src/Game/DefaultTeams.cs:37-39 | deserialising succeeds iff every entry constructs, and then yields the constructed entries one for one, in order |
| DefaultTeams.FallbackWithinBounds | src/Game/DefaultTeams.cs:14-17 | check of the constant: the fallback roster is "Loot bugs" and "Manticoils" with no players: 2 teams, within [MinTeams, MaxTeams] |
| DefaultTeams.Get | src/Game/DefaultTeams.cs:29-50 | the result always has between 2 and 6 teams; a missing or unreadable file gives the fallback; a parsed roster is returned unchanged iff every entry constructs and its length is within bounds, else the fallback |
| Teams.Team.constructor | CompetitiveCompany/src/Game/Team.cs:70-77 | a spawned team starts with its name and colour, zero round score, total score, credits and suit id, no members and no assigned players |
| Teams.Team.GetScore | CompetitiveCompany/src/Game/Team.cs:57-63 | the round metric reads the round score and the total metric the total score |
| Teams.Team.AddScore | CompetitiveCompany/src/Game/Team.cs:224-228 | the same amount, possibly negative, is added to round score, total score and credits; nothing else changes |
| Teams.Team.SetCredits | CompetitiveCompany/src/Game/Team.cs:327-358 | each credit-sync RPC replaces the credit count with the caller's value and changes nothing else |
| Teams.Team.SetName | CompetitiveCompany/src/Game/Team.cs:292-294 | the name becomes the new name; nothing else changes |
| Teams.Team.SetColor | CompetitiveCompany/src/Game/Team.cs:284-286 | the colour becomes the new colour; nothing else changes |
| Teams.Team.CreateSuit | CompetitiveCompany/src/Game/Team.cs:189-220 | on the server the suit is appended and its index becomes the suit id; on a client the list is padded with nulls up to the received suit id, the suit is stored there and every other entry is kept |
| Teams.Team.Start | Game/Team.cs:112-121 | the oldest snapshot takes the old length of the unlockables list as suit id and appends the suit there |
| Teams.Team.OnNetworkSpawn | CompetitiveCompany/src/Game/Team.cs:231-236 | the suit is created as in `CreateSuit`, then the team is appended to the registry and its suit id indexed |
| Teams.Team.OnNetworkDespawn | CompetitiveCompany/src/Game/Team.cs:243-244 | the first occurrence of the team leaves the registry list and its suit id leaves the index |
| Teams.Team.DeleteServerRpc | CompetitiveCompany/src/Game/Team.cs:271-278 | the team is deleted iff it has no members; a refused delete leaves the registry unchanged, a deletion unregisters the team |
| Teams.Names | CompetitiveCompany/src/Game/Teams.cs:87-100 | the team names in registration order, one per team |
| Teams.Lookup | CompetitiveCompany/src/Game/Teams.cs:43-61 | none iff no team's name matches under the comparison; otherwise the first matching team in registration order |
| Teams.LookupAgrees | CompetitiveCompany/src/Game/Teams.cs:43-53 | a matching team with no match before it is the team `Lookup` names |
| Teams.MemberCounts | CompetitiveCompany/src/Game/Teams.cs:30-31 | the member counts in registration order, one per team |
| Teams.Scores | CompetitiveCompany/src/Game/Teams.cs:175-177 | the metric's score of each team in registration order |
| Teams.GetSmallestFirst | src/Game/Teams.cs:24-30 | none exactly when there are no teams (the source throws); otherwise a team with no more members than any other, and the first registered such team |
| Teams.GetSmallestRandom | CompetitiveCompany/src/Game/Teams.cs:25-37 | none exactly when there are no teams (the source throws); otherwise a registered team with no more members than any other |
| Teams.AnySmallestCanBeChosen | CompetitiveCompany/src/Game/Teams.cs:30-36 | every team with the fewest members is picked by some random draw |
| Teams.GetLeader | CompetitiveCompany/src/Game/Teams.cs:175-177 | none exactly when there are no teams; otherwise a team whose score is at least every other's, and the first registered one among those with the highest score |
| Teams.GetLivingKeepsExactly | CompetitiveCompany/src/Game/Teams.cs:183-185 | the living teams are exactly the registered teams with a member who is not dead, no more than there are teams, and all teams when every team has a living member |
| Teams.TeamRegistry.constructor | CompetitiveCompany/src/Game/Teams.cs:16-17 | the registry starts with an empty list and an empty suit index |
| Teams.TeamRegistry.Register | CompetitiveCompany/src/Game/Teams.cs:187-190 | the team is appended and its suit id mapped to it; a consistent suit index stays consistent when the team is new and its suit id unused |
| Teams.TeamRegistry.Unregister | CompetitiveCompany/src/Game/Teams.cs:192-195 | the first occurrence of the team is removed and its suit id unmapped; a consistent suit index stays consistent when the team was registered |
| Teams.TeamRegistry.TryGetFromSuit | CompetitiveCompany/src/Game/Teams.cs:168-170 | found iff the suit id is indexed, and then the indexed team |
| Teams.TeamRegistry.SuitLookupFindsRegistered | CompetitiveCompany/src/Game/Teams.cs:168-170 | with a consistent index, the lookup succeeds iff a registered team has that suit id, and the team found is registered and has it |
| Teams.TeamRegistry.TryGet | CompetitiveCompany/src/Game/Teams.cs:43-53 | found iff some registered team's name matches under the comparison, and then the first matching team in registration order; the result is the team `Teams.Lookup` names |
| Teams.TeamRegistry.Get | CompetitiveCompany/src/Game/Teams.cs:66-69 | null iff no registered name matches; otherwise the first matching team |
| Teams.TeamRegistry.Entries | CompetitiveCompany/src/Game/Teams.cs:86-100 | one table entry per registered team, in order, carrying its name, member count, scores and whether it is the local team |
| Teams.TeamRegistry.PrettyPrint | CompetitiveCompany/src/Game/Teams.cs:86-163 | no table exactly when there are no teams or the width is below 4 (the source throws); otherwise the lines are exactly `TeamTable.IsTable` of the teams' entries with widths `w` that fit every cell and are `TeamTable.Distributed` over the width; four lines more than teams, markup-free when colour is off, and when the columns fill the width the rules and header show `width` characters and each team row `width` less its name's UTF-8 bytes beyond one per character |
| Teams.EntriesOf | CompetitiveCompany/src/Game/Teams.cs:86-100 | one table entry per team of the given list, in order, with its name, member count, scores and local flag |
| TeamTable.DisplayedAppend | CompetitiveCompany/src/Game/Teams.cs:144-158 | the shown length of two joined line pieces is the sum of theirs, and joining markup-free pieces gives a markup-free line |
| TeamTable.PlainLineLength | CompetitiveCompany/src/Game/Teams.cs:91 | a line without colour markup shows exactly as many characters as it holds |
| TeamTable.NameSegmentsLength | CompetitiveCompany/src/Game/Teams.cs:87-99 | the name cell (marker, possibly coloured name, member-count suffix) shows the length the source computes for it (the raw name's UTF-8 byte count) less the name's shortfall, and holds no markup without colour |
| TeamTable.NameLengths | CompetitiveCompany/src/Game/Teams.cs:90-102 | one computed name length per team, in order: the raw name's UTF-8 bytes, the suffix, and 2 for the local marker |
| TeamTable.ShortfallOnlyBeyondAscii | CompetitiveCompany/src/Game/Teams.cs:90 | a name's byte count exceeds its character count iff it holds a non-ASCII character |
| TeamTable.RoundLengths | CompetitiveCompany/src/Game/Teams.cs:103 | the decimal length of each team's round score, in order |
| TeamTable.TotalLengths | CompetitiveCompany/src/Game/Teams.cs:104 | the decimal length of each team's total score, in order |
| TeamTable.DistributedShares | CompetitiveCompany/src/Game/Teams.cs:102-118 | with room to spare, the even split `Distributed` states is exactly the source's arithmetic: the round column gains a third of the spare room, the total column half of the rest, the name column the remainder |
| TeamTable.ColumnWidths | CompetitiveCompany/src/Game/Teams.cs:102-118 | every cell fits its column and the widths are `Distributed`: without spare room the widths are the natural ones (at least 4, 12 and 12); with spare room the columns fill the width exactly, the round column gains a third, the total column half the rest and the name column the remainder, so the gains differ by at most one |
| TeamTable.RuleLineLength | CompetitiveCompany/src/Game/Teams.cs:160-162 | a rule line is markup-free and exactly `width` characters |
| TeamTable.CellLength | CompetitiveCompany/src/Game/Teams.cs:147-154 | a cell padded by a measured length shows its column width plus 2, plus what its content shows beyond the measured length, and adds no markup |
| TeamTable.RowLength | CompetitiveCompany/src/Game/Teams.cs:144-158 | a three-column row shows the sum of the column widths plus 7, plus what the name cell shows beyond its measured length, and adds no markup |
| TeamTable.Text1Length | CompetitiveCompany/src/Game/Teams.cs:148 | plain text shows its own length and holds no markup |
| TeamTable.HeaderRowLength | CompetitiveCompany/src/Game/Teams.cs:122-126 | the header row shows the column widths plus 7 and holds no markup |
| TeamTable.RowsLength | CompetitiveCompany/src/Game/Teams.cs:130-138 | each team row shows the column widths plus 7 less its name's shortfall, and holds no markup without colour |
| TeamTable.TeamRows | CompetitiveCompany/src/Game/Teams.cs:130-138 | one row per team, in registration order |
| TeamTable.FramedAll | CompetitiveCompany/src/Game/Teams.cs:120-140 | a property of the rules, the header and every team row holds of every line of the table |
| TeamTable.TableLinesWidth | CompetitiveCompany/src/Game/Teams.cs:120-140 | when the columns fill the width the rules and the header show exactly `width` characters and each team row `width` less its name's shortfall; without colour no line holds markup |
| TeamTable.PrettyPrint | CompetitiveCompany/src/Game/Teams.cs:86-163 | no table exactly when there are no teams or the width is below 4 (the source throws); otherwise rule, header, rule, one row per team and rule, laid out with widths `w` that fit every cell and are `Distributed` as `ColumnWidths` shares them; when there is room the rules and header are `width` wide and each row `width` less its name's shortfall; markup-free without colour |
| TeamTable.BuildLines | CompetitiveCompany/src/Game/Teams.cs:120-140 | the lines produced are the table for the given widths: rule, header, thin rule, the team rows in order, rule |
| TeamTable.PlainTableWidth | CompetitiveCompany/src/Game/Teams.cs:160-161 | a markup-free line that shows `width` characters is written with exactly `width` characters |
| TeamTable.AsciiTableWidth | CompetitiveCompany/src/Game/Teams.cs:120-151 | when every team name is ASCII every line of the table shows exactly `width` characters |
| TeamTable.AccentedNameRowShort | CompetitiveCompany/src/Game/Teams.cs:149-151 | example: the row of a team named "Équipe" (seven bytes, six characters) is one character short of `width` |
| Players.TeamRef.TryGet | CompetitiveCompany/src/Game/Player.cs:35-49 | a team exactly when the reference has a value and resolves to a team, and then that team |
| Players.MembersAfterMoves | CompetitiveCompany/src/Game/Player.cs:205-222 | leaving the previous team before joining the new one keeps member lists duplicate-free, lists the player in the new team and no other, even when old and new team coincide, and leaves every other id where it was |
| Players.Collect | CompetitiveCompany/src/Game/Player.cs:288 | an item scores iff it lands in the ship and was not yet collected; landing in the ship records it |
| Players.ScoredAtMostOnce | CompetitiveCompany/src/Game/Player.cs:287-291 | across any run of deliveries the scored items are distinct, none was collected beforehand, and each was delivered into the ship |
| Players.Player.constructor | CompetitiveCompany/src/Game/Player.cs:22-61 | a spawned player has no team reference, no team, is not spectating, has emote 0 and no team-change events |
| Players.Player.EndOfMatchEmoteChecked | CompetitiveCompany/src/Game/Player.cs:131-139 | without the emote mod the result is a vanilla emote; the chosen emote is kept when the mod is loaded or the emote is vanilla; any replacement is Dance |
| Players.Player.JoinTeam | CompetitiveCompany/src/Game/Player.cs:217-222 | the player's team becomes the team and its id is appended to the team's member list |
| Players.Player.LeaveTeam | CompetitiveCompany/src/Game/Player.cs:255-259 | the player has no team and the first occurrence of its id leaves the team's member list |
| Players.Player.OnTeamReferenceChanged | CompetitiveCompany/src/Game/Player.cs:205-215 | the player leaves the previous team if it resolves, joins the current one if it resolves, and one `OnTeamChanged(previous, current)` event is recorded |
| Players.Player.SetTeamReference | CompetitiveCompany/src/Game/Player.cs:297-316 | the reference is stored; the change handler runs only when it differs from the stored one; the membership invariant is preserved when the new team is registered |
| Players.Player.ClearTeamFromServer | CompetitiveCompany/src/Game/Player.cs:297-301 | the reference becomes "no team", the player leaves its resolved team, and the membership invariant is preserved with the player teamless |
| Players.Player.SetTeamFromServer | CompetitiveCompany/src/Game/Player.cs:307-316 | only a reference that resolves to a team is stored, and the player then belongs to that team; any other reference changes nothing; the membership invariant is preserved |
| Players.Player.SetItemInElevator | CompetitiveCompany/src/Game/Player.cs:287-291 | the collected set is updated as `Collect` says, and the scrap value goes to the player's team exactly when the item scores |
| Players.Player.StartSpectatingServerRpc | CompetitiveCompany/src/Game/Player.cs:359-363 | the player has no team and is spectating; the membership invariant is preserved |
| Players.Player.StopSpectatingServerRpc | CompetitiveCompany/src/Game/Player.cs:365-369 | with teams the player joins a team with the fewest members and stops spectating; with none nothing changes (the source throws); the membership invariant is preserved |
| Players.Player.StartSpectating | src/Game/Player.cs:317-331 | only the owner who is not yet spectating starts: it then spectates with no team; otherwise nothing changes; the membership invariant is preserved |
| Players.Player.StopSpectating | src/Game/Player.cs:336-350 | only the owner who is spectating stops: it no longer spectates and joins the first smallest team, or keeps its reference when there are no teams; otherwise nothing changes; the membership invariant is preserved |
| Players.Player.OnNetworkSpawn | CompetitiveCompany/src/Game/Player.cs:173-181 | the player is appended to the registry; it joins no member list until `InitializeNextFrame` |
| Players.Player.InitializeNextFrame | CompetitiveCompany/src/Game/Player.cs:183-189 | one frame later the player joins the team its reference resolves to, if any: its id is appended to that team's members |
| Players.Player.OnNetworkDespawn | CompetitiveCompany/src/Game/Player.cs:193-203 | the player is deregistered, has no team, and leaves the team it was in |
| Players.AtMostOneTeam | CompetitiveCompany/src/Game/Player.cs:205-222 | under the membership invariant no client id is listed by two different teams |
| Players.PlayerRegistry.constructor | CompetitiveCompany/src/Game/Players.cs:12 | the registry starts empty |
| Players.PlayerRegistry.Count | CompetitiveCompany/src/Game/Players.cs:15 | the number of registered players |
| Players.PlayerRegistry.At | CompetitiveCompany/src/Game/Players.cs:17 | a player exactly when the index is in range, and then the one registered there |
| Players.PlayerRegistry.TryGetByName | CompetitiveCompany/src/Game/Players.cs:23-40 | found iff some registered player's name matches under the comparison, and then the first such player |
| Players.PlayerRegistry.GetByName | CompetitiveCompany/src/Game/Players.cs:45-48 | null iff no registered name matches; otherwise the first matching player |
| Players.PlayerRegistry.Register | CompetitiveCompany/src/Game/Players.cs:54 | the player is appended |
| Players.PlayerRegistry.Deregister | CompetitiveCompany/src/Game/Players.cs:55 | the first occurrence of the player is removed |
| Scramble.Smallest | src/TerminalCommands.cs:174-180 | the team dealt to is one of the teams |
| Scramble.SmallestIsMinimal | src/TerminalCommands.cs:174-180 | the team dealt to has received no more players than any other team |
| Scramble.SmallestReachesEvery | src/TerminalCommands.cs:174-180 | every team with the fewest players so far is chosen by some random draw |
| Scramble.Zeros | src/TerminalCommands.cs:166-169 | every team's count starts at zero |
| Scramble.Dealt | src/TerminalCommands.cs:171-183 | one outcome per player: a player in no team is skipped and every teamed player goes to one of the teams; the count list keeps its length |
| Scramble.DealtStep | src/TerminalCommands.cs:171-183 | one more player: a teamed player goes to a smallest team and raises its count by one; any other player is skipped and changes nothing |
| Scramble.AddToSmallestKeepsBalance | src/TerminalCommands.cs:180-182 | adding a player to a team with the fewest players keeps every two counts within one of each other |
| Scramble.DealtBalanced | src/TerminalCommands.cs:171-183 | from balanced counts the deal ends with counts that differ by at most one |
| Scramble.Tally | src/TerminalCommands.cs:182 | the number of players dealt to one team is at most the number of players |
| Scramble.DealtTallies | src/TerminalCommands.cs:171-183 | each final count is the starting count plus the number of players dealt to that team |
| Scramble.CountTrue | src/TerminalCommands.cs:172 | the number of teamed players is at most the number of players |
| Scramble.SumIncrement | src/TerminalCommands.cs:182 | raising one count by one raises the total by one |
| Scramble.DealtPlacesEveryTeamed | src/TerminalCommands.cs:171-183 | the counts grow in total by exactly the number of teamed players: each is dealt once |
| Scramble.DealEndsBalanced | src/TerminalCommands.cs:162-186 | the whole deal from empty counts ends with team sizes that differ by at most one |
| Session.IsPlayingPredicate | src/Game/Session.cs:334-336 | allows iff a round is active; a denial says combat is disabled in orbit |
| Session.FriendlyFirePredicate | src/Game/Session.cs:338-342 | allows iff friendly fire is on or the two players' teams differ (two teamless players count as one team); a denial says friendly fire is disabled |
| Session.ShipSafeRadiusPredicate | src/Game/Session.cs:344-358 | a radius of zero or less always allows; otherwise denies iff either player is closer to the ship than the radius, with the safe-radius reason |
| Session.DefaultChainVerdict | src/Game/Session.cs:103-111 | with the three installed predicates, damage is allowed iff a round is active, friendly fire is on or the teams differ, and nobody is inside a positive safe radius; the denial reason is that of the first failing predicate |
| Session.StartStep | src/Game/Session.cs:210-230 | starting while a round is active does nothing; otherwise the round number goes up by one, the round becomes active and the last event is the new round's start |
| Session.RoundLogShape | src/Game/Session.cs:222-249 | the rounds of a match log, in order, each round's start then its end, only the last flagged as last, and never a match start |
| Session.MatchRunsFrom | src/Game/Session.cs:210-264 | from the state before any round of a match, the remaining start/end pairs run to the match end, the leader reported and the round number back at -1 |
| Session.WholeMatch | src/Game/Session.cs:210-264 | a whole `n`-round match from the pre-game state raises `n` starts and `n` ends in order, only the last flagged as last, then `MatchEnded` with the leader, never `OnMatchStarted`, and returns to the pre-game state |
| Session.MatchStartedNeverRaised | src/Game/Session.cs:213-226 | from any reachable round number starting a round never raises `OnMatchStarted`, because the test reads the incremented number; a started round leaves a match active |
| Session.RosterTeam | src/Game/Session.cs:200-205 | none iff no team's roster lists the name ignoring case; otherwise a registered team whose roster does, the first such |
| Session.JoinTarget | src/Game/Session.cs:195-207 | none iff there are no teams (the source throws); otherwise a registered team: the roster team if any, else the first smallest team |
| Session.Session.constructor | src/Game/Session.cs:103-111 | a new session has default settings, no match, no active round, empty registries and the chain of the three predicates |
| Session.Session.MatchActive | src/Game/Session.cs:32 | a match is active iff the round number is not negative |
| Session.Session.StartRoundClientRpc | src/Game/Session.cs:222-230 | the round becomes active; `OnMatchStarted` fires iff the round number is negative, then `OnRoundStarted` with the round number |
| Session.Session.StartRound | src/Game/Session.cs:210-219 | the lifecycle moves as `StartStep` says; a started round zeroes every team's round score and keeps totals and credits |
| Session.Session.ResetScores | src/Game/Session.cs:256-260 | every team's round score, total score and credits become 0 |
| Session.Session.EndMatch | src/Game/Session.cs:252-264 | with teams, `OnMatchEnded` reports the leader by total score taken before the reset, then all scores and credits are zeroed and the round number is -1; with no teams nothing is raised or changed (the source throws) |
| Session.Session.EndRoundClientRpc | src/Game/Session.cs:239-249 | the round ends and `OnRoundEnded` reports whether it was the last; after the last round the match ends and scores are reset, otherwise scores are kept |
| Session.Session.EndRound | src/Game/Session.cs:233-236 | nothing while no round is active; otherwise as `EndRoundClientRpc` |
| Session.Session.OnSettingsChanged | src/Game/Session.cs:267-273 | the suits are refreshed iff the force-suits switch changed |
| Session.Session.SyncSettings | src/Game/Session.cs:329-332 | the configuration is published; the change handler runs only when the value differs |
| Session.Session.CreateTeamServerRpc | src/Game/Session.cs:185-193 | a new team with the name and colour, no members and zero scores is registered at the end, its suit appended and indexed under the new suit id |
| Session.Session.CreateTeamFromDefinition | src/Game/Session.cs:165-179 | the team is appended with the definition's name and colour and its suit is appended to the unlockables; the first registered team of that name (ignoring case) takes the definition's roster, and every earlier definition of another name keeps the roster `RostersFrom` gives it |
| Session.Session.OnNetworkSpawn | src/Game/Session.cs:128-145 | the configuration is published before the settings handler is subscribed, so the only event is `OnSessionStarted`; one team per default definition is appended after the existing ones, each fresh with that definition's name and colour; their suits are appended to the unlockables in order, and each definition's name, ignoring case, is first held by a team carrying the roster of the last definition of that name |
| Session.Session.CreateDefaultTeams | src/Game/Session.cs:134-136 | one fresh team per definition is appended in order, each with that definition's name and colour; the teams before it are kept; the unlockables gain the definitions' suits in order; rosters are as `RostersFrom` states (a later definition of the same name, ignoring case, overwrites the roster of the first team of that name) |
| Session.LastRosterIsLast | src/Game/Session.cs:134-136 | the roster a name ends up with is `None` exactly when no definition carries that name (ignoring case), and otherwise that of the last definition that does |
| Session.RostersStep | src/Game/Session.cs:165-179 | one more definition keeps `RostersFrom`: a same-named team's roster is overwritten, every other name keeps the roster it had |
| Session.DefinitionSuitsAppend | src/Game/Session.cs:134-136 | the suits of one more definition are the earlier suits followed by that definition's suit |
| Session.Session.OnPlayerJoined | src/Game/Session.cs:195-207 | the player's reference becomes the roster team or else the first smallest team; with no teams nothing changes; the membership invariant is preserved |
| Session.Session.SituationOf | src/Game/Session.cs:334-356 | the situation carries the session's round flag, friendly-fire and safe-radius settings and both players' teams |
| Session.Session.CanDamage | src/Game/Session.cs:405-420 | the verdict of the session's chain on the hit; with the installed chain, allowed iff a round is active, the teams differ or friendly fire is on, and nobody is inside a positive safe radius |
| LegacySession.DefaultTeamsWithinBounds | Game/Session.cs:77-82 | check of the constants: the two teams spawning creates lie within [MinTeams, MaxTeams] = [2, 6] |
| LegacySession.StartStep | Game/Session.cs:178-197 | starting while a round is active does nothing; otherwise the round number goes up by one, the round becomes active, and `OnMatchStarted` is raised iff no match was running |
| LegacySession.RoundsShape | Game/Session.cs:178-210 | a run of rounds logs a start then an end per round and neither match event |
| LegacySession.MatchRunsFrom | Game/Session.cs:178-223 | from the state before round `k` of a match the remaining rounds run to `OnMatchEnded` and the pre-game round number |
| LegacySession.WholeMatch | Game/Session.cs:178-223 | a whole match raises `OnMatchStarted` exactly once and first, a start and an end per round, then `OnMatchEnded`, and returns to the pre-game state |
| LegacySession.LegacySession.constructor | Game/Session.cs:118-126 | a new session has default settings, no match, no active round, empty registries without a suit index, and the chain of the three predicates |
| LegacySession.LegacySession.StartRound | Game/Session.cs:178-197 | the lifecycle moves as `StartStep` says; a started round zeroes every team's round score and keeps totals and credits |
| LegacySession.LegacySession.EndMatch | Game/Session.cs:212-223 | `OnMatchEnded` is raised, every total score is zeroed, round scores and credits are kept, and the round number is -1 |
| LegacySession.LegacySession.EndRound | Game/Session.cs:199-210 | nothing while no round is active; otherwise the round ends, and after the last round only the total scores are reset |
| LegacySession.LegacySession.SyncSettings | Game/Session.cs:251-254 | the configuration is published |
| LegacySession.LegacySession.CreateTeamServerRpc | Game/Session.cs:160-169 | a new team with the name and colour, no members and zero scores is registered at the end; there is no suit index to update |
| LegacySession.LegacySession.OnNetworkSpawn | Game/Session.cs:137-149 | the configuration is published, "Hoarding bugs" (orange) and "Manticoils" (green) are appended after the existing teams, and `OnSessionStarted` is raised |
| LegacySession.LegacySession.OnPlayerJoined | Game/Session.cs:171-176 | the player's reference becomes the first smallest team; with no teams nothing changes (the source throws); the membership invariant is preserved |
| LegacySession.LegacySession.CanDamage | Game/Session.cs:256-275 | the verdict of the chain over the older session's state; with the installed chain, allowed iff a round is active, the teams differ or friendly fire is on, and nobody is inside a positive safe radius |
| Commands.FirstFailure | src/TerminalCommands.cs:192-207 | no reply iff every check passes; otherwise the message of a failing check all of whose predecessors pass |
| Commands.FailingGuardDecides | src/TerminalCommands.cs:192-207 | a failing check whose predecessors all pass decides the reply; later checks are not consulted |
| Commands.RoundActiveComesFirst | src/TerminalCommands.cs:193 | while a round is active every mutating command replies with the round message, whatever else holds |
| Commands.PermissionComesSecond | src/TerminalCommands.cs:194 | outside a round a refused permission wins over every later check |
| Commands.CreateTeamOrder | src/TerminalCommands.cs:192-211 | `create-team` replies round, permission, maximum teams, existing name, name too long (over 128 UTF-16 units), in that order, and creates only when all pass |
| Commands.DeleteTeamOrder | src/TerminalCommands.cs:217-235 | `delete-team` replies round, permission, minimum teams, unknown team, remaining members, in that order, and deletes only when all pass |
| Commands.RenameOrder | src/TerminalCommands.cs:274-294 | `set-team-name` replies round, permission, no team, existing name, name too long (over 64 UTF-16 units), in that order, and renames only when all pass |
| Commands.WideNameTooLong | src/TerminalCommands.cs:288 | a name of 33 characters beyond the Basic Multilingual Plane is within 64 characters yet over the 64-unit limit |
| Commands.ColorNameOrderComplete | CompetitiveCompany/src/Util/ColorUtil.cs:10-19 | check of the constant list: the listed colour names are exactly the colour table's eight names |
| Commands.JoinStrings | src/TerminalCommands.cs:262 | joining nothing gives the empty text and joining one item gives that item |
| Commands.ColorOrder | src/TerminalCommands.cs:249-268 | `set-team-color` replies round, permission, no team, invalid colour, in that order, and sets the colour iff all pass |
| Commands.SpanOf | src/TerminalCommands.cs:41-43 | the hours component is below 24 and the minutes below 60 |
| Commands.SpanRecomposes | src/TerminalCommands.cs:41-43 | hours and minutes give back the span modulo one day |
| Commands.TwoDigits | src/TerminalCommands.cs:53 | the `D2` format: exactly two decimal digits that read back as the number |
| Commands.TimeSpanOmitsZeroMinutes | src/TerminalCommands.cs:41-44 | the minutes are left out exactly when they are 0: the text ends in 'h' then, and is the hours and 'h' |
| Commands.TwelveHour | src/TerminalCommands.cs:49-50 | the 12-hour dial shows 1 to 12 and agrees with the hour modulo 12 |
| Commands.TimeOfDayReadsBack | src/TerminalCommands.cs:46-54 | the time of day ends in AM exactly for hours below 12 and PM otherwise; the two digits after the colon are the minutes; the dial hour with the AM/PM mark reads back to the 24-hour hour |
| Commands.SplitPoints | src/TerminalCommands.cs:95-100 | the break points end with the input's length and the others are indices inside the input |
| Commands.SplitPointsAreSpaces | src/TerminalCommands.cs:95-100 | every break point but the last is the index of a space |
| Commands.SplitPointsIncrease | src/TerminalCommands.cs:95-100 | the break points go strictly left to right |
| Commands.SplitPointsCoverSpaces | src/TerminalCommands.cs:95-100 | every space of the input is a break point |
| Commands.Attempts | src/TerminalCommands.cs:106-123 | one attempt per break point: the team named by the text before it and, except at the end, the player named by the text after the space, both matched ignoring case |
| Commands.FirstWorkingSplit | src/TerminalCommands.cs:106-123 | the first break point, not the last, with a team before it and a player after it; none iff there is no such break point |
| Commands.ResolveInRange | src/TerminalCommands.cs:106-123 | what the search settles on comes from one of the attempts |
| Commands.SearchInRange | src/TerminalCommands.cs:106-123 | a successful search names a team and, if any, a player that are in the lists |
| Commands.ResolveFindsFirstWorkingSplit | src/TerminalCommands.cs:106-123 | the search ends on a named player iff some break point has a team before and a player after it, and then on the first such break point with its team, player and name |
| Commands.ResolveFallsBackToWholeInput | src/TerminalCommands.cs:112-116 | without a working break point the whole input is tried as a team for the local player, and the search finds nothing iff that fails |
| Commands.ResolveKeepsName | src/TerminalCommands.cs:119-127 | once a player name was tried a failed search reports a name |
| Commands.ResolveReportsTriedName | src/TerminalCommands.cs:119-128 | a failed search reports a player name iff some break point other than the last had a team before it |
| Commands.CreateTeam | src/TerminalCommands.cs:192-211 | replies as the checks decide, the length check counting UTF-16 units; on a failed check nothing changes; when all pass exactly one team with that name and colour is appended; a team count within [2, 6] stays within it |
| Commands.DeleteTeam | src/TerminalCommands.cs:217-235 | replies as the checks decide; on a failed check the registry is unchanged; when all pass the first team of that name, ignoring case, is unregistered; a team count within [2, 6] stays within it |
| Commands.RenameCommand | src/TerminalCommands.cs:274-294 | replies as the checks decide, the length check counting UTF-16 units; when all pass the local player's team takes the new name and its suit is renamed; otherwise nothing changes |
| Commands.ColorCommand | src/TerminalCommands.cs:249-268 | replies with the first failing check and keeps the colour, or sets the parsed colour and replies with the input or its hex rendering |
| Commands.Usernames | src/TerminalCommands.cs:118 | the players' usernames in registration order |
| Commands.ServerSearch | src/TerminalCommands.cs:95-123 | a found team and player are indices into the session's lists |
| Commands.SearchJoin | src/TerminalCommands.cs:106-123 | the search loop settles exactly as `Resolve` describes over the attempts |
| Commands.Settle | src/TerminalCommands.cs:125-140 | no team or player: "not found" reply naming the last tried player, nothing changes; already in the team: the already-in reply, nothing changes; otherwise the player is moved and gets the joined reply; the membership invariant is preserved |
| Commands.JoinServer | src/TerminalCommands.cs:80-141 | the search result and reply are those of the state before; a found player is moved to the team unless already in it; the membership invariant is preserved |
| Commands.JoinClient | src/TerminalCommands.cs:143-155 | the whole input names a team, ignoring case; the local player's reference becomes that team unless it was already in it or none was found; the membership invariant is preserved |
| Commands.JoinCommand | src/TerminalCommands.cs:71-78 | round and permission checks come first and change nothing; otherwise the reply is the server or the client join's; the membership invariant is preserved |
| Commands.Teamed | src/TerminalCommands.cs:172 | one flag per player, set iff the player is in a team |
| Commands.Refs | src/TerminalCommands.cs:171-183 | the players' team references in registration order |
| Commands.MoveTo | src/TerminalCommands.cs:181 | a dealt player holds a reference to its team, a skipped one keeps its own, and no other player changes; the membership invariant is preserved |
| Commands.DealOne | src/TerminalCommands.cs:172-182 | one turn moves the deal one step further, as `Scramble.Dealt` describes; the membership invariant is preserved |
| Commands.DealTeams | src/TerminalCommands.cs:171-183 | the counts and every player's new reference are those of `Scramble.Dealt` from zero counts; the membership invariant is preserved |
| Commands.ScrambleTeams | src/TerminalCommands.cs:162-186 | round and host checks first, changing nothing; otherwise the deal as `DealTeams` states and "Teams scrambled!" |
| LegacyCommands.SpectateCommand | TerminalCommands.cs:24-28 | the reply is always "You are now spectating."; a player already spectating keeps its team; otherwise it spectates with no team; the membership invariant is preserved |
| LegacyCommands.JoinOrder | TerminalCommands.cs:34-48 | `join` replies round, permission, unknown team, already in the team (the typed name compared exactly), in that order, and otherwise "Joined team" with the found team's name |
| LegacyCommands.TeamName | TerminalCommands.cs:42 | a name exactly when there is a team |
| LegacyCommands.OwnTeamRejoined | TerminalCommands.cs:38-47 | asking to join one's own team is refused only when the typed name equals the team's name exactly; in another case it is answered as a join |
| LegacyCommands.JoinCommand | TerminalCommands.cs:34-48 | replies as the checks decide; on a failed check the player keeps its team; when all pass its reference becomes the team the lookup found; the membership invariant is preserved |
| LegacyCommands.CreateTeam | TerminalCommands.cs:54-73 | replies as the checks decide, with the older session's maximum of 6 and the length check counting UTF-16 units; when all pass exactly one team with that name and colour is appended; a team count within [2, 6] stays within it |
| LegacyCommands.DeleteTeam | TerminalCommands.cs:79-97 | replies as the checks decide, with the older session's minimum of 2; when all pass the first team of that name, ignoring case, is unregistered; a team count within [2, 6] stays within it |
| LegacyCommands.RenameCommand | TerminalCommands.cs:157-177 | replies as the checks decide, the length check counting UTF-16 units; when all pass the local player's team takes the new name; otherwise the name is kept |
| LegacyCommands.ColorRepliesDiffer | TerminalCommands.cs:127 | the older confirmation puts the bare hex rendering in the colour tag; it differs from the newer one exactly when the newer tag (the input if it starts with '#', else '#' and the hex) is not that hex |
| LegacyCommands.SplicesDiffer | TerminalCommands.cs:127 | two replies that differ only in their middle parts differ when those parts do |
| LegacyCommands.EntryTexts | TerminalCommands.cs:122 | one text per colour-table entry |
| LegacyCommands.EntryTextsShowPairs | TerminalCommands.cs:122 | each entry shows as "[name, colour]", in the table's order |
| LegacyCommands.InvalidColorRepliesDiffer | TerminalCommands.cs:122 | the older invalid-colour reply lists the table's entries, so it opens its list with '[' where the newer one opens with "red": the two replies differ |
| LegacyCommands.LegacyColorOrder | TerminalCommands.cs:111-128 | the older `set-team-color` replies round, permission, no team, invalid colour (the older list), in that order, and sets the colour iff all pass |
| LegacyCommands.ColorCommand | TerminalCommands.cs:111-128 | replies with the first failing check and keeps the colour, or sets the parsed colour and replies with the bare hex rendering in the tag |

## Left out

- Teams.Team.AddScore: scores are unbounded integers. The source's 32-bit `int` wrap-around on overflow is not modelled.
- Session.Session.OnSettingsChanged: the closing `TimeOfDay.Instance.UpdateProfitQuotaCurrentTime()` call is omitted, because the game clock is not part of this model.
- Floating-point arithmetic and `Vector3` distances: distances and the scrap values are inputs.
- `ColorUtility.TryParseHtmlString`, `ColorUtility.ToHtmlStringRGB`, `Color.ToString` and `Random.ColorHSV`: engine code, taken as function or colour parameters.
- Netcode for GameObjects itself: message ordering, late delivery, `RequireOwnership` and client/server split beyond the flags above.
- The user interface: HUD elements, suit materials, nameplate billboards, and the bodies of the Harmony patches that call into the session.
- `ListTeams` in both command files: it only joins the lines of the team table (width 51, coloured) with newlines. The table is modelled by `TeamTable`.
- The `settings` command and its `FormatBool` helper: they format the synced settings as text and change nothing.
- `FormatTimeOfDay`: the conversion from fractional hours is modelled on whole minutes, so rounding of a fraction of a minute is not modelled.
- Reading and JSON-deserialising the roster file: the model receives the parsed definitions.
- Coroutines: `InitializeNextFrame` is a method of its own. Which other steps run in the frame between spawning and it is up to the caller.
- The distribution of `Random.Range`: only which indices can be drawn is modelled.
- Case folding of non-ASCII letters, and the 128-byte truncation of `FixedString128Bytes` names.
- Game/Player.cs is not part of this model. The older `spectate` and `join` commands act through the newer `Player` model.
- src/Game/Team.cs and CompetitiveCompany/src/Game/Session.cs are not part of this model. The newest `Team` and the `src` session stand in for them.
- Exceptions as values: where `GetSmallest` throws for want of teams, the model stops the operation and keeps the effects made before the throw. No exception is raised to the caller.
- LegacyCommands.SpectateCommand: requires that the local player owns itself, which `Player.Local` always does.
