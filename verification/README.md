# ValheimPlus bootstrap core, modelled in Dafny

This project models the logic in `ValheimPlusPlugin`, the BepInEx entry point of the
ValheimPlus mod for Valheim. That logic is the update check, the mod-enforcement
switch and the order in which the plugin starts up. Each piece is a pure function
over immutable data. The verified properties are written as postconditions and lemmas.

- `strings.dfy`: `Options.Option` and ordinal string operations. The plugin itself
  calls only `String.Contains`, at line 186. `IndexOf` is the scan used here to give the
  regex at line 136 its leftmost-match meaning. `Split` on '.' is the step inside the
  runtime's `Version.TryParse`, and `Join` is its inverse.
- `system_version.dfy`: the part of .NET `System.Version` used by the update check.
  `TryParse` accepts 2 to 4 dot-separated Int32 components. `CompareTo` and `<` order
  Major, Minor, Build and Revision lexicographically. An absent Build or Revision is
  stored as -1, so it sorts below any present value.
- `plugin_info.dfy`: the plugin's static constants (`PluginInfo`): its GUID, display
  name and version strings, and the running version as `System.Version` holds it.
- `update_check.dfy`: `IsNewVersionAvailable` (`UpdateCheck`). The download is an
  input: either it threw, or it returned a reply body. The tag is the group of the
  regex `"tag_name":"([^"]*)?"`, and `MatchesAt` and `LeftmostMatch` give that regex's
  leftmost-match meaning. If the tag and the running
  version `0.9.9.16` both parse, they are compared as versions. Otherwise the result
  is literal string inequality.
- `enforcement.dfy`: the enforcement block at the end of `PatchAll`. Its state is the
  guard flag `versionCheckExists` and ServerSync's registry of `VersionCheck`
  records. Installing appends the plugin's record. Removing deletes every record
  named with the plugin's GUID.
- `boot.dfy`: `PatchAll` and `Awake` as ordered lists of abstract steps. The inputs
  are the configuration load result, the server role, the loaded assembly names and
  the release-API download.

Behaviour of the code worth knowing:

- When the download throws, `newestVersion` becomes `"Unknown"`. That string does not
  parse and differs from `"0.9.9.16"`, so the function returns true: a failed check
  reports an update.
- Removing the enforcement record reads ServerSync's private static `versionChecks`
  field by reflection. If that field were null, the code would throw. The model's
  registry is always present.
- Registration is a side effect of constructing a ServerSync `VersionCheck`: line 197
  discards the new object. The ServerSync constructor is not part of this model, so
  the model assumes that constructing the object adds it to the shared registry.

## Model

| member | source | states |
|---|---|---|
| `Strings.IndexOf` | ValheimPlus/ValheimPlus.cs:136 | the result is the leftmost occurrence at or after the start index, with no occurrence in between; None means there is no occurrence from there on |
| `Strings.Contains` | ValheimPlus/ValheimPlus.cs:186 | ordinal `String.Contains` is true exactly when the substring occurs at some index |
| `Strings.Split` | ValheimPlus/ValheimPlus.cs:145 | the split on '.' inside `Version.TryParse` yields at least one field, no field holds the separator, and joining the fields with it gives the input back |
| `Strings.SplitJoin` | ValheimPlus/ValheimPlus.cs:145 | conversely, splitting fields that were joined, none of which holds the separator, gives those fields back |
| `SystemVersion.TryParse` | ValheimPlus/ValheimPlus.cs:145-147 | `Version.TryParse` succeeds exactly when the dot-separated fields are 2 to 4 valid Int32 components; the version it returns is representable, and its components are the fields' decimal values in order |
| `SystemVersion.NatToDigits` | ValheimPlus/ValheimPlus.cs:145 | the decimal spelling of a component is non-empty, has only digits and no dot, has no leading zero, and reads back as the same number |
| `SystemVersion.FormatThenParse` | ValheimPlus/ValheimPlus.cs:145 | every representable version parses back from its printed form |
| `SystemVersion.ParseIsCanonical` | ValheimPlus/ValheimPlus.cs:145 | a parsed version reparses to itself from its canonical printed form, whatever leading zeros the input had |
| `SystemVersion.NoDotDoesNotParse` | ValheimPlus/ValheimPlus.cs:145 | a string without a dot (such as "Unknown" or "") is rejected by `Version.TryParse` |
| `SystemVersion.CompareTo` | ValheimPlus/ValheimPlus.cs:149 | `CompareTo` on the -1-for-absent representation is negative, zero or positive exactly when the lexicographic Major/Minor/Build/Revision order (absent below present) puts a first, equal or second; the `<` of line 149 is `SystemVersion.Less`, defined as `CompareTo(a, b) < 0` |
| `SystemVersion.LessIsStrictTotalOrder` | ValheimPlus/ValheimPlus.cs:149 | the `<` used by the check is irreflexive, transitive and total on distinct versions |
| `PluginInfo.CurrentVersionParses` | ValheimPlus/ValheimPlus.cs:26 | the running version "0.9.9.16" parses as 0.9.9.16 with Build and Revision present |
| `UpdateCheck.MatchIsDeterministic` | ValheimPlus/ValheimPlus.cs:136 | at a given position the regex group runs to the next quote, so it has only one possible value |
| `UpdateCheck.ExtractTag` | ValheimPlus/ValheimPlus.cs:136 | `Groups[1].Value` is the group of the leftmost match of `"tag_name":"([^"]*)?"`, or "" when the pattern matches nowhere |
| `UpdateCheck.ExtractTagIsLeftmostMatch` | ValheimPlus/ValheimPlus.cs:136 | conversely, the leftmost match determines the extracted tag |
| `UpdateCheck.ExtractFirstTag` | ValheimPlus/ValheimPlus.cs:136 | with two tag entries, the first one is read and it stops at its closing quote |
| `UpdateCheck.IsNewer` | ValheimPlus/ValheimPlus.cs:144-168 | both parse: true exactly when the running version strictly precedes the newest; newest parses but current does not: false; newest does not parse: true exactly when the strings differ |
| `UpdateCheck.IsNewVersionAvailable` | ValheimPlus/ValheimPlus.cs:126-169 | newestVersion is "Unknown" after a failed download and otherwise the extracted tag; the flag is strict version precedence over 0.9.9.16 when the tag parses, and inequality with "0.9.9.16" when it does not |
| `UpdateCheck.SameVersionIsNotAnUpdate` | ValheimPlus/ValheimPlus.cs:145-153 | a tag that parses to the running version gives false |
| `UpdateCheck.FailedDownloadReportsUpdate` | ValheimPlus/ValheimPlus.cs:138-165 | a download that throws gives ("Unknown", true) |
| `UpdateCheck.MissingTagReportsUpdate` | ValheimPlus/ValheimPlus.cs:136-165 | a reply without a matching tag gives ("", true) |
| `UpdateCheck.NewerReleaseExample` | ValheimPlus/ValheimPlus.cs:145-153 | remote 1.2.0 against local 1.1.9 is an update |
| `UpdateCheck.SameReleaseExample` | ValheimPlus/ValheimPlus.cs:145-153 | remote 1.1.9 against local 1.1.9 is not an update |
| `UpdateCheck.AbsentRevisionExample` | ValheimPlus/ValheimPlus.cs:145-153 | 0.9.9 (no Revision) is not newer than 0.9.9.16 |
| `UpdateCheck.NumericComponentExample` | ValheimPlus/ValheimPlus.cs:145-153 | 0.9.10 is newer than 0.9.9.16: components compare as numbers, not text |
| `UpdateCheck.LiteralFallbackExamples` | ValheimPlus/ValheimPlus.cs:159-166 | the unparseable "abc" is an update against "1.1.9", and not against "abc" itself |
| `Enforcement.CountNamed` | ValheimPlus/ValheimPlus.cs:215 | the number of records with a name is at most the registry size, and zero exactly when no record has that name |
| `Enforcement.CountNamedAppend` | ValheimPlus/ValheimPlus.cs:197-203 | appending one record raises the count of its name by one and leaves the other names' counts alone |
| `Enforcement.RemoveNamed` | ValheimPlus/ValheimPlus.cs:215 | `RemoveWhere` leaves no record with the name, keeps only records that were there, and shrinks the registry by the number removed |
| `Enforcement.RemoveNamedKeepsOthers` | ValheimPlus/ValheimPlus.cs:215 | every record with another name keeps its multiplicity |
| `Enforcement.ApplyEnforcement` | ValheimPlus/ValheimPlus.cs:193-217 | afterwards the flag equals enforceMod; a call that does not change the flag changes nothing; installing appends exactly the plugin's record (GUID, "Valheim Plus", 0.9.9.16, 0.9.9.16, required); removing leaves no record with the GUID; other mods' records are untouched |
| `Enforcement.ApplyKeepsConsistency` | ValheimPlus/ValheimPlus.cs:195-217 | if the flag was accurate (one record with the GUID when set, none when clear), it stays accurate |
| `Enforcement.ApplyIsIdempotent` | ValheimPlus/ValheimPlus.cs:195-217 | running the block twice with the same setting equals running it once |
| `Enforcement.ForeignRegistrationKeepsConsistency` | ValheimPlus/ValheimPlus.cs:214-215 | another mod registering a record under another name keeps the flag accurate |
| `Enforcement.RunKeepsConsistency` | ValheimPlus/ValheimPlus.cs:193-217 | after any sequence of runs the flag is accurate and equals the last setting |
| `Enforcement.EnableTwiceRegistersOnce` | ValheimPlus/ValheimPlus.cs:195-205 | starting with no record, enabling twice leaves exactly one record, and the second call changes nothing |
| `Enforcement.RemoveAppendedRecord` | ValheimPlus/ValheimPlus.cs:208-217 | removing the GUID's records right after appending the plugin's record to a registry without any gives back that registry, order included |
| `Enforcement.DisableRestoresRegistry` | ValheimPlus/ValheimPlus.cs:195-217 | enabling and then disabling returns to the starting state exactly |
| `Boot.AnyContains` | ValheimPlus/ValheimPlus.cs:186 | `Any(a => a.FullName.Contains(marker))` is true exactly when some name contains the marker at some index |
| `Boot.PatchPlan` | ValheimPlus/ValheimPlus.cs:175-191 | the annotated patches come first, then the lobby transpiler; the Steam prefix is included exactly when some loaded assembly name contains "assembly_steamworks" |
| `Boot.PatchAllOnce` | ValheimPlus/ValheimPlus.cs:171-218 | the patch plan is appended to the applied patches, the flag ends equal to enforceMod; the registry is unchanged when the flag already matches, gains exactly the plugin's record on an install, and holds no record with the GUID after a removal; every other mod's record keeps its multiplicity; consistency is kept, and the version-check state is untouched |
| `Boot.StartupSteps` | ValheimPlus/ValheimPlus.cs:78-105 | each step appears once, at its position in the startup order; every step is present except the map-sync handler, which is present exactly when wanted |
| `Boot.Awake` | ValheimPlus/ValheimPlus.cs:62-107 | a failed configuration load produces no steps and no state change; otherwise the steps are in order, the map-sync handler is attached exactly when `Boot.MapSyncWanted` holds (server, map enabled and sharing on, line 101), the flag equals enforceMod, the registry changes only as the enforcement block changes it (unchanged when the flag already matches, exactly the plugin's record appended on an install, no GUID record left after a removal, every other mod's record kept with its multiplicity), and isUpToDate is the negated update flag; the starting state `Boot.InitialPlugin` holds the static initialisers of lines 37-38 and 59 |
| `Boot.AwakeRegistersAtMostOnce` | ValheimPlus/ValheimPlus.cs:68-78 | from the initial state with no record of the plugin, Awake leaves one record when the configuration loads with enforceMod on, and none otherwise |
| `Boot.UnreachableApiMeansOutdated` | ValheimPlus/ValheimPlus.cs:80-88 | after a loaded start whose download threw, newestVersion is "Unknown" and isUpToDate is false |

## Left out

- `SystemVersion.TryParse`: components are restricted to decimal digits. `Int32.TryParse` inside `Version.TryParse` also accepts surrounding whitespace and a leading sign (so " 1.2" and "+1.2" parse in the runtime but not here).
- Harmony internals (`harmony.PatchAll`, `harmony.Patch`, the reflection lookups at lines 181-190, and `UnpatchSelf` at lines 220-223): these are a foreign library that rewrites bytecode at run time. Patches are modelled as tokens, and reverting them is not modelled.
- `getCurrentWebIniFile` (lines 109-124) and the `WebClient` calls: network I/O. The release-API download is an input value, and the config-file download is not used by the core.
- Reflection into ServerSync's private `versionChecks` field (lines 210-214): replaced by removal from an explicit registry. The exception a null field would raise is not modelled.
- The map-sync `System.Timers.Timer` (lines 41-42, 103-104): this file sets `AutoReset` and subscribes `Elapsed` but never starts the timer. Only the attachment is modelled, as the `AttachMapSync` step, with no ticks and no saves.
- Directory creation, main-menu and settings UI loading, logging and BepInEx paths (lines 44-45, 64-66, 91, 96-98): filesystem and UI plumbing, present only as step tokens.
- Strings are sequences of Unicode scalar values rather than UTF-16 code units. No operation modelled here depends on the difference.
- `Boot.Awake`: assumes `PatchAll` returns normally. In the runtime an exception can escape it: from Harmony (lines 175, 181-190), from `AccessTools.TypeByName("SteamGameServer")` returning null when a Steamworks assembly is loaded (line 189), or from `.First(...)` finding no `versionChecks` field (line 212). Such an exception skips the rest of the enforcement block, or leaves it before `versionCheckExists = false`, and also skips everything at lines 80-105. So Awake's promises about the flag, isUpToDate and the later steps hold only when `PatchAll` completes. The model also assumes that `Directory.CreateDirectory` (line 91), `VPlusMainMenu.Load()` (line 96) and `VPlusSettings.Load()` (line 98) return normally. In the runtime each can throw, for example `CreateDirectory` when a plain file already sits at the data path. A throw there ends Awake with `newestVersion` and `isUpToDate` already set (line 80), but every later step is skipped, including attaching the map-sync handler at lines 101-105. So the step trace and the `AttachMapSync` promise hold only when those three calls complete.
- That `Awake` runs once per process is a property of the host. The model does not enforce it.
