/**
 What PatchAll and Awake do, as ordered lists of abstract steps. Harmony is
 not modelled: a patch is a token naming which patch is applied. The loaded
 assembly names, the server role, the configuration load result and the
 release-API download are inputs.
 */
module Boot {
  import opened Options
  import Strings
  import UpdateCheck
  import Enforcement
  import PluginInfo

  /** The substring that marks the optional Steamworks assembly among the loaded ones. */
  const SteamworksAssembly: string := "assembly_steamworks"

  /** Patches applied by PatchAll. */
  datatype HarmonyPatch =
    | Annotations            // harmony.PatchAll(): every annotated patch class
    | CreateLobbyTranspiler  // ZPlayFabMatchmaking.CreateLobby, applied after the annotations
    | SteamPrefix            // SteamGameServer.SetMaxPlayerCount, only with Steamworks loaded

  /** Steps of Awake after the configuration has loaded. */
  datatype BootStep =
    | PatchAll
    | CheckVersion
    | EnsureDataDirectory
    | LoadMainMenu
    | LoadSettingsMenu
    | AttachMapSync

  /** The three configuration values the core reads. */
  datatype Settings = Settings(enforceMod: bool, mapIsEnabled: bool, shareMapProgression: bool)

  /** What the running game provides. */
  datatype Host = Host(isServer: bool, assemblies: seq<string>, versionReply: UpdateCheck.Download)

  /** The plugin's static state that the core changes. */
  datatype Plugin = Plugin(
    patches: seq<HarmonyPatch>,
    enforcement: Enforcement.State,
    newestVersion: string,
    isUpToDate: bool)

  /** Awake's trace and the state it leaves. */
  datatype BootResult = BootResult(steps: seq<BootStep>, plugin: Plugin)

  /** The static initialisers, with whatever other mods have already registered. */
  function InitialPlugin(registry: seq<Enforcement.VersionCheck>): Plugin
  {
    Plugin([], Enforcement.State(false, registry), "", false)
  }

  // ---------------------------------------------------------------- PatchAll

  /** Some loaded assembly's full name contains the Steamworks marker. */
  ghost predicate SteamworksLoaded(assemblies: seq<string>)
  {
    exists i, j :: 0 <= i < |assemblies| && Strings.OccursAt(assemblies[i], SteamworksAssembly, j)
  }

  /** AppDomain.GetAssemblies().Any(a => a.FullName.Contains(marker)). */
  function AnyContains(assemblies: seq<string>, marker: string): (b: bool)
    ensures b <==> exists i, j :: 0 <= i < |assemblies| && Strings.OccursAt(assemblies[i], marker, j)
    decreases |assemblies|
  {
    if |assemblies| == 0 then false
    else if Strings.Contains(assemblies[0], marker) then true
    else
      var b := AnyContains(assemblies[1..], marker);
      assert forall i, j :: 1 <= i < |assemblies| ==>
        (Strings.OccursAt(assemblies[i], marker, j) <==> Strings.OccursAt(assemblies[1..][i - 1], marker, j));
      b
  }

  /**
   The Harmony patches PatchAll applies, in order: the annotated patches,
   then the lobby transpiler, then the Steam prefix only when Steamworks is loaded.
   */
  function PatchPlan(assemblies: seq<string>): (plan: seq<HarmonyPatch>)
    ensures |plan| >= 2 && plan[0] == Annotations && plan[1] == CreateLobbyTranspiler
    ensures SteamPrefix in plan <==> SteamworksLoaded(assemblies)
    ensures |plan| == if SteamworksLoaded(assemblies) then 3 else 2
  {
    [Annotations, CreateLobbyTranspiler]
    + (if AnyContains(assemblies, SteamworksAssembly) then [SteamPrefix] else [])
  }

  /**
   PatchAll: apply the patch plan, then run the enforcement block. The registry
   is left alone when the flag already matches, gains exactly the plugin's record
   on an install, and keeps every other mod's records as often as they occurred.
   */
  function PatchAllOnce(assemblies: seq<string>, enforceMod: bool, p: Plugin): (q: Plugin)
    ensures q.patches == p.patches + PatchPlan(assemblies)
    ensures q.enforcement.versionCheckExists == enforceMod
    ensures enforceMod == p.enforcement.versionCheckExists ==> q.enforcement == p.enforcement
    ensures enforceMod && !p.enforcement.versionCheckExists ==>
      q.enforcement.registry == p.enforcement.registry + [Enforcement.PluginVersionCheck]
    ensures !enforceMod && p.enforcement.versionCheckExists ==>
      Enforcement.CountNamed(q.enforcement.registry, PluginInfo.ModGUID) == 0
    ensures forall x: Enforcement.VersionCheck :: x.name != PluginInfo.ModGUID ==>
      multiset(q.enforcement.registry)[x] == multiset(p.enforcement.registry)[x]
    ensures Enforcement.Consistent(p.enforcement) ==> Enforcement.Consistent(q.enforcement)
    ensures q.newestVersion == p.newestVersion && q.isUpToDate == p.isUpToDate
  {
    Enforcement.ApplyKeepsConsistency(p.enforcement, enforceMod);
    p.(patches := p.patches + PatchPlan(assemblies), enforcement := Enforcement.ApplyEnforcement(p.enforcement, enforceMod))
  }

  // ---------------------------------------------------------------- Awake

  /** The order in which Awake performs its steps. */
  function Rank(step: BootStep): nat
  {
    match step
    case PatchAll => 0
    case CheckVersion => 1
    case EnsureDataDirectory => 2
    case LoadMainMenu => 3
    case LoadSettingsMenu => 4
    case AttachMapSync => 5
  }

  /** The map-sync save handler is attached only on a server with map sharing switched on. */
  predicate MapSyncWanted(settings: Settings, host: Host)
  {
    host.isServer && settings.mapIsEnabled && settings.shareMapProgression
  }

  /**
   The steps of a successful start, each once and in rank order; the map-sync
   handler is attached last, and only when `mapSync` holds.
   */
  function StartupSteps(mapSync: bool): (steps: seq<BootStep>)
    ensures forall i :: 0 <= i < |steps| ==> Rank(steps[i]) == i
    ensures forall step :: step in steps <==> (step == AttachMapSync ==> mapSync)
  {
    var steps := [PatchAll, CheckVersion, EnsureDataDirectory, LoadMainMenu, LoadSettingsMenu]
      + (if mapSync then [AttachMapSync] else []);
    assert |steps| == if mapSync then 6 else 5;
    forall step ensures step in steps <==> (step == AttachMapSync ==> mapSync) {
      if Rank(step) < |steps| {
        assert steps[Rank(step)] == step;
      }
    }
    steps
  }

  /**
   Awake: nothing after a failed configuration load; otherwise every step once,
   in order, with the map-sync handler attached only when wanted.
   */
  function Awake(config: Option<Settings>, host: Host, p: Plugin): (r: BootResult)
    ensures config.None? ==> r.steps == [] && r.plugin == p
    ensures forall i, j :: 0 <= i < j < |r.steps| ==> Rank(r.steps[i]) < Rank(r.steps[j])
    ensures forall step :: step in r.steps <==>
      config.Some? && (step == AttachMapSync ==> MapSyncWanted(config.value, host))
    ensures config.Some? ==>
      && r.plugin.enforcement.versionCheckExists == config.value.enforceMod
      && r.plugin.patches == p.patches + PatchPlan(host.assemblies)
    ensures config.Some? && config.value.enforceMod == p.enforcement.versionCheckExists ==>
      r.plugin.enforcement == p.enforcement
    ensures config.Some? && config.value.enforceMod && !p.enforcement.versionCheckExists ==>
      r.plugin.enforcement.registry == p.enforcement.registry + [Enforcement.PluginVersionCheck]
    ensures config.Some? && !config.value.enforceMod && p.enforcement.versionCheckExists ==>
      Enforcement.CountNamed(r.plugin.enforcement.registry, PluginInfo.ModGUID) == 0
    ensures forall x: Enforcement.VersionCheck :: x.name != PluginInfo.ModGUID ==>
      multiset(r.plugin.enforcement.registry)[x] == multiset(p.enforcement.registry)[x]
    ensures config.Some? ==>
      var status := UpdateCheck.IsNewVersionAvailable(host.versionReply);
      r.plugin.newestVersion == status.newestVersion && r.plugin.isUpToDate == !status.updateAvailable
    ensures Enforcement.Consistent(p.enforcement) ==> Enforcement.Consistent(r.plugin.enforcement)
  {
    match config
    case None => BootResult([], p)
    case Some(settings) =>
      var patched := PatchAllOnce(host.assemblies, settings.enforceMod, p);
      var status := UpdateCheck.IsNewVersionAvailable(host.versionReply);
      var checked := patched.(newestVersion := status.newestVersion, isUpToDate := !status.updateAvailable);
      BootResult(StartupSteps(MapSyncWanted(settings, host)), checked)
  }

  // ---------------------------------------------------------------- consequences

  /**
   From the static initialisers, with no record of this mod registered yet,
   Awake leaves exactly one record of it when enforcement is on and none otherwise.
   */
  lemma AwakeRegistersAtMostOnce(registry: seq<Enforcement.VersionCheck>, config: Option<Settings>, host: Host)
    requires Enforcement.CountNamed(registry, Enforcement.PluginVersionCheck.name) == 0
    ensures var r := Awake(config, host, InitialPlugin(registry));
      Enforcement.CountNamed(r.plugin.enforcement.registry, Enforcement.PluginVersionCheck.name)
        == if config.Some? && config.value.enforceMod then 1 else 0
  {
  }

  /** When the release API cannot be reached, a loaded plugin reports itself out of date. */
  lemma UnreachableApiMeansOutdated(settings: Settings, host: Host, p: Plugin)
    requires host.versionReply.Threw?
    ensures var r := Awake(Some(settings), host, p);
      r.plugin.newestVersion == UpdateCheck.UnknownVersion && !r.plugin.isUpToDate
  {
    UpdateCheck.FailedDownloadReportsUpdate();
  }
}
