/** The plugin's identity and version constants (ValheimPlusPlugin's static fields). */
module PluginInfo {
  import opened Options
  import SystemVersion

  /** The version used wherever System.Version parsing is required. */
  const NumericVersion: string := "0.9.9.16"

  /** Suffix for pre-release builds; empty for a stable release. */
  const VersionExtra: string := "-dev"

  /** The version shown in logs and used for config file lookup. */
  const FullVersion: string := NumericVersion + VersionExtra

  /** The oldest peer version that is fully compatible. */
  const MinRequiredNumericVersion: string := NumericVersion

  /** The BepInEx plugin GUID, also the identity of the compatibility record. */
  const ModGUID: string := "org.bepinex.plugins.valheim_plus"

  const ModDisplayName: string := "Valheim Plus"

  /** NumericVersion as System.Version holds it. */
  const CurrentVersion: SystemVersion.Version := SystemVersion.Version(0, 9, Some(9), Some(16))

  /** The running version string parses, so the numeric branch of the update check is reachable. */
  lemma CurrentVersionParses()
    ensures SystemVersion.TryParse(NumericVersion) == Some(CurrentVersion)
  {
    SystemVersion.FormatThenParse(CurrentVersion);
    assert SystemVersion.NatToDigits(16) == "16";
    assert SystemVersion.Format(CurrentVersion) == NumericVersion;
  }
}
