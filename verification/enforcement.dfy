/**
 The mod-enforcement block at the end of PatchAll. The plugin keeps a guard
 flag, versionCheckExists, next to ServerSync's process-wide registry of
 VersionCheck records. When enforceMod is on and the flag is off, it registers
 one record for itself; when enforceMod is off and the flag is on, it removes
 every record carrying its GUID.

 The registry is a reference-identity HashSet in the runtime, so equal records
 can sit in it side by side; it is modelled as a sequence and compared by
 multiset. Registration appends: in the runtime it is a side effect of the
 ServerSync VersionCheck constructor, which is not part of this model.
 */
module Enforcement {
  import PluginInfo

  /** A ServerSync VersionCheck record. */
  datatype VersionCheck = VersionCheck(
    name: string,
    displayName: string,
    currentVersion: string,
    minimumRequiredVersion: string,
    modRequired: bool)

  /** The guard flag and the shared registry it guards. */
  datatype State = State(versionCheckExists: bool, registry: seq<VersionCheck>)

  /** The record the plugin registers for itself. */
  const PluginVersionCheck: VersionCheck := VersionCheck(
    PluginInfo.ModGUID,
    PluginInfo.ModDisplayName,
    PluginInfo.NumericVersion,
    PluginInfo.MinRequiredNumericVersion,
    true)

  /** Number of records in `registry` whose Name is `name`. */
  function CountNamed(registry: seq<VersionCheck>, name: string): (c: nat)
    ensures c <= |registry|
    ensures c == 0 <==> forall i :: 0 <= i < |registry| ==> registry[i].name != name
    decreases |registry|
  {
    if |registry| == 0 then 0
    else (if registry[0].name == name then 1 else 0) + CountNamed(registry[1..], name)
  }

  lemma {:induction false} CountNamedAppend(registry: seq<VersionCheck>, x: VersionCheck, name: string)
    ensures CountNamed(registry + [x], name) == CountNamed(registry, name) + (if x.name == name then 1 else 0)
    decreases |registry|
  {
    if |registry| > 0 {
      assert (registry + [x])[1..] == registry[1..] + [x];
      CountNamedAppend(registry[1..], x, name);
    }
  }

  /** HashSet.RemoveWhere(v => v.Name == name), keeping the order of what stays. */
  function RemoveNamed(registry: seq<VersionCheck>, name: string): (r: seq<VersionCheck>)
    ensures forall i :: 0 <= i < |r| ==> r[i].name != name && r[i] in registry
    ensures |r| == |registry| - CountNamed(registry, name)
    decreases |registry|
  {
    if |registry| == 0 then []
    else
      var rest := RemoveNamed(registry[1..], name);
      if registry[0].name == name then rest else [registry[0]] + rest
  }

  /** RemoveWhere keeps every record with another name, as often as it occurred. */
  lemma {:induction false} RemoveNamedKeepsOthers(registry: seq<VersionCheck>, name: string, x: VersionCheck)
    requires x.name != name
    ensures multiset(RemoveNamed(registry, name))[x] == multiset(registry)[x]
    decreases |registry|
  {
    if |registry| > 0 {
      RemoveNamedKeepsOthers(registry[1..], name, x);
      assert registry == [registry[0]] + registry[1..];
    }
  }

  /**
   The enforcement block of PatchAll: afterwards the flag equals enforceMod,
   the plugin's record is added once or every record with its GUID is gone,
   and the records of other mods are untouched.
   */
  function ApplyEnforcement(s: State, enforceMod: bool): (t: State)
    ensures t.versionCheckExists == enforceMod
    ensures enforceMod == s.versionCheckExists ==> t == s
    ensures enforceMod && !s.versionCheckExists ==> t.registry == s.registry + [PluginVersionCheck]
    ensures !enforceMod && s.versionCheckExists ==>
      && CountNamed(t.registry, PluginInfo.ModGUID) == 0
      && |t.registry| == |s.registry| - CountNamed(s.registry, PluginInfo.ModGUID)
    ensures forall x: VersionCheck :: x.name != PluginInfo.ModGUID ==> multiset(t.registry)[x] == multiset(s.registry)[x]
  {
    if enforceMod && !s.versionCheckExists then
      State(true, s.registry + [PluginVersionCheck])
    else if !enforceMod && s.versionCheckExists then
      var r := RemoveNamed(s.registry, PluginInfo.ModGUID);
      assert forall x: VersionCheck :: x.name != PluginInfo.ModGUID ==> multiset(r)[x] == multiset(s.registry)[x] by {
        forall x: VersionCheck | x.name != PluginInfo.ModGUID
          ensures multiset(r)[x] == multiset(s.registry)[x]
        {
          RemoveNamedKeepsOthers(s.registry, PluginInfo.ModGUID, x);
        }
      }
      State(false, r)
    else
      s
  }

  /** The flag is accurate: one record with the plugin's GUID when set, none when clear. */
  predicate Consistent(s: State)
  {
    CountNamed(s.registry, PluginInfo.ModGUID) == if s.versionCheckExists then 1 else 0
  }

  /** The enforcement block keeps the flag accurate. */
  lemma ApplyKeepsConsistency(s: State, enforceMod: bool)
    ensures Consistent(s) ==> Consistent(ApplyEnforcement(s, enforceMod))
  {
    if Consistent(s) && enforceMod && !s.versionCheckExists {
      CountNamedAppend(s.registry, PluginVersionCheck, PluginInfo.ModGUID);
    }
  }

  /** Running the block twice with the same setting is the same as running it once. */
  lemma ApplyIsIdempotent(s: State, enforceMod: bool)
    ensures ApplyEnforcement(ApplyEnforcement(s, enforceMod), enforceMod) == ApplyEnforcement(s, enforceMod)
  {
  }

  /** Another mod registering its own record does not disturb the flag's accuracy. */
  lemma ForeignRegistrationKeepsConsistency(s: State, other: VersionCheck)
    requires Consistent(s)
    requires other.name != PluginInfo.ModGUID
    ensures Consistent(State(s.versionCheckExists, s.registry + [other]))
  {
    CountNamedAppend(s.registry, other, PluginInfo.ModGUID);
  }

  /** The block run once per setting in `settings`, in order. */
  function Run(s: State, settings: seq<bool>): State
    decreases |settings|
  {
    if |settings| == 0 then s else Run(ApplyEnforcement(s, settings[0]), settings[1..])
  }

  /** After any sequence of runs the flag is accurate and reflects the last setting. */
  lemma {:induction false} RunKeepsConsistency(s: State, settings: seq<bool>)
    requires Consistent(s)
    ensures Consistent(Run(s, settings))
    ensures |settings| > 0 ==> Run(s, settings).versionCheckExists == settings[|settings| - 1]
    ensures |settings| == 0 ==> Run(s, settings) == s
    decreases |settings|
  {
    if |settings| > 0 {
      ApplyKeepsConsistency(s, settings[0]);
      RunKeepsConsistency(ApplyEnforcement(s, settings[0]), settings[1..]);
    }
  }

  /** Starting without the plugin's record, enabling twice leaves exactly one record. */
  lemma EnableTwiceRegistersOnce(registry: seq<VersionCheck>)
    requires CountNamed(registry, PluginInfo.ModGUID) == 0
    ensures var once := ApplyEnforcement(State(false, registry), true);
      && ApplyEnforcement(once, true) == once
      && CountNamed(once.registry, PluginInfo.ModGUID) == 1
  {
    ApplyKeepsConsistency(State(false, registry), true);
  }

  /** Removing the plugin's records after appending one to a registry without any restores it. */
  lemma {:induction false} RemoveAppendedRecord(registry: seq<VersionCheck>)
    requires CountNamed(registry, PluginInfo.ModGUID) == 0
    ensures RemoveNamed(registry + [PluginVersionCheck], PluginInfo.ModGUID) == registry
    decreases |registry|
  {
    var name := PluginInfo.ModGUID;
    if |registry| == 0 {
      assert RemoveNamed([PluginVersionCheck], name) == RemoveNamed([], name);
    } else {
      assert (registry + [PluginVersionCheck])[1..] == registry[1..] + [PluginVersionCheck];
      assert registry[0].name != name;
      RemoveAppendedRecord(registry[1..]);
      assert [registry[0]] + registry[1..] == registry;
    }
  }

  /** Enabling and then disabling restores the starting state exactly. */
  lemma DisableRestoresRegistry(registry: seq<VersionCheck>)
    requires CountNamed(registry, PluginInfo.ModGUID) == 0
    ensures ApplyEnforcement(ApplyEnforcement(State(false, registry), true), false) == State(false, registry)
  {
    RemoveAppendedRecord(registry);
  }
}
