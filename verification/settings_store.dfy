/**
 * Where the settings live: world and player dynamic properties on the
 * host, with an in-memory copy that answers whenever the host holds
 * nothing usable. Every read may refresh the memory copy, so reads are
 * transitions too.
 */
module SettingsStore {
  import opened Wrappers
  import opened JsValue
  import opened Config

  /** What a player's settings property holds. */
  datatype Stored =
    | NotText(value: Js)            // a non-string value, or the property could not be read
    | Text(parsed: Option<Js>)      // a string, with the value `JSON.parse` gives or None when it throws

  /**
   * The host's dynamic properties. A property that is absent or unreadable
   * reads as `Undefined`; `writable` says whether writes currently succeed.
   */
  datatype Host = Host(writable: bool, worldMode: Js, worldEnabled: Js, players: map<string, Stored>)

  /** The in-memory fallback; a player's entry is None once it has been read but never set. */
  datatype Memory = Memory(mode: string, enabled: bool, players: map<string, Option<Overrides>>)

  datatype Store = Store(host: Host, memory: Memory)

  /** What every reachable store keeps: the remembered mode is one of the modes. */
  predicate Valid(s: Store)
  {
    s.memory.mode in Modes
  }

  function InitialMemory(): (m: Memory)
    ensures m.mode == DefaultMode && m.enabled && m.players == map[]
  {
    Memory("essential", true, map[])
  }

  datatype Read<T> = Read(store: Store, value: T)

  // ---------------------------------------------------------------------------
  // World settings
  // ---------------------------------------------------------------------------

  /** `getCurrentMode`: a stored string is normalised and remembered; anything else yields the remembered mode. */
  function GetCurrentMode(s: Store): (r: Read<string>)
    requires Valid(s)
    ensures Valid(r.store) && r.value in Modes && r.value == r.store.memory.mode
    ensures r.store.host == s.host
    ensures r.store.memory.players == s.memory.players
    ensures s.host.worldMode.Str? ==> r.value == NormalizeMode(s.host.worldMode)
    ensures !s.host.worldMode.Str? ==> r == Read(s, s.memory.mode)
  {
    if s.host.worldMode.Str? then
      var normalized := NormalizeMode(s.host.worldMode);
      Read(s.(memory := s.memory.(mode := normalized)), normalized)
    else Read(s, s.memory.mode)
  }

  /** A host write, which has no effect when the host refuses writes. */
  function WriteWorldMode(h: Host, v: Js): (r: Host)
    ensures h.writable ==> r == h.(worldMode := v)
    ensures !h.writable ==> r == h
  {
    if h.writable then h.(worldMode := v) else h
  }

  /** `setCurrentMode`: the normalised mode is remembered and written to the host. */
  function SetCurrentMode(s: Store, mode: Js): (r: Read<string>)
    ensures r.value == NormalizeMode(mode) && Valid(r.store)
    ensures r.store.memory == s.memory.(mode := r.value)
    ensures r.store.host == WriteWorldMode(s.host, Str(r.value))
  {
    var normalized := NormalizeMode(mode);
    Read(Store(WriteWorldMode(s.host, Str(normalized)), s.memory.(mode := normalized)), normalized)
  }

  /** Reading the mode back after setting it gives the mode that was set, whether or not the host accepted it. */
  lemma SetThenGetMode(s: Store, mode: Js)
    requires s.host.writable || !s.host.worldMode.Str?
    ensures GetCurrentMode(SetCurrentMode(s, mode).store).value == NormalizeMode(mode)
  {
    NormalizeModeOfMode(NormalizeMode(mode));
  }

  /** `isInsightGloballyEnabled`: a stored boolean is remembered and returned; anything else yields memory. */
  function IsGloballyEnabled(s: Store): (r: Read<bool>)
    ensures r.store.host == s.host && r.value == r.store.memory.enabled
    ensures s.host.worldEnabled.Bool? ==> r.value == s.host.worldEnabled.b
    ensures !s.host.worldEnabled.Bool? ==> r == Read(s, s.memory.enabled)
    ensures r.store.memory.mode == s.memory.mode && r.store.memory.players == s.memory.players
  {
    if s.host.worldEnabled.Bool? then
      Read(s.(memory := s.memory.(enabled := s.host.worldEnabled.b)), s.host.worldEnabled.b)
    else Read(s, s.memory.enabled)
  }

  /** `setInsightGlobalEnabled`: `Boolean(isEnabled)` is remembered and written. */
  function SetGlobalEnabled(s: Store, isEnabled: Js): (r: Read<bool>)
    ensures r.value == Truthy(isEnabled)
    ensures r.store.memory == s.memory.(enabled := r.value)
    ensures s.host.writable ==> r.store.host == s.host.(worldEnabled := Bool(r.value))
    ensures !s.host.writable ==> r.store.host == s.host
  {
    var normalized := Truthy(isEnabled);
    var host := if s.host.writable then s.host.(worldEnabled := Bool(normalized)) else s.host;
    Read(Store(host, s.memory.(enabled := normalized)), normalized)
  }

  lemma SetThenGetEnabled(s: Store, isEnabled: Js)
    requires s.host.writable || !s.host.worldEnabled.Bool?
    ensures IsGloballyEnabled(SetGlobalEnabled(s, isEnabled).store).value == Truthy(isEnabled)
  {
  }

  /** `getModePreset`. */
  function ModePreset(mode: Js): (p: Preset)
    ensures p == PresetOf(NormalizeMode(mode))
    ensures WellFormedRuntime(p.runtime) && WellFormedComponents(p.components)
  {
    PresetsWellFormed(NormalizeMode(mode));
    PresetOf(NormalizeMode(mode))
  }

  // ---------------------------------------------------------------------------
  // Player settings
  // ---------------------------------------------------------------------------

  /** `getMemoryPlayerOverrides`: reading a key records it (as empty) when it was unknown. */
  function TouchMemory(m: Memory, key: string): (r: Memory)
    ensures key in r.players && r.mode == m.mode && r.enabled == m.enabled
    ensures key in m.players ==> r == m
    ensures key !in m.players ==> r.players == m.players[key := None]
  {
    if key in m.players then m else m.(players := m.players[key := None])
  }

  /** What memory remembers for the player: nothing when the player was never read or never set. */
  function Remembered(m: Memory, key: string): (r: Option<Overrides>)
    ensures key in TouchMemory(m, key).players && r == TouchMemory(m, key).players[key]
  {
    if key in m.players then m.players[key] else None
  }

  /** Every player other than `key` is remembered exactly as before. */
  ghost predicate OthersUnchanged(before: map<string, Option<Overrides>>, after: map<string, Option<Overrides>>, key: string)
  {
    && (forall k :: k != key ==> (k in after <==> k in before))
    && (forall k :: k != key && k in before ==> after[k] == before[k])
  }

  /** The player's settings property, `Undefined` when absent. */
  function StoredFor(h: Host, key: string): Stored
  {
    if key in h.players then h.players[key] else NotText(Undefined)
  }

  /**
   * The settings a read settles on, from what the host holds and what
   * memory remembers: a stored string that parses wins; otherwise the
   * remembered overrides, renormalised; otherwise the preset's defaults.
   */
  function PlayerSettings(stored: Stored, remembered: Option<Overrides>, preset: Preset): (r: Overrides)
    requires WellFormedRuntime(preset.runtime) && WellFormedComponents(preset.components)
    ensures NormalizedOverrides(r)
    ensures stored.Text? && stored.parsed.Some? ==> r == NormalizePlayerOverrides(stored.parsed.value, preset)
    ensures !(stored.Text? && stored.parsed.Some?) && remembered.None? ==> r == DefaultOverrides(preset)
  {
    if stored.Text? && stored.parsed.Some? then
      NormalizePlayerOverridesWellFormed(stored.parsed.value, preset);
      NormalizePlayerOverrides(stored.parsed.value, preset)
    else if remembered.Some? then
      NormalizePlayerOverridesWellFormed(OverridesToJs(remembered.value), preset);
      NormalizePlayerOverrides(OverridesToJs(remembered.value), preset)
    else
      NormalizePlayerOverridesWellFormed(Obj([]), preset);
      DefaultOverrides(preset)
  }

  /** The serialised form of stored overrides, as the host keeps it. */
  function Serialized(o: Overrides): Stored
  {
    Text(Some(OverridesToJs(o)))
  }

  /** Normalised overrides kept in memory, and on the host when it has any copy, read back as themselves. */
  lemma PlayerSettingsOfKept(o: Overrides, stored: Stored, preset: Preset)
    requires WellFormedRuntime(preset.runtime) && WellFormedComponents(preset.components)
    requires NormalizedOverrides(o)
    requires stored == Serialized(o) || !(stored.Text? && stored.parsed.Some?)
    ensures PlayerSettings(stored, Some(o), preset) == o
  {
    NormalizeOverridesFixpoint(o, preset);
  }

  /** The mode `getPlayerOverrides` reads against: `mode || getCurrentMode()`, normalised. */
  function ReadMode(s: Store, mode: Js): (r: Read<string>)
    requires Valid(s)
    ensures Valid(r.store) && r.store.host == s.host && r.value in Modes
    ensures r.store.memory.players == s.memory.players
    ensures Truthy(mode) ==> r == Read(s, NormalizeMode(mode))
  {
    if Truthy(mode) then
      NormalizeModeOfMode(NormalizeMode(mode));
      Read(s, NormalizeMode(mode))
    else
      var current := GetCurrentMode(s);
      NormalizeModeOfMode(current.value);
      current
  }

  /**
   * The second half of `getPlayerOverrides`, once the preset is known:
   * what it settles on is remembered unless it came from memory already.
   */
  function Settle(s: Store, key: string, preset: Preset): (r: Read<Overrides>)
    requires WellFormedRuntime(preset.runtime) && WellFormedComponents(preset.components)
    ensures r.store.host == s.host && r.store.memory.mode == s.memory.mode
    ensures r.value == PlayerSettings(StoredFor(s.host, key), Remembered(s.memory, key), preset)
    ensures key in r.store.memory.players && r.store.memory.players[key].Some?
    ensures OthersUnchanged(s.memory.players, r.store.memory.players, key)
  {
    var memory := TouchMemory(s.memory, key);
    var stored := StoredFor(s.host, key);
    var settled := PlayerSettings(stored, memory.players[key], preset);
    if !(stored.Text? && stored.parsed.Some?) && memory.players[key].Some? then
      Read(Store(s.host, memory), settled)
    else
      Read(Store(s.host, memory.(players := memory.players[key := Some(settled)])), settled)
  }

  /**
   * `getPlayerOverrides` for the player known as `key`, against the preset
   * of `mode` (or, when `mode` is falsy, of the current mode).
   */
  function GetPlayerOverrides(s: Store, key: string, mode: Js): (r: Read<Overrides>)
    requires Valid(s)
    ensures Valid(r.store) && r.store.host == s.host
    ensures NormalizedOverrides(r.value)
    ensures key in r.store.memory.players && r.store.memory.players[key].Some?
    ensures r.value == PlayerSettings(StoredFor(s.host, key), Remembered(s.memory, key), ModePreset(Str(ReadMode(s, mode).value)))
    ensures OthersUnchanged(s.memory.players, r.store.memory.players, key)
  {
    var modeRead := ReadMode(s, mode);
    assert Remembered(modeRead.store.memory, key) == Remembered(s.memory, key);
    Settle(modeRead.store, key, ModePreset(Str(modeRead.value)))
  }

  /** What `persistPlayerOverrides` leaves behind for `key` when the host accepts it or holds nothing for `key`. */
  predicate Keeps(s: Store, key: string, o: Overrides)
  {
    key in s.memory.players && s.memory.players[key] == Some(o)
    && (key in s.host.players ==> s.host.players[key] == Serialized(o))
  }

  /** Kept settings are what the next read returns, whatever mode it reads against. */
  lemma GetKept(s: Store, key: string, o: Overrides, mode: Js)
    requires Valid(s) && Keeps(s, key, o) && NormalizedOverrides(o)
    ensures GetPlayerOverrides(s, key, mode).value == o
  {
    var preset := ModePreset(Str(ReadMode(s, mode).value));
    PlayerSettingsOfKept(o, StoredFor(s.host, key), preset);
  }

  lemma KeptReadsBack(s: Store, key: string, o: Overrides)
    requires Valid(s) && Keeps(s, key, o) && NormalizedOverrides(o)
    ensures forall mode :: GetPlayerOverrides(s, key, mode).value == o
  {
    forall mode {
      GetKept(s, key, o, mode);
    }
  }

  /** The settings an update starts from: the player's overrides read against the current mode. */
  function CurrentOverrides(s: Store, key: string): (r: Read<Overrides>)
    requires Valid(s)
    ensures Valid(r.store) && NormalizedOverrides(r.value)
  {
    var modeRead := GetCurrentMode(s);
    GetPlayerOverrides(modeRead.store, key, Str(modeRead.value))
  }

  /** Kept settings are where the next update starts from. */
  lemma KeptIsCurrent(s: Store, key: string, o: Overrides)
    requires Valid(s) && Keeps(s, key, o) && NormalizedOverrides(o)
    ensures CurrentOverrides(s, key).value == o
  {
    var modeRead := GetCurrentMode(s);
    assert Keeps(modeRead.store, key, o);
    GetKept(modeRead.store, key, o, Str(modeRead.value));
  }

  /** `persistPlayerOverrides`: remembered, and written to the host as JSON when it accepts writes. */
  function Persist(s: Store, key: string, o: Overrides): (r: Store)
    ensures r.memory == s.memory.(players := s.memory.players[key := Some(o)])
    ensures s.host.writable ==> r.host == s.host.(players := s.host.players[key := Serialized(o)])
    ensures !s.host.writable ==> r.host == s.host
    ensures (s.host.writable || key !in s.host.players) ==> Keeps(r, key, o)
  {
    var host := if s.host.writable then s.host.(players := s.host.players[key := Serialized(o)]) else s.host;
    Store(host, s.memory.(players := s.memory.players[key := Some(o)]))
  }

  /**
   * `updatePlayerOverrides`: the patch laid over the player's current
   * settings, normalised against the current mode's preset and persisted.
   * What it stores is what every later read returns.
   */
  method UpdatePlayerOverrides(s: Store, key: string, patch: Js) returns (r: Read<Overrides>)
    requires Valid(s)
    ensures Valid(r.store) && NormalizedOverrides(r.value)
    ensures r.store.host.writable == s.host.writable
    ensures Prop(patch, "disabled") != Undefined ==> r.value.disabled == Truthy(Prop(patch, "disabled"))
    ensures Prop(patch, "disabled") == Undefined ==> r.value.disabled == CurrentOverrides(s, key).value.disabled
    ensures r.value == UpdateOverrides(CurrentOverrides(s, key).value, patch, ModePreset(Str(GetCurrentMode(s).value)))
    ensures !s.host.writable ==> r.store.host == s.host
    ensures (s.host.writable || key !in s.host.players) ==> Keeps(r.store, key, r.value)
    ensures (s.host.writable || key !in s.host.players) ==>
      forall mode :: GetPlayerOverrides(r.store, key, mode).value == r.value
  {
    var modeRead := GetCurrentMode(s);
    var preset := ModePreset(Str(modeRead.value));
    var current := GetPlayerOverrides(modeRead.store, key, Str(modeRead.value));
    var updated := UpdateOverrides(current.value, patch, preset);
    UpdateOverridesWellFormed(current.value, patch, preset);
    r := Read(Persist(current.store, key, updated), updated);
    if s.host.writable || key !in s.host.players {
      KeptReadsBack(r.store, key, r.value);
    }
  }

  /** `resetPlayerOverrides`: the current preset's defaults, persisted, and what every later read returns. */
  method ResetPlayerOverrides(s: Store, key: string) returns (r: Read<Overrides>)
    requires Valid(s)
    ensures Valid(r.store) && NormalizedOverrides(r.value)
    ensures r.value.modeOverride.None? && !r.value.disabled
    ensures r.value.runtime == PresetOf(GetCurrentMode(s).value).runtime
    ensures (s.host.writable || key !in s.host.players) ==> Keeps(r.store, key, r.value)
    ensures (s.host.writable || key !in s.host.players) ==>
      forall mode :: GetPlayerOverrides(r.store, key, mode).value == r.value
  {
    var modeRead := GetCurrentMode(s);
    var preset := ModePreset(Str(modeRead.value));
    NormalizeModeOfMode(modeRead.value);
    DefaultOverridesRuntime(modeRead.value);
    NormalizePlayerOverridesWellFormed(Obj([]), preset);
    var defaults := DefaultOverrides(preset);
    r := Read(Persist(modeRead.store, key, defaults), defaults);
    if s.host.writable || key !in s.host.players {
      KeptReadsBack(r.store, key, r.value);
    }
  }

  /** The patch `{ disabled: !isActive }`. */
  function ActivationPatch(isActive: bool): (p: Js)
    ensures Prop(p, "disabled") == Bool(!isActive)
  {
    Obj([("disabled", Bool(!isActive))])
  }

  // ---------------------------------------------------------------------------
  // Per-tick settings
  // ---------------------------------------------------------------------------

  /** What the host reports about the player this tick. */
  datatype PlayerView = PlayerView(key: string, tags: set<string>, isSneaking: bool, isCreative: bool)

  /** The overrides `getPlayerDisplaySettings` reads, after the enabled flag and the mode. */
  function DisplayOverrides(s: Store, key: string): (r: Read<Overrides>)
    requires Valid(s)
    ensures Valid(r.store) && r.store.host == s.host && NormalizedOverrides(r.value)
  {
    var enabled := IsGloballyEnabled(s);
    var modeRead := GetCurrentMode(enabled.store);
    GetPlayerOverrides(modeRead.store, key, Str(modeRead.value))
  }

  /** Kept settings are also what the per-tick read settles on. */
  lemma DisplayOverridesOfKept(s: Store, key: string, o: Overrides)
    requires Valid(s) && Keeps(s, key, o) && NormalizedOverrides(o)
    ensures DisplayOverrides(s, key).value == o
  {
    var enabled := IsGloballyEnabled(s);
    var modeRead := GetCurrentMode(enabled.store);
    assert Keeps(modeRead.store, key, o);
    GetKept(modeRead.store, key, o, Str(modeRead.value));
  }

  /** `getPlayerDisplaySettings`: the stored settings read through, then resolved. */
  function GetPlayerDisplaySettings(s: Store, player: PlayerView): (r: Read<DisplaySettings>)
    requires Valid(s)
    ensures Valid(r.store)
    ensures r.value == ResolveDisplaySettings(IsGloballyEnabled(s).value, GetCurrentMode(IsGloballyEnabled(s).store).value,
      DisplayOverrides(s, player.key).value, player.tags, player.isSneaking, player.isCreative)
    ensures r.value.globalEnabled == IsGloballyEnabled(s).value
    ensures r.value.disabled <==> !IsGloballyEnabled(s).value || DisplayOverrides(s, player.key).value.disabled || DisableTag in player.tags
    ensures r.value.requireSneak <==> SneakOnlyTag in player.tags
    ensures NormalizedRuntime(r.value.runtime)
  {
    var enabled := IsGloballyEnabled(s);
    var modeRead := GetCurrentMode(enabled.store);
    var overrides := DisplayOverrides(s, player.key);
    ResolvedRuntimeInRange(enabled.value, modeRead.value, overrides.value, player.tags, player.isSneaking, player.isCreative);
    Read(overrides.store, ResolveDisplaySettings(enabled.value, modeRead.value, overrides.value, player.tags, player.isSneaking, player.isCreative))
  }

  /**
   * `setPlayerActivation`: an update whose patch holds only
   * `disabled: !isActive`. A player who switched themselves off is
   * disabled on every later tick, whatever else holds.
   */
  method SetPlayerActivation(s: Store, key: string, isActive: bool) returns (r: Read<Overrides>)
    requires Valid(s)
    ensures Valid(r.store) && NormalizedOverrides(r.value) && r.store.host.writable == s.host.writable
    ensures r.value.disabled == !isActive
    ensures !s.host.writable ==> r.store.host == s.host
    ensures (s.host.writable || key !in s.host.players) ==> Keeps(r.store, key, r.value)
    ensures !isActive && (s.host.writable || key !in s.host.players) ==> DisabledEveryTick(r.store, key)
  {
    r := UpdatePlayerOverrides(s, key, ActivationPatch(isActive));
    ActivationSettled(s, key, isActive, r);
  }

  /** What the activation write leaves behind, from what any settings update promises. */
  lemma ActivationSettled(s: Store, key: string, isActive: bool, r: Read<Overrides>)
    requires Valid(r.store) && NormalizedOverrides(r.value)
    requires r.value.disabled == Truthy(Prop(ActivationPatch(isActive), "disabled"))
    requires (s.host.writable || key !in s.host.players) ==> Keeps(r.store, key, r.value)
    ensures r.value.disabled == !isActive
    ensures !isActive && (s.host.writable || key !in s.host.players) ==> DisabledEveryTick(r.store, key)
  {
    if !isActive && (s.host.writable || key !in s.host.players) {
      DisabledOnEveryTick(r.store, key, r.value);
    }
  }

  /** Every per-tick read for `key` finds the player disabled, whatever the player's tags and stance. */
  ghost predicate DisabledEveryTick(s: Store, key: string)
    requires Valid(s)
  {
    forall view: PlayerView :: view.key == key ==> GetPlayerDisplaySettings(s, view).value.disabled
  }

  /** Kept settings that disable the player disable every per-tick read for that player. */
  lemma DisabledOnEveryTick(s: Store, key: string, o: Overrides)
    requires Valid(s) && Keeps(s, key, o) && NormalizedOverrides(o) && o.disabled
    ensures DisabledEveryTick(s, key)
  {
    forall view: PlayerView | view.key == key
      ensures GetPlayerDisplaySettings(s, view).value.disabled
    {
      DisplayOverridesOfKept(s, key, o);
    }
  }
}
