/**
 * The `insight` chat command: a root action and up to three string
 * arguments, each handler a transition on the settings store (and, for
 * `namespace`, on the add-on registry) together with the one message the
 * player is sent.
 */
module Commands {
  import opened Wrappers
  import opened Text
  import opened JsValue
  import opened OrderedMaps
  import opened Config
  import SettingsStore
  import AddonRegistry
  import RegistryOps
  import Namespaces

  // ---------------------------------------------------------------------------
  // Component names
  // ---------------------------------------------------------------------------

  /** The frozen alias table: lower-case names players may type for a component. */
  const ComponentAliases: Entries<string, string> := [
    ("namespace", "namespace"), ("states", "blockStates"), ("blockstates", "blockStates"),
    ("tags", "blockTags"), ("blocktags", "blockTags"), ("health", "health"), ("armor", "armor"),
    ("air", "airBubbles"), ("bubbles", "airBubbles"), ("airbubbles", "airBubbles"),
    ("technical", "technical"), ("coordinates", "coordinates"), ("position", "coordinates"),
    ("id", "typeId"), ("typeid", "typeId"), ("effecthearts", "effectHearts"),
    ("frozenhearts", "frozenHearts"), ("hunger", "hunger"), ("hungereffect", "hungerEffect"),
    ("animalhearts", "animalHearts"), ("entitytags", "entityTags"), ("families", "entityFamilies"),
    ("entityfamilies", "entityFamilies"), ("velocity", "velocity"),
    ("namespacedebug", "namespaceResolution"), ("namespaceresolution", "namespaceResolution")]

  /** Every alias names a defined component. */
  lemma AliasTargetsDefined()
    ensures forall i :: 0 <= i < |ComponentAliases| ==> ComponentAliases[i].1 in ComponentKeys
  {
  }

  /** The position of the first defined component whose lower-case key is `name`, `|keys|` when none. */
  function DirectMatch(keys: seq<string>, name: string): (i: nat)
    ensures i <= |keys|
    ensures forall j :: 0 <= j < i ==> Lower(keys[j]) != name
    ensures i < |keys| ==> Lower(keys[i]) == name
  {
    if |keys| == 0 then 0
    else if Lower(keys[0]) == name then 0
    else 1 + DirectMatch(keys[1..], name)
  }

  /**
   * `resolveComponentKey`: nothing for a blank name; the alias table
   * first; otherwise the defined component whose key matches ignoring
   * case.
   */
  function ResolveComponentKey(raw: Js): (r: Option<string>)
    ensures OptionText(raw) == [] ==> r.None?
    ensures OptionText(raw) != [] && Has(ComponentAliases, OptionText(raw)) ==>
      r == Get(ComponentAliases, OptionText(raw))
    ensures OptionText(raw) != [] && !Has(ComponentAliases, OptionText(raw)) ==>
      (r.None? <==> forall i :: 0 <= i < |ComponentKeys| ==> Lower(ComponentKeys[i]) != OptionText(raw))
    ensures OptionText(raw) != [] && !Has(ComponentAliases, OptionText(raw)) && r.Some? ==>
      Lower(r.value) == OptionText(raw)
    ensures r.Some? ==> r.value in ComponentKeys
  {
    ResolveComponentName(OptionText(raw))
  }

  /** The component a trimmed, lower-cased name resolves to. */
  function ResolveComponentName(normalized: string): (r: Option<string>)
    ensures normalized == [] ==> r.None?
    ensures normalized != [] && Has(ComponentAliases, normalized) ==> r == Get(ComponentAliases, normalized)
    ensures normalized != [] && !Has(ComponentAliases, normalized) ==>
      (r.None? <==> forall i :: 0 <= i < |ComponentKeys| ==> Lower(ComponentKeys[i]) != normalized)
    ensures normalized != [] && !Has(ComponentAliases, normalized) && r.Some? ==> Lower(r.value) == normalized
    ensures r.Some? ==> r.value in ComponentKeys
  {
    if normalized == [] then None
    else if Has(ComponentAliases, normalized) then
      AliasTargetsDefined();
      Get(ComponentAliases, normalized)
    else
      var i := DirectMatch(ComponentKeys, normalized);
      if i < |ComponentKeys| then Some(ComponentKeys[i]) else None
  }

  /** Normalising an argument before resolving it changes nothing, as the handler does it twice. */
  lemma ResolveNormalizedArgument(raw: Js)
    ensures ResolveComponentKey(Str(OptionText(raw))) == ResolveComponentKey(raw)
  {
    OptionTextIdempotent(raw);
  }

  lemma OptionTextIdempotent(raw: Js)
    ensures OptionText(Str(OptionText(raw))) == OptionText(raw)
  {
    var t := Trim(CoerceText(raw));
    var u := Lower(t);
    assert u == OptionText(raw);
    assert CoerceText(Str(u)) == u;
    LowerKeepsEdges(t);
    TrimOfUnspaced(u);
    assert Trim(CoerceText(Str(u))) == u;
    LowerIdempotent(t);
    assert Lower(u) == u;
  }

  /** The words the handlers compare against are their own normal form. */
  lemma KnownWord(word: string)
    requires word in ["add", "set", "status", "toggle", "on", "off"]
    ensures OptionText(Str(word)) == word
  {
    assert CanonicalOption(word);
    OptionTextOfCanonical(word);
  }

  // ---------------------------------------------------------------------------
  // The world a command acts on, and what it answers
  // ---------------------------------------------------------------------------

  datatype World = World(settings: SettingsStore.Store, registry: AddonRegistry.Registry)

  predicate WorldValid(w: World)
  {
    SettingsStore.Valid(w.settings) && AddonRegistry.Consistent(w.registry)
  }

  /** The message a command sends back; a mode is reported by name rather than by its label. */
  datatype Reply =
    | Usage
    | MenuRequested
    | CurrentMode(mode: string)
    | InvalidMode
    | ModeSet(mode: string)
    | ActivateUsage
    | Activated
    | Deactivated
    | ActiveNow(active: bool)
    | UnknownComponent
    | DeprecatedComponent(key: string)
    | PolicyUsage
    | ComponentSet(key: string, policy: string)
    | GlobalStatus(enabled: bool)
    | GlobalNow(enabled: bool)
    | GlobalOn
    | GlobalOff
    | GlobalUsage
    | NamespaceUsage
    | InvalidNamespace
    | NamespaceMapped(namespace: string, name: string)

  datatype Answer = Answer(world: World, reply: Reply)

  // ---------------------------------------------------------------------------
  // mode
  // ---------------------------------------------------------------------------

  /**
   * `mode`: no argument reports the current mode; an argument that is not
   * one of the three modes is refused with nothing changed; a mode is set
   * globally.
   */
  function HandleModeCommand(w: World, modeValue: Js): (a: Answer)
    requires WorldValid(w)
    ensures WorldValid(a.world) && a.world.registry == w.registry
    ensures a.world.settings.memory.players == w.settings.memory.players
    ensures OptionText(modeValue) == [] ==>
      a == Answer(w.(settings := SettingsStore.GetCurrentMode(w.settings).store), CurrentMode(SettingsStore.GetCurrentMode(w.settings).value))
    ensures OptionText(modeValue) != [] && OptionText(modeValue) !in Modes ==> a == Answer(w, InvalidMode)
    ensures OptionText(modeValue) in Modes ==> a.reply == ModeSet(OptionText(modeValue))
    ensures OptionText(modeValue) in Modes && (w.settings.host.writable || !w.settings.host.worldMode.Str?) ==>
      SettingsStore.GetCurrentMode(a.world.settings).value == OptionText(modeValue)
  {
    var modeArg := OptionText(modeValue);
    if modeArg == [] then
      var current := SettingsStore.GetCurrentMode(w.settings);
      Answer(w.(settings := current.store), CurrentMode(current.value))
    else if modeArg !in Modes then Answer(w, InvalidMode)
    else
      var applied := SettingsStore.SetCurrentMode(w.settings, Str(modeArg));
      NormalizeModeOfMode(modeArg);
      assert w.settings.host.writable || !w.settings.host.worldMode.Str? ==>
        SettingsStore.GetCurrentMode(applied.store).value == modeArg by {
        if w.settings.host.writable || !w.settings.host.worldMode.Str? {
          SettingsStore.SetThenGetMode(w.settings, Str(modeArg));
        }
      }
      Answer(w.(settings := applied.store), ModeSet(applied.value))
  }

  // ---------------------------------------------------------------------------
  // global
  // ---------------------------------------------------------------------------

  /** The action of `global`: a falsy argument means "status"; otherwise the argument trimmed and lower-cased. */
  function GlobalAction(v: Js): string
  {
    Lower(Trim(CoerceText(Or(v, Str("status")))))
  }

  /** Whether a later read of the enabled flag sees what was set: the host took the write or holds no flag. */
  predicate EnabledWriteSticks(s: SettingsStore.Store)
  {
    s.host.writable || !s.host.worldEnabled.Bool?
  }

  /**
   * `global`: `status` (the default) and an unknown action change nothing
   * a later read can see; `toggle` flips the flag; `on` and `off` set it.
   */
  function HandleGlobalCommand(w: World, v: Js): (a: Answer)
    requires WorldValid(w)
    ensures WorldValid(a.world) && a.world.registry == w.registry
    ensures a.world.settings.memory.mode == w.settings.memory.mode
    ensures a.world.settings.memory.players == w.settings.memory.players
    ensures GlobalAction(v) !in ["toggle", "on", "off"] ==>
      SettingsStore.IsGloballyEnabled(a.world.settings).value == SettingsStore.IsGloballyEnabled(w.settings).value
    ensures GlobalAction(v) !in ["status", "toggle", "on", "off"] ==> a.reply == GlobalUsage
    ensures GlobalAction(v) == "status" ==> a.reply == GlobalStatus(SettingsStore.IsGloballyEnabled(w.settings).value)
    ensures GlobalAction(v) == "toggle" && EnabledWriteSticks(w.settings) ==>
      SettingsStore.IsGloballyEnabled(a.world.settings).value == !SettingsStore.IsGloballyEnabled(w.settings).value
    ensures GlobalAction(v) == "on" && EnabledWriteSticks(w.settings) ==> SettingsStore.IsGloballyEnabled(a.world.settings).value
    ensures GlobalAction(v) == "off" && EnabledWriteSticks(w.settings) ==> !SettingsStore.IsGloballyEnabled(a.world.settings).value
  {
    var action := GlobalAction(v);
    var current := SettingsStore.IsGloballyEnabled(w.settings);
    if action == "status" then Answer(w.(settings := current.store), GlobalStatus(current.value))
    else if action == "toggle" then
      var next := SettingsStore.SetGlobalEnabled(current.store, Bool(!current.value));
      assert EnabledWriteSticks(w.settings) ==> SettingsStore.IsGloballyEnabled(next.store).value == next.value by {
        if EnabledWriteSticks(w.settings) {
          SettingsStore.SetThenGetEnabled(current.store, Bool(!current.value));
        }
      }
      Answer(w.(settings := next.store), GlobalNow(next.value))
    else if action == "on" then
      var next := SettingsStore.SetGlobalEnabled(current.store, Bool(true));
      assert EnabledWriteSticks(w.settings) ==> SettingsStore.IsGloballyEnabled(next.store).value == next.value by {
        if EnabledWriteSticks(w.settings) {
          SettingsStore.SetThenGetEnabled(current.store, Bool(true));
        }
      }
      Answer(w.(settings := next.store), GlobalOn)
    else if action == "off" then
      var next := SettingsStore.SetGlobalEnabled(current.store, Bool(false));
      assert EnabledWriteSticks(w.settings) ==> SettingsStore.IsGloballyEnabled(next.store).value == next.value by {
        if EnabledWriteSticks(w.settings) {
          SettingsStore.SetThenGetEnabled(current.store, Bool(false));
        }
      }
      Answer(w.(settings := next.store), GlobalOff)
    else Answer(w.(settings := current.store), GlobalUsage)
  }

  /** No argument asks for the status. */
  lemma GlobalDefaultsToStatus(w: World)
    requires WorldValid(w)
    ensures HandleGlobalCommand(w, Undefined).reply == GlobalStatus(SettingsStore.IsGloballyEnabled(w.settings).value)
    ensures HandleGlobalCommand(w, Str("")).reply == GlobalStatus(SettingsStore.IsGloballyEnabled(w.settings).value)
  {
    assert Or(Undefined, Str("status")) == Str("status");
    assert Or(Str(""), Str("status")) == Str("status");
    KnownWord("status");
  }

  /** An argument of spaces only is truthy, so it is not defaulted: it trims to nothing and prints the usage. */
  lemma GlobalBlankArgumentIsUsage(w: World)
    requires WorldValid(w)
    ensures HandleGlobalCommand(w, Str(" ")).reply == GlobalUsage
  {
    assert Truthy(Str(" "));
    assert IsSpace(' ');
    assert Trim(" ") == [];
    assert GlobalAction(Str(" ")) == [];
  }

  /** Toggling twice restores the flag, when the host keeps what is written. */
  lemma GlobalToggleTwice(w: World)
    requires WorldValid(w) && w.settings.host.writable
    ensures var once := HandleGlobalCommand(w, Str("toggle")).world;
      SettingsStore.IsGloballyEnabled(HandleGlobalCommand(once, Str("toggle")).world.settings).value
        == SettingsStore.IsGloballyEnabled(w.settings).value
  {
    assert Or(Str("toggle"), Str("status")) == Str("toggle");
    KnownWord("toggle");
    var once := HandleGlobalCommand(w, Str("toggle")).world;
    assert once.settings.host.writable;
  }

  // ---------------------------------------------------------------------------
  // namespace
  // ---------------------------------------------------------------------------

  /** `typeof v === "string" ? v.trim() : ""`. */
  function StringArgument(v: Js): (r: string)
    ensures v.Str? ==> r == Trim(v.s)
    ensures !v.Str? ==> r == []
  {
    if v.Str? then Trim(v.s) else []
  }

  /** Which arguments hold the namespace and the display name: after `add`/`set` they move one place along. */
  function NamespaceArguments(primary: Js, secondary: Js, tertiary: Js): (r: (Js, Js))
    ensures OptionText(primary) == "add" || OptionText(primary) == "set" ==> r == (secondary, tertiary)
    ensures OptionText(primary) != "add" && OptionText(primary) != "set" ==> r == (primary, secondary)
  {
    var action := OptionText(primary);
    if action == "add" || action == "set" then (secondary, tertiary) else (primary, secondary)
  }

  /** The reply to a registration: the alias when it was stored, a refusal otherwise. */
  function AliasReply(outcome: RegistryOps.AliasOutcome): (r: Reply)
    ensures r.NamespaceMapped? <==> outcome.AliasRegistered? && outcome.ok
    ensures r.NamespaceMapped? ==> r == NamespaceMapped(outcome.namespace, outcome.name)
    ensures !r.NamespaceMapped? ==> r == InvalidNamespace
  {
    match outcome
    case AliasRegistered(ok, _, namespace, name) =>
      if ok then NamespaceMapped(namespace, name) else InvalidNamespace
    case InvalidInput => InvalidNamespace
  }

  /**
   * `namespace`: a missing action or argument prints the usage and
   * changes nothing; otherwise the alias is registered, and the reply
   * says whether it was accepted.
   */
  function HandleNamespaceCommand(w: World, primary: Js, secondary: Js, tertiary: Js): (a: Answer)
    requires WorldValid(w)
    ensures WorldValid(a.world) && a.world.settings == w.settings
    ensures var args := NamespaceArguments(primary, secondary, tertiary);
      OptionText(primary) == [] || StringArgument(args.0) == [] || StringArgument(args.1) == [] ==>
        a == Answer(w, NamespaceUsage)
    ensures var args := NamespaceArguments(primary, secondary, tertiary);
      OptionText(primary) != [] && StringArgument(args.0) != [] && StringArgument(args.1) != [] ==>
        var result := RegistryOps.RegisterNamespaceAlias(w.registry, Str(StringArgument(args.0)), Str(StringArgument(args.1)));
        a.world.registry == result.registry && a.reply == AliasReply(result.outcome)
  {
    var action := OptionText(primary);
    if action == [] then Answer(w, NamespaceUsage)
    else
      var args := NamespaceArguments(primary, secondary, tertiary);
      var namespaceValue := StringArgument(args.0);
      var displayNameValue := StringArgument(args.1);
      if namespaceValue == [] || displayNameValue == [] then Answer(w, NamespaceUsage)
      else
        var result := RegistryOps.RegisterNamespaceAlias(w.registry, Str(namespaceValue), Str(displayNameValue));
        Answer(w.(registry := result.registry), AliasReply(result.outcome))
  }

  /** After `add`, the second argument is the namespace and the third the name. */
  lemma NamespaceFullForm(w: World, ns: string, name: string)
    requires WorldValid(w)
    requires Trim(ns) != [] && Trim(name) != []
    ensures var result := RegistryOps.RegisterNamespaceAlias(w.registry, Str(Trim(ns)), Str(Trim(name)));
      HandleNamespaceCommand(w, Str("add"), Str(ns), Str(name)) == Answer(w.(registry := result.registry), AliasReply(result.outcome))
  {
    KnownWord("add");
    var args := NamespaceArguments(Str("add"), Str(ns), Str(name));
    assert args == (Str(ns), Str(name));
    assert StringArgument(args.0) == Trim(ns) && StringArgument(args.1) == Trim(name);
  }

  /**
   * `namespace add <ns> <name>` for a namespace nothing is registered
   * under yet: the reply names it, and the registry then finds the alias
   * by that namespace.
   */
  lemma NamespaceAddFindsAlias(w: World, ns: string, name: string)
    requires WorldValid(w)
    requires Trim(ns) != [] && Trim(name) != []
    requires Namespaces.NormalizeNamespaceInput(Str(Trim(ns))).Some?
    requires !Has(AddonRegistry.MergedByKey(w.registry), "namespace_" + Namespaces.NormalizeNamespaceInput(Str(Trim(ns))).value)
    ensures var a := HandleNamespaceCommand(w, Str("add"), Str(ns), Str(name));
      var n := Namespaces.NormalizeNamespaceInput(Str(Trim(ns))).value;
      && a.reply == NamespaceMapped(n, Trim(name))
      && RegistryOps.GetAddonByNamespace(a.world.registry, Str(Trim(ns))) == Some(RegistryOps.AliasAddon(n, Trim(name)))
  {
    NamespaceFullForm(w, ns, name);
    TrimIdempotent(name);
    assert RegistryOps.AliasName(Str(Trim(name))) == Trim(name);
    RegistryOps.AliasAccepted(w.registry, Str(Trim(ns)), Str(Trim(name)));
    RegistryOps.AliasFoundByNamespace(w.registry, Str(Trim(ns)), Str(Trim(name)));
  }

  /** Without `add`/`set`, the first argument is the namespace and the second the name. */
  lemma NamespaceShortForm(w: World, ns: string, name: string)
    requires WorldValid(w)
    requires OptionText(Str(ns)) != "add" && OptionText(Str(ns)) != "set" && OptionText(Str(ns)) != []
    requires Trim(ns) != [] && Trim(name) != []
    ensures var result := RegistryOps.RegisterNamespaceAlias(w.registry, Str(Trim(ns)), Str(Trim(name)));
      HandleNamespaceCommand(w, Str(ns), Str(name), Undefined) == Answer(w.(registry := result.registry), AliasReply(result.outcome))
  {
  }

  // ---------------------------------------------------------------------------
  // activate
  // ---------------------------------------------------------------------------

  /** The patch `{ components: { [key]: policy } }`. */
  function ComponentPatch(key: string, policy: string): (p: Js)
    ensures Prop(p, "disabled") == Undefined
    ensures Or(Prop(p, "components"), Obj([])) == Obj([(key, Str(policy))])
  {
    var inner := Obj([(key, Str(policy))]);
    var es := [("components", inner)];
    assert es[..0] == [];
    assert LookupEntry(es, "components") == inner;
    assert LookupEntry(es, "disabled") == LookupEntry(es[..0], "disabled") == Undefined;
    Obj(es)
  }

  /** Whether a later read of the player's settings sees what an update stored. */
  predicate PlayerWriteSticks(s: SettingsStore.Store, key: string)
  {
    s.host.writable || key !in s.host.players
  }

  /** The policy a player's settings hold for the `i`-th component. */
  function PolicyAt(s: SettingsStore.Store, player: string, i: nat): Js
    requires SettingsStore.Valid(s) && i < |ComponentKeys|
  {
    SettingsStore.CurrentOverrides(s, player).value.components.entries[i].1
  }

  /**
   * Updating with a component patch stores the patch's policy for that
   * component and leaves every other component's policy as it was.
   */
  lemma ComponentPatchEffect(current: Overrides, key: string, policy: string, preset: Preset, i: nat)
    requires NormalizedOverrides(current) && i < |ComponentKeys|
    requires key in ComponentKeys && key !in DeprecatedComponents && policy in Policies
    ensures var r := UpdateOverrides(current, ComponentPatch(key, policy), preset);
      r.components.entries[i].1 == if ComponentKeys[i] == key then Str(policy) else current.components.entries[i].1
  {
    var pc := Obj([(key, Str(policy))]);
    UpdateComponentField(current, ComponentPatch(key, policy), preset, i);
    if ComponentKeys[i] == key {
      assert pc.entries[0].0 == key;
      assert HasKey(pc.entries, key);
      assert Prop(pc, key) == Str(policy);
      PoliciesCanonical(policy);
      NormalizeChoiceOfOption(policy, Policies, "show");
    } else {
      assert !HasKey(pc.entries, ComponentKeys[i]);
    }
  }

  /** `activate on` / `activate off`: the player's `disabled` flag is cleared or set. */
  method SetActivation(w: World, player: string, on: bool) returns (a: Answer)
    requires WorldValid(w)
    ensures WorldValid(a.world) && a.world.registry == w.registry
    ensures a.reply == (if on then Activated else Deactivated)
    ensures PlayerWriteSticks(w.settings, player) ==>
      SettingsStore.CurrentOverrides(a.world.settings, player).value.disabled == !on
  {
    var r := SettingsStore.SetPlayerActivation(w.settings, player, on);
    if PlayerWriteSticks(w.settings, player) {
      SettingsStore.KeptIsCurrent(r.store, player, r.value);
    }
    a := Answer(w.(settings := r.store), if on then Activated else Deactivated);
  }

  /**
   * `activate toggle`: the settings are read through an empty update, and
   * the player is activated exactly when they were disabled.
   */
  method ToggleActivation(w: World, player: string) returns (a: Answer)
    requires WorldValid(w)
    ensures WorldValid(a.world) && a.world.registry == w.registry
    ensures a.reply == ActiveNow(SettingsStore.CurrentOverrides(w.settings, player).value.disabled)
    ensures PlayerWriteSticks(w.settings, player) ==>
      SettingsStore.CurrentOverrides(a.world.settings, player).value.disabled
        == !SettingsStore.CurrentOverrides(w.settings, player).value.disabled
  {
    assert Prop(Obj([]), "disabled") == Undefined;
    var current := SettingsStore.UpdatePlayerOverrides(w.settings, player, Obj([]));
    var nextActive := current.value.disabled;
    var r := SettingsStore.SetPlayerActivation(current.store, player, nextActive);
    if PlayerWriteSticks(w.settings, player) {
      SettingsStore.KeptIsCurrent(r.store, player, r.value);
    }
    a := Answer(w.(settings := r.store), ActiveNow(nextActive));
  }

  /**
   * Settings whose current value is a component patch applied to `before`
   * hold the patch's policy for that component and `before`'s for every
   * other.
   */
  lemma PatchedPolicies(s: SettingsStore.Store, player: string, before: Overrides, key: string, policy: string, preset: Preset)
    requires SettingsStore.Valid(s) && NormalizedOverrides(before)
    requires key in ComponentKeys && key !in DeprecatedComponents && policy in Policies
    requires SettingsStore.CurrentOverrides(s, player).value == UpdateOverrides(before, ComponentPatch(key, policy), preset)
    ensures forall i :: 0 <= i < |ComponentKeys| ==>
      PolicyAt(s, player, i) == if ComponentKeys[i] == key then Str(policy) else before.components.entries[i].1
  {
    forall i | 0 <= i < |ComponentKeys|
      ensures PolicyAt(s, player, i) == if ComponentKeys[i] == key then Str(policy) else before.components.entries[i].1
    {
      ComponentPatchEffect(before, key, policy, preset, i);
    }
  }

  /** Stores a known policy for a live component through the player's settings. */
  method StoreComponentPolicy(w: World, player: string, key: string, policy: string) returns (a: Answer)
    requires WorldValid(w)
    requires key in ComponentKeys && key !in DeprecatedComponents && policy in Policies
    ensures WorldValid(a.world) && a.world.registry == w.registry
    ensures a.reply == ComponentSet(key, policy)
    ensures PlayerWriteSticks(w.settings, player) ==>
      forall i :: 0 <= i < |ComponentKeys| ==>
        PolicyAt(a.world.settings, player, i)
          == if ComponentKeys[i] == key then Str(policy) else PolicyAt(w.settings, player, i)
  {
    var r := SettingsStore.UpdatePlayerOverrides(w.settings, player, ComponentPatch(key, policy));
    a := Answer(w.(settings := r.store), ComponentSet(key, policy));
    if PlayerWriteSticks(w.settings, player) {
      SettingsStore.KeptIsCurrent(r.store, player, r.value);
      var before := SettingsStore.CurrentOverrides(w.settings, player).value;
      var preset := SettingsStore.ModePreset(Str(SettingsStore.GetCurrentMode(w.settings).value));
      PatchedPolicies(r.store, player, before, key, policy, preset);
    }
  }

  /**
   * What `activate <component> <policy>` does once the component is
   * resolved to `key`: a deprecated component or a missing policy is
   * refused with nothing changed; otherwise the normalised policy is
   * reported, and stored for that component and no other.
   */
  predicate ComponentOutcome(w: World, player: string, key: string, secondary: Js, a: Answer)
  {
    && WorldValid(w) && WorldValid(a.world)
    && (key in DeprecatedComponents ==> a == Answer(w, DeprecatedComponent(key)))
    && (key !in DeprecatedComponents && OptionText(secondary) == [] ==> a == Answer(w, PolicyUsage))
    && (key !in DeprecatedComponents && OptionText(secondary) != [] ==>
      a.reply == ComponentSet(key, NormalizePolicy(secondary)))
    && (key !in DeprecatedComponents && OptionText(secondary) != [] && PlayerWriteSticks(w.settings, player) ==>
      forall i :: 0 <= i < |ComponentKeys| ==>
        PolicyAt(a.world.settings, player, i)
          == if ComponentKeys[i] == key then Str(NormalizePolicy(secondary)) else PolicyAt(w.settings, player, i))
  }

  /**
   * `activate <component> <policy>` once the component is resolved: a
   * deprecated component or a missing policy is refused with nothing
   * changed; otherwise the normalised policy is stored for that component
   * and no other.
   */
  method SetComponentPolicy(w: World, player: string, componentKey: string, secondary: Js) returns (a: Answer)
    requires WorldValid(w) && componentKey in ComponentKeys
    ensures WorldValid(a.world) && a.world.registry == w.registry
    ensures ComponentOutcome(w, player, componentKey, secondary, a)
  {
    if componentKey in DeprecatedComponents {
      return Answer(w, DeprecatedComponent(componentKey));
    }
    var policyArg := OptionText(secondary);
    if policyArg == [] {
      return Answer(w, PolicyUsage);
    }
    OptionTextIdempotent(secondary);
    var policy := NormalizePolicy(Str(policyArg));
    assert policy == NormalizePolicy(secondary);
    a := StoreComponentPolicy(w, player, componentKey, policy);
  }

  /** What the first argument of `activate` asks for, once trimmed and lower-cased. */
  datatype ActivateArg = NoArg | OnArg | OffArg | ToggleArg | ComponentArg

  /** `on`, `off` and `toggle` act on the player's own activation; any other non-empty word names a component. */
  function ParseActivateArg(t: string): (r: ActivateArg)
    ensures r == NoArg <==> t == []
    ensures r == OnArg <==> t == "on"
    ensures r == OffArg <==> t == "off"
    ensures r == ToggleArg <==> t == "toggle"
  {
    if t == [] then NoArg
    else if t == "on" then OnArg
    else if t == "off" then OffArg
    else if t == "toggle" then ToggleArg
    else ComponentArg
  }

  /** The first argument of `activate` when it is not one of the activation words. */
  predicate NamesComponent(primary: Js)
  {
    ParseActivateArg(OptionText(primary)) == ComponentArg
  }

  /**
   * `activate <component> [policy]`: the component is resolved through
   * its aliases and names, and an unknown one is refused with nothing
   * changed.
   */
  method ActivateComponent(w: World, player: string, primary: Js, secondary: Js) returns (a: Answer)
    requires WorldValid(w) && NamesComponent(primary)
    ensures WorldValid(a.world) && a.world.registry == w.registry
    ensures ResolveComponentKey(primary).None? ==> a == Answer(w, UnknownComponent)
    ensures ResolveComponentKey(primary).Some? ==> ComponentOutcome(w, player, ResolveComponentKey(primary).value, secondary, a)
  {
    ResolveNormalizedArgument(primary);
    var componentKey := ResolveComponentKey(Str(OptionText(primary)));
    if componentKey.None? {
      return Answer(w, UnknownComponent);
    }
    a := SetComponentPolicy(w, player, componentKey.value, secondary);
  }

  /**
   * What `activate <primary> <secondary>` does: no argument prints the
   * usage; `on`, `off` and `toggle` set the player's `disabled` flag;
   * any other word must name a component, whose outcome is
   * `ComponentOutcome`.
   */
  predicate ActivateOutcome(w: World, player: string, primary: Js, secondary: Js, a: Answer)
  {
    var arg := ParseActivateArg(OptionText(primary));
    && WorldValid(w) && WorldValid(a.world) && a.world.registry == w.registry
    && (arg == NoArg ==> a == Answer(w, ActivateUsage))
    && (arg == OnArg ==> a.reply == Activated)
    && (arg == OffArg ==> a.reply == Deactivated)
    && (arg in {OnArg, OffArg} && PlayerWriteSticks(w.settings, player) ==>
      SettingsStore.CurrentOverrides(a.world.settings, player).value.disabled == (arg == OffArg))
    && (arg == ToggleArg ==> a.reply == ActiveNow(SettingsStore.CurrentOverrides(w.settings, player).value.disabled))
    && (arg == ToggleArg && PlayerWriteSticks(w.settings, player) ==>
      SettingsStore.CurrentOverrides(a.world.settings, player).value.disabled
        == !SettingsStore.CurrentOverrides(w.settings, player).value.disabled)
    && (arg == ComponentArg && ResolveComponentKey(primary).None? ==> a == Answer(w, UnknownComponent))
    && (arg == ComponentArg && ResolveComponentKey(primary).Some? ==>
      ComponentOutcome(w, player, ResolveComponentKey(primary).value, secondary, a))
  }

  /**
   * `activate`: `on`/`off`/`toggle` act on the player's own activation;
   * any other argument must name a component.
   */
  method HandleActivateCommand(w: World, player: string, primary: Js, secondary: Js) returns (a: Answer)
    requires WorldValid(w)
    ensures WorldValid(a.world) && a.world.registry == w.registry
    ensures ActivateOutcome(w, player, primary, secondary, a)
  {
    match ParseActivateArg(OptionText(primary))
    case NoArg =>
      a := Answer(w, ActivateUsage);
    case OnArg =>
      a := SetActivation(w, player, true);
    case OffArg =>
      a := SetActivation(w, player, false);
    case ToggleArg =>
      a := ToggleActivation(w, player);
    case ComponentArg =>
      a := ActivateComponent(w, player, primary, secondary);
  }

  /** Any non-empty policy argument is accepted: one that names no policy is stored as "show". */
  lemma UnknownPolicyStoredAsShow(secondary: Js)
    requires OptionText(secondary) != [] && OptionText(secondary) !in Policies
    ensures NormalizePolicy(secondary) == "show"
  {
  }

  // ---------------------------------------------------------------------------
  // The root command
  // ---------------------------------------------------------------------------

  const CommandActions: seq<string> := ["menu", "mode", "activate", "global", "namespace"]

  /** The action the root command names, once its argument is trimmed and lower-cased. */
  datatype RootAction = MenuAct | ModeAct | ActivateAct | GlobalAct | NamespaceAct | UnknownAct

  /** Which action a normalised first argument names; every word outside `CommandActions` is unknown. */
  function ParseAction(t: string): (r: RootAction)
    ensures r == UnknownAct <==> t !in CommandActions
    ensures r == MenuAct <==> t == "menu"
    ensures r == ModeAct <==> t == "mode"
    ensures r == ActivateAct <==> t == "activate"
    ensures r == GlobalAct <==> t == "global"
    ensures r == NamespaceAct <==> t == "namespace"
  {
    if t == "menu" then MenuAct
    else if t == "mode" then ModeAct
    else if t == "activate" then ActivateAct
    else if t == "global" then GlobalAct
    else if t == "namespace" then NamespaceAct
    else UnknownAct
  }

  /**
   * The root handler: an unknown action prints the usage and changes
   * nothing; `menu` only asks for the menu to be opened; every other
   * action is passed on with its arguments in place.
   */
  method HandleRootInsightCommand(w: World, player: string, action: Js, value: Js, value2: Js, value3: Js) returns (a: Answer)
    requires WorldValid(w)
    ensures WorldValid(a.world)
    ensures ParseAction(OptionText(action)) == UnknownAct ==> a == Answer(w, Usage)
    ensures ParseAction(OptionText(action)) == MenuAct ==> a == Answer(w, MenuRequested)
    ensures ParseAction(OptionText(action)) == ModeAct ==> a == HandleModeCommand(w, value)
    ensures ParseAction(OptionText(action)) == GlobalAct ==> a == HandleGlobalCommand(w, value)
    ensures ParseAction(OptionText(action)) == NamespaceAct ==> a == HandleNamespaceCommand(w, value, value2, value3)
    ensures ParseAction(OptionText(action)) == ActivateAct ==> ActivateOutcome(w, player, value, value2, a)
    ensures ParseAction(OptionText(action)) != ActivateAct ==> a.world.settings.memory.players == w.settings.memory.players
    ensures ParseAction(OptionText(action)) != NamespaceAct ==> a.world.registry == w.registry
  {
    var act := ParseAction(OptionText(action));
    if act == ActivateAct {
      a := HandleActivateCommand(w, player, value, value2);
      return;
    }
    match act
    case MenuAct =>
      a := Answer(w, MenuRequested);
    case ModeAct =>
      a := HandleModeCommand(w, value);
    case GlobalAct =>
      a := HandleGlobalCommand(w, value);
    case NamespaceAct =>
      a := HandleNamespaceCommand(w, value, value2, value3);
    case UnknownAct =>
      a := Answer(w, Usage);
  }
}
