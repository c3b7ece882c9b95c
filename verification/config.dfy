/**
 * Settings resolution: the three mode presets, the normalisers that turn
 * whatever is stored or patched into a well-formed runtime record and
 * component-visibility map, the per-player override merge, visibility
 * policy evaluation and the final flattening into display settings.
 *
 * The runtime record and the component map are JavaScript objects whose
 * fields are described by the tables `RuntimeSpec` and `ComponentKeys`;
 * every normaliser walks those tables in their order.
 */
module Config {
  import opened Wrappers
  import opened Text
  import opened JsValue
  import opened OrderedMaps

  // ---------------------------------------------------------------------------
  // Option tables
  // ---------------------------------------------------------------------------

  const Modes: seq<string> := ["essential", "detailed", "debug"]
  const DefaultMode: string := "essential"

  const Policies: seq<string> := ["show", "sneak", "creative", "hide"]

  const EffectDisplayModes: seq<string> := ["emoji", "text"]
  /** The selectable display styles; the legacy "text" is accepted as input only. */
  const DisplayStyles: seq<string> := ["icon", "text_full", "text_percent", "hybrid_full", "hybrid_percent"]
  const NameDisplayModes: seq<string> :=
    ["nickname_first", "mob_name_first", "nickname_after_mob_name", "mob_name_after_nickname", "nickname_only", "mob_name_only"]
  const NameResolveModes: seq<string> := ["translation_keys", "typeid_text"]
  const VillagerProfessionModes: seq<string> := ["after_name", "below_name", "hidden"]
  const ToolTierModes: seq<string> := ["hidden", "boolean_indicator", "tier_indicator_color", "tier_indicator_ore", "text_indicator"]
  const ToolPlacementModes: seq<string> := ["before_name", "after_name", "below_name"]
  const ToolColors: seq<string> := ["\U{00A7}7", "\U{00A7}f", "\U{00A7}e", "\U{00A7}a", "\U{00A7}b", "\U{00A7}9", "\U{00A7}d", "\U{00A7}c"]

  /** Every component whose visibility is configurable, in definition order. */
  const ComponentKeys: seq<string> := [
    "namespace", "customFields", "customEnergyInfo", "customRotationInfo", "customMachineProgress",
    "customVariantPreview", "blockStates", "blockTags", "health", "absorption", "armor", "hunger",
    "hungerEffect", "airBubbles", "effects", "effectHearts", "frozenHearts", "animalHearts",
    "entityScoreboards", "tameable", "tameFoods", "technical", "coordinates", "typeId", "entityTags",
    "entityFamilies", "velocity", "namespaceResolution"]

  /** Components kept in the tables but always hidden. */
  const DeprecatedComponents: set<string> := {"frozenHearts"}

  lemma ComponentKeysDistinct()
    ensures Distinct(ComponentKeys)
  {
    ComponentKeysApart0(); ComponentKeysApart1(); ComponentKeysApart2(); ComponentKeysApart3(); ComponentKeysApart4(); ComponentKeysApart5();
  }

  // Distinctness is shown a block of rows at a time: row i differs from every later row.

  lemma ComponentKeysApart0()
    ensures forall i, j :: 0 <= i < 2 && i < j < |ComponentKeys| ==> ComponentKeys[i] != ComponentKeys[j]
  {
  }

  lemma ComponentKeysApart1()
    ensures forall i, j :: 2 <= i < 4 && i < j < |ComponentKeys| ==> ComponentKeys[i] != ComponentKeys[j]
  {
  }

  lemma ComponentKeysApart2()
    ensures forall i, j :: 4 <= i < 7 && i < j < |ComponentKeys| ==> ComponentKeys[i] != ComponentKeys[j]
  {
  }

  lemma ComponentKeysApart3()
    ensures forall i, j :: 7 <= i < 11 && i < j < |ComponentKeys| ==> ComponentKeys[i] != ComponentKeys[j]
  {
  }

  lemma ComponentKeysApart4()
    ensures forall i, j :: 11 <= i < 16 && i < j < |ComponentKeys| ==> ComponentKeys[i] != ComponentKeys[j]
  {
  }

  lemma ComponentKeysApart5()
    ensures forall i, j :: 16 <= i < 28 && i < j < |ComponentKeys| ==> ComponentKeys[i] != ComponentKeys[j]
  {
  }

  // ---------------------------------------------------------------------------
  // Enumeration normalisers
  // ---------------------------------------------------------------------------

  /** `String(v || "").trim().toLowerCase()`: the comparable form of an option argument. */
  function OptionText(v: Js): string
  {
    Lower(Trim(CoerceText(v)))
  }

  /** An option value the normalisers produce: lower-case, non-empty, no surrounding space. */
  predicate CanonicalOption(s: string)
  {
    s != [] && forall c :: c in s ==> !IsUpperAscii(c) && !IsSpace(c)
  }

  lemma OptionTextOfCanonical(s: string)
    requires CanonicalOption(s)
    ensures OptionText(Str(s)) == s
  {
    assert s[0] in s && s[|s| - 1] in s;
    TrimStartOfUnspaced(s);
    TrimEndOfUnspaced(s);
    LowerOfLowered(s);
  }

  /** The comparable text of an argument, kept when it names an option, else `fallback`. */
  function NormalizeChoice(v: Js, options: seq<string>, fallback: string): (r: string)
    requires fallback in options
    ensures r in options
    ensures OptionText(v) in options ==> r == OptionText(v)
    ensures OptionText(v) !in options ==> r == fallback
  {
    var normalized := OptionText(v);
    if normalized in options then normalized else fallback
  }

  /** A canonical option is its own normal form. */
  lemma NormalizeChoiceOfOption(s: string, options: seq<string>, fallback: string)
    requires fallback in options && s in options && CanonicalOption(s)
    ensures NormalizeChoice(Str(s), options, fallback) == s
  {
    OptionTextOfCanonical(s);
  }

  /**
   * `normalizeMode` as written: the key is kept when the presets object
   * yields a truthy value for it, which holds for the three modes and also
   * for the names `constructor` and `__proto__` every plain object inherits.
   */
  function NormalizeModeAsWritten(mode: Js): (r: string)
    ensures OptionText(mode) in Modes ==> r == OptionText(mode)
    ensures OptionText(mode) in {"constructor", "__proto__"} ==> r == OptionText(mode)
    ensures OptionText(mode) !in Modes && OptionText(mode) !in {"constructor", "__proto__"} ==> r == DefaultMode
  {
    var normalized := OptionText(mode);
    if normalized in Modes || normalized in {"constructor", "__proto__"} then normalized else DefaultMode
  }

  /** The names every plain object inherits pass as modes although there is no such preset. */
  lemma NormalizeModeAsWrittenAcceptsInherited(name: string)
    requires name in {"constructor", "__proto__"}
    ensures NormalizeModeAsWritten(Str(name)) == name
    ensures name !in Modes
  {
    InheritedCanonical(name);
    OptionTextOfCanonical(name);
  }

  lemma InheritedCanonical(name: string)
    requires name in {"constructor", "__proto__"}
    ensures CanonicalOption(name)
  {
  }

  /** `normalizeMode` restricted to the presets' own keys: always one of the three modes. */
  function NormalizeMode(mode: Js): (r: string)
    ensures r in Modes
    ensures OptionText(mode) in Modes ==> r == OptionText(mode)
    ensures OptionText(mode) !in Modes ==> r == DefaultMode
  {
    NormalizeChoice(mode, Modes, DefaultMode)
  }

  /** The corrected and the written lookup agree on every input other than the two inherited names. */
  lemma NormalizeModeAgrees(mode: Js)
    requires OptionText(mode) !in {"constructor", "__proto__"}
    ensures NormalizeMode(mode) == NormalizeModeAsWritten(mode)
  {
    ModeLookupsAgree(OptionText(mode), NormalizeMode(mode), NormalizeModeAsWritten(mode));
  }

  /** The case analysis behind `NormalizeModeAgrees`, over the option text `t` and the two lookups' results. */
  lemma ModeLookupsAgree(t: string, corrected: string, written: string)
    requires t !in {"constructor", "__proto__"}
    requires t in Modes ==> corrected == t && written == t
    requires t !in Modes ==> corrected == DefaultMode
    requires t !in Modes && t !in {"constructor", "__proto__"} ==> written == DefaultMode
    ensures corrected == written
  {
  }

  lemma NormalizeModeOfMode(m: string)
    requires m in Modes
    ensures NormalizeMode(Str(m)) == m
  {
    ModesCanonical(m);
    OptionTextOfCanonical(m);
  }

  /** Normalising a mode twice is normalising it once. */
  lemma NormalizeModeIdempotent(mode: Js)
    ensures NormalizeMode(Str(NormalizeMode(mode))) == NormalizeMode(mode)
  {
    NormalizeModeOfMode(NormalizeMode(mode));
  }

  predicate ModeOverrideIsMode(m: Option<string>)
  {
    m.Some? ==> m.value in Modes
  }

  /** `normalizeEffectDisplayMode`. */
  function NormalizeEffectDisplayMode(mode: Js): (r: string)
    ensures r in EffectDisplayModes
    ensures OptionText(mode) in EffectDisplayModes ==> r == OptionText(mode)
    ensures OptionText(mode) !in EffectDisplayModes ==> r == "emoji"
  {
    NormalizeChoice(mode, EffectDisplayModes, "emoji")
  }

  /** `normalizeDisplayStyle`: the legacy "text" becomes "text_full"; the result is never "text". */
  function NormalizeDisplayStyle(style: Js): (r: string)
    ensures r in DisplayStyles && r != "text"
    ensures OptionText(style) == "text" ==> r == "text_full"
    ensures OptionText(style) in DisplayStyles ==> r == OptionText(style)
    ensures OptionText(style) != "text" && OptionText(style) !in DisplayStyles ==> r == "icon"
  {
    if OptionText(style) == "text" then "text_full"
    else NormalizeChoice(style, DisplayStyles, "icon")
  }

  /** `normalizeEntityNameDisplayMode`. */
  function NormalizeNameDisplayMode(mode: Js): (r: string)
    ensures r in NameDisplayModes
    ensures OptionText(mode) in NameDisplayModes ==> r == OptionText(mode)
    ensures OptionText(mode) !in NameDisplayModes ==> r == "nickname_first"
  {
    NormalizeChoice(mode, NameDisplayModes, "nickname_first")
  }

  /** `normalizeEntityNameResolveMode`. */
  function NormalizeNameResolveMode(mode: Js): (r: string)
    ensures r in NameResolveModes
    ensures OptionText(mode) in NameResolveModes ==> r == OptionText(mode)
    ensures OptionText(mode) !in NameResolveModes ==> r == "translation_keys"
  {
    NormalizeChoice(mode, NameResolveModes, "translation_keys")
  }

  /** `normalizeVillagerProfessionDisplayMode`. */
  function NormalizeVillagerProfessionMode(mode: Js): (r: string)
    ensures r in VillagerProfessionModes
    ensures OptionText(mode) in VillagerProfessionModes ==> r == OptionText(mode)
    ensures OptionText(mode) !in VillagerProfessionModes ==> r == "below_name"
  {
    NormalizeChoice(mode, VillagerProfessionModes, "below_name")
  }

  /** `normalizeToolTierIndicatorMode`. */
  function NormalizeToolTierMode(mode: Js): (r: string)
    ensures r in ToolTierModes
    ensures OptionText(mode) in ToolTierModes ==> r == OptionText(mode)
    ensures OptionText(mode) !in ToolTierModes ==> r == "boolean_indicator"
  {
    NormalizeChoice(mode, ToolTierModes, "boolean_indicator")
  }

  /** `normalizeToolIndicatorPlacementMode`. */
  function NormalizeToolPlacementMode(mode: Js): (r: string)
    ensures r in ToolPlacementModes
    ensures OptionText(mode) in ToolPlacementModes ==> r == OptionText(mode)
    ensures OptionText(mode) !in ToolPlacementModes ==> r == "before_name"
  {
    NormalizeChoice(mode, ToolPlacementModes, "before_name")
  }

  /**
   * `normalizeToolIndicatorColor`. The source compares each colour code
   * lower-cased; every code is already lower-case, so this is membership.
   */
  function NormalizeToolColor(colorCode: Js): (r: string)
    ensures r in ToolColors
    ensures OptionText(colorCode) in ToolColors ==> r == OptionText(colorCode)
    ensures OptionText(colorCode) !in ToolColors ==> r == "\U{00A7}7"
  {
    NormalizeChoice(colorCode, ToolColors, "\U{00A7}7")
  }

  /** `normalizeVisibilityPolicy`: unknown policies become "show". */
  function NormalizePolicy(policy: Js): (r: string)
    ensures r in Policies
    ensures OptionText(policy) in Policies ==> r == OptionText(policy)
    ensures OptionText(policy) !in Policies ==> r == "show"
  {
    NormalizeChoice(policy, Policies, "show")
  }

  // ---------------------------------------------------------------------------
  // Runtime record
  // ---------------------------------------------------------------------------

  /** The enumerated runtime fields, each with its own normaliser. */
  datatype Choice = EffectMode | Style | NameDisplay | NameResolve | Villager | ToolTier | ToolPlacement | ToolColor

  /** How one runtime field is normalised. */
  datatype FieldKind = NumberField(lo: real, hi: real) | BooleanField | ChoiceField(choice: Choice)

  function ChoiceOptions(c: Choice): seq<string>
  {
    match c
    case EffectMode => EffectDisplayModes
    case Style => DisplayStyles
    case NameDisplay => NameDisplayModes
    case NameResolve => NameResolveModes
    case Villager => VillagerProfessionModes
    case ToolTier => ToolTierModes
    case ToolPlacement => ToolPlacementModes
    case ToolColor => ToolColors
  }

  function NormalizeChoiceField(c: Choice, v: Js): (r: string)
    ensures r in ChoiceOptions(c)
  {
    match c
    case EffectMode => NormalizeEffectDisplayMode(v)
    case Style => NormalizeDisplayStyle(v)
    case NameDisplay => NormalizeNameDisplayMode(v)
    case NameResolve => NormalizeNameResolveMode(v)
    case Villager => NormalizeVillagerProfessionMode(v)
    case ToolTier => NormalizeToolTierMode(v)
    case ToolPlacement => NormalizeToolPlacementMode(v)
    case ToolColor => NormalizeToolColor(v)
  }

  /** Every option of every list is already in comparable form. */
  lemma ChoiceOptionsCanonical(c: Choice, s: string)
    requires s in ChoiceOptions(c)
    ensures CanonicalOption(s)
  {
    match c
    case EffectMode => EffectModesCanonical(s);
    case Style => StylesCanonical(s);
    case NameDisplay => NameDisplayCanonical(s);
    case NameResolve => NameResolveCanonical(s);
    case Villager => VillagerCanonical(s);
    case ToolTier => ToolTierCanonical(s);
    case ToolPlacement => ToolPlacementCanonical(s);
    case ToolColor => ToolColorsCanonical(s);
  }

  lemma EffectModesCanonical(s: string) requires s in EffectDisplayModes ensures CanonicalOption(s) {}
  lemma StylesCanonical(s: string) requires s in DisplayStyles ensures CanonicalOption(s) {}
  lemma NameDisplayCanonical(s: string) requires s in NameDisplayModes ensures CanonicalOption(s) {}
  lemma NameResolveCanonical(s: string) requires s in NameResolveModes ensures CanonicalOption(s) {}
  lemma VillagerCanonical(s: string) requires s in VillagerProfessionModes ensures CanonicalOption(s) {}
  lemma ToolTierCanonical(s: string) requires s in ToolTierModes ensures CanonicalOption(s) {}
  lemma ToolPlacementCanonical(s: string) requires s in ToolPlacementModes ensures CanonicalOption(s) {}
  lemma ToolColorsCanonical(s: string) requires s in ToolColors ensures CanonicalOption(s) {}
  lemma PoliciesCanonical(s: string) requires s in Policies ensures CanonicalOption(s) {}
  lemma ModesCanonical(s: string) requires s in Modes ensures CanonicalOption(s) {}

  /** A normalised option value normalises to itself. */
  lemma NormalizeChoiceFieldOfOption(c: Choice, s: string)
    requires s in ChoiceOptions(c)
    ensures NormalizeChoiceField(c, Str(s)) == s
  {
    ChoiceOptionsCanonical(c, s);
    OptionTextOfCanonical(s);
  }

  /** The runtime fields in source order, with their bounds or option lists. */
  const RuntimeSpec: seq<(string, FieldKind)> := [
    ("maxDistance", NumberField(3.0, 24.0)),
    ("updateIntervalTicks", NumberField(1.0, 20.0)),
    ("unchangedTargetRefreshTicks", NumberField(1.0, 40.0)),
    ("includeLiquidBlocks", BooleanField),
    ("includeInvisibleEntities", BooleanField),
    ("clearAfterNoTargetTicks", NumberField(0.0, 200.0)),
    ("maxVisibleStates", NumberField(0.0, 20.0)),
    ("maxVisibleBlockTags", NumberField(0.0, 20.0)),
    ("maxVisibleEntityTags", NumberField(0.0, 20.0)),
    ("maxVisibleEntityFamilies", NumberField(0.0, 20.0)),
    ("maxVisibleEffects", NumberField(0.0, 20.0)),
    ("maxHeartDisplayHealth", NumberField(20.0, 500.0)),
    ("effectDisplayMode", ChoiceField(EffectMode)),
    ("displayStyle", ChoiceField(Style)),
    ("nameDisplayMode", ChoiceField(NameDisplay)),
    ("nameResolveMode", ChoiceField(NameResolve)),
    ("villagerProfessionDisplay", ChoiceField(Villager)),
    ("toolTierIndicatorMode", ChoiceField(ToolTier)),
    ("toolIndicatorPlacement", ChoiceField(ToolPlacement)),
    ("toolIndicatorColor", ChoiceField(ToolColor)),
    ("stateColumns", NumberField(1.0, 6.0)),
    ("tagColumns", NumberField(1.0, 6.0)),
    ("familyColumns", NumberField(1.0, 6.0))]

  function RuntimeKeys(): seq<string>
  {
    Keys(RuntimeSpec)
  }

  lemma RuntimeKeysDistinct()
    ensures Distinct(RuntimeKeys())
  {
    RuntimeKeysApart0(); RuntimeKeysApart1(); RuntimeKeysApart2(); RuntimeKeysApart3(); RuntimeKeysApart4();
  }

  // As for `ComponentKeys`, a block of rows at a time.

  lemma RuntimeKeysApart0()
    ensures forall i, j :: 0 <= i < 2 && i < j < |RuntimeSpec| ==> RuntimeSpec[i].0 != RuntimeSpec[j].0
  {
  }

  lemma RuntimeKeysApart1()
    ensures forall i, j :: 2 <= i < 4 && i < j < |RuntimeSpec| ==> RuntimeSpec[i].0 != RuntimeSpec[j].0
  {
  }

  lemma RuntimeKeysApart2()
    ensures forall i, j :: 4 <= i < 7 && i < j < |RuntimeSpec| ==> RuntimeSpec[i].0 != RuntimeSpec[j].0
  {
  }

  lemma RuntimeKeysApart3()
    ensures forall i, j :: 7 <= i < 11 && i < j < |RuntimeSpec| ==> RuntimeSpec[i].0 != RuntimeSpec[j].0
  {
  }

  lemma RuntimeKeysApart4()
    ensures forall i, j :: 11 <= i < 23 && i < j < |RuntimeSpec| ==> RuntimeSpec[i].0 != RuntimeSpec[j].0
  {
  }

  lemma RuntimeBoundsOrdered(i: nat)
    requires i < |RuntimeSpec|
    ensures RuntimeSpec[i].1.NumberField? ==> RuntimeSpec[i].1.lo <= RuntimeSpec[i].1.hi
  {
  }

  function Clamp(value: real, lo: real, hi: real): (r: real)
    requires lo <= hi
    ensures lo <= r <= hi
    ensures lo <= value <= hi ==> r == value
    ensures value < lo ==> r == lo
    ensures value > hi ==> r == hi
  {
    if value < lo then lo else if value > hi then hi else value
  }

  /** `Math.max(lo, Math.min(hi, n))` on a JavaScript number: infinities clamp, NaN stays NaN. */
  function ClampNumber(n: JsNumber, lo: real, hi: real): (r: JsNumber)
    requires lo <= hi
    ensures n.NaN? <==> r.NaN?
    ensures r.Finite? ==> lo <= r.value <= hi
  {
    match n
    case Finite(x) => Finite(Clamp(x, lo, hi))
    case PosInfinity => Finite(hi)
    case NegInfinity => Finite(lo)
    case NaN => NaN
  }

  /** A field value the normaliser of `kind` can produce. */
  predicate FieldOk(kind: FieldKind, v: Js)
  {
    match kind
    case NumberField(lo, hi) => v.Num? && v.n.Finite? && lo <= v.n.value <= hi
    case BooleanField => v.Bool?
    case ChoiceField(c) => v.Str? && v.s in ChoiceOptions(c)
  }

  /**
   * One field of `normalizeRuntime`: a finite number is clamped, anything
   * else falls back to the preset's value (then clamped); a boolean is kept,
   * anything else falls back; an option is normalised from the raw value or,
   * when that is null or undefined, from the preset's.
   */
  function NormalizeField(kind: FieldKind, raw: Js, fallback: Js): (r: Js)
    requires kind.NumberField? ==> kind.lo <= kind.hi
    ensures kind.NumberField? && IsFiniteNumber(raw) ==> r == Num(Finite(Clamp(raw.n.value, kind.lo, kind.hi)))
    ensures kind.NumberField? && !IsFiniteNumber(raw) ==> r == Num(ClampNumber(ToNumber(fallback), kind.lo, kind.hi))
    ensures kind.BooleanField? ==> r == (if raw.Bool? then raw else fallback)
    ensures kind.ChoiceField? ==> r.Str? && r.s in ChoiceOptions(kind.choice)
    ensures FieldOk(kind, fallback) ==> FieldOk(kind, r)
    ensures FieldOk(kind, raw) ==> r == raw
  {
    match kind
    case NumberField(lo, hi) =>
      if IsFiniteNumber(raw) then Num(Finite(Clamp(raw.n.value, lo, hi)))
      else Num(ClampNumber(ToNumber(fallback), lo, hi))
    case BooleanField => if raw.Bool? then raw else fallback
    case ChoiceField(c) =>
      var r := Str(NormalizeChoiceField(c, Coalesce(raw, fallback)));
      assert FieldOk(kind, raw) ==> r == raw by {
        if FieldOk(kind, raw) {
          NormalizeChoiceFieldOfOption(c, raw.s);
        }
      }
      r
  }

  /** Normalising a field twice is normalising it once, for a well-formed fallback. */
  lemma NormalizeFieldIdempotent(kind: FieldKind, raw: Js, fallback: Js)
    requires kind.NumberField? ==> kind.lo <= kind.hi
    requires FieldOk(kind, fallback)
    ensures NormalizeField(kind, NormalizeField(kind, raw, fallback), fallback) == NormalizeField(kind, raw, fallback)
  {
  }

  /** `runtimeCandidate && typeof runtimeCandidate === "object" ? runtimeCandidate : {}`. */
  function ObjectOrEmpty(v: Js): (r: Js)
    ensures r.Obj? || r.Arr?
    ensures Truthy(v) && IsObjectLike(v) ==> r == v
  {
    if Truthy(v) && IsObjectLike(v) then v else Obj([])
  }

  /** `normalizeRuntime`: every field of the table, normalised against the preset runtime. */
  function NormalizeRuntime(candidate: Js, presetRuntime: Js): (r: Js)
    ensures r.Obj? && Keys(r.entries) == RuntimeKeys()
    ensures forall i :: 0 <= i < |RuntimeSpec| ==>
      r.entries[i].1 == NormalizeField(RuntimeSpec[i].1, Prop(ObjectOrEmpty(candidate), RuntimeSpec[i].0), Prop(presetRuntime, RuntimeSpec[i].0))
  {
    var c := ObjectOrEmpty(candidate);
    Obj(seq(|RuntimeSpec|, i requires 0 <= i < |RuntimeSpec| =>
      (RuntimeSpec[i].0, NormalizeField(RuntimeSpec[i].1, Prop(c, RuntimeSpec[i].0), Prop(presetRuntime, RuntimeSpec[i].0)))))
  }

  /** A runtime record as `normalizeRuntime` produces it: the table's fields in order, each well-formed. */
  predicate NormalizedRuntime(r: Js)
  {
    r.Obj? && |r.entries| == |RuntimeSpec|
    && (forall i :: 0 <= i < |RuntimeSpec| ==> r.entries[i].0 == RuntimeSpec[i].0)
    && forall i :: 0 <= i < |RuntimeSpec| ==> FieldOk(RuntimeSpec[i].1, r.entries[i].1)
  }

  /** A preset runtime: every field of the table reads as a well-formed value. */
  predicate WellFormedRuntime(r: Js)
  {
    forall i :: 0 <= i < |RuntimeSpec| ==> FieldOk(RuntimeSpec[i].1, Prop(r, RuntimeSpec[i].0))
  }

  /** In an object whose keys are distinct, reading a key gives the entry holding it. */
  lemma ReadDistinct(entries: seq<(string, Js)>, i: nat)
    requires Distinct(Keys(entries)) && i < |entries|
    ensures Prop(Obj(entries), entries[i].0) == entries[i].1
  {
    ReadLast(entries, i);
  }

  lemma {:induction false} ReadLast(entries: seq<(string, Js)>, i: nat)
    requires i < |entries|
    requires forall j :: i < j < |entries| ==> entries[j].0 != entries[i].0
    ensures LookupEntry(entries, entries[i].0) == entries[i].1
    decreases |entries|
  {
    if i < |entries| - 1 {
      var front := entries[..|entries| - 1];
      assert front[i] == entries[i];
      ReadLast(front, i);
    }
  }

  /** Reading a field of a normalised runtime gives the entry at that field's position. */
  lemma ReadNormalizedRuntime(r: Js, i: nat)
    requires NormalizedRuntime(r) && i < |RuntimeSpec|
    ensures Prop(r, RuntimeSpec[i].0) == r.entries[i].1
  {
    RuntimeKeysDistinct();
    assert Keys(r.entries) == RuntimeKeys();
    ReadDistinct(r.entries, i);
  }

  lemma NormalizedRuntimeWellFormed(r: Js)
    requires NormalizedRuntime(r)
    ensures WellFormedRuntime(r)
  {
    forall i | 0 <= i < |RuntimeSpec|
      ensures FieldOk(RuntimeSpec[i].1, Prop(r, RuntimeSpec[i].0))
    {
      ReadNormalizedRuntime(r, i);
    }
  }

  /** Against a well-formed preset, every numeric field lands within its bounds and every option is valid. */
  lemma NormalizeRuntimeInRange(candidate: Js, presetRuntime: Js)
    requires WellFormedRuntime(presetRuntime)
    ensures NormalizedRuntime(NormalizeRuntime(candidate, presetRuntime))
  {
    var r := NormalizeRuntime(candidate, presetRuntime);
    forall i | 0 <= i < |RuntimeSpec|
      ensures r.entries[i].0 == RuntimeSpec[i].0 && FieldOk(RuntimeSpec[i].1, r.entries[i].1)
    {
      assert Keys(r.entries)[i] == RuntimeKeys()[i];
    }
  }

  /** A normalised runtime is left unchanged by normalising it again, against any preset. */
  lemma NormalizeRuntimeIdempotent(r: Js, presetRuntime: Js)
    requires NormalizedRuntime(r)
    ensures NormalizeRuntime(r, presetRuntime) == r
  {
    var n := NormalizeRuntime(r, presetRuntime);
    assert ObjectOrEmpty(r) == r;
    forall i | 0 <= i < |RuntimeSpec|
      ensures n.entries[i] == r.entries[i]
    {
      ReadNormalizedRuntime(r, i);
      assert Keys(n.entries)[i] == RuntimeKeys()[i];
    }
    assert n.entries == r.entries;
  }

  // ---------------------------------------------------------------------------
  // Component visibility
  // ---------------------------------------------------------------------------

  /**
   * `normalizeComponents`: for every defined component, a truthy raw value
   * is normalised as a policy (unknown text becomes "show"), a falsy one
   * falls back to the preset, and a deprecated component is always "hide".
   */
  function NormalizeComponents(candidate: Js, presetComponents: Js): (r: Js)
    ensures r.Obj? && Keys(r.entries) == ComponentKeys
    ensures forall i :: 0 <= i < |ComponentKeys| ==> r.entries[i].1 == ComponentValue(ObjectOrEmpty(candidate), presetComponents, ComponentKeys[i])
  {
    var c := ObjectOrEmpty(candidate);
    Obj(seq(|ComponentKeys|, i requires 0 <= i < |ComponentKeys| =>
      (ComponentKeys[i], ComponentValue(c, presetComponents, ComponentKeys[i]))))
  }

  /** The policy `normalizeComponents` stores for one component. */
  function ComponentValue(c: Js, presetComponents: Js, key: string): (r: Js)
    ensures key in DeprecatedComponents ==> r == Str("hide")
    ensures key !in DeprecatedComponents && Truthy(Prop(c, key)) ==> r == Str(NormalizePolicy(Prop(c, key)))
    ensures key !in DeprecatedComponents && !Truthy(Prop(c, key)) ==> r == Prop(presetComponents, key)
  {
    if key in DeprecatedComponents then Str("hide")
    else if Truthy(Prop(c, key)) then Str(NormalizePolicy(Prop(c, key)))
    else Prop(presetComponents, key)
  }

  predicate PolicyValue(v: Js)
  {
    v.Str? && v.s in Policies
  }

  /** A component map as `normalizeComponents` produces it. */
  predicate NormalizedComponents(r: Js)
  {
    r.Obj? && |r.entries| == |ComponentKeys|
    && (forall i :: 0 <= i < |ComponentKeys| ==> r.entries[i].0 == ComponentKeys[i])
    && (forall i :: 0 <= i < |ComponentKeys| ==> PolicyValue(r.entries[i].1))
    && forall i :: 0 <= i < |ComponentKeys| && ComponentKeys[i] in DeprecatedComponents ==> r.entries[i].1 == Str("hide")
  }

  /** A preset component map: every defined component reads as a policy. */
  predicate WellFormedComponents(p: Js)
  {
    forall i :: 0 <= i < |ComponentKeys| ==> PolicyValue(Prop(p, ComponentKeys[i]))
  }

  lemma ReadNormalizedComponents(r: Js, i: nat)
    requires r.Obj? && Keys(r.entries) == ComponentKeys && i < |ComponentKeys|
    ensures Prop(r, ComponentKeys[i]) == r.entries[i].1
  {
    ComponentKeysDistinct();
    ReadDistinct(r.entries, i);
  }

  /** Every component of the result holds a policy, and a deprecated one holds "hide". */
  lemma NormalizeComponentsWellFormed(candidate: Js, presetComponents: Js)
    requires WellFormedComponents(presetComponents)
    ensures NormalizedComponents(NormalizeComponents(candidate, presetComponents))
  {
    var r := NormalizeComponents(candidate, presetComponents);
    forall i | 0 <= i < |ComponentKeys|
      ensures r.entries[i].0 == ComponentKeys[i]
    {
      assert Keys(r.entries)[i] == ComponentKeys[i];
    }
  }

  lemma NormalizedComponentsWellFormed(r: Js)
    requires NormalizedComponents(r)
    ensures WellFormedComponents(r)
  {
    forall i | 0 <= i < |ComponentKeys|
      ensures PolicyValue(Prop(r, ComponentKeys[i]))
    {
      assert Keys(r.entries) == ComponentKeys;
      ReadNormalizedComponents(r, i);
    }
  }

  /** A normalised component map's own policy is what `normalizeComponents` keeps for it. */
  lemma ComponentValueOfNormalized(r: Js, presetComponents: Js, i: nat)
    requires NormalizedComponents(r) && i < |ComponentKeys|
    ensures ComponentValue(r, presetComponents, ComponentKeys[i]) == r.entries[i].1
  {
    assert Keys(r.entries) == ComponentKeys;
    ReadNormalizedComponents(r, i);
    var v := r.entries[i].1;
    if ComponentKeys[i] !in DeprecatedComponents {
      PoliciesCanonical(v.s);
      OptionTextOfCanonical(v.s);
    }
  }

  /** A normalised component map is left unchanged by normalising it again, against any preset. */
  lemma NormalizeComponentsIdempotent(r: Js, presetComponents: Js)
    requires NormalizedComponents(r)
    ensures NormalizeComponents(r, presetComponents) == r
  {
    var n := NormalizeComponents(r, presetComponents);
    forall i | 0 <= i < |ComponentKeys|
      ensures n.entries[i] == r.entries[i]
    {
      ComponentValueOfNormalized(r, presetComponents, i);
      assert Keys(n.entries)[i] == ComponentKeys[i];
    }
    assert n.entries == r.entries;
  }

  // ---------------------------------------------------------------------------
  // Presets
  // ---------------------------------------------------------------------------

  datatype Preset = Preset(title: string, runtime: Js, components: Js)

  /** The settings of a preset, one value per field of `RuntimeSpec`. */
  function PresetValues(maxDistance: real, interval: real, refresh: real, liquids: bool, clearAfter: real,
                        states: real, blockTags: real, entityTags: real, families: real, effects: real, columns: real): (vs: seq<Js>)
    ensures |vs| == |RuntimeSpec|
  {
    PresetNumberValues(maxDistance, interval, refresh, liquids, clearAfter, states, blockTags, entityTags, families, effects)
    + PresetStyleValues + [Num(Finite(columns)), Num(Finite(columns)), Num(Finite(columns))]
  }

  /** The first twelve fields: distances, timings, flags and list limits. */
  function PresetNumberValues(maxDistance: real, interval: real, refresh: real, liquids: bool, clearAfter: real,
                              states: real, blockTags: real, entityTags: real, families: real, effects: real): (vs: seq<Js>)
    ensures |vs| == 12
  {
    [Num(Finite(maxDistance)), Num(Finite(interval)), Num(Finite(refresh)), Bool(liquids), Bool(true),
     Num(Finite(clearAfter)), Num(Finite(states)), Num(Finite(blockTags)), Num(Finite(entityTags)),
     Num(Finite(families)), Num(Finite(effects)), Num(Finite(100.0))]
  }

  /** The eight style fields every preset shares. */
  const PresetStyleValues: seq<Js> := [Str("emoji"), Str("icon"), Str("nickname_first"), Str("translation_keys"),
    Str("below_name"), Str("boolean_indicator"), Str("before_name"), Str("\U{00A7}7")]

  /** The runtime object holding `values` under the keys of `RuntimeSpec`. */
  function RuntimeOf(values: seq<Js>): (r: Js)
    requires |values| == |RuntimeSpec|
    ensures r.Obj? && Keys(r.entries) == RuntimeKeys()
  {
    Obj(seq(|RuntimeSpec|, i requires 0 <= i < |RuntimeSpec| => (RuntimeSpec[i].0, values[i])))
  }

  /** A component map from policies listed in `ComponentKeys` order. */
  function ComponentsOf(policies: seq<string>): Js
    requires |policies| == |ComponentKeys|
  {
    Obj(seq(|ComponentKeys|, i requires 0 <= i < |ComponentKeys| => (ComponentKeys[i], Str(policies[i]))))
  }

  const EssentialPolicies: seq<string> := [
    "show", "show", "show", "sneak", "sneak", "sneak", "show", "hide", "show", "show", "show", "show",
    "show", "show", "show", "show", "show", "show", "sneak", "show", "sneak", "hide", "hide", "hide",
    "hide", "hide", "hide", "hide"]

  const DetailedPolicies: seq<string> := [
    "show", "show", "show", "show", "show", "show", "show", "sneak", "show", "show", "show", "show",
    "show", "show", "show", "show", "show", "show", "show", "show", "show", "sneak", "sneak", "sneak",
    "sneak", "sneak", "sneak", "hide"]

  const DebugPolicies: seq<string> := [
    "show", "show", "show", "show", "show", "show", "show", "show", "show", "show", "show", "show",
    "show", "show", "show", "show", "show", "show", "show", "show", "show", "show", "show", "show",
    "show", "show", "show", "show"]

  /** `InsightModePresets[mode]` for one of the three modes. */
  function PresetOf(mode: string): (p: Preset)
    requires mode in Modes
  {
    if mode == "essential" then
      Preset("Essential", RuntimeOf(PresetValues(7.0, 3.0, 8.0, false, 20.0, 2.0, 2.0, 0.0, 0.0, 3.0, 1.0)), ComponentsOf(EssentialPolicies))
    else if mode == "detailed" then
      Preset("Detailed", RuntimeOf(PresetValues(9.0, 2.0, 8.0, false, 30.0, 6.0, 6.0, 4.0, 4.0, 5.0, 1.0)), ComponentsOf(DetailedPolicies))
    else
      Preset("Debug", RuntimeOf(PresetValues(12.0, 1.0, 6.0, true, 40.0, 12.0, 12.0, 12.0, 12.0, 8.0, 2.0)), ComponentsOf(DebugPolicies))
  }

  /** A runtime built from in-range settings is a normalised runtime. */
  lemma PresetValuesNormalized(maxDistance: real, interval: real, refresh: real, liquids: bool, clearAfter: real,
                               states: real, blockTags: real, entityTags: real, families: real, effects: real, columns: real)
    requires 3.0 <= maxDistance <= 24.0 && 1.0 <= interval <= 20.0 && 1.0 <= refresh <= 40.0 && 0.0 <= clearAfter <= 200.0
    requires 0.0 <= states <= 20.0 && 0.0 <= blockTags <= 20.0 && 0.0 <= entityTags <= 20.0
    requires 0.0 <= families <= 20.0 && 0.0 <= effects <= 20.0 && 1.0 <= columns <= 6.0
    ensures NormalizedRuntime(RuntimeOf(PresetValues(maxDistance, interval, refresh, liquids, clearAfter, states, blockTags, entityTags, families, effects, columns)))
  {
    var numbers := PresetNumberValues(maxDistance, interval, refresh, liquids, clearAfter, states, blockTags, entityTags, families, effects);
    var columnValues := [Num(Finite(columns)), Num(Finite(columns)), Num(Finite(columns))];
    var vs := numbers + PresetStyleValues + columnValues;
    PresetNumbers(maxDistance, interval, refresh, liquids, clearAfter, states, blockTags, entityTags, families, effects);
    PresetChoices();
    PresetColumns(columns);
    forall i | 0 <= i < |RuntimeSpec| ensures FieldOk(RuntimeSpec[i].1, vs[i]) {
      if i < 12 {
        assert vs[i] == numbers[i];
      } else if i < 20 {
        assert vs[i] == PresetStyleValues[i - 12];
      } else {
        assert vs[i] == columnValues[i - 20];
      }
    }
    RuntimeOfNormalized(vs);
  }

  /** Values each within its field's range make a normalised runtime. */
  lemma RuntimeOfNormalized(vs: seq<Js>)
    requires |vs| == |RuntimeSpec|
    requires forall i :: 0 <= i < |RuntimeSpec| ==> FieldOk(RuntimeSpec[i].1, vs[i])
    ensures NormalizedRuntime(RuntimeOf(vs))
  {
    var r := RuntimeOf(vs);
    forall i | 0 <= i < |RuntimeSpec|
      ensures r.entries[i].0 == RuntimeSpec[i].0 && FieldOk(RuntimeSpec[i].1, r.entries[i].1)
    {
      assert Keys(r.entries)[i] == RuntimeKeys()[i];
    }
  }

  lemma PresetNumbers(maxDistance: real, interval: real, refresh: real, liquids: bool, clearAfter: real,
                      states: real, blockTags: real, entityTags: real, families: real, effects: real)
    requires 3.0 <= maxDistance <= 24.0 && 1.0 <= interval <= 20.0 && 1.0 <= refresh <= 40.0 && 0.0 <= clearAfter <= 200.0
    requires 0.0 <= states <= 20.0 && 0.0 <= blockTags <= 20.0 && 0.0 <= entityTags <= 20.0
    requires 0.0 <= families <= 20.0 && 0.0 <= effects <= 20.0
    ensures var vs := PresetNumberValues(maxDistance, interval, refresh, liquids, clearAfter, states, blockTags, entityTags, families, effects);
      forall i :: 0 <= i < 12 ==> FieldOk(RuntimeSpec[i].1, vs[i])
  {
    var vs := PresetNumberValues(maxDistance, interval, refresh, liquids, clearAfter, states, blockTags, entityTags, families, effects);
    forall i | 0 <= i < 12 ensures FieldOk(RuntimeSpec[i].1, vs[i]) {
      if i == 0 {}
      else if i == 1 {}
      else if i == 2 {}
      else if i == 3 {}
      else if i == 4 {}
      else if i == 5 {}
      else if i == 6 {}
      else if i == 7 {}
      else if i == 8 {}
      else if i == 9 {}
      else if i == 10 {}
      else {}
    }
  }

  lemma PresetChoices()
    ensures forall i :: 0 <= i < 8 ==> FieldOk(RuntimeSpec[12 + i].1, PresetStyleValues[i])
  {
    forall i | 0 <= i < 8 ensures FieldOk(RuntimeSpec[12 + i].1, PresetStyleValues[i]) {
      if i == 0 {}
      else if i == 1 {}
      else if i == 2 {}
      else if i == 3 {}
      else if i == 4 {}
      else if i == 5 {}
      else if i == 6 {}
      else {}
    }
  }

  lemma PresetColumns(columns: real)
    requires 1.0 <= columns <= 6.0
    ensures forall i :: 20 <= i < 23 ==> FieldOk(RuntimeSpec[i].1, Num(Finite(columns)))
  {
    forall i | 20 <= i < 23 ensures FieldOk(RuntimeSpec[i].1, Num(Finite(columns))) {
      if i == 20 {}
      else if i == 21 {}
      else {}
    }
  }

  lemma PolicyListsValid(s: string)
    ensures s in EssentialPolicies ==> s in Policies
    ensures s in DetailedPolicies ==> s in Policies
    ensures s in DebugPolicies ==> s in Policies
  {
  }

  lemma ComponentsOfNormalized(policies: seq<string>)
    requires |policies| == |ComponentKeys|
    requires forall s :: s in policies ==> s in Policies
    ensures WellFormedComponents(ComponentsOf(policies))
  {
    var c := ComponentsOf(policies);
    forall i | 0 <= i < |ComponentKeys|
      ensures PolicyValue(Prop(c, ComponentKeys[i]))
    {
      assert Keys(c.entries) == ComponentKeys;
      ReadNormalizedComponents(c, i);
      assert policies[i] in policies;
    }
  }

  /** Every preset runtime is already normalised, and every preset component reads as a policy. */
  lemma PresetsWellFormed(mode: string)
    requires mode in Modes
    ensures NormalizedRuntime(PresetOf(mode).runtime) && WellFormedRuntime(PresetOf(mode).runtime)
    ensures WellFormedComponents(PresetOf(mode).components)
  {
    var p := PresetOf(mode);
    forall s ensures s in EssentialPolicies ==> s in Policies
      ensures s in DetailedPolicies ==> s in Policies
      ensures s in DebugPolicies ==> s in Policies
    {
      PolicyListsValid(s);
    }
    if mode == "essential" {
      PresetValuesNormalized(7.0, 3.0, 8.0, false, 20.0, 2.0, 2.0, 0.0, 0.0, 3.0, 1.0);
      ComponentsOfNormalized(EssentialPolicies);
    } else if mode == "detailed" {
      PresetValuesNormalized(9.0, 2.0, 8.0, false, 30.0, 6.0, 6.0, 4.0, 4.0, 5.0, 1.0);
      ComponentsOfNormalized(DetailedPolicies);
    } else {
      PresetValuesNormalized(12.0, 1.0, 6.0, true, 40.0, 12.0, 12.0, 12.0, 12.0, 8.0, 2.0);
      ComponentsOfNormalized(DebugPolicies);
    }
    NormalizedRuntimeWellFormed(p.runtime);
  }

  // ---------------------------------------------------------------------------
  // Per-player overrides
  // ---------------------------------------------------------------------------

  /** The stored per-player settings: an optional mode, the opt-out flag, runtime and components. */
  datatype Overrides = Overrides(modeOverride: Option<string>, disabled: bool, runtime: Js, components: Js)

  predicate NormalizedOverrides(o: Overrides)
  {
    ModeOverrideIsMode(o.modeOverride)
    && NormalizedRuntime(o.runtime) && NormalizedComponents(o.components)
  }

  function ModeOverrideJs(m: Option<string>): Js
  {
    match m
    case Some(s) => Str(s)
    case None => Undefined
  }

  /** The plain object `{ modeOverride, disabled, runtime, components }`. */
  function OverridesObject(modeOverride: Js, disabled: Js, runtime: Js, components: Js): (r: Js)
    ensures r.Obj?
    ensures Prop(r, "modeOverride") == modeOverride && Prop(r, "disabled") == disabled
    ensures Prop(r, "runtime") == runtime && Prop(r, "components") == components
  {
    var es := [("modeOverride", modeOverride), ("disabled", disabled), ("runtime", runtime), ("components", components)];
    assert Distinct(Keys(es));
    ReadDistinct(es, 0);
    ReadDistinct(es, 1);
    ReadDistinct(es, 2);
    ReadDistinct(es, 3);
    Obj(es)
  }

  /** The overrides as the plain object that is kept in memory and serialised. */
  function OverridesToJs(o: Overrides): Js
  {
    OverridesObject(ModeOverrideJs(o.modeOverride), Bool(o.disabled), o.runtime, o.components)
  }

  /**
   * `normalizePlayerOverrides`: a truthy mode override is normalised,
   * `disabled` is kept only when boolean, and runtime and components are
   * normalised against the preset.
   */
  function NormalizePlayerOverrides(rawCandidate: Js, preset: Preset): (r: Overrides)
    ensures Truthy(Prop(ObjectOrEmpty(rawCandidate), "modeOverride")) ==> r.modeOverride == Some(NormalizeMode(Prop(ObjectOrEmpty(rawCandidate), "modeOverride")))
    ensures !Truthy(Prop(ObjectOrEmpty(rawCandidate), "modeOverride")) ==> r.modeOverride.None?
    ensures r.disabled <==> Prop(ObjectOrEmpty(rawCandidate), "disabled") == Bool(true)
    ensures r.runtime == NormalizeRuntime(Prop(ObjectOrEmpty(rawCandidate), "runtime"), preset.runtime)
    ensures r.components == NormalizeComponents(Prop(ObjectOrEmpty(rawCandidate), "components"), preset.components)
  {
    var raw := ObjectOrEmpty(rawCandidate);
    var m := Prop(raw, "modeOverride");
    var d := Prop(raw, "disabled");
    Overrides(
      if Truthy(m) then Some(NormalizeMode(m)) else None,
      if d.Bool? then d.b else false,
      NormalizeRuntime(Prop(raw, "runtime"), preset.runtime),
      NormalizeComponents(Prop(raw, "components"), preset.components))
  }

  /** Against a well-formed preset, whatever was stored normalises to well-formed overrides. */
  lemma NormalizePlayerOverridesWellFormed(rawCandidate: Js, preset: Preset)
    requires WellFormedRuntime(preset.runtime) && WellFormedComponents(preset.components)
    ensures NormalizedOverrides(NormalizePlayerOverrides(rawCandidate, preset))
  {
    var raw := ObjectOrEmpty(rawCandidate);
    NormalizeRuntimeInRange(Prop(raw, "runtime"), preset.runtime);
    NormalizeComponentsWellFormed(Prop(raw, "components"), preset.components);
  }

  /**
   * Normalised overrides survive being stored and read back: normalising
   * them again, against any preset, changes nothing.
   */
  lemma NormalizeOverridesFixpoint(o: Overrides, preset: Preset)
    requires NormalizedOverrides(o)
    ensures NormalizePlayerOverrides(OverridesToJs(o), preset) == o
  {
    assert ObjectOrEmpty(OverridesToJs(o)) == OverridesToJs(o);
    ReadBackMode(o.modeOverride);
    NormalizeRuntimeIdempotent(o.runtime, preset.runtime);
    NormalizeComponentsIdempotent(o.components, preset.components);
  }

  /** The mode override after a patch: an explicit falsy value clears it, an absent one keeps it. */
  function PatchedMode(current: Option<string>, patch: Js): (r: Option<string>)
    ensures Prop(patch, "modeOverride") == Undefined ==> r == current
    ensures Prop(patch, "modeOverride") != Undefined && !Truthy(Prop(patch, "modeOverride")) ==> r.None?
    ensures Truthy(Prop(patch, "modeOverride")) ==> r == Some(NormalizeMode(Prop(patch, "modeOverride")))
    ensures ModeOverrideIsMode(current) ==> ModeOverrideIsMode(r)
  {
    var pm := Prop(patch, "modeOverride");
    if pm == Undefined then current
    else if Truthy(pm) then Some(NormalizeMode(pm))
    else None
  }

  /** A stored mode override reads back as itself. */
  lemma ReadBackMode(m: Option<string>)
    requires ModeOverrideIsMode(m)
    ensures Truthy(ModeOverrideJs(m)) <==> m.Some?
    ensures m.Some? ==> NormalizeMode(ModeOverrideJs(m)) == m.value
  {
    match m
    case None =>
    case Some(v) =>
      ModeNotEmpty(v);
      NormalizeModeOfMode(v);
  }

  /** Every mode name has at least one character. */
  lemma ModeNotEmpty(m: string)
    requires m in Modes
    ensures m != []
  {
  }

  /** The object `updatePlayerOverrides` assembles before normalising it. */
  function MergedOverrides(current: Overrides, patch: Js): Js
  {
    var pd := Prop(patch, "disabled");
    OverridesObject(
      ModeOverrideJs(PatchedMode(current.modeOverride, patch)),
      Bool(if pd != Undefined then Truthy(pd) else current.disabled),
      Spread(current.runtime, Or(Prop(patch, "runtime"), Obj([]))),
      Spread(current.components, Or(Prop(patch, "components"), Obj([]))))
  }

  /**
   * The settings `updatePlayerOverrides` stores: the patch's fields laid
   * over the current ones, then normalised against the global preset.
   */
  function UpdateOverrides(current: Overrides, patch: Js, preset: Preset): (r: Overrides)
    ensures Prop(patch, "disabled") != Undefined ==> r.disabled == Truthy(Prop(patch, "disabled"))
    ensures Prop(patch, "disabled") == Undefined ==> r.disabled == current.disabled
    ensures ModeOverrideIsMode(current.modeOverride) ==> r.modeOverride == PatchedMode(current.modeOverride, patch)
  {
    var merged := MergedOverrides(current, patch);
    assert ObjectOrEmpty(merged) == merged;
    assert ModeOverrideIsMode(current.modeOverride) ==> NormalizePlayerOverrides(merged, preset).modeOverride == PatchedMode(current.modeOverride, patch) by {
      if ModeOverrideIsMode(current.modeOverride) {
        ReadBackMode(PatchedMode(current.modeOverride, patch));
      }
    }
    NormalizePlayerOverrides(merged, preset)
  }

  /** Against a well-formed preset, an update always stores well-formed overrides. */
  lemma UpdateOverridesWellFormed(current: Overrides, patch: Js, preset: Preset)
    requires WellFormedRuntime(preset.runtime) && WellFormedComponents(preset.components)
    ensures NormalizedOverrides(UpdateOverrides(current, patch, preset))
  {
    NormalizePlayerOverridesWellFormed(MergedOverrides(current, patch), preset);
  }

  /** The stored runtime and components are the spread of the patch over the current ones, normalised. */
  lemma UpdatedParts(current: Overrides, patch: Js, preset: Preset)
    ensures UpdateOverrides(current, patch, preset).runtime
      == NormalizeRuntime(Spread(current.runtime, Or(Prop(patch, "runtime"), Obj([]))), preset.runtime)
    ensures UpdateOverrides(current, patch, preset).components
      == NormalizeComponents(Spread(current.components, Or(Prop(patch, "components"), Obj([]))), preset.components)
  {
    var merged := MergedOverrides(current, patch);
    assert ObjectOrEmpty(merged) == merged;
    assert UpdateOverrides(current, patch, preset) == NormalizePlayerOverrides(merged, preset);
  }

  /**
   * A runtime field the patch names takes the patch's value (normalised);
   * a field it leaves out keeps the current value.
   */
  lemma UpdateRuntimeField(current: Overrides, patch: Js, preset: Preset, i: nat)
    requires NormalizedOverrides(current) && i < |RuntimeSpec|
    ensures var pr := Or(Prop(patch, "runtime"), Obj([]));
      var r := UpdateOverrides(current, patch, preset).runtime;
      (pr.Obj? && HasKey(pr.entries, RuntimeSpec[i].0) ==>
        r.entries[i].1 == NormalizeField(RuntimeSpec[i].1, Prop(pr, RuntimeSpec[i].0), Prop(preset.runtime, RuntimeSpec[i].0)))
      && (!(pr.Obj? && HasKey(pr.entries, RuntimeSpec[i].0)) ==> r.entries[i].1 == current.runtime.entries[i].1)
  {
    UpdatedParts(current, patch, preset);
    var spread := Spread(current.runtime, Or(Prop(patch, "runtime"), Obj([])));
    assert ObjectOrEmpty(spread) == spread;
    ReadNormalizedRuntime(current.runtime, i);
  }

  /** A component the patch names takes the patch's policy; one it leaves out keeps the current policy. */
  lemma UpdateComponentField(current: Overrides, patch: Js, preset: Preset, i: nat)
    requires NormalizedOverrides(current) && i < |ComponentKeys|
    ensures var pc := Or(Prop(patch, "components"), Obj([]));
      var r := UpdateOverrides(current, patch, preset).components;
      (pc.Obj? && HasKey(pc.entries, ComponentKeys[i]) ==>
        r.entries[i].1 == ComponentValue(pc, preset.components, ComponentKeys[i]))
      && (!(pc.Obj? && HasKey(pc.entries, ComponentKeys[i])) ==> r.entries[i].1 == current.components.entries[i].1)
  {
    UpdatedParts(current, patch, preset);
    var spread := Spread(current.components, Or(Prop(patch, "components"), Obj([])));
    assert ObjectOrEmpty(spread) == spread;
    ComponentValueOfNormalized(current.components, preset.components, i);
  }

  /** Applying the same patch twice gives the same settings as applying it once. */
  lemma UpdateOverridesIdempotent(current: Overrides, patch: Js, preset: Preset)
    requires NormalizedOverrides(current)
    requires WellFormedRuntime(preset.runtime) && WellFormedComponents(preset.components)
    ensures UpdateOverrides(UpdateOverrides(current, patch, preset), patch, preset) == UpdateOverrides(current, patch, preset)
  {
    UpdateOverridesWellFormed(current, patch, preset);
    RuntimeUpdateIdempotent(current, patch, preset);
    ComponentsUpdateIdempotent(current, patch, preset);
  }

  /** A second application of a patch leaves the runtime record as the first one made it. */
  lemma RuntimeUpdateIdempotent(current: Overrides, patch: Js, preset: Preset)
    requires NormalizedOverrides(current)
    requires WellFormedRuntime(preset.runtime) && WellFormedComponents(preset.components)
    ensures UpdateOverrides(UpdateOverrides(current, patch, preset), patch, preset).runtime == UpdateOverrides(current, patch, preset).runtime
  {
    var once := UpdateOverrides(current, patch, preset);
    var twice := UpdateOverrides(once, patch, preset);
    UpdateOverridesWellFormed(current, patch, preset);
    forall i | 0 <= i < |RuntimeSpec|
      ensures twice.runtime.entries[i] == once.runtime.entries[i]
    {
      UpdateRuntimeField(current, patch, preset, i);
      UpdateRuntimeField(once, patch, preset, i);
      assert Keys(twice.runtime.entries)[i] == Keys(once.runtime.entries)[i];
    }
    assert twice.runtime.entries == once.runtime.entries;
  }

  /** A second application of a patch leaves the component policies as the first one made them. */
  lemma ComponentsUpdateIdempotent(current: Overrides, patch: Js, preset: Preset)
    requires NormalizedOverrides(current)
    requires WellFormedRuntime(preset.runtime) && WellFormedComponents(preset.components)
    ensures UpdateOverrides(UpdateOverrides(current, patch, preset), patch, preset).components == UpdateOverrides(current, patch, preset).components
  {
    var once := UpdateOverrides(current, patch, preset);
    var twice := UpdateOverrides(once, patch, preset);
    UpdateOverridesWellFormed(current, patch, preset);
    forall i | 0 <= i < |ComponentKeys|
      ensures twice.components.entries[i] == once.components.entries[i]
    {
      UpdateComponentField(current, patch, preset, i);
      UpdateComponentField(once, patch, preset, i);
      assert Keys(twice.components.entries)[i] == Keys(once.components.entries)[i];
    }
    assert twice.components.entries == once.components.entries;
  }

  /** An empty patch leaves normalised overrides exactly as they are. */
  lemma UpdateWithEmptyPatch(current: Overrides, preset: Preset)
    requires NormalizedOverrides(current)
    ensures UpdateOverrides(current, Obj([]), preset) == current
  {
    var r := UpdateOverrides(current, Obj([]), preset);
    forall i | 0 <= i < |RuntimeSpec|
      ensures r.runtime.entries[i] == current.runtime.entries[i]
    {
      UpdateRuntimeField(current, Obj([]), preset, i);
      assert Keys(r.runtime.entries)[i] == RuntimeKeys()[i];
    }
    assert r.runtime.entries == current.runtime.entries;
    forall i | 0 <= i < |ComponentKeys|
      ensures r.components.entries[i] == current.components.entries[i]
    {
      UpdateComponentField(current, Obj([]), preset, i);
      assert Keys(r.components.entries)[i] == ComponentKeys[i];
    }
    assert r.components.entries == current.components.entries;
  }

  /** `resetPlayerOverrides`: the preset's defaults with no mode override and not disabled. */
  function DefaultOverrides(preset: Preset): (r: Overrides)
    ensures r.modeOverride.None? && !r.disabled
  {
    NormalizePlayerOverrides(Obj([]), preset)
  }

  /** A missing value takes a well-formed fallback unchanged. */
  lemma NormalizeFieldOfNothing(kind: FieldKind, fallback: Js)
    requires kind.NumberField? ==> kind.lo <= kind.hi
    requires FieldOk(kind, fallback)
    ensures NormalizeField(kind, Undefined, fallback) == fallback
  {
    if kind.ChoiceField? {
      NormalizeChoiceFieldOfOption(kind.choice, fallback.s);
    }
  }

  /** With nothing stored, every runtime field takes the preset's value. */
  lemma NormalizeRuntimeOfNothing(presetRuntime: Js)
    requires NormalizedRuntime(presetRuntime)
    ensures NormalizeRuntime(Undefined, presetRuntime) == presetRuntime
  {
    var r := NormalizeRuntime(Undefined, presetRuntime);
    forall i | 0 <= i < |RuntimeSpec|
      ensures r.entries[i] == presetRuntime.entries[i]
    {
      ReadNormalizedRuntime(presetRuntime, i);
      RuntimeBoundsOrdered(i);
      NormalizeFieldOfNothing(RuntimeSpec[i].1, presetRuntime.entries[i].1);
      assert Keys(r.entries)[i] == RuntimeKeys()[i];
    }
    assert r.entries == presetRuntime.entries;
  }

  /** Resetting yields the preset's own runtime. */
  lemma DefaultOverridesRuntime(mode: string)
    requires mode in Modes
    ensures DefaultOverrides(PresetOf(mode)).runtime == PresetOf(mode).runtime
  {
    PresetsWellFormed(mode);
    NormalizeRuntimeOfNothing(PresetOf(mode).runtime);
  }

  // ---------------------------------------------------------------------------
  // Visibility and display settings
  // ---------------------------------------------------------------------------

  datatype VisibilityContext = VisibilityContext(isSneaking: bool, isCreative: bool)

  /** `evaluateVisibilityPolicy`: show always, sneak while sneaking, creative in creative, hide never. */
  function EvaluateVisibilityPolicy(policy: Js, context: VisibilityContext): (r: bool)
    ensures NormalizePolicy(policy) == "show" ==> r
    ensures NormalizePolicy(policy) == "sneak" ==> r == context.isSneaking
    ensures NormalizePolicy(policy) == "creative" ==> r == context.isCreative
    ensures NormalizePolicy(policy) == "hide" ==> !r
    ensures OptionText(policy) !in Policies ==> r
  {
    var normalized := NormalizePolicy(policy);
    if normalized == "show" then true
    else if normalized == "sneak" then context.isSneaking
    else if normalized == "creative" then context.isCreative
    else false
  }

  /** The player tags read by `getPlayerDisplaySettings`. */
  const DisableTag: string := "insight:disable"
  const SneakOnlyTag: string := "insight:sneak_only"
  const HideNamespaceTag: string := "insight:hide_namespace"
  const HideHealthTag: string := "insight:hide_health"
  const TechnicalTag: string := "insight:technical"
  const BlockTagsTag: string := "insight:block_tags"
  const HideBlockTagsTag: string := "insight:hide_block_tags"
  const NamespaceDebugTag: string := "insight:namespace_debug"

  /** `components[key] = value` on a plain object: in place when present, appended otherwise. */
  function SetProp(o: Js, key: string, value: Js): (r: Js)
    requires o.Obj?
    ensures r.Obj? && Prop(r, key) == value
    ensures forall k :: k != key ==> Prop(r, k) == Prop(o, k)
    ensures HasKey(o.entries, key) ==> Keys(r.entries) == Keys(o.entries)
  {
    if HasKey(o.entries, key) then
      var es := seq(|o.entries|, i requires 0 <= i < |o.entries| => if o.entries[i].0 == key then (key, value) else o.entries[i]);
      SetPropReads(o.entries, es, key, value);
      assert Keys(es) == Keys(o.entries);
      Obj(es)
    else
      SpreadLookup(o.entries, [(key, value)]);
      Obj(o.entries + [(key, value)])
  }

  lemma {:induction false} SetPropReads(old_: seq<(string, Js)>, es: seq<(string, Js)>, key: string, value: Js)
    requires |es| == |old_| && HasKey(old_, key)
    requires forall i :: 0 <= i < |old_| ==> es[i] == (if old_[i].0 == key then (key, value) else old_[i])
    ensures LookupEntry(es, key) == value
    ensures forall k :: k != key ==> LookupEntry(es, k) == LookupEntry(old_, k)
    decreases |es|
  {
    var n := |es|;
    if old_[n - 1].0 != key {
      var i :| 0 <= i < |old_| && old_[i].0 == key;
      assert old_[..n - 1][i].0 == key;
      SetPropReads(old_[..n - 1], es[..n - 1], key, value);
    } else if exists i :: 0 <= i < n - 1 && old_[i].0 == key {
      SetPropReads(old_[..n - 1], es[..n - 1], key, value);
    } else {
      forall k | k != key
        ensures LookupEntry(es, k) == LookupEntry(old_, k)
      {
        SameNonKeyReads(old_[..n - 1], es[..n - 1], key, k);
      }
    }
  }

  lemma {:induction false} SameNonKeyReads(old_: seq<(string, Js)>, es: seq<(string, Js)>, key: string, k: string)
    requires |es| == |old_| && !HasKey(old_, key) && k != key
    requires forall i :: 0 <= i < |old_| ==> es[i] == old_[i]
    ensures LookupEntry(es, k) == LookupEntry(old_, k)
  {
    assert es == old_;
  }

  /** A legacy tag: while the player carries `tag`, component `key` is forced to `policy`. */
  datatype TagRule = TagRule(tag: string, key: string, policy: string)

  /** The legacy tags in the order they are applied: `hide_block_tags` after `block_tags`. */
  const LegacyTagRules: seq<TagRule> := [
    TagRule(HideNamespaceTag, "namespace", "hide"),
    TagRule(HideHealthTag, "health", "hide"),
    TagRule(TechnicalTag, "technical", "show"),
    TagRule(BlockTagsTag, "blockTags", "show"),
    TagRule(HideBlockTagsTag, "blockTags", "hide"),
    TagRule(NamespaceDebugTag, "namespaceResolution", "show")]

  /** The rules applied one after another to a component map. */
  function ApplyTagRules(components: Js, rules: seq<TagRule>, tags: set<string>): (r: Js)
    requires components.Obj?
    ensures r.Obj?
    decreases |rules|
  {
    if rules == [] then components
    else
      var before := ApplyTagRules(components, rules[..|rules| - 1], tags);
      var rule := rules[|rules| - 1];
      if rule.tag in tags then SetProp(before, rule.key, Str(rule.policy)) else before
  }

  /** The policy the last applicable rule forces on `key`, if any. */
  function ForcedPolicy(rules: seq<TagRule>, tags: set<string>, key: string): Option<string>
    decreases |rules|
  {
    if rules == [] then None
    else
      var rule := rules[|rules| - 1];
      if rule.tag in tags && rule.key == key then Some(rule.policy)
      else ForcedPolicy(rules[..|rules| - 1], tags, key)
  }

  /** After the rules, a component reads as the last applicable rule's policy, or as before when none applies. */
  lemma {:induction false} ApplyTagRulesReads(components: Js, rules: seq<TagRule>, tags: set<string>, key: string)
    requires components.Obj?
    ensures ForcedPolicy(rules, tags, key).Some? ==> Prop(ApplyTagRules(components, rules, tags), key) == Str(ForcedPolicy(rules, tags, key).value)
    ensures ForcedPolicy(rules, tags, key).None? ==> Prop(ApplyTagRules(components, rules, tags), key) == Prop(components, key)
    decreases |rules|
  {
    if rules != [] {
      ApplyTagRulesReads(components, rules[..|rules| - 1], tags, key);
    }
  }

  /** Rules whose tags the player does not carry leave the map untouched. */
  lemma {:induction false} ApplyTagRulesInert(components: Js, rules: seq<TagRule>, tags: set<string>)
    requires components.Obj?
    requires forall i :: 0 <= i < |rules| ==> rules[i].tag !in tags
    ensures ApplyTagRules(components, rules, tags) == components
    decreases |rules|
  {
    if rules != [] {
      ApplyTagRulesInert(components, rules[..|rules| - 1], tags);
    }
  }

  /** The legacy tags of `getPlayerDisplaySettings`. */
  function ApplyLegacyTags(components: Js, tags: set<string>): (r: Js)
    requires components.Obj?
    ensures r.Obj?
  {
    ApplyTagRules(components, LegacyTagRules, tags)
  }

  lemma ForcedPolicySnoc(rules: seq<TagRule>, rule: TagRule, tags: set<string>, key: string)
    ensures ForcedPolicy(rules + [rule], tags, key)
      == if rule.tag in tags && rule.key == key then Some(rule.policy) else ForcedPolicy(rules, tags, key)
  {
    assert (rules + [rule])[..|rules|] == rules;
  }

  /** `ForcedPolicy` over the legacy rules, written out rule by rule. */
  lemma LegacyForcedPolicy(tags: set<string>, key: string)
    ensures ForcedPolicy(LegacyTagRules, tags, key) ==
      if NamespaceDebugTag in tags && key == "namespaceResolution" then Some("show")
      else if HideBlockTagsTag in tags && key == "blockTags" then Some("hide")
      else if BlockTagsTag in tags && key == "blockTags" then Some("show")
      else if TechnicalTag in tags && key == "technical" then Some("show")
      else if HideHealthTag in tags && key == "health" then Some("hide")
      else if HideNamespaceTag in tags && key == "namespace" then Some("hide")
      else None
  {
    var r := LegacyTagRules;
    assert r == [] + [r[0]] + [r[1]] + [r[2]] + [r[3]] + [r[4]] + [r[5]];
    ForcedPolicySnoc([], r[0], tags, key);
    ForcedPolicySnoc([r[0]], r[1], tags, key);
    assert [r[0]] + [r[1]] == r[..2];
    ForcedPolicySnoc(r[..2], r[2], tags, key);
    assert r[..2] + [r[2]] == r[..3];
    ForcedPolicySnoc(r[..3], r[3], tags, key);
    assert r[..3] + [r[3]] == r[..4];
    ForcedPolicySnoc(r[..4], r[4], tags, key);
    assert r[..4] + [r[4]] == r[..5];
    ForcedPolicySnoc(r[..5], r[5], tags, key);
    assert r[..5] + [r[5]] == r;
  }

  /** Which legacy tag decides `blockTags`: `hide_block_tags` wins over `block_tags`. */
  lemma LegacyBlockTags(tags: set<string>)
    ensures HideBlockTagsTag in tags ==> ForcedPolicy(LegacyTagRules, tags, "blockTags") == Some("hide")
    ensures HideBlockTagsTag !in tags && BlockTagsTag in tags ==> ForcedPolicy(LegacyTagRules, tags, "blockTags") == Some("show")
    ensures HideBlockTagsTag !in tags && BlockTagsTag !in tags ==> ForcedPolicy(LegacyTagRules, tags, "blockTags") == None
  {
    LegacyForcedPolicy(tags, "blockTags");
  }

  /** The legacy tags touch only the five components they name. */
  lemma LegacyTagsScope(tags: set<string>, key: string)
    requires key !in {"namespace", "health", "technical", "blockTags", "namespaceResolution"}
    ensures ForcedPolicy(LegacyTagRules, tags, key) == None
  {
    LegacyForcedPolicy(tags, key);
  }

  /** The flattened settings of one player for one tick. */
  datatype DisplaySettings = DisplaySettings(
    mode: string,
    modeLabel: string,
    globalEnabled: bool,
    disabled: bool,
    requireSneak: bool,
    isSneaking: bool,
    isCreative: bool,
    runtime: Js,
    components: Js,
    visible: map<string, bool>)

  /** `normalizeMode(overrides.modeOverride || globalMode)`: the player's override, else the global mode. */
  function ActiveMode(modeOverride: Option<string>, globalMode: string): (r: string)
    ensures r in Modes
    ensures modeOverride.Some? && modeOverride.value in Modes ==> r == modeOverride.value
    ensures modeOverride.None? && globalMode in Modes ==> r == globalMode
  {
    var chosen := if modeOverride.Some? && modeOverride.value != [] then modeOverride.value else globalMode;
    assert modeOverride.Some? && modeOverride.value in Modes ==> modeOverride.value != [] by {
      if modeOverride.Some? && modeOverride.value in Modes { ModesCanonical(modeOverride.value); }
    }
    assert chosen in Modes ==> NormalizeMode(Str(chosen)) == chosen by {
      if chosen in Modes { NormalizeModeOfMode(chosen); }
    }
    NormalizeMode(Str(chosen))
  }

  /** Each component's policy evaluated in `context`; frozen hearts are never shown. */
  function Visibility(components: Js, context: VisibilityContext): (r: map<string, bool>)
    ensures r.Keys == set k | k in ComponentKeys
    ensures "frozenHearts" in r && !r["frozenHearts"]
    ensures forall k :: k in r && k != "frozenHearts" ==> r[k] == EvaluateVisibilityPolicy(Prop(components, k), context)
  {
    assert "frozenHearts" == ComponentKeys[16];
    map k | k in ComponentKeys :: if k == "frozenHearts" then false else EvaluateVisibilityPolicy(Prop(components, k), context)
  }

  /**
   * The pure part of `getPlayerDisplaySettings`: the active mode picks the
   * preset, runtime and components are normalised against it, the legacy
   * tags override components, and each component's policy is evaluated.
   */
  function ResolveDisplaySettings(globalEnabled: bool, globalMode: string, overrides: Overrides, tags: set<string>,
                                  isSneaking: bool, isCreative: bool): (r: DisplaySettings)
    ensures r.mode == ActiveMode(overrides.modeOverride, globalMode)
    ensures r.disabled <==> !globalEnabled || overrides.disabled || DisableTag in tags
    ensures r.requireSneak <==> SneakOnlyTag in tags
    ensures r.modeLabel == PresetOf(r.mode).title
    ensures r.visible == Visibility(r.components, VisibilityContext(isSneaking, isCreative))
  {
    var activeMode := ActiveMode(overrides.modeOverride, globalMode);
    var preset := PresetOf(activeMode);
    var runtime := NormalizeRuntime(overrides.runtime, preset.runtime);
    var components := ApplyLegacyTags(NormalizeComponents(overrides.components, preset.components), tags);
    DisplaySettings(
      activeMode, preset.title, globalEnabled,
      !globalEnabled || overrides.disabled || DisableTag in tags,
      SneakOnlyTag in tags, isSneaking, isCreative, runtime, components,
      Visibility(components, VisibilityContext(isSneaking, isCreative)))
  }

  /** Whatever is stored, the resolved runtime respects every bound and option list. */
  lemma ResolvedRuntimeInRange(globalEnabled: bool, globalMode: string, overrides: Overrides, tags: set<string>, isSneaking: bool, isCreative: bool)
    ensures NormalizedRuntime(ResolveDisplaySettings(globalEnabled, globalMode, overrides, tags, isSneaking, isCreative).runtime)
  {
    var activeMode := ActiveMode(overrides.modeOverride, globalMode);
    PresetsWellFormed(activeMode);
    NormalizeRuntimeInRange(overrides.runtime, PresetOf(activeMode).runtime);
  }

  /**
   * `hide_block_tags` beats `block_tags` and any stored policy: a player
   * carrying it never sees block tags.
   */
  lemma HideBlockTagsWins(globalEnabled: bool, globalMode: string, overrides: Overrides, tags: set<string>, isSneaking: bool, isCreative: bool)
    requires HideBlockTagsTag in tags
    ensures var r := ResolveDisplaySettings(globalEnabled, globalMode, overrides, tags, isSneaking, isCreative);
      "blockTags" in r.visible && !r.visible["blockTags"]
  {
    var r := ResolveDisplaySettings(globalEnabled, globalMode, overrides, tags, isSneaking, isCreative);
    var activeMode := ActiveMode(overrides.modeOverride, globalMode);
    var normalized := NormalizeComponents(overrides.components, PresetOf(activeMode).components);
    LegacyBlockTags(tags);
    ApplyTagRulesReads(normalized, LegacyTagRules, tags, "blockTags");
    PoliciesCanonical("hide");
    OptionTextOfCanonical("hide");
    assert "blockTags" in ComponentKeys;
  }

  /**
   * The mode override only relabels: normalised overrides already carry a
   * complete runtime and component map, so the active preset contributes
   * nothing else.
   */
  lemma ModeOverrideOnlyRelabels(globalEnabled: bool, globalMode: string, overrides: Overrides, tags: set<string>, isSneaking: bool, isCreative: bool)
    requires NormalizedOverrides(overrides)
    ensures var r := ResolveDisplaySettings(globalEnabled, globalMode, overrides, tags, isSneaking, isCreative);
      r.runtime == overrides.runtime && r.components == ApplyLegacyTags(overrides.components, tags)
  {
    var activeMode := ActiveMode(overrides.modeOverride, globalMode);
    NormalizeRuntimeIdempotent(overrides.runtime, PresetOf(activeMode).runtime);
    NormalizeComponentsIdempotent(overrides.components, PresetOf(activeMode).components);
  }
}
