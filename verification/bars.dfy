/**
 * The half-step glyph bars (hearts, hunger): each glyph stands for two
 * units, a half glyph for an odd remainder, empty glyphs for the missing
 * part of the maximum. Also the health line and the choice of glyph set.
 */
module Bars {
  import opened Text
  import opened JsValue
  import opened Layout
  import Config

  /** `Math.ceil`. */
  function Ceil(x: real): (n: int)
    ensures x <= n as real < x + 1.0
  {
    -((-x).Floor)
  }

  /** `getRoundedHalfHearts`: `Math.max(0, Math.ceil(value))`. */
  function RoundedHalfHearts(v: real): (n: nat)
    ensures v <= 0.0 ==> n == 0
    ensures v > 0.0 ==> v <= n as real < v + 1.0
  {
    if Ceil(v) < 0 then 0 else Ceil(v)
  }

  function MaxReal(a: real, b: real): real
  {
    if a >= b then a else b
  }

  /** A full, a half and an empty glyph; every glyph of the add-on is one UTF-16 code unit. */
  datatype Glyphs = Glyphs(full: char, half: char, empty: char)

  /** `glyph.repeat(n)`. */
  function Repeat(c: char, n: nat): (r: string)
    ensures |r| == n && forall i :: 0 <= i < n ==> r[i] == c
  {
    seq(n, i requires 0 <= i < n => c)
  }

  /** A bar of `full` full glyphs, then a half glyph when `half`, then `empty` empty glyphs. */
  function Cells(g: Glyphs, full: nat, half: bool, empty: nat): (r: string)
    ensures |r| == full + (if half then 1 else 0) + empty
  {
    Repeat(g.full, full) + (if half then [g.half] else []) + Repeat(g.empty, empty)
  }

  /** The units a bar shows for `currentValue`: `Math.max(0, currentValue)` rounded up. */
  function CurrentUnits(currentValue: real): nat
  {
    RoundedHalfHearts(MaxReal(0.0, currentValue))
  }

  /** The units of the maximum: `Math.max(1, maxValue)` rounded up, so at least one. */
  function MaxUnits(maxValue: real): (n: nat)
    ensures n >= 1
  {
    RoundedHalfHearts(MaxReal(1.0, maxValue))
  }

  /**
   * The glyphs of `buildHalfStepEmojiBar` before line breaking, as
   * written: `floor((roundedMax - roundedCurrent) / 2)` empty glyphs.
   */
  function BarCellsAsWritten(currentValue: real, maxValue: real, g: Glyphs): (r: string)
  {
    var rc := CurrentUnits(currentValue);
    var rm := MaxUnits(maxValue);
    Cells(g, rc / 2, rc % 2 != 0, if rm > rc then (rm - rc) / 2 else 0)
  }

  /**
   * The counts of the bar as written: `floor(rc/2)` full glyphs, one half
   * glyph exactly when `rc` is odd, `max(0, floor((rm - rc)/2))` empty
   * glyphs, none of them when the current value reaches the maximum.
   */
  lemma BarCountsAsWritten(currentValue: real, maxValue: real, g: Glyphs)
    ensures var rc := CurrentUnits(currentValue); var rm := MaxUnits(maxValue);
      var r := BarCellsAsWritten(currentValue, maxValue, g);
      var half := if rc % 2 == 1 then 1 else 0;
      var empty := if rm > rc then (rm - rc) / 2 else 0;
      |r| == rc / 2 + half + empty
      && (forall i :: 0 <= i < rc / 2 ==> r[i] == g.full)
      && (rc % 2 == 1 ==> r[rc / 2] == g.half)
      && (forall i :: rc / 2 + half <= i < |r| ==> r[i] == g.empty)
      && (currentValue >= maxValue ==> empty == 0)
  {
  }

  /**
   * With an odd maximum and an even current value below it, the bar as
   * written drops the last slot: three units at two show one glyph, while
   * at three they show two.
   */
  lemma BarAsWrittenLosesSlot(g: Glyphs)
    ensures |BarCellsAsWritten(2.0, 3.0, g)| == 1
    ensures |BarCellsAsWritten(3.0, 3.0, g)| == 2
    ensures |BarCellsAsWritten(1.0, 3.0, g)| == 2
  {
    assert CurrentUnits(2.0) == 2 && MaxUnits(3.0) == 3;
    assert CurrentUnits(3.0) == 3 && CurrentUnits(1.0) == 1;
  }

  /** `Math.ceil(n / 2)` on naturals: the glyphs `n` units fill. */
  function HalfUp(n: nat): nat
  {
    (n + 1) / 2
  }

  /** The glyphs of the bar, with the empty glyphs filling up to the maximum's glyph count. */
  function BarCells(currentValue: real, maxValue: real, g: Glyphs): (r: string)
  {
    var rc := CurrentUnits(currentValue);
    var rm := MaxUnits(maxValue);
    Cells(g, rc / 2, rc % 2 != 0, if HalfUp(rm) > HalfUp(rc) then HalfUp(rm) - HalfUp(rc) else 0)
  }

  /**
   * The corrected bar keeps the counts of full and half glyphs and always
   * spans the glyphs of the maximum (or of the current value, when it is
   * the larger), so its width no longer changes with the current value.
   */
  lemma BarCellsWidth(currentValue: real, maxValue: real, g: Glyphs)
    ensures var rc := CurrentUnits(currentValue); var rm := MaxUnits(maxValue);
      var r := BarCells(currentValue, maxValue, g);
      var half := if rc % 2 == 1 then 1 else 0;
      |r| == (if HalfUp(rm) > HalfUp(rc) then HalfUp(rm) else HalfUp(rc))
      && (forall i :: 0 <= i < rc / 2 ==> r[i] == g.full)
      && (rc % 2 == 1 ==> r[rc / 2] == g.half)
      && (forall i :: rc / 2 + half <= i < |r| ==> r[i] == g.empty)
  {
  }

  /** Where the written bar is right (an even maximum, or an odd current value) the two agree. */
  lemma BarCellsAgree(currentValue: real, maxValue: real, g: Glyphs)
    requires MaxUnits(maxValue) % 2 == 0 || CurrentUnits(currentValue) % 2 == 1
    ensures BarCells(currentValue, maxValue, g) == BarCellsAsWritten(currentValue, maxValue, g)
  {
  }

  /** Glyphs per line of a bar. */
  const MaxHeartsPerLine := 10

  /** `buildHalfStepEmojiBar`: the bar's glyphs with a line break every `maxIconsPerLine`. */
  method BuildHalfStepBar(currentValue: real, maxValue: real, g: Glyphs, maxIconsPerLine: int) returns (r: string)
    ensures maxIconsPerLine != 0 ==> r == Join(Chunks(BarCells(currentValue, maxValue, g), Abs(maxIconsPerLine)), "\n")
    ensures maxIconsPerLine == 0 || |BarCells(currentValue, maxValue, g)| <= maxIconsPerLine ==> r == BarCells(currentValue, maxValue, g)
  {
    r := AddLineBreakEvery(BarCells(currentValue, maxValue, g), maxIconsPerLine);
  }

  // ---------------------------------------------------------------------------
  // Health line
  // ---------------------------------------------------------------------------

  /** A health line: the text form (its `toFixed(1)` rendering is not modelled) or rendered glyph text. */
  datatype HealthLine = FixedText(current: real, max: real) | Rendered(text: string)

  /** The largest health drawn as hearts when the setting is not a finite number. */
  const DefaultMaxHeartDisplayHealth := 100.0

  /** `Number.isFinite(h) ? Math.max(1, h) : 100`. */
  function HeartThreshold(maxHeartDisplayHealth: JsNumber): (t: real)
    ensures t >= 1.0
    ensures maxHeartDisplayHealth.Finite? ==> t == MaxReal(1.0, maxHeartDisplayHealth.value)
    ensures !maxHeartDisplayHealth.Finite? ==> t == DefaultMaxHeartDisplayHealth
  {
    if maxHeartDisplayHealth.Finite? then MaxReal(1.0, maxHeartDisplayHealth.value) else DefaultMaxHeartDisplayHealth
  }

  /** Whether current or maximum health exceeds what is drawn as hearts. */
  predicate OverThreshold(currentValue: real, maxValue: real, maxHeartDisplayHealth: JsNumber)
  {
    MaxReal(1.0, maxValue) > HeartThreshold(maxHeartDisplayHealth) || MaxReal(0.0, currentValue) > HeartThreshold(maxHeartDisplayHealth)
  }

  /** The numeric form: red rounded-up current health, a white slash, red rounded-up maximum, and the full glyph. */
  function NumericHealth(current: real, max: real, g: Glyphs): string
  {
    "\U{00A7}c" + IntToString(Ceil(current)) + "\U{00A7}f/\U{00A7}c" + IntToString(Ceil(max)) + [g.full]
  }

  /**
   * `buildHealthDisplay`: the text form for the legacy "text" style (see
   * `IsTextStyleAsWritten`); otherwise the numeric form when current or
   * maximum health exceeds the threshold, and the heart bar (ten glyphs a
   * line) when neither does.
   */
  method BuildHealthDisplay(currentValue: real, maxValue: real, maxHeartDisplayHealth: JsNumber, displayStyle: string, g: Glyphs)
    returns (r: HealthLine)
    ensures IsTextStyleAsWritten(displayStyle) <==> r.FixedText?
    ensures r.FixedText? ==> r == FixedText(MaxReal(0.0, currentValue), MaxReal(1.0, maxValue))
    ensures !IsTextStyleAsWritten(displayStyle) ==> r.Rendered?
    ensures !IsTextStyleAsWritten(displayStyle) && OverThreshold(currentValue, maxValue, maxHeartDisplayHealth) ==>
      r.text == NumericHealth(MaxReal(0.0, currentValue), MaxReal(1.0, maxValue), g)
    ensures !IsTextStyleAsWritten(displayStyle) && !OverThreshold(currentValue, maxValue, maxHeartDisplayHealth) ==>
      r.text == Join(Chunks(BarCells(currentValue, maxValue, g), MaxHeartsPerLine), "\n")
  {
    var current := MaxReal(0.0, currentValue);
    var max := MaxReal(1.0, maxValue);
    if IsTextStyleAsWritten(displayStyle) {
      return FixedText(current, max);
    }
    var threshold := HeartThreshold(maxHeartDisplayHealth);
    if max > threshold || current > threshold {
      return Rendered(NumericHealth(current, max, g));
    }
    assert CurrentUnits(current) == CurrentUnits(currentValue) && MaxUnits(max) == MaxUnits(maxValue);
    var bar := BuildHalfStepBar(current, max, g, MaxHeartsPerLine);
    r := Rendered(bar);
  }

  /**
   * `isTextDisplayStyle`: whether a display style asks for text. The
   * builders compare against the legacy alias "text" only.
   */
  predicate IsTextStyleAsWritten(style: string)
  {
    style == "text"
  }

  /**
   * The stored style is always normalised, and normalisation turns "text"
   * into "text_full", so as written no style a player can choose reaches
   * the text form, not even the one offered as "Text Type 1".
   */
  lemma TextStyleAsWrittenUnreachable(style: Js)
    ensures !IsTextStyleAsWritten(Config.NormalizeDisplayStyle(style))
    ensures Config.NormalizeDisplayStyle(Str("text")) == "text_full"
  {
    Config.OptionTextOfCanonical("text");
  }

  /** The styles that name a text type: both text types and the legacy alias. */
  predicate IsTextStyle(style: string)
  {
    style == "text" || style == "text_full" || style == "text_percent"
  }

  /** Normalising a style keeps it a text type exactly when the chosen option (trimmed, lower-cased) is a text type or the legacy alias. */
  lemma TextStyleReachable(style: Js)
    ensures IsTextStyle(Config.NormalizeDisplayStyle(style)) <==> IsTextStyle(Config.OptionText(style))
  {
    TextStyleOfChoice(Config.OptionText(style), Config.NormalizeDisplayStyle(style));
  }

  /** The case analysis behind `TextStyleReachable`, over the option text `t` and the style `r` it normalises to. */
  lemma TextStyleOfChoice(t: string, r: string)
    requires t == "text" ==> r == "text_full"
    requires t in Config.DisplayStyles ==> r == t
    requires t != "text" && t !in Config.DisplayStyles ==> r == "icon"
    ensures IsTextStyle(r) <==> IsTextStyle(t)
  {
    assert "text_full" in Config.DisplayStyles && "text_percent" in Config.DisplayStyles;
  }

  /** Within the threshold the health is drawn as a bar: glyphs and line breaks only, never the numeric form's colour codes. */
  lemma BarHasOnlyGlyphs(currentValue: real, maxValue: real, g: Glyphs)
    ensures forall c :: c in Join(Chunks(BarCells(currentValue, maxValue, g), MaxHeartsPerLine), "\n") ==>
      c == g.full || c == g.half || c == g.empty || c == '\n'
  {
    var cells := BarCells(currentValue, maxValue, g);
    var rc := CurrentUnits(currentValue);
    var rm := MaxUnits(maxValue);
    CellsAreGlyphs(g, rc / 2, rc % 2 != 0, if HalfUp(rm) > HalfUp(rc) then HalfUp(rm) - HalfUp(rc) else 0);
    var parts := Chunks(cells, MaxHeartsPerLine);
    forall i | 0 <= i < |parts|
      ensures forall c :: c in parts[i] ==> c == g.full || c == g.half || c == g.empty
    {
      ChunkWithin(cells, MaxHeartsPerLine, i);
    }
    JoinWithin(parts, "\n", c => c == g.full || c == g.half || c == g.empty || c == '\n');
  }

  /** A bar's cells are its three glyphs only. */
  lemma CellsAreGlyphs(g: Glyphs, full: nat, half: bool, empty: nat)
    ensures forall c :: c in Cells(g, full, half, empty) ==> c == g.full || c == g.half || c == g.empty
  {
  }

  /** Joining parts and a separator whose characters all satisfy `ok` gives such characters only. */
  lemma JoinWithin(parts: seq<string>, sep: string, ok: char -> bool)
    requires forall i :: 0 <= i < |parts| ==> forall c :: c in parts[i] ==> ok(c)
    requires forall c :: c in sep ==> ok(c)
    ensures forall c :: c in Join(parts, sep) ==> ok(c)
    decreases |parts|
  {
    if |parts| > 1 {
      JoinWithin(parts[1..], sep, ok);
    }
  }

  // ---------------------------------------------------------------------------
  // Glyph sets
  // ---------------------------------------------------------------------------

  datatype HeartSet = NormalHearts | WitherHearts | PoisonHearts | FrozenHearts | AnimalHearts
  datatype HungerSet = NormalHunger | EffectHunger

  /** Which status effects are active, as `getEffectFlags` reports them. */
  datatype EffectFlags = EffectFlags(hasWither: bool, hasPoison: bool, hasHunger: bool)

  /** The glyph-set switches of the display settings. */
  datatype GlyphSettings = GlyphSettings(showFrozenHearts: bool, showEffectHearts: bool, showAnimalHearts: bool, showHungerEffect: bool)

  /** The heart glyphs of each set; every set shares the empty heart. */
  function HeartGlyphs(s: HeartSet): (g: Glyphs)
    ensures g.empty == '\U{F50F}'
  {
    match s
    case NormalHearts => Glyphs('\U{F50D}', '\U{F50E}', '\U{F50F}')
    case WitherHearts => Glyphs('\U{F5CD}', '\U{F5CE}', '\U{F50F}')
    case PoisonHearts => Glyphs('\U{F5DD}', '\U{F5DE}', '\U{F50F}')
    case FrozenHearts => Glyphs('\U{F5DB}', '\U{F5DC}', '\U{F50F}')
    case AnimalHearts => Glyphs('\U{F5CB}', '\U{F5CC}', '\U{F50F}')
  }

  function HungerGlyphs(s: HungerSet): Glyphs
  {
    match s
    case NormalHunger => Glyphs('\U{F5E9}', '\U{F5EA}', '\U{F5EB}')
    case EffectHunger => Glyphs('\U{F5ED}', '\U{F5EC}', '\U{F5EE}')
  }

  /**
   * `resolveHealthGlyphSet`: frozen for a freezing player (when enabled),
   * then wither, then poison (both only with effect hearts on), then the
   * animal set for a rideable non-player (when enabled), else normal.
   */
  function ResolveHealthGlyphSet(isPlayer: bool, isFreezing: bool, flags: EffectFlags, isRideable: bool, settings: GlyphSettings): (r: HeartSet)
    ensures r == FrozenHearts <==> isPlayer && settings.showFrozenHearts && isFreezing
    ensures r == WitherHearts <==> !(isPlayer && settings.showFrozenHearts && isFreezing) && settings.showEffectHearts && flags.hasWither
    ensures r == PoisonHearts <==>
      !(isPlayer && settings.showFrozenHearts && isFreezing) && settings.showEffectHearts && !flags.hasWither && flags.hasPoison
    ensures r == AnimalHearts ==> !isPlayer && settings.showAnimalHearts && isRideable
  {
    if isPlayer && settings.showFrozenHearts && isFreezing then FrozenHearts
    else if settings.showEffectHearts && flags.hasWither then WitherHearts
    else if settings.showEffectHearts && flags.hasPoison then PoisonHearts
    else if !isPlayer && settings.showAnimalHearts && isRideable then AnimalHearts
    else NormalHearts
  }

  /** The ranking behind the precedence: a higher-ranked set that applies always wins over a lower one. */
  function Rank(s: HeartSet): nat
  {
    match s
    case FrozenHearts => 4
    case WitherHearts => 3
    case PoisonHearts => 2
    case AnimalHearts => 1
    case NormalHearts => 0
  }

  /** Whether the conditions for a set hold, independently of the other sets. */
  predicate Applies(s: HeartSet, isPlayer: bool, isFreezing: bool, flags: EffectFlags, isRideable: bool, settings: GlyphSettings)
  {
    match s
    case FrozenHearts => isPlayer && settings.showFrozenHearts && isFreezing
    case WitherHearts => settings.showEffectHearts && flags.hasWither
    case PoisonHearts => settings.showEffectHearts && flags.hasPoison
    case AnimalHearts => !isPlayer && settings.showAnimalHearts && isRideable
    case NormalHearts => true
  }

  /** The chosen set applies, and no set ranked above it does. */
  lemma GlyphSetIsHighestApplicable(isPlayer: bool, isFreezing: bool, flags: EffectFlags, isRideable: bool, settings: GlyphSettings, other: HeartSet)
    ensures var r := ResolveHealthGlyphSet(isPlayer, isFreezing, flags, isRideable, settings);
      Applies(r, isPlayer, isFreezing, flags, isRideable, settings)
      && (Applies(other, isPlayer, isFreezing, flags, isRideable, settings) ==> Rank(other) <= Rank(r))
  {
  }

  /** Resolved settings never enable frozen hearts, so that set is never chosen from them. */
  lemma NoFrozenHeartsWhenDisabled(isPlayer: bool, isFreezing: bool, flags: EffectFlags, isRideable: bool, settings: GlyphSettings)
    requires !settings.showFrozenHearts
    ensures ResolveHealthGlyphSet(isPlayer, isFreezing, flags, isRideable, settings) != FrozenHearts
  {
  }

  /** `resolveHungerGlyphSet`: the effect set exactly when it is enabled and hunger is active. */
  function ResolveHungerGlyphSet(flags: EffectFlags, settings: GlyphSettings): (r: HungerSet)
    ensures r == EffectHunger <==> settings.showHungerEffect && flags.hasHunger
  {
    if settings.showHungerEffect && flags.hasHunger then EffectHunger else NormalHunger
  }
}
