/**
 * Status effects on the actionbar: resolving an effect's type id, the
 * flags that pick a glyph set, levels as Roman numerals, durations as a
 * clock, polarity colours and the truncated effects line.
 */
module Effects {
  import opened Wrappers
  import opened Text
  import opened JsValue
  import opened Formatters
  import opened Layout
  import Bars

  // ---------------------------------------------------------------------------
  // Type ids
  // ---------------------------------------------------------------------------

  /** `typeId ?? type?.id ?? effectType?.id ?? effectType`. */
  function RawEffectTypeId(effect: Js): Js
  {
    Coalesce(Prop(effect, "typeId"),
      Coalesce(Prop(Prop(effect, "type"), "id"),
        Coalesce(Prop(Prop(effect, "effectType"), "id"), Prop(effect, "effectType"))))
  }

  /**
   * `resolveEffectTypeId`: a non-empty string id, given the "minecraft"
   * namespace when it has none; nothing for any other value.
   */
  function ResolveEffectTypeId(effect: Js): (r: Option<string>)
    ensures r.Some? <==> RawEffectTypeId(effect).Str? && |RawEffectTypeId(effect).s| > 0
    ensures r.Some? ==> ':' in r.value
    ensures r.Some? && ':' in RawEffectTypeId(effect).s ==> r.value == RawEffectTypeId(effect).s
  {
    var raw := RawEffectTypeId(effect);
    if raw.Str? && |raw.s| > 0 then
      if ':' in raw.s then Some(raw.s)
      else
        assert ("minecraft:" + raw.s)[9] == ':';
        Some("minecraft:" + raw.s)
    else None
  }

  /** An id without a namespace resolves to the same id in the "minecraft" namespace. */
  lemma ResolveBareEffectId(effect: Js)
    requires RawEffectTypeId(effect).Str? && |RawEffectTypeId(effect).s| > 0 && ':' !in RawEffectTypeId(effect).s
    ensures SplitTypeId(ResolveEffectTypeId(effect).value) == TypeId("minecraft", RawEffectTypeId(effect).s)
  {
    assert ResolveEffectTypeId(effect).value == "minecraft" + ":" + RawEffectTypeId(effect).s;
    SplitTypeIdRoundTrip("minecraft", RawEffectTypeId(effect).s);
  }

  /** `normalizeEffectTypeId`: the lower-cased id part. */
  function NormalizeEffectTypeId(typeId: string): (r: string)
    ensures HasNoUpper(r) && |r| == |SplitTypeId(typeId).id|
  {
    Lower(SplitTypeId(typeId).id)
  }

  /** Normalising again changes nothing on a namespaced id. */
  lemma NormalizeEffectTypeIdOfNamespaced(namespace: string, id: string)
    requires ':' !in namespace && ':' !in id
    ensures NormalizeEffectTypeId(namespace + ":" + id) == Lower(id)
  {
    SplitTypeIdRoundTrip(namespace, id);
  }

  /** The normalised type id of an effect, when it has one. */
  function EffectKey(effect: Js): Option<string>
  {
    match ResolveEffectTypeId(effect)
    case None => None
    case Some(t) => Some(NormalizeEffectTypeId(t))
  }

  /** The normalised type ids of a list of effects. */
  function EffectKeys(effects: seq<Js>): (r: seq<Option<string>>)
    ensures |r| == |effects| && forall i :: 0 <= i < |effects| ==> r[i] == EffectKey(effects[i])
  {
    if effects == [] then [] else [EffectKey(effects[0])] + EffectKeys(effects[1..])
  }

  /** Some key of the list is one of the given ids. */
  predicate AnyIn(keys: seq<Option<string>>, ids: set<string>)
  {
    exists i :: 0 <= i < |keys| && keys[i].Some? && keys[i].value in ids
  }

  const WitherIds: set<string> := {"wither", "decay"}
  const PoisonIds: set<string> := {"poison", "fatal_poison"}
  const HungerIds: set<string> := {"hunger"}

  /** `getEffectFlags`: each flag is set exactly when some effect has one of its ids. */
  method GetEffectFlags(effects: seq<Js>) returns (flags: Bars.EffectFlags)
    ensures flags.hasWither <==> AnyIn(EffectKeys(effects), WitherIds)
    ensures flags.hasPoison <==> AnyIn(EffectKeys(effects), PoisonIds)
    ensures flags.hasHunger <==> AnyIn(EffectKeys(effects), HungerIds)
  {
    var keys := EffectKeys(effects);
    flags := Bars.EffectFlags(false, false, false);
    var i := 0;
    while i < |effects|
      invariant 0 <= i <= |effects|
      invariant flags.hasWither <==> AnyIn(keys[..i], WitherIds)
      invariant flags.hasPoison <==> AnyIn(keys[..i], PoisonIds)
      invariant flags.hasHunger <==> AnyIn(keys[..i], HungerIds)
    {
      FlagsSnoc(keys, i, flags);
      flags := NoteEffectKey(flags, keys[i]);
      i := i + 1;
    }
    assert keys[..|effects|] == keys;
  }

  /** One effect's key sets each flag whose ids hold it and leaves the other flags as they were. */
  function NoteEffectKey(flags: Bars.EffectFlags, key: Option<string>): (r: Bars.EffectFlags)
    ensures r.hasWither <==> flags.hasWither || (key.Some? && key.value in WitherIds)
    ensures r.hasPoison <==> flags.hasPoison || (key.Some? && key.value in PoisonIds)
    ensures r.hasHunger <==> flags.hasHunger || (key.Some? && key.value in HungerIds)
  {
    match key
    case None => flags
    case Some(id) =>
      var withered := if id in WitherIds then flags.(hasWither := true) else flags;
      var poisoned := if id in PoisonIds then withered.(hasPoison := true) else withered;
      if id in HungerIds then poisoned.(hasHunger := true) else poisoned
  }

  /** Noting the next key keeps every flag equal to "some key so far has one of its ids". */
  lemma FlagsSnoc(keys: seq<Option<string>>, i: nat, flags: Bars.EffectFlags)
    requires i < |keys|
    requires flags.hasWither <==> AnyIn(keys[..i], WitherIds)
    requires flags.hasPoison <==> AnyIn(keys[..i], PoisonIds)
    requires flags.hasHunger <==> AnyIn(keys[..i], HungerIds)
    ensures NoteEffectKey(flags, keys[i]).hasWither <==> AnyIn(keys[..i + 1], WitherIds)
    ensures NoteEffectKey(flags, keys[i]).hasPoison <==> AnyIn(keys[..i + 1], PoisonIds)
    ensures NoteEffectKey(flags, keys[i]).hasHunger <==> AnyIn(keys[..i + 1], HungerIds)
  {
    AnyInSnoc(keys, i, WitherIds);
    AnyInSnoc(keys, i, PoisonIds);
    AnyInSnoc(keys, i, HungerIds);
  }

  /** One more key adds its own id to what the prefix has. */
  lemma AnyInSnoc(keys: seq<Option<string>>, i: nat, ids: set<string>)
    requires i < |keys|
    ensures AnyIn(keys[..i + 1], ids) <==> AnyIn(keys[..i], ids) || (keys[i].Some? && keys[i].value in ids)
  {
    var pre := keys[..i + 1];
    if AnyIn(pre, ids) && !(keys[i].Some? && keys[i].value in ids) {
      var j :| 0 <= j < |pre| && pre[j].Some? && pre[j].value in ids;
      assert keys[..i][j] == pre[j];
    }
    if AnyIn(keys[..i], ids) {
      var j :| 0 <= j < i && keys[..i][j].Some? && keys[..i][j].value in ids;
      assert pre[j] == keys[..i][j];
    }
    if keys[i].Some? && keys[i].value in ids {
      assert pre[i] == keys[i];
    }
  }

  // ---------------------------------------------------------------------------
  // Levels
  // ---------------------------------------------------------------------------

  /** `getEffectLevel`: the amplifier plus one, at least one; one when the amplifier is not a finite number. */
  function GetEffectLevel(effect: Js): (level: nat)
    ensures level >= 1
    ensures ToNumber(Prop(effect, "amplifier")).Finite? ==> level as int >= ToNumber(Prop(effect, "amplifier")).value.Floor + 1
    ensures ToNumber(Prop(effect, "amplifier")).Finite? && ToNumber(Prop(effect, "amplifier")).value >= 0.0 ==>
      level as int == ToNumber(Prop(effect, "amplifier")).value.Floor + 1
    ensures ToNumber(Prop(effect, "amplifier")).Finite? && ToNumber(Prop(effect, "amplifier")).value < 0.0 ==> level == 1
    ensures !ToNumber(Prop(effect, "amplifier")).Finite? ==> level == 1
  {
    var amplifier := ToNumber(Prop(effect, "amplifier"));
    if !amplifier.Finite? || amplifier.value.Floor + 1 < 1 then 1 else amplifier.value.Floor + 1
  }

  const Numerals: seq<string> := ["I", "II", "III", "IV", "V", "VI", "VII", "VIII", "IX", "X"]

  /** `toRomanNumeral` without the external converter: I to X, decimal digits above, anything below one as I. */
  function ToRomanNumeral(value: int): (r: string)
    ensures |r| >= 1
    ensures value > 10 ==> r == NatToString(value)
  {
    var n := if value < 1 then 1 else value;
    if n <= |Numerals| then Numerals[n - 1] else NatToString(n)
  }

  function RomanDigit(c: char): nat
  {
    if c == 'I' then 1 else if c == 'V' then 5 else if c == 'X' then 10 else 0
  }

  /** The value of a Roman numeral: a digit smaller than the next one counts negatively. */
  function RomanValue(s: string): int
    decreases |s|
  {
    if |s| == 0 then 0
    else if |s| >= 2 && RomanDigit(s[0]) < RomanDigit(s[1]) then RomanValue(s[1..]) - RomanDigit(s[0])
    else RomanDigit(s[0]) + RomanValue(s[1..])
  }

  /** Reading the fallback's output back gives the level: as a numeral up to ten, as decimal above. */
  lemma RomanNumeralRoundTrip(value: int)
    ensures 1 <= value <= 10 ==> RomanValue(ToRomanNumeral(value)) == value && !AllDigits(ToRomanNumeral(value))
    ensures value > 10 ==> AllDigits(ToRomanNumeral(value)) && ParseNat(ToRomanNumeral(value)) == value
  {
    if value > 10 {
      ParseNatToString(value);
    } else if 1 <= value <= 10 {
      RomanTable(value);
    }
  }

  lemma RomanTable(n: int)
    requires 1 <= n <= 10
    ensures RomanValue(Numerals[n - 1]) == n && !IsDigit(Numerals[n - 1][0])
  {
    if n == 1 { assert RomanValue("I") == 1; }
    else if n == 2 { assert RomanValue("II") == 2; }
    else if n == 3 { assert RomanValue("III") == 3; }
    else if n == 4 { assert RomanValue("IV") == 4; }
    else if n == 5 { assert RomanValue("V") == 5; }
    else if n == 6 { assert RomanValue("VI") == 6; }
    else if n == 7 { assert RomanValue("VII") == 7; }
    else if n == 8 { assert RomanValue("VIII") == 8; }
    else if n == 9 { assert RomanValue("IX") == 9; }
    else { assert RomanValue("X") == 10; }
  }

  /** Distinct levels never share a numeral. */
  lemma RomanNumeralInjective(a: int, b: int)
    requires a >= 1 && b >= 1 && ToRomanNumeral(a) == ToRomanNumeral(b)
    ensures a == b
  {
    RomanNumeralRoundTrip(a);
    RomanNumeralRoundTrip(b);
  }

  // ---------------------------------------------------------------------------
  // Durations
  // ---------------------------------------------------------------------------

  /** `formatSecondsAsClock`: `H:MM:SS` with hours, else `M:SS`. */
  function FormatSecondsAsClock(totalSeconds: int): (r: string)
    ensures |r| > 0 && IsDigit(r[0])
    ensures var safe := if totalSeconds < 0 then 0 else totalSeconds;
      (safe >= 3600 ==> |Split(r, ':')| == 3) && (safe < 3600 ==> |Split(r, ':')| == 2)
  {
    var safe := if totalSeconds < 0 then 0 else totalSeconds;
    ClockText(safe / 3600, (safe % 3600) / 60, safe % 60)
  }

  /** The clock of whole hours, minutes and seconds: the hours field only when there are hours. */
  function ClockText(hours: nat, minutes: nat, seconds: nat): (r: string)
    ensures |r| > 0 && IsDigit(r[0])
    ensures (hours > 0 ==> |Split(r, ':')| == 3) && (hours == 0 ==> |Split(r, ':')| == 2)
  {
    ClockParts(hours, minutes, seconds);
    if hours > 0 then NatToString(hours) + ":" + Pad2(minutes) + ":" + Pad2(seconds)
    else NatToString(minutes) + ":" + Pad2(seconds)
  }

  /** Reads a clock back: two or three colon-separated decimal fields. */
  function ParseClock(t: string): Option<nat>
  {
    ClockValue(Split(t, ':'))
  }

  /** The seconds that two or three decimal clock fields stand for. */
  function ClockValue(parts: seq<string>): Option<nat>
  {
    if |parts| == 3 && AllDigits(parts[0]) && AllDigits(parts[1]) && AllDigits(parts[2]) then
      Some(ParseNat(parts[0]) * 3600 + ParseNat(parts[1]) * 60 + ParseNat(parts[2]))
    else if |parts| == 2 && AllDigits(parts[0]) && AllDigits(parts[1]) then
      Some(ParseNat(parts[0]) * 60 + ParseNat(parts[1]))
    else None
  }

  lemma DigitsHaveNoColon(s: string)
    requires AllDigits(s)
    ensures ':' !in s
  {
  }

  lemma ClockParts(hours: nat, minutes: nat, seconds: nat)
    ensures Split(NatToString(hours) + ":" + Pad2(minutes) + ":" + Pad2(seconds), ':') == [NatToString(hours), Pad2(minutes), Pad2(seconds)]
    ensures Split(NatToString(minutes) + ":" + Pad2(seconds), ':') == [NatToString(minutes), Pad2(seconds)]
  {
    LongClockParts(NatToString(hours), Pad2(minutes), Pad2(seconds));
    ShortClockParts(NatToString(minutes), Pad2(seconds));
  }

  lemma LongClockParts(a: string, b: string, c: string)
    requires AllDigits(a) && AllDigits(b) && AllDigits(c)
    ensures Split(a + ":" + b + ":" + c, ':') == [a, b, c]
  {
    DigitsHaveNoColon(a);
    DigitsHaveNoColon(b);
    DigitsHaveNoColon(c);
    assert Join([a, b, c], ":") == a + ":" + b + ":" + c by {
      assert Join([b, c], ":") == b + ":" + c;
    }
    SplitJoin([a, b, c], ':');
  }

  lemma ShortClockParts(m: string, c: string)
    requires AllDigits(m) && AllDigits(c)
    ensures Split(m + ":" + c, ':') == [m, c]
  {
    DigitsHaveNoColon(m);
    DigitsHaveNoColon(c);
    assert Join([m, c], ":") == m + ":" + c;
    SplitJoin([m, c], ':');
  }

  /** The clock reads back as the whole seconds it shows, with minutes and seconds below sixty. */
  lemma ClockRoundTrip(totalSeconds: int)
    ensures ParseClock(FormatSecondsAsClock(totalSeconds)) == Some(if totalSeconds < 0 then 0 else totalSeconds)
  {
    var safe := if totalSeconds < 0 then 0 else totalSeconds;
    var hours, minutes, seconds := safe / 3600, (safe % 3600) / 60, safe % 60;
    ClockFields(safe);
    assert FormatSecondsAsClock(totalSeconds) == ClockText(hours, minutes, seconds);
    ClockTextRoundTrip(hours, minutes, seconds);
  }

  /** Whole hours, the minutes left over and the seconds left over add back up to the total. */
  lemma ClockFields(safe: nat)
    ensures safe == (safe / 3600) * 3600 + ((safe % 3600) / 60) * 60 + safe % 60
    ensures safe / 3600 > 0 <==> safe >= 3600
  {
    var hours, rest := safe / 3600, safe % 3600;
    assert safe == 3600 * hours + rest && 0 <= rest < 3600;
    var minutes, seconds := rest / 60, rest % 60;
    assert rest == 60 * minutes + seconds && 0 <= seconds < 60;
    SixtiethRemainder(safe, 60 * hours + minutes, seconds);
  }

  /** The remainder by sixty is the one part below sixty. */
  lemma SixtiethRemainder(x: int, q: int, r: int)
    requires x == 60 * q + r && 0 <= r < 60
    ensures x % 60 == r
  {
  }

  /** A clock reads back as the seconds its fields add up to. */
  lemma ClockTextRoundTrip(hours: nat, minutes: nat, seconds: nat)
    ensures ParseClock(ClockText(hours, minutes, seconds)) == Some(hours * 3600 + minutes * 60 + seconds)
  {
    if hours > 0 {
      assert ClockText(hours, minutes, seconds) == NatToString(hours) + ":" + Pad2(minutes) + ":" + Pad2(seconds);
      LongClockRoundTrip(hours, minutes, seconds);
    } else {
      assert ClockText(hours, minutes, seconds) == NatToString(minutes) + ":" + Pad2(seconds);
      ShortClockRoundTrip(minutes, seconds);
    }
  }

  lemma LongClockRoundTrip(hours: nat, minutes: nat, seconds: nat)
    ensures ParseClock(NatToString(hours) + ":" + Pad2(minutes) + ":" + Pad2(seconds)) == Some(hours * 3600 + minutes * 60 + seconds)
  {
    var a, b, c := NatToString(hours), Pad2(minutes), Pad2(seconds);
    LongClockParts(a, b, c);
    ParseNatToString(hours);
    ParsePad2(minutes);
    ParsePad2(seconds);
    ReadThreeFields(a + ":" + b + ":" + c, a, b, c, hours, minutes, seconds);
  }

  lemma ShortClockRoundTrip(minutes: nat, seconds: nat)
    ensures ParseClock(NatToString(minutes) + ":" + Pad2(seconds)) == Some(minutes * 60 + seconds)
  {
    var m, c := NatToString(minutes), Pad2(seconds);
    ShortClockParts(m, c);
    ParseNatToString(minutes);
    ParsePad2(seconds);
    ReadTwoFields(m + ":" + c, m, c, minutes, seconds);
  }

  /** A text of three decimal fields reads back as hours, minutes and seconds. */
  lemma ReadThreeFields(t: string, a: string, b: string, c: string, hours: nat, minutes: nat, seconds: nat)
    requires AllDigits(a) && AllDigits(b) && AllDigits(c) && Split(t, ':') == [a, b, c]
    requires ParseNat(a) == hours && ParseNat(b) == minutes && ParseNat(c) == seconds
    ensures ParseClock(t) == Some(hours * 3600 + minutes * 60 + seconds)
  {
    var parts := [a, b, c];
    assert parts[0] == a && parts[1] == b && parts[2] == c;
    assert ClockValue(parts) == Some(hours * 3600 + minutes * 60 + seconds);
  }

  /** A text of two decimal fields reads back as minutes and seconds. */
  lemma ReadTwoFields(t: string, m: string, c: string, minutes: nat, seconds: nat)
    requires AllDigits(m) && AllDigits(c) && Split(t, ':') == [m, c]
    requires ParseNat(m) == minutes && ParseNat(c) == seconds
    ensures ParseClock(t) == Some(minutes * 60 + seconds)
  {
    var parts := [m, c];
    assert parts[0] == m && parts[1] == c;
    assert ClockValue(parts) == Some(minutes * 60 + seconds);
  }

  /** Durations from this many ticks on show as permanent. */
  const PermanentDurationTicks := 2000000000
  const InfiniteDurationLabel := "∞"

  /**
   * `formatEffectDuration`: no text without a duration, the infinity
   * label for a permanent effect, else whole seconds as a clock.
   */
  function FormatEffectDuration(durationTicks: Option<nat>): (r: Option<string>)
    ensures r.Some? <==> durationTicks.Some?
    ensures r.Some? ==> |r.value| > 0
    ensures r.Some? ==> (r.value == InfiniteDurationLabel <==> durationTicks.value >= PermanentDurationTicks)
  {
    match durationTicks
    case None => None
    case Some(ticks) =>
      if ticks >= PermanentDurationTicks then Some(InfiniteDurationLabel)
      else
        var clock := FormatSecondsAsClock(ticks / 20);
        assert clock != InfiniteDurationLabel by {
          assert !IsDigit(InfiniteDurationLabel[0]);
        }
        Some(clock)
  }

  /** A finite duration reads back as its whole seconds. */
  lemma DurationRoundTrip(ticks: nat)
    requires ticks < PermanentDurationTicks
    ensures ParseClock(FormatEffectDuration(Some(ticks)).value) == Some(ticks / 20)
  {
    ClockRoundTrip(ticks / 20);
  }

  // ---------------------------------------------------------------------------
  // Polarity
  // ---------------------------------------------------------------------------

  const PositiveEffectTypeIds: set<string> := {
    "speed", "haste", "strength", "regeneration", "resistance", "fire_resistance", "water_breathing",
    "night_vision", "health_boost", "absorption", "jump_boost", "slow_falling", "invisibility", "conduit",
    "conduit_power", "dolphins_grace", "hero_of_the_village", "saturation", "luck"}

  const NegativeEffectTypeIds: set<string> := {
    "slowness", "mining_fatigue", "weakness", "poison", "wither", "decay", "blindness", "darkness",
    "hunger", "nausea", "levitation", "bad_omen", "fatal_poison", "unluck", "instant_damage"}

  datatype Polarity = Positive | Negative | Neutral

  /**
   * `getEffectPolarity`. The positive set is consulted first, but no id is
   * in both sets, so each polarity holds exactly for its own set.
   */
  function GetEffectPolarity(normalizedTypeId: string): (r: Polarity)
    ensures r == Positive <==> normalizedTypeId in PositiveEffectTypeIds
    ensures r == Negative <==> normalizedTypeId in NegativeEffectTypeIds
    ensures r == Neutral <==> normalizedTypeId !in PositiveEffectTypeIds + NegativeEffectTypeIds
  {
    PolaritySetsDisjoint();
    if normalizedTypeId in PositiveEffectTypeIds then Positive
    else if normalizedTypeId in NegativeEffectTypeIds then Negative
    else Neutral
  }

  lemma PolaritySetsDisjoint()
    ensures PositiveEffectTypeIds * NegativeEffectTypeIds == {}
  {
    forall id | id in NegativeEffectTypeIds
      ensures id !in PositiveEffectTypeIds
    {
      NotPositive(id);
    }
  }

  /** No negative id is also a positive one. */
  lemma NotPositive(id: string)
    requires id in NegativeEffectTypeIds
    ensures id !in PositiveEffectTypeIds
  {
  }

  /** The flag ids of the glyph sets are all negative effects. */
  lemma FlagIdsNegative()
    ensures WitherIds + PoisonIds + HungerIds <= NegativeEffectTypeIds
  {
  }

  function PolarityColor(p: Polarity): string
  {
    match p
    case Positive => "\U{00A7}a"
    case Negative => "\U{00A7}c"
    case Neutral => "\U{00A7}7"
  }

  // ---------------------------------------------------------------------------
  // The effects line
  // ---------------------------------------------------------------------------

  /** An active effect as the host reports it: its value and its duration in ticks, when readable. */
  datatype ActiveEffect = ActiveEffect(value: Js, durationTicks: Option<nat>)

  /** The glyph of each effect id; an unknown id gets the bullet. */
  const EffectGlyphByTypeId: map<string, string> := map[
    "blindness" := "\U{F51C}", "conduit" := "\U{F51D}", "conduit_power" := "\U{F51D}", "haste" := "\U{F51E}",
    "darkness" := "\U{F51F}", "fire_resistance" := "\U{F529}", "absorption" := "\U{F52A}", "hunger" := "\U{F52B}",
    "invisibility" := "\U{F52C}", "jump_boost" := "\U{F52D}", "levitation" := "\U{F52E}",
    "mining_fatigue" := "\U{F52F}", "resistance" := "\U{F539}", "slow_falling" := "\U{F53A}",
    "speed" := "\U{F53B}", "slowness" := "\U{F53C}", "strength" := "\U{F53D}", "weakness" := "\U{F53E}",
    "hero_of_the_village" := "\U{F53F}", "night_vision" := "\U{F549}", "water_breathing" := "\U{F54A}",
    "wither" := "\U{F54B}", "decay" := "\U{F54B}", "poison" := "\U{F54C}", "regeneration" := "\U{E110}",
    "dolphins_grace" := "\U{E119}", "fatal_poison" := "\U{F54C} \U{F531}"]

  const UnknownGlyph := "•"

  /**
   * `EffectGlyphByTypeId[id] || unknownGlyph`: the listed glyph of an id,
   * else the bullet. Every listed glyph is non-empty text, so the `||`
   * falls back exactly for an id the table does not list.
   */
  function EffectGlyph(normalizedTypeId: string): (glyph: string)
    ensures glyph != []
    ensures normalizedTypeId in EffectGlyphByTypeId ==> glyph == EffectGlyphByTypeId[normalizedTypeId]
    ensures glyph == UnknownGlyph <==> normalizedTypeId !in EffectGlyphByTypeId
  {
    if normalizedTypeId in EffectGlyphByTypeId then EffectGlyphByTypeId[normalizedTypeId] else UnknownGlyph
  }

  /** The duration in brackets, in grey, when there is one. */
  function DurationSuffix(d: Option<string>): string
  {
    match d
    case None => ""
    case Some(t) => " \U{00A7}7(" + t + ")"
  }

  /**
   * `buildEffectTextEntry` / `buildEffectEmojiEntry`: the coloured name or
   * the glyph, the level as a numeral, the duration; nothing for an effect
   * without a type id.
   */
  function EffectEntry(e: ActiveEffect, useText: bool): (r: Option<string>)
    ensures r.Some? <==> ResolveEffectTypeId(e.value).Some?
    ensures r.Some? ==> |r.value| >= 2 && r.value[|r.value| - 2..] == "\U{00A7}r"
    ensures r.Some? ==>
      var typeId := ResolveEffectTypeId(e.value).value;
      var normalized := NormalizeEffectTypeId(typeId);
      var head := if useText then PolarityColor(GetEffectPolarity(normalized)) + FormatTypeIdToText(typeId) else EffectGlyph(normalized);
      r.value == EntryText(head, ToRomanNumeral(GetEffectLevel(e.value)), FormatEffectDuration(e.durationTicks))
  {
    match ResolveEffectTypeId(e.value)
    case None => None
    case Some(typeId) =>
      var level := ToRomanNumeral(GetEffectLevel(e.value));
      var normalized := NormalizeEffectTypeId(typeId);
      var head := if useText then PolarityColor(GetEffectPolarity(normalized)) + FormatTypeIdToText(typeId) else EffectGlyph(normalized);
      Some(EntryText(head, level, FormatEffectDuration(e.durationTicks)))
  }

  /**
   * One entry: the head (glyph or coloured name), a space, the numeral, the
   * bracketed duration when there is one, and the reset code.
   */
  function EntryText(head: string, numeral: string, duration: Option<string>): (t: string)
    ensures t == head + " " + numeral + DurationSuffix(duration) + "\U{00A7}r"
    ensures EndsUnbracketed(numeral) ==> (BracketBeforeReset(t) <==> duration.Some?)
  {
    var body := head + " " + numeral + DurationSuffix(duration);
    assert EndsUnbracketed(numeral) ==> ((body + "\U{00A7}r")[|body| - 1] == ')' <==> duration.Some?) by {
      if EndsUnbracketed(numeral) && duration.Some? {
        assert body[|body| - 1] == DurationSuffix(duration)[|DurationSuffix(duration)| - 1];
      } else if EndsUnbracketed(numeral) {
        assert body[|body| - 1] == numeral[|numeral| - 1];
      }
    }
    head + " " + numeral + DurationSuffix(duration) + "\U{00A7}r"
  }

  /** Every entry shows its numeral's level and, in brackets before the reset code, exactly the known durations. */
  lemma EffectEntryShowsDuration(e: ActiveEffect, useText: bool)
    requires ResolveEffectTypeId(e.value).Some?
    ensures |EffectEntry(e, useText).value| >= 3
    ensures BracketBeforeReset(EffectEntry(e, useText).value) <==> e.durationTicks.Some?
  {
    NumeralEndsUnbracketed(GetEffectLevel(e.value));
  }

  /** The character just before the two-character reset code closes a bracket. */
  predicate BracketBeforeReset(t: string)
  {
    |t| >= 3 && t[|t| - 3] == ')'
  }

  /** A non-empty text whose last character is not a closing bracket. */
  predicate EndsUnbracketed(s: string)
  {
    |s| >= 1 && s[|s| - 1] != ')'
  }

  /** A numeral never ends with a closing bracket. */
  lemma NumeralEndsUnbracketed(value: int)
    ensures EndsUnbracketed(ToRomanNumeral(value))
  {
    var r := ToRomanNumeral(value);
    if value > 10 {
      RomanNumeralRoundTrip(value);
      assert IsDigit(r[|r| - 1]);
    } else {
      var n := if value < 1 then 1 else value;
      assert r == Numerals[n - 1];
      assert forall k :: 0 <= k < |Numerals| ==> Numerals[k][|Numerals[k]| - 1] in "IVX";
    }
  }

  /** The entries of the effects that resolve, in order. */
  function EffectEntries(effects: seq<ActiveEffect>, useText: bool): (r: seq<string>)
    ensures |r| <= |effects|
    ensures |r| == 0 <==> forall i :: 0 <= i < |effects| ==> ResolveEffectTypeId(effects[i].value).None?
  {
    if effects == [] then []
    else
      var rest := EffectEntries(effects[1..], useText);
      assert forall i :: 1 <= i < |effects| ==> effects[i] == effects[1..][i - 1];
      match EffectEntry(effects[0], useText)
      case None => rest
      case Some(t) => [t] + rest
  }

  /** The suffix for left-out effects. */
  function HiddenSuffix(hidden: nat, useText: bool): string
  {
    if hidden == 0 then ""
    else if useText then "\U{00A7}7, \U{00A7}8+" + NatToString(hidden) + " more...\U{00A7}r"
    else " \U{00A7}8+" + NatToString(hidden) + "\U{00A7}r"
  }

  /** Text entries are comma-separated, glyph entries space-separated. */
  function EntrySeparator(useText: bool): string
  {
    if useText then "\U{00A7}7, \U{00A7}r" else " "
  }

  /**
   * `buildEffectsDisplay`: nothing when no effect is shown or none of the
   * shown ones resolves; else the first `maxVisibleEffects` entries and a
   * count of the ones left out. Text entries are used for the text effect
   * mode or the legacy "text" display style.
   */
  function BuildEffectsDisplay(effects: seq<ActiveEffect>, maxVisibleEffects: real, effectDisplayMode: string, displayStyle: string)
    : (r: Option<string>)
    ensures r.Some? <==> exists i :: 0 <= i < |effects| && i < CapCount(maxVisibleEffects) && ResolveEffectTypeId(effects[i].value).Some?
    ensures var shown := Truncate(effects, maxVisibleEffects);
      var useText := effectDisplayMode == "text" || Bars.IsTextStyleAsWritten(displayStyle);
      r.Some? ==>
        r.value == "\n\U{00A7}7Effects: " + Join(EffectEntries(shown.visible, useText), EntrySeparator(useText))
          + HiddenSuffix(shown.hidden, useText) + "\U{00A7}r"
  {
    var shown := Truncate(effects, maxVisibleEffects);
    var useText := effectDisplayMode == "text" || Bars.IsTextStyleAsWritten(displayStyle);
    if |effects| == 0 || |shown.visible| == 0 then
      None
    else
      var entries := EffectEntries(shown.visible, useText);
      assert forall i :: 0 <= i < |shown.visible| ==> shown.visible[i] == effects[i];
      if |entries| == 0 then None
      else Some("\n\U{00A7}7Effects: " + Join(entries, EntrySeparator(useText)) + HiddenSuffix(shown.hidden, useText) + "\U{00A7}r")
  }

  /** A left-out count appears exactly when there are more effects than the cap, and it counts all of them. */
  lemma EffectsHiddenCount(effects: seq<ActiveEffect>, maxVisibleEffects: real, useText: bool)
    ensures var shown := Truncate(effects, maxVisibleEffects);
      (HiddenSuffix(shown.hidden, useText) != "" <==> |effects| > CapCount(maxVisibleEffects))
      && |shown.visible| + shown.hidden == |effects|
  {
    TruncateHidden(effects, maxVisibleEffects);
  }
}
