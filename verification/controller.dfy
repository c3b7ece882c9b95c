/**
 * The display controller: which players are looked at on a tick, when an
 * action-bar message is really written, and when a stale one is blanked.
 * Everything the controller remembers about a player lives in four caches
 * keyed by the player's cache key; what the players see is modelled as an
 * append-only log of action-bar writes.
 */
module Controller {
  import opened Wrappers
  import opened JsValue
  import opened Config

  // ---------------------------------------------------------------------------
  // Inputs
  // ---------------------------------------------------------------------------

  /** The compatibility switches of the add-on's configuration the controller reads. */
  datatype Compatibility = Compatibility(deduplicateActionbar: bool, unchangedTargetRefreshTicks: real, useEntityHitFallback: bool)

  /** The values the configuration ships with. */
  const DefaultCompatibility: Compatibility := Compatibility(true, 8.0, true)

  /** The fields of a player's flattened settings that the controller reads. */
  datatype TickSettings = TickSettings(
    disabled: bool,
    requireSneak: bool,
    isSneaking: bool,
    updateIntervalTicks: real,
    unchangedTargetRefreshTicks: JsNumber,
    clearAfterNoTargetTicks: real,
    includeInvisibleEntities: bool)

  /**
   * The controller's view of `getPlayerDisplaySettings`: the flags, and the
   * runtime fields spread into the settings object. Normalisation makes
   * every one of them a finite number or a boolean within its bounds.
   */
  function TickSettingsOf(d: DisplaySettings): (t: TickSettings)
    requires NormalizedRuntime(d.runtime)
    ensures t.disabled == d.disabled && t.requireSneak == d.requireSneak && t.isSneaking == d.isSneaking
    ensures 1.0 <= t.updateIntervalTicks <= 20.0
    ensures t.unchangedTargetRefreshTicks.Finite? && 1.0 <= t.unchangedTargetRefreshTicks.value <= 40.0
    ensures 0.0 <= t.clearAfterNoTargetTicks <= 200.0
    ensures Prop(d.runtime, "includeInvisibleEntities") == Bool(t.includeInvisibleEntities)
  {
    var r := d.runtime;
    ReadNormalizedRuntime(r, 1);
    ReadNormalizedRuntime(r, 2);
    ReadNormalizedRuntime(r, 4);
    ReadNormalizedRuntime(r, 5);
    TickSettings(
      d.disabled, d.requireSneak, d.isSneaking,
      Prop(r, "updateIntervalTicks").n.value,
      Prop(r, "unchangedTargetRefreshTicks").n,
      Prop(r, "clearAfterNoTargetTicks").n.value,
      Prop(r, "includeInvisibleEntities").b)
  }

  /** `Math.max(1, x)` for a finite `x`. */
  function AtLeastOne(x: real): (r: real)
    ensures r >= 1.0 && r >= x
    ensures r == 1.0 || r == x
  {
    if x > 1.0 then x else 1.0
  }

  // ---------------------------------------------------------------------------
  // Controller state
  // ---------------------------------------------------------------------------

  /** One action-bar write: a serialised message, or the empty text that blanks the bar. */
  datatype Output = Show(player: string, payload: string) | Blank(player: string)

  /**
   * The global tick counter, the four per-player caches (last message
   * sent, tick it was sent on, tick of the next scheduled update, ticks
   * spent without a target) and the writes made so far.
   */
  datatype State = State(
    tick: nat,
    lastSerialized: map<string, string>,
    lastSentTick: map<string, nat>,
    nextUpdate: map<string, real>,
    noTarget: map<string, real>,
    shown: seq<Output>)

  const Initial: State := State(0, map[], map[], map[], map[], [])

  /** What the controller remembers about one player. */
  datatype Slice = Slice(lastSerialized: Option<string>, lastSentTick: Option<nat>, nextUpdate: Option<real>, noTarget: Option<real>)

  function Get<V>(m: map<string, V>, key: string): Option<V>
  {
    if key in m then Some(m[key]) else None
  }

  function SliceOf(s: State, key: string): Slice
  {
    Slice(Get(s.lastSerialized, key), Get(s.lastSentTick, key), Get(s.nextUpdate, key), Get(s.noTarget, key))
  }

  /** The log of `r` extends the log of `s`. */
  predicate Extends(s: State, r: State)
  {
    |s.shown| <= |r.shown| && r.shown[..|s.shown|] == s.shown
  }

  // ---------------------------------------------------------------------------
  // Update schedule
  // ---------------------------------------------------------------------------

  /** The tick of the player's next update, 0 before the first. */
  function NextUpdate(s: State, key: string): real
  {
    if key in s.nextUpdate then s.nextUpdate[key] else 0.0
  }

  datatype Gate = Gate(run: bool, state: State)

  /**
   * `canRunUpdateNow`: a player is not due before its scheduled tick;
   * once due it is updated, and its next update is scheduled
   * `max(1, interval)` ticks later.
   */
  function CanRunUpdateNow(s: State, key: string, interval: real): (g: Gate)
    ensures !g.run <==> (s.tick as real) < NextUpdate(s, key)
    ensures !g.run ==> g.state == s
    ensures g.run ==> NextUpdate(g.state, key) == s.tick as real + AtLeastOne(interval)
    ensures g.state.tick == s.tick && g.state.shown == s.shown
    ensures forall k :: k != key ==> SliceOf(g.state, k) == SliceOf(s, k)
    ensures SliceOf(g.state, key).lastSerialized == SliceOf(s, key).lastSerialized
    ensures SliceOf(g.state, key).lastSentTick == SliceOf(s, key).lastSentTick
    ensures SliceOf(g.state, key).noTarget == SliceOf(s, key).noTarget
  {
    if (s.tick as real) < NextUpdate(s, key) then Gate(false, s)
    else Gate(true, s.(nextUpdate := s.nextUpdate[key := s.tick as real + AtLeastOne(interval)]))
  }

  /**
   * Accepted updates are at least `max(1, interval)` ticks apart: until
   * that many ticks have passed, the player is refused, whatever interval
   * the later tick asks for.
   */
  lemma UpdatesSpaced(s: State, key: string, interval: real, later: nat, laterInterval: real)
    requires CanRunUpdateNow(s, key, interval).run
    requires (later as real) < s.tick as real + AtLeastOne(interval)
    ensures !CanRunUpdateNow(CanRunUpdateNow(s, key, interval).state.(tick := later), key, laterInterval).run
  {
  }

  /** A player nothing has been scheduled for is updated on the first tick it is looked at. */
  lemma FirstUpdateRuns(s: State, key: string, interval: real)
    requires key !in s.nextUpdate
    ensures CanRunUpdateNow(s, key, interval).run
  {
  }

  // ---------------------------------------------------------------------------
  // Writing the action bar
  // ---------------------------------------------------------------------------

  /**
   * How long an unchanged message is held back: the player's runtime value
   * when it is a finite number, else the configured fallback (`|| 8`), and
   * never less than one tick.
   */
  function RefreshInterval(t: TickSettings, compat: Compatibility): (r: real)
    ensures r >= 1.0
    ensures t.unchangedTargetRefreshTicks.Finite? ==> r == AtLeastOne(t.unchangedTargetRefreshTicks.value)
    ensures !t.unchangedTargetRefreshTicks.Finite? && compat.unchangedTargetRefreshTicks == 0.0 ==> r == 8.0
  {
    var fallback := if compat.unchangedTargetRefreshTicks != 0.0 then compat.unchangedTargetRefreshTicks else 8.0;
    AtLeastOne(if t.unchangedTargetRefreshTicks.Finite? then t.unchangedTargetRefreshTicks.value else fallback)
  }

  /** The tick the player was last written to, or `-refresh` when never. */
  function LastSent(s: State, key: string, refresh: real): real
  {
    if key in s.lastSentTick then s.lastSentTick[key] as real else -refresh
  }

  /** A write is held back: deduplication is on, the message is the one shown, and it is still fresh. */
  predicate Suppressed(s: State, key: string, serialized: string, t: TickSettings, compat: Compatibility)
  {
    var refresh := RefreshInterval(t, compat);
    compat.deduplicateActionbar
    && key in s.lastSerialized && s.lastSerialized[key] == serialized
    && s.tick as real - LastSent(s, key, refresh) < refresh
  }

  /**
   * `setActionbarIfChanged`: the no-target counter is reset to 0 either
   * way; unless the write is held back, the message is written and
   * remembered together with the tick.
   */
  function SetActionbarIfChanged(s: State, key: string, serialized: string, t: TickSettings, compat: Compatibility): (r: State)
    ensures r.tick == s.tick && r.nextUpdate == s.nextUpdate
    ensures r.noTarget == s.noTarget[key := 0.0]
    ensures Suppressed(s, key, serialized, t, compat) ==>
      r.shown == s.shown && r.lastSerialized == s.lastSerialized && r.lastSentTick == s.lastSentTick
    ensures !Suppressed(s, key, serialized, t, compat) ==>
      r.shown == s.shown + [Show(key, serialized)]
    ensures !Suppressed(s, key, serialized, t, compat) ==>
      r.lastSerialized == s.lastSerialized[key := serialized] && r.lastSentTick == s.lastSentTick[key := s.tick]
    ensures forall k :: k != key ==> SliceOf(r, k) == SliceOf(s, k)
  {
    var reset := s.(noTarget := s.noTarget[key := 0.0]);
    if Suppressed(s, key, serialized, t, compat) then reset
    else reset.(
      shown := s.shown + [Show(key, serialized)],
      lastSerialized := s.lastSerialized[key := serialized],
      lastSentTick := s.lastSentTick[key := s.tick])
  }

  /** The first message for a player is always written, because `lastSent` starts a full interval back. */
  lemma FirstPayloadAlwaysSent(s: State, key: string, serialized: string, t: TickSettings, compat: Compatibility)
    requires key !in s.lastSentTick
    ensures SetActionbarIfChanged(s, key, serialized, t, compat).shown == s.shown + [Show(key, serialized)]
  {
    assert !Suppressed(s, key, serialized, t, compat);
  }

  /** A message different from the one shown is always written. */
  lemma ChangedPayloadSent(s: State, key: string, serialized: string, t: TickSettings, compat: Compatibility)
    requires key !in s.lastSerialized || s.lastSerialized[key] != serialized
    ensures SetActionbarIfChanged(s, key, serialized, t, compat).shown == s.shown + [Show(key, serialized)]
  {
  }

  /** An unchanged message is written again once `refresh` ticks have passed since the last write. */
  lemma StaleMessageRefreshed(s: State, key: string, serialized: string, t: TickSettings, compat: Compatibility)
    requires key in s.lastSentTick
    requires s.tick as real - s.lastSentTick[key] as real >= RefreshInterval(t, compat)
    ensures SetActionbarIfChanged(s, key, serialized, t, compat).shown == s.shown + [Show(key, serialized)]
  {
  }

  /**
   * With deduplication on, writing the same message twice on one tick is
   * writing it once: the second call finds it fresh and changes nothing.
   */
  lemma RepeatedWriteIdempotent(s: State, key: string, serialized: string, t: TickSettings, compat: Compatibility)
    requires compat.deduplicateActionbar
    ensures var once := SetActionbarIfChanged(s, key, serialized, t, compat);
      SetActionbarIfChanged(once, key, serialized, t, compat) == once
  {
    var once := SetActionbarIfChanged(s, key, serialized, t, compat);
    var twice := SetActionbarIfChanged(once, key, serialized, t, compat);
    assert Suppressed(once, key, serialized, t, compat);
    assert twice.noTarget == once.noTarget;
  }

  /**
   * `clearActionbar`: the player's message, send tick and no-target
   * counter are forgotten and the bar is blanked; the update schedule is
   * kept.
   */
  function ClearActionbar(s: State, key: string): (r: State)
    ensures key !in r.lastSerialized && key !in r.lastSentTick && key !in r.noTarget
    ensures r.nextUpdate == s.nextUpdate && r.tick == s.tick
    ensures r.shown == s.shown + [Blank(key)]
    ensures forall k :: k != key ==> SliceOf(r, k) == SliceOf(s, k)
  {
    State(s.tick, s.lastSerialized - {key}, s.lastSentTick - {key}, s.nextUpdate, s.noTarget - {key}, s.shown + [Blank(key)])
  }

  /** After a clear, the next message for the player is written whatever it is. */
  lemma ShownAgainAfterClear(s: State, key: string, serialized: string, t: TickSettings, compat: Compatibility)
    ensures var c := ClearActionbar(s, key);
      SetActionbarIfChanged(c, key, serialized, t, compat).shown == c.shown + [Show(key, serialized)]
  {
    FirstPayloadAlwaysSent(ClearActionbar(s, key), key, serialized, t, compat);
  }

  // ---------------------------------------------------------------------------
  // Choosing a target
  // ---------------------------------------------------------------------------

  /** `shouldSkipPlayer`: switched off, or sneak-only while standing. */
  predicate ShouldSkipPlayer(t: TickSettings)
  {
    if t.disabled then true
    else if !t.requireSneak then false
    else !t.isSneaking
  }

  lemma ShouldSkipPlayerIff(t: TickSettings)
    ensures ShouldSkipPlayer(t) <==> t.disabled || (t.requireSneak && !t.isSneaking)
  {
  }

  /** Entities are known to the model by an identifier. */
  type EntityId = nat

  /** A raycast hit counts when it carries an entity that is not invisible. */
  predicate VisibleHit(h: Option<EntityId>, invisible: EntityId -> bool)
  {
    h.Some? && !invisible(h.value)
  }

  /** The position of the first hit that counts, `|hits|` when none does. */
  function FirstVisibleIndex(hits: seq<Option<EntityId>>, invisible: EntityId -> bool): (i: nat)
    ensures i <= |hits|
    ensures forall j :: 0 <= j < i ==> !VisibleHit(hits[j], invisible)
    ensures i < |hits| ==> VisibleHit(hits[i], invisible)
  {
    if |hits| == 0 then 0
    else if VisibleHit(hits[0], invisible) then 0
    else 1 + FirstVisibleIndex(hits[1..], invisible)
  }

  /**
   * `selectEntityFromRaycast`: nothing for no hits; with invisible
   * entities included, the first hit's entity (possibly none); otherwise
   * the first entity, in hit order, that is not invisible.
   */
  function SelectEntityFromRaycast(hits: seq<Option<EntityId>>, includeInvisible: bool, invisible: EntityId -> bool): (r: Option<EntityId>)
    ensures |hits| == 0 ==> r.None?
    ensures includeInvisible && |hits| > 0 ==> r == hits[0]
    ensures !includeInvisible ==> (r.None? <==> forall j :: 0 <= j < |hits| ==> !VisibleHit(hits[j], invisible))
    ensures !includeInvisible && r.Some? ==>
      exists i :: 0 <= i < |hits| && hits[i] == r && VisibleHit(hits[i], invisible)
        && forall j :: 0 <= j < i ==> !VisibleHit(hits[j], invisible)
  {
    if |hits| == 0 then None
    else if includeInvisible then hits[0]
    else
      var i := FirstVisibleIndex(hits, invisible);
      if i < |hits| then hits[i] else None
  }

  /** Without invisible entities, the choice never falls on an invisible one. */
  lemma SelectedIsVisible(hits: seq<Option<EntityId>>, invisible: EntityId -> bool)
    ensures var r := SelectEntityFromRaycast(hits, false, invisible);
      r.Some? ==> !invisible(r.value)
  {
  }

  /** What the host reports when a player looks around: the raycasts and the messages they would give. */
  datatype View = View(
    entityHits: seq<Option<EntityId>>,
    invisible: EntityId -> bool,
    entityPayload: EntityId -> string,
    blockPayload: Option<string>)

  // ---------------------------------------------------------------------------
  // One player's update
  // ---------------------------------------------------------------------------

  /** The ticks spent without a target, 0 when unknown. */
  function NoTargetTicks(s: State, key: string): real
  {
    if key in s.noTarget then s.noTarget[key] else 0.0
  }

  /**
   * The no-target branch: nothing happens when clearing is switched off;
   * otherwise the counter advances by `max(1, interval)` and the bar is
   * blanked once it reaches `clearAfterNoTargetTicks`.
   */
  function NoTarget(s: State, key: string, t: TickSettings): (r: State)
    ensures t.clearAfterNoTargetTicks <= 0.0 ==> r == s
    ensures (t.clearAfterNoTargetTicks > 0.0
      && NoTargetTicks(s, key) + AtLeastOne(t.updateIntervalTicks) >= t.clearAfterNoTargetTicks) ==>
      r == ClearActionbar(s, key)
    ensures (t.clearAfterNoTargetTicks > 0.0
      && NoTargetTicks(s, key) + AtLeastOne(t.updateIntervalTicks) < t.clearAfterNoTargetTicks) ==>
      r == s.(noTarget := s.noTarget[key := NoTargetTicks(s, key) + AtLeastOne(t.updateIntervalTicks)])
    ensures Extends(s, r) && r.tick == s.tick && r.nextUpdate == s.nextUpdate
    ensures forall k :: k != key ==> SliceOf(r, k) == SliceOf(s, k)
  {
    if t.clearAfterNoTargetTicks <= 0.0 then s
    else
      var next := NoTargetTicks(s, key) + AtLeastOne(t.updateIntervalTicks);
      if next >= t.clearAfterNoTargetTicks then ClearActionbar(s, key)
      else s.(noTarget := s.noTarget[key := next])
  }

  /** While clearing is on, a remembered no-target counter is always below the threshold. */
  lemma NoTargetBelowThreshold(s: State, key: string, t: TickSettings)
    requires t.clearAfterNoTargetTicks > 0.0
    ensures var r := NoTarget(s, key, t);
      key in r.noTarget ==> r.noTarget[key] < t.clearAfterNoTargetTicks
  {
  }

  /** `n` no-target updates in a row. */
  function NoTargetRuns(s: State, key: string, t: TickSettings, n: nat): (r: State)
    ensures Extends(s, r)
    decreases n
  {
    if n == 0 then s else NoTargetRuns(NoTarget(s, key, t), key, t, n - 1)
  }

  lemma ExtendsTrans(a: State, b: State, c: State)
    requires Extends(a, b) && Extends(b, c)
    ensures Extends(a, c)
    ensures forall i :: |a.shown| <= i < |b.shown| ==> c.shown[i] == b.shown[i]
  {
    assert c.shown[..|b.shown|][..|a.shown|] == c.shown[..|a.shown|];
    forall i | |a.shown| <= i < |b.shown| ensures c.shown[i] == b.shown[i] {
      assert c.shown[..|b.shown|][i] == c.shown[i];
    }
  }

  /**
   * A player whose counter is below the threshold and who has no target
   * for `n` updates, where `n` steps of `max(1, interval)` reach the
   * threshold, has the bar blanked within those updates.
   */
  lemma {:induction false} ClearedWithinRuns(s: State, key: string, t: TickSettings, n: nat)
    requires t.clearAfterNoTargetTicks > 0.0
    requires NoTargetTicks(s, key) < t.clearAfterNoTargetTicks
    requires NoTargetTicks(s, key) + (n as real) * AtLeastOne(t.updateIntervalTicks) >= t.clearAfterNoTargetTicks
    ensures exists i :: |s.shown| <= i < |NoTargetRuns(s, key, t, n).shown| && NoTargetRuns(s, key, t, n).shown[i] == Blank(key)
    decreases n
  {
    var step := AtLeastOne(t.updateIntervalTicks);
    assert n != 0;
    var s1 := NoTarget(s, key, t);
    var r := NoTargetRuns(s1, key, t, n - 1);
    assert NoTargetRuns(s, key, t, n) == r;
    if NoTargetTicks(s, key) + step >= t.clearAfterNoTargetTicks {
      assert s1.shown == s.shown + [Blank(key)];
      ExtendsTrans(s, s1, r);
      assert r.shown[|s.shown|] == Blank(key);
    } else {
      assert NoTargetTicks(s1, key) == NoTargetTicks(s, key) + step;
      assert s1.shown == s.shown;
      assert NoTargetTicks(s1, key) + ((n - 1) as real) * step >= t.clearAfterNoTargetTicks;
      ClearedWithinRuns(s1, key, t, n - 1);
    }
  }

  /**
   * `processPlayerRaycast`: a skipped player is cleared; otherwise an
   * entity target is shown, else a block target, else the no-target
   * branch runs.
   */
  function ProcessPlayerRaycast(s: State, key: string, t: TickSettings, compat: Compatibility, view: View): (r: State)
    ensures ShouldSkipPlayer(t) ==> r == ClearActionbar(s, key)
    ensures !ShouldSkipPlayer(t) && SelectEntityFromRaycast(view.entityHits, t.includeInvisibleEntities, view.invisible).Some? ==>
      r == SetActionbarIfChanged(s, key, view.entityPayload(SelectEntityFromRaycast(view.entityHits, t.includeInvisibleEntities, view.invisible).value), t, compat)
    ensures (!ShouldSkipPlayer(t) && SelectEntityFromRaycast(view.entityHits, t.includeInvisibleEntities, view.invisible).None?
      && view.blockPayload.Some?) ==>
      r == SetActionbarIfChanged(s, key, view.blockPayload.value, t, compat)
    ensures (!ShouldSkipPlayer(t) && SelectEntityFromRaycast(view.entityHits, t.includeInvisibleEntities, view.invisible).None?
      && view.blockPayload.None?) ==> r == NoTarget(s, key, t)
    ensures Extends(s, r) && r.tick == s.tick && r.nextUpdate == s.nextUpdate
    ensures forall k :: k != key ==> SliceOf(r, k) == SliceOf(s, k)
  {
    if ShouldSkipPlayer(t) then ClearActionbar(s, key)
    else
      var target := SelectEntityFromRaycast(view.entityHits, t.includeInvisibleEntities, view.invisible);
      if target.Some? then SetActionbarIfChanged(s, key, view.entityPayload(target.value), t, compat)
      else if view.blockPayload.Some? then SetActionbarIfChanged(s, key, view.blockPayload.value, t, compat)
      else NoTarget(s, key, t)
  }

  /** An entity target takes priority: when one is selected, what the block raycast would give does not matter. */
  lemma EntityBeforeBlock(s: State, key: string, t: TickSettings, compat: Compatibility, view: View, block: Option<string>)
    requires SelectEntityFromRaycast(view.entityHits, t.includeInvisibleEntities, view.invisible).Some?
    ensures ProcessPlayerRaycast(s, key, t, compat, view.(blockPayload := block)) == ProcessPlayerRaycast(s, key, t, compat, view)
  {
  }

  /** Any target resets the no-target counter. */
  lemma TargetResetsNoTarget(s: State, key: string, t: TickSettings, compat: Compatibility, view: View)
    requires !ShouldSkipPlayer(t)
    requires SelectEntityFromRaycast(view.entityHits, t.includeInvisibleEntities, view.invisible).Some? || view.blockPayload.Some?
    ensures NoTargetTicks(ProcessPlayerRaycast(s, key, t, compat, view), key) == 0.0
  {
  }

  /**
   * `processEntityHit`: the hit event writes through the same
   * deduplication, but never consults or moves the update schedule, and
   * a skipped player is left as it is rather than cleared.
   */
  function ProcessEntityHit(s: State, compat: Compatibility, damagerIsPlayer: bool, key: string, t: TickSettings, hitInvisible: bool, payload: string): (r: State)
    ensures !compat.useEntityHitFallback || !damagerIsPlayer || ShouldSkipPlayer(t) ==> r == s
    ensures !t.includeInvisibleEntities && hitInvisible ==> r == s
    ensures compat.useEntityHitFallback && damagerIsPlayer && !ShouldSkipPlayer(t) && (t.includeInvisibleEntities || !hitInvisible) ==>
      r == SetActionbarIfChanged(s, key, payload, t, compat)
    ensures r.nextUpdate == s.nextUpdate
  {
    if !compat.useEntityHitFallback then s
    else if !damagerIsPlayer then s
    else if ShouldSkipPlayer(t) then s
    else if !t.includeInvisibleEntities && hitInvisible then s
    else SetActionbarIfChanged(s, key, payload, t, compat)
  }

  /** For a skipped player the tick path blanks the bar while the hit path writes nothing. */
  lemma SkipPathsDiffer(s: State, key: string, t: TickSettings, compat: Compatibility, view: View, hitInvisible: bool, payload: string)
    requires ShouldSkipPlayer(t)
    ensures ProcessPlayerRaycast(s, key, t, compat, view).shown == s.shown + [Blank(key)]
    ensures ProcessEntityHit(s, compat, true, key, t, hitInvisible, payload).shown == s.shown
  {
  }

  // ---------------------------------------------------------------------------
  // The tick
  // ---------------------------------------------------------------------------

  /** One player as the tick finds it: cache key, settings, and what it is looking at. */
  datatype PlayerTick = PlayerTick(key: string, settings: TickSettings, view: View)

  /** One player's turn: updated only when due. */
  function Turn(s: State, p: PlayerTick, compat: Compatibility): (r: State)
    ensures Extends(s, r) && r.tick == s.tick
    ensures forall k :: k != p.key ==> SliceOf(r, k) == SliceOf(s, k)
    ensures (s.tick as real) < NextUpdate(s, p.key) ==> r == s
    ensures (s.tick as real) >= NextUpdate(s, p.key) ==>
      r == ProcessPlayerRaycast(CanRunUpdateNow(s, p.key, p.settings.updateIntervalTicks).state, p.key, p.settings, compat, p.view)
    ensures (s.tick as real) >= NextUpdate(s, p.key) ==> NextUpdate(r, p.key) == s.tick as real + AtLeastOne(p.settings.updateIntervalTicks)
  {
    var gate := CanRunUpdateNow(s, p.key, p.settings.updateIntervalTicks);
    if !gate.run then gate.state
    else ProcessPlayerRaycast(gate.state, p.key, p.settings, compat, p.view)
  }

  /** The players' turns in order. */
  function Turns(s: State, players: seq<PlayerTick>, compat: Compatibility): (r: State)
    ensures Extends(s, r) && r.tick == s.tick
    ensures forall k :: (forall i :: 0 <= i < |players| ==> players[i].key != k) ==> SliceOf(r, k) == SliceOf(s, k)
    decreases |players|
  {
    if |players| == 0 then s
    else
      var first := Turn(s, players[0], compat);
      var rest := Turns(first, players[1..], compat);
      ExtendsTrans(s, first, rest);
      rest
  }

  /** The turns run in list order: one more player takes a turn after all the others. */
  lemma {:induction false} TurnsSnoc(s: State, players: seq<PlayerTick>, p: PlayerTick, compat: Compatibility)
    ensures Turns(s, players + [p], compat) == Turn(Turns(s, players, compat), p, compat)
    decreases |players|
  {
    if |players| == 0 {
      assert players + [p] == [p];
      assert Turns(s, [p], compat) == Turns(Turn(s, p, compat), [], compat);
    } else {
      var first := Turn(s, players[0], compat);
      assert (players + [p])[0] == players[0];
      assert (players + [p])[1..] == players[1..] + [p];
      TurnsSnoc(first, players[1..], p, compat);
    }
  }

  /**
   * The interval callback: the global counter advances by one, then every
   * player takes a turn. The log only grows, and a player not in the list
   * keeps everything the controller remembers about it.
   */
  function Tick(s: State, players: seq<PlayerTick>, compat: Compatibility): (r: State)
    ensures r.tick == s.tick + 1
    ensures Extends(s, r)
    ensures forall k :: (forall i :: 0 <= i < |players| ==> players[i].key != k) ==> SliceOf(r, k) == SliceOf(s, k)
  {
    Turns(s.(tick := s.tick + 1), players, compat)
  }

  /**
   * A tick with one player: the counter advances, then the player is
   * updated and rescheduled when due, and otherwise nothing else changes.
   */
  lemma TickOnePlayer(s: State, p: PlayerTick, compat: Compatibility)
    ensures var next := s.(tick := s.tick + 1);
      Tick(s, [p], compat) == Turn(next, p, compat)
      && ((next.tick as real) < NextUpdate(s, p.key) ==> Tick(s, [p], compat) == next)
      && ((next.tick as real) >= NextUpdate(s, p.key) ==>
        NextUpdate(Tick(s, [p], compat), p.key) == next.tick as real + AtLeastOne(p.settings.updateIntervalTicks))
  {
    var next := s.(tick := s.tick + 1);
    assert [p][1..] == [];
    assert Tick(s, [p], compat) == Turns(Turn(next, p, compat), [], compat);
    assert NextUpdate(next, p.key) == NextUpdate(s, p.key);
  }
}
