/**
 * The "Next Variant" custom field: a block found in one of the material
 * cycles published by a companion add-on shows the display name of the
 * block that follows it in that cycle.
 */
module NextVariant {
  import opened Wrappers
  import opened Text
  import opened JsValue
  import opened OrderedMaps
  import Formatters
  import Lists

  /** `stripNamespace`: everything after the first colon, further colons included. */
  function StripNamespace(id: string): (r: string)
    ensures ':' !in id ==> r == id
    ensures ':' in id ==> r == id[IndexOf(id, ':') + 1..]
  {
    var parts := Split(id, ':');
    if |parts| > 1 then
      SplitUnfold(id, ':');
      JoinSplit(id[IndexOf(id, ':') + 1..], ':');
      Join(parts[1..], ":")
    else parts[0]
  }

  /** A colon-free namespace is removed whole, whatever colons the id itself holds. */
  lemma StripNamespaceOfBare(namespace: string, id: string)
    requires ':' !in namespace
    ensures StripNamespace(namespace + ":" + id) == id
  {
    IndexOfAfter(namespace, ':', id);
    assert (namespace + ":" + id)[|namespace| + 1..] == id;
  }

  // ---------------------------------------------------------------------------
  // Alias chasing
  // ---------------------------------------------------------------------------

  /**
   * The successive values of `current` in `resolveAlias`, starting from
   * `current` itself: each step follows the alias map from a key not yet
   * visited; the walk stops at a key without alias or one already visited.
   */
  function AliasWalk(current: string, aliasMap: map<string, string>, visited: set<string>): (walk: seq<string>)
    ensures |walk| >= 1 && walk[0] == current
    ensures current !in aliasMap || current in visited ==> walk == [current]
    decreases |aliasMap.Keys - visited|
  {
    if current in aliasMap && current !in visited then
      assert aliasMap.Keys - visited == (aliasMap.Keys - (visited + {current})) + {current};
      [current] + AliasWalk(aliasMap[current], aliasMap, visited + {current})
    else [current]
  }

  /** Every step of `walk` follows the alias map from a key outside `visited`. */
  predicate FollowsAliases(walk: seq<string>, aliasMap: map<string, string>, visited: set<string>)
  {
    forall k :: 0 <= k < |walk| - 1 ==> walk[k] in aliasMap && aliasMap[walk[k]] == walk[k + 1] && walk[k] !in visited
  }

  lemma {:induction false} AliasWalkFollows(current: string, aliasMap: map<string, string>, visited: set<string>)
    ensures FollowsAliases(AliasWalk(current, aliasMap, visited), aliasMap, visited)
    decreases |aliasMap.Keys - visited|
  {
    if current in aliasMap && current !in visited {
      assert aliasMap.Keys - visited == (aliasMap.Keys - (visited + {current})) + {current};
      AliasWalkFollows(aliasMap[current], aliasMap, visited + {current});
      var rest := AliasWalk(aliasMap[current], aliasMap, visited + {current});
      var walk := AliasWalk(current, aliasMap, visited);
      assert walk == [current] + rest;
      forall k | 0 <= k < |walk| - 1
        ensures walk[k] in aliasMap && aliasMap[walk[k]] == walk[k + 1] && walk[k] !in visited
      {
        assert walk[k + 1] == rest[k];
        if k > 0 {
          assert walk[k] == rest[k - 1];
        }
      }
    }
  }

  /** No key is left twice, and the walk ends where the chase stops. */
  lemma {:induction false} AliasWalkSteps(current: string, aliasMap: map<string, string>, visited: set<string>)
    ensures var walk := AliasWalk(current, aliasMap, visited);
      && Distinct(walk[..|walk| - 1])
      && var last := walk[|walk| - 1]; last !in aliasMap || last in visited || last in walk[..|walk| - 1]
    decreases |aliasMap.Keys - visited|
  {
    AliasWalkFollows(current, aliasMap, visited);
    if current in aliasMap && current !in visited {
      assert aliasMap.Keys - visited == (aliasMap.Keys - (visited + {current})) + {current};
      AliasWalkSteps(aliasMap[current], aliasMap, visited + {current});
      AliasWalkFollows(aliasMap[current], aliasMap, visited + {current});
      var rest := AliasWalk(aliasMap[current], aliasMap, visited + {current});
      var walk := AliasWalk(current, aliasMap, visited);
      assert walk == [current] + rest;
      assert walk[..|walk| - 1][1..] == rest[..|rest| - 1];
    }
  }

  /**
   * `resolveAlias`: the block id reached by following aliases; the chase
   * stops at an id without alias or on returning to an id already visited,
   * so it ends on cyclic alias maps.
   */
  function ResolveAlias(blockId: string, aliasMap: map<string, string>): (r: string)
    ensures blockId !in aliasMap ==> r == blockId
    ensures blockId in aliasMap && aliasMap[blockId] == blockId ==> r == blockId
  {
    var walk := AliasWalk(blockId, aliasMap, {});
    walk[|walk| - 1]
  }

  /** The resolved id ends the chase: it has no alias, or its alias leads back into the walk. */
  lemma ResolveAliasStops(blockId: string, aliasMap: map<string, string>)
    ensures var walk := AliasWalk(blockId, aliasMap, {});
      ResolveAlias(blockId, aliasMap) == walk[|walk| - 1]
      && (ResolveAlias(blockId, aliasMap) !in aliasMap || ResolveAlias(blockId, aliasMap) in walk[..|walk| - 1])
      && |walk| - 1 <= |aliasMap.Keys|
  {
    AliasWalkSteps(blockId, aliasMap, {});
    AliasWalkFollows(blockId, aliasMap, {});
    var walk := AliasWalk(blockId, aliasMap, {});
    var steps := walk[..|walk| - 1];
    assert forall k :: 0 <= k < |steps| ==> steps[k] == walk[k];
    DistinctKeysBound(steps, aliasMap);
  }

  /** A walk that never repeats a key takes at most as many steps as there are keys. */
  lemma DistinctKeysBound(steps: seq<string>, aliasMap: map<string, string>)
    requires Distinct(steps)
    requires forall k :: 0 <= k < |steps| ==> steps[k] in aliasMap
    ensures |steps| <= |aliasMap.Keys|
  {
    var s := set k | 0 <= k < |steps| :: steps[k];
    assert s <= aliasMap.Keys;
    DistinctCard(steps);
    assert s == SeqElems(steps);
    SubsetCard(s, aliasMap.Keys);
  }

  function SeqElems(steps: seq<string>): set<string>
  {
    set k | 0 <= k < |steps| :: steps[k]
  }

  lemma {:induction false} DistinctCard(steps: seq<string>)
    requires Distinct(steps)
    ensures |SeqElems(steps)| == |steps|
    decreases |steps|
  {
    if steps != [] {
      var front := steps[..|steps| - 1];
      assert Distinct(front);
      DistinctCard(front);
      assert SeqElems(steps) == SeqElems(front) + {steps[|steps| - 1]};
      assert steps[|steps| - 1] !in SeqElems(front);
    }
  }

  lemma SubsetCard(a: set<string>, b: set<string>)
    requires a <= b
    ensures |a| <= |b|
  {
    assert b == a + (b - a);
  }

  // ---------------------------------------------------------------------------
  // Display names
  // ---------------------------------------------------------------------------

  /** `blockIdToDisplayName`: title-cased words of the id without its namespace. */
  function BlockIdToDisplayName(blockId: string): (r: string)
    ensures r == Formatters.ToTitleWords(Split(StripNamespace(blockId), '_'))
  {
    Join(Formatters.CapitalizeAll(NonEmpty(Split(StripNamespace(blockId), '_'))), " ")
  }

  // ---------------------------------------------------------------------------
  // Cycle lookup
  // ---------------------------------------------------------------------------

  /** Where a block id sits: which cycle, and which position in it. */
  datatype Entry = Entry(cycleIndex: nat, stateIndex: nat)

  /** Block id `id` is the non-empty string at position `si` of cycle `ci`. */
  predicate Occurs(cycles: seq<Js>, id: string, ci: nat, si: nat)
  {
    ci < |cycles| && cycles[ci].Arr? && si < |cycles[ci].items| && cycles[ci].items[si] == Str(id) && id != []
  }

  /** Position `(ci, si)` comes no later than `(cj, sj)` in scanning order. */
  predicate NoLater(ci: nat, si: nat, cj: nat, sj: nat)
  {
    ci < cj || (ci == cj && si <= sj)
  }

  /** The lookup after recording the first `n` positions of one cycle. */
  function AddStates(m: Entries<string, Entry>, cycle: seq<Js>, ci: nat, n: nat): (r: Entries<string, Entry>)
    requires Valid(m) && n <= |cycle|
    ensures Valid(r)
    decreases n
  {
    if n == 0 then m
    else
      var prev := AddStates(m, cycle, ci, n - 1);
      match cycle[n - 1]
      case Str(s) => if s != [] then Set(prev, s, Entry(ci, n - 1)) else prev
      case _ => prev
  }

  /** The lookup after scanning the first `n` cycles; entries that are not arrays are skipped. */
  function LookupUpTo(cycles: seq<Js>, n: nat): (r: Entries<string, Entry>)
    requires n <= |cycles|
    ensures Valid(r)
  {
    if n == 0 then []
    else
      var prev := LookupUpTo(cycles, n - 1);
      if cycles[n - 1].Arr? then AddStates(prev, cycles[n - 1].items, n - 1, |cycles[n - 1].items|) else prev
  }

  /** `ensureLookup`: the id-to-position map over all cycles. */
  function BuildLookup(cycles: seq<Js>): (r: Entries<string, Entry>)
    ensures Valid(r)
  {
    LookupUpTo(cycles, |cycles|)
  }

  /** The last of the first `n` positions of a cycle that hold block id `id`, if any. */
  function LastIndex(cycle: seq<Js>, n: nat, id: string): (r: Option<nat>)
    requires n <= |cycle|
    ensures r.None? <==> forall si :: 0 <= si < n ==> !(cycle[si] == Str(id) && id != [])
    ensures r.Some? ==>
      r.value < n && cycle[r.value] == Str(id) && id != [] && forall sj :: r.value < sj < n ==> cycle[sj] != Str(id)
    decreases n
  {
    if n == 0 then None
    else if cycle[n - 1] == Str(id) && id != [] then Some(n - 1)
    else LastIndex(cycle, n - 1, id)
  }

  /** Recording a cycle's positions leaves an id as it was, or points it at its last position in the cycle. */
  lemma {:induction false} AddStatesSpec(m: Entries<string, Entry>, cycle: seq<Js>, ci: nat, n: nat, id: string)
    requires Valid(m) && n <= |cycle|
    ensures Get(AddStates(m, cycle, ci, n), id) ==
      match LastIndex(cycle, n, id)
      case None => Get(m, id)
      case Some(si) => Some(Entry(ci, si))
    decreases n
  {
    if n > 0 {
      AddStatesSpec(m, cycle, ci, n - 1, id);
      AddStatesStep(m, cycle, ci, n, id);
    }
  }

  /** Recording one more position changes only the id written there. */
  lemma AddStatesStep(m: Entries<string, Entry>, cycle: seq<Js>, ci: nat, n: nat, id: string)
    requires Valid(m) && 0 < n <= |cycle|
    ensures Get(AddStates(m, cycle, ci, n), id) ==
      if cycle[n - 1] == Str(id) && id != [] then Some(Entry(ci, n - 1)) else Get(AddStates(m, cycle, ci, n - 1), id)
  {
  }

  /** The last position of block id `id` in cycle `c`, found at index `ci`; nothing for a cycle that is not an array. */
  function CycleLast(c: Js, ci: nat, id: string): (r: Option<Entry>)
  {
    if c.Arr? then
      match LastIndex(c.items, |c.items|, id)
      case Some(si) => Some(Entry(ci, si))
      case None => None
    else None
  }

  /** The last position of block id `id` in the array cycles among the first `n`, in scanning order. */
  function LastOccurrence(cycles: seq<Js>, n: nat, id: string): (r: Option<Entry>)
    requires n <= |cycles|
    decreases n
  {
    if n == 0 then None
    else if CycleLast(cycles[n - 1], n - 1, id).Some? then CycleLast(cycles[n - 1], n - 1, id)
    else LastOccurrence(cycles, n - 1, id)
  }

  /** The lookup after `n` cycles holds each id's last occurrence among them. */
  lemma {:induction false} LookupIsLastOccurrence(cycles: seq<Js>, n: nat, id: string)
    requires n <= |cycles|
    ensures Get(LookupUpTo(cycles, n), id) == LastOccurrence(cycles, n, id)
    decreases n
  {
    if n > 0 {
      LookupIsLastOccurrence(cycles, n - 1, id);
      LookupStep(cycles, n, id);
    }
  }

  /** Scanning one more cycle points an id at its last position there, or leaves it as it was. */
  lemma LookupStep(cycles: seq<Js>, n: nat, id: string)
    requires 0 < n <= |cycles|
    ensures Get(LookupUpTo(cycles, n), id) ==
      if CycleLast(cycles[n - 1], n - 1, id).Some? then CycleLast(cycles[n - 1], n - 1, id) else Get(LookupUpTo(cycles, n - 1), id)
  {
    if cycles[n - 1].Arr? {
      ArrayCycleStep(cycles, n, id);
    } else {
      assert LookupUpTo(cycles, n) == LookupUpTo(cycles, n - 1);
    }
  }

  /** An array cycle points an id at its last position in it, or leaves it as it was. */
  lemma ArrayCycleStep(cycles: seq<Js>, n: nat, id: string)
    requires 0 < n <= |cycles| && cycles[n - 1].Arr?
    ensures Get(LookupUpTo(cycles, n), id) ==
      match LastIndex(cycles[n - 1].items, |cycles[n - 1].items|, id)
      case None => Get(LookupUpTo(cycles, n - 1), id)
      case Some(si) => Some(Entry(n - 1, si))
  {
    var items := cycles[n - 1].items;
    AddStatesSpec(LookupUpTo(cycles, n - 1), items, n - 1, |items|, id);
  }

  /** The last occurrence exists exactly when the id occurs, and no occurrence comes after it. */
  lemma {:induction false} LastOccurrenceSpec(cycles: seq<Js>, n: nat, id: string)
    requires n <= |cycles|
    ensures LastOccurrence(cycles, n, id).Some? <==> exists ci: nat, si: nat :: ci < n && Occurs(cycles, id, ci, si)
    ensures LastOccurrence(cycles, n, id).Some? ==>
      var e := LastOccurrence(cycles, n, id).value;
      e.cycleIndex < n && Occurs(cycles, id, e.cycleIndex, e.stateIndex)
      && forall ci: nat, si: nat :: ci < n && Occurs(cycles, id, ci, si) ==> NoLater(ci, si, e.cycleIndex, e.stateIndex)
    decreases n
  {
    if n > 0 {
      LastOccurrenceSpec(cycles, n - 1, id);
      var c := cycles[n - 1];
      if CycleLast(c, n - 1, id).Some? {
        assert Occurs(cycles, id, n - 1, CycleLast(c, n - 1, id).value.stateIndex);
      } else {
        var ci: nat := n - 1;
        assert forall si: nat :: !Occurs(cycles, id, ci, si);
      }
    }
  }

  /**
   * A block id listed in several cycles, or several times in one, maps to
   * its last occurrence in scanning order; an id that never occurs is absent.
   */
  lemma LookupUpToSpec(cycles: seq<Js>, n: nat, id: string)
    requires n <= |cycles|
    ensures Get(LookupUpTo(cycles, n), id).Some? <==> exists ci: nat, si: nat :: ci < n && Occurs(cycles, id, ci, si)
    ensures Get(LookupUpTo(cycles, n), id).Some? ==>
      var e := Get(LookupUpTo(cycles, n), id).value;
      e.cycleIndex < n && Occurs(cycles, id, e.cycleIndex, e.stateIndex)
      && forall ci: nat, si: nat :: ci < n && Occurs(cycles, id, ci, si) ==> NoLater(ci, si, e.cycleIndex, e.stateIndex)
  {
    LookupIsLastOccurrence(cycles, n, id);
    LastOccurrenceSpec(cycles, n, id);
  }

  /** Every recorded position names a string in an array cycle. */
  lemma LookupEntryInRange(cycles: seq<Js>, id: string)
    requires Get(BuildLookup(cycles), id).Some?
    ensures var e := Get(BuildLookup(cycles), id).value;
      Occurs(cycles, id, e.cycleIndex, e.stateIndex)
  {
    LookupUpToSpec(cycles, |cycles|, id);
  }

  /** The position of the first entry whose key, seen through `view`, equals `target`; `|entries|` when there is none. */
  function FirstIndexWhere<K, V>(entries: seq<(K, V)>, view: K -> string, target: string): (i: nat)
    ensures i <= |entries|
    ensures i < |entries| ==> view(entries[i].0) == target
    ensures forall j :: 0 <= j < i ==> view(entries[j].0) != target
  {
    if entries == [] || view(entries[0].0) == target then 0
    else
      var k := FirstIndexWhere(entries[1..], view, target);
      assert forall j :: 1 <= j < k + 1 ==> entries[j] == entries[1..][j - 1];
      k + 1
  }

  /** The value of the first entry, in map order, whose stripped key equals `stripped`. */
  function FirstStrippedMatch(lookup: Entries<string, Entry>, stripped: string): (r: Option<Entry>)
    ensures r.None? <==> forall i :: 0 <= i < |lookup| ==> StripNamespace(lookup[i].0) != stripped
    ensures r.Some? ==> exists i :: (0 <= i < |lookup| && StripNamespace(lookup[i].0) == stripped && r.value == lookup[i].1
      && forall j :: 0 <= j < i ==> StripNamespace(lookup[j].0) != stripped)
  {
    var i := FirstIndexWhere(lookup, StripNamespace, stripped);
    if i < |lookup| then Some(lookup[i].1) else None
  }

  /**
   * `findEntryForBlockId`: the exact id first, then the id its aliases
   * resolve to, then the first recorded id with the same name once
   * namespaces are stripped.
   */
  function FindEntryForBlockId(blockId: string, lookup: Entries<string, Entry>, aliasMap: map<string, string>): (r: Option<Entry>)
    ensures Has(lookup, blockId) ==> r == Get(lookup, blockId)
    ensures !Has(lookup, blockId) && Has(lookup, ResolveAlias(blockId, aliasMap)) ==> r == Get(lookup, ResolveAlias(blockId, aliasMap))
    ensures !Has(lookup, blockId) && !Has(lookup, ResolveAlias(blockId, aliasMap)) ==> r == FirstStrippedMatch(lookup, StripNamespace(blockId))
  {
    if Has(lookup, blockId) then Get(lookup, blockId)
    else
      var aliased := ResolveAlias(blockId, aliasMap);
      if Has(lookup, aliased) then Get(lookup, aliased)
      else FirstStrippedMatch(lookup, StripNamespace(blockId))
  }

  /** The variant data a companion add-on publishes: its cycles and its alias map. */
  datatype VariantSource = VariantSource(cycles: seq<Js>, aliasMap: map<string, string>)

  /**
   * The entry an item of a `BLOCK_ALIAS` array adds in `new Map(pairs)`:
   * its first two elements, when both are text.
   */
  function AliasPair(item: Js): Option<(string, string)>
  {
    if item.Arr? && |item.items| >= 2 && item.items[0].Str? && item.items[1].Str? then
      Some((item.items[0].s, item.items[1].s))
    else None
  }

  /**
   * `getVariantSource`: the cycles and aliases the `InsightAtelierVariants`
   * global publishes, when it is present and its `MATERIAL_CYCLES` is an
   * array. A `BLOCK_ALIAS` that is a `Map` instance arrives as
   * `aliasInstance`; an array of pairs is read as `new Map(pairs)` reads it,
   * the last pair for a key winning; anything else gives no aliases.
   */
  function GetVariantSource(global: Js, aliasInstance: Option<map<string, string>>): (r: Option<VariantSource>)
    ensures r.Some? <==> Prop(global, "MATERIAL_CYCLES").Arr?
    ensures r.Some? ==> r.value.cycles == Prop(global, "MATERIAL_CYCLES").items
    ensures r.Some? && aliasInstance.Some? ==> r.value.aliasMap == aliasInstance.value
    ensures r.Some? && aliasInstance.None? && !Prop(global, "BLOCK_ALIAS").Arr? ==> r.value.aliasMap == map[]
  {
    var cycles := Prop(global, "MATERIAL_CYCLES");
    if !Truthy(global) || !cycles.Arr? then None
    else
      var aliases := Prop(global, "BLOCK_ALIAS");
      var aliasMap :=
        if aliasInstance.Some? then aliasInstance.value
        else if aliases.Arr? then Lists.Assign(map[], aliases.items, AliasPair)
        else map[];
      Some(VariantSource(cycles.items, aliasMap))
  }

  /** An id is aliased exactly when some pair of a `BLOCK_ALIAS` array names it. */
  lemma VariantAliasKeys(global: Js, id: string)
    requires Prop(global, "MATERIAL_CYCLES").Arr? && Prop(global, "BLOCK_ALIAS").Arr?
    ensures var pairs := Prop(global, "BLOCK_ALIAS").items;
      id in GetVariantSource(global, None).value.aliasMap
      <==> exists i :: 0 <= i < |pairs| && AliasPair(pairs[i]).Some? && AliasPair(pairs[i]).value.0 == id
  {
    var pairs := Prop(global, "BLOCK_ALIAS").items;
    Lists.AssignKeys(map[], pairs, AliasPair, id);
    if exists i :: Lists.Assigns(pairs, AliasPair, i, id) {
      var i :| Lists.Assigns(pairs, AliasPair, i, id);
      assert 0 <= i < |pairs| && AliasPair(pairs[i]).Some? && AliasPair(pairs[i]).value.0 == id;
    }
    if exists i :: 0 <= i < |pairs| && AliasPair(pairs[i]).Some? && AliasPair(pairs[i]).value.0 == id {
      var i :| 0 <= i < |pairs| && AliasPair(pairs[i]).Some? && AliasPair(pairs[i]).value.0 == id;
      assert Lists.Assigns(pairs, AliasPair, i, id);
    }
  }

  /** Of the pairs of a `BLOCK_ALIAS` array naming one id, the last decides its alias. */
  lemma VariantAliasLastPair(global: Js, i: nat)
    requires Prop(global, "MATERIAL_CYCLES").Arr? && Prop(global, "BLOCK_ALIAS").Arr?
    requires var pairs := Prop(global, "BLOCK_ALIAS").items;
      i < |pairs| && AliasPair(pairs[i]).Some?
      && forall j :: i < j < |pairs| ==> AliasPair(pairs[j]).None? || AliasPair(pairs[j]).value.0 != AliasPair(pairs[i]).value.0
    ensures var pair := AliasPair(Prop(global, "BLOCK_ALIAS").items[i]).value;
      var aliasMap := GetVariantSource(global, None).value.aliasMap;
      pair.0 in aliasMap && aliasMap[pair.0] == pair.1
  {
    var pairs := Prop(global, "BLOCK_ALIAS").items;
    forall j | i < j < |pairs| ensures !Lists.Assigns(pairs, AliasPair, j, AliasPair(pairs[i]).value.0) {
    }
    Lists.AssignLast(map[], pairs, AliasPair, i);
  }

  /**
   * The looked-at block has a next variant: the entry found for it lies in
   * an array cycle of at least two items, and the item after it, wrapping
   * around, is non-empty text.
   */
  predicate HasNextVariant(blockTypeId: string, source: VariantSource)
  {
    var e := FindEntryForBlockId(blockTypeId, BuildLookup(source.cycles), source.aliasMap);
    e.Some? && e.value.cycleIndex < |source.cycles| && source.cycles[e.value.cycleIndex].Arr?
    && var cycle := source.cycles[e.value.cycleIndex].items;
    |cycle| > 1 && cycle[(e.value.stateIndex + 1) % |cycle|].Str? && cycle[(e.value.stateIndex + 1) % |cycle|].s != []
  }

  /**
   * `collectAtelierNextVariantBlockFields`: the line naming the block that
   * follows the looked-at block in its cycle, wrapping around at the end.
   */
  function CollectNextVariant(showCustomFields: bool, showVariantPreview: bool, blockTypeId: string, source: Option<VariantSource>): (r: Option<string>)
    ensures r.Some? ==> showCustomFields && showVariantPreview && blockTypeId != [] && source.Some?
    ensures r.Some? ==>
      var cycles := source.value.cycles;
      var e := FindEntryForBlockId(blockTypeId, BuildLookup(cycles), source.value.aliasMap);
      e.Some? && e.value.cycleIndex < |cycles| && cycles[e.value.cycleIndex].Arr?
      && var cycle := cycles[e.value.cycleIndex].items;
      |cycle| > 1
      && var next := cycle[(e.value.stateIndex + 1) % |cycle|];
      next.Str? && next.s != [] && r.value == "Next Variant: " + BlockIdToDisplayName(next.s)
  {
    if !showCustomFields || !showVariantPreview then None
    else if blockTypeId == [] then None
    else if source.None? then None
    else
      var cycles := source.value.cycles;
      var entry := FindEntryForBlockId(blockTypeId, BuildLookup(cycles), source.value.aliasMap);
      if entry.None? then None
      else if entry.value.cycleIndex >= |cycles| || !cycles[entry.value.cycleIndex].Arr? then None
      else
        var cycle := cycles[entry.value.cycleIndex].items;
        if |cycle| <= 1 then None
        else
          var next := cycle[(entry.value.stateIndex + 1) % |cycle|];
          if !next.Str? || next.s == [] then None
          else Some("Next Variant: " + BlockIdToDisplayName(next.s))
  }

  /**
   * A line appears exactly when both switches are on, the id is non-empty,
   * the source is published and the block has a next variant, found by its
   * exact id, its alias or its stripped name.
   */
  lemma NextVariantOfListedBlock(showCustomFields: bool, showVariantPreview: bool, blockTypeId: string, source: Option<VariantSource>)
    ensures CollectNextVariant(showCustomFields, showVariantPreview, blockTypeId, source).Some?
      <==> showCustomFields && showVariantPreview && blockTypeId != [] && source.Some? && HasNextVariant(blockTypeId, source.value)
  {
  }

  /** A block found only through its alias shows the variant after the aliased block. */
  lemma NextVariantOfAliasedBlock(blockTypeId: string, source: VariantSource)
    requires var lookup := BuildLookup(source.cycles);
      blockTypeId != [] && !Has(lookup, blockTypeId) && Has(lookup, ResolveAlias(blockTypeId, source.aliasMap))
    requires var e := Get(BuildLookup(source.cycles), ResolveAlias(blockTypeId, source.aliasMap)).value;
      e.cycleIndex < |source.cycles| &&
      var cycle := source.cycles[e.cycleIndex];
      cycle.Arr? && |cycle.items| > 1 && cycle.items[(e.stateIndex + 1) % |cycle.items|].Str?
      && cycle.items[(e.stateIndex + 1) % |cycle.items|].s != []
    ensures var e := Get(BuildLookup(source.cycles), ResolveAlias(blockTypeId, source.aliasMap)).value;
      var cycle := source.cycles[e.cycleIndex].items;
      CollectNextVariant(true, true, blockTypeId, Some(source))
      == Some("Next Variant: " + BlockIdToDisplayName(cycle[(e.stateIndex + 1) % |cycle|].s))
  {
  }
}
