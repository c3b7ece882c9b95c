/**
 * Block-state rows as the transformer pipeline hands them along, and what
 * one transformer's result does to them: original rows hidden, renamed or
 * given a new value, rows added before and after, and every row relabelled
 * by the registered state aliases last.
 */
module StateTraits {
  import opened Wrappers
  import opened Text
  import opened JsValue
  import opened Formatters
  import opened Lists
  import opened Namespaces

  /** One state row; `injected` marks the rows a transformer added. */
  datatype StateEntry = StateEntry(stateKey: string, labelText: string, rawValue: Js, valueText: string, injected: bool)

  /** A normalised state key: trimmed and without upper-case letters, possibly empty. */
  predicate KeyForm(k: string)
  {
    Unpadded(k) && HasNoUpper(k)
  }

  /** `normalizeStateKey`: `String(v || "")`, trimmed and lower-cased. */
  function NormalizeStateKey(v: Js): (r: string)
    ensures KeyForm(r)
    ensures !Truthy(v) ==> r == []
    ensures v.Str? ==> r == Lower(Trim(v.s))
  {
    KeyOfText(CoerceText(v))
  }

  /** Text trimmed and lower-cased: always in key form, and empty text stays empty. */
  function KeyOfText(t: string): (r: string)
    ensures KeyForm(r)
    ensures t == [] ==> r == []
    ensures r == Lower(Trim(t))
  {
    LowerKeepsEdges(Trim(t));
    if t == [] then
      TrimOfUnspaced(t);
      []
    else Lower(Trim(t))
  }

  /** A key already in normal form normalises to itself. */
  lemma NormalizeStateKeyOfKey(k: string)
    requires KeyForm(k)
    ensures NormalizeStateKey(Str(k)) == k
  {
    LowerOfLowered(k);
  }

  /** Normalising a state key twice is normalising it once. */
  lemma NormalizeStateKeyIdempotent(v: Js)
    ensures NormalizeStateKey(Str(NormalizeStateKey(v))) == NormalizeStateKey(v)
  {
    NormalizeStateKeyOfKey(NormalizeStateKey(v));
  }

  /** `normalizeStateKey` used as a list normaliser: an empty key is skipped. */
  function StateKeyItem(v: Js): (r: Option<string>)
    ensures r.Some? ==> r.value != [] && KeyForm(r.value)
  {
    var k := NormalizeStateKey(v);
    if k == [] then None else Some(k)
  }

  /**
   * `normalizeArrayOfStrings`: for an array, what the normaliser makes of
   * each item, skipping items it rejects, without repeats; for anything
   * else, nothing.
   */
  function NormalizeStrings(values: Js, f: Js -> Option<string>): (r: seq<string>)
    ensures NoDuplicates(r)
    ensures !values.Arr? ==> r == []
    ensures values.Arr? ==> forall k :: k in r <==> exists i :: 0 <= i < |values.items| && f(values.items[i]) == Some(k)
  {
    if values.Arr? then
      var kept := Collect(values.items, f);
      assert forall k :: k in kept <==> exists i :: 0 <= i < |values.items| && f(values.items[i]) == Some(k) by {
        forall k ensures k in kept <==> exists i :: 0 <= i < |values.items| && f(values.items[i]) == Some(k) {
          CollectMembers(values.items, f, k);
        }
      }
      Dedupe(kept)
    else []
  }

  /** Keys already normalised and distinct, given as an array of texts, come back as they were. */
  lemma NormalizeKeyList(keys: seq<string>)
    requires NoDuplicates(keys)
    requires forall i :: 0 <= i < |keys| ==> keys[i] != [] && KeyForm(keys[i])
    ensures NormalizeStrings(Arr(TextItems(keys)), StateKeyItem) == keys
  {
    var items := TextItems(keys);
    forall i | 0 <= i < |items| ensures StateKeyItem(items[i]) == Some(keys[i]) {
      NormalizeStateKeyOfKey(keys[i]);
    }
    CollectConverted(items, StateKeyItem, keys);
    DedupeOfDistinct(keys);
  }

  /** Texts as JavaScript strings. */
  function TextItems(texts: seq<string>): (r: seq<Js>)
    ensures |r| == |texts| && forall i :: 0 <= i < |texts| ==> r[i] == Str(texts[i])
  {
    seq(|texts|, i requires 0 <= i < |texts| => Str(texts[i]))
  }

  // ---------------------------------------------------------------------------
  // A transformer's result
  // ---------------------------------------------------------------------------

  /**
   * The label an own entry `[stateKey, label]` gives its key: the key
   * normalised and non-empty, the label non-blank and trimmed. Rename maps
   * and alias maps both read their entries this way.
   */
  function LabelItem(entry: (string, Js)): (r: Option<(string, string)>)
    ensures r.Some? ==> r.value.0 != [] && KeyForm(r.value.0) && r.value.1 != [] && Unpadded(r.value.1)
  {
    var key := NormalizeStateKey(Str(entry.0));
    match NonBlankText(entry.1)
    case Some(text) => if key != [] then Some((key, text)) else None
    case None => None
  }

  /** The replacement an own entry `[stateKey, value]` makes: any value, under a non-empty key. */
  function ReplaceItem(entry: (string, Js)): (r: Option<(string, Js)>)
    ensures r.Some? ==> r.value.0 != [] && KeyForm(r.value.0) && r.value.1 == entry.1
  {
    var key := NormalizeStateKey(Str(entry.0));
    if key != [] then Some((key, entry.1)) else None
  }

  predicate LabelPair(k: string, text: string)
  {
    k != [] && KeyForm(k) && text != [] && Unpadded(text)
  }

  /** `normalizeRenameMap`: nothing unless an object; else its entries read in order, a later one for the same key winning. */
  function NormalizeRenameMap(renameMap: Js): (r: map<string, string>)
    ensures !IsObjectLike(renameMap) ==> r == map[]
  {
    if !IsObjectLike(renameMap) then map[] else Assign(map[], OwnEntries(renameMap), LabelItem)
  }

  /** Every label read from a rename map's entries is a non-blank trimmed text under a non-empty key. */
  lemma RenameLabels(entries: seq<(string, Js)>)
    ensures var r := Assign(map[], entries, LabelItem); forall k :: k in r ==> LabelPair(k, r[k])
  {
    AssignValues(map[], entries, LabelItem, LabelPair);
  }

  /** A rename map normalises to non-blank trimmed labels under non-empty keys. */
  lemma RenameMapLabels(renameMap: Js)
    ensures var r := NormalizeRenameMap(renameMap); forall k :: k in r ==> LabelPair(k, r[k])
  {
    if IsObjectLike(renameMap) {
      var entries := OwnEntries(renameMap);
      RenameLabels(entries);
      assert NormalizeRenameMap(renameMap) == Assign(map[], entries, LabelItem);
    }
  }

  /** `normalizeReplaceMap`: the same reading, keeping every value, `undefined` included. */
  function NormalizeReplaceMap(replaceMap: Js): (r: map<string, Js>)
    ensures !IsObjectLike(replaceMap) ==> r == map[]
    ensures forall k :: k in r ==> k != [] && KeyForm(k)
  {
    if !IsObjectLike(replaceMap) then map[]
    else
      var entries := OwnEntries(replaceMap);
      ReplaceKeys(entries);
      Assign(map[], entries, ReplaceItem)
  }

  /** Every key read from a replace map's entries is non-empty and normalised. */
  lemma ReplaceKeys(entries: seq<(string, Js)>)
    ensures forall k :: k in Assign(map[], entries, ReplaceItem) ==> k != [] && KeyForm(k)
  {
    AssignKeysFrom(map[], entries, ReplaceItem);
  }

  /** Of the entries that rename a key, the last decides its label. */
  lemma RenameLastWins(renameMap: Js, i: nat)
    requires IsObjectLike(renameMap)
    requires var es := OwnEntries(renameMap); i < |es| && LabelItem(es[i]).Some?
    requires var es := OwnEntries(renameMap);
      forall j :: i < j < |es| ==> !Assigns(es, LabelItem, j, LabelItem(es[i]).value.0)
    ensures var kv := LabelItem(OwnEntries(renameMap)[i]).value;
      kv.0 in NormalizeRenameMap(renameMap) && NormalizeRenameMap(renameMap)[kv.0] == kv.1
  {
    AssignLast(map[], OwnEntries(renameMap), LabelItem, i);
  }

  /** A replacement is kept under its key even when the value is `undefined`. */
  lemma ReplaceKeepsUndefined(key: string)
    requires NormalizeStateKey(Str(key)) != []
    ensures var r := NormalizeReplaceMap(Obj([(key, Undefined)]));
      NormalizeStateKey(Str(key)) in r && r[NormalizeStateKey(Str(key))] == Undefined
  {
    AssignLast(map[], OwnEntries(Obj([(key, Undefined)])), ReplaceItem, 0);
  }

  /**
   * The row a `prepend`/`append` item adds, nothing for an item that is not
   * an object: labelled by its own non-blank `label`, else its non-blank
   * `key` text, else the state name made from the key, else "State".
   */
  function InjectedEntry(item: Js, toText: Js -> string): (r: Option<StateEntry>)
    ensures r.Some? <==> IsObjectLike(item)
    ensures r.Some? ==> var e := r.value;
      && e.injected && e.stateKey == NormalizeStateKey(Prop(item, "key"))
      && e.rawValue == Prop(item, "value") && e.valueText == toText(e.rawValue)
  {
    if !IsObjectLike(item) then None
    else
      var key := NormalizeStateKey(Prop(item, "key"));
      var fallback := if key != [] then FormatStateName(key) else "State";
      var text := NonBlankText(Prop(item, "label")).GetOr(NonBlankText(Prop(item, "key")).GetOr(fallback));
      Some(StateEntry(key, text, Prop(item, "value"), toText(Prop(item, "value")), true))
  }

  /**
   * With a text key and no label, the row is labelled by the trimmed key,
   * or "State" for a blank key: the state-name fallback is reached only by
   * keys that are not text.
   */
  lemma TextKeyLabel(item: Js, toText: Js -> string)
    requires IsObjectLike(item) && Prop(item, "key").Str? && NonBlankText(Prop(item, "label")).None?
    ensures var key := Prop(item, "key").s;
      InjectedEntry(item, toText).value.labelText == (if IsBlank(key) then "State" else Trim(key))
  {
    var key := Prop(item, "key").s;
    if IsBlank(key) {
      assert Lower(Trim(key)) == [];
    }
  }

  /** The row of each item, as one function. */
  function InjectedEntries(toText: Js -> string): Js -> Option<StateEntry>
  {
    (item: Js) => InjectedEntry(item, toText)
  }

  /** `normalizeTransformerEntries`: the rows of an array's object items, in order. */
  function NormalizeTransformerEntries(items: Js, toText: Js -> string): (r: seq<StateEntry>)
    ensures !items.Arr? ==> r == []
    ensures forall i :: 0 <= i < |r| ==> r[i].injected
  {
    if !items.Arr? then []
    else
      CollectAllItems(items.items, InjectedEntries(toText), (e: StateEntry) => e.injected);
      Collect(items.items, InjectedEntries(toText))
  }

  /** A transformer's result once normalised. */
  datatype TransformResult = TransformResult(
    hide: seq<string>,
    rename: map<string, string>,
    replace: map<string, Js>,
    prepend: seq<StateEntry>,
    append: seq<StateEntry>)

  /** What a result that is not an object normalises to: no change at all. */
  const NoChange := TransformResult([], map[], map[], [], [])

  /** `normalizeTransformerResult`. */
  function NormalizeTransformerResult(result: Js, toText: Js -> string): (r: TransformResult)
    ensures !IsObjectLike(result) ==> r == NoChange
    ensures forall k :: k in r.hide ==> k != [] && KeyForm(k)
    ensures forall k :: k in r.replace ==> k != []
    ensures forall i :: 0 <= i < |r.prepend| ==> r.prepend[i].injected
    ensures forall i :: 0 <= i < |r.append| ==> r.append[i].injected
  {
    if !IsObjectLike(result) then NoChange
    else
      TransformResult(
        NormalizeStrings(Prop(result, "hide"), StateKeyItem),
        NormalizeRenameMap(Prop(result, "rename")),
        NormalizeReplaceMap(Prop(result, "replace")),
        NormalizeTransformerEntries(Prop(result, "prepend"), toText),
        NormalizeTransformerEntries(Prop(result, "append"), toText))
  }

  // ---------------------------------------------------------------------------
  // Applying a result
  // ---------------------------------------------------------------------------

  /** An original row the result hides. */
  predicate Hidden(e: StateEntry, res: TransformResult)
  {
    e.stateKey != [] && e.stateKey in res.hide
  }

  /** A kept original row, renamed when the result renames its key and revalued when it replaces it. */
  function Revise(e: StateEntry, res: TransformResult, toText: Js -> string): (r: StateEntry)
    ensures r.stateKey == e.stateKey && r.injected == e.injected
    ensures r.labelText == (if e.stateKey != [] && e.stateKey in res.rename && res.rename[e.stateKey] != [] then res.rename[e.stateKey] else e.labelText)
    ensures e.stateKey != [] && e.stateKey in res.replace ==> r.rawValue == res.replace[e.stateKey] && r.valueText == toText(r.rawValue)
    ensures !(e.stateKey != [] && e.stateKey in res.replace) ==> r.rawValue == e.rawValue && r.valueText == e.valueText
  {
    var renamed := if e.stateKey != [] && e.stateKey in res.rename && res.rename[e.stateKey] != [] then e.(labelText := res.rename[e.stateKey]) else e;
    if e.stateKey != [] && e.stateKey in res.replace then
      renamed.(rawValue := res.replace[e.stateKey], valueText := toText(res.replace[e.stateKey]))
    else renamed
  }

  /** A row whose key the result neither renames nor replaces is kept exactly as it was. */
  lemma ReviseUntouched(e: StateEntry, res: TransformResult, toText: Js -> string)
    requires e.stateKey == [] || (e.stateKey !in res.rename && e.stateKey !in res.replace)
    ensures Revise(e, res, toText) == e
  {
  }

  /** The original rows the result does not hide, each revised, in their order. */
  function Survivors(entries: seq<StateEntry>, res: TransformResult, toText: Js -> string): (r: seq<StateEntry>)
    ensures |r| <= |entries|
    ensures forall i :: 0 <= i < |r| ==> !Hidden(r[i], res)
  {
    if entries == [] then []
    else
      var rest := Survivors(entries[1..], res, toText);
      var head := if Hidden(entries[0], res) then [] else [Revise(entries[0], res, toText)];
      head + rest
  }

  /** Every original row the result does not hide survives. */
  lemma {:induction false} SurvivorsKeep(entries: seq<StateEntry>, res: TransformResult, toText: Js -> string, j: nat)
    requires j < |entries| && !Hidden(entries[j], res)
    ensures Revise(entries[j], res, toText) in Survivors(entries, res, toText)
    decreases j
  {
    if j > 0 {
      assert entries[1..][j - 1] == entries[j];
      SurvivorsKeep(entries[1..], res, toText, j - 1);
    }
  }

  /** Rows are filtered one by one: the survivors of two runs of rows are the survivors of each. */
  lemma {:induction false} SurvivorsAppend(a: seq<StateEntry>, b: seq<StateEntry>, res: TransformResult, toText: Js -> string)
    ensures Survivors(a + b, res, toText) == Survivors(a, res, toText) + Survivors(b, res, toText)
    decreases |a|
  {
    if a == [] {
      assert a + b == b;
    } else {
      assert (a + b)[0] == a[0] && (a + b)[1..] == a[1..] + b;
      SurvivorsAppend(a[1..], b, res, toText);
    }
  }

  /** The empty result keeps every row as it is. */
  lemma {:induction false} SurvivorsNoChange(entries: seq<StateEntry>, toText: Js -> string)
    ensures Survivors(entries, NoChange, toText) == entries
    decreases |entries|
  {
    if entries != [] {
      SurvivorsNoChange(entries[1..], toText);
      assert entries == [entries[0]] + entries[1..];
    }
  }

  /** A row relabelled by the alias registered for its key. */
  function AliasLabel(e: StateEntry, aliases: map<string, string>): StateEntry
  {
    if e.stateKey != [] && e.stateKey in aliases && aliases[e.stateKey] != [] then e.(labelText := aliases[e.stateKey]) else e
  }

  /** `applyAliasLabels`: every row whose key has an alias carries the alias as its label; nothing else changes. */
  function ApplyAliasLabels(entries: seq<StateEntry>, aliases: map<string, string>): (r: seq<StateEntry>)
    ensures |r| == |entries|
    ensures forall i :: 0 <= i < |r| ==> r[i] == AliasLabel(entries[i], aliases)
  {
    seq(|entries|, i requires 0 <= i < |entries| => AliasLabel(entries[i], aliases))
  }

  /** Rows already carrying their aliases. */
  predicate AliasFixed(entries: seq<StateEntry>, aliases: map<string, string>)
  {
    ApplyAliasLabels(entries, aliases) == entries
  }

  /** Relabelling twice is relabelling once. */
  lemma ApplyAliasLabelsIdempotent(entries: seq<StateEntry>, aliases: map<string, string>)
    ensures AliasFixed(ApplyAliasLabels(entries, aliases), aliases)
  {
  }

  /** Relabelling goes row by row. */
  lemma ApplyAliasLabelsAppend(a: seq<StateEntry>, b: seq<StateEntry>, aliases: map<string, string>)
    ensures ApplyAliasLabels(a + b, aliases) == ApplyAliasLabels(a, aliases) + ApplyAliasLabels(b, aliases)
  {
  }

  /**
   * `applyTransformerResult`: the prepended rows, the surviving originals
   * and the appended rows, in that order, relabelled by the aliases last.
   */
  function ApplyTransformerResult(entries: seq<StateEntry>, res: TransformResult, toText: Js -> string,
                                  aliases: map<string, string>): (r: seq<StateEntry>)
    ensures AliasFixed(r, aliases)
  {
    var merged := res.prepend + Survivors(entries, res, toText) + res.append;
    ApplyAliasLabelsIdempotent(merged, aliases);
    ApplyAliasLabels(merged, aliases)
  }

  /**
   * The result is the prepended rows, then the revised originals in their
   * order, then the appended rows; no original row with a hidden key is
   * among them, while added rows are never filtered.
   */
  lemma ApplyShape(entries: seq<StateEntry>, res: TransformResult, toText: Js -> string, aliases: map<string, string>)
    ensures var r := ApplyTransformerResult(entries, res, toText, aliases);
      var kept := Survivors(entries, res, toText);
      && r == ApplyAliasLabels(res.prepend, aliases) + ApplyAliasLabels(kept, aliases) + ApplyAliasLabels(res.append, aliases)
      && forall i :: |res.prepend| <= i < |res.prepend| + |kept| ==> !Hidden(r[i], res)
  {
    var kept := Survivors(entries, res, toText);
    ApplyAliasLabelsAppend(res.prepend + kept, res.append, aliases);
    ApplyAliasLabelsAppend(res.prepend, kept, aliases);
  }

  /** An alias decides the label of its key's rows whatever the result renamed them to. */
  lemma AliasBeatsRename(entries: seq<StateEntry>, res: TransformResult, toText: Js -> string, aliases: map<string, string>, i: nat)
    requires var r := ApplyTransformerResult(entries, res, toText, aliases);
      i < |r| && r[i].stateKey != [] && r[i].stateKey in aliases && aliases[r[i].stateKey] != []
    ensures var r := ApplyTransformerResult(entries, res, toText, aliases); r[i].labelText == aliases[r[i].stateKey]
  {
  }

  /** The empty result changes nothing in rows that already carry their aliases. */
  lemma NoChangeKeepsEntries(entries: seq<StateEntry>, toText: Js -> string, aliases: map<string, string>)
    requires AliasFixed(entries, aliases)
    ensures ApplyTransformerResult(entries, NoChange, toText, aliases) == entries
  {
    SurvivorsNoChange(entries, toText);
    assert [] + entries + [] == entries;
  }

  // ---------------------------------------------------------------------------
  // Raw states, the state map and the alias table
  // ---------------------------------------------------------------------------

  /** The row of one raw state, before aliases. */
  function RawEntry(state: (string, Js), toText: Js -> string, formatName: string -> string): StateEntry
  {
    StateEntry(NormalizeStateKey(Str(state.0)), formatName(state.0), state.1, toText(state.1), false)
  }

  /** `toStateEntries`: one row per own entry of the raw states, in order, relabelled by the aliases. */
  function ToStateEntries(rawStates: Js, toText: Js -> string, formatName: string -> string,
                          aliases: map<string, string>): (r: seq<StateEntry>)
    ensures AliasFixed(r, aliases)
    ensures |r| == |OwnEntries(Or(rawStates, Obj([])))|
    ensures forall i :: 0 <= i < |r| ==> !r[i].injected
  {
    var states := OwnEntries(Or(rawStates, Obj([])));
    var rows := seq(|states|, i requires 0 <= i < |states| => RawEntry(states[i], toText, formatName));
    ApplyAliasLabelsIdempotent(rows, aliases);
    ApplyAliasLabels(rows, aliases)
  }

  /** The state-map entry of a row: its raw value under a non-empty key. */
  function StateMapItem(e: StateEntry): Option<(string, Js)>
  {
    if e.stateKey == [] then None else Some((e.stateKey, e.rawValue))
  }

  /** `toStateMap`: each non-empty key to the raw value of the last row holding it. */
  function ToStateMap(entries: seq<StateEntry>): (r: map<string, Js>)
    ensures forall k :: k in r ==> k != []
  {
    AssignKeysFrom(map[], entries, StateMapItem);
    Assign(map[], entries, StateMapItem)
  }

  /** A key is in the state map exactly when some row holds it, and the last such row gives its value. */
  lemma StateMapLookup(entries: seq<StateEntry>, k: string)
    requires k != []
    ensures k in ToStateMap(entries) <==> exists i :: 0 <= i < |entries| && entries[i].stateKey == k
    ensures forall i :: 0 <= i < |entries| && entries[i].stateKey == k && (forall j :: i < j < |entries| ==> entries[j].stateKey != k) ==>
      ToStateMap(entries)[k] == entries[i].rawValue
  {
    AssignKeys(map[], entries, StateMapItem, k);
    if exists i :: 0 <= i < |entries| && entries[i].stateKey == k {
      var i :| 0 <= i < |entries| && entries[i].stateKey == k;
      assert Assigns(entries, StateMapItem, i, k);
    }
    forall i | 0 <= i < |entries| && entries[i].stateKey == k && (forall j :: i < j < |entries| ==> entries[j].stateKey != k)
      ensures ToStateMap(entries)[k] == entries[i].rawValue
    {
      AssignLast(map[], entries, StateMapItem, i);
    }
  }

  /** The labels shipped for common vanilla states, restored by `clearStateAliases`. */
  const DefaultStateLabelAliases: map<string, string> := map[
    "minecraft:cardinal_direction" := "Facing",
    "minecraft:facing_direction" := "Facing",
    "minecraft:block_face" := "Face",
    "minecraft:vertical_half" := "Half",
    "minecraft:upside_down_bit" := "Upside Down",
    "minecraft:open_bit" := "Open",
    "minecraft:in_wall_bit" := "In Wall",
    "minecraft:door_hinge_bit" := "Hinge Side",
    "minecraft:upper_block_bit" := "Upper Half",
    "minecraft:persistent_bit" := "Persistent",
    "minecraft:powered_bit" := "Powered",
    "minecraft:attached_bit" := "Attached",
    "minecraft:triggered_bit" := "Triggered",
    "minecraft:liquid_depth" := "Liquid Level",
    "minecraft:liquid_type" := "Liquid Type",
    "minecraft:stone_type" := "Stone Type",
    "minecraft:wood_type" := "Wood Type"
  ]

  datatype AliasUpdate = AliasUpdate(ok: bool, aliases: map<string, string>)

  /** `registerStateAlias`: a non-empty key and a non-blank label set the alias; anything else changes nothing. */
  function RegisterStateAlias(aliases: map<string, string>, stateKey: Js, text: Js): (r: AliasUpdate)
    ensures r.ok <==> NormalizeStateKey(stateKey) != [] && NonBlankText(text).Some?
    ensures r.ok ==> r.aliases == aliases[NormalizeStateKey(stateKey) := NonBlankText(text).value]
    ensures !r.ok ==> r.aliases == aliases
  {
    var key := NormalizeStateKey(stateKey);
    match NonBlankText(text)
    case Some(t) => if key != [] then AliasUpdate(true, aliases[key := t]) else AliasUpdate(false, aliases)
    case None => AliasUpdate(false, aliases)
  }

  /** Each own entry registered in turn; true when any of them was accepted. */
  function RegisterEachAlias(aliases: map<string, string>, entries: seq<(string, Js)>): AliasUpdate
    decreases |entries|
  {
    if entries == [] then AliasUpdate(false, aliases)
    else
      var front := RegisterEachAlias(aliases, entries[..|entries| - 1]);
      var last := entries[|entries| - 1];
      var step := RegisterStateAlias(front.aliases, Str(last.0), last.1);
      AliasUpdate(step.ok || front.ok, step.aliases)
  }

  /** `registerStateAliases`: false for anything but an object; else each entry registered. */
  function RegisterStateAliases(aliases: map<string, string>, aliasMap: Js): AliasUpdate
  {
    if !IsObjectLike(aliasMap) then AliasUpdate(false, aliases)
    else RegisterEachAlias(aliases, OwnEntries(aliasMap))
  }

  /** An own entry that sets an alias. */
  predicate Accepted(entry: (string, Js))
  {
    LabelItem(entry).Some?
  }

  /** One entry registered is one step of the rename reading. */
  lemma RegisterOneAlias(aliases: map<string, string>, entry: (string, Js))
    ensures var r := RegisterStateAlias(aliases, Str(entry.0), entry.1);
      match LabelItem(entry)
      case Some(kv) => r == AliasUpdate(true, aliases[kv.0 := kv.1])
      case None => r == AliasUpdate(false, aliases)
  {
  }

  /**
   * Registering a map of aliases is reading it as a rename map over the
   * table: the last entry for a key wins, and the answer is true exactly
   * when some entry was accepted.
   */
  lemma {:induction false} RegisterEachAliasAssigns(aliases: map<string, string>, entries: seq<(string, Js)>)
    ensures var r := RegisterEachAlias(aliases, entries);
      r.aliases == Assign(aliases, entries, LabelItem)
      && (r.ok <==> AnyItem(entries, Accepted))
    decreases |entries|
  {
    if entries != [] {
      var front := entries[..|entries| - 1];
      var last := entries[|entries| - 1];
      RegisterEachAliasAssigns(aliases, front);
      var prev := RegisterEachAlias(aliases, front);
      RegisterOneAlias(prev.aliases, last);
      var step := RegisterStateAlias(prev.aliases, Str(last.0), last.1);
      assert RegisterEachAlias(aliases, entries) == AliasUpdate(step.ok || prev.ok, step.aliases);
      AssignStep(aliases, entries);
      AnyItemSnoc(entries, Accepted);
    }
  }

  /** The keyed loop over a list is the loop over its front, then the step of its last item. */
  lemma AssignStep(aliases: map<string, string>, entries: seq<(string, Js)>)
    requires entries != []
    ensures var front := Assign(aliases, entries[..|entries| - 1], LabelItem);
      Assign(aliases, entries, LabelItem) == match LabelItem(entries[|entries| - 1])
        case Some(kv) => front[kv.0 := kv.1]
        case None => front
  {
  }
}
