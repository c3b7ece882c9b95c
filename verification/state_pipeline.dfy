/**
 * The block-state transformer registry and the pipeline that runs it: other
 * add-ons register transformers with a priority and filters, merges are
 * transformers built from a definition, and each block's state rows pass
 * through every transformer whose filters accept the block, in priority
 * order; a transformer that throws is skipped.
 */
module StatePipeline {
  import opened Wrappers
  import opened Text
  import opened JsValue
  import opened Formatters
  import opened Lists
  import opened Sorting
  import opened Namespaces
  import opened StateTraits

  // ---------------------------------------------------------------------------
  // Options
  // ---------------------------------------------------------------------------

  datatype TransformerOptions = TransformerOptions(
    priority: real,
    namespaces: seq<string>,
    typeIdPrefixes: seq<string>,
    requiredTags: seq<string>)

  /** A normalised filter: distinct, non-empty, trimmed and lower-cased texts. */
  predicate Filter(s: seq<string>)
  {
    NoDuplicates(s) && forall k :: k in s ==> LowerForm(k)
  }

  /** A filter read from an array: the trimmed, lower-cased non-blank texts among its items. */
  function LowerStrings(values: Js): (r: seq<string>)
    ensures Filter(r)
    ensures !values.Arr? ==> r == []
    ensures values.Arr? ==> forall k :: k in r <==> exists i :: 0 <= i < |values.items| && LowerText(values.items[i]) == Some(k)
  {
    NormalizeStrings(values, LowerText)
  }

  /** `Number(options?.priority)` when finite, else 0. */
  function Priority(options: Js): (r: real)
    ensures IsFiniteNumber(Prop(options, "priority")) ==> r == Prop(options, "priority").n.value
    ensures !Prop(options, "priority").Num? && !Prop(options, "priority").Str? && !Prop(options, "priority").Arr? ==>
      r == (if Prop(options, "priority") == Bool(true) then 1.0 else 0.0)
  {
    match ToNumber(Prop(options, "priority"))
    case Finite(x) => x
    case _ => 0.0
  }

  /** `normalizeTransformerOptions`. */
  function NormalizeTransformerOptions(options: Js): (r: TransformerOptions)
    ensures r.priority == Priority(options)
    ensures Filter(r.namespaces) && Filter(r.typeIdPrefixes) && Filter(r.requiredTags)
    ensures !IsObjectLike(options) ==> r == TransformerOptions(0.0, [], [], [])
  {
    TransformerOptions(
      Priority(options),
      LowerStrings(Prop(options, "namespaces")),
      LowerStrings(Prop(options, "typeIdPrefixes")),
      LowerStrings(Prop(options, "requiredTags")))
  }

  // ---------------------------------------------------------------------------
  // The registry
  // ---------------------------------------------------------------------------

  /** How a merge turns its source values into the merged value. */
  datatype Formatter = CustomFormatter(id: nat) | JoinWith(separator: string)

  /** What `registerStateMerge` builds its transformer from. */
  datatype MergeSpec = MergeSpec(key: string, labelText: string, sources: seq<string>, formatter: Formatter, hideOriginal: bool)

  /**
   * A transformer: a function another add-on registered, known by its
   * identity, or the closure of the `instance`-th merge registered.
   */
  datatype Handler = External(id: nat) | Merge(instance: nat, spec: MergeSpec)

  datatype TransformerEntry = TransformerEntry(handler: Handler, options: TransformerOptions)

  /** The registered transformers, and how many merges were ever registered. */
  datatype Transformers = Transformers(entries: seq<TransformerEntry>, merges: nat)

  /** What a registration call answers, and the registry after it. */
  datatype Registered = Registered(ok: bool, transformers: Transformers)

  const NoTransformers := Transformers([], 0)

  /** The sort comparator `left.options.priority - right.options.priority` as a may-precede relation. */
  predicate NotAfter(a: TransformerEntry, b: TransformerEntry)
  {
    a.options.priority <= b.options.priority
  }

  lemma NotAfterTotal()
    ensures TotalPreorder(NotAfter)
  {
  }

  predicate Listed(entries: seq<TransformerEntry>, h: Handler)
  {
    exists i :: 0 <= i < |entries| && entries[i].handler == h
  }

  predicate DistinctHandlers(entries: seq<TransformerEntry>)
  {
    forall i, j :: 0 <= i < j < |entries| ==> entries[i].handler != entries[j].handler
  }

  /** What registration keeps: entries in priority order, each handler once, each merge numbered below the count. */
  predicate Valid(ts: Transformers)
  {
    && SortedBy(ts.entries, NotAfter)
    && DistinctHandlers(ts.entries)
    && (forall i :: 0 <= i < |ts.entries| && ts.entries[i].handler.Merge? ==> ts.entries[i].handler.instance < ts.merges)
  }

  lemma ListedOfMember(entries: seq<TransformerEntry>, e: TransformerEntry)
    requires e in entries
    ensures Listed(entries, e.handler)
  {
    var i :| 0 <= i < |entries| && entries[i] == e;
  }

  /**
   * The step both registrations share: a handler already listed leaves the
   * registry as it is; a new one is appended and the list sorted again by
   * priority.
   */
  function AddHandler(ts: Transformers, h: Handler, options: Js): (r: Transformers)
    ensures Listed(ts.entries, h) ==> r == ts
    ensures !Listed(ts.entries, h) ==>
      r.merges == ts.merges && multiset(r.entries) == multiset(ts.entries) + multiset{TransformerEntry(h, NormalizeTransformerOptions(options))}
    ensures Listed(r.entries, h)
  {
    if Listed(ts.entries, h) then ts
    else
      var e := TransformerEntry(h, NormalizeTransformerOptions(options));
      var sorted := InsertionSort(ts.entries + [e], NotAfter);
      assert e in ts.entries + [e];
      ListedOfMember(sorted, e);
      ts.(entries := sorted)
  }

  /** Putting in an entry for a new handler, in a place that keeps the order, keeps the registry valid. */
  lemma InsertKeepsValid(ts: Transformers, j: nat, e: TransformerEntry)
    requires Valid(ts) && j <= |ts.entries| && !Listed(ts.entries, e.handler)
    requires e.handler.Merge? ==> e.handler.instance < ts.merges
    requires SortedBy(ts.entries[..j] + [e] + ts.entries[j..], NotAfter)
    ensures Valid(ts.(entries := ts.entries[..j] + [e] + ts.entries[j..]))
  {
    var s := ts.entries;
    var r := s[..j] + [e] + s[j..];
    InsertedItems(s, j, e);
    forall a, b | 0 <= a < b < |r| ensures r[a].handler != r[b].handler {
      if a != j && b != j {
        assert r[a] == s[if a < j then a else a - 1] && r[b] == s[if b < j then b else b - 1];
      }
    }
  }

  /** Taking out any entry keeps the registry valid. */
  lemma RemoveKeepsValid(ts: Transformers, i: nat)
    requires Valid(ts) && i < |ts.entries|
    ensures Valid(ts.(entries := ts.entries[..i] + ts.entries[i + 1..]))
  {
    var s := ts.entries;
    var r := s[..i] + s[i + 1..];
    RemovedItems(s, i);
    forall a, b | 0 <= a < b < |r| ensures NotAfter(r[a], r[b]) && r[a].handler != r[b].handler {
      assert r[a] == s[if a < i then a else a + 1] && r[b] == s[if b < i then b else b + 1];
    }
  }

  /** Where `AddHandler` puts a new handler: at the insertion point of its entry. */
  lemma AddHandlerShape(ts: Transformers, h: Handler, options: Js)
    requires SortedBy(ts.entries, NotAfter) && !Listed(ts.entries, h)
    ensures var e := TransformerEntry(h, NormalizeTransformerOptions(options));
      var j := InsertPoint(e, ts.entries, NotAfter);
      AddHandler(ts, h, options) == ts.(entries := ts.entries[..j] + [e] + ts.entries[j..])
      && SortedBy(ts.entries[..j] + [e] + ts.entries[j..], NotAfter)
  {
    var e := TransformerEntry(h, NormalizeTransformerOptions(options));
    NotAfterTotal();
    AppendThenSort(ts.entries, e, NotAfter);
    InsertAt(e, ts.entries, NotAfter);
    InsertSorted(e, ts.entries, NotAfter);
  }

  /**
   * A new handler goes in after every entry of lower or equal priority and
   * before every entry of higher priority, the others keeping their order;
   * the registry stays valid.
   */
  lemma AddHandlerPlacement(ts: Transformers, h: Handler, options: Js)
    requires Valid(ts) && !Listed(ts.entries, h)
    requires h.Merge? ==> h.instance < ts.merges
    ensures var e := TransformerEntry(h, NormalizeTransformerOptions(options));
      var s := ts.entries;
      var j := InsertPoint(e, s, NotAfter);
      && AddHandler(ts, h, options).entries == s[..j] + [e] + s[j..]
      && (forall i :: 0 <= i < j ==> s[i].options.priority <= e.options.priority)
      && (forall i :: j <= i < |s| ==> s[i].options.priority > e.options.priority)
    ensures Valid(AddHandler(ts, h, options))
  {
    var e := TransformerEntry(h, NormalizeTransformerOptions(options));
    var s := ts.entries;
    var j := InsertPoint(e, s, NotAfter);
    AddHandlerShape(ts, h, options);
    InsertKeepsValid(ts, j, e);
    PlacementByPriority(e, s);
  }

  /** In a list sorted by priority, the insertion point splits the lower-or-equal priorities from the higher ones. */
  lemma PlacementByPriority(e: TransformerEntry, s: seq<TransformerEntry>)
    requires SortedBy(s, NotAfter)
    ensures var j := InsertPoint(e, s, NotAfter);
      && (forall i :: 0 <= i < j ==> s[i].options.priority <= e.options.priority)
      && (forall i :: j <= i < |s| ==> s[i].options.priority > e.options.priority)
  {
    var j := InsertPoint(e, s, NotAfter);
    InsertPointBounds(e, s, NotAfter);
    forall i | 0 <= i < j ensures s[i].options.priority <= e.options.priority {
      assert NotAfter(s[i], e);
    }
    if j < |s| {
      NotAfterTotal();
      SortedAfterPoint(e, s, NotAfter, j);
      forall i | j <= i < |s| ensures s[i].options.priority > e.options.priority {
        assert !NotAfter(s[i], e);
      }
    }
  }

  /**
   * `registerBlockStateTransformer`: false for anything but a function;
   * true otherwise, registering the function unless it already is.
   */
  function RegisterBlockStateTransformer(ts: Transformers, transformer: Js, options: Js): (r: Registered)
    ensures r.ok <==> transformer.Func?
    ensures !r.ok ==> r.transformers == ts
    ensures r.ok ==> Listed(r.transformers.entries, External(transformer.id))
    ensures r.ok && Listed(ts.entries, External(transformer.id)) ==> r.transformers == ts
    ensures r.ok && !Listed(ts.entries, External(transformer.id)) ==> |r.transformers.entries| == |ts.entries| + 1
  {
    if !transformer.Func? then Registered(false, ts)
    else
      var r := AddHandler(ts, External(transformer.id), options);
      assert |multiset(r.entries)| == |r.entries|;
      Registered(true, r)
  }

  /** Index of the first entry with the handler. */
  function IndexOfHandler(entries: seq<TransformerEntry>, h: Handler): (i: nat)
    requires Listed(entries, h)
    ensures i < |entries| && entries[i].handler == h
    ensures forall j :: 0 <= j < i ==> entries[j].handler != h
  {
    if entries[0].handler == h then 0
    else
      var k :| 0 <= k < |entries| && entries[k].handler == h;
      assert entries[1..][k - 1] == entries[k];
      var i := IndexOfHandler(entries[1..], h);
      assert forall j :: 1 <= j < i + 1 ==> entries[j] == entries[1..][j - 1];
      i + 1
  }

  /**
   * `unregisterBlockStateTransformer`: removes the function's entry and
   * answers true, or answers false when the function is not registered.
   */
  function UnregisterBlockStateTransformer(ts: Transformers, transformer: Js): (r: Registered)
    ensures r.ok <==> transformer.Func? && Listed(ts.entries, External(transformer.id))
    ensures !r.ok ==> r.transformers == ts
    ensures r.ok ==> |r.transformers.entries| == |ts.entries| - 1 && r.transformers.merges == ts.merges
    ensures r.ok ==> multiset(r.transformers.entries) + multiset{ts.entries[IndexOfHandler(ts.entries, External(transformer.id))]} == multiset(ts.entries)
  {
    if !transformer.Func? || !Listed(ts.entries, External(transformer.id)) then Registered(false, ts)
    else
      var s := ts.entries;
      var i := IndexOfHandler(s, External(transformer.id));
      SplitAt(s, i);
      Registered(true, ts.(entries := s[..i] + s[i + 1..]))
  }

  /** Removing an entry keeps the registry valid, drops the handler, and keeps every other handler. */
  lemma UnregisterKeepsValid(ts: Transformers, transformer: Js)
    requires Valid(ts) && transformer.Func? && Listed(ts.entries, External(transformer.id))
    ensures var r := UnregisterBlockStateTransformer(ts, transformer).transformers;
      && Valid(r)
      && !Listed(r.entries, External(transformer.id))
      && forall h :: h != External(transformer.id) ==> (Listed(r.entries, h) <==> Listed(ts.entries, h))
  {
    var s := ts.entries;
    var h0 := External(transformer.id);
    var i := IndexOfHandler(s, h0);
    var r := s[..i] + s[i + 1..];
    assert UnregisterBlockStateTransformer(ts, transformer).transformers == ts.(entries := r);
    RemoveKeepsValid(ts, i);
    RemoveListed(s, i);
  }

  /** Taking out the item at `i` of a list without repeated handlers unlists its handler and no other. */
  lemma RemoveListed(s: seq<TransformerEntry>, i: nat)
    requires DistinctHandlers(s) && i < |s|
    ensures var r := s[..i] + s[i + 1..];
      && !Listed(r, s[i].handler)
      && forall h :: h != s[i].handler ==> (Listed(r, h) <==> Listed(s, h))
  {
    var r := s[..i] + s[i + 1..];
    RemovedItems(s, i);
    forall h | h != s[i].handler ensures Listed(r, h) <==> Listed(s, h) {
      if Listed(s, h) {
        var k :| 0 <= k < |s| && s[k].handler == h;
        assert r[if k < i then k else k - 1] == s[k];
      }
      if Listed(r, h) {
        var k :| 0 <= k < |r| && r[k].handler == h;
        assert s[if k < i then k else k + 1] == r[k];
      }
    }
    forall k | 0 <= k < |r| ensures r[k].handler != s[i].handler {
      assert r[k] == s[if k < i then k else k + 1];
    }
  }

  /** Registering a new function and unregistering it gives back the registry as it was. */
  lemma RegisterThenUnregister(ts: Transformers, transformer: Js, options: Js)
    requires Valid(ts) && transformer.Func? && !Listed(ts.entries, External(transformer.id))
    ensures var added := RegisterBlockStateTransformer(ts, transformer, options).transformers;
      UnregisterBlockStateTransformer(added, transformer) == Registered(true, ts)
  {
    var h := External(transformer.id);
    var e := TransformerEntry(h, NormalizeTransformerOptions(options));
    var s := ts.entries;
    var j := InsertPoint(e, s, NotAfter);
    var r := s[..j] + [e] + s[j..];
    assert RegisterBlockStateTransformer(ts, transformer, options).transformers == ts.(entries := r) by {
      AddHandlerPlacement(ts, h, options);
    }
    IndexOfInserted(s, j, e);
    RemoveInserted(s, j, e);
  }

  /** An entry inserted into a list that does not hold its handler is found where it was put. */
  lemma IndexOfInserted(s: seq<TransformerEntry>, j: nat, e: TransformerEntry)
    requires j <= |s| && !Listed(s, e.handler)
    ensures Listed(s[..j] + [e] + s[j..], e.handler)
    ensures IndexOfHandler(s[..j] + [e] + s[j..], e.handler) == j
  {
    var r := s[..j] + [e] + s[j..];
    assert r[j] == e;
    forall k | 0 <= k < j ensures r[k].handler != e.handler {
      assert r[k] == s[k];
    }
  }

  // ---------------------------------------------------------------------------
  // Filters
  // ---------------------------------------------------------------------------

  /** What the filters look at: the normalised type id, its namespace and the lower-cased tags. */
  datatype RunContext = RunContext(typeId: string, namespace: string, tags: set<string>)

  /** `prefixes.some((prefix) => typeId.startsWith(prefix))`. */
  function AnyPrefix(typeId: string, prefixes: seq<string>): (r: bool)
    ensures r <==> exists p :: p in prefixes && StartsWith(typeId, p)
  {
    if prefixes == [] then false
    else
      assert forall p :: p in prefixes <==> p == prefixes[0] || p in prefixes[1..];
      StartsWith(typeId, prefixes[0]) || AnyPrefix(typeId, prefixes[1..])
  }

  /** `required.some((tag) => !tags.has(tag))`. */
  function MissingTag(required: seq<string>, tags: set<string>): (r: bool)
    ensures r <==> exists t :: t in required && t !in tags
  {
    if required == [] then false
    else
      assert forall t :: t in required <==> t == required[0] || t in required[1..];
      required[0] !in tags || MissingTag(required[1..], tags)
  }

  /**
   * `shouldRunTransformer`: every non-empty filter must accept the block:
   * its namespace listed, its type id starting with a listed prefix, and
   * every listed tag among its tags.
   */
  function ShouldRunTransformer(options: TransformerOptions, context: RunContext): (r: bool)
    ensures r <==>
      && (options.namespaces == [] || context.namespace in options.namespaces)
      && (options.typeIdPrefixes == [] || exists p :: p in options.typeIdPrefixes && StartsWith(context.typeId, p))
      && (forall t :: t in options.requiredTags ==> t in context.tags)
  {
    if options.namespaces != [] && context.namespace !in options.namespaces then false
    else if options.typeIdPrefixes != [] && !AnyPrefix(context.typeId, options.typeIdPrefixes) then false
    else if options.requiredTags != [] && MissingTag(options.requiredTags, context.tags) then false
    else true
  }

  /**
   * The filter part of the run context: the type id, read from the context
   * or its block, trimmed and lower-cased (the state-key normalisation); its
   * namespace; and the block's tags as lower-cased text.
   */
  function MakeRunContext(context: Js): (r: RunContext)
    ensures KeyForm(r.typeId)
    ensures r.namespace == SplitTypeId(r.typeId).namespace
    ensures forall t :: t in r.tags ==> HasNoUpper(t)
    ensures !Prop(context, "blockTags").Arr? ==> r.tags == {}
  {
    var typeId := NormalizeStateKey(Or(Prop(context, "typeId"), Prop(Prop(context, "block"), "typeId")));
    var tags := Prop(context, "blockTags");
    RunContext(typeId, SplitTypeId(typeId).namespace,
      if tags.Arr? then set t | t in tags.items :: Lower(CoerceText(t)) else {})
  }

  // ---------------------------------------------------------------------------
  // Merges
  // ---------------------------------------------------------------------------

  /** `normalizeStateKey(definition.key || definition.stateKey || "")`. */
  function MergeKey(definition: Js): (r: string)
    ensures KeyForm(r)
  {
    NormalizeStateKey(Or(Prop(definition, "key"), Prop(definition, "stateKey")))
  }

  /** The distinct non-empty normalised keys of `definition.stateKeys`. */
  function MergeSources(definition: Js): (r: seq<string>)
    ensures NoDuplicates(r)
    ensures forall k :: k in r ==> k != [] && KeyForm(k)
  {
    NormalizeStrings(Prop(definition, "stateKeys"), StateKeyItem)
  }

  /** The merged row's label: the definition's non-blank label, trimmed, else "Merged". */
  function MergeLabel(definition: Js): (r: string)
    ensures r != [] && Unpadded(r)
    ensures NonBlankText(Prop(definition, "label")).None? ==> r == "Merged"
  {
    NonBlankText(Prop(definition, "label")).GetOr("Merged")
  }

  /** A function formatter is called; otherwise the values' texts are joined by the separator, " / " by default. */
  function MergeFormatter(definition: Js): Formatter
  {
    var f := Prop(definition, "formatter");
    if f.Func? then CustomFormatter(f.id) else JoinWith(ToText(Or(Prop(definition, "separator"), Str(" / "))))
  }

  /** A merge spec as a definition yields it: a normalised key and label, two or more distinct normalised sources. */
  predicate WellFormedMerge(spec: MergeSpec)
  {
    && spec.key != [] && KeyForm(spec.key)
    && spec.labelText != [] && Unpadded(spec.labelText)
    && |spec.sources| >= 2 && NoDuplicates(spec.sources)
    && forall k :: k in spec.sources ==> k != [] && KeyForm(k)
  }

  /** The merge a definition describes: none without a key or with fewer than two sources. */
  function MergeSpecOf(definition: Js): (r: Option<MergeSpec>)
    ensures r.Some? <==> MergeKey(definition) != [] && |MergeSources(definition)| >= 2
    ensures r.Some? ==> WellFormedMerge(r.value)
    ensures r.Some? ==>
      r.value.key == MergeKey(definition) && r.value.sources == MergeSources(definition)
      && r.value.hideOriginal == (Prop(definition, "hideOriginal") != Bool(false))
  {
    var key := MergeKey(definition);
    var sources := MergeSources(definition);
    if key == [] || |sources| < 2 then None
    else
      Some(MergeSpec(key, MergeLabel(definition), sources, MergeFormatter(definition),
        Prop(definition, "hideOriginal") != Bool(false)))
  }

  /**
   * `registerStateMerge`: nothing when the definition is `null` (reading
   * its key throws); false for a definition without a key or with fewer
   * than two sources; otherwise a new transformer for the merge,
   * registered under the definition's options, and true.
   */
  function RegisterStateMerge(ts: Transformers, definition: Js): (r: Option<Registered>)
    ensures r.None? <==> definition.Null?
    ensures r.Some? ==> (r.value.ok <==> MergeSpecOf(definition).Some?)
    ensures r.Some? && !r.value.ok ==> r.value.transformers == ts
    ensures r.Some? && r.value.ok ==>
      r.value.transformers.merges == ts.merges + 1 && Listed(r.value.transformers.entries, Merge(ts.merges, MergeSpecOf(definition).value))
    ensures Valid(ts) && r.Some? ==> Valid(r.value.transformers)
    ensures Valid(ts) && r.Some? && r.value.ok ==> |r.value.transformers.entries| == |ts.entries| + 1
  {
    if definition.Null? then None
    else
      match MergeSpecOf(definition)
      case None => Some(Registered(false, ts))
      case Some(spec) =>
        Some(Registered(true, AddMerge(ts, spec, Or(Prop(definition, "options"), Obj([])))))
  }

  /** The merge's transformer registered as the next merge instance. */
  function AddMerge(ts: Transformers, spec: MergeSpec, options: Js): (r: Transformers)
    ensures r.merges == ts.merges + 1
    ensures Listed(r.entries, Merge(ts.merges, spec))
    ensures Valid(ts) ==> Valid(r) && |r.entries| == |ts.entries| + 1
  {
    if Valid(ts) then AddFreshMerge(ts, spec, options); AddHandler(ts.(merges := ts.merges + 1), Merge(ts.merges, spec), options)
    else AddHandler(ts.(merges := ts.merges + 1), Merge(ts.merges, spec), options)
  }

  /** A merge's handler is new to a valid registry: it registers as one more entry and keeps it valid. */
  lemma AddFreshMerge(ts: Transformers, spec: MergeSpec, options: Js)
    requires Valid(ts)
    ensures var r := AddHandler(ts.(merges := ts.merges + 1), Merge(ts.merges, spec), options);
      Valid(r) && |r.entries| == |ts.entries| + 1
  {
    var h := Merge(ts.merges, spec);
    var counted := ts.(merges := ts.merges + 1);
    assert !Listed(ts.entries, h);
    ValidWithMoreMerges(ts);
    AddHandlerPlacement(counted, h, options);
  }

  /** Raising the merge count keeps a registry valid. */
  lemma ValidWithMoreMerges(ts: Transformers)
    requires Valid(ts)
    ensures Valid(ts.(merges := ts.merges + 1))
  {
  }

  /** The source values a merge reads from the state map: `undefined` for a missing key. */
  function SourceValues(sources: seq<string>, stateMap: map<string, Js>): (r: seq<Js>)
    ensures |r| == |sources|
    ensures forall i :: 0 <= i < |sources| ==> r[i] == (if sources[i] in stateMap then stateMap[sources[i]] else Undefined)
  {
    seq(|sources|, i requires 0 <= i < |sources| => if sources[i] in stateMap then stateMap[sources[i]] else Undefined)
  }

  predicate IsUndefined(v: Js)
  {
    v.Undefined?
  }

  /** `String(value)` of each value. */
  function Texts(values: seq<Js>): (r: seq<string>)
    ensures |r| == |values| && forall i :: 0 <= i < |values| ==> r[i] == ToText(values[i])
  {
    seq(|values|, i requires 0 <= i < |values| => ToText(values[i]))
  }

  /** The object a merge returns: the sources to hide, and the merged row to append. */
  function MergeObject(spec: MergeSpec, value: Js): Js
  {
    Obj([("hide", Arr(if spec.hideOriginal then TextItems(spec.sources) else [])),
         ("append", Arr([Obj([("key", Str(spec.key)), ("label", Str(spec.labelText)), ("value", value)])]))])
  }

  /**
   * The merge transformer: `undefined` when a source value is missing or
   * `undefined`; otherwise the merged value as the formatter makes it, and
   * a thrown formatter throws.
   */
  function MergeRun(spec: MergeSpec, stateMap: map<string, Js>, format: (nat, seq<Js>) -> Outcome): (r: Outcome)
    ensures (exists i :: 0 <= i < |spec.sources| && (spec.sources[i] !in stateMap || stateMap[spec.sources[i]].Undefined?)) ==>
      r == Returned(Undefined)
    ensures (forall i :: 0 <= i < |spec.sources| ==> spec.sources[i] in stateMap && !stateMap[spec.sources[i]].Undefined?) ==>
      match spec.formatter
      case JoinWith(sep) => r == Returned(MergeObject(spec, Str(Join(Texts(SourceValues(spec.sources, stateMap)), sep))))
      case CustomFormatter(id) => r.Threw? <==> format(id, SourceValues(spec.sources, stateMap)).Threw?
  {
    var values := SourceValues(spec.sources, stateMap);
    if AnyItem(values, IsUndefined) then Returned(Undefined)
    else
      match spec.formatter
      case CustomFormatter(id) =>
        (match format(id, values)
         case Threw => Threw
         case Returned(v) => Returned(MergeObject(spec, v)))
      case JoinWith(sep) => Returned(MergeObject(spec, Str(Join(Texts(values), sep))))
  }

  /** The row a merge appends. */
  function MergedRow(spec: MergeSpec, value: Js, toText: Js -> string): StateEntry
  {
    StateEntry(spec.key, spec.labelText, value, toText(value), true)
  }

  lemma MergedLabelText(spec: MergeSpec)
    requires spec.labelText != [] && Unpadded(spec.labelText)
    ensures NonBlankText(Str(spec.labelText)) == Some(spec.labelText)
  {
    TrimOfUnspaced(spec.labelText);
  }

  /** The merged row is read back from the merge's object as the row the merge means. */
  lemma MergedRowRead(spec: MergeSpec, value: Js, toText: Js -> string)
    requires WellFormedMerge(spec)
    ensures var item := Obj([("key", Str(spec.key)), ("label", Str(spec.labelText)), ("value", value)]);
      NormalizeTransformerEntries(Arr([item]), toText) == [MergedRow(spec, value, toText)]
  {
    var item := Obj([("key", Str(spec.key)), ("label", Str(spec.labelText)), ("value", value)]);
    MergedItemEntry(spec, value, toText);
    EntriesOfOne(item, toText);
  }

  /** The merged row's item reads back as the merged row. */
  lemma MergedItemEntry(spec: MergeSpec, value: Js, toText: Js -> string)
    requires WellFormedMerge(spec)
    ensures var item := Obj([("key", Str(spec.key)), ("label", Str(spec.labelText)), ("value", value)]);
      InjectedEntry(item, toText) == Some(MergedRow(spec, value, toText))
  {
    var item := Obj([("key", Str(spec.key)), ("label", Str(spec.labelText)), ("value", value)]);
    assert Prop(item, "key") == Str(spec.key) by {
      LookupUnique(item.entries, 0, "key");
    }
    assert Prop(item, "label") == Str(spec.labelText) by {
      LookupUnique(item.entries, 1, "label");
    }
    assert Prop(item, "value") == value by {
      LookupUnique(item.entries, 2, "value");
    }
    NormalizeStateKeyOfKey(spec.key);
    MergedLabelText(spec);
  }

  /** An array of one item gives the row of that item. */
  lemma EntriesOfOne(item: Js, toText: Js -> string)
    requires IsObjectLike(item)
    ensures NormalizeTransformerEntries(Arr([item]), toText) == [InjectedEntry(item, toText).value]
  {
    var f := InjectedEntries(toText);
    assert f(item) == InjectedEntry(item, toText);
    CollectOne(item, f);
  }

  /** What the hide list of a merge's object normalises to. */
  lemma MergedHideRead(spec: MergeSpec)
    requires WellFormedMerge(spec)
    ensures NormalizeStrings(Arr(if spec.hideOriginal then TextItems(spec.sources) else []), StateKeyItem)
      == (if spec.hideOriginal then spec.sources else [])
  {
    if spec.hideOriginal {
      assert forall i :: 0 <= i < |spec.sources| ==> spec.sources[i] in spec.sources;
      NormalizeKeyList(spec.sources);
    } else {
      NormalizeKeyList([]);
      assert TextItems([]) == [];
    }
  }

  /** A merge's object normalises to hiding the sources (when asked) and appending the merged row, nothing else. */
  lemma MergeResult(spec: MergeSpec, value: Js, toText: Js -> string)
    requires WellFormedMerge(spec)
    ensures NormalizeTransformerResult(MergeObject(spec, value), toText)
      == TransformResult(if spec.hideOriginal then spec.sources else [], map[], map[], [], [MergedRow(spec, value, toText)])
  {
    var obj := MergeObject(spec, value);
    var item := Obj([("key", Str(spec.key)), ("label", Str(spec.labelText)), ("value", value)]);
    LookupUnique(obj.entries, 0, "hide");
    LookupUnique(obj.entries, 1, "append");
    LookupMissing(obj.entries, "rename");
    LookupMissing(obj.entries, "replace");
    LookupMissing(obj.entries, "prepend");
    MergedHideRead(spec);
    MergedRowRead(spec, value, toText);
  }

  // ---------------------------------------------------------------------------
  // Running the transformers
  // ---------------------------------------------------------------------------

  /**
   * The host functions the pipeline calls: each registered function (given
   * the run context, the state map and the rows), each merge's custom
   * formatter (given the source values), and the context's own value-text
   * and state-name functions when it brings them.
   */
  datatype Host = Host(
    transform: (nat, RunContext, map<string, Js>, seq<StateEntry>) -> Outcome,
    format: (nat, seq<Js>) -> Outcome,
    messageText: Js -> string,
    stateName: string -> string)

  /** Everything one pipeline run is fixed to. */
  datatype Run = Run(context: RunContext, toText: Js -> string, aliases: map<string, string>, host: Host)

  /** Calls a transformer with the state map of the current rows and the rows. */
  function CallHandler(h: Handler, stateMap: map<string, Js>, entries: seq<StateEntry>, run: Run): Outcome
  {
    match h
    case External(id) => run.host.transform(id, run.context, stateMap, entries)
    case Merge(_, spec) => MergeRun(spec, stateMap, run.host.format)
  }

  /**
   * One transformer's turn: skipped when its filters refuse the block or it
   * throws; otherwise its normalised result applied to the rows.
   */
  function Step(t: TransformerEntry, entries: seq<StateEntry>, run: Run): (r: seq<StateEntry>)
    ensures AliasFixed(entries, run.aliases) ==> AliasFixed(r, run.aliases)
    ensures !ShouldRunTransformer(t.options, run.context) ==> r == entries
  {
    if !ShouldRunTransformer(t.options, run.context) then entries
    else
      match CallHandler(t.handler, ToStateMap(entries), entries, run)
      case Threw => entries
      case Returned(v) => ApplyTransformerResult(entries, NormalizeTransformerResult(v, run.toText), run.toText, run.aliases)
  }

  /** The transformers in order, each given the rows the previous ones left. */
  function RunAll(list: seq<TransformerEntry>, entries: seq<StateEntry>, run: Run): (r: seq<StateEntry>)
    ensures AliasFixed(entries, run.aliases) ==> AliasFixed(r, run.aliases)
    ensures (forall i :: 0 <= i < |list| ==> !ShouldRunTransformer(list[i].options, run.context)) ==> r == entries
    decreases |list|
  {
    if list == [] then entries
    else
      assert forall i :: 0 <= i < |list| - 1 ==> list[1..][i] == list[i + 1];
      RunAll(list[1..], Step(list[0], entries, run), run)
  }

  /** The value-text function: the context's own, else `String(value)`. */
  function MessageTextOf(context: Js, host: Host): Js -> string
  {
    if Prop(context, "toMessageText").Func? then host.messageText else ToText
  }

  /** The state-name function: the context's own, else the key as it is. */
  function StateNameOf(context: Js, host: Host): string -> string
  {
    if Prop(context, "formatStateName").Func? then host.stateName else (k: string) => k
  }

  /**
   * `transformBlockStateEntries`: the rows of the context's raw states,
   * relabelled by the aliases, passed through the registered transformers
   * in order.
   */
  function TransformBlockStateEntries(ts: Transformers, aliases: map<string, string>, context: Js, host: Host): (r: seq<StateEntry>)
    ensures AliasFixed(r, aliases)
    ensures ts.entries == [] ==>
      |r| == |OwnEntries(Or(Prop(context, "rawStates"), Obj([])))| && forall i :: 0 <= i < |r| ==> !r[i].injected
  {
    var toText := MessageTextOf(context, host);
    var run := Run(MakeRunContext(context), toText, aliases, host);
    RunAll(ts.entries, ToStateEntries(Prop(context, "rawStates"), toText, StateNameOf(context, host), aliases), run)
  }

  /** Running two lists of transformers is running the first, then the second on its rows. */
  lemma {:induction false} RunAllAppend(a: seq<TransformerEntry>, b: seq<TransformerEntry>, entries: seq<StateEntry>, run: Run)
    ensures RunAll(a + b, entries, run) == RunAll(b, RunAll(a, entries, run), run)
    decreases |a|
  {
    if a == [] {
      assert a + b == b;
    } else {
      assert (a + b)[0] == a[0] && (a + b)[1..] == a[1..] + b;
      RunAllAppend(a[1..], b, Step(a[0], entries, run), run);
    }
  }

  /** A turn that throws, or returns anything but an object, leaves rows that carry their aliases as they are. */
  lemma StepWithoutResult(t: TransformerEntry, entries: seq<StateEntry>, run: Run)
    requires AliasFixed(entries, run.aliases)
    requires var o := CallHandler(t.handler, ToStateMap(entries), entries, run);
      o.Threw? || !IsObjectLike(o.value)
    ensures Step(t, entries, run) == entries
  {
    NoChangeKeepsEntries(entries, run.toText, run.aliases);
  }

  /** An empty object as the result changes nothing either. */
  lemma EmptyObjectResult(toText: Js -> string)
    ensures NormalizeTransformerResult(Obj([]), toText) == NoChange
  {
    assert NormalizeStrings(Undefined, StateKeyItem) == [];
  }

  /**
   * A transformer that always throws can be taken out of the list without
   * changing what the pipeline produces from rows carrying their aliases.
   */
  lemma ThrowingTransformerRemovable(a: seq<TransformerEntry>, t: TransformerEntry, b: seq<TransformerEntry>,
                                     entries: seq<StateEntry>, run: Run)
    requires AliasFixed(entries, run.aliases)
    requires forall m, es :: CallHandler(t.handler, m, es, run).Threw?
    ensures RunAll(a + [t] + b, entries, run) == RunAll(a + b, entries, run)
  {
    var mid := RunAll(a, entries, run);
    RunAllAppend(a + [t], b, entries, run);
    RunAllAppend(a, [t], entries, run);
    RunAllAppend(a, b, entries, run);
    StepWithoutResult(t, mid, run);
    assert RunAll([t], mid, run) == Step(t, mid, run);
  }

  /** Every source of a merge present in the state map with a value other than `undefined`. */
  predicate SourcesPresent(spec: MergeSpec, stateMap: map<string, Js>)
  {
    forall i :: 0 <= i < |spec.sources| ==> spec.sources[i] in stateMap && !stateMap[spec.sources[i]].Undefined?
  }

  /** A merge with a source missing from the rows (or `undefined`) leaves them as they are. */
  lemma MergeMissingSourceNoOp(instance: nat, spec: MergeSpec, options: TransformerOptions, entries: seq<StateEntry>, run: Run)
    requires AliasFixed(entries, run.aliases)
    requires !SourcesPresent(spec, ToStateMap(entries))
    ensures Step(TransformerEntry(Merge(instance, spec), options), entries, run) == entries
  {
    var t := TransformerEntry(Merge(instance, spec), options);
    if ShouldRunTransformer(options, run.context) {
      StepWithoutResult(t, entries, run);
    }
  }

  /** The rows whose key is not among `keys`, in order. */
  function Without(entries: seq<StateEntry>, keys: seq<string>): (r: seq<StateEntry>)
    ensures |r| <= |entries|
    ensures forall e :: e in r <==> e in entries && !(e.stateKey != [] && e.stateKey in keys)
  {
    if entries == [] then []
    else
      var rest := Without(entries[1..], keys);
      assert forall e :: e in entries <==> e == entries[0] || e in entries[1..];
      if entries[0].stateKey != [] && entries[0].stateKey in keys then rest else [entries[0]] + rest
  }

  /** A result that neither renames nor replaces keeps the rows it does not hide exactly, in order. */
  lemma {:induction false} SurvivorsOfHide(entries: seq<StateEntry>, res: TransformResult, toText: Js -> string)
    requires res.rename == map[] && res.replace == map[]
    ensures Survivors(entries, res, toText) == Without(entries, res.hide)
    decreases |entries|
  {
    if entries != [] {
      SurvivorsOfHide(entries[1..], res, toText);
      ReviseUntouched(entries[0], res, toText);
    }
  }

  /** Leaving rows out keeps the others carrying their aliases. */
  lemma WithoutAliasFixed(entries: seq<StateEntry>, keys: seq<string>, aliases: map<string, string>)
    requires AliasFixed(entries, aliases)
    ensures AliasFixed(Without(entries, keys), aliases)
  {
    var w := Without(entries, keys);
    forall i | 0 <= i < |w| ensures AliasLabel(w[i], aliases) == w[i] {
      var k :| 0 <= k < |entries| && entries[k] == w[i];
      assert ApplyAliasLabels(entries, aliases)[k] == AliasLabel(entries[k], aliases);
    }
  }

  /** A result that only hides keys and appends rows keeps the other rows, then the appended ones under their aliases. */
  lemma ApplyHideAndAppend(entries: seq<StateEntry>, res: TransformResult, toText: Js -> string, aliases: map<string, string>)
    requires res.prepend == [] && res.rename == map[] && res.replace == map[]
    requires AliasFixed(entries, aliases)
    ensures ApplyTransformerResult(entries, res, toText, aliases) == Without(entries, res.hide) + ApplyAliasLabels(res.append, aliases)
  {
    var w := Without(entries, res.hide);
    SurvivorsOfHide(entries, res, toText);
    WithoutAliasFixed(entries, res.hide, aliases);
    assert res.prepend + Survivors(entries, res, toText) == w by {
      assert res.prepend == [];
    }
    ApplyAliasLabelsAppend(w, res.append, aliases);
    assert ApplyAliasLabels(w, aliases) == w;
    assert ApplyTransformerResult(entries, res, toText, aliases) == ApplyAliasLabels(w + res.append, aliases);
  }

  /**
   * A merge whose filters accept the block and whose sources are all
   * present, joining their texts, hides the sources when asked and
   * appends the merged row under its alias; the other rows stay as they
   * were.
   */
  lemma MergeAppendsRow(instance: nat, spec: MergeSpec, options: TransformerOptions, entries: seq<StateEntry>, run: Run)
    requires WellFormedMerge(spec) && spec.formatter.JoinWith?
    requires ShouldRunTransformer(options, run.context)
    requires AliasFixed(entries, run.aliases)
    requires SourcesPresent(spec, ToStateMap(entries))
    ensures var values := SourceValues(spec.sources, ToStateMap(entries));
      var row := MergedRow(spec, Str(Join(Texts(values), spec.formatter.separator)), run.toText);
      Step(TransformerEntry(Merge(instance, spec), options), entries, run)
        == Without(entries, if spec.hideOriginal then spec.sources else []) + [AliasLabel(row, run.aliases)]
  {
    var value := Str(Join(Texts(SourceValues(spec.sources, ToStateMap(entries))), spec.formatter.separator));
    MergeStepResult(instance, spec, options, entries, run);
    HideAndAppendOne(entries, if spec.hideOriginal then spec.sources else [], MergedRow(spec, value, run.toText), run.toText, run.aliases);
  }

  /** Hiding keys and appending one row keeps the other rows, then the row under its alias. */
  lemma HideAndAppendOne(entries: seq<StateEntry>, keys: seq<string>, row: StateEntry, toText: Js -> string, aliases: map<string, string>)
    requires AliasFixed(entries, aliases)
    ensures ApplyTransformerResult(entries, TransformResult(keys, map[], map[], [], [row]), toText, aliases)
      == Without(entries, keys) + [AliasLabel(row, aliases)]
  {
    var res := TransformResult(keys, map[], map[], [], [row]);
    ApplyHideAndAppend(entries, res, toText, aliases);
    assert ApplyAliasLabels(res.append, aliases) == [AliasLabel(row, aliases)];
  }

  /** The merge handler returns the merged row to append and, when asked, its sources to hide. */
  lemma MergeStepResult(instance: nat, spec: MergeSpec, options: TransformerOptions, entries: seq<StateEntry>, run: Run)
    requires WellFormedMerge(spec) && spec.formatter.JoinWith?
    requires ShouldRunTransformer(options, run.context)
    requires SourcesPresent(spec, ToStateMap(entries))
    ensures var value := Str(Join(Texts(SourceValues(spec.sources, ToStateMap(entries))), spec.formatter.separator));
      var keys := if spec.hideOriginal then spec.sources else [];
      Step(TransformerEntry(Merge(instance, spec), options), entries, run)
        == ApplyTransformerResult(entries, TransformResult(keys, map[], map[], [], [MergedRow(spec, value, run.toText)]), run.toText, run.aliases)
  {
    var stateMap := ToStateMap(entries);
    var value := Str(Join(Texts(SourceValues(spec.sources, stateMap)), spec.formatter.separator));
    var t := TransformerEntry(Merge(instance, spec), options);
    assert CallHandler(t.handler, stateMap, entries, run) == Returned(MergeObject(spec, value));
    MergeResult(spec, value, run.toText);
  }
}
