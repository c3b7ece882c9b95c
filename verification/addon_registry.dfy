/**
 * The add-on registry: the default library, the descriptors registered at
 * run time (keyed by their key, in registration order), the merged view
 * of both, and the two indexes from content ids and namespaces to the key
 * of the add-on that owns them. Every mutation rebuilds the merged view
 * and both indexes from scratch, so they are modelled as functions of the
 * two sources.
 */
module AddonRegistry {
  import opened Wrappers
  import opened Text
  import opened JsValue
  import opened OrderedMaps
  import opened Lists
  import opened Namespaces

  /** The two sources of the registry: the default library and the run-time descriptors by key. */
  datatype Registry = Registry(defaults: seq<Addon>, dynamicByKey: Entries<string, Addon>)

  /** Every entry is stored under its own descriptor's key. */
  predicate SelfKeyed(m: Entries<string, Addon>)
  {
    forall i :: 0 <= i < |m| ==> m[i].1.key == m[i].0
  }

  /** Storing a descriptor under its own key keeps a map self-keyed. */
  lemma SetSelfKeyed(m: Entries<string, Addon>, a: Addon)
    requires Valid(m) && SelfKeyed(m)
    ensures SelfKeyed(Set(m, a.key, a))
  {
    if Has(m, a.key) {
      var i := IndexOfKey(m, a.key);
      assert Set(m, a.key, a) == m[i := (a.key, a)];
    }
  }

  /** The value a self-keyed map holds under a key has that key. */
  lemma GetSelfKeyed(m: Entries<string, Addon>, k: string)
    requires SelfKeyed(m) && Has(m, k)
    ensures Get(m, k).value.key == k
  {
    var i := IndexOfKey(m, k);
  }

  /** Merging a descriptor into the entry for its key keeps the key. */
  lemma MergeKeepsKey(m: Entries<string, Addon>, d: Addon)
    requires SelfKeyed(m)
    ensures MergeAddons(Get(m, d.key), d).key == d.key
  {
    if Has(m, d.key) {
      GetSelfKeyed(m, d.key);
    }
  }

  /** Every descriptor a map holds is in persisted form. */
  predicate AllNormalized(m: Entries<string, Addon>)
  {
    AllValues(m, NormalizedAddon)
  }

  /** Merging a descriptor in persisted form into one with the same key keeps the persisted form. */
  lemma MergeNormalized(base: Option<Addon>, over: Addon)
    requires NormalizedAddon(over)
    requires base.Some? ==> base.value.key == over.key && NormalizedAddon(base.value)
    ensures NormalizedAddon(MergeAddons(base, over))
  {
    if base.Some? {
      var b := base.value;
      assert AllItems(b.content, StoredId) && AllItems(over.content, StoredId);
      AppendAllItems(b.content, over.content, StoredId);
      DedupeAllItems(b.content + over.content, StoredId);
      var r := MergeAddons(base, over);
      assert r.content == Dedupe(b.content + over.content);
      assert r.key == over.key && NameForm(r.key, r.name) && LowerForm(r.kind);
      assert r.namespace.Some? ==> LowerForm(r.namespace.value);
      NormalizedFromParts(r);
    }
  }

  /**
   * `DEFAULT_ADDON_LIBRARY`: the bundled workspace entries that normalise,
   * normalised, in their order.
   */
  function DefaultLibrary(entries: seq<Js>): (r: seq<Addon>)
    ensures |r| <= |entries|
    ensures forall a :: a in r <==> exists i :: 0 <= i < |entries| && NormalizeAddonDefinition(entries[i]) == Some(a)
    ensures AllItems(r, NormalizedAddon)
  {
    var r := Collect(entries, NormalizeAddonDefinition);
    assert forall a :: a in r <==> exists i :: 0 <= i < |entries| && NormalizeAddonDefinition(entries[i]) == Some(a) by {
      forall a ensures a in r <==> exists i :: 0 <= i < |entries| && NormalizeAddonDefinition(entries[i]) == Some(a) {
        CollectMembers(entries, NormalizeAddonDefinition, a);
      }
    }
    CollectAllItems(entries, NormalizeAddonDefinition, NormalizedAddon);
    r
  }

  // ---------------------------------------------------------------------------
  // Rebuild
  // ---------------------------------------------------------------------------

  /** The default library laid out by key: a later descriptor with the same key replaces an earlier one. */
  function LayDefaults(defaults: seq<Addon>): (m: Entries<string, Addon>)
    ensures Valid(m) && SelfKeyed(m)
    decreases |defaults|
  {
    if defaults == [] then []
    else
      var m := LayDefaults(defaults[..|defaults| - 1]);
      var a := defaults[|defaults| - 1];
      SetSelfKeyed(m, a);
      Set(m, a.key, a)
  }

  /** The run-time descriptors laid over a base, in registration order, each merged into the entry for its key. */
  function LayDynamic(base: Entries<string, Addon>, dynamic: Entries<string, Addon>): (m: Entries<string, Addon>)
    requires Valid(base) && SelfKeyed(base) && SelfKeyed(dynamic)
    ensures Valid(m) && SelfKeyed(m)
    ensures forall k :: Has(m, k) <==> Has(base, k) || Has(dynamic, k)
    decreases |dynamic|
  {
    if dynamic == [] then base
    else
      var front := dynamic[..|dynamic| - 1];
      var m := LayDynamic(base, front);
      var d := dynamic[|dynamic| - 1].1;
      var merged := MergeAddons(Get(m, d.key), d);
      MergeKeepsKey(m, d);
      SetSelfKeyed(m, merged);
      var r := Set(m, d.key, merged);
      HasSnoc(dynamic);
      r
  }

  /** The content index: each id of each add-on, in order, mapped to the add-on's key, a later owner replacing an earlier one. */
  function ContentIndex(addons: seq<Addon>): (r: map<string, string>)
    ensures forall id :: id in r <==> exists i :: 0 <= i < |addons| && id in addons[i].content
    decreases |addons|
  {
    if addons == [] then map[]
    else
      var front := addons[..|addons| - 1];
      var last := addons[|addons| - 1];
      var r := ContentIndex(front) + map id | id in last.content :: last.key;
      assert forall id :: id in r <==> exists i :: 0 <= i < |addons| && id in addons[i].content by {
        forall id | id in r ensures exists i :: 0 <= i < |addons| && id in addons[i].content {
          if id !in last.content {
            var i :| 0 <= i < |front| && id in front[i].content;
            assert id in addons[i].content;
          } else {
            assert id in addons[|addons| - 1].content;
          }
        }
        forall id | exists i :: 0 <= i < |addons| && id in addons[i].content ensures id in r {
          var i :| 0 <= i < |addons| && id in addons[i].content;
          if i < |addons| - 1 {
            assert id in front[i].content;
          }
        }
      }
      r
  }

  /** The namespace a descriptor is indexed under: its namespace, normalised. */
  function IndexedNamespace(a: Addon): Option<string>
  {
    NormalizeNamespaceInput(if a.namespace.Some? then Str(a.namespace.value) else Undefined)
  }

  /** Each add-on's indexed namespace beside its key. */
  function NamespaceOwners(addons: seq<Addon>): (r: seq<(Option<string>, string)>)
    ensures |r| == |addons|
    ensures forall i :: 0 <= i < |addons| ==> r[i] == (IndexedNamespace(addons[i]), addons[i].key)
  {
    seq(|addons|, i requires 0 <= i < |addons| => (IndexedNamespace(addons[i]), addons[i].key))
  }

  /** The namespace index: each present namespace mapped to its owner's key, a later owner replacing an earlier one. */
  function NamespaceIndexOf(owners: seq<(Option<string>, string)>): (r: map<string, string>)
    ensures forall ns :: ns in r <==> exists i :: 0 <= i < |owners| && owners[i].0 == Some(ns)
    decreases |owners|
  {
    if owners == [] then map[]
    else
      var front := owners[..|owners| - 1];
      var last := owners[|owners| - 1];
      var r := if last.0.Some? then NamespaceIndexOf(front)[last.0.value := last.1] else NamespaceIndexOf(front);
      assert forall ns :: ns in r <==> exists i :: 0 <= i < |owners| && owners[i].0 == Some(ns) by {
        forall ns | ns in r ensures exists i :: 0 <= i < |owners| && owners[i].0 == Some(ns) {
          if last.0 != Some(ns) {
            var i :| 0 <= i < |front| && front[i].0 == Some(ns);
            assert owners[i].0 == Some(ns);
          } else {
            assert owners[|owners| - 1].0 == Some(ns);
          }
        }
        forall ns | exists i :: 0 <= i < |owners| && owners[i].0 == Some(ns) ensures ns in r {
          var i :| 0 <= i < |owners| && owners[i].0 == Some(ns);
          if i < |owners| - 1 {
            assert front[i].0 == Some(ns);
          }
        }
      }
      r
  }

  function NamespaceIndex(addons: seq<Addon>): map<string, string>
  {
    NamespaceIndexOf(NamespaceOwners(addons))
  }

  /**
   * The state every operation keeps: every descriptor is in persisted
   * form and the run-time ones are stored under their keys.
   */
  predicate Consistent(reg: Registry)
  {
    && AllItems(reg.defaults, NormalizedAddon)
    && Valid(reg.dynamicByKey) && SelfKeyed(reg.dynamicByKey) && AllNormalized(reg.dynamicByKey)
  }

  /**
   * `rebuildMergedRegistry`, the merged view: the defaults by key, then
   * each run-time descriptor merged into the entry for its key.
   */
  function MergedByKey(reg: Registry): (m: Entries<string, Addon>)
    requires Consistent(reg)
    ensures Valid(m) && SelfKeyed(m) && AllNormalized(m)
    ensures forall k :: Has(m, k) <==> Has(LayDefaults(reg.defaults), k) || Has(reg.dynamicByKey, k)
  {
    LayDefaultsNormalized(reg.defaults);
    LayDynamicNormalized(LayDefaults(reg.defaults), reg.dynamicByKey);
    LayDynamic(LayDefaults(reg.defaults), reg.dynamicByKey)
  }

  /** `rebuildMergedRegistry`, the content index of the merged view. */
  function ContentToAddonKey(reg: Registry): map<string, string>
    requires Consistent(reg)
  {
    ContentIndex(Values(MergedByKey(reg)))
  }

  /** `rebuildMergedRegistry`, the namespace index of the merged view. */
  function NamespaceToAddonKey(reg: Registry): map<string, string>
    requires Consistent(reg)
  {
    NamespaceIndex(Values(MergedByKey(reg)))
  }

  lemma {:induction false} LayDefaultsNormalized(defaults: seq<Addon>)
    requires AllItems(defaults, NormalizedAddon)
    ensures AllNormalized(LayDefaults(defaults))
    decreases |defaults|
  {
    if defaults != [] {
      var front := defaults[..|defaults| - 1];
      LayDefaultsNormalized(front);
      SetAllValues(LayDefaults(front), defaults[|defaults| - 1].key, defaults[|defaults| - 1], NormalizedAddon);
    }
  }

  lemma {:induction false} LayDynamicNormalized(base: Entries<string, Addon>, dynamic: Entries<string, Addon>)
    requires Valid(base) && SelfKeyed(base) && SelfKeyed(dynamic)
    requires AllNormalized(base) && AllNormalized(dynamic)
    ensures AllNormalized(LayDynamic(base, dynamic))
    decreases |dynamic|
  {
    if dynamic != [] {
      var front := dynamic[..|dynamic| - 1];
      assert SelfKeyed(front) && AllNormalized(front) by {
        forall i | 0 <= i < |front| ensures front[i] == dynamic[i] { }
      }
      LayDynamicNormalized(base, front);
      var m := LayDynamic(base, front);
      var d := dynamic[|dynamic| - 1].1;
      assert NormalizedAddon(d);
      if Has(m, d.key) {
        GetSelfKeyed(m, d.key);
        GetAllValues(m, d.key, NormalizedAddon);
      }
      MergeNormalized(Get(m, d.key), d);
      SetAllValues(m, d.key, MergeAddons(Get(m, d.key), d), NormalizedAddon);
    }
  }

  /** The later of two owners of a content id is the one the index names. */
  lemma {:induction false} ContentIndexLastOwner(addons: seq<Addon>, j: nat, id: string)
    requires j < |addons| && id in addons[j].content
    requires forall k :: j < k < |addons| ==> id !in addons[k].content
    ensures id in ContentIndex(addons) && ContentIndex(addons)[id] == addons[j].key
    decreases |addons|
  {
    if j < |addons| - 1 {
      var front := addons[..|addons| - 1];
      ContentIndexLastOwner(front, j, id);
    }
  }

  /** The index names, for every id it holds, an add-on that lists the id. */
  lemma {:induction false} ContentIndexSound(addons: seq<Addon>, id: string)
    requires id in ContentIndex(addons)
    ensures exists i :: 0 <= i < |addons| && id in addons[i].content && addons[i].key == ContentIndex(addons)[id]
    decreases |addons|
  {
    var front := addons[..|addons| - 1];
    var last := addons[|addons| - 1];
    if id in last.content {
      assert id in addons[|addons| - 1].content;
    } else {
      ContentIndexSound(front, id);
      var i :| 0 <= i < |front| && id in front[i].content && front[i].key == ContentIndex(front)[id];
      assert addons[i] == front[i];
    }
  }

  /** The later of two owners of a namespace is the one the index names. */
  lemma {:induction false} NamespaceIndexLastOwner(owners: seq<(Option<string>, string)>, j: nat, ns: string)
    requires j < |owners| && owners[j].0 == Some(ns)
    requires forall k :: j < k < |owners| ==> owners[k].0 != Some(ns)
    ensures ns in NamespaceIndexOf(owners) && NamespaceIndexOf(owners)[ns] == owners[j].1
    decreases |owners|
  {
    if j < |owners| - 1 {
      var front := owners[..|owners| - 1];
      NamespaceIndexLastOwner(front, j, ns);
    }
  }

  /** The index names, for every namespace it holds, an owner of that namespace. */
  lemma {:induction false} NamespaceIndexSound(owners: seq<(Option<string>, string)>, ns: string)
    requires ns in NamespaceIndexOf(owners)
    ensures exists i :: 0 <= i < |owners| && owners[i].0 == Some(ns) && owners[i].1 == NamespaceIndexOf(owners)[ns]
    decreases |owners|
  {
    var front := owners[..|owners| - 1];
    var last := owners[|owners| - 1];
    if last.0 == Some(ns) {
      assert owners[|owners| - 1].0 == Some(ns);
    } else {
      NamespaceIndexSound(front, ns);
      var i :| 0 <= i < |front| && front[i].0 == Some(ns) && front[i].1 == NamespaceIndexOf(front)[ns];
      assert owners[i] == front[i];
    }
  }
}
