/**
 * The operations of the add-on registry: the three lookups, registering a
 * descriptor or a list of them, registering a namespace alias, and the
 * run-time descriptors' trip through the world's stored record.
 */
module RegistryOps {
  import opened Wrappers
  import opened Text
  import opened JsValue
  import opened OrderedMaps
  import opened Lists
  import opened Namespaces
  import opened AddonRegistry

  // ---------------------------------------------------------------------------
  // Lookups
  // ---------------------------------------------------------------------------

  /** What the merged view of a consistent registry is: keyed, self-keyed, in persisted form. */
  predicate MergedView(m: Entries<string, Addon>)
  {
    Valid(m) && SelfKeyed(m) && AllNormalized(m)
  }

  /** A merged descriptor has a non-empty key, is the one stored under it, and lists only stored ids. */
  lemma MergedAt(m: Entries<string, Addon>, j: nat)
    requires MergedView(m) && j < |m|
    ensures m[j].1.key != [] && Get(m, m[j].1.key) == Some(m[j].1)
    ensures AllItems(m[j].1.content, StoredId)
  {
    NormalizedParts(m[j].1);
    UniqueIndex(m, j, m[j].0);
  }

  lemma NormalizedParts(a: Addon)
    requires NormalizedAddon(a)
    ensures a.key != [] && AllItems(a.content, StoredId)
  {
  }

  /** `getAddonByKey`: the merged descriptor stored under a key. */
  function GetAddonByKey(reg: Registry, key: string): (r: Option<Addon>)
    requires Consistent(reg)
    ensures r.Some? <==> Has(MergedByKey(reg), key)
    ensures r.Some? ==> r.value.key == key && NormalizedAddon(r.value)
  {
    var m := MergedByKey(reg);
    if Has(m, key) then
      GetSelfKeyed(m, key);
      GetAllValues(m, key, NormalizedAddon);
      Get(m, key)
    else None
  }

  /**
   * The type-id lookup on a merged view: the id trimmed and lower-cased;
   * nothing for an empty id, an id no descriptor lists, or an owner
   * recorded with the empty key; else the descriptor of the owner.
   */
  function FindByContent(m: Entries<string, Addon>, typeId: string): Option<Addon>
  {
    var id := ContentId(typeId);
    var index := ContentIndex(Values(m));
    if id == [] || id !in index then None
    else
      var key := index[id];
      if key == [] then None else Get(m, key)
  }

  /** `getAddonByTypeId`. */
  function GetAddonByTypeId(reg: Registry, typeId: string): Option<Addon>
    requires Consistent(reg)
  {
    FindByContent(MergedByKey(reg), typeId)
  }

  /** A type id finds only a descriptor that lists it. */
  lemma FindByContentSound(m: Entries<string, Addon>, typeId: string)
    requires MergedView(m)
    ensures var r := FindByContent(m, typeId); r.Some? ==> ContentId(typeId) in r.value.content
  {
    var id := ContentId(typeId);
    var vs := Values(m);
    if FindByContent(m, typeId).Some? {
      ContentIndexSound(vs, id);
      var i :| 0 <= i < |vs| && id in vs[i].content && vs[i].key == ContentIndex(vs)[id];
      MergedAt(m, i);
    }
  }

  /** A type id finds the last merged descriptor that lists it. */
  lemma FindByContentLastOwner(m: Entries<string, Addon>, typeId: string, j: nat)
    requires MergedView(m)
    requires j < |m| && ContentId(typeId) in m[j].1.content
    requires forall k :: j < k < |m| ==> ContentId(typeId) !in m[k].1.content
    ensures FindByContent(m, typeId) == Some(m[j].1)
  {
    var id := ContentId(typeId);
    ContentIndexLastOwner(Values(m), j, id);
    MergedAt(m, j);
    var c := m[j].1.content;
    var k :| 0 <= k < |c| && c[k] == id;
    assert StoredId(c[k]);
  }

  /**
   * The namespace lookup on a merged view: nothing unless the input
   * normalises to a namespace some descriptor is indexed under with a
   * non-empty key; else the descriptor of that owner.
   */
  function FindByNamespace(m: Entries<string, Addon>, namespace: Js): Option<Addon>
  {
    match NormalizeNamespaceInput(namespace)
    case None => None
    case Some(ns) =>
      var index := NamespaceIndex(Values(m));
      if ns !in index then None
      else
        var key := index[ns];
        if key == [] then None else Get(m, key)
  }

  /** `getAddonByNamespace`. */
  function GetAddonByNamespace(reg: Registry, namespace: Js): Option<Addon>
    requires Consistent(reg)
  {
    FindByNamespace(MergedByKey(reg), namespace)
  }

  /** A namespace finds only a descriptor indexed under it. */
  lemma FindByNamespaceSound(m: Entries<string, Addon>, namespace: Js)
    requires MergedView(m)
    ensures var r := FindByNamespace(m, namespace);
      r.Some? ==> IndexedNamespace(r.value) == NormalizeNamespaceInput(namespace)
  {
    if FindByNamespace(m, namespace).Some? {
      var ns := NormalizeNamespaceInput(namespace).value;
      var owners := NamespaceOwners(Values(m));
      NamespaceIndexSound(owners, ns);
      var i :| 0 <= i < |owners| && owners[i].0 == Some(ns) && owners[i].1 == NamespaceIndexOf(owners)[ns];
      MergedAt(m, i);
    }
  }

  /** A namespace finds the last merged descriptor indexed under it. */
  lemma FindByNamespaceLastOwner(m: Entries<string, Addon>, namespace: Js, j: nat)
    requires MergedView(m)
    requires NormalizeNamespaceInput(namespace).Some?
    requires j < |m| && IndexedNamespace(m[j].1) == NormalizeNamespaceInput(namespace)
    requires forall k :: j < k < |m| ==> IndexedNamespace(m[k].1) != NormalizeNamespaceInput(namespace)
    ensures FindByNamespace(m, namespace) == Some(m[j].1)
  {
    var ns := NormalizeNamespaceInput(namespace).value;
    IndexNamesLastOwner(m, ns, j);
    MergedAt(m, j);
  }

  /** The namespace index of a merged view names the key of the last descriptor indexed under `ns`. */
  lemma IndexNamesLastOwner(m: Entries<string, Addon>, ns: string, j: nat)
    requires j < |m| && IndexedNamespace(m[j].1) == Some(ns)
    requires forall k :: j < k < |m| ==> IndexedNamespace(m[k].1) != Some(ns)
    ensures ns in NamespaceIndex(Values(m)) && NamespaceIndex(Values(m))[ns] == m[j].1.key
  {
    var owners := NamespaceOwners(Values(m));
    assert owners[j] == (Some(ns), m[j].1.key);
    assert forall k :: j < k < |owners| ==> owners[k].0 != Some(ns) by {
      forall k | j < k < |owners| ensures owners[k].0 != Some(ns) {
        assert owners[k].0 == IndexedNamespace(m[k].1);
      }
    }
    NamespaceIndexLastOwner(owners, j, ns);
  }

  // ---------------------------------------------------------------------------
  // Registering
  // ---------------------------------------------------------------------------

  /** Merges a normalised descriptor into the run-time entry for its key. */
  function StoreDynamic(m: Entries<string, Addon>, a: Addon): (r: Entries<string, Addon>)
    requires Valid(m) && SelfKeyed(m) && AllNormalized(m) && NormalizedAddon(a)
    ensures Valid(r) && SelfKeyed(r) && AllNormalized(r)
    ensures Get(r, a.key) == Some(MergeAddons(Get(m, a.key), a))
    ensures forall k :: k != a.key ==> Get(r, k) == Get(m, k)
  {
    var merged := MergeAddons(Get(m, a.key), a);
    MergeKeepsKey(m, a);
    SetSelfKeyed(m, merged);
    MergedEntryNormalized(m, a);
    SetAllValues(m, a.key, merged, NormalizedAddon);
    Set(m, a.key, merged)
  }

  lemma MergedEntryNormalized(m: Entries<string, Addon>, a: Addon)
    requires SelfKeyed(m) && AllNormalized(m) && NormalizedAddon(a)
    ensures NormalizedAddon(MergeAddons(Get(m, a.key), a))
  {
    if Has(m, a.key) {
      GetSelfKeyed(m, a.key);
      GetAllValues(m, a.key, NormalizedAddon);
    }
    MergeNormalized(Get(m, a.key), a);
  }

  /** Whether a call changed the registry, and the registry after it. */
  datatype Registration = Registration(ok: bool, registry: Registry)

  /**
   * `registerAddonContentInternal`: a descriptor that normalises is merged
   * into the run-time entry for its key and everything is rebuilt; one
   * that does not leaves the registry as it was.
   */
  function Register(reg: Registry, v: Js): (r: Registration)
    requires Consistent(reg)
    ensures Consistent(r.registry) && r.registry.defaults == reg.defaults
    ensures r.ok <==> NormalizeAddonDefinition(v).Some?
    ensures !r.ok ==> r.registry == reg
    ensures r.ok ==> var a := NormalizeAddonDefinition(v).value;
      && Get(r.registry.dynamicByKey, a.key) == Some(MergeAddons(Get(reg.dynamicByKey, a.key), a))
      && forall k :: k != a.key ==> Get(r.registry.dynamicByKey, k) == Get(reg.dynamicByKey, k)
  {
    match NormalizeAddonDefinition(v)
    case None => Registration(false, reg)
    case Some(a) =>
      var dynamic := StoreDynamic(reg.dynamicByKey, a);
      Registration(true, Registry(reg.defaults, dynamic))
  }

  /** Storing the value a key already holds changes nothing. */
  lemma SetSame(m: Entries<string, Addon>, k: string, v: Addon)
    requires Valid(m) && Get(m, k) == Some(v)
    ensures Set(m, k, v) == m
  {
    var i := IndexOfKey(m, k);
    assert m[i := (k, v)] == m;
  }

  /** Registering the same descriptor twice is registering it once. */
  lemma RegisterIdempotent(reg: Registry, v: Js)
    requires Consistent(reg)
    ensures var once := Register(reg, v);
      Register(once.registry, v) == once
  {
    var once := Register(reg, v);
    if once.ok {
      var a := NormalizeAddonDefinition(v).value;
      var d := reg.dynamicByKey;
      var d1 := once.registry.dynamicByKey;
      var merged := MergeAddons(Get(d, a.key), a);
      MergeIdempotent(Get(d, a.key), a);
      assert MergeAddons(Get(d1, a.key), a) == merged;
      SetSame(d1, a.key, merged);
      assert StoreDynamic(d1, a) == d1;
    }
  }

  /** The run-time entry for a key holds, after the later descriptors are laid over, at least its own content. */
  lemma {:induction false} LayDynamicKeepsContent(base: Entries<string, Addon>, dynamic: Entries<string, Addon>, i: nat, id: string)
    requires Valid(base) && SelfKeyed(base) && Valid(dynamic) && SelfKeyed(dynamic)
    requires i < |dynamic| && id in dynamic[i].1.content
    ensures var m := LayDynamic(base, dynamic);
      Has(m, dynamic[i].0) && id in Get(m, dynamic[i].0).value.content
    decreases |dynamic|
  {
    var front := dynamic[..|dynamic| - 1];
    var d := dynamic[|dynamic| - 1].1;
    assert SelfKeyed(front) by {
      forall k | 0 <= k < |front| ensures front[k] == dynamic[k] { }
    }
    var m := LayDynamic(base, front);
    if i < |dynamic| - 1 {
      assert Valid(front) by {
        forall a, b | 0 <= a < b < |front| ensures Keys(front)[a] != Keys(front)[b] {
          assert Keys(dynamic)[a] != Keys(dynamic)[b];
        }
      }
      assert front[i] == dynamic[i];
      LayDynamicKeepsContent(base, front, i, id);
      assert dynamic[i].0 != d.key by {
        assert Keys(dynamic)[i] != Keys(dynamic)[|dynamic| - 1];
      }
    } else {
      MergeContains(Get(m, d.key), d, id);
    }
  }

  lemma MergeContains(base: Option<Addon>, over: Addon, id: string)
    requires id in over.content
    ensures id in MergeAddons(base, over).content
  {
  }

  /** A content id listed by a descriptor that was registered is found by its type id. */
  lemma RegisteredContentFound(reg: Registry, v: Js, id: string)
    requires Consistent(reg)
    requires NormalizeAddonDefinition(v).Some? && id in NormalizeAddonDefinition(v).value.content
    ensures var r := GetAddonByTypeId(Register(reg, v).registry, id);
      r.Some? && id in r.value.content
  {
    var a := NormalizeAddonDefinition(v).value;
    var res := Register(reg, v).registry;
    var m := MergedByKey(res);
    var j := RegisteredContentMerged(reg, v, id);
    NormalizedParts(a);
    var c := a.content;
    var i :| 0 <= i < |c| && c[i] == id;
    assert StoredId(c[i]);
    LastListing(m, j, id);
    var k :| j <= k < |m| && id in m[k].1.content && forall l :: k < l < |m| ==> id !in m[l].1.content;
    FindByContentLastOwner(m, id, k);
  }

  /** After registering, the merged entry for the descriptor's key lists its content. */
  lemma RegisteredContentMerged(reg: Registry, v: Js, id: string) returns (j: nat)
    requires Consistent(reg)
    requires NormalizeAddonDefinition(v).Some? && id in NormalizeAddonDefinition(v).value.content
    ensures var m := MergedByKey(Register(reg, v).registry); j < |m| && id in m[j].1.content
  {
    var a := NormalizeAddonDefinition(v).value;
    var res := Register(reg, v).registry;
    var d := res.dynamicByKey;
    assert Has(d, a.key);
    var i := IndexOfKey(d, a.key);
    MergeContains(Get(reg.dynamicByKey, a.key), a, id);
    LayDynamicKeepsContent(LayDefaults(res.defaults), d, i, id);
    var m := MergedByKey(res);
    j := IndexOfKey(m, a.key);
  }

  /** When some merged descriptor lists an id, so does a last one, and the lookup finds it. */
  lemma LastListing(m: Entries<string, Addon>, j: nat, id: string)
    requires j < |m| && id in m[j].1.content
    ensures exists k :: j <= k < |m| && id in m[k].1.content && forall l :: k < l < |m| ==> id !in m[l].1.content
    decreases |m| - j
  {
    if exists l :: j < l < |m| && id in m[l].1.content {
      var l :| j < l < |m| && id in m[l].1.content;
      LastListing(m, l, id);
    }
  }

  // ---------------------------------------------------------------------------
  // Registering a list
  // ---------------------------------------------------------------------------

  predicate SomeNormalizes(items: seq<Js>)
  {
    exists i :: 0 <= i < |items| && NormalizeAddonDefinition(items[i]).Some?
  }

  lemma SomeNormalizesCons(items: seq<Js>)
    requires items != []
    ensures SomeNormalizes(items) <==> NormalizeAddonDefinition(items[0]).Some? || SomeNormalizes(items[1..])
  {
    var normalizes := (v: Js) => NormalizeAddonDefinition(v).Some?;
    ExistsCons(items, normalizes);
    assert SomeNormalizes(items) <==> exists i :: 0 <= i < |items| && normalizes(items[i]);
    assert SomeNormalizes(items[1..]) <==> exists i :: 0 <= i < |items[1..]| && normalizes(items[1..][i]);
  }

  /** Some element of a non-empty sequence satisfies `p` when its head or some element of its tail does. */
  lemma ExistsCons<T>(items: seq<T>, p: T -> bool)
    requires items != []
    ensures (exists i :: 0 <= i < |items| && p(items[i])) <==> p(items[0]) || exists i :: 0 <= i < |items[1..]| && p(items[1..][i])
  {
    var tail := items[1..];
    if (exists i :: 0 <= i < |items| && p(items[i])) && !p(items[0]) {
      var i :| 0 <= i < |items| && p(items[i]);
      assert tail[i - 1] == items[i];
    }
    if exists i :: 0 <= i < |tail| && p(tail[i]) {
      var i :| 0 <= i < |tail| && p(tail[i]);
      assert items[i + 1] == tail[i];
    }
  }

  /** Each descriptor registered in turn; whether any of them changed the registry. */
  function RegisterEach(reg: Registry, items: seq<Js>): (r: Registration)
    requires Consistent(reg)
    ensures Consistent(r.registry) && r.registry.defaults == reg.defaults
    ensures r.ok <==> SomeNormalizes(items)
    ensures !r.ok ==> r.registry == reg
    decreases |items|
  {
    if items == [] then Registration(false, reg)
    else
      var first := Register(reg, items[0]);
      var rest := RegisterEach(first.registry, items[1..]);
      SomeNormalizesCons(items);
      Registration(first.ok || rest.ok, rest.registry)
  }

  /**
   * `registerAddonContents`: false for anything but an array; else every
   * item registered in order, true when at least one was accepted.
   */
  function RegisterAll(reg: Registry, addons: Js): (r: Registration)
    requires Consistent(reg)
    ensures Consistent(r.registry) && r.registry.defaults == reg.defaults
    ensures r.ok <==> addons.Arr? && SomeNormalizes(addons.items)
    ensures !r.ok ==> r.registry == reg
  {
    if addons.Arr? then RegisterEach(reg, addons.items) else Registration(false, reg)
  }

  /** A list of one descriptor registers as that descriptor does. */
  lemma RegisterAllSingle(reg: Registry, v: Js)
    requires Consistent(reg)
    ensures RegisterAll(reg, Arr([v])) == Register(reg, v)
  {
    var first := Register(reg, v);
    assert [v][1..] == [];
    assert RegisterEach(first.registry, []) == Registration(false, first.registry);
  }

  /** Registering a list and then one more descriptor is registering the longer list. */
  lemma {:induction false} RegisterEachAppend(reg: Registry, items: seq<Js>, v: Js)
    requires Consistent(reg)
    ensures var before := RegisterEach(reg, items);
      var after := Register(before.registry, v);
      RegisterEach(reg, items + [v]) == Registration(before.ok || after.ok, after.registry)
    decreases |items|
  {
    if items == [] {
      assert [v][1..] == [];
    } else {
      var first := Register(reg, items[0]);
      assert (items + [v])[0] == items[0] && (items + [v])[1..] == items[1..] + [v];
      RegisterEachAppend(first.registry, items[1..], v);
    }
  }

  // ---------------------------------------------------------------------------
  // Namespace aliases
  // ---------------------------------------------------------------------------

  /** What `registerNamespaceAlias` answers. */
  datatype AliasOutcome =
    | InvalidInput
    | AliasRegistered(ok: bool, key: string, namespace: string, name: string)

  datatype AliasRegistration = AliasRegistration(outcome: AliasOutcome, registry: Registry)

  /** The display name: trimmed text, or empty for anything but text. */
  function AliasName(displayName: Js): (r: string)
    ensures r == [] || Trim(r) == r
  {
    if displayName.Str? then
      TrimIdempotent(displayName.s);
      Trim(displayName.s)
    else []
  }

  /** The descriptor an alias registers: keyed `namespace_<ns>`, of type "namespace", with no content. */
  function AliasAddon(namespace: string, name: string): Addon
  {
    Addon("namespace_" + namespace, name, "namespace", Some(namespace), [])
  }

  /**
   * `registerNamespaceAlias`: an invalid namespace or an empty name is
   * refused and changes nothing; else the alias descriptor is registered
   * under the normalised key `namespace_<ns>`.
   */
  function RegisterNamespaceAlias(reg: Registry, namespaceInput: Js, displayName: Js): (r: AliasRegistration)
    requires Consistent(reg)
    ensures Consistent(r.registry) && r.registry.defaults == reg.defaults
    ensures r.outcome.InvalidInput? <==> NormalizeNamespaceInput(namespaceInput).None? || AliasName(displayName) == []
    ensures r.outcome.InvalidInput? ==> r.registry == reg
  {
    var namespace := NormalizeNamespaceInput(namespaceInput);
    var name := AliasName(displayName);
    if namespace.None? || name == [] then AliasRegistration(InvalidInput, reg)
    else
      var key := NormalizeAddonKey("namespace_" + namespace.value);
      var record := AddonToJs(Addon(key, name, "namespace", namespace, []));
      var done := Register(reg, record);
      AliasRegistration(AliasRegistered(done.ok, key, namespace.value, name), done.registry)
  }

  lemma AliasKeyChars(namespace: string)
    requires AllKeyChars(namespace)
    ensures AllKeyChars("namespace_" + namespace)
  {
    var k := "namespace_" + namespace;
    forall i | 0 <= i < |k| ensures KeyChar(k[i]) {
      if i >= 10 {
        assert k[i] == namespace[i - 10];
      }
    }
  }

  /** An alias descriptor is in persisted form. */
  lemma AliasNormalized(namespace: string, name: string)
    requires |namespace| > 0 && AllKeyChars(namespace)
    requires name != [] && Trim(name) == name
    ensures NormalizedAddon(AliasAddon(namespace, name))
  {
    AliasKeyChars(namespace);
    KeyTextIsFixed(namespace);
    TrimOfUnspaced("namespace");
    assert !IsBlank(name);
    NormalizedFromParts(AliasAddon(namespace, name));
  }

  /**
   * A valid alias is always accepted: the key is `namespace_` and the
   * namespace, and the registry is the one registering the alias
   * descriptor gives.
   */
  lemma AliasAccepted(reg: Registry, namespaceInput: Js, displayName: Js)
    requires Consistent(reg)
    requires NormalizeNamespaceInput(namespaceInput).Some? && AliasName(displayName) != []
    ensures var ns := NormalizeNamespaceInput(namespaceInput).value;
      var name := AliasName(displayName);
      var r := RegisterNamespaceAlias(reg, namespaceInput, displayName);
      && r.outcome == AliasRegistered(true, "namespace_" + ns, ns, name)
      && NormalizeAddonDefinition(AddonToJs(AliasAddon(ns, name))) == Some(AliasAddon(ns, name))
      && r.registry == Register(reg, AddonToJs(AliasAddon(ns, name))).registry
  {
    var ns := NormalizeNamespaceInput(namespaceInput).value;
    var name := AliasName(displayName);
    AliasKeyChars(ns);
    KeyTextIsFixed("namespace_" + ns);
    AliasNormalized(ns, name);
    NormalizeAddonRoundTrip(AliasAddon(ns, name));
  }

  /**
   * An alias for a key the registry did not have yet is found by its
   * namespace: it is the last descriptor of the merged view.
   */
  lemma AliasFoundByNamespace(reg: Registry, namespaceInput: Js, displayName: Js)
    requires Consistent(reg)
    requires NormalizeNamespaceInput(namespaceInput).Some? && AliasName(displayName) != []
    requires !Has(MergedByKey(reg), "namespace_" + NormalizeNamespaceInput(namespaceInput).value)
    ensures var r := RegisterNamespaceAlias(reg, namespaceInput, displayName);
      GetAddonByNamespace(r.registry, namespaceInput)
        == Some(AliasAddon(NormalizeNamespaceInput(namespaceInput).value, AliasName(displayName)))
  {
    var ns := NormalizeNamespaceInput(namespaceInput).value;
    var a := AliasAddon(ns, AliasName(displayName));
    AliasAccepted(reg, namespaceInput, displayName);
    var res := RegisterNamespaceAlias(reg, namespaceInput, displayName).registry;
    var m := MergedByKey(reg);
    var m' := FreshKeyAppended(reg, a, res);
    NormalizeNamespaceInputIdempotent(namespaceInput);
    assert IndexedNamespace(a) == NormalizeNamespaceInput(namespaceInput);
    FindByNamespaceLastOwner(m', namespaceInput, |m|);
  }

  /** Storing a descriptor under a key nothing had appends it to the end of the merged view. */
  lemma FreshKeyAppended(reg: Registry, a: Addon, res: Registry) returns (m': Entries<string, Addon>)
    requires Consistent(reg) && NormalizedAddon(a) && !Has(MergedByKey(reg), a.key)
    requires res == Registry(reg.defaults, StoreDynamic(reg.dynamicByKey, a))
    ensures Consistent(res) && m' == MergedByKey(res) && m' == MergedByKey(reg) + [(a.key, a)]
  {
    var d := reg.dynamicByKey;
    var d' := res.dynamicByKey;
    assert d' == d + [(a.key, a)];
    assert d'[..|d'| - 1] == d;
    m' := MergedByKey(res);
  }
}
