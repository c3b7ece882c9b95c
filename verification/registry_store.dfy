/**
 * The run-time descriptors' trip through the world's stored record:
 * reading the record back at start-up, writing it after a change, and the
 * registry as first built. Parsing and serialising the record's JSON text
 * are parameters.
 */
module RegistryStore {
  import opened Wrappers
  import opened Text
  import opened JsValue
  import opened OrderedMaps
  import opened Lists
  import opened Namespaces
  import opened AddonRegistry
  import opened RegistryOps

  /** The name of the world's stored record. */
  const RegistryProperty := "insight:namespace_registry"

  /** Each item that normalises, merged into the entry for its key, in order. */
  function LoadItems(m: Entries<string, Addon>, items: seq<Js>): (r: Entries<string, Addon>)
    requires MergedView(m)
    ensures MergedView(r)
    ensures forall k :: Has(m, k) ==> Has(r, k)
    decreases |items|
  {
    if items == [] then m
    else
      LoadItems(LoadOne(m, items[0]), items[1..])
  }

  /** One stored item: merged into the entry for its key when it normalises, else skipped. */
  function LoadOne(m: Entries<string, Addon>, v: Js): (r: Entries<string, Addon>)
    requires MergedView(m)
    ensures MergedView(r)
    ensures forall k :: Has(m, k) ==> Has(r, k)
    ensures NormalizeAddonDefinition(v).None? ==> r == m
  {
    var n := NormalizeAddonDefinition(v);
    if n.None? then m
    else
      NormalizedOutput(v);
      StoreDynamic(m, n.value)
  }

  /**
   * `loadDynamicRegistryFromWorld`: nothing for a stored value that is not
   * text, is blank, does not parse or is not an array; else its items
   * loaded in order.
   */
  function LoadDynamic(stored: Js, parse: string -> Option<Js>): (r: Entries<string, Addon>)
    ensures MergedView(r)
    ensures !stored.Str? || IsBlank(stored.s) ==> r == []
  {
    if !stored.Str? || IsBlank(stored.s) then []
    else
      match parse(stored.s)
      case None => []
      case Some(parsed) => if parsed.Arr? then LoadItems([], parsed.items) else []
  }

  function PersistedItems(m: Entries<string, Addon>): (r: seq<Js>)
    ensures |r| == |m| && forall i :: 0 <= i < |m| ==> r[i] == AddonToJs(m[i].1)
  {
    seq(|m|, i requires 0 <= i < |m| => AddonToJs(m[i].1))
  }

  /** `persistDynamicRegistryToWorld`: the run-time descriptors as records, in order. */
  function PersistDynamic(m: Entries<string, Addon>): (r: Js)
    ensures r.Arr? && |r.items| == |m|
  {
    Arr(PersistedItems(m))
  }

  /** `ensureRegistryInitialized`: the default library and the descriptors read back from the world. */
  function Init(entries: seq<Js>, stored: Js, parse: string -> Option<Js>): (r: Registry)
    ensures Consistent(r)
    ensures r.defaults == DefaultLibrary(entries)
  {
    Registry(DefaultLibrary(entries), LoadDynamic(stored, parse))
  }

  lemma PrefixView(m: Entries<string, Addon>, i: nat)
    requires MergedView(m) && i <= |m|
    ensures MergedView(m[..i])
  {
    var p := m[..i];
    assert Keys(p) == Keys(m)[..i];
    assert forall k :: 0 <= k < |p| ==> p[k] == m[k];
    forall k | Has(p, k) ensures Has(m, k) { }
    assert AllNormalized(p) by {
      forall k | Has(p, k) ensures NormalizedAddon(Get(p, k).value) {
        var j := IndexOfKey(p, k);
        UniqueIndex(p, j, k);
        UniqueIndex(m, j, k);
        GetAllValues(m, k, NormalizedAddon);
      }
    }
  }

  /** The next persisted record adds its descriptor at the end of what was read so far. */
  lemma LoadNext(m: Entries<string, Addon>, i: nat)
    requires MergedView(m) && i < |m|
    ensures MergedView(m[..i])
    ensures LoadOne(m[..i], AddonToJs(m[i].1)) == m[..i + 1]
  {
    PrefixView(m, i);
    var a := m[i].1;
    StoredAt(m, i);
    FreshInPrefix(m, i);
    LoadFresh(m[..i], a);
    PrefixStep(m, i);
  }

  /** A persisted descriptor under a key not read yet is appended as it is. */
  lemma LoadFresh(p: Entries<string, Addon>, a: Addon)
    requires MergedView(p) && NormalizedAddon(a) && !Has(p, a.key)
    ensures LoadOne(p, AddonToJs(a)) == p + [(a.key, a)]
  {
    NormalizeAddonRoundTrip(a);
  }

  lemma StoredAt(m: Entries<string, Addon>, i: nat)
    requires MergedView(m) && i < |m|
    ensures m[i].1.key == m[i].0 && NormalizedAddon(m[i].1)
  {
    GetSelfKeyed(m, m[i].0);
    UniqueIndex(m, i, m[i].0);
    GetAllValues(m, m[i].0, NormalizedAddon);
  }

  lemma FreshInPrefix(m: Entries<string, Addon>, i: nat)
    requires Valid(m) && i < |m|
    ensures !Has(m[..i], m[i].0)
  {
    forall j | 0 <= j < i ensures m[..i][j].0 != m[i].0 {
      assert Keys(m)[j] != Keys(m)[i];
    }
  }

  /** Reading back the records written from any prefix onwards finishes the descriptors. */
  lemma {:induction false} LoadSuffix(m: Entries<string, Addon>, i: nat)
    requires MergedView(m) && i <= |m|
    ensures MergedView(m[..i])
    ensures LoadItems(m[..i], PersistedItems(m)[i..]) == m
    decreases |m| - i
  {
    PrefixView(m, i);
    if i == |m| {
      assert m[..i] == m;
    } else {
      LoadNext(m, i);
      var items := PersistedItems(m)[i..];
      assert items[1..] == PersistedItems(m)[i + 1..];
      LoadSuffix(m, i + 1);
    }
  }

  /** Writing the run-time descriptors and reading them back gives them again, in order. */
  lemma PersistRoundTrip(m: Entries<string, Addon>, text: string, parse: string -> Option<Js>)
    requires MergedView(m)
    requires !IsBlank(text) && parse(text) == Some(PersistDynamic(m))
    ensures LoadDynamic(Str(text), parse) == m
  {
    LoadSuffix(m, 0);
    assert m[..0] == [];
  }

  /**
   * A registry rebuilt from the same library and from the record written
   * after a change is the registry the change produced.
   */
  lemma ReloadKeepsRegistry(entries: seq<Js>, reg: Registry, text: string, parse: string -> Option<Js>)
    requires Consistent(reg) && reg.defaults == DefaultLibrary(entries)
    requires !IsBlank(text) && parse(text) == Some(PersistDynamic(reg.dynamicByKey))
    ensures Init(entries, Str(text), parse) == reg
  {
    PersistRoundTrip(reg.dynamicByKey, text, parse);
  }
}
