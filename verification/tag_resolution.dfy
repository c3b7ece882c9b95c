/**
 * Block tags in the add-on registry: reading the `insight:` override tags,
 * the display order of a block's tags, and the resolution of the add-on
 * and namespace label a block is shown under.
 */
module TagResolution {
  import opened Wrappers
  import opened Text
  import opened JsValue
  import opened Formatters
  import opened Lists
  import opened Sorting
  import opened Namespaces
  import opened AddonRegistry
  import opened RegistryOps

  const AddonKeyPrefix := "insight:addon."
  const NamespaceOverridePrefix := "insight:namespace."
  const AliasOverridePrefix := "insight:alias."

  /** Tags are listed first by the first of these prefixes they start with, then the others. */
  const PrioritizedTagPrefixes: seq<string> := ["insight:", "dorios:", "utilitycraft:", "minecraft:"]

  // ---------------------------------------------------------------------------
  // Override tags
  // ---------------------------------------------------------------------------

  /** A text tag that starts with the prefix and carries something after it. */
  predicate TagMatches(tag: Js, prefix: string)
  {
    tag.Str? && StartsWith(tag.s, prefix) && |tag.s| > |prefix|
  }

  /** `extractTagPayload`: the text after the prefix of the first matching tag. */
  function ExtractTagPayload(tags: seq<Js>, prefix: string): (r: Option<string>)
    ensures r.None? <==> forall i :: 0 <= i < |tags| ==> !TagMatches(tags[i], prefix)
    ensures r.Some? ==> |r.value| > 0
  {
    if tags == [] then None
    else if TagMatches(tags[0], prefix) then Some(tags[0].s[|prefix|..])
    else
      var r := ExtractTagPayload(tags[1..], prefix);
      assert r.None? ==> forall i :: 0 <= i < |tags| ==> !TagMatches(tags[i], prefix) by {
        if r.None? {
          forall i | 0 < i < |tags| ensures !TagMatches(tags[i], prefix) {
            assert tags[i] == tags[1..][i - 1];
          }
        }
      }
      r
  }

  /** The payload comes from the first matching tag, whatever follows it. */
  lemma {:induction false} ExtractFirstMatch(tags: seq<Js>, prefix: string, i: nat)
    requires i < |tags| && TagMatches(tags[i], prefix)
    requires forall j :: 0 <= j < i ==> !TagMatches(tags[j], prefix)
    ensures ExtractTagPayload(tags, prefix) == Some(tags[i].s[|prefix|..])
    ensures tags[i].s == prefix + tags[i].s[|prefix|..]
  {
    if i > 0 {
      var tail := tags[1..];
      forall j | 0 <= j < i - 1 ensures !TagMatches(tail[j], prefix) {
        assert tail[j] == tags[j + 1];
      }
      ExtractFirstMatch(tail, prefix, i - 1);
    }
  }

  /** A tag written as the prefix and a non-empty payload gives that payload back. */
  lemma ExtractWritten(prefix: string, payload: string, rest: seq<Js>)
    requires payload != []
    ensures ExtractTagPayload([Str(prefix + payload)] + rest, prefix) == Some(payload)
  {
    var tags := [Str(prefix + payload)] + rest;
    assert (prefix + payload)[..|prefix|] == prefix;
    ExtractFirstMatch(tags, prefix, 0);
  }

  // ---------------------------------------------------------------------------
  // Display order of block tags
  // ---------------------------------------------------------------------------

  function PriorityFrom(tag: string, k: nat): (r: nat)
    requires k <= |PrioritizedTagPrefixes|
    ensures k <= r <= |PrioritizedTagPrefixes|
    ensures r < |PrioritizedTagPrefixes| ==> StartsWith(tag, PrioritizedTagPrefixes[r])
    ensures forall j :: k <= j < r ==> !StartsWith(tag, PrioritizedTagPrefixes[j])
    decreases |PrioritizedTagPrefixes| - k
  {
    if k == |PrioritizedTagPrefixes| then k
    else if StartsWith(tag, PrioritizedTagPrefixes[k]) then k
    else PriorityFrom(tag, k + 1)
  }

  /**
   * `getTagPriority`: the index of the first prioritised prefix the tag
   * starts with, or the number of prefixes when it starts with none.
   */
  function GetTagPriority(tag: string): (r: nat)
    ensures r <= |PrioritizedTagPrefixes|
    ensures r < |PrioritizedTagPrefixes| ==> StartsWith(tag, PrioritizedTagPrefixes[r])
    ensures forall j :: 0 <= j < r ==> !StartsWith(tag, PrioritizedTagPrefixes[j])
  {
    PriorityFrom(tag, 0)
  }

  /** The comparator of `sortBlockTagsForDisplay`: by priority, then by the text order. */
  function TagOrder(less: (string, string) -> bool): (string, string) -> bool
  {
    (a: string, b: string) =>
      GetTagPriority(a) < GetTagPriority(b) || (GetTagPriority(a) == GetTagPriority(b) && (a == b || less(a, b)))
  }

  lemma TagOrderTotal(less: (string, string) -> bool)
    requires StrictTotalOrder(less)
    ensures TotalPreorder(TagOrder(less))
  {
  }

  /** A tag shown on the display: a non-empty text. */
  function DisplayTag(tag: Js): (r: Option<string>)
    ensures r.Some? <==> tag.Str? && tag.s != []
  {
    if tag.Str? && tag.s != [] then Some(tag.s) else None
  }

  /**
   * `sortBlockTagsForDisplay`: the non-empty text tags without repeats,
   * ordered by prefix priority and then by the text order.
   */
  function SortBlockTagsForDisplay(tags: seq<Js>, less: (string, string) -> bool): (r: seq<string>)
    ensures NoDuplicates(r)
    ensures forall t :: t in r <==> t != [] && Str(t) in tags
  {
    var kept := Collect(tags, DisplayTag);
    var distinct := Dedupe(kept);
    InsertionSortDistinct(distinct, TagOrder(less));
    var r := InsertionSort(distinct, TagOrder(less));
    assert forall t :: t in r <==> t != [] && Str(t) in tags by {
      forall t ensures t in r <==> t != [] && Str(t) in tags {
        CollectMembers(tags, DisplayTag, t);
        if t in r {
          var i :| 0 <= i < |tags| && DisplayTag(tags[i]) == Some(t);
        }
        if t != [] && Str(t) in tags {
          var i :| 0 <= i < |tags| && tags[i] == Str(t);
          assert DisplayTag(tags[i]) == Some(t);
        }
      }
    }
    r
  }

  /**
   * The sorted tags run by priority, and within one priority by the text
   * order.
   */
  lemma SortBlockTagsOrdered(tags: seq<Js>, less: (string, string) -> bool)
    requires StrictTotalOrder(less)
    ensures var r := SortBlockTagsForDisplay(tags, less);
      forall i, j :: 0 <= i < j < |r| ==>
        GetTagPriority(r[i]) < GetTagPriority(r[j]) || (GetTagPriority(r[i]) == GetTagPriority(r[j]) && less(r[i], r[j]))
  {
    var r := SortBlockTagsForDisplay(tags, less);
    var distinct := Dedupe(Collect(tags, DisplayTag));
    TagOrderTotal(less);
    InsertionSortSorted(distinct, TagOrder(less));
    forall i, j | 0 <= i < j < |r|
      ensures GetTagPriority(r[i]) < GetTagPriority(r[j]) || (GetTagPriority(r[i]) == GetTagPriority(r[j]) && less(r[i], r[j]))
    {
      assert TagOrder(less)(r[i], r[j]);
      assert r[i] != r[j];
    }
  }

  // ---------------------------------------------------------------------------
  // Resolution
  // ---------------------------------------------------------------------------

  /** Where the label a block is shown under came from. */
  datatype Source = Default | TagNamespace | TagAddon | RegistryContent | RegistryNamespace | TagAlias

  /** The `source` text of each origin. */
  function SourceName(s: Source): string
  {
    match s
    case Default => "default"
    case TagNamespace => "tag:namespace"
    case TagAddon => "tag:addon"
    case RegistryContent => "registry:content"
    case RegistryNamespace => "registry:namespace"
    case TagAlias => "tag:alias"
  }

  datatype Resolution = Resolution(
    addonKey: Option<string>,
    addonName: Option<string>,
    addonType: Option<string>,
    source: Source,
    injected: bool,
    originalNamespace: string,
    resolvedNamespace: string,
    displayNamespace: string)

  /** The built-in label of the three known namespaces, else the namespace's words title-cased. */
  function DefaultNamespaceLabel(namespace: string): string
  {
    if namespace == "minecraft" then "Minecraft"
    else if namespace == "dorios" then "Dorios"
    else if namespace == "utilitycraft" then "UtilityCraft"
    else ToTitleWords(Split(namespace, '_'))
  }

  /** The label of a namespace override: colons and dots read as word breaks. */
  function OverrideLabel(namespace: string): string
  {
    ToTitleWords(Split(ReplaceChars(namespace, {':', '.'}, '_'), '_'))
  }

  /** A non-empty text, or nothing: the truthiness test the resolution applies to each decoded tag. */
  function Truthy(s: string): (r: Option<string>)
    ensures r.Some? <==> s != []
    ensures r.Some? ==> r.value == s
  {
    if s == [] then None else Some(s)
  }

  /** The add-on key an `insight:addon.` tag names, normalised. */
  function AddonKeyFromTag(tags: seq<Js>): Option<string>
  {
    match ExtractTagPayload(tags, AddonKeyPrefix)
    case None => None
    case Some(p) => Truthy(NormalizeAddonKey(p))
  }

  /** The namespace an `insight:namespace.` tag gives, decoded. */
  function NamespaceOverride(tags: seq<Js>): Option<string>
  {
    match ExtractTagPayload(tags, NamespaceOverridePrefix)
    case None => None
    case Some(p) => Truthy(DecodeNamespacePayload(p))
  }

  /** The label an `insight:alias.` tag gives, decoded. */
  function AliasOverride(tags: seq<Js>): Option<string>
  {
    match ExtractTagPayload(tags, AliasOverridePrefix)
    case None => None
    case Some(p) => Truthy(DecodeTagPayload(p))
  }

  function AddonFromTag(reg: Registry, tags: seq<Js>): Option<Addon>
    requires Consistent(reg)
  {
    match AddonKeyFromTag(tags)
    case None => None
    case Some(key) => GetAddonByKey(reg, key)
  }

  /** The namespace the last lookup uses: the override when there is one, else the id's own. */
  function LookupNamespace(typeId: string, tags: seq<Js>): string
  {
    match NamespaceOverride(tags)
    case Some(ns) => ns
    case None => SplitTypeId(typeId).namespace
  }

  /** The add-on the block maps to and which lookup found it: the tag's key, else the id, else the namespace. */
  function MappedAddon(reg: Registry, typeId: string, tags: seq<Js>): (r: Option<(Addon, Source)>)
    requires Consistent(reg)
    ensures r.Some? ==> r.value.1 in {TagAddon, RegistryContent, RegistryNamespace}
  {
    var fromTag := AddonFromTag(reg, tags);
    var fromTypeId := GetAddonByTypeId(reg, typeId);
    var fromNamespace := GetAddonByNamespace(reg, Str(LookupNamespace(typeId, tags)));
    if fromTag.Some? then Some((fromTag.value, TagAddon))
    else if fromTypeId.Some? then Some((fromTypeId.value, RegistryContent))
    else if fromNamespace.Some? then Some((fromNamespace.value, RegistryNamespace))
    else None
  }

  /**
   * `resolveInjectedNamespace`: start from the id's namespace and its
   * label; a namespace tag replaces both; a mapped add-on replaces the
   * label by its name and the namespace by its own when it has one; an
   * alias tag replaces the label last.
   */
  function ResolveInjectedNamespace(reg: Registry, typeId: string, tags: seq<Js>): (r: Resolution)
    requires Consistent(reg)
    ensures r.injected <==> r.source != Default
    ensures r.originalNamespace == SplitTypeId(typeId).namespace
    ensures AliasOverride(tags).Some? ==> r.source == TagAlias && r.displayNamespace == AliasOverride(tags).value
    ensures AliasOverride(tags).None? ==> match MappedAddon(reg, typeId, tags)
      case Some((a, how)) => r.source == how && r.displayNamespace == a.name
      case None => match NamespaceOverride(tags)
        case Some(ns) => r.source == TagNamespace && r.displayNamespace == OverrideLabel(ns)
        case None => r.source == Default && r.displayNamespace == DefaultNamespaceLabel(r.originalNamespace)
    ensures match MappedAddon(reg, typeId, tags)
      case Some((a, _)) =>
        && r.addonKey == Some(a.key) && r.addonName == Some(a.name) && r.addonType == Some(a.kind)
        && r.resolvedNamespace == (if a.namespace.Some? && a.namespace.value != [] then a.namespace.value else LookupNamespace(typeId, tags))
      case None =>
        r.addonKey.None? && r.addonName.None? && r.addonType.None? && r.resolvedNamespace == LookupNamespace(typeId, tags)
  {
    var namespace := SplitTypeId(typeId).namespace;
    var override := NamespaceOverride(tags);
    var alias := AliasOverride(tags);
    var mapped := MappedAddon(reg, typeId, tags);
    // The default, then the namespace tag.
    var source0 := if override.Some? then TagNamespace else Default;
    var resolved0 := if override.Some? then override.value else namespace;
    var display0 := if override.Some? then OverrideLabel(override.value) else DefaultNamespaceLabel(namespace);
    // The mapped add-on.
    var source1 := if mapped.Some? then mapped.value.1 else source0;
    var resolved1 := if mapped.Some? && mapped.value.0.namespace.Some? && mapped.value.0.namespace.value != []
      then mapped.value.0.namespace.value else resolved0;
    var display1 := if mapped.Some? then mapped.value.0.name else display0;
    // The alias tag.
    var source := if alias.Some? then TagAlias else source1;
    var display := if alias.Some? then alias.value else display1;
    Resolution(
      if mapped.Some? then Some(mapped.value.0.key) else None,
      if mapped.Some? then Some(mapped.value.0.name) else None,
      if mapped.Some? then Some(mapped.value.0.kind) else None,
      source, source != Default, namespace, resolved1, display)
  }

  /** A block without tags that no lookup maps is shown under its own namespace's label, not injected. */
  lemma UntaggedDefault(reg: Registry, typeId: string)
    requires Consistent(reg)
    requires GetAddonByTypeId(reg, typeId).None?
    requires GetAddonByNamespace(reg, Str(SplitTypeId(typeId).namespace)).None?
    ensures var r := ResolveInjectedNamespace(reg, typeId, []);
      var ns := SplitTypeId(typeId).namespace;
      r == Resolution(None, None, None, Default, false, ns, ns, DefaultNamespaceLabel(ns))
  {
  }

  /** An add-on named by a tag beats the content and namespace lookups. */
  lemma TagAddonWins(reg: Registry, typeId: string, tags: seq<Js>)
    requires Consistent(reg) && AddonFromTag(reg, tags).Some?
    ensures var r := ResolveInjectedNamespace(reg, typeId, tags);
      var a := AddonFromTag(reg, tags).value;
      r.addonKey == Some(a.key) && r.source in {TagAddon, TagAlias} && r.injected
  {
  }

  /** Without an add-on tag, the content lookup beats the namespace lookup. */
  lemma ContentBeatsNamespace(reg: Registry, typeId: string, tags: seq<Js>)
    requires Consistent(reg) && AddonFromTag(reg, tags).None? && GetAddonByTypeId(reg, typeId).Some?
    ensures var r := ResolveInjectedNamespace(reg, typeId, tags);
      r.addonKey == Some(GetAddonByTypeId(reg, typeId).value.key) && r.source in {RegistryContent, TagAlias}
  {
  }

  /** The alias tag decides the label whatever else the block maps to. */
  lemma AliasDecidesLabel(reg: Registry, typeId: string, tags: seq<Js>, text: string)
    requires Consistent(reg)
    requires text != [] && Encodable(text)
    ensures var r := ResolveInjectedNamespace(reg, typeId, [Str(AliasOverridePrefix + EncodeTagPayload(text))] + tags);
      r.displayNamespace == text && r.source == TagAlias && r.injected
  {
    var e := EncodeTagPayload(text);
    ExtractWritten(AliasOverridePrefix, e, tags);
    DecodeEncodedTagPayload(text);
  }

  /** A block whose id a registered descriptor lists, untagged, is shown under that add-on. */
  lemma ResolveRegisteredContent(reg: Registry, v: Js, typeId: string)
    requires Consistent(reg)
    requires NormalizeAddonDefinition(v).Some? && typeId in NormalizeAddonDefinition(v).value.content
    ensures var after := Register(reg, v).registry;
      var r := ResolveInjectedNamespace(after, typeId, []);
      r.source == RegistryContent && r.injected && r.addonKey.Some?
  {
    RegisteredContentFound(reg, v, typeId);
  }
}
