/**
 * Text helpers shared by every display line: title-casing of identifier
 * words, splitting of `namespace:id` type ids, namespace labels and the
 * removal of a namespace repeated as the id's own prefix.
 */
module Formatters {
  import opened Text
  import opened JsValue

  /** Every part with its first character upper-cased. */
  function CapitalizeAll(parts: seq<string>): (r: seq<string>)
    ensures |r| == |parts|
    ensures forall k :: 0 <= k < |parts| ==> r[k] == Capitalize(parts[k])
  {
    seq(|parts|, k requires 0 <= k < |parts| => Capitalize(parts[k]))
  }

  /**
   * `toTitleWords`: "Unknown" for an empty list; otherwise the non-empty
   * parts, each capitalised, joined by single spaces.
   */
  function ToTitleWords(parts: seq<string>): (r: string)
    ensures parts == [] ==> r == "Unknown"
    ensures parts != [] && (forall k :: 0 <= k < |parts| ==> parts[k] == []) ==> r == []
  {
    if parts == [] then "Unknown"
    else
      var kept := NonEmpty(parts);
      assert (forall k :: 0 <= k < |parts| ==> parts[k] == []) ==> kept == [] by {
        if kept != [] {
          assert kept[0] in parts;
        }
      }
      Join(CapitalizeAll(kept), " ")
  }

  lemma CapitalizeKeeps(p: string, c: char)
    requires !IsLowerAscii(c) && !IsUpperAscii(c)
    ensures c in Capitalize(p) <==> c in p
  {
    if p != [] {
      assert Capitalize(p) == [UpperChar(p[0])] + p[1..];
      assert p == [p[0]] + p[1..];
    }
  }

  /**
   * The words of a title are recoverable: splitting the result on spaces
   * gives the capitalised non-empty parts, provided no part holds a space.
   */
  lemma TitleWordsSplit(parts: seq<string>)
    requires parts != []
    requires forall k :: 0 <= k < |parts| ==> ' ' !in parts[k]
    requires NonEmpty(parts) != []
    ensures Split(ToTitleWords(parts), ' ') == CapitalizeAll(NonEmpty(parts))
  {
    var caps := CapitalizeAll(NonEmpty(parts));
    forall k | 0 <= k < |caps|
      ensures ' ' !in caps[k]
    {
      var p := NonEmpty(parts)[k];
      assert p in parts;
      CapitalizeKeeps(p, ' ');
    }
    SplitJoin(caps, ' ');
  }

  /** A `namespace:id` pair. */
  datatype TypeId = TypeId(namespace: string, id: string)

  /**
   * `splitTypeId`: ids without a colon belong to "minecraft" (an empty id
   * becomes "unknown"); otherwise the namespace is the text before the
   * first colon and the id the text up to the second colon.
   */
  function SplitTypeId(typeId: string): (r: TypeId)
    ensures ':' !in typeId ==> r == TypeId("minecraft", if typeId == [] then "unknown" else typeId)
    ensures ':' in typeId ==> ':' !in r.namespace && ':' !in r.id
    ensures ':' in typeId ==> (|r.namespace| + 1 + |r.id| <= |typeId| && typeId[..|r.namespace|] == r.namespace
      && typeId[|r.namespace|] == ':' && typeId[|r.namespace| + 1..|r.namespace| + 1 + |r.id|] == r.id)
    ensures ':' in typeId ==> |typeId| == |r.namespace| + 1 + |r.id| || typeId[|r.namespace| + 1 + |r.id|] == ':'
  {
    if ':' !in typeId then TypeId("minecraft", if typeId == [] then "unknown" else typeId)
    else
      var parts := Split(typeId, ':');
      SecondFieldShape(typeId);
      TypeId(parts[0], parts[1])
  }

  lemma SecondFieldShape(typeId: string)
    requires ':' in typeId
    ensures |Split(typeId, ':')| >= 2
    ensures var ns := Split(typeId, ':')[0]; var id := Split(typeId, ':')[1];
      |ns| + 1 + |id| <= |typeId| && typeId[..|ns|] == ns && typeId[|ns|] == ':'
      && typeId[|ns| + 1..|ns| + 1 + |id|] == id
      && (|typeId| == |ns| + 1 + |id| || typeId[|ns| + 1 + |id|] == ':')
  {
    var i := IndexOf(typeId, ':');
    SecondFieldAt(typeId, ':');
    FieldsAroundColon(typeId, i, Split(typeId, ':')[0], Split(typeId, ':')[1]);
  }

  /** The first part is the text before the first `c`; the second runs from just after it up to the next `c` or the end. */
  lemma SecondFieldAt(t: string, c: char)
    requires c in t
    ensures |Split(t, c)| >= 2
    ensures Split(t, c)[0] == t[..IndexOf(t, c)]
    ensures var i, id := IndexOf(t, c), Split(t, c)[1];
      i + 1 + |id| <= |t| && id == t[i + 1..i + 1 + |id|] && (i + 1 + |id| == |t| || t[i + 1 + |id|] == c)
  {
    SplitUnfold(t, c);
    var parts := Split(t, c);
    assert parts[1] == parts[1..][0];
    FieldAfter(t, IndexOf(t, c), c);
  }

  /** A field before the colon at `i` and a field after it, as slices of the text. */
  lemma FieldsAroundColon(t: string, i: nat, ns: string, id: string)
    requires i < |t| && t[i] == ':' && ns == t[..i]
    requires i + 1 + |id| <= |t| && id == t[i + 1..i + 1 + |id|] && (i + 1 + |id| == |t| || t[i + 1 + |id|] == ':')
    ensures |ns| + 1 + |id| <= |t| && t[..|ns|] == ns && t[|ns|] == ':'
      && t[|ns| + 1..|ns| + 1 + |id|] == id
      && (|t| == |ns| + 1 + |id| || t[|ns| + 1 + |id|] == ':')
  {
  }

  /** The field after position `i` runs up to the next `c` or the end. */
  lemma FieldAfter(t: string, i: nat, c: char)
    requires i < |t|
    ensures var id := Split(t[i + 1..], c)[0];
      i + 1 + |id| <= |t| && id == t[i + 1..i + 1 + |id|] && (i + 1 + |id| == |t| || t[i + 1 + |id|] == c)
  {
    var rest := t[i + 1..];
    FirstField(rest, c);
    var id := Split(rest, c)[0];
    assert rest[..|id|] == t[i + 1..i + 1 + |id|];
    if |id| < |rest| {
      assert rest[|id|] == t[i + 1 + |id|];
    }
  }

  /** The first field of a text runs up to its first `c` or the end. */
  lemma FirstField(s: string, c: char)
    ensures var id := Split(s, c)[0];
      |id| <= |s| && id == s[..|id|] && (|id| == |s| || s[|id|] == c)
  {
    if c in s {
      SplitUnfold(s, c);
    }
  }

  /** A namespace and an id free of colons are recovered from `namespace:id`. */
  lemma SplitTypeIdRoundTrip(namespace: string, id: string)
    requires ':' !in namespace && ':' !in id
    ensures SplitTypeId(namespace + ":" + id) == TypeId(namespace, id)
  {
    var t := namespace + ":" + id;
    IndexOfAfter(namespace, ':', id);
    assert t[..|namespace|] == namespace;
    assert t[|namespace| + 1..] == id;
  }

  /** The colour-coded `@Namespace` line: title-cased underscore words. */
  function FormatNamespace(namespace: string, colorCode: string): (r: string)
    ensures StartsWith(r, "\n" + colorCode + "@")
    ensures |r| >= 2 && r[|r| - 2..] == "\U{00A7}r"
  {
    "\n" + colorCode + "@" + ToTitleWords(Split(namespace, '_')) + "\U{00A7}r"
  }

  /**
   * The text between `@` and the reset code splits on spaces into the
   * namespace's capitalised non-empty underscore words.
   */
  lemma FormatNamespaceWords(namespace: string, colorCode: string)
    requires ' ' !in namespace
    requires NonEmpty(Split(namespace, '_')) != []
    ensures var r := FormatNamespace(namespace, colorCode); var head := "\n" + colorCode + "@";
      |head| + 2 <= |r| && Split(r[|head|..|r| - 2], ' ') == CapitalizeAll(NonEmpty(Split(namespace, '_')))
  {
    var parts := Split(namespace, '_');
    forall k | 0 <= k < |parts|
      ensures ' ' !in parts[k]
    {
      assert parts[k] in parts;
      SplitPartsWithin(namespace, '_', parts[k]);
    }
    TitleWordsSplit(parts);
    var head := "\n" + colorCode + "@";
    var title := ToTitleWords(parts);
    var r := head + title + "\U{00A7}r";
    assert r == FormatNamespace(namespace, colorCode);
    assert r[|head|..|r| - 2] == title;
  }

  /** `formatNamespaceLabel`: a given label verbatim, "Unknown" for an empty one. */
  function FormatNamespaceLabel(name: string, colorCode: string): (r: string)
    ensures name == [] ==> r == "\n" + colorCode + "@" + "Unknown" + "\U{00A7}r"
    ensures name != [] ==> r == "\n" + colorCode + "@" + name + "\U{00A7}r"
  {
    if name == [] then
      UnknownTitle();
      FormatNamespace("unknown", colorCode)
    else "\n" + colorCode + "@" + name + "\U{00A7}r"
  }

  /** The fallback namespace "unknown" title-cases to "Unknown". */
  lemma UnknownTitle()
    ensures ToTitleWords(Split("unknown", '_')) == "Unknown"
  {
    SingleWordTitle("unknown");
    assert Capitalize("unknown") == "Unknown" by {
      assert UpperChar('u') == 'U';
    }
  }

  /** A single word without underscores titles to itself, capitalised. */
  lemma SingleWordTitle(w: string)
    requires w != [] && '_' !in w
    ensures ToTitleWords(Split(w, '_')) == Capitalize(w)
  {
    assert Split(w, '_') == [w];
    assert NonEmpty([w]) == [w];
    assert CapitalizeAll([w]) == [Capitalize(w)];
  }

  /**
   * `formatStateName`: the state key's text after its first colon (up to a
   * second one), title-cased by underscore words.
   */
  function FormatStateName(stateKey: string): (r: string)
    ensures ':' !in stateKey ==> r == ToTitleWords(Split(stateKey, '_'))
    ensures ':' in stateKey ==> r == ToTitleWords(Split(SplitTypeId(stateKey).id, '_'))
  {
    var pureKey := if ':' in stateKey then Split(stateKey, ':')[1] else stateKey;
    ToTitleWords(Split(pureKey, '_'))
  }

  /** A namespaced state key names the same state as its bare key. */
  lemma FormatStateNameDropsNamespace(namespace: string, key: string)
    requires ':' !in namespace && ':' !in key
    ensures FormatStateName(namespace + ":" + key) == FormatStateName(key)
  {
    SplitTypeIdRoundTrip(namespace, key);
  }

  /** `toMessageText`: strings verbatim, booleans as words, anything else through `String`. */
  function ToMessageText(value: Js): (r: string)
    ensures value.Str? ==> r == value.s
    ensures value.Bool? ==> r == (if value.b then "true" else "false")
    ensures r == ToText(value)
  {
    match value
    case Str(s) => s
    case Bool(b) => if b then "true" else "false"
    case _ => ToText(value)
  }

  // ---------------------------------------------------------------------------
  // Repeated namespace prefixes
  // ---------------------------------------------------------------------------

  /** Lower-case letters and digits kept, every other character made `_`. */
  function UnderscoreNonAlnum(s: string): (r: string)
    ensures |r| == |s|
    ensures forall i :: 0 <= i < |s| ==> r[i] == (if IsLowerAscii(s[i]) || IsDigit(s[i]) then s[i] else '_')
  {
    seq(|s|, i requires 0 <= i < |s| => if IsLowerAscii(s[i]) || IsDigit(s[i]) then s[i] else '_')
  }

  predicate NoDoubleUnderscore(s: string)
  {
    forall i :: 0 <= i < |s| - 1 ==> !(s[i] == '_' && s[i + 1] == '_')
  }

  predicate IsUnderscore(c: char) { c == '_' }

  /** `s.replace(/_+/g, "_")`: every run of underscores becomes one. */
  function CollapseUnderscores(s: string): (r: string)
    ensures NoDoubleUnderscore(r)
    ensures s != [] ==> r != [] && r[0] == s[0] && r[|r| - 1] == s[|s| - 1]
    ensures forall c :: c in r ==> c in s
    decreases |s|
  {
    if |s| <= 1 then s
    else if s[0] == '_' && s[1] == '_' then CollapseUnderscores(s[1..])
    else
      var rest := CollapseUnderscores(s[1..]);
      var r := [s[0]] + rest;
      assert r[1..] == rest;
      assert NoDoubleUnderscore(r) by {
        forall i | 0 <= i < |r| - 1
          ensures !(r[i] == '_' && r[i + 1] == '_')
        {
          if i > 0 {
            assert r[i] == rest[i - 1] && r[i + 1] == rest[i];
          }
        }
      }
      r
  }

  /** Collapsing keeps every character other than the underscore, in order. */
  lemma {:induction false} CollapseKeepsContent(s: string)
    ensures Remove(CollapseUnderscores(s), IsUnderscore) == Remove(s, IsUnderscore)
    decreases |s|
  {
    if |s| > 1 {
      CollapseKeepsContent(s[1..]);
      if !(s[0] == '_' && s[1] == '_') {
        var rest := CollapseUnderscores(s[1..]);
        assert ([s[0]] + rest)[1..] == rest;
      }
    }
  }

  /** A text without runs of underscores is its own collapse. */
  lemma CollapseUnderscoresIdempotent(s: string)
    requires NoDoubleUnderscore(s)
    ensures CollapseUnderscores(s) == s
  {
    if |s| > 1 {
      CollapseUnderscoresIdempotent(s[1..]);
    }
  }

  /** `s.replace(/^_|_$/g, "")`: at most one underscore removed from each end. */
  function TrimOneUnderscore(s: string): (r: string)
    ensures NoDoubleUnderscore(s) ==> (r == [] || (r[0] != '_' && r[|r| - 1] != '_'))
    ensures forall c :: c in r ==> c in s
  {
    var front := if s != [] && s[0] == '_' then s[1..] else s;
    if front != [] && front[|front| - 1] == '_' then front[..|front| - 1] else front
  }

  /** The normalised namespace: lower-cased, non-alphanumerics made single underscores, ends trimmed. */
  function NamespaceSlug(namespace: string): (r: string)
    ensures forall c :: c in r ==> IsLowerAscii(c) || IsDigit(c) || c == '_'
    ensures r == [] || (r[0] != '_' && r[|r| - 1] != '_')
  {
    var mapped := UnderscoreNonAlnum(Lower(namespace));
    var collapsed := CollapseUnderscores(mapped);
    TrimOneUnderscore(collapsed)
  }

  /** The four prefixes checked, in order. */
  function PrefixCandidates(namespace: string): seq<string>
  {
    var slug := NamespaceSlug(namespace);
    [namespace + "_", namespace + ".", slug + "_", slug + "."]
  }

  /** The id starts with `candidate`, ignoring case, and is strictly longer. */
  predicate StripsPrefix(id: string, candidate: string)
  {
    StartsWith(Lower(id), Lower(candidate)) && |id| > |candidate|
  }

  /** The index of the first candidate that strips the id, or `|candidates|` when none does. */
  function FirstStripping(id: string, candidates: seq<string>): (k: nat)
    ensures k <= |candidates|
    ensures k < |candidates| ==> StripsPrefix(id, candidates[k])
    ensures forall j :: 0 <= j < k ==> !StripsPrefix(id, candidates[j])
  {
    if candidates == [] || StripsPrefix(id, candidates[0]) then 0
    else
      var k := FirstStripping(id, candidates[1..]);
      assert forall j :: 1 <= j < k + 1 ==> candidates[j] == candidates[1..][j - 1];
      k + 1
  }

  /** The id with the first stripping candidate removed, or unchanged. */
  function StripFirstCandidate(id: string, candidates: seq<string>): (r: string)
    ensures FirstStripping(id, candidates) < |candidates| ==> r == id[|candidates[FirstStripping(id, candidates)]|..]
    ensures FirstStripping(id, candidates) == |candidates| ==> r == id
    ensures |r| <= |id|
    ensures |r| < |id| ==> r == id[|id| - |r|..]
    ensures |r| == |id| ==> r == id
    ensures (forall k :: 0 <= k < |candidates| ==> !StripsPrefix(id, candidates[k])) ==> r == id
    ensures r != id ==> exists k :: (0 <= k < |candidates| && StripsPrefix(id, candidates[k]) && r == id[|candidates[k]|..]
      && forall j :: 0 <= j < k ==> !StripsPrefix(id, candidates[j]))
    ensures id != [] ==> r != []
  {
    var k := FirstStripping(id, candidates);
    if k == |candidates| then id
    else id[|candidates[k]|..]
  }

  /**
   * `removeRepeatedNamespacePrefix`: drops `ns_`, `ns.`, `slug_` or `slug.`
   * (first match, ignoring case) from the id when the id is strictly
   * longer than that prefix; otherwise the id is unchanged.
   */
  function RemoveRepeatedNamespacePrefix(id: string, namespace: string): (r: string)
    ensures id == [] || namespace == [] ==> r == id
    ensures id != [] && namespace != [] && FirstStripping(id, PrefixCandidates(namespace)) < 4 ==>
      r == id[|PrefixCandidates(namespace)[FirstStripping(id, PrefixCandidates(namespace))]|..]
    ensures (forall k :: 0 <= k < 4 ==> !StripsPrefix(id, PrefixCandidates(namespace)[k])) ==> r == id
    ensures r != id ==> exists k :: (0 <= k < 4 && StripsPrefix(id, PrefixCandidates(namespace)[k])
      && r == id[|PrefixCandidates(namespace)[k]|..])
    ensures id != [] ==> r != []
    ensures |r| <= |id|
    ensures |r| < |id| ==> r == id[|id| - |r|..]
    ensures |r| == |id| ==> r == id
  {
    if id == [] || namespace == [] then id
    else StripFirstCandidate(id, PrefixCandidates(namespace))
  }

  /** The id of a type id with its repeated namespace prefix removed. */
  function CleanedTypeId(typeId: string): (cleaned: string)
    ensures cleaned == RemoveRepeatedNamespacePrefix(SplitTypeId(typeId).id, SplitTypeId(typeId).namespace)
    ensures ' ' !in typeId ==> ' ' !in cleaned
  {
    var parts := SplitTypeId(typeId);
    var cleaned := RemoveRepeatedNamespacePrefix(parts.id, parts.namespace);
    CleanedIdUnspaced(typeId, parts, cleaned);
    cleaned
  }

  /** The words of an id: cut at every `.`, `:` and `_`. */
  function IdWords(cleaned: string): (words: seq<string>)
    ensures words != []
    ensures forall k :: 0 <= k < |words| ==> '_' !in words[k] && '.' !in words[k] && ':' !in words[k]
    ensures Join(words, "_") == ReplaceChars(cleaned, {'.', ':'}, '_')
    ensures ' ' !in cleaned ==> forall k :: 0 <= k < |words| ==> ' ' !in words[k]
  {
    var replaced := ReplaceChars(cleaned, {'.', ':'}, '_');
    CleanWords(cleaned);
    JoinSplit(replaced, '_');
    Split(replaced, '_')
  }

  /** The words of a type id's title: the cleaned id cut at every `.`, `:` and `_`. */
  function TypeIdWords(typeId: string): (words: seq<string>)
    ensures words != []
    ensures forall k :: 0 <= k < |words| ==> '_' !in words[k] && '.' !in words[k] && ':' !in words[k]
    ensures Join(words, "_") == ReplaceChars(CleanedTypeId(typeId), {'.', ':'}, '_')
    ensures ' ' !in typeId ==> forall k :: 0 <= k < |words| ==> ' ' !in words[k]
  {
    IdWords(CleanedTypeId(typeId))
  }

  /** `formatTypeIdToText`: the title of a type id, whose words never hold `_`, `.` or `:`. */
  function FormatTypeIdToText(typeId: string): (r: string)
    ensures '_' !in r && '.' !in r && ':' !in r
  {
    var words := TypeIdWords(typeId);
    var r := ToTitleWords(words);
    assert '_' !in r && '.' !in r && ':' !in r by {
      var kept := NonEmpty(words);
      var caps := CapitalizeAll(kept);
      forall k | 0 <= k < |caps|
        ensures '_' !in caps[k] && '.' !in caps[k] && ':' !in caps[k]
      {
        assert kept[k] in words;
        CapitalizeKeeps(kept[k], '_');
        CapitalizeKeeps(kept[k], '.');
        CapitalizeKeeps(kept[k], ':');
      }
      JoinAvoids(caps, " ", '_');
      JoinAvoids(caps, " ", '.');
      JoinAvoids(caps, " ", ':');
    }
    r
  }

  /**
   * The words of a type id's title are recoverable: splitting the title on
   * spaces gives the capitalised non-empty words of the cleaned id.
   */
  lemma FormatTypeIdWords(typeId: string)
    requires ' ' !in typeId
    requires NonEmpty(TypeIdWords(typeId)) != []
    ensures Split(FormatTypeIdToText(typeId), ' ') == CapitalizeAll(NonEmpty(TypeIdWords(typeId)))
  {
    TitleWordsSplit(TypeIdWords(typeId));
  }

  /** The words of a cleaned id hold no `.` or `:`, and no space unless the id does. */
  lemma CleanWords(cleaned: string)
    ensures var words := Split(ReplaceChars(cleaned, {'.', ':'}, '_'), '_');
      forall k :: 0 <= k < |words| ==> '.' !in words[k] && ':' !in words[k] && (' ' !in cleaned ==> ' ' !in words[k])
  {
    var replaced := ReplaceChars(cleaned, {'.', ':'}, '_');
    var words := Split(replaced, '_');
    forall k | 0 <= k < |words|
      ensures '.' !in words[k] && ':' !in words[k] && (' ' !in cleaned ==> ' ' !in words[k])
    {
      assert words[k] in words;
      NoSeparatorInWords(cleaned, words[k]);
      if ' ' !in cleaned {
        SplitPartsWithin(replaced, '_', words[k]);
      }
    }
  }

  /** An id cut from a space-free type id, with a prefix removed, is space-free. */
  lemma CleanedIdUnspaced(typeId: string, parts: TypeId, cleaned: string)
    requires parts == SplitTypeId(typeId)
    requires |cleaned| <= |parts.id| && cleaned == parts.id[|parts.id| - |cleaned|..]
    ensures ' ' !in typeId ==> ' ' !in cleaned
  {
    if ' ' !in typeId {
      if ':' in typeId {
        assert parts.id == typeId[|parts.namespace| + 1..|parts.namespace| + 1 + |parts.id|];
      }
      assert ' ' !in parts.id;
    }
  }

  lemma NoSeparatorInWords(cleaned: string, w: string)
    requires w in Split(ReplaceChars(cleaned, {'.', ':'}, '_'), '_')
    ensures '_' !in w && '.' !in w && ':' !in w
  {
    var replaced := ReplaceChars(cleaned, {'.', ':'}, '_');
    assert '.' !in replaced && ':' !in replaced;
    SplitPartsWithin(replaced, '_', w);
  }

  lemma {:induction false} SplitPartsWithin(s: string, c: char, w: string)
    requires w in Split(s, c)
    ensures forall x :: x in w ==> x in s
    decreases |s|
  {
    if c in s {
      var i := IndexOf(s, c);
      if w != s[..i] {
        SplitPartsWithin(s[i + 1..], c, w);
      }
    }
  }

  lemma {:induction false} JoinAvoids(parts: seq<string>, sep: string, c: char)
    requires c !in sep
    requires forall k :: 0 <= k < |parts| ==> c !in parts[k]
    ensures c !in Join(parts, sep)
    decreases |parts|
  {
    if |parts| > 1 {
      JoinAvoids(parts[1..], sep, c);
    }
  }
}
