/**
 * Add-on descriptors of the namespace registry: normalised keys and
 * namespaces, the tag-payload decoders, content lists, descriptor
 * normalisation and the merge of two descriptors for the same key.
 */
module Namespaces {
  import opened Wrappers
  import opened Text
  import opened JsValue
  import opened Formatters
  import opened Lists

  // ---------------------------------------------------------------------------
  // Keys and namespaces
  // ---------------------------------------------------------------------------

  /** The characters `[a-z0-9_.-]` keys and namespaces are made of. */
  predicate KeyChar(c: char)
  {
    IsLowerAscii(c) || IsDigit(c) || c == '_' || c == '.' || c == '-'
  }

  predicate AllKeyChars(s: string)
  {
    forall i :: 0 <= i < |s| ==> KeyChar(s[i])
  }

  /** `replace(/\s+/g, "_")`: every run of white space becomes one underscore. */
  function CollapseSpaces(s: string): (r: string)
    ensures forall i :: 0 <= i < |r| ==> !IsSpace(r[i])
    decreases |s|
  {
    if s == [] then []
    else if IsSpace(s[0]) then "_" + CollapseSpaces(TrimStart(s[1..]))
    else [s[0]] + CollapseSpaces(s[1..])
  }

  lemma CollapseOfUnspaced(s: string)
    requires forall i :: 0 <= i < |s| ==> !IsSpace(s[i])
    ensures CollapseSpaces(s) == s
  {
  }

  lemma RemoveNothing(s: string, drop: char -> bool)
    requires forall i :: 0 <= i < |s| ==> !drop(s[i])
    ensures Remove(s, drop) == s
  {
  }

  /** `normalizeAddonKey`: trimmed, lower-cased, spaces as underscores, other characters dropped. */
  function NormalizeAddonKey(value: string): (r: string)
    ensures AllKeyChars(r)
  {
    Remove(CollapseSpaces(Lower(Trim(value))), c => !KeyChar(c))
  }

  /** A normalised key is left as it is: normalising is idempotent. */
  lemma NormalizeAddonKeyIdempotent(value: string)
    ensures NormalizeAddonKey(NormalizeAddonKey(value)) == NormalizeAddonKey(value)
  {
    var r := NormalizeAddonKey(value);
    KeyTextIsFixed(r);
  }

  /** Key text is unchanged by every step of the normalisation. */
  lemma KeyTextIsFixed(r: string)
    requires AllKeyChars(r)
    ensures NormalizeAddonKey(r) == r
    ensures Trim(r) == r && Lower(r) == r
  {
    TrimStartOfUnspaced(r);
    TrimEndOfUnspaced(r);
    LowerOfLowered(r);
    CollapseOfUnspaced(r);
    RemoveNothing(r, c => !KeyChar(c));
  }

  lemma KeyCharsHaveNoColon(s: string)
    requires AllKeyChars(s)
    ensures ':' !in s && forall i :: 0 <= i < |s| ==> !IsSpace(s[i])
  {
  }

  /**
   * `normalizeNamespaceInput`: the trimmed, lower-cased text before the
   * first colon, when that is non-empty and made of key characters only.
   */
  function NormalizeNamespaceInput(value: Js): (r: Option<string>)
    ensures r.Some? ==> value.Str? && |r.value| > 0 && AllKeyChars(r.value) && ':' !in r.value
    ensures !value.Str? || IsBlank(value.s) ==> r.None?
  {
    if !value.Str? then None
    else
      var trimmed := Trim(value.s);
      if trimmed == [] then None
      else
        var candidate := if ':' in trimmed then Split(trimmed, ':')[0] else trimmed;
        var normalized := Lower(Trim(candidate));
        if normalized == [] || !AllKeyChars(normalized) then None
        else
          KeyCharsHaveNoColon(normalized);
          Some(normalized)
  }

  /** A normalised namespace normalises to itself. */
  lemma NormalizeNamespaceInputIdempotent(value: Js)
    requires NormalizeNamespaceInput(value).Some?
    ensures NormalizeNamespaceInput(Str(NormalizeNamespaceInput(value).value)) == NormalizeNamespaceInput(value)
  {
    var r := NormalizeNamespaceInput(value).value;
    KeyTextIsFixed(r);
  }

  /** A namespaced id gives its namespace, lower-cased. */
  lemma NormalizeNamespaceOfTypeId(namespace: string, id: string)
    requires |namespace| > 0 && AllKeyChars(namespace)
    requires forall i :: 0 <= i < |id| ==> !IsSpace(id[i])
    ensures NormalizeNamespaceInput(Str(namespace + ":" + id)) == Some(namespace)
  {
    KeyCharsHaveNoColon(namespace);
    TypeIdUntrimmed(namespace, id);
    BeforeFirstColon(namespace, id);
    KeyTextIsFixed(namespace);
  }

  /** A namespaced id gives its namespace lower-cased, whatever case it is written in. */
  lemma {:induction false} NormalizeNamespaceOfMixedCase(namespace: string, id: string)
    requires |namespace| > 0 && AllKeyChars(Lower(namespace))
    requires forall i :: 0 <= i < |id| ==> !IsSpace(id[i])
    ensures NormalizeNamespaceInput(Str(namespace + ":" + id)) == Some(Lower(namespace))
  {
    var lowered := Lower(namespace);
    forall i | 0 <= i < |namespace| ensures namespace[i] != ':' && !IsSpace(namespace[i]) {
      assert KeyChar(lowered[i]);
      LowerCharKeepsSpace(namespace[i]);
    }
    TypeIdUntrimmed(namespace, id);
    BeforeFirstColon(namespace, id);
    TrimOfUnspaced(namespace);
    KeyCharsHaveNoColon(lowered);
  }

  /** A type id that neither starts nor ends with white space is its own trim. */
  lemma TypeIdUntrimmed(namespace: string, id: string)
    requires |namespace| > 0 && !IsSpace(namespace[0])
    requires forall i :: 0 <= i < |id| ==> !IsSpace(id[i])
    ensures Trim(namespace + ":" + id) == namespace + ":" + id
  {
    var t := namespace + ":" + id;
    assert t[0] == namespace[0];
    if |id| > 0 {
      assert t[|t| - 1] == id[|id| - 1];
    }
    TrimStartOfUnspaced(t);
    TrimEndOfUnspaced(t);
  }

  /** The part of `a:b` before the first colon is `a` when `a` has none. */
  lemma BeforeFirstColon(a: string, b: string)
    requires ':' !in a
    ensures ':' in a + ":" + b && Split(a + ":" + b, ':')[0] == a
  {
    var t := a + ":" + b;
    IndexOfAfter(a, ':', b);
    SplitUnfold(t, ':');
    assert t[..|a|] == a;
  }

  // ---------------------------------------------------------------------------
  // Tag payloads
  // ---------------------------------------------------------------------------

  /** `decodeTagPayload`: trimmed, `__` as a colon, any other underscore as a space. */
  function DecodeTagPayload(value: string): (r: string)
    ensures '_' !in r
  {
    ReplaceChars(ReplaceAll(Trim(value), "__", ":"), {'_'}, ' ')
  }

  /** How a text is written into a tag: a colon as `__`, a space as `_`. */
  function EncodeTagPayload(text: string): (r: string)
    ensures |r| >= |text|
  {
    if text == [] then []
    else (if text[0] == ':' then "__" else if text[0] == ' ' then "_" else [text[0]]) + EncodeTagPayload(text[1..])
  }

  /** The labels the tag encoding can carry: no underscore, no white space but single spaces not before a colon. */
  predicate Encodable(text: string)
  {
    (forall i :: 0 <= i < |text| ==> text[i] != '_' && (IsSpace(text[i]) ==> text[i] == ' '))
    && (forall i :: 0 <= i < |text| - 1 ==> text[i] == ' ' ==> text[i + 1] != ' ' && text[i + 1] != ':')
  }

  lemma {:induction false} EncodedHasNoSpace(text: string)
    requires Encodable(text)
    ensures forall i :: 0 <= i < |EncodeTagPayload(text)| ==> !IsSpace(EncodeTagPayload(text)[i])
    decreases |text|
  {
    if text != [] {
      EncodedHasNoSpace(text[1..]);
    }
  }

  /** With the double underscores decoded, the encoding is the text with spaces as underscores. */
  lemma {:induction false} ReplaceEncoded(text: string)
    requires Encodable(text)
    ensures ReplaceAll(EncodeTagPayload(text), "__", ":") == ReplaceChars(text, {' '}, '_')
    decreases |text|
  {
    if text != [] {
      var rest := text[1..];
      assert Encodable(rest);
      ReplaceEncoded(rest);
      var e := EncodeTagPayload(rest);
      ReplaceCharsCons(text, {' '}, '_');
      if text[0] == ':' {
        assert EncodeTagPayload(text) == "__" + e;
        ReplaceAllAtPattern(e, "__", ":");
      } else if text[0] == ' ' {
        assert EncodeTagPayload(text) == "_" + e;
        if rest != [] {
          EncodedHead(rest);
          assert ("_" + e)[..2][1] == e[0] != '_';
        }
        ReplaceAllCons('_', e, "__", ":");
      } else {
        assert EncodeTagPayload(text) == [text[0]] + e;
        assert |e| + 1 >= 2 ==> ([text[0]] + e)[..2][0] == text[0] != '_';
        ReplaceAllCons(text[0], e, "__", ":");
      }
    }
  }

  /** The first character written for a label: an underscore for a colon or a space, else the character itself. */
  lemma EncodedHead(text: string)
    requires text != []
    ensures |EncodeTagPayload(text)| > 0
    ensures EncodeTagPayload(text)[0] == if text[0] == ':' || text[0] == ' ' then '_' else text[0]
  {
  }

  /** Decoding a written text gives it back. */
  lemma DecodeEncodedTagPayload(text: string)
    requires Encodable(text)
    ensures DecodeTagPayload(EncodeTagPayload(text)) == text
  {
    var e := EncodeTagPayload(text);
    EncodedHasNoSpace(text);
    if e != [] {
      TrimStartOfUnspaced(e);
      TrimEndOfUnspaced(e);
    }
    ReplaceEncoded(text);
  }

  /**
   * `decodeNamespacePayload`: trimmed, lower-cased, `__` and `.` as
   * colons, white space removed.
   */
  function DecodeNamespacePayload(value: string): (r: string)
    ensures '.' !in r && HasNoUpper(r)
    ensures forall i :: 0 <= i < |r| ==> !IsSpace(r[i])
  {
    var colons := ReplaceAll(Lower(Trim(value)), "__", ":");
    var replaced := ReplaceChars(colons, {'.'}, ':');
    ColonsNotUpper(value);
    ReplacedNotUpperNorDot(colons);
    SpacesRemovedKeep(replaced);
    NoUpperNorDot(Remove(replaced, IsSpace));
    Remove(replaced, IsSpace)
  }

  /** Lower-casing, then turning `__` into colons, leaves no upper-case letter. */
  lemma ColonsNotUpper(value: string)
    ensures HasNoUpper(ReplaceAll(Lower(Trim(value)), "__", ":"))
  {
    var lowered := Lower(Trim(value));
    assert forall i :: 0 <= i < |lowered| ==> NotUpper(lowered[i]);
    assert forall i :: 0 <= i < |":"| ==> NotUpper(":"[i]);
    ReplaceAllKeeps(lowered, "__", ":", NotUpper);
  }

  /** Neither an upper-case letter nor a dot anywhere. */
  predicate UpperAndDotFree(s: string)
  {
    forall i :: 0 <= i < |s| ==> !IsUpperAscii(s[i]) && s[i] != '.'
  }

  /** Turning dots into colons in a text without upper-case letters leaves neither. */
  lemma ReplacedNotUpperNorDot(s: string)
    requires HasNoUpper(s)
    ensures UpperAndDotFree(ReplaceChars(s, {'.'}, ':'))
  {
  }

  lemma NoUpperNorDot(s: string)
    requires UpperAndDotFree(s)
    ensures '.' !in s && HasNoUpper(s)
  {
    forall i | 0 <= i < |s| ensures s[i] != '.' {
      assert !IsUpperAscii(s[i]) && s[i] != '.';
    }
  }

  predicate NotUpper(c: char)
  {
    !IsUpperAscii(c)
  }

  lemma ReplaceAllKeeps(s: string, pat: string, rep: string, ok: char -> bool)
    requires |pat| > 0
    requires forall i :: 0 <= i < |s| ==> ok(s[i])
    requires forall i :: 0 <= i < |rep| ==> ok(rep[i])
    ensures forall i :: 0 <= i < |ReplaceAll(s, pat, rep)| ==> ok(ReplaceAll(s, pat, rep)[i])
    decreases |s|
  {
    if |s| >= |pat| {
      if s[..|pat|] == pat {
        ReplaceAllKeeps(s[|pat|..], pat, rep, ok);
      } else {
        ReplaceAllKeeps(s[1..], pat, rep, ok);
      }
    }
  }

  /** Dropping white space keeps a text free of upper case and dots. */
  lemma {:induction false} SpacesRemovedKeep(s: string)
    requires UpperAndDotFree(s)
    ensures UpperAndDotFree(Remove(s, IsSpace))
    decreases |s|
  {
    if s != [] {
      assert UpperAndDotFree(s[1..]) by {
        assert forall i :: 0 <= i < |s| - 1 ==> s[1..][i] == s[i + 1];
      }
      SpacesRemovedKeep(s[1..]);
      var rest := Remove(s[1..], IsSpace);
      if !IsSpace(s[0]) {
        assert forall i :: 1 <= i < 1 + |rest| ==> ([s[0]] + rest)[i] == rest[i - 1];
        assert !IsUpperAscii(s[0]) && s[0] != '.';
      }
    }
  }

  /** No two underscores side by side: the text holds no `__` to decode. */
  predicate NoDoubleUnderscore(s: string)
  {
    forall i :: 0 <= i < |s| - 1 ==> !DoubleAt(s, i)
  }

  /** Positions `i` and `i + 1` both hold an underscore. */
  predicate DoubleAt(s: string, i: int)
    requires 0 <= i < |s| - 1
  {
    s[i] == '_' && s[i + 1] == '_'
  }

  /** Text holding no `__` is left as it is by the `__` replacement. */
  lemma {:induction false} ReplaceNoDoubleUnderscore(s: string)
    requires NoDoubleUnderscore(s)
    ensures ReplaceAll(s, "__", ":") == s
    decreases |s|
  {
    if |s| >= 2 {
      assert s[..2] != "__" by {
        assert s[..2][0] == s[0] && s[..2][1] == s[1];
        assert !DoubleAt(s, 0);
      }
      assert NoDoubleUnderscore(s[1..]) by {
        forall i | 0 <= i < |s| - 2 ensures !DoubleAt(s[1..], i) {
          assert !DoubleAt(s, i + 1);
        }
      }
      ReplaceNoDoubleUnderscore(s[1..]);
      assert s == [s[0]] + s[1..];
      ReplaceAllCons(s[0], s[1..], "__", ":");
    }
  }

  /**
   * A prefix holding no `__` and not ending in `_` is copied as it is, and
   * the replacement carries on after it.
   */
  lemma {:induction false} ReplaceAfterPlainPrefix(a: string, s: string)
    requires NoDoubleUnderscore(a) && (a == [] || a[|a| - 1] != '_')
    ensures ReplaceAll(a + s, "__", ":") == a + ReplaceAll(s, "__", ":")
    decreases |a|
  {
    if a != [] {
      var rest := a[1..] + s;
      assert a + s == [a[0]] + rest;
      if |rest| + 1 >= 2 {
        assert ([a[0]] + rest)[..2] != "__" by {
          assert ([a[0]] + rest)[..2][0] == a[0] && ([a[0]] + rest)[..2][1] == rest[0];
          if |a| >= 2 {
            assert rest[0] == a[1];
            assert !DoubleAt(a, 0);
          } else {
            assert a[0] == a[|a| - 1];
          }
        }
      }
      ReplaceAllCons(a[0], rest, "__", ":");
      assert NoDoubleUnderscore(a[1..]) by {
        forall i | 0 <= i < |a| - 2 ensures !DoubleAt(a[1..], i) {
          assert !DoubleAt(a, i + 1);
        }
      }
      assert a[1..] == [] || a[1..][|a[1..]| - 1] == a[|a| - 1];
      ReplaceAfterPlainPrefix(a[1..], s);
      assert [a[0]] + (a[1..] + ReplaceAll(s, "__", ":")) == a + ReplaceAll(s, "__", ":");
    } else {
      assert a + s == s;
    }
  }

  /** Lower-case text without white space: lower-casing, trimming and dropping spaces leave it alone. */
  predicate PlainPayload(t: string)
  {
    HasNoUpper(t) && forall i :: 0 <= i < |t| ==> !IsSpace(t[i])
  }

  /** On plain text, decoding is the `__` replacement followed by dots as colons. */
  lemma {:induction false} DecodePlainPayload(t: string)
    requires PlainPayload(t)
    ensures DecodeNamespacePayload(t) == ReplaceChars(ReplaceAll(t, "__", ":"), {'.'}, ':')
  {
    TrimOfUnspaced(t);
    LowerOfLowered(t);
    var colons := ReplaceAll(t, "__", ":");
    assert forall i :: 0 <= i < |":"| ==> !IsSpace(":"[i]);
    ReplaceAllKeeps(t, "__", ":", c => !IsSpace(c));
    RemoveNothing(ReplaceChars(colons, {'.'}, ':'), IsSpace);
  }

  /** Plain text without `.` or `__` is already decoded. */
  lemma {:induction false} DecodeNamespaceFixed(t: string)
    requires PlainPayload(t) && '.' !in t && NoDoubleUnderscore(t)
    ensures DecodeNamespacePayload(t) == t
  {
    DecodePlainPayload(t);
    ReplaceNoDoubleUnderscore(t);
  }

  /** Joining two plain texts by a separator that is neither upper case nor white space keeps them plain. */
  lemma {:induction false} PlainJoin(a: string, sep: string, b: string)
    requires PlainPayload(a) && PlainPayload(b) && PlainPayload(sep)
    ensures PlainPayload(a + sep + b)
  {
    var t := a + sep + b;
    forall i | 0 <= i < |t| ensures !IsUpperAscii(t[i]) && !IsSpace(t[i]) {
      if i < |a| {
        assert t[i] == a[i];
      } else if i < |a| + |sep| {
        assert t[i] == sep[i - |a|];
      } else {
        assert t[i] == b[i - |a| - |sep|];
      }
    }
  }

  /** Dots become colons and nothing else changes, across a join by a dot. */
  lemma {:induction false} DotsAcrossJoin(a: string, b: string)
    requires '.' !in a && '.' !in b
    ensures ReplaceChars(a + "." + b, {'.'}, ':') == a + ":" + b
  {
    var t := a + "." + b;
    var r := ReplaceChars(t, {'.'}, ':');
    forall i | 0 <= i < |t| ensures r[i] == (a + ":" + b)[i] {
      if i < |a| {
        assert t[i] == a[i];
      } else if i > |a| {
        assert t[i] == b[i - |a| - 1];
      }
    }
  }

  /** Joining two dot-free texts by a colon leaves no dot. */
  lemma DotFreeJoin(a: string, b: string)
    requires '.' !in a && '.' !in b
    ensures '.' !in a + ":" + b
  {
    var t := a + ":" + b;
    forall i | 0 <= i < |t| ensures t[i] != '.' {
      if i < |a| {
        assert t[i] == a[i];
      } else if i > |a| {
        assert t[i] == b[i - |a| - 1];
      }
    }
  }

  /** Dot-free text is left alone by turning dots into colons. */
  lemma DotFreeUnchanged(t: string)
    requires '.' !in t
    ensures ReplaceChars(t, {'.'}, ':') == t
  {
  }

  /** A dot between a plain namespace and id decodes to a colon. */
  lemma {:induction false} DecodeDottedPayload(namespace: string, id: string)
    requires PlainPayload(namespace) && '.' !in namespace && NoDoubleUnderscore(namespace)
    requires PlainPayload(id) && '.' !in id && NoDoubleUnderscore(id)
    ensures DecodeNamespacePayload(namespace + "." + id) == namespace + ":" + id
  {
    var t := namespace + "." + id;
    PlainJoin(namespace, ".", id);
    assert NoDoubleUnderscore(t) by {
      forall i | 0 <= i < |t| - 1 ensures !DoubleAt(t, i) {
        if i + 1 < |namespace| {
          assert t[i] == namespace[i] && t[i + 1] == namespace[i + 1];
          assert !DoubleAt(namespace, i);
        } else if i > |namespace| {
          assert t[i] == id[i - |namespace| - 1] && t[i + 1] == id[i - |namespace|];
          assert !DoubleAt(id, i - |namespace| - 1);
        } else if i == |namespace| {
          assert t[i] == '.';
        } else {
          assert t[i + 1] == '.';
        }
      }
    }
    DecodePlainPayload(t);
    ReplaceNoDoubleUnderscore(t);
    DotsAcrossJoin(namespace, id);
  }

  /** A leading `__` before a `__`-free id becomes one colon. */
  lemma {:induction false} ReplaceLeadingUnderscores(id: string)
    requires NoDoubleUnderscore(id)
    ensures ReplaceAll("__" + id, "__", ":") == ":" + id
  {
    ReplaceAllAtPattern(id, "__", ":");
    ReplaceNoDoubleUnderscore(id);
  }

  /** The `__` joining a plain namespace and a `__`-free id is the one replaced. */
  lemma {:induction false} ReplaceJoiningUnderscores(namespace: string, id: string)
    requires NoDoubleUnderscore(namespace) && (namespace == [] || namespace[|namespace| - 1] != '_')
    requires NoDoubleUnderscore(id)
    ensures ReplaceAll(namespace + "__" + id, "__", ":") == namespace + ":" + id
  {
    ReplaceLeadingUnderscores(id);
    ReplaceAfterPlainPrefix(namespace, "__" + id);
    JoinRegroups(namespace, "__", id);
    JoinRegroups(namespace, ":", id);
  }

  /** Joining three texts does not depend on the grouping. */
  lemma JoinRegroups(a: string, b: string, c: string)
    ensures a + b + c == a + (b + c)
  {
  }

  /** A `__` between a plain namespace and id decodes to a colon. */
  lemma {:induction false} DecodeUnderscoredPayload(namespace: string, id: string)
    requires PlainPayload(namespace) && '.' !in namespace && NoDoubleUnderscore(namespace)
    requires namespace == [] || namespace[|namespace| - 1] != '_'
    requires PlainPayload(id) && '.' !in id && NoDoubleUnderscore(id)
    ensures DecodeNamespacePayload(namespace + "__" + id) == namespace + ":" + id
  {
    var t := namespace + "__" + id;
    var joined := namespace + ":" + id;
    PlainJoin(namespace, "__", id);
    DecodePlainPayload(t);
    ReplaceJoiningUnderscores(namespace, id);
    DotFreeJoin(namespace, id);
    DotFreeUnchanged(joined);
  }

  // ---------------------------------------------------------------------------
  // Content lists and descriptors
  // ---------------------------------------------------------------------------

  /** A content id as stored: trimmed and lower-cased. */
  function ContentId(s: string): string
  {
    Lower(Trim(s))
  }

  /** A content id as a normalised list holds it: namespaced and already normalised. */
  predicate StoredId(x: string)
  {
    ':' in x && ContentId(x) == x
  }

  /** The content id of a string item, when it names a namespaced type (holds a colon). */
  function KeptId(v: Js): (r: Option<string>)
    ensures r.Some? <==> v.Str? && ':' in ContentId(v.s)
  {
    if v.Str? && ':' in ContentId(v.s) then Some(ContentId(v.s)) else None
  }

  /** The namespaced content ids of the string items, in order. */
  function KeptContent(items: seq<Js>): seq<string>
  {
    Collect(items, KeptId)
  }

  /** `x` is the content id of a string item, and namespaced. */
  predicate IsKeptId(items: seq<Js>, x: string)
  {
    exists i :: 0 <= i < |items| && items[i].Str? && ContentId(items[i].s) == x && ':' in x
  }

  lemma KeptContentMembers(items: seq<Js>, x: string)
    ensures x in KeptContent(items) <==> IsKeptId(items, x)
  {
    CollectMembers(items, KeptId, x);
    if IsKeptId(items, x) {
      var i :| 0 <= i < |items| && items[i].Str? && ContentId(items[i].s) == x && ':' in x;
      assert KeptId(items[i]) == Some(x);
    }
    if exists i :: 0 <= i < |items| && KeptId(items[i]) == Some(x) {
      var i :| 0 <= i < |items| && KeptId(items[i]) == Some(x);
      assert items[i].Str? && ContentId(items[i].s) == x && ':' in x;
    }
  }

  /**
   * `normalizeContentList`: the namespaced string ids of an array,
   * trimmed and lower-cased, each once, in order of first occurrence.
   */
  function NormalizeContentList(content: Js): (r: seq<string>)
    ensures !content.Arr? ==> r == []
    ensures NoDuplicates(r)
    ensures content.Arr? ==> forall x :: x in r <==> IsKeptId(content.items, x)
  {
    if !content.Arr? then []
    else
      assert forall x :: x in KeptContent(content.items) <==> IsKeptId(content.items, x) by {
        forall x ensures x in KeptContent(content.items) <==> IsKeptId(content.items, x) {
          KeptContentMembers(content.items, x);
        }
      }
      Dedupe(KeptContent(content.items))
  }

  /** An add-on descriptor; `kind` is the descriptor's `type`. */
  datatype Addon = Addon(key: string, name: string, kind: string, namespace: Option<string>, content: seq<string>)

  /** The trimmed text of a non-blank string. */
  function NonBlankText(v: Js): (r: Option<string>)
    ensures r.Some? <==> v.Str? && !IsBlank(v.s)
    ensures r.Some? ==> r.value == Trim(v.s) && |r.value| > 0 && Trim(r.value) == r.value
  {
    if v.Str? && !IsBlank(v.s) then
      TrimIdempotent(v.s);
      Some(Trim(v.s))
    else None
  }

  /** `key || name`, the text the key is made from. */
  function KeySource(v: Js): Js
  {
    Or(Prop(v, "key"), Prop(v, "name"))
  }

  /** The trimmed, lower-cased text of a non-blank string. */
  function LowerText(v: Js): (r: Option<string>)
    ensures r.Some? <==> v.Str? && !IsBlank(v.s)
    ensures r.Some? ==> LowerForm(r.value)
  {
    match NonBlankText(v)
    case None => None
    case Some(t) =>
      LowerTrimmedFixed(v.s);
      Some(Lower(t))
  }

  /** Non-empty, trimmed and lower-cased: the form of a stored type and namespace. */
  predicate LowerForm(t: string)
  {
    |t| > 0 && Trim(t) == t && HasNoUpper(t)
  }

  /** A name given as trimmed text, or left blank as the title made from the key. */
  predicate NameForm(key: string, name: string)
  {
    if IsBlank(name) then name == ToTitleWords(Split(key, '_')) else Trim(name) == name
  }

  /** Lower-casing trimmed text leaves it trimmed, and lower-casing it again changes nothing. */
  lemma LowerTrimmedFixed(s: string)
    ensures Trim(Lower(Trim(s))) == Lower(Trim(s)) && Lower(Lower(Trim(s))) == Lower(Trim(s))
  {
    var u := Trim(s);
    LowerKeepsEdges(u);
    TrimOfUnspaced(Lower(u));
    LowerIdempotent(u);
  }

  /** Stored content ids are fixed points of the content-id normalisation. */
  lemma ContentIdIdempotent(s: string)
    ensures ContentId(ContentId(s)) == ContentId(s)
  {
    LowerTrimmedFixed(s);
  }

  /**
   * `normalizeAddonDefinition` as written: nothing for a non-object or
   * without a non-blank key or name; else the normalised key, the trimmed
   * name (or the title-cased key), the lower-cased type (or "addon"), the
   * lower-cased namespace if any, and the normalised content. The
   * normalised key may be empty.
   */
  function NormalizeAddonDefinitionAsWritten(v: Js): (r: Option<Addon>)
    ensures r.None? <==> !v.Obj? || !KeySource(v).Str? || IsBlank(KeySource(v).s)
    ensures r.Some? ==> r.value.key == NormalizeAddonKey(KeySource(v).s)
  {
    if !v.Obj? || !KeySource(v).Str? || IsBlank(KeySource(v).s) then None
    else
      var key := NormalizeAddonKey(KeySource(v).s);
      Some(Addon(key, AddonName(v, key), AddonKind(v), LowerText(Prop(v, "namespace")), NormalizeContentList(Prop(v, "content"))))
  }

  /**
   * A key text made only of dropped characters, such as "!!!", is accepted
   * with the empty key; the name is kept trimmed.
   */
  lemma EmptyKeyAccepted(key: string, name: string)
    requires !IsBlank(key) && NormalizeAddonKey(key) == [] && !IsBlank(name)
    ensures NormalizeAddonDefinitionAsWritten(Obj([("key", Str(key)), ("name", Str(name))]))
      == Some(Addon("", Trim(name), "addon", None, []))
  {
    var v := Obj([("key", Str(key)), ("name", Str(name))]);
    KeyNameReads(key, name);
    NamedFields(v, key, name, "");
    AbsentFieldsDefault(v);
    AsWrittenOf(v, "", Trim(name), "addon", None, []);
  }

  /** "!!!" is such a key text. */
  lemma BangsKeyDropped()
    ensures !IsBlank("!!!") && NormalizeAddonKey("!!!") == []
  {
    NormalizedKeyOfBangs();
    TrimStartOfUnspaced("!!!");
    TrimEndOfUnspaced("!!!");
  }

  /** An accepted descriptor is its normalised key with the fields read from it. */
  lemma AsWrittenOf(v: Js, key: string, name: string, kind: string, namespace: Option<string>, content: seq<string>)
    requires v.Obj? && KeySource(v).Str? && !IsBlank(KeySource(v).s) && NormalizeAddonKey(KeySource(v).s) == key
    requires AddonName(v, key) == name && AddonKind(v) == kind
    requires LowerText(Prop(v, "namespace")) == namespace && NormalizeContentList(Prop(v, "content")) == content
    ensures NormalizeAddonDefinitionAsWritten(v) == Some(Addon(key, name, kind, namespace, content))
  {
  }

  /** A non-blank `key` is the key text, and a non-blank `name` is kept trimmed. */
  lemma NamedFields(v: Js, key: string, name: string, k: string)
    requires Prop(v, "key") == Str(key) && Prop(v, "name") == Str(name) && !IsBlank(key) && !IsBlank(name)
    ensures KeySource(v) == Str(key) && AddonName(v, k) == Trim(name)
  {
    assert key != [];
  }

  /** Without `type`, `namespace` and `content` a descriptor is an "addon" with no namespace and no content. */
  lemma AbsentFieldsDefault(v: Js)
    requires Prop(v, "type") == Undefined && Prop(v, "namespace") == Undefined && Prop(v, "content") == Undefined
    ensures AddonKind(v) == "addon" && LowerText(Prop(v, "namespace")) == None && NormalizeContentList(Prop(v, "content")) == []
  {
    assert LowerText(Prop(v, "type")) == None;
    assert AddonKind(v) == "addon";
    assert LowerText(Prop(v, "namespace")) == None;
    assert NormalizeContentList(Prop(v, "content")) == [];
  }

  lemma KeyNameReads(key: string, name: string)
    ensures var v := Obj([("key", Str(key)), ("name", Str(name))]);
      && Prop(v, "key") == Str(key) && Prop(v, "name") == Str(name)
      && Prop(v, "type") == Undefined && Prop(v, "namespace") == Undefined && Prop(v, "content") == Undefined
  {
    var v := Obj([("key", Str(key)), ("name", Str(name))]);
    LookupUnique(v.entries, 0, "key");
    LookupUnique(v.entries, 1, "name");
    LookupMissing(v.entries, "type");
    LookupMissing(v.entries, "namespace");
    LookupMissing(v.entries, "content");
  }

  /**
   * The record an empty-keyed descriptor is persisted as reads back under
   * a key made from its name, so not as itself: "Foo" comes back as "foo".
   */
  lemma EmptyKeyRekeyedOnReload(name: string)
    requires !IsBlank(name) && Trim(name) == name && NormalizeAddonKey(name) != []
    ensures NormalizeAddonDefinitionAsWritten(AddonToJs(Addon("", name, "addon", None, [])))
      == Some(Addon(NormalizeAddonKey(name), name, "addon", None, []))
    ensures NormalizeAddonDefinitionAsWritten(AddonToJs(Addon("", name, "addon", None, [])))
      != Some(Addon("", name, "addon", None, []))
  {
    var a := Addon("", name, "addon", None, []);
    AddonToJsReads(a);
    var w := AddonToJs(a);
    assert KeySource(w) == Str(name);
    assert AddonName(w, NormalizeAddonKey(name)) == name;
    AddonKindDefault();
    KindRoundTrip(w, "addon");
    assert NormalizeContentList(Prop(w, "content")) == [] by {
      assert Prop(w, "content") == Arr([]);
    }
    AsWrittenOf(w, NormalizeAddonKey(name), name, "addon", None, []);
  }

  lemma NormalizedKeyOfBangs()
    ensures NormalizeAddonKey("!!!") == ""
  {
    TrimStartOfUnspaced("!!!");
    TrimEndOfUnspaced("!!!");
    assert Lower("!!!") == "!!!";
    CollapseOfUnspaced("!!!");
  }

  /** "Foo" is a trimmed name whose key is "foo". */
  lemma FooKeyed()
    ensures !IsBlank("Foo") && Trim("Foo") == "Foo" && NormalizeAddonKey("Foo") == "foo"
  {
    TrimmedFoo();
    assert Lower("Foo") == "foo";
    CollapseOfUnspaced("foo");
    RemoveNothing("foo", c => !KeyChar(c));
  }

  lemma TrimmedFoo()
    ensures Trim("Foo") == "Foo"
  {
    TrimStartOfUnspaced("Foo");
    TrimEndOfUnspaced("Foo");
  }

  lemma AddonKindDefault()
    ensures LowerForm("addon")
  {
    TrimStartOfUnspaced("addon");
    TrimEndOfUnspaced("addon");
  }

  /**
   * `normalizeAddonDefinition` with a descriptor whose key normalises to
   * the empty text rejected, as the lookups already treat an empty key as
   * no key: every descriptor it gives is in persisted form.
   */
  function NormalizeAddonDefinition(v: Js): (r: Option<Addon>)
    ensures r.None? <==> NormalizeAddonDefinitionAsWritten(v).None? || NormalizeAddonDefinitionAsWritten(v).value.key == []
    ensures r.Some? ==> r == NormalizeAddonDefinitionAsWritten(v)
    ensures r.Some? ==> NormalizedAddon(r.value)
  {
    match NormalizeAddonDefinitionAsWritten(v)
    case None => None
    case Some(a) =>
      if a.key == [] then None
      else
        NormalizedOutput(v);
        Some(a)
  }

  lemma NormalizedOutput(v: Js)
    requires NormalizeAddonDefinitionAsWritten(v).Some? && NormalizeAddonDefinitionAsWritten(v).value.key != []
    ensures NormalizedAddon(NormalizeAddonDefinitionAsWritten(v).value)
  {
    var key := NormalizeAddonKey(KeySource(v).s);
    var a := Addon(key, AddonName(v, key), AddonKind(v), LowerText(Prop(v, "namespace")), NormalizeContentList(Prop(v, "content")));
    assert NormalizeAddonDefinitionAsWritten(v).value == a;
    AddonNameForm(v, key);
    ContentListIds(Prop(v, "content"));
    assert AllItems(a.content, StoredId);
    NormalizedFromParts(a);
  }

  lemma NormalizedFromParts(a: Addon)
    requires |a.key| > 0 && AllKeyChars(a.key) && NameForm(a.key, a.name) && LowerForm(a.kind)
    requires a.namespace.Some? ==> LowerForm(a.namespace.value)
    requires NoDuplicates(a.content) && AllItems(a.content, StoredId)
    ensures NormalizedAddon(a)
  {
  }

  /** A name is either trimmed text or the title made from the key. */
  lemma AddonNameForm(v: Js, key: string)
    requires AllKeyChars(key)
    ensures NameForm(key, AddonName(v, key))
  {
    if NonBlankText(Prop(v, "name")).Some? {
      TrimIdempotent(Prop(v, "name").s);
    } else {
      TitleWordsOfKeyTrimmed(key);
    }
  }

  /** Every id of a normalised content list is namespaced and normalises to itself. */
  lemma ContentListIds(content: Js)
    ensures var ids := NormalizeContentList(content);
      forall i :: 0 <= i < |ids| ==> StoredId(ids[i])
  {
    var ids := NormalizeContentList(content);
    forall i | 0 <= i < |ids|
      ensures StoredId(ids[i])
    {
      assert ids[i] in ids;
      var j :| 0 <= j < |content.items| && content.items[j].Str? && ContentId(content.items[j].s) == ids[i] && ':' in ids[i];
      ContentIdIdempotent(content.items[j].s);
    }
  }

  /** The title made from a key's words has no white space at either end. */
  lemma TitleWordsOfKeyTrimmed(key: string)
    requires AllKeyChars(key)
    ensures Trim(ToTitleWords(Split(key, '_'))) == ToTitleWords(Split(key, '_'))
  {
    var parts := Split(key, '_');
    forall w | w in NonEmpty(parts)
      ensures UnspacedEdges(w)
    {
      KeyPartEdges(key, w);
    }
    TitleWordsTrimmed(parts);
  }

  /** Title words made from parts whose non-empty members have no white space at their ends need no trimming. */
  lemma TitleWordsTrimmed(parts: seq<string>)
    requires parts != []
    requires forall w :: w in NonEmpty(parts) ==> UnspacedEdges(w)
    ensures Trim(ToTitleWords(parts)) == ToTitleWords(parts)
  {
    var kept := NonEmpty(parts);
    assert ToTitleWords(parts) == Join(CapitalizeAll(kept), " ");
    if kept != [] {
      assert forall k :: 0 <= k < |kept| ==> UnspacedEdges(kept[k]) by {
        forall k | 0 <= k < |kept| ensures UnspacedEdges(kept[k]) {
          assert kept[k] in kept;
        }
      }
      CapitalizedJoinTrimmed(kept);
    }
  }

  /** Non-empty text without white space at either end. */
  predicate UnspacedEdges(w: string)
  {
    w != [] && !IsSpace(w[0]) && !IsSpace(w[|w| - 1])
  }

  lemma KeyPartEdges(key: string, w: string)
    requires AllKeyChars(key) && w in NonEmpty(Split(key, '_'))
    ensures UnspacedEdges(w)
  {
    SplitPartsWithin(key, '_', w);
    assert w[0] in w && w[|w| - 1] in w;
  }

  /** Words without white space at their ends, capitalised and joined by spaces, need no trimming. */
  lemma CapitalizedJoinTrimmed(words: seq<string>)
    requires words != []
    requires forall k :: 0 <= k < |words| ==> UnspacedEdges(words[k])
    ensures Trim(Join(CapitalizeAll(words), " ")) == Join(CapitalizeAll(words), " ")
  {
    var caps := CapitalizeAll(words);
    var t := Join(caps, " ");
    JoinEdges(caps, " ");
    var last := words[|words| - 1];
    assert t[0] == UpperChar(words[0][0]);
    assert t[|t| - 1] == caps[|caps| - 1][|last| - 1];
    assert |last| == 1 || caps[|caps| - 1][|last| - 1] == last[|last| - 1];
    TrimStartOfUnspaced(t);
    TrimEndOfUnspaced(t);
  }

  /** Parts that are all non-empty join to text that starts with the first part and ends with the last. */
  lemma {:induction false} JoinEdges(parts: seq<string>, sep: string)
    requires |parts| >= 1 && forall k :: 0 <= k < |parts| ==> parts[k] != []
    ensures |Join(parts, sep)| > 0
    ensures Join(parts, sep)[0] == parts[0][0]
    ensures Join(parts, sep)[|Join(parts, sep)| - 1] == parts[|parts| - 1][|parts[|parts| - 1]| - 1]
    decreases |parts|
  {
    if |parts| > 1 {
      JoinEdges(parts[1..], sep);
    }
  }

  /** The trimmed `name`, or the key's words title-cased. */
  function AddonName(v: Js, key: string): string
  {
    match NonBlankText(Prop(v, "name"))
    case Some(t) => t
    case None => ToTitleWords(Split(key, '_'))
  }

  /** The lower-cased `type`, or "addon". */
  function AddonKind(v: Js): (r: string)
    ensures LowerForm(r)
  {
    match LowerText(Prop(v, "type"))
    case Some(t) => t
    case None =>
      AddonKindDefault();
      "addon"
  }

  /** A descriptor in the form normalisation produces from its own persisted record. */
  predicate NormalizedAddon(a: Addon)
  {
    && |a.key| > 0 && AllKeyChars(a.key)
    && NameForm(a.key, a.name)
    && LowerForm(a.kind)
    && (a.namespace.Some? ==> LowerForm(a.namespace.value))
    && NoDuplicates(a.content)
    && AllItems(a.content, StoredId)
  }

  function ContentToJs(content: seq<string>): (r: seq<Js>)
    ensures |r| == |content| && forall i :: 0 <= i < |content| ==> r[i] == Str(content[i])
  {
    if content == [] then [] else [Str(content[0])] + ContentToJs(content[1..])
  }

  /** The record a descriptor is persisted as. */
  function AddonToJs(a: Addon): Js
  {
    Obj([("key", Str(a.key)), ("name", Str(a.name)), ("type", Str(a.kind)),
      ("namespace", if a.namespace.Some? then Str(a.namespace.value) else Undefined),
      ("content", Arr(ContentToJs(a.content)))])
  }

  /** Reading back a persisted descriptor gives the descriptor again. */
  lemma NormalizeAddonRoundTrip(a: Addon)
    requires NormalizedAddon(a)
    ensures NormalizeAddonDefinition(AddonToJs(a)) == Some(a)
  {
    var v := AddonToJs(a);
    AddonToJsReads(a);
    KeyRoundTrip(v, a.key);
    NameRoundTrip(v, a);
    KindRoundTrip(v, a.kind);
    NamespaceRoundTrip(a.namespace);
    ContentRoundTrip(a.content);
    AsWrittenOf(v, a.key, a.name, a.kind, a.namespace, a.content);
  }

  lemma KeyRoundTrip(v: Js, key: string)
    requires Prop(v, "key") == Str(key)
    requires |key| > 0 && AllKeyChars(key)
    ensures KeySource(v) == Str(key) && !IsBlank(key) && NormalizeAddonKey(key) == key
  {
    KeyTextIsFixed(key);
  }

  lemma NameRoundTrip(v: Js, a: Addon)
    requires Prop(v, "name") == Str(a.name)
    requires NameForm(a.key, a.name)
    ensures AddonName(v, a.key) == a.name
  {
    if IsBlank(a.name) {
      assert NonBlankText(Prop(v, "name")) == None;
    } else {
      assert NonBlankText(Prop(v, "name")) == Some(a.name);
    }
  }

  lemma KindRoundTrip(v: Js, kind: string)
    requires Prop(v, "type") == Str(kind)
    requires LowerForm(kind)
    ensures AddonKind(v) == kind
  {
    LowerOfLowered(kind);
  }

  lemma AddonToJsReads(a: Addon)
    ensures var v := AddonToJs(a);
      && Prop(v, "key") == Str(a.key) && Prop(v, "name") == Str(a.name) && Prop(v, "type") == Str(a.kind)
      && Prop(v, "namespace") == (if a.namespace.Some? then Str(a.namespace.value) else Undefined)
      && Prop(v, "content") == Arr(ContentToJs(a.content))
  {
    var e := AddonToJs(a).entries;
    LookupUnique(e, 0, "key");
    LookupUnique(e, 1, "name");
    LookupUnique(e, 2, "type");
    LookupUnique(e, 3, "namespace");
    LookupUnique(e, 4, "content");
  }

  lemma NamespaceRoundTrip(namespace: Option<string>)
    requires namespace.Some? ==> LowerForm(namespace.value)
    ensures LowerText(if namespace.Some? then Str(namespace.value) else Undefined) == namespace
  {
    if namespace.Some? {
      LowerOfLowered(namespace.value);
    }
  }

  lemma ContentRoundTrip(content: seq<string>)
    requires NoDuplicates(content)
    requires AllItems(content, StoredId)
    ensures NormalizeContentList(Arr(ContentToJs(content))) == content
  {
    KeptContentOfIds(content);
    DedupeOfDistinct(content);
  }

  lemma KeptContentOfIds(content: seq<string>)
    requires forall i :: 0 <= i < |content| ==> StoredId(content[i])
    ensures KeptContent(ContentToJs(content)) == content
  {
    var items := ContentToJs(content);
    forall i | 0 <= i < |items| ensures KeptId(items[i]) == Some(content[i]) {
      assert items[i] == Str(content[i]) && StoredId(content[i]);
    }
    CollectConverted(items, KeptId, content);
  }

  /** A normalised descriptor's content has no repeats. */
  predicate WellFormedAddon(a: Addon)
  {
    NoDuplicates(a.content)
  }

  /**
   * `mergeAddonDefinitions`: with no base the override itself; else the
   * base's key, the override's non-empty name, type and namespace over
   * the base's, and the base content followed by the new ids.
   */
  function MergeAddons(base: Option<Addon>, over: Addon): (r: Addon)
    ensures base.None? ==> r == over
    ensures base.Some? ==> (r.key == base.value.key
      && r.name == (if over.name != [] then over.name else base.value.name)
      && r.kind == (if over.kind != [] then over.kind else base.value.kind)
      && r.namespace == (if over.namespace.Some? && over.namespace.value != [] then over.namespace else base.value.namespace))
    ensures base.Some? ==> forall x :: x in r.content <==> x in base.value.content || x in over.content
    ensures NoDuplicates(r.content) || base.None?
  {
    match base
    case None => over
    case Some(b) =>
      Addon(b.key,
        if over.name != [] then over.name else b.name,
        if over.kind != [] then over.kind else b.kind,
        if over.namespace.Some? && over.namespace.value != [] then over.namespace else b.namespace,
        Dedupe(b.content + over.content))
  }

  /** Merging never loses or reorders the base content. */
  lemma MergeKeepsBaseContent(base: Addon, over: Addon)
    requires WellFormedAddon(base)
    ensures var r := MergeAddons(Some(base), over);
      |base.content| <= |r.content| && r.content[..|base.content|] == base.content
  {
    DedupePrefix(base.content, over.content);
    DedupeOfDistinct(base.content);
  }

  /** Merging the same descriptor in again changes nothing. */
  lemma MergeIdempotent(base: Option<Addon>, over: Addon)
    requires WellFormedAddon(over)
    ensures MergeAddons(Some(MergeAddons(base, over)), over) == MergeAddons(base, over)
  {
    var m := MergeAddons(base, over);
    DedupeAppendPresent(m.content, over.content);
    if base.None? {
      DedupeOfDistinct(over.content);
    } else {
      DedupeIdempotent(base.value.content + over.content);
    }
  }

  /** Appending items already present changes nothing. */
  lemma {:induction false} DedupeAppendPresent(s: seq<string>, t: seq<string>)
    requires forall x :: x in t ==> x in s
    ensures Dedupe(s + t) == Dedupe(s)
    decreases |t|
  {
    if t == [] {
      assert s + t == s;
    } else {
      var t' := t[..|t| - 1];
      DedupeAppendPresent(s, t');
      assert (s + t)[..|s + t| - 1] == s + t';
      assert t[|t| - 1] in s + t';
    }
  }
}
