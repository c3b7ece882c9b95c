/**
 * The custom-field injectors other add-ons register to add lines to the
 * display: registration by identity, the lines each result gives, the run
 * over a list that survives failing injectors, and the lookup of the
 * providers that declare a component.
 */
module CustomFields {
  import opened Wrappers
  import opened Text
  import opened JsValue
  import opened Lists
  import opened Sorting
  import opened Namespaces

  /** `normalizeComponentKeys`: the trimmed non-empty texts of an array, without repeats, first occurrence first. */
  function NormalizeComponentKeys(components: Js): (r: seq<string>)
    ensures NoDuplicates(r)
    ensures !components.Arr? ==> r == []
    ensures components.Arr? ==> forall k :: k in r <==> exists i :: 0 <= i < |components.items| && NonBlankText(components.items[i]) == Some(k)
  {
    if components.Arr? then
      var kept := Collect(components.items, NonBlankText);
      assert forall k :: k in kept <==> exists i :: 0 <= i < |components.items| && NonBlankText(components.items[i]) == Some(k) by {
        forall k ensures k in kept <==> exists i :: 0 <= i < |components.items| && NonBlankText(components.items[i]) == Some(k) {
          CollectMembers(components.items, NonBlankText, k);
        }
      }
      Dedupe(kept)
    else []
  }

  /** A registered injector: its identity and what its options declared. */
  datatype InjectorEntry = InjectorEntry(handler: nat, provider: Option<string>, components: seq<string>)

  /** `createInjectorEntry`. */
  function CreateInjectorEntry(handler: nat, options: Js): InjectorEntry
  {
    InjectorEntry(handler, NonBlankText(Prop(options, "provider")), NormalizeComponentKeys(Prop(options, "components")))
  }

  /**
   * `normalizeInjectorResult`: a text gives its trimmed self unless blank;
   * an array gives its trimmed non-blank texts in order; anything else
   * gives no line.
   */
  function NormalizeInjectorResult(result: Js): (r: seq<string>)
    ensures result.Str? ==> r == (if IsBlank(result.s) then [] else [Trim(result.s)])
    ensures !result.Str? && !result.Arr? ==> r == []
    ensures forall i :: 0 <= i < |r| ==> r[i] != [] && Trim(r[i]) == r[i]
  {
    if result.Str? then
      match NonBlankText(result) case Some(line) => [line] case None => []
    else if result.Arr? then
      var r := Collect(result.items, NonBlankText);
      CollectAllItems(result.items, NonBlankText, Line);
      r
    else []
  }

  predicate Line(s: string)
  {
    s != [] && Trim(s) == s
  }

  function LinesToJs(lines: seq<string>): (r: seq<Js>)
    ensures |r| == |lines| && forall i :: 0 <= i < |lines| ==> r[i] == Str(lines[i])
  {
    seq(|lines|, i requires 0 <= i < |lines| => Str(lines[i]))
  }

  /** An array of lines that are already trimmed and non-empty gives exactly those lines. */
  lemma NormalizeLines(lines: seq<string>)
    requires forall i :: 0 <= i < |lines| ==> Line(lines[i])
    ensures NormalizeInjectorResult(Arr(LinesToJs(lines))) == lines
  {
    var items := LinesToJs(lines);
    forall i | 0 <= i < |items| ensures NonBlankText(items[i]) == Some(lines[i]) {
      assert items[i] == Str(lines[i]) && Line(lines[i]);
      assert !IsBlank(lines[i]);
    }
    CollectConverted(items, NonBlankText, lines);
  }

  /** Normalising the lines a result gave, written back as an array, gives them again. */
  lemma NormalizeInjectorResultIdempotent(result: Js)
    ensures NormalizeInjectorResult(Arr(LinesToJs(NormalizeInjectorResult(result)))) == NormalizeInjectorResult(result)
  {
    NormalizeLines(NormalizeInjectorResult(result));
  }

  // ---------------------------------------------------------------------------
  // Registration
  // ---------------------------------------------------------------------------

  predicate Listed(list: seq<InjectorEntry>, handler: nat)
  {
    exists i :: 0 <= i < |list| && list[i].handler == handler
  }

  /** No injector is registered twice. */
  predicate DistinctHandlers(list: seq<InjectorEntry>)
  {
    forall i, j :: 0 <= i < j < |list| ==> list[i].handler != list[j].handler
  }

  datatype Registered = Registered(ok: bool, list: seq<InjectorEntry>)

  /**
   * `registerInjector`: false for anything but a function; true and no
   * change for one already listed; else the new entry goes last.
   */
  function RegisterInjector(list: seq<InjectorEntry>, injector: Js, options: Js): (r: Registered)
    ensures r.ok <==> injector.Func?
    ensures injector.Func? ==> Listed(r.list, injector.id)
    ensures !injector.Func? || Listed(list, injector.id) ==> r.list == list
    ensures injector.Func? && !Listed(list, injector.id) ==> r.list == list + [CreateInjectorEntry(injector.id, options)]
    ensures DistinctHandlers(list) ==> DistinctHandlers(r.list)
  {
    if !injector.Func? then Registered(false, list)
    else if Listed(list, injector.id) then Registered(true, list)
    else
      var r := list + [CreateInjectorEntry(injector.id, options)];
      assert r[|list|].handler == injector.id;
      Registered(true, r)
  }

  /** `findIndex` on the handler: the first entry holding it. */
  function IndexOfHandler(list: seq<InjectorEntry>, handler: nat): (i: nat)
    requires Listed(list, handler)
    ensures i < |list| && list[i].handler == handler
    ensures forall j :: 0 <= j < i ==> list[j].handler != handler
  {
    if list[0].handler == handler then 0
    else
      assert Listed(list[1..], handler) by {
        var k :| 0 <= k < |list| && list[k].handler == handler;
        assert list[1..][k - 1] == list[k];
      }
      1 + IndexOfHandler(list[1..], handler)
  }

  /** `unregisterInjector`: false when the injector is not listed; else that one entry removed. */
  function UnregisterInjector(list: seq<InjectorEntry>, injector: Js): (r: Registered)
    ensures r.ok <==> injector.Func? && Listed(list, injector.id)
    ensures !r.ok ==> r.list == list
    ensures r.ok ==> |r.list| == |list| - 1
  {
    if injector.Func? && Listed(list, injector.id) then
      var i := IndexOfHandler(list, injector.id);
      Registered(true, list[..i] + list[i + 1..])
    else Registered(false, list)
  }

  /** With no injector registered twice, removing one leaves it unlisted and the others in order. */
  lemma UnregisterRemovesOnly(list: seq<InjectorEntry>, handler: nat)
    requires DistinctHandlers(list) && Listed(list, handler)
    ensures var r := UnregisterInjector(list, Func(handler)).list;
      && !Listed(r, handler) && DistinctHandlers(r)
      && forall h :: h != handler ==> (Listed(r, h) <==> Listed(list, h))
  {
    var i := IndexOfHandler(list, handler);
    var r := list[..i] + list[i + 1..];
    assert forall k :: 0 <= k < |r| ==> r[k] == (if k < i then list[k] else list[k + 1]);
    forall h | h != handler && Listed(list, h) ensures Listed(r, h) {
      var k :| 0 <= k < |list| && list[k].handler == h;
      if k < i {
        assert r[k] == list[k];
      } else {
        assert r[k - 1] == list[k];
      }
    }
  }

  /** A handler not yet listed is found at the end once appended. */
  lemma IndexOfAppended(list: seq<InjectorEntry>, e: InjectorEntry)
    requires !Listed(list, e.handler)
    ensures Listed(list + [e], e.handler) && IndexOfHandler(list + [e], e.handler) == |list|
  {
    var added := list + [e];
    assert added[|list|] == e;
  }

  /** Registering a new injector and unregistering it again restores the list. */
  lemma RegisterThenUnregister(list: seq<InjectorEntry>, handler: nat, options: Js)
    requires !Listed(list, handler)
    ensures var added := RegisterInjector(list, Func(handler), options).list;
      UnregisterInjector(added, Func(handler)) == Registered(true, list)
  {
    var e := CreateInjectorEntry(handler, options);
    var added := list + [e];
    IndexOfAppended(list, e);
    assert added[..|list|] == list;
    assert added[|list| + 1..] == [];
    assert added[..|list|] + added[|list| + 1..] == list;
  }

  // ---------------------------------------------------------------------------
  // Running
  // ---------------------------------------------------------------------------

  /** The lines one injector contributes: nothing when it throws. */
  function LinesOf(outcome: Outcome): seq<string>
  {
    match outcome
    case Threw => []
    case Returned(v) => NormalizeInjectorResult(v)
  }

  /**
   * `runInjectors`: each injector called in order, with `call` standing
   * for what each one does with the context, and the lines of each
   * appended.
   */
  function RunInjectors(list: seq<InjectorEntry>, call: nat -> Outcome): (r: seq<string>)
    ensures forall i :: 0 <= i < |r| ==> Line(r[i])
  {
    if list == [] then []
    else
      var head := LinesOf(call(list[0].handler));
      var rest := RunInjectors(list[1..], call);
      assert AllItems(head, Line) && AllItems(rest, Line);
      AppendAllItems(head, rest, Line);
      head + rest
  }

  /** Running two lists one after the other gives the lines of both, in order. */
  lemma {:induction false} RunAppend(a: seq<InjectorEntry>, b: seq<InjectorEntry>, call: nat -> Outcome)
    ensures RunInjectors(a + b, call) == RunInjectors(a, call) + RunInjectors(b, call)
    decreases |a|
  {
    if a != [] {
      assert (a + b)[0] == a[0] && (a + b)[1..] == a[1..] + b;
      RunAppend(a[1..], b, call);
    } else {
      assert a + b == b;
    }
  }

  /** A throwing injector at the head of a list adds nothing. */
  lemma RunThrowingHead(x: InjectorEntry, back: seq<InjectorEntry>, call: nat -> Outcome)
    requires call(x.handler).Threw?
    ensures RunInjectors([x] + back, call) == RunInjectors(back, call)
  {
    assert ([x] + back)[0] == x;
    assert ([x] + back)[1..] == back;
  }

  /** An injector that throws contributes nothing and does not stop the ones after it. */
  lemma ThrowingInjectorSkipped(list: seq<InjectorEntry>, call: nat -> Outcome, i: nat)
    requires i < |list| && call(list[i].handler).Threw?
    ensures RunInjectors(list, call) == RunInjectors(list[..i] + list[i + 1..], call)
  {
    var front := list[..i];
    var back := list[i + 1..];
    SplitAt(list, i);
    RunAppend(front, [list[i]] + back, call);
    RunThrowingHead(list[i], back, call);
    RunAppend(front, back, call);
  }

  // ---------------------------------------------------------------------------
  // Providers
  // ---------------------------------------------------------------------------

  /** The provider of an entry that declares the component. */
  function ProviderFor(componentKey: string): InjectorEntry -> Option<string>
  {
    (e: InjectorEntry) => if e.provider.Some? && e.provider.value != [] && componentKey in e.components then e.provider else None
  }

  /**
   * `getProvidersByComponent`: nothing for a key that is not text or is
   * blank; else the names of the providers, over block and entity
   * injectors, that declare the trimmed key, without repeats and sorted.
   */
  function GetProvidersByComponent(block: seq<InjectorEntry>, entity: seq<InjectorEntry>, componentKey: Js,
                                   less: (string, string) -> bool): (r: seq<string>)
    ensures !componentKey.Str? || IsBlank(componentKey.s) ==> r == []
    ensures NoDuplicates(r)
    ensures componentKey.Str? && !IsBlank(componentKey.s) ==> forall p :: p in r <==>
      exists e :: e in block + entity && e.provider == Some(p) && p != [] && Trim(componentKey.s) in e.components
  {
    if !componentKey.Str? || IsBlank(componentKey.s) then []
    else
      var key := Trim(componentKey.s);
      var all := block + entity;
      var names := Dedupe(Collect(all, ProviderFor(key)));
      InsertionSortDistinct(names, OrderOf(less));
      ProvidersListed(all, key);
      InsertionSort(names, OrderOf(less))
  }

  /** A name is collected for a key exactly when some entry with that provider declares the key. */
  lemma ProvidersListed(all: seq<InjectorEntry>, key: string)
    ensures forall p :: p in Collect(all, ProviderFor(key)) <==> exists e :: e in all && e.provider == Some(p) && p != [] && key in e.components
  {
    forall p ensures p in Collect(all, ProviderFor(key)) <==> exists e :: e in all && e.provider == Some(p) && p != [] && key in e.components {
      CollectMembers(all, ProviderFor(key), p);
      if exists e :: e in all && e.provider == Some(p) && p != [] && key in e.components {
        var e :| e in all && e.provider == Some(p) && p != [] && key in e.components;
        var i :| 0 <= i < |all| && all[i] == e;
        assert ProviderFor(key)(all[i]) == Some(p);
      }
    }
  }

  /** The provider names come out in the text order. */
  lemma ProvidersSorted(block: seq<InjectorEntry>, entity: seq<InjectorEntry>, componentKey: Js, less: (string, string) -> bool)
    requires StrictTotalOrder(less)
    ensures var r := GetProvidersByComponent(block, entity, componentKey, less);
      forall i, j :: 0 <= i < j < |r| ==> less(r[i], r[j])
  {
    var r := GetProvidersByComponent(block, entity, componentKey, less);
    if componentKey.Str? && !IsBlank(componentKey.s) {
      var key := Trim(componentKey.s);
      var names := Dedupe(Collect(block + entity, ProviderFor(key)));
      StrictOrderTotal(less);
      InsertionSortSorted(names, OrderOf(less));
      forall i, j | 0 <= i < j < |r| ensures less(r[i], r[j]) {
        assert OrderOf(less)(r[i], r[j]);
        assert r[i] != r[j];
      }
    }
  }
}
