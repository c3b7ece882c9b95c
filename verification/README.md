# Dorios' Insight display core, modelled in Dafny

Dorios' Insight is a Minecraft Bedrock behaviour-pack add-on. It shows an action-bar panel about whatever the player looks at. For blocks this covers the name, the owning add-on, block states, tags, tools and custom fields. For entities it covers health, hunger, effects, tags and families. This project models the pure core of its display scripts as immutable datatypes and functions, and proves what each step promises.

The model covers:

- **Settings resolution** (`config.js`): the enum normalisers, the clamping runtime normaliser, the component-visibility map, per-player overrides and their merge-then-normalise update, visibility policies, and the flattened per-tick settings with the legacy tags applied last. The world and player properties the host stores are optional values with an in-memory fallback (`SettingsStore`).
- **Formatting helpers** (`formatters.js`, `Modules/nextVariantModule.js`): type-id splitting, title-casing, namespace-prefix stripping, alias chasing that terminates on cycles, and the next-variant lookup.
- **Message arithmetic** (`messages.js`): the half-step glyph bar and its line breaks, the health display, glyph-set precedence, effect flags, levels, numerals, durations and polarity, the "first K, then `& N more`" sections, and tool descriptors.
- **The add-on registry** (`namespaceInjection.js`):
  - descriptor, key, namespace and content normalisation;
  - the merge of dynamic descriptors over the defaults, with both indexes rebuilt from the merged view;
  - persistence and reload, modelled through a parse parameter;
  - tag-priority sorting and the namespace-resolution precedence.
- **The block-state transformer pipeline** (`stateTraitInjection.js`): a registry ordered by priority and keyed by handler identity, the AND of the filters, result normalisation and its fixed application order, alias relabelling, and the merge-transformer factory.
- **Custom-field injectors** (`customFieldInjectors.js`): registration by identity, result normalisation, a run loop that survives throwing injectors, and the provider lookup.
- **The per-player controller** (`controller.js`) and **the `insight` command** (`commands.js`):
  - the controller is a state machine over the update schedule, the shown payloads, and the no-target counters;
  - each command is a transition of the settings store and the registry that returns the reply it sends.

Module layout:

- `JsValue`, `Text`, `Lists`, `OrderedMaps` and `Wrappers` model the JavaScript values and built-ins the scripts rely on. These are dynamic values, `trim`/`toLowerCase`/`split`/`join`, `new Set`, `Map` and `Object.entries`.
- `Formatters`, `NextVariant`, `Config`, `SettingsStore`, `Bars`, `Layout`, `Effects` and `Sections` follow the display scripts of the same names.
- `Namespaces`, `AddonRegistry`, `RegistryOps`, `RegistryStore`, `TagResolution` and `Sorting` follow `namespaceInjection.js`.
- `StateTraits` and `StatePipeline` follow `stateTraitInjection.js`, and `CustomFields` follows `customFieldInjectors.js`.
- `Controller` and `Commands` follow `controller.js` and `commands.js`.

Host behaviour enters only as parameters:

- handler results, as oracles returning a value or a throw;
- the raycast view;
- stored text and its JSON parse;
- the player's tags and the sneaking and creative flags;
- the locale comparison.

## Model

| member | source | states |
|---|---|---|
| Formatters.ToTitleWords | BP/scripts/display/formatters.js:1-10 | an empty list gives "Unknown"; a non-empty list of empty parts gives the empty text |
| Formatters.TitleWordsSplit | BP/scripts/display/formatters.js:6-9 | splitting a title at spaces gives back the non-empty parts, each with its first character upper-cased, in order |
| Formatters.SplitTypeId | BP/scripts/display/formatters.js:12-22 | an id without a colon belongs to "minecraft" ("unknown" when empty); otherwise the namespace is the text before the first colon and the id the colon-free text after it, ending at the second colon or the end |
| Formatters.SplitTypeIdRoundTrip | BP/scripts/display/formatters.js:12-22 | a colon-free namespace and id are recovered from `namespace:id` |
| Formatters.FormatNamespace | BP/scripts/display/formatters.js:24-26 | the line starts with a newline, the colour code and `@`, and ends with the reset code |
| Formatters.FormatNamespaceWords | BP/scripts/display/formatters.js:24-26 | between `@` and the reset code, splitting at spaces gives the namespace's non-empty underscore words, each with its first character upper-cased, in order |
| Formatters.FormatNamespaceLabel | BP/scripts/display/formatters.js:28-34 | an empty label gives `@Unknown` (through the title-casing of "unknown"); any other label appears verbatim |
| Formatters.FormatStateNameDropsNamespace | BP/scripts/display/formatters.js:36-39 | a namespaced state key is titled exactly like its bare key |
| Formatters.ToMessageText | BP/scripts/display/formatters.js:41-51 | strings pass unchanged, booleans become "true"/"false", and every value agrees with the generic `String` conversion |
| Formatters.UnderscoreNonAlnum | BP/scripts/display/formatters.js:58-60 | same length; lower-case letters and digits kept, every other character replaced by `_` |
| Formatters.CollapseUnderscores | BP/scripts/display/formatters.js:61 | no two underscores remain adjacent, the end characters are kept and no new character appears |
| Formatters.CollapseKeepsContent | BP/scripts/display/formatters.js:61 | collapsing underscore runs keeps every other character, in order |
| Formatters.CollapseUnderscoresIdempotent | BP/scripts/display/formatters.js:61 | a text without underscore runs is unchanged |
| Formatters.TrimOneUnderscore | BP/scripts/display/formatters.js:62 | on a collapsed text neither end is an underscore afterwards |
| Formatters.NamespaceSlug | BP/scripts/display/formatters.js:58-62 | the slug holds only lower-case letters, digits and `_`, and neither starts nor ends with `_` |
| Formatters.StripFirstCandidate | BP/scripts/display/formatters.js:71-79 | the id is unchanged when no candidate strips; otherwise exactly the first stripping candidate's length is removed, leaving a non-empty id |
| Formatters.RemoveRepeatedNamespacePrefix | BP/scripts/display/formatters.js:53-80 | an empty id or namespace leaves the id unchanged; a prefix is removed only when it matches ignoring case and the id is strictly longer |
| Formatters.FormatTypeIdToText | BP/scripts/display/formatters.js:82-87 | the title never contains `_`, `.` or `:` |
| Formatters.FormatTypeIdWords | BP/scripts/display/formatters.js:82-87 | splitting the title at spaces gives the non-empty words of the id, with its repeated namespace removed and `.` and `:` read as `_`, each with its first character upper-cased, in order |
| NextVariant.StripNamespace | BP/scripts/display/Modules/nextVariantModule.js:3-7 | an id without a colon is unchanged; otherwise everything after the first colon is kept, further colons included |
| NextVariant.StripNamespaceOfBare | BP/scripts/display/Modules/nextVariantModule.js:3-7 | a colon-free namespace is removed whole from `namespace:id`, whatever the id contains |
| NextVariant.AliasWalk | BP/scripts/display/Modules/nextVariantModule.js:9-19 | the chase starts at the given id and stops at once on an id without alias or already visited |
| NextVariant.AliasWalkFollows | BP/scripts/display/Modules/nextVariantModule.js:13-15 | each step of the chase goes from an aliased, not yet visited id to its alias |
| NextVariant.AliasWalkSteps | BP/scripts/display/Modules/nextVariantModule.js:11-16 | no id is left twice, and the chase ends on an id without alias or one already visited |
| NextVariant.ResolveAlias | BP/scripts/display/Modules/nextVariantModule.js:9-19 | an id without alias, or aliased to itself, resolves to itself |
| NextVariant.ResolveAliasStops | BP/scripts/display/Modules/nextVariantModule.js:9-19 | the chase terminates on any alias map, cyclic ones included, after at most as many steps as there are aliased ids |
| NextVariant.BlockIdToDisplayName | BP/scripts/display/Modules/nextVariantModule.js:21-27 | the display name is the title-cased underscore words of the id without its namespace |
| NextVariant.AddStatesSpec | BP/scripts/display/Modules/nextVariantModule.js:60-67 | scanning a cycle records each non-empty id at its last position in that cycle and leaves other ids alone |
| NextVariant.LookupUpToSpec | BP/scripts/display/Modules/nextVariantModule.js:47-73 | an id is in the lookup iff it occurs as a non-empty string in an array cycle, and then it maps to its last occurrence in scanning order |
| NextVariant.LookupEntryInRange | BP/scripts/display/Modules/nextVariantModule.js:47-73 | every recorded position points at that id in an array cycle |
| NextVariant.FirstStrippedMatch | BP/scripts/display/Modules/nextVariantModule.js:87-94 | nothing iff no recorded id has the same stripped name; otherwise the first such entry in map order |
| NextVariant.FindEntryForBlockId | BP/scripts/display/Modules/nextVariantModule.js:75-95 | exact id first, then the alias-resolved id, then the first stripped-name match |
| NextVariant.GetVariantSource | BP/scripts/display/Modules/nextVariantModule.js:29-41 | a source exactly when the global's `MATERIAL_CYCLES` is an array, carrying those cycles; a `Map` instance is used as it is, and a `BLOCK_ALIAS` that is neither a `Map` nor an array gives no aliases |
| NextVariant.VariantAliasKeys | BP/scripts/display/Modules/nextVariantModule.js:36-40 | with a `BLOCK_ALIAS` array, an id is aliased exactly when some text pair of the array names it |
| NextVariant.VariantAliasLastPair | BP/scripts/display/Modules/nextVariantModule.js:36-40 | with a `BLOCK_ALIAS` array, the last pair naming an id decides its alias, as `new Map(pairs)` does |
| NextVariant.CollectNextVariant | BP/scripts/display/Modules/nextVariantModule.js:97-129 | a line only when both flags are on, the id is non-empty and the source exists; it names the entry at `(stateIndex + 1) mod length` of a cycle of length at least two |
| NextVariant.NextVariantOfListedBlock | BP/scripts/display/Modules/nextVariantModule.js:75-129 | a line appears exactly when both switches are on, the id is non-empty, the source is published and the entry found for the block, by exact id, alias or stripped name, is followed in an array cycle of at least two items by non-empty text |
| NextVariant.NextVariantOfAliasedBlock | BP/scripts/display/Modules/nextVariantModule.js:82-85 | a block not listed itself but whose alias chase ends on a listed id shows the variant after that id |
| CustomFields.NormalizeComponentKeys | BP/scripts/display/customFieldInjectors.js:38-59 | a non-array gives no key; otherwise a key is kept iff some array item is text that trims to it non-empty, and no key appears twice |
| CustomFields.NormalizeInjectorResult | BP/scripts/display/customFieldInjectors.js:73-98 | text gives its trimmed self unless blank; a value that is neither text nor array gives nothing; every line is trimmed and non-empty |
| CustomFields.NormalizeLines | BP/scripts/display/customFieldInjectors.js:79-97 | an array of trimmed non-empty lines normalises to exactly those lines, in order |
| CustomFields.NormalizeInjectorResultIdempotent | BP/scripts/display/customFieldInjectors.js:73-98 | normalising the normalised lines again gives them unchanged |
| CustomFields.RegisterInjector | BP/scripts/display/customFieldInjectors.js:100-111 | false iff not a function; a listed handler leaves the list unchanged; a new one is appended last; no handler is ever listed twice |
| CustomFields.IndexOfHandler | BP/scripts/display/customFieldInjectors.js:114 | the first entry holding the handler |
| CustomFields.UnregisterInjector | BP/scripts/display/customFieldInjectors.js:113-121 | false iff the handler is not listed, with the list unchanged; otherwise exactly one entry is removed |
| CustomFields.UnregisterRemovesOnly | BP/scripts/display/customFieldInjectors.js:113-121 | the removed handler is no longer listed and every other handler still is |
| CustomFields.RegisterThenUnregister | BP/scripts/display/customFieldInjectors.js:100-121 | registering a new handler and unregistering it again restores the list |
| CustomFields.RunInjectors | BP/scripts/display/customFieldInjectors.js:123-136 | every collected line is trimmed and non-empty |
| CustomFields.RunAppend | BP/scripts/display/customFieldInjectors.js:126-133 | running two lists in turn gives the lines of both, in registration order |
| CustomFields.ThrowingInjectorSkipped | BP/scripts/display/customFieldInjectors.js:127-132 | a throwing injector contributes nothing and the injectors after it still run |
| CustomFields.GetProvidersByComponent | BP/scripts/display/customFieldInjectors.js:146-172 | a key that is not text or is blank gives no name; otherwise a name is listed iff some block or entity entry with that provider declares the trimmed key, with no repeats |
| CustomFields.ProvidersListed | BP/scripts/display/customFieldInjectors.js:158-169 | a provider name is collected exactly when some entry with that non-empty provider declares the key |
| CustomFields.ProvidersSorted | BP/scripts/display/customFieldInjectors.js:171 | the names come out strictly increasing in the text order |
| StateTraits.NormalizeStateKey | BP/scripts/display/stateTraitInjection.js:30-32 | a falsy value gives the empty key; a text gives its trimmed, lower-cased form; every key is already in that form |
| StateTraits.NormalizeStateKeyIdempotent | BP/scripts/display/stateTraitInjection.js:30-32 | normalising a normalised key changes nothing |
| StateTraits.NormalizeStrings | BP/scripts/display/stateTraitInjection.js:43-59 | a non-array gives the empty list; otherwise the result holds no duplicates and holds exactly the values the normaliser accepted from some item |
| StateTraits.NormalizeKeyList | BP/scripts/display/stateTraitInjection.js:43-59 | a duplicate-free list of non-empty normalised keys comes back unchanged, in order |
| StateTraits.NormalizeRenameMap | BP/scripts/display/stateTraitInjection.js:153-170 | anything that is not an object gives the empty map |
| StateTraits.RenameMapLabels | BP/scripts/display/stateTraitInjection.js:159-167 | every key of the rename map is a non-empty normalised key and every label is non-empty trimmed text |
| StateTraits.RenameLastWins | BP/scripts/display/stateTraitInjection.js:159-167 | of the accepted entries for one key, the last one decides its label |
| StateTraits.NormalizeReplaceMap | BP/scripts/display/stateTraitInjection.js:172-188 | anything that is not an object gives the empty map; every kept key is non-empty and normalised |
| StateTraits.ReplaceKeepsUndefined | BP/scripts/display/stateTraitInjection.js:178-185 | a replacement is kept under its key even when its value is `undefined` |
| StateTraits.InjectedEntry | BP/scripts/display/stateTraitInjection.js:197-215 | an item makes a row exactly when it is an object; the row is injected, keyed by the normalised `key`, and carries the item's value and its text |
| StateTraits.TextKeyLabel | BP/scripts/display/stateTraitInjection.js:61-73 | with a text key and no usable label, the row is labelled by the trimmed key, or "State" when the key is blank |
| StateTraits.NormalizeTransformerEntries | BP/scripts/display/stateTraitInjection.js:190-219 | a non-array gives no rows; every row made is marked injected |
| StateTraits.NormalizeTransformerResult | BP/scripts/display/stateTraitInjection.js:221-239 | a non-object gives the empty result; hidden and replaced keys are non-empty, and every added row is injected |
| StateTraits.Revise | BP/scripts/display/stateTraitInjection.js:292-304 | a row keeps its key; a non-empty rename replaces its label; a replacement sets the raw value and recomputes its text; otherwise value and text are kept |
| StateTraits.ReviseUntouched | BP/scripts/display/stateTraitInjection.js:296-304 | a row whose key is neither renamed nor replaced is unchanged |
| StateTraits.Survivors | BP/scripts/display/stateTraitInjection.js:285-307 | no more rows than given, none with a hidden key |
| StateTraits.SurvivorsKeep | BP/scripts/display/stateTraitInjection.js:287-307 | every row whose key is not hidden survives, revised |
| StateTraits.SurvivorsAppend | BP/scripts/display/stateTraitInjection.js:287-307 | filtering a concatenation filters each part |
| StateTraits.SurvivorsNoChange | BP/scripts/display/stateTraitInjection.js:287-307 | the empty result keeps every row as it is |
| StateTraits.ApplyAliasLabels | BP/scripts/display/stateTraitInjection.js:241-252 | the rows keep their number and order, and each takes its key's alias label when there is one |
| StateTraits.ApplyAliasLabelsIdempotent | BP/scripts/display/stateTraitInjection.js:241-252 | after the alias pass every keyed row with an alias already carries it |
| StateTraits.ApplyAliasLabelsAppend | BP/scripts/display/stateTraitInjection.js:241-252 | the alias pass over a concatenation is the pass over each part |
| StateTraits.ApplyTransformerResult | BP/scripts/display/stateTraitInjection.js:284-317 | every keyed row of the result carries its alias label |
| StateTraits.ApplyShape | BP/scripts/display/stateTraitInjection.js:309-316 | the result is the prepended rows, the surviving originals in order, then the appended rows, and no surviving original has a hidden key |
| StateTraits.AliasBeatsRename | BP/scripts/display/stateTraitInjection.js:296-298 | an alias decides a row's label whatever the result renamed it to |
| StateTraits.NoChangeKeepsEntries | BP/scripts/display/stateTraitInjection.js:284-317 | the empty result returns rows that already carry their aliases unchanged |
| StateTraits.ToStateEntries | BP/scripts/display/stateTraitInjection.js:254-268 | one row per own entry of the raw states (none for a missing object), none injected, each with its alias label |
| StateTraits.ToStateMap | BP/scripts/display/stateTraitInjection.js:270-282 | rows with an empty key are left out of the map |
| StateTraits.StateMapLookup | BP/scripts/display/stateTraitInjection.js:270-282 | a key is in the map exactly when some row has it, and maps to the value of the last such row |
| StateTraits.RegisterStateAlias | BP/scripts/display/stateTraitInjection.js:319-329 | succeeds exactly when the key normalises to non-empty and the label is non-blank, then sets that one alias; a failure leaves the table alone |
| StateTraits.RegisterOneAlias | BP/scripts/display/stateTraitInjection.js:319-329 | registering one entry is one step of the rename-map reading of that entry |
| StateTraits.RegisterEachAliasAssigns | BP/scripts/display/stateTraitInjection.js:331-342 | registering a map of aliases sets the last accepted label for each key, and answers true exactly when some entry was accepted |
| StatePipeline.LowerStrings | BP/scripts/display/stateTraitInjection.js:80-91 | a filter list holds no duplicates and only non-empty, unpadded, lower-case text, and holds exactly the lower-cased non-blank texts of the array |
| StatePipeline.Priority | BP/scripts/display/stateTraitInjection.js:76-79 | a finite numeric priority is kept; any other priority that is not text or an array counts as 1 when it is `true` and 0 otherwise |
| StatePipeline.NormalizeTransformerOptions | BP/scripts/display/stateTraitInjection.js:75-93 | the options carry the read priority and three duplicate-free lower-case filter lists; a non-object gives priority 0 and empty filters |
| StatePipeline.AddHandlerPlacement | BP/scripts/display/stateTraitInjection.js:95-115 | a new handler goes in after every entry of lower or equal priority and before every entry of higher priority, the others keeping their order, and the registry stays valid |
| StatePipeline.AddHandlerShape | BP/scripts/display/stateTraitInjection.js:108-113 | appending then stably sorting by priority is inserting the entry at its insertion point of the sorted list |
| StatePipeline.RegisterBlockStateTransformer | BP/scripts/display/stateTraitInjection.js:99-115 | true exactly for a function; a non-function changes nothing; a listed function is not added twice; a new one adds exactly one entry |
| StatePipeline.IndexOfHandler | BP/scripts/display/stateTraitInjection.js:118 | the first entry holding the handler |
| StatePipeline.UnregisterBlockStateTransformer | BP/scripts/display/stateTraitInjection.js:117-125 | true exactly for a listed function, which loses exactly its entry (as a multiset); anything else changes nothing |
| StatePipeline.UnregisterKeepsValid | BP/scripts/display/stateTraitInjection.js:117-125 | removing a handler keeps the registry sorted by priority and duplicate-free, and the handler is no longer listed |
| StatePipeline.RegisterThenUnregister | BP/scripts/display/stateTraitInjection.js:99-125 | registering a new function and unregistering it gives back the registry as it was |
| StatePipeline.ShouldRunTransformer | BP/scripts/display/stateTraitInjection.js:127-151 | runs exactly when every non-empty filter accepts the block: its namespace listed, its type id starting with a listed prefix, every required tag present |
| StatePipeline.MakeRunContext | BP/scripts/display/stateTraitInjection.js:382-392 | the type id is trimmed and lower-cased, the namespace is the one split from it, tags are lower-case, and no tag array gives no tags |
| StatePipeline.MergeKey | BP/scripts/display/stateTraitInjection.js:345 | the merged key is a normalised key |
| StatePipeline.MergeSources | BP/scripts/display/stateTraitInjection.js:347 | the sources are duplicate-free, non-empty normalised keys |
| StatePipeline.MergeLabel | BP/scripts/display/stateTraitInjection.js:346 | the label is non-empty trimmed text, "Merged" when the definition has no usable label |
| StatePipeline.MergeSpecOf | BP/scripts/display/stateTraitInjection.js:344-357 | a merge exists exactly when the key is non-empty and there are at least two sources; it carries them and hides the sources unless `hideOriginal` is `false` |
| StatePipeline.RegisterStateMerge | BP/scripts/display/stateTraitInjection.js:344-379 | a `null` definition throws; a definition without a merge answers false and changes nothing; otherwise one new merge transformer is registered and the registry stays valid |
| StatePipeline.AddMerge | BP/scripts/display/stateTraitInjection.js:359-378 | a merge gets a fresh instance number and adds exactly one listed entry, keeping the registry valid |
| StatePipeline.SourceValues | BP/scripts/display/stateTraitInjection.js:360 | one value per source, in order, `undefined` for a key not in the state map |
| StatePipeline.MergeRun | BP/scripts/display/stateTraitInjection.js:359-376 | a missing or `undefined` source gives `undefined`; otherwise the default formatter joins the values' texts with the separator, and a custom formatter's throw is passed on |
| StatePipeline.MergeResult | BP/scripts/display/stateTraitInjection.js:366-375 | a merge's object normalises to hiding the sources when asked and appending the merged row, nothing else |
| StatePipeline.Step | BP/scripts/display/stateTraitInjection.js:403-425 | a transformer whose filters reject the block leaves the rows alone; rows carrying their aliases still carry them after a turn |
| StatePipeline.RunAll | BP/scripts/display/stateTraitInjection.js:403-425 | the alias labels survive the whole run; a list of transformers none of which runs leaves the rows alone |
| StatePipeline.TransformBlockStateEntries | BP/scripts/display/stateTraitInjection.js:381-428 | every row carries its alias label; with no transformers the rows are the raw states, one per own entry, none injected |
| StatePipeline.RunAllAppend | BP/scripts/display/stateTraitInjection.js:403-425 | running two lists of transformers is running the first, then the second on its rows |
| StatePipeline.StepWithoutResult | BP/scripts/display/stateTraitInjection.js:411-424 | a transformer that throws or returns a non-object leaves the rows as they are |
| StatePipeline.EmptyObjectResult | BP/scripts/display/stateTraitInjection.js:221-239 | an empty object as the result is the empty result |
| StatePipeline.ThrowingTransformerRemovable | BP/scripts/display/stateTraitInjection.js:411-421 | a transformer that always throws can be taken out of the list without changing the pipeline's rows |
| StatePipeline.MergeMissingSourceNoOp | BP/scripts/display/stateTraitInjection.js:360-363 | a merge with a missing or `undefined` source leaves the rows as they are |
| StatePipeline.Without | BP/scripts/display/stateTraitInjection.js:287-290 | the rows whose key is not among the given keys, no others |
| StatePipeline.SurvivorsOfHide | BP/scripts/display/stateTraitInjection.js:285-307 | with no renames or replacements, filtering a result is dropping its hidden keys |
| StatePipeline.ApplyHideAndAppend | BP/scripts/display/stateTraitInjection.js:284-317 | a result that only hides and appends keeps the other rows, then the appended ones under their aliases |
| StatePipeline.MergeAppendsRow | BP/scripts/display/stateTraitInjection.js:359-378 | a merge that runs with all sources present hides the sources when asked and appends the joined row under its alias; the other rows stay as they were |
| Namespaces.CollapseSpaces | BP/scripts/display/namespaceInjection.js:44 | no white space is left |
| Namespaces.NormalizeAddonKey | BP/scripts/display/namespaceInjection.js:40-46 | the key is made only of `[a-z0-9_.-]` |
| Namespaces.NormalizeAddonKeyIdempotent | BP/scripts/display/namespaceInjection.js:40-46 | normalising a normalised key changes nothing |
| Namespaces.KeyTextIsFixed | BP/scripts/display/namespaceInjection.js:40-46 | text made of key characters is its own key, already trimmed and lower-case |
| Namespaces.NormalizeNamespaceInput | BP/scripts/display/namespaceInjection.js:48-72 | a namespace is found only in a string, is non-empty, colon-free and made of key characters; a non-string or blank input gives none |
| Namespaces.NormalizeNamespaceInputIdempotent | BP/scripts/display/namespaceInjection.js:48-72 | a found namespace normalises to itself |
| Namespaces.NormalizeNamespaceOfTypeId | BP/scripts/display/namespaceInjection.js:58-71 | a namespaced type id gives the namespace before its colon |
| Namespaces.NormalizeNamespaceOfMixedCase | BP/scripts/display/namespaceInjection.js:48-72 | a namespaced type id, whatever case its namespace is written in, gives that namespace lower-cased, provided the lower-cased form is made of key characters |
| Namespaces.DecodeTagPayload | BP/scripts/display/namespaceInjection.js:74-79 | no underscore is left |
| Namespaces.EncodeTagPayload | BP/scripts/display/namespaceInjection.js:74-79 | the tag form of a text is no shorter than the text |
| Namespaces.DecodeEncodedTagPayload | BP/scripts/display/namespaceInjection.js:74-79 | decoding the tag form of a text without underscores, and with only single spaces not next to a colon, gives the text back |
| Namespaces.DecodeNamespacePayload | BP/scripts/display/namespaceInjection.js:81-88 | no dot, no upper case and no white space is left |
| Namespaces.DecodePlainPayload | BP/scripts/display/namespaceInjection.js:81-88 | on lower-case text without white space, decoding is turning `__` into `:` and then `.` into `:` |
| Namespaces.DecodeNamespaceFixed | BP/scripts/display/namespaceInjection.js:81-88 | lower-case text without white space, `.` or `__` is already decoded |
| Namespaces.DecodeDottedPayload | BP/scripts/display/namespaceInjection.js:81-88 | `namespace.id` decodes to `namespace:id` when both parts are lower-case and hold no white space, `.` or `__` |
| Namespaces.DecodeUnderscoredPayload | BP/scripts/display/namespaceInjection.js:81-88 | `namespace__id` decodes to `namespace:id` when both parts are lower-case and hold no white space, `.` or `__`, and the namespace does not end in `_` |
| Namespaces.KeptId | BP/scripts/display/namespaceInjection.js:96-106 | an item is kept exactly when it is a string whose trimmed, lower-cased form holds a colon |
| Namespaces.KeptContentMembers | BP/scripts/display/namespaceInjection.js:96-107 | an id is collected exactly when some item gives it |
| Namespaces.NormalizeContentList | BP/scripts/display/namespaceInjection.js:90-110 | a non-array gives the empty list; otherwise the ids are duplicate-free and are exactly the namespaced string items, trimmed and lower-cased |
| Namespaces.ContentListIds | BP/scripts/display/namespaceInjection.js:90-110 | every id of a normalised list holds a colon and is already normalised |
| Namespaces.NonBlankText | BP/scripts/display/namespaceInjection.js:123-124 | text is found exactly for a non-blank string, and it is that string trimmed |
| Namespaces.LowerText | BP/scripts/display/namespaceInjection.js:127-133 | text is found exactly for a non-blank string, and it is non-empty, trimmed and lower-case |
| Namespaces.AddonKind | BP/scripts/display/namespaceInjection.js:127-129 | the type is non-empty, trimmed and lower-case |
| Namespaces.AddonNameForm | BP/scripts/display/namespaceInjection.js:123-125 | the name is either trimmed text or the title made from the key's words |
| Namespaces.NormalizeAddonDefinitionAsWritten | BP/scripts/display/namespaceInjection.js:112-144 | nothing exactly for a non-object or a `key \|\| name` that is not non-blank text; otherwise the key is that text normalised, which may be empty |
| Namespaces.EmptyKeyAccepted | BP/scripts/display/namespaceInjection.js:117-122 | a descriptor keyed `"!!!"` is accepted with the empty key |
| Namespaces.EmptyKeyRekeyedOnReload | BP/scripts/display/namespaceInjection.js:117-122 | the record of an empty-keyed descriptor named "Foo" reads back under the key "foo" |
| Namespaces.NormalizeAddonDefinition | BP/scripts/display/namespaceInjection.js:112-144 | the definition as written, except that an empty normalised key is rejected; every descriptor it gives is in persisted form |
| Namespaces.NormalizeAddonRoundTrip | BP/scripts/display/namespaceInjection.js:112-144 | reading back the record of a normalised descriptor gives the same descriptor |
| Namespaces.ContentRoundTrip | BP/scripts/display/namespaceInjection.js:90-110 | a duplicate-free list of stored ids normalises to itself |
| Namespaces.MergeAddons | BP/scripts/display/namespaceInjection.js:146-158 | with no base, the override; otherwise the base's key, the override's non-empty name, type and namespace over the base's, and content holding exactly the ids of both, without repeats |
| Namespaces.MergeKeepsBaseContent | BP/scripts/display/namespaceInjection.js:156 | the base's content comes first, in its order |
| Namespaces.MergeIdempotent | BP/scripts/display/namespaceInjection.js:146-158 | merging the same descriptor in again changes nothing |
| AddonRegistry.DefaultLibrary | BP/scripts/display/namespaceInjection.js:7-11 | the library holds exactly the normalised forms of the bundled entries that normalise, never more than there are entries, all in persisted form |
| AddonRegistry.LayDefaults | BP/scripts/display/namespaceInjection.js:165-173 | the defaults laid out by key form a keyed map whose every entry is stored under its own key |
| AddonRegistry.LayDynamic | BP/scripts/display/namespaceInjection.js:175-178 | laying the run-time descriptors over the defaults keeps the map keyed and self-keyed, and it holds exactly the keys of both |
| AddonRegistry.MergedByKey | BP/scripts/display/namespaceInjection.js:160-178 | the merged view is keyed, self-keyed and in persisted form, and holds exactly the keys of the defaults and of the run-time descriptors |
| AddonRegistry.ContentIndex | BP/scripts/display/namespaceInjection.js:180-189 | the content index holds exactly the ids some merged descriptor lists |
| AddonRegistry.NamespaceIndexOf | BP/scripts/display/namespaceInjection.js:180-185 | the namespace index holds exactly the namespaces some merged descriptor is indexed under |
| AddonRegistry.ContentIndexLastOwner | BP/scripts/display/namespaceInjection.js:186-188 | of two descriptors listing an id, the later one is the one the index names |
| AddonRegistry.ContentIndexSound | BP/scripts/display/namespaceInjection.js:186-188 | the index names, for every id, a descriptor that lists it |
| AddonRegistry.NamespaceIndexLastOwner | BP/scripts/display/namespaceInjection.js:181-184 | of two descriptors indexed under a namespace, the later one is the one the index names |
| AddonRegistry.NamespaceIndexSound | BP/scripts/display/namespaceInjection.js:181-184 | the index names, for every namespace, a descriptor indexed under it |
| AddonRegistry.MergeNormalized | BP/scripts/display/namespaceInjection.js:146-158 | merging a persisted-form descriptor into one with the same key keeps the persisted form |
| RegistryOps.GetAddonByKey | BP/scripts/display/namespaceInjection.js:284-287 | a descriptor is found exactly for a key of the merged view, carries that key and is in persisted form |
| RegistryOps.FindByContentSound | BP/scripts/display/namespaceInjection.js:289-303 | a type id finds only a descriptor that lists its trimmed, lower-cased form |
| RegistryOps.FindByContentLastOwner | BP/scripts/display/namespaceInjection.js:289-303 | a type id finds the last merged descriptor that lists it |
| RegistryOps.FindByNamespaceSound | BP/scripts/display/namespaceInjection.js:305-319 | a namespace finds only a descriptor indexed under its normalised form |
| RegistryOps.FindByNamespaceLastOwner | BP/scripts/display/namespaceInjection.js:305-319 | a namespace finds the last merged descriptor indexed under it |
| RegistryOps.StoreDynamic | BP/scripts/display/namespaceInjection.js:329-330 | the descriptor is merged into the entry for its key, every other key keeps its entry, and the map stays keyed, self-keyed and in persisted form |
| RegistryOps.Register | BP/scripts/display/namespaceInjection.js:321-339 | true exactly when the descriptor normalises; then its key's run-time entry is the merge and no other key changes; otherwise nothing changes; the registry stays consistent |
| RegistryOps.RegisterIdempotent | BP/scripts/display/namespaceInjection.js:321-339 | registering the same descriptor twice is registering it once |
| RegistryOps.RegisteredContentFound | BP/scripts/display/namespaceInjection.js:289-303 | after registering a descriptor, each id it lists is found by the type-id lookup, under a descriptor listing it |
| RegistryOps.RegisterEach | BP/scripts/display/namespaceInjection.js:386-390 | registering a list in turn answers true exactly when some item normalises, and changes nothing otherwise |
| RegistryOps.RegisterAll | BP/scripts/display/namespaceInjection.js:381-397 | false for anything but an array; otherwise true exactly when some item normalises; a false answer changes nothing |
| RegistryOps.RegisterAllSingle | BP/scripts/display/namespaceInjection.js:381-397 | a list of one descriptor registers as that descriptor does alone |
| RegistryOps.RegisterEachAppend | BP/scripts/display/namespaceInjection.js:386-390 | registering a list then one more descriptor is registering the longer list |
| RegistryOps.AliasName | BP/scripts/display/namespaceInjection.js:343 | the display name is empty or trimmed text |
| RegistryOps.RegisterNamespaceAlias | BP/scripts/display/namespaceInjection.js:341-367 | refused as invalid input exactly when the namespace does not normalise or the name is blank, and a refusal changes nothing; the registry stays consistent |
| RegistryOps.AliasAccepted | BP/scripts/display/namespaceInjection.js:341-367 | a valid alias is accepted under the key `namespace_<ns>`, and the registry is the one registering the alias descriptor gives |
| RegistryOps.AliasFoundByNamespace | BP/scripts/display/namespaceInjection.js:305-367 | an alias for a key not yet present is found afterwards by its namespace |
| RegistryOps.FreshKeyAppended | BP/scripts/display/namespaceInjection.js:160-190 | storing a descriptor under a new key appends it to the end of the merged view |
| RegistryStore.LoadOne | BP/scripts/display/namespaceInjection.js:242-250 | an item that does not normalise is skipped; loading never loses a key and keeps the entries keyed and in persisted form |
| RegistryStore.LoadItems | BP/scripts/display/namespaceInjection.js:242-250 | loading a list never loses a key and keeps the entries keyed and in persisted form |
| RegistryStore.LoadDynamic | BP/scripts/display/namespaceInjection.js:217-251 | a stored value that is not text or is blank gives no run-time descriptors; whatever is read is in persisted form |
| RegistryStore.PersistedItems | BP/scripts/display/namespaceInjection.js:254-260 | one record per run-time descriptor, in order |
| RegistryStore.PersistDynamic | BP/scripts/display/namespaceInjection.js:253-262 | the stored value is an array with one item per run-time descriptor |
| RegistryStore.Init | BP/scripts/display/namespaceInjection.js:272-282 | the first registry is consistent and its defaults are the normalised library |
| RegistryStore.LoadFresh | BP/scripts/display/namespaceInjection.js:242-250 | reading back the record of a descriptor under a key not read yet appends it unchanged |
| RegistryStore.LoadSuffix | BP/scripts/display/namespaceInjection.js:242-250 | reading back the records from any point onwards completes the descriptors |
| RegistryStore.PersistRoundTrip | BP/scripts/display/namespaceInjection.js:217-262 | writing the run-time descriptors and reading the record back gives them again, in order |
| RegistryStore.ReloadKeepsRegistry | BP/scripts/display/namespaceInjection.js:217-282 | a registry rebuilt from the same library and the record written after a change is the registry the change produced |
| TagResolution.ExtractTagPayload | BP/scripts/display/namespaceInjection.js:192-204 | no payload exactly when no text tag starts with the prefix and carries more; a payload is never empty |
| TagResolution.ExtractFirstMatch | BP/scripts/display/namespaceInjection.js:192-204 | the payload is the rest of the first matching tag |
| TagResolution.ExtractWritten | BP/scripts/display/namespaceInjection.js:192-204 | a tag written as the prefix and a payload gives that payload back |
| TagResolution.GetTagPriority | BP/scripts/display/namespaceInjection.js:206-215 | the index of the first prioritised prefix the tag starts with, or the number of prefixes when none matches |
| TagResolution.TagOrderTotal | BP/scripts/display/namespaceInjection.js:449-458 | the display comparator is a total preorder whenever the text order is a strict total order |
| TagResolution.DisplayTag | BP/scripts/display/namespaceInjection.js:447 | a tag is kept exactly when it is non-empty text |
| TagResolution.SortBlockTagsForDisplay | BP/scripts/display/namespaceInjection.js:446-461 | the result has no repeats and holds exactly the non-empty text tags |
| TagResolution.SortBlockTagsOrdered | BP/scripts/display/namespaceInjection.js:446-461 | the tags run by prefix priority and, within one priority, by the text order |
| TagResolution.MappedAddon | BP/scripts/display/namespaceInjection.js:474-477 | a mapped add-on comes from the tag, the content or the namespace lookup |
| TagResolution.ResolveInjectedNamespace | BP/scripts/display/namespaceInjection.js:463-520 | injected exactly when the source is not the default; the original namespace is the id's; an alias tag decides label and source last; else a mapped add-on's name, else a namespace tag's label, else the default label; the add-on fields and resolved namespace follow the mapped add-on |
| TagResolution.UntaggedDefault | BP/scripts/display/namespaceInjection.js:463-520 | an untagged block no lookup maps is shown under its own namespace's label, not injected |
| TagResolution.TagAddonWins | BP/scripts/display/namespaceInjection.js:474-503 | an add-on named by a tag beats the content and namespace lookups |
| TagResolution.ContentBeatsNamespace | BP/scripts/display/namespaceInjection.js:474-503 | without an add-on tag, the content lookup beats the namespace lookup |
| TagResolution.AliasDecidesLabel | BP/scripts/display/namespaceInjection.js:505-508 | the alias tag decides the label and the source whatever else the block maps to |
| TagResolution.ResolveRegisteredContent | BP/scripts/display/namespaceInjection.js:321-339 | an untagged block whose id a registered descriptor lists is shown under that add-on, found by content |
| Sorting.Insert | BP/scripts/display/stateTraitInjection.js:95-97 | inserting adds exactly the one item: the result is a permutation of the list and the item |
| Sorting.InsertSorted | BP/scripts/display/stateTraitInjection.js:95-97 | inserting into a sorted list under a total preorder keeps it sorted |
| Sorting.InsertAt | BP/scripts/display/stateTraitInjection.js:95-97 | the item goes between the first insertion-point items and the rest |
| Sorting.InsertPointBounds | BP/scripts/display/stateTraitInjection.js:95-97 | every item before the insertion point may precede the item; the one at it may not |
| Sorting.InsertionSort | BP/scripts/display/namespaceInjection.js:449-458 | sorting is a permutation |
| Sorting.InsertionSortSorted | BP/scripts/display/namespaceInjection.js:449-458 | under a total preorder the result is sorted |
| Sorting.InsertionSortOfSorted | BP/scripts/display/stateTraitInjection.js:95-97 | a sorted list is left as it is: the sort is stable |
| Sorting.AppendThenSort | BP/scripts/display/stateTraitInjection.js:108-113 | appending to a sorted list and sorting inserts the new item after every item not after it |
| Sorting.InsertionSortDistinct | BP/scripts/display/namespaceInjection.js:447-449 | sorting a list without repeats gives a list without repeats |
| Config.ComponentKeysDistinct | BP/scripts/display/config.js:139-169 | the defined component keys are distinct |
| Config.NormalizeChoice | BP/scripts/display/config.js:419-428 | the result is always one of the options: the argument's trimmed, lower-cased text when it names one, else the fallback |
| Config.NormalizeChoiceOfOption | BP/scripts/display/config.js:419-428 | an option is its own normal form |
| Config.NormalizeModeAsWritten | BP/scripts/display/config.js:414-417 | a mode's own name is kept |
| Config.NormalizeModeAsWrittenAcceptsInherited | BP/scripts/display/config.js:414-417 | each inherited property name, `constructor` or `__proto__`, passes as a mode although no preset has that name |
| Config.NormalizeMode | BP/scripts/display/config.js:414-417 | always one of the three modes: the argument's text when it names one, else "essential" |
| Config.NormalizeModeAgrees | BP/scripts/display/config.js:414-417 | the corrected lookup agrees with the written one on every argument other than the two inherited names |
| Config.NormalizeModeIdempotent | BP/scripts/display/config.js:414-417 | normalising a mode twice is normalising it once |
| Config.NormalizeEffectDisplayMode | BP/scripts/display/config.js:419-428 | always a listed effect display mode: the trimmed, lower-cased argument is kept when it is listed, "emoji" for anything else |
| Config.NormalizeDisplayStyle | BP/scripts/display/config.js:436-450 | always a listed style and never the legacy "text", which becomes "text_full"; a listed style is kept; anything else is "icon" |
| Config.NormalizeNameDisplayMode | BP/scripts/display/config.js:458-467 | always a listed name display mode: the trimmed, lower-cased argument is kept when it is listed, "nickname_first" for anything else |
| Config.NormalizeNameResolveMode | BP/scripts/display/config.js:475-484 | always a listed name resolve mode: the trimmed, lower-cased argument is kept when it is listed, "translation_keys" for anything else |
| Config.NormalizeVillagerProfessionMode | BP/scripts/display/config.js:492-501 | always a listed profession display mode: the trimmed, lower-cased argument is kept when it is listed, "below_name" for anything else |
| Config.NormalizeToolTierMode | BP/scripts/display/config.js:509-518 | always a listed tool-tier mode: the trimmed, lower-cased argument is kept when it is listed, "boolean_indicator" for anything else |
| Config.NormalizeToolPlacementMode | BP/scripts/display/config.js:526-535 | always a listed placement: the trimmed, lower-cased argument is kept when it is listed, "before_name" for anything else |
| Config.NormalizeToolColor | BP/scripts/display/config.js:543-552 | always a listed colour code: the trimmed, lower-cased argument is kept when it is listed, the grey code for anything else |
| Config.NormalizePolicy | BP/scripts/display/config.js:560-569 | always one of the four policies: a named policy is kept, anything else is "show" |
| Config.NormalizeChoiceFieldOfOption | BP/scripts/display/config.js:419-569 | every option of every enumerated field normalises to itself |
| Config.RuntimeKeysDistinct | BP/scripts/display/config.js:611-703 | the runtime record's field names are distinct |
| Config.Clamp | BP/scripts/display/config.js:410-412 | the result lies within the bounds; a value within them is kept, one below gives the lower bound, one above the upper |
| Config.ClampNumber | BP/scripts/display/config.js:410-412 | on a JavaScript number: NaN stays NaN and every other result is a finite value within the bounds |
| Config.NormalizeField | BP/scripts/display/config.js:611-703 | a finite number is clamped; a non-finite one takes the preset's value, clamped; a flag keeps a boolean else the preset's; a choice lands on one of its options; a well-formed value is kept |
| Config.NormalizeFieldIdempotent | BP/scripts/display/config.js:611-703 | normalising a field twice is normalising it once, for a well-formed preset value |
| Config.NormalizeRuntime | BP/scripts/display/config.js:611-703 | the record has exactly the table's fields in order, each the normalised candidate value against the preset's |
| Config.NormalizeRuntimeInRange | BP/scripts/display/config.js:611-703 | against a well-formed preset, every numeric field lies within its bounds and every option field holds a listed option |
| Config.NormalizeRuntimeIdempotent | BP/scripts/display/config.js:611-703 | a normalised runtime is left unchanged by normalising it again, against any preset |
| Config.NormalizeComponents | BP/scripts/display/config.js:705-718 | the map has exactly the defined component keys in order, each holding the policy kept for it |
| Config.ComponentValue | BP/scripts/display/config.js:709-715 | a deprecated component holds "hide"; a truthy stored value is normalised as a policy; a falsy one takes the preset's policy |
| Config.NormalizeComponentsWellFormed | BP/scripts/display/config.js:705-718 | against a well-formed preset every component holds a policy, and a deprecated one holds "hide" |
| Config.NormalizeComponentsIdempotent | BP/scripts/display/config.js:705-718 | a normalised component map is left unchanged by normalising it again, against any preset |
| Config.PresetsWellFormed | BP/scripts/display/config.js:233-408 | every preset runtime is already normalised and every preset component holds a policy |
| Config.NormalizePlayerOverrides | BP/scripts/display/config.js:720-731 | a truthy mode override is normalised, a falsy one dropped; `disabled` only for a stored `true`; runtime and components normalised against the preset |
| Config.NormalizePlayerOverridesWellFormed | BP/scripts/display/config.js:720-731 | against a well-formed preset, whatever was stored normalises to well-formed overrides |
| Config.NormalizeOverridesFixpoint | BP/scripts/display/config.js:720-731 | normalised overrides written out as an object normalise back to themselves |
| Config.PatchedMode | BP/scripts/display/config.js:829-831 | an absent patch field keeps the override, a falsy one clears it, a truthy one sets it to the normalised mode |
| Config.UpdateOverrides | BP/scripts/display/config.js:823-846 | a `disabled` in the patch is coerced to a boolean and wins, an absent one keeps the current flag; the mode override follows the patch rule |
| Config.UpdateOverridesWellFormed | BP/scripts/display/config.js:823-846 | an update always stores well-formed overrides |
| Config.UpdateRuntimeField | BP/scripts/display/config.js:833-836 | a runtime field the patch names takes the patch's value, normalised; one it leaves out keeps its current value |
| Config.UpdateComponentField | BP/scripts/display/config.js:837-840 | a component the patch names takes the patch's policy; one it leaves out keeps its current policy |
| Config.UpdateOverridesIdempotent | BP/scripts/display/config.js:823-846 | applying the same patch twice gives the same settings as applying it once |
| Config.UpdateWithEmptyPatch | BP/scripts/display/config.js:823-846 | an empty patch leaves normalised overrides exactly as they are |
| Config.DefaultOverrides | BP/scripts/display/config.js:848-854 | the reset settings have no mode override and are not disabled |
| Config.NormalizeRuntimeOfNothing | BP/scripts/display/config.js:611-703 | with nothing stored every runtime field takes the preset's value |
| Config.DefaultOverridesRuntime | BP/scripts/display/config.js:848-854 | resetting yields the preset's own runtime |
| Config.EvaluateVisibilityPolicy | BP/scripts/display/config.js:912-926 | show gives true, sneak gives whether sneaking, creative whether in creative, hide false; an unknown policy counts as show |
| Config.SetProp | BP/scripts/display/config.js:943-960 | the key reads as the new value, every other key as before, and an existing key keeps its place |
| Config.ApplyTagRulesReads | BP/scripts/display/config.js:943-960 | after the tag rules a component reads as the last applicable rule's policy, or as before when none applies |
| Config.ApplyTagRulesInert | BP/scripts/display/config.js:943-960 | rules for tags the player does not carry leave the map untouched |
| Config.LegacyBlockTags | BP/scripts/display/config.js:952-957 | `hide_block_tags` forces hide even with `block_tags`; `block_tags` alone forces show; neither leaves the policy alone |
| Config.LegacyTagsScope | BP/scripts/display/config.js:943-960 | the legacy tags touch only the five components they name |
| Config.ActiveMode | BP/scripts/display/config.js:936 | always a mode: the player's override when it is one, else the global mode |
| Config.Visibility | BP/scripts/display/config.js:962-1024 | one flag per defined component; frozen hearts are never shown; every other flag is its policy evaluated in the player's context |
| Config.ResolveDisplaySettings | BP/scripts/display/config.js:928-1026 | disabled exactly when globally off, opted out or tagged `insight:disable`; sneak-only exactly with its tag; the label is the active preset's; the flags are the evaluated components |
| Config.ResolvedRuntimeInRange | BP/scripts/display/config.js:939 | whatever is stored, the resolved runtime respects every bound and option list |
| Config.HideBlockTagsWins | BP/scripts/display/config.js:952-957 | a player tagged `hide_block_tags` never sees block tags |
| Config.ModeOverrideOnlyRelabels | BP/scripts/display/config.js:936-940 | for normalised overrides the active preset changes nothing but the label: runtime and components are the stored ones, with the legacy tags applied |
| SettingsStore.InitialMemory | BP/scripts/display/config.js:7-11 | the fallback starts in "essential" mode, enabled, with no players |
| SettingsStore.GetCurrentMode | BP/scripts/display/config.js:746-755 | a stored text is normalised, remembered and returned; anything else returns the remembered mode and changes nothing; the answer is always a mode |
| SettingsStore.WriteWorldMode | BP/scripts/display/config.js:585-592 | a write lands only when the host accepts writes |
| SettingsStore.SetCurrentMode | BP/scripts/display/config.js:757-762 | the normalised mode is returned, remembered, and written to the host when it accepts writes |
| SettingsStore.SetThenGetMode | BP/scripts/display/config.js:746-762 | reading the mode after setting it gives the mode set, whether or not the host accepted the write |
| SettingsStore.IsGloballyEnabled | BP/scripts/display/config.js:764-772 | a stored boolean is remembered and returned; anything else returns the remembered flag and changes nothing |
| SettingsStore.SetGlobalEnabled | BP/scripts/display/config.js:774-779 | `Boolean(isEnabled)` is returned, remembered, and written when the host accepts writes |
| SettingsStore.SetThenGetEnabled | BP/scripts/display/config.js:764-779 | reading the flag after setting it gives the flag set |
| SettingsStore.ModePreset | BP/scripts/display/config.js:781-784 | the preset of the normalised mode, which is well-formed |
| SettingsStore.TouchMemory | BP/scripts/display/config.js:733-739 | reading a player records an unknown key as empty and changes nothing else |
| SettingsStore.PlayerSettings | BP/scripts/display/config.js:796-814 | stored text that parses is normalised; without it and without a remembered value the preset's defaults are used; the result is always well-formed |
| SettingsStore.PlayerSettingsOfKept | BP/scripts/display/config.js:796-814 | remembered settings, with the host holding their serialised copy or nothing, read back as themselves |
| SettingsStore.ReadMode | BP/scripts/display/config.js:792 | a truthy mode argument is normalised and nothing is read; otherwise the current mode is read; the answer is always a mode |
| SettingsStore.Settle | BP/scripts/display/config.js:791-815 | the settings read are remembered for this player only; every other player's memory is unchanged, and the host is untouched |
| SettingsStore.GetPlayerOverrides | BP/scripts/display/config.js:791-815 | the player's settings, well-formed, read from the host or memory against the mode's preset and remembered; other players are unchanged |
| SettingsStore.GetKept | BP/scripts/display/config.js:791-821 | settings kept by the last write are what the next read returns, whatever mode it reads against |
| SettingsStore.KeptIsCurrent | BP/scripts/display/config.js:823-826 | settings kept by the last write are where the next update starts |
| SettingsStore.Persist | BP/scripts/display/config.js:817-821 | the settings are remembered and, when the host accepts writes, stored serialised; then the next read returns them |
| SettingsStore.UpdatePlayerOverrides | BP/scripts/display/config.js:823-846 | the stored settings are the update of the current ones against the global preset; a patch's `disabled` wins; when kept, every later read returns them |
| SettingsStore.ResetPlayerOverrides | BP/scripts/display/config.js:848-854 | the settings become the current preset's defaults, with no mode override and not disabled; when kept, every later read returns them |
| SettingsStore.ActivationPatch | BP/scripts/display/config.js:856-858 | the patch sets `disabled` to the opposite of the activation |
| SettingsStore.SetPlayerActivation | BP/scripts/display/config.js:856-858 | the player is disabled exactly when deactivated; a kept deactivation disables every later per-tick read |
| SettingsStore.DisplayOverridesOfKept | BP/scripts/display/config.js:934-935 | kept settings are what the per-tick read settles on |
| SettingsStore.GetPlayerDisplaySettings | BP/scripts/display/config.js:928-1026 | disabled exactly when globally off, opted out or tagged; sneak-only exactly with its tag; the runtime is always normalised |
| SettingsStore.DisabledOnEveryTick | BP/scripts/display/config.js:928-968 | kept settings that disable a player disable every per-tick read for them |
| Bars.Ceil | BP/scripts/display/messages.js:451-453 | the ceiling is the least integer not below its argument |
| Bars.RoundedHalfHearts | BP/scripts/display/messages.js:451-453 | nothing below zero shows a unit; a positive value shows its ceiling, the least whole count not below it |
| Bars.Repeat | BP/scripts/display/messages.js:1068 | a glyph repeated n times is n copies of that glyph and nothing else |
| Bars.Cells | BP/scripts/display/messages.js:1068-1072 | the bar is as long as its full, half and empty glyph counts together |
| Bars.MaxUnits | BP/scripts/display/messages.js:1059-1062 | the maximum of a bar always counts at least one unit, whatever value the host reports |
| Bars.BarCountsAsWritten | BP/scripts/display/messages.js:1057-1072 | the bar as written: the full glyphs come first, a half glyph follows an odd current value, then half the units between current and maximum as empty glyphs (rounded down), and none at or above the maximum |
| Bars.BarAsWrittenLosesSlot | BP/scripts/display/messages.js:1064-1066 | the bar as written is one glyph short when the maximum is odd and the current value even: 2 of 3 units draws one glyph, 1 and 3 of 3 draw two |
| Bars.BarCellsWidth | BP/scripts/display/messages.js:1057-1072 | the corrected bar is as wide as the larger of the glyph counts that the maximum and the current value fill, with the same full/half/empty layout |
| Bars.BarCellsAgree | BP/scripts/display/messages.js:1064-1066 | where the written bar is right (an even maximum or an odd current value) it equals the corrected one |
| Bars.BuildHalfStepBar | BP/scripts/display/messages.js:1057-1075 | the bar's glyphs cut into lines of the per-line count (a negative count behaves as its absolute value), unchanged when it fits on one line or the count is zero |
| Bars.HeartThreshold | BP/scripts/display/messages.js:1101-1103 | a finite setting gives at least 1, and a non-finite one the default of 100 |
| Bars.BuildHealthDisplay | BP/scripts/display/messages.js:1093-1115 | exactly the legacy `text` style gives the text form with current and maximum clamped to 0 and 1; above the threshold the numeric form of the rounded-up values and the full glyph; otherwise the bar broken every 10 glyphs |
| Bars.TextStyleAsWrittenUnreachable | BP/scripts/display/messages.js:305-307 | the equality test against the legacy `text` style never holds for a normalised style, because normalisation maps `text` to `text_full` |
| Bars.TextStyleReachable | BP/scripts/display/config.js:43-50 | normalising a style gives one of the text types exactly when the chosen option (trimmed, lower-cased) is a text type or the legacy alias |
| Bars.BarHasOnlyGlyphs | BP/scripts/display/messages.js:1109-1114 | a health bar within the threshold holds only the set's three glyphs and line breaks |
| Bars.JoinWithin | BP/scripts/display/messages.js:1074 | joining pieces and a separator built from allowed characters gives allowed characters only |
| Bars.HeartGlyphs | BP/scripts/display/messages.js:63-89 | every heart set shares the same empty heart glyph |
| Bars.ResolveHealthGlyphSet | BP/scripts/display/messages.js:1019-1045 | frozen hearts exactly when the target is a freezing player and they are enabled; wither and then poison exactly when effect hearts are enabled and nothing earlier applies; animal hearts only for a rideable non-player with animal hearts enabled |
| Bars.GlyphSetIsHighestApplicable | BP/scripts/display/messages.js:1019-1045 | the chosen set's own condition holds, and no set whose condition holds ranks above it |
| Bars.NoFrozenHeartsWhenDisabled | BP/scripts/display/messages.js:1026-1028 | frozen hearts are never chosen while their switch is off |
| Bars.ResolveHungerGlyphSet | BP/scripts/display/messages.js:1047-1053 | the effect hunger set exactly when it is enabled and hunger is active |
| Layout.Chunks | BP/scripts/display/messages.js:1077-1091 | cutting always yields at least one piece |
| Layout.ChunksFlatten | BP/scripts/display/messages.js:1077-1091 | the pieces laid end to end are the input again |
| Layout.ChunksShape | BP/scripts/display/messages.js:1084-1086 | every piece but the last holds exactly the chunk size; the last holds at most that many, and at least one unless the input is empty |
| Layout.JoinChunksSnoc | BP/scripts/display/messages.js:1083-1088 | appending a character adds a break before it exactly when the text so far is non-empty and fills whole lines |
| Layout.AddLineBreakEvery | BP/scripts/display/messages.js:1077-1091 | empty input, input that fits, or a zero size comes back unchanged; otherwise a break goes between every run of the size's absolute value |
| Layout.LineBreaksRoundTrip | BP/scripts/display/messages.js:1077-1091 | splitting the broken text of newline-free input at its breaks gives the pieces back, and they join to the input |
| Layout.ChunkWithin | BP/scripts/display/messages.js:1077-1091 | every piece holds only items of the input, no more often than the input does |
| Layout.JoinEach | BP/scripts/display/messages.js:979-996 | one joined text per line, each the line's entries joined with the separator |
| Layout.ChunksSnoc | BP/scripts/display/messages.js:979-996 | one more item joins the last piece, or starts a new one when the items so far fill whole pieces |
| Layout.WrappedSnoc | BP/scripts/display/messages.js:985-993 | the next entry follows `,\n` when the entries so far fill whole lines, and `, ` otherwise |
| Layout.BuildWrappedCommaList | BP/scripts/display/messages.js:979-996 | an empty list gives `None`; otherwise the entries joined with `, ` within a line and `,\n` between lines of at least one entry each |
| Layout.CapCount | BP/scripts/display/messages.js:942 | a cap at or below zero keeps nothing; a positive cap keeps its whole part |
| Layout.Truncate | BP/scripts/display/messages.js:942-943 | the shown items are a prefix of the list, as long as the cap or the whole list, and the left-out count is the rest of the length |
| Layout.TruncateHidden | BP/scripts/display/messages.js:969-974 | something is left out exactly when the list is longer than the cap; a cap below one shows nothing |
| Layout.TruncateRoundTrip | BP/scripts/display/messages.js:942-943 | the shown items followed by the left-out tail are the list again |
| Effects.ResolveEffectTypeId | BP/scripts/display/messages.js:782-793 | an id exactly when the raw id is non-empty text; a namespaced id is kept as it is, and every result has a namespace |
| Effects.ResolveBareEffectId | BP/scripts/display/messages.js:792 | an id without a namespace gets the `minecraft` namespace and keeps its own name |
| Effects.NormalizeEffectTypeId | BP/scripts/display/messages.js:795-798 | the result has no upper-case letters and is as long as the id part |
| Effects.NormalizeEffectTypeIdOfNamespaced | BP/scripts/display/messages.js:795-798 | on a namespaced id the result is the lower-cased name after the colon |
| Effects.EffectKeys | BP/scripts/display/messages.js:702-708 | one normalised key, or none, per effect in order |
| Effects.GetEffectFlags | BP/scripts/display/messages.js:695-723 | each flag is set exactly when some effect resolves to one of its ids: wither or decay, poison or fatal poison, hunger |
| Effects.AnyInSnoc | BP/scripts/display/messages.js:702-720 | one more effect sets a flag exactly when it was set already or the new effect has one of its ids |
| Effects.GetEffectLevel | BP/scripts/display/messages.js:800-807 | the level is at least one, equals the amplifier's floor plus one for a non-negative amplifier, and is one for a negative or non-finite amplifier |
| Effects.ToRomanNumeral | BP/scripts/display/messages.js:809-826 | never empty; above ten the decimal digits |
| Effects.RomanNumeralRoundTrip | BP/scripts/display/messages.js:822-825 | levels one to ten read back from their numeral, which is not a decimal; above ten the decimal digits read back as the level |
| Effects.RomanNumeralInjective | BP/scripts/display/messages.js:809-826 | two levels from one up with the same numeral are the same level |
| Effects.FormatSecondsAsClock | BP/scripts/display/messages.js:857-868 | the clock starts with a digit and has three fields from an hour up and two below |
| Effects.ClockRoundTrip | BP/scripts/display/messages.js:857-868 | the clock reads back as the whole seconds it shows, negative input as zero |
| Effects.ClockTextRoundTrip | BP/scripts/display/messages.js:863-867 | a clock of any hours, minutes and seconds reads back as the seconds they add up to |
| Effects.LongClockRoundTrip | BP/scripts/display/messages.js:863-864 | hours, padded minutes and padded seconds read back as their total seconds |
| Effects.ShortClockRoundTrip | BP/scripts/display/messages.js:867 | minutes and padded seconds read back as their total seconds |
| Effects.FormatEffectDuration | BP/scripts/display/messages.js:870-883 | a label exactly when the duration is known; the infinity label exactly from 2,000,000,000 ticks up |
| Effects.DurationRoundTrip | BP/scripts/display/messages.js:881-882 | a finite duration reads back as its ticks divided by twenty, rounded down |
| Effects.GetEffectPolarity | BP/scripts/display/messages.js:885-895 | positive exactly for the positive ids, negative exactly for the negative ids, neutral for all else |
| Effects.PolaritySetsDisjoint | BP/scripts/display/messages.js:204-242 | no effect id is both positive and negative |
| Effects.NotPositive | BP/scripts/display/messages.js:204-242 | a negative id is never positive |
| Effects.FlagIdsNegative | BP/scripts/display/messages.js:695-723 | every id that sets a glyph-set flag is a negative effect |
| Effects.EffectGlyph | BP/scripts/display/messages.js:174-202 | the glyph is never empty; a listed id gets its table glyph, and the bullet is drawn exactly for an id the table does not list |
| Effects.EffectEntry | BP/scripts/display/messages.js:897-935 | an entry exactly when the effect's type id resolves; it is the coloured title (text) or the glyph, a space, the level's numeral, the grey bracketed duration when known, and the reset code |
| Effects.EntryText | BP/scripts/display/messages.js:910-934 | after a numeral the character before the reset code closes a bracket exactly when a duration is shown |
| Effects.EffectEntryShowsDuration | BP/scripts/display/messages.js:897-935 | an entry ends in a bracketed duration exactly when the effect's duration is known |
| Effects.NumeralEndsUnbracketed | BP/scripts/display/messages.js:809-826 | a level's numeral is never empty and never ends with a closing bracket |
| Effects.EffectEntries | BP/scripts/display/messages.js:949-962 | at most one entry per effect, and none exactly when no effect resolves |
| Effects.BuildEffectsDisplay | BP/scripts/display/messages.js:937-977 | a line exactly when some effect within the cap resolves; it joins the shown entries with the mode's separator and adds the left-out count; text entries exactly for the text effect mode or the legacy `text` style |
| Effects.EffectsHiddenCount | BP/scripts/display/messages.js:969-974 | the left-out suffix appears exactly when there are more effects than the cap, and shown plus left out is every effect |
| Sections.ListSection | BP/scripts/display/messages.js:1221-1242 | nothing when the list is off, empty or capped at zero; otherwise the heading and the shown items, plus the left-out count exactly when the list is longer than the cap; entity tags (1244-1265) and families (1280-1302) share it |
| Sections.ListSectionOnlyCountsTail | BP/scripts/display/messages.js:1221-1242 | items past the cap never change the shown line; only the left-out count grows |
| Sections.StateRowsOf | BP/scripts/display/messages.js:1363-1367 | one row per state entry, in order |
| Sections.StateRows | BP/scripts/display/messages.js:1355-1375 | nothing exactly when the states are off or there are none; otherwise the separator, one row per shown state and the left-out count when some are left out |
| Sections.StateRowsZeroCap | BP/scripts/display/messages.js:1357-1374 | under a cap below one the section is the separator and the count of all the states |
| Sections.MatchingTools | BP/scripts/display/messages.js:310-320 | a tool is listed exactly when it is in the table and the block has its tag |
| Sections.GetBlockToolDescriptors | BP/scripts/display/messages.js:310-320 | every tool whose destruction tag the block has, and no other |
| Sections.MatchingToolsDistinct | BP/scripts/display/messages.js:310-320 | no tool is listed twice |
| Sections.MatchingAllTools | BP/scripts/display/messages.js:313-317 | when the block has every tag the whole table is listed, in its order |
| Sections.AllToolsInOrder | BP/scripts/display/messages.js:250-260 | a block with every destruction tag lists all six tools in the table's order |
| Lists.Dedupe | BP/scripts/display/namespaceInjection.js:109 | no repeats, the same items as the input, and never longer |
| Lists.DedupeOfDistinct | BP/scripts/display/namespaceInjection.js:109 | a list without repeats is its own deduplication |
| Lists.DedupePrefix | BP/scripts/display/namespaceInjection.js:156 | items added at the end never change what the front deduplicates to |
| Lists.DedupeAllItems | BP/scripts/display/namespaceInjection.js:109 | deduplication keeps any property all the items have |
| Lists.DedupeIdempotent | BP/scripts/display/namespaceInjection.js:109 | deduplicating twice is deduplicating once |
| Lists.Collect | BP/scripts/display/namespaceInjection.js:96-108 | the kept conversions are never more than the items |
| Lists.CollectMembers | BP/scripts/display/namespaceInjection.js:96-108 | a value is kept exactly when some item converts to it |
| Lists.CollectAllItems | BP/scripts/display/namespaceInjection.js:96-108 | the kept values keep any property every accepted conversion has |
| Lists.CollectConverted | BP/scripts/display/namespaceInjection.js:96-108 | items that each convert to the matching value give those values in order |
| Lists.AssignKeys | BP/scripts/display/stateTraitInjection.js:159-167 | a key is set after the loop exactly when it was set before or some item assigns it |
| Lists.AssignLast | BP/scripts/display/stateTraitInjection.js:159-167 | the last item that assigns a key decides its value |
| Lists.AssignUntouched | BP/scripts/display/stateTraitInjection.js:159-167 | a key no item assigns keeps its presence and value from before the loop |
| Lists.AssignValues | BP/scripts/display/stateTraitInjection.js:159-167 | a property every earlier value and every assigned value has holds of every value after the loop |
| Controller.TickSettingsOf | BP/scripts/display/config.js:964-979 | the controller sees the player's switches unchanged and the runtime fields within their bounds: an update interval of 1 to 20 ticks, a finite refresh of 1 to 40, a no-target limit of 0 to 200 |
| Controller.AtLeastOne | BP/scripts/display/controller.js:51 | `Math.max(1, x)` is at least one and at least x, and is one of the two |
| Controller.CanRunUpdateNow | BP/scripts/display/controller.js:79-88 | the player is held back exactly while the tick is before its scheduled update, and then nothing changes; otherwise the next update is set `max(1, interval)` ticks on and nothing else changes |
| Controller.UpdatesSpaced | BP/scripts/display/controller.js:79-88 | after an update runs, no update for that player runs again before the interval has passed |
| Controller.FirstUpdateRuns | BP/scripts/display/controller.js:81 | a player with nothing scheduled is updated at once |
| Controller.RefreshInterval | BP/scripts/display/controller.js:49-51 | the refresh is at least one tick; the player's finite setting wins, and with neither a finite setting nor a non-zero configured value it is 8 |
| Controller.SetActionbarIfChanged | BP/scripts/display/controller.js:42-61 | the no-target counter is reset either way; a held-back write changes neither the bar nor what is remembered; otherwise the message is written and remembered with the tick; no other player is touched |
| Controller.FirstPayloadAlwaysSent | BP/scripts/display/controller.js:52-56 | the first message for a player is always written |
| Controller.ChangedPayloadSent | BP/scripts/display/controller.js:54 | a message different from the one shown is always written |
| Controller.StaleMessageRefreshed | BP/scripts/display/controller.js:54 | an unchanged message is written again once the refresh interval has passed since the last write |
| Controller.RepeatedWriteIdempotent | BP/scripts/display/controller.js:42-61 | with deduplication on, writing the same message twice on one tick is writing it once |
| Controller.ClearActionbar | BP/scripts/display/controller.js:63-69 | the player's message, send tick and no-target counter are forgotten and the bar is blanked; the schedule and other players are untouched |
| Controller.ShownAgainAfterClear | BP/scripts/display/controller.js:63-69 | after a clear the next message is written whatever it is |
| Controller.ShouldSkipPlayerIff | BP/scripts/display/controller.js:90-100 | a player is skipped exactly when switched off, or sneak-only while not sneaking |
| Controller.FirstVisibleIndex | BP/scripts/display/controller.js:167-174 | no hit before the position counts, and the hit at it does when it is within the list |
| Controller.SelectEntityFromRaycast | BP/scripts/display/controller.js:158-177 | nothing without hits; with invisible entities included the first hit's entity; otherwise the first entity in hit order that is not invisible, and nothing exactly when there is none |
| Controller.SelectedIsVisible | BP/scripts/display/controller.js:167-174 | without invisible entities the chosen entity is never invisible |
| Controller.NoTarget | BP/scripts/display/controller.js:288-300 | nothing changes when clearing is off; otherwise the counter advances by `max(1, interval)` and the bar is blanked once it reaches the limit |
| Controller.NoTargetBelowThreshold | BP/scripts/display/controller.js:294-299 | while clearing is on, a remembered no-target counter stays below the limit |
| Controller.NoTargetRuns | BP/scripts/display/controller.js:288-300 | repeated no-target updates only add to what was shown |
| Controller.ClearedWithinRuns | BP/scripts/display/controller.js:288-300 | a player with no target for enough updates to reach the limit has the bar blanked within them |
| Controller.ProcessPlayerRaycast | BP/scripts/display/controller.js:257-302 | a skipped player is cleared; otherwise an entity target is shown, else a block target, else the no-target branch runs; only this player changes |
| Controller.EntityBeforeBlock | BP/scripts/display/controller.js:269-279 | when an entity is selected, the block under the view makes no difference |
| Controller.TargetResetsNoTarget | BP/scripts/display/controller.js:269-288 | any target resets the no-target counter |
| Controller.ProcessEntityHit | BP/scripts/display/controller.js:304-329 | nothing happens with the fallback off, a non-player attacker, a skipped player, or an invisible target not included; otherwise the hit entity is written through the same deduplication; the schedule is never moved |
| Controller.SkipPathsDiffer | BP/scripts/display/controller.js:257-261 | for a skipped player the tick blanks the bar while a hit writes nothing |
| Controller.Turn | BP/scripts/display/controller.js:337-344 | a player not yet due is left as it is; only this player changes, and the log only grows |
| Controller.Turns | BP/scripts/display/controller.js:336-345 | players not in the list keep what the controller remembers about them, and the log only grows |
| Controller.TurnsSnoc | BP/scripts/display/controller.js:336-345 | the players take their turns in list order: one more player takes exactly its own turn after all the others |
| Controller.TickOnePlayer | BP/scripts/display/controller.js:331-347 | with one player, the counter advances and then the player takes its turn: untouched when not due, otherwise rescheduled `max(1, interval)` ticks on |
| Controller.Tick | BP/scripts/display/controller.js:331-347 | the tick counter advances by one, the log only grows, and players not in the list are untouched |
| Commands.AliasTargetsDefined | BP/scripts/display/commands.js:23-50 | every alias names a defined component |
| Commands.DirectMatch | BP/scripts/display/commands.js:74 | no component before the position matches the name ignoring case, and the one at it does when it is within the list |
| Commands.ResolveComponentKey | BP/scripts/display/commands.js:64-76 | nothing for a blank name; an alias resolves through the table; otherwise the defined component whose key matches ignoring case, and nothing exactly when none does; every result is a defined component |
| Commands.ResolveNormalizedArgument | BP/scripts/display/commands.js:64-76 | resolving an already trimmed, lower-cased argument gives the same component as resolving the raw one |
| Commands.OptionTextIdempotent | BP/scripts/display/commands.js:65 | trimming and lower-casing twice is doing it once |
| Commands.KnownWord | BP/scripts/display/commands.js:107-214 | the words the handlers compare against survive trimming and lower-casing unchanged |
| Commands.HandleModeCommand | BP/scripts/display/commands.js:90-105 | no argument reports the current mode; an argument that is not one of the three modes is refused with nothing changed; a mode is reported and, when the host keeps the write or holds no mode, read back as the current mode; player settings and the registry are untouched |
| Commands.HandleGlobalCommand | BP/scripts/display/commands.js:167-195 | `status` and unknown actions leave the flag as a later read sees it, and an unknown action prints the usage; `toggle` flips the flag, `on` and `off` set it, when the write sticks; mode and player settings are untouched |
| Commands.GlobalDefaultsToStatus | BP/scripts/display/commands.js:168 | a missing or empty argument asks for the status |
| Commands.GlobalBlankArgumentIsUsage | BP/scripts/display/commands.js:168-194 | an argument of spaces only is not defaulted: it trims to nothing and prints the usage |
| Commands.GlobalToggleTwice | BP/scripts/display/commands.js:176-180 | toggling twice restores the flag when the host keeps what is written |
| Commands.StringArgument | BP/scripts/display/commands.js:216-217 | text is trimmed and anything else counts as empty |
| Commands.NamespaceArguments | BP/scripts/display/commands.js:205-214 | after `add` or `set` the namespace and name are the second and third arguments, otherwise the first and second |
| Commands.AliasReply | BP/scripts/display/commands.js:225-230 | the mapped reply exactly when the alias was registered, naming its namespace and name; a refusal otherwise |
| Commands.HandleNamespaceCommand | BP/scripts/display/commands.js:197-231 | a missing action, namespace or name prints the usage and changes nothing; otherwise the trimmed alias is registered and the reply says whether it was accepted; player settings are untouched |
| Commands.NamespaceFullForm | BP/scripts/display/commands.js:208-224 | `add ns name` registers the trimmed namespace and name |
| Commands.NamespaceAddFindsAlias | BP/scripts/display/commands.js:197-231 | `add` for a namespace nothing is registered under yet is accepted, and the registry then finds the alias by that namespace |
| Commands.NamespaceShortForm | BP/scripts/display/commands.js:211-224 | without `add` or `set`, the first argument is the namespace and the second the name |
| Commands.ComponentPatch | BP/scripts/display/commands.js:158-162 | the patch leaves `disabled` out and holds the one component with its policy |
| Commands.ComponentPatchEffect | BP/scripts/display/commands.js:158-162 | updating with the patch stores its policy for that component and keeps every other component's policy |
| Commands.SetActivation | BP/scripts/display/commands.js:115-125 | `on` clears and `off` sets the player's disabled flag when the write sticks, with the matching reply |
| Commands.ToggleActivation | BP/scripts/display/commands.js:127-132 | the player's disabled flag is flipped when the write sticks, and the reply says the new state |
| Commands.PatchedPolicies | BP/scripts/display/commands.js:158-162 | settings updated with a component patch hold the patch's policy for that component and the earlier policy for every other |
| Commands.StoreComponentPolicy | BP/scripts/display/commands.js:158-164 | the policy is stored for that component and no other, and the reply names both |
| Commands.SetComponentPolicy | BP/scripts/display/commands.js:141-164 | a deprecated component or a missing policy is refused with nothing changed; otherwise the normalised policy is stored for that component alone |
| Commands.ActivateComponent | BP/scripts/display/commands.js:135-164 | an unknown component is refused with nothing changed; a known one is refused as deprecated, asks for a policy, or has the normalised policy set |
| Commands.HandleActivateCommand | BP/scripts/display/commands.js:107-165 | no argument prints the usage; `on`/`off` set and `toggle` flips the player's activation when the write sticks; an unknown component is refused |
| Commands.UnknownPolicyStoredAsShow | BP/scripts/display/commands.js:152-156 | any non-empty policy argument is accepted: one that names no policy normalises to `show`, so the check on the policy never refuses |
| Commands.HandleRootInsightCommand | BP/scripts/display/commands.js:233-269 | an unknown action prints the usage with nothing changed; `menu` only asks for the menu; the others pass their arguments on in place; only `activate` touches player settings and only `namespace` the registry |
| Formatters.FormatStateName | BP/scripts/display/formatters.js:36-39 | a key without a colon is title-cased by its underscore words; a namespaced key by the words of its part after the colon |
| NextVariant.BuildLookup | BP/scripts/display/Modules/nextVariantModule.js:52-68 | the lookup over all cycles holds every id at most once |
| NextVariant.AddStates | BP/scripts/display/Modules/nextVariantModule.js:60-67 | recording the positions of one cycle keeps every id at most once |
| StatePipeline.AddHandler | BP/scripts/display/stateTraitInjection.js:99-115 | a function already listed leaves the registry as it is; a new one is added once with its normalised options and nothing else is added or lost; either way it is listed afterwards |
| SettingsStore.CurrentOverrides | BP/scripts/display/config.js:823-826 | an update starts from the player's overrides read against the current mode, and those are always in normal form |
| SettingsStore.DisplayOverrides | BP/scripts/display/config.js:928-935 | the per-tick read yields normalised overrides and never changes what the host holds |
| Config.ReadBackMode | BP/scripts/display/config.js:720-722 | a stored mode override is truthy exactly when present, and normalises back to itself |
| Config.NormalizeChoiceField | BP/scripts/display/config.js:436-569 | every choice field normalises to one of its own options |

## Left out

- Host input and output are parameters or results, not effects:
  - raycasts and invisibility checks arrive as a `Controller.View`;
  - reading and writing world and player properties is an optional value with a memory fallback;
  - `setActionBar` and `sendMessage` become an output log and a `Commands.Reply`.
- Host accessors are inputs rather than reads: `getEffectDurationTicks`, `isEntityFreezing`, `isEntityRideable`, `isEntityInvisible`, `getPlayerMainhandItem`, `isCreativePlayer`, `isPlayerSneaking`, `getBlockTagsSafe`, the block's `hasTag`, and `getEntityEffects`.
- `world.getAllPlayers`, the interval and event subscriptions, and command registration through the DoriosAPI are wiring. `Controller.Tick` takes the players of the tick as a list.
- The try/catch around each player's tick and around the hit event is not modelled. A throwing host call is assumed not to happen between two state changes.
- `system.run` deferral is not modelled:
  - `menu` only yields `MenuRequested`;
  - the UI forms of `menu.js` are not part of this model.
- `JSON.parse` and `JSON.stringify` are not modelled as text:
  - stored text is turned into values by a parse parameter;
  - payloads are compared by their serialised text, which is given as an input.
- Effects.EffectGlyph: the glyph table is read only for the ids it lists. In the source it is a frozen plain object, so `EffectGlyphByTypeId[id]` for an id such as `constructor`, `toString` or `valueOf` gives an inherited function, and the entry shows that function's text where the model shows the bullet.
- Effects.EffectEntry: inherits the glyph difference of Effects.EffectGlyph for an effect id named like an inherited object property.
- Effects.BuildEffectsDisplay: inherits the glyph difference of Effects.EffectGlyph through Effects.EffectEntry.
- StatePipeline.MergeSpecOf: the default formatter's separator is read once, when the merge is registered. The source's formatter is a closure that reads `definition.separator || " / "` each time it runs, so a caller that changes `separator` on the same definition object after `registerStateMerge` changes the joined text; the model keeps the separator it read at registration.
- NextVariant.CollectNextVariant: the lookup is rebuilt from the cycles on every call. `ensureLookup` caches it by the identity of the cycles array and the alias map. A `MATERIAL_CYCLES` array changed in place while `BLOCK_ALIAS` stays the same object would therefore be served a stale lookup; the model always reads the current cycles.
- NextVariant.GetVariantSource: a `BLOCK_ALIAS` that is a `Map` instance arrives as a parameter holding its text keys and text values, because a `Map` is not a value of `JsValue.Js`. Entries whose key or value is not text are not modelled.
- NextVariant.GetVariantSource: an item of a `BLOCK_ALIAS` array that is not an array of two texts is skipped. `new Map(pairs)` throws on an item that is not an object, and keeps an entry whose key or value is not text.
- `localeCompare` is an abstract strict total order (`Sorting`). Host collation is not modelled.
- `toLowerCase`, `toUpperCase` and `trim` are ASCII-only. Unicode case mapping and the full Unicode whitespace set are not modelled.
- `Object.entries` order is modelled as insertion order. JavaScript lists integer-like keys first; no key the scripts build is integer-like.
- JsValue.NumberText cuts fractions after fifteen digits instead of using the shortest round-trip form. Number parsing accepts only plain decimal literals and the infinities; hexadecimal and exponent forms read as NaN.
- Floating-point arithmetic is modelled with exact reals:
  - `toFixed` renderings are not modelled; the text form of a health line keeps the two numbers;
  - the air-bubble, armour and hunger text forms, the distance of item clusters, and the position and velocity lines are not part of this model.
- `toRomanNumeral` can call an external `DoriosAPI` converter. Only the built-in fallback table is modelled.
- The add-on library shipped with the defaults comes from a file that is not part of this model. It is a parameter of `AddonRegistry`.
- The translation-key builders depend on tables in `const.js`, which is not part of this model.
- The formatter context passed to custom formatters and transformers is reduced to the fields the pipeline itself reads (`StatePipeline.RunContext`). The rest of the spread context is not modelled.
- Introspection, preview and reset calls of the public APIs are not modelled, because they only read or reset state:
  - `getRegisteredCounts`, `preview`, `clearBlockStateTransformers` and `clearStateAliases`;
  - the injector `clear*` calls;
  - `getRegistrySnapshot`, `getNamespaceAliases` and `refreshFromDynamicProperties`;
  - the `expose*Api` wiring.
- `console.warn` calls are not modelled.
- The `get*Index` helpers of `config.js` and `getCurrentModeLabel` only serve the menu and are not modelled.
- Commands.HandleModeCommand: the reply carries the mode rather than its label, which is a fixed table entry.
- Commands.ResolveComponentKey: only the table's own aliases are looked up. The source's plain-object lookup would also answer for inherited names such as `constructor`; this is the same defect as the first finding below, and it is not modelled a second time.
- RegistryOps.AliasFoundByNamespace: the lookup after registering an alias is proved only when no add-on is yet keyed `namespace_<ns>`. Otherwise the alias merges into that add-on, and its name wins only when the merge lets it.
- Bars.BuildHealthDisplay: the text form keeps its numbers rather than their `toFixed(1)` text.
- Controller.Tick: each player's settings come with the tick as `TickSettings`, rather than being read from the settings store. `Controller.TickSettingsOf` ties them to the resolved display settings.
- The `persist` argument of the registry calls is not modelled. The registry is modelled as its two sources, and `RegistryStore.PersistDynamic` gives the record a write stores.
- Formatters.FormatNamespace: the words between `@` and the reset code are stated by Formatters.FormatNamespaceWords, and only for a namespace without spaces that has a non-empty underscore word. A space inside a word would make the split at spaces ambiguous.
- Formatters.FormatTypeIdToText: the words of the title are stated by Formatters.FormatTypeIdWords, and only for a type id without spaces that has a non-empty word. The reason is the same.
- Bars.BuildHalfStepBar: draws the corrected bar of the second finding below, as wide as the glyphs the maximum fills. As written, the empty glyphs are `floor((roundedMax - roundedCurrent) / 2)`. Bars.BarCellsAsWritten models that count, and Bars.BarCellsAgree relates the two counts.
- Bars.BuildHealthDisplay: its bar is the corrected one of Bars.BuildHalfStepBar.
- AddonRegistry.DefaultLibrary: normalises with the corrected Namespaces.NormalizeAddonDefinition of the third finding below. A library entry whose key normalises to the empty text is dropped; as written it is kept under key `""`.
- RegistryOps.Register: built on the corrected normaliser. `{ key: "!!!", name: "Foo" }` is refused and changes nothing; as written it is accepted under key `""`.
- RegistryOps.RegisterEach: each item is registered by the corrected RegistryOps.Register.
- RegistryOps.RegisterAll: each item is registered by the corrected RegistryOps.Register.
- RegistryStore.LoadOne: a stored record whose key normalises to the empty text is skipped; as written it is loaded under key `""`.
- RegistryStore.LoadItems: loads each record through the corrected RegistryStore.LoadOne.
- RegistryStore.LoadDynamic: loads the stored records through the corrected RegistryStore.LoadItems.
- RegistryStore.Init: its defaults come from the corrected AddonRegistry.DefaultLibrary, and its records from the corrected RegistryStore.LoadDynamic.
- Config.NormalizePlayerOverrides: normalises a mode override with the corrected Config.NormalizeMode of the first finding below. An override of `"constructor"` becomes `essential`; as written it is kept.
- Config.PatchedMode: a patched mode of `"constructor"` becomes `essential` through the corrected Config.NormalizeMode; as written it is kept.
- SettingsStore.GetCurrentMode: a stored world mode of `"constructor"` reads as `essential` through the corrected Config.NormalizeMode; as written it is kept.
- SettingsStore.SetCurrentMode: a mode of `"constructor"` is stored as `essential` through the corrected Config.NormalizeMode; as written it is stored as given.
- SettingsStore.ModePreset: the preset of `"constructor"` is the `essential` preset through the corrected Config.NormalizeMode; as written the lookup yields the inherited `Object` constructor.
- SettingsStore.ReadMode: a truthy mode argument of `"constructor"` reads as `essential` through the corrected Config.NormalizeMode; as written it is kept.
- TagResolution.ResolveInjectedNamespace: the default label is looked up only among the table's own names. The source's plain-object lookup (`DEFAULT_NAMESPACE_LABELS[namespace]`) answers an inherited function for a namespace such as `constructor`, where the model uses the title-cased namespace. This is the same defect as the first finding below and is not modelled again.
- StateTraits.Revise: a rename is looked up only among the keys the results assigned. The source reads the rename table, a plain `{}` object, by state key, so a state key such as `constructor` picks up an inherited function as its label, where the model keeps the label. This is the same defect as the first finding below and is not modelled again.

## Findings

| source | as written | input that shows it | evidently intended | confidence | as-written member | corrected member |
|---|---|---|---|---|---|---|
| BP/scripts/display/config.js:414-417 | the mode is accepted when `InsightModePresets[normalized]` is truthy, and the presets are a plain object | `"constructor"` (or `"__proto__"`) is accepted as a mode, though no such preset exists | accept only the three preset names and fall back to `essential` | high, not executed | Config.NormalizeModeAsWrittenAcceptsInherited | Config.NormalizeMode |
| BP/scripts/display/messages.js:1064-1066 | the empty glyphs are `floor((roundedMax - roundedCurrent) / 2)` | current 2 of maximum 3 draws one full heart and no empty one: a bar one glyph short of the two that 1 or 3 of 3 draw | the bar is as wide as the glyphs the maximum fills, `ceil(roundedMax / 2)` | high, not executed | Bars.BarAsWrittenLosesSlot | Bars.BarCellsWidth |
| BP/scripts/display/namespaceInjection.js:112-144 | the key is kept when the raw key or name is present, even when it normalises to nothing | `{ key: "!!!", name: "Foo" }` is accepted with key `""`, and its stored record reads back under key `foo` | refuse a descriptor whose key normalises to the empty text, so a stored record reads back as itself | medium, not executed | Namespaces.EmptyKeyAccepted | Namespaces.NormalizeAddonRoundTrip |
