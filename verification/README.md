# fluree-context-utils in Dafny

A verified model of the three algorithms at the heart of `lib/flureeContext.js`.

- **Context resolution** (inside `validate`): a document's raw `@context` and the settled outcomes of retrieving its URL references become one term-to-definition map.
  - Strings in an array context must be http(s) URLs.
  - Inline objects are spread in order, later ones winning.
  - Retrieved context documents are folded under what is already accumulated, so inline terms beat retrieved ones and earlier documents beat later ones.
  - A retrieved `@context` is spread whatever it is. An object gives its terms, an array its indices "0", "1", … and a string its character positions.
  - A lone string context is a URL taken without the URL check. A lone object context contributes nothing.
- **The intersection filter** (`returnIntersection`, with the `validate` and `isValid` wrappers): a node is filtered against the map, key by key in its own order.
  - `@context`, `@graph` and `@id` are copied verbatim.
  - An array `@type` keeps the entries whose property name or compact-IRI prefix is defined. `hasOwnProperty` turns a non-string entry into a property name (the number 5 finds the term "5"). `getInitialString` hands an array entry back whole unless the array holds ":", in which case the missing `substring` makes it throw; it also throws on a number, `null`, a boolean or an object, which have no `indexOf`.
  - A scalar `@type` is kept only when its property name is defined.
  - Any other key survives on an exact or prefix match. An object under an exact match is filtered again with the same map.
  - Every other key is reported as an error. With `expandContext` the definitions used are gathered into the output `@context`. With `errorOnInvalid` a non-empty error list makes the call fail.
- **Vocabulary aggregation** (`includeVocabulary` after expansion): the properties of the first expanded node are walked.
  - The keys are walked in order. A URL property name fetches one vocabulary document. A `@type` whose value is a URL fetches one, and an array `@type` of URLs fetches one per entry and keeps only the documents whose `@graph` is non-empty.
  - A `@type` that is not a URL, or an array `@type` holding any non-URL entry, ends the walk at once (lines 447-449 and 453-455): nothing is fetched for it, and no later key is looked at.
  - Its `@context` is spread under the aggregated term map, and its nodes are keyed by `@id` and spread under the aggregated graph, so entries already present win.
  - The result is the document's URL strings followed by the merged map, and the graph's nodes in reverse.

JavaScript values are the datatype `JsValues.Value`. Objects are insertion-ordered association lists, with `Get`, `Put` (`o[k] = v`), `Spread` (`{...a, ...b}`) and `Remove` (the rest of a destructuring) defined once and proved about there. Each class of failure is a `Results.Error` constructor, and every operation returns a `Result`. Some constructors cover several throws of one kind. `LookupFailure` covers both lookup checks (187 and 206-208). `MalformedVocabulary` covers every TypeError of the vocabulary walk that carries no URL: reading from a missing fetched document or graph, a truthy fetched `@graph` that is not an array (465), a `null` or `undefined` node in any graph (434), and a document's own `@graph` that cannot be spread (438).

The library's shared mutable state is made explicit:
- In `validate`, the error list and the output context are variables that every recursion frame of `returnIntersection` writes into. The model threads one accumulator `Intersection.Acc` through the recursion, so errors found in nested objects reach the top-level list.
- In `includeVocabulary`, the aggregate (`interimContext`, `updatedGraph`) is the datatype `Vocabulary.Aggregate`, threaded through the walk.

The outside world is given as parameters:
- `isUrl: string -> bool` stands for the `url.parse` protocol test.
- `load: string -> Retrieval` stands for `jsonld.documentLoader`. Its settled outcome is Rejected, NoDocument or Retrieved with the document's `@context` value, of any kind.
- `pull: string -> Fetch` stands for the HTTP GET, the HTML script extraction and `JSON.parse` of `pullVocabulary`.
- `expanded: seq<Value>` stands for the output of JSON-LD expansion.

The filter, the context fold, the `@id` reducer and the vocabulary batch have independent reference definitions next to them, and lemmas connect the two:
- `Intersection.Kept`, `ErrorsOf` and `Admissible` describe the filter without the accumulator, and `Intersection.Used` lists the definitions `expandContext` gathers;
- `ContextResolver.FirstRetrievedDefinition` and `Documents.LastDefinition` describe precedence;
- `Vocabulary.LastKeyed` describes the `@id` reducer;
- `Vocabulary.FirstVocabularyDefinition` describes which fetched document supplies a term that a batch merge adds.

The walk itself (`Vocabulary.Collect`) has the reference `Vocabulary.WalkedDocs`: the documents it fetches, in key order, up to the key that ends it. `Vocabulary.CollectMergesWalked` shows the walk is the batch merge (`Vocabulary.MergeAll`) of exactly those documents.

What the code does on points where a reader might expect otherwise:
- Errors found inside nested objects do reach the reported list, because the list is shared by every recursion frame.
- After aggregation the document's own node can be the FIRST node of `@graph`. This happens when the document has no `@graph` of its own and no fetched vocabulary holds a node under the document's `@id` key (`Vocabulary.DocumentNodeFirst`). The node is then the last entry of the keyed graph object, and line 492 reverses the values, which brings it to the front.
- The error set is not monotone as the map grows once nesting is involved (`IntersectionProperties.NestedObjectOpensNewErrors`). It is monotone per term and under a side condition.
- Any array value under a term the context defines makes `validate` throw. Line 273 passes a boolean where `every` expects a callback. The model keeps this as the `ArrayCallback` failure.

## Model

| member | source | states |
|---|---|---|
| Terms.InitialString | lib/flureeContext.js:79-88 | the result has no colon, is a prefix of the input, and is either the whole input or stops right at a colon |
| Terms.InitialStringUnique | lib/flureeContext.js:79-88 | any colon-free prefix that is the whole string or stops at a colon is the result, so the contract determines the function |
| Terms.CompactIriPrefix | lib/flureeContext.js:79-88 | a compact IRI `prefix:suffix` with a colon-free prefix yields exactly that prefix |
| Terms.InitialStringIdempotent | lib/flureeContext.js:79-88 | taking the prefix of the prefix changes nothing |
| Documents.CheckArgument | lib/flureeContext.js:120-130 | a call proceeds exactly when the document is an object with a truthy `@context`; null and undefined fail as a missing document |
| Documents.RemoveContext | lib/flureeContext.js:32-35 | the result lacks `@context`, and every other property reads and exists exactly as in the input |
| Documents.ExtractStringsAndMap | lib/flureeContext.js:37-77 | a string gives itself and no terms; an array gives its strings and its objects merged (`ExtractElements`); an object with distinct names gives exactly its own properties; anything else gives nothing; the map never repeats a name |
| Documents.ExtractElements | lib/flureeContext.js:49-64 | the map merged from an array's object elements never repeats a name |
| Documents.ExtractElementsStrings | lib/flureeContext.js:49-64 | the URL strings of an array context are exactly its string elements, in order |
| Documents.ExtractElementsMap | lib/flureeContext.js:49-64 | the merged map defines exactly the terms some object element defines, each with the value from the LAST element defining it |
| ContextResolver.SplitElements | lib/flureeContext.js:159-172 | fails exactly when some string element is not a URL, naming the first such element; otherwise it equals the URL-agnostic split of the array |
| ContextResolver.ContextReferences | lib/flureeContext.js:154-173 | a lone string is one URL without the URL check, an array is split, and any other value, including an object, contributes nothing |
| ContextResolver.FirstRejected | lib/flureeContext.js:185 | the index of the first rejected retrieval, or -1 exactly when none is rejected |
| ContextResolver.FirstEmpty | lib/flureeContext.js:195-205 | the index of the first retrieval without a document, or -1 exactly when there is none |
| ContextResolver.CheckRetrievals | lib/flureeContext.js:185-209 | fails exactly when errorOnLookupFailure is set and some retrieval lacks a document; a rejection is reported before a missing document, each time the first one |
| ContextResolver.Retrieve | lib/flureeContext.js:176-184 | one settled outcome per URL, in URL order |
| ContextResolver.FirstRetrievedSnoc | lib/flureeContext.js:211-217 | appending a retrieval changes the first retrieved definition of a term only when no earlier document defines it |
| ContextResolver.FoldRetrieved | lib/flureeContext.js:211-217 | the folded map defines a name exactly when the inline map or some retrieved `@context`, spread as any value, defines it |
| ContextResolver.FoldRetrievedPrecedence | lib/flureeContext.js:211-217 | the folded map has distinct names, defines exactly the inline terms and the retrieved ones, keeps the inline definition, and otherwise takes the FIRST retrieved definition |
| ContextResolver.Resolve | lib/flureeContext.js:145-217 | an object context resolves to the empty map; a malformed URL can only come from an array; a lookup failure only with errorOnLookupFailure set; without it a non-array context always resolves |
| ContextResolver.ResolveStringContext | lib/flureeContext.js:154-217 | a lone string context fails exactly when errorOnLookupFailure is set and its retrieval brings no document; otherwise it resolves to the own properties of the retrieved `@context` (empty when nothing was retrieved), with distinct names when that context is a map |
| ContextResolver.RetrievedArrayContextSpreadsIndices | lib/flureeContext.js:211-217 | a retrieved `@context` that is an array yields the names "0" and "1" and none of the terms its object element holds |
| ContextResolver.ResolveArrayPrecedence | lib/flureeContext.js:154-217 | for an array context, a term defined inline resolves to its last inline definition and any other term to its first retrieved definition |
| Intersection.InitialOf | lib/flureeContext.js:79-88 | `getInitialString` on any value: a string gives its prefix, an array without ":" comes back whole, everything else throws |
| Intersection.Record | lib/flureeContext.js:236-247 | recording a definition succeeds exactly when `getInitialString` accepts its `@id` (which must be truthy for a class); the term and the property name of a truthy namespace are then present, earlier entries stay, and every entry holds the map's definition |
| Intersection.FilterTypes | lib/flureeContext.js:232-256 | completes exactly when every exact match of an entry's property name is a class with a usable identifier (under expansion) and every other entry survives `getInitialString`; keeps exactly the matching entries in order; with expansion records every exact match, without it leaves the context alone |
| Intersection.FilterField | lib/flureeContext.js:229-293 | completes exactly when the property is admissible; yields its kept form; appends exactly its reported terms; with expansion an exactly matched term lands in the output context (the full set of names it records is `IntersectionProperties.FilterFieldKeys`) |
| Intersection.FilterFields | lib/flureeContext.js:223-298 | completes exactly when the node is admissible, returns the kept node, appends exactly the node's reported terms at any depth, leaves the context alone without expansion, and keeps every context entry equal to the map's definition of its name |
| Intersection.Definitions | lib/flureeContext.js:237 | the object whose names are exactly the given ones, in order, each holding the map's definition |
| IntersectionProperties.RecordKeys | lib/flureeContext.js:236-286 | recording a term adds to the context's names the term and then its truthy namespace's property name, each only if absent |
| IntersectionProperties.FilterTypesKeys | lib/flureeContext.js:232-256 | with expansion an array `@type` adds exactly the recorded names of its exactly matched entries, in entry order |
| IntersectionProperties.FilterFieldKeys | lib/flureeContext.js:229-293 | with expansion one property adds exactly the names `Intersection.FieldUsed` lists: a matched `@type`'s names, or for a matched term the names recorded inside its object value before the term's own |
| IntersectionProperties.FilterFieldsKeys | lib/flureeContext.js:223-298 | with expansion the output context's names are the earlier ones followed by the names `Intersection.Used` lists at any depth, in traversal order, each kept at its first position |
| IntersectionProperties.ConsistentIsDefinitions | lib/flureeContext.js:237 | an output context whose every entry holds the map's definition is determined by its names |
| IntersectionProperties.ExpandedContext | lib/flureeContext.js:219-298 | with expansion the output context is exactly the map's definitions of the recorded names, in first-recorded order |
| IntersectionProperties.KeptReserved | lib/flureeContext.js:229-230 | `@context`, `@graph` and `@id` are present in the output exactly when in the input, with the same value |
| IntersectionProperties.KeptHasNoNewKeys | lib/flureeContext.js:223-298 | the output has no property the input lacks |
| IntersectionProperties.KeptLookup | lib/flureeContext.js:227-293 | a property is in the output exactly when it survives, and then carries its kept value |
| IntersectionProperties.ErrorsAreUnmatched | lib/flureeContext.js:287-293 | every reported term, at any depth, has neither itself nor its prefix defined |
| IntersectionProperties.FieldErrorsAreUnmatched | lib/flureeContext.js:269-293 | every term one property reports, itself or inside its object value, is undefined in the map |
| IntersectionProperties.UnmatchedAreErrors | lib/flureeContext.js:290-293 | every top-level property undefined in the map is reported |
| IntersectionProperties.ErrorsMonotoneByTerm | lib/flureeContext.js:287-293 | after the map grows, every reported term was already undefined in the smaller map |
| IntersectionProperties.ErrorsMonotone | lib/flureeContext.js:269-293 | when the added entries open no object left unchecked before, the errors under the bigger map are among those under the smaller one |
| IntersectionProperties.NestedObjectOpensNewErrors | lib/flureeContext.js:269-293 | a concrete node and two maps for which growing the map adds a reported term |
| IntersectionProperties.NumericTypeEntryFindsTerm | lib/flureeContext.js:235 | the `@type` entry 5 finds the term "5" and is kept as a number |
| IntersectionProperties.ArrayTypeEntryDropped | lib/flureeContext.js:249-251 | an array `@type` entry that no term matches is dropped without a failure |
| IntersectionProperties.ArrayIdentifierRecorded | lib/flureeContext.js:280-286 | a definition whose `@id` is an array is recorded, together with the array's joined text as its namespace |
| IntersectionProperties.MatchingTypesIdempotent | lib/flureeContext.js:232-256 | filtering an array `@type` twice keeps the same entries |
| IntersectionProperties.KeptIdempotent | lib/flureeContext.js:223-298 | filtering the output again returns it unchanged and reports nothing |
| IntersectionProperties.KeptValueIdempotent | lib/flureeContext.js:269-279 | a kept value survives again, is unchanged by a second filter, and reports nothing |
| IntersectionProperties.MatchingTypesAdmissible | lib/flureeContext.js:232-256 | the matching entries of an admissible `@type` are admissible again |
| IntersectionProperties.KeptAdmissible | lib/flureeContext.js:223-298 | the output of a filter that completes completes again |
| IntersectionProperties.KeptValueAdmissible | lib/flureeContext.js:269-279 | a kept value of an admissible property is admissible again |
| IntersectionProperties.FilterIdempotent | lib/flureeContext.js:223-298 | without expansion, filtering the filter's output completes, reports nothing and returns it unchanged |
| IntersectionProperties.AdmissibleWithoutExpansion | lib/flureeContext.js:236-248 | whatever completes with expansion completes without it |
| IntersectionProperties.FieldAdmissibleWithoutExpansion | lib/flureeContext.js:280-286 | a property that completes with expansion completes without it |
| IntersectionProperties.ExpansionOnlyAddsContext | lib/flureeContext.js:280-286 | with expansion the kept node and the reported terms are those of the unexpanded filter |
| IntersectionProperties.ExpandedContextCoversTerms | lib/flureeContext.js:280-286 | with expansion every top-level property matched by its exact term has that term's definition in the output context |
| Validator.Validate | lib/flureeContext.js:112-318 | null or undefined documents fail as missing; success means an object whose `@context` is the original one without expansion and, with it, exactly the map's definitions of the names the filter records at any depth, in first-recorded order; under errorOnInvalid success means a document reporting nothing |
| Validator.ValidateOutcome | lib/flureeContext.js:301-318 | once the context resolves, validation succeeds exactly when the filter completes and, under errorOnInvalid, nothing is reported; that failure lists every reported term; the result reads as the kept node |
| Validator.ValidateIdempotent | lib/flureeContext.js:301-318 | without expansion, validating a validated document returns it unchanged |
| Validator.IsValid | lib/flureeContext.js:328-351 | fails exactly when the argument checks fail |
| Validator.IsValidIff | lib/flureeContext.js:328-351 | a document is valid exactly when its context resolves, the filter completes with expansion, and no term at any depth is undefined |
| JsValues.AddNames | lib/flureeContext.js:237 | writing names one by one keeps the earlier names as a prefix, holds exactly the old and the written names, and repeats none when the old names were distinct |
| JsValues.AddNamesConcat | lib/flureeContext.js:237 | writing two batches of names is writing their concatenation |
| JsValues.PutNames | lib/flureeContext.js:237 | a property write changes the names as writing that one name does |
| JsValues.Put | lib/flureeContext.js:237 | an existing name keeps its position, a new one is appended; the name reads the new value and every other name reads as before |
| JsValues.Spread | lib/flureeContext.js:170 | the left operand's names stay a prefix, and a name is present exactly when present in either operand |
| JsValues.SpreadGet | lib/flureeContext.js:170 | on a shared name the right operand's value wins; other names read through to the left operand |
| JsValues.SpreadKeys | lib/flureeContext.js:461 | the names are the left operand's, then the right operand's new ones in their order |
| JsValues.Remove | lib/flureeContext.js:33 | the result lists every name but the removed one, in order, each with its value |
| JsValues.OwnPropertiesDistinct | lib/flureeContext.js:461 | spreading any value never repeats a name: object names are distinct, and array and string indices are written apart |
| Vocabulary.PullVocabulary | lib/flureeContext.js:402-431 | fails exactly when errorOnUndefinedProperties is set and the document is unavailable, naming the URL; otherwise the fetched document or the empty stand-in |
| Vocabulary.Property | lib/flureeContext.js:434-471 | reading a keyword property throws exactly on null and undefined; an object reads its own property |
| Vocabulary.NodeKey | lib/flureeContext.js:434 | a node's key fails exactly for null and undefined; for an object it is `String` of its `@id` |
| Vocabulary.Reduce | lib/flureeContext.js:433-434 | the keyed graph has distinct names and every node sits under its own `@id` key |
| Vocabulary.ReduceFrom | lib/flureeContext.js:434 | folding on from an object with distinct names, each node under its own key, keeps both properties |
| Vocabulary.ReduceSucceeds | lib/flureeContext.js:433-434 | the reducer throws exactly when some node is null or undefined |
| Vocabulary.ReduceKeepsLastNode | lib/flureeContext.js:433-434 | a key is present exactly when present before or some node has it, and then holds the LAST node with that key |
| Vocabulary.InitialNodes | lib/flureeContext.js:437-440 | a falsy `@graph` gives the document without its `@context`, an array gives its items, and only a truthy non-array non-string fails |
| Vocabulary.FetchedNodes | lib/flureeContext.js:463-471 | a fetched array graph is reduced, a document without a truthy graph contributes itself without `@context`, and the result is keyed by `@id` |
| Vocabulary.Merge | lib/flureeContext.js:459-471 | fails exactly on a null or undefined document or unusable nodes, and never changes the URL strings |
| Vocabulary.FetchedList | lib/flureeContext.js:463-471 | fails exactly on a null or undefined document or a truthy non-array graph; otherwise the graph's items, or the document without `@context` when the graph is falsy |
| Vocabulary.FetchedNodesLastKeyed | lib/flureeContext.js:433-434 | a fetched document's keyed graph holds a key exactly when one of its nodes has it, and then the LAST such node |
| Vocabulary.MergeValues | lib/flureeContext.js:459-471 | after a merge an existing term or node keeps its value, and any other name reads the fetched `@context`'s definition or the fetched keyed node |
| Vocabulary.MergeAllFirstDefinition | lib/flureeContext.js:458-472 | after a batch of merges an existing term or node keeps its value, and a missing one takes the value from the FIRST document of the batch that supplies it |
| Vocabulary.MergePreserves | lib/flureeContext.js:459-471 | a merge keeps the aggregate well formed and every existing term and node with its value, adds exactly the fetched names, and orders the graph as fetched nodes then earlier ones |
| Vocabulary.MergeEmptyVocabulary | lib/flureeContext.js:424-429 | merging the stand-in for an unavailable vocabulary leaves the aggregate unchanged |
| Vocabulary.MergeExtends | lib/flureeContext.js:459-471 | a merge extends the aggregate, and the node last in the graph stays last unless the fetched graph repeats its key |
| Vocabulary.PullAll | lib/flureeContext.js:450 | fails exactly when errorOnUndefinedProperties is set and some URL is unavailable, naming the first; otherwise one document per URL in order |
| Vocabulary.GraphNonEmpty | lib/flureeContext.js:451 | throws exactly on a null or undefined document or graph, otherwise tests the graph's length |
| Vocabulary.KeepNonEmpty | lib/flureeContext.js:451 | completes exactly when every test completes; keeps exactly the documents whose graph is non-empty, each once and in their original order, as the increasing positions of their flags |
| Vocabulary.MergeAll | lib/flureeContext.js:458-472 | merging a batch of documents in order never changes the URL strings |
| Vocabulary.MergePulled | lib/flureeContext.js:473-484 | fetching and merging one URL never changes the URL strings (what it merges is `Vocabulary.MergePulledValues`) |
| Vocabulary.MergePulledValues | lib/flureeContext.js:473-484 | after fetching and merging one URL an existing term or node keeps its value, and any other name reads that URL's vocabulary (or the empty stand-in's) |
| Vocabulary.Collect | lib/flureeContext.js:442-487 | the walk over the expanded node's properties never changes the URL strings (what it merges is `Vocabulary.CollectMergesWalked`) |
| Vocabulary.MergeAllConcat | lib/flureeContext.js:458-472 | merging a batch in two parts, the second from the first's result, is merging it whole, failing where the first part fails |
| Vocabulary.StepMergesFetched | lib/flureeContext.js:444-485 | once a key's fetching completes, its step ends the walk exactly where StepDocs says so, and otherwise is the batch merge of exactly the documents StepDocs lists: one vocabulary for a URL key or URL `@type`, the non-empty ones for an array `@type`, none for other keys |
| Vocabulary.CollectMergesWalked | lib/flureeContext.js:442-487 | a walk that completes has fetched every document it needed, and once the fetching completes the walk equals the batch merge of the fetched documents, in key order, up to the key that ends it |
| Vocabulary.WalkedAreMaps | lib/flureeContext.js:402-431 | every document the walk fetches is a map when every vocabulary is |
| Vocabulary.CollectFirstDefinition | lib/flureeContext.js:442-487 | after the walk an existing term or node keeps its value, and a missing one takes the value from the FIRST fetched document that supplies it |
| Vocabulary.MergeAllExtends | lib/flureeContext.js:458-472 | merging a batch extends the aggregate and keeps a last node last when no document repeats it |
| Vocabulary.AnyNonUrl | lib/flureeContext.js:447 | false exactly when every entry is a URL string; true only when a non-URL string comes before any non-string entry; fails only when a non-string entry comes first, every entry before it being a URL string (the left-to-right order of `some`) |
| Vocabulary.Step | lib/flureeContext.js:444-485 | ends the walk exactly on a `@type` naming a non-URL; a key that is neither `@type` nor a URL changes nothing (what a URL key merges is `Vocabulary.StepMergesFetched`) |
| Vocabulary.StepExtends | lib/flureeContext.js:444-485 | a step that goes on extends the aggregate and keeps the document's last node last when no vocabulary holds its key |
| Vocabulary.CollectExtends | lib/flureeContext.js:442-487 | the walk keeps the URL strings, every term and every node already present with its value, and the graph well formed |
| Vocabulary.StopIgnoresLaterKeys | lib/flureeContext.js:447-454 | after a `@type` naming a non-URL, whatever keys follow, the result is that of the walk up to it |
| Vocabulary.CollectIgnoresPlainKeys | lib/flureeContext.js:443-485 | keys that are neither `@type` nor URLs leave the aggregate unchanged |
| Vocabulary.Initial | lib/flureeContext.js:436-440 | the starting aggregate is well formed and holds the context's own URL strings and merged map |
| Vocabulary.Output | lib/flureeContext.js:490-493 | the result has exactly `@context` and `@graph`, and the i-th output node is the i-th from the end of the keyed graph |
| Vocabulary.IncludeVocabulary | lib/flureeContext.js:371-494 | null or undefined documents fail as missing; success needs the argument checks, a usable starting graph, and a first expanded node (which vocabulary reaches the result is `Vocabulary.IncludeVocabularyFirstDefinition`) |
| Vocabulary.IncludeVocabularyFirstDefinition | lib/flureeContext.js:436-493 | the output map reads a term as the document's own context defines it, otherwise as the FIRST vocabulary the walk fetches that defines it; the output node keyed `k` is the document's own node under `k`, otherwise the first fetched one |
| Vocabulary.OutputReads | lib/flureeContext.js:489-493 | the output context ends with the aggregated map, and each output node keyed `k` is the graph's entry under `k` |
| Vocabulary.IncludeVocabularyShape | lib/flureeContext.js:489-493 | the result is the URL strings in order then one map in which the document's own terms win, and a graph holding every node of the keyed starting graph (the document's nodes, where nodes sharing an `@id` collapse to the last of them) with no two nodes sharing an `@id` key |
| Vocabulary.DocumentNodeFirst | lib/flureeContext.js:437-492 | a document without a graph of its own is the FIRST node of the result, without its `@context`, when no vocabulary holds its key |

## Left out

- JSON-LD expansion and the `attemptExpanded` retry wrapper (lines 8-30): a call into the `jsonld` library. Its result is the `expanded` parameter of `Vocabulary.IncludeVocabulary`.
- Network and parsing: `jsonld.documentLoader`, the `axios` GET, cheerio's script extraction and `JSON.parse` are the `load` and `pull` parameters.
- Promise concurrency: `Promise.allSettled` and `Promise.all` are sequences of per-URL outcomes in URL order. The first failing URL in list order is taken as the rejection of `Promise.all`.
- `isUrl` (line 6) is an uninterpreted parameter. `url.parse` throwing on a non-string is modelled only where a `@type` entry can be one (`NonStringType`).
- The `arguments.length` checks and the merging of caller options over the defaults: options are passed whole, as `Validator.Options` with `Validator.Defaults` for the defaults, and `Vocabulary.VocabularyOptions`.
- Integer-like property names: JavaScript enumerates them first in ascending order. The model keeps every name in insertion order.
- Numbers are integers. Floating point is not modelled, and `String(n)` is modelled only for integers.
- Objects are assumed to have distinct property names (`ValueIsMap`, `ObjectsAreMaps`, `VocabulariesAreMaps`), as every parsed JSON document does.
- Vocabulary.PositiveLength: an object graph's `length` property counts only when it is a positive number or `true`. A numeric string or another truthy-comparable `length` is treated as not positive.
- The demo script `lib/tests.js` and `webpack.config.js` are not part of this model.
