# bcmetaselector in Dafny

A model of the core of bcmetaselector, a library that extracts article
metadata (title, author, tags, locale and so on) from a document's nodes.
Every property name has a predicate over nodes. The predicate is built from
JSON rule-configuration files that can extend and include one another. One
pass over the nodes gives each node to the first name whose predicate holds.
The collected values are then read back through `Metadata` views.

The model follows the library's structure, one module per component:

- `Wrappers`, `Strings`, `OrderedMaps`, `Json`: the shared vocabulary.
  - Java `null` is `None`.
  - A thrown exception is a `Failure` whose `Fault` is named after it.
  - A `LinkedHashMap` is a sequence of key/value pairs.
- `PropertiesParser`: the resolver for rule configurations.
  - It handles `properties`, `extends` and `include`, `#object` references, comment keys and the parse cache.
- `Predicates`, `RuleSets`: node predicates as an abstract syntax.
  - Predicates are evaluated through an attribute-test provider, which is a pair of functions.
  - One rule set is the AND of its attribute tests; a `regex(...)` value gives a regex test.
- `FilterContexts`, `FilterAlgebra`: the four filter contexts and everything built on `getCount`/`get`.
  - The four contexts are `EMPTY`, `FilterContextImpl`, the and/or pair, and `FilterContextComposite`.
  - Built on those two: compose, `getAll`, the iterator, `anyMatch`/`allMatch`, `selectMatching` and `findFirst`.
- `FilterBuilder`: `FilterBuilderImpl.build`, one predicate per property name, OR-ed over the configuration files.
- `Resolution`: what a configuration resolves to with no cache. The lemmas here show that the parse cache never changes an answer.
- `Selection`: `SelectorImpl.select` and its collecting consumer. It returns either a map or a `Metadata` snapshot.
- `Meta`: `Metadata` and its implementations.
  - The implementations are `MetadataImpl`, `MetadataComposite` and the flushed snapshot.
  - It covers `getValue`/`getValues` with name options, `combineValues`, `toString`, `getLocale` and the strict `toLocale` parser.
- `Collectors`: `CollectIntoMap` and the bean accessor names of `CollectIntoBean`.
- `ArticleMetaNames`: the reserved names and the multi-value test.

All paths below are under `src/main/java/com/bc/meta/`.

## Model

| member | source | states |
|---|---|---|
| Json.AsObject | src/main/java/com/bc/meta/selector/util/PropertiesParser.java:162 | the `(Map)` cast of a possibly missing member: absent or JSON null reads as null, an object gives its members, anything else is a class-cast failure |
| Json.AsString | src/main/java/com/bc/meta/selector/util/PropertiesParser.java:166 | the `(String)` cast of `extends`: absent or JSON null gives null, a JSON string gives exactly that string, and anything else fails |
| Json.AsList | src/main/java/com/bc/meta/selector/util/PropertiesParser.java:168 | the `(List)` cast of `include`: absent or JSON null gives null, a JSON array gives exactly its items, and anything else fails |
| Json.JavaToString | src/main/java/com/bc/meta/selector/impl/FilterContextImpl.java:65-67 | `v.toString()` of a rule value throws exactly when the value is null, and a string renders as itself |
| Strings.LastIndexOf | src/main/java/com/bc/meta/selector/util/PropertiesParser.java:241 | `lastIndexOf('#')`: absent iff the character does not occur, otherwise the last position holding it |
| Strings.SplitAtLast | src/main/java/com/bc/meta/selector/util/PropertiesParser.java:241-243 | the two substrings around the last `#` glue back to the reference, and the object part holds no `#` |
| Strings.SplitAtLastOfJoin | src/main/java/com/bc/meta/selector/util/PropertiesParser.java:241-243 | splitting `file#object` at its last `#` recovers both parts whenever the object name holds no `#` |
| Strings.NatToDecimal | src/main/java/com/bc/meta/selector/impl/Collectors.java:64 | the decimal rendering that string concatenation gives an `int`: non-empty, digits only, no leading zero |
| Strings.DecimalRoundTrip | src/main/java/com/bc/meta/selector/impl/Collectors.java:64 | reading the rendered digits back gives the number |
| OrderedMaps.Get | src/main/java/com/bc/meta/selector/impl/Collectors.java:83-85 | a lookup finds a value iff the key is present, and the value is the one stored under the key |
| OrderedMaps.Put | src/main/java/com/bc/meta/selector/impl/Collectors.java:87-89 | `LinkedHashMap.put`: the key maps to the new value, every other key is unchanged, an existing key keeps its position, and a new key is appended |
| OrderedMaps.PutAll | src/main/java/com/bc/meta/selector/util/PropertiesParser.java:190 | `putAll` gives the union of the key sets and keeps keys distinct |
| OrderedMaps.GetPutAll | src/main/java/com/bc/meta/selector/util/PropertiesParser.java:190 | after `putAll` a key holds the source's value if the source has it, otherwise the old value |
| OrderedMaps.MergeLayers | src/main/java/com/bc/meta/selector/util/PropertiesParser.java:177-191 | the merged map of all layers has distinct keys |
| OrderedMaps.MergeLayersLastWins | src/main/java/com/bc/meta/selector/util/PropertiesParser.java:177-191 | a key takes its value from the last layer that has it |
| OrderedMaps.MergeLayersAbsent | src/main/java/com/bc/meta/selector/util/PropertiesParser.java:177-191 | a key that no layer has is absent from the merge |
| PropertiesParser.NewResolver | src/main/java/com/bc/meta/selector/util/PropertiesParser.java:108-115 | a new parser starts with an empty cache and has read nothing |
| PropertiesParser.BuildKeySplitsBack | src/main/java/com/bc/meta/selector/util/PropertiesParser.java:250-257 | a `location#object` cache key splits back at its last `#` into the location and the object name |
| PropertiesParser.BuildKeyInjective | src/main/java/com/bc/meta/selector/util/PropertiesParser.java:250-257 | object names without `#` give distinct cache keys for distinct pairs |
| PropertiesParser.BuildKeyCollision | src/main/java/com/bc/meta/selector/util/PropertiesParser.java:250-257 | a whole-file location containing `#` shares its cache key with a named object |
| PropertiesParser.FirstNonComment | src/main/java/com/bc/meta/selector/util/PropertiesParser.java:150-152 | the chosen top-level key is the first one not starting with `!--`; absent iff every key is a comment |
| PropertiesParser.SelectObject | src/main/java/com/bc/meta/selector/util/PropertiesParser.java:144-157 | the target object is the named member, or the first non-comment member. Selection succeeds iff that member exists and is an object, and then gives its members |
| PropertiesParser.FirstEntryOfKey | src/main/java/com/bc/meta/selector/util/PropertiesParser.java:152-155 | looking up the first non-comment key again finds that very member |
| PropertiesParser.SpecOf | src/main/java/com/bc/meta/selector/util/PropertiesParser.java:162-168 | the object's `properties`, `extends` and `include` members, each read through its cast |
| PropertiesParser.EvolvesTransitive | src/main/java/com/bc/meta/selector/util/PropertiesParser.java:114 | the caching flag never changes and the cache only grows, across any chain of calls |
| PropertiesParser.Parse | src/main/java/com/bc/meta/selector/util/PropertiesParser.java:121-219 | a cache hit returns the cached map and reads nothing. On a miss the location is read. With caching on, a success is stored under its key |
| PropertiesParser.Load | src/main/java/com/bc/meta/selector/util/PropertiesParser.java:137-209 | loading the target object keeps the caching flag and only adds to the cache |
| PropertiesParser.ResolveRefs | src/main/java/com/bc/meta/selector/util/PropertiesParser.java:179-187 | the references are resolved in order, one layer per reference. A null first entry throws `NullPointerException` at `startsWith`; any other non-string entry fails the cast to `String` |
| PropertiesParser.ResolveRef | src/main/java/com/bc/meta/selector/util/PropertiesParser.java:221-248 | a `#` reference reads the current document and leaves the resolver untouched |
| PropertiesParser.ResolveWithoutInheritance | src/main/java/com/bc/meta/selector/util/PropertiesParser.java:170-173 | without `extends` and with an absent or empty `include`, parsing succeeds iff `properties` is present, and gives exactly that map |
| PropertiesParser.ResolveWithInheritance | src/main/java/com/bc/meta/selector/util/PropertiesParser.java:175-192 | with inheritance the result is the parent, then the includes in order, then the object's own properties, merged last-wins |
| PropertiesParser.OwnPropertiesWin | src/main/java/com/bc/meta/selector/util/PropertiesParser.java:189-191 | the object's own properties override everything it inherits |
| PropertiesParser.LaterReferenceWins | src/main/java/com/bc/meta/selector/util/PropertiesParser.java:179-187 | a later reference overrides an earlier one for a key the object does not set itself |
| PropertiesParser.ParentComesFirst | src/main/java/com/bc/meta/selector/util/PropertiesParser.java:179-187 | the `extends` parent is merged before all includes |
| PropertiesParser.ResolveRefsFirstLayer | src/main/java/com/bc/meta/selector/util/PropertiesParser.java:184-186 | only string references resolve, and the first layer is the first reference's properties |
| PropertiesParser.HookReferenceIsRaw | src/main/java/com/bc/meta/selector/util/PropertiesParser.java:236-237 | a `#name` reference is that member of the current document, unresolved and read without touching the resolver; it succeeds iff the member is an object |
| PropertiesParser.ExternalReference | src/main/java/com/bc/meta/selector/util/PropertiesParser.java:238-245 | a reference without `#` parses a whole file; `file#object` parses that object of that file |
| PropertiesParser.ParseTwiceFromCache | src/main/java/com/bc/meta/selector/util/PropertiesParser.java:123-131 | with caching on, asking again returns the same map, reads nothing and leaves the cache as it is |
| PropertiesParser.NoCacheStoresNothing | src/main/java/com/bc/meta/selector/util/PropertiesParser.java:114 | with caching off the cache stays empty |
| Resolution.RefTarget | src/main/java/com/bc/meta/selector/util/PropertiesParser.java:238-245 | the pair an external reference names is one the cache keys apart: a whole file has no `#` in its name, and an object name holds no `#` |
| Resolution.ResolveMono | src/main/java/com/bc/meta/selector/util/PropertiesParser.java:121-219 | a resolution that succeeds within a nesting budget gives the same map with any larger budget |
| Resolution.ResolveRefsMono | src/main/java/com/bc/meta/selector/util/PropertiesParser.java:179-187 | the same for the references of one object |
| Resolution.ResolveRefMono | src/main/java/com/bc/meta/selector/util/PropertiesParser.java:233-248 | the same for one reference |
| Resolution.ExternalRefMono | src/main/java/com/bc/meta/selector/util/PropertiesParser.java:238-245 | the same for a reference to another file or object |
| Resolution.ResolvesUnique | src/main/java/com/bc/meta/selector/util/PropertiesParser.java:121-219 | a location and object name resolve to at most one map, whatever the budget |
| Resolution.WellKeyedInjective | src/main/java/com/bc/meta/selector/util/PropertiesParser.java:250-257 | two pairs without the colliding `#` that share a cache key are the same pair |
| Resolution.NewResolverSound | src/main/java/com/bc/meta/selector/util/PropertiesParser.java:108-115 | a new parser's cache holds nothing but stateless resolutions |
| Resolution.ParseSound | src/main/java/com/bc/meta/selector/util/PropertiesParser.java:121-219 | from a sound cache, `parse` keeps the cache sound, and a success is what the pair resolves to with no cache. If the stateless resolution succeeds with the same budget, `parse` gives exactly that map |
| Resolution.LoadSound | src/main/java/com/bc/meta/selector/util/PropertiesParser.java:137-209 | the same for the cache-miss path |
| Resolution.ResolveRefsSound | src/main/java/com/bc/meta/selector/util/PropertiesParser.java:179-187 | the same for the `extends`/`include` references of one object |
| Resolution.ResolveRefSound | src/main/java/com/bc/meta/selector/util/PropertiesParser.java:221-248 | the same for one reference |
| Resolution.ExternalRefSound | src/main/java/com/bc/meta/selector/util/PropertiesParser.java:238-245 | the same for a reference to another file or object |
| Resolution.ParseTransparent | src/main/java/com/bc/meta/selector/util/PropertiesParser.java:121-219 | two successful parses of a pair the cache keys apart give the same map: one from any sound cache, the other from a new parser |
| Predicates.Combine | src/main/java/com/bc/meta/selector/impl/FilterContextComposite.java:62 | the first operand becomes the result, and later ones are and-ed or or-ed onto it. Combining a null test onto a result throws |
| Predicates.FoldMeaning | src/main/java/com/bc/meta/selector/impl/FilterContextImpl.java:62-81 | a non-empty AND fold holds iff every operand holds; an OR fold holds iff some operand holds |
| RuleSets.StripRegex | src/main/java/com/bc/meta/selector/impl/FilterContextImpl.java:68-71 | the pattern between `regex(` and `)` re-wraps to the original value |
| RuleSets.IsRegexIffWrapped | src/main/java/com/bc/meta/selector/impl/FilterContextImpl.java:68 | a value counts as a regex exactly when it is some pattern wrapped in `regex(` and `)` |
| RuleSets.StripRegexOfWrapped | src/main/java/com/bc/meta/selector/impl/FilterContextImpl.java:68-71 | wrapping a pattern and stripping it again gives the pattern back |
| RuleSets.AttributeTest | src/main/java/com/bc/meta/selector/impl/FilterContextImpl.java:68-75 | a regex value gives the regex test of the stripped pattern; any other value gives the equality test |
| RuleSets.MemberTests | src/main/java/com/bc/meta/selector/impl/FilterContextImpl.java:64-75 | one attribute test per member, in member order; fails iff some member value is null |
| RuleSets.RuleSetPred | src/main/java/com/bc/meta/selector/impl/FilterContextImpl.java:61-85 | a null rule set throws, an empty one gives the caller's default, and a non-empty one gives a predicate |
| RuleSets.RuleSetMeaning | src/main/java/com/bc/meta/selector/impl/FilterContextImpl.java:62-81 | a non-empty rule set holds of a node iff all its attribute tests do |
| RuleSets.RuleSetIgnoresDefault | src/main/java/com/bc/meta/selector/impl/FilterContextImpl.java:82 | a non-empty rule set does not depend on the default |
| FilterContexts.RuleSetList | src/main/java/com/bc/meta/selector/impl/FilterContextImpl.java:88-93 | a name's rule-set list is null when absent or null, the array when it is one, and a cast failure otherwise |
| FilterContexts.Count | src/main/java/com/bc/meta/selector/impl/FilterContextImpl.java:48-54 | `EMPTY` counts 0. A configuration counts the length of the name's list, 0 for a null list, and fails iff reading the list fails |
| FilterContexts.CountFrom | src/main/java/com/bc/meta/selector/impl/FilterContextComposite.java:46-52 | the composite loop succeeds iff every delegate's count does, and yields one of them, or 0, that bounds them all |
| FilterContexts.RuleSetAt | src/main/java/com/bc/meta/selector/impl/FilterContextImpl.java:60-61 | an index outside the list is an index failure; inside it gives that rule set's predicate |
| FilterContexts.Get | src/main/java/com/bc/meta/selector/impl/FilterContextImpl.java:57-86 | `EMPTY` returns the default. A configuration without the name throws a null-pointer failure, and an index past the count fails. Otherwise the answer is the indexed rule set's predicate |
| FilterContexts.GetFrom | src/main/java/com/bc/meta/selector/impl/FilterContextComposite.java:55-65 | the composite's loop returns null only when the default is null |
| FilterContexts.PairCountIsMax | src/main/java/com/bc/meta/selector/impl/AbstractFilterContext.java:174-176 | a pair's count is the maximum of its sides' counts, and it fails iff one side fails |
| FilterContexts.CompositeCountIsMax | src/main/java/com/bc/meta/selector/impl/FilterContextComposite.java:46-52 | a composite's count bounds every delegate's count and is 0 or one of them |
| FilterContexts.GetFromAnswers | src/main/java/com/bc/meta/selector/impl/FilterContextComposite.java:55-65 | every delegate with the index in range is asked and answers. With none in range the default comes back |
| FilterContexts.GetFromInactive | src/main/java/com/bc/meta/selector/impl/FilterContextComposite.java:55-65 | with no delegate reaching the index, the loop returns the default |
| FilterContexts.GetFromActive | src/main/java/com/bc/meta/selector/impl/FilterContextComposite.java:55-65 | with a default, a delegate that reaches the index answers with a predicate |
| FilterContexts.GetFromConj | src/main/java/com/bc/meta/selector/impl/FilterContextComposite.java:55-65 | an AND composite's predicate holds iff every in-range delegate's predicate holds |
| FilterContexts.GetFromDisj | src/main/java/com/bc/meta/selector/impl/FilterContextComposite.java:55-65 | an OR composite's predicate holds iff some in-range delegate's predicate holds |
| FilterContexts.CompositeGetMeaning | src/main/java/com/bc/meta/selector/impl/FilterContextComposite.java:55-65 | `get(name, i)` of a composite is the default when no delegate reaches index i. Otherwise it is the AND or OR of the delegates that do |
| FilterContexts.PairGetMeaning | src/main/java/com/bc/meta/selector/impl/AbstractFilterContext.java:178-186 | a pair's `get` combines its sides' answers, the side out of range contributing nothing, and falls back to the default |
| FilterAlgebra.AnswersOf | src/main/java/com/bc/meta/selector/impl/AbstractFilterContext.java:61-73 | the k-th answer is `get(name, k, dflt)` for every k below the count |
| FilterAlgebra.FoldFrom | src/main/java/com/bc/meta/selector/impl/AbstractFilterContext.java:61-73 | the compose loop yields null only for a null default |
| FilterAlgebra.FoldFromAnswers | src/main/java/com/bc/meta/selector/impl/AbstractFilterContext.java:61-73 | with a default every answer succeeds, and if no answer is present the default comes back |
| FilterAlgebra.FoldFromConj | src/main/java/com/bc/meta/selector/impl/AbstractFilterContext.java:61-73 | the AND fold holds iff every present answer holds |
| FilterAlgebra.FoldFromDisj | src/main/java/com/bc/meta/selector/impl/AbstractFilterContext.java:61-73 | the OR fold holds iff some present answer holds |
| FilterAlgebra.Compose | src/main/java/com/bc/meta/selector/impl/AbstractFilterContext.java:42-73 | `and`/`or(name, outputIfNone)`: `EMPTY` and a zero count give the default, and null comes back only for a null default |
| FilterAlgebra.ComposeMeaning | src/main/java/com/bc/meta/selector/impl/AbstractFilterContext.java:61-73 | with a default, `and(name)` holds iff every rule set of the name holds, and `or(name)` iff some does; with no rule sets it is the default |
| FilterAlgebra.ComposeAnswers | src/main/java/com/bc/meta/selector/impl/AbstractFilterContext.java:61-73 | with a default, every index below the count answers, and with no index present the default comes back |
| FilterAlgebra.ComposeConj | src/main/java/com/bc/meta/selector/impl/AbstractFilterContext.java:61-73 | when some index is present, the AND compose holds iff every present rule set holds |
| FilterAlgebra.ComposeDisj | src/main/java/com/bc/meta/selector/impl/AbstractFilterContext.java:61-73 | when some index is present, the OR compose holds iff some present rule set holds |
| FilterAlgebra.CtxAnd | src/main/java/com/bc/meta/selector/FilterContext.java:36 | `EMPTY.and(other)` is `EMPTY`; any other context is paired by AND |
| FilterAlgebra.CtxOr | src/main/java/com/bc/meta/selector/FilterContext.java:38 | `EMPTY.or(other)` is `other`; any other context is paired by OR |
| FilterAlgebra.EmptyIsUnitOfOr | src/main/java/com/bc/meta/selector/FilterContext.java:36-38 | `EMPTY` is a unit of `or` and a zero of `and` for both `getCount` and `get` |
| FilterAlgebra.IterFrom | src/main/java/com/bc/meta/selector/impl/AbstractFilterContext.java:189-207 | the iterator yields the answers from position k in order, and fails iff some answer fails |
| FilterAlgebra.Iterate | src/main/java/com/bc/meta/selector/impl/AbstractFilterContext.java:189-207 | `EMPTY` yields nothing, and any other context refuses a null `resultIfNone` with a null-pointer failure. A drained iterator holds exactly `getCount` predicates, the m-th being `get(name, m, resultIfNone)` |
| FilterAlgebra.NonNullFrom | src/main/java/com/bc/meta/selector/impl/AbstractFilterContext.java:76-91 | the non-null answers number at most the count, and exactly the count when all are present |
| FilterAlgebra.NonNullFromContents | src/main/java/com/bc/meta/selector/impl/AbstractFilterContext.java:76-91 | the list holds a predicate iff some answer is that non-null predicate |
| FilterAlgebra.GetAll | src/main/java/com/bc/meta/selector/impl/AbstractFilterContext.java:76-91 | `getAll` of `EMPTY` is empty; otherwise it holds at most `getCount` predicates |
| FilterAlgebra.GetAllSound | src/main/java/com/bc/meta/selector/impl/AbstractFilterContext.java:76-91 | every predicate in `getAll` is some `get(name, m, null)` |
| FilterAlgebra.GetAllComplete | src/main/java/com/bc/meta/selector/impl/AbstractFilterContext.java:76-91 | every non-null `get(name, m, null)` is in `getAll` |
| FilterAlgebra.AnyFrom | src/main/java/com/bc/meta/selector/impl/AbstractFilterContext.java:105-120 | true iff some answer holds; false only if all answers are known and none holds; a failure comes from a failing answer |
| FilterAlgebra.AnyMatch | src/main/java/com/bc/meta/selector/impl/AbstractFilterContext.java:105-120 | `anyMatch` is true iff some rule set of the name holds of the candidate; `EMPTY` and a zero count give false |
| FilterAlgebra.AllFrom | src/main/java/com/bc/meta/selector/impl/AbstractFilterContext.java:123-132 | true only if every answer holds; false iff some answer is known not to hold |
| FilterAlgebra.AllMatch | src/main/java/com/bc/meta/selector/impl/AbstractFilterContext.java:123-132 | `allMatch` is true iff every rule set of the name holds: vacuously true for a zero count, but false for `EMPTY` |
| FilterAlgebra.EmptyAllMatchDiffers | src/main/java/com/bc/meta/selector/FilterContext.java:48 | `EMPTY.allMatch` is false where a context with no rule sets gives true |
| FilterAlgebra.SelectUntil | src/main/java/com/bc/meta/selector/impl/AbstractFilterContext.java:145-158 | the pull loop: what it keeps is the accepted candidates among those pulled, in order. It stops at `limit` accepted or when the candidates run out, and a failing test stops it at that candidate |
| FilterAlgebra.SelectMatching | src/main/java/com/bc/meta/selector/impl/AbstractFilterContext.java:144-162 | the result is the matching candidates, in order, among those pulled. The pull stops at the limit or at exhaustion. `EMPTY` or a non-positive limit pulls nothing |
| FilterAlgebra.SelectedEmpty | src/main/java/com/bc/meta/selector/impl/AbstractFilterContext.java:159 | the selection is empty iff no candidate matches |
| FilterAlgebra.FindFirst | src/main/java/com/bc/meta/selector/FilterContext.java:77-89 | the first matching candidate, or `outputIfNone` when none matches. The `EMPTY` context always yields `outputIfNone`, and a failure comes from a candidate whose matching fails while every candidate before it was asked and rejected, so nothing after the first match is ever asked |
| FilterBuilder.Reset | src/main/java/com/bc/meta/selector/impl/FilterBuilderImpl.java:68-77 | no files, no names, no collaborators, and a default test that rejects every node |
| FilterBuilder.FileTest | src/main/java/com/bc/meta/selector/impl/FilterBuilderImpl.java:103-106 | one file's contribution for a name, from the file's properties: it exists iff the context's `or(name, defaultTest)` succeeds, and then it is that predicate |
| FilterBuilder.ReadThen | src/main/java/com/bc/meta/selector/impl/FilterBuilderImpl.java:101-106 | a failed read is the contribution's failure and a successful read is tested; the resolver is left as the read left it |
| FilterBuilder.FileTests | src/main/java/com/bc/meta/selector/impl/FilterBuilderImpl.java:99-113 | on success, one contribution per configuration file in file order, the m-th being what file m gives in the m-th recorded resolver state |
| FilterBuilder.FileTestsThreaded | src/main/java/com/bc/meta/selector/impl/FilterBuilderImpl.java:92-101 | one parser serves every file: the first file is read in the initial state, each later file in the state the previous read left, and the walk ends in the state the last read left |
| FilterBuilder.ThreadKeeps | src/main/java/com/bc/meta/selector/impl/FilterBuilderImpl.java:92-101 | a resolver property that every read preserves holds of every state along such a threaded walk |
| FilterBuilder.FileTestsKeep | src/main/java/com/bc/meta/selector/impl/FilterBuilderImpl.java:92-113 | such a property holds of every state a file is read in, and of the state the walk ends in |
| FilterBuilder.BuildNames | src/main/java/com/bc/meta/selector/impl/FilterBuilderImpl.java:95-123 | the loop adds every remaining name, provided there is at least one file |
| FilterBuilder.BuildWith | src/main/java/com/bc/meta/selector/impl/FilterBuilderImpl.java:85-127 | a missing attribute context or JSON parser is a null-pointer failure. The built map's keys are the requested names iff some file is configured, and empty otherwise |
| FilterBuilder.Build | src/main/java/com/bc/meta/selector/impl/FilterBuilderImpl.java:85-127 | the same, with files read by a caching `PropertiesParser` |
| FilterBuilder.BuildNamesMeaning | src/main/java/com/bc/meta/selector/impl/FilterBuilderImpl.java:95-123 | every predicate the loop stores is the OR of one step result per file, in file order. Each file is read in a state with any property that the initial resolver has and every read preserves |
| FilterBuilder.BuildNamesOr | src/main/java/com/bc/meta/selector/impl/FilterBuilderImpl.java:92-123 | from a new parser, a stored predicate holds of a node iff one file's contribution holds of it. There is one contribution per file, each read in a state with the preserved property |
| FilterBuilder.FreshTests | src/main/java/com/bc/meta/selector/impl/FilterBuilderImpl.java:101-106 | read in such states, each contribution is the test of properties the reader vouches for |
| FilterBuilder.BuildNamesFresh | src/main/java/com/bc/meta/selector/impl/FilterBuilderImpl.java:92-123 | with a reader that vouches for what it returns, each stored predicate is the OR of one test of vouched-for properties per file |
| FilterBuilder.FileReaderTransparent | src/main/java/com/bc/meta/selector/util/PropertiesParser.java:108-219 | the caching parser that `build()` creates starts sound and keeps its cache sound. From a sound cache it returns only what the file resolves to without any cache, for paths without `#` |
| FilterBuilder.FreshIsContribution | src/main/java/com/bc/meta/selector/impl/FilterBuilderImpl.java:103-106 | a test of what a file resolves to is that file's `or(name, defaultTest)` contribution |
| FilterBuilder.FreshIsNewParse | src/main/java/com/bc/meta/selector/impl/FilterBuilderImpl.java:92-106 | a contribution fixed by what the file resolves to is exactly the contribution a new caching parser reads, whenever that parser gets through the file |
| FilterBuilder.BuildMeaning | src/main/java/com/bc/meta/selector/impl/FilterBuilderImpl.java:85-126 | `build()` gives each name the OR of one contribution per configuration file: a built predicate holds of a node iff some file's contribution does. Each contribution is `or(name, defaultTest)` of the properties that file resolves to, whatever the shared cache held when it was read |
| FilterBuilder.AbsentNameGivesDefault | src/main/java/com/bc/meta/selector/impl/FilterContextImpl.java:48-54 | a file that does not mention the name contributes the default test |
| Selection.NewCollector | src/main/java/com/bc/meta/selector/impl/SelectorImpl.java:119-125 | a fresh or flushed consumer holds no names and a zero value count |
| Selection.NameCount | src/main/java/com/bc/meta/selector/impl/SelectorImpl.java:127-129 | `getNameCount` is the number of distinct consumed names |
| Selection.AddToSet | src/main/java/com/bc/meta/selector/impl/SelectorImpl.java:104-106 | `LinkedHashSet.add`: the value is in the set afterwards and nothing else is added. An existing value changes nothing, and a new one is appended at the end |
| Selection.Consume | src/main/java/com/bc/meta/selector/impl/SelectorImpl.java:87-118 | a value is accepted iff the name is multi-valued or not yet consumed, and a refusal changes nothing. An acceptance counts one more value. A single-valued name stores the value; a multi-valued name starts or extends its set. Other names are untouched |
| Selection.FillOrder | src/main/java/com/bc/meta/selector/impl/SelectorImpl.java:87-118 | `LinkedHashMap` order: a name keeps, to the end of the pass, the position it got when first filled; later names only append |
| Selection.FlushMap | src/main/java/com/bc/meta/selector/impl/SelectorImpl.java:62-73 | the flushed map is the collected entries in the consumer's own order, the order in which names were first filled. The consumer is cleared |
| Selection.FlushMetadata | src/main/java/com/bc/meta/selector/impl/SelectorImpl.java:42-60 | for an unconsumed name the snapshot's `getValues` is null and `getValue` is the default. Collected values read back through their casts, and the consumer is cleared |
| Selection.FirstFiring | src/main/java/com/bc/meta/selector/impl/SelectorImpl.java:176-193 | the node goes to the first name, in caller order, that can take a value and whose predicate holds |
| Selection.ScanNames | src/main/java/com/bc/meta/selector/impl/SelectorImpl.java:176-193 | the inner loop over the names hands the node to exactly the name the reference step picks |
| Selection.Step | src/main/java/com/bc/meta/selector/impl/SelectorImpl.java:174-194 | handling one node keeps the consumer well formed |
| Selection.FirstFiringIsUnique | src/main/java/com/bc/meta/selector/impl/SelectorImpl.java:176-193 | any name that fires with none firing before it is the one chosen |
| Selection.SelectAll | src/main/java/com/bc/meta/selector/impl/SelectorImpl.java:172-195 | the pass over all nodes keeps the consumer well formed |
| Selection.Collect | src/main/java/com/bc/meta/selector/impl/SelectorImpl.java:170-200 | the loop with `continue` and `break` computes exactly the node-by-node reference fold |
| Selection.SelectAsMap | src/main/java/com/bc/meta/selector/impl/SelectorImpl.java:164-167 | the map is exactly the entries a pass from an empty consumer collects, in first-fill order; the consumer is left empty |
| Selection.SelectAsMetadata | src/main/java/com/bc/meta/selector/impl/SelectorImpl.java:159-162 | the metadata is the snapshot of what the pass collects, and the consumer is left empty |
| Selection.SelectAsMapOf | src/main/java/com/bc/meta/selector/Selector.java:51-57 | an empty name array gives the empty map. Otherwise the map is exactly the entries a pass from an empty consumer collects, in first-fill order |
| Selection.SelectAsMetadataOf | src/main/java/com/bc/meta/selector/Selector.java:61-67 | an empty name array gives `Metadata.EMPTY`; otherwise the snapshot |
| Selection.NoNamesCollectNothing | src/main/java/com/bc/meta/selector/impl/SelectorImpl.java:172-195 | with no names nothing is consumed, whatever the nodes |
| Selection.NoNamesMetadataViewsDiffer | src/main/java/com/bc/meta/selector/Selector.java:61-67 | with no names, the array form's `EMPTY` answers `getValues` with the empty set, while the collection form's snapshot answers null |
| Selection.UntouchedNames | src/main/java/com/bc/meta/selector/impl/SelectorImpl.java:176-180 | a name not requested, or a filled single-valued name, keeps its entry through the whole pass |
| Selection.ValueCountBound | src/main/java/com/bc/meta/selector/impl/SelectorImpl.java:101-133 | a pass adds at most one value per node, and the name count never exceeds the value count |
| Meta.AsValue | src/main/java/com/bc/meta/impl/MetadataImpl.java:43-45 | the `(String)` cast succeeds iff the entry is a single value, and gives that value |
| Meta.AsValues | src/main/java/com/bc/meta/impl/MetadataImpl.java:48-50 | the `(Set)` cast succeeds iff the entry is a set, and gives its values |
| Meta.FirstValue | src/main/java/com/bc/meta/impl/MetadataComposite.java:55-64 | the first non-null answer wins, and all null gives the default |
| Meta.FirstNonEmpty | src/main/java/com/bc/meta/impl/MetadataComposite.java:67-76 | the first non-null, non-empty answer wins. If all are blank the last answer is returned, and with no answers the initial value is returned |
| Meta.GetValue | src/main/java/com/bc/meta/impl/MetadataImpl.java:43-45 | `EMPTY` and an absent name give the default, a stored single value is returned, and a stored set is a cast failure |
| Meta.GetValues | src/main/java/com/bc/meta/impl/MetadataImpl.java:48-50 | `EMPTY` gives the empty set, and `MetadataImpl` gives the empty set for an absent name. The snapshot gives null for an absent name. A stored set is returned, and a single value is a cast failure |
| Meta.CompositeGetValueFirst | src/main/java/com/bc/meta/impl/MetadataComposite.java:55-64 | the composite returns the first delegate's non-null value |
| Meta.CompositeGetValueNone | src/main/java/com/bc/meta/impl/MetadataComposite.java:55-64 | when every delegate answers null the composite returns the default |
| Meta.CompositeGetValuesFirst | src/main/java/com/bc/meta/impl/MetadataComposite.java:67-76 | the composite returns the first delegate's non-empty set |
| Meta.CompositeGetValuesBlank | src/main/java/com/bc/meta/impl/MetadataComposite.java:67-76 | when every set is null or empty, the composite returns the last delegate's answer, or null if there are no delegates |
| Meta.GetValueOf | src/main/java/com/bc/meta/Metadata.java:45-54 | the first name option with a non-null value wins, and all null gives the default |
| Meta.GetValuesOf | src/main/java/com/bc/meta/Metadata.java:58-67 | with no name options the answer is the empty set |
| Meta.OptionSets | src/main/java/com/bc/meta/Metadata.java:60-61 | the i-th answer is `getValues` of the i-th name option |
| Meta.GetValuesOfFirst | src/main/java/com/bc/meta/Metadata.java:58-67 | the first name option with a non-empty set decides the answer |
| Meta.GetValuesOfBlank | src/main/java/com/bc/meta/Metadata.java:58-67 | when every option is null or empty, the last option's answer stands |
| Meta.JoinedLength | src/main/java/com/bc/meta/Metadata.java:84-93 | the joined string is the values' total length plus two characters per separator |
| Meta.ToString | src/main/java/com/bc/meta/Metadata.java:79-96 | null or empty gives the default; otherwise the values joined by ", " in order |
| Meta.CombineValues | src/main/java/com/bc/meta/Metadata.java:75-77 | the name's values joined by ", ", or the default when they are null or empty; failures pass through |
| Meta.ToLocale | src/main/java/com/bc/meta/Metadata.java:137-171 | a wrong length or a non-lower-case language is rejected at offset 0, the separators at offsets 2 and 5, and a non-upper-case country at offset 4. An accepted string starts with its two-letter language |
| Meta.ToLocaleOfFormat | src/main/java/com/bc/meta/Metadata.java:137-171 | every locale the parser can produce is parsed back from its `ll_CC_variant` form |
| Meta.FormatOfToLocale | src/main/java/com/bc/meta/Metadata.java:137-171 | every accepted string is the format of the locale parsed from it |
| Meta.GetLocale | src/main/java/com/bc/meta/Metadata.java:103-106 | a null value gives the default. A stored value succeeds iff the strict parser accepts it, and then gives the locale the parser reads. A failing lookup fails |
| Meta.GetLocaleOf | src/main/java/com/bc/meta/Metadata.java:98-101 | the same over the name options |
| Meta.GetLocaleOfStored | src/main/java/com/bc/meta/Metadata.java:103-106 | a value stored as the `ll_CC_variant` form of a locale is read back as that locale |
| Meta.GetLocaleFormatsBack | src/main/java/com/bc/meta/Metadata.java:103-106 | a locale that `getLocale` reads from a stored value formats back to that exact value |
| Meta.AsMap | src/main/java/com/bc/meta/impl/MetadataImpl.java:37-40 | the map view has the same keys and values as the stored entries |
| Meta.ImplToMap | src/main/java/com/bc/meta/impl/MetadataImpl.java:37-40 | `MetadataImpl.toMap` contains a name iff it is stored, with the stored entry |
| Meta.MergeFromNeedsAll | src/main/java/com/bc/meta/impl/MetadataComposite.java:45-52 | the composite map exists only if every delegate's map does |
| Meta.MergeFromKeys | src/main/java/com/bc/meta/impl/MetadataComposite.java:45-52 | the composite map has a key iff some delegate's map has it |
| Meta.MergeFromKeeps | src/main/java/com/bc/meta/impl/MetadataComposite.java:45-52 | a key that no later delegate has keeps the value it already had |
| Meta.MergeFromLastWins | src/main/java/com/bc/meta/impl/MetadataComposite.java:45-52 | a key takes its value from the last delegate whose map has it |
| Meta.MergeFromSome | src/main/java/com/bc/meta/impl/MetadataComposite.java:45-52 | the composite map exists whenever every delegate's map does |
| Meta.MergeOfEmpty | src/main/java/com/bc/meta/impl/MetadataComposite.java:51 | delegates with empty maps give the empty map |
| Collectors.ToMap | src/main/java/com/bc/meta/selector/impl/Collectors.java:96-98 | `toMap()` collects into a new, empty map |
| Collectors.PutValue | src/main/java/com/bc/meta/selector/impl/Collectors.java:87-89 | `put` stores the value under the name and leaves other names alone |
| Collectors.GetOrDefaultValue | src/main/java/com/bc/meta/selector/impl/Collectors.java:83-85 | the stored value, or the default for an absent name |
| Collectors.GetAfterPut | src/main/java/com/bc/meta/selector/impl/Collectors.java:83-89 | `getOrDefault` after `put` gives the value put |
| Collectors.BuildResultAfterPuts | src/main/java/com/bc/meta/selector/impl/Collectors.java:79-89 | after a series of puts, the result maps each name to the last value put under it. Names never put keep their old values |
| Collectors.BuildMethodNameAsWritten | src/main/java/com/bc/meta/selector/impl/Collectors.java:63-65 | an empty key throws. Otherwise the result is the prefix, then the decimal digits of the upper-cased first code point, then the key's tail |
| Collectors.TitleGetterAsWritten | src/main/java/com/bc/meta/selector/impl/Collectors.java:63-65 | the getter name built for "title" is "get84itle" |
| Collectors.AsWrittenIsNotAccessor | src/main/java/com/bc/meta/selector/impl/Collectors.java:63-65 | for every lower-case key the written form differs from the accessor name |
| Collectors.BuildMethodName | src/main/java/com/bc/meta/selector/impl/Collectors.java:63-65 | corrected: the prefix, then the key with its first letter upper-cased |
| Collectors.PropertyOf | src/main/java/com/bc/meta/selector/impl/Collectors.java:63-65 | the property part of an accessor name is as long as the name minus the prefix |
| Collectors.PropertyOfMethodName | src/main/java/com/bc/meta/selector/impl/Collectors.java:63-65 | the corrected accessor name leads back to the property name |
| Collectors.TitleGetter | src/main/java/com/bc/meta/selector/impl/Collectors.java:63-65 | the corrected getter for "title" is "getTitle" |
| ArticleMetaNames.IsMultiValue | src/main/java/com/bc/meta/impl/ArticleMetaNameIsMultiValue.java:28-32 | a name is multi-valued iff it is `categorySet`, `imageLinkSet` or `tagSet`, all of them reserved names |
| ArticleMetaNames.NamesDistinct | src/main/java/com/bc/meta/ArticleMetaNames.java:32-45 | the fourteen reserved names are pairwise distinct |
| ArticleMetaNames.MultiValueIffSetSuffix | src/main/java/com/bc/meta/ArticleMetaNames.java:32-45 | a reserved name is multi-valued iff it ends in "Set" |

## Left out

- I/O:
  - Input streams, charsets and the JSON decoder become an in-memory `Store` from location to decoded document.
  - An `IOException` is a failure value.
- Reference cycles: `PropertiesParser.Parse` detects none in the source. The model spends one unit of `fuel` per `extends`/`include` hop and fails with `OutOfFuel` when the fuel runs out. So a cyclic configuration, which overflows the Java stack, ends in a failure here.
- Attribute tests and node values:
  - The attribute-test provider (exact and regex matching over a markup library) is a pair of uninterpreted functions.
  - The regex engine, the jsoup backend and node values are not modelled.
- Reflection is not modelled:
  - `CollectIntoBean.get`/`put` are left out; only the accessor-name computation `buildMethodName` is modelled.
  - The reflective `ArticleMetaNames.VALUES` and `PublicFieldValuesProvider` are left out; `ArticleMetaNames.Names` lists the constants instead.
- The fluent setters of `FilterBuilderImpl`/`SelectorBuilderImpl`, `back()`, the charset, and a custom `filterContextProvider` are left out. The builder always uses `FilterContextImpl`.
- FilterBuilder.BuildWith: assumes non-null path and name collections and a non-null `defaultTest`. A non-null default makes the source's evaluation order immaterial.
- Selection.Collect: requires every requested name to have a node test (`Covers`). The source throws a `NullPointerException` for a name without one.
- Collectors.BuildMethodName and Collectors.ToUpper: cover ASCII case mapping only. Surrogate pairs and other Unicode case mappings are not modelled.
- Selection.Consume: the node converter is a total function. A converter that returns `null`, or a non-`String` value stored for a `Metadata` snapshot, is not modelled.
- `stream()` of the filter contexts is left out; the iterator is modelled as the eager sequence of its answers.
- Logging and thread-safety are out of scope.
- FilterAlgebra.GetAll: the source builds `getAll` in index order. The contract states soundness and completeness of the contents, not the order.
- Meta.ToMap: only `MetadataImpl` and `MetadataComposite` declare `toMap`. `Metadata.EMPTY` and the flushed snapshot have none, so the model answers `None` for them.
- Meta.MergeFrom: the composite merges into a `HashMap`, whose iteration order is unspecified. The model gives an unordered Dafny `map`.
- FilterBuilder.Build: the file reader is a parameter of `BuildWith`, so that the meaning lemmas need not unfold the resolver.
- FilterBuilder.BuildMeaning: requires configuration paths without `#`. The cache key of such a whole file equals that of a named object (`PropertiesParser.BuildKeyCollision`), so a cached object could stand in for the file. A contribution is fixed by what the file resolves to with some nesting budget, and `Resolution.ResolvesUnique` makes that map unique. A new parser given the same `fuel` can run out of it where a cached read did not, so `FilterBuilder.FreshIsNewParse` compares the two only when the new parser succeeds.
- FilterAlgebra.Iterate: `name` is a non-null string. The source's `requireNonNull(name)` cannot fail here.
- Meta.ToLocale: the parsed locale records the arguments handed to `new Locale(language, country, variant)`. The JDK's own canonicalisation is not modelled: `he`/`iw`, `yi`/`ji` and `id`/`in` swap, and `ja_JP_JP` and `th_TH_TH` gain Unicode extensions.
- Json: a JSON number is an integer (`JNumber(n: int)`). Fractional numbers and the `Double.toString` rendering the JSON decoder's doubles get are not modelled; a rule value that is a number renders as its decimal digits. Array and object rule values render as `java.util` lists and maps do (`[a, b]`, `{k=v}`). A decoder whose collections print JSON text instead (`["a","b"]`, `{"k":"v"}`; json-simple's, for one) compares differently in attribute tests, and that rendering is not modelled.

## Findings

| source | as written | input that shows it | evidently intended | confidence | as-written member | corrected member |
|---|---|---|---|---|---|---|
| src/main/java/com/bc/meta/selector/impl/Collectors.java:63-65 | `Character.toUpperCase(int)` returns an `int`, so concatenation appends the decimal code point of the upper-cased first letter | prefix "get", key "title" gives "get84itle" | the JavaBeans accessor name "getTitle" | not executed | Collectors.TitleGetterAsWritten | Collectors.PropertyOfMethodName |
