# GeoRocket core, modelled in Dafny

This project models five small, sequential pieces of GeoRocket, a store for
geospatial files.

1. **The XML splitter base** (`XmlSplitter`). The splitter keeps a stack of
   the start elements enclosing the current parser position and a single
   marked position. `OnEvent` runs the subclass hook and then pushes or pops
   the stack, but only while nothing is marked. `MakeChunk` cuts a
   self-contained chunk from four parts:
   - the fixed XML header;
   - every enclosing start element, outermost first;
   - the raw characters between the mark and the end position;
   - a close tag for every enclosing element, innermost first.

   Its wrapper is proved well nested.
2. **The namespace-merging output strategy** (`MergeNamespaces`, with the two
   documented runs in `MergeScenario`).
   - `Init` folds the root element of every chunk into one reconciled root:
     - namespace declarations are unioned in first-seen order (`KeyedUnion`);
     - attributes are unioned by qualified name (prefix and local name);
     - `xsi:schemaLocation` values are merged as (uri, location) pairs keyed
       by uri (`SchemaLocation`).
   - `Merge` writes the header and the reconciled root once, then each
     chunk's inner content range.
   - `Finish` closes the root.
   - A chunk that was never initialised is refused with an illegal-state
     error.
3. **The shared store registry** (`SharedMVMap`). Stores are
   reference-counted under the key `path##mapName##compress`. The first
   request opens the store; the close that brings the count to zero closes
   it and evicts the key. Store openings and closings are recorded as an
   event log.
4. **Endpoint path extraction** (`Endpoint`). This turns a request path and
   a router mount point into an absolute store path.
5. **The export request of the command-line client** (`QueryCommand`):
   - layer normalisation to the form `/.../`;
   - the query string;
   - the request path `"/store" + layer + query`;
   - how a reply ends the export.

`Wrappers` holds `Option` and `Result`. `SeqFacts` holds a few sequence
identities used by the proofs. `XmlElement` holds the start-element datatype
and its textual form.

The implementation of the merge strategy is not part of this model. Its
behaviour is modelled from the expectations of its test: `init` before
`merge`, the expected reconciled root, the content ranges, and the
illegal-state error. `XMLStartElement` is not part of this model either. Its
textual form (`XmlElement.ToString`) is taken to be:
- the qualified name;
- then ` xmlns[:prefix]="uri"` for each namespace;
- then ` prefix:name="value"` for each attribute;
- all in declaration order.

## Model

| member | source | states |
|---|---|---|
| XmlElement.EndTag | georocket-server/src/test/kotlin/io/georocket/output/xml/MergeNamespacesStrategyTest.kt:45-54 | the close tag is `</`, the element's qualified name and `>`, so it is three characters longer than the name, as the end offset of a chunk's content assumes |
| XmlSplitter.GetBytes | georocket-server/src/main/java/de/fhg/igd/georocket/input/XMLSplitter.java:125-126 | the text cut out is exactly `to - from` long and holds the window's characters at those absolute positions |
| XmlSplitter.AdvanceTo | georocket-server/src/main/java/de/fhg/igd/georocket/input/XMLSplitter.java:127 | advancing the window moves its start to `pos`, keeps its end, and keeps every character from `pos` on at its absolute position, so any range from `pos` on still reads the same |
| XmlSplitter.NewSplitter | georocket-server/src/main/java/de/fhg/igd/georocket/input/XMLSplitter.java:21-39 | a new splitter is unmarked and has an empty stack |
| XmlSplitter.Mark | georocket-server/src/main/java/de/fhg/igd/georocket/input/XMLSplitter.java:99-108 | after marking `pos` the splitter is marked exactly when `pos >= 0`; stack and window are untouched |
| XmlSplitter.OnEvent | georocket-server/src/main/java/de/fhg/igd/georocket/input/XMLSplitter.java:42-52 | the hook's chunk is returned; if the hook leaves a mark, the stack is unchanged; otherwise a start element is pushed and an end element pops the innermost element; an end event on an empty stack fails, and it is the only failure |
| XmlSplitter.OpenTags | georocket-server/src/main/java/de/fhg/igd/georocket/input/XMLSplitter.java:122 | there is one re-opening line per stacked element, and the i-th re-opens the i-th stacked element, so the outermost comes first as the descending iterator gives |
| XmlSplitter.MakeChunk | georocket-server/src/main/java/de/fhg/igd/georocket/input/XMLSplitter.java:117-134 | the chunk is the header, the stacked elements outermost first, the characters `[mark, pos)`, then the close tags innermost first; afterwards the splitter is unmarked, the stack is unchanged, and the window is the advanced window: it starts at `pos`, keeps its end, and every range from `pos` on reads the same as before |
| XmlSplitter.CloseTags | georocket-server/src/main/java/de/fhg/igd/georocket/input/XMLSplitter.java:130-131 | there is one closing line per stacked element, and the i-th names the i-th stacked element counted from the innermost, i.e. the reverse of the opening order |
| XmlSplitter.RenderAppend | georocket-server/src/main/java/de/fhg/igd/georocket/input/XMLSplitter.java:117-134 | rendering one run of lines followed by another writes the first run's text and then the second's, as the successive appends to the builder do |
| XmlSplitter.CloseLineIsEndTag | georocket-server/src/main/java/de/fhg/igd/georocket/input/XMLSplitter.java:122-131 | a re-opening line is the element's text followed by a line break, and a closing line is a line break followed by that element's end tag |
| XmlSplitter.NestAppend | georocket-server/src/main/java/de/fhg/igd/georocket/input/XMLSplitter.java:117-134 | checking the nesting of two tag runs in a row is checking the first, then the second from where the first left off |
| XmlSplitter.NestOpens | georocket-server/src/main/java/de/fhg/igd/georocket/input/XMLSplitter.java:122 | the re-opening lines open exactly the stacked names, outermost first |
| XmlSplitter.NestCloses | georocket-server/src/main/java/de/fhg/igd/georocket/input/XMLSplitter.java:131 | the close tags close exactly the stacked names, innermost first, and nothing else |
| XmlSplitter.ChunkWrapperWellNested | georocket-server/src/main/java/de/fhg/igd/georocket/input/XMLSplitter.java:117-134 | every chunk's wrapper is well nested: all opened elements are closed, in the right order, with none left open |
| XmlSplitter.TopLevelChunk | georocket-server/src/main/java/de/fhg/igd/georocket/input/XMLSplitter.java:117-134 | with no enclosing elements a chunk is just the header and the cut-out text |
| XmlSplitter.StartThenEndRestoresStack | georocket-server/src/main/java/de/fhg/igd/georocket/input/XMLSplitter.java:42-52 | while unmarked, a start event followed by its end event restores the stack |
| KeyedUnion.Add | georocket-server/src/test/kotlin/io/georocket/output/xml/MergeNamespacesStrategyTest.kt:29-41 | an element is appended exactly when its key is new, otherwise nothing changes |
| KeyedUnion.Union | georocket-server/src/test/kotlin/io/georocket/output/xml/MergeNamespacesStrategyTest.kt:29-41 | the union extends the first list, contains only elements of the two lists, has every key of the second, appends only new keys, and keeps keys distinct; `UnionFirstSeen` pins it down exactly |
| KeyedUnion.AddKeepsDistinct | georocket-server/src/test/kotlin/io/georocket/output/xml/MergeNamespacesStrategyTest.kt:38-41 | adding one element keeps the keys distinct |
| KeyedUnion.UnionOfKnownKeys | georocket-server/src/test/kotlin/io/georocket/output/xml/MergeNamespacesStrategyTest.kt:29-41 | elements whose keys are all present add nothing |
| KeyedUnion.UnionIdempotent | georocket-server/src/test/kotlin/io/georocket/output/xml/MergeNamespacesStrategyTest.kt:29-41 | the union of a list with itself is the list |
| KeyedUnion.UnionAppend | georocket-server/src/test/kotlin/io/georocket/output/xml/MergeNamespacesStrategyTest.kt:29-41 | uniting with `xs` and then `ys` is uniting with `xs + ys`, so folding roots one at a time equals one union of all of them |
| KeyedUnion.FirstNewKeys | georocket-server/src/test/kotlin/io/georocket/output/xml/MergeNamespacesStrategyTest.kt:29-41 | the reference list of first occurrences adds exactly the keys of the scanned prefix that the first list lacks |
| KeyedUnion.UnionPrefix | georocket-server/src/test/kotlin/io/georocket/output/xml/MergeNamespacesStrategyTest.kt:29-41 | uniting with the first `n` elements gives the first list followed by the first occurrence of each new key among them, in first-seen order |
| KeyedUnion.UnionFirstSeen | georocket-server/src/test/kotlin/io/georocket/output/xml/MergeNamespacesStrategyTest.kt:29-41 | the union is exactly the first list followed by the first occurrence of every new key of the second, in first-seen order, for all inputs |
| SchemaLocation.TokenLength | georocket-server/src/test/kotlin/io/georocket/output/xml/MergeNamespacesStrategyTest.kt:32 | the leading token runs up to the first white space |
| SchemaLocation.Tokens | georocket-server/src/test/kotlin/io/georocket/output/xml/MergeNamespacesStrategyTest.kt:32 | every token is non-empty and free of white space; which tokens, and in what order, is fixed by TokensOfToken, TokensOfSpace and TokensOfLayout |
| SchemaLocation.TokensOfSpace | georocket-server/src/test/kotlin/io/georocket/output/xml/MergeNamespacesStrategyTest.kt:32 | a leading white-space character of any kind (space, tab, line feed, carriage return) is skipped |
| SchemaLocation.TokensOfBlank | georocket-server/src/test/kotlin/io/georocket/output/xml/MergeNamespacesStrategyTest.kt:32 | a leading run of white space is skipped |
| SchemaLocation.TokensOfLayout | georocket-server/src/test/kotlin/io/georocket/output/xml/MergeNamespacesStrategyTest.kt:32-36 | words separated by any non-empty runs of white space, with any white space around them, tokenise to exactly those words in order |
| SchemaLocation.ParseLayout | georocket-server/src/test/kotlin/io/georocket/output/xml/MergeNamespacesStrategyTest.kt:32-36 | a value holding well-formed pairs laid out with any white space, line breaks included, parses to exactly those pairs |
| SchemaLocation.Pairs | georocket-server/src/test/kotlin/io/georocket/output/xml/MergeNamespacesStrategyTest.kt:32-36 | the tokens are read as alternating uri and location; the i-th pair is tokens 2i and 2i+1, and a trailing odd token is dropped, which is assumed (see "Left out") |
| SchemaLocation.Parse | georocket-server/src/test/kotlin/io/georocket/output/xml/MergeNamespacesStrategyTest.kt:32-36 | every pair read from a value consists of a single-token uri and a single-token location |
| SchemaLocation.Serialize | georocket-server/src/test/kotlin/io/georocket/output/xml/MergeNamespacesStrategyTest.kt:32-41 | the written form is empty exactly when there are no pairs |
| SchemaLocation.PairsOfFlatten | georocket-server/src/test/kotlin/io/georocket/output/xml/MergeNamespacesStrategyTest.kt:32-36 | pairing the flat uri/location list gives the pairs back |
| SchemaLocation.TokensOfSerialize | georocket-server/src/test/kotlin/io/georocket/output/xml/MergeNamespacesStrategyTest.kt:32-41 | tokenising written pairs gives their uris and locations in order |
| SchemaLocation.ParseSerialize | georocket-server/src/test/kotlin/io/georocket/output/xml/MergeNamespacesStrategyTest.kt:32-41 | parsing written pairs gives the pairs back (round trip) |
| SchemaLocation.Merge | georocket-server/src/test/kotlin/io/georocket/output/xml/MergeNamespacesStrategyTest.kt:32-41 | reading the merged value back gives the union by uri of the pairs read from the two values |
| SchemaLocation.MergeLocations | georocket-server/src/test/kotlin/io/georocket/output/xml/MergeNamespacesStrategyTest.kt:32-41 | a merged value starts with the first value's pairs, contains only pairs of either value, mentions every uri of the second, mentions each uri once if the first did, and is exactly the first value's pairs followed by the first pair of each new uri of the second, in order |
| SchemaLocation.MergeSerialized | georocket-server/src/test/kotlin/io/georocket/output/xml/MergeNamespacesStrategyTest.kt:32-41 | merging two written pair lists writes their union keyed by uri |
| MergeNamespaces.FindAttribute | georocket-server/src/test/kotlin/io/georocket/output/xml/MergeNamespacesStrategyTest.kt:31-41 | the index found carries the same qualified name, and -1 is returned exactly when no attribute carries it |
| MergeNamespaces.MergeAttribute | georocket-server/src/test/kotlin/io/georocket/output/xml/MergeNamespacesStrategyTest.kt:31-41 | a new name is appended; a known name keeps its position and the first value; an `xsi:schemaLocation` found at the index the lookup returns gets the pairwise merge of its value and the new one, and nothing else changes |
| MergeNamespaces.MergeAttributes | georocket-server/src/test/kotlin/io/georocket/output/xml/MergeNamespacesStrategyTest.kt:31-41 | existing names keep their positions and non-schema-location values; every added name is present; appended entries carry names new to the list and taken from the added attributes; names stay distinct |
| MergeNamespaces.MergeAttributeKeepsDistinct | georocket-server/src/test/kotlin/io/georocket/output/xml/MergeNamespacesStrategyTest.kt:38-41 | adding one attribute keeps names distinct |
| MergeNamespaces.MergeAttributesAppend | georocket-server/src/test/kotlin/io/georocket/output/xml/MergeNamespacesStrategyTest.kt:31-41 | adding attributes in two runs is adding them in one |
| MergeNamespaces.MergeAttributesPrefix | georocket-server/src/test/kotlin/io/georocket/output/xml/MergeNamespacesStrategyTest.kt:31-41 | after merging the first `n` attributes the names are those of the first list followed by the first occurrence of each new name, ordinary attributes are those of that list, the first list's schema location holds every later schema-location value merged in, in order, and an appended schema location holds the first schema-location value seen with the later ones merged in |
| MergeNamespaces.MergeAttributesNext | georocket-server/src/test/kotlin/io/georocket/output/xml/MergeNamespacesStrategyTest.kt:31-41 | merging one more attribute keeps that correspondence |
| MergeNamespaces.MergeAttributesFirstSeen | georocket-server/src/test/kotlin/io/georocket/output/xml/MergeNamespacesStrategyTest.kt:31-41 | merged attributes are, name by name, the first list followed by the first occurrence of each new name; ordinary attributes keep the first value seen; an existing schema location accumulates every later schema-location value in order, and a schema location first brought in by the added list holds the first such value with every later one merged in |
| MergeNamespaces.MergeRoots | georocket-server/src/test/kotlin/io/georocket/output/xml/MergeNamespacesStrategyTest.kt:29-41 | the folded root keeps the first root's name and namespaces in order, gains every namespace of the second, gains nothing else, and keeps declarations distinct; its namespaces are exactly the first root's followed by the second's new declarations in first-seen order, and its attributes are the name-keyed merge of both roots' attributes |
| MergeNamespaces.Init | georocket-server/src/test/kotlin/io/georocket/output/xml/MergeNamespacesStrategyTest.kt:62-68 | `init` succeeds exactly for a single root named like the roots before it, provided output has not started; it records the metadata and folds the root in; the first call adopts the root as it is |
| MergeNamespaces.InitAll | georocket-server/src/test/kotlin/io/georocket/output/xml/MergeNamespacesStrategyTest.kt:67-68 | a run of `init` calls that succeeds records all metadata in order, writes nothing and keeps the invariant; once output has started any further `init` fails with an illegal-state error |
| MergeNamespaces.Contents | georocket-server/src/test/kotlin/io/georocket/output/xml/MergeNamespacesStrategyTest.kt:49-54 | for an in-range `[start, end)` the copied content is exactly the chunk's characters at those positions |
| MergeNamespaces.Merge | georocket-server/src/test/kotlin/io/georocket/output/xml/MergeNamespacesStrategyTest.kt:69-73 | a chunk is refused with an illegal-state error exactly when its metadata was never initialised; the first merge writes header and reconciled root before the content, later ones only the content |
| MergeNamespaces.Finish | georocket-server/src/test/kotlin/io/georocket/output/xml/MergeNamespacesStrategyTest.kt:71-73 | finishing appends the reconciled root's close tag |
| MergeNamespaces.MergeAll | georocket-server/src/test/kotlin/io/georocket/output/xml/MergeNamespacesStrategyTest.kt:69-73 | a run of merges succeeds exactly when every chunk was initialised, fails only with an illegal-state error, keeps the root and the recorded metadata, and marks output as started |
| MergeNamespaces.MergeAllAppends | georocket-server/src/test/kotlin/io/georocket/output/xml/MergeNamespacesStrategyTest.kt:69-73 | once output has started, merging initialised chunks appends their contents in call order |
| MergeNamespaces.MergedDocument | georocket-server/src/test/kotlin/io/georocket/output/xml/MergeNamespacesStrategyTest.kt:60-77 | merging initialised chunks and finishing gives header, one root open tag, all contents in call order, and the root's close tag |
| MergeNamespaces.MergeAllRejectsUninitialized | georocket-server/src/test/kotlin/io/georocket/output/xml/MergeNamespacesStrategyTest.kt:79-97 | any uninitialised chunk in a run of merges ends it with an illegal-state error |
| MergeNamespaces.Reconcile | georocket-server/src/test/kotlin/io/georocket/output/xml/MergeNamespacesStrategyTest.kt:38-41 | folding the roots keeps the first root's name |
| MergeNamespaces.ReconcileUnion | georocket-server/src/test/kotlin/io/georocket/output/xml/MergeNamespacesStrategyTest.kt:29-41 | the reconciled namespaces are the first-seen union of all roots' declarations, and its attributes the union by name of all roots' attributes |
| MergeNamespaces.InitAllFrom | georocket-server/src/test/kotlin/io/georocket/output/xml/MergeNamespacesStrategyTest.kt:67-68 | further `init` calls all succeed exactly when every root has the root's name; they then record all metadata and fold every root in |
| MergeNamespaces.InitAllFresh | georocket-server/src/test/kotlin/io/georocket/output/xml/MergeNamespacesStrategyTest.kt:67-68 | on a fresh strategy a run of `init` calls succeeds exactly when all chunks have one root with a common name, giving the reconciled root and nothing written |
| MergeNamespaces.ReconciledNamespaces | georocket-server/src/test/kotlin/io/georocket/output/xml/MergeNamespacesStrategyTest.kt:29-41 | the reconciled root declares the first root's namespaces first, every namespace of every root, nothing else, and each once; exactly the first root's declarations followed by the first occurrence of each later declaration, in chunk order |
| MergeNamespaces.ReconciledAttributes | georocket-server/src/test/kotlin/io/georocket/output/xml/MergeNamespacesStrategyTest.kt:29-41 | the reconciled root's attributes follow the first root's, then the first occurrence of each later name; ordinary attributes keep the first value; the schema location, whether the first root's or one first brought in by a later root, accumulates every later schema-location value in chunk order |
| MergeScenario.WrappedContents | georocket-server/src/test/kotlin/io/georocket/output/xml/MergeNamespacesStrategyTest.kt:43-54 | the range start = header + root tag length, end = chunk length - name length - 3 selects exactly the inner content |
| MergeScenario.UnionSharedFirst | georocket-server/src/test/kotlin/io/georocket/output/xml/MergeNamespacesStrategyTest.kt:32-41 | pair lists sharing their first pair merge into the first list plus the second's other pair |
| MergeScenario.FirstLocationsText | georocket-server/src/test/kotlin/io/georocket/output/xml/MergeNamespacesStrategyTest.kt:32 | the first root's pairs are written `uri0 location0 uri1 location1` |
| MergeScenario.SecondLocationsText | georocket-server/src/test/kotlin/io/georocket/output/xml/MergeNamespacesStrategyTest.kt:36 | the second root's pairs are written `uri0 location0 uri2 location2` |
| MergeScenario.MergedLocationsText | georocket-server/src/test/kotlin/io/georocket/output/xml/MergeNamespacesStrategyTest.kt:41 | the expected pairs are written `uri0 location0 uri1 location1 uri2 location2` |
| MergeScenario.PairsWellFormed | georocket-server/src/test/kotlin/io/georocket/output/xml/MergeNamespacesStrategyTest.kt:32-36 | every uri and location of the test values is a single token |
| MergeScenario.MergedSchemaLocation | georocket-server/src/test/kotlin/io/georocket/output/xml/MergeNamespacesStrategyTest.kt:32-41 | merging the two roots' schema locations gives the expected root's value |
| MergeScenario.NamespacesShape | georocket-server/src/test/kotlin/io/georocket/output/xml/MergeNamespacesStrategyTest.kt:29-39 | roots sharing first and last declarations merge to the first root's declarations plus the second root's own one |
| MergeScenario.AttributesShape | georocket-server/src/test/kotlin/io/georocket/output/xml/MergeNamespacesStrategyTest.kt:31-41 | a schema location followed by one own attribute per root merges to the merged schema location and both own attributes, in order |
| MergeScenario.SchemaLocationMergesInPlace | georocket-server/src/test/kotlin/io/georocket/output/xml/MergeNamespacesStrategyTest.kt:31-41 | a second `xsi:schemaLocation` merges into the first one's position |
| MergeScenario.AppendedSchemaLocationAccumulates | georocket-server/src/test/kotlin/io/georocket/output/xml/MergeNamespacesStrategyTest.kt:31-41 | a schema location first brought in by a later root is appended and then takes in the schema-location value that follows it, so an appended entry need not be one of the added attributes as given |
| MergeScenario.ReconciledRoot | georocket-server/src/test/kotlin/io/georocket/output/xml/MergeNamespacesStrategyTest.kt:29-41 | folding the test's second root into its first gives exactly the expected root |
| MergeScenario.InitTwo | georocket-server/src/test/kotlin/io/georocket/output/xml/MergeNamespacesStrategyTest.kt:67-68 | initialising two chunks with equally named roots folds the second root into the first |
| MergeScenario.MergeTwo | georocket-server/src/test/kotlin/io/georocket/output/xml/MergeNamespacesStrategyTest.kt:69-73 | merging two initialised chunks and finishing gives header, root, both contents in order, close tag |
| MergeScenario.RunTwo | georocket-server/src/test/kotlin/io/georocket/output/xml/MergeNamespacesStrategyTest.kt:60-77 | the whole init/merge/finish run on any two wrapped chunks with equally named roots |
| MergeScenario.SimpleMerge | georocket-server/src/test/kotlin/io/georocket/output/xml/MergeNamespacesStrategyTest.kt:60-77 | the test's run produces header, expected root, both contents and the expected root's close tag |
| MergeScenario.RunUninitialized | georocket-server/src/test/kotlin/io/georocket/output/xml/MergeNamespacesStrategyTest.kt:79-97 | with only the first chunk initialised, merging it works and merging a chunk with another root fails with an illegal-state error |
| MergeScenario.MergeUninitialized | georocket-server/src/test/kotlin/io/georocket/output/xml/MergeNamespacesStrategyTest.kt:79-97 | the test's second run is refused with an illegal-state error at the second merge |
| SharedMVMap.Key | georocket-server/src/main/kotlin/io/georocket/storage/h2/SharedMVMap.kt:15 | the key starts with the path followed by `##` |
| SharedMVMap.Valid | georocket-server/src/main/kotlin/io/georocket/storage/h2/SharedMVMap.kt:11-46 | the registry invariant: every shared key maps to a live instance carrying that key; an instance's store is open exactly while its count is positive; every live instance is the one its key maps to |
| SharedMVMap.KeyDeterminesMapAndFlag | georocket-server/src/main/kotlin/io/georocket/storage/h2/SharedMVMap.kt:15 | for one path, equal keys mean equal map names and compression flags |
| SharedMVMap.KeysOfDifferentTriplesCollide | georocket-server/src/main/kotlin/io/georocket/storage/h2/SharedMVMap.kt:15 | across paths the key is not injective: `a##b`/`c` and `a`/`b##c` share a key |
| SharedMVMap.Create | georocket-server/src/main/kotlin/io/georocket/storage/h2/SharedMVMap.kt:13-35 | a shared key hands out its instance with the count raised by one, opens nothing, and leaves every other instance as it was; an absent key opens one store, logs it and registers a new instance with count 1; it fails exactly when an absent key's store cannot be opened; the registry invariant is kept |
| SharedMVMap.IncrementKeepsValid | georocket-server/src/main/kotlin/io/georocket/storage/h2/SharedMVMap.kt:32 | raising a live instance's count keeps the registry invariant |
| SharedMVMap.InsertKeepsValid | georocket-server/src/main/kotlin/io/georocket/storage/h2/SharedMVMap.kt:16-30 | registering a new instance for an absent key keeps the registry invariant |
| SharedMVMap.Close | georocket-server/src/main/kotlin/io/georocket/storage/h2/SharedMVMap.kt:38-46 | the count drops by one and no other instance changes; the close reaching zero closes the store, logs it and removes only that key; other closes change no entry and open or close nothing |
| SharedMVMap.EmptyValid | georocket-server/src/main/kotlin/io/georocket/storage/h2/SharedMVMap.kt:11 | the empty registry satisfies the invariant |
| SharedMVMap.OneOpenStorePerKey | georocket-server/src/main/kotlin/io/georocket/storage/h2/SharedMVMap.kt:16-30 | two instances with open stores and the same key are the same instance |
| SharedMVMap.CloseEvictsOnlyItself | georocket-server/src/main/kotlin/io/georocket/storage/h2/SharedMVMap.kt:41-44 | the key removed by the last close maps to the closing instance itself |
| SharedMVMap.OverCloseHarmless | georocket-server/src/main/kotlin/io/georocket/storage/h2/SharedMVMap.kt:38-46 | closing an already closed instance changes no entry and closes nothing |
| SharedMVMap.OtherKeysUnaffected | georocket-server/src/main/kotlin/io/georocket/storage/h2/SharedMVMap.kt:16-43 | create and close leave the entries of all other keys unchanged |
| SharedMVMap.CreateMany | georocket-server/src/main/kotlin/io/georocket/storage/h2/SharedMVMap.kt:13-35 | repeated requests keep the invariant and hand out an existing instance |
| SharedMVMap.CloseMany | georocket-server/src/main/kotlin/io/georocket/storage/h2/SharedMVMap.kt:38-46 | repeated closes keep the invariant and the instance list's length |
| SharedMVMap.CreateManyShared | georocket-server/src/main/kotlin/io/georocket/storage/h2/SharedMVMap.kt:16-33 | n requests for a shared key hand out its instance, raise its count by n, and change neither the map nor the log |
| SharedMVMap.CreateManySharedFrame | georocket-server/src/main/kotlin/io/georocket/storage/h2/SharedMVMap.kt:16-33 | n requests for a shared key leave every other instance as it was |
| SharedMVMap.CloseManyKeepsOpen | georocket-server/src/main/kotlin/io/georocket/storage/h2/SharedMVMap.kt:40-45 | closes that leave the count positive lower it by their number and change neither the map nor the log |
| SharedMVMap.CreateManyFresh | georocket-server/src/main/kotlin/io/georocket/storage/h2/SharedMVMap.kt:16-33 | n requests for an absent key open one store and give one new instance with count n |
| SharedMVMap.LastClose | georocket-server/src/main/kotlin/io/georocket/storage/h2/SharedMVMap.kt:40-44 | the close at count one logs the store's closing, evicts the key and closes the store |
| SharedMVMap.CloseManyLastUser | georocket-server/src/main/kotlin/io/georocket/storage/h2/SharedMVMap.kt:38-46 | as many closes as users close the store exactly once and evict the key |
| SharedMVMap.BalancedUseOpensAndClosesOnce | georocket-server/src/main/kotlin/io/georocket/storage/h2/SharedMVMap.kt:13-46 | n requests and n closes for an unheld key open the store once, close it once, and leave the key unshared |
| SharedMVMap.ReopenAfterEviction | georocket-server/src/main/kotlin/io/georocket/storage/h2/SharedMVMap.kt:16-44 | after the last close, the next request for the key opens a fresh store under a new instance |
| Endpoint.GetEndpointPath | georocket-server-api/src/main/java/io/georocket/http/Endpoint.java:33-47 | the result is non-empty and starts with `/`; it is `/` when the path is no longer than the mount point, otherwise the suffix behind the mount point, with `/` prepended only if missing |
| Endpoint.SuffixPreserved | georocket-server-api/src/main/java/io/georocket/http/Endpoint.java:37-46 | apart from at most one added leading `/`, the result is exactly the suffix behind the mount point |
| Endpoint.MountPointOnlyByLength | georocket-server-api/src/main/java/io/georocket/http/Endpoint.java:35-38 | mount points of equal length give equal results; the path is not checked to begin with the mount point |
| Endpoint.ExtractIdempotent | georocket-server-api/src/main/java/io/georocket/http/Endpoint.java:33-47 | an extracted path is a fixed point of extraction under the empty mount point |
| QueryCommand.NormalizeLayer | georocket-cli/src/main/java/de/fhg/igd/georocket/commands/AbstractQueryCommand.java:31-39 | a normalised layer starts and ends with `/`; a missing or empty layer becomes `/`; a layer already slashed at both ends is unchanged |
| QueryCommand.NormalizeKeepsInner | georocket-cli/src/main/java/de/fhg/igd/georocket/commands/AbstractQueryCommand.java:34-39 | normalisation adds exactly one `/` in front or behind where one is missing and leaves the layer's characters unchanged between them |
| QueryCommand.NormalizeIdempotent | georocket-cli/src/main/java/de/fhg/igd/georocket/commands/AbstractQueryCommand.java:31-39 | normalising twice is normalising once |
| QueryCommand.UrlQuery | georocket-cli/src/main/java/de/fhg/igd/georocket/commands/AbstractQueryCommand.java:41-44 | a missing or empty query gives the empty string, otherwise `?search=` followed by the encoded query |
| QueryCommand.RequestPath | georocket-cli/src/main/java/de/fhg/igd/georocket/commands/AbstractQueryCommand.java:47 | the path starts with `/store/`, and without a query it ends with `/` |
| QueryCommand.RequestPathSplit | georocket-cli/src/main/java/de/fhg/igd/georocket/commands/AbstractQueryCommand.java:47 | the path is `/store`, then the normalised layer, then the query string, each recoverable at its offset |
| QueryCommand.RequestPathLayer | georocket-cli/src/main/java/de/fhg/igd/georocket/commands/AbstractQueryCommand.java:31-47 | without a query, everything behind `/store` is the normalised layer, which normalisation leaves unchanged |
| QueryCommand.ExportRequest | georocket-cli/src/main/java/de/fhg/igd/georocket/commands/AbstractQueryCommand.java:46-47 | the request goes to `localhost`, port 63074, with the request path |
| QueryCommand.Finish | georocket-cli/src/main/java/de/fhg/igd/georocket/commands/AbstractQueryCommand.java:48-69 | the exit code is 0 exactly for a 200 response, which writes the body and reports no error; otherwise the code is 1, nothing is written, and the failure's or the status message is reported |
| QueryCommand.ConcatAppend | georocket-cli/src/main/java/de/fhg/igd/georocket/commands/AbstractQueryCommand.java:60-62 | writing two runs of buffers writes their texts one after the other |
| QueryCommand.WrittenInOrder | georocket-cli/src/main/java/de/fhg/igd/georocket/commands/AbstractQueryCommand.java:60-66 | a successful export writes every buffer, in arrival order, at the offset given by the buffers before it |

## Left out

- `XMLSplitter.makeXMLStartElement` reads the start element from a StAX parser, which is not modelled. A start element is given as a value of the event.
- The subclass hook `onXMLEvent` is a function parameter. It may move the mark and the window, but not the private stack.
- `Window` is not part of this model. Its `getBytes` is modelled as a slice of a buffer holding absolute positions `base ..`, and its precondition (the range is still held) is stated as `CanMakeChunk`.
- UTF-8 decoding is left out: bytes are modelled as characters.
- XmlSplitter.OnEvent: an end event on an empty stack returns an error value where the source's `ArrayDeque.pop` throws.
- `XMLStartElement.toString` is not part of this model. `XmlElement.ToString` is an assumed rendering, used only to build the expected strings of the merge run.
- The implementation of `MergeNamespacesStrategy` is not part of this model. The following are left out:
  - prefix-conflict handling (namespaces are unioned as whole (prefix, uri) pairs);
  - `init` or `merge` after `finish`;
  - chunks with more than one enclosing parent, which are refused with an illegal-argument error;
  - chunks whose root names differ, which are refused the same way.
- MergeNamespaces.Init: the refusal with an illegal-state error once output has started is not exercised by the test. It is assumed from the rule that every `init` call comes before the first `merge`.
- MergeNamespaces.MergeAttributes: its own contract states the shape of the result only (positions, names, ordinary values, distinctness). The exact result, including every schema-location value, is stated by `MergeAttributesFirstSeen`, which is proved from it.
- MergeNamespaces.MergeAttributesFirstSeen: the schema-location values are stated only when the first list names each attribute at most once, as the attributes of an XML element always do. The same holds for `MergeAttributesPrefix` and `ReconciledAttributes`.
- MergeNamespaces.AttributeKey: attributes are told apart by prefix and local name together. This is assumed: the test's attributes never share a local name under different prefixes, so it cannot tell this apart from the design's rule of a union by local name alone. Under that rule `ns1:a="1"` and `ns2:a="2"` would merge to one attribute; here both are kept.
- MergeNamespaces.IsSchemaLocation: the schema-location attribute is recognised by the literal prefix `xsi` and the local name `schemaLocation`. This is assumed from the test, which only uses the prefix `xsi`. The design names the XML Schema instance namespace instead, so a root binding that namespace to another prefix has its schema locations merged first-wins here, not pairwise.
- SchemaLocation.Pairs: a trailing uri without a location is dropped. This is assumed: the test's values all have an even number of tokens, and the design does not say what happens to an odd one.
- MergeNamespaces.Contents: for a range outside the chunk, it clamps to the text instead of failing. The contract states the content only for ranges inside the chunk.
- Streaming, back-pressure and `BufferWriteStream` are left out: the output is one string.
- SharedMVMap.Create: the opening of the store, directory creation and compression are reduced to the `opens` parameter and an `Opened` event.
- SharedMVMap.Create: the 32-bit `instanceCount` is an unbounded integer, so wrap-around after 2^31 requests is not modelled.
- SharedMVMap.Close: `store.close()` is reduced to a `Closed` event.
- The `synchronized` sections are left out: each `create` and `close` is one atomic step.
- The delegated `MutableMap` operations are left out, since they do not touch the registry.
- Instances are identified by their index in the registry's instance list, in place of object identity.
- `Endpoint.fail`, `throwableToCode` and `throwableToJsonResponse` are left out: they write an HTTP response and parse exception messages.
- The route's `normalisedPath()` and `mountPoint()` are inputs.
- The Vert.x HTTP client is left out. The request is a value, the server's reply is an input, and closing the client and logging are not modelled.
- `URLEncoder.encode` is the opaque `encode` parameter.
- `error(...)` is modelled as the reported message in `Outcome`, and the completion handler as its exit code.
- `StoreEndpointTest.kt` is left out: it is an HTTP round trip against mocked stores.
- `MongoDBStore.kt` is left out: it is a GridFS network client whose helpers are not part of this model.
- `StoreFactory.kt` is left out: it is reflective class loading.
