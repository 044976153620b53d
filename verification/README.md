# T3X verification model

A Dafny model of two engines and two small algorithms of the T3X repository, with proofs
of the properties they exist for.

- **Protocol text.** A strict JSON parser and an RFC 8785 printer over UTF-16 code units.
  `Grammar` is RFC 8259 as concrete syntax trees; `JsonReader` is what the parser computes;
  `JsonParser` is the cursor class of the source; `JsonTheorems` proves that exactly the
  grammar's texts are accepted, `JsonFailures` which code the others get. `Canonical`, `Utf8`
  and `ProtocolBytes` give the printer, the bytes and the round trips, `ShortestText` what
  singles the printed text out, `TwoTexts` compares the two key orders. `CanonicalGraph` and
  `GraphTheorems` run the printer on a heap that may share nodes or be cyclic.
- **Content-addressed history.** `Protocol` holds the object shapes, `Resolver` identity and
  resolution, `Integrity` and `Replay` the verifier, `History` whole first-parent chains;
  `ResolveRules`, `CommitRules` and `EffectRules` say what each comes to in the fields of the
  objects, failures included, and `TransitionSchema` is the published JSON Schema.
  `PythonVerifier`, `VerifiersAgree` and `ConformanceDriver` model the independent verifier
  and compare the two; `MissingInput` and `ParsersDiffer` exhibit where they differ.
- **YOps documents.** `YPath` parses and prints paths, `YDoc` reads, sets and deletes on
  values with the laws of paths, `YTree` does the same in place on a cloned heap tree,
  `YOrder` orders, sorts and deduplicates, `YOps` is the engine with every operation
  handler; `YReads`, `YSorted` and `YEffects` say what reading, sorting and each operation
  come to in the document alone; `YRecipes` and `YRecipeLoops` are the recipe compilers,
  `YFinite` says what every run keeps, and `YCompiler`, `YExpansions`, `YMappings`, `YFold`,
  `YGlued` and `YConservation` what compiling preserves.
- **Two small algorithms.** `StudioBounds` is the explicit-stack structure limit,
  `SchemaDiff` the structural schema diff and `SchemaReports` what it reports.

`Text`, `Values`, `OrderedJson` and `Decimal` are shared: code units and their orders, JSON
values without and with key order, and number printing.

How parts of the program outside the model enter it:

- Number printing and reading is a parameter, a `NumberCodec`, of which `Lawful` states what
  ECMAScript promises: a finite number prints as a JSON number that reads back as itself.
  `Decimal.IntegerCodecIsLawful` is a complete instance on the safe integers.
- SHA-256 is an arbitrary function to 64 hexadecimal digits. No theorem assumes it
  injective: those that need it ask that no two of the byte strings they compare collide -
  along a history, the resolved result and the produced State of each of its commits.
- The Python JSON Schema validator and Python's `str` of a float are parameters.
- A resolver may answer anything; a mutation driver is an arbitrary function.
- Rounding an over-long index to a binary64 number, on malformed paths only, is a parameter.

Some statements do not hold of the code as it stands; the model follows the code, gives an
input, and proves exactly when they do hold:

- Reading after writing fails through a match whose key the write changes
  (`YDoc.MatchCanLoseItsPlace`; `YDoc.PutGetExactly`, `YConservation.GetAfterDeleteExactly`).
- The two verifiers differ on an unresolved Effect input (`MissingInput.VerifiersSplit`;
  `VerifiersAgree.CommitVerifiersAgree`), their descriptor parsers on a null kind
  (`PythonVerifier.NoKindIsADescriptor`; `PythonVerifier.DescriptorParsersDiffer`). Their object
  parsers differ on unpaired surrogates and on identifiers that end in a line feed, under
  the shipped schema (`ParsersDiffer`); the agreement theorems ask for agreement only on the
  objects at hand.
- The two canonical texts differ where the two orders list keys differently
  (`TwoTexts.CanonicalTextsCanDiffer`; `TwoTexts.CanonicalTextsAgreeExactly`).
- Fold and merge can overwrite a sibling (`YFold.FoldCanOverwrite`,
  `YGlued.MergeCanOverwrite`; `YMappings.FoldThenNest`, `YMappings.MergeConserves`).
- Text glued to a final quoted segment leaves an empty key, and a key glued to such a path
  lands elsewhere (`YPath.GluedTextAddsAnEmptyKey`, `YMappings.GluedKeyLandsBeside`;
  `YMappings.KeyPathParses`).
- A rename is not undone where a match selects its parent by the renamed key
  (`YConservation.RenameNotUndone`; `YConservation.RenameUndoneOnDocument`).
- Nest, split and populate through a match on a key they change do their later steps on
  another item (`YConservation.NestCanLoseItsPlace`; `YGlued.GluedKeysTakenExactly`,
  `YConservation.NestThenFoldOnDocument`).

## Model

| member | source | states |
|---|---|---|
| JsonTheorems.AcceptsExactlyTheGrammar | packages/transition/src/json.ts:28-161 | A text is accepted exactly when it derives from the RFC 8259 grammar with no two equal decoded keys in one object and no unpaired surrogate; nothing more, nothing less |
| JsonTheorems.EveryDerivationMeansTheParsedValue | packages/transition/src/json.ts:28-161 | Whatever derivation of an accepted text one takes, its meaning is the value the parser returns |
| JsonTheorems.DocumentSound | packages/transition/src/json.ts:28-34 | From an accepted text a derivation of that text can be produced whose meaning is the parsed value |
| JsonTheorems.DocumentComplete | packages/transition/src/json.ts:28-34 | A derivable document within the I-JSON conditions is parsed to its meaning, with nothing left over |
| JsonTheorems.MatchNumberComplete | packages/transition/src/json.ts:132-151 | Maximal munch: a number followed by a character that cannot continue it is matched to its last character |
| JsonTheorems.DecoderAcceptsScannedSlices | packages/transition/src/json.ts:95-130 | Every slice the string scan loop delivers is one the decoder accepts, so the invalid-string branch after it is unreachable |
| JsonFailures.FailureCodes | packages/transition/src/json.ts:132-177 | JSON text with distinct keys is read or refused as not canonical, never called invalid; other text is refused, and called invalid wherever numbers and surrogates are not what is wrong |
| JsonParser.StrictJsonParser.Parse | packages/transition/src/json.ts:28-34 | The whole text must be one value with white space around it; the result and the error code are those of the specification function |
| JsonParser.StrictJsonParser.ParseValue | packages/transition/src/json.ts:36-48 | Dispatches on the first character; the result is the specified one and the position strictly advances |
| JsonParser.StrictJsonParser.ParseObject | packages/transition/src/json.ts:50-78 | Reads members until the closing brace, refusing a decoded key seen before; strictly advances |
| JsonParser.StrictJsonParser.ParseArray | packages/transition/src/json.ts:80-93 | Reads items until the closing bracket; strictly advances |
| JsonParser.StrictJsonParser.ParseString | packages/transition/src/json.ts:95-130 | Scans to the closing quote, decodes the slice and refuses unpaired surrogates; strictly advances |
| JsonParser.StrictJsonParser.ParseNumber | packages/transition/src/json.ts:132-151 | Takes the longest number at the position and refuses one that is not finite |
| JsonParser.StrictJsonParser.ParseLiteral | packages/transition/src/json.ts:145-151 | Takes a literal name exactly where it stands |
| Text.CheckWellFormed | packages/transition/src/canonical.ts:6-21 | Answers true exactly when every high surrogate is followed by a low one and no low one stands alone |
| Canonical.ParseOfCanonical | packages/transition/src/canonical.ts:23-119 | Parsing the canonical text of a value gives that value back, whole text consumed, for both key orders |
| Canonical.CanonicalTextIdentifiesValue | packages/transition/src/canonical.ts:117-119 | Two values have the same canonical text exactly when they are equal up to key order |
| Canonical.CanonDerives | packages/transition/src/canonical.ts:23-119 | Canonical text is derivable JSON text, and the derivation means the value printed |
| ShortestText.UnitIsShortest | packages/transition/src/canonical.ts:37-40 | No way to write a unit is shorter than the canonical one, and with hexadecimal digits in lower case none as short is another, half of a surrogate pair never being written raw |
| ShortestText.BodyIsShortest | packages/transition/src/canonical.ts:37-40 | The same of whole strings |
| ShortestText.CanonicalTextIsShortest | packages/transition/src/canonical.ts:23-119 | No derivation of a value that writes numbers as printed is shorter than its canonical text, whatever its white space and key order; and one as short that lists keys in order and hexadecimal digits in lower case is that text |
| Canonical.AcceptedValuesAreCanonicalizable | packages/transition/src/json.ts:169-177 | Every accepted text means a value inside the protocol domain |
| Canonical.CanonicalizeAfterParse | packages/transition/src/canonical.ts:117-119 | Parsing and canonicalizing again gives the text back exactly when the text was a canonical one |
| ProtocolBytes.ParseOfCanonicalBytes | packages/transition/src/canonical.ts:122-124 | Decoding and parsing canonical bytes gives the value back |
| ProtocolBytes.CanonicalBytesIdentifyValue | packages/transition/src/canonical.ts:122-124 | Equal canonical bytes mean equal values, and conversely |
| ProtocolBytes.ParsedBytesInDomain | packages/transition/src/json.ts:169-177 | A value parsed from bytes has finite numbers and paired surrogates only |
| Utf8.CompareBytes | packages/transition/src/canonical.ts:126-136 | The byte loop answers the sign of the lexicographic order, and zero exactly on equal bytes |
| Utf8.DecodeOfEncode | packages/transition/src/json.ts:169-177 | Strict UTF-8 decoding undoes encoding of well-formed text that does not start with a byte order mark |
| Utf8.EncodeOfDecode | packages/transition/src/json.ts:169-177 | Bytes that decode are the encoding of a well-formed text, up to one leading byte order mark |
| Utf8.DecodeDropsMark | packages/transition/src/json.ts:169-177 | One byte order mark before the encoding of a well-formed text is dropped in decoding, a second one kept |
| Utf8.EncodeInjective | packages/transition/src/canonical.ts:122-124 | Distinct well-formed texts have distinct UTF-8 encodings |
| Utf8.EncodingForms | packages/transition/src/canonical.ts:122-124 | Every code point is encoded in the form that RFC 3629 gives for its size, marks and payload bits in order |
| CanonicalGraph.CanonicalNode | packages/transition/src/canonical.ts:45-113 | The node joins the ancestors for its own text only and is out of them again on every exit |
| Decimal.IntegerCodecIsLawful | packages/transition/src/canonical.ts:30-35 | Decimal printing and reading of the safe integers satisfies what the other theorems ask of number printing |
| CanonicalGraph.CanonicalJson | packages/transition/src/canonical.ts:23-114 | On any finite object graph the walk terminates, yields the specified outcome, and leaves the ancestors as they were on every exit |
| CanonicalGraph.CanonicalItems | packages/transition/src/canonical.ts:51-80 | The array loop yields the item texts in order, or the first failure |
| CanonicalGraph.CanonicalEntries | packages/transition/src/canonical.ts:104-110 | The record loop yields the entry texts in the given key order, or the first failure |
| GraphTheorems.GraphTextExactly | packages/transition/src/canonical.ts:23-119 | A text is produced exactly for graphs that unroll to a finite value of the protocol domain, shared nodes allowed, and it is the canonical text of that value |
| GraphTheorems.CyclicIffCycleReachable | packages/transition/src/canonical.ts:45-113 | On an otherwise valid graph the cyclic error is raised exactly when a walk from the value meets a node twice |
| GraphTheorems.OneRepresented | packages/transition/src/canonical.ts:23-119 | A graph unrolls to at most one value |
| Text.CompareCodepoints | packages/yops/src/canonical.ts:29-42 | The two-iterator loop answers the sign of the code point order |
| Text.CompareCodepointsIsATotalOrder | packages/yops/src/canonical.ts:29-42 | The order is total and transitive, and zero only on equal strings, ill-formed ones included |
| Text.LexExactly | packages/yops/src/canonical.ts:29-42 | The comparison is negative exactly where the first sequence has the smaller element at the first place of difference, or has ended there, and positive exactly the other way round |
| YSorted.CompareExactly | packages/yops/src/canonical.ts:78-118 | The comparison is negative exactly where the type comes first in the order null, boolean, number, string, sequence, mapping, or at one type false comes before true, the number is smaller, the first differing code point is smaller or the canonical text comes first |
| Utf8.ByteOrderIsCodePointOrder | packages/yops/src/canonical.ts:29-42 | On well-formed strings it is the byte order of the UTF-8 encodings (section 1 of RFC 3629) |
| TwoTexts.CanonicalTextsAgree | packages/yops/src/canonical.ts:44-69 | Where no key has a surrogate, the YOps and the Transition canonical texts are the same |
| TwoTexts.CanonicalTextsAgreeExactly | packages/yops/src/canonical.ts:44-69 | The two canonical texts of a value are the same exactly when in every mapping it contains the keys are listed alike by code point and by code unit |
| TwoTexts.CanonicalTextsCanDiffer | packages/yops/src/canonical.ts:44-69 | A mapping with two keys whose two canonical texts differ |
| YOrder.CompareZero | packages/yops/src/canonical.ts:97-117 | Two values compare equal exactly when their canonical keys are equal |
| YOrder.CompareAntisymmetric | packages/yops/src/canonical.ts:97-117 | Swapping the values negates the comparison |
| YOrder.CompareTransitive | packages/yops/src/canonical.ts:97-117 | The comparison is transitive, strictly where one step is strict |
| YOrder.StableSortIsStable | packages/yops/src/recipes.ts:613-631 | The sort target is ordered and keeps the items of each tie in their given order, in both directions |
| YOrder.StableSortUnique | packages/yops/src/recipes.ts:613-631 | It is the only arrangement that is ordered and keeps ties in order |
| YOrder.UniqueLoop | packages/yops/src/recipes.ts:633-654 | The loop with its set of seen keys keeps exactly the first occurrence of each class, in order |
| YOrder.KeysKept | packages/yops/src/recipes.ts:633-654 | No class is lost and none is invented |
| YOrder.UniqueIsIdempotent | packages/yops/src/recipes.ts:633-654 | Applying unique to its own result changes nothing |
| YSorted.SortGoesOneWay | packages/yops/src/handlers/sort.ts:51-75 | Ascending, nothing later precedes anything earlier, descending the other way: numbers go up or down, and so do types |
| YSorted.SortKeepsEqual | packages/yops/src/handlers/sort.ts:51-75 | The result is a permutation that keeps the items with one sort value in their order, in both directions |
| YSorted.UniqueKeepsFirst | packages/yops/src/handlers/unique.ts:56-72 | Unique keeps exactly the first of the items with equal values, in order |
| YPath.TryParsePath | packages/yops/src/paths.ts:142-241 | The cursor loop returns the segments, or the failure kind, of the recursive reading |
| YPath.ParseOfFormat | packages/yops/src/recipes.ts:932-941 | Every list of printable segments, keys with any characters included, is what its printed path parses to |
| YPath.FormatOfParseRoundTrips | packages/yops/src/recipes.ts:932-941 | If a path parses, printing its segments and parsing again gives exactly those segments |
| YPath.ParsedExactlyThePrintable | packages/yops/src/paths.ts:142-241 | A list of segments is the parse of some path exactly when every segment is printable |
| YPath.PermissiveIsSplit | packages/yops/src/paths.ts:249-262 | Where no slash-separated piece starts with a quote, the permissive parse equals split-and-classify |
| YPath.GluedTextAddsAnEmptyKey | packages/yops/src/paths.ts:215-235 | Text glued to a final quoted segment joins its key and adds an empty key |
| YPath.SegmentsSpelled | packages/yops/src/paths.ts:142-241 | A path with a key, a decimal index and a quoted key with a slash and an escaped quote, read to its segments |
| YDoc.ResolveLoop | packages/yops/src/paths.ts:295-327 | The navigating loop returns the value the recursive reading finds |
| YReads.MatchFinds | packages/yops/src/paths.ts:38-52 | A match finds exactly the mappings whose member is the text expected, or a number or boolean whose canonical text it is |
| YReads.MatchFindsScalars | packages/yops/src/paths.ts:38-52 | A number is found by its printed form, a boolean by its name and a string by itself |
| YReads.ReadsExactly | packages/yops/src/paths.ts:295-327 | A path reads a value exactly when there is a trail to it: a key leads to the entry, an index to the item in that place, a match to the first item it finds |
| YReads.SetSucceedsExactly | packages/yops/src/paths.ts:352-408 | A set succeeds exactly where the parent is there and takes the child, or the path leads to a mapping that lacks the next key and only keys follow |
| YReads.DeleteExactly | packages/yops/src/paths.ts:420-472 | Deleting is setting, where the path leads but for its last segment, the mapping without the key or the sequence with the later items moved up |
| YDoc.GetAfterSet | packages/yops/src/paths.ts:340-408 | Reading a match-free path after a successful set gives the value set |
| YDoc.SetOfGet | packages/yops/src/paths.ts:340-408 | Setting the value already there changes nothing |
| YDoc.SetAfterSet | packages/yops/src/paths.ts:340-408 | The last of two sets at one place wins |
| YDoc.SetElsewhere | packages/yops/src/paths.ts:340-408 | A set leaves every diverging path as it was |
| YDoc.SetsCommute | packages/yops/src/paths.ts:340-408 | Sets at diverging paths commute |
| YDoc.DeleteExactlyWhereResolved | packages/yops/src/paths.ts:420-472 | Delete answers false exactly where the path does not resolve |
| YDoc.GetAfterDelete | packages/yops/src/paths.ts:420-472 | A deleted key is gone |
| YDoc.DeleteUndoesSet | packages/yops/src/paths.ts:340-472 | Deleting a key just set under an existing mapping restores the document |
| YDoc.ConcretizeSame | packages/yops/src/paths.ts:390-404 | Replacing each match by the index of its first matching item gives the same read and the same set |
| YDoc.GetAfterSetConcretely | packages/yops/src/paths.ts:390-404 | For any path that sets, the value set is found at the concrete path |
| YDoc.PutGetExactly | packages/yops/src/paths.ts:340-408 | On any path, a successful set is read back at that path exactly when the value keeps the matches: it matches a final match segment, and is what the match expects where the path ends in the key that an immediately preceding match looks at |
| YDoc.PathKeepsItsPlace | packages/yops/src/paths.ts:390-404 | The same condition on path and value decides whether the concrete path stays as it was |
| YDoc.ResolvedKeepsMatches | packages/yops/src/paths.ts:295-327 | Whatever a path reads meets that condition |
| YDoc.SetAgain | packages/yops/src/paths.ts:340-408 | While it is met the last of two sets wins, match segments included |
| YDoc.MatchCanLoseItsPlace | packages/yops/src/paths.ts:390-404 | A set through a match segment after which that path no longer resolves |
| YTree.DeepClone | packages/yops/src/paths.ts:266-278 | The copy stands for the same value on fresh nodes that share nothing, whatever the argument shares |
| YTree.SetAtPathSegments | packages/yops/src/paths.ts:340-350 | On the heap the result is the functional set on fresh nodes that form a tree; nothing that existed is modified, throw or not |
| YTree.SetRecursive | packages/yops/src/paths.ts:352-408 | The in-place update succeeds exactly where the functional set does, computes it, and touches only nodes of the clone and fresh ones |
| YTree.DeleteAtPathSegments | packages/yops/src/paths.ts:420-438 | On the heap the result is the functional delete on fresh nodes; nothing that existed is modified |
| YTree.DeleteInPlace | packages/yops/src/paths.ts:440-472 | The in-place delete and splice computes the functional delete within the nodes of the clone |
| YTree.ResolvePathSegments | packages/yops/src/paths.ts:295-327 | The reference returned stands for the value the functional reading finds |
| YTree.FindMatch | packages/yops/src/paths.ts:395-395 | The index of the first item that matches, the length standing for none |
| YTree.YNode.PutChild | packages/yops/src/paths.ts:362-386 | Assigning one child keeps the node a tree and changes the represented value at that place only |
| YTree.YNode.RemoveChild | packages/yops/src/paths.ts:448-470 | Deleting a key or splicing an item keeps the node a tree and removes that place only |
| YOps.ApplyYOps | packages/yops/src/engine.ts:88-232 | The loop is fail-fast and atomic: it computes the recursive run, and a failure returns the original document with the count of applied operations |
| YOps.RunAppend | packages/yops/src/engine.ts:88-232 | Running two lists in a row is running their concatenation, and a failure anywhere restores the first document |
| YEffects.RunGoesOn | packages/yops/src/engine.ts:88-232 | One operation more is applied to what the ones before have made |
| YEffects.RunStops | packages/yops/src/engine.ts:88-232 | The first operation that fails ends the run with its code, the number of operations before it and the document given |
| YEffects.SetDoes | packages/yops/src/handlers/set.ts:5-23 | Set succeeds exactly where the path can be written, and then the value stands at the place of the path and every path that parts from it reads as before |
| YEffects.UnsetDoes | packages/yops/src/handlers/unset.ts:5-52 | Unset takes the key out of its mapping, does nothing where there is none, and refuses what is no key of a mapping |
| YEffects.DropDoes | packages/yops/src/handlers/drop.ts:5-17 | Drop succeeds exactly where the path resolves and takes that value out of its mapping or sequence |
| YEffects.DefineDoes | packages/yops/src/handlers/define.ts:6-73 | Define succeeds exactly on a path of keys whose parent is a mapping without the last one, which then holds the empty mapping; drop undoes it; each failure has its code |
| YEffects.SequenceDoes | packages/yops/src/handlers/append.ts:6-29 | Append, sort and unique succeed exactly on sequences whose items have the field, and replace the sequence by the longer, sorted or deduplicated one and nothing else |
| YEffects.PickOmitDo | packages/yops/src/handlers/pick.ts:6-38 | Pick leaves exactly the listed entries of the mapping, omit exactly the others, and nothing else changes |
| YEffects.NestDoes | packages/yops/src/handlers/nest.ts:6-71 | Nest moves the listed entries into a mapping under the new key; each refusal has its code |
| YEffects.MergeDoes | packages/yops/src/handlers/merge.ts:6-76 | Merge puts the entries of the listed mappings, the last that has a key deciding, into one mapping under the new key |
| YEffects.PopulateDoes | packages/yops/src/handlers/populate.ts:6-44 | Populate sets its entries in the mapping and leaves the others |
| YEffects.SplitDoes | packages/yops/src/handlers/split.ts:6-102 | Split leaves the entries of no group and has each group as a mapping under its name; each refusal has its code |
| YEffects.RenameDoes | packages/yops/src/handlers/rename.ts:6-68 | Rename moves one entry of a mapping to another key that is free |
| YEffects.FoldDoes | packages/yops/src/handlers/fold.ts:12-68 | Fold puts the only entry of a mapping in the place of that mapping |
| YEffects.RenameFoldRefuse | packages/yops/src/handlers/fold.ts:12-68 | What is not there, no entry of a mapping, or no mapping with exactly one entry is refused, each with its code |
| YEffects.CloneDoes | packages/yops/src/handlers/clone.ts:5-26 | Clone sets the value of the source at a target where nothing was |
| YEffects.MoveDoes | packages/yops/src/handlers/move.ts:5-53 | Move is clone and then drop of the source, in document and in failure, but for a target that is the source or below it |
| YEffects.AssertDoes | packages/yops/src/handlers/assert.ts:7-89 | Assert never changes the document and fails exactly where the value found does not meet its conditions |
| YRecipes.CompileLoop | packages/yops/src/recipes.ts:1096-1143 | The loop that updates current, expansions, operations and retained computes the recursive compilation |
| YCompiler.CompilePreservesMeaning | packages/yops/src/recipes.ts:1096-1143 | For every base document and operation list, the compiled list and the native list both succeed with equal documents or both fail and return the base |
| YCompiler.ExpandedOrRetained | packages/yops/src/recipes.ts:1096-1143 | Expansions and retained operations together are as many as the operations given |
| YExpansions.CompileWeaves | packages/yops/src/recipes.ts:1096-1143 | The compiled operations are the expansions and the retained operations, each where its own operation stood; the expansions are the recipes of exactly the operations that the comparison takes, each compiled on the document before it; from the first failing operation on everything is retained |
| YExpansions.RecipeGuards | packages/yops/src/recipes.ts:327-376 | A recipe that has something to do and runs on a document found there the value it was compiled against, and for clone and move nothing at the target |
| YExpansions.RecipeExactly | packages/yops/src/recipes.ts:953-1094 | An operation has a recipe exactly where its conditions on the base hold; every other operation is retained |
| YCompiler.ExpandsToPrimitives | packages/yops/src/recipes.ts:953-1094 | Every expansion consists of assert, set and unset operations only |
| YCompiler.CompileIsIdempotent | packages/yops/src/recipes.ts:1096-1143 | Compiling a compiled list changes nothing |
| YCompiler.CheckNeverRejects | packages/yops/src/recipes.ts:1096-1143 | For append, sort, unique, pick, omit, clone and rename the run-time comparison accepts the recipe exactly when native operation and recipe both exist |
| YCompiler.MoveTakenExactly | packages/yops/src/recipes.ts:390-394 | Where native move and recipe both exist, the recipe is taken exactly when the source path ends in a key |
| YConservation.PathReplacementReaches | packages/yops/src/recipes.ts:361-376 | Where a path replacement runs, the path held exactly the recorded base before, present or absent; after, it holds exactly the target if and only if a value set keeps the matches of the path, and a removed key leaves no second item for a match on it |
| YConservation.GetAfterDeleteExactly | packages/yops/src/paths.ts:420-472 | On any path that ends in a key, the deleted key is gone exactly unless an immediately preceding match looks at it and finds another item |
| YFold.FoldTakenExactly | packages/yops/src/recipes.ts:562-589 | The run-time comparison takes the fold recipe exactly when native fold and recipe both exist, match segments included |
| YMappings.SetMappingAgain | packages/yops/src/paths.ts:390-404 | While a mapping set at a path keeps the matches, the path leads to it and a further set there is a set in the first place |
| YCompiler.AssertThenSet | packages/yops/src/recipes.ts:327-333 | Assert with set succeeds exactly when the value at the path equals the recorded base, and then sets the target |
| YCompiler.AssertThenSetElsewhere | packages/yops/src/recipes.ts:327-333 | It changes nothing at diverging paths |
| YCompiler.ReplacementReachesTarget | packages/yops/src/recipes.ts:327-333 | The replacement recipe, empty when base and target agree, always leaves the target at the path |
| YFinite.FiniteRun | packages/yops/src/engine.ts:88-232 | Every run keeps every number a finite one, so canonical comparison keeps identifying documents |
| YGlued.GluedKeysTakenExactly | packages/yops/src/recipes.ts:489-611 | Where the glued text addresses the keys meant, the run-time comparison takes populate, nest, merge and split recipes exactly when native operation and recipe both exist and the operation stays in place: nest and split remove no key that a match ending the path looks at, merge always stays, populate does unless an entry takes the match off its item and later ones are not already there in both items |
| YGlued.NestSets | packages/yops/src/handlers/nest.ts:6-71 | The deletes and the set of a nest come to one set of the target exactly when the match that ends the path looks at none of the nested keys |
| YGlued.SplitSets | packages/yops/src/handlers/split.ts:6-102 | The same for a split |
| YGlued.PopulateSets | packages/yops/src/handlers/populate.ts:6-44 | Entries set one by one come to one set of them all exactly when the match that ends the path stays on its item, or from where it leaves both items hold the rest |
| YGlued.MergeCanOverwrite | packages/yops/src/handlers/merge.ts:6-76 | A document and a merge after which the leftover with the key merged into, and an entry two merged mappings share, are overwritten |
| YConservation.NestCanLoseItsPlace | packages/yops/src/handlers/nest.ts:6-71 | A document and a nest through a match on the nested key after which the first item is empty and the second holds the wrapper |
| YPath.ReadGlued | packages/yops/src/paths.ts:142-241 | Gluing a key with a slash to a path that parses adds that key, in place of the empty key that text glued to a final quoted segment leaves |
| YMappings.KeyPathParses | packages/yops/src/handlers/nest.ts:6-71 | A key without a slash that starts with neither quote nor bracket, glued to a strict path, addresses that key below it exactly when the path does not end in glued text |
| YMappings.GluedKeyLandsBeside | packages/yops/src/handlers/populate.ts:6-44 | A document and a populate on a path ending in glued text after which the entry is in the parent of the mapping the path reads |
| YMappings.RebuildIsSetMapping | packages/yops/src/handlers/nest.ts:6-71 | Where the glued text addresses the keys, none deleted is one a final match looks at and no entry before the last takes that match away, deleting keys and setting others one by one is one set of the rebuilt mapping |
| YMappings.PickOmitComplementary | packages/yops/src/recipes.ts:442-487 | Pick and omit of the same keys are disjoint and together the base |
| YMappings.RenameUndone | packages/yops/src/recipes.ts:396-421 | On mappings, a rename to a new key is undone by the reverse rename |
| YMappings.NestThenFold | packages/yops/src/recipes.ts:500-589 | On mappings, nesting one key and folding the wrapper restores the base |
| YMappings.FoldThenNest | packages/yops/src/recipes.ts:562-589 | Fold loses nothing exactly when the folded child does not have the key of another sibling |
| YFold.FoldCanOverwrite | packages/yops/src/handlers/fold.ts:12-68 | A document and a fold after which the sibling with the key of the folded child is gone |
| YMappings.SplitPartitions | packages/yops/src/recipes.ts:523-560 | Leftovers and group contents are disjoint and together the base |
| YMappings.SplitTargetHolds | packages/yops/src/recipes.ts:523-560 | The split target holds each leftover where it was and each group under its name |
| YMappings.MergeConserves | packages/yops/src/recipes.ts:591-611 | Merge keeps as many entries as it was given exactly when the merged mappings have disjoint keys and no leftover has the key it merges into |
| YMappings.MergeHolds | packages/yops/src/recipes.ts:591-611 | Then every leftover stays as it was and every merged entry keeps its value |
| YConservation.RenameUndoneOnDocument | packages/yops/src/handlers/rename.ts:6-68 | Run by the engine on any two strict paths to the two keys, a rename and its reverse restore the document exactly when neither key is empty and the parent is not selected by a match on the renamed key |
| YConservation.RenameNotUndone | packages/yops/src/handlers/rename.ts:6-68 | A document and a rename below a match after which the reverse rename does not find its path |
| YConservation.NestThenFoldOnDocument | packages/yops/src/handlers/fold.ts:12-68 | Run by the engine where the glued text addresses the two keys, nesting one key and folding the wrapper restore the whole document exactly when the nest passes its guards, the path of the wrapper is strict and the mapping is not selected by a match on the nested key |
| YRecipeLoops.KeyList | packages/yops/src/recipes.ts:423-440 | The loop accepts exactly key lists that are non-blank, distinct and present |
| YRecipeLoops.CompilePick | packages/yops/src/recipes.ts:442-455 | The loop yields the pick recipe |
| YRecipeLoops.CompileOmit | packages/yops/src/recipes.ts:471-487 | The loop yields the omit recipe |
| YRecipeLoops.CompilePopulate | packages/yops/src/recipes.ts:489-498 | The loop yields the populate recipe |
| YRecipeLoops.CompileNest | packages/yops/src/recipes.ts:500-521 | The loops yield the nest recipe |
| YRecipeLoops.CompileSplit | packages/yops/src/recipes.ts:523-560 | The loops yield the split recipe, whatever the order of the base entries |
| YRecipeLoops.CompileMerge | packages/yops/src/recipes.ts:591-611 | The loops yield the merge recipe, later keys winning |
| Protocol.CanonicalSet | packages/transition/src/parse.ts:103-116 | The adjacent pass succeeds exactly when each member is strictly before the next in canonical byte order |
| Protocol.AdjacentIsGlobal | packages/transition/src/parse.ts:103-116 | The adjacent pass is equivalent to pairwise distinct and globally sorted |
| Protocol.OneSequencePerSet | packages/transition/src/parse.ts:103-116 | A set of members has exactly one accepted sequence |
| Protocol.CheckInputs | packages/transition/src/parse.ts:286-300 | The loop over inputs with the previous role computes the specified check, first failure first |
| Protocol.InputsAscend | packages/transition/src/parse.ts:286-300 | Inputs are accepted exactly when each is well shaped and the roles strictly ascend by code unit |
| Protocol.ParseObjectIsOneOfFour | packages/transition/src/parse.ts:388-423 | An object parses exactly when it parses as one of the four kinds, and its schema tells which |
| Integrity.DecisionRules | packages/transition/src/parse.ts:223-250 | An accepted Decision judges one Statement, has one of three outcomes, an authored rationale when it overrides, and lists each considered Statement once |
| Resolver.DescribeParsed | packages/transition/src/identity.ts:83-99 | Exactly the parsed objects have a descriptor, which names their schema and the digest of their canonical bytes |
| Resolver.DomainsApart | packages/transition/src/identity.ts:61-75 | The hashed strings of two objects are the same only if kind, schema and bytes all are |
| Resolver.DescriptorIdentifiesObject | packages/transition/src/identity.ts:61-99 | Objects with one descriptor are one object, unless their hashed strings collide |
| Resolver.OpenExactly | packages/transition/src/resolver.ts:52-82 | Bytes open to an object exactly when the descriptor describes it and they are its canonical bytes |
| Resolver.ResolveExactly | packages/transition/src/resolver.ts:48-83 | Whatever a resolver answers, an object is resolved exactly when the descriptor describes it and the answer is its canonical bytes |
| Resolver.FinalCheckIsImplied | packages/transition/src/resolver.ts:78-81 | Without a collision the two digest checks imply the final comparison of bytes |
| ResolveRules.DescribeExactly | packages/transition/src/identity.ts:61-99 | An object is described exactly when it parses, by one of the four kinds with its schema and by sha256: with the hash of its prefixed canonical bytes |
| ResolveRules.PreimageIsHashed | packages/transition/src/identity.ts:61-75 | What is hashed is t3x-object-v1, the kind and the schema, each closed by a zero, and the bytes |
| ResolveRules.ResolveOutcome | packages/transition/src/resolver.ts:48-83 | Which code each failure has: nothing stored, other bytes, no JSON, outside the domain, no object, another kind, not canonical |
| Resolver.ResolversAgree | packages/transition/src/resolver.ts:48-83 | Two resolvers that succeed on one descriptor return the same object |
| Resolver.PutThenResolve | packages/transition/src/resolver.ts:35-46 | Resolving the descriptor of an object just put returns that object |
| Resolver.DescriptorKeyInjective | packages/transition/src/resolver.ts:19-21 | Distinct descriptors have distinct store keys |
| Resolver.DescriptorParses | packages/transition/src/resolver.ts:35-39 | The descriptor put answers is one the resolver accepts |
| Resolver.PutExtends | packages/transition/src/resolver.ts:35-39 | Putting an object changes nothing that resolved before |
| Resolver.InMemoryObjectResolver.Put | packages/transition/src/resolver.ts:35-39 | Stores the canonical bytes under the descriptor key and nothing else; an object that does not parse leaves the store alone |
| Resolver.InMemoryObjectResolver.PutEach | packages/transition/src/resolver.ts:31-33 | Puts the objects in order and stops at the first that does not parse |
| Resolver.InMemoryObjectResolver.Get | packages/transition/src/resolver.ts:41-44 | Answers the stored bytes, if any |
| Integrity.VerifyCommitIntegrity | packages/transition/src/integrity.ts:56-130 | The guards and loops compute the specified result, the first failing check deciding the error |
| Integrity.IntegrityExactly | packages/transition/src/integrity.ts:56-130 | A commit is accepted exactly when the chain stands, the outcome of its Decision is accepted or overridden, every reference resolves, the first parent or the empty genesis is the Base and every other parent is a declared input |
| Integrity.PermitsOrRefuses | packages/transition/src/integrity.ts:71-73 | The check made on a parsed Decision fires exactly on the outcome rejected, and otherwise the outcome is accepted or overridden |
| CommitRules.CommitExactly | packages/transition/src/integrity.ts:56-130 | Acceptance in the fields of the objects: the chain from Decision through Proposal to an Effect with the result of the commit, an outcome of accepted or overridden, everything named resolving, and each parent result equal to the Base or to a declared input |
| CommitRules.ChainFailures | packages/transition/src/integrity.ts:60-73 | A commit that does not parse and a Decision that does not resolve fail with their own code; what is no Decision, and an outcome of rejected, fail with INTEGRITY_CHAIN_INVALID |
| CommitRules.ProposalFailures | packages/transition/src/integrity.ts:75-84 | A subject that does not resolve fails with its own code, one that is no Proposal with INTEGRITY_CHAIN_INVALID |
| CommitRules.EffectFailures | packages/transition/src/integrity.ts:86-93 | The same of the Effect and of a result that is not that of the commit |
| CommitRules.ReferenceFailures | packages/transition/src/integrity.ts:95-129 | Once everything resolves, the commit is accepted if the parents fit and fails with INTEGRITY_CHAIN_INVALID if not |
| CommitRules.MissingState | packages/transition/src/integrity.ts:95-96 | Past the chain the Base is asked for first and then the result of the commit, and a failure passes its code on |
| CommitRules.MissingObject | packages/transition/src/integrity.ts:97-99 | Then the first input that is missing |
| CommitRules.MissingStatement | packages/transition/src/integrity.ts:100-103 | Then the first considered Statement that is missing, or the first object that it is about |
| CommitRules.MissingParentFails | packages/transition/src/integrity.ts:105-109 | And last the first parent that is missing |
| Integrity.VerifyStatementSubjects | packages/transition/src/integrity.ts:47-53 | Every subject is resolved, in order |
| Integrity.ParentsLoop | packages/transition/src/integrity.ts:105-109 | The loop collects the parsed parents in order, or the first failure |
| Integrity.ResolvedOfKind | packages/transition/src/integrity.ts:56-130 | A descriptor of a kind resolves, if at all, to an object of that kind |
| Replay.VerifyEffect | packages/transition/src/replay.ts:95-128 | Computes the State the Effect produces, or the specified error; an unmet precondition makes the claim false |
| Replay.Replay | packages/transition/src/replay.ts:53-84 | The guards and the loop over declared inputs compute the specified execution |
| Replay.ReplayGetsExactlyTheDeclared | packages/transition/src/replay.ts:67-80 | Size test and per-role lookup force the input map to have exactly the declared roles, each with the named object |
| Replay.OwnInputsAlwaysMatch | packages/transition/src/replay.ts:103-106 | On inputs it resolved itself, verification never fails the size or descriptor tests |
| Replay.EffectExactly | packages/transition/src/replay.ts:95-128 | An Effect is accepted exactly when its driver, run on its Base, definition and inputs, produces a State with the claimed descriptor |
| Replay.ClaimCannotEnterReplay | packages/transition/src/replay.ts:31-39 | An Effect that differs from an accepted one in its claim alone is accepted exactly when it claims the same descriptor |
| EffectRules.EffectExactlyInFields | packages/transition/src/replay.ts:95-128 | An Effect is accepted exactly when it parses, Base and inputs resolve, and the driver registered under its name makes of Base, driver, operations, inputs and exactly the declared roles a State with the claimed descriptor |
| EffectRules.EffectOutcome | packages/transition/src/replay.ts:67-128 | Once Base and inputs are resolved, the code of each way the run can end, an unmet precondition and another State being EFFECT_CLAIM_FALSE |
| EffectRules.EffectFailsEarly | packages/transition/src/replay.ts:95-106 | Before the run the first failure decides, with its own code |
| History.HistoryReplays | packages/transition/src/integrity.ts:56-130 | On every first-parent chain of accepted commits, the head State is what the drivers make, in order, of the empty genesis, and the outcome of every Decision is accepted or overridden; of the hash it takes that the two strings hashed for each commit of the chain do not collide |
| History.HeadFixesHistory | packages/transition/src/integrity.ts:105-121 | Two chains to one head, read through two resolvers, are the same commits |
| History.CommitStep | packages/transition/src/replay.ts:95-128 | An accepted commit resolves its result to what its driver makes of its Base |
| History.MoreObjectsKeepVerified | packages/transition/src/resolver.ts:48-83 | A resolver that knows more verifies every verified commit and Effect, with the same outcome |
| History.PutKeepsVerified | packages/transition/src/resolver.ts:35-39 | Putting an object never unverifies a commit |
| PythonVerifier.SortAndCompareIsAscending | tools/transition-conformance-python/t3x_transition_verifier/protocol.py:103-114 | The sort-and-compare check of roles accepts exactly the strictly ascending lists |
| PythonVerifier.SortedIsSame | tools/transition-conformance-python/t3x_transition_verifier/protocol.py:106-107 | Sorting by the UTF-16 bytes changes nothing exactly where the roles are already in order |
| PythonVerifier.CollectionsFollow | tools/transition-conformance-python/t3x_transition_verifier/protocol.py:89-122 | Whatever the TypeScript parser accepts passes the separate collection checks, encoding included |
| PythonVerifier.DescriptorParsersDiffer | tools/transition-conformance-python/t3x_transition_verifier/protocol.py:127-137 | TypeScript accepts exactly the descriptors Python accepts whose kind is not null; the others are those with an unknown schema |
| PythonVerifier.NoKindIsADescriptor | tools/transition-conformance-python/t3x_transition_verifier/protocol.py:130-137 | A descriptor with a null kind that Python accepts and TypeScript rejects |
| PythonVerifier.ResolversMatch | tools/transition-conformance-python/t3x_transition_verifier/protocol.py:169-195 | Over one store whose parsed contents the two parsers agree on, the two resolvers return the same objects for every request, descriptors without a kind included |
| PythonVerifier.DescribersAgree | tools/transition-conformance-python/t3x_transition_verifier/protocol.py:139-153 | The two give an object the same descriptor, or none, if the parsers agree on it or it cannot be canonicalized |
| PythonVerifier.Store.Load | tools/transition-conformance-python/t3x_transition_verifier/protocol.py:156-167 | Loading succeeds exactly when every descriptor passes the test of parse_descriptor, every text encodes and no two keys, made by str, are the same, and then holds every text under its key and nothing else |
| VerifiersAgree.CommitVerifiersAgree | tools/transition-conformance-python/t3x_transition_verifier/protocol.py:301-364 | Where the parsers agree on the commit and on what is stored, TypeScript verifies a commit exactly when Python does, with the same findings, and every Effect input resolves |
| VerifiersAgree.PyIntegrityExactly | tools/transition-conformance-python/t3x_transition_verifier/protocol.py:301-364 | Where the parsers agree on the commit and on what is stored, Python accepts a commit exactly when the chain and the references stand, Effect inputs aside |
| VerifiersAgree.MissingInputSplitsThem | tools/transition-conformance-python/t3x_transition_verifier/protocol.py:337-342 | A commit Python verifies while an Effect input is missing is one TypeScript rejects |
| MissingInput.VerifiersSplit | tools/transition-conformance-python/t3x_transition_verifier/protocol.py:337-342 | For every hash that keeps the Proposal and the Decision apart and every schema that accepts the five objects: Python verifies the commit of an Effect whose input is not in the store that holds the rest, and TypeScript fails with OBJECT_NOT_FOUND |
| MissingInput.VerifiersSplitOnIntegers | tools/transition-conformance-python/t3x_transition_verifier/protocol.py:337-342 | All its hypotheses hold together of one kernel |
| ParsersDiffer.UnpairedStateSplitsTheParsers | tools/transition-conformance-python/t3x_transition_verifier/protocol.py:64-87 | A State with an unpaired surrogate in its value passes a validator whose schema allows any value, and has no descriptor; TypeScript refuses it as NON_CANONICAL_VALUE |
| ParsersDiffer.LineFeedSplitsTheParsers | tools/transition-conformance-python/t3x_transition_verifier/protocol.py:73-87 | A State whose codec version ends in a line feed has a descriptor under a schema that lets it through, and TypeScript refuses it |
| VerifiersAgree.EffectVerifiersAgree | tools/transition-conformance-python/t3x_transition_verifier/protocol.py:279-299 | Where the parsers agree on the Effect, on what is stored and on the produced State if it can be canonicalized, the two verifiers accept the same Effects and compute the same State |
| VerifiersAgree.SchemaCanAgree | tools/transition-conformance-python/t3x_transition_verifier/protocol.py:73-87 | On an object TypeScript accepts the parsers agree exactly when the schema accepts it, the collection checks never standing in the way; on one it rejects, exactly when schema or collection checks reject it |
| CommitRules.PyCommitExactly | tools/transition-conformance-python/t3x_transition_verifier/protocol.py:301-364 | Acceptance by the Python verifier in the fields of the objects: the same, but for the inputs of the Effect |
| CommitRules.PyRefused | tools/transition-conformance-python/t3x_transition_verifier/protocol.py:306-317 | What is no Decision, and an outcome of rejected, fail with INTEGRITY_CHAIN_INVALID in Python too |
| TransitionSchema.ObjectExactly | packages/transition/schema/transition-v1.schema.json:6-384 | An object parses exactly when it is in the domain, satisfies the published schema and has its sets and roles in order |
| TransitionSchema.ObjectFailures | packages/transition/src/parse.ts:388-423 | What is outside the domain, or meets the schema and is only out of order, is called not canonical and never invalid |
| TransitionSchema.SchemaAgreesExactly | packages/transition/schema/transition-v1.schema.json:6-384 | With the published schema, patterns read as ECMAScript reads them, the two parsers agree on every object but those outside the domain that satisfy schema and collection checks |
| TransitionSchema.VerifiersAgreeWithSchema | tools/transition-conformance-python/t3x_transition_verifier/protocol.py:279-364 | With it the two verifiers agree on every store, every commit and every Effect in the domain, but for the Effect inputs that only one resolves |
| ConformanceDriver.ConformanceStringDriver.Execute | tools/transition-conformance-python/t3x_transition_verifier/protocol.py:203-236 | The loop over operations computes the specified run, first failure first |
| ConformanceDriver.RunExactly | tools/transition-conformance-python/t3x_transition_verifier/protocol.py:217-236 | A run succeeds exactly when every operation is known and every test names the string in force there; it ends with the last string put in place |
| ConformanceDriver.DriverAnswers | tools/transition-conformance-python/t3x_transition_verifier/protocol.py:203-236 | The State with the last string, or the code of the first thing wrong: codec or value, inputs, an unknown operation, a failed test |
| StudioBounds.WithinStructure | packages/api-client/src/schema-studio.ts:65-76 | The stack walk with early exit passes exactly when the value has at most the limit of nodes and depth, whatever its key order |
| StudioBounds.SampleValueAccepted | packages/api-client/src/schema-studio.ts:63-79 | Accepts exactly values of at most 10000 nodes, depth 24 and 65536 bytes of JSON text |
| StudioBounds.ContributionAccepted | packages/api-client/src/schema-studio.ts:89-108 | Accepts exactly values of at most 25000 nodes, depth 32 and 1048576 bytes of JSON text |
| StudioBounds.CountInAnyOrder | packages/api-client/src/schema-studio.ts:73-75 | The node count does not depend on the order of the entries |
| OrderedJson.StringifiedWidth | packages/api-client/src/schema-studio.ts:77-78 | Key order does not change the number of bytes of the JSON text: it is that of the canonical text |
| SchemaDiff.CompareValues | packages/yschema/src/diff.ts:21-44 | The mutually recursive functions push exactly the specified changes, in order |
| SchemaDiff.DiffYSchemas | packages/yschema/src/diff.ts:15-19 | The result is the specified list of changes from the root |
| SchemaDiff.DiffMirrored | packages/yschema/src/diff.ts:15-66 | Diffing the other way round gives the same entries in the same order with ADD and REMOVE exchanged |
| SchemaDiff.DiffEmptyExactly | packages/yschema/src/diff.ts:15-74 | The diff is empty exactly when the two schemas have the same normal form, each computed from one schema alone, with root release metadata and node flags that are not true taken out |
| SchemaDiff.EmptyDiffIsAnEquivalence | packages/yschema/src/diff.ts:15-74 | Having an empty diff is reflexive, symmetric and transitive |
| SchemaDiff.PiecesAreKeys | packages/yschema/src/diff.ts:12-12 | While keys are non-empty and dot-free, the dotted path splits back into its keys, so the flag pattern tells a node flag from slots and nodes of that name |
| SchemaReports.DiffReports | packages/yschema/src/diff.ts:15-66 | The diff is the list of all reports in the order of their keys, each list of keys leading through records of both schemas past no release metadata and no flag with one meaning |
| SchemaReports.DiffExactly | packages/yschema/src/diff.ts:21-66 | A change is in the diff exactly when some list of keys has its path and only the target has it, only the base has it, or both have it and differ |
| SchemaReports.PlainDiffExactly | packages/yschema/src/diff.ts:21-66 | For schemas whose keys are neither empty nor dotted, ADD, REMOVE and CHANGE are reported at a list of keys exactly so, repeated flags and root metadata excluded |

## Left out

- Key order inside a mapping: mappings are unordered except in `SchemaDiff`, where `JSON.stringify` reveals the order; everything modelled elsewhere sorts keys or ignores their order.
- Binary64 rounding and negative zero: a number is the real it denotes.
- Error messages, offsets and paths: the error code and the branch that fails are kept.
- Property descriptors, prototypes, symbols and sparse arrays: one flag per heap node says whether those conditions hold; the key `__proto__` and inherited names are ordinary keys.
- Awaiting and scheduling: awaits are plain calls.
- The inside of SHA-256.
- The Python JSON reader and RFC 8785 printer: taken to accept and print what the modelled ones do.
- The JSON Schema validator of the Python kernel: a parameter of the agreement theorems, which take the two parsers to agree on the commit or Effect at hand, on what the stored bytes parse to and on a produced State; `TransitionSchema` transcribes the published schema keyword by keyword and discharges this for it, with ECMAScript patterns. That Python's `$` also matches before a final line feed is in `ParsersDiffer`. A field that is absent reads as null where the schema would have to let its object through.
- Deprecated-field warnings, the operation metadata keys and the Zod contract of operations: an operation is given in parsed form, or as malformed or unregistered.
- The text forms of schemas and operations in YAML, the preflight validator, schema composition and schema validation.
- The State codec registry, which no modelled check consults.
- Storage, servers, routes, command line, web and language-model calls.
- YCompiler.CheckNeverRejects: leaves out move and fold, whose exact conditions are `YCompiler.MoveTakenExactly` and `YFold.FoldTakenExactly`.
- YGlued.GluedKeysTakenExactly: asks that each key glued to the path as text address that key below the path, which `YMappings.KeyPathParses` decides for keys without slash, quote or bracket; elsewhere the native operation works on another part of the document, and whether the outcome happens to agree is left to the run-time comparison, which `YCompiler.CompilePreservesMeaning` covers. Entries of one record have different names.
- YConservation.NestThenFoldOnDocument: asks the same of its two keys.
- YMappings.RebuildIsSetMapping: asks the same, and for the cases it leaves out `YGlued.NestSets`, `YGlued.SplitSets` and `YGlued.PopulateSets` are exact.
- YPath.PermissiveIsSplit: says nothing of malformed quoted paths beyond the fallback itself.
- Utf8.DecodeOfEncode: excludes text starting with a byte order mark, which decoding drops (`Utf8.DecodeDropsMark`).
- Decimal.IntegerCodecIsLawful: is an instance on the safe integers; for all finite binary64 numbers the laws of printing and reading are assumed of the platform, as `Lawful` states them.
- StudioBounds.SampleValueAccepted: is about JSON values with finite numbers whose records list each key once, which JSON text always gives.
- SchemaDiff.PiecesAreKeys: excludes keys that are empty or hold a dot, for which the dotted path is ambiguous; the diff itself follows the path text as the code does.
- ShortestText.CanonicalTextIsShortest: takes numbers as printed, since the shortest way to write a number is the platform's affair, and no half of a surrogate pair written raw.
