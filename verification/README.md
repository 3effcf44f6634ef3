# Verification of the Vulkan loader's core

A model in Dafny of the parts of the Vulkan loader whose correctness does not show from reading one
function, with proofs of what they promise.

* **Meta-layers** (`Layers`, `MetaVerify`, `MetaTheory`, `MetaShape`, `MetaPass`, `MetaCycles`,
  `MetaExpand`, `MetaActivate`, `MetaRoots`, `MetaOrder`, `MetaScan`).  A depth-first check with an array of marks validates meta-layers, and one pass deletes
  the invalid ones.  Later, mutually recursive functions without any marks flatten what is left.  The
  project proves that the check accepts exactly the roots of trees, that one pass reaches a fixpoint, when the
  later recursion terminates whatever is deleted in between, which layers are active
  in the end, and in which order.
* **Layer filters** (`Filters`).  How names with stars are classified, stored and matched, against what the
  documentation promises of them.
* **Physical devices** (`PhysicalDevices`, `TermDevices`).  The tables of wrappers and terminators, with a
  ghost set of what is allocated: who is reused, who is freed, and what a failed allocation leaves behind;
  and the unloading of drivers without devices.
* **JSON** (`Utf8`, `JsonString`, `JsonStringGrammar`, `JsonUnits`, `JsonGrammar`, `JsonTheory`, `JsonNumber`, `JsonParser`,
  `JsonRfc`, `JsonRefusal`, `JsonItem`, `JsonRender`, `JsonLayout`, `JsonPrinter`, `JsonInk`, `JsonRoundTrip`, `StringValidate`).  Of the
  texts of the grammar of sections 2 to 7 of RFC 8259 whose numbers have at most 63 bytes and whose nesting is within
  its limit, the parser is proved to read exactly those in which all surrogates come in pairs, and nothing else among
  texts with the RFC's numbers, escapes, white space and no raw control characters (whether bytes above 0x7F are
  UTF-8 is not asked); to read a grammar with its own liberties otherwise, and to link its items into the tree of the value; the string
  decoder to stay inside its estimate; the printer to leave exactly a rendering in a buffer that may move at every
  step; and what is printed to be read back exactly when it holds no string.
* **Debug messengers** (`DebugList`, `Messengers`).  A linked list with two heads that share a tail, and a
  slot allocator with an array per driver, over all runs.
* **Call chains** (`LayerChain`), **paths** (`NormalizePath`), **sorting** (`WindowsSort`, `WindowsGroups`,
  `LinuxOrder`) and **device extensions** (`DeviceExtensions`).

Allocation may fail at any point: it is a nondeterministic choice.  Drivers, layer libraries, environment
variables and filters are parameters.  `dafny verify dfyconfig.toml` checks everything.

Where the code does less than its comments suggest, the model follows the code and a lemma shows it:
nested meta-layers never report a missing component (`MetaActivate.NestedMissIsIgnored`), a missing
application layer is forgotten when a later one is added (`MetaActivate.MissingIsForgotten`), duplicate
removal leaves duplicates when a name occurs three times (`MetaPass.DistinctAfterDedup`), the pass accepts
some cycles when a meta-layer shares its name (`MetaCycles.DuplicateHidesCycle`), `normalize_path`
can make a relative path absolute (`NormalizePath.AbsoluteAfterwards`), a filter of one character and a star is
taken for a full name (`Filters.FilterIsAsDocumentedIff`), the second pass over a string can
read its closing quotation mark (`JsonStringGrammar.ReadsClosingQuoteIff`), strings of the RFC with a surrogate
without its partner are refused (`JsonUnits.DecodedIffPaired`, `JsonRefusal.DeadIsRefused`), the printer needs one byte
more than it writes (`JsonPrinter.PrintPreallocated`), and the Linux comparison is no order when two default
devices meet (`LinuxOrder.AntisymmetricIff`).

## Model

| member | source | states |
|---|---|---|
| `Layers.FindLayerProperty` | loader/loader.c:789-797 | lookup by name yields the first entry with that name, or none |
| `Layers.FindLastIndex` | loader/loader.c:2592-2596 | the search inside the verifier yields the last entry with that name |
| `Layers.FirstIsTheOne` | loader/loader.c:789-797 | with distinct names the two searches agree |
| `Layers.LayerList.Remove` | loader/loader.c:851-868 | moving the later entries down by one and dropping the last leaves the list without entry `i`; an index past the end is ignored |
| `Layers.VersionsCompareAsNumbers` | loader/loader.c:138-145 | with fields of sixteen bits, a version meets another exactly when it is no smaller as a number |
| `Layers.VersionsAreOrdered` | loader/loader.c:138-145 | the comparison of versions is a total order |
| `Layers.HigherFieldDecides` | loader/loader.c:138-145 | a higher major or, at equal majors, a higher minor field decides, and raising a field never turns acceptance into rejection |
| `MetaTheory.RemoveIsWithout` | loader/loader.c:851-868 | after a meta-layer is deleted its name is gone, and every other lookup finds what it found before |
| `MetaVerify.VerifyComponents` | loader/loader.c:2540-2629 | terminates on every list, cyclic or not, and gives the verdict and the marks of the specification walk |
| `MetaVerify.VerifySlot` | loader/loader.c:2553-2617 | one component: missing, too old, the layer itself, a meta-layer seen before, or a rejected one below ends the walk |
| `MetaVerify.VerifyMetaLayer` | loader/loader.c:2540-2552 | the verdict on one entry, from a cleared array of marks; no component of an accepted entry is missing, itself, or older in any field that counts |
| `MetaVerify.VerdictByName` | loader/loader.c:2540-2629 | when no meta-layer shares its name, the verdict by position is the one of a walk over names |
| `MetaShape.AcceptedIsTree` | loader/loader.c:2553-2617 | the meta-layers reached from an accepted one form a tree |
| `MetaShape.VerifiesIffTree` | loader/loader.c:2553-2617 | a meta-layer is accepted if and only if everything it reaches is present, recent enough and forms a tree: cycles and shared meta-layers are both rejected |
| `MetaTheory.MembersVerify` | loader/loader.c:2553-2617 | every meta-layer below an accepted one is accepted itself |
| `MetaTheory.VerdictSurvives` | loader/loader.c:2675-2703 | deleting a rejected meta-layer changes the verdict on no other |
| `MetaPass.VerifyAllMetaLayers` | loader/loader.c:2675-2703 | the pass with its deletions on the run computes the specification sweep, and reports an active override layer exactly when one is left |
| `MetaPass.OnePassIsEnough` | loader/loader.c:2675-2703 | when no meta-layer shares its name with another entry, one pass keeps exactly the layers that verify against the original list, all of them verify against the shorter list, and a second pass changes nothing |
| `MetaPass.VerifiedIsAcyclic` | loader/loader.c:2553-2617 | a list on which everything verifies has a ranking in which components are strictly lower |
| `MetaCycles.RankSurvives` | loader/loader.c:851-868 | a ranking of meta-layers by name, over all entries with those that lookups do not find, ranks the lookups of every list that deletions leave |
| `MetaCycles.SomeDeletionsLeaveCycle` | loader/loader.c:1432-1528 | without such a ranking there are deletions after which lookups go round in a cycle |
| `MetaCycles.AcyclicForeverIff` | loader/loader.c:1432-1528 | lookups stay free of cycles after any deletions if and only if the meta-layers can be ranked by name, hidden entries included |
| `MetaCycles.SweptIsRanked` | loader/loader.c:2675-2703 | when no meta-layer shares its name with another entry, the list the pass leaves has such a ranking |
| `MetaCycles.AcyclicAfterRemovals` | loader/loader.c:1432-1528 | hence, in that case, expansion without a visited set terminates after the pass and any later deletions |
| `MetaPass.RemoveDuplicateLayers` | loader/loader.c:4288-4308 | the in-place loop computes the specification of duplicate removal |
| `MetaPass.DedupHalves` | loader/loader.c:4290-4306 | of `n` copies of a name the rounded-up half stays |
| `MetaPass.DistinctAfterDedup` | loader/loader.c:4290-4306 | names are distinct afterwards if and only if no name occurred more than twice |
| `MetaPass.DedupKeepsLookups` | loader/loader.c:4290-4306 | however many copies there were, every lookup by name finds the record it found before |
| `MetaCycles.DuplicateHidesCycle` | loader/loader.c:2588-2604 | when a meta-layer shares its name the pass can accept a list with a cycle, since the check goes on with the last entry of the name and expansion with the first; duplicate removal leaves the cycle as it is |
| `MetaExpand.PointerList.Add` | loader/loader.c:1253-1280 | the append succeeds or runs out of memory, and is always inside the allocation although the check uses the wrong element size |
| `MetaExpand.WrongSizeIsSafe` | loader/loader.c:1260-1272 | a count that passes the check with the larger size leaves room for the pointer |
| `MetaExpand.ComponentIsLower` | loader/loader.c:1457-1528 | the component that expansion recurses into has a lower rank |
| `MetaExpand.Activation.AddPlain` | loader/loader.c:1253-1280 | a plain layer goes into both lists unless its name is there |
| `MetaExpand.Activation.AddImplicit` | loader/loader.c:1432-1454 | terminates, and both lists become the merge of what they were with the walk of the layer |
| `MetaExpand.Activation.AddMeta` | loader/loader.c:1457-1528 | terminates without a visited set, and merges the depth-first walk of the meta-layer into both lists; the flag it passes up is always true |
| `MetaExpand.Activation.AddSlot` | loader/loader.c:1463-1519 | one component: whether it is present, and the part of the walk below it |
| `MetaActivate.AddImplicitLayers` | loader/loader.c:4699-4714 | the lists become those of the specification for implicit layers |
| `MetaActivate.AddVariableLayers` | loader/loader_environment.c:463-509 | the lists become those of the specification for the names in the environment variable |
| `MetaActivate.AddFilterLayers` | loader/loader_environment.c:511-563 | the same for explicit layers whose names match the enable filter |
| `MetaActivate.AddNamedLayers` | loader/loader.c:1304-1345 | the same for the application's names; "layer not present" is returned exactly when a missing name is not followed by an addition |
| `MetaOrder.EnableInstanceLayers` | loader/loader.c:4732-4791 | implicit layers come first, then those of the variable, those the filter forces and those of the application: each step only adds behind what is there and covers exactly its own roots; the expanded list is the plain layers the walks of the roots come by, in this order, each the first time |
| `MetaOrder.PlainRoots` | loader/loader.c:4758-4784 | without meta-layers what the walks of the roots come by are the roots themselves, in order |
| `MetaOrder.ComponentsInOrder` | loader/loader.c:1457-1528 | a meta-layer of plain layers that nothing holds back is walked in the order of its components and comes after them |
| `MetaActivate.MergeFlattens` | loader/loader.c:1253-1280 | merging any walk keeps the expanded list the flattened target list with distinct names |
| `MetaActivate.VerifiedHasAll` | loader/loader.c:2553-2617 | on a verified list no component is missing, so no meta-layer is dropped during expansion |
| `MetaActivate.ActivationReachesIff` | loader/loader.c:1457-1528 | when a meta-layer is activated, a plain layer is active afterwards if and only if its name was or admitted components lead to it |
| `MetaRoots.WalkContains` | loader/loader.c:1457-1528 | what a visited meta-layer would visit is visited as well, so skipping a meta-layer that is already listed loses nothing |
| `MetaRoots.RunCovers` | loader/loader.c:4732-4791 | after a whole run the names on the target list are exactly those of the walks of the roots |
| `MetaRoots.ActiveIff` | loader/loader.c:4732-4791 | after a whole run a plain layer is active if and only if it is a root or admitted components lead to it from one; roots are enabled implicit layers that are not deferred, found names of the variable, explicit layers the filter forces, and available names of the application |
| `MetaScan.DedupIsRemoveAll` | loader/loader.c:4288-4308 | removing duplicates is a series of deletions |
| `MetaScan.RemainingIsExpandable` | loader/loader.c:4460-4483 | when the pass leaves no cycle by name and no name occurs more than twice, the list after the pass, any deletions and duplicate removal can be expanded |
| `MetaScan.AloneIsAcyclic` | loader/loader.c:2675-2703 | the pass leaves no cycle by name when no meta-layer shares its name |
| `MetaScan.ScanAndEnable` | loader/loader.c:4460-4483 | verifying, deleting, removing duplicates and enabling in this order ends, and a plain layer is active exactly when it is a root or a root leads to it |
| `MetaActivate.NestedMissIsIgnored` | loader/loader.c:1457-1528 | a component missing below a nested meta-layer drops that one but not the one above it |
| `MetaActivate.OwnVerdictIsDeepIff` | loader/loader.c:1457-1528 | for all meta-layers of a list the own components tell whether anything below is missing, if and only if no complete meta-layer lists an admitted incomplete one |
| `MetaActivate.MissingIsForgotten` | loader/loader.c:1304-1345 | a missing name followed by one that can be added goes unreported, in the other order it is reported |
| `Filters.DetermineFilterType` | loader/loader_environment.c:191-240 | the kind of a token and the part to compare, including where a special kind is overwritten |
| `Filters.CheckName` | loader/loader_environment.c:403-451 | a name passes if and only if one of the filters matches it |
| `Filters.ParseFilters` | loader/loader_environment.c:244-296 | the filters are those of the first sixteen tokens between commas, in lower case and cut to the buffer |
| `Filters.TokensOfList` | loader/loader_environment.c:244-296 | a list of nonempty names with commas between them is taken apart into these names |
| `Filters.FilterIsAsDocumentedIff` | loader/loader_environment.c:184-240 | a token does what its stars promise, on every name, if and only if it is not one character and a star |
| `Filters.AllMatchesIff` | loader/loader_environment.c:411-422 | "~all~" matches exactly the names that are not shorter than itself |
| `Filters.LowerIs` | loader/loader_environment.c:391-398 | the capitals A to Z become a to z, and no other character changes |
| `Filters.CaseDoesNotMatter` | loader/loader_environment.c:244-451 | names that differ only in the case of A to Z pass the same variables, and so do variables that differ only in it |
| `Filters.NameMatchesVariable` | loader/loader_environment.c:244-451 | a name passes if and only if one of the first sixteen tokens matches it: as its stars promise if it is ordinary, and as it is stored otherwise |
| `PhysicalDevices.MatchOld` | loader/loader.c:6611-6620 | the place of each old wrapper's device in the new enumeration, and whether all new devices are old |
| `PhysicalDevices.Instance.Reenumerate` | loader/loader.c:6622-6636 | when nothing is new or gone, the application gets the existing wrappers and the table stays |
| `PhysicalDevices.KeepSpares` | loader/loader.c:6689-6699 | old wrappers that were not enumerated are kept, in order, while there is room |
| `PhysicalDevices.Instance.Fill` | loader/loader.c:6656-6685 | each place gets the old wrapper of its handle if there is one and a new one otherwise |
| `PhysicalDevices.Instance.Rollback` | loader/loader.c:6705-6722 | after a failure exactly the new wrappers are freed |
| `PhysicalDevices.Instance.FreeDropped` | loader/loader.c:6724-6744 | exactly the old wrappers that are not in the new table are freed |
| `PhysicalDevices.Instance.SetupTrampolines` | loader/loader.c:6581-6755 | for distinct handles: each handle gets its wrapper, an old one wherever it exists, the table stays injective, and the live wrappers are those of the table; on failure table and live set are as before |
| `PhysicalDevices.NothingDroppedIff` | loader/loader.c:6689-6744 | no old wrapper is freed if and only if old and new devices together fit the new count |
| `TermDevices.DevicesAre` | loader/loader.c:6873-6914 | a driver has the devices it reports, or as many as there was room for, and none after an error; only lack of memory in a call that is made ends the enumeration |
| `TermDevices.DedupIsFirst` | loader/loader.c:6787-6825 | of the devices of one handle the first stays, and the order is kept |
| `TermDevices.DriversInOrder` | loader/loader.c:6960-7020 | the devices of earlier drivers come before those of later ones |
| `TermDevices.Find` | loader/loader.c:6774-6784 | the index of the terminator of a handle, if there is one |
| `TermDevices.Instance.CheckAndAdd` | loader/loader.c:6787-6825 | a device found twice is skipped, one with an old terminator keeps it, and another gets a new one |
| `TermDevices.Instance.Query` | loader/loader.c:6873-6927 | device counts per driver, capped at what was allocated; an error counts as none, and only lack of memory ends the enumeration |
| `TermDevices.Instance.Rollback` | loader/loader.c:7024-7049 | after a failure exactly the new terminators are freed |
| `TermDevices.Instance.FreeDropped` | loader/loader.c:7052-7070 | exactly the old terminators that were not enumerated again are freed |
| `TermDevices.Instance.Setup` | loader/loader.c:6838-7088 | on success the table is the de-duplicated enumeration in driver order with old terminators reused, and the live set follows; on failure nothing changes hands and no device is counted |
| `TermDevices.Instance.Unload` | loader/loader.c:7094-7161 | exactly the drivers with devices stay, in order, and the count drops once per unloaded scanned driver |
| `TermDevices.CountStaysRightIff` | loader/loader.c:7099-7155 | the driver count equals the list length afterwards if and only if every driver without devices is in the scanned list |
| `TermDevices.DriversOfTermsStay` | loader/loader.c:7094-7161 | when every handle belongs to one driver, the driver of each terminator is among those kept |
| `TermDevices.TableKeepsDriversIff` | loader/loader.c:7094-7161 | in general every terminator of the new table keeps its driver if and only if, for each old terminator whose handle is enumerated again, its own driver reported a device |
| `TermDevices.SharedHandleOrphans` | loader/loader.c:6799-6803 | with a handle that moves to another driver, a reused terminator loses its driver |
| `Utf8.ParseHex4` | loader/cJSON.c:406-430 | four hexadecimal digits are read, and anything else reads as 0 |
| `Utf8.EncodeInto` | loader/cJSON.c:488-527 | the bytes written are the UTF-8 encoding of the code point, at the right place |
| `Utf8.EncodeDecodes` | loader/cJSON.c:488-527 | the encoding can be decoded again, for every code point |
| `Utf8.EncodeLooks` | loader/cJSON.c:488-527 | the lead byte tells the length of an encoding, and the other bytes are from 0x80 to 0xBF |
| `Utf8.CombineInverts` | loader/cJSON.c:463-487 | a surrogate pair stands for the code point it was made from |
| `JsonString.FirstPass` | loader/cJSON.c:544-567 | where the closing quotation mark is, and the size the first pass reserves |
| `JsonString.ConvertLiteral` | loader/cJSON.c:434-530 | when an escape converts, how much it consumes and what it writes |
| `JsonString.SecondPass` | loader/cJSON.c:576-626 | the decoded bytes and the terminator are written inside the reserved output |
| `JsonString.EstimateSuffices` | loader/cJSON.c:544-626 | what the second pass writes fits what the first reserved, for every text, also where bad digits make the passes disagree about tokens |
| `JsonUnits.DigitsAreRead` | loader/cJSON.c:406-430 | four bytes are read as hexadecimal digits exactly when they are, of either case, and as their number |
| `JsonUnits.RfcIsToken` | loader/cJSON.c:586-620 | the decoder gives each short escape the byte of section 7 and knows the same surrogates |
| `JsonStringGrammar.StringIffSound` | loader/cJSON.c:533-647 | with four digits in every escape, the decoder accepts exactly the strings of sound items (raw control bytes allowed, surrogates in pairs) and gives their value |
| `JsonUnits.DecodedIffPaired` | loader/cJSON.c:434-484 | a string of section 7 of RFC 8259, with any four digits in its escapes, is decoded if and only if every high surrogate is followed by a low one and every low one follows a high one; it then gets its meaning |
| `JsonUnits.StringIffRfc` | loader/cJSON.c:533-647 | what the decoder reads with four digits in every escape and without control characters are exactly the strings of section 7 whose surrogates come in pairs, with their meaning |
| `JsonUnits.LoneSurrogateIsRefused` | loader/cJSON.c:452-455 | the text "\uDEAD", an example of section 8.2 of RFC 8259, is a string of section 7 and is refused |
| `JsonStringGrammar.ItemsAreTheBody` | loader/cJSON.c:576-626 | whatever is decoded, the text consumed derives it in the lenient grammar |
| `JsonStringGrammar.EscapedTextIsUtf8` | loader/cJSON.c:434-530 | every sequence of Unicode scalar values written as escapes, in digits of either case, decodes to its UTF-8 encoding |
| `JsonStringGrammar.EscapeExists` | loader/cJSON.c:434-530 | every Unicode scalar value can be written as such an escape |
| `JsonStringGrammar.ReadsClosingQuoteIff` | loader/cJSON.c:576-626 | the second pass reads the closing quotation mark if and only if one of its turns starts right before it on a backslash |
| `JsonStringGrammar.BadHexReadsClosingQuote` | loader/cJSON.c:406-430 | a bad escape right before the end makes the second pass read the closing quotation mark as text |
| `JsonTheory.ParserIsGrammar` | loader/cJSON.c:1005-1050 | the parser yields a value and an end if and only if the text derives that value up to that end and the nesting is within the limit |
| `JsonTheory.Unambiguous` | loader/cJSON.c:1005-1050 | a text derives one value, and no prefix of it another, however deep |
| `JsonNumber.StrtodIsLongest` | loader/cJSON.c:240-245 | what is converted of a run of number characters is its longest prefix that is a decimal number |
| `JsonRfc.RfcNumberIsWhole` | loader/cJSON.c:209-245 | a number of section 6 of RFC 8259 is converted as a whole |
| `JsonRfc.ParserIsRfc` | loader/cJSON.c:1005-1050 | the texts of the grammar of sections 2 to 7 of RFC 8259, defined on its own with its four white space bytes, without raw control characters and with any four digits in an escape, whose surrogates come in pairs, with numbers of at most 63 bytes and within the nesting limit, are exactly what the parser reads with numbers of section 6, four digits in every escape, no control character in a string and no other white space, and they get their value |
| `JsonRefusal.RfcIsReadIffPaired` | loader/cJSON.c:1005-1050 | a text of that grammar within the limits is read if and only if all surrogates in it come in pairs, and then to its value |
| `JsonRefusal.DeadIsRefused` | loader/cJSON.c:452-455 | "\uDEAD" is a text of that grammar that the parser refuses at every depth |
| `JsonItem.Attach` | loader/cJSON.c:1151-1167 | a new item becomes the last of the list: the pointers run through all items, and its predecessor is its `prev` |
| `JsonItem.Close` | loader/cJSON.c:1180-1190 | the first item gets the last as its `prev`, the parent gets the first as its child, and the children keep their trees |
| `JsonItem.HoldsOne` | loader/cJSON.c:1005-1050 | an item with what is below it, its strings taken with all their bytes, is the tree of one value at most |
| `JsonParser.CopyRun` | loader/cJSON.c:209-240 | the copy of the run of number characters fits its 64 bytes with the terminator |
| `JsonParser.ParseBuffer.SkipWhitespace` | loader/cJSON.c:769-787 | the cursor moves over bytes up to 0x20 and steps back at the end |
| `JsonParser.ParseBuffer.SkipBom` | loader/cJSON.c:790-800 | a byte order mark at the start is skipped |
| `JsonParser.ParseBuffer.ParseNumber` | loader/cJSON.c:198-262 | the longest convertible prefix is consumed, or the value is rejected |
| `JsonParser.ParseBuffer.ParseString` | loader/cJSON.c:533-647 | agrees with the decoder specification, or runs out of memory |
| `JsonParser.ParseBuffer.ParseValue` | loader/cJSON.c:1005-1050 | terminates with the cursor inside the text, agrees with the parser specification, restores the depth on success, and leaves in the item a fresh tree of the value: `next` runs through the children and ends in null, each later `prev` is the one before, and the first is linked to the last |
| `JsonParser.ParseBuffer.ParseArray` | loader/cJSON.c:1118-1200 | the same for arrays |
| `JsonParser.ParseBuffer.ParseObject` | loader/cJSON.c:1256-1355 | the same for objects |
| `JsonParser.DocumentIsParsed` | loader/cJSON.c:820-856 | with mark and white space in front: parsed if and only if derivable within the limit |
| `JsonParser.RfcDocumentIsParsed` | loader/cJSON.c:820-856 | every document of that grammar within the limits whose surrogates come in pairs is parsed to its value, and a parsed one with numbers, escapes, strings and white space of the RFC is such a document |
| `JsonParser.RfcDocumentIsReadIff` | loader/cJSON.c:820-856 | a document of that grammar within the limits is read if and only if all surrogates in it come in pairs |
| `JsonParser.Parse` | loader/cJSON.c:819-887 | the item returned is the tree of a value of which the text is a document; failure other than for memory means that it is a document of no value |
| `StringValidate.Validate` | loader/loader.c:7584-7629 | the result is NONE if and only if the string ends within the limit and matches the lead and continuation byte grammar |
| `StringValidate.AcceptableIff` | loader/loader.c:7584-7629 | such a string is printable ASCII characters and lead bytes with one to three bytes from 0x80 to 0xBF, within the limit, and a zero byte |
| `StringValidate.EscapedTextIsAcceptable` | loader/loader.c:7584-7629 | the UTF-8 text of scalar values other than control characters passes the check when it is short enough |
| `JsonPrinter.PrintBuffer.Ensure` | loader/cJSON.c:275-328 | success leaves room for the bytes and one more and keeps what was written; failure for lack of space means the limit really is exceeded |
| `JsonPrinter.PrintBuffer.UpdateOffset` | loader/cJSON.c:331-339 | the offset moves to the end of the text, wherever in it it stood |
| `JsonPrinter.PrintBuffer.PrintNumber` | loader/cJSON.c:348-400 | the number text and a zero byte, or a failure when it is longer than the buffer for it |
| `JsonPrinter.PrintBuffer.CopyShown` | loader/cJSON.c:709-751 | the escaped copy writes the text without backslashes, inside the reserved space, in zeroed memory |
| `JsonPrinter.PrintBuffer.PrintString` | loader/cJSON.c:650-753 | the string as shown stands in the buffer with a zero byte behind it |
| `JsonPrinter.PrintBuffer.PrintValue` | loader/cJSON.c:1053-1115 | on success exactly the rendering stands behind what was printed, however often the buffer moved, and the depth is restored |
| `JsonPrinter.PrintBuffer.PrintArray` | loader/cJSON.c:1203-1253 | the same for arrays |
| `JsonPrinter.PrintBuffer.PrintObject` | loader/cJSON.c:1358-1451 | the same for objects |
| `JsonPrinter.Print` | loader/cJSON.c:902-952 | the result is the rendering and a zero byte; a plain value fails only for memory or the size limit |
| `JsonPrinter.PrintPreallocated` | loader/cJSON.c:986-1002 | for a plain value it succeeds if and only if the buffer holds the rendering and two more bytes |
| `JsonLayout.LeavesLook` | loader/cJSON.c:1061-1105 | literals are printed by their names, numbers and strings by their bytes up to a zero byte |
| `JsonLayout.ShownIs` | loader/cJSON.c:695-748 | a byte is printed as itself, or with `u` and four digits if it is a control character without a name |
| `JsonLayout.OneShown` | loader/cJSON.c:709-751 | a string of one byte is printed as that byte is shown |
| `JsonLayout.ShownByByte` | loader/cJSON.c:709-751 | longer strings are printed byte by byte |
| `JsonLayout.CStringIs` | loader/cJSON.c:650-664 | a string is read up to its first zero byte |
| `JsonLayout.ReservedFor` | loader/cJSON.c:666-690 | two bytes are reserved for a named escape, six for another control character and one for any other byte |
| `JsonLayout.ArraysLook` | loader/cJSON.c:1203-1253 | a printed array is its items between brackets with commas between them, and a blank behind each in a formatted text |
| `JsonLayout.ObjectsLook` | loader/cJSON.c:1358-1451 | a printed object is its names and values with colons, between braces with commas; formatted, each entry has a line of its own behind as many tabs as it is deep |
| `JsonLayout.PlainIs` | loader/cJSON.c:348-400 | a value is plain when its numbers fit the buffer for them and its strings and names are plain |
| `JsonLayout.PlainStringIs` | loader/cJSON.c:660-690 | a string is plain when it has no control character, quotation mark or backslash |
| `JsonRender.NoZeroIn` | loader/cJSON.c:331-339 | no rendering contains a zero byte, so the length of the text is where it ends |
| `JsonInk.PrintedInk` | loader/cJSON.c:1053-1451 | what is printed has no more bytes above 32 than the mass of the value |
| `JsonInk.ReadInk` | loader/cJSON.c:1005-1355 | a text that is read as a value has its mass in such bytes, and one more for every string and every member |
| `JsonRoundTrip.PrintedIsReadBackIff` | loader/cJSON.c:1053-1451 | what is printed of a value is read back as that value if and only if it holds no string and no member, its numbers are whole texts, and it is within the nesting limit |
| `DebugList.CallbackList.Push` | loader/debug_utils.c:225-241 | a new node in front of the current list |
| `DebugList.CallbackList.PushInstanceOnly` | loader/debug_utils.c:43-65 | a new node in front of the instance-only nodes becomes the current head, and nodes that terminators created leave the list |
| `DebugList.CallbackList.Attach` | loader/trampoline.c:448-465 | whatever the state, all instance-only nodes follow the others afterwards |
| `DebugList.CallbackList.Detach` | loader/trampoline.c:469-483 | only the nodes that terminators created stay reachable |
| `DebugList.CallbackList.Remove` | loader/debug_utils.c:117-133 | the first reachable node with the handle leaves the list, both heads stay right, and nothing else changes |
| `DebugList.CallbackList.Step` | loader/debug_utils.c:43-241 | every operation on the linked nodes does what the specification does on handles |
| `DebugList.NothingElseIsLost` | loader/debug_utils.c:43-133 | over every run, what was created is on the list, hung up, destroyed, or was cut off by a later instance-only creation |
| `DebugList.InstanceOnlyFirst` | loader/debug_utils.c:43-65 | in runs where instance-only callbacks come first nothing is cut off |
| `DebugList.DestroyTakesTheFirst` | loader/debug_utils.c:117-133 | destroying takes exactly the first match out of what a walk sees |
| `DebugList.AttachUndoesDetach` | loader/trampoline.c:448-483 | hanging the instance-only nodes off and on restores the list, in which they are a suffix |
| `Messengers.Instance.constructor` | loader/loader.c:1054-1065 | an instance starts without messengers, slots and arrays |
| `Messengers.Instance.NextSlot` | loader/loader.c:1084-1123 | the slot is the lowest free one, and the list is doubled only when it is full |
| `Messengers.Instance.Prepare` | loader/debug_utils.c:198-210 | one doubling is always enough for the slot, and no handle is disturbed |
| `Messengers.Instance.CallCreate` | loader/debug_utils.c:212-219 | the driver stores its handle inside its array |
| `Messengers.Instance.Create` | loader/debug_utils.c:176-268 | a new messenger gets the lowest free slot, no two live ones share a slot, and a failing call leaves no slot taken |
| `Messengers.Instance.Destroy` | loader/debug_utils.c:271-298 | every driver that creates messengers is handed the very handle it returned for this one, and exactly this slot is free again |
| `LayerChain.Resolve` | loader/loader.c:5052-5128 | the functions of one layer come from its negotiation or its library, whatever the previous layer left behind |
| `LayerChain.BuildInstanceChain` | loader/loader.c:5043-5167 | the records hold exactly the layers that can be used, the last of each name, and what is on record gives device chains the same functions |
| `LayerChain.ChosenIff` | loader/loader.c:5043-5052 | a layer gets a record if and only if it can be used and no later layer of its name can |
| `LayerChain.SecondIsNearest` | loader/loader.c:5133-5140 | the second function a call goes on to is that of the nearest layer below that has one, or the terminator |
| `LayerChain.CallsPassThroughAll` | loader/loader.c:5130-5145 | a call that enters the chain passes through all its layers in list order and ends in the terminator, and each layer's second function is the nearest one below |
| `LayerChain.CheckRequested` | loader/loader.c:5170-5222 | fails if and only if a layer the application named is not in the chain |
| `LayerChain.BuildDeviceChain` | loader/loader.c:5442-5517 | the device chain holds only layers below the calling one, and the function reported to it is the next one down |
| `NormalizePath.CollapseInPlace` | loader/loader.c:519-534 | the first pass in place is the specification of dropping empty and "." components |
| `NormalizePath.ResolveInPlace` | loader/loader.c:538-574 | the second pass and the copy back are the specification of resolving ".." |
| `NormalizePath.Normalize` | loader/loader.c:516-577 | the whole rewrite in place, which never lengthens the path |
| `NormalizePath.NormalIsStackMachine` | loader/loader.c:516-577 | for every path the two passes equal a stack machine over components that keeps the last one verbatim |
| `NormalizePath.NormalIsIdempotent` | loader/loader.c:516-577 | normalizing again changes nothing |
| `NormalizePath.AbsoluteAfterwards` | loader/loader.c:547-566 | the result is absolute if and only if the path was or a ".." underflows |
| `NormalizePath.RelativeBecomesAbsolute` | loader/loader.c:547-566 | "a/../b" becomes "/b" |
| `WindowsSort.IsLayered` | loader/loader_windows.c:812-836 | a driver is layered when the first of its devices that says anything says so |
| `WindowsSort.SortWithSameLuid` | loader/loader_windows.c:791-842 | a permutation in which no adapter moves and for each adapter native drivers come before layered ones |
| `WindowsGroups.SortDevicesInGroup` | loader/loader_windows.c:954-975 | a permutation of the group that begins with the listed devices in list order, with their multiplicities |
| `WindowsGroups.PickedCounts` | loader/loader_windows.c:954-975 | each listed device leads as often as it is both listed and in the group |
| `WindowsGroups.PickedInOrder` | loader/loader_windows.c:954-975 | what is listed first leads first |
| `WindowsGroups.SortGroups` | loader/loader_windows.c:977-1019 | the groups keep their devices; those with listed devices come first in the order of their earliest, and the others hold none, if and only if no two groups have the same earliest listed device |
| `WindowsGroups.DisjointHaveDistinctRanks` | loader/loader_windows.c:992-1017 | when each device is in one group no two groups have the same earliest |
| `WindowsGroups.SharedDeviceBreaksOrder` | loader/loader_windows.c:992-1017 | the run on two groups with the same one device leaves them without that order |
| `LinuxOrder.CompareIsLex` | loader/loader_linux.c:77-135 | unless both are default devices the comparison is the lexicographic one of eight keys |
| `LinuxOrder.TypeDecides` | loader/loader_linux.c:40-56 | among devices that are not default discrete comes before integrated, then virtual, other, CPU and unknown ones |
| `LinuxOrder.NumbersDecideLast` | loader/loader_linux.c:126-134 | with the same type and bus the mixed device and vendor numbers decide |
| `LinuxOrder.ExclusiveCancels` | loader/loader_linux.c:126-134 | the numbers are mixed bit by bit, exclusively |
| `LinuxOrder.AntisymmetricIff` | loader/loader_linux.c:77-135 | the comparison is antisymmetric on a pair if and only if not both are default devices |
| `LinuxOrder.NeighboursSuffice` | loader/loader_linux.c:77-135 | with at most one default device the order is transitive: sorted neighbours make a sorted list |
| `LinuxOrder.SortedOrderIsUnique` | loader/loader_linux.c:77-135 | with at most one default device all sorted permutations have the same keys in the same order, and the default device leads |
| `LinuxOrder.GroupsAntisymmetricIff` | loader/loader_linux.c:144-206 | the comparison of groups contradicts itself exactly on groups that both lead with a default device |
| `LinuxOrder.MarkDefault` | loader/loader_linux.c:209-234 | the first device of the selected kind becomes the default, and at most one is |
| `DeviceExtensions.Fill` | loader/loader.c:7497-7532 | incomplete if and only if the buffer is too small for all extensions, and then filled with as many as fit; a failing driver is reported and nothing is written |
| `DeviceExtensions.AddToList` | loader/loader.c:1134-1171 | an extension is appended unless its name is there, within the capacity |
| `DeviceExtensions.Count` | loader/loader.c:7535-7581 | the reported count is the number without duplicates, and a failing driver is reported |
| `DeviceExtensions.CountThenFill` | loader/loader.c:7497-7581 | a buffer of the reported count is filled exactly |
| `DeviceExtensions.LayersInOrder` | loader/loader.c:7507-7528 | the driver's extensions come first, and each layer's behind those of the layers before it |
| `DeviceExtensions.NothingTwice` | loader/loader.c:7507-7528 | no name is reported twice unless the driver does, and every implicit layer's extension is reported |

## Left out

- File, registry, DXGI, library loading, logging, mutexes and the reading of environment variables: only their results appear, as parameters.
- Layer selection by a settings file, the override layer's own rules, and surfaces.
- Environment: `loader_layer_is_available`, `loader_implicit_layer_is_enabled` and the filter match are given functions of a layer in the activation modules; `Filters` stands on its own, and the variable that disables layers, with its special words, is not modelled.
- MetaPass.VerifyAllMetaLayers: does not model the extension lists that the pass updates for override layers, nor its return code, which is a truth value in a result type.
- MetaCycles.AcyclicAfterRemovals: asks that no meta-layer shares its name; `MetaCycles.AcyclicForeverIff` has the exact condition on the list that the pass leaves, and `MetaCycles.DuplicateHidesCycle` a list on which it fails.
- MetaScan.ScanAndEnable: the deletions between the pass and duplicate removal are given indices; which layers are disabled or outside the implicit meta-layers is not modelled, and neither is the merge with layers of the settings file.
- MetaExpand.Activation.AddPlain: does not model `enabled_by_what`, which is written into the layer record for logging.
- Filters.FilterIsAsDocumentedIff: is about tokens that fit the buffer of a filter and do not start with a tilde; longer ones are cut, and the others are special words.
- PhysicalDevices.Instance.SetupTrampolines: asks for distinct handles; the wrappers' dispatch tables and magic numbers are not modelled.
- TermDevices.Instance.Setup: is the unsorted path; the devices that sorted enumeration puts in front and the Linux sort are not modelled here, and neither is the list of preloaded drivers that unloading also edits.
- JsonItem.HoldsOne: takes a string with its length; the source keeps a pointer without one, so that its readers see a string only up to its first zero byte, be it raw or written as an escape.
- JsonParser.ParseBuffer.ParseValue: the items of a value that fails to parse are dropped and not freed one by one, and the printer works on values instead of items.
- JsonParser.ParseBuffer.ParseNumber: a number is the text that `strtod` converts, by the grammar of decimal numbers; floating-point values are not modelled.
- JsonParser.CopyRun: takes the decimal point of the locale to be a full stop.
- JsonPrinter.PrintBuffer.PrintNumber: prints a given text; `snprintf` and the comparison of floating-point numbers are not modelled.
- JsonPrinter.Print: asks for a plain value or a memory that is zeroed when it grows, because the escaped copy ends where the memory happens to hold a zero byte.
- StringValidate.Validate: does not say which error bits are set when the result is not NONE, and leaves out the null pointer.
- Messengers.Instance.Create: does not model the calls into drivers that undo a failed creation, which may read entries that were never written or are stale; allocation callbacks are not recorded.
- Messengers.Instance.Destroy: asks for a messenger that is alive, as the interface does.
- Capacities count elements and not bytes, and integers do not wrap.
- LayerChain.BuildInstanceChain: starts from layers whose functions have not been looked up yet; logging and the library paths are not modelled.
- NormalizePath.Normalize: the branches that ask the operating system are not modelled.
- WindowsGroups.SortGroups: a null array of groups is not modelled.
- LinuxOrder.SortedOrderIsUnique: `qsort` itself is any permutation that is sorted by the comparison; reading the device properties is not modelled.
- DeviceExtensions.Fill: the driver is one that always reports the same extensions or always fails.
- The enumeration of device groups through the terminators, whose counting loop need not end when a driver fails.
