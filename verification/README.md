# The JSON layer and the framing of the agent, modelled and verified

The monitoring agent carries cJSON with it. This project models the two files that
do the work, `libs/cjson/cJSON_Utils.c` (JSON Pointer, JSON Patch, JSON Merge Patch:
RFC 6901, RFC 6902, RFC 7396) and `libs/cjson/cJSON.c` (parser, printer, minifier,
child lists: RFC 8259), and the 7-byte framing in `src/xcommon.c`.

A JSON tree is a value of the datatype `Json`. Objects are sequences of members, so
member order and duplicate keys are visible. `Meaning(v, cs)` forgets what equality
is meant to forget: an object becomes a map from keys, folded to lower case when `cs`
is false. A tree is `Tidy` when no object has two keys that are equal in that sense.
Theorems about equality "up to member order and key case" are about `Meaning`.

Code that changes things step by step is modelled the same way: the printer and the
parser are classes with a buffer and an offset, `cJSON_Minify` is a walk of two
indices over one array, child lists and `sort_list` are linked nodes on the heap, and
string decoding writes into an array of the computed size. Each method is tied to a
function on values, and the theorems are about these functions. All lemmas are proved
without Dafny's automatic induction.

The modules, from the ground up:

- `CStrings`, `Json`: strings, the comparison of keys, trees and their meaning.
- `SortMembers`, `SortList`, `ItemList`: the merge sort as a function and on nodes,
  and the editing of child lists.
- `CompareJson`, `Heads`: equality by sorting both sides, and when that moves the head of
  a child list.
- `Pointers`, `PointerSearch`, `Paths`: pointer tokens, lookup, search.
- `ApplyPatch`, `PatchEffects`, `PatchOperations`, `PatchDecides`, `PatchStatuses`: the
  patch interpreter, what each operation does to the meaning of a document, when it does,
  and the status of every patch whose paths lead nowhere.
- `PatchDiff`, `PatchContents`, `PatchTargets`, `PatchRoundTrip`: the generator, which
  patches it generates, what each of them is meant to do, and the round trip through
  generator and interpreter.
- `PatchReach`, `PatchExact`, `PatchCaseSensitive`: how exact the condition of the round
  trip is, and the case-sensitive variants.
- `MergePatch`, `MergeRoundTrip`: merge patches both ways, and when one comes out right.
- `JsonText`, `Layout`, `PrintBuffer`: the text of an item, the layout that formatting
  gives it, and the printer.
- `Utf8`, `ParseString`, `Parser`, `TextRoundTrip`: the parser, and parsing what was
  printed.
- `StringGrammar`, `NumberGrammar`, `Grammar`: syntax trees with every blank, escape and
  digit of a text, and the proof that the parser accepts the texts of these trees and no
  others, with the values that they denote.
- `Minify`, `MinifyLiterals`, `MinifyParse`: the minifier, what it makes of each piece of
  a text, minifying what was printed, and parsing what was minified.
- `PrintThenParse`: printer, minifier and parser one after the other, as they run.
- `Framing`: packing, sending, receiving and handling a message.

## Where the code departs from its intent

The model follows the code. These departures are stated as lemmas:

- The array branch of the pointer walk does not step over its token
  (libs/cjson/cJSON_Utils.c:264-273), so a walk ends at its first array step
  (`PatchReach.WalkStops`). Patches for differences further down land on the wrong
  node. `PatchReach.ReachIsExact` shows that the condition of the patch round trip,
  `WithinReach`, holds if and only if every generated patch can be followed.
  In words, `WithinReach` asks that two documents differ only above arrays, in whole
  array elements, or in the members or elements of these; containers further down that
  meet must be equal. If the arrays of the first hold only scalars, any
  second is within reach (`PatchReach.FlatArraysWithinReach`).
  `PatchReach.DeepDifferenceIsLost` is a family of documents that come out wrong with
  status 0. A patch that is meant to change the document and cannot be
  followed never has its intended effect (`PatchExact.Unfollowed`), so every single patch
  of a run has it if and only if the documents are within reach
  (`PatchExact.RightRunIffWithinReach`). Misdirected
  patches may still add up to the right document (`PatchReach.MissesMayCancel`).
- Adding below a scalar reports success and changes nothing, and a move to a place below
  a scalar loses its item with status 0 (`PatchDecides.AddDecides`,
  `PatchDecides.MoveDecides`).
- A pointer takes the name of a member for an index where it meets an array, so a path that
  is not there may still lead somewhere (`PatchStatuses.NameLeadsToElement`).
  `PatchStatuses.ResolvesIff` says exactly when it does, and `ReachesWhatIsThere` that it
  leads to what is there, and nowhere else, on a path that names members where it meets
  objects and ends with the index where it meets an array.
- The parser takes more than RFC 8259 allows: every character up to the blank as a
  blank, numbers such as `01`, `1.` and `-.5`, and, in a literal, control characters as
  they stand and any four characters behind `\u`; four that are not all hexadecimal
  digits stand for a NUL, where the text of the item then ends. `Grammar.TextIsParsed`
  and `Grammar.AcceptedHasTree` say exactly what it takes, and
  `Grammar.LegalTextIsParsed` that every text of the RFC with numbers of at most 63
  characters is among it.
- Escaping a key writes `~1` for `~`, and of the escape for `/` only the `1`. It is
  right over every content of the fresh memory if and only if the key has neither
  (`PointerSearch.EncodedAlwaysRightIff`). What is escaped is decoded in place to the
  same key if and only if the key has no `~` but at its end
  (`PointerSearch.KeySurvivesIff`). Undoing the escapes in place misplaces characters
  (`PointerSearch.DecodedMisplaces`); it is right if and only if no escape is `~1` and
  every ordinary character equals the one as many places back as escapes precede it
  (`PointerSearch.DecodedIsRightIff`).
- A token is taken for an array index if and only if it is canonical, or empty, or
  starts with a digit other than 0 and has no character below `0`
  (`Pointers.IndexAcceptance`). The token `1a` stands for 59
  (`Pointers.IndexAcceptsLetters`).
- `sort_list` merges case-insensitively whatever its flag says, so with the flag set it
  need not reach one canonical order (`SortMembers.CaseSensitiveSortIsNotCanonical`). It
  does if and only if byte order and folded order rank every pair of keys alike, or there
  are just two keys and they differ in case alone
  (`SortMembers.CaseSensitiveSortIsCanonicalIff`).
- After a sort the head keeps its old predecessor pointer; the list is well-formed again
  if and only if it has kept its head (`SortList.SortObject`). Detaching a node leaves the
  rest of the list if and only if the node is not the head, or what the head takes for its
  predecessor is not behind it (`ItemList.Container.DetachViaPointer`). Sorting two members
  and detaching the new head leaves a node that is its own successor
  (`SortList.SortThenDetach`). So the results about applying patches are about documents
  whose child lists are well-formed. The first document itself is not one after patches
  have been generated from it, if the generation has moved a head, and neither is a
  document after a `test` that has moved one (`ApplyPatch.HeadsKept`).
- `generate_merge_patch` walks lists sorted case-insensitively with `strcmp`. A key may be
  met on both sides at once, or passed on one side first; if it is passed in the second
  document first, it is set and then removed. `MergeRoundTrip.MergePatchRoundTrip` gives
  the exact condition for all tidy documents, `MergePatch.CapitalsOutOfStep` and
  `MergeRoundTrip.OutOfStepMayCarry` an example of failure and of success by luck. Two
  equal objects get a patch if and only if a common key is spelled in two ways.
- A `replace` without a value, or a failing `move`, loses the item it had detached
  (`PatchOperations.FailureMayLoseItem`).
- The minifier lets the star of `/*` close the comment if a slash follows it
  (`Minify.CommentFoundIff`, `Minify.OpeningStarCloses`, `Minify.ShortComment`). Minifying
  twice may remove more than minifying once (`Minify.MinifyIsNotIdempotent`), if and only
  if what is left has a comment in it (`Minify.MinifyTwiceIff`), which it has not for a
  text that the parser accepts (`MinifyParse.MinifyKeepsMeaning`). A text that the parser
  refuses can be minified into one that it accepts (`MinifyParse.MinifyAcceptsMore`).
- `read_response` reads the size field after its first `recv`, even if that has not
  delivered it (`Framing.ShortFirstPiece`), and the sum of head and payload size
  overflows an int for payloads above 0x7FFFFFF8, so that such a frame arrives only if
  its first piece is all of it (`Framing.FrameArrives`).

## Model

| member | source | states |
|---|---|---|
| PatchRoundTrip.PatchRoundTrip | libs/cjson/cJSON_Utils.c:963-1205 | Applying the patches generated from one tidy document to another, to any document with well-formed child lists that is equal to the first (so not to the first itself, which the generation has sorted), succeeds and gives a document equal to the second, up to member order and key case, when no key has `~` or `/` and no difference is out of reach below an array; every patch has its intended effect, and no head is moved on the way. |
| PatchExact.RightRunIffWithinReach | libs/cjson/cJSON_Utils.c:747-1205 | For such documents, every patch of the run has the effect that section 4 of RFC 6902 gives it at its target if and only if no difference is out of reach. |
| PatchExact.Unfollowed | libs/cjson/cJSON_Utils.c:257-305 | A patch whose path goes on below an array element never changes the document as it was meant to, whatever the document, the operation and the value. |
| PatchCaseSensitive.PatchRoundTripCaseSensitive | libs/cjson/cJSON_Utils.c:992-1019 | Without capital letters in the keys the round trip holds for the case-sensitive generator and interpreter, too. |
| PatchRoundTrip.DiffTurns | libs/cjson/cJSON_Utils.c:1059-1197 | The patches generated for a part of a document, applied one after the other to the whole document, turn exactly that part into the new one, whatever stands around it, each with its intended effect. |
| PatchRoundTrip.ItemsTurn | libs/cjson/cJSON_Utils.c:1088-1131 | In the middle of an array walk the remaining patches replace, remove always at the same index, or append at `-`, and leave the new array. |
| PatchRoundTrip.MembersTurn | libs/cjson/cJSON_Utils.c:1133-1191 | In the middle of the merge walk over two sorted objects the remaining patches settle the remaining keys and leave the others alone. |
| PatchRoundTrip.NoPatchesIffAlike | libs/cjson/cJSON_Utils.c:1059-1197 | No patch is generated if and only if `compare_json` calls the documents equal. |
| PatchRoundTrip.NoTestsKeepHeads | libs/cjson/cJSON_Utils.c:963-990 | A run without tests sorts nothing, so it keeps the child lists well-formed. |
| PatchReach.ReachIsExact | libs/cjson/cJSON_Utils.c:257-295 | The condition of the round trip holds if and only if every generated patch has a path whose parent the pointer walk follows to its end; the paths are those of the targets, in order. |
| PatchReach.FlatArraysWithinReach | libs/cjson/cJSON_Utils.c:1088-1131 | Any document is within reach of one whose arrays hold only scalars. |
| PatchReach.WalkStops | libs/cjson/cJSON_Utils.c:264-273 | A pointer resolves to the node behind its first array step, whatever follows it. |
| PatchReach.ReplacesTooHigh | libs/cjson/cJSON_Utils.c:747-961 | A replacement addressed two levels below an array element changes the element's own child of that index and reports success. |
| PatchReach.DeepDifferenceIsLost | libs/cjson/cJSON_Utils.c:747-961 | Two texts that differ three arrays deep: the one generated patch is applied with status 0 and the result is not the second document. |
| PatchReach.MissesMayCancel | libs/cjson/cJSON_Utils.c:747-961 | Documents out of reach whose two misdirected patches give the right result. |
| PatchDiff.GeneratePatches | libs/cjson/cJSON_Utils.c:1199-1213 | The generated array holds the patches of the function that the round trip is about. |
| PatchContents.ObjectPatches | libs/cjson/cJSON_Utils.c:1133-1191 | In either mode, for objects whose sorted keys ascend in it, the list holds exactly the patches between members of one name, a removal for each name that only the first has, and an addition for each that only the second has. |
| PatchContents.ArrayPatches | libs/cjson/cJSON_Utils.c:1088-1131 | In either mode, the list for two arrays holds exactly the patches between elements of one index, a removal at the length of the second if that is shorter, and an addition at `-` for each element that only the second has. |
| PatchDiff.PatchMembers | libs/cjson/cJSON_Utils.c:1021-1052 | A patch object has the members op, path and, if there is one, value, in this order. |
| PatchDiff.PatchList.CreatePatches | libs/cjson/cJSON_Utils.c:1059-1197 | Appends exactly the patches of the two items to the array. |
| PatchDiff.PatchList.CreateItemPatches | libs/cjson/cJSON_Utils.c:1088-1131 | Appends the patches of two arrays: common elements, then removals, then additions. |
| PatchDiff.PatchList.RemoveLeftover | libs/cjson/cJSON_Utils.c:1110-1122 | Appends a removal at the same index for every element that is left over. |
| PatchDiff.PatchList.AddLeftover | libs/cjson/cJSON_Utils.c:1123-1128 | Appends an addition at the end for every element that is missing. |
| PatchDiff.PatchList.CreateMemberPatches | libs/cjson/cJSON_Utils.c:1133-1191 | Appends the patches of two sorted member lists. |
| PatchDiff.PatchList.ComposePatch | libs/cjson/cJSON_Utils.c:1021-1052 | Appends one patch object with operation, path with encoded suffix, and value if there is one. |
| PatchEffects.RemoveApplied | libs/cjson/cJSON_Utils.c:827-843 | A remove patch takes the named child out and changes nothing else. |
| PatchEffects.AddApplied | libs/cjson/cJSON_Utils.c:881-948 | An add patch sets a member, inserts an element or appends one at `-`, and changes nothing else. |
| PatchEffects.ReplaceApplied | libs/cjson/cJSON_Utils.c:778-948 | A replace patch, done as detaching and adding, sets exactly the part its path names; the root, too. |
| PatchOperations.TestDecides | libs/cjson/cJSON_Utils.c:771-776 | A test patch has status 0 if and only if the part its path names means the same as its value; it may reorder members, which leaves the meaning of the document as it is. |
| PatchOperations.CopyApplied | libs/cjson/cJSON_Utils.c:845-948 | A copy patch adds what its other path names. |
| PatchOperations.MoveApplied | libs/cjson/cJSON_Utils.c:845-948 | A move patch removes what its other path names and adds it to what is left. |
| PatchOperations.FailureMayLoseItem | libs/cjson/cJSON_Utils.c:747-961 | A patch other than a test that fails has changed the document if and only if it is a replace or move that has detached an item; then the document is the one without that item. |
| PatchDecides.AddDecides | libs/cjson/cJSON_Utils.c:899-948 | An add patch at a parent that is there has status 0 if and only if that is an object, an array with that place, or a scalar, and else 10 or 11; a scalar, and with it the document, stays as it is. |
| PatchDecides.RemoveDecides | libs/cjson/cJSON_Utils.c:375-426 | A remove patch at a parent that is there has status 0 if and only if the child is there, and else 13 and no effect. |
| PatchDecides.MoveDecides | libs/cjson/cJSON_Utils.c:845-948 | A move of an item that is there has status 0 if and only if the item can be added to what is left or the target is a scalar; then the item is lost. |
| PatchDecides.AddedWhereApplicable | libs/cjson/cJSON_Utils.c:907-945 | For the tokens that section 4.1 of RFC 6902 has for a container, adding succeeds exactly where it is applicable, and below a scalar. |
| PatchOperations.FailingTestKeepsMeaning | libs/cjson/cJSON_Utils.c:771-776 | A test patch of any form changes nothing that a tidy document means, in either mode. |
| PatchStatuses.ResolvesIff | libs/cjson/cJSON_Utils.c:257-305 | In a tidy document, in either case mode, the pointer of a path without `~` and `/` leads somewhere if and only if the walk over the meaning does: by the member of that name in an object, and in an array by what the token is read as, which ends the walk unless the token is empty; and it leads to the part that the walk ends at. |
| PatchStatuses.ReachesWhatIsThere | libs/cjson/cJSON_Utils.c:257-305 | On a path that names members where it meets objects and indices where it meets arrays, with at most one index, at the end, that walk leads somewhere if and only if the path is there, and then to that part. |
| PatchStatuses.NameLeadsToElement | libs/cjson/cJSON_Utils.c:264-273 | A path by the name 0 is not there in an array, and leads to its first element. |
| PatchStatuses.MalformedStatus | libs/cjson/cJSON_Utils.c:757-770 | Without a path that is a string a patch has status 2, and without one of the six operations, spelled out, status 3; the document stays as it is. |
| PatchStatuses.TestStatus | libs/cjson/cJSON_Utils.c:771-776 | A test without a value, or of a path that leads nowhere, has status 1 and leaves the document as it is. Else status 0 means that the part reached equals the value, and in the case-insensitive mode has to be given if it does. In neither mode does the document change its meaning. |
| PatchStatuses.AddPatchStatus | libs/cjson/cJSON_Utils.c:881-948 | An add patch has status 7 without a value, else 9 if its parent is nowhere, 10 or 11 if that is an array without such a place, and 0 otherwise; a failing one leaves the document as it is. |
| PatchStatuses.RemovePatchStatus | libs/cjson/cJSON_Utils.c:827-889 | A remove or replace patch has status 13 and no effect if its parent is nowhere or has no such child; otherwise a removal has status 0, and a replacement without a value status 7. |
| PatchStatuses.CopyPatchStatus | libs/cjson/cJSON_Utils.c:845-948 | A copy patch has status 4 without a source path, 5 if that leads nowhere, and else the status of the addition; a failing one leaves the document as it is. |
| PatchStatuses.MovePatchStatus | libs/cjson/cJSON_Utils.c:845-869 | A move patch has status 4 without a source path, and 5 if there is nothing to detach; the document stays as it is. |
| PatchStatuses.MovedStatus | libs/cjson/cJSON_Utils.c:856-948 | A move of something that is there has the status of the addition to the document without it, and if that fails, that document is what is left. |
| PatchStatuses.SlashlessStatus | libs/cjson/cJSON_Utils.c:902-917 | With a path that is not empty and has no slash, an addition has status 9, and a removal or replacement 13; the document stays as it is. |
| PatchStatuses.RootStatus | libs/cjson/cJSON_Utils.c:778-825 | At the root an add or replace patch puts its value in the place of the whole document, or has status 7 without one, and a removal leaves an invalid item. |
| PatchStatuses.FieldIsLookup | libs/cjson/cJSON_Utils.c:670-680 | A field of a patch is what the patch object, as a map, has under that name in the case mode. |
| ApplyPatch.MemberGoesLast | libs/cjson/cJSON_Utils.c:943-948 | Adding to an object puts the member last and keeps the others in order, without the first that had its name in whatever case. |
| Heads.HeadsKeptIff | libs/cjson/cJSON_Utils.c:771-776 | A patch on a tidy document moves a head if and only if it is a test after which some object of the compared part has another head than before. |
| Heads.RunKeepsHeadsIff | libs/cjson/cJSON_Utils.c:963-990 | A run keeps the heads if and only if every patch that it comes past, but perhaps the last, does. |
| ApplyPatch.Document.ApplyPatches | libs/cjson/cJSON_Utils.c:963-1019 | Patches are applied in order up to the first failure, whose status is returned, as long as no test before the last patch moves the head of a list; anything but an array has status 1 and changes nothing. |
| ApplyPatch.Document.ApplyPatch | libs/cjson/cJSON_Utils.c:747-961 | Status and document after one patch object of any form, in every branch, for a document whose lists are well-formed; they still are unless a test has moved the head of one. A test leaves the objects it has visited sorted. |
| ApplyPatch.Document.AddAtPath | libs/cjson/cJSON_Utils.c:899-948 | Adding at a path: status 0, 9, 10 or 11, and the document. |
| ApplyPatch.Document.DetachPath | libs/cjson/cJSON_Utils.c:375-426 | Detaching at a path in a document with well-formed lists returns the item and takes it out, or changes nothing. |
| ApplyPatch.Document.Overwrite | libs/cjson/cJSON_Utils.c:724-745 | The new node is at the position, and every position neither at, above nor below it has the node it had before. |
| ApplyPatch.PutElsewhere | libs/cjson/cJSON_Utils.c:724-745 | Putting a node changes nothing aside from its position, neither nodes nor which positions there are. |
| ApplyPatch.AppliedAllConcat | libs/cjson/cJSON_Utils.c:963-990 | Applying two lists of patches one after the other is applying their concatenation, when the first succeeds. |
| MergeRoundTrip.MergePatchRoundTrip | libs/cjson/cJSON_Utils.c:1225-1375 | For all tidy documents: no merge patch is generated if and only if both are equal objects with every common key spelled alike; otherwise merging it into a document with well-formed lists equal to the first (so not the first itself, which the generation has sorted) gives one equal to the second if and only if no key of the second is passed there first, every key passed in the first first or absent from it has a value without null members and other than null, and every key met on both sides is equal or comes out right in its turn. |
| MergeRoundTrip.WalkTracks | libs/cjson/cJSON_Utils.c:1312-1366 | What merging the generated members does to one key is told by its fate in the walk: untouched, removed, set, removed and set, set and removed, or compared. |
| MergeRoundTrip.GeneratedCarries | libs/cjson/cJSON_Utils.c:1294-1370 | The generated patch brings about the second document if and only if every key of it arrives. |
| MergeRoundTrip.NothingToSend | libs/cjson/cJSON_Utils.c:1366-1370 | No members are generated for two objects if and only if they are equal and spell their common keys alike. |
| MergeRoundTrip.CarriesInStep | libs/cjson/cJSON_Utils.c:1312-1366 | If both orders rank the keys alike, only null members can be in the way. |
| MergeRoundTrip.OutOfStepMayCarry | libs/cjson/cJSON_Utils.c:1322 | From `{B}` to `{a, B}` the walk is out of step, B is removed and set again, and the patch is right. |
| MergePatch.MergeDiffMeaning | libs/cjson/cJSON_Utils.c:1294-1370 | When both orders rank the keys alike, the merge walk generates, as a map, null for a key that goes, the new value for a key that comes, and a nested difference for a key that changes. |
| MergePatch.DiffThenMerge | libs/cjson/cJSON_Utils.c:1225-1282 | On maps: merging the difference of two values into the first gives the second if and only if the second has no null member where one would have to be set. |
| MergePatch.NullMeansAlike | libs/cjson/cJSON_Utils.c:1348-1355 | A nested call returns NULL only for items that `compare_json` calls equal, so no null pointer is added to a patch. |
| MergePatch.GenerateMergePatch | libs/cjson/cJSON_Utils.c:1294-1375 | The generator returns the patch that the round trip is about, or none; up to the order of members in the values that it duplicates. |
| MergePatch.LowercaseInStep | libs/cjson/cJSON_Utils.c:1322 | Documents without capital letters in the keys of their objects are in step. |
| MergePatch.CapitalsOutOfStep | libs/cjson/cJSON_Utils.c:1322 | From `{a, B}` to `{B}` the patch sets B and then deletes it, so merging gives an empty object. |
| MergePatch.MergedIsRfc | libs/cjson/cJSON_Utils.c:1225-1292 | `merge_patch` computes, as a map, the function of section 2 of RFC 7396, in both case modes, on trees with distinct keys. |
| MergePatch.MergedOrder | libs/cjson/cJSON_Utils.c:1225-1282 | What a patch does not name stays in front, in order and as it is; the keys that it sets come behind, in its order. |
| MergePatch.MergePatchTwice | libs/cjson/cJSON_Utils.c:1225-1282 | Merging the same patch twice is merging it once. |
| MergePatch.MergePatch | libs/cjson/cJSON_Utils.c:1225-1282 | The loop over the members of the patch gives the tree that the theorems are about. |
| CompareJson.AlikeIsEqualMeaning | libs/cjson/cJSON_Utils.c:544-630 | Case-insensitively, two tidy trees compare equal if and only if they are equal up to member order and key case. |
| CompareJson.CompareJson | libs/cjson/cJSON_Utils.c:544-630 | The loops over sorted members and over elements decide that relation, and leave both items sorted as far as they have looked. |
| CompareJson.ComparedKeepsMeaning | libs/cjson/cJSON_Utils.c:544-630 | Comparing changes nothing that an item means, in either mode. |
| CompareJson.AlikeMeansEqual | libs/cjson/cJSON_Utils.c:544-630 | In either mode, tidy items that compare equal have the same meaning in it. |
| CompareJson.ComparedItemsAre | libs/cjson/cJSON_Utils.c:575-592 | Elements are compared, and by that sorted, up to the first difference; those behind it are as they were. |
| CompareJson.ComparedObjectIsSorted | libs/cjson/cJSON_Utils.c:595-597 | An object that has been compared with another has its members in sorted order. |
| Heads.HeadsStayIff | libs/cjson/cJSON_Utils.c:544-630 | For a tidy item, a comparison keeps all heads in place if and only if afterwards every object at every level has the head that it had before. |
| SortMembers.SortPermutes | libs/cjson/cJSON_Utils.c:429-537 | Sorting permutes the members. |
| SortMembers.SortAscends | libs/cjson/cJSON_Utils.c:429-537 | Case-insensitive sorting leaves the members in ascending order of folded keys. |
| SortMembers.RankedIsCanonical | libs/cjson/cJSON_Utils.c:429-542 | Two strictly ascending member lists that mean the same are equal position by position. |
| SortMembers.SortKeepsMeaning | libs/cjson/cJSON_Utils.c:539-542 | Sorting an object changes nothing that it means, in either mode. |
| SortMembers.SortFlagIrrelevant | libs/cjson/cJSON_Utils.c:443-482 | If byte order and folded order rank the keys alike, as they do without capital letters, both modes sort alike. |
| SortMembers.CaseSensitiveSortIsCanonicalIff | libs/cjson/cJSON_Utils.c:429-537 | With the case flag set, all orders of members with distinct keys sort to one list if and only if byte order and folded order rank every pair of keys alike, or there are two members and their keys differ in case alone. |
| SortMembers.CaseSensitiveSortIsNotCanonical | libs/cjson/cJSON_Utils.c:443-482 | With the case flag set, both orders of the members B and a stay as they are, so equal objects need not meet. |
| SortList.SortList | libs/cjson/cJSON_Utils.c:429-537 | Relinking a chain gives a chain of the same nodes, none lost or doubled, whose members are the sorted members, with every predecessor right except that of the head, which is what it was. |
| SortList.SortObject | libs/cjson/cJSON_Utils.c:539-542 | The children of an object are sorted in place; the list is well-formed afterwards if and only if it has kept its head. A new head has its old predecessor behind it. |
| SortList.SortThenDetach | libs/cjson/cJSON.c:1834-1862 | Two members that a sort swaps, and the detachment of the new head: the one that is left is its own successor and predecessor. |
| SortList.MergeLists | libs/cjson/cJSON_Utils.c:478-536 | Two chains are merged into one by relinking. |
| SortList.FindMiddle | libs/cjson/cJSON_Utils.c:454-466 | The slow one of two pointers stops at the middle node. |
| SortList.Split | libs/cjson/cJSON_Utils.c:467-471 | Cutting in front of the middle leaves two chains. |
| SortList.IsSorted | libs/cjson/cJSON_Utils.c:443-452 | The scan decides whether the keys ascend strictly in the order of the flag. |
| ItemList.Container.AddItem | libs/cjson/cJSON.c:1763-1788 | Appends an unlinked node; the list stays well-formed. |
| ItemList.Container.InsertItem | libs/cjson/cJSON_Utils.c:633-668 | Inserts at an index up to the length, and refuses any other. |
| ItemList.Container.InsertItemInArray | libs/cjson/cJSON.c:1904-1931 | Inserts at an index, appends for an index behind the end, and ignores a negative one. |
| ItemList.Container.DetachViaPointer | libs/cjson/cJSON.c:1834-1862 | Removes one node and unlinks it. What is left is a list, if and only if the node is not the head or the predecessor that the head keeps is not behind it; a well-formed list stays well-formed. |
| ItemList.Container.DetachItem | libs/cjson/cJSON_Utils.c:342-372 | Removes the node at an index, or does nothing behind the end. |
| ItemList.Container.ReplaceViaPointer | libs/cjson/cJSON.c:1933-1966 | Puts another node in the place of one and unlinks that, or does nothing if they are the same; the result is a list under the same exact condition on the head. |
| CStrings.CompareStrings | libs/cjson/cJSON_Utils.c:54-80 | Compares two keys by the lexicographic order of their folded or plain characters. |
| CStrings.OrderTrans | libs/cjson/cJSON_Utils.c:54-80 | That order is transitive, strictly so if one step is strict. |
| CStrings.OrderZero | libs/cjson/cJSON_Utils.c:54-80 | It is zero only for equal keys. |
| CStrings.FirstDifference | libs/cjson/cJSON_Utils.c:54-80 | The first difference decides the order, and a string comes before those that it starts. |
| Pointers.ComparePointers | libs/cjson/cJSON_Utils.c:83-117 | True exactly if the first token of the pointer has only valid escapes and unescapes, as in section 4 of RFC 6901, to the name, folded or not. |
| Pointers.IndexAcceptance | libs/cjson/cJSON_Utils.c:230-255 | Exactly which tokens are taken for array indices, and the value of each, modulo the size type. |
| Pointers.IndexOfDecimal | libs/cjson/cJSON_Utils.c:230-255 | A printed index is read back, whatever token follows. |
| Pointers.IndexAcceptsLetters | libs/cjson/cJSON_Utils.c:241-245 | The token 1a is read as 59. |
| Pointers.DecodeArrayIndex | libs/cjson/cJSON_Utils.c:230-255 | The digit loop and the checks around it compute the index described above, or none. |
| Pointers.GetItemFromPointer | libs/cjson/cJSON_Utils.c:257-305 | The walk finds the position that the pointer resolves to, or none. |
| PointerSearch.FindThenResolve | libs/cjson/cJSON_Utils.c:160-305 | Resolving the pointer found for a node leads back to it if and only if nothing follows an array step and, at every object step, the key has no `~` and no earlier sibling matches it. |
| PointerSearch.FindPointerFromObjectTo | libs/cjson/cJSON_Utils.c:160-215 | The search finds a target exactly if it lies in the tree, and returns the text of the path to it. |
| PointerSearch.EncodedIsRightIffPlain | libs/cjson/cJSON_Utils.c:136-158 | For a key without `/`, the encoding is that of section 3 of RFC 6901, and is undone by unescaping, if and only if the key has no `~`. |
| PointerSearch.EncodedAlwaysRightIff | libs/cjson/cJSON_Utils.c:136-158 | The encoding is that of the RFC over every content of the memory it is written to if and only if the key has neither `~` nor `/`. |
| PointerSearch.EncodedOverIsRightIff | libs/cjson/cJSON_Utils.c:136-158 | Over given memory it is right if and only if the key has no `~` and the memory holds `~` wherever the escape of a `/` begins. |
| PointerSearch.KeySurvivesIff | libs/cjson/cJSON_Utils.c:136-339 | A key without `/` that is encoded and decoded in place comes back if and only if it has no `~` but at its end. |
| PointerSearch.EncodeStringAsPointer | libs/cjson/cJSON_Utils.c:136-158 | For every key, the loop makes of the memory behind a position the encoding over that memory, with a terminator, and touches nothing else. |
| PointerSearch.PointerEncodedLength | libs/cjson/cJSON_Utils.c:120-133 | The length computed for a key is that of its right encoding. |
| PointerSearch.UnescapeEscape | libs/cjson/cJSON_Utils.c:83-133 | Unescaping undoes escaping as the RFC defines both. |
| PointerSearch.DecodedPlain | libs/cjson/cJSON_Utils.c:308-339 | Decoding in place changes nothing without a `~`. |
| PointerSearch.DecodedIsRightIff | libs/cjson/cJSON_Utils.c:308-339 | Decoding a token with valid escapes in place is right if and only if no escape is `~1` and every ordinary character equals the one as many places back as escapes precede it. |
| PointerSearch.DecodedMisplaces | libs/cjson/cJSON_Utils.c:308-339 | The token ~0a is decoded to ~0 instead of ~a. |
| PointerSearch.DecodedStops | libs/cjson/cJSON_Utils.c:308-339 | At an invalid escape decoding stops: what has been decoded stands in front, and the memory from the escape on stays as it is, without a new terminator. |
| TextRoundTrip.PrintParseRoundTrip | libs/cjson/cJSON.c:1011-1650 | Parsing the formatted or unformatted print of a tree gives back the same tree, with member order and duplicate keys, if and only if it nests at most 1000 containers; nothing is returned otherwise. |
| PrintThenParse.PrintThenParse | libs/cjson/cJSON.c:929-1089 | Printer, minifier if wanted, and parser run one after the other give back every printable item whose text fits and that nests at most 1000 containers, and nothing otherwise. |
| Grammar.TextIsParsed | libs/cjson/cJSON.c:929-1536 | The text of every syntax tree that nests at most 1000 containers, whatever its blanks, escapes and number forms, is accepted as a whole with the value that the tree denotes. |
| Grammar.AcceptedHasTree | libs/cjson/cJSON.c:929-1536 | Every text that is accepted as a whole is the text of such a tree, and the result is the value that the tree denotes. |
| Grammar.LegalTextIsParsed | libs/cjson/cJSON.c:929-1536 | In particular every text of RFC 8259 is accepted with its value, if its numbers have at most 63 characters and it nests at most 1000 containers. |
| Grammar.StartIsParsed | libs/cjson/cJSON.c:929-973 | Where anything may follow, the text of a tree is read from the start of the input, and the parse stops right behind it, if what follows could not belong to a number. |
| Grammar.StartHasTree | libs/cjson/cJSON.c:929-973 | What is read from the start of any input is the text of such a tree. |
| StringGrammar.LiteralRead | libs/cjson/cJSON.c:643-769 | A literal made of any pieces, that is unescaped characters, the eight two-character escapes, spelled out, and Unicode escapes of one or two parts with digits of either case, is read wherever it stands as the values of its pieces, in the UTF-8 of RFC 3629, up to the first NUL; an escape with other characters than digits stands for a NUL. |
| StringGrammar.LiteralHasPieces | libs/cjson/cJSON.c:643-769 | Nothing else is read as a literal. |
| StringGrammar.UpToFirstNul | libs/cjson/cJSON.c:746-752 | A text without a NUL is kept whole, and one with a NUL up to that. |
| NumberGrammar.NumeralRead | libs/cjson/cJSON.c:219-293 | A numeral of sign, digits, fraction and exponent with `e` or `E` and either sign or none is read whole. |
| NumberGrammar.ReadIsNumeral | libs/cjson/cJSON.c:219-293 | What is read of any text that starts like a number is a numeral. |
| NumberGrammar.ReadIsLongest | libs/cjson/cJSON.c:219-293 | No longer start of the text is a numeral. |
| TextRoundTrip.QuotedRoundTrip | libs/cjson/cJSON.c:643-891 | A printed string is read back, escapes and all, wherever it stands in the input. |
| Parser.ParseWithOpts | libs/cjson/cJSON.c:929-1014 | Parses the first value of a text, and refuses what follows it if asked to; the returned end is behind the value, or at the terminator if that is required, and inside the input on failure. |
| Parser.ParseBuffer.ParseValue | libs/cjson/cJSON.c:1140-1193 | On success the item, the offset behind it and the depth on entry, in agreement with the grammar functions; the offset stays inside the input. |
| Parser.ParseBuffer.ParseArray | libs/cjson/cJSON.c:1274-1365 | The same for an array, past the step back in front of the first element. |
| Parser.ParseBuffer.ParseObject | libs/cjson/cJSON.c:1430-1536 | The same for an object. |
| Parser.ParseBuffer.ParseNumber | libs/cjson/cJSON.c:219-293 | The same for a number, read from a copy of at most 63 characters. |
| Parser.ParsedValue | libs/cjson/cJSON.c:1140-1193 | A value that is read ends behind its start and inside the input. |
| Parser.SkipWhitespace | libs/cjson/cJSON.c:908-926 | Skipping ends inside the input, in front of something other than a blank or at the last character. |
| ParseString.ReadString | libs/cjson/cJSON.c:643-769 | Both passes over a string literal: the text up to its first NUL and the offset behind the closing quote; every write is inside the allocation. |
| ParseString.DecodedFits | libs/cjson/cJSON.c:656-747 | For every input, malformed escapes included, what the decoding loop writes fits the size that the scanning loop computes, with the terminator. |
| ParseString.FindClosingQuote | libs/cjson/cJSON.c:656-687 | The scanning loop finds the closing quote and counts the backslashes it takes. |
| Utf8.LiteralRoundTrip | libs/cjson/cJSON.c:522-583 | Every scalar value is recovered from the one or two escapes that section 7 of RFC 8259 gives it, with digits of either case, whatever follows. |
| Utf8.LiteralIsScalar | libs/cjson/cJSON.c:522-615 | No escape yields anything but a scalar value, so the last branch of the encoder is unreachable. |
| Utf8.EncodeDecodes | libs/cjson/cJSON.c:585-634 | The bytes written for a scalar value decode to it, as in section 3 of RFC 3629. |
| Utf8.EncodingIsUnique | libs/cjson/cJSON.c:585-634 | No other bytes decode to it. |
| Utf8.EncodeInto | libs/cjson/cJSON.c:585-634 | The bytes are stored last to first in the given place, and nothing else is touched. |
| Utf8.MasksAreArithmetic | libs/cjson/cJSON.c:617-632 | The masks and shifts on 32 bits are the arithmetic of the model. |
| Utf8.PairIsArithmetic | libs/cjson/cJSON.c:576-577 | So is the combination of a surrogate pair. |
| Utf8.ParseHex4 | libs/cjson/cJSON.c:485-518 | The loop reads four hexadecimal digits, or zero if one is not a digit. |
| PrintBuffer.PrintPreallocated | libs/cjson/cJSON.c:1120-1137 | Succeeds if and only if the item can be rendered and the given length is at least that of its text plus 2 (plus 1 for a number); then text and NUL lie within that length. What is behind it stays, on failure, too. |
| PrintBuffer.Print | libs/cjson/cJSON.c:1018-1089 | Returns the text with its NUL in a fresh array exactly if the item can be rendered in a buffer of a size that fits an int. |
| PrintBuffer.PrintBuffer.PrintValue | libs/cjson/cJSON.c:1196-1271 | After success the buffer holds what it held before the offset, then exactly the text, then a NUL, across reallocations; success exactly if the room suffices. |
| PrintBuffer.PrintBuffer.PrintArray | libs/cjson/cJSON.c:1368-1427 | The same for an array. |
| PrintBuffer.PrintBuffer.PrintObject | libs/cjson/cJSON.c:1539-1650 | The same for an object. |
| PrintBuffer.PrintBuffer.PrintString | libs/cjson/cJSON.c:772-891 | The same for a string. |
| PrintBuffer.PrintBuffer.PrintNumber | libs/cjson/cJSON.c:419-482 | The same for a number of at most 25 characters; longer ones are refused. |
| PrintBuffer.PrintBuffer.CountEscapes | libs/cjson/cJSON.c:799-823 | The counting pass finds how much longer the escaped string is. |
| PrintBuffer.PrintBuffer.WriteEscaped | libs/cjson/cJSON.c:842-888 | The writing pass fills exactly the counted size. |
| PrintBuffer.PrintBuffer.Ensure | libs/cjson/cJSON.c:326-403 | Grants the asked room, growing the buffer if it may, and keeps what was written; fails only beyond the fixed length or the largest int. |
| PrintBuffer.PrintBuffer.UpdateOffset | libs/cjson/cJSON.c:406-416 | The measured offset is the end of the text just written. |
| JsonText.TextNulFree | libs/cjson/cJSON.c:406-416 | The text of a tree of C strings has no NUL, so measuring does not stop early. |
| Layout.FormattedIsLaidOut | libs/cjson/cJSON.c:1368-1650 | The formatted print is the unformatted one, laid out by a scan that skips literals and counts open brackets: an opening brace, a comma between members and the last member end their lines; a member is indented by as many tabs as brackets are open, a closing brace by one less; a tab follows a colon, and a blank a comma between elements. |
| JsonText.EscapesSpelled | libs/cjson/cJSON.c:842-888 | Every character as it is printed: the seven short escapes, a numeric one with lower-case digits for other control characters, and any other as it stands. |
| JsonText.EscapedOneByOne | libs/cjson/cJSON.c:842-888 | A string is escaped character by character. |
| Minify.Minify | libs/cjson/cJSON.c:2359-2421 | Minifies in place, and stays inside the text if and only if every comment and literal is closed; the write position never passes the read position, and nothing behind the terminator is touched as long as the walk stays inside. |
| Minify.WhatGoes | libs/cjson/cJSON.c:2362-2418 | Outside a literal or comment a blank, tab, carriage return or line feed leaves nothing, and every other character but a quote itself; a slash, too, that is not followed by a slash or star. |
| Minify.MinifiedIsStripped | libs/cjson/cJSON.c:2359-2421 | The minified text of every input has, outside its literals, none of these four characters. |
| Minify.LastLineComment | libs/cjson/cJSON.c:2381-2388 | A comment without a line end goes up to the end of the text. |
| Minify.MinifyPrinted | libs/cjson/cJSON.c:2359-2421 | Minifying the formatted print of a tree gives byte for byte its unformatted print; the latter stays as it is. |
| MinifyParse.MinifyKeepsMeaning | libs/cjson/cJSON.c:2359-2421 | Every text that the parser accepts as a whole, however it is laid out, is accepted when it is minified, with the same tree; minifying it again changes nothing. |
| MinifyParse.ValueSegment | libs/cjson/cJSON.c:1140-1193 | What the parser reads as a value leaves, when minified, a piece that is read as the same value wherever it stands. |
| MinifyParse.LiteralMoves | libs/cjson/cJSON.c:643-769 | A string literal is read as the same text wherever it stands. |
| MinifyParse.NumberOfPrefix | libs/cjson/cJSON.c:219-293 | What is read of a number text is read whole when it stands alone. |
| MinifyParse.MinifyAcceptsMore | libs/cjson/cJSON.c:2359-2421 | Two numbers with a blank between them are refused, and minified into one that is accepted. |
| Minify.LeavesQuoted | libs/cjson/cJSON.c:2398-2411 | A printed string is kept as it stands, wherever it stands. |
| Minify.LeavesLineComment | libs/cjson/cJSON.c:2381-2388 | A comment to the end of a line goes with its line end, wherever it stands outside a literal. |
| Minify.LeavesBlockComment | libs/cjson/cJSON.c:2389-2397 | A closed comment goes, if no slash follows its opening star. |
| Minify.CommentFoundIff | libs/cjson/cJSON.c:2389-2397 | The whole comment is skipped if and only if no star in it, the opening one included, is followed by a slash before its end. |
| Minify.OpeningStarCloses | libs/cjson/cJSON.c:2389-2397 | The opening star closes a comment, where nothing else does too early, if and only if the comment starts with a slash. |
| Minify.ShortComment | libs/cjson/cJSON.c:2389-2397 | The text /*/1 becomes 1. |
| MinifyLiterals.LiteralStays | libs/cjson/cJSON.c:2398-2411 | A closed literal, with any escapes in it, is kept as it stands, wherever it stands. |
| MinifyLiterals.OpenLiteral | libs/cjson/cJSON.c:2398-2411 | With a literal that is not closed the walk leaves the text. |
| MinifyLiterals.OpenComment | libs/cjson/cJSON.c:2389-2397 | So it does with a comment that is not closed. |
| Minify.MinifyIsNotIdempotent | libs/cjson/cJSON.c:2359-2421 | Two slashes with a blank between them become a comment. |
| Minify.MinifyTwiceIff | libs/cjson/cJSON.c:2359-2421 | For every text whose comments and literals are closed, minifying a second time changes nothing if and only if, outside the literals of what is left, no slash is followed by a slash or a star. |
| Framing.FrameArrives | src/xcommon.c:136-176 | A frame that arrives in nonempty pieces, the first of at least 6 bytes, is read whole if and only if an int can count its bytes or there is only one piece; in general, exactly if every piece is still needed by the size seen after the first. |
| Framing.FrameHandled | src/xcommon.c:251-260 | The handler takes from the buffer the payload and the type that were packed. |
| Framing.ReadResponse | src/xcommon.c:136-176 | Reads pieces until the announced size is there, leaving their bytes in the buffer, or returns -1. |
| Framing.WholeStreamRead | src/xcommon.c:158-174 | Reading takes a whole stream exactly if the announced size is reached by its last piece and not before. |
| Framing.ShortFirstPiece | src/xcommon.c:142-157 | A first piece of one byte makes the read stop inside the frame. |
| Framing.SendAll | src/xcommon.c:113-134 | Under any partial sends, of no bytes, too, the bytes go out in order; all of them and 0, or a proper prefix and -1. |
| Framing.EverythingGoesOut | src/xcommon.c:120-128 | If every send takes something, everything goes out. |
| Framing.PackMessage | src/xcommon.c:181-192 | Byte by byte what goes out: two zero bytes, the size in network order, the type, and the payload; nothing behind it is touched. |
| Framing.SizeOfFrame | src/xcommon.c:156 | The first 6 bytes of a frame give its payload size as a signed 32-bit number, so the size itself if and only if that is below 2 to the 31st. |
| Framing.SizeFieldBytes | src/xcommon.c:156-158 | The size read from any 6 bytes is the big-endian sum of the last four as a 32-bit number in two's complement, and the read asks for 7 bytes more in the same arithmetic. |
| Framing.HandleResponse | src/xcommon.c:251-260 | Copies the payload into a cleared buffer and returns the type. |

## Left out

- PatchRoundTrip.PatchRoundTrip: that the final document is right does not imply `WithinReach` (`PatchReach.MissesMayCancel`); the exact statement is about every single patch (`PatchExact.RightRunIffWithinReach`). The case-sensitive variants are covered for keys without capital letters (`PatchCaseSensitive.PatchRoundTripCaseSensitive`). All keys with `~` are excluded; one at the end of the last key of a path does no harm (`PointerSearch.KeySurvivesIff`), further up it is read as a `/`.
- MergePatch.MergeDiffMeaning: for documents in step only; the general course of a key is `MergeRoundTrip.WalkTracks`.
- MergePatch.GenerateMergePatch: `compare_json` has sorted objects inside the values that the generator then duplicates, so the generated patch equals `MergeDiff` only up to member order; the results about it do not depend on that order.
- PointerSearch.EncodedIsRightIffPlain: keys with `/` are excluded, because the encoder then leaves a character of fresh memory as it is (`PointerSearch.EncodedAlwaysRightIff`).
- PointerSearch.FindPointerFromObjectTo: the same for trees with such keys, as for PointerSearch.FindThenResolve.
- PatchDiff.GeneratePatches: the same for documents with such keys, as for all of PatchDiff and PatchRoundTrip.NoPatchesIffAlike.
- Minify.Minify: where the walk leaves the text, because a comment or literal is not closed, the model stops; the code reads on behind the terminator.
- Framing.HandleResponse: sizes that are negative or larger than the buffers are excluded; the copy is then outside them.
- Framing.ReadResponse: requires that all pieces together fit the buffer, since each recv asks for 2048 bytes wherever it writes.
- ApplyPatch.Document.ApplyPatch: a patch whose `from` is not a string is excluded, because the code reads its text unchecked. So is, in case-sensitive mode, a nonempty array in the place of a patch: the lookup then compares keys that elements do not have (libs/cjson/cJSON.c:1707-1712). Nothing is promised once a test has moved the head of a list, because a later detachment may then destroy the list (`SortList.SortThenDetach`). Trees are values here: that a patched tree shares nodes with no other, and that detached items are freed, is not modelled.
- MergePatch.MergePatch: the target is a value, not updated in place.
- PatchDiff.PatchList.CreatePatches: that the generators sort the objects of both documents in place is not returned.
- Parser.ParseWithOpts: the exact position of an error.
- Numbers are lexemes: `strtod` keeps the longest numeric prefix and `sprintf` prints a lexeme that is read back; rounding, NaN, infinities, integer saturation and locale decimal points are not modelled.
- `cJSONUtils_GenerateMergePatchCaseSensitive`: its recursive calls are case-insensitive, so it is not one mode of one function.
- Null pointers as arguments, allocation failure, allocator hooks, raw items, references and constant-string flags.
- `cJSON_Compare` (it accepts array prefixes and object subsets) and `cJSON_Duplicate` (copying a value is trivial here).
- `cJSON_PrintBuffered`, which is `Print` with another initial size.
- Deletion and replacement by name or index beyond the list operations above.
- The handler of heartbeat responses, plugins, threads, configuration, sockets, logging and process handling of the agent.
