# A verified model of the JSON engine and its Base64 codec

The project models the JSON engine of `src/cJSON.c` and `src/cJSON_Utils.c`, and the Base64 codec of
`src/base64.cpp`, and proves what they promise: printing and parsing undo each other, a generated patch or
merge patch leads to the target document, sorting in place changes no value, and so on.

- A JSON document is a value (`Json.Json`); C strings are sequences of bytes that are not 0. `Json.Canon` gives the
  value a document stands for once member order is forgotten (and the case of keys, in the case-insensitive mode).
  Most results about comparing, patching and merging are equations about that value.
- What works step by step in C is a method with loops or a class here: `NodeLists.Node` (the linked child list),
  `PrintBuffers.PrintBuffer`, `ParseBuffers.ParseBuffer`, `Patch.Document`, `PatchGeneration.PatchList`, and in-place
  array methods for string decoding, token decoding and minifying. Each is proved against a function, and the lemmas
  are about that function.
- What the bytes mean is defined apart from the code, in its own bytes: `Grammar` has the texts of RFC 8259 (with what the
  parser takes besides), `PatchStandard` the patch objects of RFC 6902, `Pointers.Rfc6901` the escapes of RFC 6901,
  `Base64.TABLE` the letters of RFC 4648, `Layout` the white space of formatted text, and `MinifyScan` strings and comments.
  Each is tied to the code by lemmas that hold in both directions.
- Where the code does not do what its documentation or a standard says, the model follows the code, and the exact
  condition under which it does is part of the statement. For the two round trips the condition is a predicate on the
  two documents, `PatchConditions.Expressible` and `MergeRoundTrip.Harmless`; for comparing, pointers, minifying and
  Base64 it is `Compare.RepeatsAgree`, `Pointers.CleanWay`, `Minify.KeepsText` and the leftover bits, and for
  decoding a path token the one in `PathKeys.EscapedDecodesExactly`. Lemmas with a
  concrete input stand beside them (`PatchRoundTrip.TildeKeyFails`, `PatchRoundTrip.CaseOnlyKeysFail`,
  `MergeRoundTrip.NullMemberFails`, `MergeRoundTrip.UpperCaseFails`, `MergeRoundTrip.NestedCaseFails`,
  `Minify.TrailingBackslashFails`, `Compare.RepeatedKeyNotReflexive`, `PathKeys.TildeInsideFails`, `MinifyMeaning.SpaceInStringLost`).

Main results, hardest first: `PatchRoundTrip.PatchesReachTarget`, `MergeRoundTrip.MergePatchReachesTarget`,
`ParseMeaning.ParsesExactly` with `ParseMeaning.RefusesExactly`, `TextRoundTrip.RenderDenotes` and
`TextRoundTrip.ParseRendered`, `Printer.PrintPreallocated`, `ListSort.SortList` with `ListSort.SortedListMeaning`,
`SortedCompare.SortedEqualIffEqual`, `StringReader.SecondPassFits`, `MergePatch.MergeMeaning`,
`MergePatch.MergeIdempotent`, `Minify.MinifyRendered`, `Minify.MinifyIdempotent`, `MinifyMeaning.MinifyKeepsDocument`, `MinifyScan.MinifiedByScan`,
`Pointers.StandardPointerLeads`, `Pointers.PointerRoundTrip`, `PathKeys.EscapedDecodesExactly`,
`Compare.EqualExactly`, `PatchOperations.MoveMeaning`, `Unicode.AcceptedExactly`, `NodeLists.Node.PerformAll`,
`Base64.RoundTrip` with `Base64.StandardDecodes`.

`dafny verify dfyconfig.toml` checks the whole project.

## Model

| member | source | states |
|---|---|---|
| CStrings.CompareStrings | src/cJSON_Utils.c:80-106 | A null key equals nothing; otherwise the loop computes `strcmp` of both keys, or of their lower-case forms |
| CStrings.KeyOrderIsTotal | src/cJSON_Utils.c:80-106 | Both key orders are total orders on keys, equal exactly on keys with the same (folded) bytes |
| CStrings.DiffTransitive | src/cJSON_Utils.c:80-106 | `strcmp` is transitive, strictly so when one step is strict |
| CStrings.DiffIsLexicographic | src/cJSON_Utils.c:80-106 | `strcmp` is the difference of the bytes at the first place where two strings differ, the terminator included |
| CStrings.FoldPairsLetters | src/cJSON_Utils.c:80-106 | Without regard to case two keys are the same exactly when they have the same length and at each place the same byte or one of the 26 letters in its two cases |
| Json.ToMapFind | src/cJSON.c:1788-1818 | A lookup that stops at the first match finds what the map of the members holds under the key, and nothing when the map has no entry |
| KeySort.SortCorrect | src/cJSON_Utils.c:467-576 | The mergesort gives a non-decreasing permutation, and leaves a strictly increasing list alone |
| KeySort.SortedDistinct | src/cJSON_Utils.c:467-576 | With distinct keys the order is strict and no member is lost |
| KeySort.SortKeepsMap | src/cJSON_Utils.c:467-585 | Sorting the members of an object does not change which value each key has |
| KeySort.SortReversesTies | src/cJSON_Utils.c:518-575 | Elements with equal keys come out in the reverse of their order, so the result is settled by the key order and the list |
| NodeLists.Node.constructor | src/cJSON.c:218-228 | A new node is in no list and has no children |
| NodeLists.Node.GetItem | src/cJSON.c:1759-1776 | The walk finds the node at an index, or null beyond the end |
| NodeLists.Node.GetSize | src/cJSON.c:1736-1754 | The walk counts the children, and the count is converted to an `int` of 32 bits |
| NodeLists.Node.AddItem | src/cJSON.c:1864-1891 | Appending to a well-formed list keeps it well formed and adds the item at the end |
| NodeLists.Node.InsertItem | src/cJSON.c:2161-2188 | Inserts at the smaller of index and length; a negative index changes nothing |
| NodeLists.Node.InsertStrictly | src/cJSON_Utils.c:676-711 | Inserts at the index, and refuses one beyond the length |
| NodeLists.Node.DetachItem | src/cJSON.c:2091-2119 | Bridges both links around the item, whose own links become null |
| NodeLists.Node.DetachAt | src/cJSON_Utils.c:380-410 | Takes out the item at an index, or nothing beyond the end |
| NodeLists.Node.ReplaceItem | src/cJSON.c:2190-2223 | Puts a detached node in the place of an item; replacing an item by itself changes nothing |
| NodeLists.Node.ReplaceAt | src/cJSON.c:2225-2233 | The same by index; an index without an item changes neither list nor replacement |
| NodeLists.Node.PerformAll | src/cJSON.c:1836-2233 | Over any run of appends, inserts, detachments and replacements, with detached and replaced items put back or not, the list stays well formed, its sequence is the one the edits describe, and every node left out is detached |
| ListSort.AlreadySorted | src/cJSON_Utils.c:482-491 | The first loop decides whether neighbours are strictly increasing |
| ListSort.FindMiddle | src/cJSON_Utils.c:494-505 | The two-speed walk stops in front of the second half, which is the shorter one |
| ListSort.CutInTwo | src/cJSON_Utils.c:506-511 | Cutting leaves two well-formed lists |
| ListSort.MergeNodes | src/cJSON_Utils.c:518-575 | Relinking two disjoint lists gives one well-formed list in merge order |
| ListSort.SortList | src/cJSON_Utils.c:467-576 | From any well-formed list the sort ends with a well-formed list (both links agree, both ends null) in the order of `KeySort.Sort` |
| ListSort.SortObject | src/cJSON_Utils.c:578-585 | Sorting an object replaces its child list by the sorted one |
| ListSort.SortedListMeaning | src/cJSON_Utils.c:467-576 | That list has exactly the same nodes, in non-decreasing key order, and is the list itself when it was strictly increasing |
| Compare.CompareTrees | src/cJSON.c:2846-2969 | The recursive comparison with its loops decides `Equal` |
| Compare.EqualSymmetric | src/cJSON.c:2846-2969 | The comparison is symmetric, for all documents in both case modes |
| Compare.EqualTransitive | src/cJSON.c:2846-2969 | The comparison is transitive, for all documents in both case modes |
| Compare.EqualReflexive | src/cJSON.c:2846-2969 | A document equals a copy of itself exactly when no node is invalid and any two members under one key are equal, at every depth |
| Compare.EqualExactly | src/cJSON.c:2846-2969 | For all documents, repeated keys or not: two documents compare equal exactly when they have the same value (the first member under a key counts), neither has an invalid node, and in each the members under a repeated key are equal |
| Compare.EqualIffSameValue | src/cJSON.c:2846-2969 | With distinct keys two documents compare equal exactly when they have the same value, whatever the order of members |
| Compare.RepeatedKeyNotReflexive | src/cJSON.c:2929-2965 | A repeated key with two values makes a document unequal to its copy |
| SortedCompare.CompareJson | src/cJSON_Utils.c:587-673 | The comparison that sorts both objects and walks them together decides `SortedEqual` and leaves exactly `Settled` of both documents |
| SortedCompare.SettledKeepsValue | src/cJSON_Utils.c:578-673 | What it leaves of a document with distinct keys has the same value and still distinct keys, whichever order it sorted by and in either case mode |
| SortedCompare.SortedEqualIffEqual | src/cJSON_Utils.c:587-673 | On plain documents with distinct keys it decides the same as `cJSON_Compare` |
| SortedCompare.SortedEqualIffSameValue | src/cJSON_Utils.c:587-673 | And that is equality of values |
| Decimals.DecodeArrayIndex | src/cJSON_Utils.c:261-286 | The digit loop computes `DecodeIndex`, with its leading-zero rule, its test of the first byte only and its wrap-around |
| Decimals.DecodePrintedIndex | src/cJSON_Utils.c:261-286 | An index printed in decimal is read back, whatever token follows |
| Decimals.IndexExactly | src/cJSON_Utils.c:261-286 | The tokens read as an index are the empty one and `0`, and those that start with another digit and have no byte below the digits, whatever comes behind the slash; the value wraps around at 2^64 |
| Decimals.SignedDecimal | src/cJSON.c:490-553 | An integer is printed as its sign and its digits, the first of them not 0 but for the number 0 |
| Pointers.ComparePointers | src/cJSON_Utils.c:109-143 | The loop over name and token decides `MatchesToken` |
| Pointers.GetItemFromPointer | src/cJSON_Utils.c:288-333 | Following a pointer computes `GetItem` |
| Pointers.EscapedKeyMatches | src/cJSON_Utils.c:109-143 | For every key, the token with the escapes of section 3 of RFC 6901 matches that key, up to case, and no other |
| Pointers.TokenMatchesExactly | src/cJSON_Utils.c:109-143 | Every token that matches anything is the escaped form of a key; any other escape matches nothing |
| Pointers.StandardPointerLeads | src/cJSON_Utils.c:288-333 | The standard pointer of a node, with escaped keys and decimal indices, leads to that node exactly when no key on the way repeats an earlier sibling, whatever bytes the keys have |
| Pointers.FindPointer | src/cJSON_Utils.c:186-246 | The depth-first search finds the pointer of a node exactly when the node is in the tree |
| Pointers.PointerRoundTrip | src/cJSON_Utils.c:186-333 | The pointer of a node leads back to that node exactly when no key on the way has a tilde, or a slash (unless the stale byte in front of its digit is a tilde), and none repeats an earlier sibling |
| Pointers.EveryNodeFound | src/cJSON_Utils.c:186-333 | In a document with distinct clean keys every node is found again, empty keys and array indices included |
| Patch.DecodePointerInplace | src/cJSON_Utils.c:346-377 | The in-place loop leaves the decoded token and its terminator in the buffer |
| PathKeys.DecodedBytes | src/cJSON_Utils.c:346-377 | What any token is decoded to, byte by byte: bytes that need no decoding are not moved, the slash of an escape goes one place too far, and a bad escape leaves the whole buffer |
| PathKeys.EscapedDecodesExactly | src/cJSON_Utils.c:346-377 | The escaped form of a key is decoded to that key exactly when it has no slash, and every byte that is not a tilde stands at the same place in the escaped form |
| PathKeys.TildeInsideFails | src/cJSON_Utils.c:346-377 | `m~0n` is decoded to `m~0`, while `m~0` is decoded to `m~` |
| PatchApplication.DetachExactly | src/cJSON_Utils.c:413-464 | Detaching at a path of clean tokens takes out exactly the value the tokens lead to and leaves the document without it; where they lead nowhere it changes nothing |
| PatchApplication.InsertExactly | src/cJSON_Utils.c:942-1004 | Inserting at such a path adds the value there exactly when there is such a place, and otherwise changes nothing and has status 9, 10 or 11 for a missing container, an index that is too large, or no index |
| Patch.Document.ApplyPatch | src/cJSON_Utils.c:790-1017 | Applying one patch gives the status code and the document of `Apply`, for every operation and every error |
| Patch.Document.ApplyPatches | src/cJSON_Utils.c:1019-1075 | Patches are applied in order until one fails; anything but an array is refused |
| PatchOperations.PathlessPatch | src/cJSON_Utils.c:790-806 | A patch object whose member `path` is missing or no text has status 2; members are given by the bytes of section 4 of RFC 6902, here and in the rows below |
| PatchOperations.UnknownOperation | src/cJSON_Utils.c:725-812 | An operation that is missing, no text, or a text other than the six of the standard has status 3 |
| PatchOperations.SourcelessPatch | src/cJSON_Utils.c:889-899 | A move or copy without `from` has status 4 |
| PatchOperations.ValuelessPatch | src/cJSON_Utils.c:820-940 | Without `value` an addition has status 7 and changes nothing; a replacement has status 7 too, but has detached what was there, or 13 when nothing was |
| PatchOperations.AddMeaning | src/cJSON_Utils.c:790-1004 | On values: `add` puts the value at the path, or is refused with the status of the reason |
| PatchOperations.RemoveMeaning | src/cJSON_Utils.c:822-887 | On values: `remove` takes out what is at the path, with status 13 when there is nothing; at the root it leaves an invalid node |
| PatchOperations.ReplaceMeaning | src/cJSON_Utils.c:836-1004 | On values: `replace` puts the value in the place of what is at the path, with status 13 when there is nothing |
| PatchMeaning.GetItemMeaning | src/cJSON_Utils.c:288-333 | A pointer of clean tokens leads to the node whose value the tokens select |
| PatchMeaning.PutMeaning | src/cJSON_Utils.c:413-464 | Replacing the node a pointer leads to replaces the value at its tokens and nothing else |
| PatchApplication.ReadPatch | src/cJSON_Utils.c:1077-1115 | The lookups of an apply find operation, path and value in a composed patch |
| PatchApplication.ApplyMeaning | src/cJSON_Utils.c:790-1017 | Applying the patch of a good edit succeeds and has the value the edit has on values |
| PatchApplication.ApplyAllMeaning | src/cJSON_Utils.c:1019-1046 | So do all patches of a list in order, each on what the ones before it left |
| PatchOperations.MoveIsRemoveThenAdd | src/cJSON_Utils.c:889-1004 | A `move` has the outcome of a `remove` at `from` and an `add` of what was removed, for all paths in both case modes, status 5 when nothing is there |
| PatchOperations.MoveMeaning | src/cJSON_Utils.c:889-1004 | On values: what stands at the first place is taken out and added at the second one, which is looked for in what is left; otherwise the status of the reason |
| PatchOperations.CopyIsAdd | src/cJSON_Utils.c:889-1004 | A `copy` has the outcome of an `add` of what stands at `from`, status 5 when nothing is there |
| PatchOperations.TestMeaning | src/cJSON_Utils.c:814-819 | A `test` keeps the value of the document although it sorts members, and succeeds exactly when the path leads to a node that compares equal to the value |
| PatchOperations.PatchesInOrder | src/cJSON_Utils.c:1019-1075 | A list of patches is applied front to back, and after the first one that fails the others do nothing |
| PatchGeneration.PatchList.Compose | src/cJSON_Utils.c:1077-1120 | Appends the patch object of any operation text, with the path and its encoded last token |
| PatchGeneration.PatchList.Create | src/cJSON_Utils.c:1122-1260 | Appends the patches of `Diffs` below a path, and leaves each document with distinct keys with the value it had |
| PatchGeneration.PatchList.CreateForMembers | src/cJSON_Utils.c:1196-1255 | The walk over both sorted member lists appends the patches of `WalkDiffs` |
| PatchGeneration.PatchList.CreateLeftovers | src/cJSON_Utils.c:1170-1193 | Surplus elements are removed at one index, missing ones appended at the dash |
| PatchConditions.SilentIffSortedEqual | src/cJSON_Utils.c:587-673 | No patch is generated exactly when the sorting comparison says the documents are equal, for all documents |
| PatchConditions.WalkFitsMembers | src/cJSON_Utils.c:1196-1255 | The condition along the lock-step walk is the condition on the members in any order |
| PathKeys.LastTokenRoundTrip | src/cJSON_Utils.c:162-184 | As the last token of a path, an encoded key is decoded to itself exactly when it has no slash and a tilde only as its last byte |
| PathKeys.MatchMoves | src/cJSON_Utils.c:109-143 | As a token on the way, a key with a slash or tilde matches only names that are further on in a fixed order (by length, then by slashes) |
| PathKeys.DecodeMoves | src/cJSON_Utils.c:346-377 | As the last token, any other key is decoded to a name that is further on in the same order |
| PatchRuns.RunOpBelow | src/cJSON_Utils.c:790-1017 | An edit at a path of several tokens happens inside the child the first token leads to, with the same status, and fails where it leads nowhere |
| PatchRuns.ApplyAllIsRun | src/cJSON_Utils.c:1019-1075 | Applying the patches of a list of edits runs the edits |
| PatchTargets.OpSpares | src/cJSON_Utils.c:790-1017 | An edit in an object that succeeds touches only members whose key is, but for case, the one name its first token leads to |
| PatchTargets.ClassLeftAlone | src/cJSON_Utils.c:790-1017 | If some key of a list of edits does not fit into a path, there is one whose members no edit of the list touches |
| PatchMisfits.UnfitFails | src/cJSON_Utils.c:1019-1260 | Then the patches fail or do not reach the target |
| PatchRoundTrip.DiffsWork | src/cJSON_Utils.c:1122-1260 | On whatever compares equal to `from`, the edits succeed and lead to what compares equal to `to` exactly when they can be expressed: every path stays valid as earlier edits run, repeated removals and appends included |
| PatchRoundTrip.PatchesReachTarget | src/cJSON_Utils.c:1019-1290 | In both case modes, applying the generated patches to a document equal to `from`, in whatever member order, returns 0 and leaves a document that compares equal to `to` exactly when in every edit the keys on the way have no slash or tilde and a last key has no slash and a tilde only as its last byte |
| PatchRoundTrip.CleanExpressible | src/cJSON_Utils.c:1019-1290 | That holds whenever no key has a slash or tilde |
| PatchRoundTrip.GeneratePatches | src/cJSON_Utils.c:1262-1290 | Generating gives the patches of `Diffs`, each of them a patch object of RFC 6902, and keeps the value of documents with distinct keys |
| PatchRoundTrip.GeneratedAreStandard | src/cJSON_Utils.c:1077-1260 | Every generated object has one `op` with a text of the standard, one `path` that is a pointer, and a `value` where the operation takes one; names and texts by their bytes |
| PatchRoundTrip.PatchInPlace | src/cJSON_Utils.c:1019-1290 | Generating and then applying to what generating left of `from` reaches `to` under the same exact condition |
| PatchRoundTrip.TildeKeyFails | src/cJSON_Utils.c:346-377 | The removal of the key `a~b` does not work, that of `a~` does |
| PatchRoundTrip.CaseOnlyKeysFail | src/cJSON_Utils.c:413-464 | Where keys differ by nothing but case, removing `a` takes `A` away even in the case-sensitive mode |
| MergePatch.ApplyMerge | src/cJSON_Utils.c:1302-1359 | The loop over the patch, with detach, recursion and append, computes `Merge` |
| MergePatch.MergeSteps | src/cJSON_Utils.c:1302-1359 | Whether or not keys of the patch repeat, its members change the value of the target one after the other, and keys of the target stay distinct |
| MergePatch.MergeMeaning | src/cJSON_Utils.c:1302-1359 | With distinct keys it computes the MergePatch function of section 2 of RFC 7396 at every depth, in both case modes, and keys stay distinct |
| MergePatch.MergeShape | src/cJSON_Utils.c:1302-1359 | The result has the members the patch does not name, in their order, then the merged ones in the order of the patch |
| MergePatch.MergeIdempotent | src/cJSON_Utils.c:1302-1359 | Merging the same patch again gives the same tree, member order included |
| MergePatchGeneration.GenerateMergePatch | src/cJSON_Utils.c:1371-1447 | Generating computes `MergeDiff` and keeps the value of a document in every case mode in which its keys are distinct |
| MergePatchGeneration.WalkForMerge | src/cJSON_Utils.c:1391-1438 | The lock-step walk by `strcmp` adds the members of `MergeWalk` |
| MergeRoundTrip.WalkReaches | src/cJSON_Utils.c:1391-1438 | Merging the members the walk adds gives every key of both lists its value in the target exactly when the walk does no harm |
| MergeRoundTrip.DiffReaches | src/cJSON_Utils.c:1371-1447 | So does the whole patch for the two documents; only two objects can do without a patch |
| MergeRoundTrip.HarmlessInOrder | src/cJSON_Utils.c:1371-1447 | Whether a patch does harm does not depend on the order of members, so not on what the comparison sorted before |
| MergeRoundTrip.MergePatchReachesTarget | src/cJSON_Utils.c:1302-1457 | Merging the generated patch into a document equal to `from` gives a document equal to `to` exactly when no member added alone has a null in it or comes before a source key that is the same to the merge, no shared member changes to null, and what is found equal without regard to case below is equal; objects equal with case need no patch |
| MergeRoundTrip.LowerHarmless | src/cJSON_Utils.c:1302-1457 | That holds in all case modes when no key has an upper-case letter and the target has no null member |
| MergeRoundTrip.MergeInPlace | src/cJSON_Utils.c:1302-1457 | Generating and then merging into what generating left of `from` reaches `to` under the same exact condition |
| MergeRoundTrip.NullMemberFails | src/cJSON_Utils.c:1318-1329 | A null member the source lacks cannot be reached |
| MergeRoundTrip.UpperCaseFails | src/cJSON_Utils.c:1386-1399 | Without regard to case, a key that changes to upper case is set and then removed |
| MergeRoundTrip.NestedCaseFails | src/cJSON_Utils.c:1426-1431 | The case-sensitive generator misses a change of case two levels down, because what lies below a key is generated without regard to case |
| PrintBuffers.PrintBuffer.Ensure | src/cJSON.c:389-474 | Room for a text and one byte more is granted exactly up to the size the buffer may reach, and what was written is kept |
| PrintBuffers.PrintBuffer.UpdateOffset | src/cJSON.c:477-487 | The offset catches up with the text that was written behind it |
| PrintBuffers.PrintBuffer.PrintNumber | src/cJSON.c:490-553 | Writes the decimal text, exactly when it fits with two bytes to spare |
| PrintBuffers.PrintBuffer.PrintString | src/cJSON.c:843-962 | Writes the escaped text in quotes; the counted size is exact |
| PrintBuffers.PrintBuffer.PrintValue | src/cJSON.c:1283-1354 | Succeeds exactly when the value is printable and its text fits with two bytes to spare, every write inside `length`, `offset` below it; writes `Render` |
| PrintBuffers.PrintBuffer.PrintArray | src/cJSON.c:1451-1510 | The same for arrays |
| PrintBuffers.PrintBuffer.PrintObject | src/cJSON.c:1622-1733 | The same for objects |
| Printer.Print | src/cJSON.c:1103-1165 | Prints exactly `Render` and a terminator, for every printable document below the size limit |
| Printer.PrintBuffered | src/cJSON.c:1178-1206 | The same from any first size; a negative one is refused |
| Printer.PrintPreallocated | src/cJSON.c:1208-1225 | A fixed buffer suffices exactly when there is one, of no negative length, with two bytes more than the text, and then holds the same terminated text |
| Layout.RenderLaidOut | src/cJSON.c:1451-1733 | Outside of strings the text has no white space, but in the formatted one a space behind each comma of an array, a tab behind each colon, and a newline behind the opening brace and each member, with as many tabs as containers are open, one less in front of the closing brace; every bracket closes its own kind |
| StringMeaning.EscapeExactly | src/cJSON.c:843-962 | Quotes, backslashes and control bytes are escaped and nothing else, with the short escape if there is one and otherwise as `\u00` and two hex digits in lower case |
| Unicode.ParseHex4 | src/cJSON.c:556-589 | The loop reads four hex digits; anything else reads as 0 |
| Unicode.Utf16LiteralToUtf8 | src/cJSON.c:593-711 | Writes the UTF-8 bytes of the literal and says how much it consumed, or refuses and writes nothing |
| Unicode.BitsAreArithmetic | src/cJSON.c:676-698 | The shifts and masks of the encoder are the divisions and remainders of the model |
| Unicode.Utf8RoundTrip | src/cJSON.c:593-711 | A decoder after section 4 of RFC 3629 recovers every scalar value from the bytes |
| Unicode.DecodedIsScalar | src/cJSON.c:593-711 | And everything it accepts is the encoding of a scalar value |
| Unicode.LiteralRoundTrip | src/cJSON.c:593-711 | The escape of every scalar value, pairs included and each hex digit in either case, is read back in 6 or 12 bytes, whatever follows |
| Unicode.AcceptedExactly | src/cJSON.c:593-711 | A literal is accepted exactly when it is not cut short and is the escape of some scalar value; digits that are not hex digits read as 0 |
| StringReader.SecondPassFits | src/cJSON.c:727-818 | For every text, with the passes in step or not, the decoded bytes and the terminator fit in the size computed first |
| StringReader.TurnWithinBudget | src/cJSON.c:757-812 | One turn of the second pass stays within what the first pass counted, wherever it stands |
| StringMeaning.CharacterExactly | src/cJSON.c:593-711 | A `\u` escape is accepted exactly when it is a character of section 7 of RFC 8259 or has bad digits, and gives the bytes that section 4 of RFC 3629 decodes to it, or a zero byte |
| StringMeaning.StringExactly | src/cJSON.c:714-840 | Reading a string succeeds exactly on the strings of the grammar, each as what its bytes and escapes spell |
| ParseBuffers.ParseBuffer.SkipWhitespace | src/cJSON.c:979-997 | Skips to the next byte above a space, or steps back onto the terminator |
| ParseBuffers.ParseBuffer.MeasureString | src/cJSON.c:727-748 | The first pass finds the end and counts the escaped bytes |
| ParseBuffers.ParseBuffer.DecodeString | src/cJSON.c:757-812 | The second pass writes what `Unescape` gives into an array of exactly the computed size |
| ParseBuffers.ParseBuffer.ReadString | src/cJSON.c:714-840 | Reads `ParseString` and leaves the offset behind the closing quote |
| ParseBuffers.ParseBuffer.ReadNumber | src/cJSON.c:282-356 | Reads `ParseNumber` and moves by what `strtod` took |
| ParseBuffers.ParseBuffer.ReadValue | src/cJSON.c:1228-1280 | Reads `ParseValue`; on success the offset is below `length` and the depth restored, and the depth is never above 1000; ends on every input |
| ParseBuffers.ParseBuffer.ReadArray | src/cJSON.c:1357-1448 | The same for arrays, with the step back in front of the first element |
| ParseBuffers.ParseBuffer.ReadObject | src/cJSON.c:1513-1619 | The same for objects |
| ParseBuffers.ParseText | src/cJSON.c:1000-1093 | Parsing a whole text gives `ParseWithOpts`, byte order mark and required end included |
| ParseMeaning.NumberExactly | src/cJSON.c:282-356 | A number is read exactly at a minus or a digit, as what `strtod` makes of the longest run of at most 63 bytes that can stand in a number |
| ParseMeaning.ValueExactly | src/cJSON.c:1228-1619 | In any place, reading a value gives what stands there in the grammar of RFC 8259 and no further, fails exactly where nothing does, or where it nests beyond the limit |
| ParseMeaning.ParsesExactly | src/cJSON.c:1000-1093 | With the end required, a text is parsed to a document exactly when all of it, behind a byte order mark, denotes that document and the document nests at most 1000 deep |
| ParseMeaning.ParsesPrefix | src/cJSON.c:1000-1093 | Without, exactly when the text up to the place where parsing stops denotes it |
| ParseMeaning.RefusesExactly | src/cJSON.c:1000-1093 | Every other text is refused, in both modes |
| Parsing.ParseValue | src/cJSON.c:1228-1280 | A successful parse moves strictly forward and stays in front of the end of the buffer |
| Parsing.ValueWithinLimit | src/cJSON.c:1357-1619 | On every input, what is read at some depth nests at most as deep as the limit of 1000 leaves room for |
| Parsing.SkipSpace | src/cJSON.c:979-997 | A skip stays inside the buffer and never moves back from a place inside it |
| TextRoundTrip.StringReads | src/cJSON.c:714-962 | A printed string is read back whole, whatever its bytes |
| TextRoundTrip.NumberReads | src/cJSON.c:282-356 | A printed integer is read back whole, whatever can follow a value |
| Parsing.IntegersCanBeRead | src/cJSON.c:282-356 | There is a `strtod` that reads every printed integer whole, because different integers have different texts |
| TextRoundTrip.ValueWritten | src/cJSON.c:1283-1733 | In any place, the text of a value in either format, followed by a byte that does not go on with a number, stands for that value in the grammar |
| TextRoundTrip.ValueReads | src/cJSON.c:1228-1733 | It is read as that value and no further, exactly within the nesting limit |
| TextRoundTrip.RenderDenotes | src/cJSON.c:1283-1733 | The text of a document in either format denotes it, at any nesting |
| TextRoundTrip.ParseRendered | src/cJSON.c:1016-1733 | Both formats are parsed back to the same tree, members in order, using up the text, exactly when the nesting is at most 1000; deeper ones are refused |
| TextRoundTrip.RenderInjective | src/cJSON.c:1283-1733 | Documents with the same text in either format are the same tree |
| Minify.CopyString | src/cJSON.c:2676-2696 | Copies a string up to the quote that is taken to end it, the write position as far behind as before |
| Minify.MinifyBuffer | src/cJSON.c:2698-2744 | The in-place loop leaves `Minified` and a terminator, the write position never past the read position |
| Minify.MinifyIdempotent | src/cJSON.c:2698-2744 | On every text, minifying again changes nothing |
| Minify.MinifyRendered | src/cJSON.c:2649-2744 | The formatted text of a document becomes the unformatted one exactly when no white space follows a key or string that ends in a backslash: no such string is there, or only as the last element of the last element ... of the document |
| Minify.TrailingBackslashFails | src/cJSON.c:2690-2694 | A string that ends in a backslash is taken to go on, and white space behind it stays |
| MinifyScan.MinifiedByScan | src/cJSON.c:2649-2744 | On every text, minifying keeps exactly the bytes that a scanner with seven states, one byte at a time, keeps |
| MinifyScan.CommentsGo | src/cJSON.c:2649-2674 | A comment of either kind vanishes, wherever it stands outside of strings and other comments, and nothing else does |
| MinifyScan.OpenCommentsGo | src/cJSON.c:2649-2674 | So does a comment the text ends in |
| MinifyScan.TokensStay | src/cJSON.c:2649-2744 | A text of tokens with any white space and comments between them is minified to the tokens |
| MinifyMeaning.MinifyKeepsDocument | src/cJSON.c:2649-2744 | A text that denotes a document, byte order mark or not, denotes the same document when it is minified, if no quote in it stands behind two backslashes |
| MinifyMeaning.ParseMinified | src/cJSON.c:1000-2744 | Whatever such a text is parsed to, its minified form is parsed to as well |
| MinifyMeaning.SpaceInStringLost | src/cJSON.c:2676-2696 | Behind a string that ends in a backslash, minifying printed text drops a space inside the next string |
| Base64.Encode | src/base64.cpp:26-60 | The loop and the leftover cases append `Encoded` |
| Base64.EncodeText | src/base64.cpp:13-20 | For a C string the byte behind the end is the terminator |
| Base64.EncoderBits | src/base64.cpp:29-53 | The shifts and masks of the encoder are the arithmetic of the model |
| Base64.Decode | src/base64.cpp:74-135 | The loop and the leftover cases append `Decoded`; a length that is no multiple of 4 is refused |
| Base64.DecoderBits | src/base64.cpp:101-126 | The shifts of the decoder are the arithmetic of the model |
| Base64.LetterOfTable | src/base64.cpp:12 | The letters are those of Table 1 of RFC 4648, given as bytes |
| Base64.ValueOfTable | src/base64.cpp:8-12 | The decoder takes exactly these letters, each for its place in the table |
| Base64.EncodedLength | src/base64.cpp:26-60 | The output has four bytes for every three begun |
| Base64.RoundTrip | src/base64.cpp:26-135 | Decoding gives back every byte, but for the lower two bits of a last byte left over alone; it is the identity exactly when there is none or those bits agree |
| Base64.StandardEncoding | src/base64.cpp:26-60 | The output is that of section 4 of RFC 4648 under exactly the same condition |
| Base64.StandardDecodes | src/base64.cpp:74-135 | The standard encoding of any bytes is decoded to these bytes |

## Left out

- PatchRoundTrip.PatchesReachTarget: where the stale byte in front of a slash's digit happens to be a tilde, the condition is proved sufficient only. Documents have no raw nodes, keys that differ by more than case, and array lengths below the size of `size_t`.
- PatchRoundTrip.DiffsWork: the same.
- MergeRoundTrip.MergePatchReachesTarget: documents have no raw nodes, and keys that differ by more than case.
- TextRoundTrip.ParseRendered: `strtod` is a parameter that reads the decimal text of an integer whole; fractions, exponents, infinity and NaN are left out, and numbers are integers below 10^15 in absolute value, which `%1.15g` prints in plain decimal. `valueint` is the saturated number.
- TextRoundTrip.ValueWritten: documents with raw text nodes are excluded, because their text is arbitrary.
- NodeLists.Node.PerformAll: the key of a node is fixed, and the run works on one list.
- NodeLists.Node.ReplaceItem: the item that is replaced ends up detached; freeing it is not modelled.
- NodeLists.Node.ReplaceAt: the same.
- Compare.CompareTrees: the shortcut for two pointers to the same node is not modelled, so comparing a document with itself means comparing it with a copy.
- Patch.Document.ApplyPatch: documents are value trees, the mutation is the new `root`; aliasing between patch and document is not captured. A `move` or `copy` whose `from` has no text, where the code would read a null pointer, is outside `Readable`, and sorting a `test` does to the patch itself is not modelled.
- PatchOperations.AddMeaning: on values, paths are made of tokens without tilde and slash and keys are compared without regard to case; what any other path does is `Patch.Apply`.
- PatchOperations.RemoveMeaning: the same.
- PatchOperations.ReplaceMeaning: the same.
- PatchOperations.MoveMeaning: the same.
- MinifyMeaning.MinifyKeepsDocument: the condition is sufficient; for printed text `Minify.MinifyRendered` has the exact one.
- ParseMeaning.NumberExactly: which texts `strtod` takes for numbers is left to the parameter, so RFC 8259 does not settle them here.
- PrintBuffers.PrintBuffer.Ensure: without a reallocation hook, growing from a first size of 0 copies one byte from behind an empty block; the byte is never used, and the model copies nothing there.
- PrintBuffers.PrintBuffer.PrintNumber: the integers of the model.
- PrintBuffers.PrintBuffer.PrintString: every string is there, so the branch for a null string is not modelled.
- ParseBuffers.ParseText: the place where a failed parse stopped, which goes to the error record.
- ParseBuffers.ParseBuffer.ReadNumber: a number outside the integer range of the model is what the `strtod` parameter says it is.
- Base64.Decode: letters outside the table before the pads, and empty input, are excluded, because the code computes with a null pointer or reads in front of the buffer.
- Base64.Encode: letters come from a function, which `Base64.LetterOfTable` proves equal to the table, and bit operations are written as arithmetic.
- Null keys and null string values: every key and string is a string here, although `compare_strings` is modelled with null arguments.
- The name an array element may keep from an earlier object is not part of the value tree.
- Bytes that a fresh allocation happens to hold: the one such byte that reaches an output, in an escaped slash, is the parameter `junk`, the same for every slash.
- Failing allocations, allocation hooks, the error record, `cJSON_Delete`, `cJSON_Duplicate` beyond copying a value, reference flags and the one-line create, add and test helpers.
- The wrapper in `src/json.cpp`, threads, timers, sockets, files, coroutines and the rest of the library.
