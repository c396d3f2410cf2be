# Device trees, partial reconfiguration and the host-side checks, in Dafny

This project models four parts of the repository and proves what they are for.

* **libfdt** (`software/drivers/fpga/libfdt`), the flattened device tree library. A blob is a flat buffer
  of bytes with a header, a memory reservation block, a structure block and a strings block (chapter 5 of
  the Devicetree Specification). `Tokens`, `Structure` and `Tree` give the meaning of the bytes: a token
  list, a nested forest of NOPs, properties and nodes, and the tree with names resolved. `Tokenizer` and
  `Blob` prove that the decoding is exact. On top of that stand the node walk (`Walk`, `Ancestors`), the
  queries (`Queries`, `Paths`, `Aliases`, `GetPath`, `PathOf`, `Properties`), the in-place splice editor
  (`Splice`, `Edit`, `EditMore`, `EditNodes`, `Subnodes`), the NOP-ing editor (`Wip`), repacking (`Repack`,
  `OpenInto`) and the sequential writer (`Writer`, `Builder`, `Finish`, `RoundTrip`, `Runs`). `Encode` and
  `Witnesses` build blobs: one for every forest, and two on which an exact condition fails.
* **The partial-reconfiguration load protocol** (`Loader`): `fpga_mgr_buf_load` with the Altera PR IP core
  operations against a device that answers every register read as it likes.
* **The Game of Life reference** (`Life`) that checks the accelerated persona.
* **The subdriver state machine** of the PCIe driver (`Subdrivers`), which consumes libfdt.

Code that works in place is a method on an `array<byte>` whose contract speaks about the tree before and
after; loops keep their shape. A place in a tree is a `Pos` (here, past this item, into this node) and is
always a ghost argument: it says which node an offset belongs to. `NodeAt(b, p, o)` reads "the node at
place `p` of blob `b` starts at structure offset `o`". `WellFormed(b)` is a version 17 blob with its blocks
in order whose structure block spells one root node and whose property names resolve.

## Model

| member | source | states |
|---|---|---|
| Tokenizer.FdtNextTag | software/drivers/fpga/libfdt/fdt.c:93-141 | the tag and the next offset, or END with the right error, including the 32-bit wrap of a property length |
| Tokenizer.NextTagPlainly | software/drivers/fpga/libfdt/fdt.c:93-141 | by the cell at the offset: which values are tags, how far each reaches, and which error every other block gives |
| Tokenizer.Progress | software/drivers/fpga/libfdt/fdt.c:118-139 | for every block and every aligned offset the tokenizer moves forward, except exactly when a PROP's stored length is 2^32 - 12 |
| Tokenizer.NextTagOnToken | software/drivers/fpga/libfdt/fdt.c:108-140 | on any stored token the tokenizer lands just past its padding |
| Tokenizer.DecodeExact | software/drivers/fpga/libfdt/fdt.c:93-141 | decoding a block yields a forest if and only if the block spells that forest and END and nothing else |
| Encode.EncodeDecode | software/drivers/fpga/libfdt/fdt.c:93-141 | every forest that can be stored has a block, and decoding it gives the forest back |
| Encode.TagBytes | software/drivers/fpga/libfdt/fdt.h:44-52 | the stored bytes of each tag and of the magic number |
| Encode.BlobStores | software/drivers/fpga/libfdt/fdt.c:58-75 | every rooted forest whose names resolve is stored by a well-formed blob, which the header check accepts |
| Structure.ParseFlat | software/drivers/fpga/libfdt/fdt.c:161-199 | nesting a forest's token list gives the forest back, whatever follows it |
| Structure.ParseSound | software/drivers/fpga/libfdt/fdt.c:161-199 | whatever is parsed, flattened again, is the token list that was read |
| Tokens.SpliceReads | software/drivers/fpga/libfdt/fdt_rw.c:97-135 | bytes kept before and moved after a replaced range go on spelling the same tokens around it |
| Words.TagAlign | software/drivers/fpga/libfdt/libfdt_internal.h:55-56 | the alignment macro gives the next multiple of four |
| Words.CellValue | software/drivers/fpga/libfdt/libfdt_env.h:6 | a header cell or tag is read with its most significant byte first |
| OpenInto.UsableHeader | software/drivers/fpga/libfdt/fdt.c:58-75 | a finished blob passes the header check exactly when its version is 16 or later and its last compatible version at most 17 |
| Blob.HeaderPlainly | software/drivers/fpga/libfdt/fdt.c:58-75 | BADMAGIC exactly for neither magic number, BADSTATE for an unfinished blob without structure, BADVERSION for versions it cannot read |
| Walk.CheckNodePlainly | software/drivers/fpga/libfdt/fdt.c:143-150 | an offset is accepted exactly when it is aligned, not negative, and a BEGIN_NODE tag is read there |
| Walk.FdtNextNode | software/drivers/fpga/libfdt/fdt.c:161-199 | the next BEGIN_NODE, or where the counter drops below zero, or NOTFOUND; a rejected offset is reported |
| Walk.ListingFlat | software/drivers/fpga/libfdt/fdt.c:161-199 | scanning the tokens of a forest meets exactly its nodes, in pre-order, with their chains of enclosing nodes |
| Ancestors.VisitOrder | software/drivers/fpga/libfdt/fdt.c:161-199 | iterating from -1 visits the nodes in pre-order at strictly increasing offsets, ends with NOTFOUND, tracks the depth, and is the same without a counter |
| Ancestors.VisitedOnce | software/drivers/fpga/libfdt/fdt.c:161-199 | every node of every readable blob is visited, once, at its true depth |
| Ancestors.NodesSorted | software/drivers/fpga/libfdt/fdt.c:161-199 | the listing of any forest is strictly increasing and inside the forest's bytes |
| Queries.FdtNodeEndOffset | software/drivers/fpga/libfdt/fdt_wip.c:97-105 | lands just past the matching END_NODE; error codes pass through |
| Queries.FdtNodenameEq | software/drivers/fpga/libfdt/fdt_ro.c:58-76 | true exactly when the name is the searched one, or the searched one holds no '@' and the name goes on with one |
| Queries.FdtSubnodeOffset | software/drivers/fpga/libfdt/fdt_ro.c:132-149 | the first listed node one level down that matches, or NOTFOUND, or the error |
| Paths.SubnodeIsChild | software/drivers/fpga/libfdt/fdt_ro.c:132-149 | what that scan finds is the first matching direct child of the tree |
| Paths.FirstChild | software/drivers/fpga/libfdt/fdt_ro.c:132-149 | the offset found is that of the first direct child whose name is the searched one or, if that holds no '@', begins with it and an '@'; NOTFOUND exactly when there is none |
| Paths.FollowPath | software/drivers/fpga/libfdt/fdt_ro.c:180-196 | the node reached from a start by following the components, repeated and trailing slashes included; a start that is an error is passed on |
| Aliases.FdtPathOffset | software/drivers/fpga/libfdt/fdt_ro.c:157-199 | for every path on which it comes back: an alias in front is replaced by what it stands for, as text, until the path is absolute, and that is followed; BADPATH for a missing alias |
| Aliases.FdtGetAlias | software/drivers/fpga/libfdt/fdt_ro.c:340-350 | the string at the value of the first leading property of that name in /aliases |
| Aliases.LocatedStep | software/drivers/fpga/libfdt/fdt_ro.c:167-196 | a path behind an alias goes on from the node that the alias leads to, and the alias's error is the path's |
| Aliases.AliasLaw | software/drivers/fpga/libfdt/fdt_ro.c:167-196 | a path that begins with an alias, up to its first slash, leads where the alias's value with the rest of the path behind it leads |
| Aliases.SettlesExactly | software/drivers/fpga/libfdt/fdt_ro.c:167-178 | the recursion for a path ends if and only if it ends within as many calls as there are aliases |
| Aliases.AliasOfItself | software/drivers/fpga/libfdt/fdt_ro.c:167-178 | an alias whose value begins with that alias is never resolved: no bound on the recursion exists |
| Witnesses.AliasLoop | software/drivers/fpga/libfdt/fdt_ro.c:167-178 | there is such a well-formed blob: /aliases says that "a" is "a" |
| Aliases.AliasValue | software/drivers/fpga/libfdt/fdt_ro.c:340-350 | a terminated value stands for its bytes up to the terminator |
| GetPath.FdtGetName | software/drivers/fpga/libfdt/fdt_ro.c:201-219 | the name bytes up to the NUL, or the error |
| GetPath.PushNode | software/drivers/fpga/libfdt/fdt_ro.c:371-388 | popping and pushing keeps the buffer a stack of names: each push adds one slash and those of the name, each pop takes one away, so the stack is bare exactly while no popped name held a slash |
| GetPath.FdtGetPath | software/drivers/fpga/libfdt/fdt_ro.c:357-407 | for every blob: the text written is the node's path if and only if no node before it that fits in the buffer and does not enclose it has a slash in its name; NOSPACE when the path does not fit, BADOFFSET where no node starts; the text holds no NUL, and begins with a slash if the root has no name |
| GetPath.CleanStep | software/drivers/fpga/libfdt/fdt_ro.c:368-388 | from one node to the next, slashes are left over exactly when a node that was pushed and is not on the way has one in its name |
| Witnesses.Tangled | software/drivers/fpga/libfdt/fdt_ro.c:368-388 | there is a well-formed blob, with a node "a/b" in front of "c", for which "/c" is not written although it fits |
| PathOf.ComponentsOfPath | software/drivers/fpga/libfdt/fdt_ro.c:157-199 | splitting a written path yields the names of the node's chain |
| PathOf.PathRoundTrip | software/drivers/fpga/libfdt/fdt_ro.c:157-199 | looking up the path written for a node returns that node if and only if no earlier sibling matches at any step |
| PathOf.PathThere | software/drivers/fpga/libfdt/fdt_ro.c:157-407 | writing the path of a node and looking the buffer up, in any blob with a nameless root: where the text is the path and its names can be told apart, the node is found if and only if nothing shadows it |
| PathOf.OffInjective | software/drivers/fpga/libfdt/fdt_ro.c:409-443 | two nodes at one offset are the same node |
| Ancestors.FdtSupernodeAtDepthOffset | software/drivers/fpga/libfdt/fdt_ro.c:409-443 | the linear scan returns the true ancestor at each depth, NOTFOUND beyond; where no node starts BADOFFSET inside the root, NOTFOUND at its end and BADSTRUCTURE behind it |
| Ancestors.FdtNodeDepth | software/drivers/fpga/libfdt/fdt_ro.c:445-454 | the number of enclosing nodes, or the error of the scan at any offset |
| Ancestors.FdtParentOffset | software/drivers/fpga/libfdt/fdt_ro.c:456-464 | the enclosing node, NOTFOUND for the root, or the error of the scan at any offset |
| Ancestors.TrailIsChain | software/drivers/fpga/libfdt/fdt_ro.c:409-443 | the chain that a scan records is, depth by depth, the chain of enclosing nodes |
| Ancestors.ClimbToRoot | software/drivers/fpga/libfdt/fdt_ro.c:456-464 | taking the parent depth-many times reaches offset 0 |
| Properties.NextProp | software/drivers/fpga/libfdt/fdt_ro.c:108-130 | skips NOPs to the next property of the same node, or NOTFOUND at its first subnode or end |
| Properties.FdtStringEq | software/drivers/fpga/libfdt/fdt_ro.c:83-89 | strlen and memcmp decide equality of the stored string |
| Properties.FdtGetProperty | software/drivers/fpga/libfdt/fdt_ro.c:260-282 | the offset and length of the first leading property of that name, NOTFOUND, or the node's error |
| Properties.GetPropertyMeans | software/drivers/fpga/libfdt/fdt_ro.c:260-282 | found exactly when the tree's node has such a property, with the value the tree gives it |
| Tree.MeaningGraft | software/drivers/fpga/libfdt/fdt_rw.c:97-135 | replacing stored items replaces the tree at that one place |
| Tree.MeaningGrows | software/drivers/fpga/libfdt/fdt_rw.c:137-170 | appending strings changes the name of no property |
| Tree.AssignSpec | software/drivers/fpga/libfdt/fdt_rw.c:274-290 | after an assignment the name has the value and every other name what it had; a new property stands first |
| Tree.FirstNamed | software/drivers/fpga/libfdt/fdt_ro.c:260-282 | lookup, update and removal concern the first leading property of the name and no other item |
| Tree.AddChildIs | software/drivers/fpga/libfdt/fdt_rw.c:352-357 | a new child stands behind the leading properties and in front of everything else |
| OpenInto.InOrderLayout | software/drivers/fpga/libfdt/fdt_rw.c:58-68 | for every blob that can be opened the layout test, whose sums wrap at 2^32, accepts exactly the blocks that lie one behind the other |
| Edit.InOrderPasses | software/drivers/fpga/libfdt/fdt_rw.c:58-83 | every well-formed blob passes the editing functions' check |
| Edit.RwCheckPlainly | software/drivers/fpga/libfdt/fdt_rw.c:58-83 | each error of the editing functions' check by the header cells; on success the version becomes 17 and no other byte changes |
| Edit.CheckedMeans | software/drivers/fpga/libfdt/fdt_rw.c:70-83 | on a well-formed blob the check passes and changes neither tree nor blocks |
| Edit.FdtSpliceStruct | software/drivers/fpga/libfdt/fdt_rw.c:97-135 | succeeds exactly when the result fits; everything behind the gap moves and the header says so, also for an offset in front of the structure block, which the source does not test |
| Splice.EditMeans | software/drivers/fpga/libfdt/fdt_rw.c:97-135 | a splice that replaces whole tokens leaves a well-formed blob whose tree differs at that place only, with the reservations kept |
| Splice.ResplicedBlocks | software/drivers/fpga/libfdt/fdt_rw.c:123-135 | reservations and strings are unchanged and both halves of the structure block keep their bytes |
| Edit.FdtFindString | software/drivers/fpga/libfdt/fdt.c:201-211 | a place where the terminated string stands exactly when there is one, suffixes of other strings included |
| Edit.FdtFindAddString | software/drivers/fpga/libfdt/fdt_rw.c:150-170 | a stored string is found and no byte changes; a new one is added behind the others exactly when it fits; the tree is unchanged |
| Edit.FdtResizeProperty | software/drivers/fpga/libfdt/fdt_rw.c:205-221 | opens exactly the new length at the found property, or leaves the buffer alone |
| Edit.FdtAddProperty | software/drivers/fpga/libfdt/fdt_rw.c:223-249 | opens a property in front of the node's items exactly when header, value and a name not yet stored fit; on failure the tree is unchanged even if the name was added |
| Edit.FdtSetProp | software/drivers/fpga/libfdt/fdt_rw.c:274-290 | the tree changes at exactly one property, replaced in place or added first; reservations kept; any error leaves the tree as it was; succeeds exactly when the growth fits: of the value if the property is there, of header and value if its name is stored, and of the name too if not; a stored name leaves the strings block as it is |
| Edit.MentionsStored | software/drivers/fpga/libfdt/fdt_rw.c:150-170 | a name that any property of the tree bears is stored, so adding it again takes no room |
| EditMore.FdtAppendProp | software/drivers/fpga/libfdt/fdt_rw.c:292-317 | the value is extended, or the property added, exactly when the growth fits, by the same three cases; any error leaves the tree as it was |
| EditMore.FdtDelProp | software/drivers/fpga/libfdt/fdt_rw.c:319-332 | the first property of that name is gone and nothing else; NOTFOUND exactly when there is none |
| EditNodes.FdtSetName | software/drivers/fpga/libfdt/fdt_rw.c:251-272 | the node has the new name and nothing else changed; succeeds exactly when it fits |
| Subnodes.FdtAddSubnode | software/drivers/fpga/libfdt/fdt_rw.c:334-373 | EXISTS exactly when a direct child matches; else the new node is the first child, and looking its name up finds the returned offset; an error leaves the blob as the check left it if and only if the parent offset is not -1 or there is no room |
| Subnodes.WreckedMeans | software/drivers/fpga/libfdt/fdt_rw.c:346-372 | at parent offset -1 with room: TRUNCATED is returned, the structure block has lost its root, and the reservations are lost unless five bytes lie unused in front of it |
| Subnodes.MisplacedCells | software/drivers/fpga/libfdt/fdt_rw.c:359-370 | which bytes that call writes: the node 8 bytes in front of the structure block, everything behind moved over |
| Subnodes.ReservationsKept | software/drivers/fpga/libfdt/fdt_rw.c:359-370 | a BEGIN_NODE tag written over the end of a reservation list leaves the list readable exactly when its 1 falls behind the terminator |
| Subnodes.SkipLeaves | software/drivers/fpga/libfdt/fdt_rw.c:353-357 | the loop stops just behind the node's properties and NOPs, and at once on a negative offset |
| Subnodes.FdtDelNode | software/drivers/fpga/libfdt/fdt_rw.c:380-392 | the node and everything below it is gone and nothing else; deleting the root leaves a block without a root |
| Subnodes.GapClosed | software/drivers/fpga/libfdt/fdt_rw.c:334-392 | a gap opened and closed again leaves all blocks byte for byte |
| Subnodes.AddThenDelete | software/drivers/fpga/libfdt/fdt_rw.c:334-392 | adding a node and deleting it at the returned offset restores reservation, structure and strings block byte for byte |
| Wip.FdtNopRegion | software/drivers/fpga/libfdt/fdt_wip.c:75-81 | every cell of the region is NOP, every other byte untouched |
| Wip.FdtNopProperty | software/drivers/fpga/libfdt/fdt_wip.c:83-95 | the tree that fdt_delprop leaves, with every other node and property at its old offset |
| Wip.FdtNopNode | software/drivers/fpga/libfdt/fdt_wip.c:107-118 | the tree that fdt_del_node leaves, with everything outside the node at its old offset |
| Wip.NopKeeps | software/drivers/fpga/libfdt/fdt_wip.c:75-118 | an entry is stored afterwards if and only if it was stored before outside the overwritten range, at the same offset and under the same ancestors |
| Wip.NopMeansDelete | software/drivers/fpga/libfdt/fdt_wip.c:107-118 | NOP-ing a node and deleting it give blobs with the same tree and reservations |
| Repack.FdtNumMemRsv | software/drivers/fpga/libfdt/fdt_ro.c:99-106 | the number of reservations before the first whose size cells are both zero |
| Repack.StructSize | software/drivers/fpga/libfdt/fdt_rw.c:432-438 | scanning a version 16 block finds its size, END included |
| Repack.FdtPackBlocks | software/drivers/fpga/libfdt/fdt_rw.c:394-414 | in place on ordered blocks, or into memory apart from them, all three blocks arrive whole and nothing else changes |
| Repack.CarriedMeans | software/drivers/fpga/libfdt/fdt_rw.c:394-478 | a blob that received the blocks of any supported blob, in any order, has its tree and reservations |
| Repack.WellFormedOpens | software/drivers/fpga/libfdt/fdt_rw.c:416-449 | every well-formed blob is one that can be opened, as the tree it means |
| Repack.FdtPack | software/drivers/fpga/libfdt/fdt_rw.c:480-492 | tree and reservations kept, total size is 40 plus the three blocks, and packing a packed blob changes no byte |
| Repack.PackedAgain | software/drivers/fpga/libfdt/fdt_rw.c:480-492 | the byte-level idempotence behind that |
| OpenInto.FdtMove | software/drivers/fpga/libfdt/fdt.c:213-222 | the whole blob is copied, overlap allowed, or NOSPACE, or the header's error |
| OpenInto.Reorder | software/drivers/fpga/libfdt/fdt_rw.c:468-475 | blocks packed at a scratch place and moved arrive whole even when that overwrites the source |
| OpenInto.FdtOpenInto | software/drivers/fpga/libfdt/fdt_rw.c:416-478 | blobs in order open exactly when they fit the buffer; others exactly when the result fits beside the old blob or behind it in the buffer, so in place whenever both sizes fit together; the buffer then holds an editable blob with the same tree and reservations, for versions 16 and 17; no byte outside the buffer changes |
| OpenInto.RoomWritten | software/drivers/fpga/libfdt/fdt_rw.c:451-466 | the room condition in sizes and addresses |
| Writer.FdtGrabSpace | software/drivers/fpga/libfdt/fdt_sw.c:73-86 | claims space exactly when the two growing blocks stay apart |
| Writer.FdtBeginNode | software/drivers/fpga/libfdt/fdt_sw.c:138-152 | one more token, or NOSPACE and no change |
| Writer.FdtEndNode | software/drivers/fpga/libfdt/fdt_sw.c:154-166 | one more token, or NOSPACE and no change |
| Writer.StraysExactly | software/drivers/fpga/libfdt/fdt_sw.c:168-189 | where a name is copied to: in front of the buffer if and only if it is not stored and strings and name together exceed the buffer, and then over header, reservations and structure too |
| Writer.PlaceString | software/drivers/fpga/libfdt/fdt_sw.c:168-189 | the search and the room test, for every name and every state of the buffer |
| Writer.FdtFindAddString | software/drivers/fpga/libfdt/fdt_sw.c:168-189 | for every name that does not stray: a negative end-relative offset that reads as the string, 0 exactly when it is new and does not fit; every earlier name still reads the same |
| Writer.RoomTestExact | software/drivers/fpga/libfdt/fdt_sw.c:181-184 | the 32-bit room test is right exactly when name and strings together do not exceed the buffer; otherwise it always passes |
| Writer.RoomTestWraps | software/drivers/fpga/libfdt/fdt_sw.c:181-184 | a concrete name that the test lets through although it does not fit |
| Writer.FdtProperty | software/drivers/fpga/libfdt/fdt_sw.c:191-211 | one more PROP token whose end-relative name is the given one, exactly when token and a name not yet stored fit; a failure leaves the tokens as they were |
| Writer.EndString | software/drivers/fpga/libfdt/fdt_sw.c:168-189 | an end-relative name offset means the same string however many strings are added in front |
| Builder.FdtCreate | software/drivers/fpga/libfdt/fdt_sw.c:88-108 | an empty blob under construction, or NOSPACE |
| Builder.FdtAddReservemapEntry | software/drivers/fpga/libfdt/fdt_sw.c:110-131 | one more entry, BADSTATE once the structure has begun, NOSPACE exactly when it does not fit |
| Builder.FdtFinishReservemap | software/drivers/fpga/libfdt/fdt_sw.c:133-136 | the reservation block reads back as the entries in front of the first of size zero |
| Writer.HeededAll | software/drivers/fpga/libfdt/fdt_ro.c:99-106 | a list reads back whole if and only if no entry has size zero |
| Finish.Relocate | software/drivers/fpga/libfdt/fdt_sw.c:235-250 | the walk meets each PROP once and leaves exactly the tokens written, each name offset counted from the start |
| Finish.FdtFinish | software/drivers/fpga/libfdt/fdt_sw.c:213-256 | a complete blob: strings moved, every name the string it was, sizes and total right; NOSPACE exactly when the terminator does not fit |
| RoundTrip.EndMeansGrows | software/drivers/fpga/libfdt/fdt_sw.c:229-250 | what has been written keeps its meaning while the strings block grows |
| RoundTrip.WriteItems | software/drivers/fpga/libfdt/fdt_sw.c:138-211 | the calls for any list of items, nested to any depth: all succeed exactly when items and strings fit, and then the tokens appended mean exactly those items; else they come to a straying name, or one returns NOSPACE |
| RoundTrip.StrayExceeds | software/drivers/fpga/libfdt/fdt_sw.c:168-211 | items that come to a straying name never fit, so the three outcomes exclude each other |
| RoundTrip.FirstStrays | software/drivers/fpga/libfdt/fdt_sw.c:181-186 | a root whose first property has a name longer than the buffer comes to it, whatever follows |
| RoundTrip.StrayExists | software/drivers/fpga/libfdt/fdt_sw.c:181-186 | a tree whose calls come to one: a property name of 199 bytes in a buffer of 100 |
| RoundTrip.BuildTree | software/drivers/fpga/libfdt/fdt_sw.c:88-256 | for every tree, reservation list and buffer one of three ends: success exactly when everything fits, and the blob, of exactly that size, reads back as that tree, and as those reservations if and only if none has size zero; a straying name exactly when everything in front of it fits, and the copy would go in front of the buffer; else NOSPACE |
| RoundTrip.FinishedMeans | software/drivers/fpga/libfdt/fdt_sw.c:213-256 | a finished blob of a rooted forest is well formed and means what the end-relative names meant |
| Runs.Run | software/drivers/fpga/libfdt/fdt_sw.c:73-211 | for any sequence of calls, failing ones included, up to one whose name strays: the tokens added are those of the calls that succeed, in order, names included; which succeed follows from sizes and names alone; the blocks stay inside the buffer and apart |
| Runs.FittingPlayed | software/drivers/fpga/libfdt/fdt_sw.c:138-211 | the calls of any list of items that fits all succeed, wherever in a run, and use the bytes and strings that the items take |
| Loader.AltPrFpgaWriteInit | software/drivers/fpga/altera-pr-ip-core.c:93-146 | on success the partial flag was set, START seen clear, the POF ID zero or the image's word, and the one write is the version or POF ID word with START; on failure nothing is written and the flag, START, the image's size or the POF ID forbade it |
| Loader.StatusCell | software/drivers/fpga/altera-pr-ip-core.c:32-91 | the state read is that of the three bits above the lowest two: 5 success, 1 to 3 errors, 4 in progress, 0 reset |
| Loader.StartKeeps | software/drivers/fpga/altera-pr-ip-core.c:108-143 | that write is the control register with START if and only if the version or POF ID word agrees with it in all other bits |
| Loader.AltPrFpgaWrite | software/drivers/fpga/altera-pr-ip-core.c:148-186 | the data words are the image in little-endian order, zero padded, then one status read |
| Loader.AltPrFpgaWriteComplete | software/drivers/fpga/altera-pr-ip-core.c:188-210 | polls within the budget; 0 exactly when the last poll shows success, EIO when it shows an error, none before that shows either |
| Loader.FpgaMgrBufLoad | software/drivers/fpga/fpga-mgr.c:47-91 | returns 0 only after START clear, a POF ID that is zero or the image's, START set, exactly the image's words, a status without error, and PR_SUCCESS within the budget; WRITE_INIT_ERR means no register was written, and why |
| Loader.PacksOnce | software/drivers/fpga/altera-pr-ip-core.c:158-180 | an image determines its words |
| Loader.PacksNumbers | software/drivers/fpga/altera-pr-ip-core.c:158-165 | each whole word of the image has its first byte lowest |
| Loader.AltPrIpFpgaWrite | software/drivers/fpga_pcie/altera-pr-ip-core-a10.c:141-184 | for every file: the words are the file packed, exactly when it has a whole word or what stands behind its bytes on the stack is zero; an empty file sends one word of stack |
| Loader.ShortFile | software/drivers/fpga_pcie/altera-pr-ip-core-a10.c:141-184 | for a file of less than four bytes the one word sent packs the file exactly when the stack bytes behind it are zero |
| Loader.BothWriters | software/drivers/fpga_pcie/altera-pr-ip-core-a10.c:141-184 | buffered and streaming writer put the same words on the bus if and only if the image has a whole word or the stack bytes behind it are zero |
| Life.CalculateNeighbors | ref_designs/a10_pcie_devkit_cvp_hpr/software/util/example_host_uio.c:568-593 | every counter is the sum of the eight bits around its cell |
| Life.CalculateNeighborsInlined | ref_designs/a10_pcie_devkit_cvp/software/util/example_host_uio.c:446-466 | the same for the indexing written out in place |
| Life.CountersAgree | ref_designs/a10_pcie_devkit_cvp/software/util/example_host_uio.c:446-466 | so the two fill in identical arrays |
| Life.AroundIs | ref_designs/a10_pcie_devkit_cvp_hpr/software/util/example_host_uio.c:568-593 | that sum is the size of the set of live neighbours on the torus |
| Life.EightNeighbours | ref_designs/a10_pcie_devkit_cvp_hpr/software/util/example_host_uio.c:568-593 | every cell of the torus has eight neighbours, one step away with the edges joined |
| Life.ApplyGolRules | ref_designs/a10_pcie_devkit_cvp_hpr/software/util/example_host_uio.c:594-611 | a bit is set exactly when its counter is three, or two and it was set; all counters cleared |
| Life.RulesStep | ref_designs/a10_pcie_devkit_cvp_hpr/software/util/example_host_uio.c:594-611 | one generation is one step of Life on sets of cells |
| Life.RunGolVerify | ref_designs/a10_pcie_devkit_cvp_hpr/software/util/example_host_uio.c:612-644 | for every board and count the n-fold Life step; the exit on a non-zero counter is unreachable |
| Life.GenerationsAdd | ref_designs/a10_pcie_devkit_cvp_hpr/software/util/example_host_uio.c:612-644 | generations are iterated steps, and a run can be split anywhere |
| Life.RotationCommutes | ref_designs/a10_pcie_devkit_cvp_hpr/software/util/example_host_uio.c:612-644 | turning the board by whole rows and running commute |
| Subdrivers.FpgaDrvLookup | software/drivers/fpga/fpga-pcie.c:112-121 | true exactly when the C string there is "altr,pr-ip-core" |
| Subdrivers.Examine | software/drivers/fpga/fpga-pcie.c:810-851 | a node is probed exactly when it has a known compatible, a 12-byte reg and a mapped BAR, and where |
| Subdrivers.CandidateMeans | software/drivers/fpga/fpga-pcie.c:810-851 | the same condition in terms of the tree's property values, for values of any length |
| Subdrivers.EveryNodeAsked | software/drivers/fpga/fpga-pcie.c:806-852 | every node is considered once and only the root is skipped |
| Subdrivers.WantedAll | software/drivers/fpga/fpga-pcie.c:806-852 | the addresses probed are those of all nodes that ask for one, each once and in pre-order |
| Subdrivers.Priv.ProbeOne | software/drivers/fpga/fpga-pcie.c:726-781 | a success goes to the front of the list, a failure leaves it |
| Subdrivers.Priv.ProbeAll | software/drivers/fpga/fpga-pcie.c:786-857 | attempts exactly the wanted addresses in pre-order; a refused header changes nothing |
| Subdrivers.Priv.RemoveAll | software/drivers/fpga/fpga-pcie.c:876-895 | removes the whole list front to back and goes idle |
| Subdrivers.PushedReverses | software/drivers/fpga/fpga-pcie.c:773-775 | the list is the successful probes in reverse order |
| Subdrivers.Priv.Accounted | software/drivers/fpga/fpga-pcie.c:773-895 | every subdriver ever probed is listed or was removed, once |
| Subdrivers.UnwoundSame | software/drivers/fpga/fpga-pcie.c:773-895 | whatever the order, the same subdrivers |
| Subdrivers.Priv.WriteState | software/drivers/fpga/fpga-pcie.c:554-644 | the whole transition table of the state file |
| Subdrivers.Priv.WriteBaseDtb | software/drivers/fpga/fpga-pcie.c:900-927 | everything is removed, then the written tree is probed, from any state |
| Subdrivers.Execute | software/drivers/fpga/fpga-pcie.c:554-927 | what each command does to phase, attempts, list and removals |
| Subdrivers.RunCommands | software/drivers/fpga/fpga-pcie.c:554-927 | over any run of commands with any probe outcomes, the configuration ROM read anew by each: phase, attempts, list and removals are the commands' effects one after the other; subdrivers exist only in the probed state, and removed and listed ones together are each batch of successes in reverse, batch after batch |
| Subdrivers.ReplayedAsks | software/drivers/fpga/fpga-pcie.c:554-927 | phase and attempts of a run do not depend on which probes succeed: the attempts are what the probing commands' trees ask for, one after the other |

## Left out

- Phandle and compatible searches (`fdt_node_offset_by_*`): they would only add easier members beside the walk.
- `fdt_add_mem_rsv`, `fdt_del_mem_rsv` and `fdt_setprop_inplace`: they would only add easier members beside the splices proved here.
- Structure offsets that pass the node check although no node starts there (bytes of a value that look like a tag).
- GetPath.FdtGetPath: is not called for an offset at or behind the end of the root, where the source pops the root's own name and looks for a slash in front of the buffer.
- Aliases.FdtPathOffset: is called only for paths whose recursion ends, because the source's does not otherwise; `SettlesExactly` says for which.
- PathOf.PathThere: asks for a root without a name, because the text of a named root is no absolute path; nothing is claimed of the node found when the text is not the path, which `GetPath.FdtGetPath` decides, or when a name on the way is empty or holds a slash.
- OpenInto.FdtOpenInto: does not take a blob that the sequential writer has not finished; it passes the header check, but its strings are not where the header says.
- Writer.FdtFindAddString: is called only when the name does not stray; `StraysExactly` says when it does, and the source then writes in front of the buffer.
- Writer.FdtProperty: the same, for the name of the property.
- RoundTrip.WriteItems: does not make a call whose name strays, but stops with an outcome of its own; the source makes it and overwrites what lies in front of the buffer, and all that has been written.
- RoundTrip.BuildTree: the same, for the whole blob.
- Runs.Run: the same, at the first such call.
- Lengths whose sums exceed a C `int`: the editing operations ask that buffer, name and value together stay below 2^31, and repacking that the packed size does.
- Life.GetBit: a 64-bit board is modelled by its 64 binary digits, so shift-and-mask is reading a digit and or-ing a shifted one is setting a digit.
- Version 16 blobs are only opened (`fdt_open_into`); in that version the tokenizer has no bound on the structure block, and the model reads up to the end of the buffer.
- The boot CPU number in the overlapping reorder of `fdt_open_into`: the source reads it after it may have been overwritten, so nothing is claimed then.
- Well-formedness does not ask for properties before subnodes or unique names: the statements are about the first leading property of a name, which is what the code finds.
- The compatible test is stated on the stored bytes, because `strcmp` does not stop at the end of the value: `CandidateMeans` shows that only a value shorter than the driver name depends on what is stored behind it.
- Device answers: the loader's device may answer anything, but time does not pass; delays, dev_err output, locking and memory allocation failures are not modelled.
- AER mask handling, link retraining, PCI configuration space, UIO, debugfs, character device and module plumbing.
- The Stratix 10 variants, the other personas of the host program, and its timing and option handling.
