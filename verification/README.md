# Flattened device trees and physical pages, verified

A flattened device tree is one block of memory: a header, a memory reserve map, a structure block
(a stream of 4-byte aligned tags) and a strings block that holds the property names. `libfdt` walks that
stream, edits it in place, builds it sequentially, validates it, moves it between buffers and merges overlays
into it. Behind all of that stands a simple thing, an ordered tree of named nodes and properties. This project
models the byte-level code and proves that bytes and tree agree. It also models the page allocator of the
kernel, which is a first-fit bitmap.

The format is that of the Devicetree Specification v0.4: section 5.2 (header), 5.3 (memory reservation
block), 5.4 (structure block), 5.5 (strings block) and 5.6 (alignment). Version 17, a 32-bit machine, and all
run-time checks switched on (assumption mask 0) are modelled.

## How it is built

Two descriptions of a structure block are used. A *forest* (`Forests.Forest`) is its concrete syntax: tags, NOPs,
padding bytes and name offsets. `Edits.Encodes(st, f)` says that the bytes `st` encode `f`; by
`Checking.EncodesUnique` the bytes determine the forest. A *tree* (`Trees.Tree`) is its meaning: names, values and
nesting; `Trees.Abs` gives the tree of a forest. Positions are counted in 4-byte cells. A node or property is named by
its place, a path through the forest or tree.

The class `Blob.Fdt` holds the header fields and the memory, with a ghost forest. `Valid()` says that the
blocks are laid out in order and that the structure block encodes the forest; `Tree()` is the tree. Methods carry the
name of the C function they model and follow its branches, loops, error codes and 32-bit arithmetic. For the sequential
writer, `SeqWrite.Unfinished` is what holds in every reachable state before the end, whatever the calls and their
outcomes: structure and strings do not overlap, and `offDtStrings` tells the phase.

The application of an overlay is described three times. `Fragments.FdtOverlayApply` follows the code on two blobs and
refines `Fragments.ApplyTree`, which looks up names and targets in trees just as the code does in the blobs.
`OverlayApply.Apply` names nodes by their addresses, the names on the way to them, so that one can say which node a
reference meant before and means after. `Survival.ApplyLinked` proves the two equal for every overlay whose names are
exact, and `Outcome.ApplyOverlay` states the result of the method on the blobs: references, base phandles and symbols.

| file | models |
|---|---|
| Bytes, Tags, Forest, Walk, Traverse | bytes and words, `fdt_next_tag`, encodings, the walks as functions, and that they visit exactly the encoded tree |
| Trees, Edits | trees and their edits; what splicing bytes does to an encoding |
| Blob, FdtCore, ReadOnly, Paths | the blob; `fdt.c`; `fdt_ro.c` |
| ReadWrite, NodeEdit, Reserve, Packing | `fdt_rw.c`: properties, nodes, reserve map, packing |
| InPlace, Check | `fdt_wip.c`, `fdt_check.c` |
| Events, SeqWrite | `fdt_sw.c`: what the sequential writer has written so far, and the writer |
| Relocate, Views | `fdt_resize`, `fdt_move`, `fdt_open_into` between overlapping buffers; what they mean for the trees in them |
| Phandles | phandles in `fdt_ro.c`: reading one, the largest, the node that carries one |
| Merge, Apply | `fdt_overlay.c`: the merge of an overlay node, on trees and on two blobs |
| Overlay, OverlayApply | the passes over phandles and references as functions on trees, and what they keep when nodes are named by address |
| Renumber, References, Conflicts | those passes on the blob: new phandles, local references, phandles of the base taken over |
| Targets, Fragments | the lookup of targets, the loops over the fragments, and `fdt_overlay_apply` on two blobs |
| Symbols | `overlay_symbol_update` on two blobs |
| Survival, Success, Outcome, Witness | the application by lookup is the one by address; when `fdt_overlay_apply` has no error; what it means for references, phandles and symbols; an overlay that meets all conditions |
| Bitmap, PhysAlloc | `bitmap.c`, `phys_alloc.c` |

Where the code and its documentation differ, the code is modelled. Claims that turned out not to hold are stated with
the exact condition under which they do: the header probe of the editors (`ReadWrite.RwErrorMeans`, `WrapPasses`), the
room test of partial in-place updates (`InPlace.PartialRoom`, `PartialWraps`), the room test of the writer's string table
(`SeqWrite.StringRoomExact`, `StringRoomWraps`), the rollback after a failed property addition
(`ReadWrite.AddProperty`), the boot CPU number after `fdt_open_into` (`Relocate.BootCovered`, `BootLost`), page addresses
with several regions of RAM (`PhysAlloc.FoundIsIntended`, `SecondRegionLost`), the pages marked for the bitmap
(`PhysAlloc.Allocator.BitmapKeptExact`, `PhysAlloc.BitmapHandedOut`), page numbers of addresses at the end of a region (`PhysAlloc.PpnIsIntended`,
`PageBehindNumbered`), the debug assertion of `bitmap_free_slot` (`Bitmaps.LastBelow`, `FreeAssertionExact`), the walk of
`fdt_get_path` behind the root (`Paths.PopsRoot`, `PopStays`, `RootPopped`), and local fixups that list words outside
the value (`References.StoresStay`, `StoreBehind`).

## Model

| member | source | states |
|---|---|---|
| FdtCore.OffsetPtr | libfdt/fdt.c:129-146 | the 32-bit range tests accept exactly the ranges inside the structure block |
| FdtCore.NextTag | libfdt/fdt.c:148-204 | the loop over offsets returns the tag and the next aligned offset, or the error, of the tag stream |
| Tags.NextTagFails | libfdt/fdt.c:148-204 | TRUNCATED exactly when the tag does not lie in the block; BADSTRUCTURE exactly for an unknown tag, a name without end, or a property that does not lie in the block |
| Forests.NextTagItem | libfdt/fdt.c:148-204 | on an encoded item, the tag is the item's and the next offset is the end of its cells, padding included |
| FdtCore.CheckNodeOffset | libfdt/fdt.c:206-214 | the offset behind the begin tag for an aligned offset of one, else BADOFFSET |
| FdtCore.CheckPropOffset | libfdt/fdt.c:216-224 | the offset behind the property for an aligned offset of one, else BADOFFSET |
| FdtCore.NextNode | libfdt/fdt.c:226-261 | the loop finds the next begin tag and the depth there, or comes out of the tree, as the walk does |
| Traverse.WalkHas | libfdt/fdt.c:226-261 | walking over an encoded forest visits its nodes in preorder, each with its depth in the tree, NOPs or not, and goes on exactly behind it |
| Traverse.SubtreeHas | libfdt/fdt.c:226-261 | from a node, the walk visits exactly the nodes below it and ends at the first byte behind the subtree |
| FdtCore.FirstSubnode | libfdt/fdt.c:263-270 | the first node at depth 1, or NOTFOUND |
| Traverse.FirstSubnodeHas | libfdt/fdt.c:263-270 | that is the first child of the encoded node |
| FdtCore.NextSubnode | libfdt/fdt.c:272-285 | the next visited node at depth 1 that is reached before the parent is left, or NOTFOUND |
| Traverse.NextSubnodeHas | libfdt/fdt.c:272-285 | that is the next sibling of the encoded node |
| ReadWrite.FindStringLen | libfdt/fdt.c:287-295 | an offset at which the table holds the string, or none if it holds it nowhere |
| Relocate.Move | libfdt/fdt.c:297-306 | whatever the overlap, the bytes of the tree arrive in the new buffer; which error comes when |
| ReadOnly.GetString | libfdt/fdt_ro.c:34-98 | the terminated string at an offset of the strings block, or BADOFFSET and TRUNCATED exactly when there is none |
| ReadOnly.NextProp | libfdt/fdt_ro.c:203-225 | the next property behind NOPs, or the error |
| ReadOnly.GetProperty | libfdt/fdt_ro.c:399-428 | the first property of that name and its length, or an error |
| Traverse.GetPropertyHas | libfdt/fdt_ro.c:399-428 | on an encoded node, property lookup finds exactly the first property of that name among those that come first |
| Trees.PropPathAbs | libfdt/fdt_ro.c:399-428 | lookup in the encoding is lookup in the tree |
| ReadOnly.GetName | libfdt/fdt_ro.c:305-341 | the place and length of a node's name, or the error |
| ReadOnly.NodenameEq | libfdt/fdt_ro.c:13-32 | a node answers to its name and to its name without the unit address |
| Walk.AnswersExact | libfdt/fdt_ro.c:13-32 | a node answers to a name exactly when it is called so, or so with an at sign and a unit address behind it, and the name asked for has no at sign |
| ReadOnly.SubnodeOffset | libfdt/fdt_ro.c:227-244 | the loop finds the first visited node at depth 1 that answers to the name |
| Traverse.SubnodeOffsetHas | libfdt/fdt_ro.c:227-244 | on an encoded node, that is the first child that answers, or NOTFOUND if there is none |
| Trees.ChildExact | libfdt/fdt_ro.c:227-244 | a child is found exactly when one is called by the name, or by it and a unit address; it is the first such child |
| Traverse.UnitFound | libfdt/fdt_ro.c:227-244 | in the bytes of a node whose only child has a unit address, the name without it leads to that child |
| ReadOnly.FirstPropertyOffset | libfdt/fdt_ro.c:343-351 | where the property iteration of a node starts |
| ReadOnly.NextPropertyOffset | libfdt/fdt_ro.c:353-359 | where the property iteration goes on |
| Paths.SupernodeAtdepthOffset | libfdt/fdt_ro.c:625-661 | for every node of the tree, the true ancestor at the given depth, and the true depth; NOTFOUND outside that range |
| Paths.ParentOffset | libfdt/fdt_ro.c:663-683 | for every node of the tree, its parent; NOTFOUND for the root |
| Paths.GetPath | libfdt/fdt_ro.c:573-623 | for every offset before the end of the root: for a node, succeeds exactly when buflen is at least 2 and path and terminator fit, and the buffer then holds the path; BADOFFSET where no node begins; nothing is written behind buflen |
| Paths.PopsRoot | libfdt/fdt_ro.c:584-590 | the component of the root is popped exactly for offsets from the end of the root on |
| Paths.PopStays | libfdt/fdt_ro.c:587-590 | the search for the slash in front of a component stays in the buffer exactly when there are two components |
| Paths.RootPopped | libfdt/fdt_ro.c:584-590 | the smallest tree, with an offset for which the search leaves the buffer |
| Paths.PathOffset | libfdt/fdt_ro.c:252-303 | components are looked up one after the other; an empty path is BADPATH |
| Paths.PathSteps | libfdt/fdt_ro.c:272-298 | slashes are passed over, each component leads from a node to its child, and what follows is looked up from there |
| Paths.PathInverse | libfdt/fdt_ro.c:252-298 | looking up the printed path of a node leads back to that node, if names are not empty, free of slashes and not shadowed by an earlier sibling |
| Reserve.CountRsv | libfdt/fdt_ro.c:189-201 | the number of entries up to the first of size 0, or TRUNCATED if the blob ends before |
| Reserve.NumMemRsv | libfdt/fdt_ro.c:189-201 | the length of the reserve list |
| Reserve.RsvExact | libfdt/fdt_ro.c:189-201 | the list ends at the first entry whose size bytes are all 0; there is none exactly when no such entry lies in the blob |
| Reserve.EntryBytes | libfdt/fdt_ro.c:175-187 | address and size of an entry are its two big-endian numbers of eight bytes |
| ReadOnly.RoErrorExact | libfdt/fdt.c:17-45 | which headers the readers accept, and which error the others get |
| ReadWrite.RwProbe | libfdt/fdt_rw.c:31-45 | which headers the editors accept, and the version they leave |
| ReadWrite.RwErrorExact | libfdt/fdt_rw.c:13-45 | which headers the editors accept, block by block, and which error the others get |
| ReadWrite.RwErrorMeans | libfdt/fdt_rw.c:13-23 | the blocks are in order exactly when the header passes and no block end wraps around 2^32 |
| ReadWrite.WrapPasses | libfdt/fdt_rw.c:13-23 | a header whose structure block does not lie in the blob, and which passes |
| ReadWrite.Splice | libfdt/fdt_rw.c:59-73 | fails with NOSPACE exactly when the data would not fit; else everything behind the hole moves and nothing else |
| ReadWrite.SpliceBlocks | libfdt/fdt_rw.c:88-100 | the structure block gets a hole of the new length, the strings and all that is in front stay as they are |
| Forests.PutHas | libfdt/fdt_rw.c:88-100 | splicing the encoding of a part into an encoding encodes the forest with that part replaced |
| Edits.FinishSplice | libfdt/fdt_rw.c:88-100 | the same for a whole structure block with its end tag |
| ReadWrite.FindAddString | libfdt/fdt_rw.c:132-160 | an offset that denotes exactly the name; the table is the old one, or the old one with the name behind it |
| Trees.AbsAppend | libfdt/fdt_rw.c:132-160 | adding strings at the end changes no name of any property |
| ReadWrite.AddProperty | libfdt/fdt_rw.c:220-251 | a property tag is put in front of the others; on NOSPACE all is as before if namelen is the length of name, and otherwise the size of the strings is off by exactly the difference |
| ReadWrite.SetPropNamelen | libfdt/fdt_rw.c:276-316 | the tree becomes the old one with the property set, header, reserve map and other nodes stay; NOSPACE exactly when it does not fit, and then, for a whole name, nothing changes |
| ReadWrite.SetPropPlaceholder | libfdt/fdt_rw.c:276-300 | the property is set to some value of the given length, at the offset returned; on NOSPACE nothing changes |
| Trees.SetMeans | libfdt/fdt_rw.c:276-316 | setting a property changes its value, no other value and no child |
| ReadWrite.AppendProp | libfdt/fdt_rw.c:325-351 | the value is extended, an absent property is added; NOSPACE exactly when it does not fit; the blob grows by that much |
| Trees.AppendMeans | libfdt/fdt_rw.c:325-351 | appending extends one value and changes nothing else |
| ReadWrite.DelProp | libfdt/fdt_rw.c:353-366 | the property is taken out of the tree and its bytes out of the blob, or NOTFOUND |
| Trees.RemoveMeans | libfdt/fdt_rw.c:353-366 | the property is gone, other values and all children are kept |
| NodeEdit.SetName | libfdt/fdt_rw.c:253-274 | the node gets the new name, its entries and everything else stay; NOSPACE exactly when it does not fit; the blob grows or shrinks by the difference |
| NodeEdit.AddSubnode | libfdt/fdt_rw.c:368-415 | EXISTS exactly when a child answers to the name; else a childless node is added and its offset returned; NOSPACE exactly when it does not fit |
| Trees.AddChildMeans | libfdt/fdt_rw.c:390-396 | the new child comes behind the properties and before the other children, which are kept |
| NodeEdit.DelNode | libfdt/fdt_rw.c:417-429 | the node and all below it are taken out of the tree, and their bytes out of the blob |
| Trees.OthersKept | libfdt/fdt_rw.c:200-429 | an edit of one node leaves the name and the body of every node aside from it as they are |
| Edits.RenameEncodes | libfdt/fdt_rw.c:253-274 | a new begin tag with the rest moved along encodes the renamed forest |
| Edits.NewNodeEncodes | libfdt/fdt_rw.c:368-410 | begin tag and end tag put in at a place encode a new childless node there |
| Reserve.AddMemRsv | libfdt/fdt_rw.c:162-181 | the entry becomes the last one, or with size 0 a new end of the list; the tree stays |
| Reserve.DelMemRsv | libfdt/fdt_rw.c:183-198 | entry n is taken out of the list, or NOTFOUND; the tree stays |
| Packing.PackBlocks | libfdt/fdt_rw.c:431-452 | none of the three moves overwrites a block that is still to be moved |
| Packing.Pack | libfdt/fdt_rw.c:524-539 | tree and reserve list are kept, totalsize is exactly the sum of the parts, and packing again changes nothing |
| Relocate.OpenInto | libfdt/fdt_rw.c:454-522 | for every overlap of the buffers: reserve list, structure and strings arrive byte for byte, in order, and the boot CPU number is the one that BootAnswer gives; when it succeeds and which error it gives is said by OpenErrorExact |
| Relocate.OpenErrorExact | libfdt/fdt_rw.c:454-522 | TRUNCATED exactly when the reserve map has no end in the blob; blocks in order succeed exactly when the buffer holds the old blob; others exactly when the packed size fits, at the start of the buffer apart from the old blob or else behind it |
| Relocate.BootKept | libfdt/fdt_rw.c:496-519 | that is the old number if the blocks were in order or the new tree does not cover its place |
| Relocate.BootCovered | libfdt/fdt_rw.c:496-519 | otherwise it is the word of the new tree that comes to lie there: another header field, what was behind the old tree, or a word of the reserve map, structure or strings |
| Relocate.BootLost | libfdt/fdt_rw.c:496-519 | a tree whose number is lost when it is opened in place |
| Views.OpenedValid | libfdt/fdt_rw.c:454-522 | the new buffer holds the same tree and reserve list, with the blocks in an order that the editors accept |
| Relocate.PackInto | libfdt/fdt_rw.c:431-452 | the blocks arrive one behind the other and the header says where |
| InPlace.SetPropInplacePartial | libfdt/fdt_wip.c:13-31 | only the bytes at idx change; NOSPACE exactly when they would not lie in the value |
| InPlace.PartialRoom | libfdt/fdt_wip.c:26-27 | exactly when the unsigned room test is right |
| InPlace.PartialWraps | libfdt/fdt_wip.c:26-27 | an update far outside the value that passes the test |
| InPlace.SetPropInplace | libfdt/fdt_wip.c:33-49 | a value of the same length is replaced, and only its bytes change |
| InPlace.NopRegion | libfdt/fdt_wip.c:51-57 | exactly the cells that cover the region become NOPs |
| InPlace.NopProperty | libfdt/fdt_wip.c:59-71 | the tree becomes the one fdt_delprop makes, only bytes of the property change |
| InPlace.NodeEndOffset | libfdt/fdt_wip.c:73-81 | the offset with which the walk leaves the node |
| InPlace.NodeEnds | libfdt/fdt_wip.c:73-81 | that is the end of the bytes of the subtree |
| InPlace.NopNode | libfdt/fdt_wip.c:83-94 | the tree becomes the one fdt_del_node makes, only bytes of the subtree change |
| Trees.RemoveAbs | libfdt/fdt_wip.c:59-71 | taking a property out and turning it into any number of NOPs give the same tree |
| Checking.HeaderErrorMeans | libfdt/fdt.c:79-127 | a header passes exactly when magic and versions are supported, the blocks aligned and all between the header and totalsize, and totalsize within the buffer; which error stands for what |
| Checking.CheckBlockMeans | libfdt/fdt.c:51-59 | the wrapping tests accept exactly the blocks between header and end |
| Checking.CheckTags | libfdt/fdt_check.c:40-97 | the loop ends on every content and answers as the walk over the tags does |
| Checking.AcceptsExactly | libfdt/fdt_check.c:40-97 | the walk accepts exactly the encodings of a forest with at most one root, of empty name, only NOPs behind it, and all property names in the strings |
| Checking.CheckFull | libfdt/fdt_check.c:13-98 | accepts exactly the buffers with a good header, an ended reserve map and such a structure block |
| Checking.EncodesUnique | libfdt/fdt_check.c:40-97 | the bytes of a structure block determine the forest, so a blob means one tree only |
| Checking.RootPasses | libfdt/fdt_check.c:13-98 | a tree in good order with a single root passes |
| SeqWrite.Create | libfdt/fdt_sw.c:109-141 | the initial state: every header field, and an empty reserve map behind the header; the errors change nothing |
| SeqWrite.AddReservemapEntry | libfdt/fdt_sw.c:188-206 | the entry is added in the first phase only; otherwise BADSTATE, BADMAGIC or NOSPACE and nothing changes |
| SeqWrite.FinishReservemap | libfdt/fdt_sw.c:208-217 | the list is ended and the structure phase begins |
| SeqWrite.PhasesExclude | libfdt/fdt_sw.c:13-81 | while the reserve map is written, the calls of the structure phase are refused with BADSTATE, and the other way round; a finished blob refuses them all |
| SeqWrite.GrabSpace | libfdt/fdt_sw.c:94-107 | succeeds exactly when structure and strings would still not overlap |
| SeqWrite.BeginNode | libfdt/fdt_sw.c:219-234 | the tags written so far are followed by a begin tag with the name; in the wrong phase nothing changes |
| SeqWrite.EndNode | libfdt/fdt_sw.c:236-248 | the same for an end tag |
| SeqWrite.StringRoomExact | libfdt/fdt_sw.c:257-260 | exactly when the unsigned room test for a new string is right |
| SeqWrite.StringRoomWraps | libfdt/fdt_sw.c:257-260 | a string longer than the buffer that passes the test |
| SeqWrite.AddString | libfdt/fdt_sw.c:250-265 | the string is added in front of the others, or there is no room and nothing changes |
| SeqWrite.FindAddString | libfdt/fdt_sw.c:276-291 | a negative offset that denotes exactly the name; all other strings keep theirs |
| Events.EventsGrow | libfdt/fdt_sw.c:250-265 | strings added in front leave the name of every property written so far |
| SeqWrite.PutPlaceholder | libfdt/fdt_sw.c:293-323 | the three words are written behind the structure; on NOSPACE a name just added is taken off again and all is as before |
| SeqWrite.Property | libfdt/fdt_sw.c:325-336 | the tags are followed by the property with name and value; on failure structure, strings and sizes are as before |
| SeqWrite.FixNames | libfdt/fdt_sw.c:357-373 | the walk turns every name offset from the end into one from the start, for the same name |
| Events.NameRefFixed | libfdt/fdt_sw.c:366-368 | adding the size of the strings turns the one offset into the other |
| SeqWrite.RelocateStrings | libfdt/fdt_sw.c:350-354 | the strings move down behind the structure unharmed |
| SeqWrite.Finish | libfdt/fdt_sw.c:338-385 | a complete blob of the tags written, with all blocks in order and nothing behind them, of version 17, compatible with 16, with the boot CPU as before |
| SeqWrite.FinishedTree | libfdt/fdt_sw.c:338-385 | what was written for a tree encodes exactly that tree |
| SeqWrite.NameShared | libfdt/fdt_sw.c:276-291 | unless names are not to be shared, a name written before takes up no room again |
| SeqWrite.NameTakesRoom | libfdt/fdt_sw.c:276-291 | a name takes up room exactly when names are not to be shared, or the strings so far do not spell it, be it as the end of a longer one |
| SeqWrite.WriteEvents | libfdt/fdt_sw.c:219-336 | a run of calls succeeds exactly when structure and strings of all of them fit, every name looked up in the strings so far |
| SeqWrite.TableSafe | libfdt/fdt_sw.c:250-265 | the room test of no call wraps around if the strings of all calls fit in the buffer |
| SeqWrite.ShortNamesSafe | libfdt/fdt_sw.c:250-265 | nor does it in any buffer if no property name is longer than header and reserve map, that is, than 63 characters |
| SeqWrite.WriteTree | libfdt/fdt_sw.c:109-385 | writing a tree and a reserve list succeeds exactly when header, list, structure and shared strings fit; reading then gives the same names, values, nesting and entries, every header field is given, and fdt_check_full accepts it |
| Relocate.Resize | libfdt/fdt_sw.c:148-186 | header, reserve map, structure and strings survive the move for every overlap of the buffers |
| Relocate.ResizeErrorExact | libfdt/fdt_sw.c:148-186 | it succeeds exactly on an unfinished tree that fits in the old and in the new buffer; which error comes when |
| Views.ResizedWritten | libfdt/fdt_sw.c:148-186 | the unfinished tree in the new buffer consists of the same tags, names included |
| Views.ResizedReserving | libfdt/fdt_sw.c:148-186 | while the reserve map is written, it holds the same entries |
| Relocate.MoveEnds | libfdt/fdt_sw.c:167-179 | the order of the two moves is right for every overlap |
| Merging.MergedProps | libfdt/fdt_overlay.c:774-795 | after a merge, the overlay's properties override those of the same name and the others are kept |
| Merging.MergedKids | libfdt/fdt_overlay.c:797-822 | the overlay's children are merged recursively into the children that answer to their names, or into new ones; other children are kept |
| Applying.ApplyProps | libfdt/fdt_overlay.c:774-795 | the first loop turns the target's body into its merge with the overlay's properties |
| Applying.ApplyNode | libfdt/fdt_overlay.c:768-825 | on two blobs, the base tree becomes the old one with the overlay node merged into the target; every offset that is held on to stays valid across all edits; it runs out of room only if there is less than the names, values and tags of the node take |
| Overlay.AdjustVal | libfdt/fdt_overlay.c:101-167 | all phandles of the overlay are shifted, without wrapping around, and nothing else changes |
| Renumber.PhandleAddOffset | libfdt/fdt_overlay.c:101-120 | on the blob, one phandle is shifted in place; NOPHANDLES exactly when it would wrap around or become -1, BADPHANDLE when it is no word |
| Renumber.AdjustNodePhandles | libfdt/fdt_overlay.c:137-158 | on the blob, both phandle properties of the node and of all below it are shifted, or the error comes that the tree function foresees |
| Overlay.MapVal | libfdt/fdt_overlay.c:201-274 | a pass over the local fixups changes exactly the values that they list |
| References.UpdateWords | libfdt/fdt_overlay.c:236-247 | the loop over the listed offsets maps the words of the value in place, one after the other, while the offsets are read from the same blob |
| References.StoresStay | libfdt/fdt_overlay.c:236-247 | the loop leaves what lies behind a value alone, whatever is there, exactly when every listed word lies in the value |
| References.StoreBehind | libfdt/fdt_overlay.c:236-247 | a listed offset with which the end tag behind a value becomes a property tag |
| References.UpdateNode | libfdt/fdt_overlay.c:201-269 | on the blob, the tree of the node becomes the one with the listed words mapped, recursively; else the error |
| References.UpdateReferences | libfdt/fdt_overlay.c:288-306 | the same from the root, or nothing if there are no local fixups |
| Overlay.MapWordsAt | libfdt/fdt_overlay.c:236-247 | every listed word is changed once, if the listed words do not overlap |
| Overlay.ConflictMeans | libfdt/fdt_overlay.c:510-533 | the phandle properties of one node get the new value, all else is kept |
| Conflicts.AdjustConflictingPhandle | libfdt/fdt_overlay.c:510-531 | on the blob, a phandle property of the node that carries the other phandle is overwritten |
| Conflicts.ResolveConflict | libfdt/fdt_overlay.c:547-642 | on the blob, the node gets the phandle of the base, and every listed word that referred to it follows |
| Conflicts.PreventOverwriteNode | libfdt/fdt_overlay.c:655-699 | on two blobs, the recursion over overlay node and base node makes the overlay that the tree function gives, fixups untouched |
| Overlay.ResolveRefs | libfdt/fdt_overlay.c:655-683 | taking over a base phandle keeps every reference, to that node and to all others |
| Overlay.PreventNodeKeeps | libfdt/fdt_overlay.c:655-701 | over a whole walk: phandles of base nodes are taken over where base and overlay meet, references are kept, phandles elsewhere stay |
| OverlayApply.PreventAllKeeps | libfdt/fdt_overlay.c:714-747 | the same for all fragments, none disturbing another |
| Targets.TargetOffset | libfdt/fdt_overlay.c:28-85 | the node of the base that a fragment is for, by phandle or by path, or the error; and the path if it was used |
| Targets.TargetErrors | libfdt/fdt_overlay.c:28-85 | a phandle that is no word or the largest one is bad, one that no node carries is not found; without a phandle, a fragment needs a path that starts with a slash and leads to a node |
| Fragments.PreventOverwrite | libfdt/fdt_overlay.c:714-747 | on two blobs, the loop over the fragments, each with its looked-up target |
| Fragments.MergeOverlay | libfdt/fdt_overlay.c:830-860 | on two blobs, every fragment is merged into its target, which is looked up in the base as merged so far; it runs out of room only if there is less than the fragments take |
| Fragments.FdtOverlayApply | libfdt/fdt_overlay.c:1041-1101 | on two blobs, the base becomes the tree that ApplyTree gives, or the call fails with its error, or with NOSPACE if there is less room than fragments and symbols take; on failure the base loses its magic, the overlay always does |
| Overlay.Prepared | libfdt/fdt_overlay.c:1049-1067 | after the first two passes all phandles are above those of the base |
| Overlay.PreparedRefs | libfdt/fdt_overlay.c:1049-1067 | and every reference names the node it named |
| OverlayApply.MergeVal | libfdt/fdt_overlay.c:768-825 | after a merge every value is the overlay's if it has one and else the base's |
| OverlayApply.MaxBounds | libfdt/fdt_ro.c:114-140 | no phandle of the base is above the maximum |
| Success.MaxExact | libfdt/fdt_ro.c:114-140 | the maximum is the phandle of some node, at whatever depth, or 0, and no node has a larger one |
| Phandles.NextNode | libfdt/fdt.c:226-261 | without a depth: the next begin tag, wherever, or NOTFOUND at the end |
| Phandles.PhandleHas | libfdt/fdt_ro.c:513-528 | on an encoded node, phandle or else linux,phandle of its tree, if it is a word; else 0 |
| Phandles.MaxHas | libfdt/fdt_ro.c:114-140 | walking over an encoded forest takes the largest phandle of its tree |
| Phandles.FindMaxPhandle | libfdt/fdt_ro.c:114-140 | the largest phandle of the whole tree |
| Phandles.FindHas | libfdt/fdt_ro.c:712-735 | walking over an encoded forest finds its first node with the phandle |
| Phandles.PhandlePathMeans | libfdt/fdt_ro.c:712-735 | that place carries the phandle, and no node before it does |
| Phandles.NodeOffsetByPhandle | libfdt/fdt_ro.c:712-735 | the offset of that node, NOTFOUND if there is none, BADPHANDLE for 0 and -1 |
| OverlayApply.ReferencesSurvive | libfdt/fdt_overlay.c:1041-1086 | with targets by address, every word listed by the local fixups names, in the merged tree, what the node it named has become |
| OverlayApply.ResolvesOnly | libfdt/fdt_overlay.c:1041-1086 | and no other node of the merged tree carries that phandle, if the base's phandles are distinct |
| OverlayApply.BasePhandlesKept | libfdt/fdt_overlay.c:640-747 | every base node that had a phandle keeps it through the whole application |
| Survival.TargetFound | libfdt/fdt_overlay.c:28-85 | a target that aims at an address is looked up to the node at that address |
| Survival.ApplyLinked | libfdt/fdt_overlay.c:1041-1086 | looking up targets in the trees as the code does gives the tree, or the error, of the application by address |
| Survival.ReferenceResolves | libfdt/fdt_overlay.c:1041-1086 | in the merged tree, every listed word is the phandle of what its node has become, and of no other node |
| Symbols.ParseExact | libfdt/fdt_overlay.c:935-978 | exactly the texts of the form /fragment/__overlay__ or /fragment/__overlay__/rel, with one terminator, are read as a symbol of that fragment |
| Symbols.GetPathLen | libfdt/fdt_overlay.c:862-888 | the length of the path that fdt_get_path prints |
| Symbols.GetPathInto | libfdt/fdt_ro.c:573-623 | the path is printed into a value of the tree that is walked: the walk is not disturbed and no other part of the blob changes |
| Symbols.SetSymbol | libfdt/fdt_overlay.c:985-1033 | the symbol becomes the path of the target, the relative path and a terminator, and these fill the placeholder exactly |
| Symbols.UpdateSymbol | libfdt/fdt_overlay.c:933-1036 | one round of the loop: the symbol is set, passed over, or the error comes that the tree function foresees |
| Symbols.SymbolUpdate | libfdt/fdt_overlay.c:906-1039 | on two blobs, the base becomes the tree with all symbols set |
| Outcome.ReferenceLeads | libfdt/fdt_overlay.c:1041-1086 | after the symbols, too, looking up a listed word as a phandle leads to what its node has become |
| Outcome.SymbolLeads | libfdt/fdt_overlay.c:906-1039 | every symbol of a fragment is, in the merged tree, a path that leads to the node into which its node has been merged |
| Outcome.ApplyOverlay | libfdt/fdt_overlay.c:1041-1101 | on success of fdt_overlay_apply: references and symbols lead to the merged nodes, the phandles of the base and its reserve map are kept; with room for fragments and symbols and with good symbols, it succeeds exactly when phandles, fixups and targets are faultless |
| Success.AddOffsetExact | libfdt/fdt_overlay.c:101-120 | the shift fails exactly for a property that is no word (BADPHANDLE) or whose sum reaches the largest word (NOPHANDLES) |
| Success.AdjustExact | libfdt/fdt_overlay.c:137-158 | the pass succeeds exactly when every phandle property, at every depth, is a word whose sum with the offset stays below the largest word |
| Success.MapExact | libfdt/fdt_overlay.c:201-269 | the pass succeeds exactly when every listed node and property is there and every list is of whole words |
| Success.PreventAllOk | libfdt/fdt_overlay.c:714-747 | taking over the phandles of the base succeeds on every overlay in good order whose fixups list what is there |
| Success.MergeAllExact | libfdt/fdt_overlay.c:830-860 | the merge succeeds exactly when every fragment's target is there when its turn comes |
| Outcome.MergeExact | libfdt/fdt_overlay.c:1041-1086 | without symbols, the application has no error exactly when phandles, fixups and targets are faultless |
| Outcome.ApplySucceeds | libfdt/fdt_overlay.c:1041-1086 | the same with symbols that are well formed |
| Fragments.FragsBound | libfdt/fdt_overlay.c:768-860 | the room for the merges is no more than what the overlay itself takes, when no name is shared |
| Witness.InGoodOrder | libfdt/fdt_overlay.c:1041-1086 | a base, an overlay, a reference and a symbol that meet all these conditions |
| Witness.Succeeds | libfdt/fdt_overlay.c:1041-1086 | and to which the overlay is applied without error |
| Bitmaps.CountTrailingZeroes | src/klibc/bitwise_utils.c:15-22 | the lowest set bit, or 32 |
| Bitmaps.Bitmap.Init | src/klibc/bitmap.c:27-37 | all slots are free and counted |
| Bitmaps.Bitmap.IsSlotUsed | src/klibc/bitmap.c:9-11 | whether the bit of a slot is set |
| Bitmaps.Bitmap.AllocateSlot | src/klibc/bitmap.c:39-53 | the lowest free slot becomes used, and no other; -1 exactly when all are used |
| Bitmaps.Bitmap.FreeSlot | src/klibc/bitmap.c:55-63 | the slot becomes free, and is counted if it was used |
| Bitmaps.Bitmap.FreeSlotAsserted | src/klibc/bitmap.c:55-63 | with the debug assertion: halts and changes nothing exactly when the slot is not below the number of words |
| Bitmaps.Bitmap.FreeLast | src/klibc/bitmap.c:39-63 | n allocations and freeing the last slot: halts exactly when fewer than n slots below the number of words were free, and else undoes the last allocation |
| Bitmaps.LastBelow | src/klibc/bitmap.c:39-63 | the n-th slot handed out lies below m exactly when at least n slots below m were free |
| Bitmaps.Bitmap.EnableBit | src/klibc/bitmap.c:18-25 | a slot of the bitmap becomes used, others are ignored |
| Bitmaps.Bitmap.MarkAsUsed | src/klibc/bitmap.c:65-71 | exactly the slots of the range become used; the count of free slots is off by those that were free |
| Bitmaps.FreeAssertionExact | src/klibc/bitmap.c:55-56 | after n allocations from a fresh bitmap, freeing the slot just returned meets the debug assertion exactly when n is at most the number of words |
| Bitmaps.RunMeans | src/klibc/bitmap.c:39-53 | every run of allocations returns distinct free slots, lowest first, and as many as there are |
| PhysAlloc.PhysicAddrToPpn | src/mem/phys_alloc.c:22-35 | the pages of all regions before the first one that holds the page, its end included, plus the pages before it there; -1 exactly when no region holds it |
| PhysAlloc.PpnIsIntended | src/mem/phys_alloc.c:22-35 | that number is the documented one of the page exactly unless the page starts at the end of that region and the next region does not |
| PhysAlloc.PageBehindNumbered | src/mem/phys_alloc.c:22-35 | a page behind a single region that gets a number all the same |
| PhysAlloc.FindPhysicalAddrOfPage | src/mem/phys_alloc.c:50-60 | the address in the first region with more pages than the number |
| PhysAlloc.FoundIsIntended | src/mem/phys_alloc.c:37-60 | that is the documented address exactly for pages of the first region and for numbers behind the last page |
| PhysAlloc.SecondRegionLost | src/mem/phys_alloc.c:37-60 | a page of a second region for which no address is found |
| PhysAlloc.BorrowExact | src/mem/phys_alloc.c:146-148 | the number of pages marked for the bitmap is right exactly up to 128 MiB of RAM |
| PhysAlloc.Allocator.BitmapKeptExact | src/mem/phys_alloc.c:78-150 | after init_phys_allocator, all pages of the bitmap are used exactly up to 128 MiB of RAM |
| PhysAlloc.BitmapHandedOut | src/mem/phys_alloc.c:78-158 | with 129 MiB, a run of init and one allocation that hands out a page of the bitmap |
| PhysAlloc.Allocator.Init | src/mem/phys_alloc.c:78-150 | for one region: it finds a place for the bitmap exactly when there is one apart from the kernel (or panics if that is address 0), the start of RAM if it fits there, else the end of the kernel; then exactly the kernel's pages and those marked for the bitmap are used, and the latter are all pages of the bitmap exactly up to 128 MiB |
| PhysAlloc.Allocator.AllocatePage | src/mem/phys_alloc.c:152-158 | the lowest free page: aligned, in RAM, outside the kernel and, up to 128 MiB, outside the bitmap; NULL exactly when no page is left |
| PhysAlloc.Allocator.RunsAreSafe | src/mem/phys_alloc.c:152-158 | every run returns distinct such pages, lowest first, and after NULL only NULL |

## Left out

- Versions of the format below 17, assumption masks other than 0, and the realignment of old property values: they multiply cases without adding hard ones.
- The alignment of the blob's own address, which the probes test: taken as given.
- FdtCore.OffsetPtr: requires the structure block to lie in the blob, as do all readers; headers with a block that reaches behind totalsize are not modelled beyond the validator, which rejects them.
- ReadOnly.GetString: does not model reading strings of an unfinished tree by negative offsets.
- Checking.CheckFull: does not model headers of versions below 17.
- ReadWrite.SetPropNamelen: requires a node offset that is that of a node of the tree or of no begin tag at all; offsets into a value that happens to look like a begin tag are not modelled, and names and values are at most 2^31 - 33 bytes long. The same holds for the other editors.
- InPlace.SetPropInplacePartial: requires that idx + len does not wrap around; PartialRoom says when the test in the code is right without that.
- SeqWrite.AddString: requires that the strings with the new one are not longer than the buffer; StringRoomExact says that the room test is right exactly then, and else the code would write in front of the buffer.
- SeqWrite.FindAddString: requires the same, and only for a name that is not in the strings yet.
- SeqWrite.PutPlaceholder: requires the same as FindAddString.
- SeqWrite.Property: requires the same as FindAddString.
- SeqWrite.WriteTree: requires the same of every call that is reached; TableSafe and ShortNamesSafe say which trees meet that.
- SeqWrite.Create: does not model a buffer of exactly 2^31 - 1 bytes.
- Packing.Pack: requires that the reserve map ends before the structure block, which the probe does not check.
- Relocate.OpenInto: does not model version 16, and requires that the blocks together are at most 2^31 - 1 bytes.
- Paths.GetPath: requires names without slashes and an offset before the end of the root; behind that the code reads in front of its buffer, as PopsRoot and PopStays say.
- Paths.PathOffset: does not model paths that start with an alias.
- Targets.TargetOffset: answers BADPATH for a target-path that starts with an alias or has no terminator, where the code would look up the alias or read on.
- ReadWrite.SetPropPlaceholder: requires the offset of a node and a header that the probe accepts, as in its only use.
- Symbols.GetPathLen: requires node names that are not empty and have no slash.
- Symbols.GetPathInto: requires node names without slashes.
- Symbols.UpdateSymbol: requires that the symbol is not called like a phandle, which could change the target while it is set.
- Symbols.SymbolUpdate: requires the same of all symbols, and names without slashes.
- Header fields are fields of the class Fdt, not bytes of its memory, except in Relocate, where they are bytes.
- Overlay.MapVal: requires fixups whose names are exact and whose words lie in their values; StoresStay says what happens otherwise.
- References.UpdateWords: requires that the listed words lie in the value.
- References.UpdateReferences: requires what UpdateNode requires.
- Conflicts.ResolveConflict: requires what UpdateNode requires.
- Conflicts.PreventOverwriteNode: requires that, and that no node of the overlay is shadowed by an earlier sibling.
- Fragments.PreventOverwrite: requires what PreventOverwriteNode requires.
- References.UpdateNode: requires that the listed words lie in their values and that the fixups do not list themselves.
- Fragments.FdtOverlayApply: requires an overlay without external fixups, whose local fixups list words of its values, are not fragments and carry no phandles, and in which no node is shadowed by an earlier sibling; if there are symbols, names are without slashes, no symbol is called like a phandle, and both blobs are small enough for an int to hold the length of every path.
- Survival.ApplyLinked: requires that names are exact, so that no node answers to another one's name, that phandles are distinct, and that the fixups list no target.
- Outcome.ReferenceLeads: says nothing of words in symbols, in properties that a later fragment overrides, or that name a new node on which two nodes with phandles fall.
- `overlay_fixup_phandles`: external fixups are not modelled, as their offsets are read by strtoul.
- Path lookup by alias or symbol, string lists, compatible lookup, search by property value, and the cell-count helpers: easy members.
- PhysAlloc.Allocator.Init: one region of RAM, with the memory of the bitmap handed in; sizes and kernel in whole pages, as the assertions in the code demand.
- Formatted printing, the device drivers, interrupts, and the C library functions, which are modelled by their standard meaning.
