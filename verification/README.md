# Verified models of the native parts of the hooking library

This Dafny project models the in-memory logic of the library's native code and proves what that logic is for. Each module stands for
one source file or for one part of it; methods follow the branches and loops of the C and C++ code, and are proved against functions
and predicates about which the lemmas speak.

* **Red-black tree** (`CString`, `RbGraph`, `RbInsert`, `RbRemove`, `RbSplice`, `RbOrder`, `RbTree`) — the macros of `tree.h` that
  `xh_core.c` uses, as methods of a class `Tree` whose nodes are heap objects rewritten in place. `View()` is the tree as a value, and
  `Valid` says: child and parent pointers match, keys are in search order, no red node has a red child, black heights agree.
* **Splay tree** (`SplayTree`) — the top-down splay loop with its two trees under construction, and the set operations built on it.
* **Refresh** (`RefreshSpec`, `XhCore`) — `xh_core_refresh_impl`, which rebuilds one path-keyed tree from another while moving the
  ownership of nodes, and the clean-up loops of `xh_core_clear`. `hooked`, `freed` and `created` record the calls made and the nodes
  released and created.
* **Refresh thread** (`RefreshThread`) — one API caller and the worker thread as a state machine over the steps they take between
  operations on the mutexes and the condition variable; a run is any interleaving of these steps.
* **ELF** (`Sleb128`, `PackedReloc`, `ElfSymbols`, `ElfHook`) — the SLEB128 decoder, the iterator over packed relocations, both hash
  lookups, and `xh_elf_hook` on a memory of words.
* **JNI names** (`StrHelper`, `Demangle`) — `parse_java_lang_name` and the string helpers it uses, against the mangling of native method
  names of the JNI specification, chapter 2.
* **JSON** (`JsonString`, `JsonEscapes`, `JsonNumber`, `JsonValue`, `JsonGrammar`, `JsonReader`, `JsonRfc`, `JsonLeniency`,
  `JsonFastWriter`, `JsonRoundTrip`, `JsonCanonical`, `JsonSpacing`, `JsonStyled`, `JsonLayout`, `JsonStyledWriter`,
  `JsonStyledRoundTrip`) — the class `Reader` with its cursor, node stack, error list and error recovery; the classes `FastWriter` and
  `StyledWriter`; and what ties them together. `JsonGrammar` says, on the text that is left, what the reader makes of it; `JsonRfc` holds
  the grammar of RFC 8259 as a definition of its own, with what its texts denote; `JsonLeniency` says where the reader takes more than
  that; `JsonSpacing` that white space does not matter; `JsonStyled` is the styled text and its lines, and `JsonLayout` their layout.
* **XML** (`XmlLinks`, `XmlText`, `XmlGrammar`, `XmlParser`, `XmlPrinter`, `XmlSyntax`, `XmlRoundTrip`, `XmlCanonical`) — the sibling
  links of nodes, the decoding of entities in place, the recursive descent of the parser over its buffer, and the compact path of the
  printer. `XmlGrammar` says, on the text that is left, what the parser makes of it, and `XmlSyntax` what it accepts beyond what the
  printer writes.

`Prelude` holds the definitions that several modules share.

Places where the code differs from what one would expect; each has an input on which it does, and the exact condition under which:

* The refresh drops a library although a later hook applies to it, when the first matching hook is ignored by its symbol
  (`FilterDropsHookedLibrary`, `FilterAgainstCalls`).
* The demangler does not find a name again in which a dot is followed by a dot, an underscore or the digits 0 or 1, although a Java name
  may start with an underscore (`UnderscoreLost`, `DemangleUndoesMangle`), and reads behind its list of pieces on a symbol such as
  `Java_a_b__` (`PastEndExample`, `WhenPastEnd`).
* `replace_all(s, "_", "_1")` ends only if s holds no underscore (`UnderscoresNeverEnd`, `EndsUnlessThere`).
* The JSON reader takes a minus sign alone for zero and passes over leading zeros (`LoneMinus`, `TakenAnyway`), takes a slash that ends
  the text for the end of a comment (`SlashEndsComment`, `CStyleCommentEnds`), and after a comment behind a member takes any token for a
  comma (`ColonAccepted`, `CommasInsisted`). It takes a comma before a closing brace exactly behind a member with an empty name
  (`LastCommaAccepted`, `LastComma`), and any second escape behind a high surrogate for the other half of a pair (`OddPair`,
  `SurrogatePair`).
* A document of white space alone is refused by the XML parser, but not behind a byte order mark (`EmptyDocument`).
* The XML decoder writes nothing for an unknown entity, so the character that stood at the write pointer remains (`AmpersandLost`,
  `UnknownKept`); a text of white space alone is not read back, and texts side by side are read back as one (`BlankTextVanishes`,
  `TextsMerge`).
* A quoted string that is not well-formed UTF-8 does not come back as it was, but what comes back is well-formed (`StrayByte`,
  `QuoteThenDecode`, `RepairedIsWellFormed`).

## Parameters

Regular expressions, `xh_elf_init`, the lines of the process map, the relocation types of the machine, the well-formedness of hash
tables as a linker builds them, XML character references, the conversion between text and doubles, and the result of a shift that C
leaves undefined are parameters of the model.
Calls that change memory protection succeed, allocation succeeds, and words of memory do not overlap.

## Model

| member | source | states |
|---|---|---|
| CString.StrcmpIsRankOrder | app/src/main/cpp/libxhook/xh_core.c:76-78 | `strcmp` is a linear order on path names: a string has a place on the real line, and the sign of the comparison is the order of the places |
| CString.FirstDifference | app/src/main/cpp/libxhook/xh_core.c:76-78 | behind a common front the first bytes that differ decide, and the end of a string comes before every byte |
| RbGraph.RotatedLinks | app/src/main/cpp/libxhook/tree.h:343-381 | a rotation to either side keeps the mutual child and parent pointers and the search order of the whole tree |
| RbGraph.RotatedGood | app/src/main/cpp/libxhook/tree.h:343-381 | a rotation disturbs colours and black heights at no nodes but the two it rotates and their parent |
| RbInsert.Grandparent | app/src/main/cpp/libxhook/tree.h:412-415 | whenever the insertion loop runs, the grandparent it dereferences exists and is black |
| RbInsert.RecolorStep | app/src/main/cpp/libxhook/tree.h:417-422 | red uncle: after recolouring, red-under-red can be wrong only two levels higher, and everything else still holds |
| RbInsert.RecolorClimbs | app/src/main/cpp/libxhook/tree.h:412-422 | each recolouring moves the repair point strictly up, so the loop ends |
| RbInsert.InnerRotateStep | app/src/main/cpp/libxhook/tree.h:423-428 | an inner grandchild is rotated outside without disturbing anything else |
| RbInsert.OuterRotateStep | app/src/main/cpp/libxhook/tree.h:429-430 | the colour swap and rotation for an outer grandchild leave no red node with a red child |
| RbInsert.LinkLeaf | app/src/main/cpp/libxhook/tree.h:615-624 | hanging a red leaf at the place the search found keeps every invariant but the colour rule at that leaf |
| RbInsert.BlackenRoot | app/src/main/cpp/libxhook/tree.h:449-449 | blackening the root at the end of the loop makes the tree valid |
| RbRemove.SiblingExists | app/src/main/cpp/libxhook/tree.h:456-460 | while the removal loop runs, the sibling it dereferences is a real node |
| RbRemove.PushUpStep | app/src/main/cpp/libxhook/tree.h:465-471 | black sibling with black children: reddening it moves the one missing black node up to the parent |
| RbRemove.RedSiblingStep | app/src/main/cpp/libxhook/tree.h:460-464 | red sibling: the rotation leaves the same shortage with a black sibling |
| RbRemove.InnerNephewStep | app/src/main/cpp/libxhook/tree.h:473-482 | only the inner nephew red: the rotation leaves the same shortage with a red outer nephew |
| RbRemove.OuterNephewStep | app/src/main/cpp/libxhook/tree.h:483-489 | outer nephew red: colours and one rotation supply the missing black node, and the tree is valid |
| RbRemove.RemoveDone | app/src/main/cpp/libxhook/tree.h:526-527 | blackening the node where the loop stops makes up for the missing black node |
| RbSplice.SplicedInv | app/src/main/cpp/libxhook/tree.h:579-590 | unlinking a red node leaves the tree valid; unlinking a black one leaves exactly one black node missing above its child |
| RbSplice.ReplacedInv | app/src/main/cpp/libxhook/tree.h:557-570 | putting the successor in the removed node's place keeps validity, or the one-black shortage, unchanged |
| RbSplice.SpineEnd | app/src/main/cpp/libxhook/tree.h:541-546 | the leftmost node of the right subtree, once unlinked, has a key that fits the place of the removed node |
| RbSplice.SpineDone | app/src/main/cpp/libxhook/tree.h:539-578 | removal of a node with two children: tree valid, or short of one black node where the successor was |
| RbOrder.InOrderAscends | app/src/main/cpp/libxhook/tree.h:54-63 | the in-order walk meets keys in strictly ascending order |
| RbOrder.InOrderComplete | app/src/main/cpp/libxhook/tree.h:54-63 | every node of the tree is on the in-order walk from the root |
| RbOrder.KeysDistinct | app/src/main/cpp/libxhook/tree.h:606-615 | no two nodes of a valid tree have the same key |
| RbOrder.HeightBound | app/src/main/cpp/libxhook/tree.h:54-63 | a valid tree of n nodes has height h with 2^h <= (n+1)^2, that is h <= 2 lg (n+1) |
| RbTree.Tree.RotateLeftInTree | app/src/main/cpp/libxhook/tree.h:343-361 | the field writes of the macro turn the tree into its left rotation |
| RbTree.Tree.RotateRightInTree | app/src/main/cpp/libxhook/tree.h:363-381 | the field writes of the macro turn the tree into its right rotation |
| RbTree.Tree.InsertColor | app/src/main/cpp/libxhook/tree.h:408-450 | from a tree whose only fault is the new red node, the loop ends with a valid tree |
| RbTree.Tree.FindSpot | app/src/main/cpp/libxhook/tree.h:602-614 | the search ends at a node with the key, exactly if there is one, or at the free child place where the key belongs |
| RbTree.Tree.Insert | app/src/main/cpp/libxhook/tree.h:597-626 | result null: the node set grew by exactly the new node, whose key was in no node; otherwise the result is the node with that key and no link or colour changed; the tree is valid |
| RbTree.Tree.RemoveStepLeft | app/src/main/cpp/libxhook/tree.h:456-490 | one turn for a short left child ends the repair or moves it nearer to the root, and never dereferences null |
| RbTree.Tree.RemoveStepRight | app/src/main/cpp/libxhook/tree.h:491-524 | the mirror image for a short right child |
| RbTree.Tree.RemoveColor | app/src/main/cpp/libxhook/tree.h:452-528 | from a tree short of one black node on the paths through one child, the loop ends with a valid tree |
| RbTree.Tree.SpliceOutOfTree | app/src/main/cpp/libxhook/tree.h:579-590 | the pointer writes unlink exactly the node, and give its child its place |
| RbTree.Tree.Remove | app/src/main/cpp/libxhook/tree.h:531-595 | the node set becomes the old one without the removed node, and the tree is valid: order, colours, black heights and parent pointers |
| RbTree.Tree.Find | app/src/main/cpp/libxhook/tree.h:628-645 | the node with the key, or null exactly when no node has it |
| RbTree.Tree.Next | app/src/main/cpp/libxhook/tree.h:667-687 | the node with the least key above that of the given node, or null if it has the greatest |
| RbTree.Tree.Min | app/src/main/cpp/libxhook/tree.h:711-724 | the node with the least key, or null exactly for the empty tree |
| SplayTree.OrderedIsAscending | app/src/main/cpp/libxhook/tree.h:210-243 | a tree has the search order exactly if its in-order walk ascends, so keeping the walk keeps the order |
| SplayTree.BuildTree | app/src/main/cpp/libxhook/tree.h:113-118 | a chain of linked nodes with a tree hung to its end is a tree of the shape that assembling describes |
| SplayTree.LinkedWalk | app/src/main/cpp/libxhook/tree.h:101-111 | moving the root and one subtree to the left or the right tree keeps the in-order sequence |
| SplayTree.AssembledWalk | app/src/main/cpp/libxhook/tree.h:113-118 | assembling keeps the in-order sequence |
| SplayTree.Splay.RotateRight | app/src/main/cpp/libxhook/tree.h:89-93 | the rotation keeps the in-order sequence and the search order |
| SplayTree.Splay.RotateLeft | app/src/main/cpp/libxhook/tree.h:95-99 | the mirror image |
| SplayTree.Splay.LinkRight | app/src/main/cpp/libxhook/tree.h:107-111 | the root and its left subtree join the left tree, and the loop goes on with the right subtree |
| SplayTree.Splay.LinkLeft | app/src/main/cpp/libxhook/tree.h:101-105 | the root and its right subtree join the right tree, and the loop goes on with the left subtree |
| SplayTree.Splay.Assemble | app/src/main/cpp/libxhook/tree.h:113-118 | the four stores make one tree of the left tree, the root and the right tree |
| SplayTree.Splay.SplitAt | app/src/main/cpp/libxhook/tree.h:213-241 | the loop ends; no node is lost; the root has the key, or lacks the child on whose side the key would be |
| SplayTree.Splay.SplayTo | app/src/main/cpp/libxhook/tree.h:210-243 | the in-order sequence is unchanged, all keys left of the root are below the sought key and all keys right of it above: the root has the key if any node has it, and is otherwise an in-order neighbour of its place |
| SplayTree.Splay.Insert | app/src/main/cpp/libxhook/tree.h:165-187 | acts as insertion into a set: adds exactly the node, or returns the node that has the key and keeps the sequence |
| SplayTree.Splay.Remove | app/src/main/cpp/libxhook/tree.h:189-208 | acts as deletion from a set: removes exactly the node with the key, or nothing; returns its argument or null |
| SplayTree.Splay.Find | app/src/main/cpp/libxhook/tree.h:129-139 | the node with the key, or null exactly when no node has it |
| RefreshSpec.FilterAgainstCalls | app/src/main/cpp/libxhook/xh_core.c:334-357 | every library that passes the filter has a hook to run; a library that is dropped would nevertheless be hooked exactly if its first matching hook is ignored by symbol, a later matching hook is not ignored, and no matching hook in front of that one is ignored with its whole library |
| RefreshSpec.VerdictIsFirst | app/src/main/cpp/libxhook/xh_core.c:245-258 | whether a symbol of a library is ignored, and with what, is decided by the first entry of the list whose pattern matches and that is for all symbols or this one; with no such entry it is not |
| RefreshSpec.CallsPicked | app/src/main/cpp/libxhook/xh_core.c:236-267 | the hooks run for a library are those, each position once and in the order of registration, whose pattern matches, that no ignore entry covers, and that stand in front of any matching hook ignored with its whole library |
| RefreshSpec.FilterDropsHookedLibrary | app/src/main/cpp/libxhook/xh_core.c:334-357 | there are hooks and ignores for which the filter drops a library that a hook still applies to |
| RefreshSpec.AddKnown | app/src/main/cpp/libxhook/xh_core.c:363-384 | an accepted line of a path whose old entry is still to be met: the entry moves to the new tree with the address of the line, and is hooked exactly if its address changed |
| RefreshSpec.AddUnknown | app/src/main/cpp/libxhook/xh_core.c:385-407 | an accepted line of a path without such an entry: the entry created is kept and hooked if the path is new, and released otherwise; the bookkeeping of entries created and released stays exact |
| RefreshSpec.Finish | app/src/main/cpp/libxhook/xh_core.c:411-422 | with the rest of the old tree released, the new tree holds exactly the accepted paths with their first addresses; one entry was created, in line order, for each accepted line that met no old entry; exactly the entries, old or created, that are not in the new tree have been released, each once |
| RefreshSpec.RefreshedLines | app/src/main/cpp/libxhook/xh_core.c:297-362 | after a refresh there is an entry for each path that some line maps, and for no other, at the address of the first such line: read in full, readable, private, offset 0, a path that is neither empty nor in brackets, a first matching hook that is not ignored, and an ELF header; a run of xh_core_hook passes on the hooks of the library, or none if xh_elf_init failed |
| RefreshSpec.RefreshTwice | app/src/main/cpp/libxhook/xh_core.c:283-422 | refreshing again on the same process map keeps every entry, hooks nothing, and releases exactly the entries it created itself |
| XhCore.Core.FindIgnore | app/src/main/cpp/libxhook/xh_core.c:340-349 | finds out whether an ignore entry for the path covers all symbols or the given one |
| XhCore.Core.Match | app/src/main/cpp/libxhook/xh_core.c:334-357 | the two nested loops decide as the filter does |
| XhCore.Core.HookImpl | app/src/main/cpp/libxhook/xh_core.c:236-267 | the two nested loops and their jumps give the hooks that CallsPicked describes, in order |
| XhCore.Core.MoveEntry | app/src/main/cpp/libxhook/xh_core.c:365-378 | a node moves from one tree to the other; the second insertion finds no equal path, so the branch for a repeated path is never taken |
| XhCore.Core.UpdateEntry | app/src/main/cpp/libxhook/xh_core.c:365-384 | the surviving entry keeps its node and is hooked again exactly if its address changed |
| XhCore.Core.CreateEntry | app/src/main/cpp/libxhook/xh_core.c:385-407 | one entry is created; it is kept and hooked once, or released if its path is already in the new tree |
| XhCore.Core.RefreshLine | app/src/main/cpp/libxhook/xh_core.c:304-408 | one map line takes the refresh from a prefix of the lines to the next prefix |
| XhCore.Core.FinishRefresh | app/src/main/cpp/libxhook/xh_core.c:411-422 | what is left of the old tree is released and the new tree installed |
| XhCore.Core.Refresh | app/src/main/cpp/libxhook/xh_core.c:283-422 | after any list of lines the tree holds exactly the accepted paths with their first addresses; nodes of surviving paths are kept; hooks ran exactly for new paths and changed addresses; an entry was created for exactly the accepted lines that met no old entry, and every entry, old or created, that is not in the tree has been released once and no other has |
| XhCore.Core.ReleaseAll | app/src/main/cpp/libxhook/tree.h:748-751 | the removal-safe loop visits every node once, in ascending order, while removing it, and ends with the empty tree |
| XhCore.Core.Clear | app/src/main/cpp/libxhook/xh_core.c:564-594 | every entry is released once, and no entry, hook or ignore is left |
| RefreshThread.InvAlways | app/src/main/cpp/libxhook/xh_core.c:432-598 | the invariant of caller and worker holds along every run: who holds the mutexes, when a worker exists and runs, that the running flag is set only for a worker that exists or is being created, and that a request is there when it is taken |
| RefreshThread.NoLostWakeup | app/src/main/cpp/libxhook/xh_core.c:437-448 | whenever the mutex is free and the worker sleeps unsignalled, no refresh is pending and the worker has not been asked to stop |
| RefreshThread.RefreshesExclude | app/src/main/cpp/libxhook/xh_core.c:450-453 | a refresh in the worker overlaps neither a synchronous refresh nor the freeing of the lists |
| RefreshThread.FreesAfterExit | app/src/main/cpp/libxhook/xh_core.c:541-594 | the lists are freed only after the worker has returned and been joined, with both mutexes held |
| RefreshThread.OneWorker | app/src/main/cpp/libxhook/xh_core.c:491-513 | a worker is created only when there is none |
| RefreshThread.NoInsertionBesideWorker | app/src/main/cpp/libxhook/xh_core.c:137-215 | a hook or an ignore is inserted only while no worker exists and the refresh is not initialised, although the lists are read under another mutex than they are written under |
| RefreshThread.NoDeadlock | app/src/main/cpp/libxhook/xh_core.c:432-598 | whenever the caller waits, the worker can take a step without a spurious wakeup |
| RefreshThread.JoinEnds | app/src/main/cpp/libxhook/xh_core.c:541-551 | while the caller waits to join, the worker is never blocked and each of its steps brings it nearer to its end |
| RefreshThread.JoinWaits | app/src/main/cpp/libxhook/xh_core.c:541-551 | no step of another kind undoes that progress |
| RefreshThread.JoinSoon | app/src/main/cpp/libxhook/xh_core.c:541-551 | from the stop on, the worker makes at most nine steps before it returns, in every interleaving |
| RefreshThread.RequestServed | app/src/main/cpp/libxhook/xh_core.c:521-530 | with the caller idle and a request pending, the worker is never blocked, and its next step takes the request or brings it nearer to that |
| RefreshThread.RequestSoon | app/src/main/cpp/libxhook/xh_core.c:437-453 | over any stretch of any run with the request pending and no stop, whatever else the caller does, the worker makes at most ten steps |
| RefreshThread.RequestRefreshed | app/src/main/cpp/libxhook/xh_core.c:437-453 | over any run: after a request was posted, at every later time it is still pending, or has just been taken with the worker on its way to the refresh, or the worker has refreshed since; in particular, once it is no longer pending and the worker is anywhere else, a refresh has run in between |
| RefreshThread.TakenWhileRunning | app/src/main/cpp/libxhook/xh_core.c:437-453 | a request stops being pending only in the step in which the worker, told to run, takes it |
| RefreshThread.SyncCallRefreshes | app/src/main/cpp/libxhook/xh_core.c:515-538 | over any run: a synchronous xh_core_refresh that is over has refreshed exactly if the initialisation has succeeded |
| RefreshThread.AsyncCallRefreshes | app/src/main/cpp/libxhook/xh_core.c:515-530 | over any run: an asynchronous xh_core_refresh that is over, with both initialisations successful, has posted its request and signalled; and at any later time at which no request is pending and the worker is not just on its way to a refresh, the worker has refreshed since |
| RefreshThread.ClearCallFrees | app/src/main/cpp/libxhook/xh_core.c:541-594 | over any run: an xh_core_clear that is over has been through the freeing of the lists, and left no worker and nothing initialised |
| RefreshThread.AddCallInserts | app/src/main/cpp/libxhook/xh_core.c:137-215 | over any run: an xh_core_register or xh_core_ignore that is over has inserted its element exactly if nothing was initialised when it was called |
| RefreshThread.SyncRefreshRuns | app/src/main/cpp/libxhook/xh_core.c:515-538 | there is a run from the start in which a synchronous call refreshes |
| RefreshThread.AsyncRefreshRuns | app/src/main/cpp/libxhook/xh_core.c:432-457 | there is a run from the start in which a worker refreshes while its caller is idle again |
| RefreshThread.InitFailureRuns | app/src/main/cpp/libxhook/xh_core.c:459-489 | there is a run in which sigaction fails: the call ends with nothing refreshed, and initialisation counts as done but not as successful |
| RefreshThread.CreateFailureRuns | app/src/main/cpp/libxhook/xh_core.c:491-513 | there is a run in which pthread_create fails: the call ends with no worker, no request and the running flag down |
| Sleb128.DecodeEncoded | app/src/main/cpp/libxhook/xh_elf.c:111-135 | the mathematical SLEB128 decoding undoes encoding, whatever bytes follow |
| Sleb128.EncodedLength | app/src/main/cpp/libxhook/xh_elf.c:111-135 | a number is encoded in at most k bytes exactly if it needs at most 7k bits with its sign; words and differences of words need at most ten bytes |
| Sleb128.DwarfExamples | app/src/main/cpp/libxhook/xh_elf.c:111-135 | the eight examples of section 7.6 of the DWARF 4 standard |
| Sleb128.OrStep | app/src/main/cpp/libxhook/xh_elf.c:124-125 | or-ing seven more bits above those collected, at a shift below 64, adds them in 64-bit arithmetic |
| Sleb128.OrSign | app/src/main/cpp/libxhook/xh_elf.c:129-132 | or-ing in the sign bits subtracts the power of two, in 64-bit arithmetic |
| Sleb128.Extend | app/src/main/cpp/libxhook/xh_elf.c:128-132 | the sign extension, left out from bit 64 on, gives the two's complement word for numbers of up to ten bytes |
| Sleb128.GatheredIsDecoded | app/src/main/cpp/libxhook/xh_elf.c:111-135 | if the number ends within ten bytes, no shift reaches 64 and the loop gathers the number, whatever the machine makes of longer shifts |
| Sleb128.Decoder.Next | app/src/main/cpp/libxhook/xh_elf.c:111-135 | on any bytes: fails exactly when the data ends within a number, and otherwise stops behind the number with a 64-bit word; for a number of up to ten bytes that word is the number modulo 2^64; it never reads past the end |
| PackedReloc.ItemStep | app/src/main/cpp/libxhook/xh_elf.c:219-240 | within an encoded group one call yields the group's next relocation |
| PackedReloc.HeaderStep | app/src/main/cpp/libxhook/xh_elf.c:174-206 | reading an encoded group header brings the iterator to the group's relocations |
| PackedReloc.DecodeSection | app/src/main/cpp/libxhook/xh_elf.c:160-256 | for every list of relocations cut into non-empty groups, with any choice of what they share, stored as flags of weight 1 for the info, 2 for the offset, 4 for the addend and 8 for having addends, init and repeated next yield exactly that list, on any machine, whatever follows the section |
| PackedReloc.Iterator.Init | app/src/main/cpp/libxhook/xh_elf.c:160-172 | the state after init, and that the calls of next will then yield the section's relocations |
| PackedReloc.Iterator.ReadGroupFields | app/src/main/cpp/libxhook/xh_elf.c:174-206 | the fields after a group header, for every combination of flags, or failure |
| PackedReloc.Iterator.ReadItem | app/src/main/cpp/libxhook/xh_elf.c:219-256 | the relocation yielded and the new state, or failure |
| PackedReloc.Iterator.Next | app/src/main/cpp/libxhook/xh_elf.c:208-256 | yields the head of what is still to be yielded, on any bytes at all |
| ElfSymbols.ElfHash | app/src/main/cpp/libxhook/xh_elf.c:302-315 | the loop, which clears the top bits before it folds them in, computes the hash of the System V gABI |
| ElfSymbols.SysvTopBits | app/src/main/cpp/libxhook/xh_elf.c:302-315 | the hash has at most 28 bits |
| ElfSymbols.SysvMore | app/src/main/cpp/libxhook/xh_elf.c:306-311 | a byte more shifts the SysV hash by four bits; the four that leave its 28 bits are combined by exclusive or with the second lowest four |
| ElfSymbols.HashExamples | app/src/main/cpp/libxhook/xh_elf.c:302-326 | "printf_" hashes to 0x07905acf and to 0xc2d0a317 |
| ElfSymbols.ElfGnuHash | app/src/main/cpp/libxhook/xh_elf.c:317-326 | the loop of shifts and additions computes the polynomial in 33 that starts from 5381, modulo 2^32 |
| ElfSymbols.HashLookup | app/src/main/cpp/libxhook/xh_elf.c:356-375 | on a table whose acyclic chains hold every symbol, finds an index with the wanted name exactly if a scan of the symbols does |
| ElfSymbols.GnuLookupDef | app/src/main/cpp/libxhook/xh_elf.c:377-414 | on a well-formed table the bloom filter, bucket and chain find an index with the name exactly if a scan of the hashed symbols does; the loop ends |
| ElfSymbols.GnuLookupUndef | app/src/main/cpp/libxhook/xh_elf.c:416-431 | finds the name among the symbols in front of the hashed ones exactly if it is there |
| ElfSymbols.GnuLookup | app/src/main/cpp/libxhook/xh_elf.c:433-438 | both together agree with a scan of the whole symbol table; defined symbols are preferred |
| ElfHook.PatchedTwice | app/src/main/cpp/libxhook/xh_elf.c:448-497 | hooking the same way again changes neither memory nor old_func |
| ElfHook.RehookUndoes | app/src/main/cpp/libxhook/xh_elf.c:448-497 | when all slots held one function, hooking with what was saved restores memory |
| ElfHook.SavedExtends | app/src/main/cpp/libxhook/xh_elf.c:477-480 | what old_func holds after one slot more |
| ElfHook.Elf.SlotsAreMatches | app/src/main/cpp/libxhook/xh_elf.c:954-963 | an address is gone for in a section exactly if some relocation lies there whose information word is the index of the symbol times 2^32 plus the jump-slot type in the PLT, or one of the two other types elsewhere |
| ElfHook.Elf.PlanInOrder | app/src/main/cpp/libxhook/xh_elf.c:1005-1045 | a hook goes first for the slot of the first jump-slot relocation of the symbol in the PLT section, if there is one, then for all slots of its relocations of the two other types in the dynamic section, and then for those in the packed section, each found by its information word and its address |
| ElfHook.Elf.SlotsConcat | app/src/main/cpp/libxhook/xh_elf.c:1019-1045 | the slots of two stretches of a section are those of the first followed by those of the second |
| ElfHook.Elf.ReachedIsAll | app/src/main/cpp/libxhook/xh_elf.c:970-971 | all slots are reached exactly if none lies below the base address; otherwise those in front of the first such one |
| ElfHook.Elf.FindSymidx | app/src/main/cpp/libxhook/xh_elf.c:440-446 | finds the symbol exactly if a scan does, by the hash table the file has |
| ElfHook.Elf.ReplaceFunction | app/src/main/cpp/libxhook/xh_elf.c:448-497 | the slot holds the new function; old_func gets the old content unless it was the new function already |
| ElfHook.Elf.FindAndReplace | app/src/main/cpp/libxhook/xh_elf.c:928-981 | matches exactly the relocations whose information word is the symbol index times 2^32 plus a type looked for; an address below the base is refused; the slot and the saved value change accordingly |
| ElfHook.Elf.PatchPlt | app/src/main/cpp/libxhook/xh_elf.c:1008-1021 | patches the first matching slot of the PLT section and no other |
| ElfHook.Elf.PatchDyn | app/src/main/cpp/libxhook/xh_elf.c:1023-1033 | patches all matching slots up to one below the base address |
| ElfHook.Elf.PatchPacked | app/src/main/cpp/libxhook/xh_elf.c:1035-1045 | the same for the packed section, through the iterator |
| ElfHook.Elf.Hook | app/src/main/cpp/libxhook/xh_elf.c:983-1046 | the slots of the plan are patched up to the first one below the base address, and old_func holds the first content of the last slot changed; every error code, and nothing is changed when an argument is missing or the symbol is not found |
| StrHelper.ReplacedOnce | app/src/main/cpp/utils/str_helper.cpp:85-93 | replacing the first occurrence does not change what one pass over the text gives |
| StrHelper.ReplaceAll | app/src/main/cpp/utils/str_helper.cpp:85-93 | for a new value that is shorter than the old one, or has no character of it, the loop that searches from the start again ends with no occurrence left; where it makes no new occurrences the result is that of one pass from the left |
| StrHelper.SettledInOnePass | app/src/main/cpp/utils/str_helper.cpp:85-93 | replacing first occurrences until there is none comes to one pass from the left, if the new value shares no character with the old one and closes no gap |
| StrHelper.EndsWhenSettles | app/src/main/cpp/utils/str_helper.cpp:85-93 | the number of turns after which the loop ends, for such new values |
| StrHelper.EndsUnlessThere | app/src/main/cpp/utils/str_helper.cpp:85-93 | with a new value that holds the old one the loop ends exactly on texts without the old value |
| StrHelper.UnderscoresNeverEnd | app/src/main/cpp/hook_jni/parse_java_sig.cpp:298-298 | mangling the underscores of a class name in place ends exactly if there are none |
| StrHelper.JoinSplit | app/src/main/cpp/utils/str_helper.cpp:48-67 | joining the pieces gives the text back, but for a separator that ended it, and no piece holds the separator |
| StrHelper.StringSplit | app/src/main/cpp/utils/str_helper.cpp:48-67 | the index loop gives the pieces between separators |
| StrHelper.SplitFirst | app/src/main/cpp/utils/str_helper.cpp:48-67 | the first piece ends at the first occurrence of the pattern and the rest is split behind it; a text without it is its own only piece, and an empty text has none |
| Demangle.ParseJavaLangName | app/src/main/cpp/hook_jni/parse_java_sig.cpp:119-175 | all branches of the parser, on every symbol: rejections, plain names, overloaded names with their rewritten signature, and the read behind the list of pieces |
| Demangle.WhenPastEnd | app/src/main/cpp/hook_jni/parse_java_sig.cpp:136-152 | the parser reads behind its list of pieces exactly on symbols without "_0" whose only "__" is at the end |
| Demangle.PastEndExample | app/src/main/cpp/hook_jni/parse_java_sig.cpp:136-152 | it does so on "Java_a_b__" |
| Demangle.SecondPass | app/src/main/cpp/hook_jni/parse_java_sig.cpp:154-155 | the two replacements undo escaping, but for a dot followed by the digit 1 |
| Demangle.DemangleUndoesMangle | app/src/main/cpp/hook_jni/parse_java_sig.cpp:119-175 | for every class and method name over letters, digits, underscores and dots: demangling the JNI short name gives exactly that class and method, not overloaded, if and only if no dot is followed by 0, 1, an underscore or a dot |
| Demangle.OverloadedBack | app/src/main/cpp/hook_jni/parse_java_sig.cpp:116-172 | the symbol of an overloaded method gives its class, its name and its signature, with underscores for slashes, if the name is safe and no slash of the signature stands before a digit or mark it would merge with |
| Demangle.UnderscoreLost | app/src/main/cpp/hook_jni/parse_java_sig.cpp:136-145 | a method whose name starts with an underscore is not found again |
| JsonString.NothingToEscape | app/src/main/cpp/json/json_writer.cpp:280-281 | the shortcut for strings that need no escaping writes what the loop would |
| JsonString.ValueToQuotedStringN | app/src/main/cpp/json/json_writer.cpp:275-350 | both the shortcut and the loop give the quoted string, in either mode |
| JsonEscapes.WrittenShort | app/src/main/cpp/json/json_writer.cpp:287-318 | quotes, backslashes and five controls are written as their two-character escapes |
| JsonEscapes.WrittenAscii | app/src/main/cpp/json/json_writer.cpp:319-340 | the other controls are written as "\u00" and two lower-case digits, and the other characters of ASCII as they are |
| JsonEscapes.WrittenCharacter | app/src/main/cpp/json/json_writer.cpp:328-343 | in escaping mode a character above ASCII is written as its code point, and one beyond 0xffff as its two surrogates |
| JsonEscapes.WrittenDigits | app/src/main/cpp/json/json_writer.cpp:256-269 | the four digits of a code point, the highest first, in lower case |
| JsonString.DecodeUnicodeEscapeSequence | app/src/main/cpp/json/json_reader.cpp:708-732 | the loop reads four hexadecimal digits, or fails; `JsonEscapes` says what they are |
| JsonEscapes.FourDigits | app/src/main/cpp/json/json_reader.cpp:708-732 | four digits of either case, in any mixture, are the number a * 4096 + b * 256 + c * 16 + d that they denote |
| JsonEscapes.NotFourDigits | app/src/main/cpp/json/json_reader.cpp:708-732 | a sequence is refused exactly if it is too short or holds a byte among its first four that is in neither of the two lists of digits |
| JsonString.DecodeUnicodeCodePoint | app/src/main/cpp/json/json_reader.cpp:683-706 | surrogate pairs are combined, and a lone high surrogate fails |
| JsonString.DecodeString | app/src/main/cpp/json/json_reader.cpp:629-681 | the loop over the bytes and escapes of a string gives what they stand for, or fails; `JsonEscapes` says which |
| JsonEscapes.ShortEscapes | app/src/main/cpp/json/json_reader.cpp:640-665 | what each of the eight two-character escapes of section 7 of RFC 8259 is decoded to, the solidus included |
| JsonEscapes.OtherEscapes | app/src/main/cpp/json/json_reader.cpp:673-675 | every other letter but u behind a backslash is refused, and so is a backslash at the end |
| JsonEscapes.LoneUnit | app/src/main/cpp/json/json_reader.cpp:683-706 | four digits that are no high surrogate stand for their code point, a low surrogate on its own included |
| JsonEscapes.SurrogatePair | app/src/main/cpp/json/json_reader.cpp:683-706 | a high surrogate and any second escape stand for 0x10000 plus 1024 times the offset of the first plus the lower ten bits of the second, whether that is a low surrogate or not |
| JsonEscapes.OddPair | app/src/main/cpp/json/json_reader.cpp:683-706 | "\ud800\u0041" is read as the code point 0x10041 |
| JsonEscapes.HalfPair | app/src/main/cpp/json/json_reader.cpp:683-706 | a high surrogate without a second escape behind it is refused |
| JsonEscapes.Utf8Layout | app/src/main/cpp/json/json_tool.h:39-65 | the bits of a code point go into one to four bytes as section 3 of RFC 3629 lays them out |
| JsonString.HexBack | app/src/main/cpp/json/json_writer.cpp:256-265 | four hexadecimal digits are read back as the number |
| JsonString.DecodeCodePoint | app/src/main/cpp/json/json_writer.cpp:317-338 | what is written for a code point is decoded to its UTF-8 bytes, surrogate pairs included |
| JsonString.ReadCharacter | app/src/main/cpp/json/json_writer.cpp:188-237 | every UTF-8 character of RFC 3629 is read as the code point that encodes to it |
| JsonString.EncodedCharacter | app/src/main/cpp/json/json_tool.h:39-65 | every code point but the surrogates is encoded as one character of RFC 3629 |
| JsonString.RepairedIsWellFormed | app/src/main/cpp/json/json_writer.cpp:188-237 | quoting and decoding always gives well-formed UTF-8 |
| JsonString.QuoteThenDecode | app/src/main/cpp/json/json_writer.cpp:275-350 | in escaping mode quoting and decoding is the identity exactly on well-formed UTF-8 |
| JsonString.StrayByte | app/src/main/cpp/json/json_writer.cpp:275-350 | a string of the byte 0xff alone does not come back |
| JsonString.QuoteThenDecodeUtf8 | app/src/main/cpp/json/json_writer.cpp:309-316 | when UTF-8 is emitted it is the identity on all byte strings |
| JsonString.ScanEscaped | app/src/main/cpp/json/json_reader.cpp:438-448 | the scanner ends a quoted string at the quote that closes it |
| JsonNumber.UintToString | app/src/main/cpp/json/json_tool.h:81-87 | fills the buffer backwards with the decimal digits and a NUL, uses at most 21 bytes and touches no other |
| JsonNumber.ValueToStringInt | app/src/main/cpp/json/json_writer.cpp:94-108 | the decimal notation, within a buffer of 25 bytes, for every signed 64-bit number |
| JsonNumber.ValueToStringUInt | app/src/main/cpp/json/json_writer.cpp:110-116 | the same for every unsigned 64-bit number |
| JsonNumber.DecimalForms | app/src/main/cpp/json/json_tool.h:81-87 | a digit more is ten times the number and the digit, and a minus sign stands in front of negative numbers |
| JsonNumber.DecodeInteger | app/src/main/cpp/json/json_reader.cpp:554-595 | takes the integer path exactly for an optional minus and digits whose value lies in [-2^63, 2^64-1], and gives that value, stored as unsigned exactly above the largest Int; every operation stays within its 64-bit type |
| JsonNumber.AccumulateDigits | app/src/main/cpp/json/json_reader.cpp:571-587 | the loop gives the number exactly if there are digits only and it is at most the maximum; no intermediate value exceeds that |
| JsonNumber.OurDecodeInteger | app/src/main/cpp/json/json_reader.cpp:1606-1684 | the other reader, with thresholds computed without negating the smallest integer, decides and decodes alike; every operation stays within its 64-bit type |
| JsonNumber.ShowThenDecode | app/src/main/cpp/json/json_reader.cpp:554-595 | every 64-bit integer, printed and decoded, comes back |
| JsonNumber.TakenAnyway | app/src/main/cpp/json/json_reader.cpp:554-595 | a token taken for an integer is none by RFC 8259 exactly if it has no digits, or more than one and a zero in front; and it is one exactly if it is what the writer prints for its value, or minus zero |
| JsonNumber.LoneMinus | app/src/main/cpp/json/json_reader.cpp:554-595 | a minus sign without digits is taken for zero, and "007" for seven |
| JsonValue.LessIsStrict | app/src/main/cpp/json/json_value.cpp:314-329 | names are ordered linearly |
| JsonValue.PutLast | app/src/main/cpp/json/json_reader.cpp:483-483 | a name beyond all others is added behind them |
| JsonValue.PutSets | app/src/main/cpp/json/json_reader.cpp:483-485 | a name that is given a value has that value afterwards, also if it had another, and every other name keeps its value |
| JsonValue.PutNames | app/src/main/cpp/json/json_reader.cpp:483-485 | no other name is added and none is lost |
| JsonReader.Reader.SkipBlanks | app/src/main/cpp/json/json_reader.cpp:316-324 | moves to the first byte that is no space |
| JsonReader.Reader.Match | app/src/main/cpp/json/json_reader.cpp:326-335 | backward comparison decides whether the text starts with the pattern |
| JsonReader.Reader.ReadComment | app/src/main/cpp/json/json_reader.cpp:337-360 | where a comment of either kind ends; the last byte may be a slash alone |
| JsonReader.Reader.ReadNumber | app/src/main/cpp/json/json_reader.cpp:416-436 | the cursor stops behind the longest number |
| JsonReader.Reader.ReadString | app/src/main/cpp/json/json_reader.cpp:438-448 | the cursor stops behind the closing quote, or at the end |
| JsonReader.Reader.ReadToken | app/src/main/cpp/json/json_reader.cpp:245-314 | kind, extent and rest of the next token; every token but the end of the stream takes up text |
| JsonReader.Reader.RecoverFromError | app/src/main/cpp/json/json_reader.cpp:743-754 | ends on every input and leaves the error list as it was |
| JsonReader.Reader.ReadValue | app/src/main/cpp/json/json_reader.cpp:155-233 | agrees with the grammar: a value stands on top of the stack with the cursor behind it, or an error was added, or the stack limit is exceeded; the stack below is untouched; recursion ends on every input |
| JsonReader.Reader.ReadArray | app/src/main/cpp/json/json_reader.cpp:506-542 | the same for the elements of an array |
| JsonReader.Reader.ReadObject | app/src/main/cpp/json/json_reader.cpp:450-504 | the same for the members of an object |
| JsonReader.Reader.ParseDoc | app/src/main/cpp/json/json_reader.cpp:116-153 | ends on every text, with the value as the only node, or with a non-empty error list exactly when it fails |
| JsonRfc.AcceptsRfc | app/src/main/cpp/json/json_reader.cpp:116-153 | every text of the grammar of RFC 8259, with any white space, any escapes and any numbers, is read as the value that it denotes, the last of members with the same name counting; it fails exactly beyond a nesting of 1000, or for a scalar under strictRoot; high surrogates are followed by another unit, and the conversion to doubles succeeds |
| JsonRfc.ReadText | app/src/main/cpp/json/json_reader.cpp:155-233 | the same for a value within a text, whatever delimiter follows |
| JsonRfc.NumeralToken | app/src/main/cpp/json/json_reader.cpp:416-436 | a number with fraction and exponent is one token, exactly up to what may follow a number |
| JsonRfc.NumeralValue | app/src/main/cpp/json/json_reader.cpp:554-595 | a number without fraction and exponent that fits 64 bits is that integer, and any other goes to the conversion to doubles with its whole text |
| JsonRfc.OtherFronts | app/src/main/cpp/json/json_reader.cpp:155-233 | a byte that begins no text, no comment and no dropped null is refused where a value should be |
| JsonLeniency.CStyleCommentEnds | app/src/main/cpp/json/json_reader.cpp:391-398 | behind its opening a comment ends at the first star and slash; without them it counts as ended exactly if a slash ends the text |
| JsonLeniency.SlashEndsComment | app/src/main/cpp/json/json_reader.cpp:391-398 | "/*/" is read as a comment |
| JsonLeniency.CommasInsisted | app/src/main/cpp/json/json_reader.cpp:450-504 | an accepted document would be accepted, with the same value, by a reader that insists on commas, exactly unless somewhere behind a member comments are followed by neither a comma nor a closing brace |
| JsonLeniency.ColonForComma | app/src/main/cpp/json/json_reader.cpp:490-501 | behind a comment a colon is as good as a comma, whatever follows |
| JsonLeniency.ColonAccepted | app/src/main/cpp/json/json_reader.cpp:450-504 | a document without the comma is accepted |
| JsonLeniency.LineComment | app/src/main/cpp/json/json_reader.cpp:400-414 | a line comment ends behind the end of its line: a line feed, a carriage return, or the two in this order |
| JsonLeniency.CommentRefused | app/src/main/cpp/json/json_reader.cpp:155-172 | a comment before a value is skipped where comments are allowed, and refused where they are not |
| JsonLeniency.DroppedNull | app/src/main/cpp/json/json_reader.cpp:206-224 | a separator in place of a value is taken for a null and left to be read, exactly where that is allowed |
| JsonLeniency.NumericName | app/src/main/cpp/json/json_reader.cpp:462-472 | an integer names a member by its digits, exactly where that is allowed |
| JsonLeniency.LastComma | app/src/main/cpp/json/json_reader.cpp:456-463 | a brace behind the comma behind a member is refused, exactly unless the name of that member is empty |
| JsonLeniency.LastCommaAccepted | app/src/main/cpp/json/json_reader.cpp:450-504 | the document {"":[],} is accepted |
| JsonFastWriter.FastWriter.WriteValue | app/src/main/cpp/json/json_writer.cpp:381-432 | appends exactly the one-line text of the value |
| JsonFastWriter.FastWriter.Write | app/src/main/cpp/json/json_writer.cpp:373-379 | the document is the one-line text of the value and a line feed |
| JsonFastWriter.WrittenForms | app/src/main/cpp/json/json_writer.cpp:381-432 | commas between elements and members, a colon behind a name, a space behind that for YAML, and no other white space |
| JsonRoundTrip.RoundTrip | app/src/main/cpp/json/json_reader.cpp:155-233 | reading the one-line text of a value, whatever delimiter follows, gives that value with integers retagged, exactly while the nesting is within the stack limit |
| JsonRoundTrip.WriteThenParse | app/src/main/cpp/json/json_reader.cpp:116-153 | parsing what FastWriter writes gives the value back, integers as the same numbers, for every value without doubles, with well-formed UTF-8; it fails exactly beyond the stack limit of 1000, or for a scalar under strictRoot |
| JsonRoundTrip.RetaggedPrintsAlike | app/src/main/cpp/json/json_writer.cpp:381-432 | the value given back is written as the same text |
| JsonCanonical.ReadIsCanonical | app/src/main/cpp/json/json_reader.cpp:155-233 | every value the reader gives has its members in order and its integers in range under the tag the reader picks |
| JsonCanonical.ReadWithinLimit | app/src/main/cpp/json/json_reader.cpp:155-162 | every value the reader gives is nested within the stack limit |
| JsonCanonical.ParseWriteParse | app/src/main/cpp/json/json_reader.cpp:116-153 | for every accepted document: writing its value and parsing that gives the same value, unless it holds doubles or malformed UTF-8 |
| JsonSpacing.StripConcat | app/src/main/cpp/json/json_writer.cpp:439-448 | white space outside strings can be dropped piece by piece |
| JsonSpacing.QuotedStands | app/src/main/cpp/json/json_writer.cpp:275-350 | a quoted string begins and ends outside strings, and keeps its white space |
| JsonSpacing.TokLoose | app/src/main/cpp/json/json_reader.cpp:245-314 | the reader takes the same token from a text with white space added beside marks and strings as from the text without it |
| JsonSpacing.ReadLoose | app/src/main/cpp/json/json_reader.cpp:155-233 | reading such a text gives the same value, the same failure or the same stack limit as reading it without its white space |
| JsonStyledWriter.StyledWriter.WriteIndent | app/src/main/cpp/json/json_writer.cpp:587-596 | a line break, unless one is there, and the indentation are added, unless the document ends in a blank; nothing else of the document changes |
| JsonStyledWriter.StyledWriter.IsMultilineArray | app/src/main/cpp/json/json_writer.cpp:553-578 | decides whether the array goes on one line, with its sums as unsigned ints; leaves the document alone, and one child text for each element whenever the one-line form is chosen |
| JsonStyledWriter.StyledWriter.WriteArrayValue | app/src/main/cpp/json/json_writer.cpp:510-551 | adds exactly the styled text of the array at the indentation in force, which is back at its start |
| JsonStyledWriter.StyledWriter.WriteValue | app/src/main/cpp/json/json_writer.cpp:450-508 | adds exactly the styled text of the value at the indentation in force, or its one-line text to the child texts; the indentation is back at its start |
| JsonStyledWriter.StyledWriter.Write | app/src/main/cpp/json/json_writer.cpp:439-448 | the text returned is the styled text of the value and a line feed, and it consists of the lines that `Lines` gives for the value, each with three spaces for each level in front |
| JsonStyled.StyledLines | app/src/main/cpp/json/json_writer.cpp:450-551 | the text built with a growing indentation is that of the lines of the value, each begun by three spaces for each level of its depth and ended by a line feed, wherever the value stands |
| JsonLayout.MemberBegins | app/src/main/cpp/json/json_writer.cpp:480-505 | each member of an object begins a line of its own, one level deeper than the object, with its name and a colon; its value and a comma, unless it is the last, follow on that line and those behind it |
| JsonLayout.ItemBegins | app/src/main/cpp/json/json_writer.cpp:510-536 | each element of an array that is not on one line begins a line of its own, one level deeper than the array |
| JsonLayout.DepthsOfLines | app/src/main/cpp/json/json_writer.cpp:480-536 | a value begins and ends at its own depth with everything between deeper; over more lines than one, the first ends in the bracket that opens it and the last begins with the one that closes it |
| JsonLayout.LineTexts | app/src/main/cpp/json/json_writer.cpp:450-551 | no line holds a line break, is empty, or begins with a blank behind its indentation |
| JsonLayout.OnOneLine | app/src/main/cpp/json/json_writer.cpp:480-551 | a value is on one line exactly if it is a scalar, an empty array or object, or an array that fits on one line |
| JsonLayout.OneLineExactly | app/src/main/cpp/json/json_writer.cpp:553-578 | an array fits on one line exactly if no element is an array or object with elements of its own and the line stays below 74 columns; beyond 4 GiB, where the sums wrap around, the exact condition is on the wrapped sums |
| JsonLayout.OneLineTexts | app/src/main/cpp/json/json_writer.cpp:538-549 | the one-line form: blanks inside the brackets, and a comma and a blank between two elements |
| JsonStyled.CTextStops | app/src/main/cpp/json/json_writer.cpp:493-493 | a name is cut at its first NUL |
| JsonStyledRoundTrip.StyledStands | app/src/main/cpp/json/json_writer.cpp:439-448 | where no name holds a NUL, the styled text is what FastWriter writes once white space outside strings is dropped, and none of that white space stands between two words |
| JsonStyledRoundTrip.StyledThenParse | app/src/main/cpp/json/json_reader.cpp:116-153 | parsing the styled text gives the value back, integers as the same numbers; it fails exactly beyond the stack limit of 1000, or for a scalar under strictRoot |
| XmlLinks.XmlNode.Unlink | app/src/main/cpp/tinyxml2/tinyxml2.cpp:807-825 | the child leaves the list of its siblings, whose order and links are otherwise kept |
| XmlLinks.XmlNode.InsertEndChild | app/src/main/cpp/tinyxml2/tinyxml2.cpp:842-868 | the node leaves its former parent, if it has one, and becomes the last child; both lists stay well linked |
| XmlText.PrintString | app/src/main/cpp/tinyxml2/tinyxml2.cpp:2443-2494 | the loop over runs of plain characters writes the text with its special characters as entities |
| XmlText.DecodeAt | app/src/main/cpp/tinyxml2/tinyxml2.cpp:290-355 | one turn of the decoding loop: line ends, of which a pair counts once, character references, entities and unknown entities, for which nothing is written |
| XmlText.DecodeInPlace | app/src/main/cpp/tinyxml2/tinyxml2.cpp:278-358 | decoding in place gives the decoded text and a NUL, and touches nothing outside the text |
| XmlText.LineEndsDecode | app/src/main/cpp/tinyxml2/tinyxml2.cpp:290-309 | in a text without entities each line end, a carriage return and a line feed in either order or one of them alone, is decoded to one line feed between what the texts before and behind it are decoded to |
| XmlText.DecodedAll | app/src/main/cpp/tinyxml2/tinyxml2.cpp:278-358 | where entities are off or there is no ampersand, decoding changes nothing but line ends |
| XmlText.EntityBack | app/src/main/cpp/tinyxml2/tinyxml2.cpp:335-350 | each entity that is written is found in the table, as the same character and with its whole length |
| XmlSyntax.Entities | app/src/main/cpp/tinyxml2/tinyxml2.cpp:147-153 | the five entities and the characters they stand for |
| XmlSyntax.EscapedCharacter | app/src/main/cpp/tinyxml2/tinyxml2.cpp:2443-2494 | what the printer makes of each character, in texts and in attribute values |
| XmlText.DecodeEscaped | app/src/main/cpp/tinyxml2/tinyxml2.cpp:278-370 | decoding undoes escaping, in texts and in attribute values, for every string without carriage returns |
| XmlText.UnknownKept | app/src/main/cpp/tinyxml2/tinyxml2.cpp:333-351 | unknown entities come through unchanged exactly if an ampersand stands under the write pointer at each of them |
| XmlText.AmpersandLost | app/src/main/cpp/tinyxml2/tinyxml2.cpp:333-351 | "&lt;&x" is decoded to "<lx" |
| XmlText.PlainDecode | app/src/main/cpp/tinyxml2/tinyxml2.cpp:278-358 | text without carriage returns, character references and known entities is left as it is |
| XmlPrinter.Printer.OpenElement | app/src/main/cpp/tinyxml2/tinyxml2.cpp:2525-2534 | seals an open tag and opens the next |
| XmlPrinter.Printer.CloseElement | app/src/main/cpp/tinyxml2/tinyxml2.cpp:2589-2612 | an element without content closes itself, and any other gets the closing tag of its name |
| XmlPrinter.Printer.Accept | app/src/main/cpp/tinyxml2/tinyxml2.cpp:1957-1967 | the visits of the printer write exactly the text of the node and leave the stack of open elements as it was |
| XmlSyntax.PrintedForms | app/src/main/cpp/tinyxml2/tinyxml2.cpp:2525-2712 | the printed form of every kind of node, with a blank before each attribute and no other white space |
| XmlParser.Parser.ReadUntil | app/src/main/cpp/tinyxml2/tinyxml2.cpp:207-228 | stops at the first occurrence of the tag, or fails if there is none |
| XmlParser.Parser.ReadName | app/src/main/cpp/tinyxml2/tinyxml2.cpp:231-248 | the longest name, or failure |
| XmlParser.Parser.ReadAttr | app/src/main/cpp/tinyxml2/tinyxml2.cpp:1319-1345 | a name, an equals sign and a quoted value, with white space between them |
| XmlParser.Parser.ReadAttrs | app/src/main/cpp/tinyxml2/tinyxml2.cpp:1784-1840 | all attributes of a tag with different names, and how the tag ends |
| XmlParser.Parser.ReadNode | app/src/main/cpp/tinyxml2/tinyxml2.cpp:672-734 | which kind of node starts here, and the node |
| XmlParser.Parser.ReadElement | app/src/main/cpp/tinyxml2/tinyxml2.cpp:1891-1915 | a closing tag, or an element whose closing tag has its name; ends on every input with the depth counter restored |
| XmlParser.Parser.ReadNodes | app/src/main/cpp/tinyxml2/tinyxml2.cpp:978-1088 | the nodes up to a closing tag or the end of the text; refused when a node is, or a declaration is out of place |
| XmlParser.Parser.Parse | app/src/main/cpp/tinyxml2/tinyxml2.cpp:2339-2352 | ends on every document, with its nodes or refused |
| XmlSyntax.AttrNext | app/src/main/cpp/tinyxml2/tinyxml2.cpp:1319-1345 | an attribute may have white space before it and around its equals sign, and its value may stand in quotes of either kind; one whose name is there already is refused |
| XmlSyntax.AttrRefused | app/src/main/cpp/tinyxml2/tinyxml2.cpp:1319-1345 | without an equals sign, or without quotes around the value, it is refused |
| XmlSyntax.TagEnd | app/src/main/cpp/tinyxml2/tinyxml2.cpp:1784-1840 | a tag ends, behind any white space, in ">" or "/>", and is refused if the text ends first |
| XmlSyntax.ElementSyntax | app/src/main/cpp/tinyxml2/tinyxml2.cpp:1891-1915 | white space may stand before an element and before the name in its tag; the element is closed by its tag, or takes the nodes up to a closing tag of its name |
| XmlSyntax.ClosingSyntax | app/src/main/cpp/tinyxml2/tinyxml2.cpp:1891-1915 | in a closing tag white space may stand before the solidus and behind the name, and not between the two |
| XmlSyntax.DocumentFront | app/src/main/cpp/tinyxml2/tinyxml2.cpp:2339-2352 | white space in front of a document is skipped, and so is a byte order mark of UTF-8 behind it |
| XmlSyntax.EmptyDocument | app/src/main/cpp/tinyxml2/tinyxml2.cpp:2339-2352 | a document of white space is refused, unless that white space stands behind a byte order mark |
| XmlSyntax.CharacterClasses | app/src/main/cpp/tinyxml2/tinyxml2.h:595-615 | which bytes are white space, and which may begin and continue a name |
| XmlRoundTrip.UntilTag | app/src/main/cpp/tinyxml2/tinyxml2.cpp:207-228 | the text in front of a tag that does not occur in it is found whole |
| XmlRoundTrip.AttrsBack | app/src/main/cpp/tinyxml2/tinyxml2.cpp:1784-1840 | attributes with good and different names are read back as they were printed |
| XmlRoundTrip.NodeBack | app/src/main/cpp/tinyxml2/tinyxml2.cpp:1891-1915 | a printed node is read back, exactly while it is not nested too deeply |
| XmlRoundTrip.NodesBack | app/src/main/cpp/tinyxml2/tinyxml2.cpp:978-1088 | printed nodes are read back one after the other |
| XmlRoundTrip.PrintThenParse | app/src/main/cpp/tinyxml2/tinyxml2.cpp:2339-2352 | parsing what the compact printer prints gives an equal tree, for elements, attributes, texts, character data, comments, declarations and unknown nodes that can be told apart, exactly while the depth is below the limit of 100 |
| XmlCanonical.NodeShaped | app/src/main/cpp/tinyxml2/tinyxml2.cpp:672-734 | every node that is read has good and different attribute names, holds no tag that would end it, and is nested below the limit; a text is followed by a tag |
| XmlCanonical.ParsePrintParse | app/src/main/cpp/tinyxml2/tinyxml2.cpp:2339-2352 | for every accepted document: its nodes, printed and parsed, are the same, unless a decoded text holds a carriage return or a NUL or is blank, a text with a blank or a byte order mark in front begins the document, or a text ends it |
| XmlRoundTrip.BlankTextVanishes | app/src/main/cpp/tinyxml2/tinyxml2.cpp:676-681 | a text of white space alone is not read back |
| XmlRoundTrip.TextsMerge | app/src/main/cpp/tinyxml2/tinyxml2.cpp:2624-2637 | two texts side by side come back as one |

## Left out

- Files, `/proc/self/maps` as text, mapping and protection of memory, cache flushing and signals: the model starts from map lines as records and from memory as a map of words.
- Failure of allocation, and more than one API caller at a time.
- ELF files of 32 bits, and the parsing of program headers and the dynamic section in `xh_elf_init`.
- Sleb128.Decoder.Next: promises no value for numbers of more than ten bytes, whose shifts by 64 or more C leaves undefined.
- ElfHook.Elf.Hook: slots are whole words, so slots that overlap, or that lie in the tables being read, are not modelled.
- The macros RB_PREV, RB_MAX, RB_NFIND, SPLAY_NEXT and SPLAY_MINMAX, which repeat the loops that are modelled, mirrored or with a fixed comparison; `queue.h`.
- The keys of the splay tree are integers and those of the red-black tree are path names; the macros take any comparison.
- StrHelper.ReplaceAll: covers new values that are shorter than the old one or have no character of it, as at every call but line 298 of `parse_java_sig.cpp`; there the new value holds the old one, and `EndsUnlessThere` says when the loop ends. A new value that is neither, such as one that only begins like the old one, occurs at no call, and whether the loop ends on it is left open.
- Demangle.ParseJavaLangName: splitting the signature of an overloaded name is left to `split_args_sig`, which is not modelled, so its rejections are not; what C++ does when it reads behind the list of pieces is not modelled beyond that it happens.
- JSON comments are skipped but not collected or placed; the offsets kept with values are not modelled, and errors are kept as a list of messages without their positions.
- JSON doubles are outside the round trips, and so is the setting that drops nulls, under which an array of one null is written as an empty one.
- JsonReader.Reader.ReadValue: the node stack holds values instead of pointers into the tree under construction; a value is written back to its parent when it is left.
- JsonNumber.DecodeInteger: the path for doubles is a parameter, so which of these tokens fail is not modelled.
- `OurReader` but for its numbers, `StyledStreamWriter` and `BuiltStyledStreamWriter`, which repeat the parts modelled with more settings; the settings builders.
- JsonStyledRoundTrip.StyledThenParse: names hold no NUL, at which the styled writer cuts a name.
- Demangle.OverloadedBack: says what comes back for names and signatures that are safe; that it does not for others is proved for the name only (`DemangleUndoesMangle`).
- XmlParser.Parser.Parse: error codes, line numbers and memory pools are not modelled; a refused document gives no tree. Texts are decoded in a copy when they are read, not in the document's buffer when they are first asked for, and white space is never collapsed.
- XmlPrinter.Printer.Accept: only the compact path; documents without a byte order mark; entities are processed.
- XML cloning, numeric attributes, and the other functions that edit a document.
- Foreign calls and platform glue: Dobby, shellcode, registers, JNI calls, Java, Xposed and Frida scripts, and the loaders.
