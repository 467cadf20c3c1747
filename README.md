# openMSX: Tiger tree hash cache, file-list panel and setting traces

This project models three pieces of openMSX in Dafny and proves properties of
the models.

- **TigerTree** (`src/utils/TigerTree.cc`) keeps an incremental Tiger tree
  hash of a block of data, for example a disk image. The tree is a binary
  tree stored in a flat array. Leaves sit at the even indices and at level 1.
  An interior node at level `l` combines a left child at level `l/2` with a
  right child that may sit lower when the tree is not complete. Every node
  stores a hash and a `valid` flag, and a counter says how many flags are
  set. `notifyChange` clears the flags of the changed blocks' leaves and of
  their ancestors. `calcHash` recomputes the invalid nodes bottom-up.
  - Module `Pow2Arith` (`pow2.dfy`) holds the power-of-two arithmetic.
  - Module `TigerNav` (`tiger_nav.dfy`) models the index arithmetic of the
    navigation functions as pure functions. It proves that the navigation
    describes one tree: every node but the root has a parent, and each child
    leads back to its parent.
  - Module `TigerTreeCache` (`tiger_tree.dfy`) models the cache entry and the
    tree as classes over an `array<Info>`. `notifyChange` and `calcHash` are
    methods with their loops and recursion. They preserve one cache
    invariant:
    - every valid node stores the hash of its subtree;
    - a valid interior node has valid children;
    - the counter equals the number of valid flags.
  - The Tiger primitives are not computed. A hash is the term that names
    what was hashed (`Tiger`, `TigerLeaf`, `TigerInt`).
- **FileListWidget** (`src/imgui/FileListWidget.cc`) is a menu panel that lists
  the user's files with one extension. Module `FileList` (`file_list.dfy`)
  models the following:
  - the directory scan, as a nested loop over the files of each search path;
  - the rescan when the menu goes from closed to open;
  - the lazy resort driven by the table's dirty flag and the widget's
    `needSort`;
  - the delete action behind a confirmation dialog.

  The file system walk, the table's sort specification, the user's
  clicks in a frame and whether an unlink succeeds are inputs. One frame is
  a function (`DrawStep`, `TableStep`) from the widget's state before it
  (entries, needSort, dialog, files, SpecsDirty) to what it shows and the
  state after; the methods are proved to follow it.
- **Interpreter** (`src/commands/Interpreter.cc`) mirrors every setting by a
  global Tcl variable, synchronised by a variable trace. Module `TclTraces`
  (`interpreter.dfy`) models the following:
  - the `traces` registry, a vector sorted on ids drawn from `traceCount`;
  - its registration, removal and binary-search lookup;
  - the read, write and unset rules of `traceProc`;
  - the empty-machine check of `commandProc`.

  Tcl variables are a map from names to strings. A setting is an object
  whose value a validation map can reject.

## Model

| member | source | states |
|---|---|---|
| TigerNav.CalcNumNodes | src/utils/TigerTree.cc:29-33 | the number of nodes is always odd |
| TigerNav.NumNodesBlocks | src/utils/TigerTree.cc:29-33 | empty data gives exactly one node; otherwise the (N+1)/2 leaves are one per started block of BLOCK_SIZE bytes: they hold all the data, and one leaf fewer would not |
| TigerNav.ClearBitAt | src/utils/TigerTree.cc:159 | `ClearBit`, the arithmetic form of `n & ~b` for a power of two b, subtracts b exactly when the quotient of n by b is odd, and leaves n alone otherwise |
| TigerNav.StepAt | src/utils/TigerTree.cc:158-160 | one iteration of getParent's loop moves a well-formed node to the well-formed node one level up: left by l when bit 2l of n is set, right by l otherwise |
| TigerNav.StepFacts | src/utils/TigerTree.cc:158-160 | one parent step doubles the level, moves the index by exactly l, and the new span contains the old one |
| TigerNav.WFFacts | src/utils/TigerTree.cc:132-133 | leaves (level 1) are exactly the even indices; an interior node at level l has index at least l/2 |
| TigerNav.FloodRightFacts | src/utils/TigerTree.cc:145 | floodRight (`FloodRight`): floodRight(x) + 1 is a power of two, at least x and below 2x for x >= 1 |
| TigerNav.TopFacts | src/utils/TigerTree.cc:143-147 | getTop (`Top`) is a node of the tree with level n + 1 whose span covers every index of the tree |
| TigerNav.TopCovers | src/utils/TigerTree.cc:143-147 | every index of the tree lies below the root |
| TigerNav.LevelBound | src/utils/TigerTree.cc:143-147 | no node of the tree is above the root, and the root is the only node at its level |
| TigerNav.TopExample | src/utils/TigerTree.cc:124-130 | the root of the 13-node tree of the layout comment is node 7 at level 8; the root of a one-node tree is leaf 0 at level 1 |
| TigerNav.LeafFacts | src/utils/TigerTree.cc:149-153 | getLeaf (`Leaf`) of block b is node 2b at level 1 of the tree, node 2b's level is 1, and leaf n's block starts at byte n * (BLOCK_SIZE / 2) = b * BLOCK_SIZE |
| TigerNav.ClimbFacts | src/utils/TigerTree.cc:158-161 | the rest of getParent's climb (`Climb`) ends at a node of the tree, no lower, whose span still covers everything the start covered |
| TigerNav.ParentFacts | src/utils/TigerTree.cc:155-163 | getParent (`ParentOf`) of a non-root node is a node of the tree on a higher level whose span contains the node's span |
| TigerNav.InteriorFacts | src/utils/TigerTree.cc:165-172 | an interior node has an odd index, a further index after it, and index >= l/2 so getLeftChild does not underflow |
| TigerNav.RightFromFacts | src/utils/TigerTree.cc:177-182 | getRightChild's loop (`RightFrom`, started by `RightChild`) returns index n + l' < N for a power of two l' below the level; l' is the highest such level that fits |
| TigerNav.RightFromFit | src/utils/TigerTree.cc:177-182 | conversely, the highest fitting power of two below the level determines the right child |
| TigerNav.ParentOfLeft | src/utils/TigerTree.cc:155-172 | the left child (`LeftChild`) of an interior node is a non-root node of the tree, and getParent(getLeftChild(x)) == x |
| TigerNav.ParentOfRight | src/utils/TigerTree.cc:155-183 | the right child of an interior node is a non-root node of the tree, and getParent(getRightChild(x)) == x |
| TigerNav.ChildrenInTree | src/utils/TigerTree.cc:165-183 | both children of an interior node are nodes of the tree (index below the node count) on lower levels |
| TigerNav.ChildOfParent | src/utils/TigerTree.cc:121-163 | every non-root node is the left or the right child of its parent: parent and child navigation describe one tree |
| TigerNav.ClimbToChild | src/utils/TigerTree.cc:155-183 | the climb from a node through missing indices ends at a parent of which the node is the left or right child |
| TigerNav.ChildSpans | src/utils/TigerTree.cc:121-141 | the children's spans split the node's span: the left child covers the part left of the node, the right child the part right of it inside the tree |
| TigerNav.LevelWF | src/utils/TigerTree.cc:132-139 | every index has exactly one level at which it is a node |
| TigerNav.ParentExampleSkip | src/utils/TigerTree.cc:135-138 | in the 13-node tree the parent of leaf 12 is node 11, skipping the missing level-2 node |
| TigerNav.ParentExampleRoot | src/utils/TigerTree.cc:137-139 | in the 13-node tree nodes 3 and 11 both have parent 7 |
| TigerNav.ChildExample | src/utils/TigerTree.cc:137-139 | in the 13-node tree the children of 11 are 9 and leaf 12 |
| TigerTreeCache.LeafInData | src/utils/TigerTree.cc:97-99 | every leaf's first byte n * (BLOCK_SIZE / 2) lies inside the data, so dataSize - b does not underflow |
| TigerTreeCache.CountUpdate | src/utils/TigerTree.cc:67-112 | changing one flag changes the count of valid flags by one in the same direction, which is what every decrement and increment of numNodesValid does |
| TigerTreeCache.CountValidRange | src/utils/TigerTree.cc:42-43 | the count is 0 exactly when no flag is set and equals the node count exactly when every flag is set |
| TigerTreeCache.ChildrenAt | src/utils/TigerTree.cc:89-92 | the node at an odd index is interior, and its children sit at the indices getLeftChild and getRightChild compute, on lower levels |
| TigerTreeCache.ChildIndexParent | src/utils/TigerTree.cc:155-183 | a node at a child index of i has i as its parent |
| TigerTreeCache.ClearClosed | src/utils/TigerTree.cc:76-79 | clearing a node's flag moves the only possible breach of "valid interior nodes have valid children" to that node's parent |
| TigerTreeCache.SetValidKeeps | src/utils/TigerTree.cc:95-112 | storing the subtree hash at an invalid node whose children are valid keeps the cache invariant and adds one to the count |
| TigerTreeCache.ClosureCovers | src/utils/TigerTree.cc:84-118 | under the invariant, a valid node has every node below it valid |
| TigerTreeCache.HashFrame | src/utils/TigerTree.cc:84-110 | the hash of a subtree (`SubtreeHash`, built from `LeafHash` and tiger_int) depends only on the bytes of the blocks of its leaves |
| TigerTreeCache.LeafFrame | src/utils/TigerTree.cc:97-110 | a leaf hash depends only on the bytes of its block |
| TigerTreeCache.NotifyConsistent | src/utils/TigerTree.cc:60-82 | once the leaves of the changed blocks are invalid, every hash still marked valid is the hash of its subtree over the new contents |
| TigerTreeCache.StartClearing | src/utils/TigerTree.cc:67-70 | clearing the valid root as a sentinel keeps the invariant with the count decremented and starts the walk over the blocks |
| TigerTreeCache.ClearStep | src/utils/TigerTree.cc:76-79 | a valid node on the path up from a changed leaf is never the root (the sentinel stops the walk); clearing it decrements a positive count and getParent moves strictly up |
| TigerTreeCache.ClearConsistent | src/utils/TigerTree.cc:77 | clearing a flag keeps every remaining valid hash correct |
| TigerTreeCache.RootComplete | src/utils/TigerTree.cc:55-58 | when the root and everything below it is valid, every node is valid, numNodesValid equals the node count and the root holds the tree hash |
| TigerTreeCache.ValidDone | src/utils/TigerTree.cc:88-117 | an already valid node is returned as stored: its hash is the subtree hash and every node below it is valid |
| TigerTreeCache.LeafReady | src/utils/TigerTree.cc:97-110 | an invalid leaf starts inside the data and is ready to receive its block hash |
| TigerTreeCache.InteriorReady | src/utils/TigerTree.cc:89-95 | after calcHash on both children, an invalid interior node is ready for tiger_int of the two returned hashes, which is its subtree hash |
| TigerTreeCache.StoreDone | src/utils/TigerTree.cc:111-112 | storing the hash, setting the flag and incrementing the counter keeps the invariant and completes calcHash(node) |
| TigerTreeCache.Reports | src/utils/TigerTree.cc:113-115 | the progress reports for counter values lo+1 .. hi, each paired with the node count |
| TigerTreeCache.ReportsConcat | src/utils/TigerTree.cc:113-115 | two consecutive stretches of reports make one |
| TigerTreeCache.TTCacheEntry.constructor | src/utils/TigerTree.cc:14-23 | a fresh cache entry has no nodes and time -1 |
| TigerTreeCache.TTCacheEntry.Refresh | src/utils/TigerTree.cc:38-45 | a still-valid entry, whose hashes were computed over the current contents, keeps its nodes and counter; otherwise the array is resized to calcNumNodes(dataSize) with every flag cleared and the counter 0; either way the entry's hashes describe the current contents, the invariant holds and the time is the one the validity check leaves |
| TigerTreeCache.TigerTree.constructor | src/utils/TigerTree.cc:48-53 | the tree refers to the data and its cache entry; on a cache hit the entry is untouched, on a miss it is resized with every flag clear; in both cases the entry's hashes describe the current data, the time is the one the validity check leaves, and the tree is valid |
| TigerTreeCache.TigerTree.GetParent | src/utils/TigerTree.cc:155-163 | the loop returns ParentOf, the nearest ancestor that exists |
| TigerTreeCache.TigerTree.GetRightChild | src/utils/TigerTree.cc:174-183 | the loop returns RightChild, which ParentOfRight proves leads back to the node |
| TigerTreeCache.TigerTree.NotifyChange | src/utils/TigerTree.cc:60-82 | the time is always recorded; len == 0 changes nothing else; otherwise the root and the leaf of every block from offset/BLOCK_SIZE to (offset+len-1)/BLOCK_SIZE are invalid, no hash changed, only the root and ancestors of those leaves were cleared, and the invariant holds for the new contents, so every ancestor of a changed leaf is invalid too |
| TigerTreeCache.TigerTree.ClearBlocks | src/utils/TigerTree.cc:67-81 | the sentinel and the do/while over the blocks first .. last leave every one of their leaves invalid and the invariant intact |
| TigerTreeCache.TigerTree.ClearPath | src/utils/TigerTree.cc:75-80 | one round of the do/while clears the flags from the leaf up to the first invalid node and keeps the invariant |
| TigerTreeCache.TigerTree.ClearNode | src/utils/TigerTree.cc:77-79 | the inner loop body clears the node, decrements the count and moves to a strictly higher node |
| TigerTreeCache.TigerTree.CalcHash | src/utils/TigerTree.cc:84-118 | returns the stored hash of the node, equal to the hash of its subtree (`SubtreeHash`); everything below the node is valid; only invalid nodes below it changed; a valid node leaves the array and counter untouched; one progress report (numNodesValid, size) per recomputed node |
| TigerTreeCache.TigerTree.Recompute | src/utils/TigerTree.cc:88-116 | an invalid node gets its subtree hash, with the same guarantees as CalcHash |
| TigerTreeCache.TigerTree.HashChildren | src/utils/TigerTree.cc:89-95 | after calcHash on the left and then the right child, the node is ready for tiger_int of their hashes |
| TigerTreeCache.TigerTree.Store | src/utils/TigerTree.cc:111-115 | sets the flag, increments the counter, reports (numNodesValid, size) when there is a callback, and keeps the invariant |
| TigerTreeCache.TigerTree.CalcRootHash | src/utils/TigerTree.cc:55-58 | returns the tree hash (`TreeHash`, the subtree hash of getTop); afterwards every node is valid and numNodesValid equals the node count |
| FileList.ToEntry | src/imgui/FileListWidget.cc:90-93 | the display name plus the extension is the file name; the full name and time are kept |
| FileList.ScanRoot | src/imgui/FileListWidget.cc:89-95 | the walk of one search path adds at most one entry per file |
| FileList.ScanRootMembers | src/imgui/FileListWidget.cc:89-95 | an entry comes from a search path iff one of its files ends with the extension and gives that entry with the suffix removed |
| FileList.ScanConcat | src/imgui/FileListWidget.cc:87-96 | search paths are scanned in order: the scan of several paths is the concatenation of their scans |
| FileList.ScanMembers | src/imgui/FileListWidget.cc:86-96 | the entries after a scan (`Scan`) are exactly the suffix-stripped files ending with the extension, from every search path and from nothing else |
| FileList.RemoveFile | src/imgui/FileListWidget.cc:50 | the listing after a successful unlink keeps every file except the unlinked one |
| FileList.UnlinkRescan | src/imgui/FileListWidget.cc:157-160 | after a successful default delete (`Unlinked`) and the rescan, the deleted file's entries are gone and every other entry is still there |
| FileList.InOrderTotal | src/imgui/FileListWidget.cc:132-141 | any two entries can be ordered by name or by time in either direction |
| FileList.InOrderTrans | src/imgui/FileListWidget.cc:132-141 | that order is transitive |
| FileList.Insert | src/imgui/FileListWidget.cc:134-137 | inserting keeps every entry and adds the new one |
| FileList.InsertSorted | src/imgui/FileListWidget.cc:134-137 | inserting into an ordered list keeps it ordered |
| FileList.SortBySorted | src/imgui/FileListWidget.cc:132-141 | sorting (`SortBy`) orders the entries by name (column 0) or time (column 1) in the chosen direction |
| FileList.SortByPermutes | src/imgui/FileListWidget.cc:132-141 | sorting keeps exactly the same entries |
| FileList.InOrderAntisym | src/imgui/FileListWidget.cc:132-141 | two entries ordered both ways have the same key |
| FileList.SortedUnique | src/imgui/FileListWidget.cc:132-141 | when the keys are pairwise distinct, two ordered lists of the same entries are equal: the sorted order is unique |
| FileList.Reverse | src/imgui/FileListWidget.cc:132-141 | reversal keeps the entries and puts the entry at position i of a list of length n at position n - 1 - i |
| FileList.ReverseSorted | src/imgui/FileListWidget.cc:132-141 | a list ordered in one direction, reversed, is ordered in the other |
| FileList.SortDirections | src/imgui/FileListWidget.cc:132-141 | with pairwise distinct keys, the descending sort is the reverse of the ascending sort and vice versa |
| FileList.SortedFixed | src/imgui/FileListWidget.cc:132-141 | sorting an already ordered list leaves it exactly as it is, ties included |
| FileList.SortIdempotent | src/imgui/FileListWidget.cc:125-141 | resorting twice in succession with the same column and direction gives the same order as sorting once |
| FileList.Resorted | src/imgui/FileListWidget.cc:125-142 | the rows are always a permutation of the entries; they are ordered when a resort was due and unchanged otherwise |
| FileList.AfterClick | src/imgui/FileListWidget.cc:152-162 | the dialog only opens when there is a delete action and a row was chosen, with the prompt "Delete <type> file '<name>'?" and that row's entry captured by value |
| FileList.ClickOpens | src/imgui/FileListWidget.cc:152-162 | choosing "delete" on a shown row with the default action opens the dialog with the prompt for that row and its entry; otherwise the dialog is unchanged |
| FileList.FileSystem.UnlinkFile | src/imgui/FileListWidget.cc:50 | a successful unlink removes the file from every search path; a failed one leaves the files as they were |
| FileList.FileListWidget.constructor | src/imgui/FileListWidget.cc:43-51 | the dialog title is "Confirm delete##filelist-" + fileType, the default delete action unlinks, no entries, menu closed |
| FileList.FileListWidget.ScanDirectory | src/imgui/FileListWidget.cc:84-98 | the nested loops replace the entries with exactly the scan of the search paths, and set needSort |
| FileList.FileListWidget.Menu | src/imgui/FileListWidget.cc:53-61 | menuOpen becomes the open state of this frame; a closed or disabled menu draws nothing and leaves entries, needSort, the dialog, the files and SpecsDirty as they were; an open one shows and leaves exactly what draw does (`DrawStep`) |
| FileList.FileListWidget.Draw | src/imgui/FileListWidget.cc:63-67 | the view and the new entries, needSort, dialog, files and SpecsDirty are those of drawTable (`TableStep`) from the old state, with the fresh scan and needSort in place of the old entries when the menu was closed in the previous frame |
| FileList.FileListWidget.DrawTable | src/imgui/FileListWidget.cc:100-171 | the view and the new entries, needSort, dialog, files and SpecsDirty are `TableStep` of the old state: see TableStepShows and DeleteFrame for what that means |
| FileList.FileListWidget.DrawRows | src/imgui/FileListWidget.cc:124-163 | the entries are resorted iff SpecsDirty or needSort, both flags are false afterwards, and choosing "delete" on a row opens the dialog for it |
| FileList.FileListWidget.Execute | src/imgui/FileListWidget.cc:155-170 | a confirmed dialog closes, runs the delete action on the captured entry (an unlink that may fail) and then the rescan; a cancelled one closes; an unanswered one stays; only a confirmed dialog changes the files or the entries |
| FileList.FileListWidget.TableStepShows | src/imgui/FileListWidget.cc:100-171 | with no entries a frame shows "No <type> files found" and changes nothing; otherwise it shows the entries, ordered when SpecsDirty or needSort was set, clears SpecsDirty, and unless a delete was confirmed keeps the shown order as the entries, the files as they were and needSort clear |
| FileList.FileListWidget.DeleteFrame | src/imgui/FileListWidget.cc:155-160 | a confirmed delete closes the dialog and leaves the scan of the remaining files, with needSort set; when the unlink succeeds the deleted file's entries are gone and all others stay, when it fails or there is no action the rescan equals the old scan |
| FileList.FileListWidget.OpenRedraw | src/imgui/FileListWidget.cc:63-67 | redrawing an already-open menu whose sort is settled, with no click and no answer, shows the kept entries (or the "no files" text) and changes nothing |
| FileList.FileListWidget.OpenEdge | src/imgui/FileListWidget.cc:63-67 | on the closed-to-open edge the frame shows the fresh scan sorted by the current column, or the "no files" text when it is empty |
| TclTraces.BaseSetting.SetValueDirect | src/commands/Interpreter.cc:288 | an accepted value is stored in its normalised form; a rejected one throws the setting's message and keeps the value |
| TclTraces.SettingOf | src/commands/Interpreter.cc:347-351 | no setting iff no trace has the id; otherwise a trace pairs the id with the setting found |
| TclTraces.SettingOfAt | src/commands/Interpreter.cc:347-351 | with ids sorted and unique, every trace is found under its own id |
| TclTraces.RegisterLookup | src/commands/Interpreter.cc:327-328 | appending under the next id: the new id finds the new setting and every other id finds what it found before |
| TclTraces.EraseSorted | src/commands/Interpreter.cc:338 | erasing one trace keeps the vector sorted on id |
| TclTraces.EraseLookup | src/commands/Interpreter.cc:336-338 | after erasing a trace its id finds nothing, and every other id finds what it found before |
| TclTraces.CommandProc | src/commands/Interpreter.cc:173-204 | a command not allowed in an empty machine, run through an MSX controller without a machine config, fails with "Can't execute command in empty machine"; otherwise TCL_OK with the result iff execute returns, TCL_ERROR with the message iff it throws |
| TclTraces.Interpreter.constructor | src/commands/Interpreter.cc:35-36 | no traces and the counter at 0 |
| TclTraces.Interpreter.RegisterSetting | src/commands/Interpreter.cc:282-332 | an existing variable's value is pushed into the setting, a rejection ignored; a missing variable is created with the safe value; the trace is appended under traceCount, which is incremented, so ids stay unique and sorted |
| TclTraces.Interpreter.FindLast | src/commands/Interpreter.cc:336 | returns the last trace of the setting |
| TclTraces.Interpreter.UnregisterSetting | src/commands/Interpreter.cc:334-345 | erases the last trace of the setting, keeping the others in order and sorted, removes its Tcl trace and unsets the variable |
| TclTraces.Interpreter.GetTraceSetting | src/commands/Interpreter.cc:347-351 | the binary search returns the setting registered under the id, or none when the id was never issued or was unregistered |
| TclTraces.Interpreter.TraceProc | src/commands/Interpreter.cc:361-449 | an unknown id changes nothing; a read copies the value into the variable or returns the setting's message; a write pushes the variable into the setting, rewrites a normalised value back, or resets the variable to the safe value and returns the message; an unset restores the default (keeping the value when it is rejected), recreates the variable with the safe value and re-arms the trace with the same id; no other setting changes |

## Left out

- `src/sound/BlipBuffer.cc` (floating-point synthesis) and `src/commands/TclParser.hh` (declarations only) are not part of this model.
- The Tcl plumbing of `src/commands/Interpreter.cc` is not modelled. This covers channels, `outputProc`, evaluation, namespaces, `poll`, expression parsing, `wrongNumArgs`, and the constructor and destructor. These are calls into Tcl with no logic of their own.
- The Tiger primitives `tiger`, `tiger_leaf` and `tiger_int` are symbolic constructors, not computed. Likewise `data.getData`, and `ScopedAssign` as the zero byte in front of the partial block.
- The global `ttCache` map lookup of `getCacheEntry` is not modelled; the tree is given its entry. `isCacheStillValid` is a boolean parameter.
- TigerTreeCache.TTCacheEntry.Refresh: `isCacheStillValid` is handed the entry's time and may rewrite it. Its declaration is not part of this model, so the time it leaves is an input (`newTime`), and the model does not say how that time is chosen.
- TigerTreeCache.TTCacheEntry.Refresh: allocates a fresh array where the source resizes `MemBuffer` in place, so aliasing of the old buffer is not modelled.
- `BLOCK_SIZE` is 1024, the value of `TigerTree::BLOCK_SIZE`. `TigerTree.hh` is not part of this model; the proofs only use that the value is even and positive.
- `size_t` and `uintptr_t` are unbounded naturals. Overflow of the node count, of `offset + len` and of `traceCount` is not modelled.
- The bit operation `n & ~(2l)` of getParent is written with subtraction (`ClearBit`). `TigerNav.ClearBitAt` proves it clears exactly that bit.
- TigerTreeCache.TigerTree.GetParent: requires a node other than the root. The source's loop never ends on the root, and `notifyChange`'s sentinel keeps the walk from reaching it.
- FileList.SortBySorted: `sortUpDown_String` and `sortUpDown_T` are not part of this model. The model's insertion sort keeps entries with equal keys in their input order, in both directions, and the widget's contracts follow this stable order (`SortedFixed`, `Resorted`); the source's `sortUpDown_*` may order equal keys differently. Names are compared by character code.
- FileList.FileListWidget.DrawRows: the assertions on the sort specification become a precondition: one spec, and column 0 or 1 (the `UNREACHABLE` default). `SortOrder` and the `Specs` pointer are not modelled.
- FileList.FileListWidget.Draw: `drawAction` is the default, which calls `drawTable`. Custom draw, select and hover actions and `hoverAction`'s timing are not modelled.
- The ImGui rendering, tooltips, `fileTimeToTimeT` and the time formatting functions are not modelled. `foreach_file`, `last_write_time` and `unlink` are inputs: a listing per search path and an explicit unlink.
- FileList.FileSystem.UnlinkFile: whether `unlink` succeeds is an input (`unlinkOk`); the source ignores the result, so after a failed unlink the rescan lists the file again. Errors of `foreach_file` are not modelled.
- The confirmation dialog (`confirmDelete`) is reduced to a pending prompt and entry, and the user's answer in a frame is an input.
- Custom delete actions are not modelled. `DeleteAction` covers the default action, which unlinks the file, and an unset action (`NoDelete`), for which the source does not offer "delete".
- TclTraces.Interpreter.TraceProc: handles one operation per call, while Tcl may pass several flags together. Traces that `setVar` itself may fire are not modelled, and setting a variable is assumed to succeed. `part1` is taken to be the setting's full name, as the source asserts.
- TclTraces.Interpreter.RegisterSetting: `setVariable` (src/commands/Interpreter.cc:300) is assumed to succeed. In the source `Tcl_ObjSetVar2` can fail and `setVariable` then throws (src/commands/Interpreter.cc:256), so no trace is added and `traceCount` is not incremented; that path is not modelled.
- `traces` and `traceCount` are globals in the source; here they are fields of the `Interpreter` object.
- TclTraces.CommandProc: the token conversion and `Tcl_SetObjResult` are not modelled, and exceptions other than `MSXException` are unreachable in the source.
