# Verified models of an X server's shared-state extensions

This Dafny 4.11 project models the parts of the server in which one request changes state that others rely on, and
proves what these parts keep over every run.

- **Double buffering** (`WindowPrivates`, `DbeState`, `DbeRequests`, `DbeInvariant`, `DbeTeardown`, `DbeSwap`,
  `DbeResize`, `DbeRuns`, `DbeFrames`, `DbeMeaning`, `DbeServer`, `Background`, `DbeBackground`, `Images`). A window may
  have one private record with two pixmaps and a growing and shrinking array of names. A resource database enters every
  name twice, for the record and for the current back pixmap. `DbeServer.Dbe` is the extension with its records, arrays
  and tables changed in place; each of its requests is proved equal to a step on values in `DbeRequests`, over which the
  invariants, the runs, the meaning of every request and the teardown are proved.
- **Namespaces** (`SelectionNames`, `Selections`, `SelectionRuns`, `SelectionAtoms`, `HexTokens`, `NamespaceConfig`,
  `ConfigParser`, `ConfigLines`, `NamespaceClients`, `NamespaceServer`, `RootProperties`). Selections mangled so that one
  table acts as many, and answered by their history; a configuration parsed and looked up, reference counts over client
  lives, and requests about the root window sent to virtual roots.
- **Keysyms** (`KeysymTable`). Two binary searches, one over a copy sorted when first needed.
- **Apple window-manager events** (`AppleWM`). A linked list of masks with a cached OR.
- **Modifier keys and fake buttons** (`ModifierKeys`, `FakeButtons`). Flags turned into key events whose history
  must reproduce the flags.

The public standards behind the code are the X Double Buffer Extension Protocol, version 1.0 (Concepts and Requests), the
X Window System Protocol, Version 11 (section 9, ConfigureWindow, for bit gravity), and its Appendix A (KEYSYM Encoding).

## How it is built

Where the source changes state in place the model does too: `WindowPriv`, `Dbe`, `Keysyms`, `SelectionServer`, `Namespaces`,
`PropertyFilterParam`, `WMEvent`, `EventSelections` and `Darwin` are classes whose methods have the loops and
branches of the source, and each method states its whole new state by a function of the old one. The theorems are about
these functions, and say what they do in terms of what can be seen before and after, or of the events of a run, without
them: `DbeMeaning` for double buffering, `SelectionRuns` for selections, `NamespaceClients.PlacedByLast` for clients,
`FakeButtons.FirstGoesDown` and `ModifierKeys.UpdateCount` for events. Contents of drawables are finite pixel maps;
`CopyArea` and `PolyFillRect` are updates of them. What a new pixmap happens to hold is a parameter, so nothing can be
proved about it by chance. Refused pixmaps are parameters as well (`None`). Bit masks are sets of bits.

To check all of it: `dafny verify dfyconfig.toml`.

## What the code does that its documentation does not say

- After a move without resize the stored place of a record is stale (`source/Xext/doublebuffer/midbe.c:467-469`), so with
  static gravity a later resize displaces the buffers differently from the window. `DbeResize.StaticAfterMove` gives the
  exact condition.
- A refused `ConvertSelection` runs the filter on its own result (`source/dix/selection.d:369-385`), so the client sees a
  mangled name. `Selections.RefusalName`.
- A namespace whose name contains `>`, or a name too long for the buffer, breaks the translation of names back, and two
  namespaces with `>` may share selections. `SelectionNames.StripUndoesMangle` and `SelectionNames.NeverMeet` give the
  exact conditions.
- A client with power shares the server's raw names, so by naming `<ns>name` it reaches a selection of that namespace.
  `Selections.PowerReaches` says by exactly which names.
- The words of the configuration are split at blanks, but the name of a namespace and the digits of a credential at spaces
  only (`source/Xext/namespace/config.c:92`, `source/Xext/namespace/config.c:113`). A tab after the first blank before
  them, or right behind them, becomes part of them, and with it what follows up to the next space: a parent name behind a
  tab, of the form `source/Xext/namespace/ns.conf.example` shows, becomes part of the name. `ConfigLines.NamespaceLine`,
  `ConfigLines.AuthLine` and `ConfigLines.AuthLineExactly` say exactly which lines still mean what they say, whatever
  follows. A parent name behind a space is ignored.
- `ucs2keysym` marks any long as directly encoded, and the table has several keysyms for one code point: not every code
  point and not every keysym comes back. `KeysymTable.RoundTrip` and `KeysymTable.KeysymRoundTrip` give the exact
  conditions.
- With a real second or third button pressed beside a faked one, the server may see it pressed twice.
  `FakeButtons.RunButtons` gives the exact condition.
- A comment in `miDbeAllocBackBufferName` speaks of the head of the list of names
  (`source/Xext/doublebuffer/midbe.c:196`); new names go to its end.

## Model

| member | source | states |
|---|---|---|
| `WindowPrivates.WindowPriv.constructor` | source/Xext/doublebuffer/dbe.c:216-236 | A new record has no names, two free inline slots, and the geometry of its window. |
| `WindowPrivates.WindowPriv.FreeSlot` | source/Xext/doublebuffer/dbe.c:246-293 | The first free slot is the one after the last name; the array is grown when there is none, and no name moves. |
| `WindowPrivates.WindowPriv.Grow` | source/Xext/doublebuffer/dbe.c:255-291 | A full array becomes one four slots longer with the same names in front and only free slots behind, whether it was inline or not. |
| `WindowPrivates.WindowPriv.Add` | source/Xext/doublebuffer/dbe.c:300-325 | The names grow by the new one at their end, the action is the new one, all else stays; afterwards the inline array is in use exactly when at most two names remain, and the capacity is 2 or 2+4k. |
| `WindowPrivates.WindowPriv.Remove` | source/Xext/doublebuffer/dbe.c:835-876 | One name goes, the order of the others stays; absent names change nothing; the inline array is back in use exactly when at most two names remain. |
| `DbeTeardown.UnlistedIsWithout` | source/Xext/doublebuffer/dbe.c:846-860 | Removing one element of a duplicate-free array in place is dropping that name from the sequence of names. |
| `DbeInvariant.AllocatedInv` | source/Xext/doublebuffer/dbe.c:150-334 | Allocation, for a first or a further name, granted or refused for any reason, keeps the invariant of names, pixmaps, sizes and aliases. |
| `DbeInvariant.SwappedInv` | source/Xext/doublebuffer/midbe.c:242-360 | A swap of one window keeps the invariant, whatever the action. |
| `DbeInvariant.BuffersResizedInv` | source/Xext/doublebuffer/midbe.c:441-601 | Fitting the buffers restores the whole invariant from the state in which only the window has its new size, also when a pixmap is refused. |
| `DbeInvariant.ResizedInv` | source/Xext/doublebuffer/midbe.c:441-601 | A move or resize of a window, followed by its buffers, keeps the invariant. |
| `DbeInvariant.WindowDestroyedInv` | source/Xext/doublebuffer/dbe.c:939-957 | Destroying a window keeps the invariant. |
| `DbeInvariant.ClientGoneInv` | source/Xext/doublebuffer/dbe.c:822-905 | The death of a client, with its names and windows anywhere, keeps the invariant. |
| `DbeState.DropPrivsCore` | source/Xext/doublebuffer/dbe.c:822-905 | Running the delete functions of any set of names keeps names, records and pixmaps matched. |
| `DbeState.DropNamesInv` | source/Xext/doublebuffer/dbe.c:822-905 | Freeing any set of names keeps the whole invariant. |
| `DbeState.DropPrivsTwice` | source/Xext/doublebuffer/dbe.c:822-905 | Freeing two sets of names one after the other is freeing their union: the record dies with its last name, in whatever batches, and its pixmaps are destroyed once. |
| `DbeState.DropNamesTwice` | source/Xext/doublebuffer/midbe.c:386-391 | The same when the drawable entries go too, in any order. |
| `DbeState.DropPrivsIgnoresDrawables` | source/Xext/doublebuffer/midbe.c:386-391 | It makes no difference which of the two delete functions of an identifier runs first. |
| `DbeRuns.StepInv` | source/Xext/doublebuffer/dbe.c:150-957 | Every request and every event of the rest of the server keeps the invariant. |
| `DbeRuns.RunInv` | source/Xext/doublebuffer/dbe.c:150-957 | So does every run of them, of any length, from any state that has it. |
| `DbeRuns.NamesAfterRun` | source/Xext/doublebuffer/dbe.c:208-327 | After every run a window has a record exactly while some name resolves to it; its names are distinct, non-zero, resolve to this record and to its current back pixmap, and no other name resolves to either. |
| `DbeRuns.InvNamesResolve` | source/Xext/doublebuffer/midbe.c:221-230 | Under the invariant a name is in the array of a window if and only if the record entry leads to that window, and if and only if the drawable entry is its back pixmap. |
| `DbeRuns.PixmapsConserved` | source/Xext/doublebuffer/midbe.c:141-165 | After every run there are exactly two live pixmaps per record, and each pixmap ever created is either live and never destroyed or was destroyed exactly once: no leak and no double free, also where creation fails. |
| `DbeRuns.DestroyedWindowGone` | source/Xext/doublebuffer/dbe.c:939-957 | A destroyed window leaves no record, name or drawable; all other records and names stay as they were. |
| `DbeRuns.DeadClientGone` | source/Xext/doublebuffer/dbe.c:846-902 | After a client death a record survives exactly when its window does and another client holds one of its names, and keeps exactly those names, in their order. |
| `DbeTeardown.NameRemovedIsDrop` | source/Xext/doublebuffer/dbe.c:822-905 | The delete function of one name, its database entry being gone, does what dropping that name means, for the last name and for others. |
| `DbeTeardown.Deletable` | source/Xext/doublebuffer/dbe.c:841-844 | What the delete function relies on always holds: the name is in the array, and both pixmaps are there and differ. |
| `DbeTeardown.LessLeft` | source/Xext/doublebuffer/dbe.c:822-905 | Freeing any one resource of a dying client leaves strictly less to free. |
| `DbeTeardown.WindowFreed` | source/Xext/doublebuffer/dbe.c:939-957 | Destroying a window in the middle of a client death is one more part of the same end state. |
| `DbeTeardown.AllFreed` | source/Xext/doublebuffer/dbe.c:822-905 | When a dying client has nothing left, the state is the one the order-free description gives, whatever came first. |
| `DbeTeardown.AllDropped` | source/Xext/doublebuffer/dbe.c:947-956 | The loop that frees the first name until the record is gone has freed exactly the names of the window. |
| `DbeTeardown.RefusedNames` | source/Xext/doublebuffer/midbe.c:538-553 | A refused resize wastes at most one pixmap before it frees the names, and the names are those the window had. |
| `DbeSwap.SwapMeaning` | source/Xext/doublebuffer/midbe.c:263-330 | The window shows the old back buffer; the new back is the old window (Untouched), the old back (Copied, Undefined) or the background if there is one (Background); every name denotes the new back. |
| `DbeSwap.TwoUntouchedSwaps` | source/Xext/doublebuffer/midbe.c:317-325 | Two Untouched swaps restore window, back buffer, both pixmap pointers and all aliases; only the front pixmap differs, holding the window contents. |
| `DbeSwap.SwapsCommute` | source/Xext/doublebuffer/midbe.c:242-360 | Swaps of two different windows give the same state in either order. |
| `DbeSwap.WorklistStep` | source/Xext/doublebuffer/midbe.c:337-355 | Swapping the first entry and moving the last to the front leaves a list whose swaps in order give what the whole list in order gives. |
| `DbeSwap.SwapFirstLast` | source/Xext/doublebuffer/midbe.c:337-355 | In a list without repeated windows, moving the first entry to the end changes nothing. |
| `DbeSwap.ListedSwappedOnce` | source/Xext/doublebuffer/dbe.c:515-523 | Every window of a valid request is swapped exactly once, with its own action, from what it was before the request. |
| `DbeSwap.UnlistedKept` | source/Xext/doublebuffer/dbe.c:515-523 | A window that is not listed keeps its contents, buffers, record and aliases. |
| `DbeSwap.CheckedList` | source/Xext/doublebuffer/dbe.c:461-500 | A list that passes the checks has pairwise different windows, all with records, and valid actions. |
| `DbeSwap.AfterFirst` | source/Xext/doublebuffer/dbe.c:515-523 | One round of the worklist keeps the invariant, the validity of the rest and the final state. |
| `DbeResize.ClipToDestination` | source/Xext/doublebuffer/midbe.c:493-509 | For any displacement the clip code yields a copy of exactly the points where the moved old rectangle meets the new one, each from where it was; of nothing when they do not meet. |
| `DbeResize.ClippedCopy` | source/Xext/doublebuffer/midbe.c:565-570 | That clipped copy draws the same picture as laying the whole old buffer, displaced, over the new one. |
| `DbeResize.ResizedPixel` | source/Xext/doublebuffer/midbe.c:555-585 | Each pixel of a new buffer is the old pixel at the displaced place where bits are kept and it has one, else the background if it was cleared, else undefined. |
| `DbeResize.DefinedExactly` | source/Xext/doublebuffer/midbe.c:481-483 | No pixel of a new buffer is left to chance if and only if it was cleared to a background or the bits are not forgotten and the displaced old buffer covers it. |
| `DbeResize.ShrunkPixel` | source/Xext/doublebuffer/midbe.c:479-585 | If neither dimension grows and the gravity is neither Static nor Forget, each pixel of a new buffer is the one of the old buffer that the gravity moves there. |
| `DbeResize.StaticAfterMove` | source/Xext/doublebuffer/midbe.c:467-479 | A move without resize leaves the stored place stale; the next resize moves the buffers as the window itself if and only if the gravity is not Static or the window was moved to the stored place. |
| `DbeFrames.ResizedMeaning` | source/Xext/doublebuffer/midbe.c:511-600 | A resize with granted pixmaps gives the window two new buffers, every pixel of both drawn as specified from the old ones, and keeps names, action and what the names denote. |
| `DbeFrames.AllocatedMeaning` | source/Xext/doublebuffer/midbe.c:141-208 | A granted name comes last among the names of its window and denotes its back buffer; the first one brings a new buffer that shows the background, a further one changes no pixel. |
| `DbeFrames.RefusedMeaning` | source/Xext/doublebuffer/dbe.c:157-206 | A refused allocation changes no window, record, name or pixmap. |
| `DbeFrames.Unconcerned` | source/Xext/doublebuffer/dbe.c:150-957 | Whatever happens to other windows, names and clients, a double-buffered window keeps its contents, both buffers, its record and its aliases. |
| `DbeFrames.UnconcernedRun` | source/Xext/doublebuffer/dbe.c:150-957 | So it does over every run of events that do not concern it. |
| `DbeMeaning.SwapGranted` | source/Xext/doublebuffer/dbe.c:461-500 | A swap is granted if and only if every window exists and is double-buffered, none is listed twice, and every action is one of the four. |
| `DbeMeaning.SwapRefused` | source/Xext/doublebuffer/dbe.c:461-500 | A refused swap changes nothing; the earliest bad entry decides: BadWindow for no such window, BadMatch for no buffers or the window once more further on, BadValue for no such action. |
| `DbeMeaning.SwapDone` | source/Xext/doublebuffer/dbe.c:515-523 | A granted swap gives each listed window what its back buffer held, and its buffers, record and aliases what its own action says; no other window, record, name or buffer changes. |
| `DbeMeaning.DeallocatedMeaning` | source/Xext/doublebuffer/dbe.c:353-396 | A name given up is gone from both tables and from its record, whose other names stay in order, and no other name is touched; record and pixmaps go if and only if it was the last; all windows stay; an unknown name is refused without effect. |
| `DbeMeaning.AllocationAnswer` | source/Xext/doublebuffer/dbe.c:157-206 | Which of the five answers an allocation gets: no such window; not for input and output, or no depth has its visual; no such action; an identifier not free or not the client's; pixmaps refused. |
| `DbeMeaning.AllocationRefused` | source/Xext/doublebuffer/dbe.c:157-327 | A refusal changes nothing but the number of a pixmap that was made and destroyed again. |
| `DbeMeaning.AllocationDone` | source/Xext/doublebuffer/dbe.c:208-327 | A granted name is entered for its window in both tables and comes last among its names; a first one brings a record with the geometry of the window and two pixmaps that never were before, the second cleared to the background; nothing else changes. |
| `DbeMeaning.LandsDisplaced` | source/dix/window.d:1768-1812 | The displacement of each gravity keeps bits at their distance to the edge the gravity names, moves them by half the growth rounded towards zero in its middle row and column, and follows the stored place if static. |
| `DbeMeaning.ResizeDone` | source/Xext/doublebuffer/midbe.c:441-600 | A resize with granted pixmaps gives two new buffers in which every old pixel is where its gravity keeps it, and the rest is background or undefined; the record remembers the new geometry; no other window or record changes. |
| `DbeMeaning.ResizeLeaves` | source/Xext/doublebuffer/midbe.c:586-600 | The names of the window denote its new back buffer, all others what they did; its old pixmaps are gone and all others as they were. |
| `DbeMeaning.ResizeRefused` | source/Xext/doublebuffer/midbe.c:538-553 | A resize whose pixmaps are refused, one or both, takes all names of the window, its record and its old pixmaps, and nothing else. |
| `DbeMeaning.ResizeAlone` | source/Xext/doublebuffer/midbe.c:441-466 | A window that has no buffers, or only moves, changes nothing of the extension. |
| `DbeMeaning.DestroyedMeaning` | source/Xext/doublebuffer/dbe.c:939-957 | Destroying a window takes exactly that window and, if it has them, its names, its record and its two pixmaps. |
| `DbeMeaning.ClientNamesGone` | source/Xext/doublebuffer/dbe.c:846-902 | When a client dies exactly its windows and those below them go, and from both tables exactly its names and those of these windows. |
| `DbeMeaning.ClientRecordsGone` | source/Xext/doublebuffer/dbe.c:846-902 | What stays of a record is its names of other clients, in order; of the pixmaps stay just those of the records that stay, with their pixels, and all others are destroyed once. |
| `Background.SetupBackgroundPainter` | source/Xext/doublebuffer/dbe.c:742-786 | In every tree of windows whose roots are not ParentRelative the walk ends, and filling with its painter gives each pixel the background the protocol defines, no painter meaning no background. |
| `Background.ShowsAncestor` | source/Xext/doublebuffer/dbe.c:755-761 | A window shows at a point what its first ancestor that is not ParentRelative shows at the translated point. |
| `Background.PainterPaints` | source/Xext/doublebuffer/dbe.c:772-778 | Tiling from the negated offset within that ancestor reproduces the background of the window at every pixel. |
| `DbeBackground.BackgroundSwap` | source/Xext/doublebuffer/midbe.c:305-315 | After a Background swap every pixel of the back buffer is the background the window tree gives its window there. |
| `DbeBackground.BackgroundAllocated` | source/Xext/doublebuffer/midbe.c:180-190 | So is every pixel of the back buffer that comes with a first name. |
| `DbeBackground.BackgroundResized` | source/Xext/doublebuffer/midbe.c:479-585 | So is every pixel of both buffers on which no old one lands, after a resize that grows the window or forgets its bits. |
| `DbeServer.Dbe.AllocateBackBufferName` | source/Xext/doublebuffer/dbe.c:150-334 | The request in place does to the shared state, errors and refused pixmaps included, what the specification of allocation says. |
| `DbeServer.Dbe.CheckAllocate` | source/Xext/doublebuffer/dbe.c:157-206 | The error is that of the first check that fails, in the order of the source. |
| `DbeServer.Dbe.FirstBuffers` | source/Xext/doublebuffer/midbe.c:141-190 | Both pixmaps or none: a refused back pixmap destroys the front one; granted, the new name denotes a back buffer cleared to the background. |
| `DbeServer.Dbe.DeallocateBackBufferName` | source/Xext/doublebuffer/dbe.c:353-396 | An unknown name is refused without effect; a known one is freed with both entries, and with the record when it was the last. |
| `DbeServer.Dbe.Listed` | source/Xext/doublebuffer/dbe.c:374-391 | The search of the array cannot fail for a name that has its entry. |
| `DbeServer.Dbe.GetBackBufferAttributes` | source/Xext/doublebuffer/dbe.c:656-681 | The answer is the window whose record lists the name, or none if no record does. |
| `DbeServer.Dbe.WindowPrivDelete` | source/Xext/doublebuffer/dbe.c:822-905 | The delete function takes one name out of the array and, after the last, the pixmaps and the record; the other records stay apart and valid. |
| `DbeServer.Dbe.WinPrivDelete` | source/Xext/doublebuffer/midbe.c:408-428 | Pixmaps are destroyed exactly when no name is left. |
| `DbeServer.Dbe.FreeResource` | source/Xext/doublebuffer/midbe.c:386-391 | Whichever delete function runs first, the name is gone from both types and from its record. |
| `DbeServer.Dbe.FreeAllNames` | source/Xext/doublebuffer/dbe.c:947-956 | The teardown loop ends and leaves no record and no name of the window, with any order of delete functions for each name. |
| `DbeServer.Dbe.DestroyWindow` | source/Xext/doublebuffer/dbe.c:939-957 | Refines window destruction. |
| `DbeServer.Dbe.ClientDies` | source/Xext/doublebuffer/midbe.c:383-391 | Freeing the resources of a client one by one in any order, windows among them, ends and gives one and the same state. |
| `DbeServer.Dbe.AliasBuffers` | source/Xext/doublebuffer/midbe.c:221-230 | Every name of the record that is a drawable denotes the current back pixmap, and no other entry changes. |
| `DbeServer.Dbe.SwapWindow` | source/Xext/doublebuffer/midbe.c:242-330 | One window is swapped in place as the specification of a swap says, pointers and aliases included. |
| `DbeServer.Dbe.SwapFirst` | source/Xext/doublebuffer/midbe.c:337-355 | One call swaps the first entry and leaves the worklist with the last in its place. |
| `DbeServer.Dbe.CheckSwap` | source/Xext/doublebuffer/dbe.c:461-500 | The status is that of the earliest failing entry in the order of the checks; nothing changes. |
| `DbeServer.Dbe.SwapBuffers` | source/Xext/doublebuffer/dbe.c:421-527 | All or nothing: a bad entry changes no window; otherwise the worklist ends with the state of swapping in request order. |
| `DbeServer.Dbe.WindowPosition` | source/Xext/doublebuffer/midbe.c:441-601 | The buffers follow the window size, pixel by pixel as specified, or all names go when a pixmap is refused; nothing happens without a record or a change of size. |
| `DbeServer.Dbe.DrawResized` | source/Xext/doublebuffer/midbe.c:554-585 | Clearing and the clipped copy give a new pixmap the specified image. |
| `DbeServer.Dbe.ReplaceBuffers` | source/Xext/doublebuffer/midbe.c:586-600 | The old pixmaps are destroyed, the record and all its names turn to the new ones. |
| `DbeServer.Dbe.ResizeWindow` | source/Xext/doublebuffer/midbe.c:441-601 | Refines the configuration of a window followed by the resize of its buffers. |
| `DbeServer.GetVisualInfo` | source/Xext/doublebuffer/midbe.c:74-116 | The list has every visual with its depth and the one performance level, depth by depth. |
| `DbeServer.VisualsListed` | source/Xext/doublebuffer/midbe.c:91-107 | A visual has an entry exactly when some depth has it. |
| `DbeServer.VisualListed` | source/Xext/doublebuffer/dbe.c:192-206 | The scan succeeds exactly when some depth has the visual. |
| `KeysymTable.Keysyms.Keysym2Ucs` | source/hw/.xquartz/keysym2ucs.c:831-862 | The search ends and gives what the keysym stands for: itself for Latin-1, 24 bits if directly encoded, its table entry if there is one, else -1. |
| `KeysymTable.Keysyms.Ucs2Keysym` | source/hw/.xquartz/keysym2ucs.c:872-911 | With whatever order sorting leaves for equal code points, the search ends where that order says, at a table keysym exactly when the code point is in the table, else at the direct encoding; the sorted copy is made once. |
| `KeysymTable.RoundTrip` | source/hw/.xquartz/keysym2ucs.c:831-911 | For every table of that shape and every 64-bit code point, going to the keysym and back returns it if and only if it has 24 bits or is -1. |
| `KeysymTable.Attained` | source/hw/.xquartz/keysym2ucs.c:864-888 | Whichever entry a code point has, some order qsort may leave makes the search end there. |
| `KeysymTable.KeysymRoundTrip` | source/hw/.xquartz/keysym2ucs.c:831-911 | A 32-bit keysym comes back through its code point under every order qsort may leave if and only if it is Latin-1, -1, direct for a code point that is neither Latin-1 nor in the table, or in the table with a code point that is not Latin-1 and has no other entry. |
| `KeysymTable.UcsExactly` | source/hw/.xquartz/keysym2ucs.c:831-862 | A 32-bit keysym stands for itself if printable Latin-1, for the code point so far above 0x1000000 up to 0x1ffffff, for its entry if the table has one, and else for none. |
| `KeysymTable.KeysymExactly` | source/hw/.xquartz/keysym2ucs.c:872-911 | A 24-bit code point has itself if printable Latin-1, else an entry of the table that has it, else the keysym 0x1000000 above. |
| `KeysymTable.DirectExactly` | source/hw/.xquartz/keysym2ucs.c:909-910 | Setting the bit adds 0x1000000 to any number that lacks it, and 32 bits of that are kept, with their sign. |
| `SelectionNames.StripUndoesMangle` | source/Xext/namespace/hook-selection.c:13-20 | For every namespace and name, stripping undoes mangling if and only if the namespace has no > and the mangled name is not cut, or the cut name is of the one form that comes back by chance. |
| `SelectionNames.NeverMeet` | source/Xext/namespace/hook-selection.c:42-44 | Two namespaces never share a selection if and only if neither name followed by > begins the other. |
| `SelectionNames.ReachedExactly` | source/Xext/namespace/hook-selection.c:42-44 | A server name belongs to some namespace without > if and only if it is a bracketed text followed by a name and not longer than snprintf leaves. |
| `SelectionNames.CutApart` | source/Xext/namespace/hook-selection.c:42-44 | For all names, cut or not, two namespaces without > share a selection if and only if they are the same and the names agree as far as snprintf keeps them: cut names merge only within one namespace. |
| `Selections.ActualInjective` | source/Xext/namespace/hook-selection.c:36-44 | Two clients mean the same selection only if they share a namespace, or both have power, and use the same name. |
| `Selections.NoticesOwn` | source/Xext/namespace/hook-selection.c:55-61 | Exactly the listeners of the same namespace, or the powerful among themselves, hear of a change of a selection, each once, and under the name they asked for. |
| `Selections.NotifiedOnce` | source/Xext/xfixes/select.d:87-114 | Every listener of a selection gets exactly one notice and every notice has one listener. |
| `Selections.StepHolds` | source/Xext/namespace/hook-selection.c:32-67 | One request, with or without power, does to the single table what it does unfiltered to the table of its own namespace, is answered alike, and leaves the tables of all others alone. |
| `Selections.EndHolds` | source/dix/selection.d:128-150 | The end of a window or a client takes from the single table the holders it takes from the table of every namespace. |
| `Selections.EndTold` | source/Xext/xfixes/select.d:72-114 | Of such an end, over all selections it touches, the listeners of a namespace get the notices a server of their own would send, each as often and under the name they asked for. |
| `Selections.ForgottenHolds` | source/Xext/xfixes/select.d:238-266 | Freeing the listeners of a window or a client does the same to the single table and to that of every namespace. |
| `Selections.Isolation` | source/Xext/namespace/hook-selection.c:22-66 | From the empty server, over every run of set, get, convert and listen requests of clients with and without power and of ends of windows and clients, the one filtered table answers and notifies the clients of each namespace, and those with power, as a server of their own would. |
| `Selections.PowerReaches` | source/Xext/namespace/hook-selection.c:36-38 | A powerful client, setting an owner or giving a selection up, can change what a powerless one is told of its selection if and only if it names a bracketed text followed by a name, the very names isolation denies it. |
| `Selections.RefusalName` | source/dix/selection.d:369-385 | A refused conversion is filtered twice, so its event names the selection as the client did if and only if the client has power, or for the one name that is the bracketed namespace over and over. |
| `SelectionRuns.OwnerAfter` | source/dix/selection.d:152-239 | After every run a selection has the owner its last accepted setting gave it, if neither that client nor that window has ended since, and the time of that setting; a setting is accepted if its time is not after the present nor before that of any accepted earlier. |
| `SelectionRuns.ListenersAfter` | source/Xext/xfixes/select.d:139-266 | After every run a listener wants a kind of notice if and only if its last word said so and it has not ended since. |
| `SelectionRuns.AnsweredOverRun` | source/dix/selection.d:128-385 | Over every run each answer is what the history calls for: the standing owner is named, or asked under the client's name unless silent, else refused; an accepted setting clears exactly a standing owner that is another client or is given up, under the client's name; and changes and ends are announced once to exactly those who want to know. |
| `SelectionAtoms.SelectionServer.AddAtom` | source/Xext/namespace/hook-selection.c:44-44 | An existing name keeps its atom, a new one gets the next; no other name changes meaning. |
| `SelectionAtoms.SelectionServer.FilterSelection` | source/Xext/namespace/hook-selection.c:32-68 | The rewritten atom names what the filter makes of the name, for every operation; tables keep their meaning though atoms are added. |
| `SelectionAtoms.SelectionServer.SetSelectionOwner` | source/dix/selection.d:152-239 | Setting an owner by atoms is the step on names: nothing for a time that is late or early, else the new holder and time, the old one told, and the notices. |
| `SelectionAtoms.SelectionServer.GetSelectionOwner` | source/dix/selection.d:241-284 | The owner is the one the table has for the rewritten name. |
| `SelectionAtoms.SelectionServer.ConvertSelection` | source/dix/selection.d:286-385 | The owner is asked under the client's name, or, without one or with one that is the server or gone, the request is refused under the twice rewritten name. |
| `SelectionAtoms.SelectionServer.Notify` | source/Xext/xfixes/select.d:63-115 | Each listener of the selection that wants notices of this kind gets one, under the name translated back, and with the owner only when one was set. |
| `SelectionAtoms.SelectionServer.DeleteWindowFromAnySelections` | source/dix/selection.d:128-138 | Every selection held by the window loses its holder and keeps its time; the listeners of each are told first. |
| `SelectionAtoms.SelectionServer.DeleteClientFromAnySelections` | source/dix/selection.d:140-150 | So for every selection held by the client. |
| `SelectionAtoms.SelectionServer.FreeListeners` | source/Xext/xfixes/select.d:238-266 | Exactly the listeners of the window, or of the client, are gone. |
| `SelectionAtoms.SelectionServer.SelectSelectionInput` | source/Xext/xfixes/select.d:139-222 | The window of the client listens under the rewritten name with the new mask, or no more with an empty one; all other listeners stay. |
| `HexTokens.Hex2Bin` | source/Xext/namespace/config.c:51-64 | Bytes are written up to the first pair that is not hexadecimal, at most half the token length, the rest of the buffer stays; the result says whether all pairs were. |
| `HexTokens.ReadPrinted` | source/Xext/namespace/config.c:193-194 | Reading back what %02X printing writes gives the same bytes, for every byte string. |
| `HexTokens.TabsBehind` | source/Xext/namespace/config.c:51-64 | A tab behind the digits ends them, and with whatever follows it in the token it adds half as many zero bytes. |
| `HexTokens.CaseIgnored` | source/Xext/namespace/config.c:46-64 | The case of the digits makes no difference. |
| `HexTokens.DigitsAre` | source/Xext/namespace/config.c:46-50 | Exactly the characters 0-9, A-F and a-f are digits. |
| `ConfigLines.AuthLine` | source/Xext/namespace/config.c:102-131 | However it is spaced and whatever follows the digits, an auth line gives back the credential printed in it if and only if no tab follows the first blank before the digits and no more than one tab stands between them and the next space or the end; or, for data that is all zero, if a tab before the digits makes up as many zeros. |
| `ConfigLines.AuthLineExactly` | source/Xext/namespace/config.c:102-131 | For data that is not all zero it does so if and only if no tab follows the first blank before the digits and no more than one tab stands between them and the next space or the end. |
| `ConfigLines.NamespaceLine` | source/Xext/namespace/config.c:89-100 | However it is spaced, with either keyword, and whatever follows the name, as the name of a parent does in the example configuration, a namespace line enters the namespace it names if and only if no tab follows the first blank before the name and none comes right behind it. |
| `ConfigLines.AllowLine` | source/Xext/namespace/config.c:133-151 | However it is spaced and ended, an allow line grants exactly what its words name, any number of them. |
| `ConfigLines.PowerLine` | source/Xext/namespace/config.c:153-157 | A superpower line gives power, whatever follows. |
| `ConfigLines.OtherLine` | source/Xext/namespace/config.c:159-159 | A line that begins with none of the five words says nothing. |
| `ConfigLines.EmptyLine` | source/Xext/namespace/config.c:80-84 | Nor does one that is blank or a comment. |
| `ConfigLines.NamelessLine` | source/Xext/namespace/config.c:92-96 | Nor does a namespace line without a name. |
| `ConfigLines.DatalessLine` | source/Xext/namespace/config.c:113-115 | An auth line with a protocol but no data has no meaning: it reads a token that is not there. |
| `ConfigLines.CommentIgnored` | source/Xext/namespace/config.c:76-78 | A comment does not change what a line says. |
| `ConfigLines.EndIgnored` | source/Xext/namespace/config.c:72-78 | Nor does a newline or anything behind one. |
| `ConfigLines.TabbedToken` | source/Xext/namespace/config.c:113-122 | A tab after the first blank before the digits makes the data all zero, as many bytes as half the token, whatever the digits are and whatever follows them. |
| `NamespaceConfig.LoadedMeans` | source/Xext/namespace/config.c:70-160 | After every configuration the list holds, in the order of first mention, every namespace with exactly what the lines of its sections declare. |
| `NamespaceConfig.NamesDistinct` | source/Xext/namespace/config.c:32-44 | No two namespaces in the list share a name, and root and anon come first. |
| `NamespaceConfig.OnlyGrows` | source/Xext/namespace/config.c:133-157 | Further lines only raise permissions and append credentials and namespaces. |
| `NamespaceConfig.TokensGiven` | source/Xext/namespace/config.c:102-131 | A namespace holds a credential if and only if an auth line in one of its sections gives it. |
| `NamespaceConfig.NamesEntered` | source/Xext/namespace/config.c:32-44 | There is a namespace of a name if and only if it is built in or a line enters it. |
| `NamespaceConfig.SectionEntered` | source/Xext/namespace/config.c:86-100 | A line is about the namespace the last line before it entered, and about root before any did. |
| `NamespaceConfig.PowerGiven` | source/Xext/namespace/config.c:153-157 | A namespace has power if and only if it is root or a line in one of its sections gives it. |
| `NamespaceConfig.PermissionGiven` | source/Xext/namespace/config.c:133-151 | A namespace has a permission if and only if it is root or a line in one of its sections allows it. |
| `NamespaceConfig.BuiltIn` | source/Xext/namespace/config.c:10-26 | Whatever the lines say, just root and anon are built in and start with one reference. |
| `NamespaceConfig.FoundExactly` | source/Xext/namespace/namespace.c:80-97 | The lookup yields a namespace if and only if it is the first in the list an auth line gives the credential to, or it is anon and no line gives it to any. |
| `NamespaceConfig.AuthHonoured` | source/Xext/namespace/namespace.c:80-97 | The credential of every auth line leads to a namespace that holds it, its own or one earlier in the list, whatever lines follow. |
| `NamespaceServer.Namespaces.SelectNs` | source/Xext/namespace/config.c:32-44 | Finds the first namespace of that name or appends a new one. |
| `NamespaceServer.Namespaces.ParseLine` | source/Xext/namespace/config.c:70-160 | Parsing a line token by token applies the directive the line stands for, or stops exactly where the source reads a missing token. |
| `NamespaceServer.Namespaces.ParseAllow` | source/Xext/namespace/config.c:133-151 | The loop over the tokens grants exactly the permissions named, unknown ones being skipped. |
| `NamespaceServer.Namespaces.LoadConfig` | source/Xext/namespace/config.c:162-200 | Loading any lines applies their directives in order, up to the first line with a missing token. |
| `NamespaceServer.Namespaces.FindByName` | source/Xext/namespace/config.c:202-209 | Finds the namespace of that name exactly when there is one. |
| `NamespaceServer.Namespaces.FindByAuth` | source/Xext/namespace/namespace.c:80-97 | The nested search finds the first namespace with the credential, else anon. |
| `NamespaceServer.Namespaces.AssignClient` | source/Xext/namespace/namespace.c:59-68 | The old namespace counts one less, the new one more, modulo the range of size_t. |
| `NamespaceServer.Namespaces.AssignClientByName` | source/Xext/namespace/namespace.c:70-78 | An unknown name assigns anon. |
| `NamespaceServer.Namespaces.ClientState` | source/Xext/namespace/hook-clientstate.c:12-55 | Each change of a client's state assigns as the specification of the event says. |
| `NamespaceClients.AssignedCounted` | source/Xext/namespace/namespace.c:59-68 | Assigning keeps every count equal to its loaded value and one per member, and the count it lowers is not zero. |
| `NamespaceClients.RunCounted` | source/Xext/namespace/hook-clientstate.c:16-55 | Over every run each count is its loaded value and one per client assigned, none ever wraps, and each client is where its last event put it. |
| `NamespaceClients.PlacedByLast` | source/Xext/namespace/hook-clientstate.c:16-55 | Over every run and for every configuration a client is where the last event that decided put it: in anon when created; when assigned by name in the namespace of that name, or anon if there is none; with a credential in the first namespace a line gives it to, or anon; in none when destroyed. |
| `NamespaceClients.PlacedByNone` | source/Xext/namespace/namespace.c:25-57 | A client about which no event decided has no namespace; the server is in the one named root. |
| `NamespaceClients.LiveAssigned` | source/Xext/namespace/hook-clientstate.c:16-33 | Exactly the server and the clients created and not destroyed have a namespace. |
| `NamespaceClients.AllGone` | source/Xext/namespace/hook-clientstate.c:45-55 | When all clients are gone the counts are those after initialisation. |
| `NamespaceClients.CredentialHonoured` | source/Xext/namespace/hook-clientstate.c:22-32 | From file to client: whoever presents the credential of an auth line is put into a namespace that holds it. |
| `RootProperties.RedirectedTwice` | source/Xext/namespace/hook-windowproperty.c:15-45 | Redirecting a redirected request changes nothing more. |
| `RootProperties.RootRedirected` | source/Xext/namespace/hook-windowproperty.c:36-44 | A powerless client's request never goes on with a real root, one naming a real root goes on with its own virtual root, every other goes on as it is or, if nobody owns the window, not at all. |
| `RootProperties.PowerPasses` | source/Xext/namespace/hook-windowproperty.c:19-22 | What a client with power asks goes on as it is. |
| `RootProperties.OrdinaryWindow` | source/Xext/namespace/hook-windowproperty.c:24-44 | A request about a window that is no root is answered from that window's own properties and changes no others; it fails exactly where there is no such window or a powerless client names one of a client that is not there. |
| `RootProperties.OwnTables` | source/Xext/namespace/hook-windowproperty.c:19-44 | Over every run, while clients come, move and go, every request about a root, real or virtual, is answered from one table per namespace, and the tables end as those of the root windows. |
| `RootProperties.ReachedRoot` | source/Xext/namespace/hook-windowproperty.c:31-44 | Whose table a request reaches: the client's own if it has no power and names a real root, else that of the namespace whose root it names. |
| `RootProperties.RealRootsUntouched` | source/Xext/namespace/hook-windowproperty.c:36-44 | Whatever windows powerless clients name, the properties of the real roots never change. |
| `RootProperties.StartedOk` | source/Xext/namespace/namespace.c:25-57 | Every configuration leaves one namespace called root, first and with power, and the server in it. |
| `RootProperties.InitRootWindow` | source/Xext/namespace/hook-init-rootwindow.c:35-63 | The root namespace gets the real root, every other one a window of its own, all different and owned by the server. |
| `RootProperties.HookWindowProperty` | source/Xext/namespace/hook-windowproperty.c:15-45 | The request is rewritten or skipped in place as the redirection says. |
| `AppleWM.SelectedMeaning` | source/hw/.xquartz/applewm.c:213-297 | A selection sets or removes the mask of its client in the map from clients to masks, and no other; no client gets two entries or an empty mask. |
| `AppleWM.CachedMask` | source/hw/.xquartz/applewm.c:157-165 | The cached mask meets an event if and only if some client selected it. |
| `AppleWM.DeliveredOnce` | source/hw/.xquartz/applewm.c:303-325 | An event is written once to each client whose mask it meets and to no other. |
| `AppleWM.DeliveredAfterRun` | source/hw/.xquartz/applewm.c:213-325 | After every run of selections and deaths a client gets an event exactly when the last thing it asked for meets it. |
| `AppleWM.EventSelections.UpdateEventMask` | source/hw/.xquartz/applewm.c:157-165 | The cached mask is the OR of all masks in the list. |
| `AppleWM.EventSelections.SelectInput` | source/hw/.xquartz/applewm.c:213-297 | The list with its resources and cached mask changes as the sequence of entries does; one resource per entry remains. |
| `AppleWM.EventSelections.FreeClient` | source/hw/.xquartz/applewm.c:168-195 | Deleting the resource of an entry unlinks this entry and no other, and the cached mask follows. |
| `AppleWM.EventSelections.ClientDies` | source/hw/.xquartz/applewm.c:168-195 | A dead client has no entry and no resource; the other entries stay in order. |
| `AppleWM.EventSelections.FreeEvents` | source/hw/.xquartz/applewm.c:197-211 | Freeing the list leaves no entry, no resource and an empty mask. |
| `AppleWM.EventSelections.SendEvent` | source/hw/.xquartz/applewm.c:303-325 | The walk writes to the receivers of the event in list order. |
| `ModifierKeys.ShownExactly` | source/hw/.xquartz/darwinEvents.c:177-201 | The events of every run of updates reproduce a modifier if and only if its key has a non-zero keycode no other listed modifier shares. |
| `ModifierKeys.ModifiersShown` | source/hw/.xquartz/quartzKeyboard.c:546-607 | All nine modifiers are reproduced over all runs if and only if the nine keys have different, non-zero keycodes. |
| `ModifierKeys.UpdateShows` | source/hw/.xquartz/darwinEvents.c:601-611 | An update takes a history that shows the old flags to one that shows the new: down exactly if set, presses and releases in turn, lock pressed an odd number of times exactly if on. |
| `ModifierKeys.OwnPart` | source/hw/.xquartz/darwinEvents.c:187-200 | Of all an update emits, a key with a keycode of its own has its own events and no others. |
| `ModifierKeys.SharedKeycode` | source/hw/.xquartz/darwinEvents.c:143-154 | Two listed modifiers on one keycode are not reproduced, by a run of one or two updates. |
| `ModifierKeys.KeysListed` | source/hw/.xquartz/quartzKeyboard.c:546-607 | The listed masks and the nine keys correspond one to one. |
| `ModifierKeys.SidelessIsLeft` | source/hw/.xquartz/quartzKeyboard.c:546-607 | Where the system does not tell left from right, a modifier stands for the left key. |
| `ModifierKeys.UpdateCount` | source/hw/.xquartz/darwinEvents.c:601-611 | An update has exactly one press for every listed modifier set and one release for every one cleared, and both for a change of the lock, on the keycodes of their keys, shared or not; keys without keycode have none. |
| `ModifierKeys.ReleasesFirst` | source/hw/.xquartz/darwinEvents.c:601-611 | All releases of an update come before its presses; those of the lock come ahead of the releases if it was cleared, of the presses if it was set. |
| `ModifierKeys.EmittedJoin` | source/hw/.xquartz/darwinEvents.c:190-200 | The events of the other keys come in the order of the list. |
| `FakeButtons.Darwin.constructor` | source/hw/.xquartz/darwinEvents.c:359-370 | The masks are the OR of the lists. |
| `FakeButtons.Darwin.UpdateModKeys` | source/hw/.xquartz/darwinEvents.c:601-611 | Queues the events of the change of flags and keeps the new flags. |
| `FakeButtons.Darwin.UpdateModifiers` | source/hw/.xquartz/darwinEvents.c:177-201 | The loop over the list queues the events specified, keys without a keycode giving none. |
| `FakeButtons.Darwin.SendPointerEvents` | source/hw/.xquartz/darwinEvents.c:485-562 | Faking, releasing and queueing in place, with its call of itself, is the step specified. |
| `FakeButtons.FirstGoesDown` | source/hw/.xquartz/darwinEvents.c:501-521 | A press of the first button while faking: a button still faked goes up; then, if a modifier of the second, else of the third, is set, those modifiers are taken from the flags with their key events and that button goes down, else the first. |
| `FakeButtons.FirstGoesUp` | source/hw/.xquartz/darwinEvents.c:523-539 | A release of the first button: the faked one, if there is one, goes up in its place, after its modifiers are taken from the flags. |
| `FakeButtons.OthersGoOn` | source/hw/.xquartz/darwinEvents.c:485-562 | New flags are taken over with their key events; everything else of the mouse is queued as it is. |
| `FakeButtons.RunKeys` | source/hw/.xquartz/darwinEvents.c:501-539 | Over every run of flag changes and pointer events, faked or not, the key events show the flags. |
| `FakeButtons.RunButtons` | source/hw/.xquartz/darwinEvents.c:501-539 | With real presses of every button, one that is not the first is pressed and released in turn for the server if and only if it is never pressed while faked and never faked while held; it is then down exactly while held or faked. |
| `FakeButtons.RunFirst` | source/hw/.xquartz/darwinEvents.c:501-539 | The first button always is pressed and released in turn, and down exactly while held and not taken for another, whatever the others do. |
| `FakeButtons.UnusedClean` | source/hw/.xquartz/darwinEvents.c:501-539 | Of a mouse without a real button of that number, a faked one never gets out of turn. |
| `FakeButtons.AsManyDown` | source/hw/.xquartz/darwinEvents.c:501-539 | While nothing clashes the server sees as many of the three buttons down as are held. |
| `FakeButtons.OneDown` | source/hw/.xquartz/darwinEvents.c:501-539 | Of a mouse with one button the server sees exactly one down while it is held, and none when it is not: every release matches its press. |
| `FakeButtons.FakedKeysUp` | source/hw/.xquartz/darwinEvents.c:510-521 | When a fake button goes down, the keys that stand for it have been released. |
| `FakeButtons.FakedKeysStayUp` | source/hw/.xquartz/darwinEvents.c:527-537 | When it goes up they are released too, whatever was pressed meanwhile. |

## Left out

- Failures of `AddResource`, of security hooks, of `calloc` for a record or a swap list, and of `reallocarray`: a failed
  allocation of a further name falls through to counting it (`source/Xext/doublebuffer/dbe.c:312-322`).
- Byte swapping, replies, dispatch, version and visual-info requests, extension initialisation: plumbing.
- Graphics contexts, clipping by other windows and overlap on the screen: each drawable has its own pixels.
- The window tree inside the double-buffer state: there a window carries the painter its background gives. `DbeBackground`
  joins it to a tree; a change of an ancestor's background is a change of the window.
- Widths of coordinates: rectangles are computed in unbounded integers, as the 16-bit sizes of the protocol fit an `int`.
- DbeServer.Dbe.ClientDies: the windows that die with a client because they lie below its windows are a parameter, as the
  window tree is not part of the state.
- DbeServer.Dbe.AllocateBackBufferName: the slot is taken when the name is entered, after the pixmaps, while the source
  looks for it before; nothing can change the array in between.
- DbeServer.Dbe.WindowPosition: the stored geometry is set together with the pixmaps, while the source sets it first;
  when a pixmap is refused the record is gone in both.
- KeysymTable.Keysyms.Ucs2Keysym: what `qsort` leaves is a parameter, any permutation of the table ordered by code point.
- The table of keysyms itself: any table of 16-bit entries with strictly increasing keysyms outside Latin-1.
- Selections: targets and properties of the requests, invalid atoms and windows, and requests another extension skips; no
  client changes its namespace meanwhile. The end of a client, that of its windows and that of its listeners are separate
  events, in any order.
- Selections.Isolation: names with which isolation does not hold are excluded: those by which the powerful reach into
  namespaces (`Selections.PowerReaches`), and those of namespaces with `>` and names that do not fit, which do not come
  back (`SelectionNames.StripUndoesMangle`); names that do not fit are still met by no other namespace
  (`SelectionNames.CutApart`). A refusal may carry another name (`Selections.RefusalName`).
- SelectionNames.NeverMeet: names of namespaces that leave the other no room in the buffer.
- ConfigLines.AuthLine: empty data, for which the line has no digits.
- NamespaceServer.Namespaces.LoadConfig: lines longer than 1024 bytes, NUL bytes and failing allocations; what the source
  does after it read through a null pointer.
- NamespaceServer.Namespaces.ClientState: the server's own table of authorizations is a parameter of the event.
- Namespace hooks for devices, extensions, resources, sending and receiving: flat tables.
- RootProperties.OwnTables: a property request is any function on the table of one window, and other hooks, which may
  forbid it, are not applied.
- RootProperties.HookWindowProperty: identifiers carry eight bits of client, the setting for 256 clients.
- AppleWM: the fields of the event written, byte order, and failing allocations.
- FakeButtons.Darwin.SendPointerEvents: pointer positions, valuators, and a missing screen, where the source does nothing.
- Threads, pipes, the addition of file descriptors, tablet and scroll events, reading the system keymap.
- The foreign-call code around the display, the controller and the applications menu.
