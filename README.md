# Demand paging with FIFO replacement

This project models a demand-paging simulator in Dafny. The simulator exists in two nearly identical copies, a console program (`PagingMain.java`) and a Swing program (`PagingSimulatorGUI.java`). A simulated process has `numberOfPages` pages of `pageSize` bytes, and physical memory has `memorySize / pageSize` frames. A page table holds two parallel arrays indexed by page number: `frameNumbers` and `validBit`. A queue records the order in which pages were loaded.

An access splits a logical address into a page number and an offset:
- If the page is resident, the access is a hit on its recorded frame.
- Otherwise it is a page fault. The page goes into the next free frame. When memory is full, the oldest-loaded page is polled from the queue, its valid bit is cleared, and its frame is reused. The access is then retried.

The GUI copy first rejects any address at or above the process size. It also builds a per-page snapshot of the table for display.

The project has four modules:
- `PagingModel` (`paging_model.dfy`) is a pure state machine over a `State` value:
  - the frames, as `Option<int>` slots;
  - the two page-table sequences;
  - the queue.

  It also holds the residency invariant `Inv` and the lemmas that state what the engine promises.
- `PageTables` (`page_table.dfy`) is the `PageTable` class over two arrays.
- `PagingEngine` (`paging_simulation.dfy`) is the `PagingSimulation` class, with:
  - the frame array;
  - the page table;
  - the queue as a `seq<int>` field;
  - `Valid()`, which ties the object to `Inv`.

  Each method is proved to move `Abstract()` exactly as the matching `PagingModel` function moves a `State`.
- `PagingMain` (`console_trace.dfy`) runs the console program's fixed address trace through the class. It is proved to produce the expected outcomes and final state.

The log text that `accessMemory` prints is replaced by a returned `Outcome`: `Hit(page, offset, frame)`, `Fault(page, offset, frame, victim)` or `OutOfBounds`.

Integer division follows Java. `/` truncates toward zero and `%` takes the sign of the dividend (`JavaDiv`, `JavaRem`). A negative address above `-pageSize` therefore maps to page 0 with a negative offset, exactly as in both Java copies. Addresses further below would index the page table at a negative position. The model requires the page number to be in range, and so does every access.

The GUI copy checks only the upper bound (`logicalAddress >= pageSize * numberOfPages`) and not `0 <= logicalAddress`. The model follows the code, so `CheckedAccess` rejects exactly the addresses from the process size upward. The console copy has no check. Its model `Access` requires the page number to be in range instead.

## Model

| member | source | states |
|---|---|---|
| PagingModel.AddressSplit | PagingSimulatorGUI.java:114-115 | page * pageSize + offset == address and \|offset\| < pageSize. For an address >= 0, page and offset are the ordinary quotient and remainder and the offset is >= 0. The page is >= 0 exactly when the address is > -pageSize. An address in [0, pageSize * numberOfPages) names a page below numberOfPages. |
| PagingModel.Load | PagingMain.java:135-139 | No contract of its own. It places the page in the frame, records the frame in the page table, sets the valid bit and appends the page to the queue. FillPreservesInv and EvictPreservesInv prove that it keeps the invariant, and FaultFillsFreeFrame and FaultEvictsOldest state its effect. |
| PagingModel.EvictOldest | PagingMain.java:126-130 | No contract of its own. It models `poll()` of the queue head together with `invalidatePage` of that page (also PagingSimulatorGUI.java:137-141), and it leaves the victim's frame number stale. EvictPreservesInv and EvictKeepsQueue carry its properties, and FaultEvictsOldest states its effect. |
| PagingModel.JavaDiv | PagingMain.java:102 | No contract of its own. It models Java's `/` on int, which truncates toward zero. AddressSplit carries its properties. |
| PagingModel.JavaRem | PagingMain.java:103 | No contract of its own. It models Java's `%` on int, whose result takes the sign of the dividend. AddressSplit carries its properties. |
| PagingModel.Initial | PagingMain.java:89-99 | A new simulation has memorySize / pageSize frames and numberOfPages table entries. Every frame is empty, no page is resident, and the invariant holds. |
| PagingModel.HandleFault | PagingMain.java:118-133 | Handling a fault keeps the frame and page counts and the residency invariant, and leaves the faulting page valid. |
| PagingModel.FillPreservesInv | PagingMain.java:121-123 | Loading into frame \|queue\| while a frame is free preserves the residency invariant. |
| PagingModel.EvictPreservesInv | PagingMain.java:124-132 | Polling the queue head, invalidating it and loading the faulting page into its frame preserves the residency invariant. |
| PagingModel.EvictKeepsQueue | PagingMain.java:126-131 | After a replacement the queue is still free of duplicates and holds exactly the valid pages. |
| PagingModel.Access | PagingMain.java:101-116 | The console access keeps the invariant. It reports JavaDiv/JavaRem of the address as page and offset. It is a hit exactly when the page was already valid. The reported frame is in range, holds the page, and is the page's recorded frame afterwards. |
| PagingModel.CheckedAccess | PagingSimulatorGUI.java:108-129 | The GUI access is OutOfBounds exactly when address >= pageSize * numberOfPages, and then changes no state. Every access keeps the invariant. |
| PagingModel.Run | PagingMain.java:164-169 | A trace of accesses keeps the invariant and the sizes, and yields one outcome per address. |
| PagingModel.DistinctFrames | PagingSimulatorGUI.java:131-151 | Under the invariant, two distinct valid pages have distinct recorded frames. |
| PagingModel.QueueCountsResidents | PagingMain.java:118-139 | The queue is exactly as long as the set of resident pages, which never exceeds the number of frames. |
| PagingModel.HitChangesNothing | PagingMain.java:108-111 | A hit returns the recorded frame, which holds the page, and leaves the frames, table and queue unchanged. |
| PagingModel.RetryHits | PagingMain.java:112-115 | After the fault is handled, the retried access is a hit that changes nothing, so the recursion is one level deep. The fault outcome reports the retry's frame and the evicted page. |
| PagingModel.FaultFillsFreeFrame | PagingSimulatorGUI.java:134-135 | When a frame is free, the page goes into the empty frame at index \|queue\| and is appended to the queue. Nothing is evicted, the resident set gains just the page, and no other frame or table entry changes. |
| PagingModel.FaultEvictsOldest | PagingSimulatorGUI.java:136-143 | When memory is full, the victim is the queue head. Its valid bit is cleared, and the faulting page takes the frame that held the victim. The queue becomes its tail plus the page, so its length is unchanged. The resident set swaps the victim for the page. No other frame changes, and no other page's frame number changes, so the victim's entry stays stale. |
| PagingModel.BoundaryAddresses | PagingSimulatorGUI.java:109-112 | The address pageSize * numberOfPages is rejected with no state change, and the address one below it is accepted. |
| PagingModel.AccessIsFifo | PagingMain.java:118-139 | In one access, the queue before it followed by the page it loaded equals the page it evicted followed by the queue after it. |
| PagingModel.RunIsFifo | PagingMain.java:118-139 | Over any trace, the first queue followed by all loaded pages equals all evicted pages followed by the final queue. |
| PagingModel.EvictionFollowsLoadOrder | PagingMain.java:118-139 | Starting from an empty queue, as after construction, pages are evicted in exactly their load order: the evicted pages are a prefix of the loaded pages, and the final queue is the rest. |
| PagingModel.ConsolePrefix | PagingMain.java:163-169 | After each prefix of the console trace, the simulation is in the listed state and has produced the listed outcomes. |
| PagingModel.ConsoleScenario | PagingMain.java:156-169 | The console trace with pageSize 4, 16 bytes of memory and 8 pages produces eight faults and two hits (addresses 8 and 13). Pages 0, 1, 2 and 3 are evicted in that order, and the frames and the queue end as [5, 6, 1, 7]. |
| PagingMain.ConsoleTrace | PagingMain.java:155-170 | The console program, run on the class, returns exactly the scenario's outcomes, final frames [5, 6, 1, 7] and final queue [5, 6, 1, 7]. |
| PageTables.PageTable.constructor | PagingMain.java:45-49 | A table for numberOfPages pages, with every frame number 0 and every valid bit false. |
| PageTables.PageTable.UpdatePageTable | PagingMain.java:51-54 | Only frameNumbers[p] becomes f and only validBit[p] becomes true. |
| PageTables.PageTable.GetFrameNumber | PagingMain.java:56-58 | Returns the recorded frame of the page. |
| PageTables.PageTable.IsPageLoaded | PagingMain.java:60-62 | Returns the page's valid bit. |
| PageTables.PageTable.InvalidatePage | PagingMain.java:64-66 | Only validBit[p] is cleared. frameNumbers is unchanged, so the entry stays stale. |
| PageTables.PageTable.GetTableData | PagingSimulatorGUI.java:73-83 | A newly allocated array with one entry per page. Entry i shows a frame exactly when validBit[i], and that frame is frameNumbers[i]. The table is not modified. |
| PagingEngine.LoadPage | PagingMain.java:27-29 | The frame holds the page afterwards, and no other frame changes. |
| PagingEngine.PagingSimulation.constructor | PagingMain.java:89-99 | The object's state is Initial(memorySize / pageSize, numberOfPages), and Valid() holds. |
| PagingEngine.PagingSimulation.LoadPageIntoFrame | PagingMain.java:135-139 | The new state is Load of the old one: the frame slot, the table entry and the queue tail are updated. |
| PagingEngine.PagingSimulation.HandlePageFault | PagingMain.java:118-133 | The new state and the evicted page are HandleFault of the old state, and Valid() is kept. |
| PagingEngine.PagingSimulation.AccessMemory | PagingMain.java:101-116 | The new state and the outcome are Access of the old state, including the recursive retry, and Valid() is kept. |
| PagingEngine.PagingSimulation.AccessMemoryChecked | PagingSimulatorGUI.java:108-129 | The new state and the outcome are CheckedAccess of the old state, including the early return on an out-of-bounds address, and Valid() is kept. |
| PagingEngine.PagingSimulation.PageTableData | PagingSimulatorGUI.java:161-164 | The snapshot is a newly allocated array, distinct from the frames, with one entry per page. It shows a frame exactly for the resident pages, and that frame really holds the page. |

## Left out

- The Swing window, its buttons and listeners, and the JTable plumbing (`displayMemory`, `updateTable`) are user interface.
- The log text of `accessMemory`, `handlePageFault` and `loadPageIntoFrame` is output. It is replaced by the returned `Outcome`.
- The console `displayMemory` and `displayPageTable` printing, and `toString` on `Page` and `Frame`, are presentation only.
- `Page` objects are represented by their page number, and a `Frame` by an `Option<int>` slot. Identity and aliasing of the Java objects, and the `new Page` allocated on every load, are not modelled.
- `GetTableData` returns the frame number or `None` rather than the display strings.
- `Integer.parseInt` of the text fields and `Math.ceil` of processSize / pageSize are left out. The GUI's page count and its fixed 16-byte memory are constructor parameters here.
- PagingEngine.PagingSimulation.constructor: requires pageSize > 0 and memorySize >= 0. Java divides by zero for pageSize 0, and fails on a negative array size for a sufficiently negative memorySize. The requires also excludes inputs that Java accepts without an error: any negative pageSize, and a memorySize in (-pageSize, 0). For example, `16 / -20` and `-1 / 4` are both 0, which gives a simulation with zero frames. The console main and the GUI both pass memorySize 16, but the GUI's pageSize is whatever the user types, so these cases are not modelled.
- PagingModel.Access: requires the page number to be in range and at least one frame. Java throws `ArrayIndexOutOfBoundsException` for an unchecked address outside the table, and `NullPointerException` when `poll()` on an empty queue is unboxed with zero frames.
- PagingModel.CheckedAccess: requires, for an accepted address, that its page number is >= 0 and that there is a frame. This is for the same reasons: an address at or below -pageSize indexes the table negatively in Java.
- Java's 32-bit `int` is not modelled. `pageSize * numberOfPages` and the addresses are unbounded integers here, so an overflowing product in the GUI bound check is not captured.
