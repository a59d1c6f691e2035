# Tatix: models and proofs of the kernel's core data structures and protocols

This project models six parts of the Tatix kernel in Dafny and proves what they promise. Code that
changes data in place is modelled by classes with arrays and loops; each method is proved against a
function or an abstract state, and the theorems are about those.

- **Paging** (`Pool`, `PageTree`, `PageSteps`, `AddrTable`, `Paging`, `Regions`, `PagingInit`,
  `PagingLimits`): the four-level page tables in the memory of a block pool behave as one flat map from
  pages to frames, permissions and memory types. A second description, the table of regions, agrees
  with the processor's walk over whole runs.
- **Buddy allocator** (`DList`, `Bitmap`, `BuddyTree`, `BuddySteps`, `Buddy`, `BuddyTheorems`,
  `BuddyRuns`, `BuddySizes`, `BuddyAlloc`): intrusive free lists and a bitmap represent a binary tree of
  blocks. Allocation and release are operations on that tree.
- **TCP** (`ByteBuf`, `TcpSpec`, `Tcp`, `TcpTheorems`, `TcpLaws`, `TcpRuns`): a connection as a state
  machine over arbitrary segments and user calls. `View` is its observable state.
- **RAM file system and archive** (`Paths`, `RamFile`, `FsTree`, `FsSpec`, `RamFs`, `ArchiveFormat`,
  `ArchiveTool`, `ArchiveExtract`): first-child and next-sibling links represent a map from paths to
  nodes, and the C reader undoes the Python writer.
- **Scheduler** (`SchedSpec`, `Sched`): steps on the running task and the sorted sleep list.
- **Internet checksum and IPv4 text** (`Checksum`, `IpAddr`, `IpParser`): ones' complement arithmetic
  and an exact grammar for addresses.

`Common` and `Arith` hold shared types and arithmetic facts.

Conventions: `Crashed` is a failed assertion, a NULL dereference, an access outside of the memory that
there is, or a signed overflow; nothing is promised about the kernel after it. Memory
blocks, list nodes, tasks and pages are named by their positions instead of by pointers. What the
environment decides (the random initial sequence number, whether an allocation succeeds, the lower
network layer, the clock) is a parameter or a field that holds an arbitrary function.

## Where the code does less than it says

- `src/buddy.c:197` tests one page's bit where Knuth's algorithm (The Art of Computer Programming,
  volume 1, section 2.5) also requires the buddy to have the same order. `FreeRaw` is proved for all
  inputs: releasing is right exactly if every merge meets a whole free buddy, and otherwise a block of
  the free lists holds pages of another allocation. `FourPages` is such a run, and `Orderly` is a test
  with which a caller can avoid it.
- `src/buddy.c:163` fails on blocks of order 50, which `buddy_init` can make: with that much memory, the
  free that would return the last block crashes (`BuddyArithmetic`, `GrownToWhole`, `LastFreeCrashes`).
- `src/buddy.c:72-78` leaves the initial bitmap unset. The bitmap matches the free pages except while
  all memory is the one initial block, whose bits are never tested.
- `src/paging.c:70` counts existing overlaps and ignores the new region's type (`UniquenessKept`,
  `SecondCanonicalAdmitted`).
- `src/paging.c:253` tests the wrong pointer, and `src/paging.c:442-447` keeps a region registered
  after a failure. `PtMap` and `MapRegion` say exactly when this matters. With the memory of config.mk,
  `NullIsUsed` and `StaysRegistered` are such calls, and `TooLarge` says that every large region is one.
  A failed `pt_map` also leaves a new empty table behind, exactly unless the pool was empty before,
  and the undo of `paging_map_region` does not remove it (`StaysRegistered`).
- `src/net/tcp.c:356`, `401` and `485` compare or subtract without regard to wrap-around or to a
  shrinking window (`SeqGtIsAfter`, `UnackNeverFalls`, `AckNeverCounts`; `FinCountedUnlessWrapped`, `WrappedFin`, `FinNeverAcknowledged`;
  `AvailIsRoom`, `ShrunkWindow`).
- `src/net/tcp.c:638-639` enters CLOSE_WAIT on any FIN (`FinEndsInput`, `FinOvertakesByte`).
- `src/net/tcp.c:888-889` ignores every segment in CLOSE_WAIT, acknowledgements included, so that a user
  who goes on sending after the peer's FIN never gets the window back (`CloseWaitStalls`).
- `src/net/tcp.c:716` stores the data of the segment that leads to FIN_WAIT_2, and no segment says so
  (`TakenIsAnswered`, `DataWithoutAnswer`).
- `src/net/tcp.c:235` compares with the start of TIME_WAIT instead of its end, so a connection leaves
  TIME_WAIT with the next lookup, and the handler for segments in TIME_WAIT is never reached
  (`HandlePacket`).
- `src/net/tcp.c:324-327` frees a connection whose accept queue only line 336 sets up, so that
  `dlist_remove` (`include/tx/list.h:35`) follows or asserts an unset pointer when no random number can
  be had (`HandleListen`).
- `src/net/tcp.c:970` leaves no room for data on a route with an MTU of 20 or less; `tcp_conn_send` then
  sends empty segments until sending fails (`SendWithoutRoom`).
- `src/archive.c:47` adds an entry's size to the position of its index entry, not to its offset, and line
  35 looks only at the first byte of an index entry. Bytes behind the archive can so become a file
  (`AcceptedIsIntact`, `AcceptedFromOutside`).
- `src/archive.c:63` ignores a failed write, which leaves a file of more than 4096 bytes empty
  (`ContentsMean`, `LargeFileIsLost`).
- `src/ramfs.c:285` provides a scratch arena of four maximal paths, of which every missing directory
  takes one and which nothing is given back to. Making "/a/b/c/d/e" in an empty file system crashes, and
  so does any path of more than 1819 bytes, outer slashes not counted, although 4096 are allowed (`ScratchBounds`, `ParseFits`,
  `FiveLevels`).
- `scripts/archive.py:47-55` counts characters, not bytes (`LengthsAgree`, `NonAsciiUnreadable`,
  `NonAsciiRejected`).

## Model

| member | source | states |
|---|---|---|
| Pools.Pool.constructor | include/tx/pool.h:18-45 | all blocks of the memory are on the free list, once each |
| Pools.Pool.Alloc | include/tx/pool.h:50-64 | hands out the first free block, zeroed, and takes it off the list; NULL exactly when none is free; no other block changes |
| Pools.Pool.Free | include/tx/pool.h:69-76 | puts the block in front of the free list and changes no other block |
| DLists.Links.Insert | include/tx/list.h:17-29 | the node comes right behind `head` in its ring; every other ring and every node outside stays as it is |
| DLists.Links.Remove | include/tx/list.h:31-41 | the node leaves its ring and links to itself; removing a node again changes nothing at all |
| PageTree.PageSpellsVpn | include/tx/paging.h:25 | the four table indices are the base-512 digits of the 36-bit page number of any signed address |
| PageTree.SamePathIsSamePage | include/tx/paging.h:25 | two addresses take the same path through the tables exactly when their 48-bit page numbers agree |
| PageTree.WalkFindsLeaf | src/paging.c:205-215 | the processor's four-level walk, with the permissions of all levels combined, finds exactly the leaf entry with its own permissions: upper entries never restrict a leaf below them |
| PageSteps.PagesAreLeaves | src/paging.c:205-215 | the flat map that the walks define is the set of present leaf entries |
| PageSteps.AddStep | src/paging.c:223-229 | linking a zeroed pool block as a new table keeps the tree shape, the partition of the pool and what every page translates to |
| PageSteps.WidenStep | src/paging.c:230-238 | widening an upper entry's permissions changes no page's translation or effective permissions |
| PageSteps.RemoveStep | src/paging.c:294-308 | unlinking an empty table and freeing its block keeps the tree shape, the partition of the pool and every translation |
| PagingModel.Paging.TableTranslates | src/paging.c:209-213 | for every pool block, `phys_to_virt` and `virt_to_phys` lead from the frame to the table and back |
| PagingModel.Paging.PtGet | src/paging.c:205-215 | finds the block of the child table exactly when there is one |
| PagingModel.Paging.PtGetOrAlloc | src/paging.c:217-241 | never changes a translation; fails exactly when the table is missing and the pool is empty; otherwise the entry permits what is asked for |
| PagingModel.Paging.PtMap | src/paging.c:243-262 | succeeds exactly when the pool has the missing tables, and then the flat map is the old one with this page set to this frame, permissions and memory type; a failure changes no translation, and leaves a new empty table behind exactly unless the pool was empty before; with exactly one table too few it dereferences NULL because line 253 tests the wrong pointer |
| PagingModel.Paging.PtUnmap | src/paging.c:274-311 | succeeds exactly on mapped pages, and then the flat map is the old one without the page and no further table is empty; a failure changes nothing |
| PagingModel.Paging.PtIsEmpty | src/paging.c:264-272 | true exactly when no entry is present |
| PagingModel.Paging.MappedPages | src/paging.c:274-311 | a page is mapped exactly if its last table exists with the entry present, and then no table on its path is empty |
| AddrTables.VirtToPhysIsUnique | src/paging.c:139-164 | an address covered by one region translates to its offset in that region |
| AddrTables.VirtToPhysIsPartial | src/paging.c:139-164 | with disjoint regions the assertion never fails, and an address without a region is EINVAL |
| AddrTables.PhysToVirtIsUnique | src/paging.c:101-137 | a frame with one canonical region translates through it, whatever aliases there are |
| AddrTables.PhysToVirtByAlias | src/paging.c:118-136 | a frame without a canonical region translates through its alias if it has only one, and fails the assertion with two |
| AddrTables.PhysToVirtIsPartial | src/paging.c:101-137 | a frame that no region covers is EINVAL |
| AddrTables.UniquenessKept | src/paging.c:67-71 | exactly when a new region keeps physical addresses unambiguous, for all tables and regions; the check at line 70 is weaker |
| AddrTables.AdmitsMeans | src/paging.c:33-83 | what the checks of a new region demand of it and of every registered region, range by range |
| AddrTables.SecondCanonicalAdmitted | src/paging.c:67-71 | two canonical regions over the same frame pass the check, and translating the frame back then fails the assertion at line 127 |
| AddrTables.DisjointAfterAdd | src/paging.c:42-47 | adding an admitted region keeps registered virtual ranges disjoint |
| AddrTables.AddrTable.Add | src/paging.c:33-83 | succeeds exactly on admitted regions, which take a free slot; EINVAL for a conflict, ENOMEM exactly if only the slots are used up; an error changes nothing; virtual ranges stay disjoint |
| AddrTables.AddrTable.Remove | src/paging.c:85-96 | frees the slot of a region with the same bases and length, EINVAL exactly if there is none |
| AddrTables.AddrTable.ToPhys | src/paging.c:139-164 | the loop computes the specified translation of every address |
| AddrTables.AddrTable.ToVirt | src/paging.c:101-137 | the loop computes the specified translation of every frame, with the assertion as a crash |
| Regions.WalkIsVirtToPhys | src/paging.c:139-164 | when regions and tables agree, the processor's walk of every non-zero address equals `virt_to_phys`, and is absent exactly where no region covers it |
| Regions.PagesOfRegions | src/paging.c:439-449 | when regions and tables agree, every page of a registered region is mapped to its frame with exactly the permissions and the memory type of the region, and no other page is mapped |
| Regions.AgreeAfterMap | src/paging.c:432-452 | registering a region and mapping all of its pages keeps the agreement |
| Regions.AgreeAfterUnmap | src/paging.c:454-467 | unmapping all pages of a registered region and forgetting it keeps the agreement |
| Regions.MapPages | src/paging.c:440-449 | maps the pages in order and succeeds exactly if all tables for them fit the pool; a failure stops at the first page whose tables do not fit, crashes exactly if one is missing, and leaves a new empty table exactly unless all tables were taken when that page's turn came; the pages mapped have the frames, permissions and memory type of the region |
| Regions.UnmapPages | src/paging.c:458-462 | unmaps the pages in order up to the first that is not mapped |
| Regions.MapRegion | src/paging.c:432-452 | succeeds exactly if the region is admitted and its tables fit the pool; an admitted region whose tables do not fit stays registered (lines 442-447), and then, and only then, walk and regions part; the undo unmaps all pages but keeps the tables that the failing page has added; on success every page of the region has its frame, permissions and memory type, and no other page changes |
| Regions.UnmapRegion | src/paging.c:454-467 | succeeds exactly on registered regions and then keeps the agreement; called with another range it breaks the agreement exactly if the first page was mapped |
| PagingLimits.StaysRegistered | src/paging.c:442-447 | after `paging_init` with the regions of config.mk and one large region that leaves a single free table: mapping a page that needs three reports ENOMEM, yet the region stays registered without being mapped, and the last table stays linked and empty |
| PagingLimits.NullIsUsed | src/paging.c:250-254 | after `paging_init` with the regions of config.mk, a region of 1042 MiB for which exactly one table is missing makes line 253 dereference NULL |
| PagingLimits.TooLarge | src/paging.c:440-447 | a region of more than 512 pages for each block of the pool always needs more tables than there are, so that MapRegion fails and, if the region is admitted, leaves it registered |
| PagingInitModel.ReservationSuffices | src/paging.c:382-389 | whatever the alignment of the range, all tables for its pages and the root fit the reservation |
| PagingLimits.TablesExactly | src/paging.c:217-262 | the exact number of tables for any range of canonical pages: one for each group of 512, of 512^2 and of 512^3 pages that it touches |
| PagingInitModel.PagingInit | src/paging.c:378-430 | neither registration nor any mapping fails for adjacent code and dynamic regions anywhere in the canonical addresses whose tables do not contain address 0; afterwards walk and regions agree, no table is empty, and the memory behind the tables is returned; the pages of the kernel are mapped writable, for the kernel only and cached, and no other page is mapped |
| PagingInitModel.Run | src/paging.c:432-467 | over any run of region maps and unmaps, successful or rejected, the walk of every non-zero address stays equal to `virt_to_phys` and no table is left empty; the run ends early exactly at a call that breaks the agreement; at the end every page of a registered region has exactly the permissions and the memory type of the region |
| Bitmaps.SetBits | src/buddy.c:84-97 | sets exactly the bits of the block's pages to the value |
| BuddyTree.NodeAligned | src/buddy.c:160-174 | every block starts at a multiple of its size |
| BuddyModel.BuddyArithmetic | src/buddy.c:160-174 | on a block, the remainder arithmetic of `get_buddy` finds the sibling in the tree of halves, and its overflow assertion (line 163) fails exactly from order 50 on |
| BuddyModel.Buddy.constructor | src/buddy.c:52-82 | all memory is one free block, on the list of the top order; lists and bitmap match it |
| BuddyModel.Buddy.AllocRaw | src/buddy.c:121-158 | fails exactly if no free block has sufficient order; otherwise it takes the first block of the list of the least sufficient order, and halves it down to an allocated block of the requested order; lists and bitmap match the tree again and no two buddies are both free |
| BuddyModel.Buddy.FreeRaw | src/buddy.c:186-208 | crashes exactly if the block grows to order 50; otherwise, if every merge joins whole free buddies, the block is released with all its merges and lists, bitmap and tree match again; if not, and only then, a block ends up on a free list that holds a page of another allocation |
| BuddyModel.Buddy.IsAvail | src/buddy.c:176-184 | reads the bit of the page |
| BuddySteps.SplitStep | src/buddy.c:147-154 | splitting and listing the upper half keeps lists, bitmap and tree matched |
| BuddySteps.MergeStep | src/buddy.c:197-204 | unlinking a whole free buddy keeps the lists matched with the block grown to the parent |
| BuddySteps.ReleaseStep | src/buddy.c:206-207 | listing the merged block matches lists and bitmap with the released tree |
| BuddyTheorems.ReleaseCanonical | src/buddy.c:186-208 | releasing a block never leaves two free buddies side by side |
| BuddyTheorems.ReleasePages | src/buddy.c:186-208 | releasing a block frees exactly its own pages |
| BuddyTheorems.ReleaseKeepsOthers | src/buddy.c:186-208 | every other allocated block stays allocated |
| BuddyRuns.RunsAreCanonical | src/buddy.c:121-208 | in every state of a run of allocations and orderly frees, from the single initial block on, no two buddies of the same order are both free |
| BuddyRuns.RunsMeet | src/buddy.c:121-208 | two runs that leave the same pages allocated have the same blocks on the same free lists |
| BuddyRuns.EverythingFreed | src/buddy.c:186-208 | a run that has freed everything ends with the single top-order block |
| BuddyRuns.BlockOf | src/buddy.c:121-208 | every page lies in a block, free or allocated, that is aligned to its size |
| BuddyRuns.BlockIsUnique | src/buddy.c:121-208 | blocks do not overlap |
| BuddyRuns.FailsOnlyWithoutRun | src/buddy.c:125-135 | an allocation fails exactly if no aligned run of 2^ord pages is free |
| BuddyRuns.FreeUndoesAlloc | src/buddy.c:121-208 | releasing what was just allocated restores the tree completely; all merges of that free are in order exactly unless the block that was split has a buddy with a free first page |
| BuddyRuns.FourPages | src/buddy.c:197 | four pages and four calls after which freeing pages 2-3 merges a buddy of which one page is allocated: only the first page's bit is tested |
| BuddyAlloc.Alloc | src/buddy.c:210-226 | by size: the block holds at least `size` bytes, and its order is the least that does; none exactly if no aligned run of so many pages is free; a size of zero or less, or above 2^62, crashes |
| BuddyAlloc.Free | src/buddy.c:228-238 | with the size of the allocation the same order is found again, and if all merges are in order exactly this block is no longer allocated |
| BuddyAlloc.GrownToWhole | src/buddy.c:163 | with memory of order 50, an orderly free crashes exactly if it would leave all memory free |
| BuddyAlloc.LastFreeCrashes | src/buddy.c:163 | such a call: with memory of order 50, one page is allocated and its free crashes |
| BuddyAlloc.OrderlyIsMergesOk | src/buddy.c:197 | a caller can tell from the blocks that it holds whether the merges of a free will be in order |
| BuddyAlloc.Drive | src/buddy.c:121-208 | any calls on a new allocator, up to the first free that is not in order or crashes: its trees are a run, the caller's list names exactly the allocated blocks, and with an empty list all memory is one block again; only the free that would make it so crashes, and only with memory of order 50 |
| BuddySizes.PowerTest | src/buddy.c:19 | `n & (n - 1)` is zero exactly for powers of two |
| BuddySizes.MinPowerOfTwoGeq | src/buddy.c:15-24 | the smearing loop returns the least power of two at or above `n`, and overflows exactly for `n` above 2^62 |
| BuddySizes.MaxPowerOfTwoLeq | src/buddy.c:27-33 | the largest power of two at or below `n`; it fails exactly for `n` not positive or above 2^62 |
| BuddySizes.OrderOf | src/buddy.c:36-43 | the exponent of a power of two; the assertion fails exactly on other numbers |
| BuddySizes.OrderForSize | src/buddy.c:210-221 | the least order whose block holds the size; it fails exactly for sizes not positive or above 2^62 |
| BuddySizes.SameOrder | src/kvalloc.c:48-69 | allocation and release compute the same order, with or without kvalloc's own rounding |
| BuddySizes.InitialOrder | src/buddy.c:58-72 | the largest order whose block fits the memory; it fails exactly for less than a page and for more than 2^62 bytes |
| Buffers.CircBuf.PushByte | src/net/tcp.c:99-109 | appends the byte, EAGAIN exactly when capacity - 1 bytes are stored |
| Buffers.CircBuf.PopByte | src/net/tcp.c:111-121 | removes the oldest byte, EAGAIN exactly when empty |
| Buffers.CircBuf.Write | src/net/tcp.c:123-137 | appends all of the data or, exactly when it does not fit, nothing |
| Buffers.CircBuf.Read | src/net/tcp.c:139-161 | moves the oldest bytes to the destination, as many as are there and fit |
| Buffers.CircBuf.Count | src/net/tcp.c:62-67 | the number of stored bytes, whatever the positions of head and tail |
| Buffers.ByteBuf.Append | include/tx/byte.h:147-158 | appends as much of the data as fits and touches nothing behind it |
| TcpModel.Conn.UpdateRecv | src/net/tcp.c:372-411 | takes a payload exactly if it starts at the next expected number and fits in the ring; counts a FIN exactly if it is in order and the numbers up to it do not wrap |
| TcpModel.Conn.UpdateSend | src/net/tcp.c:359-370 | takes over window and, if larger as a plain integer, acknowledgement number: the acknowledged number becomes the larger one, and the window that of the segment |
| TcpModel.Conn.SendSegment | src/net/tcp.c:490-514 | sends one segment with at most what the window has room for, the next number, the next expected number as acknowledgement and the constant window; the next number advances by data, SYN and FIN, and only if the lower layer succeeds |
| TcpModel.HandleListen | src/net/tcp.c:530-573 | a SYN creates a connection that expects the number behind it and answers SYN and ACK; RST and everything else is ignored; ENOMEM exactly if the table is full; a failed random number crashes, as lines 325-326 free a connection whose queue is not set up; the answer has the random number, acknowledges the SYN and nothing else |
| TcpModel.Conn.HandleSynRcvd | src/net/tcp.c:575-615 | the state diagram, the answer and the error for this state; without memory the connection is reset and freed |
| TcpModel.Conn.HandleEstablished | src/net/tcp.c:617-656 | RST resets; any FIN enters CLOSE_WAIT; whenever bytes were stored or a FIN came, without RST, and the lower layer succeeds, exactly one segment is sent, an empty ACK with the next number that acknowledges everything taken |
| TcpModel.Conn.HandleFinWait1 | src/net/tcp.c:674-728 | the four branches of FIN_WAIT_1; every FIN is answered by exactly one ACK for everything taken, and nothing else is answered |
| TcpModel.Conn.HandleFinWait2 | src/net/tcp.c:730-760 | RST frees; a FIN enters TIME_WAIT and is answered by exactly one ACK for everything taken; everything else is ignored |
| TcpModel.Conn.HandleClosing | src/net/tcp.c:762-788 | the same for CLOSING |
| TcpModel.Conn.HandleLastAck | src/net/tcp.c:658-672 | the same for LAST_ACK |
| TcpModel.Conn.HandleTimeWait | src/net/tcp.c:790-820 | the same for the handler of TIME_WAIT, which no segment reaches |
| TcpModel.Conn.HandlePacket | src/net/tcp.c:864-908 | in every state but TIME_WAIT the connection becomes what the state diagram says; stored bytes in ESTABLISHED and every FIN in ESTABLISHED, FIN_WAIT_1 and FIN_WAIT_2 are answered by exactly one ACK for everything taken; a segment for a connection in TIME_WAIT frees it before it is looked up, under a clock that does not go back |
| TcpModel.Conn.Purge | src/net/tcp.c:229-240 | frees the connection exactly if it is in TIME_WAIT and the clock has reached the start of it |
| TcpModel.Conn.Send | src/net/tcp.c:958-993 | if the MTU has room for data or the window is closed: terminates after emitting exactly the first min(window, length) bytes as consecutive fragments of MTU size with consecutive numbers modulo 2^32; on an error of the lower layer, a prefix of them; joined, their payloads are that prefix, each fits a packet of the route, and each acknowledges what was received |
| TcpModel.Conn.SendWithoutRoom | src/net/tcp.c:974-990 | in all other cases, any number of rounds of the loop emits only empty segments and changes nothing, until sending fails |
| TcpModel.Conn.Recv | src/net/tcp.c:995-1010 | hands over the oldest stored bytes, as many as fit; returns how many were waiting |
| TcpModel.Conn.Close | src/net/tcp.c:1012-1048 | from ESTABLISHED to FIN_WAIT_1 and from CLOSE_WAIT to LAST_ACK, with exactly one segment, FIN and ACK, which takes one number if it is sent; a connection that was reset or is not yet established is freed |
| TcpTheorems.StreamSafety | src/net/tcp.c:372-411 | for any loss, duplication and reordering of segments cut from a stream shorter than 2^32, and any user calls, in every state: delivered bytes and then ring bytes are a prefix of the stream |
| TcpTheorems.EveryRunIsSafe | src/net/tcp.c:372-411 | from the first SYN on, without exception: bytes read are a prefix of the stream, and every segment sent acknowledges exactly the bytes stored and the FIN counted |
| TcpTheorems.TakesTheNextBytes | src/net/tcp.c:380-398 | a segment of the stream is taken exactly if it continues what is stored, also when numbers wrap |
| TcpTheorems.TakesModulo | src/net/tcp.c:381 | a payload is taken exactly if it starts a multiple of 2^32 bytes behind what is stored and fits: why streams must be shorter than 2^32 |
| TcpTheorems.FinCountedUnlessWrapped | src/net/tcp.c:400-408 | a FIN is counted exactly if it is in order, its data fits and its segment's numbers do not wrap: line 401 is not modulo 2^32 |
| TcpTheorems.WrappedFin | src/net/tcp.c:401 | such a FIN: from the SYN on, three segments after which the stream is stored but its FIN is not counted |
| TcpTheorems.FinNeverAcknowledged | src/net/tcp.c:638-646 | a FIN that is not counted is never acknowledged, whatever happens afterwards |
| TcpTheorems.FinEndsInput | src/net/tcp.c:638-646 | any FIN enters CLOSE_WAIT; the user can still get the whole stream exactly if it was complete before or the FIN's own segment completed it |
| TcpTheorems.FinOvertakesByte | src/net/tcp.c:638-646 | a FIN that overtakes a one-byte stream loses the byte, in the other order it does not |
| TcpTheorems.StoredIsFinal | src/net/tcp.c:888-892 | from CLOSE_WAIT on nothing is stored any more and the acknowledgement stays the same, whatever arrives |
| TcpTheorems.FragmentsAreCut | src/net/tcp.c:974-990 | what the sender emits are segments of its own stream, so that stream safety holds between two such peers |
| TcpTheorems.InOrderDelivery | src/net/tcp.c:380-398 | fragments delivered in order into a ring with room put exactly the sent bytes there |
| TcpTheorems.AvailIsRoom | src/net/tcp.c:483-488 | the modular difference is the room left in the window exactly if the bytes in flight fit it, contrary to the comment at line 485 |
| TcpTheorems.ShrunkWindow | src/net/tcp.c:485-487 | such a peer: a run after which 100 bytes are in flight, the window is 10, and the difference is 2^32 - 90 |
| TcpTheorems.FlightFitsWindow | src/net/tcp.c:974-990 | sending keeps the bytes in flight within the window |
| TcpTheorems.SeqGtIsAfter | src/net/tcp.c:354-357 | `seq_gt` is the modular comparison of RFC 9293, section 3.4, exactly if the plain difference is within half the number space |
| TcpTheorems.UnackNeverFalls | src/net/tcp.c:354-370 | the acknowledged number never falls as a plain number, in any run, so that it never follows the numbers around zero |
| TcpTheorems.AckNeverCounts | src/net/tcp.c:356 | such a connection: with the initial number 2^32 - 1 the handshake ends with the SYN unacknowledged, and no acknowledgement ever counts |
| TcpLaws.AckTakesEffect | src/net/tcp.c:359-370 | an acknowledgement of k bytes in flight, in every state that looks at it, takes exactly them out of flight, if and only if the plain numbers do not pass zero; the window becomes that of the segment |
| TcpLaws.AckFrees | src/net/tcp.c:483-488 | it frees the window: what is available then is the new window less what is still in flight |
| TcpLaws.NothingAcknowledged | src/net/tcp.c:359-370 | without the ACK flag, and in CLOSE_WAIT and LAST_ACK, the acknowledged number stays |
| TcpLaws.CloseWaitStalls | src/net/tcp.c:888-889 | in CLOSE_WAIT no acknowledgement ever opens the window again: over any run no more can be sent than it had room for at the beginning, and the FIN |
| TcpLaws.TakenIsAnswered | src/net/tcp.c:648-652 | a segment whose bytes are stored is answered by an ACK exactly in ESTABLISHED or with a FIN; the only other case is data along with the ACK that ends FIN_WAIT_1 |
| TcpLaws.FinIsAnswered | src/net/tcp.c:638-646 | in ESTABLISHED, FIN_WAIT_1 and FIN_WAIT_2 every FIN without RST is answered by an ACK and ends the input |
| TcpLaws.EverythingTold | src/net/tcp.c:617-760 | over any run without RST and losses below, whatever arrives in whatever order, the last acknowledgement number sent is the next expected one, except in FIN_WAIT_2 |
| TcpLaws.EveryRunAcknowledges | src/net/tcp.c:530-760 | so from the first SYN on, the peer always hears how many bytes of its stream are stored and whether its FIN was counted |
| TcpLaws.DataWithoutAnswer | src/net/tcp.c:713-721 | the exception: the segment that leads to FIN_WAIT_2 leaves the peer uninformed exactly if its bytes are stored |
| TcpLaws.StatesAdvance | src/net/tcp.c:575-788 | over any run the state only advances along the diagram, so none is entered twice, and a freed connection stays freed |
| TcpLaws.ResetArrives | src/net/tcp.c:575-788 | RST is never answered; it frees the connection in all states but ESTABLISHED, which becomes RESET, and CLOSE_WAIT and RESET, which ignore it |
| TcpLaws.Handshake | src/net/tcp.c:575-615 | after a SYN, any ACK establishes the connection if there is memory for its ring, and frees it otherwise |
| TcpLaws.ActiveClose | src/net/tcp.c:1012-1048 | closing, an ACK, a FIN and a lookup lead through FIN_WAIT_1, FIN_WAIT_2 and TIME_WAIT to a free entry |
| TcpLaws.SimultaneousClose | src/net/tcp.c:686-711 | a FIN in FIN_WAIT_1 leads to TIME_WAIT with an ACK and otherwise through CLOSING |
| TcpLaws.PassiveClose | src/net/tcp.c:638-672 | a FIN and closing lead through CLOSE_WAIT and LAST_ACK, where any ACK or RST, and nothing else, frees the entry |
| TcpLaws.FragmentsLayout | src/net/tcp.c:974-990 | the segments of one call hold the data in order without a gap, all but the last of full size, and their numbers say where they belong |
| TcpRuns.Drive | src/net/tcp.c:530-1048 | any calls on a connection are a run of the events of the theorems: what the user has read is a prefix of the stream whose segments arrive, and without RST and losses below the last segment sent acknowledges everything stored, except in FIN_WAIT_2 |
| Paths.PathNameParse | src/ramfs.c:29-106 | the loop yields exactly the maximal runs without slash; every error case; the assertion on the number of components never fails; the scratch arena crashes exactly if the copy of the string and the array of components do not fit; EINVAL, ENAMETOOLONG and the failed assertion each on exactly their inputs |
| Paths.ParseFits | src/ramfs.c:52-72 | an unused scratch arena of 16 KiB suffices exactly for paths of up to 1819 bytes between their slashes, though 4096 are allowed |
| Paths.SplitAtSlash | src/ramfs.c:77-103 | a slash separates components, wherever it is and however many there are |
| Paths.SplitNames | src/ramfs.c:77-103 | components are non-empty and free of slash and NUL |
| Paths.ComponentsBound | src/ramfs.c:59-68 | a string of length n has at most (n + 1) / 2 components |
| Paths.PathNameToStr | src/ramfs.c:108-119 | prints a slash before every component, without losing anything to the buffer's capacity; the scratch arena crashes exactly if 4096 bytes do not fit |
| Paths.ParsePrint | src/ramfs.c:29-119 | parsing the printed path gives the same components back |
| Paths.PrintIsNoLonger | src/ramfs.c:108-119 | printing what was parsed never exceeds the original length, hence never the buffer |
| FsTree.ListedIffExists | src/ramfs.c:238-262 | a directory's list holds exactly the paths one below it |
| FsTree.AddKeepsShape | src/ramfs.c:253-262 | linking a new node behind the last sibling keeps the links a tree with unique sibling names |
| RamFsModel.RamFs.LookupAt | src/ramfs.c:127-154 | the walk over child and sibling links finds the node of the path, or NULL exactly if the path does not exist |
| RamFsModel.RamFs.AddChild | src/ramfs.c:233-264 | ENOTDIR, EEXIST and ENOMEM in this order and exactly in their cases; otherwise one new path, and no other node moves |
| RamFsModel.RamFs.CreateCommon | src/ramfs.c:196-265 | the recursion over printed parent paths terminates and does what creation means on the map of paths; every existing path keeps its node; it crashes, before it changes anything, exactly if the scratch arena does not suffice for all levels |
| FsSpec.ScratchBounds | src/ramfs.c:220-231 | with no directory missing the length of the path decides whether the arena suffices; with four or more missing, it never does |
| FsSpec.FiveLevels | src/ramfs.c:285 | making "/a/b/c/d/e" in an empty file system crashes |
| FsSpec.CreationMeans | src/ramfs.c:196-265 | a successful call adds the new path and missing ancestors, as directories, and nothing else; it leaves the rest unchanged; a failed one adds something only for lack of nodes |
| FsSpec.CreationErrors | src/ramfs.c:196-265 | each error exactly by what exists on the way: the path itself, a missing parent that must not be made, a file as last existing path, or fewer nodes than missing paths, in which case exactly the directories there were nodes for remain |
| FsSpec.CreateParentFirst | src/ramfs.c:220-231 | making the parent first and then the node is the same as making all missing levels, with the same error |
| RamFsModel.RamFs.CreateDir | src/ramfs.c:308-312 | on success exactly the new path and the missing ones above it appear, as directories; no file's content changes; a crash exactly if the scratch arena does not suffice |
| RamFsModel.RamFs.CreateFile | src/ramfs.c:314-327 | on success exactly the new path, an empty file, and the missing directories above it appear; no other content changes; without memory for the buffer ENOMEM, and the file stays without data; a crash exactly if the scratch arena does not suffice |
| RamFsModel.RamFs.Open | src/ramfs.c:329-348 | the node of the path, or ENOENT exactly if it does not exist; a crash exactly for paths too long for the scratch arena |
| RamFsModel.RamFs.Read | src/ramfs.c:350-367 | appends exactly the bytes of the content from the offset on, as many as there is room for, and reports how many; EINVAL for directories and behind the end; a negative offset crashes unless the buffer is full |
| RamFsModel.RamFs.Write | src/ramfs.c:369-413 | overwrites or extends exactly this file from the offset on; EINVAL, ENOMEM and the failed assertion for a file without data in exactly their cases, in which nothing changes |
| RamFsModel.RamFs.WriteThenRead | src/ramfs.c:350-413 | a read at the offset of a successful write gets the bytes written, as many as there is room for, and then what follows them |
| RamFiles.File.Write | src/ramfs.c:384-412 | also when the data moves to a buffer of doubled capacity; ENOMEM exactly if one is needed and there is no memory; a negative offset writes outside the buffer exactly if there is something to write |
| RamFiles.WrittenAndKept | src/ramfs.c:369-413 | what was written reads back, and all bytes outside stay |
| RamFiles.CapacityIsLeast | src/ramfs.c:384-399 | a larger buffer has the least doubling of the old capacity that suffices |
| ArchiveTool.CreateArchive | scripts/archive.py:39-67 | the three loops write header, index and bodies in the format that the reader's structures describe |
| ArchiveFormat.EntryAt | include/tx/archive.h:20-32 | every index entry of a written archive leads to its path and data, with the hash over both |
| ArchiveFormat.HeaderFields | include/tx/archive.h:14-18 | the header of a written archive holds the magic string, the number of files and the length of the archive |
| ArchiveFormat.LengthsAgree | scripts/archive.py:47-55 | the number of characters equals the number of UTF-8 bytes exactly for ASCII paths |
| ArchiveFormat.DecodeEncode | scripts/archive.py:49-56 | little-endian fields decode to what was encoded |
| ArchiveFormat.ByteOnDisk | include/tx/archive.h:12 | the low byte comes first: byte i of a number is its i-th digit in base 256 |
| ArchiveFormat.SignedMeans | include/tx/archive.h:16-24 | signed fields are two's complement |
| ArchiveFormat.DecodeEncodeText | scripts/archive.py:85 | strict UTF-8 decoding inverts encoding, for every text |
| ArchiveFormat.DecodedIsEncoded | scripts/archive.py:85 | and nothing but encoded text is decoded |
| ArchiveTool.ExtractArchive | scripts/archive.py:69-91 | accepts exactly the archives all of whose entries have the right hash and a path in UTF-8, and returns what they lead to; reading a written archive gives the files back, in order |
| ArchiveTool.RoundTrip | scripts/archive.py:93-107 | the tool's own comparison holds exactly if no path begins or ends with a slash |
| ArchiveTool.NonAsciiUnreadable | scripts/archive.py:47-55 | the archive of a file with a path of one accented letter cannot be read back |
| ArchiveTool.Hash | scripts/archive.py:25-30 | the same hash as in C, for every input |
| ArchiveFormat.HashIsWeighted | scripts/archive.py:25-30 | the hash in closed form: the bytes as digits of base 33 behind 5381, modulo 2^64 |
| ArchiveModel.Djb2Hash | src/archive.c:4-10 | the wrapping 64-bit loop computes the hash modulo 2^64 |
| ArchiveModel.ArchiveExtract | src/archive.c:12-71 | for every archive written for ASCII paths of which none is the same as or above another: all bound and hash checks pass; exactly these files and the directories above them exist afterwards, exactly if nodes, first buffers and scratch arena suffice for all; otherwise the first file for which something is missing decides between a crash of the arena and ENOMEM; a file whose larger buffer cannot be allocated stays empty without an error. Any archive is rejected unless its header is right and all entries are accepted, which are then intact exactly if they lie inside; a bad header changes nothing |
| ArchiveModel.CheckEntry | src/archive.c:33-56 | accepts exactly the entries that pass lines 33-55, crashes exactly on a read outside of readable memory or an overflowing sum, and looks outside of the archive exactly if the index entry is cut off or path and data reach beyond the end; an accepted path and data are exactly the bytes that the fields name, inside the memory there is |
| ArchiveModel.AcceptedIsIntact | src/archive.c:47 | an accepted entry is an intact part of the archive exactly if it lies inside: line 47 adds the size to the position of the index entry, not to the offset |
| ArchiveModel.AcceptedFromOutside | src/archive.c:47 | such an entry: an archive of 60 bytes with two bytes behind it, which become a file |
| ArchiveModel.NonAsciiRejected | src/archive.c:55-56 | the archive of a file with a path of one accented letter is rejected, whatever memory follows |
| ArchiveModel.ExtractEntry | src/archive.c:32-68 | an entry that is not accepted creates nothing; an accepted one installs the file of its path with its data; the next entry of a written archive installs its file, or what is missing for it decides the error |
| ArchiveModel.TreeMeans | src/archive.c:58-60 | what exists is the root, the files and every path above one, and only the files are files |
| ArchiveModel.ContentsMean | src/archive.c:62-63 | every file reads as its original bytes exactly if they fit the first buffer or there was memory for a larger one; there are no other files |
| ArchiveModel.LargeFileIsLost | src/archive.c:62-63 | such a file: an archive of one file of 4097 bytes is extracted with success, and the file is empty |
| SchedModel.Sched.AddSleeping | src/sched.c:30-47 | inserts before the first task that wakes strictly later |
| SchedSpec.PutKeeps | src/sched.c:30-47 | insertion keeps the list sorted and without repetition; tasks with the same wake time stay first-in first-out |
| SchedModel.Sched.GetReady | src/sched.c:56-76 | polls until the first task's time has come, and returns it |
| SchedModel.Sched.Switch | src/sched.c:86-97 | the task leaves the list and runs, unless it is running already |
| SchedModel.Sched.Resume | src/sched.c:186-189 | the second removal changes nothing for a task that was switched to, and the assertion against waking early never fails under a monotone clock |
| SchedModel.Sched.Sleep | src/sched.c:177-190 | the running task takes its place, the first task runs once its time has come |
| SchedModel.Sched.Finish | src/sched.c:109-119 | another task is always there to run; the main task cannot finish |
| SchedModel.Sched.CreateTask | src/sched.c:131-164 | the new task waits with wake time zero behind those that do; ENOMEM changes nothing |
| SchedModel.Sched.constructor | src/sched.c:11-22 | only the main task is alive, and it runs |
| SchedSpec.StepKeeps | src/sched.c:30-190 | every step keeps: each live task but the running one is in the list exactly once, in wake-time order |
| SchedSpec.EarliestRuns | src/sched.c:56-119 | whoever sleeps or finishes hands over to a task that wakes no later than anyone who goes on waiting |
| SchedSpec.StepChanges | src/sched.c:109-190 | which wake time each step sets, and which task it starts or ends; all others stay |
| SchedSpec.RunsAreSafe | src/sched.c:70-119 | in every state of a run from `sched_init` on that holds, and the list is never empty when a task finishes |
| SchedModel.Drive | src/sched.c:30-190 | any calls of the running tasks on a new scheduler, up to a finish of the main task, lead through the states of a run |
| SchedSpec.BoundedWaiting | src/sched.c:30-76 | once its time has come, a task runs after at most as many switches as there were tasks ahead of it and tasks created since |
| Checksum.Fold | src/net/ip.c:52-54 | folding terminates with the ones' complement value of the sum |
| Checksum.Iterate | src/net/ip.c:36-57 | the loop computes the ones' complement sum of the 32-bit sum of all words, an odd last byte included |
| Checksum.WordsByByte | src/net/ip.c:44-50 | in the sum that it computes, a byte counts once at an even place and 256 times at an odd one |
| Checksum.KnownSum | src/net/ip.c:59-67 | the example of section 3 of RFC 1071 |
| Checksum.NoWrapUpTo128K | src/net/ip.c:44-50 | the 32-bit sum cannot wrap for up to 128 KiB |
| Checksum.WrappedSumIsWrong | src/net/ip.c:44-50 | where it wraps for the first time the result is wrong, always |
| Checksum.OcAdd | src/net/ip.c:52-54 | folding early does not change the result |
| Checksum.PiecesInAnyOrder | src/net/tcp.c:460-464 | even pieces in any order and a last piece of any length give the checksum of the concatenation (RFC 1071, section 2) |
| Checksum.ByteOrder | src/net/ip.c:33-35 | swapping the bytes of every word swaps those of the result, so the machine's byte order does not matter |
| Checksum.ChecksumVerifies | src/net/ip.c:59-72 | data verifies with its checksum filled in, and with no other value but the second zero |
| Checksum.OneWordChanged | src/net/ip.c:69-72 | a change of one word is noticed unless it exchanges the two zeros |
| Checksum.PrependHeader | src/net/ip.c:232-265 | a receiver reads version and length 0x45, the total length with the high byte first, a time to live of 64, the protocol, the source address and then the destination; every header built verifies, so that the assertion at line 255 never fails; too long packets fail the first one; ENOMEM exactly without room |
| Checksum.TcpChecksum | src/net/tcp.c:453-464 | the checksum over header, pseudo header and payload, in this order |
| Checksum.PseudoHeaderBytes | src/net/tcp.c:447-451 | the pseudo header: the addresses in order, zero, the number of TCP and the length with the high byte first |
| Checksum.TcpChecksumIsOk | src/net/tcp.c:822-828 | the test over pseudo header and segment |
| Checksum.SegmentsVerify | src/net/tcp.c:441-464 | every segment that is sent passes the receiver's test |
| IpParser.Parse | src/net/ip_addr.c:29-130 | succeeds exactly on the formatted text of an address, alone or with a prefix length from 1 to 32 without leading zeros, and returns that address and mask |
| IpParser.ParseComplete | src/net/ip_addr.c:29-130 | every such text is accepted with its address and mask |
| IpParser.ParseSound | src/net/ip_addr.c:29-130 | whatever is accepted is such a text |
| IpParser.TextDetermines | src/net/ip_addr.c:29-130 | different addresses or prefix lengths never have the same text |
| IpAddr.AppendU64 | include/tx/fmt.h:36-50 | the digit loop appends the number in decimal and stays inside its buffer |
| IpAddr.DecimalValue | include/tx/fmt.h:45-47 | the digits printed determine the number, without leading zero |
| IpAddr.FormatAddr | include/tx/net/ip_addr.h:45-50 | the four numbers with dots, in at most 15 characters, so the buffer never overflows |
| IpAddr.KnownAddress | include/tx/net/ip_addr.h:45-50 | the text of 192.168.1.20 |
| IpAddr.MaskPrefixLength | include/tx/net/ip_addr.h:64-79 | inverts the mask of every prefix length, and fails an assertion on exactly all other values |
| IpAddr.MasksDiffer | src/net/ip_addr.c:14-27 | different prefix lengths have different masks |
| IpAddr.MaskOctets | src/net/ip_addr.c:14-27 | the ones of a mask fill the first octet first, then the second, and so on |

## Left out

- PagingModel.Paging.PtMap: TLB flushes and the CR3 register are not modelled; the walk always sees the current tables.
- PagingModel.Paging.constructor: page-table entries are records of address, permissions and memory type, not bits of a word; addresses in them are page-aligned.
- Regions.MapRegion: the pages of new regions must not claim the pool's own memory as canonical, since physical uniqueness is not something the code checks.
- Regions.UnmapRegion: the region that holds the page tables themselves is not unmapped.
- PagingInitModel.PagingInit: the printed diagnostics and the test for the PAT feature are left out.
- BuddyModel.Buddy.FreeRaw: the order stored in a block's header is written but never read by the code, and not modelled; blocks that were never allocated are not passed to it.
- BuddyModel.Buddy.constructor: the padding in front of the first page is not modelled; pages are numbered from the aligned base.
- BuddyAlloc.Drive: the run ends at the first free that is not in order, after which the lists no longer describe a tree.
- TcpModel.Conn.Send: an MTU without room for data makes the source's loop endless while the window has room; for that case there is no result, only the rounds of SendWithoutRoom.
- TcpModel.Conn.HandlePacket: the search in the connection table, wildcard matches, the answer to segments of unknown connections and the length checks in front of it are not modelled.
- TcpModel.Conn.Recv: only states in which the user holds the connection are considered.
- TcpRuns.Drive: writes along a route whose MTU leaves no room for data are not among the calls, since they may not return.
- TcpModel.Conn.HandleTimeWait: the TIME_WAIT duration, which the code does not use, retransmission, the accept queue and listening connections beyond their answer to a SYN are not modelled; the advertised window is the constant that the code sends.
- TcpModel.Net.Transmit: routing, buffers and the IP layer are an arbitrary sequence of successes and errors; whether the route leaves through another interface is fixed per network.
- RamFsModel.RamFs.CreateFile: allocations of names, which line 187 does not check, are assumed to succeed; the pool of nodes, the buffers of files and the scratch arena are not.
- RamFsModel.RamFs.Read: what a negative offset reads or writes in front of a buffer is not modelled, only when it happens.
- ArchiveModel.ArchiveExtract: for archives that the tool did not write, nothing is said about which files an interrupted extraction leaves; a read of an index entry counts as a read of all of its 36 bytes.
- ArchiveTool.CreateArchive: collecting files from a directory and writing them to disk are left out; sizes are those of the data; archives of 2^63 bytes and more cannot be written.
- ArchiveTool.ExtractArchive: the exceptions for a bad entry are not told apart in its contract.
- SchedModel.Sched.Sleep: a context switch is a change of the current task; stacks, task identifiers and callbacks are not modelled; times do not overflow.
- SchedModel.Sched.CreateTask: memory that the allocator hands out is not in use by a live task.
- SchedModel.Sched.Switch: the final switch of a finished task is the same removal and change of current task.
- IpAddr.AppendU64: other formats, hexadecimal and signed numbers are left out.
- Checksum.TcpChecksum: ports, numbers and flags are given as the 20 bytes of the header.
- Port and MMIO access, PCI, network drivers, interrupts, the boot loader, HTTP, ICMP, ARP, routing tables and configuration parsing are hardware effects or glue without properties of this kind.
