# lwIP: verified models of allocators, buffers, checksums, timers and sockets

This project models the parts of lwIP (as used on bare metal in this repository) whose correctness is
hardest to see from the code, and proves what they promise.

| file | what it models |
|---|---|
| Common.dfy | what the other files share |
| HeapBlocks.dfy | the block list of the heap allocator as a map from addresses to headers, and what malloc, free and trim do to it |
| Heap.dfy | the allocator itself, on an array of header cells that the owners of memory write over, with `lfree` and the `used` statistic |
| HeapInterleaved.dfy | the allocator with frees and trims coming in at every point where `mem_malloc` gives up its protection |
| Checksum.dfy | the three Internet checksum algorithms, chains, pseudo headers and partial checksums, against RFC 1071 |
| PbufRefs.dfy | reference counts and total lengths of pbufs in shared chains |
| PbufExamples.dfy | calls after which a promise about shared chains does not hold |
| PbufChain.dfy | one chain as the byte sequence it carries |
| Timeouts.dfy | the timeout list over a wrapping 32-bit clock, cyclic timers, and handlers that start and stop timers |
| Memp.dfy | memory pools and the cycle check |
| SocketTable.dfy | the life of a socket descriptor with several threads using it |
| Select.dfy | select waiting and being woken, as a transition system over all threads |
| SelectCalls.dfy | the routines behind it: the list of waiting selects, the scan, event_callback, and lwip_select as a whole |
| SelectSlots.dfy | select together with the descriptor table, whose slots are freed and taken again while threads wait |
| RecvTcp.dfy | reading a TCP stream, with peeks and window updates |
| NetconnWrite.dfy | a vector write that is carried on over several calls |
| Dns.dfy | the resolver: retries, servers, answers and callbacks |
| DnsName.dfy | the encoding of names and the two routines that walk over it |
| DnsMessage.dfy | the bytes of a reply: what the resolver reads from them |

How the source is represented:

- Code that changes memory is a class with the same fields and loops, proved against functions on
  values; what is promised over whole runs is the class invariant, or an invariant of a transition
  system whose steps are the protected sections of the source.
- Integers are unbounded. Where a width matters it is written out: 16-bit words and 32-bit
  accumulators in Checksum, the 32-bit clock in Timeouts, `len` and `tot_len` in PbufRefs, the u8_t
  counts of `pbuf_free` and `select_waiting`, the u8_t sequence number of the resolver.
- Clocks, random numbers, packets, the send buffer, and what TCP and UDP answer are parameters.
- Asserts in the modelled code are proved to hold, or an output says exactly when they fire
  (inet_chksum.c:416, mem.c:721, 740 and 790, those on total lengths in pbuf.c:431, 868, 923 and 940), or
  the states in which they would fire are characterised (sockets.c:565), or the step that would fire them is
  excluded (the u8_t overflow of `fd_used`), or the code behind them is
  modelled (a timeout without a pool element).
- Where a promise does not hold in general, the exact condition is proved, and calls that break it are
  given:

| promise | exact condition | calls that break it |
|---|---|---|
| total lengths after `pbuf_cat` | PbufRefs.CatTotals | PbufExamples.CatSpoilsTotals |
| total lengths after `pbuf_dechain` | PbufRefs.DechainTotals | PbufExamples.DechainSpoilsTotals |
| total lengths after `pbuf_realloc` | PbufRefs.ReallocTotals | PbufExamples.ReallocSpoilsTotals |
| `pbuf_realloc` stays in its chain | PbufRefs.Pbufs.Realloc | PbufExamples.ReallocRunsOff |
| `pbuf_dechain` returns a live pbuf | PbufRefs.Pbufs.Dechain | PbufExamples.DechainReturnsDead |
| `pbuf_copy` takes a single packet | PbufChain.Chain.Copy, PbufChain.Chain.CopyFrom | PbufChain.CopyEmptyEnd |
| total lengths after `pbuf_free_header` | PbufRefs.HeaderTotals | PbufExamples.FreeHeaderSpoilsTotals |
| the last pbuf of a chain has `tot_len` equal to `len` | PbufRefs.Pbufs.FreeHeader | PbufExamples.CatAfterFreeHeader |
| `mem_free` takes back only what `mem_malloc` handed out | Heap.Heap.FreeableIsLive, Heap.Heap.Free | Heap.WrittenHeader |
| a second `mem_free` is noticed | Heap.Heap.DoubleFree | Heap.SecondFreeUnnoticed |
| a legal trim fires no assertion | Heap.Heap.Trim | Heap.TrimAtEnd |
| no thread waits on a slot that `alloc_socket` takes | SelectSlots.TakenSlot | SelectSlots.WaiterOnTakenSlot |
| a timer that is due is noticed | Timeouts.LessOnlyIfNear, Timeouts.Timeouts.FireNext | Timeouts.OverdueUnnoticed |
| a write with a full send buffer waits | NetconnWrite.Write.Round | NetconnWrite.FullBuffer |
| the oldest completed entry of the resolver is taken | Dns.AgeIs, Dns.OldestIs | Dns.OldestForgotten |
| an encoded name is found in the reply | DnsName.EncodedNameFound | DnsName.EmptyLabelUnreadable |
| no other name is taken for it | DnsName.CompareAccepts | DnsName.OtherNameAccepted |

`dafny verify dfyconfig.toml` checks the whole project.

## Model

| member | source | states |
|---|---|---|
| HeapBlocks.TrimSizeOk | lwip/src/core/mem.c:709-719 | A size that passes the checks is aligned, at least MIN_SIZE and the size asked for, and at most the heap. |
| HeapBlocks.TrimSizeExact | lwip/src/core/mem.c:709-719 | A size passes the checks of mem_trim or mem_malloc if and only if the least aligned size that holds it and MIN_SIZE does not exceed the heap, and that is the size used; the wrap-around of mem_size_t lets none slip through. |
| HeapBlocks.ClaimWellFormed | lwip/src/core/mem.c:886-927 | Handing out a block, with or without a split, keeps one linked, tiling, coalesced block list. |
| HeapBlocks.FreeWellFormed | lwip/src/core/mem.c:669-680 | Freeing and plugging holes on both sides keeps the list linked, tiling and coalesced. |
| HeapBlocks.TrimWellFormed | lwip/src/core/mem.c:753-804 | Trimming keeps the list linked, tiling and coalesced, also for a block that ends at the end of the heap. |
| HeapBlocks.ClaimAllocates | lwip/src/core/mem.c:886-927 | The new allocation has at least the requested size and less than a header and MIN_SIZE too much, is disjoint from all others, and no other moves. |
| HeapBlocks.FreeReleases | lwip/src/core/mem.c:616-686 | A free gives back exactly one allocation and touches no other. |
| HeapBlocks.TrimShrinks | lwip/src/core/mem.c:753-804 | A trimmed block stays where it is, keeps at least the new size, and no other allocation changes. |
| HeapBlocks.TrimGivesBack | lwip/src/core/mem.c:753-804 | A trimmed block ends right behind the new size if the block behind it is free, and otherwise with less left over than would make a block; what it loses is one free block, with what was free behind it, and no other block changes. |
| HeapBlocks.FreeUndoesClaim | lwip/src/core/mem.c:669-680 | Freeing straight after a malloc restores the heap header for header. |
| HeapBlocks.TilesExactly | lwip/src/core/mem.c:567-607 | Every address of the heap lies in exactly one block of a linked list. |
| HeapBlocks.FirstRoom | lwip/src/core/mem.c:870-890 | Where a header and the bytes asked for fit between the allocations, some free block is large enough: the first fit is the lowest place with room, and without a fit there is no room anywhere. |
| HeapBlocks.OperationsKeepAlignment | lwip/src/core/mem.c:586-590 | Malloc, free and trim keep every block address a multiple of the alignment. |
| HeapBlocks.ClaimLowest | lwip/src/core/mem.c:931-950 | A claim leaves no free block below `lfree`, and `lfree` stays lowest free unless it was the block claimed. |
| HeapBlocks.TrimLowest | lwip/src/core/mem.c:762-794 | After a trim `lfree`, moved as the code moves it, is the lowest free block. |
| HeapBlocks.MergeLowest | lwip/src/core/mem.c:489-504 | After a merge `lfree`, passed on as plug_holes passes it, is the lowest free block. |
| HeapBlocks.ClaimUsed | lwip/src/core/mem.c:916-926 | The total extent of used blocks grows by exactly the block handed out. |
| HeapBlocks.FreeUsed | lwip/src/core/mem.c:677 | The total extent of used blocks falls by exactly the block freed. |
| HeapBlocks.TrimUsed | lwip/src/core/mem.c:779-802 | The total extent of used blocks falls by exactly what is cut off. |
| Heap.Heap.constructor | lwip/src/core/mem.c:516-545 | mem_init: one free block from 0 to ram_end, with the class invariant: tiling, coalesced, aligned list, lowest `lfree`, exact `used` statistic. |
| Heap.Heap.PlugHoles | lwip/src/core/mem.c:474-510 | In the array, plug_holes makes exactly the merges of the list model and keeps `lfree` the lowest free block; the headers that leave the list stay marked unused. |
| Heap.Heap.Overwrite | lwip/src/core/mem.c:831-842 | What the owner of allocated memory writes into it, also if it looks like a header, leaves the list, `lfree` and the statistic as they are. |
| Heap.Heap.Free | lwip/src/core/mem.c:616-686 | Allocated memory is taken back as in the list model; NULL changes nothing, and every pointer that the checks refuse nothing but the error count, which is exact. Nothing else is freed or becomes allocated. Nothing is promised only for a pointer that passes the checks without being allocated, and only where its header place was written over. |
| Heap.Heap.FreeableIsLive | lwip/src/core/mem.c:616-668 | The checks of mem_free let all allocated memory pass, and, where nobody has written over the place taken for the header, nothing else. |
| Heap.WrittenHeader | lwip/src/core/mem.c:616-686 | An owner writes what looks like a header in use into its memory; mem_free of the address behind it is not counted as an error. |
| Heap.Heap.Run | lwip/src/core/mem.c:616-976 | Every sequence of calls and of writes by owners, up to the first mem_free of a pointer whose header place was written over so that it passes the checks, is a run of the list model, with errors counted exactly; memory becomes allocated only by mem_malloc handing it out. |
| Heap.Heap.DoubleFree | lwip/src/core/mem.c:616-686 | Freeing a pointer again, after any calls and writes in between, is counted as an error and leaves the heap as it is, unless mem_malloc has handed the pointer out again or something was written over its old header. |
| Heap.SecondFreeUnnoticed | lwip/src/core/mem.c:616-686 | Memory is freed, the block around it handed out, and its owner writes what looks like the old header in use: the second free is not counted as an error. |
| Heap.Heap.FindFit | lwip/src/core/mem.c:870-957 | The scan from `lfree` ends at the first block from address 0 that is free and large enough, or finds none. |
| Heap.Heap.Malloc | lwip/src/core/mem.c:831-976 | The block found from `lfree` is the first fit from address 0, at the lowest place with room between the allocations; NULL exactly when the size is refused or there is no room anywhere, despite the early end of the scan. |
| Heap.Heap.ClaimBlock | lwip/src/core/mem.c:886-950 | Split or exact claim in the array as in the list model, with invariant, statistic and `lfree`. |
| Heap.Heap.AdjustLfree | lwip/src/core/mem.c:931-950 | The walk from a used `lfree` ends at the lowest free block or ram_end. |
| Heap.Heap.Trim | lwip/src/core/mem.c:699-820 | Result and heap for every size: NULL and unchanged for a refused or larger size, the pointer itself and an error counted for one outside the heap, otherwise all but the new size given back, with the statistic lowered by that; and exactly when one of the assertions fires. |
| Heap.TrimAtEnd | lwip/src/core/mem.c:780-801 | Trimming memory that reaches to the end of the heap, in this build's configuration, fires the assertion at line 790. |
| Heap.Heap.Sanity | lwip/src/core/mem.c:568-607 | On a linked list, an assertion of mem_sanity fires if and only if a block is not aligned or two free blocks are neighbours; in reachable states neither is so. |
| Heap.Heap.LiveLooksLinked | lwip/src/core/mem.c:550-564 | mem_link_valid accepts every block that is in the list. |
| HeapInterleaved.InitHolds | lwip/src/core/mem.c:516-545 | The invariant of the interleaved allocator holds initially. |
| HeapInterleaved.FreeKeepsLow | lwip/src/core/mem.c:669-680 | A free in between moves `lfree` only down to the freed block and leaves no free block below it. |
| HeapInterleaved.FreeKeeps | lwip/src/core/mem.c:669-685 | A free at any unprotected point keeps the invariant: `ptr` and `cur` still name live headers or a disturbance is noted. |
| HeapInterleaved.TrimKeeps | lwip/src/core/mem.c:748-812 | So does a trim. |
| HeapInterleaved.ClaimKeeps | lwip/src/core/mem.c:883-927 | The block that the scan claims is free, large enough and the first fit at that moment. |
| HeapInterleaved.ScanKeeps | lwip/src/core/mem.c:870-884 | Moving on in the scan, or starting again after a disturbance, keeps the invariant. |
| HeapInterleaved.FailsOnlyWhenFull | lwip/src/core/mem.c:967-976 | mem_malloc gives NULL only at a moment when there is no room anywhere between the allocations, and leaves the heap alone. |
| HeapInterleaved.AdjustKeeps | lwip/src/core/mem.c:931-948 | Each step of the walk that moves `lfree` on keeps the invariant, with frees and trims in between. |
| HeapInterleaved.StepKeeps | lwip/src/core/mem.c:861-976 | Every step of thread or interrupt keeps tiling, no free block below `lfree`, and live cursors. |
| HeapInterleaved.RunsKeep | lwip/src/core/mem.c:861-976 | The invariant holds in every state of every run. |
| HeapInterleaved.SpansKept | lwip/src/core/mem.c:669-812 | A step changes no span that somebody holds or is about to be given, but that of the block trimmed or freed by its owner. |
| HeapInterleaved.ReturnedHolds | lwip/src/core/mem.c:861-976 | Whatever frees and trims come in between, the block that mem_malloc returns has the size asked for, not a whole block more, and nobody else's memory is in it. |
| HeapInterleaved.WantedKept | lwip/src/core/mem.c:861-976 | From call to return mem_malloc is after the size that it was called with. |
| HeapInterleaved.Progress | lwip/src/core/mem.c:870-948 | Undisturbed, the scan and the walk that moves `lfree` only go up, so that mem_malloc ends. |
| Checksum.InternetSumIs | lwip/src/core/inet_chksum.c:68-78 | The one's complement sum of RFC 1071 is the weighted byte sum brought into 16 bits; zero only for a zero sum. |
| Checksum.FoldTwice | lwip/src/include/lwip/inet_chksum.h:46-52 | Two folds bring any 32-bit sum into 16 bits without losing a carry. |
| Checksum.FoldDown | lwip/src/core/inet_chksum.c:106-109 | So does one fold and a second only where needed. |
| Checksum.SwapShift | lwip/src/include/lwip/inet_chksum.h:46-52 | Swapping the bytes of the sum of a buffer gives the sum of the buffer shifted by one byte. |
| Checksum.SumConcat | lwip/src/core/inet_chksum.c:266-279 | Sums of parts add up, the second in the byte order that the length of the first calls for. |
| Checksum.SumFits | lwip/src/core/inet_chksum.c:79-104 | The 32-bit accumulator does not overflow for buffers up to 0x20002 bytes. |
| Checksum.StandardChksum1 | lwip/src/core/inet_chksum.c:79-114 | Version 1 is the RFC 1071 sum of the buffer. |
| Checksum.StandardChksum2 | lwip/src/core/inet_chksum.c:132-173 | Version 2 is the RFC 1071 sum, from every start address. |
| Checksum.StandardChksum3 | lwip/src/core/inet_chksum.c:188-255 | Version 3 is the RFC 1071 sum, from every start address and for every length. |
| Checksum.AccumulateLongs | lwip/src/core/inet_chksum.c:204-225 | The unrolled loop with its end-around carries stands for exactly the bytes it read. |
| Checksum.AddTailWords | lwip/src/core/inet_chksum.c:227-236 | The words behind the unrolled loop are added without losing a carry. |
| Checksum.InetChksum | lwip/src/core/inet_chksum.c:554-558 | inet_chksum is the complement of the RFC 1071 sum. |
| Checksum.StoredChecksumVerifies | lwip/src/core/inet_chksum.c:554-558 | A buffer with its own checksum stored in a field that was zero checks out to 0. |
| Checksum.SegmentSum | lwip/src/core/inet_chksum.c:266-279 | Adding a pbuf's own sum to the running one gives the sum of the bytes laid end to end, in the byte order of the odd bytes so far. |
| Checksum.FoldSmall | lwip/src/core/inet_chksum.c:270-276 | One fold after adding two 16-bit values leaves 16 bits, so the swap loses nothing. |
| Checksum.AddSegment | lwip/src/core/inet_chksum.c:266-279 | One round of the chain loop keeps the sum of all bytes so far, for even and odd pbuf lengths. |
| Checksum.InetChksumPbuf | lwip/src/core/inet_chksum.c:567-588 | The checksum of a chain is that of its bytes laid end to end, for every split. |
| Checksum.InetChksumPseudo | lwip/src/core/inet_chksum.c:259-327 | The checksum with pseudo header is the flat one over header and data, for every split. |
| Checksum.SumChainPrefix | lwip/src/core/inet_chksum.c:406-428 | The sum of the first `n` bytes of a chain, and exactly when the assertion at line 416 fires. |
| Checksum.InetChksumPseudoPartial | lwip/src/core/inet_chksum.c:398-473 | The partial checksum is the flat one over header and prefix, and exactly when the assertion at line 416 fires. |
| SocketTable.InitHolds | lwip/src/api/sockets.c:547-573 | The invariant of the descriptor table holds initially. |
| SocketTable.CountersKeep | lwip/src/api/sockets.c:373-390 | A get or a done that is not the last keeps `fd_used` equal to the holders. |
| SocketTable.HandoutKeeps | lwip/src/api/sockets.c:586-606 | Taking the netconn out of the slot keeps every netconn in the table or handed out once, never both. |
| SocketTable.AllocKeeps | lwip/src/api/sockets.c:547-573 | A slot is taken only when nobody holds it, and counts stay exact. |
| SocketTable.StepKeeps | lwip/src/api/sockets.c:373-650 | Every step keeps: `fd_used` counts the holders, a pending free has somebody to carry it out, each netconn is in one place. |
| SocketTable.RunsKeep | lwip/src/api/sockets.c:373-650 | That holds in every state of every run. |
| SocketTable.HeldSlotStays | lwip/src/api/sockets.c:547-573 | While a slot is held its netconn is neither handed out nor replaced. |
| SocketTable.OnlyLastHolderHandsOut | lwip/src/api/sockets.c:415-440 | A netconn is handed out for deletion only by the last holder to leave, and it is the one in its slot. |
| SocketTable.CloseCompletes | lwip/src/api/sockets.c:586-606 | After free_socket, in every later state of a run in which nobody holds the slot or another netconn is in it, the netconn was handed out for deletion, whatever its type. |
| SocketTable.CloseKept | lwip/src/api/sockets.c:586-606 | Until then it stays in the slot, held by fewer threads than before, and no further thread gets hold of it. |
| SocketTable.NoneDeletedUnasked | lwip/src/api/sockets.c:415-440 | In every run, a netconn that was handed out for deletion was freed by a holder of its slot before. |
| SocketTable.GetGranted | lwip/src/api/sockets.c:373-391 | In every run, a thread gets hold of a netconn that nobody has freed, up to the limit of the u8_t counter. |
| SocketTable.Sockets.SockIncUsed | lwip/src/api/sockets.c:373-391 | sock_inc_used is one step of the table, refused exactly while a free is pending. |
| SocketTable.Sockets.AllocSocket | lwip/src/api/sockets.c:540-573 | alloc_socket takes the lowest slot without netconn and holder, or none when every slot has one of them. |
| SocketTable.Sockets.DoneSocket | lwip/src/api/sockets.c:416-440 | done_socket is one step of the table and carries out a pending free when it is the last; what it hands out is what it returns. |
| SocketTable.Sockets.FreeSocket | lwip/src/api/sockets.c:633-650 | free_socket is one step of the table; what it hands out is what it returns. |
| Select.InitHolds | lwip/src/api/sockets.c:2074-2079 | The invariant of select holds before any thread waits. |
| Select.EventKeeps | lwip/src/api/sockets.c:2561-2603 | An event keeps it: whoever has passed the socket in the second scan will be woken. |
| Select.NotifyKeeps | lwip/src/api/sockets.c:2637-2676 | A round of select_check_waiters keeps it. |
| Select.CountKeeps | lwip/src/api/sockets.c:2076-2107 | Counting oneself into `select_waiting` keeps the counters equal to the threads that wait. |
| Select.RescanKeeps | lwip/src/api/sockets.c:2109-2131 | A socket found empty in the second scan keeps it: later events on it will be signalled. |
| Select.UncountKeeps | lwip/src/api/sockets.c:2138-2161 | Counting oneself out again keeps it. |
| Select.UnlinkKeeps | lwip/src/api/sockets.c:1833-1854 | Leaving the list keeps it for all others. |
| Select.StepKeeps | lwip/src/api/sockets.c:2074-2163 | Every step of every thread and callback keeps the invariant. |
| Select.RunsKeep | lwip/src/api/sockets.c:2074-2163 | It holds in every state of every run. |
| Select.NoLostWakeup | lwip/src/api/sockets.c:2109-2135 | A thread that blocks and watches a ready event has been signalled, or the callback that made it ready is still on its way to it. |
| Select.EventsAmount | lwip/src/api/sockets.c:2561-2587 | Along any path below the wrap-around of the s16_t, `rcvevent` has grown by the events received less those fetched, `sendevent` is as the last event on sending says, `errevent` is set once there was an error. |
| Select.EventsOf | lwip/src/api/sockets.c:2561-2587 | Every step of a path is an event of a descriptor or leaves its event fields alone. |
| Select.ReadyIs | lwip/src/api/sockets.c:1895-1925 | So a descriptor is ready for reading exactly if more was received than fetched, for writing as the last event says, and for exceptions after an error. |
| SelectCalls.SelectList.Link | lwip/src/api/sockets.c:1809-1829 | The entry becomes the first of the doubly linked list. |
| SelectCalls.SelectList.Unlink | lwip/src/api/sockets.c:1833-1854 | Exactly the entry goes from the doubly linked list, wherever it is, the others stay in order, and the assertions on its links hold. |
| SelectCalls.Layer.EventCallback | lwip/src/api/sockets.c:2561-2607 | The fields change by what the event amounts to. After an event that makes the socket ready every select that waits for that is signalled; a select is signalled only if it is listed and one of its sets asks for something that is ready; and the run is a path of the transition system. |
| SelectCalls.Layer.CheckWaiters | lwip/src/api/sockets.c:2621-2690 | One pass signals exactly the listed selects that asked for an active event. |
| SelectCalls.Layer.SelScan | lwip/src/api/sockets.c:1873-1936 | -1 exactly when a watched descriptor is no open socket; otherwise exactly the ready descriptors of each kind and their number. |
| SelectCalls.Layer.RaiseAll | lwip/src/api/sockets.c:2074-2109 | Raising `select_waiting` one socket after the other, with others running in between, ends with all watched sockets counted, or at a descriptor that is not open or whose counter is full. |
| SelectCalls.Layer.Rescan | lwip/src/api/sockets.c:2109-2135 | The second scan, one socket after the other, ends in the wait, with something ready seen, or at a descriptor that is no longer open. |
| SelectCalls.Layer.LowerAll | lwip/src/api/sockets.c:2137-2161 | Lowering `select_waiting` again: the assertion that it is above 0 holds at every watched socket, whatever others did in between. |
| SelectCalls.Layer.WaitForEvent | lwip/src/api/sockets.c:2072-2181 | From linking the entry to unlinking it, the run is a path of the transition system; it ends only after something was ready, the thread was signalled or its timeout ran out, or fails at a descriptor that is not open or full. |
| SelectCalls.Layer.DoSelect | lwip/src/api/sockets.c:2029-2215 | Every run of lwip_select, with other threads and events in between, is a path of the transition system. A call that is left waiting watches nothing that is ready. The result is the number of the descriptors reported, and these are exactly the ones ready at the return, unless the timeout ran out before anyone signalled the call; 0 only for a poll, a wake-up or such a timeout; -1 only for a descriptor that is not open or full. |
| SelectSlots.TakenSlot | lwip/src/api/sockets.c:547-573 | When alloc_socket can take a slot, the assertion at line 565 holds if and only if no thread is counted in its `select_waiting`; each that is counted could not mark the slot when its select began. |
| SelectSlots.JointStepKeeps | lwip/src/api/sockets.c:373-650 | Every step of the table and of select on the same slots keeps: `fd_used` counts calls and marks of selects, `select_waiting` the threads counted on the slot, and each of these has marked or missed it. |
| SelectSlots.JointRunsKeep | lwip/src/api/sockets.c:1943-2000 | That holds in every state of every run. |
| SelectSlots.NoWaiterOnTakenSlot | lwip/src/api/sockets.c:547-573 | In every run in which each select marks the slots that it watches, no slot with waiting threads is taken, and no wake-up is lost although slots are reused. |
| SelectSlots.WaiterOnTakenSlot | lwip/src/api/sockets.c:1943-2000 | A select begins while its slot is being closed and cannot mark it; the slot is taken again, waited on, closed, and can be taken with a thread still counted. |
| PbufRefs.AllocatedIffReferenced | lwip/src/core/pbuf.c:726-802 | A pbuf is allocated exactly as long as an outside holder or a `next` pointer refers to it. |
| PbufRefs.DropLast | lwip/src/core/pbuf.c:753-787 | Freeing the last reference keeps all other counts exact: its own `next` pointer becomes the reference that goes next. |
| PbufRefs.Link | lwip/src/core/pbuf.c:872-875 | Passing a reference to the `next` pointer keeps all counts exact. |
| PbufRefs.Unlink | lwip/src/core/pbuf.c:922-932 | Taking a reference back from a `next` pointer keeps all counts exact. |
| PbufRefs.ExtendChained | lwip/src/core/pbuf.c:872-875 | Linking two chains that share no pbuf makes no cycle. |
| PbufRefs.CatTotals | lwip/src/core/pbuf.c:860-874 | After pbuf_cat all `tot_len` are right if and only if the sum fits in a u16_t and either the tail is empty or no other chain runs into the head. |
| PbufRefs.JoinedBytes | lwip/src/core/pbuf.c:860-874 | pbuf_cat adds the total of the tail to that of the head modulo 65536, and changes no `len` and no `ref`. |
| PbufRefs.DechainTotals | lwip/src/core/pbuf.c:918-932 | After pbuf_dechain and the pbuf_free in it, all `tot_len` are right if and only if nothing points to the pbuf or nothing with bytes follows it. |
| PbufRefs.DechainedBytes | lwip/src/core/pbuf.c:918-932 | After pbuf_dechain and the pbuf_free in it the pbuf stands alone with its bytes; every other that stays has its bytes and its next one, and with right totals its total. |
| PbufRefs.ReallocTotals | lwip/src/core/pbuf.c:416-460 | After pbuf_realloc and the pbuf_free in it, all `tot_len` are right if and only if no other chain runs into the part kept. |
| PbufRefs.ReallocatedBytes | lwip/src/core/pbuf.c:416-460 | After pbuf_realloc the chain has exactly the new length in bytes, and its total says so. |
| PbufRefs.HeaderTotals | lwip/src/core/pbuf.c:673-691 | After pbuf_free_header all `tot_len` are right if and only if every pbuf that was passed over went or had nothing with bytes behind it, and no other chain runs into the one that loses bytes. |
| PbufRefs.HeaderFreedBytes | lwip/src/core/pbuf.c:673-691 | After pbuf_free_header the chain that is left has `size` bytes less. |
| PbufRefs.FreedTotals | lwip/src/core/pbuf.c:753-800 | Freeing keeps the `tot_len` of the pbufs that stay right. |
| PbufRefs.TotalIsAll | lwip/src/include/lwip/pbuf.h:197-203 | With all `tot_len` right, that of a pbuf is the number of bytes of its chain. |
| PbufRefs.FullButLast | lwip/src/core/pbuf.c:253-271 | In a chain from the pool every pbuf but the last is full: the first after the room for headers, the others from their beginning. |
| PbufRefs.Pbufs.Free | lwip/src/core/pbuf.c:726-802 | pbuf_free drops one reference: exactly the leading pbufs that hold their last reference return to the pool, and the count returned is theirs modulo 256. |
| PbufRefs.Pbufs.Ref | lwip/src/core/pbuf.c:830-838 | pbuf_ref adds one holder and keeps all counts exact. |
| PbufRefs.Pbufs.Cat | lwip/src/core/pbuf.c:854-877 | The caller's reference to the tail becomes the link; counts stay exact, all totals on the way rise modulo 65536, the chain is the concatenation; the assertion on the last total fires only after another one has, or after pbuf_free_header has cut off a pbuf that stays. |
| PbufRefs.Pbufs.Chain | lwip/src/core/pbuf.c:896-903 | As pbuf_cat, but the caller keeps its reference. |
| PbufRefs.Pbufs.Dechain | lwip/src/core/pbuf.c:913-942 | Exact counts and contents for any totals, and exactly when an assertion on them fires; when all totals stay right; the pointer returned is live if and only if no pbuf went, which the u8_t count hides when a multiple of 256 went. |
| PbufRefs.Pbufs.Realloc | lwip/src/core/pbuf.c:401-462 | The pbuf in which the new length ends becomes the last, and the reference to the rest is dropped as by pbuf_free, for any totals, unless the chain has fewer bytes than the new length: then, and only then, the assertion at line 431 fires; never with right totals. When all totals stay right. |
| PbufRefs.Pbufs.FreeHeader | lwip/src/core/pbuf.c:673-691 | For shared chains: which pbuf the header ends in, exact counts, which leading pbufs return to the pool and which stay cut off, and exactly when all totals stay right. |
| PbufRefs.Pbufs.AllocPool | lwip/src/core/pbuf.c:235-272 | A chain of exactly as many pool buffers as the length needs, each full but the last, with right totals, or NULL and everything as before exactly when the pool has too few. |
| PbufExamples.CatSpoilsTotals | lwip/src/core/pbuf.c:854-877 | Two heads share a tail; pbuf_cat on one makes the total of the other wrong. |
| PbufExamples.DechainSpoilsTotals | lwip/src/core/pbuf.c:913-942 | pbuf_dechain on the middle of three makes the total of the first wrong. |
| PbufExamples.ReallocSpoilsTotals | lwip/src/core/pbuf.c:401-462 | pbuf_realloc on a shared tail makes the total of the pbuf before it wrong. |
| PbufExamples.ReallocRunsOff | lwip/src/core/pbuf.c:424-432 | After that, pbuf_realloc on the other chain steps off its end: the assertion at line 431 fires. |
| PbufExamples.DechainReturnsDead | lwip/src/core/pbuf.c:931-941 | pbuf_dechain before a tail of 256 pbufs that goes with it returns a pointer to a pbuf that is gone. |
| PbufExamples.FreeHeaderSpoilsTotals | lwip/src/core/pbuf.c:673-691 | pbuf_free_header on two pbufs, the first held twice, leaves the first alone with the total of both. |
| PbufExamples.CatAfterFreeHeader | lwip/src/core/pbuf.c:866-869 | After that, pbuf_cat to the first fires the assertion at line 868. |
| PbufChain.TotalStep | lwip/src/include/lwip/pbuf.h:197-203 | On every chain kept here, `tot_len` is `len` plus the `tot_len` of the next pbuf. |
| PbufChain.Skip | lwip/src/core/pbuf.c:1182-1197 | The pbuf and offset where a byte lies, or NULL exactly beyond the end. |
| PbufChain.CopyPartial | lwip/src/core/pbuf.c:1057-1088 | Exactly the bytes of the chain from `offset` on, at most `len`. |
| PbufChain.MemCmp | lwip/src/core/pbuf.c:1464-1492 | 0xFFFF for a short chain, zero for equal bytes, otherwise one more than the first difference. |
| PbufChain.ComparesMeans | lwip/src/core/pbuf.c:1464-1492 | A result of 0 means equal bytes, any other the first difference. |
| PbufChain.MemFind | lwip/src/core/pbuf.c:1507-1520 | The first occurrence at or behind the start, or 0xFFFF when there is none below it. |
| PbufChain.ShrunkIsPrefix | lwip/src/core/pbuf.c:416-460 | The shortened chain holds the prefix, with all totals right. |
| PbufChain.HideDropsBytes | lwip/src/core/pbuf.c:585-616 | Hiding a header drops the first bytes and keeps the totals right. |
| PbufChain.RevealAddsBytes | lwip/src/core/pbuf.c:476-530 | Revealing a header puts the bytes in front of the payload back, with right totals. |
| PbufChain.RevealUndoesHide | lwip/src/core/pbuf.c:476-616 | Hiding a header and revealing it again restores the chain. |
| PbufChain.CatJoins | lwip/src/core/pbuf.c:860-874 | Joined chains hold the concatenation, with all totals right. |
| PbufChain.QueueTestExact | lwip/src/core/pbuf.c:1030-1039 | On a single packet the test for packet queues holds for some pbuf if and only if the packet ends in an empty pbuf. |
| PbufChain.QueuedAt | lwip/src/core/pbuf.c:1030-1039 | It holds exactly for the pbufs from the last one with bytes on, but for the very last. |
| PbufChain.RoundStops | lwip/src/core/pbuf.c:1007-1041 | A round of the copy meets such a pbuf only if the lengths of the chain say so beforehand, and a copy that ends was not to meet one. |
| PbufChain.WholeCopyStops | lwip/src/core/pbuf.c:958-966 | The condition for pbuf_copy in terms of the two packets. |
| PbufChain.Chain.Realloc | lwip/src/core/pbuf.c:401-462 | The chain becomes its prefix, or stays as it is. |
| PbufChain.Chain.FreeHeader | lwip/src/core/pbuf.c:673-691 | The chain becomes its suffix; totals stay right. |
| PbufChain.Chain.RemoveHeader | lwip/src/core/pbuf.c:585-616 | Exactly when it fails, and the bytes dropped when it does not. |
| PbufChain.Chain.AddHeader | lwip/src/core/pbuf.c:476-530 | Exactly when it fails, for payloads that follow their struct and for external ones, forced or not, and the bytes revealed when it does not. |
| PbufChain.Chain.RemoveThenAdd | lwip/src/core/pbuf.c:476-616 | A header taken off can be put back, and the packet is as before, except exactly by the form that is not forced in front of an external payload. |
| PbufChain.Chain.Cat | lwip/src/core/pbuf.c:854-877 | The chain becomes the concatenation; NULL on either side changes nothing. |
| PbufChain.Chain.Take | lwip/src/core/pbuf.c:1226-1257 | The first bytes are overwritten, or the error and no change. |
| PbufChain.Chain.TakeAt | lwip/src/core/pbuf.c:1270-1293 | The bytes from `offset` on are overwritten, or the error and no change. |
| PbufChain.Chain.CopyFrom | lwip/src/core/pbuf.c:985-1043 | The bytes of one chain over those of another, however both are split; the argument error exactly for lengths that do not fit; the queue error exactly where the lengths of a chain that ends in empty pbufs make the copy meet the test, with a prefix copied then. |
| PbufChain.Chain.Copy | lwip/src/core/pbuf.c:958-966 | The whole of one packet over the beginning of another, and exactly when it is refused as a packet queue. |
| PbufChain.CopyEmptyEnd | lwip/src/core/pbuf.c:1030-1039 | Into two pbufs of one byte, one byte and an empty pbuf are copied; two bytes and an empty pbuf are refused. |
| PbufChain.Chain.TakeThenCopy | lwip/src/core/pbuf.c:1057-1293 | What pbuf_take_at wrote, pbuf_copy_partial reads back, and every other byte is unchanged, also when it refuses. |
| Timeouts.LessExact | lwip/src/core/timeouts.c:70-73 | The wrapped comparison is the order of absolute times that are less than 2^31 apart. |
| Timeouts.LessOnlyIfNear | lwip/src/core/timeouts.c:70-73 | Within one turn of the clock it is right if and only if they are near. |
| Timeouts.InsertSorted | lwip/src/core/timeouts.c:205-220 | Inserting behind all that are due no later keeps the list sorted, first-in first-out among equals. |
| Timeouts.FewerRounds | lwip/src/core/timeouts.c:243-260 | A cyclic timer that fired can fire fewer times again in the same check. |
| Timeouts.CheckRound | lwip/src/core/timeouts.c:358-395 | A round of the check keeps: fired and still to fire make at most two for each timer; none is lost; the number of rounds left falls. |
| Timeouts.ExactlyDueFired | lwip/src/core/timeouts.c:358-395 | When a check is over, exactly the timers that were due at its start have fired. |
| Timeouts.Timeouts.TimeoutAbs | lwip/src/core/timeouts.c:183-221 | The new timer lies behind all due no later and before all due later; the list stays sorted; it is dropped only when the pool is empty. |
| Timeouts.Timeouts.Timeout | lwip/src/core/timeouts.c:290-306 | The same for a time relative to now. |
| Timeouts.Timeouts.Untimeout | lwip/src/core/timeouts.c:317-341 | Exactly the first matching timer goes; without one nothing changes. |
| Timeouts.Timeouts.FireNext | lwip/src/core/timeouts.c:358-391 | The timer that fires comes first of all pending ones; with near times it is due, and none fires if and only if none is due; within one turn of the clock the first timer is judged right only if it is near. |
| Timeouts.Timeouts.Restart | lwip/src/core/timeouts.c:404-421 | Whatever time has passed, the first timer is due now and all others as far behind it as before. |
| Timeouts.Timeouts.SleepTime | lwip/src/core/timeouts.c:426-443 | The sleep time is the exact time to the first due timer, 0 when overdue, and never passes any timer. |
| Timeouts.Timeouts.CyclicTimer | lwip/src/core/timeouts.c:232-261 | A cyclic timer is due one interval after its last due time, and one interval from now exactly when that has passed. |
| Timeouts.Timeouts.CyclicRound | lwip/src/core/timeouts.c:232-261 | The timer that fires first comes back one interval after the time it was due, or one interval from now if that has passed when its handler is done. |
| Timeouts.SteadyRound | lwip/src/core/timeouts.c:243-258 | Each round keeps: a timer that was never overloaded is due as many intervals after its first due time as it has fired; an overloaded one was more than an interval late. |
| Timeouts.Timeouts.CheckCyclic | lwip/src/core/timeouts.c:352-396 | With cyclic timers only the check ends, loses none, fires exactly those due at its start and each at most twice, and leaves none due; a timer that fired n times is due n intervals after its old due time, unless the clock came more than an interval late. |
| Timeouts.RunInsert | lwip/src/core/timeouts.c:358-391 | A timer started during a check, or a cyclic one put back, goes behind all that have fired. |
| Timeouts.ActedRun | lwip/src/core/timeouts.c:183-341 | Whatever a handler does to the list: what is pending comes behind all that have fired, and each timer pending at the start is still there, has fired, or was stopped. |
| Timeouts.Timeouts.Check | lwip/src/core/timeouts.c:352-396 | With handlers that start, put back and stop timers as they like, a check does exactly what it would do on absolute times. None that is due at the start stays; all that fire are due and fire in the order of their due times, first-in first-out among equals; each that was pending and due fires unless a handler stopped it. |
| Timeouts.OverdueUnnoticed | lwip/src/core/timeouts.c:372-374 | A timer that is overdue by 2^31 ms does not fire. |
| Memp.BackForever | lwip/src/core/memp.c:100-116 | A list that comes back to an element never ends. |
| Memp.Pigeonhole | lwip/src/core/memp.c:100-116 | A list that does not end comes back within as many steps as there are elements. |
| Memp.Meeting | lwip/src/core/memp.c:105-112 | On every shape there is a round at which the slow pointer is at the end or the fast one meets it. |
| Memp.Sanity | lwip/src/core/memp.c:100-116 | memp_sanity ends on every finite shape and is 1 if and only if the list has no cycle, whatever elements outside the list hold. |
| Memp.PushEnds | lwip/src/core/memp.c:385-390 | After an element was put in front, the list has no cycle if and only if it was not in it before. |
| Memp.Pool.constructor | lwip/src/core/memp.c:175-208 | All elements are in the free list once, the last one first; none is handed out. |
| Memp.Pool.Malloc | lwip/src/core/memp.c:245-290 | The first free element is handed out, NULL exactly when there is none; every element stays either free once or handed out. |
| Memp.Pool.Overwrite | lwip/src/core/memp.c:245-290 | Whatever the owner writes over the link of an element, the pool stays intact. |
| Memp.Pool.Free | lwip/src/core/memp.c:359-394 | The element is free again, the free list has no cycle or duplicate, and the sanity check passes. |
| Memp.Pool.DoubleFree | lwip/src/core/memp.c:385-390 | The sanity check reports an element that was free already. |
| Dns.BoundIs | lwip/src/core/dns.c:1090-1121 | The bound is DNS_MAX_SERVERS * (1 + R(R-1)/2) ticks for R retries. |
| Dns.NextAskMeasure | lwip/src/core/dns.c:1090-1121 | Waiting, retrying or changing the server each take exactly one tick from the time left. |
| Dns.AskedInTurn | lwip/src/core/dns.c:1066-1137 | Without an answer, each server up to the first without an address is asked in its turn for exactly 1 + R(R-1)/2 ticks, and the entry is given up after the last of them. |
| Dns.AllAsked | lwip/src/core/dns.c:1066-1137 | With an address for every server the entry is asked for exactly as many ticks as the bound, and every server is asked. |
| Dns.AccountCall | lwip/src/core/dns.c:978-985 | Calling one waiting request keeps every request waiting in one slot or called once. |
| Dns.AccountAdd | lwip/src/core/dns.c:1490-1505 | So does accepting one. |
| Dns.SameNameIs | lwip/src/core/def.c:186-215 | Two names are the same if and only if they differ in nothing but the case of letters. |
| Dns.AgeIs | lwip/src/core/dns.c:1445-1460 | The u8_t difference is the number of entries started since, modulo 256. |
| Dns.OldestIs | lwip/src/core/dns.c:1438-1467 | As long as every completed entry was started fewer than 256 ago, the one with the largest difference was started first. |
| Dns.OldestForgotten | lwip/src/core/dns.c:1445-1460 | Of two completed entries, 266 and 66 starts old, the younger counts as the older. |
| Dns.Resolver.CallFound | lwip/src/core/dns.c:961-1014 | Exactly the requests that wait for the entry are called, each once. |
| Dns.Resolver.CreateTxid | lwip/src/core/dns.c:1017-1037 | The number chosen is in use by no entry that is asked for. |
| Dns.Resolver.TickAsking | lwip/src/core/dns.c:1089-1121 | The entry is given up exactly when its server, or after the last retry the next one, has no address or does not exist; otherwise it waits, retries or changes server, and its requests go on waiting. |
| Dns.Resolver.CheckEntry | lwip/src/core/dns.c:1066-1137 | A tick of one entry keeps the invariant and takes exactly one from the time left, or gives the entry up exactly in the stated cases; after the last retry it asks the next server exactly if there is one with an address. |
| Dns.Resolver.CheckEntries | lwip/src/core/dns.c:1142-1150 | A tick of the timer keeps: distinct transaction numbers, every request waits within its bound or was called once. Every entry has its tick, and a request goes on waiting exactly if its entry is still asked for. |
| Dns.Resolver.Ticks | lwip/src/core/dns.c:1142-1150 | Any number of ticks with nothing in between is such a sequence of tables. |
| Dns.Resolver.CorrectResponse | lwip/src/core/dns.c:1155-1183 | The entry is cached with its capped time to live, or dropped for zero, and nobody waits for it any longer. |
| Dns.Resolver.Receive | lwip/src/core/dns.c:1211-1381 | Whatever is found in a packet, the invariant holds; what each finding does to the one entry with its number, and that all others and their requests stay. After an error the next server is asked exactly if there is one with an address. |
| Dns.Resolver.FindEntry | lwip/src/core/dns.c:1438-1467 | An unused entry, or else the completed one that was started first as long as all were started fewer than 256 ago; none only when there is none. |
| Dns.Resolver.Enqueue | lwip/src/core/dns.c:1394-1525 | The request is refused exactly when there is no room or no port, and then nothing waits or is called; otherwise it waits for the entry that asks for the same name, or, if none does, for one that is unused or the oldest completed and now asks the first server. All others go on waiting. |
| Dns.Resolver.Deadline | lwip/src/core/dns.c:1066-1137 | Every accepted request has been called once the bound has passed, and no request is ever called twice. |
| DnsName.RoundTrip | lwip/src/core/dns.c:807-828 | Read as RFC 1035 says, the encoding has exactly the labels of the name. |
| DnsName.EncodeName | lwip/src/core/dns.c:796-828 | The encoder fills the strlen + 2 bytes allocated for the name exactly with the encoding. |
| DnsName.CompareName | lwip/src/core/dns.c:669-717 | dns_compare_name for every packet and every memory behind the name, as the label-by-label walk. |
| DnsName.ComparedIsPlain | lwip/src/core/dns.c:669-717 | A name that the comparison accepts has no pointer in it and ends within the packet. |
| DnsName.SkipName | lwip/src/core/dns.c:727-758 | dns_skip_name for every packet, as the label-by-label walk. |
| DnsName.CompareFinds | lwip/src/core/dns.c:669-717 | Over the encoding of the same name the comparison ends right behind it if and only if no label is longer than 191 bytes and none behind a dot is empty. |
| DnsName.SkipFinds | lwip/src/core/dns.c:727-758 | So does skipping. |
| DnsName.EncodedNameFound | lwip/src/core/dns.c:669-758 | Both together, on what the encoder writes. |
| DnsName.ShortLabelsReadable | lwip/src/core/dns.c:796-828 | Names with labels of 1 to 63 bytes meet that condition. |
| DnsName.EmptyLabelUnreadable | lwip/src/core/dns.c:669-758 | A name with an empty label in the middle does not. |
| DnsName.CompareAccepts | lwip/src/core/dns.c:669-717 | Over the encoding of any readable name, the comparison accepts it if and only if it agrees with the name asked for, but for case, at every place except its dots. |
| DnsName.OtherNameAccepted | lwip/src/core/dns.c:669-717 | A reply about a name is taken for one about a longer name. |
| DnsName.NameTakesTwo | lwip/src/core/dns.c:727-758 | dns_skip_name never ends behind a single byte, so that it skips no name of the root. |
| DnsMessage.Answers | lwip/src/core/dns.c:1287-1350 | The loop over the answers ends for every packet, reads nothing beyond it, and finds what the record-by-record reading finds. |
| DnsMessage.Judge | lwip/src/core/dns.c:1219-1350 | The checks of dns_recv in their order, for every packet and name. |
| DnsMessage.SkipField | lwip/src/core/dns.c:727-758 | dns_skip_name ends behind every name field, with labels, a pointer, or labels and a pointer. |
| DnsMessage.EncodingIsField | lwip/src/core/dns.c:796-828 | Every encoded readable name is such a field. |
| DnsMessage.MeaningSays | lwip/src/core/dns.c:1300-1346 | The meaning of a list of records is its first address of the class asked for, with its time to live, and that there is none only if there is none. |
| DnsMessage.NothingElse | lwip/src/core/dns.c:1219-1266 | A packet that is not ignored is a response from the server asked, with exactly one question, and that is the question asked; it counts as a failure only with an error code and as an answer only without. |
| DnsMessage.RecordsUnderstood | lwip/src/core/dns.c:1287-1350 | In any encoded list of records the loop finds what the records mean: the first address and its time to live. |
| DnsMessage.QuestionUnderstood | lwip/src/core/dns.c:1245-1266 | In a reply that repeats the question, dns_recv finds the name and the question asked, and goes on right behind them. |
| DnsMessage.ReplyUnderstood | lwip/src/core/dns.c:1219-1350 | From every reply to the query for a readable name, dns_recv reads exactly what its records mean. |
| DnsMessage.ErrorUnderstood | lwip/src/core/dns.c:1269-1284 | A reply with an error code counts as a failure, whatever records it has. |
| DnsMessage.Receive | lwip/src/core/dns.c:1188-1381 | For every packet: the one entry with its number changes, and only if it came from the address of the server asked; a reply completes the requests that wait for the entry, and caches or drops it as its records mean; a reply with an error code makes it ask the next server if there is one with an address. |
| NetconnWrite.PieceAt | lwip/src/api/api_msg.c:1681-1682 | A piece of a vector is the piece of the concatenated vectors at the position that (vector, offset) denotes. |
| NetconnWrite.Write.constructor | lwip/src/api/api_msg.c:1817-1833 | A new write stands at position 0. |
| NetconnWrite.Write.Advance | lwip/src/api/api_msg.c:1717-1729 | Accepted bytes extend the prefix, and (`vector`, `vector_off`) stays the position `offset`. |
| NetconnWrite.Write.Round | lwip/src/api/api_msg.c:1680-1730 | How much is offered; what is accepted extends the prefix; errors move nothing; a round that does not go on has finished or used up the send buffer; and exactly when a round goes on without having moved. |
| NetconnWrite.Write.Finish | lwip/src/api/api_msg.c:1747-1800 | When a write ends and with which error. |
| NetconnWrite.Write.WriteMore | lwip/src/api/api_msg.c:1644-1808 | Over any number of calls, buffer sizes and failures, the bytes accepted are the first `offset` bytes of the vectors; while the write goes on the assertions at the beginning of the next call hold; a blocking write ends without error only when all are sent, would-block means none were, and with enough room one call sends all. A call ends if the send buffer always has room, and does not while it is full before a rest that is a multiple of 65536 bytes. |
| NetconnWrite.FullBuffer | lwip/src/api/api_msg.c:1680-1730 | 65536 bytes and more behind them are offered again and again as long as the send buffer is full. |
| RecvTcp.Socket.TcpRecved | lwip/src/api/api_msg.c:1593-1609 | The pieces reported to TCP add up to the length. |
| RecvTcp.Socket.Fetch | lwip/src/api/sockets.c:980-1005 | A chain handed over becomes the unread rest. |
| RecvTcp.Socket.Consume | lwip/src/api/sockets.c:1029-1044 | The bytes taken leave lastdata exactly the rest of the chain. |
| RecvTcp.Socket.Round | lwip/src/api/sockets.c:971-1048 | One round delivers the next bytes of lastdata or of the next chain, in order; a peek leaves them. |
| RecvTcp.Socket.Peek | lwip/src/api/sockets.c:971-1048 | A peek returns the next unread bytes and leaves the stream as it is. |
| RecvTcp.Socket.Recv | lwip/src/api/sockets.c:958-1056 | Reads concatenate to a prefix of what was received; a short read leaves nothing unread; a read without data is 0 exactly at the end of the stream and -1 for an error; the window update is what was delivered; peeks change nothing. |

## Left out

- Heap.Heap.Trim: a pointer into the heap must be one that `mem_malloc` gave and that is still allocated; the source does not check it.
- Heap.Heap.Free: what becomes of the heap after a pointer passed the checks because its header place was written over.
- Heap.Heap.DoubleFree: the first free must not be such a one.
- Heap contents: a header is one array cell at its address, and memory holds what is read there as a header; single bytes are not modelled, nor are MEM_OVERFLOW_CHECK guard bytes, `mem_calloc`, and the libc and pool variants of mem.c.
- Checksum.StandardChksum1: buffers up to 0x20002 bytes, where the 32-bit accumulator cannot overflow.
- Checksum.StandardChksum2: buffers up to 0x20002 bytes, for the same reason.
- Checksum: big-endian hosts, the IPv6 pseudo header and checksum-on-copy.
- PbufRefs.Pbufs.Ref: the reference count is below 255, the limit of its u8_t; so in pbuf_chain.
- PbufRefs.Pbufs.Realloc: the source frees what follows and then clears the `next` pointer; the model clears it first, with the same result. Where the assertion fires, the source goes on through NULL; the model stops.
- PbufRefs: PBUF_REF, PBUF_ROM, PBUF_RAM and custom pbufs are not told apart; a pbuf returns to one pool.
- PbufChain.Chain.CopyFrom: the offset must lie in the first destination pbuf; beyond it the source subtracts in size_t without skipping pbufs.
- PbufChain.Chain.Cat: the sum of both lengths fits in a u16_t.
- PbufChain.Chain.AddHeader: in front of an external payload a forced call reveals bytes that its caller knows to be there; the source checks nothing.
- PbufChain.Chain: chains here are not shared; sharing is in PbufRefs.
- Timeouts.Timeouts.TimeoutAbs: no timer is overdue by more than 2^30 ms and none lies more than 2^31 - 1 ms ahead.
- Timeouts.Timeouts.CheckCyclic: handlers do not change the list; the same bound holds at every clock reading of the call.
- Timeouts.Timeouts.Check: that a check ends is not claimed for handlers that start timers of 0 ms for ever; the same bound on clock readings.
- Memp.Pool: element contents, overflow checks and the variant on the heap.
- Memp.Pool.Free: the element must be handed out; a second free is DoubleFree.
- SocketTable: `lwip_poll`, and the assertion in `sock_inc_used_locked` about a slot whose `fd_free_pending` is still set after it was freed.
- Select: the variant without core locking, `lwip_poll`, and readiness through `lastdata`, which only makes a scan find more.
- SelectCalls.Layer.DoSelect: the check of `maxfdp1`, failed allocations before the wait, and other threads between two sockets of the first and of the last scan; what others do in between is a list of events.
- SelectCalls.Layer.EventCallback: events for a connection that has no descriptor yet, which are counted in the connection.
- RecvTcp.Socket.Recv: how the connection hands over data, errors and the end of the stream is input.
- NetconnWrite.Write.WriteMore: send timeouts and the events for select.
- Dns.Resolver.Enqueue: the random numbers must at some point give one that is not in use.
- Dns.Resolver.CallFound: callbacks do not call the resolver again.
- DnsMessage.ReplyUnderstood: the owner of a record is not the root, whose name `dns_skip_name` does not skip.
- Dns: IPv6, multicast names, the local host list, the lookup of cached names and the sharing of source ports.
- TCP, UDP, IP, ARP, DHCP, drivers and start-up code, socket options, altcp, netif and bridge code.
