# A verified model of Femail and the runtime it vendors

Femail is a small SMTP and HTTP server that vendors WAMR, a WebAssembly runtime. This
project models the parts of both whose correctness is not local to one function, and proves
what holds of them for every input, every run or every interleaving:

- **Shared heaps** (`SharedHeap`, `HeapRuntime`, `AttachOverflow`, `AddressTranslation`,
  `LostBlock`, `SharedHeapRuntime`): heaps are created, chained into one range of app addresses that grows
  downwards, attached to module instances, looked up through a per-instance cache, detached and unchained. The
  state machine of all nine operations has one invariant; from it follow the exact answer of
  every cached lookup, the tiling of the address range, the frozen chain under an attached
  instance and the bijection between app offsets and native addresses. `Runtime` is the code
  itself, with its loops, cache tests and counters, proved to take exactly the steps of the
  state machine.
- **Linear memory** (`LinearMemory`): the four ways of inserting the app heap at
  instantiation, with the 32-bit wrap-arounds, and every sequence of growths.
- **Atomic wait and notify** (`WaitNotify`, `WakeUp`, `WaitCalls`): a step system over any number of threads, one
  lock, a map from addresses to wait lists, and nodes and wait infos that are allocated and freed.
- **Interruptible blocking operations** (`BlockingOp`): single flag reads and writes of one
  target and any number of interrupting threads, in any order.
- **SMTP sessions** (`Smtp`, `SmtpSession`, `SmtpOrder`): the handler of one read, the DATA
  body over any split into reads, and the order of accepted commands over whole sessions.
- **The master service** (`ConnQueue`, `Master`, `MasterService`, `ServedSessions`): the ring
  queue, accepting, serving round robin, and the loop around them.
- **Profiles** (`ValueProfile`, `ValueProfiler`, `ByteSpans`, `ProfFormat`, `ProfSize`,
  `ProfWriter`, `ProfReader`, `ProfParser`): the bounded list of counted values with eviction,
  the two-pass dump into a caller's buffer, and a parser that takes the dump apart again.
- **Aligned custom sections** (`Leb128`, `CustomSection`): LEB128, the padding search and the
  section it builds, with a parser.

`Bits` holds wrap-around and bit operations. Each state machine is a function from state and
input to state. Code that updates things in place is a method or a class whose contract ties
it to such a function; what the system promises is then proved about the functions, over all
runs. What the outside supplies (allocators, the network, the kernel, time, TLS) is an input.

## Where the code falls short of what one would expect

These are properties that turned out false; each is stated with the exact condition, and where
that helps with an input or a run at which it fails.

- `attached_count` is a `uint8` (`wamr/core/iwasm/interpreter/wasm_runtime.h:110`). The 256th
  attachment of a heap wraps it to zero, and an attached heap counts as free:
  `HeapRuntime.AttachExact`, with a run in `AttachOverflow.CountWraps`.
- In a 64-bit memory `wasm_runtime_shared_heap_malloc` returns the start of the heap whatever
  block was allocated: `AddressTranslation.FreeUndoesMalloc`, with a run in `LostBlock.BlockLost`.
- Inserting the app heap computes pages in 32 bits. With a page above 3 GiB the computation can
  wrap and leave the heap outside the memory or without any bytes, and in a 64-bit memory the
  page counts themselves can wrap: `LinearMemory.LayoutExact` says exactly when, at the inputs
  `LinearMemory.OutsideInput`, `LinearMemory.LostInput` and `LinearMemory.WrappingInput`. Within
  4 GiB of declared memory a heap is never left outside and no count wraps, though it may still
  get no bytes: `LinearMemory.DeclaredFits`.
- The padding search tries twice as many candidates as the alignment; for powers of two that
  suffices on all inputs exactly up to 128: `CustomSection.PaddingExact`.
- LEB128 encodes zero as no byte at all: `Leb128.RoundTripExact`.
- A begin can succeed after an interrupt has returned, exactly if somebody clears TERMINATE
  in between, as the thread manager does: `BlockingOp.BeginNeedsClear`.
- MAIL may be accepted without any greeting, because DATA is not sequenced and a finished
  body counts as a greeting: `SmtpOrder.MailWithoutGreeting`, `SmtpOrder.SessionOrder`.
- The dump asserts fewer than 255 nodes per site, but lists reach 255:
  `ValueProfile.DumpAssertionExact`, `ValueProfile.FullSite`.
- A value's 64-bit count can overflow, and a hit keeps the list in order exactly if it does not:
  `ValueProfile.RecordExact`, with 2^64 hits of one value in `ValueProfile.OverflowInput`.
- Evicting relies on a node whose count is below the largest word. In a full list without one the
  code follows a null pointer (`wamr/core/iwasm/aot/aot_runtime.c:4756`), exactly on hits of a value
  that is not in the list: `ValueProfiler.Instrument`. As long as the hits of a site fit 64 bits
  there is such a node: `ValueProfiler.HasMinAlways`.
- A domain word of exactly 255 characters is accepted, and its terminator goes behind the 255
  bytes kept for it: `Smtp.TerminatorInside`, `Smtp.LongDomain`.
- The size of a dump is exact only if the counter sections match the records and the dump is
  below 4 GiB, and exactly then the writer's length test protects the buffer:
  `ProfSize.SizeExact`, `ProfSize.LengthTestExact`, `ProfSize.MissingCounters`.

## Model

| member | source | states |
|---|---|---|
| `SharedHeap.CreateKeeps` | wamr/core/iwasm/common/wasm_memory.c:165-248 | A new heap that ends at the top of both address ranges is a chain of its own and leaves every other chain and the list invariant as they were. |
| `SharedHeap.NewHeapExact` | wamr/core/iwasm/common/wasm_memory.c:165-248 | A heap is made if and only if the record and, without a buffer of the host, the memory are there, the size is not zero and lies within 256 bytes and 1 GiB when rounded up to system pages, and a buffer supplied has whole pages. It then has the requested size rounded up, lies in the buffer supplied or mapped, can allocate exactly if none was supplied, and ends at the top of both ranges. |
| `HeapRuntime.CreateExact` | wamr/core/iwasm/common/wasm_memory.c:165-248 | Creation adds exactly such a heap to the state if and only if the request can be met, and else changes nothing. |
| `SharedHeap.ChainExact` | wamr/core/iwasm/common/wasm_memory.c:251-303 | A chaining that passes the guards keeps the list invariant if and only if the two heaps differ and the head fits below the body in 32 bits. |
| `SharedHeap.ChainKeeps` | wamr/core/iwasm/common/wasm_memory.c:251-303 | The chain of the head becomes the head followed by the chain of the body; all other chains are unchanged; no chain gets a second allocator. |
| `SharedHeap.CanChainExact` | wamr/core/iwasm/common/wasm_memory.c:264-297 | The guards let two chains be joined if and only if nothing is attached to them, the first is a single heap, neither is part of a longer chain, and together they have at most one heap that can allocate. |
| `SharedHeap.UnchainUndoesChain` | wamr/core/iwasm/common/wasm_memory.c:299-333 | Taking the head off a chain undoes putting it there, field by field. |
| `SharedHeap.UnchainKeeps` | wamr/core/iwasm/common/wasm_memory.c:306-336 | Unchaining the head or the whole chain keeps the list invariant, every root and the chain of every other root. |
| `SharedHeap.UnchainFrame` | wamr/core/iwasm/common/wasm_memory.c:324-333 | Each heap taken off is a chain of its own afterwards, and every heap not taken off keeps its chain and its allocator count. |
| `SharedHeap.UnchainedChains` | wamr/core/iwasm/common/wasm_memory.c:324-333 | Unchaining the whole chain leaves each of its heaps a chain of its own; unchaining the head leaves the head alone and the rest of the chain together. |
| `SharedHeap.UnchainedFields` | wamr/core/iwasm/common/wasm_memory.c:324-333 | A heap left alone ends at the top of both ranges again, and no other heap changes. |
| `HeapRuntime.CanUnchainExact` | wamr/core/iwasm/common/wasm_memory.c:310-322 | A chain can be taken apart if and only if it has a second heap and no instance has it attached. |
| `SharedHeap.ChainOrder` | wamr/core/iwasm/common/wasm_memory.c:299-301 | Along a chain the app intervals follow each other upwards without overlap, in both address widths, so chains are acyclic. |
| `HeapRuntime.AttachExact` | wamr/core/iwasm/common/wasm_memory.c:464-512 | Attaching a root keeps the runtime invariant if and only if fewer than 255 instances are attached; at 255 the count becomes zero although 256 are attached. |
| `HeapRuntime.CanAttachExact` | wamr/core/iwasm/common/wasm_memory.c:469-507 | A chain can be attached if and only if the instance has a memory and no heap, and its memory shares no offset with any heap of the chain. |
| `HeapRuntime.DetachUndoesAttach` | wamr/core/iwasm/common/wasm_memory.c:464-573 | Attaching gives the instance the chain; detaching it again restores every heap, counters included, and resets the cache. |
| `HeapRuntime.GrowExact` | wamr/core/iwasm/common/wasm_memory.c:1583-1604 | Growth through the module succeeds if and only if it stays within the maximum, the grown memory shares no offset with a heap the instance can reach, and the platform plays along. |
| `AttachOverflow.CountWraps` | wamr/core/iwasm/common/wasm_memory.c:464-512 | A run of creates, a chaining and 255 attachments after which one more attachment, which the code allows, makes the count zero, so that the unchain guard passes and the chain under 256 attached instances changes. |
| `HeapRuntime.StepKeepsInv` | wamr/core/iwasm/common/wasm_memory.c:165-692 | Create, instantiate, chain, unchain, attach, detach, both lookups and growth keep the whole invariant: links, one allocator per chain, exact attach counts, roots only attached, memory below the heap, cache describing a heap of the attached chain. |
| `HeapRuntime.Tiles` | wamr/core/iwasm/common/wasm_memory.c:186-188 | Every offset from the start of a chain's root up to 2^32 or 2^64 lies in exactly one heap of the chain. |
| `HeapRuntime.ContainsOnce` | wamr/core/iwasm/common/wasm_memory.c:644-653 | At most one heap of a chain holds a given non-empty range. |
| `HeapRuntime.StraddleRefused` | wamr/core/iwasm/common/wasm_memory.c:610-657 | A range whose first and last byte lie in different heaps of a chain is contained in none of them. |
| `HeapRuntime.AttachedFrozen` | wamr/core/iwasm/common/wasm_memory.c:264-269 | No operation changes the chain, the offsets, the sizes or the buffers under an attached instance. |
| `HeapRuntime.LookupInEveryRun` | wamr/core/iwasm/common/wasm_memory.c:610-657 | In every state of every run the lookup succeeds exactly if one heap of the attached chain holds the whole range (0 bytes as 1), whatever the cache held, and then the cache describes exactly that heap; otherwise nothing changes. |
| `HeapRuntime.NativeInEveryRun` | wamr/core/iwasm/common/wasm_memory.c:659-692 | In every state of every run the native lookup succeeds exactly if the buffer of one heap of the attached chain holds the whole, non-empty range, and then the cache describes such a heap. |
| `AddressTranslation.CountsAndRoom` | wamr/core/iwasm/common/wasm_memory.c:1589-1604 | In every state of every run each attach count equals the number of attached instances, and an instance's linear memory ends below every heap it can reach. |
| `AddressTranslation.AdjustedBase` | wamr/core/iwasm/common/wasm_memory.c:414-462 | With 64-bit wrap-around, offset plus adjusted base is the byte's address and address minus adjusted base is the offset. |
| `AddressTranslation.RoundTrip` | wamr/core/iwasm/common/wasm_memory.c:1172-1266 | Every valid offset has a non-null native address, and translating that back gives the offset, whatever lookups changed the cache in between. |
| `AddressTranslation.Injective` | wamr/core/iwasm/common/wasm_memory.c:1172-1216 | Distinct valid offsets have distinct native addresses. |
| `AddressTranslation.NullExactly` | wamr/core/iwasm/common/wasm_memory.c:1172-1216 | Translation fails exactly for offsets that are neither in the linear memory nor in an attached heap. |
| `AddressTranslation.BackTrip` | wamr/core/iwasm/common/wasm_memory.c:1218-1266 | Every native address inside the memory or an attached heap translates to a valid offset, and that back to the address. |
| `AddressTranslation.OutsideToZero` | wamr/core/iwasm/common/wasm_memory.c:1218-1266 | An address in neither the memory nor a heap translates to 0. |
| `AddressTranslation.OneAllocator` | wamr/core/iwasm/common/wasm_memory.c:706-708 | Two heaps of one chain that can allocate are the same heap, so malloc and free select the same one. |
| `AddressTranslation.FreeUndoesMalloc` | wamr/core/iwasm/common/wasm_memory.c:694-764 | The offset malloc returns is freed as, and translates to, the block it allocated if and only if the memory is 32-bit or the block is at the heap's base. |
| `LostBlock.BlockLost` | wamr/core/iwasm/common/wasm_memory.c:694-764 | A run of a create with an allocator, a 64-bit memory and an attachment, after which for every block behind the heap's base the offset malloc returns translates to another address, and free passes the heap's base to the allocator. |
| `AddressTranslation.FreeInside` | wamr/core/iwasm/common/wasm_memory.c:743-760 | Free accepts an offset exactly if it lies in the allocating heap or one behind it, and passes an address of the heap's own buffer to the allocator exactly in the first case. |
| `SharedHeapRuntime.FindAppHeap` | wamr/core/iwasm/common/wasm_memory.c:642-653 | The loop along the chain returns the first heap that holds the range, or none. |
| `SharedHeapRuntime.FindNativeHeap` | wamr/core/iwasm/common/wasm_memory.c:670-688 | The native loop, which skips ends that wrap, returns the first heap whose buffer holds the range, or none. |
| `SharedHeapRuntime.ListAllowsChain` | wamr/core/iwasm/common/wasm_memory.c:270-285 | The scan of the global list accepts exactly if neither heap is a body of another and the head is not a head already. |
| `SharedHeapRuntime.AtMostOneHandle` | wamr/core/iwasm/common/wasm_memory.c:286-297 | The handle scan accepts exactly if the resulting chain has at most one allocator. |
| `SharedHeapRuntime.ResetChain` | wamr/core/iwasm/common/wasm_memory.c:324-333 | The loop that takes heaps off the front leaves exactly the unchained list and stops at the heap it returns. |
| `SharedHeapRuntime.CacheHit` | wamr/core/iwasm/common/wasm_memory.c:621-631 | A range the cache accepts is one the plain walk finds, with the same cache afterwards. |
| `SharedHeapRuntime.EarlyStop` | wamr/core/iwasm/common/wasm_memory.c:633-640 | The test against the root's start rejects only ranges no heap of the chain holds. |
| `SharedHeapRuntime.EmptyCaches` | wamr/core/iwasm/common/wasm_memory.c:529-570 | The cache values of instances without a heap accept no range, not even the last byte. |
| `SharedHeapRuntime.Runtime.CreateSharedHeap` | wamr/core/iwasm/common/wasm_memory.c:165-248 | Takes exactly the create step, on every failure path none, and keeps the invariant. |
| `SharedHeapRuntime.Runtime.ChainSharedHeaps` | wamr/core/iwasm/common/wasm_memory.c:251-303 | Takes exactly the chain step or, when a guard refuses, none. |
| `SharedHeapRuntime.Runtime.UnchainSharedHeaps` | wamr/core/iwasm/common/wasm_memory.c:306-336 | Takes exactly the unchain step and returns the heap the rest of the chain starts with. |
| `SharedHeapRuntime.Runtime.AttachSharedHeap` | wamr/core/iwasm/common/wasm_memory.c:464-512 | Takes exactly the attach step and reports whether it was possible. |
| `SharedHeapRuntime.Runtime.DetachSharedHeap` | wamr/core/iwasm/common/wasm_memory.c:526-573 | Takes exactly the detach step. |
| `SharedHeapRuntime.Runtime.IsAppAddrInSharedHeap` | wamr/core/iwasm/common/wasm_memory.c:610-657 | The lookup with cache test and early stop gives the answer and the cache of the plain walk. |
| `SharedHeapRuntime.Runtime.IsNativeAddrInSharedHeap` | wamr/core/iwasm/common/wasm_memory.c:659-692 | The native lookup gives the answer of the specified walk and remembers the heap it found. |
| `SharedHeapRuntime.Runtime.EnlargeMemory` | wamr/core/iwasm/common/wasm_memory.c:1760-1777 | Growth through the module takes exactly the growth step, bounded by the attached heap. |
| `LinearMemory.InsertBeforeBase` | wamr/core/iwasm/aot/aot_runtime.c:1046-1077 | The statements, with their 32-bit page computation and the kilobyte kept free at a page end, add the specified pages and give the specified base. |
| `LinearMemory.BeforeBaseExact` | wamr/core/iwasm/aot/aot_runtime.c:1046-1077 | With those pages the heap lies inside the memory if and only if heap plus page is at most 2^32 plus the rest of the base's page, or the heap ends below the declared memory and the page added for a near end; a kilobyte is left above the new base if and only if the former holds or the heap ends in the declared memory. |
| `LinearMemory.AppendPages` | wamr/core/iwasm/aot/aot_runtime.c:1078-1086 | The statements, with their 32-bit page computation, give the specified pages and heap size. |
| `LinearMemory.AppendedExact` | wamr/core/iwasm/aot/aot_runtime.c:1078-1086 | The heap gets whole new pages less one kilobyte, at least its size less that kilobyte, if and only if heap plus page is at most 2^32; else it gets nothing. |
| `LinearMemory.PlanHeap` | wamr/core/iwasm/aot/aot_runtime.c:1038-1086 | The branches, with their wrapping computations, choose the specified page, offset, heap, added pages and base. |
| `LinearMemory.PlanExact` | wamr/core/iwasm/aot/aot_runtime.c:1038-1086 | That choice puts the heap inside the enlarged memory if and only if it is not a wrapped insertion before the base, and leaves it empty if and only if it is a wrapped appending. |
| `LinearMemory.InsertAppHeap` | wamr/core/iwasm/aot/aot_runtime.c:1009-1097 | For every page of at least 2 KB the source's steps give the specified layout or failure. |
| `LinearMemory.LayoutExact` | wamr/core/iwasm/aot/aot_runtime.c:1009-1097 | Insertion fails if and only if a heap is requested and the memory is full, the one fixed page cannot take it, or there would be too many pages. A layout fits, with pages within the maximum, if and only if the page counts do not wrap and the heap is not left outside; its heap is missing if and only if the appended pages wrap; only a memory that cannot grow changes its page size; and a rewritten base has room above it under an exact condition. |
| `LinearMemory.PlaceExact` | wamr/core/iwasm/aot/aot_runtime.c:1025-1097 | In every layout the heap begins at the end of the declared memory, so it shares no byte with it, or at `__heap_base` exactly if that is rewritten; the page is page plus heap for one fixed page, the heap for a memory that never has a page, and else the module's. |
| `LinearMemory.PagesExact` | wamr/core/iwasm/aot/aot_runtime.c:1087-1096 | While they do not wrap both page counts grow by the added pages, the maximum up to 65536 or 2^32 - 1. |
| `LinearMemory.AddedFew` | wamr/core/iwasm/aot/aot_runtime.c:1038-1086 | The added pages hold less than the heap and two pages, or in a memory without pages exactly the heap. |
| `LinearMemory.BaseClear` | wamr/core/iwasm/aot/aot_runtime.c:1061-1069 | A rewritten base is at least a kilobyte away from the end of its page and at most one above the heap. |
| `LinearMemory.Heap32Fits` | wamr/core/iwasm/aot/aot_runtime.c:1025-1097 | In a 32-bit memory every layout the insertion returns fits, if and only if the heap is not left outside. |
| `LinearMemory.DeclaredFits` | wamr/core/iwasm/aot/aot_runtime.c:1107-1108 | If the declared maximum is within 4 GiB, every layout fits and leaves a kilobyte above a rewritten base. |
| `LinearMemory.OutsideInput` | wamr/core/iwasm/aot/aot_runtime.c:1055-1057 | An input at which the heap lies outside the memory. |
| `LinearMemory.LostInput` | wamr/core/iwasm/aot/aot_runtime.c:1080-1085 | An input at which the heap gets no bytes. |
| `LinearMemory.WrappingInput` | wamr/core/iwasm/aot/aot_runtime.c:1087-1096 | A 64-bit input at which the maximum wraps to zero pages. |
| `LinearMemory.InstantiatedOk` | wamr/core/iwasm/aot/aot_runtime.c:1107-1138 | When the page is a multiple of the system page, instantiation yields consistent memory fields with the layout's pages and heap, in the size rounded up to system pages. |
| `LinearMemory.EnlargeMemoryInternal` | wamr/core/iwasm/common/wasm_memory.c:1535-1726 | The growth statement by statement, with every refusal in source order, is the specified growth. |
| `LinearMemory.GrowthExact` | wamr/core/iwasm/common/wasm_memory.c:1535-1726 | Growth succeeds if and only if nothing is added or the new page count is within the maximum, the new size below the attached heap, and the platform plays along; the memory then has that size, where it was or where it was moved. |
| `LinearMemory.EnlargeKeeps` | wamr/core/iwasm/common/wasm_memory.c:1535-1726 | A growth keeps the fields consistent and the heap's offset and length, succeeds exactly if not refused and not failing in migration, changes nothing on any other failure, and stays below the attached heap. |
| `LinearMemory.GrowthRun` | wamr/core/iwasm/common/wasm_memory.c:1535-1726 | Over every sequence of growths the end is data plus size, pages stay within the maximum, the memory never shrinks and the heap keeps its place. |
| `LinearMemory.InsertedGrows` | wamr/core/iwasm/aot/aot_runtime.c:1009-1138 | From insertion to growth: a layout whose page counts do not wrap and whose heap is not left outside instantiates to consistent memory fields, and after every sequence of growths they are consistent and the heap lies where it was inserted: at the end of the declared memory or at the rewritten base. |
| `WaitNotify.StepKeepsInv` | wamr/core/iwasm/common/wasm_shared_memory.c:176-247 | Every step of every thread keeps the lock, ownership, map, list and marking invariants. |
| `WaitNotify.LockFreeMap` | wamr/core/iwasm/common/wasm_shared_memory.c:356-416 | Over every run, whenever the lock is free, an address is mapped exactly if some thread waits on it, its list holds each waiter's node once and each node has exactly one owner, and no wait info is live outside the map. |
| `WaitNotify.NothingFreedEarly` | wamr/core/iwasm/common/wasm_shared_memory.c:356-416 | In every reachable state the info and node a thread's next step uses are live, and a node about to be removed is in its list, so the node-exists assertion holds. |
| `WaitNotify.ReturnCodes` | wamr/core/iwasm/common/wasm_shared_memory.c:402-418 | A wait that enqueued returned 0 if and only if a notify on its address had marked its node, else 2; zero returns never exceed the sum of notify results. |
| `WaitNotify.NotifyMarks` | wamr/core/iwasm/common/wasm_shared_memory.c:457-476 | A notify marks the newest waiters on its address up to its count, hence all of them if the count suffices, and nobody waiting elsewhere. |
| `WakeUp.NotifiedReturnZero` | wamr/core/iwasm/common/wasm_shared_memory.c:402-418 | In every continuation of every run a thread that a notify reaches, as one with a count of at least the list length does for all waiters on its address, returns 0 from that wait, or has not returned and is still marked. |
| `WakeUp.ElsewhereUnaffected` | wamr/core/iwasm/common/wasm_shared_memory.c:457-476 | A notify leaves the place, the mark and the return code of every thread waiting elsewhere as they were. |
| `WakeUp.WakesBounded` | wamr/core/iwasm/common/wasm_shared_memory.c:366-400 | In every run, from a call with timeout T >= 0 until it returns, its thread wakes up at most max(1, ceil(T/1s)) times. |
| `WakeUp.TimesOut` | wamr/core/iwasm/common/wasm_shared_memory.c:366-400 | In every run, a wait that is about to leave unmarked and was never found terminated has woken up exactly once per started second of its timeout in whole microseconds, and at least once. |
| `WaitNotify.IsWaitNodeExists` | wamr/core/iwasm/common/wasm_shared_memory.c:133-147 | The scan finds a node exactly if the list has it. |
| `WaitNotify.NotifyWaitList` | wamr/core/iwasm/common/wasm_shared_memory.c:149-174 | The loop marks the first nodes of the list up to the count and returns how many. |
| `WaitNotify.TimedWait` | wamr/core/iwasm/common/wasm_shared_memory.c:366-400 | For a timeout T the loop takes at most max(1, ceil(T/1s)) rounds, and uninterrupted rounds sum to exactly the timeout in whole microseconds. |
| `WaitCalls.WaitMismatch` | wamr/core/iwasm/common/wasm_shared_memory.c:327-337 | In every run a call of wait that finds another value returns 1 in its next steps and leaves map, lists and nodes as they were. |
| `WaitCalls.NoNodeReturns` | wamr/core/iwasm/common/wasm_shared_memory.c:339-354 | Without memory for a node it returns -1, leaving no trace. |
| `WaitCalls.NoInfoReturns` | wamr/core/iwasm/common/wasm_shared_memory.c:358-364 | Without memory for a wait info it frees the node and returns -1, leaving no trace. |
| `WaitCalls.WaitMatch` | wamr/core/iwasm/common/wasm_shared_memory.c:327-380 | In every run a call of wait that finds the expected value and memory has put a new node in front of the list of its address, and logged that, before it first gives up the lock. |
| `WaitCalls.StopReturns` | wamr/core/iwasm/common/wasm_shared_memory.c:371-418 | In every run a thread that wakes up terminated, timed out or marked takes its node out, logs its return, 0 exactly if marked and else 2, and frees the lock, before anybody else moves. |
| `WaitCalls.TestSleepsOn` | wamr/core/iwasm/common/wasm_shared_memory.c:366-400 | Otherwise it goes back to sleep with a second less to wait, and nothing else changes. |
| `WaitCalls.ForeverWaits` | wamr/core/iwasm/common/wasm_shared_memory.c:367-380 | In every run a wait with a negative timeout never leaves unless it is marked or its thread is found terminated. |
| `WaitCalls.ReturnsOnce` | wamr/core/iwasm/common/wasm_shared_memory.c:251-419 | In every run a call of wait that is over has logged exactly one return. |
| `WaitCalls.NotifyCall` | wamr/core/iwasm/common/wasm_shared_memory.c:457-476 | In every run a call of notify marks, in its next steps, exactly the first nodes of the list of its address up to its count, and changes nothing else. |
| `BlockingOp.RunKeepsInv` | wamr/core/iwasm/common/wasm_blocking_op.c:25-78 | Every interleaving of single flag accesses keeps the protocol invariant. |
| `BlockingOp.Safety` | wamr/core/iwasm/common/wasm_blocking_op.c:25-78 | Under every interleaving no BLOCKING assertion fails, and once an interrupt has returned, as long as nobody has cleared its TERMINATE, the target is not between a successful begin and its end. |
| `BlockingOp.NoBeginAfterInterrupt` | wamr/core/iwasm/common/wasm_blocking_op.c:25-39 | After an interrupt has returned, no begin succeeds while nobody clears TERMINATE. |
| `BlockingOp.BeginNeedsClear` | wamr/core/iwasm/libraries/thread-mgr/thread_manager.c:1114-1121 | From every reachable state with an interrupt in force some continuation lets a begin succeed, and every such continuation clears TERMINATE. |
| `BlockingOp.BeginAlone` | wamr/core/iwasm/common/wasm_blocking_op.c:25-39 | Undisturbed, begin takes four steps and returns true with BLOCKING on, or with TERMINATE on returns false with the flags as they were. |
| `BlockingOp.BeginOutcome` | wamr/core/iwasm/common/wasm_blocking_op.c:25-39 | Under every interleaving a begin that has returned has returned true exactly if its test found TERMINATE off, and BLOCKING is on exactly then. |
| `BlockingOp.EndAlone` | wamr/core/iwasm/common/wasm_blocking_op.c:41-51 | Undisturbed, end takes three steps and leaves BLOCKING off. |
| `BlockingOp.EndOutcome` | wamr/core/iwasm/common/wasm_blocking_op.c:41-51 | Under every interleaving an end that has returned leaves the target outside any call with BLOCKING off. |
| `BlockingOp.InterruptOutcome` | wamr/core/iwasm/common/wasm_blocking_op.c:53-78 | Under every interleaving an interrupt has returned exactly if it has found BLOCKING off, and is in force with TERMINATE on unless somebody clears that. |
| `BlockingOp.InterruptAlone` | wamr/core/iwasm/common/wasm_blocking_op.c:68-77 | With BLOCKING off a waiting interrupt returns within two steps. |
| `Smtp.ParseExact` | src/smtp.c:10-87 | A line is a command if and only if it begins with that command's keyword in any case, so no line is two commands and the order of the tests does not matter. |
| `Smtp.ParseClientCommand` | src/smtp.c:10-87 | The comparisons in source order find the specified command. |
| `Smtp.CaseIgnored` | src/smtp.c:10-87 | Lines that differ only in the case of letters are the same command. |
| `Smtp.MoveClientMailDomain` | src/smtp.c:109-124 | The loop accepts a domain word exactly if it ends within the maximum; then the memory from the start of the array holds the word, its terminator and what was there before, and else as much of the word as the array takes, with the character behind it untouched. |
| `Smtp.TerminatorInside` | src/smtp.c:122 | An accepted word leaves the character behind the array alone if and only if it is shorter than the array, and else writes its terminator there. |
| `Smtp.LongDomain` | src/smtp.c:286-297 | A line whose domain of 255 letters is accepted writes behind the array. |
| `Smtp.FoundCrlfEnd` | src/smtp.c:94-107 | On NUL-terminated memory the scan succeeds exactly if CRLF.CRLF occurs before any NUL, and reads nothing behind the terminator. |
| `Smtp.ReceiveData` | src/smtp.c:218-253 | Count, grow, copy, terminate and scan, each copy and its terminator inside the allocation, are the data step of the handler. |
| `Smtp.Execute` | src/smtp.c:258-350 | Each command's branch is the command step of the handler. |
| `Smtp.SmtpHandler` | src/smtp.c:142-351 | The handler statement by statement is the handler step. |
| `Smtp.ServedOk` | src/master.c:58-70 | After serving, a connection that stays queued has no buffer and zero counters outside the data phase, and inside it a buffer of 1024 bytes per read and one more, terminated where the data ends. |
| `SmtpSession.DataBegins` | src/smtp.c:276-280 | DATA in any command phase opens an empty buffer. |
| `SmtpSession.ScanStopsAtEnd` | src/smtp.c:236-242 | Scanning the buffer is scanning exactly the bytes received so far. |
| `SmtpSession.DataAccepted` | src/smtp.c:218-253 | For any split into reads of 1 to 1024 bytes, with any turns between them in which the read would block, the body is accepted right after the first of the first 10239 reads by which CRLF.CRLF has arrived before any NUL, and if and only if there is one; otherwise the 10240th read is refused and until then the buffer holds everything read. |
| `SmtpOrder.SessionOrder` | src/smtp.c:264-344 | Over every session MAIL is accepted if and only if there was a greeting or finished body since the session last started over, and RCPT if and only if there was a MAIL with no greeting, RSET, DATA or STARTTLS since. |
| `SmtpOrder.SessionPhase` | src/smtp.c:176-253 | Over every session the next call negotiates TLS exactly while a STARTTLS is open, and the next read is data exactly while a DATA is open. |
| `SmtpOrder.OpenExactly` | src/smtp.c:142-351 | Over every session it is closed exactly by a failed TLS negotiation, a read error or the end of the input, a line of 1023 bytes or more outside DATA, QUIT, or a failed reallocation below the size limit. |
| `SmtpOrder.MailWithoutGreeting` | src/smtp.c:242-249 | In any session that has had no greeting, DATA, an empty body and then MAIL are all accepted. |
| `SmtpOrder.BannerFirst` | src/smtp.c:170-174 | A new session is such a session after its banner. |
| `ConnQueue.ConnectionQueue.constructor` | src/master.c:79-89 | A new queue is empty. |
| `ConnQueue.ConnectionQueue.Enqueue` | src/master.c:102-125 | Appends at the end of the FIFO and fails exactly at 512 connections, changing nothing. |
| `ConnQueue.ConnectionQueue.Dequeue` | src/master.c:127-148 | Removes the first of the FIFO and fails exactly if it is empty. |
| `ConnQueue.ConnectionQueue.Count` | src/master.c:90-101 | The count is the length of the FIFO. |
| `Master.StepKeepsInv` | src/master.c:162-247 | Accepting and serving keep the bound, the order of every queued connection, and the balance of sockets. |
| `Master.Conservation` | src/master.c:162-247 | At every point of every run each socket has been queued or closed exactly as often as it was accepted. |
| `Master.OpenIsQueuedOnce` | src/master.c:257-355 | If the kernel hands out no socket that is still open, then at every point of every run each socket is open at most once, and it is open if and only if it is queued, in exactly one place. |
| `Master.RoundRobin` | src/master.c:187-247 | After n turns the first n queued connections have been served, in order and as they were queued, and the others have moved up by n, whatever was accepted meanwhile. |
| `MasterService.Service.HandleConnection` | src/master.c:162-185 | Takes exactly the accept step: queued, or closed at once when the queue is full. |
| `MasterService.Service.Settle` | src/master.c:216-246 | A connection that continues or is reset is never dropped, because its dequeue freed a slot; the others are closed. |
| `MasterService.Service.ProcessConnection` | src/master.c:187-247 | Takes exactly the serving step. |
| `MasterService.Service.StartMasterService` | src/master.c:249-355 | The loop is the run of its accepts and turns in order, for any listeners and any accept results. |
| `MasterService.PassExact` | src/master.c:257-350 | A pass takes exactly what both sockets of each active listener returned, and then serves one connection. |
| `MasterService.ServedInPass` | src/master.c:257-355 | The connection k places from the front is the one served in the (k+1)-th following pass of the loop. |
| `ServedSessions.QueuedAreSessions` | src/master.c:187-247 | In every run of the service each queued SMTP connection is in the state that exactly its own reads, in order, give a session played alone. |
| `ServedSessions.TurnInOrder` | src/master.c:187-198 | What a turn of the service does with the connection it serves is the next event of that connection's own session, whose log accepts MAIL and RCPT in order throughout. |
| `ServedSessions.TurnExact` | src/master.c:187-247 | A turn puts an SMTP connection back at the end of the queue, as its own session goes on, unless it closes that session; exactly then the socket is closed. |
| `ServedSessions.OtherTurnExact` | src/master.c:187-247 | For other kinds the handler's answer decides: as it is, starting again, or closed. |
| `ServedSessions.ArrivalExact` | src/master.c:162-185 | An accepted socket is queued last, as a new connection, unless 512 are waiting; exactly then it is closed. |
| `ValueProfile.MinIndex` | wamr/core/iwasm/aot/aot_runtime.c:4741-4753 | The node evicted is the first of least count. |
| `ValueProfile.RecordExact` | wamr/core/iwasm/aot/aot_runtime.c:4741-4771 | A hit keeps the list in order and moves every record by the hit itself or less by at most the hit's cost if and only if it does not overflow the count of its value. |
| `ValueProfile.EvictExact` | wamr/core/iwasm/aot/aot_runtime.c:4755-4762 | On a full list a missing value replaces the first node of least count if it counts for at least as much, and is then recorded with its own count; otherwise that node loses exactly the hit's count and the value stays out. Every other value keeps its record. |
| `ValueProfile.RoomExact` | wamr/core/iwasm/aot/aot_runtime.c:4741-4784 | A value in the list, or one that finds room and memory, gains exactly its hit modulo 2^64; without memory nothing changes. |
| `ValueProfile.RecordedWithin` | wamr/core/iwasm/aot/aot_runtime.c:4718-4784 | Over every history without such an overflow a site's list has distinct values, at most 255, with positive counts, and each value is recorded as often as it was hit less at most the weight of the hits that found no room. |
| `ValueProfile.FewHitsFit` | wamr/core/iwasm/aot/aot_runtime.c:4743 | No count overflows as long as all hits of the site fit 64 bits. |
| `ValueProfile.OverflowInput` | wamr/core/iwasm/aot/aot_runtime.c:4743 | After 2^64 hits of one value, each counting one as the callers pass it, its node counts nothing. |
| `ValueProfile.DumpAssertionExact` | wamr/core/iwasm/aot/aot_runtime.c:5126 | With allocations succeeding the list length is the number of distinct values hit, at most 255, so the dump's assertion holds if and only if fewer than 255 were hit. |
| `ValueProfile.FullSite` | wamr/core/iwasm/aot/aot_runtime.c:5126 | One hit on each of 255 values makes the assertion fail. |
| `ValueProfiler.Walk` | wamr/core/iwasm/aot/aot_runtime.c:4739-4753 | The walk finds the value's node, or behind the last node the first of least count, if and only if some count is below the largest word, and the length, with an 8-bit counter that does not wrap. |
| `ValueProfiler.Instrument` | wamr/core/iwasm/aot/aot_runtime.c:4738-4784 | Bump, evict, append or drop: the new list is the recorded one, except that the code follows a null pointer exactly if the list is full, lacks the value and has no count below the largest word. |
| `ValueProfiler.ProfileData.InstrumentTargetValue` | wamr/core/iwasm/aot/aot_runtime.c:4718-4784 | A call makes the table if needed and possible and changes the list of its own site only. |
| `ValueProfiler.SiteHistory` | wamr/core/iwasm/aot/aot_runtime.c:4733-4739 | Over every sequence of calls each site's list is what its own hits make it. |
| `ValueProfiler.NoHitLost` | wamr/core/iwasm/aot/aot_runtime.c:4727-4736 | With memory for the table every hit that counts anything reaches its site, from the first one on. |
| `ValueProfiler.HasMinAlways` | wamr/core/iwasm/aot/aot_runtime.c:4746-4762 | As long as the hits of a site fit 64 bits, a full list always yields a node to evict. |
| `ValueProfiler.RunTableOk` | wamr/core/iwasm/aot/aot_runtime.c:4733-4762 | So in every such run of calls every list meets what a call relies on. |
| `ProfSize.CountSections` | wamr/core/iwasm/aot/aot_runtime.c:4857-4873 | The first loop counts records, counters and counter bytes in 32-bit arithmetic and keeps the last names section. |
| `ProfSize.LastNames` | wamr/core/iwasm/aot/aot_runtime.c:4866-4872 | The names are those of the last names section, if there is one. |
| `ProfSize.GetProfDataSize` | wamr/core/iwasm/aot/aot_runtime.c:4844-4945 | The computed size is 0 on a mismatch and else the exact size modulo 2^32. |
| `ProfSize.SizeExact` | wamr/core/iwasm/aot/aot_runtime.c:4875-4886 | The computed size is the exact size if and only if the counter sections match and the dump is below 4 GiB. |
| `ProfSize.LengthTestExact` | wamr/core/iwasm/aot/aot_runtime.c:4975-4980 | Every buffer that passes the length test holds the whole dump if and only if the module is one of those. |
| `ProfSize.MissingCounters` | wamr/core/iwasm/aot/aot_runtime.c:4875-4876 | A module whose counter section is missing has computed size 0. |
| `ProfWriter.CounterOffsets` | wamr/core/iwasm/aot/aot_runtime.c:4985-4995 | The running delta and offset give each record the distance to its counters. |
| `ProfWriter.WriteRecord` | wamr/core/iwasm/aot/aot_runtime.c:5030-5058 | Writes the 64 bytes of a record behind what is written and leaves its padding alone. |
| `ProfWriter.WriteKind` | wamr/core/iwasm/aot/aot_runtime.c:5104-5150 | Writes kind, site count, node counts, skipped padding and nodes behind what is written. |
| `ProfWriter.WriteValue` | wamr/core/iwasm/aot/aot_runtime.c:5087-5158 | Writes a record's value data and fills in its total size afterwards. |
| `ProfWriter.DumpProfData` | wamr/core/iwasm/aot/aot_runtime.c:4961-5167 | Leaves a too small buffer alone and returns 0; else writes exactly the dump, as many bytes as computed, nothing behind it, and its final assertion holds. |
| `ProfReader.HeaderReadsBack` | wamr/core/iwasm/aot/aot_runtime.c:4997-5026 | A reader finds every header word, in particular the counts and the distance to the counters. |
| `ProfReader.HeaderFields` | wamr/core/iwasm/aot/aot_runtime.c:4985-5026 | Field by field: magic, version 9 with both variant bits, the numbers of records and counters, the size of the names, the distance from the first record to the counters, the last value kind 1, and zero in all others. |
| `ProfReader.RecordEnds` | wamr/core/iwasm/aot/aot_runtime.c:5040-5058 | Every record ends with zero bitmaps, and its padding is as it was. |
| `ProfReader.NamesPadded` | wamr/core/iwasm/aot/aot_runtime.c:5074-5080 | Behind the names there are zeros up to the value data. |
| `ProfReader.OwnCounters` | wamr/core/iwasm/aot/aot_runtime.c:4985-5068 | From each record's own offset and counter number a reader gets exactly to that record's counter section. |
| `ProfReader.OwnValues` | wamr/core/iwasm/aot/aot_runtime.c:5082-5161 | At each record's value data a reader finds the total size and every site's values with their counts. |
| `ProfParser.ParseUndoesDump` | wamr/core/iwasm/aot/aot_runtime.c:4961-5167 | A parser that takes every place from the header and the records it has read gets back all record fields, each record's counters, the names and every value with its count, for paired counter sections and dumps below 4 GiB. |
| `Leb128.EncodeUint` | wamr/test-tools/append-aot-to-wasm/append_aot_to_wasm.py:18-34 | The loop emits the little-endian groups of seven bits, the top bit set on all but the last. |
| `Leb128.DecodeUint` | wamr/test-tools/append-aot-to-wasm/append_aot_to_wasm.py:37-54 | The loop returns bytes used and value read, and fails on empty input. |
| `Leb128.DecodeEncode` | wamr/test-tools/append-aot-to-wasm/append_aot_to_wasm.py:18-54 | Decoding undoes encoding for every positive value, whatever follows. |
| `Leb128.RoundTripExact` | wamr/test-tools/append-aot-to-wasm/append_aot_to_wasm.py:18-54 | The round trip holds if and only if the value is positive. |
| `Leb128.LengthBound` | wamr/test-tools/append-aot-to-wasm/append_aot_to_wasm.py:18-34 | The encoding has at most k bytes if and only if the value is below 128^k. |
| `CustomSection.CalcPadding` | wamr/test-tools/append-aot-to-wasm/append_aot_to_wasm.py:71-81 | The search returns the smallest padding that aligns the content, and None exactly if none of the 2a candidates does. |
| `CustomSection.AlignedExact` | wamr/test-tools/append-aot-to-wasm/append_aot_to_wasm.py:57-58 | For a power of two the mask test is divisibility. |
| `CustomSection.PaddingFound` | wamr/test-tools/append-aot-to-wasm/append_aot_to_wasm.py:71-81 | For a power of two up to 128 some candidate works for all names, contents and positions, although the length field may grow during the search. |
| `CustomSection.PaddingMissed` | wamr/test-tools/append-aot-to-wasm/append_aot_to_wasm.py:71-81 | For every power of two from 256 on there is an input on which all candidates fail. |
| `CustomSection.PaddingExact` | wamr/test-tools/append-aot-to-wasm/append_aot_to_wasm.py:71-81 | The search succeeds on all inputs if and only if the power of two is at most 128. |
| `CustomSection.ParseVectorPresent` | wamr/test-tools/append-aot-to-wasm/append_aot_to_wasm.py:65-68 | Parsing a presented vector gives its content and what follows. |
| `CustomSection.ParseBuilt` | wamr/test-tools/append-aot-to-wasm/append_aot_to_wasm.py:102-125 | Parsing a built section gives id 0, a length equal to the bytes that follow, the name, the padding and the content. |
| `CustomSection.BuildSection` | wamr/test-tools/append-aot-to-wasm/append_aot_to_wasm.py:102-125 | A section is built exactly if some padding fits; it carries name, the smallest zero padding that fits and content, and the alignment assertion holds. |
| `CustomSection.CreateCustomSectionAligned` | wamr/test-tools/append-aot-to-wasm/append_aot_to_wasm.py:88-125 | Refuses exactly names that are not ASCII, reports exactly missing paddings, else returns an aligned section that parses back. |

## Left out

- What the shared-heap code leaves to its callers is a condition on runs (`CallerOk`): the heaps chained differ and fit in 32 bits, unchain and attach get a root, at most 255 instances share a heap, and buffers lie inside the address space. NULL arguments are not modelled.
- Address translation covers enabled bounds checks; with checks disabled the code skips its range tests.
- Concurrency on the heap cache and the locks of the heap list: one sequential caller is modelled. Attaching through a thread cluster is not.
- 32-bit hosts, Windows variants, memory usage tracking, GC and SIMD configurations, and big-endian hosts, where the dump swaps bytes.
- `wasm_memory_enlarge`, which passes no module, and the shared-heap branch of `wasm_check_app_addr_and_convert`.
- The store of a rewritten `__heap_base` into the 32-bit global; the model keeps the exact value.
- Allocators, memory maps, hash map and list libraries: success, failure and returned addresses are inputs.
- WaitNotify: comparing the value in memory, time and termination are inputs of the steps; the wait on an unshared memory and address checks before it are not modelled.
- BlockingOp: flags are accessed atomically, as in the atomic build; the build that takes a lock around each access is not modelled.
- LinearMemory.InsertAppHeap: assumes pages of at least 2 KB, because the kilobyte kept above the heap needs them.
- TLS input and output, replies, logging and time stamps of connections.
- Queue paths on which a mutex cannot be locked or unlocked.
- The handlers other than SMTP leave the connection unchanged; their results are inputs.
- ProfWriter.DumpProfData: does not model the writes for modules whose counter sections do not match or whose dump reaches 4 GiB, because there the length test does not protect the buffer (`ProfSize.LengthTestExact`) and the writes leave it.
- Section names of the profile are given by kind instead of by their prefix. Races of the profiler, and the mapping of sizes to range representatives, are not modelled.
- The AOT loader, code generation, native calls, call stacks, configuration, DNS, and HTTP content.
