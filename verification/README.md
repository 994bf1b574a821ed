# xv6 buffer cache, per-CPU page allocator and user utilities in Dafny

This project models the core of a RISC-V xv6 teaching kernel:

- **The block buffer cache** (kernel/bio.c). It is a fixed arena of `NBUF` slots. They are spread over 13 hash buckets keyed by `((dev << 27) | blockno) % 13`.
  - `bget` either finds a cached slot, or reassigns the globally least-recently-used unreferenced slot and moves it into the target bucket.
  - `bread` reads a block only when the slot's content is not valid.
  - `brelse`, `bpin` and `bunpin` adjust the reference count, and `brelse` stamps the last-use tick.
- **The per-CPU physical page allocator** (kernel/kalloc.c). Each CPU has a free list and a free-page count.
  - `kfree` checks the address, then pushes the page onto the executing CPU's list.
  - `kalloc` pops the local list. When that list is empty, it steals from the CPU with the largest count.
  - `freerange` and `kinit` seed the lists.
- **Three user programs:**
  - user/find.c: the last path component, the entry filter, the child path, the length guard and the name match;
  - user/xargs.c: the tokenising loop that turns standard input into one `exec` per line;
  - user/primes.c: the sieve pipeline over 2..35.

Each kernel operation is a pure function from state to state, one atomic step. The slot arena is a `seq<Buf>`, and each bucket chain is a sequence of arena indices, head first. A CPU's free list is a sequence of page addresses. The user programs become functions on strings and integer sequences. Outside state that a call depends on becomes a parameter:

- the executing CPU;
- whether the caller holds a slot's sleep-lock;
- the tick counter;
- the directory tree `find` walks;
- the bytes `xargs` reads.

Panics become `Err` results, and `kalloc`'s null becomes `None`.

Modules:

- `Types`: `u32`, `Option` and `Result`.
- `Chains`: multiset facts about a sequence of chains.
- `BufferCache` and `BufferCacheProps`.
- `PageAllocator` and `PageAllocatorProps`.
- `Find`, `Xargs` and `Primes`.

Main invariants:

- **Buffer cache, `BufferCache.Wf`:** every slot is linked into exactly one bucket, exactly once, and that bucket is the hash of the slot's identity.
- **Buffer cache, `BufferCache.ValidFound`:** a slot with valid content is the slot `bget` finds for its identity.
- **Page allocator, `PageAllocator.Valid`:** each count equals the length of its list, and every listed page passes `kfree`'s address check.

The constants `NBUF` = 30 and `NCPU` = 8 (kernel/param.h), `PGSIZE` = 4096 (kernel/riscv.h), `PHYSTOP` = `KERNBASE` + 128 MiB (kernel/memlayout.h) and `DIRSIZ` = 14 (kernel/fs.h) take the standard xv6 values; those header files are not part of this model.

## Model

| member | source | states |
|---|---|---|
| BufferCache.Hash | kernel/bio.c:26-28 | the bucket of any (dev, blockno) lies in [0, 13) |
| BufferCacheProps.HashOfDeviceOne | kernel/bio.c:28 | the shift is done on 32 bits: device 1, block 0 goes to bucket 2^27 mod 13 = 8 |
| BufferCacheProps.HashDropsHighDeviceBits | kernel/bio.c:28 | device bits above the fifth are shifted out, so devices 32 apart share buckets |
| BufferCache.Init | kernel/bio.c:45-64 | after `binit`: buckets 1..12 are empty; bucket 0 holds all NBUF slots in reverse index order; every slot has refcnt 0, lastuse 0 and the zero identity; both cache invariants hold |
| BufferCacheProps.InitialIdentityInBucketZero | kernel/bio.c:53-61 | the zero identity of the unset slots hashes to bucket 0, where `binit` links every slot |
| BufferCache.FindInChain | kernel/bio.c:77-86 | the position returned is the first in the chain with the requested identity; None means no entry of the chain has it |
| BufferCache.Lookup | kernel/bio.c:66-86 | a slot found for (dev, blockno) carries that identity; no slot means no entry of the bucket `Hash(dev, blockno)` carries it |
| BufferCacheProps.LookupComplete | kernel/bio.c:66-86 | under the invariant, the lookup misses exactly when no slot of the arena carries the identity |
| BufferCache.SelectVictim | kernel/bio.c:104-128 | the chosen position is unreferenced; its lastuse is minimal among all unreferenced slots; every unreferenced slot earlier in bucket-then-chain order has a strictly larger lastuse; None exactly when no slot is unreferenced |
| BufferCache.ScanChain | kernel/bio.c:110-117 | the inner loop keeps the strict-`<` best candidate over every position visited so far |
| BufferCache.ScanBuckets | kernel/bio.c:106-128 | the outer loop keeps the best candidate over all buckets visited |
| BufferCache.Evict | kernel/bio.c:133-147 | the reassigned slot is the victim, and `Wf` holds afterwards; its full effect is stated by EvictShape. `ValidFound` can fail after an eviction alone (a reassigned slot pushed at the head of a bucket can hide a valid slot of the same identity further down), and is kept only by the whole of `bget`, as GetKeepsValidFound states |
| BufferCache.EvictKeepsWf | kernel/bio.c:133-147 | unlinking the victim and pushing it on the target bucket keeps every slot linked exactly once and in its hash bucket |
| BufferCache.Get | kernel/bio.c:69-152 | `bget` panics exactly when the block is not cached and every slot is referenced; otherwise it keeps `Wf`, and the returned slot is the one found for (dev, blockno), with a positive count |
| BufferCacheProps.GetHit | kernel/bio.c:77-86 | hit: the first matching slot in chain order is returned; its refcnt rises by one; chains and all other slots are unchanged |
| BufferCacheProps.GetMiss | kernel/bio.c:104-147 | miss: the victim gets the new identity, refcnt 1 and valid 0; if it lived in another bucket it is unlinked there and pushed at the head of the target bucket, otherwise the chains are unchanged; nothing else changes |
| BufferCacheProps.GetMissNoDuplicate | kernel/bio.c:66-147 | after a miss the reassigned slot is the only slot carrying the block, so `bget` never makes two entries for one block |
| BufferCacheProps.MovedSlotLeavesBucket | kernel/bio.c:135-142 | a migrated slot is no longer in its old bucket |
| BufferCacheProps.GetPanicsWhenAllReferenced | kernel/bio.c:129-132 | a miss with every slot referenced is the "bget: no buffers" panic |
| BufferCacheProps.EvictKeepsLookup | kernel/bio.c:133-147 | an eviction leaves every other cached identity found at the same slot |
| BufferCacheProps.GetKeepsValidFound | kernel/bio.c:69-152 | `bget` preserves: every valid slot is the slot found for its identity |
| BufferCacheProps.ValidSlotsDistinct | kernel/bio.c:77-86 | under that invariant, no two slots hold valid content for the same block |
| BufferCache.Read | kernel/bio.c:155-167 | after `bread` the returned slot is valid, referenced and is the one found for the block; the device was skipped only when the block was already cached and valid |
| BufferCacheProps.ReadValidHit | kernel/bio.c:160-166 | a cached valid block is returned without a device read |
| BufferCacheProps.ReadMissReadsDisk | kernel/bio.c:160-165 | a block missing from the cache is always read from the device |
| BufferCacheProps.ReadFromGet | kernel/bio.c:155-167 | `bread` returns the slot `bget` chose and changes nothing but that slot's valid flag |
| BufferCacheProps.ReadKeepsValidFound | kernel/bio.c:155-167 | `bread` preserves the valid-slot invariant |
| BufferCacheProps.RereadAfterRelease | kernel/bio.c:155-196 | for any well-formed cache, `bread`, then `brelse`, then `bread` of the same block returns the same slot without a device read |
| BufferCache.Write | kernel/bio.c:170-175 | `bwrite` panics exactly when the caller does not hold the slot's lock, and changes no bookkeeping |
| BufferCache.Release | kernel/bio.c:180-196 | `brelse` panics exactly without the lock; refcnt drops by one; lastuse becomes `ticks` exactly when the count reaches 0; identities, validity, chains and other slots are unchanged |
| BufferCache.Pin | kernel/bio.c:198-205 | `bpin` adds one reference and changes neither identities nor bucket membership |
| BufferCache.Unpin | kernel/bio.c:208-215 | `bunpin` removes one reference and never restamps lastuse |
| BufferCacheProps.PinUnpinRoundTrip | kernel/bio.c:198-215 | `bunpin` after `bpin` restores the cache |
| BufferCacheProps.RefcountStepsKeepValidFound | kernel/bio.c:180-215 | `brelse`, `bpin` and `bunpin` preserve the valid-slot invariant |
| BufferCacheProps.SlotInHashBucket | kernel/bio.c:187-189 | the bucket lock `brelse`, `bpin` and `bunpin` take is that of the bucket actually linking the slot |
| PageAllocator.PgRoundUp | kernel/kalloc.c:42 | the result is page-aligned and is the first boundary at or above the address |
| PageAllocator.KFree | kernel/kalloc.c:51-78 | panics exactly unless the address is aligned and in [end, PHYSTOP); otherwise the page is pushed on the executing CPU's list, that count rises by one, other CPUs are unchanged, and the page is filled with byte 1 |
| PageAllocator.StealTarget | kernel/kalloc.c:111-128 | the CPU chosen has the largest count among CPU 0 and the other non-executing CPUs, and the lowest index among those tied |
| PageAllocator.KAlloc | kernel/kalloc.c:83-149 | null leaves the state unchanged; otherwise the page is the head of some list, which loses exactly that page and one count, and the page is filled with byte 5 |
| PageAllocatorProps.KAllocLocal | kernel/kalloc.c:95-103 | with a non-empty local list, its head is taken and only the local list and count change |
| PageAllocatorProps.KAllocSteal | kernel/kalloc.c:105-140 | with an empty local list and pages elsewhere, the page is the head of a longest list of another CPU, lowest index first |
| PageAllocatorProps.KAllocNullIffEmpty | kernel/kalloc.c:130-148 | under the count invariant, `kalloc` returns null exactly when every CPU's list is empty |
| PageAllocatorProps.KAllocKeepsValid | kernel/kalloc.c:95-140 | `kalloc` keeps counts equal to list lengths, returns a page that passed the address check, and lowers the total number of free pages by exactly one |
| PageAllocatorProps.KFreeKeepsValid | kernel/kalloc.c:56-75 | `kfree` of an acceptable page keeps the invariant and raises the total by exactly one |
| PageAllocatorProps.AllocFreeRoundTrip | kernel/kalloc.c:51-148 | a page `kalloc` hands out can be freed on any CPU, which restores the total |
| PageAllocator.PageRun | kernel/kalloc.c:42-44 | the pages `freerange` visits are `PGROUNDUP(start) + i*PGSIZE`, each with its whole page below the end |
| PageAllocatorProps.PageRunMembers | kernel/kalloc.c:43 | an address is visited exactly when it is page-spaced from the start and its whole page fits below the end |
| PageAllocator.FreeRangeFrom | kernel/kalloc.c:39-45 | succeeds exactly when every visited page passes the address check; then the executing CPU's list gains the pages in reverse order, its count grows by their number, and other CPUs are unchanged |
| PageAllocator.FreeRangeFills | kernel/kalloc.c:43-44 | every page `freerange` frees is filled with byte 1, and no other page's fill changes |
| PageAllocator.FreeRange | kernel/kalloc.c:39-45 | `freerange` succeeds exactly when every whole page from the first boundary at or above the start passes the address check; the executing CPU's list then gains those pages in reverse order, its count grows by their number, and other CPUs are unchanged |
| PageAllocator.KInit | kernel/kalloc.c:31-37 | after `kinit` the executing CPU's list holds the pages from the kernel's end to `PHYSTOP` in descending order, with its count equal to their number, and every other list is empty with count zero; that it never panics is stated by KInitFreesAllPages |
| PageAllocatorProps.KInitFreesAllPages | kernel/kalloc.c:31-45 | `kinit` never panics; the executing CPU's list holds exactly the pages passing the address check, each once, in descending order, all filled with byte 1; other CPUs are empty; the invariant holds |
| Find.ScanBack | user/find.c:22-23 | the backward scan stops just after the last '/' at or before its start, or at 0 |
| Find.NameFromPath | user/find.c:15-27 | the result is a suffix of the path, contains no '/', and is preceded by '/' when shorter than the path |
| Find.NoSlashWholePath | user/find.c:22-26 | a path without '/' is returned whole |
| Find.TrailingSlashEmptyName | user/find.c:22-26 | a path ending in '/' yields the empty name |
| Find.NameOfJoin | user/find.c:22-26 | the name of `dir + "/" + name` is `name` when it has no '/' |
| Find.CName | user/find.c:77-78 | a directory entry name is read up to its first NUL and cut at DIRSIZ bytes |
| Find.ChildPath | user/find.c:67-78 | the child path is the directory path, '/', then the entry name |
| Find.ChildPathFits | user/find.c:61-78 | when the length guard passes, the child path and its NUL fit in the 512-byte buffer |
| Find.FindIn | user/find.c:29-88 | every reported path has the target as its last component and starts with the searched path |
| Find.ScanDir | user/find.c:71-83 | every path reported from a directory extends the child path of a non-skipped entry |
| Find.FileReportedIffNameMatches | user/find.c:51-58 | a file is reported exactly when its last path component equals the target, at most once |
| Find.TooLongNotSearched | user/find.c:61-65 | a directory failing the length guard yields only the "path too long" line |
| Find.ReportsUnderDirectory | user/find.c:67-83 | every path reported inside a directory begins with that directory's path and '/' |
| Find.SkippedEntryAddsNothing | user/find.c:74-75 | entries with inode 0, "." or ".." are skipped and never recursed into |
| Find.MatchingChildReported | user/find.c:54-82 | a non-skipped file entry whose name is the target is reported at its child path |
| Find.Run | user/find.c:90-100 | two or fewer command-line words is an error; otherwise the output is what `find` reports for the path and name given |
| Xargs.Scan | user/xargs.c:33-62 | the loop makes one run per '\n'; every run starts with the fixed arguments, and no token, as it sits in the buffer, holds ' ' or '\n' |
| Xargs.CArg | user/xargs.c:37-52 | `exec` reads an argument from the buffer as a C string: the bytes up to its first NUL |
| Xargs.Xargs | user/xargs.c:13-65 | fewer than two command-line words is an error; otherwise one run per input line, each starting with argv[1..], whose further arguments hold no ' ', '\n' or NUL |
| Xargs.BufferRoundTrip | user/xargs.c:33-62 | the tokens read into the buffer, joined by spaces with each line ended by '\n', give back the input up to its last '\n'; bytes after it never reach a run |
| Xargs.XargsNoNul | user/xargs.c:33-52 | for input without NUL bytes every token reaches `exec` whole |
| Xargs.XargsRoundTrip | user/xargs.c:33-62 | for input without NUL bytes, the arguments of the runs, joined by spaces with each line ended by '\n', give back the input up to its last '\n' |
| Xargs.XargsCutsAtNul | user/xargs.c:33-52 | the line `a\0b` runs `echo a`: a NUL byte ends the argument `exec` sees |
| Xargs.UnparseScan | user/xargs.c:33-62 | writing well-formed runs out as lines and reading them back gives the same runs, so tokens never carry over between lines |
| Xargs.ScanLine | user/xargs.c:35-59 | a line of space-separated tokens becomes exactly one run: the fixed arguments, then those tokens |
| Xargs.XargsOneLine | user/xargs.c:24-61 | one input line gives one run of argv[1..] followed by its tokens, each up to its first NUL, empty tokens from doubled spaces included |
| Primes.Range | user/primes.c:50-53 | the first pipe receives 2, 3, ..., 35 in order |
| Primes.NonMultiples | user/primes.c:25-31 | a stage forwards only numbers it read that its head does not divide, all of them, keeping increasing input increasing |
| Primes.NonMultiplesCount | user/primes.c:25-31 | every number the head does not divide is forwarded as often as it was read, and no multiple is forwarded |
| Primes.NonMultiplesConcat | user/primes.c:25-31 | the stage handles its input in reading order: filtering two parts read one after the other is filtering each part in turn |
| Primes.NonMultiplesOne | user/primes.c:27-30 | a single number is forwarded exactly when the head does not divide it |
| Primes.Sieve | user/primes.c:9-36 | the pipeline prints only numbers it was fed, no more than it was fed |
| Primes.HeadIsPrime | user/primes.c:21-23 | the number a stage prints is prime, and no prime lies between the previous head and it |
| Primes.NextStage | user/primes.c:25-35 | a stage turns "numbers in [m, 35] with no prime factor below m" into the same set for one past its head |
| Primes.SieveCorrect | user/primes.c:9-36 | fed such a stream, the pipeline prints exactly the primes in [m, 35], strictly increasing |
| Primes.PrimesUpTo35 | user/primes.c:38-59 | `primes` prints exactly the primes up to 35, in increasing order |
| Primes.EarlierHeadsDoNotDivide | user/primes.c:27-29 | no number reaching a stage is divisible by a number an earlier stage printed |
| Primes.Run | user/primes.c:40-44 | any command-line argument is an error |

## Left out

- Spin-locks, sleep-locks, the eviction lock, `push_off`/`pop_off` and `cpuid`: they exist for concurrency. Every operation is one sequential step, with the executing CPU and the "holds the sleep-lock" fact as parameters.
- The re-scan of the target bucket under the eviction lock (kernel/bio.c:91-102): run sequentially, it sees the same chain as the first scan, so `BufferCache.Get` has a single lookup.
- The window in `brelse` between releasing the sleep-lock and updating the count: this is concurrency only.
- `virtio_disk_rw` and the payload bytes: only the `valid` flag and whether the device was read are modelled.
- The `disk` field and the unused `prev` pointer of `struct buf`, and the unused `head` list of the cache.
- BufferCache.Release, BufferCache.Unpin: require `refcnt > 0`. The unsigned wrap-around of a decrement at 0 is not modelled.
- BufferCache.Pin, BufferCache.Get: the reference count is an unbounded `nat`, so a 32-bit overflow of `refcnt` is not modelled.
- BufferCache.Release: `ticks` is a parameter. The tick counter and its lock are not part of this model.
- A copy-on-write, reference-counted page allocator: only the per-CPU allocator exists in kernel/kalloc.c.
- Memory contents: `memset` is recorded as one fill byte per page. Page addresses are integers, and pointer arithmetic is not modelled.
- PageAllocator.KFree: pages are integer addresses, so a double free is accepted as in the source, which does not check for one.
- `find`'s `open` and `fstat` failures: the tree passed in says what each path opens to. A directory entry whose name is exactly DIRSIZ bytes without a NUL makes the source's `strcmp` with "." read past the field; the model compares the name cut at DIRSIZ.
- Xargs.Xargs: requires at most 16 input bytes. The source never resets its index into the 16-byte buffer, so longer input overruns it; that overrun is not modelled.
- Xargs.XargsRoundTrip: requires input without NUL bytes. A NUL ends the C string `exec` reads, so the bytes after it on that token never reach the command and cannot be given back; Xargs.BufferRoundTrip states the round trip for every input, on the tokens as they sit in the buffer.
- `MAXARG`: the overflow of the argument array is not modelled. The argument vector passed to `exec` (user/xargs.c:52) has no null terminator, and the model does not follow it: a run is exactly the fixed arguments and its line's tokens. In the source, `exec` reads on past the last argument, so after a longer line a shorter one can pass along the stale arguments of the earlier line, or whatever else follows in the array.
- `fork`, `exec`, `wait`, `pipe`, `read`, `write` and `printf`: a run is recorded as its argument vector, and printed lines as a sequence.
- Primes.NonMultiples: requires a positive divisor. The sieve only divides the positive numbers 2..35, where C's truncating `%` and Dafny's `%` agree.
- The pipe capacity between `primes` stages: 34 numbers always fit.
- user/pingpong.c, user/sleep.c and kernel/sysproc.c: these are pipe I/O, an `atoi` and system-call wrapper, and argument marshalling over process state, with no standalone logic.
