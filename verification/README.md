# tmalloc in Dafny

A model of `tmalloc`, a small heap allocator. It keeps an intrusive
singly-linked list of block headers (`size`, `is_free`, `next`), in
allocation order, between a global `head` and `tail`, and offers `tmalloc`,
`tfree`, `tcalloc`, `trealloc` and `treallocarray`.

- **Build switches as parameters.** The `USE_MMAP` switch becomes
  `Mode = Mmap | Sbrk` and `ALLOCATION_TYPE` becomes
  `Policy = FirstFit | BestFit`, bundled in `Config`.
- **State.** The state is a value,
  `Heap(blocks: seq<Header>, tail: Option<nat>, store: Store)`:
  - `blocks` is the chain reachable from `head`;
  - `tail` is the separate `tail` pointer;
  - `store` holds what the backing store has handed out: the live
    anonymous mappings (mmap build) and the program break (sbrk build).
- **Headers.** A `Header` records:
  - its address (the payload is `header + 1`, `HeaderSize` bytes further);
  - its size and `is_free` flag;
  - the bytes its payload holds.
- **Operations.** Every operation is a pure function from a state to a
  `Step(heap, ptr, enomem)`: the new state, the pointer returned (0 for
  NULL) and whether ENOMEM was signalled.
- **The operating system.** Its answer to a request for memory is a
  parameter, `Reply = Refused | Granted(base, bytes)`. `ReplyOk` states what
  the system guarantees:
  - a fresh mapping overlaps no live one;
  - `sbrk` returns the break the allocator itself last left, which holds
    only while nothing else in the process moves the break (see
    "Left out").

Modules, leaves first:

- `SizeArith` (size_arith.dfy): `size_t` wrap-around, the `intptr_t`
  reading of a `size_t`, and the exactness of the division overflow test.
- `Blocks` (blocks.dfy): the state, payload pointers, and the
  representation invariant `Wf`:
  - sound headers;
  - `tail` names the last block;
  - in the mmap build, no free blocks, pairwise-disjoint regions, and the
    mappings are exactly the blocks;
  - in the sbrk build, blocks laid end to end up to the break.
- `Fit` (fit.dfy): `tmalloc_get_free_block` under both policies, with a
  declarative characterisation of the block each one picks.
- `Backing` (backing.dfy): `tmalloc_morecore` against the abstract store.
- `Alloc`, `AllocLemmas` (alloc.dfy, alloc_lemmas.dfy): `tmalloc` and
  `tfree` (both builds), invariant preservation, no aliasing, and round trips.
- `Derived`, `DerivedLemmas` (derived.dfy, derived_lemmas.dfy): `tcalloc`,
  `trealloc` and `treallocarray`.

Behaviour of the code that the model reproduces rather than fixes:

- **Best fit is not minimal.** "Best fit" returns the first exact-size free
  block, or else the *last* oversized free block scanned, not the smallest
  one (`Fit.BestFitTakesLastOversized`).
- **Dangling `tail` in the mmap build.** Freeing the only block resets
  `head` but leaves `tail` naming the unmapped header. The resulting state
  violates the invariant that the next `tmalloc` needs
  (`AllocLemmas.FreeMmapSoleBlockDangles`).
- **No free blocks in the mmap build.** The mmap `tfree` always unlinks, so
  the fit scan never hits there (`AllocLemmas.MmapNeverReuses`).
- **The sbrk trim removes the tail.** It removes the *tail* and lowers the
  break by the *freed* block's size, without checking that the two are the
  same block. Under the invariant they are (`AllocLemmas.SbrkBreakBlockIsTail`).
- **A zero increment.** `tmalloc_morecore` with increment 0 answers NULL in
  the mmap build and the current break in the sbrk build (`Backing.Morecore`).
- **Different errors on overflow.** `tcalloc` returns NULL on overflow
  without ENOMEM. `treallocarray` sets ENOMEM. With a zero count or size,
  `treallocarray` returns NULL without freeing its pointer.

The code has no header sentinel, no flags field, no size threshold that
chooses between mmap and sbrk per request, and no check for corrupted headers
on free. The backing store is fixed at build time by `USE_MMAP`.

## Model

| member | source | states |
|---|---|---|
| SizeArith.ProductCheckExact | tmalloc.c:150-151 | for a non-zero count, `size == (count*size mod 2^64)/count` holds exactly when `count*size` fits in a `size_t`: the division test detects overflow and nothing else |
| Fit.FirstFitFrom | tmalloc.c:32-38 | the first-fit walk returns the first position (from the start point) whose block is free and at least the request, or none when no later block fits |
| Fit.BestFitFrom | tmalloc.c:39-47 | the best-fit walk returns the first exact-size free block if one exists; otherwise the last oversized free block, or the remembered candidate when none remains |
| Fit.GetFreeBlock | tmalloc.c:31-53 | the chosen block fits; none is chosen exactly when no block fits; first fit takes the first fitting block; best fit prefers the first exact fit, else the last oversized free block |
| Fit.PoliciesAgreeOnSoleFit | tmalloc.c:31-47 | when exactly one block fits, both policies choose it |
| Fit.BestFitTakesLastOversized | tmalloc.c:42-47 | with free blocks of 16 then 32 bytes, an 8-byte request gets the 32-byte block under best fit and the 16-byte one under first fit |
| Backing.Morecore | tmalloc.c:15-29 | increment 0 gives NULL (mmap) or the current break unchanged (sbrk); a refused positive request leaves the store as it was; mmap maps or unmaps the region and never moves the break; sbrk moves the break, answers the old one and never touches mappings |
| Backing.MorecoreRoundTrip | tmalloc.c:15-29 | growing the store by `n` and shrinking it by `n` at the address obtained restores the store exactly, in both builds |
| Blocks.LivePayloadsDistinct | test.c:25-29 | under the invariant, no two blocks on the list share a header address or a payload pointer |
| Blocks.TailIsLast | tmalloc.c:96-105 | under the invariant, the only block whose header `tail` names is the last one on the list, so the walk for its predecessor finds the one before it |
| Blocks.InitWf | tmalloc.c:4-5 | the starting state, with `head` and `tail` NULL, no mappings and a non-null break, satisfies the invariant in both builds, so the preservation lemmas apply from the first call on |
| Blocks.SbrkAscending | tmalloc.c:67-81 | in the sbrk build, every block starts at or after the end of every earlier block |
| Alloc.Malloc | tmalloc.c:55-84 | size 0 gives NULL and no change; a fit hit flips only the chosen block's `is_free` and returns its payload; a miss appends one in-use header of the requested size at the tail, with the store grown by header plus size; refusal (or a request too large to reach the store) gives NULL, ENOMEM and no change |
| Alloc.MallocAsWritten | tmalloc.c:67-68 | the unguarded `tmalloc`: size 0 gives NULL; on a miss the existing blocks stay a prefix of the list |
| Alloc.Free | tmalloc.c:86-145 | `tfree(NULL)` changes nothing, and `tfree` never lengthens the list |
| AllocLemmas.MmapNeverReuses | tmalloc.c:92-120 | in the mmap build no block on the list is free, so the fit scan always misses |
| AllocLemmas.AppendKeepsWf | tmalloc.c:75-81 | a header written where the backing store answered and linked after the tail keeps the invariant: in the mmap build its fresh region joins the mappings, in the sbrk build it fills the space up to the new break |
| AllocLemmas.MallocPreservesWf | tmalloc.c:60-83 | `tmalloc` keeps the list invariant in both builds, on hit, miss and failure |
| AllocLemmas.MallocNoAliasing | tmalloc.c:60-83 | a returned pointer was not the payload of any block in use before the call, and afterwards names a block in use of at least the requested size |
| AllocLemmas.MallocAgreesBelowLimit | tmalloc.c:67-68 | for requests up to `INTPTR_MAX - sizeof(header)`, the guarded and the as-written `tmalloc` coincide |
| AllocLemmas.MallocAsWrittenOverflows | tmalloc.c:67-68 | as written, `tmalloc(SIZE_MAX)` in the mmap build maps a 23-byte region, hands out a block recording `SIZE_MAX` bytes there, and breaks the invariant |
| AllocLemmas.MmapUnlinkShape | tmalloc.c:94-116 | the head, tail and middle branches of the mmap unlink all remove exactly the freed block; `tail` moves to the predecessor only when a non-head tail is freed |
| AllocLemmas.FreeMmapUnlinks | tmalloc.c:92-118 | mmap `tfree` removes the block, keeps the others in order, unmaps exactly its region, and keeps the invariant when another block remains |
| AllocLemmas.FreeMmapSoleBlockDangles | tmalloc.c:94 | freeing the only block in the mmap build empties the list and the mappings but leaves `tail` naming the freed header, which breaks the invariant |
| AllocLemmas.SbrkBreakBlockIsTail | tmalloc.c:124-135 | under the sbrk invariant, the block whose payload ends at the program break is the last block on the list |
| AllocLemmas.FreeSbrkAtBreak | tmalloc.c:123-139 | sbrk `tfree` of the block at the break removes the last block and lowers the break by header plus its size, keeping the invariant |
| AllocLemmas.FreeSbrkMarksFree | tmalloc.c:141 | sbrk `tfree` of any other block sets only its `is_free`; every other block, the tail and the store are unchanged |
| AllocLemmas.FreePreservesWf | tmalloc.c:86-145 | `tfree` keeps the invariant in both builds, except when freeing the only block in the mmap build |
| AllocLemmas.FreeReleases | tmalloc.c:86-145 | after `tfree(p)`, `p` no longer names a block in use |
| AllocLemmas.FreeKeepsOthers | tmalloc.c:94-141 | every block other than the freed one stays on the list, unchanged and found from its payload pointer |
| AllocLemmas.MallocFreeRoundTrip | tmalloc.c:55-145 | a block obtained from the backing store and freed at once restores list, tail and store exactly (in the mmap build, when the list was not empty) |
| AllocLemmas.SbrkReuseAfterFree | tmalloc.c:60-65 | in the sbrk build, after freeing the only free block (not at the break), a request it can hold gets the same pointer back under either policy |
| Derived.Calloc | tmalloc.c:147-158 | zero count or size, or a product overflowing `size_t`, gives NULL without ENOMEM and no change; otherwise the pointer and ENOMEM are those of `tmalloc(count*size)` |
| DerivedLemmas.CallocZeroFills | tmalloc.c:147-157 | a successful `tcalloc` returns a block in use, not in use before, of at least `count*size` bytes whose first `count*size` bytes are zero, and keeps the invariant; every other block stays at its position, unchanged |
| Derived.Realloc | tmalloc.c:160-170 | `(NULL, 0)` gives NULL; `(p, 0)` frees `p` and gives NULL; `(NULL, n)` is `tmalloc(n)`; a size not above the stored size returns `p` with no change |
| DerivedLemmas.ReallocGrowCopies | tmalloc.c:172-177 | growing: on success the new pointer differs from `p` and was not in use before the call, names a block in use of at least the new size starting with the old payload, `p` is no longer in use, and every block other than the old and the new one stays on the list unchanged; on failure nothing changes and ENOMEM is signalled |
| Derived.ReallocArray | tmalloc.c:181-193 | zero count or size gives NULL without ENOMEM; an overflowing product gives NULL with ENOMEM and no change; otherwise it is `trealloc` to the exact product |

## Left out

- The system calls `mmap`, `munmap` and `sbrk` are replaced by the abstract `Store` and the `Reply` parameter. Page rounding and address-space limits are the system's concern and appear only as refusals.
- The pthread mutex and its lock/unlock macros are not modelled; every operation is one atomic step. This leaves out the `pthread_mutex_unluck` misspelling (tmalloc.h:29) and the missing unlock on the mmap `tfree` path (tmalloc.c:120).
- `errno` is reduced to the `enomem` flag of a step. Whether `USE_ERRNO` is defined does not change the model.
- Backing.Morecore: unmapping always succeeds and answers 1. `tfree` ignores the answer (tmalloc.c:118), so there a failing `munmap` would change nothing the allocator observes. The other caller that can pass a negative increment is the unguarded `tmalloc`; see the next line.
- Alloc.MallocAsWritten: as written, requests from `INTPTR_MAX - 23` to `SIZE_MAX - 24` reach `tmalloc_morecore` as a negative increment. In the mmap build that is `munmap(NULL, -increment)`: the code either gets NULL and sets ENOMEM, or gets `(void*)1` and writes a header through address 1, which is undefined behaviour (tmalloc.c:19-20, 69-76). The model takes the success answer and hands out a block whose header is at address 1, without ENOMEM. In the sbrk build the model answers NULL with ENOMEM unless the break is at or above `-increment`, in which case it lowers the break and hands out a block there. Neither outcome is meaningful, and the corrected `Alloc.Malloc` refuses all these requests.
- Backing.Morecore: lowering the break fails only if it would go below address 0. The sbrk `tfree` ignores this result too.
- The sbrk build assumes the allocator is the only code that moves the program break. The model's break is the one the allocator last left, and `tfree` reads it from the model instead of asking the system (tmalloc.c:123). If other code, such as a libc `malloc` in the same program, also calls `sbrk`, the end-to-end layout of the sbrk invariant fails. So do the lemmas that rely on it: `AllocLemmas.SbrkBreakBlockIsTail`, `AllocLemmas.FreeSbrkAtBreak` and the sbrk case of `AllocLemmas.MallocFreeRoundTrip`.
- `ALLOCATION_TYPE` values other than 0 and 1, which print an error and always miss (tmalloc.c:48-51), are not a `Policy`.
- Alloc.Malloc, Alloc.MallocAsWritten: both require the list invariant, so the state left by freeing the only block in the mmap build is outside their domain. From that state the next `tmalloc` that reaches the backing store sets `head` to the new header and then writes `tail->next` through the stale `tail` (tmalloc.c:79-81). If the new mapping lies elsewhere, that write goes into unmapped memory. If the system reuses the freed address, the header's `next` points to itself, and every later `tmalloc` with a non-zero size loops forever in the fit scan (tmalloc.c:34-36, 42-45), since no mmap block is ever free. The sequence representation cannot express either outcome.
- Alloc.Free: requires a pointer that `tmalloc` returned and the list still holds. Foreign pointers and a double free in the mmap build are undefined behaviour in the code and are not modelled.
- Alloc.MallocAsWritten: for requests whose size wraps, the payload contents of the new block are whatever the reply says or empty, and are not meaningful.
- Derived.Calloc, Derived.Realloc, Derived.ReallocArray: they are built on the corrected `Alloc.Malloc`, while the code's `tcalloc` and `trealloc` call the unguarded `tmalloc` (tmalloc.c:153, 167, 172). Requests from `INTPTR_MAX - 23` up therefore get NULL and ENOMEM in the model, where the code takes the wrapped path; `tcalloc(1, SIZE_MAX)`, for instance, would map 23 bytes and then `memset` `SIZE_MAX` bytes.
- `HeaderSize` is fixed at 24 bytes (a `size_t`, a `bool` and a pointer on a 64-bit target). `struct tmalloc_header` itself is not part of this model.
- tmalloc.h's include variants (`RHINO_KERNEL`) and prototypes, and test.c as a program. The property test.c checks is `Blocks.LivePayloadsDistinct` together with `AllocLemmas.MallocNoAliasing`.

## Findings

| source | as written | input that shows it | evidently intended | confidence | as-written member | corrected member |
|---|---|---|---|---|---|---|
| tmalloc.c:67-68 | `total_size = size + sizeof(struct tmalloc_header)` is computed in `size_t` and passed to `tmalloc_morecore` as an `intptr_t`, with no range check | `tmalloc(SIZE_MAX)` in the mmap build: the total wraps to 23, a 23-byte mapping is made, and a block recording `SIZE_MAX` payload bytes is handed out inside it (sizes from `INTPTR_MAX - 23` to `SIZE_MAX - 24` become negative increments instead) | a request whose header-inclusive size is not a positive `intptr_t` fails with ENOMEM and leaves the heap unchanged | high; not executed | Alloc.MallocAsWritten, exhibited by AllocLemmas.MallocAsWrittenOverflows | Alloc.Malloc, with AllocLemmas.MallocPreservesWf and AllocLemmas.MallocAgreesBelowLimit |
