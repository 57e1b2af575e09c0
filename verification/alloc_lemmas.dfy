/** What `tmalloc` and `tfree` guarantee: the list invariant is kept, a
    returned pointer never aliases a block in use, the unlinking and trimming
    paths remove exactly the freed block, and a fresh block freed straight
    away leaves the allocator as it was. */
module AllocLemmas {
  import opened SizeArith
  import opened Blocks
  import opened Fit
  import opened Backing
  import opened Alloc

  /** In the mmap build nothing on the list is ever free, so the fit scan
      never hits and every non-zero request goes to the backing store. */
  lemma MmapNeverReuses(policy: Policy, h: Heap, size: nat)
    requires Wf(Mmap, h)
    ensures GetFreeBlock(policy, h.blocks, size).None?
  {
  }

  /** Taking a free block back into use keeps the invariant: in the sbrk
      build the layout is untouched, and the mmap build has no free block. */
  lemma ReuseKeepsWf(mode: Mode, h: Heap, i: nat)
    requires Wf(mode, h) && i < |h.blocks|
    ensures Wf(mode, Reuse(h, i))
  {
    var h' := Reuse(h, i);
    if mode == Mmap {
      assert h.blocks[i].(isFree := false) == h.blocks[i];
      assert h'.blocks == h.blocks;
    } else {
      assert forall k :: 0 <= k < |h.blocks| ==>
        h'.blocks[k].addr == h.blocks[k].addr && h'.blocks[k].size == h.blocks[k].size && h'.blocks[k].data == h.blocks[k].data;
    }
  }

  /** Appending a header the backing store just handed out keeps the
      invariant: in the mmap build its region overlaps no live mapping and
      becomes one; in the sbrk build it starts at the old break and ends at
      the new one. */
  lemma AppendKeepsWf(mode: Mode, h: Heap, b: Header, st: Store)
    requires Wf(mode, h) && Sound(b) && !b.isFree
    requires mode == Mmap ==>
               && (forall r :: r in h.store.mapped ==> Disjoint(RegionOf(b), r))
               && st.mapped == h.store.mapped + {RegionOf(b)}
    requires mode == Sbrk ==> b.addr == h.store.brk && st.brk == End(b)
    ensures Wf(mode, Heap(h.blocks + [b], Some(b.addr), st))
  {
    var h' := Heap(h.blocks + [b], Some(b.addr), st);
    var n := |h.blocks|;
    forall k | 0 <= k < |h'.blocks| ensures Sound(h'.blocks[k]) {
      if k < n {
        assert h'.blocks[k] == h.blocks[k];
      }
    }
    if mode == Mmap {
      forall j, k | 0 <= j < k < |h'.blocks|
        ensures Disjoint(RegionOf(h'.blocks[j]), RegionOf(h'.blocks[k]))
      {
        assert h'.blocks[j] == h.blocks[j];
        if k == n {
          assert h.blocks[j] in h.blocks;
          assert RegionOf(h.blocks[j]) in h.store.mapped;
        } else {
          assert h'.blocks[k] == h.blocks[k];
        }
      }
      RegionsAppend(h.blocks, b);
    } else {
      forall k | 0 < k < |h'.blocks| ensures h'.blocks[k].addr == End(h'.blocks[k - 1]) {
        assert h'.blocks[k - 1] == h.blocks[k - 1];
        if k < n {
          assert h'.blocks[k] == h.blocks[k];
        }
      }
    }
  }

  lemma MallocPreservesWf(cfg: Config, h: Heap, size: SizeT, reply: Reply)
    requires Wf(cfg.mode, h)
    requires ReplyOk(cfg.mode, h.store, size, reply)
    ensures Wf(cfg.mode, Malloc(cfg, h, size, reply).heap)
  {
    var s := Malloc(cfg, h, size, reply);
    var fit := GetFreeBlock(cfg.policy, h.blocks, size);
    if size == 0 || s.ptr == Null {
    } else if fit.Some? {
      ReuseKeepsWf(cfg.mode, h, fit.value);
    } else {
      AppendKeepsWf(cfg.mode, h, Header(reply.base, size, false, reply.bytes), s.heap.store);
    }
  }

  /** No aliasing: a pointer `tmalloc` returns was not the payload of any
      block in use before the call, and is the payload of a block in use of
      at least the requested size after it. */
  lemma MallocNoAliasing(cfg: Config, h: Heap, size: SizeT, reply: Reply)
    requires Wf(cfg.mode, h)
    requires ReplyOk(cfg.mode, h.store, size, reply)
    ensures var s := Malloc(cfg, h, size, reply);
            s.ptr != Null ==>
              && !Live(h.blocks, s.ptr)
              && Live(s.heap.blocks, s.ptr)
              && InList(s.heap.blocks, s.ptr)
              && !BlockAt(s.heap.blocks, s.ptr).isFree
              && BlockAt(s.heap.blocks, s.ptr).size >= size
  {
    var s := Malloc(cfg, h, size, reply);
    if s.ptr != Null {
      MallocPreservesWf(cfg, h, size, reply);
      LivePayloadsDistinct(cfg.mode, h);
      var fit := GetFreeBlock(cfg.policy, h.blocks, size);
      var i := if fit.Some? then fit.value else |h.blocks|;
      assert i < |s.heap.blocks| && Payload(s.heap.blocks[i]) == s.ptr;
      BlockIndexOf(cfg.mode, s.heap, i);
      if fit.None? {
        forall k | 0 <= k < |h.blocks|
          ensures Payload(h.blocks[k]) != s.ptr
        {
          WfDisjoint(cfg.mode, s.heap, k, i);
        }
      }
    }
  }

  /** `tmalloc` leaves every block other than the one it hands out at its
      position and unchanged. */
  lemma MallocKeepsOthers(cfg: Config, h: Heap, size: SizeT, reply: Reply, j: nat)
    requires Wf(cfg.mode, h)
    requires ReplyOk(cfg.mode, h.store, size, reply)
    requires j < |h.blocks|
    ensures var s := Malloc(cfg, h, size, reply);
            Payload(h.blocks[j]) != s.ptr ==> j < |s.heap.blocks| && s.heap.blocks[j] == h.blocks[j]
  {
  }

  /** Below the limit the correction changes nothing. */
  lemma MallocAgreesBelowLimit(cfg: Config, h: Heap, size: SizeT, reply: Reply)
    requires Wf(cfg.mode, h)
    requires ReplyOk(cfg.mode, h.store, size, reply)
    requires size <= MaxRequest
    ensures Malloc(cfg, h, size, reply) == MallocAsWritten(cfg, h, size, reply)
  {
  }

  /** As written, `tmalloc(SIZE_MAX)` in the mmap build asks for
      `SIZE_MAX + 24` bytes, which wraps to 23: it maps 23 bytes, records a
      block of `SIZE_MAX` bytes there, and hands it out, so the recorded
      block is not the mapping it sits in. */
  lemma MallocAsWrittenOverflows(policy: Policy, h: Heap, reply: Reply)
    requires Wf(Mmap, h)
    requires reply.Granted? && |reply.bytes| == SizeLimit - 1
    requires ReplyFits(Mmap, h.store, HeaderSize - 1, reply)
    ensures var s := MallocAsWritten(Config(Mmap, policy), h, SizeLimit - 1, reply);
            && s.ptr == reply.base + HeaderSize
            && s.heap.store.mapped == h.store.mapped + {Region(reply.base, HeaderSize - 1)}
            && Last(s.heap.blocks).size == SizeLimit - 1
            && RegionOf(Last(s.heap.blocks)) !in s.heap.store.mapped
            && !Wf(Mmap, s.heap)
  {
    var size: SizeT := SizeLimit - 1;
    var s := MallocAsWritten(Config(Mmap, policy), h, size, reply);
    assert TotalSize(size) == HeaderSize - 1;
    var b := Last(s.heap.blocks);
    assert b == Header(reply.base, size, false, reply.bytes);
    assert s.heap.store.mapped == h.store.mapped + {Region(reply.base, HeaderSize - 1)};
    assert !Disjoint(Region(reply.base, HeaderSize - 1), RegionOf(b));
    assert b in s.heap.blocks;
  }

  /** The three branches of the mmap unlink (head, tail, middle) all remove
      exactly the freed block; `tail` follows only when the tail is freed
      and something precedes it. */
  lemma MmapUnlinkShape(h: Heap, ptr: nat)
    requires Wf(Mmap, h) && InList(h.blocks, ptr)
    ensures var i := BlockIndex(h.blocks, ptr);
            var h' := Free(Mmap, h, ptr);
            && h'.blocks == h.blocks[..i] + h.blocks[i + 1..]
            && h'.tail == (if 0 < i == |h.blocks| - 1 then Some(h.blocks[i - 1].addr) else h.tail)
            && h'.store == h.store.(mapped := h.store.mapped - {RegionOf(h.blocks[i])})
  {
    var i := BlockIndex(h.blocks, ptr);
    var n := |h.blocks|;
    var rest := h.blocks[..i] + h.blocks[i + 1..];
    if i == 0 {
      assert rest == h.blocks[1..];
    } else if h.tail == Some(h.blocks[i].addr) {
      TailIsLast(Mmap, h, i);
      assert rest == h.blocks[..i];
    } else {
      assert i != n - 1;
    }
  }

  /** Removing one block from a well-formed mmap list of two or more,
      with its region unmapped and the tail following as `tfree` moves it,
      keeps the list well formed. */
  lemma MmapRemoveKeepsWf(h: Heap, i: nat, h': Heap)
    requires Wf(Mmap, h) && i < |h.blocks| && |h.blocks| > 1
    requires h'.blocks == h.blocks[..i] + h.blocks[i + 1..]
    requires h'.tail == (if 0 < i == |h.blocks| - 1 then Some(h.blocks[i - 1].addr) else h.tail)
    requires h'.store.mapped == h.store.mapped - {RegionOf(h.blocks[i])}
    ensures Wf(Mmap, h')
  {
    var rest := h'.blocks;
    forall k | 0 <= k < |rest| ensures Sound(rest[k]) && !rest[k].isFree {
      RemoveIndex(h.blocks, i, k);
    }
    PairwiseRemove(h.blocks, i);
    RegionsRemove(h.blocks, i);
    RemoveIndex(h.blocks, i, |rest| - 1);
    assert TailOk(h');
  }

  /** mmap `tfree` unlinks the block wherever it sits, keeps the others in
      order, and unmaps exactly its region. Unless it was the only block,
      the invariant survives. */
  lemma FreeMmapUnlinks(h: Heap, ptr: nat)
    requires Wf(Mmap, h) && InList(h.blocks, ptr)
    ensures var i := BlockIndex(h.blocks, ptr);
            var h' := Free(Mmap, h, ptr);
            && h'.blocks == h.blocks[..i] + h.blocks[i + 1..]
            && h'.store.mapped == h.store.mapped - {RegionOf(h.blocks[i])}
            && h'.store.brk == h.store.brk
            && (|h.blocks| > 1 ==> Wf(Mmap, h'))
  {
    MmapUnlinkShape(h, ptr);
    if |h.blocks| > 1 {
      MmapRemoveKeepsWf(h, BlockIndex(h.blocks, ptr), Free(Mmap, h, ptr));
    }
  }

  /** The mmap build's quirk: freeing the only block resets `head` but not
      `tail`, which keeps naming the unmapped header, so the invariant the
      next `tmalloc` needs no longer holds. */
  lemma FreeMmapSoleBlockDangles(h: Heap)
    requires Wf(Mmap, h) && |h.blocks| == 1
    ensures var h' := Free(Mmap, h, Payload(h.blocks[0]));
            && h'.blocks == []
            && h'.tail == Some(h.blocks[0].addr)
            && h'.store.mapped == {}
            && !Wf(Mmap, h')
  {
    var b := h.blocks[0];
    assert InList(h.blocks, Payload(b));
    FreeMmapUnlinks(h, Payload(b));
    assert Regions(h.blocks) == {RegionOf(b)};
  }

  /** In the sbrk build the block whose payload ends at the program break
      is the last one on the list, so trimming the tail is trimming it. */
  lemma SbrkBreakBlockIsTail(h: Heap, i: nat)
    requires Wf(Sbrk, h) && i < |h.blocks|
    requires End(h.blocks[i]) == h.store.brk
    ensures i == |h.blocks| - 1
  {
    if i < |h.blocks| - 1 {
      SbrkAscending(h, i, |h.blocks| - 1);
    }
  }

  /** sbrk `tfree` of the block at the program break unlinks it and lowers
      the break by its header and payload. */
  lemma FreeSbrkAtBreak(h: Heap, ptr: nat)
    requires Wf(Sbrk, h) && InList(h.blocks, ptr)
    requires End(BlockAt(h.blocks, ptr)) == h.store.brk
    ensures var i := BlockIndex(h.blocks, ptr);
            var h' := Free(Sbrk, h, ptr);
            && i == |h.blocks| - 1
            && h'.blocks == h.blocks[..i]
            && h'.store.brk == h.store.brk - (HeaderSize + h.blocks[i].size)
            && h'.store.mapped == h.store.mapped
            && Wf(Sbrk, h')
  {
    var i := BlockIndex(h.blocks, ptr);
    SbrkBreakBlockIsTail(h, i);
    LivePayloadsDistinct(Sbrk, h);
    var h' := Free(Sbrk, h, ptr);
    if |h.blocks| > 1 {
      assert h.tail != Some(h.blocks[0].addr);
      assert Last(h'.blocks) == h.blocks[|h.blocks| - 2];
    }
  }

  /** sbrk `tfree` of any other block only sets its `is_free`. */
  lemma FreeSbrkMarksFree(h: Heap, ptr: nat)
    requires Wf(Sbrk, h) && InList(h.blocks, ptr)
    requires End(BlockAt(h.blocks, ptr)) != h.store.brk
    ensures var i := BlockIndex(h.blocks, ptr);
            var h' := Free(Sbrk, h, ptr);
            && |h'.blocks| == |h.blocks|
            && h'.blocks[i] == h.blocks[i].(isFree := true)
            && (forall k :: 0 <= k < |h.blocks| && k != i ==> h'.blocks[k] == h.blocks[k])
            && h'.tail == h.tail && h'.store == h.store
            && Wf(Sbrk, h')
  {
  }

  /** `tfree` keeps the invariant, except when the mmap build frees its only
      block. */
  lemma FreePreservesWf(mode: Mode, h: Heap, ptr: nat)
    requires Wf(mode, h) && InList(h.blocks, ptr)
    requires mode == Mmap ==> |h.blocks| > 1
    ensures Wf(mode, Free(mode, h, ptr))
  {
    if mode == Mmap {
      FreeMmapUnlinks(h, ptr);
    } else if End(BlockAt(h.blocks, ptr)) == h.store.brk {
      FreeSbrkAtBreak(h, ptr);
    } else {
      FreeSbrkMarksFree(h, ptr);
    }
  }

  /** After `tfree` the pointer no longer names a block in use. */
  lemma FreeReleases(mode: Mode, h: Heap, ptr: nat)
    requires Wf(mode, h) && InList(h.blocks, ptr)
    ensures !Live(Free(mode, h, ptr).blocks, ptr)
  {
    var i := BlockIndex(h.blocks, ptr);
    LivePayloadsDistinct(mode, h);
    var h' := Free(mode, h, ptr);
    if mode == Mmap {
      MmapUnlinkShape(h, ptr);
      forall k | 0 <= k < |h'.blocks| ensures Payload(h'.blocks[k]) != ptr {
        RemoveIndex(h.blocks, i, k);
      }
    } else if End(BlockAt(h.blocks, ptr)) == h.store.brk {
      FreeSbrkAtBreak(h, ptr);
      forall k | 0 <= k < |h'.blocks| ensures Payload(h'.blocks[k]) != ptr {
        assert h'.blocks[k] == h.blocks[k];
      }
    } else {
      FreeSbrkMarksFree(h, ptr);
    }
  }

  /** `tfree` leaves every other block on the list, unchanged and still
      found from its payload pointer. */
  lemma FreeKeepsOthers(mode: Mode, h: Heap, ptr: nat, j: nat)
    requires Wf(mode, h) && InList(h.blocks, ptr)
    requires j < |h.blocks| && j != BlockIndex(h.blocks, ptr)
    ensures var h' := Free(mode, h, ptr);
            && Wf(mode, h')
            && InList(h'.blocks, Payload(h.blocks[j]))
            && BlockAt(h'.blocks, Payload(h.blocks[j])) == h.blocks[j]
  {
    var i := BlockIndex(h.blocks, ptr);
    var h' := Free(mode, h, ptr);
    FreePreservesWf(mode, h, ptr);
    var j' := j;
    if mode == Mmap {
      FreeMmapUnlinks(h, ptr);
      j' := if j < i then j else j - 1;
    } else if End(BlockAt(h.blocks, ptr)) == h.store.brk {
      FreeSbrkAtBreak(h, ptr);
    } else {
      FreeSbrkMarksFree(h, ptr);
    }
    assert h'.blocks[j'] == h.blocks[j];
    BlockIndexOf(mode, h', j');
  }

  /** A block obtained from the backing store and freed straight away leaves
      the allocator exactly as it was: the list, the tail and the store.
      (In the mmap build this needs another block on the list; see
      `FreeMmapSoleBlockDangles`.) */
  lemma MallocFreeRoundTrip(cfg: Config, h: Heap, size: SizeT, reply: Reply)
    requires Wf(cfg.mode, h)
    requires ReplyOk(cfg.mode, h.store, size, reply)
    requires 0 < size <= MaxRequest && reply.Granted?
    requires GetFreeBlock(cfg.policy, h.blocks, size).None?
    requires cfg.mode == Mmap ==> |h.blocks| > 0
    ensures var s := Malloc(cfg, h, size, reply);
            && s.ptr != Null && Wf(cfg.mode, s.heap) && InList(s.heap.blocks, s.ptr)
            && Free(cfg.mode, s.heap, s.ptr) == h
  {
    var s := Malloc(cfg, h, size, reply);
    var b := Header(reply.base, size, false, reply.bytes);
    MallocPreservesWf(cfg, h, size, reply);
    BlockIndexOf(cfg.mode, s.heap, |h.blocks|);
    if cfg.mode == Mmap {
      assert !Disjoint(RegionOf(b), RegionOf(b));
      MmapAppendFree(h, b, s.heap.store);
    } else {
      SbrkAppendFree(h, b, s.heap.store);
    }
  }

  /** mmap build: unmapping a header that was just appended at the tail of a
      non-empty list restores the list, the tail and the mappings. */
  lemma MmapAppendFree(h: Heap, b: Header, st: Store)
    requires Wf(Mmap, h) && |h.blocks| > 0
    requires RegionOf(b) !in h.store.mapped
    requires st == h.store.(mapped := h.store.mapped + {RegionOf(b)})
    requires Wf(Mmap, Heap(h.blocks + [b], Some(b.addr), st))
    ensures InList(h.blocks + [b], Payload(b))
    ensures Free(Mmap, Heap(h.blocks + [b], Some(b.addr), st), Payload(b)) == h
  {
    var n := |h.blocks|;
    var h2 := Heap(h.blocks + [b], Some(b.addr), st);
    BlockIndexOf(Mmap, h2, n);
    MmapUnlinkShape(h2, Payload(b));
    assert h2.blocks[..n] + h2.blocks[n + 1..] == h.blocks;
    assert h2.blocks[n - 1] == Last(h.blocks);
    assert st.mapped - {RegionOf(b)} == h.store.mapped;
  }

  /** sbrk build: freeing the header that was just appended at the old
      break unlinks it and moves the break back. */
  lemma SbrkAppendFree(h: Heap, b: Header, st: Store)
    requires Wf(Sbrk, h)
    requires b.addr == h.store.brk
    requires st == h.store.(brk := End(b))
    requires Wf(Sbrk, Heap(h.blocks + [b], Some(b.addr), st))
    ensures InList(h.blocks + [b], Payload(b))
    ensures Free(Sbrk, Heap(h.blocks + [b], Some(b.addr), st), Payload(b)) == h
  {
    var n := |h.blocks|;
    var h2 := Heap(h.blocks + [b], Some(b.addr), st);
    BlockIndexOf(Sbrk, h2, n);
    FreeSbrkAtBreak(h2, Payload(b));
    assert h2.blocks[..n] == h.blocks;
  }

  /** Reuse after free in the sbrk build: when every block is in use and one
      not at the break is freed, the next request it can hold gets the same
      pointer back under either policy, since it is the only block that fits. */
  lemma SbrkReuseAfterFree(policy: Policy, h: Heap, ptr: nat, size: SizeT, reply: Reply)
    requires Wf(Sbrk, h) && InList(h.blocks, ptr)
    requires forall k :: 0 <= k < |h.blocks| ==> !h.blocks[k].isFree
    requires End(BlockAt(h.blocks, ptr)) != h.store.brk
    requires 0 < size <= BlockAt(h.blocks, ptr).size
    ensures var h1 := Free(Sbrk, h, ptr);
            && Wf(Sbrk, h1)
            && (ReplyOk(Sbrk, h1.store, size, reply) ==> Malloc(Config(Sbrk, policy), h1, size, reply).ptr == ptr)
  {
    var i := BlockIndex(h.blocks, ptr);
    var h1 := Free(Sbrk, h, ptr);
    FreeSbrkMarksFree(h, ptr);
    PoliciesAgreeOnSoleFit(h1.blocks, size, i);
  }
}
