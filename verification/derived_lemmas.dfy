/** What `tcalloc` and `trealloc` promise their callers: a zeroed block that
    aliases nothing in use, and a grown block that starts with the old
    contents while the old block is given back. */
module DerivedLemmas {
  import opened SizeArith
  import opened Blocks
  import opened Backing
  import opened Alloc
  import opened AllocLemmas
  import opened Derived

  /** A block obtained by `tmalloc` and then written from its start holds
      what was written, is in use, and aliases no block that was in use. */
  lemma MallocThenWrite(cfg: Config, h: Heap, size: SizeT, reply: Reply, src: seq<Byte>)
    requires Wf(cfg.mode, h)
    requires ReplyOk(cfg.mode, h.store, size, reply)
    requires |src| <= size
    ensures var m := Malloc(cfg, h, size, reply);
            var w := WritePayload(m.heap, m.ptr, src);
            m.ptr != Null ==>
              && Wf(cfg.mode, w)
              && !Live(h.blocks, m.ptr)
              && Live(w.blocks, m.ptr)
              && InList(w.blocks, m.ptr)
              && BlockAt(w.blocks, m.ptr).size >= size
              && BlockAt(w.blocks, m.ptr).data[..|src|] == src
  {
    var m := Malloc(cfg, h, size, reply);
    if m.ptr != Null {
      MallocPreservesWf(cfg, h, size, reply);
      MallocNoAliasing(cfg, h, size, reply);
      WriteInto(cfg.mode, m.heap, m.ptr, src);
    }
  }

  /** Writing `src` into the payload of a block on the list keeps the
      invariant, keeps the block where it was with its size and flag, and
      leaves `src` at the start of its payload. */
  lemma WriteInto(mode: Mode, h: Heap, ptr: nat, src: seq<Byte>)
    requires Wf(mode, h) && InList(h.blocks, ptr)
    requires |src| <= BlockAt(h.blocks, ptr).size
    ensures var w := WritePayload(h, ptr, src);
            && Wf(mode, w)
            && InList(w.blocks, ptr)
            && BlockAt(w.blocks, ptr).size == BlockAt(h.blocks, ptr).size
            && BlockAt(w.blocks, ptr).isFree == BlockAt(h.blocks, ptr).isFree
            && (Live(h.blocks, ptr) ==> Live(w.blocks, ptr))
            && BlockAt(w.blocks, ptr).data[..|src|] == src
  {
    var j := BlockIndex(h.blocks, ptr);
    var w := WritePayload(h, ptr, src);
    WritePayloadKeepsWf(mode, h, ptr, src);
    BlockIndexOf(mode, w, j);
    if Live(h.blocks, ptr) {
      BlockIndexOf(mode, h, j);
      LivePayloadsDistinct(mode, h);
      assert !w.blocks[j].isFree;
    }
    assert w.blocks[j].data == Overwrite(h.blocks[j].data, src);
  }

  /** Obtaining a block and writing into it leaves every other block at its
      position and unchanged. */
  lemma WriteKeepsOthers(cfg: Config, h: Heap, size: SizeT, reply: Reply, src: seq<Byte>)
    requires Wf(cfg.mode, h)
    requires ReplyOk(cfg.mode, h.store, size, reply)
    ensures var m := Malloc(cfg, h, size, reply);
            var w := WritePayload(m.heap, m.ptr, src);
            forall k :: 0 <= k < |h.blocks| && Payload(h.blocks[k]) != m.ptr ==>
              k < |w.blocks| && w.blocks[k] == h.blocks[k]
  {
    var m := Malloc(cfg, h, size, reply);
    forall k | 0 <= k < |h.blocks| && Payload(h.blocks[k]) != m.ptr
      ensures k < |m.heap.blocks| && m.heap.blocks[k] == h.blocks[k]
    {
      MallocKeepsOthers(cfg, h, size, reply, k);
    }
  }

  /** A successful `tcalloc` returns a block in use, not previously in use,
      of at least `nmemb * size` bytes, the first `nmemb * size` of them
      zero. */
  lemma CallocZeroFills(cfg: Config, h: Heap, nmemb: SizeT, size: SizeT, reply: Reply)
    requires Wf(cfg.mode, h)
    requires ReplyOk(cfg.mode, h.store, MulWrap(nmemb, size), reply)
    ensures var s := Calloc(cfg, h, nmemb, size, reply);
            var n := MulWrap(nmemb, size);
            s.ptr != Null ==>
              && n == nmemb * size
              && Wf(cfg.mode, s.heap)
              && !Live(h.blocks, s.ptr)
              && Live(s.heap.blocks, s.ptr)
              && InList(s.heap.blocks, s.ptr)
              && BlockAt(s.heap.blocks, s.ptr).size >= n
              && (forall k :: 0 <= k < n ==> BlockAt(s.heap.blocks, s.ptr).data[k] == 0)
              && forall j :: 0 <= j < |h.blocks| && Payload(h.blocks[j]) != s.ptr ==>
                   j < |s.heap.blocks| && s.heap.blocks[j] == h.blocks[j]
  {
    var s := Calloc(cfg, h, nmemb, size, reply);
    var n := MulWrap(nmemb, size);
    if s.ptr != Null {
      assert nmemb > 0 && size > 0 && ProductChecks(nmemb, size);
      ProductCheckExact(nmemb, size);
      assert s.heap == WritePayload(Malloc(cfg, h, n, reply).heap, s.ptr, Zeros(n));
      MallocThenWrite(cfg, h, n, reply, Zeros(n));
      WriteKeepsOthers(cfg, h, n, reply, Zeros(n));
      var d := BlockAt(s.heap.blocks, s.ptr).data;
      assert d[..n] == Zeros(n);
      assert forall k :: 0 <= k < n ==> d[k] == d[..n][k];
    }
  }

  /** `trealloc` to a larger size: on success the new block is in use, holds
      the old payload at its start, and the old pointer is no longer in use;
      on failure nothing changes and ENOMEM is signalled. */
  lemma ReallocGrowCopies(cfg: Config, h: Heap, ptr: nat, size: SizeT, reply: Reply)
    requires Wf(cfg.mode, h) && InList(h.blocks, ptr)
    requires ReplyOk(cfg.mode, h.store, size, reply)
    requires BlockAt(h.blocks, ptr).size < size
    ensures var s := Realloc(cfg, h, ptr, size, reply);
            var prev := BlockAt(h.blocks, ptr);
            && (s.ptr == Null ==> s == Step(h, Null, true))
            && (s.ptr != Null ==>
                  && s.ptr != ptr
                  && !Live(h.blocks, s.ptr)
                  && Wf(cfg.mode, s.heap)
                  && InList(s.heap.blocks, s.ptr)
                  && !BlockAt(s.heap.blocks, s.ptr).isFree
                  && BlockAt(s.heap.blocks, s.ptr).size >= size
                  && BlockAt(s.heap.blocks, s.ptr).data[..prev.size] == prev.data
                  && !Live(s.heap.blocks, ptr)
                  && forall j :: 0 <= j < |h.blocks| && j != BlockIndex(h.blocks, ptr) && Payload(h.blocks[j]) != s.ptr ==>
                       && InList(s.heap.blocks, Payload(h.blocks[j]))
                       && BlockAt(s.heap.blocks, Payload(h.blocks[j])) == h.blocks[j])
  {
    var s := Realloc(cfg, h, ptr, size, reply);
    var prev := BlockAt(h.blocks, ptr);
    var m := Malloc(cfg, h, size, reply);
    if s.ptr != Null {
      GrowKeepsOld(cfg, h, ptr, size, reply);
      MallocPreservesWf(cfg, h, size, reply);
      MallocNoAliasing(cfg, h, size, reply);
      var w := WritePayload(m.heap, m.ptr, prev.data);
      WritePayloadKeepsWf(cfg.mode, m.heap, m.ptr, prev.data);
      var j := BlockIndex(m.heap.blocks, m.ptr);
      var i := BlockIndex(w.blocks, ptr);
      assert j != i;
      assert w.blocks[j].data == Overwrite(m.heap.blocks[j].data, prev.data);
      assert Payload(w.blocks[j]) == m.ptr;
      FreeKeepsOthers(cfg.mode, w, ptr, j);
      FreeReleases(cfg.mode, w, ptr);
      forall j | 0 <= j < |h.blocks| && j != BlockIndex(h.blocks, ptr) && Payload(h.blocks[j]) != s.ptr
        ensures InList(s.heap.blocks, Payload(h.blocks[j])) && BlockAt(s.heap.blocks, Payload(h.blocks[j])) == h.blocks[j]
      {
        ReallocGrowKeepsOthers(cfg, h, ptr, size, reply, j);
      }
    }
  }

  /** On the grow path of `trealloc`, a block that is neither the old nor
      the new one stays on the list, unchanged and found from its payload. */
  lemma ReallocGrowKeepsOthers(cfg: Config, h: Heap, ptr: nat, size: SizeT, reply: Reply, j: nat)
    requires Wf(cfg.mode, h) && InList(h.blocks, ptr)
    requires ReplyOk(cfg.mode, h.store, size, reply)
    requires BlockAt(h.blocks, ptr).size < size
    requires j < |h.blocks| && j != BlockIndex(h.blocks, ptr)
    ensures var s := Realloc(cfg, h, ptr, size, reply);
            s.ptr != Null && Payload(h.blocks[j]) != s.ptr ==>
              && InList(s.heap.blocks, Payload(h.blocks[j]))
              && BlockAt(s.heap.blocks, Payload(h.blocks[j])) == h.blocks[j]
  {
    var s := Realloc(cfg, h, ptr, size, reply);
    var prev := BlockAt(h.blocks, ptr);
    var m := Malloc(cfg, h, size, reply);
    if s.ptr != Null && Payload(h.blocks[j]) != s.ptr {
      GrowKeepsOld(cfg, h, ptr, size, reply);
      MallocPreservesWf(cfg, h, size, reply);
      MallocKeepsOthers(cfg, h, size, reply, j);
      var w := WritePayload(m.heap, m.ptr, prev.data);
      WritePayloadKeepsWf(cfg.mode, m.heap, m.ptr, prev.data);
      assert w.blocks[j] == h.blocks[j];
      FreeKeepsOthers(cfg.mode, w, ptr, j);
    }
  }
}
