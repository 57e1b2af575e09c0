/** The interface built on `tmalloc` and `tfree`: zeroed allocation of an
    array (`tcalloc`), resizing (`trealloc`) and resizing an array
    (`treallocarray`), with the overflow check on `count * size`. */
module Derived {
  import opened SizeArith
  import opened Blocks
  import opened Backing
  import opened Alloc
  import opened AllocLemmas

  function Zeros(n: nat): (z: seq<Byte>)
    ensures |z| == n && forall k :: 0 <= k < n ==> z[k] == 0
  {
    seq(n, _ => 0)
  }

  /** A payload after `src` is written at its start, as `memset` and
      `memcpy` do; the bytes past `src` keep their value. */
  function Overwrite(data: seq<Byte>, src: seq<Byte>): (r: seq<Byte>)
    ensures |r| == |data|
    ensures forall k :: 0 <= k < |r| ==> r[k] == if k < |src| then src[k] else data[k]
  {
    if |src| <= |data| then src + data[|src|..] else src[..|data|]
  }

  /** Writing `src` into the payload at `ptr`. Headers, order, `tail` and
      the store are untouched. */
  function WritePayload(h: Heap, ptr: nat, src: seq<Byte>): (h': Heap)
    ensures |h'.blocks| == |h.blocks| && h'.tail == h.tail && h'.store == h.store
    ensures forall k :: 0 <= k < |h.blocks| ==>
              && h'.blocks[k].addr == h.blocks[k].addr
              && h'.blocks[k].size == h.blocks[k].size
              && h'.blocks[k].isFree == h.blocks[k].isFree
              && |h'.blocks[k].data| == |h.blocks[k].data|
  {
    h.(blocks := seq(|h.blocks|, k requires 0 <= k < |h.blocks| =>
      var b := h.blocks[k];
      if Payload(b) == ptr then b.(data := Overwrite(b.data, src)) else b))
  }

  lemma RegionsPointwise(bs: seq<Header>, cs: seq<Header>)
    requires |bs| == |cs|
    requires forall k :: 0 <= k < |bs| ==> RegionOf(bs[k]) == RegionOf(cs[k])
    ensures Regions(bs) == Regions(cs)
  {
    forall x | x in Regions(bs) ensures x in Regions(cs) {
      var b :| b in bs && RegionOf(b) == x;
      var k :| 0 <= k < |bs| && bs[k] == b;
      assert cs[k] in cs;
    }
    forall x | x in Regions(cs) ensures x in Regions(bs) {
      var c :| c in cs && RegionOf(c) == x;
      var k :| 0 <= k < |cs| && cs[k] == c;
      assert bs[k] in bs;
    }
  }

  /** Writing a payload keeps the invariant, and the written block holds
      `src` at its start when `src` fits. */
  lemma WritePayloadKeepsWf(mode: Mode, h: Heap, ptr: nat, src: seq<Byte>)
    requires Wf(mode, h)
    ensures var w := WritePayload(h, ptr, src);
            && Wf(mode, w)
            && (forall k :: 0 <= k < |h.blocks| && Payload(h.blocks[k]) == ptr ==>
                  w.blocks[k].data == Overwrite(h.blocks[k].data, src))
            && (forall k :: 0 <= k < |h.blocks| && Payload(h.blocks[k]) != ptr ==> w.blocks[k] == h.blocks[k])
  {
    var w := WritePayload(h, ptr, src);
    RegionsPointwise(h.blocks, w.blocks);
    if |h.blocks| > 0 {
      assert Last(w.blocks).addr == Last(h.blocks).addr;
    }
  }

  /** `tcalloc`: `nmemb * size` bytes, zero-filled, or null when either
      count is zero or the product does not fit in a `size_t`. */
  function Calloc(cfg: Config, h: Heap, nmemb: SizeT, size: SizeT, reply: Reply): (s: Step)
    requires Wf(cfg.mode, h)
    requires ReplyOk(cfg.mode, h.store, MulWrap(nmemb, size), reply)
    ensures nmemb == 0 || size == 0 ==> s == Step(h, Null, false)
    ensures nmemb > 0 && size > 0 && nmemb * size >= SizeLimit ==> s == Step(h, Null, false)
    ensures nmemb > 0 && size > 0 && nmemb * size < SizeLimit ==>
              var m := Malloc(cfg, h, MulWrap(nmemb, size), reply);
              s.ptr == m.ptr && s.enomem == m.enomem && (m.ptr == Null ==> s.heap == h)
  {
    if nmemb == 0 || size == 0 then Step(h, Null, false)
    else
      ProductCheckExact(nmemb, size);
      var n := MulWrap(nmemb, size);
      if !ProductChecks(nmemb, size) then Step(h, Null, false)
      else
        var m := Malloc(cfg, h, n, reply);
        if m.ptr == Null then m
        else Step(WritePayload(m.heap, m.ptr, Zeros(n)), m.ptr, m.enomem)
  }

  /** `trealloc`. */
  function Realloc(cfg: Config, h: Heap, ptr: nat, size: SizeT, reply: Reply): (s: Step)
    requires Wf(cfg.mode, h)
    requires ptr == Null || InList(h.blocks, ptr)
    requires ReplyOk(cfg.mode, h.store, size, reply)
    ensures ptr == Null && size == 0 ==> s == Step(h, Null, false)
    ensures ptr != Null && size == 0 ==> s == Step(Free(cfg.mode, h, ptr), Null, false)
    ensures ptr == Null && size > 0 ==> s == Malloc(cfg, h, size, reply)
    ensures ptr != Null && 0 < size <= BlockAt(h.blocks, ptr).size ==> s == Step(h, ptr, false)
  {
    if ptr == Null && size == 0 then Step(h, Null, false)
    else if size == 0 then Step(Free(cfg.mode, h, ptr), Null, false)
    else if ptr == Null then Malloc(cfg, h, size, reply)
    else
      var prev := BlockAt(h.blocks, ptr);
      if prev.size >= size then Step(h, ptr, false)
      else
        var m := Malloc(cfg, h, size, reply);
        if m.ptr == Null then m
        else
          GrowKeepsOld(cfg, h, ptr, size, reply);
          Step(Free(cfg.mode, WritePayload(m.heap, m.ptr, prev.data), ptr), m.ptr, m.enomem)
  }

  /** On the grow path the old block is still on the list after the new one
      is obtained and filled, with the same payload pointer. */
  lemma GrowKeepsOld(cfg: Config, h: Heap, ptr: nat, size: SizeT, reply: Reply)
    requires Wf(cfg.mode, h) && InList(h.blocks, ptr)
    requires ReplyOk(cfg.mode, h.store, size, reply)
    requires BlockAt(h.blocks, ptr).size < size
    ensures var m := Malloc(cfg, h, size, reply);
            var w := WritePayload(m.heap, m.ptr, BlockAt(h.blocks, ptr).data);
            && Wf(cfg.mode, w)
            && InList(w.blocks, ptr)
            && BlockIndex(w.blocks, ptr) == BlockIndex(h.blocks, ptr)
            && BlockAt(w.blocks, ptr).size == BlockAt(h.blocks, ptr).size
            && BlockAt(w.blocks, ptr).data == BlockAt(h.blocks, ptr).data
  {
    var m := Malloc(cfg, h, size, reply);
    var k := BlockIndex(h.blocks, ptr);
    var prev := h.blocks[k];
    MallocPreservesWf(cfg, h, size, reply);
    MallocNoAliasing(cfg, h, size, reply);
    assert k < |m.heap.blocks| && m.heap.blocks[k].addr == prev.addr && m.heap.blocks[k].size == prev.size;
    assert m.heap.blocks[k].data == prev.data;
    assert m.ptr != ptr;
    var w := WritePayload(m.heap, m.ptr, prev.data);
    WritePayloadKeepsWf(cfg.mode, m.heap, m.ptr, prev.data);
    assert w.blocks[k] == m.heap.blocks[k];
    BlockIndexOf(cfg.mode, w, k);
  }

  /** `treallocarray`: null for a zero count or size, null with ENOMEM when
      the product overflows, otherwise `trealloc` to the product. */
  function ReallocArray(cfg: Config, h: Heap, ptr: nat, nmemb: SizeT, size: SizeT, reply: Reply): (s: Step)
    requires Wf(cfg.mode, h)
    requires ptr == Null || InList(h.blocks, ptr)
    requires ReplyOk(cfg.mode, h.store, MulWrap(nmemb, size), reply)
    ensures nmemb == 0 || size == 0 ==> s == Step(h, Null, false)
    ensures nmemb > 0 && size > 0 && nmemb * size >= SizeLimit ==> s == Step(h, Null, true)
    ensures nmemb > 0 && size > 0 && nmemb * size < SizeLimit ==> s == Realloc(cfg, h, ptr, MulWrap(nmemb, size), reply)
  {
    if nmemb == 0 || size == 0 then Step(h, Null, false)
    else
      ProductCheckExact(nmemb, size);
      var n := MulWrap(nmemb, size);
      if !ProductChecks(nmemb, size) then Step(h, Null, true)
      else Realloc(cfg, h, ptr, n, reply)
  }
}
