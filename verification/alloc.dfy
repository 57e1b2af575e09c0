/** `tmalloc` and `tfree`: taking a block into use, either by reusing a free
    one or by growing the backing store and appending a header at the tail,
    and giving it back, either by unlinking it (mmap build, and the block at
    the program break in the sbrk build) or by marking it free. */
module Alloc {
  import opened SizeArith
  import opened Blocks
  import opened Fit
  import opened Backing

  /** The outcome of one call: the new state, the pointer returned (`Null`
      for none), and whether ENOMEM was signalled. */
  datatype Step = Step(heap: Heap, ptr: nat, enomem: bool)

  /** The largest request whose header-inclusive size is still a positive
      `intptr_t`, and so reaches the backing store as a real increment. */
  const MaxRequest: nat := IntptrMax - HeaderSize

  /** `size + sizeof(struct tmalloc_header)`, evaluated in `size_t`. */
  function TotalSize(size: SizeT): SizeT {
    AddWrap(size, HeaderSize)
  }

  /** The block at position `i` taken back into use. */
  function Reuse(h: Heap, i: nat): (h': Heap)
    requires i < |h.blocks|
    ensures |h'.blocks| == |h.blocks| && h'.tail == h.tail && h'.store == h.store
    ensures h'.blocks[i] == h.blocks[i].(isFree := false)
    ensures forall k :: 0 <= k < |h.blocks| && k != i ==> h'.blocks[k] == h.blocks[k]
  {
    h.(blocks := h.blocks[i := h.blocks[i].(isFree := false)])
  }

  /** What the payload of a newly obtained block holds. */
  function Contents(reply: Reply): seq<Byte> {
    if reply.Granted? then reply.bytes else []
  }

  /** The miss path: ask the backing store for `increment` bytes and, if it
      answers, write a header there and append it at the tail. */
  function Extend(mode: Mode, h: Heap, size: nat, increment: int, reply: Reply): (s: Step)
    ensures increment > 0 && reply.Refused? ==> s == Step(h, Null, true)
    ensures increment > 0 && reply.Granted? && ReplyFits(mode, h.store, increment, reply) &&
            (mode == Sbrk ==> h.store.brk > 0) ==>
              && s.ptr == reply.base + HeaderSize && !s.enomem
              && s.heap.blocks == h.blocks + [Header(reply.base, size, false, reply.bytes)]
              && s.heap.tail == Some(reply.base)
              && (mode == Sbrk ==> s.heap.store == h.store.(brk := h.store.brk + increment))
              && (mode == Mmap ==> s.heap.store == h.store.(mapped := h.store.mapped + {Region(reply.base, increment)}))
  {
    var (st, block) := Morecore(mode, h.store, Null, increment, reply);
    if block == Null then Step(h.(store := st), Null, true)
    else
      var header := Header(block, size, false, Contents(reply));
      Step(Heap(h.blocks + [header], Some(block), st), Payload(header), false)
  }

  /** `tmalloc` exactly as written: the header-inclusive size is computed in
      `size_t` and passed on as an `intptr_t`, so huge requests wrap. */
  function MallocAsWritten(cfg: Config, h: Heap, size: SizeT, reply: Reply): (s: Step)
    requires Wf(cfg.mode, h)
    ensures size == 0 ==> s == Step(h, Null, false)
    ensures size > 0 && GetFreeBlock(cfg.policy, h.blocks, size).None? ==> h.blocks <= s.heap.blocks
  {
    if size == 0 then Step(h, Null, false)
    else match GetFreeBlock(cfg.policy, h.blocks, size)
      case Some(i) => Step(Reuse(h, i), Payload(h.blocks[i]), false)
      case None => Extend(cfg.mode, h, size, AsIntptr(TotalSize(size)), reply)
  }

  /** `tmalloc`, with a request too large for the header-inclusive size to be
      a positive `intptr_t` refused with ENOMEM instead of wrapping. */
  function Malloc(cfg: Config, h: Heap, size: SizeT, reply: Reply): (s: Step)
    requires Wf(cfg.mode, h)
    requires ReplyOk(cfg.mode, h.store, size, reply)
    ensures size == 0 ==> s == Step(h, Null, false)
    ensures s.enomem <==> size > 0 && s.ptr == Null
    ensures s.ptr == Null ==> s.heap == h
    ensures var fit := GetFreeBlock(cfg.policy, h.blocks, size);
            size > 0 && fit.Some? ==>
              && s.ptr == Payload(h.blocks[fit.value])
              && s.heap.tail == h.tail && s.heap.store == h.store
              && |s.heap.blocks| == |h.blocks|
              && s.heap.blocks[fit.value] == h.blocks[fit.value].(isFree := false)
              && forall k :: 0 <= k < |h.blocks| && k != fit.value ==> s.heap.blocks[k] == h.blocks[k]
    ensures size > 0 && GetFreeBlock(cfg.policy, h.blocks, size).None? ==>
              if reply.Refused? || size > MaxRequest then s == Step(h, Null, true)
              else
                && s.ptr == reply.base + HeaderSize
                && s.heap.blocks == h.blocks + [Header(reply.base, size, false, reply.bytes)]
                && s.heap.tail == Some(reply.base)
                && (cfg.mode == Sbrk ==> s.heap.store == h.store.(brk := h.store.brk + HeaderSize + size))
                && (cfg.mode == Mmap ==> s.heap.store == h.store.(mapped := h.store.mapped + {RegionOf(Last(s.heap.blocks))}))
  {
    if size == 0 then Step(h, Null, false)
    else match GetFreeBlock(cfg.policy, h.blocks, size)
      case Some(i) => Step(Reuse(h, i), Payload(h.blocks[i]), false)
      case None =>
        if size > MaxRequest then Step(h, Null, true)
        else Extend(cfg.mode, h, size, AsIntptr(TotalSize(size)), reply)
  }

  /** `tfree`. */
  function Free(mode: Mode, h: Heap, ptr: nat): (h': Heap)
    requires ptr == Null || (Wf(mode, h) && InList(h.blocks, ptr))
    ensures ptr == Null ==> h' == h
    ensures ptr != Null ==> |h'.blocks| <= |h.blocks|
  {
    if ptr == Null then h
    else
      var i := BlockIndex(h.blocks, ptr);
      var header := h.blocks[i];
      match mode
      case Mmap =>
        var blocks :=
          if i == 0 then h.blocks[1..]
          else if h.tail == Some(header.addr) then h.blocks[..i]
          else h.blocks[..i] + h.blocks[i + 1..];
        var tail := if i != 0 && h.tail == Some(header.addr) then Some(h.blocks[i - 1].addr) else h.tail;
        var (st, _) := Morecore(Mmap, h.store, header.addr, -(HeaderSize + header.size), Refused);
        Heap(blocks, tail, st)
      case Sbrk =>
        var (_, programBreak) := Morecore(Sbrk, h.store, Null, 0, Refused);
        if ptr + header.size == programBreak then
          var (blocks, tail) :=
            if h.tail == Some(h.blocks[0].addr) then ([], None)
            else (h.blocks[..|h.blocks| - 1], Some(h.blocks[|h.blocks| - 2].addr));
          var (st, _) := Morecore(Sbrk, h.store, Null, -(HeaderSize + header.size), Refused);
          Heap(blocks, tail, st)
        else h.(blocks := h.blocks[i := header.(isFree := true)])
  }
}
