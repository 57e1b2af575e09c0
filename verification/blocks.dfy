/** The allocator's state: the singly-linked list of block headers, kept in
    allocation order from `head`, the separate `tail` pointer, and the
    backing store the blocks were carved from. The list is a sequence; a
    header's `next` is the element after it. */
module Blocks {

  datatype Option<T> = None | Some(value: T)

  type Byte = bv8

  /** `sizeof(struct tmalloc_header)`: a `size_t` size, a `bool` is_free and a
      `next` pointer, laid out on a 64-bit target. */
  const HeaderSize: nat := 24

  /** The null pointer. */
  const Null: nat := 0

  /** Where fresh memory comes from (the `USE_MMAP` build switch). */
  datatype Mode = Mmap | Sbrk

  /** How a free block is chosen for reuse (the `ALLOCATION_TYPE` switch). */
  datatype Policy = FirstFit | BestFit

  datatype Config = Config(mode: Mode, policy: Policy)

  /** One block: the header's address, the payload size it records, its
      `is_free` flag, and the bytes its payload currently holds. */
  datatype Header = Header(addr: nat, size: nat, isFree: bool, data: seq<Byte>)

  /** An address range `[base, base + len)`. */
  datatype Region = Region(base: nat, len: nat)

  /** The backing store: the live anonymous mappings (mmap build) and the
      program break (sbrk build). */
  datatype Store = Store(mapped: set<Region>, brk: nat)

  /** `blocks` is the chain reachable from `head`; `tail` is the global
      `tail` pointer, which normally names the last element of the chain. */
  datatype Heap = Heap(blocks: seq<Header>, tail: Option<nat>, store: Store)

  /** The pointer handed to the caller: `header + 1`. */
  function Payload(b: Header): nat {
    b.addr + HeaderSize
  }

  /** One past the last payload byte. */
  function End(b: Header): nat {
    Payload(b) + b.size
  }

  /** The range a block occupies, header included. */
  function RegionOf(b: Header): Region {
    Region(b.addr, HeaderSize + b.size)
  }

  predicate Disjoint(r: Region, s: Region) {
    r.base + r.len <= s.base || s.base + s.len <= r.base
  }

  predicate PairwiseDisjoint(bs: seq<Header>) {
    forall j, k :: 0 <= j < k < |bs| ==> Disjoint(RegionOf(bs[j]), RegionOf(bs[k]))
  }

  function Regions(bs: seq<Header>): set<Region> {
    set b | b in bs :: RegionOf(b)
  }

  function Last(bs: seq<Header>): Header
    requires |bs| > 0
  {
    bs[|bs| - 1]
  }

  /** `ptr` is the payload of some block on the list. */
  predicate InList(bs: seq<Header>, ptr: nat) {
    exists k :: 0 <= k < |bs| && Payload(bs[k]) == ptr
  }

  /** `ptr` is the payload of a block on the list that is in use. */
  predicate Live(bs: seq<Header>, ptr: nat) {
    exists k :: 0 <= k < |bs| && Payload(bs[k]) == ptr && !bs[k].isFree
  }

  /** The first position at or after `from` whose header sits at `a`: the
      walk along `next` that the list operations perform. */
  function IndexFrom(bs: seq<Header>, a: nat, from: nat): (i: nat)
    requires exists k :: from <= k < |bs| && bs[k].addr == a
    ensures from <= i < |bs| && bs[i].addr == a
    ensures forall k :: from <= k < i ==> bs[k].addr != a
    decreases |bs| - from
  {
    if bs[from].addr == a then from else IndexFrom(bs, a, from + 1)
  }

  /** The position of the block whose payload is `ptr`: the header lives at
      `ptr - 1` header slots. */
  function BlockIndex(bs: seq<Header>, ptr: nat): (i: nat)
    requires InList(bs, ptr)
    ensures i < |bs| && Payload(bs[i]) == ptr
  {
    IndexFrom(bs, ptr - HeaderSize, 0)
  }

  function BlockAt(bs: seq<Header>, ptr: nat): Header
    requires InList(bs, ptr)
  {
    bs[BlockIndex(bs, ptr)]
  }

  /** What every header the allocator wrote satisfies: a non-null address, a
      non-zero size (`tmalloc(0)` never creates one) and a payload of that size. */
  predicate Sound(b: Header) {
    b.addr > 0 && b.size > 0 && |b.data| == b.size
  }

  predicate TailOk(h: Heap) {
    if |h.blocks| == 0 then h.tail == None else h.tail == Some(Last(h.blocks).addr)
  }

  /** mmap build: every block is its own mapping, blocks never sit free on the
      list, and the live mappings are exactly the blocks' regions. */
  predicate MmapWf(h: Heap) {
    && (forall k :: 0 <= k < |h.blocks| ==> !h.blocks[k].isFree)
    && PairwiseDisjoint(h.blocks)
    && h.store.mapped == Regions(h.blocks)
  }

  /** sbrk build: blocks are laid end to end in list order and the last one
      ends at the program break. */
  predicate SbrkWf(h: Heap) {
    && (forall k :: 0 < k < |h.blocks| ==> h.blocks[k].addr == End(h.blocks[k - 1]))
    && h.store.brk > 0
    && (|h.blocks| > 0 ==> End(Last(h.blocks)) == h.store.brk)
  }

  /** The representation invariant every allocator operation relies on. */
  predicate Wf(mode: Mode, h: Heap) {
    && (forall k :: 0 <= k < |h.blocks| ==> Sound(h.blocks[k]))
    && TailOk(h)
    && match mode
       case Mmap => MmapWf(h)
       case Sbrk => SbrkWf(h)
  }

  /** The state before the first call: `head` and `tail` are NULL, nothing
      is mapped, and the program break is wherever the process left it. */
  lemma InitWf(mode: Mode, brk: nat)
    requires brk > 0
    ensures Wf(mode, Heap([], None, Store({}, brk)))
  {
  }

  /** Laid end to end, later blocks start after earlier ones end. */
  lemma {:induction false} SbrkAscending(h: Heap, j: nat, k: nat)
    requires SbrkWf(h)
    requires j < k < |h.blocks|
    ensures End(h.blocks[j]) <= h.blocks[k].addr
    decreases k - j
  {
    if k > j + 1 {
      SbrkAscending(h, j, k - 1);
    }
  }

  /** In either build, distinct blocks occupy disjoint regions. */
  lemma WfDisjoint(mode: Mode, h: Heap, j: nat, k: nat)
    requires Wf(mode, h)
    requires j < k < |h.blocks|
    ensures Disjoint(RegionOf(h.blocks[j]), RegionOf(h.blocks[k]))
  {
    if mode == Sbrk {
      SbrkAscending(h, j, k);
    }
  }

  /** No aliasing: distinct blocks have distinct headers and distinct
      payload pointers. */
  lemma LivePayloadsDistinct(mode: Mode, h: Heap)
    requires Wf(mode, h)
    ensures forall j, k :: 0 <= j < k < |h.blocks| ==> h.blocks[j].addr != h.blocks[k].addr
    ensures forall j, k :: 0 <= j < k < |h.blocks| ==> Payload(h.blocks[j]) != Payload(h.blocks[k])
  {
    forall j, k | 0 <= j < k < |h.blocks|
      ensures h.blocks[j].addr != h.blocks[k].addr
    {
      WfDisjoint(mode, h, j, k);
    }
  }

  /** Two positions of a well-formed list hold headers at different addresses. */
  lemma DistinctAddrs(mode: Mode, h: Heap, j: nat, k: nat)
    requires Wf(mode, h)
    requires j < |h.blocks| && k < |h.blocks| && j != k
    ensures h.blocks[j].addr != h.blocks[k].addr
  {
    if j < k {
      WfDisjoint(mode, h, j, k);
    } else {
      WfDisjoint(mode, h, k, j);
    }
  }

  /** The only block whose header `tail` names is the last one. */
  lemma TailIsLast(mode: Mode, h: Heap, i: nat)
    requires Wf(mode, h) && i < |h.blocks|
    requires h.tail == Some(h.blocks[i].addr)
    ensures i == |h.blocks| - 1
  {
    if i < |h.blocks| - 1 {
      DistinctAddrs(mode, h, i, |h.blocks| - 1);
    }
  }

  /** Under the invariant the block found from a payload pointer is the one
      that owns it. */
  lemma BlockIndexOf(mode: Mode, h: Heap, k: nat)
    requires Wf(mode, h)
    requires k < |h.blocks|
    ensures InList(h.blocks, Payload(h.blocks[k]))
    ensures BlockIndex(h.blocks, Payload(h.blocks[k])) == k
  {
    LivePayloadsDistinct(mode, h);
  }

  lemma RegionsAppend(bs: seq<Header>, b: Header)
    ensures Regions(bs + [b]) == Regions(bs) + {RegionOf(b)}
  {
    var l := Regions(bs + [b]);
    var r := Regions(bs) + {RegionOf(b)};
    forall x | x in l ensures x in r {
      var c :| c in bs + [b] && RegionOf(c) == x;
    }
    forall x | x in r ensures x in l {
      if x != RegionOf(b) {
        var c :| c in bs && RegionOf(c) == x;
        assert c in bs + [b];
      } else {
        assert b in bs + [b];
      }
    }
  }

  /** Unlinking one block of a list of pairwise-disjoint, non-empty regions
      removes exactly its region. */
  lemma RegionsRemove(bs: seq<Header>, i: nat)
    requires i < |bs|
    requires PairwiseDisjoint(bs)
    ensures Regions(bs[..i] + bs[i + 1..]) == Regions(bs) - {RegionOf(bs[i])}
  {
    RegionsRemoveSub(bs, i);
    RegionsRemoveSup(bs, i);
  }

  lemma RegionsRemoveSub(bs: seq<Header>, i: nat)
    requires i < |bs|
    requires PairwiseDisjoint(bs)
    ensures Regions(bs[..i] + bs[i + 1..]) <= Regions(bs) - {RegionOf(bs[i])}
  {
    var rest := bs[..i] + bs[i + 1..];
    forall x | x in Regions(rest) ensures x in Regions(bs) && x != RegionOf(bs[i]) {
      var c :| c in rest && RegionOf(c) == x;
      var m :| 0 <= m < |rest| && rest[m] == c;
      var k := if m < i then m else m + 1;
      assert bs[k] == c;
      DistinctRegions(bs, k, i);
    }
  }

  /** Two positions of a pairwise-disjoint list hold different regions. */
  lemma DistinctRegions(bs: seq<Header>, j: nat, k: nat)
    requires PairwiseDisjoint(bs)
    requires j < |bs| && k < |bs| && j != k
    ensures RegionOf(bs[j]) != RegionOf(bs[k])
  {
    if j < k {
      assert Disjoint(RegionOf(bs[j]), RegionOf(bs[k]));
    } else {
      assert Disjoint(RegionOf(bs[k]), RegionOf(bs[j]));
    }
  }

  lemma RegionsRemoveSup(bs: seq<Header>, i: nat)
    requires i < |bs|
    ensures Regions(bs) - {RegionOf(bs[i])} <= Regions(bs[..i] + bs[i + 1..])
  {
    var rest := bs[..i] + bs[i + 1..];
    forall x | x in Regions(bs) && x != RegionOf(bs[i]) ensures x in Regions(rest) {
      var c :| c in bs && RegionOf(c) == x;
      var k :| 0 <= k < |bs| && bs[k] == c;
      var m := if k < i then k else k - 1;
      assert rest[m] == c;
    }
  }

  /** Position `k` of a list with position `i` unlinked. */
  lemma RemoveIndex(bs: seq<Header>, i: nat, k: nat)
    requires i < |bs| && k < |bs| - 1
    ensures (bs[..i] + bs[i + 1..])[k] == bs[if k < i then k else k + 1]
  {
  }

  /** Unlinking a block keeps the remaining regions pairwise disjoint. */
  lemma PairwiseRemove(bs: seq<Header>, i: nat)
    requires i < |bs|
    requires PairwiseDisjoint(bs)
    ensures PairwiseDisjoint(bs[..i] + bs[i + 1..])
  {
    var rest := bs[..i] + bs[i + 1..];
    forall j, k | 0 <= j < k < |rest|
      ensures Disjoint(RegionOf(rest[j]), RegionOf(rest[k]))
    {
      var j' := if j < i then j else j + 1;
      var k' := if k < i then k else k + 1;
      assert rest[j] == bs[j'] && rest[k] == bs[k'];
    }
  }
}
