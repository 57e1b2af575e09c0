/** The backing-store adapter (`tmalloc_morecore`). The operating system's
    side is abstract: its answer to a request for more memory is a `Reply`
    parameter, and the store records only what the allocator can observe. */
module Backing {
  import opened Blocks

  /** The operating system's answer to a request for fresh memory: refused,
      or granted at `base`, whose payload bytes currently hold `bytes`. */
  datatype Reply = Refused | Granted(base: nat, bytes: seq<Byte>)

  /** What the operating system guarantees of a granted request of `len`
      bytes: an anonymous mapping is non-null and overlaps no live mapping;
      `sbrk` hands back the old program break. */
  predicate ReplyFits(mode: Mode, st: Store, len: nat, reply: Reply) {
    reply.Granted? ==>
      match mode
      case Mmap => reply.base > 0 && forall r :: r in st.mapped ==> Disjoint(Region(reply.base, len), r)
      case Sbrk => reply.base == st.brk
  }

  /** A reply suitable for a block of `size` payload bytes. */
  predicate ReplyOk(mode: Mode, st: Store, size: nat, reply: Reply) {
    && ReplyFits(mode, st, HeaderSize + size, reply)
    && (reply.Granted? ==> |reply.bytes| == size)
  }

  /** `tmalloc_morecore(addr, increment)`: the new store and the pointer
      returned (`Null` for failure). The mmap build maps a fresh region for a
      positive increment, unmaps `[addr, addr - increment)` for a negative
      one (answering 1 for success), and refuses 0; the sbrk build moves the
      break by `increment` and answers the old break. */
  function Morecore(mode: Mode, st: Store, addr: nat, increment: int, reply: Reply): (r: (Store, nat))
    ensures mode == Mmap && increment == 0 ==> r == (st, Null)
    ensures mode == Sbrk && increment == 0 ==> r == (st, st.brk)
    ensures increment > 0 && reply.Refused? ==> r == (st, Null)
    ensures mode == Mmap ==> r.0.brk == st.brk
    ensures mode == Sbrk ==> r.0.mapped == st.mapped
    ensures mode == Sbrk && r.0 != st ==> r.1 == st.brk && r.0.brk == st.brk + increment
    ensures mode == Sbrk && increment != 0 && (increment > 0 ==> reply.Granted?) && st.brk + increment >= 0 ==>
              r == (st.(brk := st.brk + increment), st.brk)
    ensures mode == Sbrk && st.brk + increment < 0 ==> r == (st, Null)
    ensures mode == Mmap && increment > 0 && reply.Granted? ==>
              r.1 == reply.base && r.0.mapped == st.mapped + {Region(reply.base, increment)}
    ensures mode == Mmap && increment < 0 ==> r.1 != Null && r.0.mapped == st.mapped - {Region(addr, -increment)}
  {
    match mode
    case Mmap =>
      if increment == 0 then (st, Null)
      else if increment < 0 then (st.(mapped := st.mapped - {Region(addr, -increment)}), 1)
      else if reply.Granted? then (st.(mapped := st.mapped + {Region(reply.base, increment)}), reply.base)
      else (st, Null)
    case Sbrk =>
      if increment > 0 && reply.Refused? then (st, Null)
      else if st.brk + increment < 0 then (st, Null)
      else (st.(brk := st.brk + increment), st.brk)
  }

  /** Growing the store by `n` bytes and then shrinking it by the same `n`
      at the address obtained gives back the original store. */
  lemma MorecoreRoundTrip(mode: Mode, st: Store, n: nat, reply: Reply)
    requires n > 0 && reply.Granted?
    requires ReplyFits(mode, st, n, reply)
    requires mode == Sbrk ==> st.brk > 0
    ensures var (grown, p) := Morecore(mode, st, Null, n, reply);
            && p != Null
            && Morecore(mode, grown, p, -(n as int), Refused).0 == st
  {
    if mode == Mmap {
      var region := Region(reply.base, n);
      assert !Disjoint(region, region);
      assert st.mapped + {region} - {region} == st.mapped;
    }
  }
}
