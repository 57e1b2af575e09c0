/** Choosing a free block to reuse (`tmalloc_get_free_block`). The scan is a
    pure walk along the list; it never modifies it. */
module Fit {
  import opened Blocks

  /** A block a request of `size` bytes may reuse. */
  predicate Fits(b: Header, size: nat) {
    b.isFree && b.size >= size
  }

  predicate Exact(b: Header, size: nat) {
    b.isFree && b.size == size
  }

  predicate Oversized(b: Header, size: nat) {
    b.isFree && b.size > size
  }

  /** The first-fit walk from position `i` on. */
  function FirstFitFrom(bs: seq<Header>, size: nat, i: nat): (r: Option<nat>)
    requires i <= |bs|
    ensures r.Some? ==> i <= r.value < |bs| && Fits(bs[r.value], size)
    ensures r.Some? ==> forall j :: i <= j < r.value ==> !Fits(bs[j], size)
    ensures r.None? ==> forall j :: i <= j < |bs| ==> !Fits(bs[j], size)
    decreases |bs| - i
  {
    if i == |bs| then None
    else if Fits(bs[i], size) then Some(i)
    else FirstFitFrom(bs, size, i + 1)
  }

  /** The best-fit walk from position `i` on, with `cand` the oversized block
      remembered so far: an exact fit ends the walk, and every oversized free
      block overwrites the candidate, whatever its size. */
  function BestFitFrom(bs: seq<Header>, size: nat, i: nat, cand: Option<nat>): (r: Option<nat>)
    requires i <= |bs|
    requires cand.Some? ==> cand.value < i && Oversized(bs[cand.value], size)
    ensures (exists j :: i <= j < |bs| && Exact(bs[j], size)) ==>
              && r.Some? && i <= r.value < |bs| && Exact(bs[r.value], size)
              && forall j :: i <= j < r.value ==> !Exact(bs[j], size)
    ensures (forall j :: i <= j < |bs| ==> !Exact(bs[j], size)) ==>
              if exists j :: i <= j < |bs| && Oversized(bs[j], size)
              then && r.Some? && i <= r.value < |bs| && Oversized(bs[r.value], size)
                   && forall j :: r.value < j < |bs| ==> !Oversized(bs[j], size)
              else r == cand
    decreases |bs| - i
  {
    if i == |bs| then cand
    else if Exact(bs[i], size) then Some(i)
    else BestFitFrom(bs, size, i + 1, if Oversized(bs[i], size) then Some(i) else cand)
  }

  /** `tmalloc_get_free_block`: the index of the block to reuse, or `None`
      when the backing store has to grow. */
  function GetFreeBlock(policy: Policy, bs: seq<Header>, size: nat): (r: Option<nat>)
    ensures r.Some? ==> r.value < |bs| && Fits(bs[r.value], size)
    ensures r.None? <==> forall j :: 0 <= j < |bs| ==> !Fits(bs[j], size)
    ensures policy == FirstFit && r.Some? ==> forall j :: 0 <= j < r.value ==> !Fits(bs[j], size)
    ensures policy == BestFit && (exists j :: 0 <= j < |bs| && Exact(bs[j], size)) ==>
              && r.Some? && Exact(bs[r.value], size)
              && forall j :: 0 <= j < r.value ==> !Exact(bs[j], size)
    ensures policy == BestFit && (forall j :: 0 <= j < |bs| ==> !Exact(bs[j], size)) && r.Some? ==>
              && Oversized(bs[r.value], size)
              && forall j :: r.value < j < |bs| ==> !Oversized(bs[j], size)
  {
    match policy
    case FirstFit => FirstFitFrom(bs, size, 0)
    case BestFit =>
      var r := BestFitFrom(bs, size, 0, None);
      assert forall j :: 0 <= j < |bs| && Fits(bs[j], size) ==> Exact(bs[j], size) || Oversized(bs[j], size);
      r
  }

  /** Both policies pick the same block when exactly one block fits, as when
      the only free block is the one just released. */
  lemma PoliciesAgreeOnSoleFit(bs: seq<Header>, size: nat, i: nat)
    requires i < |bs| && Fits(bs[i], size)
    requires forall j :: 0 <= j < |bs| && j != i ==> !Fits(bs[j], size)
    ensures GetFreeBlock(FirstFit, bs, size) == Some(i)
    ensures GetFreeBlock(BestFit, bs, size) == Some(i)
  {
  }

  /** Best fit as written is not a minimal-overshoot search: with free
      blocks of 16 and then 32 bytes, an 8-byte request takes the 32-byte
      block, the last oversized one scanned. */
  lemma BestFitTakesLastOversized()
    ensures var bs := [Header(64, 16, true, []), Header(128, 32, true, [])];
            && GetFreeBlock(BestFit, bs, 8) == Some(1)
            && GetFreeBlock(FirstFit, bs, 8) == Some(0)
            && bs[0].size < bs[1].size
  {
    var bs := [Header(64, 16, true, []), Header(128, 32, true, [])];
    assert Oversized(bs[1], 8);
  }
}
