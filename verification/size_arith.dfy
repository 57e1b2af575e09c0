/** Machine arithmetic the allocator relies on: `size_t` is a 64-bit unsigned
    integer whose products and sums wrap modulo 2^64, and `intptr_t` is its
    signed counterpart, used for the increment handed to the backing store. */
module SizeArith {

  /** 2^64, the modulus of `size_t` arithmetic. */
  const SizeLimit: nat := 0x1_0000_0000_0000_0000

  /** The largest value of `intptr_t`. */
  const IntptrMax: nat := 0x7FFF_FFFF_FFFF_FFFF

  /** The values a `size_t` can hold. */
  type SizeT = x: nat | x < SizeLimit

  /** `a * b` evaluated in `size_t`. */
  function MulWrap(a: SizeT, b: SizeT): SizeT {
    (a * b) % SizeLimit
  }

  /** `a + b` evaluated in `size_t`. */
  function AddWrap(a: SizeT, b: SizeT): SizeT {
    (a + b) % SizeLimit
  }

  /** The two's-complement reading of a `size_t` as an `intptr_t`. */
  function AsIntptr(x: SizeT): (r: int)
    ensures -(IntptrMax + 1) <= r <= IntptrMax
    ensures r >= 0 <==> x <= IntptrMax
    ensures (r + SizeLimit) % SizeLimit == x
  {
    if x <= IntptrMax then x else x - SizeLimit
  }

  /** The overflow test of `tcalloc` and `treallocarray`: multiply in
      `size_t`, divide back, and compare with the second factor. */
  predicate ProductChecks(n: SizeT, s: SizeT)
    requires n > 0
  {
    s == MulWrap(n, s) / n
  }

  lemma DivOfProduct(n: int, s: int)
    requires n > 0
    ensures (n * s) / n == s
  {
    var q := (n * s) / n;
    var r := (n * s) % n;
    assert n * s == n * q + r;
    assert n * (s - q) == r;
    if s - q >= 1 {
      MulAtLeast(n, s - q);
    } else if s - q <= -1 {
      MulAtLeast(n, q - s);
    }
  }

  lemma MulAtLeast(n: int, k: int)
    requires n > 0 && k >= 1
    ensures n * k >= n
  {
    assert n * k == n * (k - 1) + n;
  }

  /** The division test is exact: for a non-zero count it passes precisely
      when the mathematical product fits in a `size_t`, and then the
      wrapped product is the mathematical one. */
  lemma {:induction false} ProductCheckExact(n: SizeT, s: SizeT)
    requires n > 0
    ensures ProductChecks(n, s) <==> n * s < SizeLimit
    ensures ProductChecks(n, s) ==> MulWrap(n, s) == n * s
  {
    var p := n * s;
    var w := MulWrap(n, s);
    if p < SizeLimit {
      assert w == p;
      DivOfProduct(n, s);
    } else {
      DivLowerBound(w, n);
    }
  }

  lemma DivLowerBound(w: nat, n: int)
    requires n > 0
    ensures n * (w / n) <= w
  {
  }
}
