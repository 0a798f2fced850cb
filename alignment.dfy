/** std::align from the C++ standard library (section 23.10.5 [ptr.align] of
    ISO C++17): find the first address at or after ptr that is a multiple of
    alignment and still leaves room for size bytes within the space bytes that
    start at ptr. The caller's ptr and space are passed by reference in C++;
    here the updated pair is returned. */
module Alignment {

  /** Misfit is the null pointer std::align returns when the storage does not
      fit; then it leaves ptr and space alone. Otherwise ptr is the aligned
      address and space is reduced by the bytes skipped to reach it. */
  datatype AlignResult = Misfit | Aligned(ptr: nat, space: nat)

  ghost predicate IsAligned(q: nat, alignment: nat)
    requires alignment > 0
  {
    q % alignment == 0
  }

  /** The bytes to skip from ptr to the next multiple of alignment. */
  function Padding(ptr: nat, alignment: nat): nat
    requires alignment > 0
  {
    (alignment - ptr % alignment) % alignment
  }

  function StdAlign(alignment: nat, size: nat, ptr: nat, space: nat): (r: AlignResult)
    requires alignment > 0
    ensures r.Aligned? ==> IsAligned(r.ptr, alignment) && ptr <= r.ptr < ptr + alignment
    ensures r.Aligned? ==> r.ptr + size <= ptr + space && r.space == space - (r.ptr - ptr)
  {
    var pad := Padding(ptr, alignment);
    PaddingReachesMultiple(ptr, alignment);
    if pad + size > space then Misfit else Aligned(ptr + pad, space - pad)
  }

  lemma PaddingReachesMultiple(ptr: nat, alignment: nat)
    requires alignment > 0
    ensures Padding(ptr, alignment) < alignment
    ensures (ptr + Padding(ptr, alignment)) % alignment == 0
  {
    var m := ptr % alignment;
    var k := ptr / alignment;
    if m == 0 {
      assert Padding(ptr, alignment) == 0;
    } else {
      assert Padding(ptr, alignment) == alignment - m;
      assert ptr + (alignment - m) == alignment * k + alignment;
      assert alignment * (k + 1) == alignment * k + alignment;
      DivModUnique(alignment * (k + 1), alignment, k + 1, 0);
    }
  }

  lemma {:induction false} MulAtLeast(a: nat, d: nat)
    requires d >= 1
    ensures a * d >= a
  {
    if d > 1 {
      MulAtLeast(a, d - 1);
      assert a * d == a * (d - 1) + a;
    }
  }

  /** Euclidean division has one quotient and one remainder. */
  lemma DivModUnique(x: nat, a: nat, q: nat, r: nat)
    requires a > 0 && r < a && x == a * q + r
    ensures x / a == q && x % a == r
  {
    var q', r' := x / a, x % a;
    assert x == a * q' + r';
    if q > q' {
      MulAtLeast(a, q - q');
    } else if q < q' {
      MulAtLeast(a, q' - q);
    }
  }

  /** Every multiple q of alignment with q >= ptr is at least ptr + Padding(ptr, alignment). */
  lemma NoMultipleBeforePadding(ptr: nat, alignment: nat, q: nat)
    requires alignment > 0 && IsAligned(q, alignment) && ptr <= q
    ensures ptr + Padding(ptr, alignment) <= q
  {
    var m := ptr % alignment;
    var k := ptr / alignment;
    var j := q / alignment;
    assert ptr == alignment * k + m;
    assert q == alignment * j;
    PaddingValue(ptr, alignment);
    if m != 0 {
      NextMultiple(alignment, k, m, j);
    }
  }

  /** The padding is 0 from a multiple of alignment, and otherwise what is
      left of alignment after the remainder. */
  lemma PaddingValue(ptr: nat, alignment: nat)
    requires alignment > 0
    ensures ptr % alignment == 0 ==> Padding(ptr, alignment) == 0
    ensures ptr % alignment != 0 ==> Padding(ptr, alignment) == alignment - ptr % alignment
  {
    var m := ptr % alignment;
    if m == 0 {
      DivModUnique(alignment, alignment, 1, 0);
    } else {
      DivModUnique(alignment - m, alignment, 0, alignment - m);
    }
  }

  /** Between the multiples a * k and a * (k + 1) there is none: a multiple
      past a * k + m, with 0 < m, is at least a * (k + 1). */
  lemma NextMultiple(a: nat, k: nat, m: nat, j: nat)
    requires 0 < m < a && a * k + m <= a * j
    ensures a * k + a <= a * j
  {
    assert a * (j - k) == a * j - a * k;
    assert a * (j - k) > 0;
    MulAtLeast(a, j - k);
  }

  /** std::align succeeds exactly when some aligned address fits, and then it
      picks the first one: whenever an aligned q in [ptr, ptr + space - size]
      exists, the result is Aligned and its ptr is at most q. */
  lemma {:induction false} StdAlignFirstFit(alignment: nat, size: nat, ptr: nat, space: nat, q: nat)
    requires alignment > 0 && IsAligned(q, alignment)
    requires ptr <= q && q + size <= ptr + space
    ensures StdAlign(alignment, size, ptr, space).Aligned?
    ensures StdAlign(alignment, size, ptr, space).ptr <= q
  {
    NoMultipleBeforePadding(ptr, alignment, q);
  }
}
