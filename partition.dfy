/**
 * How the driver divides the input among the workers: every worker gets the
 * same number of characters, `size / nThreads`, worker `i` starting at
 * `i * (size / nThreads)`; the last `size % nThreads` characters go to nobody.
 */
module Partition {

  /** `iterate_num`: how many characters every worker scans. */
  function SliceLength(size: nat, nThreads: int): (len: nat)
    requires nThreads >= 1
    ensures nThreads * len <= size < nThreads * len + nThreads
  {
    size / nThreads
  }

  /** Where worker `i`'s slice begins when every slice is `len` long: after `i` whole slices. */
  function SliceStart(i: nat, len: nat): nat
  {
    if i == 0 then 0 else SliceStart(i - 1, len) + len
  }

  /** Length of the prefix of the input that the slices cover: all but the last `size % nThreads` characters. */
  function Covered(size: nat, nThreads: int): (c: nat)
    requires nThreads >= 1
    ensures c <= size && size - c == size % nThreads < nThreads
  {
    CoveredPrefix(size, nThreads);
    SliceStart(nThreads, SliceLength(size, nThreads))
  }

  /** Position `p` lies in worker `i`'s slice. */
  predicate InSlice(p: int, i: int, size: nat, nThreads: int)
    requires nThreads >= 1
  {
    var len := SliceLength(size, nThreads);
    0 <= i < nThreads && SliceStart(i, len) <= p < SliceStart(i, len) + len
  }

  /** Multiplying by a non-negative number keeps order. */
  lemma {:induction false} MulMono(a: nat, b: nat, c: nat)
    requires a <= b
    ensures a * c <= b * c
    decreases b - a
  {
    if a < b {
      MulMono(a + 1, b, c);
      assert (a + 1) * c == a * c + c;
    }
  }

  /** `(i + 1) * q` unfolded. */
  lemma SuccMul(i: nat, q: nat)
    ensures (i + 1) * q == i * q + q
  {
  }

  /** Worker `i` starts at `i * len`, the offset the driver computes. */
  lemma {:induction false} SliceStartProduct(i: nat, len: nat)
    ensures SliceStart(i, len) == i * len
    decreases i
  {
    if i > 0 {
      SliceStartProduct(i - 1, len);
      SuccMul(i - 1, len);
    }
  }

  /** Slices are laid out in worker order: a later worker's slice does not start before an earlier one's. */
  lemma {:induction false} SliceStartMono(i: nat, j: nat, len: nat)
    requires i <= j
    ensures SliceStart(i, len) <= SliceStart(j, len)
    decreases j - i
  {
    if i < j {
      SliceStartMono(i, j - 1, len);
    }
  }

  /** The slices cover a prefix of the input and drop exactly `size % nThreads` characters. */
  lemma CoveredPrefix(size: nat, nThreads: int)
    requires nThreads >= 1
    ensures SliceStart(nThreads, SliceLength(size, nThreads)) <= size
    ensures size - SliceStart(nThreads, SliceLength(size, nThreads)) == size % nThreads < nThreads
  {
    SliceStartProduct(nThreads, SliceLength(size, nThreads));
    assert size == nThreads * (size / nThreads) + size % nThreads;
  }

  /** With at least one character per worker no slice is empty. */
  lemma SliceNonEmpty(size: nat, nThreads: int)
    requires 1 <= nThreads <= size
    ensures SliceLength(size, nThreads) >= 1
  {
    CoveredPrefix(size, nThreads);
  }

  /** Every worker's slice lies inside the covered prefix. */
  lemma SliceInside(i: nat, size: nat, nThreads: int)
    requires nThreads >= 1 && i < nThreads
    ensures SliceStart(i, SliceLength(size, nThreads)) + SliceLength(size, nThreads) <= Covered(size, nThreads)
  {
    SliceStartMono(i + 1, nThreads, SliceLength(size, nThreads));
  }

  /** Position `p` lies in block number `p / q` of the blocks of length `q`. */
  lemma DivBlock(p: nat, q: nat)
    requires q > 0
    ensures (p / q) * q <= p < (p / q) * q + q
  {
  }

  /** Blocks of length `q` do not overlap. */
  lemma BlocksDisjoint(p: nat, i: nat, j: nat, q: nat)
    requires i * q <= p < i * q + q
    requires j * q <= p < j * q + q
    ensures i == j
  {
    if i < j {
      MulMono(i + 1, j, q);
      SuccMul(i, q);
    } else if j < i {
      MulMono(j + 1, i, q);
      SuccMul(j, q);
    }
  }

  /**
   * Each position of the covered prefix belongs to exactly one worker, the
   * one numbered `p / (size / nThreads)`; positions past it belong to none.
   */
  lemma SliceOwner(p: nat, size: nat, nThreads: int)
    requires nThreads >= 1
    ensures p < Covered(size, nThreads) ==>
      SliceLength(size, nThreads) > 0 && InSlice(p, p / SliceLength(size, nThreads), size, nThreads)
    ensures forall i :: InSlice(p, i, size, nThreads) ==> p < Covered(size, nThreads) && i == p / SliceLength(size, nThreads)
  {
    var q := SliceLength(size, nThreads);
    SliceStartProduct(nThreads, q);
    if p < Covered(size, nThreads) {
      assert q > 0;
      SliceStartProduct(p / q, q);
      DivBlock(p, q);
      if p / q >= nThreads {
        MulMono(nThreads, p / q, q);
      }
    }
    forall i | InSlice(p, i, size, nThreads)
      ensures p < Covered(size, nThreads) && i == p / q
    {
      SliceInside(i, size, nThreads);
      SliceStartProduct(i, q);
      DivBlock(p, q);
      BlocksDisjoint(p, i, p / q, q);
    }
  }
}
