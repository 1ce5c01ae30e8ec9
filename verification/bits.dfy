/** Bit strings and their reading as unsigned binary numerals.

    The source keeps bits as strings of '0' and '1'; here a bit is a `bool`,
    with `false` for '0' and `true` for '1'. */
module Bits {

  type Bit = bool
  type Bits = seq<Bit>

  /** A value that `bytes(...)` accepts as one byte. */
  type Byte = b: int | 0 <= b < 256

  function Pow2(n: nat): (r: nat)
    ensures r >= 1
  {
    if n == 0 then 1 else 2 * Pow2(n - 1)
  }

  lemma {:induction false} Pow2Monotone(m: nat, n: nat)
    requires m <= n
    ensures Pow2(m) <= Pow2(n)
  {
    if m < n {
      Pow2Monotone(m, n - 1);
    }
  }

  /** The value of `bs` read as a binary numeral, most significant bit first
      (`int(bs, 2)` for a non-empty `bs`). It always fits in `|bs|` bits. */
  function FromBits(bs: Bits): (v: nat)
    ensures v < Pow2(|bs|)
  {
    if |bs| == 0 then 0
    else 2 * FromBits(bs[..|bs| - 1]) + (if bs[|bs| - 1] then 1 else 0)
  }

  /** The `w`-bit rendering of `v`, most significant bit first and filled
      with zeros on the left (`"{0:08b}".format(v)` when `w` is 8). */
  function ToBits(v: nat, w: nat): (bs: Bits)
    ensures |bs| == w
  {
    if w == 0 then [] else ToBits(v / 2, w - 1) + [v % 2 == 1]
  }

  /** Rendering a value that fits in `w` bits and reading it back gives the value. */
  lemma {:induction false} FromToBits(v: nat, w: nat)
    requires v < Pow2(w)
    ensures FromBits(ToBits(v, w)) == v
  {
    if w > 0 {
      FromToBits(v / 2, w - 1);
      FromBitsSnoc(ToBits(v / 2, w - 1), v % 2 == 1);
    }
  }

  /** Appending a bit doubles the value and adds the bit. */
  lemma FromBitsSnoc(bs: Bits, b: Bit)
    ensures FromBits(bs + [b]) == 2 * FromBits(bs) + (if b then 1 else 0)
  {
    assert (bs + [b])[..|bs|] == bs;
  }

  /** Reading a bit string and rendering it at its own width gives it back. */
  lemma {:induction false} ToFromBits(bs: Bits)
    ensures ToBits(FromBits(bs), |bs|) == bs
  {
    if |bs| > 0 {
      var init := bs[..|bs| - 1];
      ToFromBits(init);
      assert FromBits(bs) / 2 == FromBits(init);
      assert bs == init + [bs[|bs| - 1]];
    }
  }

  /** `p` is a prefix of `q`. */
  predicate IsPrefix(p: Bits, q: Bits) {
    |p| <= |q| && q[..|p|] == p
  }

  /** No member of `keys` is a proper prefix of another. */
  ghost predicate PrefixFree(keys: set<Bits>) {
    forall p, q :: p in keys && q in keys && p != q ==> !IsPrefix(p, q)
  }
}
