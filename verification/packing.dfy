/** Padding and byte packing of the encoded bit string, and their inverses. */
module Packing {
  import opened Results
  import opened Bits

  /** The number of zero bits appended: `8 - len % 8`. It is always 1..8,
      it brings the length to a multiple of 8, and it is a full 8 exactly
      when the length already is a multiple of 8. */
  function PadAmount(n: nat): (k: nat)
    ensures 1 <= k <= 8
    ensures (n + k) % 8 == 0
    ensures n % 8 == 0 <==> k == 8
  {
    8 - n % 8
  }

  lemma Pow2Eight()
    ensures Pow2(8) == 256
  {}

  /** The header, the encoded bits and the padding fill whole bytes. */
  lemma PaddedLengthIsWhole(n: nat)
    ensures (8 + n + PadAmount(n)) % 8 == 0
  {
    var k := PadAmount(n);
    assert (n + k) % 8 == 0;
    assert (8 + (n + k)) % 8 == (n + k) % 8;
  }

  /** The 8-bit header recording the pad amount. */
  function Header(k: nat): (h: Bits)
    requires k < 256
    ensures |h| == 8 && FromBits(h) == k
  {
    Pow2Eight();
    FromToBits(k, 8);
    ToBits(k, 8)
  }

  /** `k` zero bits. */
  function Zeros(k: nat): (z: Bits)
    ensures |z| == k && forall i :: 0 <= i < k ==> !z[i]
  {
    seq(k, _ => false)
  }

  /** The padded text: an 8-bit header holding the pad amount, the encoded
      bits, then the pad amount of zero bits. Its length is a multiple of 8
      and its header reads back as the pad amount. */
  function GetPaddedText(encoded: Bits): (r: Bits)
    ensures |r| == 8 + |encoded| + PadAmount(|encoded|)
    ensures |r| % 8 == 0
    ensures FromBits(r[..8]) == PadAmount(|encoded|)
    ensures r[8..8 + |encoded|] == encoded
    ensures forall i :: 8 + |encoded| <= i < |r| ==> !r[i]
  {
    var k := PadAmount(|encoded|);
    var h := Header(k);
    var z := Zeros(k);
    var r := h + encoded + z;
    PaddedLengthIsWhole(|encoded|);
    assert r[..8] == h;
    assert r[8..8 + |encoded|] == encoded;
    assert forall i :: 8 + |encoded| <= i < |r| ==> r[i] == z[i - 8 - |encoded|];
    r
  }

  /** `s[:-k]` under the source's slicing rules: all but the last `k`
      elements, nothing once `k` reaches the length, and also nothing when
      `k` is 0, since `s[:-0]` is the slice up to index 0. */
  function DropLast(s: Bits, k: nat): (r: Bits)
    ensures IsPrefix(r, s)
    ensures |r| == (if k == 0 || k >= |s| then 0 else |s| - k)
  {
    if k == 0 || k >= |s| then [] else s[..|s| - k]
  }

  /** Reads the first 8 bits (all of them, when fewer) as the pad amount,
      drops them, and drops that many bits from the end. An empty bit string
      has no header to read and fails. */
  function RemovePadding(bits: Bits): (r: Result<Bits>)
    ensures r.Failure? <==> |bits| == 0
    ensures r.Failure? ==> r.error == EmptyHeader
    ensures r.Success? && |bits| >= 8 ==> IsPrefix(r.value, bits[8..])
  {
    if |bits| == 0 then Failure(EmptyHeader)
    else
      var h := if |bits| < 8 then |bits| else 8;
      Success(DropLast(bits[h..], FromBits(bits[..h])))
  }

  /** Removing the padding undoes adding it. */
  lemma {:induction false} UnpadAfterPad(encoded: Bits)
    ensures RemovePadding(GetPaddedText(encoded)) == Success(encoded)
  {
    var padded := GetPaddedText(encoded);
    var k := PadAmount(|encoded|);
    var rest := padded[8..];
    assert |rest| == |encoded| + k;
    assert rest[..|rest| - k] == encoded;
  }

  /** Splits the bits into groups of 8 (the last group shorter when the
      length is not a multiple of 8) and reads each group as a byte. */
  function GetBytesArray(bits: Bits): (bytes: seq<Byte>)
    ensures |bytes| == (|bits| + 7) / 8
    decreases |bits|
  {
    if |bits| == 0 then []
    else
      var h := if |bits| < 8 then |bits| else 8;
      Pow2Monotone(h, 8);
      Pow2Eight();
      [FromBits(bits[..h]) as Byte] + GetBytesArray(bits[h..])
  }

  /** The padded text packs into one header byte, one byte per full group
      of 8 encoded bits, and one byte holding the last encoded bits and the
      padding (only padding when the encoded length is a multiple of 8). */
  lemma {:induction false} PackedByteCount(encoded: Bits)
    ensures |GetBytesArray(GetPaddedText(encoded))| == |encoded| / 8 + 2
  {
    var n := |encoded|;
    assert n == 8 * (n / 8) + n % 8;
    assert |GetPaddedText(encoded)| == 8 * (n / 8) + 16;
  }

  /** The decompression loop over the file's bytes: each byte becomes its
      8-bit, most-significant-first string, and the strings are joined. */
  function BytesToBits(bytes: seq<Byte>): (bits: Bits)
    ensures |bits| == 8 * |bytes|
  {
    if |bytes| == 0 then [] else ToBits(bytes[0], 8) + BytesToBits(bytes[1..])
  }

  /** Expanding the packed bytes gives back a bit string whose length is a
      multiple of 8. */
  lemma {:induction false} BitsBytesRoundTrip(bits: Bits)
    requires |bits| % 8 == 0
    ensures BytesToBits(GetBytesArray(bits)) == bits
    decreases |bits|
  {
    if |bits| > 0 {
      assert |bits| == 8 * (|bits| / 8);
      assert |bits| >= 8;
      assert (|bits| - 8) % 8 == 0;
      var bytes := GetBytesArray(bits);
      assert bytes[0] == FromBits(bits[..8]);
      assert bytes[1..] == GetBytesArray(bits[8..]);
      ToFromBits(bits[..8]);
      BitsBytesRoundTrip(bits[8..]);
      assert bits == bits[..8] + bits[8..];
    }
  }

  /** Packing the expansion of any byte sequence gives the bytes back. */
  lemma {:induction false} BytesBitsRoundTrip(bytes: seq<Byte>)
    ensures GetBytesArray(BytesToBits(bytes)) == bytes
  {
    if |bytes| > 0 {
      var bits := BytesToBits(bytes);
      assert bits[..8] == ToBits(bytes[0], 8);
      assert bits[8..] == BytesToBits(bytes[1..]);
      Pow2Eight();
      FromToBits(bytes[0], 8);
      BytesBitsRoundTrip(bytes[1..]);
      assert bytes == [bytes[0]] + bytes[1..];
    }
  }
}
