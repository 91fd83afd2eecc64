/**
 * `extract_lsb(img, bit_plane)`, shared by the two live scanners:
 * `np.bitwise_and(img, 1 << bit_plane)` keeps bit p of every sample, the
 * result stays uint8, and the product with 255 is uint8 arithmetic, which
 * wraps modulo 256. A sample with bit p set therefore becomes 2^p * 255 mod
 * 256 = 256 - 2^p, which is 255 only for plane 0.
 */
module BitPlane {
  import opened Bits
  import opened Images
  import opened LsbSteg

  /** One output sample: `(v & (1 << p)) * 255` in 8-bit arithmetic. */
  function PlaneSample(v: bv8, p: nat): (w: bv8)
    requires p < 8
    ensures w as int == if v & PlaneBits[p] == 0 then 0 else 256 - Pow2(p)
  {
    Pow2Planes();
    (v & PlaneBits[p]) * 255
  }

  /** The whole image mapped sample by sample; the shape is kept. */
  function ExtractLsb(img: Image, p: nat): (out: Image)
    requires img.Valid() && p < 8
    ensures out.Valid() && out.height == img.height && out.width == img.width && out.channels == img.channels
    ensures forall i :: 0 <= i < |img.samples| ==> out.samples[i] == PlaneSample(img.samples[i], p)
  {
    img.(samples := seq(|img.samples|, i requires 0 <= i < |img.samples| => PlaneSample(img.samples[i], p)))
  }

  /** A bit-plane sample is non-zero exactly where bit p of the input sample is set. */
  lemma PlaneSampleNonZero(v: bv8, p: nat)
    requires p < 8
    ensures PlaneSample(v, p) != 0 <==> v & PlaneBits[p] != 0
  {
    Pow2Planes();
  }

  /** Only plane 0 produces full white (255); higher planes produce 256 - 2^p. */
  lemma {:induction false} PlaneSampleWhite(v: bv8, p: nat)
    requires p < 8
    ensures PlaneSample(v, p) == 255 <==> p == 0 && v & 1 != 0
  {
    Pow2Planes();
    if p > 0 && v & PlaneBits[p] != 0 {
      assert PlaneSample(v, p) as int == 256 - Pow2(p);
      Pow2Increasing(0, p);
    }
  }

  /**
   * The bit-plane image agrees with the progressive reader: sample r of
   * plane q (q < 8) is non-zero exactly when the reader's bit number
   * q*Capacity + r, read during pass q, is 1.
   */
  lemma PlaneMatchesReader(img: Image, q: nat, r: nat)
    requires img.Valid() && img.NonEmpty() && q < 8 && r < img.Capacity()
    ensures ExtractLsb(img, q).samples[r] != 0 <==> Bit(img, Progressive, q * img.Capacity() + r)
  {
    ProgressivePlanes(img, q, r);
    PlaneSampleNonZero(img.samples[r], q);
  }
}
