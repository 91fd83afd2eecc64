/**
 * An image as OpenCV hands it over: a height x width x channels array of
 * unsigned 8-bit samples, stored row-major with the channel fastest (numpy's
 * C order), so that `img[h, w][c]` is sample number (h*width + w)*channels + c.
 */
module Images {

  datatype Image = Image(height: nat, width: nat, channels: nat, samples: seq<bv8>)
  {
    /** The number of samples, one bit slot each under a given mask. */
    function Capacity(): nat
    {
      height * width * channels
    }

    predicate Valid()
    {
      |samples| == Capacity()
    }

    /** No dimension is zero, so `img[0, 0][0]` exists. */
    predicate NonEmpty()
    {
      height >= 1 && width >= 1 && channels >= 1
    }

    /** The flat position of `img[h, w][c]`. */
    function FlatIndex(h: nat, w: nat, c: nat): nat
    {
      (h * width + w) * channels + c
    }

    /** `img[h, w][c]` */
    function At(h: nat, w: nat, c: nat): (v: bv8)
      requires Valid() && h < height && w < width && c < channels
      ensures FlatIndex(h, w, c) < |samples| && v == samples[FlatIndex(h, w, c)]
    {
      FlatIndexInRange(this, h, w, c);
      samples[FlatIndex(h, w, c)]
    }
  }

  lemma MulLeq(a: nat, b: nat, k: nat)
    requires a <= b
    ensures a * k <= b * k
  {
  }

  /** An image has a sample exactly when no dimension is zero. */
  lemma CapacityPositive(img: Image)
    ensures img.Capacity() > 0 <==> img.NonEmpty()
  {
    if img.NonEmpty() {
      MulLeq(1, img.height, img.width);
      MulLeq(1, img.height * img.width, img.channels);
    }
  }

  /** Every in-bounds coordinate names a sample. */
  lemma FlatIndexInRange(img: Image, h: nat, w: nat, c: nat)
    requires h < img.height && w < img.width && c < img.channels
    ensures img.FlatIndex(h, w, c) < img.Capacity()
  {
    var W, C := img.width, img.channels;
    assert h * W + w + 1 <= img.height * W by {
      MulLeq(h + 1, img.height, W);
    }
    MulLeq(h * W + w + 1, img.height * W, C);
    assert (h * W + w + 1) * C == (h * W + w) * C + C;
  }

  /** Distinct coordinates name distinct samples: one pass visits each slot once. */
  lemma FlatIndexInjective(img: Image, h1: nat, w1: nat, c1: nat, h2: nat, w2: nat, c2: nat)
    requires h1 < img.height && w1 < img.width && c1 < img.channels
    requires h2 < img.height && w2 < img.width && c2 < img.channels
    ensures img.FlatIndex(h1, w1, c1) == img.FlatIndex(h2, w2, c2) ==> h1 == h2 && w1 == w2 && c1 == c2
  {
    var W, C := img.width, img.channels;
    DigitsInjective(h1 * W + w1, c1, h2 * W + w2, c2, C);
    DigitsInjective(h1, w1, h2, w2, W);
  }

  /** A number has one quotient and remainder by d. */
  lemma DigitsInjective(q1: nat, r1: nat, q2: nat, r2: nat, d: nat)
    requires r1 < d && r2 < d
    ensures q1 * d + r1 == q2 * d + r2 ==> q1 == q2 && r1 == r2
  {
    DivModOf(q1, r1, d);
    DivModOf(q2, r2, d);
  }

  lemma PixelIndexInRange(pixels: nat, channels: nat, i: nat, c: nat)
    requires i < pixels && c < channels
    ensures i * channels + c < pixels * channels
  {
    MulLeq(i + 1, pixels, channels);
    assert (i + 1) * channels == i * channels + channels;
  }

  /** Decomposition of q*d + r with r < d. */
  lemma {:induction false} DivModOf(q: nat, r: nat, d: nat)
    requires r < d
    ensures (q * d + r) / d == q && (q * d + r) % d == r
  {
    var a := q * d + r;
    var k := a / d;
    assert a == k * d + a % d;
    if k > q {
      MulLeq(q + 1, k, d);
    } else if k < q {
      MulLeq(k + 1, q, d);
    }
    assert k == q;
  }

  /** `img[:, :, c]`: one channel of the image as a single-channel image. */
  function ChannelSlice(img: Image, c: nat): (r: Image)
    requires img.Valid() && c < img.channels
    ensures r.Valid() && r.height == img.height && r.width == img.width && r.channels == 1
    ensures forall h: nat, w: nat :: h < img.height && w < img.width ==> r.At(h, w, 0) == img.At(h, w, c)
  {
    var n := img.height * img.width;
    var r := Image(img.height, img.width, 1,
      seq(n, i requires 0 <= i < n => PixelSample(img, i, c)));
    r
  }

  /** Channel c of the pixel with flat position i. */
  function PixelSample(img: Image, i: nat, c: nat): (v: bv8)
    requires img.Valid() && i < img.height * img.width && c < img.channels
    ensures i * img.channels + c < |img.samples| && v == img.samples[i * img.channels + c]
  {
    PixelIndexInRange(img.height * img.width, img.channels, i, c);
    img.samples[i * img.channels + c]
  }
}
