/**
 * The writer's side of the channel. The repository holds only readers; this
 * module is a reference encoder that lays a length-prefixed payload into the
 * least significant bits of an image in the readers' traversal order, so that
 * what `decode_binary` inverts can be stated and proved:
 *
 *  - a stream that holds an encoded payload reads back as that payload
 *    (`StreamRoundTrip`), for either mask schedule and any number of passes;
 *    in particular an image written by the encoder reads back as the payload
 *    written (`RoundTrip`);
 *  - conversely, whatever the reader returns is exactly what the encoder
 *    would have written in the bits it consumed (`ReadIsEncoded`).
 */
module LsbEmbed {
  import opened Common
  import opened Bits
  import opened Images
  import opened LsbSteg

  /** The bytes as 8 binary digits each, most significant digit first. */
  function EncodeBytes(data: seq<Byte>): (bits: string)
    ensures |bits| == 8 * |data|
  {
    Pow2Eight();
    if |data| == 0 then "" else EncodeBytes(data[..|data| - 1]) + BinaryString(data[|data| - 1], 8)
  }

  /** Byte j occupies digits 8j .. 8j+7 of the encoding. */
  lemma {:induction false} EncodeBytesSlice(data: seq<Byte>, j: nat)
    requires j < |data|
    ensures Pow2(8) == 256
    ensures EncodeBytes(data)[8 * j .. 8 * j + 8] == BinaryString(data[j], 8)
  {
    Pow2Eight();
    var init := data[..|data| - 1];
    if j < |data| - 1 {
      EncodeBytesSlice(init, j);
      assert EncodeBytes(data)[..8 * |init|] == EncodeBytes(init);
    }
  }

  lemma {:induction false} EncodeBytesBinary(data: seq<Byte>)
    ensures IsBinary(EncodeBytes(data))
  {
    if |data| > 0 {
      EncodeBytesBinary(data[..|data| - 1]);
    }
  }

  /** A 64-bit big-endian length, then the bytes: the layout `decode_binary` reads. */
  function EncodePayload(data: seq<Byte>): (bits: string)
    requires |data| < Pow2(64)
    ensures |bits| == 64 + 8 * |data|
    ensures bits[..64] == BinaryString(|data|, 64) && bits[64..] == EncodeBytes(data)
  {
    BinaryString(|data|, 64) + EncodeBytes(data)
  }

  lemma EncodePayloadOf(data: seq<Byte>, header: string, body: string)
    requires |data| < Pow2(64) && header == BinaryString(|data|, 64) && body == EncodeBytes(data)
    ensures EncodePayload(data) == header + body
  {
  }

  /** Sample v with its least significant bit replaced by the digit `bit`. */
  function SetLsb(v: bv8, bit: char): (w: bv8)
    ensures (w & 1 != 0) == (bit == '1')
    ensures w & 0xFE == v & 0xFE
  {
    if bit == '1' then v | 1 else v & 0xFE
  }

  /** Write digit i of `bits` into the least significant bit of sample i (C order). */
  function Embed(img: Image, bits: string): (out: Image)
    requires img.Valid() && |bits| <= img.Capacity()
    ensures out.Valid() && out.height == img.height && out.width == img.width && out.channels == img.channels
    ensures forall i :: |bits| <= i < |img.samples| ==> out.samples[i] == img.samples[i]
    ensures forall i :: 0 <= i < |bits| ==> out.samples[i] & 0xFE == img.samples[i] & 0xFE
  {
    img.(samples := seq(|img.samples|, i requires 0 <= i < |img.samples| =>
      if i < |bits| then SetLsb(img.samples[i], bits[i]) else img.samples[i]))
  }

  /** Within the first pass both schedules read back exactly the digits written. */
  lemma EmbeddedBits(img: Image, bits: string, schedule: Schedule, k: nat, n: nat)
    requires img.Valid() && img.NonEmpty() && |bits| <= img.Capacity() && IsBinary(bits)
    requires k + n <= |bits|
    ensures StreamBits(Embed(img, bits), schedule, k, n) == bits[k .. k + n]
  {
    var out := Embed(img, bits);
    var read := StreamBits(out, schedule, k, n);
    forall j | 0 <= j < n
      ensures read[j] == bits[k + j]
    {
      FirstPass(out, k + j);
      assert PlaneBits[0] == 1;
      assert out.samples[k + j] == SetLsb(img.samples[k + j], bits[k + j]);
      assert Bit(out, schedule, k + j) == (bits[k + j] == '1');
      assert read[j] == BitChar(Bit(out, schedule, k + j));
    }
  }

  lemma EncodePayloadBinary(data: seq<Byte>)
    requires |data| < Pow2(64)
    ensures IsBinary(EncodePayload(data))
  {
    EncodeBytesBinary(data);
    assert EncodePayload(data) == BinaryString(|data|, 64) + EncodeBytes(data);
  }

  /** Byte j of the payload occupies digits 64 + 8j .. 64 + 8j + 7 of the encoding. */
  lemma EncodePayloadByte(data: seq<Byte>, j: nat)
    requires |data| < Pow2(64) && j < |data|
    ensures Pow2(8) == 256
    ensures EncodePayload(data)[64 + 8 * j .. 64 + 8 * j + 8] == BinaryString(data[j], 8)
  {
    var bits := EncodePayload(data);
    EncodeBytesSlice(data, j);
    SliceOfSuffix(bits, 64, 8 * j, 8);
  }

  /** Any m stream digits from i on inside the n digits from k on are the m digits from k + i on. */
  lemma StreamBitsSlice(img: Image, schedule: Schedule, k: nat, n: nat, i: nat, m: nat)
    requires img.Valid() && img.NonEmpty() && i + m <= n
    ensures StreamBits(img, schedule, k, n)[i .. i + m] == StreamBits(img, schedule, k + i, m)
  {
    var whole := StreamBits(img, schedule, k, n);
    var part := StreamBits(img, schedule, k + i, m);
    forall j | 0 <= j < m
      ensures whole[i + j] == part[j]
    {
      assert k + (i + j) == (k + i) + j;
    }
  }

  /** A stream that starts with an encoded payload declares the payload's length ... */
  lemma StreamLength(img: Image, data: seq<Byte>, schedule: Schedule, k: nat)
    requires img.Valid() && img.NonEmpty() && |data| < Pow2(64)
    requires StreamBits(img, schedule, k, 64 + 8 * |data|) == EncodePayload(data)
    ensures DeclaredLength(img, schedule, k) == |data|
  {
    StreamBitsSlice(img, schedule, k, 64 + 8 * |data|, 0, 64);
    assert EncodePayload(data)[0..64] == EncodePayload(data)[..64];
    ValueOfBinaryString(|data|, 64);
  }

  /** ... and carries byte j of the payload in the 8 digits from k + 64 + 8j on. */
  lemma StreamByte(img: Image, data: seq<Byte>, schedule: Schedule, k: nat, j: nat)
    requires img.Valid() && img.NonEmpty() && |data| < Pow2(64) && j < |data|
    requires StreamBits(img, schedule, k, 64 + 8 * |data|) == EncodePayload(data)
    ensures PayloadByte(img, schedule, k, j) == data[j]
  {
    calc {
      PayloadByte(img, schedule, k, j);
      BinaryValue(StreamBits(img, schedule, k + 64 + 8 * j, 8));
      { StreamBitsSlice(img, schedule, k, 64 + 8 * |data|, 64 + 8 * j, 8); }
      BinaryValue(EncodePayload(data)[64 + 8 * j .. 64 + 8 * j + 8]);
      { EncodePayloadByte(data, j); }
      BinaryValue(BinaryString(data[j], 8));
      { ValueOfBinaryString(data[j], 8); }
      data[j];
    }
  }

  /**
   * Wherever an encoded payload lies in the stream, and however many passes
   * (bit planes) it spans, reading from its first digit returns the payload.
   */
  lemma StreamRoundTrip(img: Image, data: seq<Byte>, schedule: Schedule, k: nat)
    requires img.Valid() && img.NonEmpty() && |data| < Pow2(64)
    requires StreamBits(img, schedule, k, 64 + 8 * |data|) == EncodePayload(data)
    ensures Payload(img, schedule, k) == data
  {
    StreamLength(img, data, schedule, k);
    var read := Payload(img, schedule, k);
    forall j | 0 <= j < |data|
      ensures read[j] == data[j]
    {
      StreamByte(img, data, schedule, k, j);
    }
  }

  /** Reading an image written by the encoder returns the payload written. */
  lemma RoundTrip(img: Image, data: seq<Byte>, schedule: Schedule)
    requires img.Valid() && img.NonEmpty()
    requires |data| < Pow2(64) && 64 + 8 * |data| <= img.Capacity()
    ensures Payload(Embed(img, EncodePayload(data)), schedule, 0) == data
  {
    var bits := EncodePayload(data);
    EncodePayloadBinary(data);
    EmbeddedBits(img, bits, schedule, 0, |bits|);
    assert bits[0 .. |bits|] == bits;
    StreamRoundTrip(Embed(img, bits), data, schedule, 0);
  }

  /** Every stream digit is '0' or '1'. */
  lemma StreamBitsBinary(img: Image, schedule: Schedule, k: nat, n: nat)
    requires img.Valid() && img.NonEmpty()
    ensures IsBinary(StreamBits(img, schedule, k, n))
  {
    var s := StreamBits(img, schedule, k, n);
    forall j | 0 <= j < n
      ensures s[j] == '0' || s[j] == '1'
    {
      assert s[j] == BitChar(Bit(img, schedule, k + j));
    }
  }

  /** Reading a + b bits is reading a bits, then b more. */
  lemma StreamBitsSplit(img: Image, schedule: Schedule, k: nat, a: nat, b: nat)
    requires img.Valid() && img.NonEmpty()
    ensures StreamBits(img, schedule, k, a + b) == StreamBits(img, schedule, k, a) + StreamBits(img, schedule, k + a, b)
  {
    var whole := StreamBits(img, schedule, k, a + b);
    var rest := StreamBits(img, schedule, k + a, b);
    forall j | a <= j < a + b
      ensures whole[j] == rest[j - a]
    {
      assert k + a + (j - a) == k + j;
    }
  }

  /** Encoding one more byte appends its 8 digits. */
  lemma EncodeBytesSnoc(init: seq<Byte>, b: Byte)
    ensures Pow2(8) == 256
    ensures EncodeBytes(init + [b]) == EncodeBytes(init) + BinaryString(b, 8)
  {
    Pow2Eight();
    assert (init + [b])[..|init|] == init;
  }

  /** The bytes `decode_binary` assembles re-encode to the bits it consumed. */
  lemma {:induction false} EncodeBytesOfPrefix(img: Image, schedule: Schedule, k: nat, n: nat)
    requires img.Valid() && img.NonEmpty()
    ensures EncodeBytes(PayloadPrefix(img, schedule, k, n)) == StreamBits(img, schedule, k + 64, 8 * n)
  {
    if n > 0 {
      var m := n - 1;
      var byteBits := StreamBits(img, schedule, k + 64 + 8 * m, 8);
      PayloadPrefixStep(img, schedule, k, m, byteBits);
      var init := PayloadPrefix(img, schedule, k, m);
      var b: Byte := BinaryValue(byteBits);
      assert 8 * n == 8 * m + 8;
      calc {
        EncodeBytes(PayloadPrefix(img, schedule, k, n));
        EncodeBytes(init + [b]);
        { EncodeBytesSnoc(init, b); }
        EncodeBytes(init) + BinaryString(b, 8);
        { EncodeBytesOfPrefix(img, schedule, k, m); }
        StreamBits(img, schedule, k + 64, 8 * m) + BinaryString(b, 8);
        { StreamBitsBinary(img, schedule, k + 64 + 8 * m, 8);
          BinaryStringOfValue(byteBits); }
        StreamBits(img, schedule, k + 64, 8 * m) + byteBits;
        { StreamBitsSplit(img, schedule, k + 64, 8 * m, 8); }
        StreamBits(img, schedule, k + 64, 8 * m + 8);
      }
    }
  }

  /**
   * Conversely, whatever the reader returns is what the encoder writes in the
   * 64 + 8L bits the reader consumed: the layout leaves no choice.
   */
  lemma ReadIsEncoded(img: Image, schedule: Schedule, k: nat)
    requires img.Valid() && img.NonEmpty()
    ensures |Payload(img, schedule, k)| < Pow2(64)
    ensures EncodePayload(Payload(img, schedule, k)) == StreamBits(img, schedule, k, 64 + 8 * |Payload(img, schedule, k)|)
  {
    var len := DeclaredLength(img, schedule, k);
    var data := PayloadPrefix(img, schedule, k, len);
    assert data == Payload(img, schedule, k);
    var header := StreamBits(img, schedule, k, 64);
    var body := StreamBits(img, schedule, k + 64, 8 * len);
    assert header == BinaryString(len, 64) by {
      StreamBitsBinary(img, schedule, k, 64);
      BinaryStringOfValue(header);
    }
    EncodeBytesOfPrefix(img, schedule, k, len);
    EncodePayloadOf(data, header, body);
    StreamBitsSplit(img, schedule, k, 64, 8 * len);
  }
}
