/**
 * The (bit plane, channel) probes of the live scanners. A frame is turned
 * into its bit-plane image with `extract_lsb`; each probe hands either one
 * channel of it (`lsb_frame[:, :, channel]`, channel 0, 1 or 2) or the whole
 * bit-plane image (channel -1, "all channels combined") to the barcode
 * decoder. Within a plane the order is channels 0, 1, 2, then combined;
 * planes are visited in increasing order.
 *
 * The decoder (pyzbar's `decode`, followed by the UTF-8 decoding of each
 * symbol's bytes) is a function parameter: it yields the decoded symbols in
 * order, or DecodeFailed when it raises.
 */
module Probes {
  import opened Common
  import opened Images
  import opened BitPlane

  /** The channel number the scanners use for the whole bit-plane image. */
  const Combined: int := -1

  datatype Probe = Probe(plane: nat, channel: int)

  datatype Decoded = Symbols(contents: seq<string>) | DecodeFailed

  /** A probe one of the scanners can issue: plane 0..7, channel 0, 1, 2 or combined. */
  predicate ValidProbe(pr: Probe)
  {
    pr.plane < 8 && (pr.channel == Combined || 0 <= pr.channel < 3)
  }

  /** Position of a channel within a plane's four probes. */
  function ChannelRank(channel: int): nat
  {
    if channel == Combined then 3 else if 0 <= channel < 3 then channel else 4
  }

  /** Position of a probe in the scanning order. */
  function Key(pr: Probe): nat
  {
    4 * pr.plane + ChannelRank(pr.channel)
  }

  /** Probe a is issued before probe b: lower plane, or same plane and earlier channel. */
  predicate Precedes(a: Probe, b: Probe)
  {
    a.plane < b.plane || (a.plane == b.plane && ChannelRank(a.channel) < ChannelRank(b.channel))
  }

  /** The channel of the r-th probe within a plane. */
  function ChannelAt(r: nat): int
    requires r < 4
  {
    if r < 3 then r else Combined
  }

  /** The probes of planes 0 .. planes-1, in the order the scanners issue them. */
  function ProbeOrder(planes: nat): (order: seq<Probe>)
    ensures |order| == 4 * planes
  {
    seq(4 * planes, i requires 0 <= i < 4 * planes => Probe(i / 4, ChannelAt(i % 4)))
  }

  /** Precedes is the order of keys. */
  lemma PrecedesByKey(a: Probe, b: Probe)
    requires ValidProbe(a) && ValidProbe(b)
    ensures Precedes(a, b) <==> Key(a) < Key(b)
  {
  }

  /** Probe i of the order sits at key i: the order is strictly increasing and repeats nothing. */
  lemma ProbeOrderKeys(planes: nat, i: nat)
    requires i < 4 * planes
    ensures ValidProbe(ProbeOrder(planes)[i]) <==> i < 32
    ensures ProbeOrder(planes)[i].plane < planes
    ensures Key(ProbeOrder(planes)[i]) == i
  {
    DivModOf(i / 4, i % 4, 4);
  }

  lemma ProbeOrderSorted(planes: nat, i: nat, j: nat)
    requires i < j < 4 * planes
    ensures Precedes(ProbeOrder(planes)[i], ProbeOrder(planes)[j])
  {
    ProbeOrderKeys(planes, i);
    ProbeOrderKeys(planes, j);
    var a, b := ProbeOrder(planes)[i], ProbeOrder(planes)[j];
    assert a.plane == i / 4 && b.plane == j / 4;
  }

  /** Every valid probe of the first `planes` planes is issued, at the position of its key. */
  lemma ProbeOrderComplete(planes: nat, pr: Probe)
    requires ValidProbe(pr) && pr.plane < planes
    ensures Key(pr) < 4 * planes && ProbeOrder(planes)[Key(pr)] == pr
  {
    var r := ChannelRank(pr.channel);
    DivModOf(pr.plane, r, 4);
    assert Key(pr) == pr.plane * 4 + r;
  }

  /** Probes whose bit plane exists in an 8-bit sample. */
  predicate PlanesBelow8(probes: seq<Probe>)
  {
    forall i :: 0 <= i < |probes| ==> probes[i].plane < 8
  }

  /** Every probe of the order reads one of the first `planes` planes. */
  lemma ProbeOrderPlanes(planes: nat)
    ensures forall i :: 0 <= i < 4 * planes ==> ProbeOrder(planes)[i].plane < planes
  {
    forall i | 0 <= i < 4 * planes
      ensures ProbeOrder(planes)[i].plane < planes
    {
      ProbeOrderKeys(planes, i);
    }
  }

  /** Probe (p, c) comes at position 4p + rank(c): the two nested loops of `process_frame`. */
  lemma ProbeAt(planes: nat, p: nat, r: nat)
    requires p < planes && r < 4
    ensures 4 * p + r < 4 * planes && ProbeOrder(planes)[4 * p + r] == Probe(p, ChannelAt(r))
  {
    DivModOf(p, r, 4);
    assert 4 * p + r == p * 4 + r;
  }

  /** The image a probe hands to the decoder; None when the channel does not exist (IndexError). */
  function ProbeImage(frame: Image, pr: Probe): (img: Option<Image>)
    requires frame.Valid() && pr.plane < 8
    ensures img.None? <==> pr.channel != Combined && !(0 <= pr.channel < frame.channels)
    ensures img.Some? && pr.channel == Combined ==> img.value == ExtractLsb(frame, pr.plane)
    ensures img.Some? && pr.channel != Combined ==>
      img.value.Valid() && img.value.channels == 1 &&
      img.value.height == frame.height && img.value.width == frame.width
    ensures img.Some? && pr.channel != Combined ==>
      0 <= pr.channel < frame.channels && img.value == ChannelSlice(ExtractLsb(frame, pr.plane), pr.channel)
  {
    var lsb := ExtractLsb(frame, pr.plane);
    if pr.channel == Combined then Some(lsb)
    else if 0 <= pr.channel < frame.channels then Some(ChannelSlice(lsb, pr.channel))
    else None
  }

  /**
   * `find_and_decode_qr`: the first decoded symbol, passed through the
   * scanner's formatter; None when the decoder finds nothing or raises.
   */
  function FindAndDecodeQr(decode: Image -> Decoded, format: string -> string, img: Image): (r: Option<string>)
    ensures r.None? <==> decode(img).DecodeFailed? || decode(img).contents == []
    ensures r.Some? ==> r.value == format(decode(img).contents[0])
  {
    match decode(img)
    case DecodeFailed => None
    case Symbols(contents) => if |contents| == 0 then None else Some(format(contents[0]))
  }

  /** Python truthiness of `qr_data`: not None and not the empty string. */
  predicate Truthy(r: Option<string>)
  {
    r.Some? && r.value != ""
  }

  /** The outcome of one probe. */
  datatype Attempt = Raised | Missed | Found(data: string)

  function TryProbe(decode: Image -> Decoded, format: string -> string, frame: Image, pr: Probe): (a: Attempt)
    requires frame.Valid() && pr.plane < 8
    ensures a.Raised? <==> ProbeImage(frame, pr).None?
    ensures a.Found? <==> ProbeImage(frame, pr).Some? && Truthy(FindAndDecodeQr(decode, format, ProbeImage(frame, pr).value))
    ensures a.Found? ==> a.data == FindAndDecodeQr(decode, format, ProbeImage(frame, pr).value).value
  {
    match ProbeImage(frame, pr)
    case None => Raised
    case Some(img) =>
      var r := FindAndDecodeQr(decode, format, img);
      if Truthy(r) then Found(r.value) else Missed
  }

  /** A probe of one channel, as the worker issues it: `find_and_decode_qr(lsb_frame[:, :, channel])`. */
  lemma TryChannel(decode: Image -> Decoded, format: string -> string, frame: Image, p: nat, c: nat)
    requires frame.Valid() && p < 8
    ensures c >= frame.channels ==> TryProbe(decode, format, frame, Probe(p, c)) == Raised
    ensures c < frame.channels ==>
      var r := FindAndDecodeQr(decode, format, ChannelSlice(ExtractLsb(frame, p), c));
      TryProbe(decode, format, frame, Probe(p, c)) == if Truthy(r) then Found(r.value) else Missed
  {
  }

  /** The combined probe, as the worker issues it: `find_and_decode_qr(lsb_frame)`. */
  lemma TryCombined(decode: Image -> Decoded, format: string -> string, frame: Image, p: nat)
    requires frame.Valid() && p < 8
    ensures var r := FindAndDecodeQr(decode, format, ExtractLsb(frame, p));
      TryProbe(decode, format, frame, Probe(p, Combined)) == if Truthy(r) then Found(r.value) else Missed
  {
  }

  /** Whenever the formatter never yields "", a probe finds something exactly when the decoder does. */
  lemma FoundIffDecoded(decode: Image -> Decoded, format: string -> string, frame: Image, pr: Probe)
    requires frame.Valid() && pr.plane < 8
    requires forall c :: format(c) != ""
    ensures var img := ProbeImage(frame, pr);
      TryProbe(decode, format, frame, pr).Found? <==>
        img.Some? && decode(img.value).Symbols? && decode(img.value).contents != []
  {
  }
}
