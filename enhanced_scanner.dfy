/**
 * The enhanced live scanner: its content formatter and the exhaustive
 * search of its worker, which issues all 32 probes (planes 0..7, channels
 * 0, 1, 2 and combined) on a frame, collects every hit in order, and puts
 * the list on the result queue only when it is not empty.
 */
module EnhancedScanner {
  import opened Common
  import opened Images
  import opened BitPlane
  import opened Probes

  const ContentLabel := "QR Code Content: "

  /** `decode_qr_content`: the content behind a fixed label, which can be split off again. */
  function DecodeQrContent(content: string): (r: string)
    ensures StartsWith(r, ContentLabel) && r[|ContentLabel|..] == content
  {
    PrefixSplit(ContentLabel, content);
    ContentLabel + content
  }

  /** One entry of `all_data`: (qr_data, bit_plane, channel). */
  datatype Hit = Hit(data: string, plane: nat, channel: int)

  function ProbeOf(h: Hit): Probe
  {
    Probe(h.plane, h.channel)
  }

  /** The collected hits of a frame, or Aborted when an exception ended the frame. */
  datatype Collection = Collected(hits: seq<Hit>) | Aborted

  /** What one probe adds to what has been collected so far. */
  function Collect(decode: Image -> Decoded, frame: Image, sofar: Collection, pr: Probe): Collection
    requires frame.Valid() && pr.plane < 8
  {
    match sofar
    case Aborted => Aborted
    case Collected(hits) =>
      match TryProbe(decode, DecodeQrContent, frame, pr)
      case Raised => Aborted
      case Missed => Collected(hits)
      case Found(data) => Collected(hits + [Hit(data, pr.plane, pr.channel)])
  }

  /** The outcome of issuing every probe of `probes`, in order. */
  function AllHits(decode: Image -> Decoded, frame: Image, probes: seq<Probe>): Collection
    requires frame.Valid() && PlanesBelow8(probes)
  {
    if |probes| == 0 then Collected([])
    else Collect(decode, frame, AllHits(decode, frame, probes[..|probes| - 1]), probes[|probes| - 1])
  }

  /** AllHits on a prefix, one probe at a time. */
  lemma AllHitsStep(decode: Image -> Decoded, frame: Image, probes: seq<Probe>, k: nat)
    requires frame.Valid() && PlanesBelow8(probes) && k < |probes|
    ensures AllHits(decode, frame, probes[..k + 1]) ==
      Collect(decode, frame, AllHits(decode, frame, probes[..k]), probes[k])
  {
    assert probes[..k + 1][..k] == probes[..k];
  }

  /** Once an exception has ended the frame, nothing that follows is collected. */
  lemma {:induction false} AbortedStays(decode: Image -> Decoded, frame: Image, probes: seq<Probe>, k: nat)
    requires frame.Valid() && PlanesBelow8(probes) && k <= |probes|
    requires AllHits(decode, frame, probes[..k]).Aborted?
    ensures AllHits(decode, frame, probes).Aborted?
    decreases |probes| - k
  {
    if k < |probes| {
      var m := |probes| - 1;
      assert probes[..m][..k] == probes[..k];
      AbortedStays(decode, frame, probes[..m], k);
    } else {
      assert probes[..k] == probes;
    }
  }

  /** The frame is abandoned exactly when some probe raises. */
  lemma {:induction false} AbortedIffRaised(decode: Image -> Decoded, frame: Image, probes: seq<Probe>)
    requires frame.Valid() && PlanesBelow8(probes)
    ensures AllHits(decode, frame, probes).Collected? <==>
      forall i :: 0 <= i < |probes| ==> !TryProbe(decode, DecodeQrContent, frame, probes[i]).Raised?
  {
    if |probes| > 0 {
      var m := |probes| - 1;
      AbortedIffRaised(decode, frame, probes[..m]);
      assert forall i :: 0 <= i < m ==> probes[..m][i] == probes[i];
    }
  }

  /**
   * Every collected hit comes from a probe of the list that found exactly
   * that content, and there are no more hits than probes.
   */
  lemma {:induction false} HitsSound(decode: Image -> Decoded, frame: Image, probes: seq<Probe>)
    requires frame.Valid() && PlanesBelow8(probes)
    ensures var c := AllHits(decode, frame, probes);
      c.Collected? ==> (|c.hits| <= |probes| &&
        forall k :: 0 <= k < |c.hits| ==> (ProbeOf(c.hits[k]) in probes && ProbeOf(c.hits[k]).plane < 8 &&
          TryProbe(decode, DecodeQrContent, frame, ProbeOf(c.hits[k])) == Found(c.hits[k].data)))
  {
    if |probes| > 0 {
      var m := |probes| - 1;
      HitsSound(decode, frame, probes[..m]);
      var before := AllHits(decode, frame, probes[..m]);
      if before.Collected? {
        forall k | 0 <= k < |before.hits|
          ensures ProbeOf(before.hits[k]) in probes
        {
          assert ProbeOf(before.hits[k]) in probes[..m];
        }
      }
    }
  }

  /** Every probe that finds something contributes its hit, unless the frame was abandoned. */
  lemma {:induction false} HitsComplete(decode: Image -> Decoded, frame: Image, probes: seq<Probe>, i: nat)
    requires frame.Valid() && PlanesBelow8(probes) && i < |probes|
    requires AllHits(decode, frame, probes).Collected?
    requires TryProbe(decode, DecodeQrContent, frame, probes[i]).Found?
    ensures Hit(TryProbe(decode, DecodeQrContent, frame, probes[i]).data, probes[i].plane, probes[i].channel)
      in AllHits(decode, frame, probes).hits
  {
    var m := |probes| - 1;
    if i < m {
      var before := AllHits(decode, frame, probes[..m]);
      if before.Collected? {
        assert probes[..m][i] == probes[i];
        HitsComplete(decode, frame, probes[..m], i);
      }
    }
  }

  /** When the probes are issued in scanning order, so are the hits. */
  lemma {:induction false} HitsOrdered(decode: Image -> Decoded, frame: Image, probes: seq<Probe>)
    requires frame.Valid() && PlanesBelow8(probes)
    requires forall i, j :: 0 <= i < j < |probes| ==> Precedes(probes[i], probes[j])
    ensures var c := AllHits(decode, frame, probes);
      c.Collected? ==> forall k, l :: 0 <= k < l < |c.hits| ==> Precedes(ProbeOf(c.hits[k]), ProbeOf(c.hits[l]))
  {
    if |probes| > 0 {
      var m := |probes| - 1;
      var last := probes[m];
      HitsOrdered(decode, frame, probes[..m]);
      HitsSound(decode, frame, probes[..m]);
      var before := AllHits(decode, frame, probes[..m]);
      if before.Collected? {
        forall k | 0 <= k < |before.hits|
          ensures Precedes(ProbeOf(before.hits[k]), last)
        {
          var pr := ProbeOf(before.hits[k]);
          assert pr in probes[..m];
          var i :| 0 <= i < m && probes[..m][i] == pr;
          assert probes[i] == pr;
        }
      }
    }
  }

  /** The 32 probes of the exhaustive search. */
  lemma ExhaustiveOrder()
    ensures PlanesBelow8(ProbeOrder(8))
    ensures forall i, j :: 0 <= i < j < 32 ==> Precedes(ProbeOrder(8)[i], ProbeOrder(8)[j])
  {
    ProbeOrderPlanes(8);
    forall i, j | 0 <= i < j < 32
      ensures Precedes(ProbeOrder(8)[i], ProbeOrder(8)[j])
    {
      ProbeOrderSorted(8, i, j);
    }
  }

  /**
   * The hits of one frame: at most 32, each a valid (plane, channel) that
   * found exactly its content, in scanning order, and every probe that found
   * something is among them.
   */
  lemma FrameHits(decode: Image -> Decoded, frame: Image)
    requires frame.Valid()
    ensures PlanesBelow8(ProbeOrder(8))
    ensures var c := AllHits(decode, frame, ProbeOrder(8));
      c.Collected? ==> (|c.hits| <= 32 &&
        (forall k :: 0 <= k < |c.hits| ==> ValidProbe(ProbeOf(c.hits[k]))) &&
        (forall k, l :: 0 <= k < l < |c.hits| ==> Precedes(ProbeOf(c.hits[k]), ProbeOf(c.hits[l]))))
  {
    ExhaustiveOrder();
    HitsSound(decode, frame, ProbeOrder(8));
    HitsOrdered(decode, frame, ProbeOrder(8));
    var c := AllHits(decode, frame, ProbeOrder(8));
    if c.Collected? {
      forall k | 0 <= k < |c.hits|
        ensures ValidProbe(ProbeOf(c.hits[k]))
      {
        var pr := ProbeOf(c.hits[k]);
        var i :| 0 <= i < 32 && ProbeOrder(8)[i] == pr;
        ProbeOrderKeys(8, i);
      }
    }
  }

  /** The list is put on the result queue only when it holds a hit. */
  function ToQueue(c: Collection): (item: Option<seq<Hit>>)
    ensures item.Some? <==> c.Collected? && c.hits != []
    ensures item.Some? ==> item.value == c.hits
  {
    if c.Collected? && c.hits != [] then Some(c.hits) else None
  }

  /** AllHits over the first n probes of the exhaustive order, one probe at a time. */
  function HitsUpTo(decode: Image -> Decoded, frame: Image, n: nat): Collection
    requires frame.Valid() && n <= 32
  {
    if n == 0 then Collected([])
    else
      ProbeOrderKeys(8, n - 1);
      Collect(decode, frame, HitsUpTo(decode, frame, n - 1), ProbeOrder(8)[n - 1])
  }

  /** The two formulations agree. */
  lemma {:induction false} HitsUpToIsAllHits(decode: Image -> Decoded, frame: Image, n: nat)
    requires frame.Valid() && n <= 32
    ensures PlanesBelow8(ProbeOrder(8))
    ensures HitsUpTo(decode, frame, n) == AllHits(decode, frame, ProbeOrder(8)[..n])
  {
    ProbeOrderPlanes(8);
    if n > 0 {
      HitsUpToIsAllHits(decode, frame, n - 1);
      AllHitsStep(decode, frame, ProbeOrder(8), n - 1);
    }
  }

  /** Once Aborted, HitsUpTo stays Aborted. */
  lemma {:induction false} HitsUpToAbortedStays(decode: Image -> Decoded, frame: Image, m: nat, n: nat)
    requires frame.Valid() && m <= n <= 32
    requires HitsUpTo(decode, frame, m).Aborted?
    ensures HitsUpTo(decode, frame, n).Aborted?
    decreases n - m
  {
    if m < n {
      HitsUpToAbortedStays(decode, frame, m, n - 1);
    }
  }

  /** A frame whose search was Aborted at some probe ends Aborted. */
  lemma HitsUpToAborted(decode: Image -> Decoded, frame: Image, m: nat)
    requires frame.Valid() && m <= 32
    requires HitsUpTo(decode, frame, m).Aborted?
    ensures PlanesBelow8(ProbeOrder(8))
    ensures AllHits(decode, frame, ProbeOrder(8)).Aborted?
  {
    var order := ProbeOrder(8);
    HitsUpToIsAllHits(decode, frame, m);
    AbortedStays(decode, frame, order, m);
  }

  /**
   * One frame of `process_frame`: all eight planes, within each plane
   * channels 0, 1, 2 and then the whole bit-plane image, every truthy
   * result appended to `all_data`. A missing channel raises IndexError,
   * which ends the frame with nothing put on the queue.
   */
  method ScanFrame(decode: Image -> Decoded, frame: Image) returns (outcome: Collection, queued: Option<seq<Hit>>)
    requires frame.Valid()
    ensures PlanesBelow8(ProbeOrder(8))
    ensures outcome == AllHits(decode, frame, ProbeOrder(8))
    ensures queued == ToQueue(outcome)
  {
    var allData: seq<Hit> := [];
    var bitPlane := 0;
    while bitPlane < 8
      invariant bitPlane <= 8
      invariant HitsUpTo(decode, frame, 4 * bitPlane) == Collected(allData)
    {
      var collected := ScanPlane(decode, frame, bitPlane, allData);
      if collected.Aborted? {
        HitsUpToAborted(decode, frame, 4 * bitPlane + 4);
        return Aborted, None;
      }
      allData := collected.hits;
      bitPlane := bitPlane + 1;
    }
    HitsUpToIsAllHits(decode, frame, 4 * bitPlane);
    assert ProbeOrder(8)[..4 * bitPlane] == ProbeOrder(8);
    outcome := Collected(allData);
    if allData != [] {
      queued := Some(allData);
    } else {
      queued := None;
    }
  }

  /**
   * The body of the plane loop of `process_frame`: the four probes of one
   * plane, appending to the hits collected so far; Aborted when a missing
   * channel raises.
   */
  method ScanPlane(decode: Image -> Decoded, frame: Image, bitPlane: nat, sofar: seq<Hit>) returns (outcome: Collection)
    requires frame.Valid() && bitPlane < 8
    requires HitsUpTo(decode, frame, 4 * bitPlane) == Collected(sofar)
    ensures outcome == HitsUpTo(decode, frame, 4 * bitPlane + 4)
  {
    var allData := sofar;
    var lsbFrame := ExtractLsb(frame, bitPlane);
    var channel := 0;
    while channel < 3
      invariant channel <= 3
      invariant HitsUpTo(decode, frame, 4 * bitPlane + channel) == Collected(allData)
    {
      var collected := ScanChannel(decode, frame, bitPlane, channel, lsbFrame, allData);
      if collected.Aborted? {
        HitsUpToAbortedStays(decode, frame, 4 * bitPlane + channel + 1, 4 * bitPlane + 4);
        return Aborted;
      }
      allData := collected.hits;
      channel := channel + 1;
    }
    ProbeAt(8, bitPlane, channel);
    TryCombined(decode, DecodeQrContent, frame, bitPlane);
    var qrData := FindAndDecodeQr(decode, DecodeQrContent, lsbFrame);
    if Truthy(qrData) {
      allData := allData + [Hit(qrData.value, bitPlane, Combined)];
    }
    return Collected(allData);
  }

  /**
   * One channel probe of the plane loop: `find_and_decode_qr(lsb_frame[:, :, channel])`,
   * appended when truthy; Aborted when the channel does not exist.
   */
  method ScanChannel(decode: Image -> Decoded, frame: Image, bitPlane: nat, channel: nat, lsbFrame: Image, sofar: seq<Hit>)
    returns (outcome: Collection)
    requires frame.Valid() && bitPlane < 8 && channel < 3 && lsbFrame == ExtractLsb(frame, bitPlane)
    requires HitsUpTo(decode, frame, 4 * bitPlane + channel) == Collected(sofar)
    ensures outcome == HitsUpTo(decode, frame, 4 * bitPlane + channel + 1)
  {
    ProbeAt(8, bitPlane, channel);
    TryChannel(decode, DecodeQrContent, frame, bitPlane, channel);
    if channel >= frame.channels {
      return Aborted;
    }
    var qrData := FindAndDecodeQr(decode, DecodeQrContent, ChannelSlice(lsbFrame, channel));
    if Truthy(qrData) {
      return Collected(sofar + [Hit(qrData.value, bitPlane, channel)]);
    }
    return Collected(sofar);
  }
}
