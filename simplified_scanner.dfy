/**
 * The simplified live scanner: its content formatter (`expand_shortened_url`,
 * `decode_qr_content`), the first-hit search of its worker over bit planes
 * 0..3, and the worker's treatment of successive frames.
 */
module SimplifiedScanner {
  import opened Common
  import opened Images
  import opened BitPlane
  import opened Probes

  const Domain := "https://your-actual-domain.com/"
  const ExpandedLabel := "Expanded URL: "
  const DirectLabel := "Direct URL: "
  /** The label of content that is neither a short identifier nor a URL. */
  const UnprocessedLabel := "Unprocessed content " + "(might need custom decoding): "

  /** `content.isdigit()`, restricted to the ASCII digits '0'..'9'. */
  predicate IsDigits(s: string)
  {
    |s| > 0 && forall i :: 0 <= i < |s| ==> '0' <= s[i] <= '9'
  }

  /** A six-digit short identifier. */
  predicate IsShortId(s: string)
  {
    IsDigits(s) && |s| == 6
  }

  /** `expand_shortened_url`: an https URL on the fixed domain whose path is the identifier. */
  function ExpandShortenedUrl(identifier: string): (url: string)
    ensures StartsWith(url, "https://")
    ensures |Domain| <= |url| && url[..|Domain|] == Domain
    ensures |Domain| <= |url| && url[|Domain|..] == identifier
  {
    PrefixSplit(Domain, identifier);
    assert (Domain + identifier)[..8] == Domain[..8];
    Domain + identifier
  }

  /** The three labels are pairwise distinct at their first character. */
  lemma LabelsDiffer(r: string)
    ensures !(StartsWith(r, ExpandedLabel) && StartsWith(r, DirectLabel))
    ensures !(StartsWith(r, ExpandedLabel) && StartsWith(r, UnprocessedLabel))
    ensures !(StartsWith(r, DirectLabel) && StartsWith(r, UnprocessedLabel))
  {
    if |r| > 0 {
      assert ExpandedLabel[0] == 'E';
      assert DirectLabel[0] == 'D';
      assert UnprocessedLabel[0] == 'U';
      if StartsWith(r, ExpandedLabel) {
        assert r[0] == 'E';
      }
      if StartsWith(r, DirectLabel) {
        assert r[0] == 'D';
      }
    }
  }

  /** A label glued in front keeps the content as the string's tail. */
  lemma EndsWithContent(tag: string, content: string)
    ensures StartsWith(tag + content, tag)
    ensures (tag + content)[|tag + content| - |content|..] == content
  {
    PrefixSplit(tag, content);
  }

  /**
   * `decode_qr_content`: six-digit identifiers are expanded, content
   * starting with "http" is passed on as a direct URL, anything else is
   * reported unprocessed. Exactly one label applies, and the content is
   * always the tail of the result.
   */
  function DecodeQrContent(content: string): (r: string)
    ensures |content| < |r| && r[|r| - |content|..] == content
    ensures StartsWith(r, ExpandedLabel) <==> IsShortId(content)
    ensures StartsWith(r, DirectLabel) <==> !IsShortId(content) && StartsWith(content, "http")
    ensures StartsWith(r, UnprocessedLabel) <==> !IsShortId(content) && !StartsWith(content, "http")
  {
    if IsShortId(content) then
      var r := ExpandedLabel + ExpandShortenedUrl(content);
      LabelsDiffer(r);
      EndsWithContent(ExpandedLabel + Domain, content);
      assert r == ExpandedLabel + Domain + content;
      assert (ExpandedLabel + Domain + content)[..|ExpandedLabel|] == ExpandedLabel;
      r
    else if StartsWith(content, "http") then
      var r := DirectLabel + content;
      LabelsDiffer(r);
      EndsWithContent(DirectLabel, content);
      r
    else
      var r := UnprocessedLabel + content;
      LabelsDiffer(r);
      EndsWithContent(UnprocessedLabel, content);
      r
  }

  /** The content a formatted result was made from, read back off its label. */
  function ContentOf(r: string): (content: Option<string>)
  {
    if StartsWith(r, ExpandedLabel + Domain) then Some(r[|ExpandedLabel + Domain|..])
    else if StartsWith(r, DirectLabel) then Some(r[|DirectLabel|..])
    else if StartsWith(r, UnprocessedLabel) then Some(r[|UnprocessedLabel|..])
    else None
  }

  /** The formatter loses nothing: its content can be read back. */
  lemma ContentOfDecode(content: string)
    ensures ContentOf(DecodeQrContent(content)) == Some(content)
  {
    var r := DecodeQrContent(content);
    LabelsDiffer(r);
    if IsShortId(content) {
      assert r == (ExpandedLabel + Domain) + content;
      PrefixSplit(ExpandedLabel + Domain, content);
    } else if StartsWith(content, "http") {
      PrefixSplit(DirectLabel, content);
    } else {
      PrefixSplit(UnprocessedLabel, content);
    }
  }

  /** Distinct contents give distinct reports. */
  lemma DecodeInjective(a: string, b: string)
    requires DecodeQrContent(a) == DecodeQrContent(b)
    ensures a == b
  {
    ContentOfDecode(a);
    ContentOfDecode(b);
  }

  /** What the worker does with one frame. */
  datatype Outcome =
    | Published(data: string, lsbFrame: Image, plane: nat, channel: int) // result_queue.put, then return
    | NotFound                                                           // "No hidden QR Code detected"
    | Aborted                                                            // an exception ended the frame

  /** The outcome of issuing `probes` in order and stopping at the first that raises or finds. */
  function FirstHit(decode: Image -> Decoded, frame: Image, probes: seq<Probe>): Outcome
    requires frame.Valid() && PlanesBelow8(probes)
  {
    if |probes| == 0 then NotFound
    else
      match TryProbe(decode, DecodeQrContent, frame, probes[0])
      case Raised => Aborted
      case Found(data) => Published(data, ExtractLsb(frame, probes[0].plane), probes[0].plane, probes[0].channel)
      case Missed => FirstHit(decode, frame, probes[1..])
  }

  /** Nothing is published exactly when every probe misses. */
  lemma {:induction false} NotFoundIffAllMissed(decode: Image -> Decoded, frame: Image, probes: seq<Probe>)
    requires frame.Valid() && PlanesBelow8(probes)
    ensures FirstHit(decode, frame, probes) == NotFound <==>
      forall i :: 0 <= i < |probes| ==> TryProbe(decode, DecodeQrContent, frame, probes[i]).Missed?
  {
    if |probes| > 0 {
      NotFoundIffAllMissed(decode, frame, probes[1..]);
      assert forall i :: 1 <= i < |probes| ==> probes[i] == probes[1..][i - 1];
    }
  }

  /** After misses on probes 0..i-1, probe i decides: it is published if it finds, the frame is abandoned if it raises. */
  lemma {:induction false} FirstFoundPublished(decode: Image -> Decoded, frame: Image, probes: seq<Probe>, i: nat)
    requires frame.Valid() && PlanesBelow8(probes) && i < |probes|
    requires forall j :: 0 <= j < i ==> TryProbe(decode, DecodeQrContent, frame, probes[j]).Missed?
    ensures TryProbe(decode, DecodeQrContent, frame, probes[i]).Found? ==>
      FirstHit(decode, frame, probes) == Published(TryProbe(decode, DecodeQrContent, frame, probes[i]).data,
        ExtractLsb(frame, probes[i].plane), probes[i].plane, probes[i].channel)
    ensures TryProbe(decode, DecodeQrContent, frame, probes[i]).Raised? ==> FirstHit(decode, frame, probes) == Aborted
  {
    if i > 0 {
      assert TryProbe(decode, DecodeQrContent, frame, probes[0]).Missed?;
      assert forall j :: 0 <= j < i - 1 ==> probes[1..][j] == probes[j + 1];
      FirstFoundPublished(decode, frame, probes[1..], i - 1);
    }
  }

  /** FirstHit on a suffix, one probe at a time. */
  lemma FirstHitFrom(decode: Image -> Decoded, frame: Image, probes: seq<Probe>, k: nat)
    requires frame.Valid() && PlanesBelow8(probes) && k < |probes|
    ensures FirstHit(decode, frame, probes[k..]) ==
      match TryProbe(decode, DecodeQrContent, frame, probes[k])
      case Raised => Aborted
      case Found(data) => Published(data, ExtractLsb(frame, probes[k].plane), probes[k].plane, probes[k].channel)
      case Missed => FirstHit(decode, frame, probes[k + 1..])
  {
    assert probes[k..][0] == probes[k];
    assert probes[k..][1..] == probes[k + 1..];
  }

  /**
   * One frame of `process_frame`: planes 0..3, within each plane channels
   * 0, 1, 2 and then the whole bit-plane image; the first truthy result is
   * published and ends the search. A missing channel raises IndexError,
   * which ends the frame with nothing published.
   */
  method ScanFrame(decode: Image -> Decoded, frame: Image) returns (outcome: Outcome)
    requires frame.Valid()
    ensures outcome == FirstHit(decode, frame, ProbeOrder(4))
  {
    ProbeOrderPlanes(4);
    var bitPlane := 0;
    while bitPlane < 4
      invariant bitPlane <= 4
      invariant FirstHit(decode, frame, ProbeOrder(4)) == FirstHit(decode, frame, ProbeOrder(4)[4 * bitPlane..])
    {
      outcome := ScanPlane(decode, frame, bitPlane);
      if !outcome.NotFound? {
        return;
      }
      bitPlane := bitPlane + 1;
    }
    return NotFound;
  }

  /**
   * The body of the plane loop of `process_frame`: the four probes of one
   * plane. NotFound means that all four missed and the search goes on with
   * the next plane.
   */
  method ScanPlane(decode: Image -> Decoded, frame: Image, bitPlane: nat) returns (outcome: Outcome)
    requires frame.Valid() && bitPlane < 4
    ensures PlanesBelow8(ProbeOrder(4))
    ensures FirstHit(decode, frame, ProbeOrder(4)[4 * bitPlane..]) ==
      if outcome.NotFound? then FirstHit(decode, frame, ProbeOrder(4)[4 * bitPlane + 4..]) else outcome
  {
    ghost var order := ProbeOrder(4);
    ProbeOrderPlanes(4);
    var lsbFrame := ExtractLsb(frame, bitPlane);
    var channel := 0;
    while channel < 3
      invariant channel <= 3
      invariant FirstHit(decode, frame, order[4 * bitPlane..]) == FirstHit(decode, frame, order[4 * bitPlane + channel..])
    {
      outcome := ScanChannel(decode, frame, bitPlane, channel, lsbFrame);
      if !outcome.NotFound? {
        return;
      }
      channel := channel + 1;
    }
    outcome := ScanCombined(decode, frame, bitPlane, lsbFrame);
  }

  /**
   * The combined probe that ends the plane loop: `find_and_decode_qr(lsb_frame)`
   * published when truthy; NotFound hands the search on to the next plane.
   */
  method ScanCombined(decode: Image -> Decoded, frame: Image, bitPlane: nat, lsbFrame: Image)
    returns (outcome: Outcome)
    requires frame.Valid() && bitPlane < 4 && lsbFrame == ExtractLsb(frame, bitPlane)
    ensures PlanesBelow8(ProbeOrder(4))
    ensures FirstHit(decode, frame, ProbeOrder(4)[4 * bitPlane + 3..]) ==
      if outcome.NotFound? then FirstHit(decode, frame, ProbeOrder(4)[4 * bitPlane + 4..]) else outcome
  {
    ProbeOrderPlanes(4);
    ProbeAt(4, bitPlane, 3);
    FirstHitFrom(decode, frame, ProbeOrder(4), 4 * bitPlane + 3);
    TryCombined(decode, DecodeQrContent, frame, bitPlane);
    var qrData := FindAndDecodeQr(decode, DecodeQrContent, lsbFrame);
    if Truthy(qrData) {
      return Published(qrData.value, lsbFrame, bitPlane, Combined);
    }
    return NotFound;
  }

  /**
   * One channel probe of the plane loop: `find_and_decode_qr(lsb_frame[:, :, channel])`
   * published when truthy; Aborted when the channel does not exist; NotFound
   * hands the search on to the next probe.
   */
  method ScanChannel(decode: Image -> Decoded, frame: Image, bitPlane: nat, channel: nat, lsbFrame: Image)
    returns (outcome: Outcome)
    requires frame.Valid() && bitPlane < 4 && channel < 3 && lsbFrame == ExtractLsb(frame, bitPlane)
    ensures PlanesBelow8(ProbeOrder(4))
    ensures FirstHit(decode, frame, ProbeOrder(4)[4 * bitPlane + channel..]) ==
      if outcome.NotFound? then FirstHit(decode, frame, ProbeOrder(4)[4 * bitPlane + channel + 1..]) else outcome
  {
    ProbeOrderPlanes(4);
    ProbeAt(4, bitPlane, channel);
    FirstHitFrom(decode, frame, ProbeOrder(4), 4 * bitPlane + channel);
    TryChannel(decode, DecodeQrContent, frame, bitPlane, channel);
    if channel >= frame.channels {
      return Aborted;
    }
    var qrData := FindAndDecodeQr(decode, DecodeQrContent, ChannelSlice(lsbFrame, channel));
    if Truthy(qrData) {
      return Published(qrData.value, lsbFrame, bitPlane, channel);
    }
    return NotFound;
  }

  /** Formatted results are never empty, so the worker's `if qr_data:` is "the decoder found a symbol". */
  lemma FormattedTruthy(content: string)
    ensures Truthy(Some(DecodeQrContent(content)))
  {
  }

  predicate AllValid(frames: seq<Image>)
  {
    forall i :: 0 <= i < |frames| ==> frames[i].Valid()
  }

  /** What one frame puts on the result queue. */
  function Reported(decode: Image -> Decoded, frame: Image): (r: seq<Outcome>)
    requires frame.Valid()
    ensures |r| <= 1 && (r != [] ==> r[0].Published?)
  {
    var o := FirstHit(decode, frame, ProbeOrder(4));
    if o.Published? then [o] else []
  }

  /** The worker as written: after the first publication it returns, and no later frame is scanned. */
  function AsWrittenReports(decode: Image -> Decoded, frames: seq<Image>): seq<Outcome>
    requires AllValid(frames)
  {
    if |frames| == 0 then []
    else
      var before := AsWrittenReports(decode, frames[..|frames| - 1]);
      if before != [] then before else Reported(decode, frames[|frames| - 1])
  }

  /** The worker as evidently intended: every frame is scanned, each hit is reported. */
  function Reports(decode: Image -> Decoded, frames: seq<Image>): seq<Outcome>
    requires AllValid(frames)
  {
    if |frames| == 0 then []
    else Reports(decode, frames[..|frames| - 1]) + Reported(decode, frames[|frames| - 1])
  }

  /** As written, once something is published, nothing that happens afterwards is reported. */
  lemma {:induction false} AsWrittenStops(decode: Image -> Decoded, frames: seq<Image>, n: nat)
    requires AllValid(frames) && n <= |frames|
    requires AsWrittenReports(decode, frames[..n]) != []
    ensures AsWrittenReports(decode, frames) == AsWrittenReports(decode, frames[..n])
    decreases |frames| - n
  {
    if n < |frames| {
      var m := |frames| - 1;
      assert frames[..m][..n] == frames[..n];
      AsWrittenStops(decode, frames[..m], n);
      assert frames[..|frames|] == frames;
    } else {
      assert frames[..n] == frames;
    }
  }

  /** As written, at most one result is ever reported. */
  lemma {:induction false} AsWrittenAtMostOne(decode: Image -> Decoded, frames: seq<Image>)
    requires AllValid(frames)
    ensures |AsWrittenReports(decode, frames)| <= 1
  {
    if |frames| > 0 {
      AsWrittenAtMostOne(decode, frames[..|frames| - 1]);
    }
  }

  /** As intended, the reports are the hits of the frames, every one of them, in frame order. */
  lemma {:induction false} ReportsComplete(decode: Image -> Decoded, frames: seq<Image>, i: nat)
    requires AllValid(frames) && i < |frames|
    requires FirstHit(decode, frames[i], ProbeOrder(4)).Published?
    ensures FirstHit(decode, frames[i], ProbeOrder(4)) in Reports(decode, frames)
  {
    ProbeOrderPlanes(4);
    var m := |frames| - 1;
    if i < m {
      assert frames[..m][i] == frames[i];
      ReportsComplete(decode, frames[..m], i);
    }
  }

  lemma {:induction false} ReportsSound(decode: Image -> Decoded, frames: seq<Image>)
    requires AllValid(frames)
    ensures |Reports(decode, frames)| <= |frames|
    ensures forall o :: o in Reports(decode, frames) ==> o.Published?
  {
    if |frames| > 0 {
      ReportsSound(decode, frames[..|frames| - 1]);
    }
  }

  /** `process_frame` as written, over the frames the queue delivers. */
  method WorkerAsWritten(decode: Image -> Decoded, frames: seq<Image>) returns (published: seq<Outcome>)
    requires AllValid(frames)
    ensures published == AsWrittenReports(decode, frames)
  {
    published := [];
    var i := 0;
    while i < |frames|
      invariant i <= |frames|
      invariant published == [] && AsWrittenReports(decode, frames[..i]) == []
    {
      var outcome := ScanFrame(decode, frames[i]);
      assert frames[..i + 1][..i] == frames[..i];
      if outcome.Published? {
        published := [outcome];
        AsWrittenStops(decode, frames, i + 1);
        return;
      }
      i := i + 1;
    }
    assert frames[..i] == frames;
  }

  /** `process_frame` with the early `return` replaced by moving on to the next frame. */
  method Worker(decode: Image -> Decoded, frames: seq<Image>) returns (published: seq<Outcome>)
    requires AllValid(frames)
    ensures published == Reports(decode, frames)
  {
    published := [];
    var i := 0;
    while i < |frames|
      invariant i <= |frames|
      invariant published == Reports(decode, frames[..i])
    {
      var outcome := ScanFrame(decode, frames[i]);
      assert frames[..i + 1][..i] == frames[..i];
      if outcome.Published? {
        published := published + [outcome];
      }
      i := i + 1;
    }
    assert frames[..i] == frames;
  }

  /**
   * Two frames, each showing a code to the first probe: the worker as written
   * reports only the first, the intended worker reports both.
   */
  lemma SecondFrameIgnored(decode: Image -> Decoded, frame: Image)
    requires frame.Valid() && frame.channels >= 1
    requires forall img :: decode(img).Symbols? && decode(img).contents != []
    ensures |AsWrittenReports(decode, [frame, frame])| == 1
    ensures |Reports(decode, [frame, frame])| == 2
  {
    var frames := [frame, frame];
    var order := ProbeOrder(4);
    ProbeOrderPlanes(4);
    ProbeAt(4, 0, 0);
    FirstHitFrom(decode, frame, order, 0);
    assert order[0..] == order;
    var o := FirstHit(decode, frame, order);
    assert o.Published?;
    assert Reported(decode, frame) == [o];
    assert [frame][..0] == [];
    assert frames[..1] == [frame];
    assert AsWrittenReports(decode, [frame]) == [o];
    assert Reports(decode, [frame]) == [o];
    assert AsWrittenReports(decode, frames) == [o];
    assert Reports(decode, frames) == [o, o];
  }

  /** For instance, a decoder that reads "123456" from every image, and two 1x1 colour frames. */
  lemma SecondFrameIgnoredExample()
    ensures |AsWrittenReports(_ => Symbols(["123456"]), [Image(1, 1, 3, [0, 0, 0]), Image(1, 1, 3, [0, 0, 0])])| == 1
    ensures |Reports(_ => Symbols(["123456"]), [Image(1, 1, 3, [0, 0, 0]), Image(1, 1, 3, [0, 0, 0])])| == 2
  {
    SecondFrameIgnored(_ => Symbols(["123456"]), Image(1, 1, 3, [0, 0, 0]));
  }
}
