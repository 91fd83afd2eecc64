/**
 * The URL opener (lsb_qr_url_opener.py) around its progressive reader: the
 * payload hidden in an image is itself an encoded image file, which is
 * decoded (`cv2.imdecode`) and searched for a QR code; `main` opens the
 * first symbol's content in a browser when it starts with "http://" or
 * "https://".
 *
 * `cv2.imread`, `cv2.imdecode` and the barcode decoder are outside the
 * model: the image as read is an input (None when it cannot be read), and
 * the other two are function parameters.
 */
module UrlOpener {
  import opened Common
  import opened Bits
  import opened Images
  import opened LsbSteg
  import opened LsbEmbed
  import opened Probes
  import SimplifiedScanner

  const HttpPrefix := "http://"
  const HttpsPrefix := "https://"

  /** `qr_content.startswith(('http://', 'https://'))`. */
  predicate IsWebUrl(s: string)
  {
    StartsWith(s, HttpPrefix) || StartsWith(s, HttpsPrefix)
  }

  /** What `main` does with the content `process_image` returned. */
  datatype Action =
    | OpenUrl(url: string)      // webbrowser.open
    | NotAUrl(content: string)  // "The QR code does not contain a valid URL."
    | Failed                    // "Failed to extract or decode QR code from the image."

  /**
   * The decision of `main`: a browser is opened exactly for truthy content
   * with a web prefix; truthy content without one is only reported, and None
   * or the empty string count as failure.
   */
  function MainDecision(qrContent: Option<string>): (a: Action)
    ensures a.OpenUrl? <==> qrContent.Some? && IsWebUrl(qrContent.value)
    ensures a.NotAUrl? <==> qrContent.Some? && qrContent.value != "" && !IsWebUrl(qrContent.value)
    ensures a.Failed? <==> qrContent.None? || qrContent.value == ""
    ensures a.OpenUrl? ==> a.url == qrContent.value
    ensures a.NotAUrl? ==> a.content == qrContent.value
  {
    if qrContent.Some? && qrContent.value != "" then
      if IsWebUrl(qrContent.value) then OpenUrl(qrContent.value) else NotAUrl(qrContent.value)
    else Failed
  }

  /** The URL opener hands the decoded content on unformatted. */
  function Raw(content: string): string
  {
    content
  }

  /**
   * `find_and_decode_qr(data)`: None for no data or for bytes that do not
   * decode to an image; otherwise the first symbol the decoder finds, or None
   * when it finds nothing or raises.
   */
  function FindAndDecodeBytes(imdecode: seq<Byte> -> Option<Image>, decode: Image -> Decoded, data: Option<seq<Byte>>): (r: Option<string>)
    ensures r.Some? <==>
      data.Some? && imdecode(data.value).Some? &&
      decode(imdecode(data.value).value).Symbols? && decode(imdecode(data.value).value).contents != []
    ensures r.Some? ==> r.value == decode(imdecode(data.value).value).contents[0]
  {
    if data.None? then None
    else
      match imdecode(data.value)
      case None => None
      case Some(img) => FindAndDecodeQr(decode, Raw, img)
  }

  /**
   * What `process_image` returns for the image `cv2.imread` produced: the
   * progressive reader's payload, decoded as an image file and searched for
   * a QR code.
   */
  function ProcessedContent(imdecode: seq<Byte> -> Option<Image>, decode: Image -> Decoded, img: Option<Image>): Option<string>
    requires img.Some? ==> img.value.Valid() && img.value.NonEmpty()
  {
    if img.None? then None
    else FindAndDecodeBytes(imdecode, decode, Some(Payload(img.value, Progressive, 0)))
  }

  /**
   * `process_image`. An image that cannot be read gives None; `cv2.imread`
   * never yields an image with a zero dimension, so the extraction always
   * produces bytes.
   */
  method ProcessImage(imdecode: seq<Byte> -> Option<Image>, decode: Image -> Decoded, img: Option<Image>)
    returns (qrData: Option<string>)
    requires img.Some? ==> img.value.Valid() && img.value.NonEmpty()
    ensures qrData == ProcessedContent(imdecode, decode, img)
  {
    if img.None? {
      return None;
    }
    var extracted := ExtractLsbData(img.value);
    qrData := FindAndDecodeBytes(imdecode, decode, extracted);
  }

  /**
   * End to end: a cover image into whose least significant bits the bytes
   * of an image file were written (length first, in the readers' order)
   * makes `main` open the URL that file's QR code holds, as long as the
   * file fits in one pass.
   */
  lemma HiddenUrlOpened(imdecode: seq<Byte> -> Option<Image>, decode: Image -> Decoded,
                        cover: Image, file: seq<Byte>, url: string)
    requires cover.Valid() && cover.NonEmpty()
    requires |file| < Pow2(64) && 64 + 8 * |file| <= cover.Capacity()
    requires imdecode(file).Some?
    requires decode(imdecode(file).value).Symbols? && decode(imdecode(file).value).contents != []
    requires decode(imdecode(file).value).contents[0] == url && IsWebUrl(url)
    ensures Embed(cover, EncodePayload(file)).Valid() && Embed(cover, EncodePayload(file)).NonEmpty()
    ensures MainDecision(ProcessedContent(imdecode, decode, Some(Embed(cover, EncodePayload(file))))) == OpenUrl(url)
  {
    RoundTrip(cover, file, Progressive);
  }

  /**
   * Conversely, when `main` opens a URL, the image's bit stream holds a
   * length-prefixed image file whose first QR symbol is that URL.
   */
  lemma OpenedUrlWasHidden(imdecode: seq<Byte> -> Option<Image>, decode: Image -> Decoded, img: Image, url: string)
    requires img.Valid() && img.NonEmpty()
    requires MainDecision(ProcessedContent(imdecode, decode, Some(img))) == OpenUrl(url)
    ensures var file := Payload(img, Progressive, 0);
      && |file| < Pow2(64)
      && StreamBits(img, Progressive, 0, 64 + 8 * |file|) == EncodePayload(file)
      && imdecode(file).Some? && decode(imdecode(file).value).Symbols?
      && decode(imdecode(file).value).contents != [] && decode(imdecode(file).value).contents[0] == url
      && IsWebUrl(url)
  {
    ReadIsEncoded(img, Progressive, 0);
  }

  /**
   * Every URL the opener would open is one the simplified live scanner labels
   * as a direct URL: it starts with "http" and, starting with a letter, is no
   * six-digit identifier.
   */
  lemma OpenedUrlsAreDirect(content: string)
    requires IsWebUrl(content)
    ensures SimplifiedScanner.DecodeQrContent(content) == SimplifiedScanner.DirectLabel + content
  {
    assert content[..4] == "http" by {
      if StartsWith(content, HttpPrefix) {
        assert content[..4] == content[..|HttpPrefix|][..4];
      } else {
        assert content[..4] == content[..|HttpsPrefix|][..4];
      }
    }
    assert StartsWith(content, "http");
    assert content[0] == 'h';
    assert !SimplifiedScanner.IsShortId(content);
  }
}
