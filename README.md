# Hidden QR codes in image bit planes — a Dafny model

The repository finds QR codes hidden in the low-order bits of images. It has
two ways of doing this.

- **The LSBSteg reader.** A cursor walks the image's samples in C order:
  channel first, then column, then row. It reads one bit per sample under a
  single-bit mask. The first 64 bits are a big-endian length `L`; the next
  `L` bytes are the payload, each read most significant bit first.
  - The *fixed* reader (`lsb_qr_scanner.py`, `lsb_realtime_qr_scanner.py`)
    always uses mask 1. At the end of the image it wraps to (0,0,0), and
    `next_slot` reports False.
  - The *progressive* reader (`progressive_lsb_qr_scanner.py`,
    `lsb_qr_url_opener.py`) doubles the mask on each wrap, 1, 2, …, 128.
    After the pass under 128 it keeps mask 128, and `next_slot` reports None.
  - Nothing checks `L` against the image's capacity: reads simply go on
    past a wrap.
- **The bit-plane probes.** The live scanners (`simplified_realtime_lsb_qr_scanner.py`,
  `enhanced_qr.py`) turn a camera frame into a bit-plane image with
  `extract_lsb`. They hand channels 0, 1 and 2 of it, and then the whole
  image, to a barcode decoder.
  - The simplified scanner stops at the first hit over planes 0..3.
  - The enhanced scanner collects every hit over planes 0..7.
  - Each formats the decoded content its own way.
  - A camera loop feeds frames through a one-slot queue. It shows a result
    only when more than 2 seconds have passed since the last one shown.

The URL opener (`lsb_qr_url_opener.py`) reads the payload of an image with
the progressive reader. It decodes that payload as an image file, reads its
QR code, and opens the content in a browser when it starts with `http://` or
`https://`.

The model is organised as follows.

- `common.dfy`, `bits.dfy`, `images.dfy`: strings, binary digits (`int(s, 2)`)
  and images as flat C-order sample sequences of `bv8`.
- `lsb_steg.dfy`: the reader as a class with the source's fields. Its methods
  are proved against a bit *stream*: the bit read after `k` steps. The stream
  is then proved to read sample `k mod Capacity` under the mask of pass
  `k div Capacity`.
- `embed.dfy`: a reference encoder. It is the partner the decoder inverts; the
  repository has no encoder. With it come the round trip and its converse.
- `bit_plane.dfy`: `extract_lsb` in 8-bit arithmetic.
- `probes.dfy`: the probe order and what one probe yields.
- `simplified_scanner.dfy` and `enhanced_scanner.dfy`: the two workers and
  their formatters.
- `live_loop.dfy`: the camera loop's queues and cooldown.
- `url_opener.dfy`: `find_and_decode_qr`, `process_image` and `main`'s
  decision.

The barcode decoder, `cv2.imdecode` and the clock are parameters.

## Model

| member | source | states |
|---|---|---|
| Bits.BinaryValue | lsb_qr_scanner.py:56 | `int(bits, 2)` of an n-digit string is below 2^n |
| Bits.ValueOfBinaryString | lsb_qr_scanner.py:56-59 | writing v < 2^n as n binary digits and reading them back with `int(·, 2)` gives v |
| Bits.BinaryStringOfValue | lsb_qr_scanner.py:56-59 | conversely, a string of '0'/'1' digits is the n-digit spelling of its own value, so no two digit strings read alike |
| Images.Image.At | lsb_qr_scanner.py:38 | `image[h, w][c]` is sample (h·width + w)·channels + c of the C-order buffer, which is in range |
| Images.ChannelSlice | simplified_realtime_lsb_qr_scanner.py:62 | `lsb_frame[:, :, channel]` is a one-channel image of the same height and width whose pixel (h, w) is channel c of the input's |
| Images.CapacityPositive | lsb_qr_scanner.py:11-12 | an image has at least one sample exactly when none of its three dimensions is zero |
| LsbSteg.Plane | progressive_lsb_qr_scanner.py:49-53 | the bit plane read during a pass is always one of 0..7 |
| LsbSteg.MaskAt | progressive_lsb_qr_scanner.py:32-33 | `maskONE` is always a value 1..128, and it is 128 exactly in the pass that reads plane 7 |
| LsbSteg.OnesTable | progressive_lsb_qr_scanner.py:32 | the literal list `maskONEValues` holds the masks 2^0..2^7 of planes 0..7, in order |
| LsbSteg.ZerosTable | progressive_lsb_qr_scanner.py:35 | the literal list `maskZEROValues` holds their complements 255 − 2^p, in order |
| LsbSteg.MaskStep | progressive_lsb_qr_scanner.py:49-53 | on a wrap below 128 the next popped `maskONE` is twice the current one, the popped `maskZERO` is its complement, and both lists lose their head; at 128 or in the fixed reader nothing changes |
| LsbSteg.MaskMonotone | progressive_lsb_qr_scanner.py:49-53 | the progressive mask never decreases and rises strictly over the first eight passes; the fixed mask is always 1 |
| LsbSteg.MaskBits | progressive_lsb_qr_scanner.py:64 | `int(val) & maskONE` tests exactly the bit of the current plane |
| LsbSteg.Next | lsb_qr_scanner.py:21-35 | one `next_slot` step keeps the cursor inside the image |
| LsbSteg.NextFlat | lsb_qr_scanner.py:21-35 | a step moves from sample i to sample i + 1 of the C-order buffer in the same pass, except from the last sample, and only from there, where it goes to (0,0,0) of the next pass |
| LsbSteg.StreamAtFlat | lsb_qr_scanner.py:21-35 | after q·Capacity + r steps the cursor stands on sample r during pass q: every slot is visited once per pass, in C order |
| LsbSteg.BitIsSlot | progressive_lsb_qr_scanner.py:62-69 | bit k of the stream is the bit of plane `Plane(k div Capacity)` of sample `k mod Capacity` |
| LsbSteg.FixedPeriodic | lsb_qr_scanner.py:26-28 | the fixed reader reads bit 0 of every sample on every pass, so its stream repeats with period Capacity |
| LsbSteg.ProgressivePlanes | progressive_lsb_qr_scanner.py:45-53 | pass q < 8 of the progressive reader reads plane q; from pass 7 on it keeps re-reading plane 7 |
| LsbSteg.FirstPass | lsb_qr_url_opener.py:29-30 | during the first pass both readers read the least significant bit of the sample |
| LsbSteg.FirstPassBits | lsb_qr_url_opener.py:71-75 | bits read within the first pass are identical for both readers |
| LsbSteg.NoWrapPayload | lsb_qr_url_opener.py:77-82 | when 64 + 8L bits fit in one pass, the fixed and the progressive readers decode the same length and the same bytes |
| LsbSteg.FirstPassPrefix | lsb_qr_url_opener.py:80-81 | the first n payload bytes agree between the two readers when they lie in the first pass |
| LsbSteg.StreamBits | lsb_qr_scanner.py:49-53 | n reads spell n characters |
| LsbSteg.DeclaredLength | lsb_qr_scanner.py:56 | the declared length is the value of the first 64 bits, below 2^64 |
| LsbSteg.Payload | lsb_qr_scanner.py:55-60 | the payload has exactly the declared number of bytes |
| LsbSteg.StreamBitsStep | lsb_realtime_qr_scanner.py:51-55 | reading one more bit appends that bit of the stream |
| LsbSteg.PayloadPrefixStep | lsb_realtime_qr_scanner.py:60-61 | each further `int(read_byte(), 2)` appends the value of the next 8 stream bits, a number below 256 |
| LsbSteg.Reader.constructor | progressive_lsb_qr_scanner.py:27-40 | a fresh reader stands at (0,0,0) with `maskONE` = 1 and `maskZERO` = 254, and its pending mask lists are those of plane 0 |
| LsbSteg.Reader.NextSlot | progressive_lsb_qr_scanner.py:42-60 | the cursor moves one step of the traversal; the answer is True except on a wrap, where it is False for the fixed reader and None (false) for the progressive reader at 128; only a wrap changes the mask, doubling it below 128 |
| LsbSteg.Reader.NextMask | progressive_lsb_qr_scanner.py:47-53 | a wrap starts a new pass: the progressive reader below 128 pops the next mask pair (twice the current mask); otherwise the masks stay; the cursor is untouched |
| LsbSteg.Reader.ReadBit | lsb_qr_scanner.py:37-44 | the answer is "1" exactly when the sample under the cursor has the mask bit set; it is the next bit of the stream, and the reader advances one slot |
| LsbSteg.Reader.ReadBits | lsb_realtime_qr_scanner.py:51-55 | the next nb bits of the stream, in order |
| LsbSteg.Reader.ReadByte | progressive_lsb_qr_scanner.py:71-72 | the next 8 bits of the stream |
| LsbSteg.Reader.DecodeBinary | lsb_qr_url_opener.py:77-82 | the bytes returned are the payload of the stream from where the reader stands, and the reader has consumed 64 + 8L bits |
| LsbSteg.ExtractLsbData | lsb_qr_url_opener.py:84-86 | a fresh progressive reader decodes the payload from (0,0,0); an image without samples gives None |
| LsbSteg.ExtractHiddenData | lsb_qr_scanner.py:62-67 | a fresh fixed-mask reader decodes the payload from (0,0,0); an image without samples gives None |
| LsbEmbed.EncodePayload | lsb_qr_scanner.py:55-60 | the layout the decoder reads: 64 length digits then 8 digits per byte, 64 + 8L digits in all |
| LsbEmbed.EmbeddedBits | lsb_qr_scanner.py:37-44 | within the first pass, both readers read back exactly the digits written into the least significant bits |
| LsbEmbed.StreamLength | lsb_qr_scanner.py:56 | a stream that holds an encoded payload from bit k on declares the payload's length there |
| LsbEmbed.StreamByte | lsb_qr_scanner.py:58-59 | ... and byte j read after that length is byte j of the payload |
| LsbEmbed.StreamRoundTrip | progressive_lsb_qr_scanner.py:77-86 | decoding from bit k a stream that holds an encoded payload there returns exactly that payload, for either reader and however many bit planes the payload spans |
| LsbEmbed.RoundTrip | lsb_qr_url_opener.py:77-82 | decoding an image written by the encoder returns the data written, for either reader, whenever it fits in the image's samples |
| LsbEmbed.ReadIsEncoded | progressive_lsb_qr_scanner.py:77-86 | conversely, whatever the decoder returns, encoding it gives back exactly the 64 + 8L bits it consumed |
| BitPlane.PlaneSample | simplified_realtime_lsb_qr_scanner.py:26 | a bit-plane sample is 0 when bit p is clear and 256 − 2^p otherwise: the product with 255 wraps in uint8 |
| BitPlane.ExtractLsb | enhanced_qr.py:22-23 | `extract_lsb` keeps the image's shape and maps every sample through the plane-p mapping |
| BitPlane.PlaneSampleNonZero | simplified_realtime_lsb_qr_scanner.py:26 | a bit-plane sample is non-zero exactly where bit p of the input is set |
| BitPlane.PlaneSampleWhite | enhanced_qr.py:23 | only plane 0 produces 255; a set bit of plane p > 0 produces 256 − 2^p |
| BitPlane.PlaneMatchesReader | simplified_realtime_lsb_qr_scanner.py:25-26 | bit-plane image q is non-zero at sample r exactly when the progressive reader's bit q·Capacity + r is 1 |
| Probes.ProbeOrder | simplified_realtime_lsb_qr_scanner.py:57-75 | `planes` planes give 4·planes probes |
| Probes.ProbeOrderKeys | simplified_realtime_lsb_qr_scanner.py:57-75 | probe i of the order has key i and a plane below `planes`; it is a valid probe exactly when i < 32 |
| Probes.ProbeOrderSorted | enhanced_qr.py:49-60 | an earlier probe of the order reads a lower plane, or the same plane with an earlier channel (0, 1, 2, then combined) |
| Probes.ProbeOrderComplete | enhanced_qr.py:49-60 | every valid (plane, channel) of the first `planes` planes is issued, at the position of its key |
| Probes.PrecedesByKey | enhanced_qr.py:49-60 | the scanning order is the order of keys 4·plane + rank(channel) |
| Probes.ProbeOrderPlanes | simplified_realtime_lsb_qr_scanner.py:57 | every probe reads one of the first `planes` planes |
| Probes.ProbeAt | simplified_realtime_lsb_qr_scanner.py:57-70 | the nested plane and channel loops issue probe (p, c) at position 4p + rank(c) |
| Probes.ProbeImage | simplified_realtime_lsb_qr_scanner.py:58-70 | a channel probe hands over channel c of the plane's bit-plane image (`lsb_frame[:, :, channel]`) and the combined probe the whole bit-plane image; a missing channel is an error |
| Probes.FindAndDecodeQr | simplified_realtime_lsb_qr_scanner.py:41-49 | None exactly when the decoder raises or finds nothing; otherwise the formatted content of the first symbol |
| Probes.TryProbe | simplified_realtime_lsb_qr_scanner.py:62-63 | a probe raises exactly when its channel is missing, and finds exactly when its result is truthy, with that result |
| Probes.TryChannel | enhanced_qr.py:53-54 | a channel probe is `find_and_decode_qr(lsb_frame[:, :, channel])` tested for truthiness; a channel beyond the frame's raises |
| Probes.TryCombined | enhanced_qr.py:58-59 | the combined probe is `find_and_decode_qr(lsb_frame)` tested for truthiness |
| Probes.FoundIffDecoded | simplified_realtime_lsb_qr_scanner.py:43-46 | with a formatter that never yields "", a probe finds something exactly when the decoder returns a symbol |
| SimplifiedScanner.ExpandShortenedUrl | simplified_realtime_lsb_qr_scanner.py:22-23 | the expansion is the fixed domain `https://your-actual-domain.com/` followed by the identifier, so an https URL whose path is the identifier |
| SimplifiedScanner.DecodeQrContent | simplified_realtime_lsb_qr_scanner.py:28-39 | exactly one label applies: "Expanded URL" iff six ASCII digits, "Direct URL" iff otherwise starting with "http", "Unprocessed" otherwise; the content is the result's tail |
| SimplifiedScanner.LabelsDiffer | simplified_realtime_lsb_qr_scanner.py:32-39 | no string carries two of the three labels |
| SimplifiedScanner.ContentOfDecode | simplified_realtime_lsb_qr_scanner.py:28-39 | the content can be read back off every formatted result |
| SimplifiedScanner.DecodeInjective | simplified_realtime_lsb_qr_scanner.py:28-39 | distinct contents give distinct results |
| SimplifiedScanner.FormattedTruthy | simplified_realtime_lsb_qr_scanner.py:63 | formatted results are never empty, so `if qr_data:` means that the decoder found a symbol |
| SimplifiedScanner.NotFoundIffAllMissed | simplified_realtime_lsb_qr_scanner.py:57-77 | a frame reports "No hidden QR Code detected" exactly when every probe misses |
| SimplifiedScanner.FirstFoundPublished | simplified_realtime_lsb_qr_scanner.py:62-75 | after misses on the earlier probes, the first probe that finds is the one published, with its plane, channel and bit-plane image; the first that raises ends the frame |
| SimplifiedScanner.FirstHitFrom | simplified_realtime_lsb_qr_scanner.py:61-75 | the search from probe k: raise ends the frame, a hit is published, a miss moves on to probe k + 1 |
| SimplifiedScanner.ScanFrame | simplified_realtime_lsb_qr_scanner.py:57-77 | the frame's outcome is the first hit over planes 0..3 in probe order |
| SimplifiedScanner.ScanPlane | simplified_realtime_lsb_qr_scanner.py:58-75 | one plane's four probes decide the search, or, when all miss, hand it on to the next plane |
| SimplifiedScanner.ScanChannel | simplified_realtime_lsb_qr_scanner.py:61-67 | one channel probe publishes its truthy result, ends the frame when the channel is missing, or hands the search on to the next probe |
| SimplifiedScanner.ScanCombined | simplified_realtime_lsb_qr_scanner.py:69-75 | the combined probe publishes its truthy result with channel −1, or hands the search on to the next plane |
| SimplifiedScanner.Reported | simplified_realtime_lsb_qr_scanner.py:66 | a frame puts at most one item on the result queue, a publication |
| SimplifiedScanner.AsWrittenStops | simplified_realtime_lsb_qr_scanner.py:67 | as written, once something is published, later frames change nothing |
| SimplifiedScanner.AsWrittenAtMostOne | simplified_realtime_lsb_qr_scanner.py:66-67 | as written, the worker reports at most one result over its lifetime |
| SimplifiedScanner.WorkerAsWritten | simplified_realtime_lsb_qr_scanner.py:51-86 | the worker as written publishes the first frame's hit and returns |
| SimplifiedScanner.Worker | simplified_realtime_lsb_qr_scanner.py:51-86 | the worker with the early `return` replaced by moving on: it reports each frame's hit, in frame order |
| SimplifiedScanner.ReportsComplete | simplified_realtime_lsb_qr_scanner.py:51-86 | every frame with a hit has that hit reported |
| SimplifiedScanner.ReportsSound | simplified_realtime_lsb_qr_scanner.py:51-86 | there are at most as many reports as frames, and every report is a publication |
| SimplifiedScanner.SecondFrameIgnored | simplified_realtime_lsb_qr_scanner.py:67 | with two frames that both show a code, the worker as written reports one and the corrected worker two |
| SimplifiedScanner.SecondFrameIgnoredExample | simplified_realtime_lsb_qr_scanner.py:75 | for example, a decoder reading "123456" everywhere and two 1×1 colour frames |
| EnhancedScanner.DecodeQrContent | enhanced_qr.py:25-30 | the content follows the fixed label "QR Code Content: " and can be split off again |
| EnhancedScanner.AllHitsStep | enhanced_qr.py:52-60 | one more probe extends the collection by that probe's outcome |
| EnhancedScanner.AbortedStays | enhanced_qr.py:76-77 | once an exception has ended the frame, later probes change nothing |
| EnhancedScanner.AbortedIffRaised | enhanced_qr.py:42-77 | the frame is abandoned exactly when some probe raises |
| EnhancedScanner.HitsSound | enhanced_qr.py:52-60 | every collected hit comes from an issued probe that found exactly that content, and there are no more hits than probes |
| EnhancedScanner.HitsComplete | enhanced_qr.py:52-60 | every probe that finds something contributes its hit, unless the frame was abandoned |
| EnhancedScanner.HitsOrdered | enhanced_qr.py:49-60 | probes issued in scanning order give hits in scanning order |
| EnhancedScanner.ExhaustiveOrder | enhanced_qr.py:49-52 | the 32 probes read planes below 8 and are strictly increasing in scanning order |
| EnhancedScanner.FrameHits | enhanced_qr.py:48-60 | a frame's hits are at most 32 valid (plane, channel) pairs, in scanning order |
| EnhancedScanner.ToQueue | enhanced_qr.py:62-68 | the list is put on the result queue exactly when it is not empty, unchanged |
| EnhancedScanner.HitsUpToIsAllHits | enhanced_qr.py:49-60 | collecting probe by probe up to n is collecting over the first n probes |
| EnhancedScanner.HitsUpToAbortedStays | enhanced_qr.py:76-77 | an abandoned search stays abandoned over later probes |
| EnhancedScanner.HitsUpToAborted | enhanced_qr.py:76-77 | a search abandoned at some probe abandons the frame |
| EnhancedScanner.ScanFrame | enhanced_qr.py:42-77 | the frame's outcome is the collection over all 32 probes, and the queue gets the list exactly when it is non-empty |
| EnhancedScanner.ScanPlane | enhanced_qr.py:50-60 | one plane's four probes extend the collection by their hits, in channel order, or abandon it |
| EnhancedScanner.ScanChannel | enhanced_qr.py:52-55 | one channel probe appends its truthy result to the hits so far, or abandons the frame when the channel is missing |
| LiveLoop.Displays | simplified_realtime_lsb_qr_scanner.py:135-144 | no more displays than results taken |
| LiveLoop.CooldownSpacing | simplified_realtime_lsb_qr_scanner.py:137-144 | any two displays are more than 2 seconds apart, and the first is more than 2 seconds after the start |
| LiveLoop.DisplaysArePolls | simplified_realtime_lsb_qr_scanner.py:135-137 | every display happens at an iteration that took a result |
| LiveLoop.SlowResultsAllShown | enhanced_qr.py:126-141 | results taken more than 2 seconds apart are all displayed |
| LiveLoop.DropsWithinCooldown | enhanced_qr.py:128 | a result taken within 2 seconds of the last display is dropped |
| LiveLoop.Loop.constructor | simplified_realtime_lsb_qr_scanner.py:102-110 | both queues are empty and `last_qr_time` is 0 |
| LiveLoop.Loop.OfferFrame | simplified_realtime_lsb_qr_scanner.py:132-133 | a frame is queued only when the one-slot frame queue is empty; otherwise it is skipped |
| LiveLoop.Loop.TakeFrame | simplified_realtime_lsb_qr_scanner.py:54 | the worker takes the queued frame, or times out on an empty queue |
| LiveLoop.Loop.PublishResult | enhanced_qr.py:66 | the worker appends its result to the result queue |
| LiveLoop.Loop.PollResult | simplified_realtime_lsb_qr_scanner.py:135-144 | the oldest result is always taken; it is shown, and `last_qr_time` becomes now, exactly when more than the cooldown has passed since the last display |
| LiveLoop.Loop.Tick | enhanced_qr.py:123-141 | one iteration: offer the frame, then take and possibly show one result; `last_qr_time` becomes now exactly when a result is shown, and the poll is recorded when a result was waiting |
| LiveLoop.ShownHit | enhanced_qr.py:129-140 | the first hit of the list, and only it, is shown |
| LiveLoop.ShownHitIsEarliest | enhanced_qr.py:129-140 | the hit shown is that of the earliest probe: every other hit of the list comes from a later one |
| UrlOpener.MainDecision | lsb_qr_url_opener.py:144-152 | a browser is opened exactly for truthy content starting with "http://" or "https://"; other truthy content is reported; None or "" is a failure |
| UrlOpener.FindAndDecodeBytes | lsb_qr_url_opener.py:88-104 | a result exactly when there is data, it decodes to an image and the decoder finds a symbol; the result is the first symbol, unformatted |
| UrlOpener.ProcessImage | lsb_qr_url_opener.py:106-125 | None for an unreadable image; otherwise the QR content of the image file hidden by the progressive reader's payload |
| UrlOpener.HiddenUrlOpened | lsb_qr_url_opener.py:142-148 | an image file whose QR code holds a web URL, written into a cover image by the encoder, makes `main` open that URL |
| UrlOpener.OpenedUrlWasHidden | lsb_qr_url_opener.py:142-148 | conversely, an opened URL is the first QR symbol of the image file encoded in the bits the reader consumed |
| UrlOpener.OpenedUrlsAreDirect | simplified_realtime_lsb_qr_scanner.py:35-36 | every URL the opener opens is labelled "Direct URL" by the simplified live scanner |

## Left out

- Timeouts are not modelled: the `Timer` thread of `extract_lsb_data` (progressive_lsb_qr_scanner.py) and the `SIGALRM` alarm of `extract_hidden_data` (lsb_realtime_qr_scanner.py). The decode is modelled as always finishing.
- Threads, `Event`, `task_done` and the worker's one-second `get` timeout are not modelled. `LiveLoop.Loop.TakeFrame` returns None where the `get` raises `Empty`.
- `cv2.imread`, `cv2.imdecode` and pyzbar's `decode` are inputs or function parameters. The UTF-8 decoding of a symbol is folded into the decoder parameter, and a decoding error counts as the decoder raising.
- The camera, windows, drawing, `print`, the FPS counter, `webbrowser.open` and the tkinter file dialog are not modelled. `UrlOpener.MainDecision` says which action `main` takes.
- The progress logging of the progressive `decode_binary` (every 100 bytes) is not modelled; it does not affect the bytes.
- Times are real numbers given as parameters; the clock is not read.
- `SimplifiedScanner.IsDigits`: `str.isdigit` accepts Unicode digits as well; the model accepts only '0'..'9'.
- The repository has no encoder. `LsbEmbed` is a reference writer, used only to state what the decoder inverts.
- The readers trust the declared length and wrap around the image; nothing reports a length beyond the capacity.
- `BitPlane.PlaneSample`: `extract_lsb` multiplies in uint8, so a set bit of plane p gives 256 − 2^p, which is 255 only for p = 0.
- `LiveLoop.Loop.PollResult`: the cooldown drops every result taken within 2 seconds of the last display, whatever its content.
- `UrlOpener.ProcessImage` requires an image with no zero dimension, because `cv2.imread` never yields one.
- `LsbSteg.ExtractLsbData`: returns None for an image with a zero dimension. `extract_lsb_data` (lsb_qr_url_opener.py) raises IndexError there on the first `read_bit`; no caller produces such an image.
- `LsbSteg.ExtractHiddenData`: returns None for an image with a zero dimension. `extract_hidden_data` raises IndexError there on the first `read_bit` (lsb_qr_scanner.py, and lsb_realtime_qr_scanner.py, which catches only TimeoutError); no caller produces such an image.
- `UrlOpener.FindAndDecodeBytes`: the `imdecode` parameter answers None for bytes that are not an image. `cv2.imdecode` is called outside the `try` (lsb_qr_url_opener.py:91-92) and raises `cv2.error` on an empty buffer, which a declared length of 0 produces; that error ends `main` instead of the failure message that `UrlOpener.ProcessImage` and `UrlOpener.MainDecision` give.
- `LiveLoop.Loop.PollResult`: the drawing of a shown result is not modelled. For a hit on the combined channel (−1), `cv2.cvtColor(..., cv2.COLOR_GRAY2BGR)` receives a three-channel image (simplified_realtime_lsb_qr_scanner.py:139-140, enhanced_qr.py:135-136), which OpenCV rejects; the error leaves `main`'s loop through its `finally` before `last_qr_time` is updated, whereas the model shows the result and carries on.
- `LsbSteg.ExtractHiddenData` takes the image, not a file path: the `imread` and the `ValueError` for an unreadable file in lsb_qr_scanner.py are not modelled.
- `save_extracted_image` and `decode_qr` of lsb_qr_scanner.py, and the camera loop `scan_lsb_qr_from_camera` of lsb_realtime_qr_scanner.py, are not modelled: they are file and camera I/O around the reader.
- The enhanced display redraws `extract_lsb` of the current frame rather than of the frame that was scanned; this is drawing and is not modelled.
- `process_frame`, `find_and_decode_qr` and `main` of progressive_lsb_qr_scanner.py are not modelled; only its reader is.
- The ghost `pass` and `consumed` counters of `LsbSteg.Reader` are proof devices; the source has no such fields.

## Findings

| source | as written | input that shows it | evidently intended | confidence | as-written member | corrected member |
|---|---|---|---|---|---|---|
| simplified_realtime_lsb_qr_scanner.py:67 | after the first hit, `return` leaves `process_frame`, so the worker thread ends and no later frame is scanned (also at line 75) | two frames that each show a QR code in plane 0, channel 0: only the first is reported | leave the probe loops and go on to the next frame, as the enhanced scanner does | medium, not executed | SimplifiedScanner.WorkerAsWritten | SimplifiedScanner.Worker |
