/**
 * The LSBSteg bit-stream reader, in its two variants:
 *  - Fixed: mask 1 for ever; the cursor wraps silently to (0,0,0) at the end
 *    of the image and `next_slot` reports False there.
 *  - Progressive: each completed pass over the image raises the mask
 *    1, 2, 4, ..., 128; after the pass under 128 the cursor wraps, the mask
 *    stays 128 and `next_slot` reports None.
 * The cursor moves channel first, then column, then row.
 *
 * The bits the reader hands out are described by a stream: bit k is read
 * where the cursor stands after k steps from (0,0,0), under the mask of the
 * pass it is in. The reader's methods are proved against that stream, and
 * the stream is shown to read sample k mod Capacity under the mask of pass
 * k div Capacity.
 */
module LsbSteg {
  import opened Common
  import opened Bits
  import opened Images

  datatype Schedule = Fixed | Progressive

  /** `maskONEValues` and `maskZEROValues` of the progressive reader, before any pop. */
  const MaskOneValues: seq<nat> := [1, 2, 4, 8, 16, 32, 64, 128]
  const MaskZeroValues: seq<nat> := [254, 253, 251, 247, 239, 223, 191, 127]

  /** The same single-bit masks as 8-bit words, indexed by bit plane. */
  const PlaneBits: seq<bv8> := [1, 2, 4, 8, 16, 32, 64, 128]

  /** The bit plane read during pass number `pass` (0 for the first pass). */
  function Plane(schedule: Schedule, pass: nat): (p: nat)
    ensures p < 8
  {
    match schedule
    case Fixed => 0
    case Progressive => if pass < 7 then pass else 7
  }

  /** `maskONE` during pass number `pass`: the single bit of that pass's plane. */
  function MaskAt(schedule: Schedule, pass: nat): (mask: nat)
    ensures 1 <= mask <= 128
    ensures mask == 128 <==> Plane(schedule, pass) == 7
  {
    var p := Plane(schedule, pass);
    Pow2Eight();
    if p < 7 then Pow2Increasing(p, 7); Pow2(p) else Pow2(p)
  }

  /** The masks of planes `from` to 7, in order. */
  function OnesFrom(from: nat): (ones: seq<nat>)
    decreases 8 - from
    ensures |ones| == if from < 8 then 8 - from else 0
  {
    if from >= 8 then [] else [Pow2(from)] + OnesFrom(from + 1)
  }

  /** Their complements in 0..255. */
  function ZerosFrom(from: nat): (zeros: seq<int>)
    decreases 8 - from
    ensures |zeros| == if from < 8 then 8 - from else 0
  {
    if from >= 8 then [] else [255 - Pow2(from)] + ZerosFrom(from + 1)
  }

  /** What is left of `maskONEValues` during pass number `pass` (the fixed reader has no list). */
  function PendingOnes(schedule: Schedule, pass: nat): seq<nat>
  {
    if schedule.Fixed? then [] else OnesFrom(Plane(schedule, pass) + 1)
  }

  /** What is left of `maskZEROValues` during pass number `pass`. */
  function PendingZeros(schedule: Schedule, pass: nat): seq<int>
  {
    if schedule.Fixed? then [] else ZerosFrom(Plane(schedule, pass) + 1)
  }

  /** Entry i of the pending one masks from plane `from` is the mask of plane from + i. */
  lemma {:induction false} OnesAt(from: nat)
    requires from <= 8
    decreases 8 - from
    ensures |OnesFrom(from)| == 8 - from
    ensures forall i :: 0 <= i < 8 - from ==> OnesFrom(from)[i] == Pow2(from + i)
  {
    if from < 8 {
      OnesAt(from + 1);
    }
  }

  /** The literal list `maskONEValues` of `__init__` holds the masks of planes 0..7. */
  lemma OnesTable()
    ensures OnesFrom(0) == MaskOneValues
  {
    OnesAt(0);
    Pow2Planes();
    var ones := OnesFrom(0);
    assert ones[0] == 1 && ones[1] == 2 && ones[2] == 4 && ones[3] == 8;
    assert ones[4] == 16 && ones[5] == 32 && ones[6] == 64 && ones[7] == 128;
  }

  /** Each pending zero mask is the complement of the pending one mask beside it. */
  lemma {:induction false} ZerosComplementOnes(from: nat)
    decreases 8 - from
    ensures |ZerosFrom(from)| == |OnesFrom(from)|
    ensures forall i :: 0 <= i < |OnesFrom(from)| ==> ZerosFrom(from)[i] + OnesFrom(from)[i] == 255
  {
    if from < 8 {
      ZerosComplementOnes(from + 1);
    }
  }

  /** The literal list `maskZEROValues` of `__init__` holds their complements. */
  lemma ZerosTable()
    ensures ZerosFrom(0) == MaskZeroValues
  {
    OnesTable();
    ZerosComplementOnes(0);
  }

  /** `maskONE` as an 8-bit word is the single bit of its plane. */
  lemma MaskBits(schedule: Schedule, pass: nat)
    ensures MaskAt(schedule, pass) as bv8 == PlaneBits[Plane(schedule, pass)]
  {
    var p := Plane(schedule, pass);
    Pow2Eight();
    if p == 0 {
    } else if p == 1 {
    } else if p == 2 {
    } else if p == 3 {
      assert Pow2(3) == 8;
    } else if p == 4 {
      assert Pow2(4) == 16;
    } else if p == 5 {
      assert Pow2(5) == 32;
    } else if p == 6 {
      assert Pow2(6) == 64;
    }
  }

  /** The progressive schedule never lowers the mask, and raises it at each of the first seven wraps. */
  lemma {:induction false} MaskMonotone(p: nat, q: nat)
    requires p <= q
    ensures MaskAt(Progressive, p) <= MaskAt(Progressive, q)
    ensures q < 8 && p < q ==> MaskAt(Progressive, p) < MaskAt(Progressive, q)
    ensures MaskAt(Fixed, p) == MaskAt(Fixed, q) == 1
  {
    var a, b := Plane(Progressive, p), Plane(Progressive, q);
    if a < b {
      Pow2Increasing(a, b);
    }
  }

  /**
   * What a wrap does to the masks: below 128 the progressive reader pops the
   * next mask (twice the current one) and its complement; otherwise nothing
   * changes.
   */
  lemma MaskStep(schedule: Schedule, pass: nat)
    ensures schedule.Progressive? && MaskAt(schedule, pass) != 128 ==>
      && PendingOnes(schedule, pass) != [] && PendingZeros(schedule, pass) != []
      && MaskAt(schedule, pass + 1) == PendingOnes(schedule, pass)[0] == 2 * MaskAt(schedule, pass)
      && PendingOnes(schedule, pass + 1) == PendingOnes(schedule, pass)[1..]
      && PendingZeros(schedule, pass)[0] == 255 - MaskAt(schedule, pass + 1)
      && PendingZeros(schedule, pass + 1) == PendingZeros(schedule, pass)[1..]
    ensures schedule.Fixed? || MaskAt(schedule, pass) == 128 ==>
      && MaskAt(schedule, pass + 1) == MaskAt(schedule, pass)
      && PendingOnes(schedule, pass + 1) == PendingOnes(schedule, pass)
      && PendingZeros(schedule, pass + 1) == PendingZeros(schedule, pass)
  {
    var p := Plane(schedule, pass);
    if schedule.Progressive? && p < 7 {
      assert Plane(schedule, pass + 1) == p + 1;
      assert OnesFrom(p + 1) == [Pow2(p + 1)] + OnesFrom(p + 2);
      assert ZerosFrom(p + 1) == [255 - Pow2(p + 1)] + ZerosFrom(p + 2);
    } else if schedule.Progressive? {
      assert Plane(schedule, pass + 1) == 7;
    }
  }

  /** Bit p of sample number i (in C order): `int(val) & maskONE > 0` with maskONE = 2^p. */
  function SlotBit(img: Image, i: nat, p: nat): bool
    requires img.Valid() && i < img.Capacity() && p < 8
  {
    img.samples[i] & PlaneBits[p] != 0
  }

  /**
   * A place in the reader's bit stream: how many times the cursor has wrapped
   * to (0,0,0), and the cursor (curheight, curwidth, curchan).
   */
  datatype StreamPos = StreamPos(pass: nat, row: nat, col: nat, chan: nat)

  /** Where a freshly constructed reader stands. */
  const Start := StreamPos(0, 0, 0, 0)

  predicate InImage(img: Image, p: StreamPos)
  {
    p.row < img.height && p.col < img.width && p.chan < img.channels
  }

  /** The sample number of the cursor in C order: (row*width + col)*channels + chan. */
  function Flat(img: Image, p: StreamPos): nat
  {
    img.FlatIndex(p.row, p.col, p.chan)
  }

  /**
   * One `next_slot` step: the next channel; after the last channel the next
   * column; after the last column the next row; after the last row (0,0,0)
   * in the next pass.
   */
  function Next(img: Image, p: StreamPos): (q: StreamPos)
    requires InImage(img, p)
    ensures InImage(img, q)
  {
    if p.chan == img.channels - 1 then
      if p.col == img.width - 1 then
        if p.row == img.height - 1 then StreamPos(p.pass + 1, 0, 0, 0)
        else StreamPos(p.pass, p.row + 1, 0, 0)
      else StreamPos(p.pass, p.row, p.col + 1, 0)
    else StreamPos(p.pass, p.row, p.col, p.chan + 1)
  }

  /** n steps on from p. */
  function Advance(img: Image, p: StreamPos, n: nat): (q: StreamPos)
    requires InImage(img, p)
    ensures InImage(img, q)
  {
    if n == 0 then p else Next(img, Advance(img, p, n - 1))
  }

  /** Where the reader stands after k `next_slot` steps from (0,0,0). */
  function StreamAt(img: Image, k: nat): (p: StreamPos)
    requires img.NonEmpty()
    ensures InImage(img, p)
  {
    Advance(img, Start, k)
  }

  /** The bit read at position p: the cursor's sample under the mask of pass p.pass. */
  function BitAt(img: Image, schedule: Schedule, p: StreamPos): bool
    requires img.Valid() && InImage(img, p)
  {
    img.At(p.row, p.col, p.chan) & PlaneBits[Plane(schedule, p.pass)] != 0
  }

  /** Bit k of the stream: the (k+1)-th bit `read_bit` hands out. */
  function Bit(img: Image, schedule: Schedule, k: nat): bool
    requires img.Valid() && img.NonEmpty()
  {
    BitAt(img, schedule, StreamAt(img, k))
  }

  function BitChar(b: bool): char
  {
    if b then '1' else '0'
  }

  /** Stream bits k .. k+n-1, as `read_bits` spells them. */
  function StreamBits(img: Image, schedule: Schedule, k: nat, n: nat): (s: string)
    requires img.Valid() && img.NonEmpty()
    ensures |s| == n
  {
    seq(n, j requires 0 <= j < n => BitChar(Bit(img, schedule, k + j)))
  }

  /** The 64-bit length prefix read from stream bit k on. */
  function DeclaredLength(img: Image, schedule: Schedule, k: nat): (len: nat)
    requires img.Valid() && img.NonEmpty()
    ensures len < Pow2(64)
  {
    BinaryValue(StreamBits(img, schedule, k, 64))
  }

  /** Byte j of the payload that follows a length prefix read from bit k on. */
  function PayloadByte(img: Image, schedule: Schedule, k: nat, j: nat): Byte
    requires img.Valid() && img.NonEmpty()
  {
    Pow2Eight();
    BinaryValue(StreamBits(img, schedule, k + 64 + 8 * j, 8))
  }

  /** The first n payload bytes after a length prefix read from bit k on. */
  function PayloadPrefix(img: Image, schedule: Schedule, k: nat, n: nat): (data: seq<Byte>)
    requires img.Valid() && img.NonEmpty()
    ensures |data| == n
  {
    seq(n, j requires 0 <= j < n => PayloadByte(img, schedule, k, j))
  }

  /** What `decode_binary` returns when started at stream bit k: the declared number of bytes. */
  function Payload(img: Image, schedule: Schedule, k: nat): (data: seq<Byte>)
    requires img.Valid() && img.NonEmpty()
    ensures |data| == DeclaredLength(img, schedule, k)
  {
    PayloadPrefix(img, schedule, k, DeclaredLength(img, schedule, k))
  }

  /** One more payload byte: the 8 bits that start 64 + 8n bits after k. */
  lemma PayloadPrefixStep(img: Image, schedule: Schedule, k: nat, n: nat, bits: string)
    requires img.Valid() && img.NonEmpty()
    requires bits == StreamBits(img, schedule, k + 64 + 8 * n, 8)
    ensures |bits| == 8 && BinaryValue(bits) < 256
    ensures PayloadPrefix(img, schedule, k, n + 1) == PayloadPrefix(img, schedule, k, n) + [BinaryValue(bits)]
  {
    Pow2Eight();
    assert PayloadPrefix(img, schedule, k, n + 1)[..n] == PayloadPrefix(img, schedule, k, n);
  }

  /** Reading one more bit extends the bits read so far. */
  lemma StreamBitsStep(img: Image, schedule: Schedule, k: nat, n: nat)
    requires img.Valid() && img.NonEmpty()
    ensures StreamBits(img, schedule, k, n + 1) == StreamBits(img, schedule, k, n) + [BitChar(Bit(img, schedule, k + n))]
  {
    assert StreamBits(img, schedule, k, n + 1)[..n] == StreamBits(img, schedule, k, n);
  }

  /** Step k + 1 is one `next_slot` after step k. */
  lemma StreamAtNext(img: Image, k: nat)
    requires img.NonEmpty()
    ensures StreamAt(img, k + 1) == Next(img, StreamAt(img, k))
  {
  }

  /**
   * The traversal is C order: a step raises the sample number by one, except
   * from the last sample, and only there, where it goes back to sample 0 of
   * the next pass.
   */
  lemma NextFlat(img: Image, p: StreamPos)
    requires InImage(img, p)
    ensures Flat(img, p) < img.Capacity() && Flat(img, Next(img, p)) < img.Capacity()
    ensures Flat(img, p) == img.Capacity() - 1 ==> Next(img, p) == StreamPos(p.pass + 1, 0, 0, 0)
    ensures Flat(img, p) != img.Capacity() - 1 ==>
      Next(img, p).pass == p.pass && Flat(img, Next(img, p)) == Flat(img, p) + 1
  {
    var q := Next(img, p);
    FlatIndexInRange(img, p.row, p.col, p.chan);
    FlatIndexInRange(img, q.row, q.col, q.chan);
    LastSlot(img);
    FlatIndexInjective(img, p.row, p.col, p.chan, img.height - 1, img.width - 1, img.channels - 1);
    if p.chan == img.channels - 1 && p.col == img.width - 1 && p.row == img.height - 1 {
    } else if p.chan < img.channels - 1 {
    } else if p.col < img.width - 1 {
      StepColumn(img, p.row, p.col);
    } else {
      StepRow(img, p.row);
    }
  }

  /** After q passes and r more steps (r < Capacity) the cursor is on sample r, in pass q. */
  lemma {:induction false} StreamAtFlat(img: Image, q: nat, r: nat)
    requires img.NonEmpty() && r < img.Capacity()
    ensures Flat(img, StreamAt(img, q * img.Capacity() + r)) == r
    ensures StreamAt(img, q * img.Capacity() + r).pass == q
    decreases q, r
  {
    var cap := img.Capacity();
    if r > 0 {
      StreamAtFlat(img, q, r - 1);
      NextFlat(img, StreamAt(img, q * cap + r - 1));
    } else if q > 0 {
      StreamAtFlat(img, q - 1, cap - 1);
      assert (q - 1) * cap + (cap - 1) + 1 == q * cap;
      NextFlat(img, StreamAt(img, (q - 1) * cap + (cap - 1)));
    }
  }

  /** Bit q*Capacity + r of the stream is bit Plane(q) of sample r. */
  lemma BitOfSlot(img: Image, schedule: Schedule, q: nat, r: nat)
    requires img.Valid() && img.NonEmpty() && r < img.Capacity()
    ensures Bit(img, schedule, q * img.Capacity() + r) == SlotBit(img, r, Plane(schedule, q))
  {
    StreamAtFlat(img, q, r);
  }

  /** Bit k of the stream is bit Plane(k div Capacity) of sample k mod Capacity. */
  lemma BitIsSlot(img: Image, schedule: Schedule, k: nat)
    requires img.Valid() && img.NonEmpty()
    ensures img.Capacity() > 0
    ensures Bit(img, schedule, k) == SlotBit(img, k % img.Capacity(), Plane(schedule, k / img.Capacity()))
  {
    CapacityPositive(img);
    var cap := img.Capacity();
    var q, r := k / cap, k % cap;
    assert k == q * cap + r;
    BitOfSlot(img, schedule, q, r);
  }

  /** Fixed mask: every pass reads the least significant bits again, so the stream is periodic. */
  lemma FixedPeriodic(img: Image, q: nat, r: nat)
    requires img.Valid() && img.NonEmpty() && r < img.Capacity()
    ensures Bit(img, Fixed, q * img.Capacity() + r) == SlotBit(img, r, 0)
    ensures Bit(img, Fixed, (q + 1) * img.Capacity() + r) == Bit(img, Fixed, q * img.Capacity() + r)
  {
    BitOfSlot(img, Fixed, q, r);
    BitOfSlot(img, Fixed, q + 1, r);
  }

  /**
   * Progressive mask: pass q < 8 reads plane q, and from the eighth pass on
   * the reader keeps re-reading plane 7 (mask 128), so the stream is periodic
   * from there.
   */
  lemma ProgressivePlanes(img: Image, q: nat, r: nat)
    requires img.Valid() && img.NonEmpty() && r < img.Capacity()
    ensures q < 8 ==> Bit(img, Progressive, q * img.Capacity() + r) == SlotBit(img, r, q)
    ensures q >= 7 ==>
      && Bit(img, Progressive, q * img.Capacity() + r) == SlotBit(img, r, 7)
      && Bit(img, Progressive, (q + 1) * img.Capacity() + r) == Bit(img, Progressive, q * img.Capacity() + r)
  {
    BitOfSlot(img, Progressive, q, r);
    BitOfSlot(img, Progressive, q + 1, r);
  }

  /** During the first pass both readers read the least significant bit of sample k. */
  lemma FirstPass(img: Image, k: nat)
    requires img.Valid() && img.NonEmpty() && k < img.Capacity()
    ensures Bit(img, Fixed, k) == Bit(img, Progressive, k) == SlotBit(img, k, 0)
  {
    BitOfSlot(img, Fixed, 0, k);
    BitOfSlot(img, Progressive, 0, k);
  }

  /** Bits inside the first pass are the same for both readers. */
  lemma FirstPassBits(img: Image, k: nat, n: nat)
    requires img.Valid() && img.NonEmpty() && k + n <= img.Capacity()
    ensures StreamBits(img, Fixed, k, n) == StreamBits(img, Progressive, k, n)
  {
    var fixed, progressive := StreamBits(img, Fixed, k, n), StreamBits(img, Progressive, k, n);
    forall j | 0 <= j < n
      ensures fixed[j] == progressive[j]
    {
      FirstPass(img, k + j);
    }
  }

  /**
   * A message that fits in one pass (64 + 8L <= Capacity) never wraps, and
   * the fixed and the progressive readers decode the same bytes from it.
   */
  lemma NoWrapPayload(img: Image)
    requires img.Valid() && img.NonEmpty()
    requires 64 + 8 * DeclaredLength(img, Fixed, 0) <= img.Capacity()
    ensures DeclaredLength(img, Progressive, 0) == DeclaredLength(img, Fixed, 0)
    ensures Payload(img, Progressive, 0) == Payload(img, Fixed, 0)
  {
    FirstPassBits(img, 0, 64);
    var n := DeclaredLength(img, Fixed, 0);
    FirstPassPrefix(img, n);
  }

  lemma FirstPassPrefix(img: Image, n: nat)
    requires img.Valid() && img.NonEmpty() && 64 + 8 * n <= img.Capacity()
    ensures PayloadPrefix(img, Fixed, 0, n) == PayloadPrefix(img, Progressive, 0, n)
  {
    var fixed := PayloadPrefix(img, Fixed, 0, n);
    var progressive := PayloadPrefix(img, Progressive, 0, n);
    forall j | 0 <= j < n
      ensures fixed[j] == progressive[j]
    {
      FirstPassBits(img, 64 + 8 * j, 8);
    }
  }

  class Reader {
    const img: Image
    const schedule: Schedule
    const height: nat
    const width: nat
    const nbchannels: nat
    var curheight: nat
    var curwidth: nat
    var curchan: nat
    var maskONE: nat
    var maskZERO: nat
    var maskONEValues: seq<nat>
    var maskZEROValues: seq<nat>
    /** How many times the cursor has wrapped to (0,0,0). */
    ghost var pass: nat
    /** How many `next_slot` steps the reader has taken since `__init__`. */
    ghost var consumed: nat

    ghost predicate Valid()
      reads this
    {
      && img.Valid() && img.NonEmpty()
      && height == img.height && width == img.width && nbchannels == img.channels
      && curheight < height && curwidth < width && curchan < nbchannels
      && Pos() == StreamAt(img, consumed)
      && maskONE == MaskAt(schedule, pass)
      && maskZERO == 255 - maskONE
      && maskONEValues == PendingOnes(schedule, pass)
      && maskZEROValues == PendingZeros(schedule, pass)
    }

    /** The reader's place in its bit stream. */
    ghost function Pos(): StreamPos
      reads this
    {
      StreamPos(pass, curheight, curwidth, curchan)
    }

    /** `__init__`: cursor at (0,0,0), mask 1 and its complement 254. */
    constructor (im: Image, sched: Schedule)
      requires im.Valid() && im.NonEmpty()
      ensures Valid() && img == im && schedule == sched
      ensures curheight == 0 && curwidth == 0 && curchan == 0
      ensures maskONE == 1 && maskZERO == 254
      ensures consumed == 0
    {
      img := im;
      schedule := sched;
      height, width, nbchannels := im.height, im.width, im.channels;
      new;
      OnesTable();
      ZerosTable();
      if sched.Progressive? {
        maskONEValues := MaskOneValues;
        maskONE := maskONEValues[0];
        maskONEValues := maskONEValues[1..];
        maskZEROValues := MaskZeroValues;
        maskZERO := maskZEROValues[0];
        maskZEROValues := maskZEROValues[1..];
      } else {
        maskONE, maskZERO := 1, 254;
        maskONEValues, maskZEROValues := [], [];
      }
      curwidth, curheight, curchan := 0, 0, 0;
      pass, consumed := 0, 0;
    }

    /**
     * `next_slot`: one step of the traversal. Only the wrap from the last
     * slot to (0,0,0) can change the mask, doubling it while it is below 128.
     * `more` is False (fixed reader) or None (progressive reader at mask 128)
     * exactly on such a wrap, and True otherwise.
     */
    method NextSlot() returns (more: bool)
      requires Valid()
      modifies this
      ensures Valid()
      ensures Pos() == Next(img, old(Pos())) && consumed == old(consumed) + 1
      ensures pass == old(pass) + 1 ==>
        && more == (schedule.Progressive? && old(maskONE) != 128)
        && maskONE == (if more then 2 * old(maskONE) else old(maskONE))
      ensures pass == old(pass) ==>
        more && maskONE == old(maskONE) && maskONEValues == old(maskONEValues)
    {
      StreamAtNext(img, consumed);
      more := true;
      consumed := consumed + 1;
      if curchan == nbchannels - 1 {
        curchan := 0;
        if curwidth == width - 1 {
          curwidth := 0;
          if curheight == height - 1 {
            curheight := 0;
            more := NextMask();
          } else {
            curheight := curheight + 1;
          }
        } else {
          curwidth := curwidth + 1;
        }
      } else {
        curchan := curchan + 1;
      }
    }

    /**
     * The wrap branch of `next_slot`: a new pass begins; the progressive
     * reader pops its next mask pair unless the mask is already 128, in
     * which case it answers None, and the fixed reader answers False.
     */
    method NextMask() returns (more: bool)
      requires maskONE == MaskAt(schedule, pass) && maskZERO == 255 - maskONE
      requires maskONEValues == PendingOnes(schedule, pass) && maskZEROValues == PendingZeros(schedule, pass)
      modifies this
      ensures pass == old(pass) + 1
      ensures maskONE == MaskAt(schedule, pass) && maskZERO == 255 - maskONE
      ensures maskONEValues == PendingOnes(schedule, pass) && maskZEROValues == PendingZeros(schedule, pass)
      ensures more == (schedule.Progressive? && old(maskONE) != 128)
      ensures maskONE == (if more then 2 * old(maskONE) else old(maskONE))
      ensures curheight == old(curheight) && curwidth == old(curwidth) && curchan == old(curchan)
      ensures consumed == old(consumed)
    {
      MaskStep(schedule, pass);
      pass := pass + 1;
      if schedule.Fixed? {
        more := false;
      } else if maskONE == 128 {
        more := false;
      } else {
        more := true;
        maskONE := maskONEValues[0];
        maskONEValues := maskONEValues[1..];
        maskZERO := maskZEROValues[0];
        maskZEROValues := maskZEROValues[1..];
      }
    }

    /**
     * `read_bit`: "1" exactly when the sample under the cursor has the mask
     * bit set; then one `next_slot`, whose answer is ignored.
     */
    method ReadBit() returns (bit: string)
      requires Valid()
      modifies this
      ensures Valid()
      ensures bit == (if old(img.At(curheight, curwidth, curchan) & (maskONE as bv8)) != 0 then "1" else "0")
      ensures bit == [BitChar(Bit(img, schedule, old(consumed)))]
      ensures consumed == old(consumed) + 1
    {
      var val := img.At(curheight, curwidth, curchan) & (maskONE as bv8);
      assert (val != 0) == Bit(img, schedule, consumed) by {
        MaskBits(schedule, pass);
      }
      var _ := NextSlot();
      if val != 0 {
        bit := "1";
      } else {
        bit := "0";
      }
    }

    /** `read_bits(nb)`: the next nb stream bits, in order. */
    method ReadBits(nb: nat) returns (bits: string)
      requires Valid()
      modifies this
      ensures Valid()
      ensures bits == StreamBits(img, schedule, old(consumed), nb)
      ensures consumed == old(consumed) + nb
    {
      ghost var start := consumed;
      bits := "";
      var i := 0;
      while i < nb
        invariant Valid()
        invariant 0 <= i <= nb
        invariant consumed == start + i
        invariant bits == StreamBits(img, schedule, start, i)
      {
        var b := ReadBit();
        StreamBitsStep(img, schedule, start, i);
        bits := bits + b;
        i := i + 1;
      }
    }

    /** `read_byte`: the next 8 stream bits. */
    method ReadByte() returns (bits: string)
      requires Valid()
      modifies this
      ensures Valid()
      ensures bits == StreamBits(img, schedule, old(consumed), 8)
      ensures consumed == old(consumed) + 8
    {
      bits := ReadBits(8);
    }

    /**
     * `decode_binary`: a 64-bit length L, most significant bit first, then L
     * bytes, each most significant bit first. L is trusted: nothing compares
     * it with the image's capacity, the stream simply goes on past a wrap.
     */
    method DecodeBinary() returns (output: seq<Byte>)
      requires Valid()
      modifies this
      ensures Valid()
      ensures output == Payload(img, schedule, old(consumed))
      ensures consumed == old(consumed) + 64 + 8 * |output|
    {
      ghost var start := consumed;
      var lengthBits := ReadBits(64);
      var l := BinaryValue(lengthBits);
      output := [];
      var i := 0;
      while i < l
        invariant Valid()
        invariant 0 <= i <= l
        invariant consumed == start + 64 + 8 * i
        invariant output == PayloadPrefix(img, schedule, start, i)
      {
        var byteBits := ReadByte();
        PayloadPrefixStep(img, schedule, start, i, byteBits);
        output := output + [BinaryValue(byteBits)];
        i := i + 1;
      }
    }
  }

  /** The sample number of the last slot is Capacity - 1. */
  lemma LastSlot(img: Image)
    requires img.NonEmpty()
    ensures img.FlatIndex(img.height - 1, img.width - 1, img.channels - 1) == img.Capacity() - 1
  {
    var H, W, C := img.height, img.width, img.channels;
    assert (H - 1) * W + W - 1 == H * W - 1;
    assert (H * W - 1) * C == H * W * C - C;
  }

  /** Moving from the last slot of a pixel to the first slot of the next column. */
  lemma StepColumn(img: Image, h: nat, w: nat)
    requires img.channels >= 1
    ensures img.FlatIndex(h, w + 1, 0) == img.FlatIndex(h, w, img.channels - 1) + 1
  {
    assert (h * img.width + w + 1) * img.channels == (h * img.width + w) * img.channels + img.channels;
  }

  /** Moving from the last slot of a row to the first slot of the next row. */
  lemma StepRow(img: Image, h: nat)
    requires img.channels >= 1 && img.width >= 1
    ensures img.FlatIndex(h + 1, 0, 0) == img.FlatIndex(h, img.width - 1, img.channels - 1) + 1
  {
    assert (h + 1) * img.width == h * img.width + (img.width - 1) + 1;
    StepColumn(img, h, img.width - 1);
  }

  /**
   * `extract_lsb_data` (URL opener): a fresh progressive reader decodes from
   * (0,0,0) under mask 1. An image with a zero dimension has no `img[0, 0]`:
   * the first `read_bit` raises, shown here as None.
   */
  method ExtractLsbData(img: Image) returns (data: Option<seq<Byte>>)
    requires img.Valid()
    ensures data.None? <==> !img.NonEmpty()
    ensures data.Some? ==> img.NonEmpty() && data.value == Payload(img, Progressive, 0)
  {
    if !img.NonEmpty() {
      return None;
    }
    var steg := new Reader(img, Progressive);
    var output := steg.DecodeBinary();
    data := Some(output);
  }

  /**
   * `extract_hidden_data` (file scanner, realtime scanner) without its file
   * loading or alarm: a fresh fixed-mask reader decodes from (0,0,0).
   */
  method ExtractHiddenData(img: Image) returns (data: Option<seq<Byte>>)
    requires img.Valid()
    ensures data.None? <==> !img.NonEmpty()
    ensures data.Some? ==> img.NonEmpty() && data.value == Payload(img, Fixed, 0)
  {
    if !img.NonEmpty() {
      return None;
    }
    var steg := new Reader(img, Fixed);
    var output := steg.DecodeBinary();
    data := Some(output);
  }
}
