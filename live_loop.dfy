/**
 * The display side of the two live scanners (`main` in
 * simplified_realtime_lsb_qr_scanner.py and enhanced_qr.py). The camera loop
 * hands frames to the worker through a one-slot frame queue, offering a frame
 * only when the slot is free, and takes at most one result per iteration from
 * the unbounded result queue. A result taken is displayed only when more than
 * `qr_cooldown` = 2 seconds have passed since the last one displayed;
 * otherwise it is taken and dropped.
 *
 * The clock is a parameter (`now`), the camera, windows and drawing are not
 * modelled; the two queues and the last display time are the loop's state.
 */
module LiveLoop {
  import opened Common
  import opened Images
  import opened Probes
  import EnhancedScanner

  /** `qr_cooldown`, in seconds. */
  const Cooldown: real := 2.0

  /** `current_time - last_qr_time > qr_cooldown`. */
  predicate Surfaces(last: real, now: real)
  {
    now - last > Cooldown
  }

  /** The time of the last display, or `start` when nothing has been displayed yet. */
  function LastShown(start: real, shown: seq<real>): real
  {
    if shown == [] then start else shown[|shown| - 1]
  }

  /**
   * The display times of a run: `polls` are the times of the iterations that
   * found a result waiting, in order, and `start` is the initial
   * `last_qr_time`.
   */
  function Displays(start: real, polls: seq<real>): (shown: seq<real>)
    ensures |shown| <= |polls|
  {
    if polls == [] then []
    else
      var before := Displays(start, polls[..|polls| - 1]);
      var now := polls[|polls| - 1];
      if Surfaces(LastShown(start, before), now) then before + [now] else before
  }

  /**
   * Two displays are always more than the cooldown apart, and the first one
   * comes more than the cooldown after the initial time; this holds whatever
   * the clock does between iterations.
   */
  lemma {:induction false} CooldownSpacing(start: real, polls: seq<real>)
    ensures var shown := Displays(start, polls);
      (shown != [] ==> shown[0] - start > Cooldown) &&
      forall i :: 0 < i < |shown| ==> shown[i] - shown[i - 1] > Cooldown
  {
    if polls != [] {
      CooldownSpacing(start, polls[..|polls| - 1]);
    }
  }

  /** Every display happens at one of the polls. */
  lemma {:induction false} DisplaysArePolls(start: real, polls: seq<real>)
    ensures forall i :: 0 <= i < |Displays(start, polls)| ==> Displays(start, polls)[i] in polls
  {
    if polls != [] {
      var m := |polls| - 1;
      DisplaysArePolls(start, polls[..m]);
      var before := Displays(start, polls[..m]);
      forall i | 0 <= i < |before|
        ensures before[i] in polls
      {
        var j :| 0 <= j < m && polls[..m][j] == before[i];
        assert polls[j] == before[i];
      }
    }
  }

  /**
   * When results arrive more slowly than the cooldown (every poll more than
   * the cooldown after the previous one, the first more than the cooldown
   * after the start), nothing is dropped: every poll displays.
   */
  lemma {:induction false} SlowResultsAllShown(start: real, polls: seq<real>)
    requires polls != [] ==> polls[0] - start > Cooldown
    requires forall i :: 0 < i < |polls| ==> polls[i] - polls[i - 1] > Cooldown
    ensures Displays(start, polls) == polls
  {
    if polls != [] {
      var m := |polls| - 1;
      SlowResultsAllShown(start, polls[..m]);
      assert polls[..m] + [polls[m]] == polls;
    }
  }

  /**
   * A poll within the cooldown of the last display drops its result: a
   * second result at most 2 seconds after a display is never shown.
   */
  lemma DropsWithinCooldown(start: real, polls: seq<real>, now: real)
    requires now - LastShown(start, Displays(start, polls)) <= Cooldown
    ensures Displays(start, polls + [now]) == Displays(start, polls)
  {
    assert (polls + [now])[..|polls|] == polls;
  }

  /**
   * The state of the camera loop: the frame queue (`Queue(maxsize=1)`), the
   * result queue (`Queue()`) and `last_qr_time`. The ghost fields record the
   * times of the polls that found a result and the times of the displays.
   */
  class Loop<R> {
    var frameQueue: seq<Image>
    var resultQueue: seq<R>
    var lastQrTime: real
    ghost var polled: seq<real>
    ghost var shownAt: seq<real>

    /** The frame queue never holds more than one frame; the displays are those of the polls so far. */
    ghost predicate Valid()
      reads this
    {
      |frameQueue| <= 1 &&
      shownAt == Displays(0.0, polled) &&
      lastQrTime == LastShown(0.0, shownAt)
    }

    /** Both queues empty, `last_qr_time = 0`. */
    constructor()
      ensures Valid()
      ensures frameQueue == [] && resultQueue == [] && lastQrTime == 0.0
      ensures polled == [] && shownAt == []
    {
      frameQueue := [];
      resultQueue := [];
      lastQrTime := 0.0;
      polled := [];
      shownAt := [];
    }

    /** `if frame_queue.empty(): frame_queue.put(frame)`: a frame that finds the slot taken is skipped. */
    method OfferFrame(frame: Image)
      requires Valid()
      modifies this
      ensures Valid()
      ensures frameQueue == if old(frameQueue) == [] then [frame] else old(frameQueue)
      ensures resultQueue == old(resultQueue) && lastQrTime == old(lastQrTime)
      ensures polled == old(polled) && shownAt == old(shownAt)
    {
      if frameQueue == [] {
        frameQueue := [frame];
      }
    }

    /** The worker's `frame_queue.get(timeout=1)`; None when it times out on an empty queue. */
    method TakeFrame() returns (frame: Option<Image>)
      requires Valid()
      modifies this
      ensures Valid()
      ensures frame.None? <==> old(frameQueue) == []
      ensures frame.Some? ==> frame.value == old(frameQueue)[0]
      ensures frameQueue == []
      ensures resultQueue == old(resultQueue) && lastQrTime == old(lastQrTime)
      ensures polled == old(polled) && shownAt == old(shownAt)
    {
      if frameQueue == [] {
        frame := None;
      } else {
        frame := Some(frameQueue[0]);
        frameQueue := [];
      }
    }

    /** The worker's `result_queue.put(result)`. */
    method PublishResult(result: R)
      requires Valid()
      modifies this
      ensures Valid()
      ensures resultQueue == old(resultQueue) + [result]
      ensures frameQueue == old(frameQueue) && lastQrTime == old(lastQrTime)
      ensures polled == old(polled) && shownAt == old(shownAt)
    {
      resultQueue := resultQueue + [result];
    }

    /**
     * `if not result_queue.empty(): result = result_queue.get()`, then the
     * cooldown test: the oldest result is always taken, and shown only when
     * more than the cooldown has passed since the last display, which then
     * becomes `now`.
     */
    method PollResult(now: real) returns (shown: Option<R>)
      requires Valid()
      modifies this
      ensures Valid()
      ensures old(resultQueue) == [] ==> shown.None? && resultQueue == [] && lastQrTime == old(lastQrTime)
      ensures old(resultQueue) != [] ==> resultQueue == old(resultQueue)[1..]
      ensures shown.Some? <==> old(resultQueue) != [] && Surfaces(old(lastQrTime), now)
      ensures shown.Some? ==> shown.value == old(resultQueue)[0] && lastQrTime == now
      ensures shown.None? ==> lastQrTime == old(lastQrTime)
      ensures polled == if old(resultQueue) == [] then old(polled) else old(polled) + [now]
      ensures frameQueue == old(frameQueue)
    {
      shown := None;
      if resultQueue != [] {
        var result := resultQueue[0];
        resultQueue := resultQueue[1..];
        assert (polled + [now])[..|polled|] == polled;
        polled := polled + [now];
        if Surfaces(lastQrTime, now) {
          shown := Some(result);
          lastQrTime := now;
          shownAt := shownAt + [now];
        }
      }
    }

    /** One iteration of the camera loop after the frame is grabbed: offer it, then poll for a result. */
    method Tick(frame: Image, now: real) returns (shown: Option<R>)
      requires Valid()
      modifies this
      ensures Valid()
      ensures frameQueue == if old(frameQueue) == [] then [frame] else old(frameQueue)
      ensures old(resultQueue) != [] ==> resultQueue == old(resultQueue)[1..]
      ensures old(resultQueue) == [] ==> resultQueue == []
      ensures shown.Some? <==> old(resultQueue) != [] && Surfaces(old(lastQrTime), now)
      ensures shown.Some? ==> shown.value == old(resultQueue)[0] && lastQrTime == now
      ensures shown.None? ==> lastQrTime == old(lastQrTime)
      ensures polled == if old(resultQueue) == [] then old(polled) else old(polled) + [now]
    {
      OfferFrame(frame);
      shown := PollResult(now);
    }
  }

  /**
   * The enhanced display loop shows only the first hit of the list it takes
   * (`break` after the first iteration); None for an empty list, which the
   * worker never queues.
   */
  function ShownHit(hits: seq<EnhancedScanner.Hit>): (h: Option<EnhancedScanner.Hit>)
    ensures h.Some? <==> hits != []
    ensures h.Some? ==> h.value == hits[0]
  {
    if hits == [] then None else Some(hits[0])
  }

  /**
   * For a list the enhanced worker queued, the hit shown is the one of the
   * earliest probe: every other hit of the list comes from a later probe.
   */
  lemma ShownHitIsEarliest(decode: Image -> Decoded, frame: Image)
    requires frame.Valid()
    ensures PlanesBelow8(ProbeOrder(8))
    ensures var q := EnhancedScanner.ToQueue(EnhancedScanner.AllHits(decode, frame, ProbeOrder(8)));
      q.Some? ==> (ShownHit(q.value).Some? &&
        forall k :: 0 < k < |q.value| ==>
          Precedes(EnhancedScanner.ProbeOf(ShownHit(q.value).value), EnhancedScanner.ProbeOf(q.value[k])))
  {
    EnhancedScanner.FrameHits(decode, frame);
  }
}
