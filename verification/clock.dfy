/**
 * The clock (second-chance) victim selection of `BufMgr::allocBuf`, as a pure
 * function over the descriptor table. The pool's `AllocBuf` method runs the
 * same scan in place and is proved to agree with `Scan`.
 */
module Clock {
  import opened Types
  import opened Frames

  /** `advanceClock`: move the hand one frame on, wrapping round after the last frame. */
  function Next(hand: nat, n: nat): (r: nat)
    requires hand < n
    ensures r < n
    ensures r == if hand + 1 < n then hand + 1 else 0
  {
    (hand + 1) % n
  }

  /** The frames whose reference bit is set. */
  function RefSet(t: seq<BufDesc>): set<nat>
  {
    set i: nat | i < |t| && t[i].refbit
  }

  /** Clearing a frame's reference bit takes that frame, and only it, out of `RefSet`. */
  lemma ClearRefbit(t: seq<BufDesc>, i: nat)
    requires i < |t|
    ensures RefSet(t[i := t[i].(refbit := false)]) == RefSet(t) - {i}
  {
  }

  /** Where a scan stops: at a frame it may reuse, or with the pinned-frame counter at its bound. */
  datatype ScanResult =
    | Pick(frame: nat, table: seq<BufDesc>)
    | Exhausted(hand: nat, table: seq<BufDesc>)

  /** A valid frame that the scan cannot take because someone holds it. */
  predicate Pinned(d: BufDesc)
  {
    d.valid && d.pinCnt > 0
  }

  /**
   * The loop of `allocBuf` from the frame under the hand, with `pinned`
   * pinned frames already counted: an invalid frame is taken; a referenced
   * frame loses its reference bit; an unreferenced unpinned frame is the
   * victim; an unreferenced pinned frame is counted. The scan gives up when
   * the counter reaches the number of frames.
   */
  function Scan(t: seq<BufDesc>, hand: nat, pinned: nat): (r: ScanResult)
    requires hand < |t| && pinned <= |t|
    ensures OnlyRefbitsCleared(t, r.table)
    ensures r.Pick? ==> r.frame < |t| && !Pinned(r.table[r.frame])
    ensures r.Pick? && r.table[r.frame].valid ==> !r.table[r.frame].refbit
    ensures r.Exhausted? ==> r.hand < |t|
    decreases |t| - pinned, |RefSet(t)|
  {
    if pinned == |t| then
      Exhausted(hand, t)
    else if !t[hand].valid then
      Pick(hand, t)
    else if t[hand].refbit then
      var u := t[hand := t[hand].(refbit := false)];
      assert RefSet(u) == RefSet(t) - {hand};
      Scan(u, Next(hand, |t|), pinned)
    else if t[hand].pinCnt == 0 then
      Pick(hand, t)
    else
      Scan(t, Next(hand, |t|), pinned + 1)
  }

  /** Every frame is valid and pinned. */
  predicate AllPinned(t: seq<BufDesc>)
  {
    forall i :: 0 <= i < |t| ==> Pinned(t[i])
  }

  /** Some frame is valid and pinned. */
  predicate SomePinned(t: seq<BufDesc>)
  {
    exists i :: 0 <= i < |t| && Pinned(t[i])
  }

  /** When every frame is valid and pinned, the scan always gives up. */
  lemma {:induction false} AllPinnedExhausts(t: seq<BufDesc>, hand: nat, pinned: nat)
    requires hand < |t| && pinned <= |t| && AllPinned(t)
    ensures Scan(t, hand, pinned).Exhausted?
    decreases |t| - pinned, |RefSet(t)|
  {
    if pinned < |t| {
      if t[hand].refbit {
        var u := t[hand := t[hand].(refbit := false)];
        assert RefSet(u) == RefSet(t) - {hand};
        AllPinnedExhausts(u, Next(hand, |t|), pinned);
      } else {
        AllPinnedExhausts(t, Next(hand, |t|), pinned + 1);
      }
    }
  }

  /** A scan that has counted a pinned frame (in particular every scan that gives up) saw one that really is pinned. */
  lemma {:induction false} ExhaustedSawPinned(t: seq<BufDesc>, hand: nat, pinned: nat)
    requires 0 < |t| && hand < |t| && pinned <= |t|
    requires pinned > 0 ==> SomePinned(t)
    ensures Scan(t, hand, pinned).Exhausted? ==> SomePinned(t)
    decreases |t| - pinned, |RefSet(t)|
  {
    if pinned < |t| && t[hand].valid {
      if t[hand].refbit {
        var u := t[hand := t[hand].(refbit := false)];
        assert RefSet(u) == RefSet(t) - {hand};
        if pinned > 0 {
          var j :| 0 <= j < |t| && Pinned(t[j]);
          assert Pinned(u[j]);
        }
        ExhaustedSawPinned(u, Next(hand, |t|), pinned);
        if Scan(u, Next(hand, |t|), pinned).Exhausted? {
          var j :| 0 <= j < |u| && Pinned(u[j]);
          assert Pinned(t[j]);
        }
      } else if t[hand].pinCnt > 0 {
        ExhaustedSawPinned(t, Next(hand, |t|), pinned + 1);
      }
    }
  }

  /**
   * What the scan as written guarantees about giving up, from the frame after
   * the hand with nothing counted: it always gives up when every frame is
   * pinned, and only when some frame is.
   */
  lemma ExhaustionBounds(t: seq<BufDesc>, hand: nat)
    requires hand < |t|
    ensures AllPinned(t) ==> Scan(t, Next(hand, |t|), 0).Exhausted?
    ensures Scan(t, Next(hand, |t|), 0).Exhausted? ==> SomePinned(t)
  {
    if AllPinned(t) {
      AllPinnedExhausts(t, Next(hand, |t|), 0);
    }
    ExhaustedSawPinned(t, Next(hand, |t|), 0);
  }

  /**
   * The departure from the comment "Returns BUFFEREXCEEDED if all buffer
   * frames are pinned": with two frames, frame 0 pinned and frame 1 unpinned
   * but referenced, and the hand about to examine frame 0, the counter counts
   * frame 0 twice and the scan gives up although frame 1 could be reused.
   */
  lemma ExceededWithUnpinnedFrame()
    ensures var t := [BufDesc(Some(7), 0, true, false, false, 1), BufDesc(Some(7), 1, true, false, true, 0)];
            Consistent(t, map[PageId(7, 0) := 0, PageId(7, 1) := 1]) &&
            !Pinned(t[1]) && Scan(t, 0, 0).Exhausted? && !Pinned(Scan(t, 0, 0).table[1])
  {
    var t := [BufDesc(Some(7), 0, true, false, false, 1), BufDesc(Some(7), 1, true, false, true, 0)];
    var u := t[1 := t[1].(refbit := false)];
    assert Scan(t, 0, 0) == Scan(t, 1, 1);
    assert Scan(t, 1, 1) == Scan(u, 0, 1);
    assert Scan(u, 0, 1) == Scan(u, 1, 2) == Exhausted(1, u);
  }

  /** The frame `k` steps behind the hand, going round the clock backwards. */
  function Back(hand: nat, k: nat, n: nat): (r: nat)
    requires hand < n && 1 <= k <= n
    ensures r < n
  {
    if k <= hand then hand - k else hand - k + n
  }

  /**
   * The scan with the evidently intended bound: the counter counts the
   * pinned frames seen one after another and starts again from zero whenever
   * a reference bit is cleared, so it reaches the number of frames only after
   * a whole turn of the clock has found nothing but pinned frames.
   */
  function ScanFixed(t: seq<BufDesc>, hand: nat, run: nat): (r: ScanResult)
    requires hand < |t| && run <= |t|
    ensures OnlyRefbitsCleared(t, r.table)
    ensures r.Pick? ==> r.frame < |t| && !Pinned(r.table[r.frame])
    ensures r.Exhausted? ==> r.hand < |t|
    decreases |RefSet(t)|, |t| - run
  {
    if run == |t| then
      Exhausted(hand, t)
    else if !t[hand].valid then
      Pick(hand, t)
    else if t[hand].refbit then
      var u := t[hand := t[hand].(refbit := false)];
      assert RefSet(u) == RefSet(t) - {hand};
      ScanFixed(u, Next(hand, |t|), 0)
    else if t[hand].pinCnt == 0 then
      Pick(hand, t)
    else
      ScanFixed(t, Next(hand, |t|), run + 1)
  }

  /** The last `run` frames behind the hand are valid and pinned. */
  predicate PinnedRun(t: seq<BufDesc>, hand: nat, run: nat)
    requires hand < |t| && run <= |t|
  {
    forall k :: 1 <= k <= run ==> Pinned(t[Back(hand, k, |t|)])
  }

  /** The corrected scan gives up only when every frame is valid and pinned. */
  lemma {:induction false} FixedExhaustedOnlyIfAllPinned(t: seq<BufDesc>, hand: nat, run: nat)
    requires hand < |t| && run <= |t| && PinnedRun(t, hand, run)
    ensures ScanFixed(t, hand, run).Exhausted? ==> AllPinned(t)
    decreases |RefSet(t)|, |t| - run
  {
    var n := |t|;
    if run == n {
      forall j | 0 <= j < n
        ensures Pinned(t[j])
      {
        var k := if j < hand then hand - j else hand - j + n;
        assert Back(hand, k, n) == j;
      }
    } else if t[hand].valid {
      if t[hand].refbit {
        var u := t[hand := t[hand].(refbit := false)];
        assert RefSet(u) == RefSet(t) - {hand};
        FixedExhaustedOnlyIfAllPinned(u, Next(hand, n), 0);
        if ScanFixed(u, Next(hand, n), 0).Exhausted? {
          forall j | 0 <= j < n
            ensures Pinned(t[j])
          {
            assert Pinned(u[j]);
          }
        }
      } else if t[hand].pinCnt > 0 {
        var h' := Next(hand, n);
        forall k | 1 <= k <= run + 1
          ensures Pinned(t[Back(h', k, n)])
        {
          if k > 1 {
            assert Back(h', k, n) == Back(hand, k - 1, n);
          }
        }
        FixedExhaustedOnlyIfAllPinned(t, h', run + 1);
      }
    }
  }

  /** When every frame is valid and pinned, the corrected scan gives up too. */
  lemma {:induction false} FixedAllPinnedExhausts(t: seq<BufDesc>, hand: nat, run: nat)
    requires hand < |t| && run <= |t| && AllPinned(t)
    ensures ScanFixed(t, hand, run).Exhausted?
    decreases |RefSet(t)|, |t| - run
  {
    if run < |t| {
      if t[hand].refbit {
        var u := t[hand := t[hand].(refbit := false)];
        assert RefSet(u) == RefSet(t) - {hand};
        FixedAllPinnedExhausts(u, Next(hand, |t|), 0);
      } else {
        FixedAllPinnedExhausts(t, Next(hand, |t|), run + 1);
      }
    }
  }

  /** The corrected allocation: it reports the pool exhausted exactly when every frame is valid and pinned. */
  lemma FixedExhaustedIffAllPinned(t: seq<BufDesc>, hand: nat)
    requires hand < |t|
    ensures ScanFixed(t, Next(hand, |t|), 0).Exhausted? <==> AllPinned(t)
  {
    FixedExhaustedOnlyIfAllPinned(t, Next(hand, |t|), 0);
    if AllPinned(t) {
      FixedAllPinnedExhausts(t, Next(hand, |t|), 0);
    }
  }

  /** On the counterexample above the corrected scan takes frame 1. */
  lemma FixedTakesUnpinnedFrame()
    ensures var t := [BufDesc(Some(7), 0, true, false, false, 1), BufDesc(Some(7), 1, true, false, true, 0)];
            ScanFixed(t, 0, 0) == Pick(1, t[1 := t[1].(refbit := false)])
  {
    var t := [BufDesc(Some(7), 0, true, false, false, 1), BufDesc(Some(7), 1, true, false, true, 0)];
    var u := t[1 := t[1].(refbit := false)];
    assert ScanFixed(t, 0, 0) == ScanFixed(t, 1, 1);
    assert ScanFixed(t, 1, 1) == ScanFixed(u, 0, 0);
    assert ScanFixed(u, 0, 0) == ScanFixed(u, 1, 1) == Pick(1, u);
  }
}
