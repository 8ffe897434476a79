/** The flanking-sensor-suppression arbiter `fss_algorithm`
    (capsense_fss_algorithm.c:128-160) and the default enable mask
    `FSS_ENABLE_MASK` (capsense_fss_algorithm.c:56).

    Bit k of a vector stands for the k-th button sensor. Inside the enable
    mask (the FSS group) at most one touched sensor is reported: the one
    reported last cycle while it stays touched, otherwise the touched sensor
    of lowest index. Bits outside the mask pass through unchanged. */
module FssArbiter {
  import opened TouchVectors

  /** `FSS_ENABLE_MASK`, `(1 << sensorCount) - 1` evaluated on C `int`.
      Below 31 sensors neither the shift nor the subtraction overflows, and
      the value is the low `sensorCount` bits. */
  function FssEnableMask(sensorCount: nat): (mask: TouchVector)
    requires sensorCount < 31
    ensures forall i: nat :: i in mask <==> i < sensorCount
  {
    LowBits(sensorCount)
  }

  /** The value `fss_algorithm(current, previous)` returns when the enable
      mask is `fssEnableMask`: the group bits are the previous winner while
      it is still touched, otherwise the lowest touched group bit; the other
      bits are those of `current`. */
  function FssResult(current: TouchVector, previous: TouchVector, fssEnableMask: TouchVector): TouchVector
  {
    var active := current * fssEnableMask;
    var reported := if active * previous != {} then previous * fssEnableMask else LowestSetBit(active);
    reported + (current - fssEnableMask)
  }

  /** `fss_algorithm`. When the previous winner is no longer touched, the
      `for` loop shifts a single probe bit up from bit 0 until it meets a
      touched group button or falls off the top of the 64-bit vector; the
      ghost counter `shifts` shows that this takes at most 64 shifts. */
  method FssAlgorithm(currentButtonStatus: TouchVector, previousButtonStatus: TouchVector,
                      fssEnableMask: TouchVector)
    returns (result: TouchVector)
    ensures result == FssResult(currentButtonStatus, previousButtonStatus, fssEnableMask)
  {
    var reportedButtons := previousButtonStatus * fssEnableMask;
    var activeFssButtons := currentButtonStatus * fssEnableMask;
    if activeFssButtons * previousButtonStatus == {} {
      reportedButtons := BitAt(0);
      assert reportedButtons == {0};
      ghost var shifts: nat := 0;
      while reportedButtons * activeFssButtons == {} && reportedButtons != {}
        invariant shifts <= Width
        invariant reportedButtons == if shifts < Width then {shifts} else {}
        invariant forall j :: j in activeFssButtons ==> shifts <= j
        decreases Width - shifts
      {
        Shl1Single(shifts);
        reportedButtons := Shl1(reportedButtons);
        shifts := shifts + 1;
      }
      if reportedButtons != {} {
        assert shifts in activeFssButtons;
      }
    }
    result := reportedButtons + (currentButtonStatus - fssEnableMask);
  }

  /** Bits outside the enable mask are those of `current`, whatever `previous` is. */
  lemma PassThrough(current: TouchVector, previous: TouchVector, mask: TouchVector)
    ensures FssResult(current, previous, mask) - mask == current - mask
  {
  }

  /** The "still held" test of the source ANDs the masked `current` with the
      unmasked `previous`; masking `previous` as well gives the same test. */
  lemma HeldTestIgnoresMaskOfPrevious(current: TouchVector, previous: TouchVector, mask: TouchVector)
    ensures (current * mask) * previous == (current * mask) * (previous * mask)
  {
  }

  /** Sticky hold: a previously reported group button that is still touched
      keeps the group result exactly as it was. */
  lemma StickyHold(current: TouchVector, previous: TouchVector, mask: TouchVector)
    requires (current * mask) * previous != {}
    ensures FssResult(current, previous, mask) * mask == previous * mask
  {
  }

  /** Fresh arbitration: otherwise the group result is the touched group
      button of lowest index, and nothing when no group button is touched. */
  lemma FreshArbitration(current: TouchVector, previous: TouchVector, mask: TouchVector)
    requires (current * mask) * previous == {}
    ensures FssResult(current, previous, mask) * mask == LowestSetBit(current * mask)
    ensures FssResult(current, previous, mask) * mask == {} <==> current * mask == {}
    ensures forall i, j :: i in FssResult(current, previous, mask) * mask && j in current * mask ==> i <= j
  {
    var r := FssResult(current, previous, mask);
    assert r * mask == LowestSetBit(current * mask);
  }

  /** One winner: the result has at most one group bit when `previous` has. */
  lemma OneWinner(current: TouchVector, previous: TouchVector, mask: TouchVector)
    requires AtMostOne(previous * mask)
    ensures AtMostOne(FssResult(current, previous, mask) * mask)
  {
  }

  /** No phantom touch: every reported button is touched now. */
  lemma NoPhantomTouch(current: TouchVector, previous: TouchVector, mask: TouchVector)
    requires AtMostOne(previous * mask)
    ensures FssResult(current, previous, mask) <= current
  {
  }

  /** Stability: reporting again what was reported last cycle changes nothing. */
  lemma Stability(current: TouchVector, mask: TouchVector)
    requires AtMostOne(current * mask)
    ensures FssResult(current, current, mask) == current
  {
    if current * mask != {} {
      assert (current * mask) * current == current * mask;
      assert (current * mask) + (current - mask) == current;
    }
  }

  /** Release to idle: with no group button touched the group result is empty. */
  lemma ReleaseToIdle(current: TouchVector, previous: TouchVector, mask: TouchVector)
    requires current * mask == {}
    ensures FssResult(current, previous, mask) * mask == {}
  {
  }

  /** The vectors reported over successive cycles, each result becoming the
      `previous` of the next cycle, starting from the latch value `latch`. */
  function Trace(latch: TouchVector, inputs: seq<TouchVector>, mask: TouchVector): (reported: seq<TouchVector>)
    ensures |reported| == |inputs|
    decreases |inputs|
  {
    if inputs == [] then []
    else
      var r := FssResult(inputs[0], latch, mask);
      [r] + Trace(r, inputs[1..], mask)
  }

  /** Every cycle reports at most one group button, given a latch that had
      at most one (the reset value 0 has none). */
  lemma {:induction false} TraceOneWinner(latch: TouchVector, inputs: seq<TouchVector>, mask: TouchVector)
    requires AtMostOne(latch * mask)
    ensures forall i :: 0 <= i < |inputs| ==> AtMostOne(Trace(latch, inputs, mask)[i] * mask)
    decreases |inputs|
  {
    if inputs != [] {
      var r := FssResult(inputs[0], latch, mask);
      OneWinner(inputs[0], latch, mask);
      TraceOneWinner(r, inputs[1..], mask);
      assert forall i :: 1 <= i < |inputs| ==>
        Trace(latch, inputs, mask)[i] == Trace(r, inputs[1..], mask)[i - 1];
    }
  }

  /** Every cycle reports only buttons touched in that cycle. */
  lemma {:induction false} TraceNoPhantom(latch: TouchVector, inputs: seq<TouchVector>, mask: TouchVector)
    requires AtMostOne(latch * mask)
    ensures forall i :: 0 <= i < |inputs| ==> Trace(latch, inputs, mask)[i] <= inputs[i]
    decreases |inputs|
  {
    if inputs != [] {
      var r := FssResult(inputs[0], latch, mask);
      NoPhantomTouch(inputs[0], latch, mask);
      OneWinner(inputs[0], latch, mask);
      TraceNoPhantom(r, inputs[1..], mask);
      assert forall i :: 1 <= i < |inputs| ==>
        Trace(latch, inputs, mask)[i] == Trace(r, inputs[1..], mask)[i - 1];
    }
  }

  /** Two group buttons A (bit 0) and B (bit 1): A alone, then A and B, then
      B alone after A is released reports A, A, then B. */
  lemma StickyPriorityScenario()
    ensures Trace({}, [{0}, {0, 1}, {1}], FssEnableMask(2)) == [{0}, {0}, {1}]
  {
    var mask := FssEnableMask(2);
    assert mask == {0, 1};
    LowestSetBitUnique({0}, {0});
    LowestSetBitUnique({1}, {1});
    assert FssResult({0}, {}, mask) == {0};
    assert FssResult({0, 1}, {0}, mask) == {0};
    assert FssResult({1}, {0}, mask) == {1};
  }

  /** Three group buttons and one outside the group (mask 0b0111): indices
      1 and 3 touched, then 1, 2 and 3 with 1 held; both cycles report
      0b1010. */
  lemma MixedGroupScenario()
    ensures Trace({}, [{1, 3}, {1, 2, 3}], FssEnableMask(3)) == [{1, 3}, {1, 3}]
  {
    var mask := FssEnableMask(3);
    assert mask == {0, 1, 2};
    LowestSetBitUnique({1}, {1});
    assert FssResult({1, 3}, {}, mask) == {1, 3};
    assert FssResult({1, 2, 3}, {1, 3}, mask) == {1, 3};
  }
}
