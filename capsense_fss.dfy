/** `capsense_fss` (capsense_fss_algorithm.c:79-118) and the three globals
    it keeps between scan cycles (capsense_fss_algorithm.c:61-63).

    One call collects the touch flags of all button sensors into
    `currentButtonStatus`, counting them in `sensorCount`; runs the arbiter
    with the enable mask of all `sensorCount` buttons; latches the result in
    `previousButtonStatus` for the next cycle; and writes it back into the
    sensors' status bytes, consuming `currentButtonStatus` bit by bit. */
module CapsenseFss {
  import opened TouchVectors
  import opened FssArbiter
  import opened StatusVectorCodec

  /** The globals of capsense_fss_algorithm.c. `sensorCount` is a
      `uint8_t`; the cycle never lets it exceed 30, so it never wraps. */
  class FssState {
    var currentButtonStatus: TouchVector
    var previousButtonStatus: TouchVector
    var sensorCount: nat

    /** The latch holds at most one reported button: every cycle's result
        lies inside the enable mask, where the arbiter reports one button
        at most. */
    ghost predicate Valid()
      reads this
    {
      AtMostOne(previousButtonStatus)
    }

    /** The reset values: all three globals are 0. */
    constructor ()
      ensures Valid()
      ensures currentButtonStatus == {} && previousButtonStatus == {} && sensorCount == 0
    {
      currentButtonStatus := {};
      previousButtonStatus := {};
      sensorCount := 0;
    }

    /** The first part of a cycle (capsense_fss_algorithm.c:82-103): clear
        the vector and the count, collect the touch flags of the button
        sensors, run the arbiter with the enable mask of all of them, and
        latch its result. */
    method CollectAndLatch(widgets: seq<Widget>)
      requires |widgets| < 256
      requires |ButtonSensors(Snapshot(widgets))| < 31
      modifies this
      ensures Snapshot(widgets) == old(Snapshot(widgets))
      ensures sensorCount == |ButtonSensors(Snapshot(widgets))|
      ensures previousButtonStatus
        == FssResult(Pack(ButtonSensors(Snapshot(widgets))), old(previousButtonStatus), FssEnableMask(sensorCount))
      ensures currentButtonStatus == previousButtonStatus
    {
      ghost var s := Snapshot(widgets);
      assert forall a | a in Footprint(widgets) :: allocated(a);
      currentButtonStatus := {};
      sensorCount := 0;
      assert Snapshot(widgets) == s;
      currentButtonStatus, sensorCount := Collect(widgets);
      currentButtonStatus := FssAlgorithm(currentButtonStatus, previousButtonStatus, FssEnableMask(sensorCount));
      previousButtonStatus := currentButtonStatus;
      assert Snapshot(widgets) == s;
    }

    /** One cycle of flanking sensor suppression over the widget table
        `widgets` (capsense_fss_algorithm.c:79-118). The enable mask
        `(1 << sensorCount) - 1` is evaluated on C `int`, so the table has
        at most 30 button sensors; the `uint8_t` counter `widget` limits it
        to 255 widgets. */
    method CapsenseFss(widgets: seq<Widget>)
      requires Valid()
      requires |widgets| < 256
      requires DistinctStatusArrays(widgets)
      requires |ButtonSensors(Snapshot(widgets))| < 31
      modifies this, Footprint(widgets)
      ensures Valid()
      ensures sensorCount == |ButtonSensors(old(Snapshot(widgets)))|
      ensures previousButtonStatus
        == FssResult(Pack(ButtonSensors(old(Snapshot(widgets)))), old(previousButtonStatus), FssEnableMask(sensorCount))
      ensures Snapshot(widgets) == WritebackSnapshot(old(Snapshot(widgets)), previousButtonStatus)
      ensures currentButtonStatus == {}
      // What the cycle achieves: only touched buttons are reported, at most
      // one of them, and the status bytes now show exactly the reported ones.
      ensures previousButtonStatus <= Pack(ButtonSensors(old(Snapshot(widgets))))
      ensures AtMostOne(previousButtonStatus)
      ensures ButtonSensors(Snapshot(widgets))
        == WritebackStatuses(ButtonSensors(old(Snapshot(widgets))), previousButtonStatus)
      ensures Pack(ButtonSensors(Snapshot(widgets))) == previousButtonStatus
    {
      ghost var s := Snapshot(widgets);
      ghost var previous := previousButtonStatus;
      CollectAndLatch(widgets);
      ghost var count := sensorCount;
      ghost var resolved := previousButtonStatus;
      ghost var statusArrays: set<object> := Footprint(widgets);
      assert this !in statusArrays;
      currentButtonStatus := WriteBack(widgets, currentButtonStatus);
      assert sensorCount == count && previousButtonStatus == resolved;
      CycleOutcome(s, previous);
    }
  }

  /** What one cycle achieves on a table `s` with latch `previous` holding
      at most one button: the result reports only touched buttons, at most
      one of them; the write-back shifts all of it out of the vector; and it
      leaves every button sensor's status byte showing exactly whether that
      sensor is reported. */
  lemma CycleOutcome(s: seq<WidgetState>, previous: TouchVector)
    requires |ButtonSensors(s)| < 31
    requires AtMostOne(previous)
    ensures var n := |ButtonSensors(s)|;
      var r := FssResult(Pack(ButtonSensors(s)), previous, FssEnableMask(n));
      && r <= Pack(ButtonSensors(s))
      && AtMostOne(r)
      && ShrN(r, n) == {}
      && ButtonSensors(WritebackSnapshot(s, r)) == WritebackStatuses(ButtonSensors(s), r)
      && Pack(ButtonSensors(WritebackSnapshot(s, r))) == r
  {
    var n := |ButtonSensors(s)|;
    var collected := Pack(ButtonSensors(s));
    var mask := FssEnableMask(n);
    var r := FssResult(collected, previous, mask);
    PackWithinLowBits(ButtonSensors(s));
    assert collected - mask == {};
    NoPhantomTouch(collected, previous, mask);
    OneWinner(collected, previous, mask);
    assert r * mask == r;
    ShrNLowBits(r, n);
    WritebackButtonSensors(s, r);
    WritebackCollectRoundTrip(ButtonSensors(s), r);
  }
}
