/** The two walks of `capsense_fss` over the CapSense widget table
    (capsense_fss_algorithm.c:86-97 and :106-117): collecting the touch flag
    of every button sensor into a touch vector, and writing a resolved
    vector back into the sensors' status bytes.

    Both walks visit the widgets in table order and, inside a button widget,
    its sensors in order; the k-th sensor met this way is button sensor k
    and owns bit k of the vector. Widgets of any other type are skipped. */
module StatusVectorCodec {
  import opened TouchVectors

  /** A sensor status byte (`uint8_t status`). Bit 0 is the touch flag;
      the other bits are further status flags the walks do not read. */
  newtype Byte = x: int | 0 <= x < 0x100

  /** `CY_CAPSENSE_WD_BUTTON_E` and every other widget type (sliders,
      matrix buttons, touchpads, proximity), which the walks skip. */
  datatype WidgetType = Button | OtherWidget

  /** One entry of the widget table: its type and its sensors' status bytes
      (`ptrSnsContext[i].status`, `numSns` of them), updated in place. */
  datatype Widget = Widget(wdType: WidgetType, ptrSnsContext: array<Byte>)

  /** The value of one widget at one moment. */
  datatype WidgetState = WidgetState(wdType: WidgetType, status: seq<Byte>)

  /** The touch flag of a status byte, `CY_CAPSENSE_SNS_TOUCH_STATUS_MASK`,
      which is bit 0. */
  predicate TouchFlag(status: Byte)
  {
    status % 2 == 1
  }

  /** `status & mask` for a mask that is 0 or 1: bit 0 of `status`, or 0. */
  function AndBit0(status: Byte, mask: Byte): Byte
    requires mask <= 1
  {
    if mask == 1 then status % 2 else 0
  }

  /** The status arrays of the widget table. */
  function Footprint(widgets: seq<Widget>): set<array<Byte>>
  {
    set i | 0 <= i < |widgets| :: widgets[i].ptrSnsContext
  }

  /** The status array of widget i (`ptrWdConfig[i].ptrSnsContext`). */
  function StatusArray(widgets: seq<Widget>, i: nat): array<Byte>
    requires i < |widgets|
  {
    widgets[i].ptrSnsContext
  }

  /** No two widgets share a status array. */
  predicate DistinctStatusArrays(widgets: seq<Widget>)
  {
    forall i: nat, j: nat :: i < j < |widgets| ==> StatusArray(widgets, i) != StatusArray(widgets, j)
  }

  /** The current value of the widget table. */
  function Snapshot(widgets: seq<Widget>): (s: seq<WidgetState>)
    reads Footprint(widgets)
    ensures |s| == |widgets|
    decreases |widgets|
  {
    if widgets == [] then []
    else
      var last := widgets[|widgets| - 1];
      Snapshot(widgets[..|widgets| - 1]) + [WidgetState(last.wdType, last.ptrSnsContext[..])]
  }

  /** Entry i of the table's value is widget i's type and the current
      contents of its status array. */
  lemma {:induction false} SnapshotEntries(widgets: seq<Widget>)
    ensures forall i :: 0 <= i < |widgets| ==>
      Snapshot(widgets)[i] == WidgetState(widgets[i].wdType, widgets[i].ptrSnsContext[..])
    decreases |widgets|
  {
    if widgets != [] {
      var init := widgets[..|widgets| - 1];
      SnapshotEntries(init);
      assert forall i :: 0 <= i < |init| ==> init[i] == widgets[i];
    }
  }

  /** Entry i of the table's value, alone. */
  lemma SnapshotEntry(widgets: seq<Widget>, i: nat)
    requires i < |widgets|
    ensures Snapshot(widgets)[i] == WidgetState(widgets[i].wdType, widgets[i].ptrSnsContext[..])
  {
    SnapshotEntries(widgets);
  }

  /** The sensors a widget contributes to the walks: all of a button
      widget's, none of any other widget's. */
  function OwnSensors(w: WidgetState): seq<Byte>
  {
    if w.wdType == Button then w.status else []
  }

  /** The status bytes of the button sensors, in enumeration order: entry k
      is button sensor k. */
  function ButtonSensors(s: seq<WidgetState>): seq<Byte>
    decreases |s|
  {
    if s == [] then [] else OwnSensors(s[0]) + ButtonSensors(s[1..])
  }

  /** The button sensors of a table are those of a prefix followed by those
      of the rest. */
  lemma {:induction false} ButtonSensorsSplit(s: seq<WidgetState>, n: nat)
    requires n <= |s|
    ensures ButtonSensors(s) == ButtonSensors(s[..n]) + ButtonSensors(s[n..])
    decreases n
  {
    if n == 0 {
      assert s[n..] == s;
    } else {
      ButtonSensorsSplit(s[1..], n - 1);
      assert s[..n][1..] == s[1..][..n - 1];
      assert s[1..][n - 1..] == s[n..];
    }
  }

  /** Widgets that are not buttons contribute nothing: whatever their
      status bytes, the button sensors stay the same. */
  lemma {:induction false} ButtonSensorsIgnoreOthers(s: seq<WidgetState>, i: nat, status: seq<Byte>)
    requires i < |s|
    requires s[i].wdType != Button
    ensures ButtonSensors(s[i := WidgetState(s[i].wdType, status)]) == ButtonSensors(s)
    decreases i
  {
    var u := s[i := WidgetState(s[i].wdType, status)];
    if i == 0 {
      assert u[1..] == s[1..];
    } else {
      ButtonSensorsIgnoreOthers(s[1..], i - 1, status);
      assert u[1..] == s[1..][i - 1 := WidgetState(s[i].wdType, status)];
    }
  }

  /** Walking one more widget adds its own sensors. */
  lemma ButtonSensorsSnoc(s: seq<WidgetState>, n: nat)
    requires n < |s|
    ensures ButtonSensors(s[..n + 1]) == ButtonSensors(s[..n]) + OwnSensors(s[n])
  {
    var p := s[..n + 1];
    ButtonSensorsSplit(p, n);
    assert p[..n] == s[..n];
    assert p[n..] == [s[n]];
    assert ButtonSensors([s[n]]) == OwnSensors(s[n]) + ButtonSensors([]);
  }

  /** The touch vector of a sequence of button sensors: bit k is set exactly
      when sensor k's touch flag is. */
  function Pack(sensors: seq<Byte>): (v: TouchVector)
    requires |sensors| <= Width
  {
    set k | 0 <= k < |sensors| && TouchFlag(sensors[k])
  }

  /** Appending a sensor adds its touch flag as the next bit. */
  lemma PackSnoc(sensors: seq<Byte>, status: Byte)
    requires |sensors| < Width
    ensures Pack(sensors + [status]) == Pack(sensors) + (if TouchFlag(status) then {|sensors|} else {})
  {
    var t := sensors + [status];
    assert forall k :: 0 <= k < |sensors| ==> t[k] == sensors[k];
  }

  /** The collected vector lies within the low `|sensors|` bits. */
  lemma PackWithinLowBits(sensors: seq<Byte>)
    requires |sensors| <= Width
    ensures Pack(sensors) <= LowBits(|sensors|)
  {
  }

  /** `(status & CY_CAPSENSE_SNS_TOUCH_STATUS_MASK) << sensorCount`: the
      touch flag of one sensor moved to bit `sensorCount`. */
  function ShiftedTouch(status: Byte, sensorCount: nat): (v: TouchVector)
    requires sensorCount < Width
  {
    if TouchFlag(status) then BitAt(sensorCount) else {}
  }

  /** The inner loop of the collection walk over one button widget's
      sensors, which follow the sensors `done` already collected. */
  method CollectSensors(sns: array<Byte>, ghost done: seq<Byte>, currentButtonStatus: TouchVector, sensorCount: nat)
    returns (currentButtonStatus': TouchVector, sensorCount': nat)
    requires sensorCount == |done|
    requires |done| + sns.Length <= 31
    requires currentButtonStatus == Pack(done)
    ensures sensorCount' == |done| + sns.Length
    ensures currentButtonStatus' == Pack(done + sns[..])
  {
    currentButtonStatus', sensorCount' := currentButtonStatus, sensorCount;
    var sensorIter := 0;
    while sensorIter < sns.Length
      invariant 0 <= sensorIter <= sns.Length
      invariant sensorCount' == |done| + sensorIter
      invariant currentButtonStatus' == Pack(done + sns[..sensorIter])
    {
      PackSnoc(done + sns[..sensorIter], sns[sensorIter]);
      assert done + sns[..sensorIter + 1] == (done + sns[..sensorIter]) + [sns[sensorIter]];
      currentButtonStatus' := currentButtonStatus' + ShiftedTouch(sns[sensorIter], sensorCount');
      sensorCount' := sensorCount' + 1;
      sensorIter := sensorIter + 1;
    }
    assert sns[..sensorIter] == sns[..];
  }

  /** The collection walk (capsense_fss_algorithm.c:86-97). The type the
      shift `<< sensorCount` is done in depends on the middleware's touch
      mask; at most 31 sensors keep it defined even on C `int`. The counter
      `widget` is a `uint8_t`, so the walk ends only for fewer than 256
      widgets. */
  method Collect(widgets: seq<Widget>) returns (currentButtonStatus: TouchVector, sensorCount: nat)
    requires |widgets| < 256
    requires |ButtonSensors(Snapshot(widgets))| <= 31
    ensures sensorCount == |ButtonSensors(Snapshot(widgets))| <= 31
    ensures currentButtonStatus == Pack(ButtonSensors(Snapshot(widgets)))
  {
    ghost var s := Snapshot(widgets);
    assert forall a | a in Footprint(widgets) :: allocated(a);
    currentButtonStatus := {};
    sensorCount := 0;
    var widget := 0;
    while widget < |widgets|
      invariant 0 <= widget <= |widgets|
      invariant sensorCount == |ButtonSensors(s[..widget])| <= |ButtonSensors(s)|
      invariant currentButtonStatus == Pack(ButtonSensors(s[..widget]))
      invariant Snapshot(widgets) == s
    {
      SnapshotEntry(widgets, widget);
      ButtonSensorsSnoc(s, widget);
      ButtonSensorsSplit(s, widget + 1);
      if widgets[widget].wdType == Button {
        assert OwnSensors(s[widget]) == widgets[widget].ptrSnsContext[..];
        currentButtonStatus, sensorCount :=
          CollectSensors(widgets[widget].ptrSnsContext, ButtonSensors(s[..widget]), currentButtonStatus, sensorCount);
      }
      widget := widget + 1;
    }
    assert s[..widget] == s;
  }

  /** `CURRENTBUTTONSTATUS_LSB_MASK & currentButtonStatus` as a status
      byte: 1 when bit 0 of the vector is set, 0 otherwise. */
  function LsbMask(currentButtonStatus: TouchVector): Byte
  {
    if 0 in currentButtonStatus then 1 else 0
  }

  /** A sensor's status after the write-back: the touch flag alone when the
      sensor is reported, all flags cleared otherwise. */
  function WritebackStatus(status: Byte, reported: bool): (b: Byte)
    ensures TouchFlag(b) <==> reported && TouchFlag(status)
    ensures b <= 1
  {
    if reported then status % 2 else 0
  }

  /** Button sensor k's new status: WritebackStatus of bit k of `resolved`. */
  function WritebackStatuses(sensors: seq<Byte>, resolved: TouchVector): (t: seq<Byte>)
    ensures |t| == |sensors|
  {
    seq(|sensors|, k requires 0 <= k < |sensors| => WritebackStatus(sensors[k], k in resolved))
  }

  /** Writing back one more sensor, the source's AND of its status byte
      with bit 0 of a vector whose bit 0 is bit n of `resolved`, extends the
      written-back prefix. */
  lemma WritebackStatusesSnoc(sensors: seq<Byte>, n: nat, resolved: TouchVector, currentButtonStatus: TouchVector)
    requires n < |sensors|
    requires 0 in currentButtonStatus <==> n in resolved
    ensures (WritebackStatuses(sensors[..n], resolved) + sensors[n..])[n := AndBit0(sensors[n], LsbMask(currentButtonStatus))]
      == WritebackStatuses(sensors[..n + 1], resolved) + sensors[n + 1..]
  {
    var l := (WritebackStatuses(sensors[..n], resolved) + sensors[n..])[n := AndBit0(sensors[n], LsbMask(currentButtonStatus))];
    var r := WritebackStatuses(sensors[..n + 1], resolved) + sensors[n + 1..];
    forall k | 0 <= k < |l|
      ensures l[k] == r[k]
    {
      if k < n {
        assert l[k] == WritebackStatus(sensors[k], k in resolved);
      } else if k > n {
        assert l[k] == sensors[k];
      }
    }
  }

  /** Writing back with the vector `v` starting at sensor n is writing back
      with `v >> n` from sensor 0. */
  lemma WritebackStatusesAppend(a: seq<Byte>, b: seq<Byte>, resolved: TouchVector)
    ensures WritebackStatuses(a + b, resolved)
      == WritebackStatuses(a, resolved) + WritebackStatuses(b, ShrN(resolved, |a|))
  {
    var l := WritebackStatuses(a + b, resolved);
    var r := WritebackStatuses(a, resolved) + WritebackStatuses(b, ShrN(resolved, |a|));
    forall k | 0 <= k < |l|
      ensures l[k] == r[k]
    {
      if k >= |a| {
        ShrNBitAt(resolved, |a|, k);
        assert (a + b)[k] == b[k - |a|];
        assert r[k] == WritebackStatus(b[k - |a|], k - |a| in ShrN(resolved, |a|));
      } else {
        assert (a + b)[k] == a[k];
        assert r[k] == WritebackStatus(a[k], k in resolved);
      }
    }
  }

  /** One widget after the write-back, given the part of the resolved
      vector that starts at its first sensor. */
  function WritebackWidgetState(w: WidgetState, currentButtonStatus: TouchVector): WidgetState
  {
    if w.wdType == Button then WidgetState(Button, WritebackStatuses(w.status, currentButtonStatus)) else w
  }

  /** The widget table after the write-back walk: button widgets take their
      bits of `resolved` in enumeration order, the others are untouched. */
  function WritebackSnapshot(s: seq<WidgetState>, resolved: TouchVector): (t: seq<WidgetState>)
    ensures |t| == |s|
    decreases |s|
  {
    if s == [] then []
    else [WritebackWidgetState(s[0], resolved)] + WritebackSnapshot(s[1..], ShrN(resolved, |OwnSensors(s[0])|))
  }

  /** The write-back keeps every widget's type and number of sensors, and
      leaves every widget that is not a button exactly as it was. */
  lemma {:induction false} WritebackKeepsLayout(s: seq<WidgetState>, resolved: TouchVector)
    ensures forall i :: 0 <= i < |s| ==>
      WritebackSnapshot(s, resolved)[i].wdType == s[i].wdType
      && |WritebackSnapshot(s, resolved)[i].status| == |s[i].status|
    ensures forall i :: 0 <= i < |s| && s[i].wdType != Button ==> WritebackSnapshot(s, resolved)[i] == s[i]
    decreases |s|
  {
    if s != [] {
      var rest := ShrN(resolved, |OwnSensors(s[0])|);
      WritebackKeepsLayout(s[1..], rest);
      assert forall i :: 1 <= i < |s| ==> WritebackSnapshot(s, resolved)[i] == WritebackSnapshot(s[1..], rest)[i - 1];
    }
  }

  /** What is left of the resolved vector once the walk has shifted it past
      every button sensor of the table. */
  function Remaining(s: seq<WidgetState>, resolved: TouchVector): TouchVector
    decreases |s|
  {
    if s == [] then resolved else Remaining(s[1..], ShrN(resolved, |OwnSensors(s[0])|))
  }

  /** The walk shifts the resolved vector down once per button sensor. */
  lemma {:induction false} RemainingShifted(s: seq<WidgetState>, resolved: TouchVector)
    ensures Remaining(s, resolved) == ShrN(resolved, |ButtonSensors(s)|)
    decreases |s|
  {
    if s != [] {
      var n := |OwnSensors(s[0])|;
      var m := |ButtonSensors(s[1..])|;
      assert |ButtonSensors(s)| == n + m;
      RemainingShifted(s[1..], ShrN(resolved, n));
      ShrNAdd(resolved, n, m);
    }
  }

  /** Seen through the enumeration, the write-back makes button sensor k's
      status WritebackStatus of bit k of `resolved`. */
  lemma {:induction false} WritebackButtonSensors(s: seq<WidgetState>, resolved: TouchVector)
    ensures ButtonSensors(WritebackSnapshot(s, resolved)) == WritebackStatuses(ButtonSensors(s), resolved)
    decreases |s|
  {
    if s != [] {
      var n := |OwnSensors(s[0])|;
      var t := WritebackSnapshot(s, resolved);
      assert t[1..] == WritebackSnapshot(s[1..], ShrN(resolved, n));
      WritebackButtonSensors(s[1..], ShrN(resolved, n));
      WritebackStatusesAppend(OwnSensors(s[0]), ButtonSensors(s[1..]), resolved);
      assert OwnSensors(t[0]) == WritebackStatuses(OwnSensors(s[0]), resolved);
    }
  }

  /** A resolved vector of touched sensors (such as the arbiter's result)
      leaves each reported sensor with exactly the touch flag and clears
      every other sensor's status byte, so collecting again gives back the
      resolved vector. */
  lemma WritebackCollectRoundTrip(sensors: seq<Byte>, resolved: TouchVector)
    requires |sensors| <= Width
    requires resolved <= Pack(sensors)
    ensures forall k :: 0 <= k < |sensors| ==>
      WritebackStatuses(sensors, resolved)[k] == (if k in resolved then 1 else 0)
    ensures Pack(WritebackStatuses(sensors, resolved)) == resolved
  {
    var t := WritebackStatuses(sensors, resolved);
    forall k | 0 <= k < |sensors|
      ensures t[k] == (if k in resolved then 1 else 0)
    {
      if k in resolved {
        assert TouchFlag(sensors[k]);
      }
    }
    assert forall k :: 0 <= k < |sensors| ==> (TouchFlag(t[k]) <==> k in resolved);
  }

  /** One step of the inner write-back loop at sensor n, where the vector
      has been shifted n times: the AND with its bit 0 writes back sensor n,
      and one more shift leaves it shifted n + 1 times. */
  lemma WriteBackSensorStep(sensors: seq<Byte>, n: nat, resolved: TouchVector, currentButtonStatus: TouchVector)
    requires n < |sensors|
    requires currentButtonStatus == ShrN(resolved, n)
    ensures (WritebackStatuses(sensors[..n], resolved) + sensors[n..])[n := AndBit0(sensors[n], LsbMask(currentButtonStatus))]
      == WritebackStatuses(sensors[..n + 1], resolved) + sensors[n + 1..]
    ensures Shr1(currentButtonStatus) == ShrN(resolved, n + 1)
  {
    ShrNBit(resolved, n, 0);
    WritebackStatusesSnoc(sensors, n, resolved, currentButtonStatus);
    ShrNSucc(resolved, n);
  }

  /** The inner loop of the write-back walk over one button widget's
      sensors: sensor k is ANDed with bit 0 of the vector (bit k of the
      vector it started from), which is then shifted down one place. */
  method WriteBackSensors(sns: array<Byte>, resolved: TouchVector) returns (currentButtonStatus: TouchVector)
    modifies sns
    ensures sns[..] == WritebackStatuses(old(sns[..]), resolved)
    ensures currentButtonStatus == ShrN(resolved, sns.Length)
  {
    ghost var original := sns[..];
    currentButtonStatus := resolved;
    var sensorIter := 0;
    while sensorIter < sns.Length
      invariant 0 <= sensorIter <= sns.Length
      invariant currentButtonStatus == ShrN(resolved, sensorIter)
      invariant sns[..] == WritebackStatuses(original[..sensorIter], resolved) + original[sensorIter..]
    {
      WriteBackSensorStep(original, sensorIter, resolved, currentButtonStatus);
      sns[sensorIter] := AndBit0(sns[sensorIter], LsbMask(currentButtonStatus));
      currentButtonStatus := Shr1(currentButtonStatus);
      sensorIter := sensorIter + 1;
    }
    assert original[..sensorIter] == original;
  }

  /** One widget of the write-back walk: a button widget's sensors take
      the low bits of `currentButtonStatus`, which is shifted down past
      them; any other widget is skipped. */
  method WriteBackWidget(widget: Widget, currentButtonStatus: TouchVector) returns (rest: TouchVector)
    modifies widget.ptrSnsContext
    ensures WidgetState(widget.wdType, widget.ptrSnsContext[..])
      == WritebackWidgetState(old(WidgetState(widget.wdType, widget.ptrSnsContext[..])), currentButtonStatus)
    ensures rest == ShrN(currentButtonStatus, |OwnSensors(old(WidgetState(widget.wdType, widget.ptrSnsContext[..])))|)
  {
    rest := currentButtonStatus;
    if widget.wdType == Button {
      rest := WriteBackSensors(widget.ptrSnsContext, currentButtonStatus);
    }
  }

  /** One step of the write-back walk over the rest of the table, from
      entry n on: entry n is written back with the vector as it stands, and
      the walk continues past its sensors. */
  lemma WalkStep(s: seq<WidgetState>, t: seq<WidgetState>, n: nat, currentButtonStatus: TouchVector)
    requires n < |s| == |t|
    requires t[n..] == WritebackSnapshot(s[n..], currentButtonStatus)
    ensures t[n] == WritebackWidgetState(s[n], currentButtonStatus)
    ensures t[n + 1..] == WritebackSnapshot(s[n + 1..], ShrN(currentButtonStatus, |OwnSensors(s[n])|))
    ensures Remaining(s[n..], currentButtonStatus)
      == Remaining(s[n + 1..], ShrN(currentButtonStatus, |OwnSensors(s[n])|))
  {
    assert s[n..][1..] == s[n + 1..];
    assert t[n..][1..] == t[n + 1..];
  }

  /** Taking entry n of `a` in place of entry n of `b` moves the boundary
      of a splice of the two one place up. */
  lemma SpliceStep<T>(a: seq<T>, b: seq<T>, n: nat)
    requires n < |a| == |b|
    ensures (a[..n] + b[n..])[n := a[n]] == a[..n + 1] + b[n + 1..]
  {
    var l := (a[..n] + b[n..])[n := a[n]];
    var r := a[..n + 1] + b[n + 1..];
    forall k | 0 <= k < |l|
      ensures l[k] == r[k]
    {
    }
  }

  /** WriteBackWidget applied to entry `widget` of the table, seen as a
      change of the table's value at that one entry. */
  method WriteBackWidgetAt(widgets: seq<Widget>, widget: nat, currentButtonStatus: TouchVector)
    returns (rest: TouchVector)
    requires widget < |widgets|
    requires DistinctStatusArrays(widgets)
    modifies widgets[widget].ptrSnsContext
    ensures Snapshot(widgets)
      == old(Snapshot(widgets))[widget := WritebackWidgetState(old(Snapshot(widgets))[widget], currentButtonStatus)]
    ensures rest == ShrN(currentButtonStatus, |OwnSensors(old(Snapshot(widgets))[widget])|)
  {
    ghost var before := Snapshot(widgets);
    SnapshotEntries(widgets);
    rest := WriteBackWidget(widgets[widget], currentButtonStatus);
    ghost var after := Snapshot(widgets);
    SnapshotEntries(widgets);
    forall i | 0 <= i < |widgets| && i != widget
      ensures after[i] == before[i]
    {
      if i < widget {
        assert StatusArray(widgets, i) != StatusArray(widgets, widget);
      } else {
        assert StatusArray(widgets, widget) != StatusArray(widgets, i);
      }
    }
  }

  /** The write-back walk (capsense_fss_algorithm.c:106-117). It consumes
      the resolved vector one bit per button sensor, shifting it down, and
      returns what is left of it. As in `Collect`, the `uint8_t` counter
      `widget` limits the table to 255 widgets. */
  method WriteBack(widgets: seq<Widget>, resolved: TouchVector) returns (currentButtonStatus: TouchVector)
    requires |widgets| < 256
    requires DistinctStatusArrays(widgets)
    modifies Footprint(widgets)
    ensures Snapshot(widgets) == WritebackSnapshot(old(Snapshot(widgets)), resolved)
    ensures currentButtonStatus == ShrN(resolved, |ButtonSensors(old(Snapshot(widgets)))|)
  {
    ghost var s := Snapshot(widgets);
    ghost var t := WritebackSnapshot(s, resolved);
    currentButtonStatus := resolved;
    var widget := 0;
    while widget < |widgets|
      invariant 0 <= widget <= |widgets|
      invariant t[widget..] == WritebackSnapshot(s[widget..], currentButtonStatus)
      invariant Remaining(s, resolved) == Remaining(s[widget..], currentButtonStatus)
      invariant Snapshot(widgets) == t[..widget] + s[widget..]
    {
      WalkStep(s, t, widget, currentButtonStatus);
      SpliceStep(t, s, widget);
      currentButtonStatus := WriteBackWidgetAt(widgets, widget, currentButtonStatus);
      widget := widget + 1;
    }
    assert t[..widget] + s[widget..] == t;
    RemainingShifted(s, resolved);
  }
}
