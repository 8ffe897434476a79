# Flanking sensor suppression for CapSense buttons

This project models the flanking sensor suppression (FSS) code of a PSoC 4
CapSense button application. The code is in `capsense_fss_algorithm.c`. The
project proves properties of that model in Dafny.

After every scan, `capsense_fss` does three things:

- **Collect.** It packs the touch flag of every button sensor into a 64-bit
  vector, one bit per sensor. The order is widget by widget, and sensor by
  sensor inside each widget.
- **Arbitrate and latch.** It runs the arbiter `fss_algorithm`. Inside the
  enable mask, the arbiter reports at most one touched button: the one it
  reported last cycle while that button stays touched, otherwise the touched
  button of lowest index. The result is latched in `previousButtonStatus`
  for the next cycle.
- **Write back.** It walks the same sensors again. It ANDs each sensor's
  status byte with the sensor's bit of the result, so a suppressed sensor
  reads as untouched.

## How the model is built

- `touch_vector.dfy` (`TouchVectors`) holds the 64-bit vectors
  (`uint64_t`). A vector is the set of positions of its one bits, every
  position below 64:
  - `&` is set intersection, `|` is union and `& ~` is difference;
  - `<< 1` (`Shl1`) drops bit 63 explicitly, and `>> 1` is `Shr1`;
  - `LowestSetBit` is the specification of the arbiter's search loop.
- `fss_arbiter.dfy` (`FssArbiter`) holds `fss_algorithm` and
  `FSS_ENABLE_MASK`:
  - `FssAlgorithm` is a method whose `for` loop is proved against the pure
    function `FssResult`;
  - the arbitration properties are lemmas about `FssResult`;
  - `Trace` chains cycles through the latch.
- `status_codec.dfy` (`StatusVectorCodec`) holds the widget table and the
  two nested walks:
  - each widget is a value holding its type and an `array` of status bytes,
    which the write-back updates in place;
  - `Snapshot` reads the whole table as a value;
  - `ButtonSensors` lists the button sensors in walk order;
  - `Pack` and `WritebackStatuses` say what the walks compute.
- `capsense_fss.dfy` (`CapsenseFss`) holds the globals `currentButtonStatus`,
  `previousButtonStatus` and `sensorCount` as fields of the class `FssState`,
  and `capsense_fss` as its method `CapsenseFss`.

Some modelling choices:

- `fss_algorithm` reads the global `sensorCount` to build its enable mask.
  `FssAlgorithm` takes the mask as a parameter instead, because the comment
  at `capsense_fss_algorithm.c:53-55` invites users to change the mask. Every
  arbiter lemma holds for any mask. `CapsenseFss` passes the default mask,
  `FssEnableMask(sensorCount)`.
- The header defining `CY_CAPSENSE_SNS_TOUCH_STATUS_MASK` is not part of this
  model. The model takes the mask to be bit 0, as the write-back's
  `CURRENTBUTTONSTATUS_LSB_MASK` AND at `:112-113` assumes.
- Status bytes are integers from 0 to 255. The touch flag is bit 0
  (`TouchFlag`), and the AND with `CURRENTBUTTONSTATUS_LSB_MASK &
  currentButtonStatus` (0 or 1) is `AndBit0`. The write-back therefore
  clears every other status flag of every button sensor, as the code does.

## Model

| member | source | states |
|---|---|---|
| TouchVectors.Shl1 | capsense_fss_algorithm.c:150 | `reportedButtons <<= 1` on a 64-bit vector: bit i of the result is bit i - 1 of the input, and bit 0 and the bit shifted past 63 are gone |
| TouchVectors.Shr1 | capsense_fss_algorithm.c:114 | `currentButtonStatus >>= RIGHT_SHIFT_1BIT`: bit i of the result is bit i + 1 of the input |
| TouchVectors.ShrNBit | capsense_fss_algorithm.c:114 | after n one-place right shifts, bit i is bit i + n of the original |
| TouchVectors.ShrNSucc | capsense_fss_algorithm.c:110-115 | shifting n + 1 times is shifting n times and then once more, which is one turn of the write-back loop |
| TouchVectors.ShrNAdd | capsense_fss_algorithm.c:106-117 | shifting a times and then b times is shifting a + b times, so the shifts done widget by widget add up |
| TouchVectors.LowBits | capsense_fss_algorithm.c:56 | `(1 << n) - 1` contains exactly the positions below n |
| TouchVectors.ShrNLowBits | capsense_fss_algorithm.c:106-117 | a vector within the low n bits is zero after n right shifts |
| TouchVectors.LowestSetBit | capsense_fss_algorithm.c:148-155 | the specification of the search loop: a subset of x, empty exactly when x is, at most one bit, and no bit of x below it |
| FssArbiter.FssEnableMask | capsense_fss_algorithm.c:56 | `FSS_ENABLE_MASK` for fewer than 31 sensors: bit i is set exactly when i < sensorCount |
| FssArbiter.FssAlgorithm | capsense_fss_algorithm.c:128-160 | `fss_algorithm`'s loop and branches compute `FssResult`; a ghost counter bounds the probe loop by 64 shifts |
| FssArbiter.PassThrough | capsense_fss_algorithm.c:159 | the bits outside the mask are those of `current`, whatever `previous` is |
| FssArbiter.HeldTestIgnoresMaskOfPrevious | capsense_fss_algorithm.c:145 | ANDing the masked `current` with the unmasked `previous` gives the same test as with the masked `previous` |
| FssArbiter.StickyHold | capsense_fss_algorithm.c:137-145 | when a previously reported group button is still touched, the group bits equal `previous & mask` |
| FssArbiter.FreshArbitration | capsense_fss_algorithm.c:145-155 | otherwise the group bits are the lowest touched group button: empty exactly when no group button is touched, and no touched group button has a lower index |
| FssArbiter.OneWinner | capsense_fss_algorithm.c:137-159 | with at most one group bit in `previous`, the result has at most one group bit |
| FssArbiter.NoPhantomTouch | capsense_fss_algorithm.c:137-159 | with at most one group bit in `previous`, every reported button is touched now |
| FssArbiter.Stability | capsense_fss_algorithm.c:137-159 | with at most one group bit in `current`, feeding back `current` as `previous` returns `current` unchanged |
| FssArbiter.ReleaseToIdle | capsense_fss_algorithm.c:145-155 | with no group button touched, the group result is empty |
| FssArbiter.TraceOneWinner | capsense_fss_algorithm.c:100-103 | over any run of cycles whose latch starts with at most one group bit (the reset value 0 has none), every cycle reports at most one group button |
| FssArbiter.TraceNoPhantom | capsense_fss_algorithm.c:100-103 | over any such run, every cycle reports only buttons touched in that cycle |
| FssArbiter.StickyPriorityScenario | capsense_fss_algorithm.c:137-159 | buttons A and B: A, then A and B, then B reports A, A, then B, so the first-touched button keeps priority |
| FssArbiter.MixedGroupScenario | capsense_fss_algorithm.c:137-159 | mask 0b0111 with indices 1 and 3 touched reports 0b1010, and adding index 2 while 1 is held changes nothing |
| StatusVectorCodec.SnapshotEntries | capsense_fss_algorithm.c:88-92 | entry i of the table's value is widget i's type and the current contents of its status array |
| StatusVectorCodec.ButtonSensorsSplit | capsense_fss_algorithm.c:86-97 | the button sensors of the table are those of a prefix of the widgets followed by those of the rest |
| StatusVectorCodec.ButtonSensorsSnoc | capsense_fss_algorithm.c:86-97 | visiting one more widget appends exactly its own button sensors: all of a button widget's, none of any other type's |
| StatusVectorCodec.ButtonSensorsIgnoreOthers | capsense_fss_algorithm.c:88 | a widget that is not a button contributes no sensors, whatever its status bytes hold |
| StatusVectorCodec.PackSnoc | capsense_fss_algorithm.c:92-94 | collecting one more sensor adds its touch flag as the next bit, the bit at index `sensorCount` |
| StatusVectorCodec.PackWithinLowBits | capsense_fss_algorithm.c:86-97 | the collected vector lies within the low `sensorCount` bits |
| StatusVectorCodec.CollectSensors | capsense_fss_algorithm.c:90-95 | the inner collect loop adds one bit per sensor of the widget and counts each sensor |
| StatusVectorCodec.Collect | capsense_fss_algorithm.c:86-97 | `sensorCount` is the number of button sensors, and bit k of `currentButtonStatus` is the touch flag of button sensor k in walk order |
| StatusVectorCodec.WritebackStatus | capsense_fss_algorithm.c:112-113 | a written-back status has its touch flag exactly when the sensor is reported and was touched, and no other flag |
| StatusVectorCodec.WritebackStatusesSnoc | capsense_fss_algorithm.c:110-114 | ANDing sensor n with bit 0 of a vector whose bit 0 is bit n of the result extends the written-back prefix by sensor n |
| StatusVectorCodec.WritebackStatusesAppend | capsense_fss_algorithm.c:106-117 | writing back a second run of sensors uses the result shifted past the first run |
| StatusVectorCodec.WritebackKeepsLayout | capsense_fss_algorithm.c:108 | the write-back keeps every widget's type and number of sensors, and leaves every widget that is not a button exactly as it was |
| StatusVectorCodec.RemainingShifted | capsense_fss_algorithm.c:106-117 | what the walk leaves of the vector is the vector shifted once per button sensor |
| StatusVectorCodec.WritebackButtonSensors | capsense_fss_algorithm.c:106-117 | after the write-back, button sensor k holds its old status ANDed with bit k of the result |
| StatusVectorCodec.WritebackCollectRoundTrip | capsense_fss_algorithm.c:92-93 | for a result made of touched sensors, a reported sensor reads exactly 1 and any other reads 0 afterwards, and collecting again gives back the result |
| StatusVectorCodec.WriteBackSensorStep | capsense_fss_algorithm.c:112-114 | one turn of the inner write-back loop writes back sensor n and leaves the vector shifted n + 1 times |
| StatusVectorCodec.WriteBackSensors | capsense_fss_algorithm.c:110-115 | the inner write-back loop makes the widget's statuses the written-back statuses and leaves the vector shifted once per sensor |
| StatusVectorCodec.WriteBackWidget | capsense_fss_algorithm.c:108-116 | a button widget takes the low bits of the vector, which is shifted past them; any other widget and the vector are untouched |
| StatusVectorCodec.WriteBackWidgetAt | capsense_fss_algorithm.c:108-116 | writing back widget i changes entry i of the table's value and no other, because no two widgets share a status array |
| StatusVectorCodec.WriteBack | capsense_fss_algorithm.c:106-117 | the write-back walk turns the table into `WritebackSnapshot` of its old value and leaves the result shifted once per button sensor |
| CapsenseFss.FssState.constructor | capsense_fss_algorithm.c:61-63 | all three globals start at 0, which satisfies the latch invariant |
| CapsenseFss.FssState.CollectAndLatch | capsense_fss_algorithm.c:82-103 | after clearing, collecting and arbitrating, `previousButtonStatus` and `currentButtonStatus` both hold the arbiter's result for the collected vector, and the count is the number of button sensors |
| CapsenseFss.FssState.CapsenseFss | capsense_fss_algorithm.c:79-118 | one cycle: the latch holds `fss_algorithm`'s result and still has at most one bit, the statuses are written back, `currentButtonStatus` is shifted down to 0, and the table now reads as the latched result |
| CapsenseFss.CycleOutcome | capsense_fss_algorithm.c:79-118 | per cycle, the result reports only touched buttons and at most one of them, the write-back consumes all of it, and the written-back statuses collect back to the result |

## Left out

- main.c is not part of this model. It covers board start-up, interrupts, the tuner's EZI2C buffer and the scan loop that calls `capsense_fss` between scans, all hardware I/O and middleware calls.
- LED_Control.c and led_control.c are not part of this model. They only query the middleware and drive GPIO pins.
- The CapSense middleware context is not part of this model.
  - `cy_capsense_context.ptrWdConfig` becomes a sequence of widgets, each with its type and its status array. `numSns` is that array's length.
  - Widget types other than `CY_CAPSENSE_WD_BUTTON_E` are collapsed into one.
  - `CY_CAPSENSE_SNS_TOUCH_STATUS_MASK` is taken to be bit 0.
- Concurrency is left out. The model assumes `capsense_fss` has exclusive use of the globals and of the status bytes while it runs.
- FssArbiter.FssEnableMask: requires fewer than 31 sensors, because `1 << sensorCount` on C `int` overflows from 31 on. The model does not reproduce what the C code does there.
- StatusVectorCodec.Collect: requires at most 31 button sensors. The shift at `:92-93` is done in the type of `CY_CAPSENSE_SNS_TOUCH_STATUS_MASK`, which is defined in a middleware header that is not part of this model. If that type is signed `int` the shift is undefined from 31 on; if it is unsigned it is defined up to 32 sensors. The bound of 31 is therefore conservative, and it lies above the bound of 30 that `FSS_ENABLE_MASK` needs anyway.
- CapsenseFss.FssState.CapsenseFss: requires fewer than 31 button sensors, for the enable mask above. Within that bound the `uint8_t` counters `sensor_iter` and `sensorCount` cannot wrap.
- CapsenseFss.FssState.CapsenseFss: requires fewer than 256 widgets, and so do `CollectAndLatch`, `Collect` and `WriteBack`. The counter `widget` at `:86` and `:106` is a `uint8_t` that counts every widget, buttons or not. With 256 or more widgets `widget++` wraps and neither walk ends. The model does not describe that non-terminating case.
- CapsenseFss.FssState.CapsenseFss: requires `DistinctStatusArrays`, and so do `WriteBack` and `WriteBackWidgetAt`: no two widgets share a `ptrSnsContext` array. Nothing in `capsense_fss_algorithm.c` guarantees this; the middleware's configuration is not part of this model. A shared array would be written back twice, each time with a different bit of the result, and the model does not describe that case.
- CapsenseFss.FssState.CapsenseFss: requires `Valid()`, the latch invariant (at most one bit in `previousButtonStatus`). The reset values establish it and every cycle keeps it. The model does not cover a latch written by other code.
- CapsenseFss.FssState.CollectAndLatch: the clearing at `:82-83` and the collect loop are modelled together. `Collect` starts from the cleared values and returns the collected vector and count, which are then stored in the globals.
