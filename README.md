# Button press-duration classifier and LED mode (FreeRTOS, LPC21xx)

This project models the two tasks of `Task_3`'s `main.c`:

- the **button task** (`vidBUTTON_Task`) samples the button every 100 ms
  (`BUTTON_SCAN_PERIODICITY`). It counts consecutive HIGH samples in the
  8-bit `loc_TimeCounter`. On a release edge (previous sample HIGH, current
  LOW) it classifies `counter * 100` ms into one of the three values of
  `ledToggleStatus_t`, stores it in the global `ledTogglStatus` and resets
  the counter;
- the **LED task** (`vidLED_Task`) reads `ledTogglStatus` once per loop pass.
  It then writes the LED LOW (`LED_TOGGLE_OFF`), or blinks it once with a
  100 ms or 400 ms half period.

Files:

- `gpio.dfy` (module `Gpio`): pin levels, and the two effects the tasks have,
  `Write(level)` for `GPIO_write` and `Delay(ms)` for `vTaskDelay`.
- `toggle_status.dfy` (module `ToggleStatus`): the mode and its initial value.
- `button_task.dfy` (module `ButtonTask`): the counter type `uint8`, the
  classification `Classify`, the pure one-pass transition `Next`, its fold
  `Run` over a sequence of samples, and the class `ButtonSampler`. The class
  holds the task's static locals and the global mode as fields. Its `Step`
  method is one loop pass and `Poll` runs the loop on given samples. Both are
  proved against `Next` and `Run`. The lemmas state what a press does, end to
  end.
- `led_task.dfy` (module `LedTask`): `LedPass`, the actions of one LED pass
  per mode. It comes with a small semantics of action sequences: the final
  pin level, total delay, and time spent HIGH. `LedTrace` covers consecutive
  passes.

Modelling choices:

- `loc_TimeCounter` is a `uint8` newtype, and `++` wraps explicitly from 255
  to 0.
- In C, `loc_TimeCounter * 100u` is computed in 32-bit `unsigned int` after
  promotion. It is at most 25500, so it cannot wrap, and `HeldMs` is exact.
- The GPIO read is the `sample` parameter of a pass. The write and the delay
  are emitted `Action` values.
- The static `loc_ButtonPreviousStatus` and `loc_ButtonCurrentStatus` are
  zero-initialised. Which level zero is depends on `pinState_t`, and its
  header (`GPIO.h`) is not part of this model. So the initial level is a
  parameter (`Initial`, the `ButtonSampler` constructor).
- The 8-bit wrap is reproduced as written. A press of 256 to 275 samples
  (25.6 s to 27.5 s) finishes with a counter below 20 and is classified as
  `LED_TOGGLE_OFF` (`WrappedPressReadsShort`).
- The LED task has three modes, steady LOW and two blink rates; no mode
  holds the LED HIGH.

## Model

| member | source | states |
|---|---|---|
| `ButtonTask.Increment` | 01-Introduction_To_FreeRTOS_Task/Task_3/Starter_Files_V0/source/main.c:137-145 | the `uint8_t` counter increment gives `c + 1` below 255 and wraps 255 to 0 |
| `ButtonTask.HeldMs` | 01-Introduction_To_FreeRTOS_Task/Task_3/Starter_Files_V0/source/main.c:154-160 | the held time `ticks * 100` is at most 25500 (far below 2^32, so the 32-bit unsigned product never wraps); dividing it by the scan period gives the tick count back |
| `ButtonTask.Classify` | 01-Introduction_To_FreeRTOS_Task/Task_3/Starter_Files_V0/source/main.c:154-168 | in tick counts: `LED_TOGGLE_100MS` exactly when 20 <= ticks < 40, `LED_TOGGLE_400MS` exactly when ticks >= 40, `LED_TOGGLE_OFF` exactly when ticks < 20 (each an if-and-only-if) |
| `ButtonTask.Initial` | 01-Introduction_To_FreeRTOS_Task/Task_3/Starter_Files_V0/source/main.c:104-137 | the mode starts `LED_TOGGLE_OFF`, the counter starts 0, and the start state satisfies the between-pass invariant |
| `ButtonTask.Next` | 01-Introduction_To_FreeRTOS_Task/Task_3/Starter_Files_V0/source/main.c:140-177 | after a pass both levels equal the sample; a HIGH sample increments the counter mod 256 and keeps the mode; a release edge sets the mode to the classification of the counter and resets it to 0; LOW after LOW changes neither; the mode changes only on a release edge |
| `ButtonTask.NextPreservesInv` | 01-Introduction_To_FreeRTOS_Task/Task_3/Starter_Files_V0/source/main.c:142-177 | a pass preserves the invariant: current equals previous, and the counter is 0 whenever the previous level was LOW |
| `ButtonTask.Run` | 01-Introduction_To_FreeRTOS_Task/Task_3/Starter_Files_V0/source/main.c:138-179 | any number of passes preserves the invariant, and the previous level is the last sample |
| `ButtonTask.RunAppend` | 01-Introduction_To_FreeRTOS_Task/Task_3/Starter_Files_V0/source/main.c:138-179 | running two stretches of samples one after the other is running their concatenation |
| `ButtonTask.RunPrefixStep` | 01-Introduction_To_FreeRTOS_Task/Task_3/Starter_Files_V0/source/main.c:138-179 | each prefix of a run is the shorter prefix plus one pass, and the previous level after `i` samples is the level sampled just before sample `i` |
| `ButtonTask.HoldHigh` | 01-Introduction_To_FreeRTOS_Task/Task_3/Starter_Files_V0/source/main.c:142-146 | `k` consecutive HIGH samples add `k` to the counter modulo 256 and leave the mode unchanged |
| `ButtonTask.StayLow` | 01-Introduction_To_FreeRTOS_Task/Task_3/Starter_Files_V0/source/main.c:147-175 | any number of LOW samples after a LOW sample change no part of the state |
| `ButtonTask.PressAndRelease` | 01-Introduction_To_FreeRTOS_Task/Task_3/Starter_Files_V0/source/main.c:140-177 | a press of `k` samples then one release ends with counter 0, both levels LOW and the mode equal to the classification of `(counter + k) mod 256`. This includes a press already in progress. With no press from a released state, the mode is unchanged |
| `ButtonTask.PressClassification` | 01-Introduction_To_FreeRTOS_Task/Task_3/Starter_Files_V0/source/main.c:154-168 | from a released state, a press of `k` samples (0 < k < 256) gives `LED_TOGGLE_OFF` iff `k*100 < 2000`, `LED_TOGGLE_100MS` iff `2000 <= k*100 < 4000`, `LED_TOGGLE_400MS` iff `k*100 >= 4000` |
| `ButtonTask.WrappedPressReadsShort` | 01-Introduction_To_FreeRTOS_Task/Task_3/Starter_Files_V0/source/main.c:137-168 | a press of 256 to 275 samples wraps the 8-bit counter and is classified `LED_TOGGLE_OFF` |
| `ButtonTask.Scenarios` | 01-Introduction_To_FreeRTOS_Task/Task_3/Starter_Files_V0/source/main.c:135-177 | from the start state, presses of 19, 20 and 40 samples give `OFF`, `100MS` and `400MS`; with the previous level starting HIGH, a first LOW sample is a release of 0 ticks and gives `OFF` with counter 0 |
| `ButtonTask.ClassifiedExactlyAtReleaseEdges` | 01-Introduction_To_FreeRTOS_Task/Task_3/Starter_Files_V0/source/main.c:147-177 | in any sample sequence, each release edge sets the mode to the classification of the counter accumulated before it and resets the counter; every other sample leaves the mode unchanged |
| `ButtonTask.ButtonSampler.constructor` | 01-Introduction_To_FreeRTOS_Task/Task_3/Starter_Files_V0/source/main.c:104-137 | the fields start as `Initial(initialLevel)` and satisfy the invariant |
| `ButtonTask.ButtonSampler.Step` | 01-Introduction_To_FreeRTOS_Task/Task_3/Starter_Files_V0/source/main.c:140-178 | the fields after a pass are `Next` of the fields before it; the invariant is preserved; the pass ends by emitting `vTaskDelay(100)` |
| `ButtonTask.ButtonSampler.Poll` | 01-Introduction_To_FreeRTOS_Task/Task_3/Starter_Files_V0/source/main.c:138-179 | after the loop has run over `samples`, the fields are `Run` of the old fields; the invariant is preserved; one `vTaskDelay(100)` is emitted per pass |
| `LedTask.LedPass` | 01-Introduction_To_FreeRTOS_Task/Task_3/Starter_Files_V0/source/main.c:111-127 | the pass is exactly the source's sequence: `LED_TOGGLE_OFF` is one action, a LOW write; each blinking mode is four actions, a HIGH write, a delay of its half period (100 or 400 ms), then a LOW write and a second delay of the same length. Every write after the first is LOW, and every pass leaves the LED LOW |
| `LedTask.LedTrace` | 01-Introduction_To_FreeRTOS_Task/Task_3/Starter_Files_V0/source/main.c:109-129 | consecutive passes of the LED loop, one `LedPass` per mode read; after at least one pass the LED is LOW, whatever its level before |
| `LedTask.TotalDelayAppend` | 01-Introduction_To_FreeRTOS_Task/Task_3/Starter_Files_V0/source/main.c:109-129 | the delay of consecutive actions is the sum of their delays |
| `LedTask.HighTimeAppend` | 01-Introduction_To_FreeRTOS_Task/Task_3/Starter_Files_V0/source/main.c:109-129 | the HIGH time and the final level of consecutive actions compose |
| `LedTask.TraceAppend` | 01-Introduction_To_FreeRTOS_Task/Task_3/Starter_Files_V0/source/main.c:109-129 | the output of consecutive passes is the output of the earlier passes followed by that of the later ones. Each pass depends only on the mode read at its start, so a mode change takes effect at the next pass boundary |
| `LedTask.SteadyMode` | 01-Introduction_To_FreeRTOS_Task/Task_3/Starter_Files_V0/source/main.c:109-129 | `n` passes in one mode last `2n` half periods, with the LED HIGH for `n` of them and LOW at the end |
| `LedTask.SteadyModePeriodic` | 01-Introduction_To_FreeRTOS_Task/Task_3/Starter_Files_V0/source/main.c:109-129 | under a steady mode, action `i` of the output is action `i` modulo the pass length of a single pass |

## Left out

- The preemptive interleaving of the two tasks and the timing of
  `vTaskDelay`: each task's loop is modelled alone and sequentially. The
  mode is a plain field of the button state, and `LedTrace` takes the
  sequence of modes the LED task happened to read.
- `main` and `prvSetupHardware` (task creation, scheduler start, UART and
  GPIO initialisation, the `VPBDIV` write): these are hardware and scheduler
  setup with no logic.
- The GPIO driver (`GPIO_read`, `GPIO_write`): reads are inputs and writes
  are emitted actions. `GPIO.h` is not part of this model.
- The fixed-rate blink tasks of `Task_2`'s `main.c` and `GPIO_cfg.h`: straight-line
  toggle-and-delay loops and configuration declarations.
- The numeric values of the `ledToggleStatus_t` enumerators and the
  `(uint8_t)` cast in the LED task's switch: all three values have a case,
  so the cast does not change behaviour.
- The unit of `vTaskDelay`'s argument: it counts scheduler ticks, which are
  milliseconds only with a 1 kHz tick rate, configured in a
  `FreeRTOSConfig.h` that is not part of this model. `Delay(ms)` and the
  "ms" names follow the source's own `TIME_2000MS` naming. Nothing proved
  depends on it: the classification compares `counter * 100` against 2000
  and 4000 in the source's own units.
