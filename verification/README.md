# Phone-lockbox timer: a Dafny model

This project models the controller of a Raspberry Pi "phone lockbox"
(`terminal1/servorandLCD.c`). The user sets a duration in minutes with an
increase and a decrease button, then presses start. A servo locks the
compartment and a 16x2 character display shows a progress bar until the time
is up. Then the servo releases the compartment, the duration is cleared, and
the display returns to a scrolling marquee.

The model has three modules:

- `GpioInput` (`gpio_input.dfy`): button levels (`Low` is pressed, `High` is
  released, as the buttons are active-low with pull-ups), the debounce
  decision over two samples of a pin, and edge detection (`Pressed`).
- `LcdDisplay` (`lcd_display.dfy`): the two frame builders. `RenderProgressBar`
  fills a buffer cell by cell as `displayProgressBar` does. `FillWindow` and
  `ScrollText` build the marquee as `scrollText` does. Each has a reference
  layout (`ProgressFrame`, `ScrollWindow`) and lemmas about that layout.
- `TimerControl` (`timer_control.dfy`): the shared record `timer_minutes`,
  `is_timer_running` and `start_time`, and the two loop bodies.
  - The class `Lockbox` holds the three globals and the button loop's three
    previous levels.
  - `ButtonStep` and `ServoStep` are single iterations of `buttonThread` and
    `servoThread`. Each is specified by a pure transition function
    (`ButtonTransition`, `ServoTransition`).
  - `Run` composes any interleaving of the two cycles. The trace lemmas are
    stated over `Run`.

Every access to `timer_minutes`, `is_timer_running` and `start_time` lies
inside the two critical sections of the single mutex (`servorandLCD.c:95-116`
and `132-159`). The button loop reads its three debounced levels before
locking (lines 128-130) and updates its thread-local previous levels after
unlocking (lines 161-163); both loops wait 100 ms outside the lock (lines 117
and 165). The model takes the clock (`time(NULL)`) and the debounced levels
as parameters of the step, so each cycle is still one atomic step. Hardware requests (servo angle, display messages,
progress bar, marquee) are returned as a list of `Effect` values in the order
the code issues them.

Three features of the code shape the model:

- Inside the critical sections the code keeps the mutex across `rotateServo`,
  `updateLCD`, the pacing delays and even the blocking `scrollText` call of the
  expiry branch (lines 99-109 and 149-157). So the hardware requests belong to
  the atomic step that decides them.
- The marquee does not wrap around: past the end of the text the window is
  padded with blanks (line 68). `ScrollWindow` pads too.
- The duration is stored in minutes (`timer_minutes`) and multiplied by 60
  where seconds are needed (line 98). The model stores minutes.

`Run` and the trace lemmas are stated over the transition functions
`ButtonTransition` and `ServoTransition` on the value `Snapshot`, which holds
the same record and previous levels as a `Lockbox` object (`Timer()`,
`Last()`). `ButtonStep` and `ServoStep` are proved equal to those functions,
so a sequence of calls on a `Lockbox` passes through the states that `Run`
computes for the matching events.

## Model

| member | source | states |
|---|---|---|
| GpioInput.Pressed | terminal1/servorandLCD.c:133 | The edge rule used by all three buttons (lines 133, 141, 149): a press is a change of level into `Low` from `High`, so a level held from one cycle to the next is never a press. |
| GpioInput.Debounce | terminal1/servorandLCD.c:87-91 | Agreeing samples are returned. Disagreeing samples give the inactive level `High`. The result is one of the first sample or `High`. It is `Low` (pressed) exactly when both samples are `Low`. |
| LcdDisplay.CDiv | terminal1/servorandLCD.c:47 | C's integer division rounds toward zero: for a non-negative dividend the quotient is the floor, for a negative one the quotient is at most 0 and rounds up. |
| LcdDisplay.BarLength | terminal1/servorandLCD.c:47 | `bar_length = percent*14/100`: non-positive for a non-positive percentage, the floor of `percent*14/100` for a non-negative one, and at least 14 from 100 percent on. |
| LcdDisplay.Filled | terminal1/servorandLCD.c:47 | The number of filled cells is `bar_length` clipped to the 14-cell bar. It is 0 at or below 0 percent and 14 at or above 100 percent. For percent in [0,100] it equals `percent*14/100`. |
| LcdDisplay.ProgressFrame | terminal1/servorandLCD.c:48-54 | The reference layout is 16 cells: a vertical-bar border at index 0 and index 15, a run of `#`, then a run of blanks. |
| LcdDisplay.ProgressFrameCell | terminal1/servorandLCD.c:51-53 | Cell `i` (1..14) of the reference layout is `#` exactly when `i <= bar_length`, and a blank otherwise. This is the per-cell rule of the C loop. |
| LcdDisplay.RenderProgressBar | terminal1/servorandLCD.c:46-54 | Filling a newly allocated 17-character buffer cell by cell gives the reference layout in cells 0..15 and a terminator in cell 16. The frame depends on the percentage alone, so repeated renders of one percentage are identical. |
| LcdDisplay.FilledCells | terminal1/servorandLCD.c:47-53 | The frame contains exactly `Filled(percent)` `#` characters. |
| LcdDisplay.ProgressFrameExtremes | terminal1/servorandLCD.c:47-53 | 100 percent fills all 14 cells. 0 percent fills none. |
| LcdDisplay.BarLengthMonotone | terminal1/servorandLCD.c:47 | `bar_length` computed with C's truncating division is monotone in the percentage. |
| LcdDisplay.ProgressFrameMonotone | terminal1/servorandLCD.c:47-53 | For `p <= q`, every cell filled at `p` is filled at `q`. The number of `#` cells does not decrease. |
| LcdDisplay.ScrollWindow | terminal1/servorandLCD.c:67-69 | The reference marquee frame is always 16 characters: the text from `pos`, cut to the line width and padded with blanks. |
| LcdDisplay.ScrollWindowCell | terminal1/servorandLCD.c:67-69 | Cell `i` of the frame is `text[i+pos]` when `i+pos < len`, and a blank otherwise. |
| LcdDisplay.FillWindow | terminal1/servorandLCD.c:67-70 | Filling the reused display buffer gives the reference frame in cells 0..15 and a terminator in cell 16. |
| LcdDisplay.NextPos | terminal1/servorandLCD.c:74 | `(pos+1) % len` stays in `[0, len)`. It is 0 exactly when `pos` is the last position, and otherwise it is `pos+1`. |
| LcdDisplay.NextPosAfter | terminal1/servorandLCD.c:64-74 | Starting at 0, after `k` frames the window position is `k % len`. So it returns to 0 after every `len` frames. |
| LcdDisplay.ScrollText | terminal1/servorandLCD.c:61-80 | Frame `k` shown is `ScrollWindow(text, k % len)`. The marquee does not stop before a poll sees a pressed button, and it stops after the first poll that does. |
| TimerControl.IncreaseRule | terminal1/servorandLCD.c:133-139 | On a press while idle the duration goes up by one and "Set: D:00" is shown with the new value. Otherwise nothing changes and nothing is shown. The running flag and start time are never touched. |
| TimerControl.DecreaseRule | terminal1/servorandLCD.c:141-147 | On a press while idle with a positive duration the duration goes down by one and the new value is shown. Otherwise nothing changes. The duration never goes below zero, and the running flag and start time are never touched. |
| TimerControl.StartRule | terminal1/servorandLCD.c:149-158 | The timer starts exactly when it was idle, the start button was pressed and the duration is positive. A start records `now`, locks the servo and shows "Start: D:00". The duration is never touched. |
| TimerControl.ButtonTransition | terminal1/servorandLCD.c:132-159 | A button cycle keeps the record invariant and never makes the duration negative. While running it changes nothing. Without a press it changes nothing. The duration moves by at most one: up only on an increase press, down only on a decrease press. On an idle timer, an increase press alone adds a minute, a decrease press alone removes one (not below zero), and both together cancel out. Every change of the duration is shown with the new value. A start press while idle starts the timer exactly when the duration left by the earlier rules is positive. Starting records `now` and locks the servo. `start_time` changes only on a start. |
| TimerControl.PercentRemaining | terminal1/servorandLCD.c:111 | The percentage is the floor of `remaining*100 / (minutes*60)`. It is non-negative and at most 100 when at most the whole duration remains. It is exactly 100 with the whole duration left and below 100 once time has passed. |
| TimerControl.ServoTransition | terminal1/servorandLCD.c:96-114 | An idle timer is untouched. A running timer whose duration has elapsed is stopped and its minutes cleared, with the servo released and the done and idle messages shown. Otherwise the record is unchanged and the progress shown is `PercentRemaining(minutes, remaining)`, which lies in [0,100] once the clock has passed the start (100 at the start). The record invariant, which rules out a zero divisor, is kept. |
| TimerControl.Lockbox.constructor | terminal1/servorandLCD.c:21-23 | The process starts idle with zero minutes and start time 0 (lines 21-23), and all previous button levels are `High`, as the button loop initialises them (lines 123-125). |
| TimerControl.Lockbox.ButtonStep | terminal1/servorandLCD.c:127-163 | One iteration of the button loop. The new record and the requested effects are those of `ButtonTransition`. The previous levels become this cycle's reads whichever branch ran. The record invariant is kept. |
| TimerControl.Lockbox.ServoStep | terminal1/servorandLCD.c:95-115 | One iteration of the servo loop. The new record and the effects are those of `ServoTransition`. The invariant is kept, so the division at line 111 is always by a positive number. |
| TimerControl.Apply | terminal1/servorandLCD.c:93-168 | One atomic cycle of either loop keeps the record invariant. |
| TimerControl.Run | terminal1/servorandLCD.c:93-168 | Every interleaving of the two loops' cycles reaches only records where the duration is non-negative and a running timer has a positive duration. |
| TimerControl.HeldLevelsChangeNothing | terminal1/servorandLCD.c:133-163 | Cycles whose levels equal the previous cycle's levels produce no press, and leave the state unchanged. |
| TimerControl.HeldIncreaseFiresOnce | terminal1/servorandLCD.c:133-139 | Holding the increase button down for any number of cycles adds exactly one minute. |
| TimerControl.RunningUntilDeadline | terminal1/servorandLCD.c:96-99 | Until its deadline, a running timer's record is changed by neither loop: there is no early expiry and no edit. |
| TimerControl.IdleTicksChangeNothing | terminal1/servorandLCD.c:96 | Servo cycles never change an idle timer. |
| TimerControl.ExpiresExactlyOnce | terminal1/servorandLCD.c:96-106 | A started timer runs unchanged until its deadline. The first servo cycle at or after the deadline stops it and clears the minutes, and it stays stopped afterwards. |
| TimerControl.StartWithoutDurationIgnored | terminal1/servorandLCD.c:149 | A start press with zero minutes changes nothing and shows nothing. |
| TimerControl.IncreaseAndStartTogether | terminal1/servorandLCD.c:133-157 | Increase and start pressed in the same cycle from zero minutes both take effect. The start rule sees the minute just added. |
| TimerControl.IncreaseTwice | terminal1/servorandLCD.c:133-138 | Two separate increase presses from process start set two minutes, and the second shows "Set: 2:00". |
| TimerControl.OneMinuteRun | terminal1/servorandLCD.c:99-157 | A one-minute timer is started and locked by the start press. It is still running at 59 seconds and expires, releasing the servo, at 60 seconds. |

## Left out

- Hardware and process setup: `setupServo`, `setupPins` and `main` (pigpio initialisation, pin modes, thread creation and join, mutex init and destroy, exit status 1 on failure). These are foreign calls and process plumbing.
- Threads and the mutex are not modelled as such. Each locked loop body is one atomic step, and `Run` covers every interleaving of those steps. The two `while (1)` loops are modelled as single iterations.
- Display and servo drivers: `lcd_clear`, `lcd_print_at` and `updateLCD` (`lcd.h` is not part of this model), `gpioServo` and the pulse-width formula of `rotateServo`, which uses floating point. A step returns the angle it commands and the messages it shows as `Effect` values. The caption `!rehab!` that the progress screen writes on its first row is not recorded.
- `gpioDelay` waits (debounce, settle, pacing, cycle period) and `printf` logging have no effect on state and are left out.
- `snprintf` formatting of "Set: %d:00" and "Start: %d:00" into a 16-byte buffer: the model records the minute count shown, not the text or its truncation for very large counts.
- The clock `time(NULL)` is the `now` parameter. The truncating `(int)` cast of `time_t` is not modelled.
- Raw GPIO reads: `Debounce` takes the two samples as inputs, and `ButtonStep` takes the three debounced levels as inputs.
- TimerControl.Lockbox.ButtonStep: does not model the 32-bit signed overflow of `timer_minutes++` (line 134); the model's integers are unbounded. Reaching it takes billions of presses.
- TimerControl.Lockbox.ServoStep: does not model the 32-bit signed overflow of `timer_minutes * 60` (lines 98 and 111), which needs a duration above 35791394 minutes.
- TimerControl.PercentRemaining: does not model the 32-bit signed overflow of `remaining_time * 100` (line 111), which needs a duration above 357913 minutes.
- LcdDisplay.ScrollText: the source loops until a raw pin reads pressed. The model takes the outcomes of those polls as a finite sequence and also stops when the sequence runs out. It requires a non-empty text, since an empty text would divide by zero at line 74; the source only ever passes a fixed non-empty text.
- TimerControl.ServoTransition: the marquee started on expiry is recorded as one `ScrollMarquee` effect; its frames are those of `LcdDisplay.ScrollText`.
