# Pico D-pad controller: a verified model of the gamepad firmware core

The firmware turns a Raspberry Pi Pico into a USB HID gamepad. Fifteen push
buttons sit on GPIO pins 5 to 19, wired active-low with pull-ups. On each
poll the firmware packs the pin levels into a 15-bit button mask. If the
host is suspended and a button is pressed, it requests a remote wakeup
instead of sending anything. Otherwise, if the transport is ready, it
encodes the mask as a gamepad report with four zero axes, a hat switch and a
16-bit button field and hands the report to the USB stack, except for a
repeated idle report (see `has_gamepad_key` below). Two statics carry
over between calls. `start_ms` is the poll schedule: a call polls once the
millisecond clock is at least 5 past it, and each poll advances it by
exactly 5 (mod 2^32) rather than setting it to the clock, so after a stall,
including the first call after boot, it lags the clock and polls run back to
back until it catches up. `has_gamepad_key` records whether the last report
sent was for a pressed button, so that a run of idle polls sends at most one
idle report.

The model has five modules:

- `GamepadReport` (gamepad_report.dfy): the packed report struct, the hat
  and button codes it carries, and its 7-byte wire image with a reader for
  the host side.
- `ButtonSampler` (button_sampler.dfy): `getButtonsPressed`. The pin reads
  are injected as a function from pin number to level.
- `BitSelect` (bit_select.dfy): the general theory of "OR a single-bit
  constant into the field when a mask bit is set", applied line by line. It
  is proved once for any list of pairwise-distinct single-bit constants.
- `ReportEncoder` (report_encoder.dfy): the body of `send_hid_report`. It
  holds the eight-step hat overwrite chain, the eleven-line button map and
  the report for a mask.
- `Polling` (polling.dfy): `hid_task` and the state handling in
  `send_hid_report`. Each call is stated as a step function on the two
  statics, and a run is a sequence of calls. The class `HidState` holds the
  two statics as fields, with methods that update them in place. A ghost log
  records what the firmware handed to the USB stack: reports and
  remote-wakeup requests. The millisecond counter, `tud_suspended()` and
  `tud_hid_ready()` are method parameters.

Facts about the code worth stating up front:

- The comments above `hid_task` say 10 ms, but `interval_ms` is 5; the model
  uses 5.
- With Left and Right held and neither Up nor Down, the overwrite chain ends
  at RIGHT, not at a diagonal.
- Up and A held give the mask 0x14 (bits 2 and 4).

## Model

| member | source | states |
|---|---|---|
| ButtonSampler.GetButtonsPressed | main.c:77-93 | the mask has no bit above 14, and each of the fifteen bits (Left 0, Down 1, Up 2, Right 3, A 4, B 5, X 6, Y 7, Select 8, Start 9, Mode 10, R 11, ZR 12, L 13, ZL 14) is set exactly when its pin reads low |
| ButtonSampler.SampleLevelsFor | main.c:77-93 | every 15-bit mask is produced by some pin levels: sampling the levels that have exactly the mask's buttons low gives back the mask |
| ButtonSampler.SampleOfAgreeingLevels | main.c:77-93 | any pin levels with exactly the mask's buttons low are sampled as that mask |
| ButtonSampler.SampleReadsButtonPinsOnly | main.c:77-93 | the mask depends only on the fifteen button pins; two readings that agree on them give the same mask |
| ButtonSampler.MaskOfPin | main.c:37-54 | the mask bit wired to each pin lies within the fifteen button bits |
| GamepadReport.HatCodesDistinct | main.c:132-141 | the nine hat codes the chain can assign are pairwise distinct |
| GamepadReport.SplitJoin | main.c:63 | splitting the uint16 button field into its two bytes and joining them gives the field back |
| GamepadReport.JoinSplit | main.c:63 | joining two bytes into the uint16 button field and splitting it gives the bytes back |
| GamepadReport.Serialize | main.c:57-64 | the packed struct is 7 bytes: the four axes in order, then the hat, then the button field low byte first |
| GamepadReport.Deserialize | main.c:57-64 | reading 7 bytes back puts each byte into its field, with the button field from bytes 5 and 6 |
| GamepadReport.SerializeRoundTrip | main.c:57-64 | reading back a serialised report gives the same report |
| GamepadReport.DeserializeRoundTrip | main.c:57-64 | every 7-byte image is the serialisation of the report read from it, so the layout has no padding or slack |
| BitSelect.DistinctSingleBitsDisjoint | main.c:144-156 | helper for the button map proofs: two different single-bit codes share no bit |
| BitSelect.OrFirstBit | main.c:144-156 | after the first n OR lines, the output bit of line j is set exactly when j < n and line j fired |
| BitSelect.OrFirstOnlyMapped | main.c:144-156 | the OR lines never set a bit outside the codes they OR in |
| BitSelect.OrFirstNoneFiring | main.c:144-156 | when no line fires, the field stays at its initial 0 |
| BitSelect.OrFirstSingle | main.c:144-156 | when exactly one line fires, the field is exactly that line's code |
| BitSelect.SameUnderMask | main.c:132-156 | helper for the hat and button dependency proofs: masks that agree on a set of bits agree on every test of a bit inside that set |
| ReportEncoder.DirectionIndex | main.c:132-141 | the four direction bits index one of sixteen combinations |
| ReportEncoder.HatOf | main.c:132-141 | the overwrite chain gives, for each of the sixteen direction combinations, the hat in an independent table |
| ReportEncoder.HatCenteredIffNoDirection | main.c:127-141 | the hat stays at its initial 0 (CENTERED) exactly when no direction bit is set |
| ReportEncoder.HatSingleDirection | main.c:132-135 | a single direction bit gives that cardinal direction |
| ReportEncoder.HatDiagonal | main.c:138-141 | two adjacent direction bits alone give the diagonal between them |
| ReportEncoder.HatOverwriteOrder | main.c:132-141 | later assignments win: Left+Up+Right is UP_RIGHT, Left+Right is RIGHT, Up+Down is UP, Left+Right+Down is DOWN_RIGHT, all four are UP_RIGHT |
| ReportEncoder.HatReadsDirectionBitsOnly | main.c:132-141 | the hat depends only on mask bits 0 to 3 |
| ReportEncoder.ButtonMapDistinct | main.c:144-156 | the eleven button codes of the map are pairwise-distinct single bits |
| ReportEncoder.ButtonMapReadsFaceBits | main.c:144-156 | every mask bit the button map tests is one of bits 4 to 14 |
| ReportEncoder.ButtonsOf | main.c:144-156 | each of the eleven button bits is set exactly when its source mask bit is set, and no other bit of the field is ever set |
| ReportEncoder.FiringReadsFaceBitsOnly | main.c:144-156 | masks that agree on bits 4 to 14 fire the same OR lines |
| ReportEncoder.ButtonsReadFaceBitsOnly | main.c:144-156 | the button field depends only on mask bits 4 to 14 |
| ReportEncoder.ButtonsNonzeroIffFacePressed | main.c:144-156 | the button field is nonzero exactly when one of bits 4 to 14 is set |
| ReportEncoder.FacePressedEntry | main.c:144-156 | when a bit of 4 to 14 is set, some line of the map fires |
| ReportEncoder.BuildReport | main.c:125-163 | the axes are always 0, and for every mask, zero or not, the report carries the hat chain's and the button map's result for it |
| ReportEncoder.BuildReportIdleIff | main.c:125-163 | the report built is the idle report exactly when no button bit of the mask is set |
| ReportEncoder.UpAndAReport | main.c:77-156 | with only the Up and A pins reading low, the sampled mask is 0x14, and its report has hat UP, only the A button and zero axes |
| ReportEncoder.UpAndAButtons | main.c:144-156 | Up and A held give the button field with only the A bit |
| Polling.Sub | main.c:177 | the elapsed time is the uint32 difference, modulo 2^32 |
| Polling.Add | main.c:178 | `start_ms` advances with uint32 addition, modulo 2^32 |
| Polling.ElapsedAcrossWrap | main.c:177-178 | the unsigned difference measures the time since `start_ms` even across a wrap of the counter |
| Polling.SendHidReportStep | main.c:117-166 | not ready: nothing sent and both statics unchanged; ready with a nonzero mask: exactly its report sent and the flag set; ready with a zero mask: the idle report sent only if the flag was set, and the flag cleared; `start_ms` never changes |
| Polling.HidTaskStep | main.c:171-193 | before the interval passes nothing changes and nothing is sent; otherwise `start_ms` advances by exactly 5 mod 2^32, a pressed button while suspended requests a wakeup with no report and the flag unchanged, and in every other case the call is `send_hid_report`; at most one effect per call |
| Polling.LastSentPressedAppend | main.c:157-165 | a wakeup or nothing leaves "the last report was for a pressed button" as it was, and a new report decides it |
| Polling.StepKeepsFlagMeaning | main.c:157-193 | one call keeps `has_gamepad_key` equal to "the last report sent was for a pressed button" |
| Polling.FlagMeaningFromBoot | main.c:123-193 | after any sequence of calls from boot, `has_gamepad_key` is true exactly when the last report sent was not the idle report |
| Polling.IdleRunSendsAtMostOne | main.c:160-166 | calls that all see a zero mask send at most one report, the idle one, and no wakeup; none if the flag was clear |
| Polling.IdleFromBootSendsNothing | main.c:123-166 | if no button is pressed since boot, nothing is ever sent |
| Polling.RunSnoc | main.c:171-193 | one more call appends that call's effects to the run's effects |
| Polling.RunTwo | main.c:171-193 | two calls send the first call's effects, then the second's |
| Polling.PressStep | main.c:130-159 | a due, awake, ready call with a button pressed sends that mask's report and sets the flag |
| Polling.ReleaseStep | main.c:160-165 | a due, ready call with nothing pressed after a press sends the idle report |
| Polling.PressThenRelease | main.c:130-166 | a press then a release on due, ready calls sends exactly two reports: the press's report, then the idle report |
| Polling.HidState.constructor | main.c:123-175 | both statics start as the firmware starts them (`start_ms` 0, flag false), with nothing sent |
| Polling.HidState.SendHidReport | main.c:117-166 | updates the flag and logs the sent report exactly as `SendHidReportStep` says, and for a mask with no bit above 14 keeps `has_gamepad_key` equal to "the last report sent was for a pressed button" |
| Polling.HidState.HidTask | main.c:171-193 | samples the pins, updates both statics and logs the effects exactly as `HidTaskStep` says for that mask, and keeps `has_gamepad_key` equal to "the last report sent was for a pressed button" |

## Left out

- `setupButtons` (main.c:69-75) and `main` with its endless loop (main.c:96-110): hardware bring-up and the scheduler loop, with nothing to state beyond the calls they make.
- `tud_task` and `led_blinking_task`: USB stack and LED code defined outside main.c; neither is part of this model.
- `tud_hid_report_complete_cb` (main.c:198-203): an empty callback.
- `gpio_get`, `board_millis`, `tud_suspended`, `tud_hid_ready`: foreign calls, taken as parameters. `tud_hid_report` and `tud_remote_wakeup` are entries of the ghost effect log. USB transfer, its return value and descriptor negotiation are not modelled.
- The report id `REPORT_ID_GAMEPAD`: a constant passed through to the stack; the log records the report only.
- The `GAMEPAD_HAT_*` and `GAMEPAD_BUTTON_*` values come from TinyUSB's hid.h, which is not part of this model. The model uses TinyUSB's published values. Every button proof rests only on their being pairwise-distinct single bits, and every hat proof on the nine hats being distinct and on CENTERED being 0, the value the chain starts from.
- GamepadReport.Report: the int8_t axes are held as their two's-complement bytes, not as signed integers; every axis in the firmware is 0.
- GamepadReport.Serialize: the little-endian byte order of the button field is an assumption about the target; the C struct does not fix it.
- Polling.FlagMeaningFromBoot: stated for masks with no bit above 14, the only masks `getButtonsPressed` produces. `send_hid_report` itself accepts any uint32, and a mask with only higher bits would send the idle report yet set the flag.
- Polling.HidState: the statics are fields of one object rather than function-local statics; the firmware has exactly one.
