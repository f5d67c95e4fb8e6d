# gamepad-bridge in Dafny

gamepad-bridge runs on a single-board computer. It reads a PlayStation
controller over Bluetooth and presents itself to a host computer as a USB
gamepad. This project models the deterministic core of that pipeline and
proves properties of the model:

- **PS5 input decoding** (`Ps5Input`, `ps5_input.dfy`). A DualSense Bluetooth
  input report is decoded into the `UniversalGamepad` record
  (`universal_gamepad.dfy`):
  - sticks and triggers are copied bytes;
  - face buttons are bits of byte 9 and the D-pad is its low nibble;
  - the remaining buttons are exact-equality codes in bytes 10 and 11. A
    byte 10 holding two buttons at once (3 for both bumpers, say) matches no
    code, so such a pad state decodes with none of them pressed.

  The module also defines the inverse encoder on the states a report can
  express. It proves the round trip both ways. Decode∘encode is the identity.
  Encode∘decode, writing into the report itself with byte 8 zeroed, gives
  `input[8 := 0]` back exactly on canonical reports. Bytes 0-1 and 12 onwards
  are then taken over from that frame unchanged, and byte 8 is never read.
- **Input device search and dispatch** (`HidapiGamepad`, `hidapi_gamepad.dfy`).
  The search keeps the Bluetooth devices of the hidapi device list, opens the
  first DualSense among them, and otherwise returns `NoBTDevice`,
  `NoSupportedDevice` or `OpenFailed`. `ProcessInput` dispatches a report on
  the gamepad model.
- **Output gamepad selection** (`OutputSelection`, `output_selection.dfy`).
  It does a first-match search over the output-gamepad table, driven by
  substring containment of the command-line argument. An unsupported match
  is skipped.
- **Interval writer** (`IntervalWriter`, `interval_writer.dfy`). This is the
  integer state machine (`interval_counts_before`, `code_ran`, the report
  buffer) that decides when the gadget report is recomputed and when it is
  written, pass by pass.
- **Controller slots** (`ControllerSlots`, `controller_slots.dfy`). These are
  the two-slot thread bookkeeping of the standard-library prototype and its
  "still scanning" dot animation.

`common.dfy` holds the fixed-width types (`u8` as `bv8`, `u16`) and the
`Option`/`Result` wrappers.

The fields of `UniversalGamepad` are the ones the PS5 decoder assigns
(src/hidapi_fn.rs:150-214), whose record type comes from `crate::hidapi_gamepad`.
src/usb_gamepad.rs, through its codec function pointers and its debug printer,
uses a `UniversalGamepad` from `crate::universal_gamepad` with a different
layout; the files defining either struct are not part of this model.

## Model

| member | source | states |
|---|---|---|
| `Ps5Input.DecodeMainButtons` | src/hidapi_fn.rs:185-190 | Triangle, circle, cross and square are bits 7, 6, 5 and 4 of byte 9, stated as arithmetic: bit k is set when the byte modulo 2^(k+1) is at least 2^k. |
| `Ps5Input.DPadNibble` | src/hidapi_fn.rs:151 | The D-pad value is the low nibble of byte 9: byte 9 modulo 16, so always below 16. |
| `Ps5Input.DecodeDPad` | src/hidapi_fn.rs:191-196 | The D-pad decoding agrees with the HID hat-switch convention: 0 is up, each step turns 45 degrees clockwise, and 8 or more is centered. Opposite directions are never both pressed, at most two directions are pressed, and a nibble of 8 or more releases all four. |
| `Ps5Input.EncodeDPad` | src/hidapi_fn.rs:191-196 | Every physically possible D-pad state (no opposite pair) is the decoding of some nibble from 0 to 8. |
| `Ps5Input.DPadNibbleRoundTrip` | src/hidapi_fn.rs:191-196 | The nine nibble values 0..8 decode to nine different states, and encoding gives the nibble back. |
| `Ps5Input.EncodeByte9` | src/hidapi_fn.rs:185-196 | Any four face-button states and any nibble can be put into one byte 9 that decodes back to exactly those buttons and that nibble. |
| `Ps5Input.Byte9RoundTrip` | src/hidapi_fn.rs:185-196 | Byte 9 is determined entirely by its decoded face buttons (bits 7 to 4) and its D-pad nibble. |
| `Ps5Input.MainButtonsIgnoreDPadNibble` | src/hidapi_fn.rs:185-190 | Two bytes 9 with the same high nibble decode to the same face buttons, so a D-pad change never changes a face button. |
| `Ps5Input.DecodePs5` | src/hidapi_fn.rs:150-214 | The decoded state is always one a report can express: physical D-pad, at most one byte-10 button, not both logo and touchpad. Sticks are bytes 2-5 and triggers bytes 6-7. The D-pad is the hat reading of the byte-9 nibble, and the face buttons are the decoding of byte 9. A byte 10 that holds none of the six codes 1, 2, 16, 32, 64, 128 leaves all six of its buttons released. A byte 11 of 1 is logo alone and 2 is touchpad alone, on every report; any other byte 11 leaves touchpad and logo released. |
| `Ps5Input.EncodePs5` | src/hidapi_fn.rs:153-214 | Every state that a report can express is decoded from some report. Writing it into bytes 2-11 of any frame, leaving the other bytes alone, decodes back to that state. |
| `Ps5Input.Byte9ReEncodes` | src/hidapi_fn.rs:185-196 | Decoding and re-encoding byte 9 gives it back exactly when its nibble is at most 8. |
| `Ps5Input.Byte10ReEncodes` | src/hidapi_fn.rs:157-209 | Decoding and re-encoding byte 10 gives it back exactly when it is 0 or one of the codes 1, 2, 16, 32, 64, 128. |
| `Ps5Input.Byte11ReEncodes` | src/hidapi_fn.rs:197-214 | Decoding and re-encoding byte 11 gives it back exactly when it is 0, 1 (logo) or 2 (touchpad). |
| `Ps5Input.CanonicalReportRoundTrip` | src/hidapi_fn.rs:150-214 | Re-encoding a decoded canonical report, with the ignored byte 8 zeroed, reproduces it. Canonical means: nibble at most 8, byte 10 one of the seven codes, byte 11 one of 0, 1, 2. |
| `Ps5Input.RoundTripOnlyIfCanonical` | src/hidapi_fn.rs:150-214 | Conversely, a report that decoding and re-encoding reproduces is canonical. Every other report loses information in decoding. |
| `Ps5Input.DecodeReadsOnlyPayload` | src/hidapi_fn.rs:150-214 | Two reports that agree on bytes 2-7 and 9-11 decode to the same state, whatever their other bytes. |
| `Ps5Input.BothBumpersReadAsReleased` | src/hidapi_fn.rs:175-184 | A byte 10 of 3, both bumper bits set, decodes with neither bumper pressed. |
| `HidapiGamepad.BluetoothOnly` | src/hidapi_fn.rs:70-86 | The filtered list holds exactly the Bluetooth devices of the device list and is no longer than it. |
| `HidapiGamepad.BluetoothOnlySnoc` | src/hidapi_fn.rs:70-86 | The filter keeps list order: appending a device to the list appends it to the filtered list if it is a Bluetooth device. |
| `HidapiGamepad.GetBluetoothHidDevices` | src/hidapi_fn.rs:65-94 | The result fails exactly when no device is on Bluetooth. Otherwise it is the non-empty list of the Bluetooth devices, in list order. |
| `HidapiGamepad.GetHidGamepad` | src/hidapi_fn.rs:24-61 | The result is `NoBTDevice` iff no Bluetooth device is present. It is `NoSupportedDevice` iff Bluetooth devices exist but none has vid 0x054c and pid 0x0ce6. It is `OpenFailed` iff such a device exists and opening fails. It succeeds iff such a device exists and opening succeeds, and the model is then PS5, never PS4. `open` is called once, and only when such a device exists. The devices passed over are the Bluetooth devices before the first DualSense, or all of them when nothing was found. |
| `HidapiGamepad.ProcessInput` | src/hidapi_fn.rs:97-105 | With PS4 the output record is unchanged. With PS5 it becomes the PS5 decoding of the report. |
| `HidapiGamepad.ProcessInputForgetsPriorOutput` | src/hidapi_fn.rs:153-214 | The PS5 decoder assigns every field, so the result does not depend on what the output record held before. |
| `OutputSelection.FirstSelectable` | src/usb_gamepad.rs:50-62 | The search returns the first table index, from a start position, whose gamepad is supported and has an associated argument contained in the given argument. If it returns none, no such gamepad exists. |
| `OutputSelection.SkippedBelow` | src/usb_gamepad.rs:56-58 | The gamepads reported as "not yet supported" are exactly those that match but are unsupported. |
| `OutputSelection.FromCmdlineArgs` | src/usb_gamepad.rs:39-66 | An argument count other than 2 always ends in exit. With one argument, the result is the first supported matching gamepad. A matching unsupported gamepad is skipped and later gamepads are still tried. With no supported match the process exits. The skipped gamepads before the stopping point are reported. |
| `IntervalWriter.IntervalPosition` | src/usb_gamepad.rs:144-148 | The interval index and the offset recombine to the elapsed time, and the offset is below the interval length. |
| `IntervalWriter.Tick` | src/usb_gamepad.rs:133-170 | In one pass, the recorded interval index never decreases. The report is computed first in the pass exactly when it has not been computed since the last write. A write happens exactly when the elapsed time is in an interval later than the last write's and the closeness test holds. It is for that interval and records it. It sends the report computed since the last write, or the one computed in this pass when there was none. Without a write, only `code_ran`, which becomes true, and the computed report change. |
| `IntervalWriter.AppendComputed` | src/usb_gamepad.rs:134-139 | Computing the report when it has not been computed keeps the state consistent with the actions taken so far. |
| `IntervalWriter.AppendWrote` | src/usb_gamepad.rs:153-170 | Writing for a later interval, then clearing the buffer and `code_ran`, keeps the state consistent with the actions taken so far. |
| `IntervalWriter.TickPreservesConsistency` | src/usb_gamepad.rs:133-170 | Every pass preserves the consistency of writer state and trace. Computations and writes alternate, each write sends the report computed just before it, write indices strictly increase, and the cleared buffer is never written. |
| `IntervalWriter.Run` | src/usb_gamepad.rs:128-173 | Reference definition of a run: the passes over the samples one after the other. The recorded interval index never decreases, and a run takes at most two actions per pass. |
| `IntervalWriter.RunConsistent` | src/usb_gamepad.rs:128-173 | Every run from the initial state keeps the state consistent with its actions: computations and writes alternate, each write sends the report computed just before it, and write indices strictly increase from 1. |
| `IntervalWriter.WriteToGadgetIntervalic` | src/usb_gamepad.rs:116-174 | The loop runs exactly as long as the stop channel is empty. It stops at the first stop message or disconnection. Its actions are exactly those of the reference run over the passes it made. Over the whole run the report is recomputed at most once between writes, each write sends the latest computed report, there is at most one write per interval index, and interval 0 is never written. |
| `ControllerSlots.CreateNewThread` | archive/with_std/src/main.rs:67-83 | Afterwards the controller has a thread. An existing handle is kept and no token is used. Otherwise a new handle gets the next token, and its worker copy has the controller's path and mac. |
| `ControllerSlots.CreateInSlot` | archive/with_std/src/main.rs:57-64 | An empty slot stays empty and uses no token. An occupied slot keeps its controller and ends with a thread. An existing handle is kept; otherwise the new handle gets the next token and works on that controller. |
| `ControllerSlots.HandleThreads` | archive/with_std/src/main.rs:52-65 | Afterwards every occupied slot has a thread. Empty slots stay empty and occupied ones keep their controller. Existing handles are never replaced. New threads work on their own slot's controller and get distinct tokens. |
| `ControllerSlots.HandleThreadsIdempotent` | archive/with_std/src/main.rs:55-83 | A second call changes nothing and spawns no thread. |
| `ControllerSlots.LoadingStep` | archive/with_std/src/main.rs:94-97 | One refresh yields a prefix of the string plus a dot. A length n up to 10 becomes (n + 1) mod 11. |
| `ControllerSlots.LoadingCycles` | archive/with_std/src/main.rs:94-97 | Starting from the empty string, after n refreshes the indicator is n mod 11 dots. So it stays within 0..10 and consists of dots only. |

## Left out

- Device I/O: opening and writing `/dev/hidg0` (src/usb_gamepad.rs:96-104, 156-164), hidapi's `device_list` and `open`. The device list is an input sequence and `open` is an oracle from (vendor id, product id) to an optional handle. Note that `open` receives only the vendor and product id, not the Bluetooth device entry that was found; which physical device hidapi then opens is hidapi's behaviour and not part of this model.
- Terminal output: `_output_gamepad_btns`, `debug_output_bt_input`, the byte dump of `_process_input_unknown` and the printing in `output_info` and `_display_supported_gamepads`. Only the observable data of such output is kept: the passed-over devices of `GetHidGamepad` and the skipped gamepads of `FromCmdlineArgs`.
- `HID_ARRAY_SIZE` is defined in a file that is not part of this model; reports are sequences of at least the 12 bytes the decoder reads.
- The contents of `OUTPUT_GAMEPADS` (`DUALSENSE`, `DUALSHOCK`), their USB gadget descriptors, report sizes and the per-model codec function pointers live in files that are not part of this model. The table is a parameter, and the report the interval writer computes is an input of each pass.
- The report-length assertion of `universal_gamepad_to_usb_output` (src/usb_gamepad.rs:216) concerns code in files that are not part of this model.
- `write_to_gadget_continously` depends on the channel length seen under concurrency. It is left out; its drain loop also discards the messages yet still writes the older current one.
- The floating-point closeness test `is_close_enough` (src/usb_gamepad.rs:151) is an uninterpreted boolean of each pass. Clock readings are the elapsed nanoseconds of each pass, and the 1 ns sleep is not modelled.
- IntervalWriter.WriteToGadgetIntervalic: 128-bit overflow of the nanosecond counters is not modelled (2^128 ns is far beyond any run). A zero interval, on which the source's division panics, is excluded by a precondition. The run is observed over the finite sequence of passes given.
- Thread spawning, sleeping and `read_controller_input` are not modelled: a spawned thread is an abstract handle with a token from a counter. `get_and_insert_controllers` (the prototype's controller discovery) is in a file that is not part of this model.
- ControllerSlots.LoadingStep: the source's `String::len` counts UTF-8 bytes, and the model counts characters. The two agree on the indicator, which only ever holds dots.
- The resident-memory computation of `output_info` (floating point) and the Bluetooth scanning of `gamepad-bridge/src/bluetooth_fn.rs` and `gamepad-bridge/src/main.rs` are I/O orchestration and are not modelled.
- Rust's `str::contains` works on UTF-8 bytes, and `OutputSelection.Contains` works on characters. For valid strings, a byte-level match of a whole pattern is the same as a character-level match.
