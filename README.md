# Gamepad-to-radio frame encoder (Red Robot 2023 controller interface)

This project models the core of the two controller scripts of the Red Robot
2023 hackathon: they read a Logitech F310 gamepad, reduce it to six state
bytes and send them to an NRF24L01+ USB radio as a 15-byte frame,

    nonce (4 bytes) | left_x left_y right_x right_y buttons1 buttons2 | nonce again | checksum

where the checksum is the sum of the first 14 bytes mod 256.

- `wire.dfy` (module `Wire`): the byte type, the six-value `State`, the
  frame encoder `Encode` and the imperative `PackFrame` that builds it as the
  scripts do (concatenate, then append the running sum mod 256). A receiver-side
  `Decode` serves as the encoder's inverse: the round trip holds both ways, and
  any single corrupted byte is rejected. It also has the pygame nonce,
  `randrange(0, 2**32).to_bytes(4, 'little')`, with its inverse.
- `schedule.dfy` (module `Schedule`): the time gate `t - last_t >= interval`
  that both loops use, with `last_t` moved to the emitting instant. Write `t0`
  for the starting `last_t`. Over any sequence of iteration times, frames are
  at least one interval apart, and `last_t` ends at the last emission. When
  every iteration happens by `t_end`, at most `(t_end - t0) / interval` frames
  go out. When the first poll comes within `d` of `t0`, polls are at most `d`
  apart and the last poll is no earlier than `t_end - d`, more than
  `(t_end - t0) / (interval + d) - 1` go out.
- `pygame.dfy` (module `PygameSampler`): the hat table, the MSB-first button
  packing into `buttons1`/`buttons2`, and the loop state as a class whose
  `Tick` is one iteration. In this script the joystick is read only when a
  frame is due.
- `hid.dfy` (module `HidSampler`): the 8-byte report parser with vertical axis
  inversion `255 - v` and carry-forward on empty reads. The loop state is a
  class whose `Tick` parses the report on every iteration and then applies the
  0.03 s gate.
- `wrappers.dfy`: `Option` and `Result`.

Time is a `real` parameter, the nonce is a parameter, and the joystick readings
are parameters (`Reading` for pygame, a byte sequence for an HID report).

Only the HID loop can send its initial state (127, 127, 127, 127, 0, 0): it
does so when a frame falls due before the device's first report. The pygame
loop samples the joystick right before building every frame, so its initial
values never go out. The pygame loop sends `buttons1 = 0` only for a real
reading with no button pressed and the hat pointing up or outside the table
(`ZeroButtons1`); an idle pygame controller reads as buttons1 = 8, the neutral
hat code (`IdleSample`).

The pygame nonce goes out least significant byte first (`to_bytes(4,
'little')`): `ExampleFrame` shows the value 0x04030201 written as the bytes
01 02 03 04.

## Model

| member | source | states |
|---|---|---|
| Wire.Payload | Controller-Interface/controller_pygame.py:84-89 | the six payload bytes are the state's fields in the order left_x, left_y, right_x, right_y, buttons1, buttons2, and they determine the state |
| Wire.Sum | Controller-Interface/controller_pygame.py:90 | `sum` of a byte string is between 0 and 255 times its length |
| Wire.Checksum | Controller-Interface/controller_pygame.py:90 | the checksum is the byte congruent to the sum mod 256 |
| Wire.Encode | Controller-Interface/controller_pygame.py:89-90 | the frame is 15 bytes: nonce at 0..3 and again at 10..13, the state in the order left_x, left_y, right_x, right_y, buttons1, buttons2 at 4..9, and byte 14 is the sum of bytes 0..13 mod 256 |
| Wire.PackFrame | Controller-Interface/controller_hid.py:70-71 | concatenating nonce, state and nonce, then appending the sum of the bytes so far mod 256 (the sum computed by a loop), yields exactly the encoded frame |
| Wire.DecodeEncode | Controller-Interface/controller_pygame.py:89-90 | every encoded frame passes the length, nonce-copy and checksum checks and gives back its nonce and state |
| Wire.EncodeDecode | Controller-Interface/controller_hid.py:70-71 | every 15-byte string with matching nonce copies and checksum is the encoding of the nonce and state it carries |
| Wire.SumUpdate | Controller-Interface/controller_pygame.py:90 | replacing one byte changes the sum by the difference between the new and old byte |
| Wire.SingleByteErrorDetected | Controller-Interface/controller_pygame.py:90 | changing any single byte of a valid frame makes it invalid: a nonce byte breaks the nonce copy, a state byte or the checksum byte breaks the checksum |
| Wire.NonceBytes | Controller-Interface/controller_pygame.py:87 | `to_bytes(4, 'little')` of a value below 2^32 is four bytes |
| Wire.NonceValueBytes | Controller-Interface/controller_pygame.py:87 | the four little-endian bytes of a value in [0, 2^32) read back as that value |
| Wire.NonceBytesValue | Controller-Interface/controller_pygame.py:87 | every four-byte nonce is the little-endian encoding of exactly one value in [0, 2^32) |
| Wire.ExampleSum | Controller-Interface/controller_pygame.py:90 | the 14 bytes 01 02 03 04 C8 32 1E DC A0 06 01 02 03 04 add up to 686 |
| Wire.ExampleFrame | Controller-Interface/controller_pygame.py:87-90 | `to_bytes(4, 'little')` of 0x04030201 is 01 02 03 04 (least significant byte first), and state [200,50,30,220,160,6] with that nonce gives the frame ending in checksum 686 mod 256 = 174 |
| Schedule.Due | Controller-Interface/controller_hid.py:65 | the gate: a frame is due when at least `interval` has passed since `last_t` |
| Schedule.NextLastT | Controller-Interface/controller_pygame.py:62-86 | when `t - last_t >= interval` the new `last_t` is `t`; otherwise it stays as it was |
| Schedule.LastT | Controller-Interface/controller_hid.py:65-68 | after any number of iterations `last_t` is either its starting value or one of the iteration times |
| Schedule.EmitTimes | Controller-Interface/controller_hid.py:56-68 | a run of iterations sends at most one frame per iteration |
| Schedule.TimesIsProduct | Controller-Interface/controller_pygame.py:62 | n repeated additions of g equal n * g, so the `Times` bounds below are products |
| Schedule.EmitTimesAreTicks | Controller-Interface/controller_pygame.py:58-62 | every frame instant is one of the iteration times |
| Schedule.EmitTimesApart | Controller-Interface/controller_pygame.py:62 | the first frame comes at least one interval after the starting `last_t`, and consecutive frames are at least one interval apart |
| Schedule.EmitTimesAfterStart | Controller-Interface/controller_hid.py:65-68 | the k-th frame (from 0) is at least k+1 intervals (`Times(k + 1, interval)`) after the starting `last_t` |
| Schedule.FrameCountBound | Controller-Interface/controller_hid.py:55-68 | over iterations all at or before t_end, n frames take at least n intervals: `Times(n, interval)` is at most t_end minus the starting `last_t` |
| Schedule.PollGapBound | Controller-Interface/controller_pygame.py:58-86 | when the loop polls at least every d seconds, the last poll is less than `interval` plus `interval + d` per frame sent after the starting `last_t`: each frame goes out at most one poll gap after it falls due |
| Schedule.FrameCountLowerBound | Controller-Interface/controller_hid.py:55-68 | when the first poll is within d of the start, polls are at most d apart and the last is no earlier than t_end - d, the n frames sent satisfy `Times(n, interval + d)` > t_end - `last_t` - (interval + d): at least about one frame per interval plus one poll gap |
| Schedule.LastTIsLastEmit | Controller-Interface/controller_pygame.py:86 | after any iterations `last_t` is the time of the last frame sent, or its starting value if none was sent |
| PygameSampler.HatCode | Controller-Interface/controller_pygame.py:13 | a hat reading has a code exactly when both components are in {-1,0,1}; every code is at most 8; code 8 is exactly the centred hat (0,0) |
| PygameSampler.HatTableBijective | Controller-Interface/controller_pygame.py:13 | no two hat directions share a code, and the codes are exactly 0..8 |
| PygameSampler.HatCompass | Controller-Interface/controller_pygame.py:13 | up, up-right, right, down-right, down, down-left, left, up-left map to 0..7 |
| PygameSampler.Buttons1 | Controller-Interface/controller_pygame.py:67-75 | bits 7..4 are buttons 3, 1, 0, 2; the low nibble is the hat code, or 0 when the hat reading is not in the table (the lookup failure is swallowed) |
| PygameSampler.Buttons2 | Controller-Interface/controller_pygame.py:77-82 | bits 7..4 are buttons 9, 8, 7, 6, bits 3..2 are clear, bits 1..0 are buttons 5, 4 |
| PygameSampler.Sample | Controller-Interface/controller_pygame.py:63-84 | the state keeps the four scaled axes in order; buttons1 / 16 is the button nibble and buttons1 % 16 is the hat code or 0; buttons2 is the packed byte whose bits `Buttons2` fixes |
| PygameSampler.IdleSample | Controller-Interface/controller_pygame.py:67-82 | with no button pressed and the hat centred, buttons1 is 8 and buttons2 is 0 |
| PygameSampler.ZeroButtons1 | Controller-Interface/controller_pygame.py:13-75 | with no button pressed, buttons1 is 0 exactly when the hat points up (code 0) or its reading is not in the table, where the failed lookup adds nothing |
| PygameSampler.PygameLoop.constructor | Controller-Interface/controller_pygame.py:55-57 | the loop starts from state (127,127,127,127,0,0) and `last_t` = the start time |
| PygameSampler.PygameLoop.Tick | Controller-Interface/controller_pygame.py:58-91 | a frame is returned exactly when `t - last_t >= 0.1`; then the state is sampled from the reading, `last_t` becomes `t` and the frame encodes the new state with the little-endian nonce; otherwise state and `last_t` are unchanged |
| HidSampler.Invert | Controller-Interface/controller_hid.py:61-62 | the inverted axis and the raw axis add up to 255, so the result stays in [0,255] |
| HidSampler.InvertInvolution | Controller-Interface/controller_hid.py:61-62 | inverting twice gives the original value |
| HidSampler.ParseReport | Controller-Interface/controller_hid.py:57-62 | an empty report leaves the state as it was; an 8-byte report yields the state whose report form (vertical axes inverted back, same padding) is that report; any other non-empty length is an unpack error |
| HidSampler.ParseToReport | Controller-Interface/controller_hid.py:59-62 | parsing the report of a state gives that state, whatever the previous state and padding |
| HidSampler.PaddingIgnored | Controller-Interface/controller_hid.py:59 | two 8-byte reports that agree on bytes 0..5 give the same state, whatever the previous state |
| HidSampler.ApplyReports | Controller-Interface/controller_hid.py:56-62 | reading a run of reports fails exactly when one of them is neither empty nor 8 bytes |
| HidSampler.LatestReportWins | Controller-Interface/controller_hid.py:56-62 | after well-formed reports, a full report and then any number of empty reads, the state is the one that full report gives |
| HidSampler.NoReportsKeepState | Controller-Interface/controller_hid.py:57-58 | empty reads leave the state exactly as it was |
| HidSampler.HidLoop.constructor | Controller-Interface/controller_hid.py:53-55 | the loop starts from state (127,127,127,127,0,0) and `last_t` = the start time |
| HidSampler.HidLoop.Tick | Controller-Interface/controller_hid.py:56-72 | a malformed report is an error and changes nothing; otherwise the state becomes the parsed report, and a frame of that state with the given nonce is returned exactly when `t - last_t >= 0.03`, which also moves `last_t` to `t` |

## Left out

- Serial port discovery and opening (`find_serial_port`), and the radio write: operating-system and pyserial I/O.
- Joystick discovery (`find_joystick`), `pygame.event.get` and `joystick.read`: the readings are parameters.
- Axis scaling `int(255 * ((a + 1.0) / 2.0))` and its vertical counterpart: floating-point arithmetic. `Reading` carries the four axes already scaled to bytes.
- `random.randrange`, `random.randbytes` and `time.time()`: the nonce and the time are parameters.
- Floating-point rounding in `t - last_t >= interval`: times are exact reals.
- The unbounded `while True` loop: each class's `Tick` is one iteration. `Schedule` and `HidSampler.ApplyReports` follow finite sequences of iterations.
- `print` and `sys.exit`: output and process exit.
- PygameSampler.Sample: requires at least ten buttons, because `get_button` on a missing button raises and the script does not handle it. Buttons are booleans, as pygame reports them as 0 or 1.
