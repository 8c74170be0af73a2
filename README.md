# Unit8 Angle and Unit8 Encoder drivers: register framing

This project models the register-framing layer of two CircuitPython I2C drivers for
M5Stack's eight-channel units:

- `Unit8Angle`, for the potentiometer board. It has a precision mode of 8 or 12 bits.
  It reads one channel or all eight in raw 12-bit, raw 8-bit or rescaled 16-bit form.
  It also reads the switch and sets or reads nine RGB LEDs.
- `Unit8Encoder`, for the rotary-encoder board. It reads signed 32-bit positions and
  "increments", resets the counters, reads the buttons and the switch, and sets or reads
  eight RGB LEDs.
- Each driver's `_U8_Pixels._transmit` hook, through which the pixel buffer reaches
  `_set_leds`.

Each driver is a class whose scratch octets are arrays updated in place, as in the
driver:

- a one-octet `register`;
- a `buffer` of 16 octets (angle) or 32 octets (encoder).

Both are `const` arrays, so their lengths never change.

The bus is an `I2CDevice` object. It records every event in a ghost trace:

- acquire and release (the `with` block);
- each write frame;
- each read with the octets that arrived;
- each `time.sleep`.

The device's replies are arbitrary. A read stores whatever octets arrive, and each
method's contract ties its result to the octets the trace shows.

Every method's contract states three things:

- its error cases, raised before any bus event and with nothing changed;
- the exact events it issues;
- the octets its arrays hold afterwards.

A second, independent view of the LED writes models the peripheral's register file: a
write frame selects a register with its first octet and stores the others from there
on. Lemmas over that view prove what the LED registers hold after `_set_leds` and
`fill`. For the encoder they also prove that the single bulk frame of `_set_leds`
leaves the registers exactly as eight `set_led` calls do.

Files:

- `errors.dfy` holds the exceptions and the result shapes.
- `bytes.dfy` holds the little-endian codecs behind `struct.unpack`, with their
  round trips.
- `colors.dfy` holds the colour argument of `set_led`.
- `i2c.dfy` holds the bus trace, the multi-channel scan and the register-file view.
- `angle.dfy` and `encoder.dfy` hold the two drivers.

Facts about the code that the contracts pin down:

- The encoder's buttons are not inverted. Button b reads true exactly when its octet
  is non-zero (m5stack_unit8/encoder.py:99).
- Out-of-range channels, positions and brightness raise `ValueError`.
- `read_increment` and `read_increments` select register `4 * num`, which is channel
  `num`'s position register. The increment base 0x20 is declared but never used
  (m5stack_unit8/encoder.py:17, 69, 79).
- A 12-bit reading of 256 rescales to 4096 by floor division (`Angle.Normalize12BitsExample`).
- The angle's `_set_leds` writes six-octet frames, one per LED
  (m5stack_unit8/angle.py:189):
  - The sixth octet is `buffer[5]`, which the method never assigns.
  - The driver only sends that octet; where it lands is up to the firmware. If the
    peripheral auto-increments its register pointer, as the register-file view
    (`I2C.Store`) assumes, each sixth octet lands in the first register of the next
    LED's record, where the next frame overwrites it. The last one then lands at
    register 0x54, one past the ninth record (`Angle.CommitEffectUpTo`).

## Model

| member | source | states |
|---|---|---|
| Bytes.DecodeLE | m5stack_unit8/angle.py:111 | the unsigned little-endian value of n octets is below 256^n |
| Bytes.EncodeLE | m5stack_unit8/encoder.py:54 | packing a value into n little-endian octets gives exactly n octets |
| Bytes.DecodeEncodeLE | m5stack_unit8/encoder.py:54 | decoding the little-endian packing of any value below 256^n gives the value back |
| Bytes.EncodeDecodeLE | m5stack_unit8/encoder.py:54 | packing the decoded value of any octets at their own width gives the octets back |
| Bytes.DecodeU16LE | m5stack_unit8/angle.py:111 | `struct.unpack("<H")` is `s[0] + 256 * s[1]`, below 65536 |
| Bytes.DecodeI32LE | m5stack_unit8/encoder.py:54 | `struct.unpack("<l")` is `s[0] + 2^8*s[1] + 2^16*s[2] + 2^24*s[3]`, less 2^32 when the top octet's high bit is set; it lies in [-2^31, 2^31) and is negative exactly when that bit is set |
| Bytes.EncodeI32LE | m5stack_unit8/encoder.py:54 | the two's-complement packing of a 32-bit value has four octets |
| Bytes.I32RoundTrip | m5stack_unit8/encoder.py:54 | every signed 32-bit value survives packing then unpacking |
| Bytes.I32Repack | m5stack_unit8/encoder.py:54 | every four octets survive unpacking then packing |
| Bytes.UnpackU16LE | m5stack_unit8/angle.py:122 | `struct.unpack("<8H")`: one value per octet pair, element i decoded from octets 2i and 2i+1 |
| Bytes.UnpackI32LE | m5stack_unit8/encoder.py:63 | `struct.unpack("<8l")`: one value per four octets, element i decoded from octets 4i..4i+3 |
| Colors.PackColor | m5stack_unit8/encoder.py:109 | three octets pack into a colour below 2^24 |
| Colors.ColorBytes | m5stack_unit8/encoder.py:106-111 | a colour converts exactly when it is a 3-item sequence of octets or an int in [0, 2^24); the result has three octets; an int out of range raises OverflowError and any other shape or item raises ValueError |
| Colors.PackedColorRoundTrip | m5stack_unit8/encoder.py:109 | the octets of an int colour are its big-endian form: packing them gives the int back |
| Colors.ColorOctetsRoundTrip | m5stack_unit8/encoder.py:109 | any three octets are exactly the conversion of the int they pack to |
| Colors.ItemsAgreeWithPacked | m5stack_unit8/angle.py:160-163 | a tuple (r, g, b) and the int 0xRRGGBB give an LED the same octets |
| I2C.I2CDevice.constructor | m5stack_unit8/angle.py:65 | a fresh device is bound to its address and has seen no events |
| I2C.I2CDevice.Enter | m5stack_unit8/angle.py:149 | entering the `with` block appends an Acquire |
| I2C.I2CDevice.Exit | m5stack_unit8/angle.py:149-151 | leaving the `with` block appends a Release |
| I2C.I2CDevice.Write | m5stack_unit8/angle.py:150 | `bus.write` appends exactly the frame written |
| I2C.I2CDevice.ReadInto | m5stack_unit8/angle.py:120 | `bus.readinto(buf, start, end)` changes only `buf[start:end]` and records exactly the octets that arrived |
| I2C.I2CDevice.Pause | m5stack_unit8/angle.py:121 | `time.sleep` appends a Sleep, so its place among the bus events is known |
| I2C.ScanFits | m5stack_unit8/angle.py:118-120 | channel num of a scan of n channels selects a register that fits in an octet, and its slice ends within the n channels' octets |
| I2C.ScanOpsPrefix | m5stack_unit8/angle.py:116-121 | the events of a scan depend only on the octets of the channels already read |
| I2C.ScanOpsStep | m5stack_unit8/angle.py:116-121 | reading one more channel keeps the earlier channels' events and appends the new channel's select, read and pause |
| I2C.ScanReachedStep | m5stack_unit8/angle.py:116-121 | reading channel n into its own slice and nothing else takes a scan of n channels to n + 1, and the octets past the slices stay untouched |
| I2C.ScanOpsLength | m5stack_unit8/angle.py:116-121 | a scan of n channels has exactly 2n events, or 3n with pauses |
| I2C.ScanOpsShape | m5stack_unit8/angle.py:116-121 | step i of a scan selects register `base + stride*i`, reads channel i's octets into slice i, then pauses when the driver sleeps |
| I2C.ScanOpsLast | m5stack_unit8/angle.py:116-121 | the last channel's events close the scan, in the order select, read, pause |
| I2C.ScanOpsEarlier | m5stack_unit8/angle.py:116-121 | adding a channel leaves every earlier channel's events in place |
| I2C.RegisterRead | m5stack_unit8/angle.py:108-110 | a single-register read is one acquisition holding a select frame `[reg]` and then a separate read, never a combined write-then-read |
| I2C.ChannelOps | m5stack_unit8/angle.py:119-121 | one channel of a multi-channel read: the select frame `[reg]`, the read into the channel's slice, then a pause when the driver sleeps |
| I2C.ScanOps | m5stack_unit8/angle.py:116-121 | the events of a multi-channel read; `I2C.ScanOpsShape` states what step i holds |
| I2C.SelectAndRead | m5stack_unit8/angle.py:118-120 | the register array selects reg, then only `buffer[start:end]` changes, and the trace gains the select and the read of exactly those octets |
| I2C.ScanChannel | m5stack_unit8/angle.py:118-121 | one pass of a scan loop takes the scan state from channel num to num + 1 |
| I2C.Scan | m5stack_unit8/angle.py:116-121 | the loop selects register `base + stride*num` for channels 0 .. count-1 in order, reads each channel into its own slice, pauses after each when the driver sleeps, and leaves the octets past the slices alone |
| I2C.Store | m5stack_unit8/encoder.py:131 | the peripheral is assumed to auto-increment its register pointer: a frame's first octet selects a register and the remaining octets are stored from there on, so a frame of one octet only selects (`I2C.Place` states the contents) |
| I2C.Effect | m5stack_unit8/angle.py:184-190 | the register file after a sequence of events applies their write frames in order; `I2C.EffectAppend` and `I2C.EffectWithoutWrites` state how it composes |
| I2C.Place | m5stack_unit8/encoder.py:131 | after storing a payload from register `reg`, the registers `reg .. reg+n-1` hold the payload's octets in order and every other register keeps its value |
| I2C.PlaceConcat | m5stack_unit8/encoder.py:131 | storing p from reg and then q right after it equals storing p + q from reg |
| I2C.StoreConcat | m5stack_unit8/encoder.py:131 | a frame `[reg] + p` followed by a frame `[reg + len(p)] + q` leaves the registers as the single frame `[reg] + p + q` |
| I2C.StoreSelectOnly | m5stack_unit8/encoder.py:52 | a frame of just a register address stores nothing |
| I2C.EffectAppend | m5stack_unit8/angle.py:184-190 | the registers after two event sequences are those the second leaves over what the first left |
| I2C.EffectWithoutWrites | m5stack_unit8/angle.py:190 | acquires, releases, reads and sleeps store nothing |
| I2C.WriteTransactionEffect | m5stack_unit8/angle.py:188-190 | a transaction with one write, followed by a pause, stores exactly that frame |
| I2C.EffectStep | m5stack_unit8/angle.py:188-190 | a write transaction appended to a history stores its frame over what the history left |
| I2C.HoldsUntouched | m5stack_unit8/angle.py:189 | a frame leaves a run of registers it does not reach as it was |
| I2C.HoldsStored | m5stack_unit8/angle.py:189 | after a frame, the registers from the selected one on hold its payload octets |
| Angle.IsPrecision | m5stack_unit8/angle.py:78 | a precision is valid exactly when it is 8 or 12 (`Angle.Unit8Angle.SetPrecision` states the effect) |
| Angle.MaxRaw | m5stack_unit8/angle.py:88-90 | the rescaling divisor is the largest raw reading, 2^8 - 1 in 8-bit mode and 2^12 - 1 in 12-bit mode |
| Angle.Normalize | m5stack_unit8/angle.py:87-90 | floor division: the result r satisfies `r * max <= raw * 65535 < (r + 1) * max`, with max 255 or 4095 |
| Angle.Normalize8BitsIsExact | m5stack_unit8/angle.py:88 | in 8-bit mode `raw * 0xFFFF // 0xFF` equals `raw * 257` |
| Angle.NormalizeRange | m5stack_unit8/angle.py:87-90 | readings within the mode's range rescale into 0..65535; 0 maps to 0 and the top reading to 65535 |
| Angle.NormalizeStrictlyIncreasing | m5stack_unit8/angle.py:87-90 | the rescaling is strictly increasing in the raw reading |
| Angle.Normalize12BitsExample | m5stack_unit8/angle.py:90 | a 12-bit reading of 256 rescales to 4096 |
| Angle.Angle12Register | m5stack_unit8/angle.py:107 | channel num's 12-bit register is even and lies below the 8-bit block |
| Angle.Angle8Register | m5stack_unit8/angle.py:128 | channel num's 8-bit register lies in 0x10..0x17, below the switch |
| Angle.PixelRegister | m5stack_unit8/angle.py:166 | LED p's record starts at a multiple of 4 past 0x30 and ends inside the nine records |
| Angle.RegionsDisjoint | m5stack_unit8/angle.py:41-45 | 12-bit channels, 8-bit channels, the switch and the LED records never share a register, and distinct channels or LEDs never overlap |
| Angle.LedFrame | m5stack_unit8/angle.py:166-170 | the five-octet `set_led` frame: LED p's first register, then the colour and brightness that fill its record |
| Angle.CommitFrame | m5stack_unit8/angle.py:185-189 | the six-octet `_set_leds` frame of LED k: its first register, its three pixel octets, 0xFF, and the stale sixth octet |
| Angle.CommitOps | m5stack_unit8/angle.py:184-190 | `_set_leds` for n LEDs issues exactly 4n events |
| Angle.CommitOpsShape | m5stack_unit8/angle.py:184-190 | each LED has a transaction of its own: transaction k acquires the bus, writes LED k's six-octet frame, releases the bus, and is followed by a pause |
| Angle.CommitOpsIgnoresTail | m5stack_unit8/angle.py:184-186 | the events for a buffer of 27 octets or more are those of its first 27 octets: each LED slices only its own three |
| Angle.FillOps | m5stack_unit8/angle.py:193-195 | `fill` for n LEDs issues exactly 4n events |
| Angle.FillOpsShape | m5stack_unit8/angle.py:193-195 | each LED has a `set_led` transaction of its own: transaction k acquires the bus, writes LED k's five-octet frame, releases the bus, and is followed by a pause |
| Angle.CommitStep | m5stack_unit8/angle.py:184-190 | LED n-1's six-octet frame leaves LEDs 0..n-1 holding their pixel octets at full brightness; the sixth octet lands one register past LED n-1's record; registers outside the frame keep their values |
| Angle.CommitEffectStep | m5stack_unit8/angle.py:184-190 | one more LED transaction of `_set_leds` extends what the earlier ones left to one more LED |
| Angle.CommitEffectUpTo | m5stack_unit8/angle.py:182-190 | `_set_leds` leaves each LED holding its three pixel octets and 0xFF; the only surviving spill is the stale sixth octet at register 0x54; registers outside the LED area keep their values |
| Angle.CommitEffect | m5stack_unit8/angle.py:182-190 | after `_set_leds`, LED k's record holds pixels[3k..3k+3] at full brightness |
| Angle.FillStep | m5stack_unit8/angle.py:193-194 | LED n-1's `set_led` frame leaves LEDs 0..n-1 holding the colour and brightness, and nothing outside LED n-1's record changes |
| Angle.FillEffectStep | m5stack_unit8/angle.py:193-195 | one more `set_led` transaction of `fill` extends what the earlier ones left to one more LED |
| Angle.FillEffectUpTo | m5stack_unit8/angle.py:192-195 | `fill` leaves every LED record holding the colour and brightness, and no register outside the LED records changes |
| Angle.Unit8Angle.constructor | m5stack_unit8/angle.py:64-69 | a fresh device, a one-octet register and a 16-octet buffer, all zero, in 8-bit precision, with no bus events |
| Angle.Unit8Angle.Create | m5stack_unit8/angle.py:64-70 | construction fails with ValueError exactly when the requested precision is not 8 or 12; otherwise the unit has that precision and has issued no bus events |
| Angle.Unit8Angle.SetPrecision | m5stack_unit8/angle.py:76-80 | the setter accepts exactly 8 and 12; any other value raises ValueError and leaves the precision unchanged |
| Angle.Unit8Angle.GetAngle12Bit | m5stack_unit8/angle.py:103-111 | num outside 0..7 raises ValueError with no bus event; otherwise it selects register `2*num`, reads two octets and returns their little-endian value |
| Angle.Unit8Angle.GetAngle8Bit | m5stack_unit8/angle.py:124-132 | num outside 0..7 raises ValueError with no bus event; otherwise it selects register `0x10+num`, reads one octet and returns it |
| Angle.Unit8Angle.GetAngle | m5stack_unit8/angle.py:82-90 | the reading of the current precision's register, rescaled by floor division; in 8-bit mode this is `raw * 257` |
| Angle.Unit8Angle.Angles12Bit | m5stack_unit8/angle.py:113-122 | one acquisition with eight select, read and pause steps in channel order; element i is the little-endian value of octets 2i and 2i+1 |
| Angle.Unit8Angle.Angles8Bit | m5stack_unit8/angle.py:134-143 | one acquisition with eight select, read and pause steps from 0x10; element i is octet i; octets 8..15 are untouched |
| Angle.Unit8Angle.Angles | m5stack_unit8/angle.py:92-101 | the scan of the current precision, each element rescaled as `get_angle` does |
| Angle.Unit8Angle.Switch | m5stack_unit8/angle.py:145-152 | selects 0x20, reads one octet and reports on exactly when it is non-zero |
| Angle.Unit8Angle.SetLed | m5stack_unit8/angle.py:154-170 | a bad position, brightness or colour raises the source's error with no bus event; otherwise exactly one frame `[0x30+4p, r, g, b, brightness]` is written in one transaction |
| Angle.Unit8Angle.GetLed | m5stack_unit8/angle.py:172-180 | position outside 0..8 raises ValueError with no bus event; otherwise it selects LED p's record, reads four octets and returns the first three |
| Angle.Unit8Angle.StageCommitFrame | m5stack_unit8/angle.py:185-187 | the first five scratch octets become LED led's frame, and the sixth onwards are untouched |
| Angle.Unit8Angle.SetLeds | m5stack_unit8/angle.py:182-190 | for any buffer of at least 27 octets, nine transactions, each of one six-octet frame `[0x30+4k, pixels[3k..3k+3], 0xFF, old buffer[5]]` and each followed by a pause |
| Angle.Unit8Angle.Fill | m5stack_unit8/angle.py:192-195 | a bad brightness or colour fails on the first call, before any bus event; otherwise it writes the `set_led` frame of each LED 0..8 in order, with a pause after each |
| Angle.Pixels.constructor | m5stack_unit8/angle.py:52-53 | the pixel buffer is bound to its unit |
| Angle.Pixels.Transmit | m5stack_unit8/angle.py:58-60 | `_transmit` issues exactly `_set_leds`'s frames for the serialized pixels |
| Encoder.PositionRegister | m5stack_unit8/encoder.py:50 | channel num's position register is a multiple of 4 below the increment block |
| Encoder.ResetRegister | m5stack_unit8/encoder.py:89 | channel i's reset register lies in 0x40..0x47 |
| Encoder.ButtonRegister | m5stack_unit8/encoder.py:96 | button b's register lies in 0x50..0x57, below the switch |
| Encoder.PixelRegister | m5stack_unit8/encoder.py:112 | LED p's record starts at a multiple of 3 past 0x70 and ends inside the eight records |
| Encoder.RegionsDisjoint | m5stack_unit8/encoder.py:15-21 | positions, the unused increment block, resets, buttons, switch and LED records never share a register, and distinct channels or LEDs never overlap |
| Encoder.LedFrame | m5stack_unit8/encoder.py:112-115 | the four-octet `set_led` frame: LED p's first register, then the colour that fills its record |
| Encoder.BulkFrame | m5stack_unit8/encoder.py:129-131 | the single `_set_leds` frame: the first LED register, then every pixel octet |
| Encoder.ResetOps | m5stack_unit8/encoder.py:88-90 | `reset` issues one write per channel (`Encoder.ResetOpsShape` states each frame) |
| Encoder.SetLedOps | m5stack_unit8/encoder.py:112-115 | `set_led` on LEDs 0 .. n-1 issues exactly 3n events |
| Encoder.SetLedOpsShape | m5stack_unit8/encoder.py:112-115 | transaction k acquires the bus, writes LED k's frame of its own pixel octets, and releases the bus |
| Encoder.FillOps | m5stack_unit8/encoder.py:142-143 | `fill` for n LEDs issues exactly 3n events |
| Encoder.FillOpsShape | m5stack_unit8/encoder.py:142-143 | each LED has a `set_led` transaction of its own (acquire, its four-octet frame, release), with no pause |
| Encoder.ResetOpsShape | m5stack_unit8/encoder.py:86-90 | `reset` writes exactly eight frames; frame i is `[0x40+i, 1]` |
| Encoder.Repeat | m5stack_unit8/encoder.py:142-143 | n copies of a colour have 3n octets |
| Encoder.RepeatSlice | m5stack_unit8/encoder.py:142-143 | LED k's octets in n copies of a colour are the colour |
| Encoder.FillIsSetLedOps | m5stack_unit8/encoder.py:141-143 | `fill` issues exactly the `set_led` transactions for a pixel buffer holding the colour in every LED |
| Encoder.BulkFrameStep | m5stack_unit8/encoder.py:129-131 | the bulk frame of LEDs 0..n-2 followed by LED n-1's `set_led` frame leaves the registers as the bulk frame of LEDs 0..n-1 |
| Encoder.SetLedOpsStep | m5stack_unit8/encoder.py:112-115 | one more `set_led` transaction extends the registers the bulk frame leaves by one LED |
| Encoder.SetLedOpsEffect | m5stack_unit8/encoder.py:127-131 | `set_led` on LEDs 0..n-1 leaves the registers exactly as one frame of their octets from 0x70 |
| Encoder.BulkCommitMatchesSetLed | m5stack_unit8/encoder.py:127-131 | the single frame `[0x70] + pixels` leaves the registers exactly as eight `set_led` calls with the same octets, so LED k sits at offset 3k |
| Encoder.Unit8Encoder.constructor | m5stack_unit8/encoder.py:40-43 | a fresh device, a one-octet register and a 32-octet buffer, all zero, with no bus events |
| Encoder.Unit8Encoder.ReadEncoder | m5stack_unit8/encoder.py:46-54 | num outside 0..7 raises ValueError with no bus event; otherwise it selects `4*num`, reads four octets and returns their signed value in [-2^31, 2^31) |
| Encoder.Unit8Encoder.ReadEncoders | m5stack_unit8/encoder.py:56-63 | one acquisition with eight select and read pairs and no pause; element i is the signed value of octets 4i..4i+3 |
| Encoder.Unit8Encoder.ReadIncrement | m5stack_unit8/encoder.py:65-73 | the same checks and transaction as `read_encoder`: register `4*num` is channel num's position register |
| Encoder.Unit8Encoder.ReadIncrements | m5stack_unit8/encoder.py:75-82 | the same events and values as `read_encoders` |
| Encoder.Unit8Encoder.Reset | m5stack_unit8/encoder.py:84-90 | one acquisition with the eight frames `[0x40+i, 1]` in order; only the first two scratch octets change |
| Encoder.Unit8Encoder.ReadButtons | m5stack_unit8/encoder.py:92-99 | one acquisition with eight select and read steps from 0x50; button b is true exactly when its octet is non-zero |
| Encoder.Unit8Encoder.SetLed | m5stack_unit8/encoder.py:101-115 | a bad position or colour raises the source's error with no bus event; otherwise exactly one frame `[0x70+3p, r, g, b]` is written in one transaction |
| Encoder.Unit8Encoder.GetLed | m5stack_unit8/encoder.py:117-125 | position outside 0..7 raises ValueError with no bus event; otherwise it selects LED p's record and returns the three octets read |
| Encoder.Unit8Encoder.SetLeds | m5stack_unit8/encoder.py:127-131 | one transaction with the single frame `[0x70] + pixels` |
| Encoder.Unit8Encoder.ReadSwitch | m5stack_unit8/encoder.py:133-139 | selects 0x60, reads one octet and reports on exactly when it is non-zero |
| Encoder.Unit8Encoder.Fill | m5stack_unit8/encoder.py:141-143 | a bad colour fails on the first call, before any bus event; otherwise it writes the `set_led` frame of each LED 0..7 in order |
| Encoder.Pixels.constructor | m5stack_unit8/encoder.py:31-32 | the pixel buffer is bound to its unit |
| Encoder.Pixels.Transmit | m5stack_unit8/encoder.py:35-37 | `_transmit` issues exactly `_set_leds`'s single frame for the serialized pixels |

## Left out

- The I2C transport (`adafruit_bus_device.I2CDevice`) is a foreign library. Its locking, its probing of the address at construction and its bus errors are not modelled. It appears only as the recorded events.
- The peripheral's replies are not modelled. A read may deliver any octets, so no contract states a particular reading. This includes the firmware's handling of the increment registers.
- `time.sleep(0.0008)` is recorded as an event; its duration is not modelled.
- The pixel-buffer library (`adafruit_pixelbuf.PixelBuf`) is not part of this model. That covers float brightness scaling, `auto_write`, slicing, `show()` and the serialization into octets. `Transmit` takes the serialized octets as a parameter.
- Angle.Pixels.constructor: the unit's `self.pixels` attribute is not linked to the pixel buffer. Brightness and `auto_write` are not modelled.
- Encoder.Pixels.constructor: the unit's `self.pixels` attribute is not linked to the pixel buffer. Brightness is not modelled.
- I2C.Store: how the firmware handles a multi-octet write frame is assumed, not known from the driver. That covers auto-increment, and octets written past the last LED record (0x54 on the angle unit, past 0x53).
- Angle.Unit8Angle.GetLed: the driver calls `bus.read`, which `I2CDevice` does not provide (m5stack_unit8/angle.py:179). It is modelled as the intended four-octet read.
- Encoder.Unit8Encoder.GetLed: the driver calls `bus.read`, which `I2CDevice` does not provide (m5stack_unit8/encoder.py:124). It is modelled as the intended three-octet read.
- Angle.Unit8Angle.GetAngle8Bit: `struct.unpack("<B")` is applied to a two-octet slice (m5stack_unit8/angle.py:132). It is modelled as the intended decoding of the first octet.
- Angle.Unit8Angle.GetAngle: its 8-bit branch inherits the modelling of `GetAngle8Bit`. As written, `get_angle` calls `get_angle_8bit` (m5stack_unit8/angle.py:88) and fails after its bus transaction. The model returns `raw * 257`. The `angles` property is not affected, because `angles_8bit` unpacks eight octets with `"<8B"` (m5stack_unit8/angle.py:143).
- Angle.Unit8Angle.SetLeds: requires at least 27 octets. A shorter buffer would shrink the scratch `bytearray` through the slice assignment (m5stack_unit8/angle.py:186); that case is not modelled. A longer buffer's octets past the 27th are ignored (`Angle.CommitOpsIgnoresTail`), and `_transmit` always passes the 27 octets of nine RGB pixels.
- Colors.ColorBytes: `int.to_bytes` raising OverflowError and `bytes()` rejecting an item outside 0..255 are modelled as error results returned before any bus event, not as preconditions. The colour's items are integers. Items of other types (which `bytes()` rejects with TypeError) and `bool` colours are not modelled.
- Default arguments are modelled as Dafny parameter defaults: the address (0x43 or 0x41), the angle's precision of 12 bits and the brightness of 100 for `set_led` and `fill`. Keyword arguments and the pixel buffer's `brightness` and `auto_write` defaults are not modelled.
- Every argument is modelled as an int. Arguments of other Python types are not modelled. For example, a float brightness such as 50.5 passes the range check (m5stack_unit8/angle.py:158), overwrites `buffer[0]` to `buffer[3]` (m5stack_unit8/angle.py:166-167) and only then raises TypeError (m5stack_unit8/angle.py:168).
- `Unit8Encoder_Bis` and the `__main__` demo (m5stack_unit8/encoder.py:145-210) are not modelled. `unit_8_encoder.py` and the example scripts are not part of this model.
