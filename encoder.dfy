/** The driver for the 8-channel rotary encoder unit: its register map and the
    `Unit8Encoder` device object whose methods fill a one-octet register array and a
    32-octet scratch buffer in place and issue the bus events recorded in the device's
    trace. */
module Encoder {
  import opened Bytes
  import opened Errors
  import opened Colors
  import opened I2C

  const DefaultAddress := 0x41
  const EncoderRegister := 0x00
  /** Declared by the driver, but no method adds it to an address. */
  const IncrementRegister := 0x20
  const EncoderResetRegister := 0x40
  const ButtonsRegister := 0x50
  const SwitchRegister := 0x60
  const PixelsRegister := 0x70

  const ChannelCount := 8
  const LedCount := 8

  /** Register of channel `num`'s 32-bit position: four octets per channel from 0x00. */
  function PositionRegister(num: int): (reg: byte)
    requires 0 <= num < ChannelCount
    ensures EncoderRegister <= reg && reg + 4 <= IncrementRegister && reg % 4 == 0
  {
    4 * num + EncoderRegister
  }

  /** Register that resets channel `i`'s position counter. */
  function ResetRegister(i: int): (reg: byte)
    requires 0 <= i < ChannelCount
    ensures EncoderResetRegister <= reg < EncoderResetRegister + ChannelCount
  {
    EncoderResetRegister + i
  }

  /** Register of button `b`. */
  function ButtonRegister(b: int): (reg: byte)
    requires 0 <= b < ChannelCount
    ensures ButtonsRegister <= reg < ButtonsRegister + ChannelCount && reg < SwitchRegister
  {
    ButtonsRegister + b
  }

  /** First register of LED `position`'s record (red, green, blue). */
  function PixelRegister(position: int): (reg: byte)
    requires 0 <= position < LedCount
    ensures PixelsRegister <= reg && reg + 3 <= PixelsRegister + 3 * LedCount
    ensures (reg - PixelsRegister) % 3 == 0
  {
    PixelsRegister + 3 * position
  }

  /** The register regions never alias, and the increment block 0x20..0x3F is never
      selected: positions lie below it, resets, buttons, switch and pixels above it. */
  lemma RegionsDisjoint(n1: int, n2: int, p1: int, p2: int)
    requires 0 <= n1 < ChannelCount && 0 <= n2 < ChannelCount
    requires 0 <= p1 < LedCount && 0 <= p2 < LedCount
    ensures n1 != n2 ==> PositionRegister(n1) + 4 <= PositionRegister(n2) || PositionRegister(n2) + 4 <= PositionRegister(n1)
    ensures PositionRegister(n1) + 4 <= IncrementRegister
    ensures IncrementRegister + 4 * ChannelCount <= ResetRegister(n1)
    ensures ResetRegister(n1) < ButtonRegister(n2) < SwitchRegister < PixelRegister(p1)
    ensures p1 != p2 ==> PixelRegister(p1) + 3 <= PixelRegister(p2) || PixelRegister(p2) + 3 <= PixelRegister(p1)
  {
  }

  /** The frame `set_led` writes: LED register, red, green, blue. */
  function LedFrame(position: int, rgb: seq<byte>): (f: seq<byte>)
    requires 0 <= position < LedCount && |rgb| == 3
    ensures |f| == 4 && f[0] == PixelRegister(position) && f[1..] == rgb
  {
    [PixelRegister(position)] + rgb
  }

  /** The frame `_set_leds` writes: the first LED register, then the whole pixel buffer. */
  function BulkFrame(pixels: seq<byte>): (f: seq<byte>)
    ensures |f| == |pixels| + 1 && f[0] == PixelsRegister && f[1..] == pixels
  {
    [PixelsRegister] + pixels
  }

  /** The events of `reset` inside its acquisition, for channels 0 .. n-1. */
  function ResetOps(n: nat): (ops: seq<BusOp>)
    requires n <= ChannelCount
    ensures |ops| == n
  {
    if n == 0 then [] else ResetOps(n - 1) + [Write([ResetRegister(n - 1), 1])]
  }

  /** The events of `set_led(k, pixels[3k..3k+3])` for k = 0 .. n-1. */
  function SetLedOps(pixels: seq<byte>, n: nat): (ops: seq<BusOp>)
    requires |pixels| == 3 * LedCount && n <= LedCount
    ensures |ops| == 3 * n
  {
    if n == 0 then []
    else SetLedOps(pixels, n - 1) + [Acquire, Write(LedFrame(n - 1, pixels[3 * (n - 1)..3 * n])), Release]
  }

  /** Transaction k of `SetLedOps` acquires the bus, writes LED k's frame of its own
      pixel octets, and releases the bus. */
  lemma {:induction false} SetLedOpsShape(pixels: seq<byte>, n: nat)
    requires |pixels| == 3 * LedCount && n <= LedCount
    ensures var ops := SetLedOps(pixels, n);
            forall k :: 0 <= k < n ==>
              && ops[3 * k] == Acquire && ops[3 * k + 1] == Write(LedFrame(k, pixels[3 * k..3 * k + 3]))
              && ops[3 * k + 2] == Release
  {
    if n > 0 {
      SetLedOpsShape(pixels, n - 1);
    }
  }

  /** The events of `fill` for LEDs 0 .. n-1: one `set_led` transaction each, no pause. */
  function FillOps(rgb: seq<byte>, n: nat): (ops: seq<BusOp>)
    requires |rgb| == 3 && n <= LedCount
    ensures |ops| == 3 * n
  {
    if n == 0 then [] else FillOps(rgb, n - 1) + [Acquire, Write(LedFrame(n - 1, rgb)), Release]
  }

  /** `fill` gives every LED a `set_led` transaction of its own, with no pause. */
  lemma {:induction false} FillOpsShape(rgb: seq<byte>, n: nat)
    requires |rgb| == 3 && n <= LedCount
    ensures var ops := FillOps(rgb, n);
            forall k :: 0 <= k < n ==>
              && ops[3 * k] == Acquire && ops[3 * k + 1] == Write(LedFrame(k, rgb)) && ops[3 * k + 2] == Release
  {
    if n > 0 {
      FillOpsShape(rgb, n - 1);
    }
  }

  /** `reset` writes eight two-octet frames, one per channel in order, each setting that
      channel's reset register to 1. */
  lemma {:induction false} ResetOpsShape(n: nat, i: nat)
    requires n <= ChannelCount && i < n
    ensures |ResetOps(n)| == n
    ensures ResetOps(n)[i] == Write([EncoderResetRegister + i, 1])
  {
    if i < n - 1 {
      ResetOpsShape(n - 1, i);
    } else if n > 1 {
      ResetOpsShape(n - 1, 0);
    }
  }

  /** `n` copies of a colour, one after the other. */
  function Repeat(rgb: seq<byte>, n: nat): (s: seq<byte>)
    requires |rgb| == 3
    ensures |s| == 3 * n
  {
    if n == 0 then [] else Repeat(rgb, n - 1) + rgb
  }

  lemma {:induction false} RepeatSlice(rgb: seq<byte>, n: nat, k: nat)
    requires |rgb| == 3 && k < n
    ensures Repeat(rgb, n)[3 * k..3 * k + 3] == rgb
  {
    if k < n - 1 {
      RepeatSlice(rgb, n - 1, k);
      assert Repeat(rgb, n)[3 * k..3 * k + 3] == Repeat(rgb, n - 1)[3 * k..3 * k + 3];
    }
  }

  /** `fill` issues exactly what `set_led` would for a pixel buffer holding the colour
      in every LED. */
  lemma {:induction false} FillIsSetLedOps(rgb: seq<byte>, n: nat)
    requires |rgb| == 3 && n <= LedCount
    ensures FillOps(rgb, n) == SetLedOps(Repeat(rgb, LedCount), n)
  {
    if n > 0 {
      FillIsSetLedOps(rgb, n - 1);
      RepeatSlice(rgb, LedCount, n - 1);
    }
  }

  /** Appending LED n-1's `set_led` frame to a bulk frame of LEDs 0 .. n-2 stores the
      bulk frame of LEDs 0 .. n-1. */
  lemma BulkFrameStep(regs: map<int, byte>, pixels: seq<byte>, n: nat)
    requires |pixels| == 3 * LedCount && 0 < n <= LedCount
    ensures Store(Store(regs, BulkFrame(pixels[..3 * (n - 1)])), LedFrame(n - 1, pixels[3 * (n - 1)..3 * n]))
            == Store(regs, BulkFrame(pixels[..3 * n]))
  {
    var p, q := pixels[..3 * (n - 1)], pixels[3 * (n - 1)..3 * n];
    assert BulkFrame(p) == [PixelsRegister] + p;
    assert LedFrame(n - 1, q) == [PixelRegister(n - 1)] + q;
    StoreConcat(regs, PixelsRegister, p, PixelRegister(n - 1), q);
    assert p + q == pixels[..3 * n];
    assert [PixelsRegister] + p + q == BulkFrame(pixels[..3 * n]);
  }

  /** One more `set_led` transaction extends the bulk frame by one LED. */
  lemma SetLedOpsStep(regs: map<int, byte>, pixels: seq<byte>, n: nat)
    requires |pixels| == 3 * LedCount && 0 < n <= LedCount
    requires Effect(regs, SetLedOps(pixels, n - 1)) == Store(regs, BulkFrame(pixels[..3 * (n - 1)]))
    ensures Effect(regs, SetLedOps(pixels, n)) == Store(regs, BulkFrame(pixels[..3 * n]))
  {
    var prev := SetLedOps(pixels, n - 1);
    var frame := LedFrame(n - 1, pixels[3 * (n - 1)..3 * n]);
    assert SetLedOps(pixels, n) == prev + ([Acquire, Write(frame), Release] + []);
    EffectStep(regs, prev, frame, []);
    BulkFrameStep(regs, pixels, n);
  }

  /** Writing LEDs 0 .. n-1 one `set_led` at a time leaves the registers exactly as one
      frame of their octets from the first LED register does. */
  lemma {:induction false} SetLedOpsEffect(regs: map<int, byte>, pixels: seq<byte>, n: nat)
    requires |pixels| == 3 * LedCount && n <= LedCount
    ensures Effect(regs, SetLedOps(pixels, n)) == Store(regs, BulkFrame(pixels[..3 * n]))
  {
    if n == 0 {
      assert BulkFrame(pixels[..0]) == [PixelsRegister];
      StoreSelectOnly(regs, PixelsRegister);
    } else {
      SetLedOpsEffect(regs, pixels, n - 1);
      SetLedOpsStep(regs, pixels, n);
    }
  }

  /** Committing the whole eight-LED pixel buffer in one frame leaves the registers
      exactly as eight `set_led` calls with the same octets do, so LED k's octets sit at
      register offset 3k as `set_led` addresses them. */
  lemma BulkCommitMatchesSetLed(regs: map<int, byte>, pixels: seq<byte>)
    requires |pixels| == 3 * LedCount
    ensures Effect(regs, [Acquire, Write(BulkFrame(pixels)), Release]) == Effect(regs, SetLedOps(pixels, LedCount))
  {
    SetLedOpsEffect(regs, pixels, LedCount);
    assert pixels[..3 * LedCount] == pixels;
    WriteTransactionEffect(regs, BulkFrame(pixels), []);
    assert [Acquire, Write(BulkFrame(pixels)), Release] + [] == [Acquire, Write(BulkFrame(pixels)), Release];
  }

  /** The Unit8 Encoder device: `self.device`, `self.register` and `self.buffer`. */
  class Unit8Encoder {
    const device: I2CDevice
    const register: array<byte>
    const buffer: array<byte>

    ghost predicate Valid()
    {
      register.Length == 1 && buffer.Length == 4 * ChannelCount && register != buffer
    }

    /** `__init__`; the pixel buffer object is built separately (see `Pixels`). */
    constructor (address: int := DefaultAddress)
      ensures Valid()
      ensures fresh(device) && fresh(register) && fresh(buffer)
      ensures device.address == address && device.trace == []
      ensures register[..] == [0] && buffer[..] == seq(4 * ChannelCount, _ => 0)
    {
      device := new I2CDevice(address);
      register := new byte[1](_ => 0);
      buffer := new byte[4 * ChannelCount](_ => 0);
    }

    /** `read_encoder`: one register read of four octets, decoded as a signed 32-bit
        little-endian value. */
    method ReadEncoder(num: int) returns (r: Result<int>)
      requires Valid()
      modifies register, buffer, device
      ensures r.Failure? <==> !(0 <= num < ChannelCount)
      ensures r.Failure? ==> r.error == ValueError && unchanged(register, buffer) && device.trace == old(device.trace)
      ensures r.Success? ==>
                && register[0] == PositionRegister(num) && buffer[4..] == old(buffer[4..])
                && device.trace == old(device.trace) + RegisterRead(PositionRegister(num), buffer[..4])
                && r.value == DecodeI32LE(buffer[..4])
                && -0x8000_0000 <= r.value < 0x8000_0000
    {
      if !(0 <= num < ChannelCount) {
        return Failure(ValueError);
      }
      device.Enter();
      SelectAndRead(device, register, buffer, 4 * num + EncoderRegister, 0, 4);
      device.Exit();
      r := Success(DecodeI32LE(buffer[..4]));
    }

    /** `read_encoders`: under one bus acquisition, channel by channel, select the
        channel's position register and read its four octets into its own slice of the
        scratch buffer; no pause. */
    method ReadEncoders() returns (r: seq<int>)
      requires Valid()
      modifies register, buffer, device
      ensures |r| == ChannelCount
      ensures forall i :: 0 <= i < ChannelCount ==> r[i] == DecodeI32LE(buffer[4 * i..4 * i + 4])
      ensures register[0] == PositionRegister(ChannelCount - 1)
      ensures device.trace == old(device.trace) + [Acquire] + ScanOps(EncoderRegister, 4, 4, false, buffer[..], ChannelCount) + [Release]
    {
      device.Enter();
      Scan(device, register, buffer, ChannelCount, EncoderRegister, 4, 4, false);
      device.Exit();
      r := UnpackI32LE(buffer[..]);
    }

    /** `read_increment`: the same transaction as `read_encoder`. The register is `4 * num`
        with no base added, which is channel `num`'s position register. */
    method ReadIncrement(num: int) returns (r: Result<int>)
      requires Valid()
      modifies register, buffer, device
      ensures r.Failure? <==> !(0 <= num < ChannelCount)
      ensures r.Failure? ==> r.error == ValueError && unchanged(register, buffer) && device.trace == old(device.trace)
      ensures r.Success? ==>
                && register[0] == PositionRegister(num) && buffer[4..] == old(buffer[4..])
                && device.trace == old(device.trace) + RegisterRead(PositionRegister(num), buffer[..4])
                && r.value == DecodeI32LE(buffer[..4])
                && -0x8000_0000 <= r.value < 0x8000_0000
    {
      if !(0 <= num < ChannelCount) {
        return Failure(ValueError);
      }
      device.Enter();
      SelectAndRead(device, register, buffer, 4 * num, 0, 4);
      device.Exit();
      r := Success(DecodeI32LE(buffer[..4]));
    }

    /** `read_increments`: the same scan as `read_encoders`, over registers `4 * i`. */
    method ReadIncrements() returns (r: seq<int>)
      requires Valid()
      modifies register, buffer, device
      ensures |r| == ChannelCount
      ensures forall i :: 0 <= i < ChannelCount ==> r[i] == DecodeI32LE(buffer[4 * i..4 * i + 4])
      ensures register[0] == PositionRegister(ChannelCount - 1)
      ensures device.trace == old(device.trace) + [Acquire] + ScanOps(EncoderRegister, 4, 4, false, buffer[..], ChannelCount) + [Release]
    {
      device.Enter();
      Scan(device, register, buffer, ChannelCount, 0, 4, 4, false);
      device.Exit();
      r := UnpackI32LE(buffer[..]);
    }

    /** `reset`: the payload octet 1 is placed once, then under one acquisition each
        channel's reset register is written with it. */
    method Reset()
      requires Valid()
      modifies buffer, device
      ensures buffer[..2] == [ResetRegister(ChannelCount - 1), 1]
      ensures buffer[2..] == old(buffer[2..])
      ensures device.trace == old(device.trace) + [Acquire] + ResetOps(ChannelCount) + [Release]
    {
      buffer[1] := 1;
      device.Enter();
      var i := 0;
      while i < ChannelCount
        invariant 0 <= i <= ChannelCount
        invariant buffer[1] == 1 && buffer[2..] == old(buffer[2..])
        invariant i > 0 ==> buffer[0] == ResetRegister(i - 1)
        invariant device.trace == old(device.trace) + [Acquire] + ResetOps(i)
      {
        buffer[0] := 0x40 + i;
        assert buffer[..2] == [ResetRegister(i), 1];
        device.Write(buffer[..2]);
        i := i + 1;
      }
      device.Exit();
    }

    /** `read_buttons`: under one acquisition, button by button, select its register and
        read one octet into the scratch buffer; a button reads as true exactly when its
        octet is non-zero (the firmware's value is not inverted). */
    method ReadButtons() returns (r: seq<bool>)
      requires Valid()
      modifies register, buffer, device
      ensures |r| == ChannelCount
      ensures forall b :: 0 <= b < ChannelCount ==> (r[b] <==> buffer[b] != 0)
      ensures buffer[ChannelCount..] == old(buffer[ChannelCount..])
      ensures register[0] == ButtonRegister(ChannelCount - 1)
      ensures device.trace == old(device.trace) + [Acquire] + ScanOps(ButtonsRegister, 1, 1, false, buffer[..], ChannelCount) + [Release]
    {
      device.Enter();
      Scan(device, register, buffer, ChannelCount, ButtonsRegister, 1, 1, false);
      device.Exit();
      var raw := buffer[..ChannelCount];
      r := seq(ChannelCount, b requires 0 <= b < ChannelCount => raw[b] != 0);
    }

    /** `set_led`: the arguments are checked before anything is touched; then one frame of
        four octets goes out in one transaction. */
    method SetLed(position: int, color: ColorArg) returns (r: Outcome)
      requires Valid()
      modifies buffer, device
      ensures r.Fail? <==> !(0 <= position < LedCount) || ColorBytes(color).Failure?
      ensures r.Fail? ==> r.error == (if !(0 <= position < LedCount) then ValueError else ColorBytes(color).error)
      ensures r.Fail? ==> unchanged(buffer) && device.trace == old(device.trace)
      ensures r.Pass? ==>
                && buffer[..4] == LedFrame(position, ColorBytes(color).value)
                && buffer[4..] == old(buffer[4..])
                && device.trace == old(device.trace) + [Acquire, Write(buffer[..4]), Release]
    {
      if !(0 <= position < LedCount) {
        return Fail(ValueError);
      }
      var rgb := ColorBytes(color);
      if rgb.Failure? {
        return Fail(rgb.error);
      }
      buffer[0] := PixelRegister(position);
      buffer[1], buffer[2], buffer[3] := rgb.value[0], rgb.value[1], rgb.value[2];
      device.Enter();
      device.Write(buffer[..4]);
      device.Exit();
      r := Pass;
    }

    /** `get_led`: select the LED's record and read its three octets. */
    method GetLed(position: int) returns (r: Result<seq<byte>>)
      requires Valid()
      modifies register, buffer, device
      ensures r.Failure? <==> !(0 <= position < LedCount)
      ensures r.Failure? ==> r.error == ValueError && unchanged(register, buffer) && device.trace == old(device.trace)
      ensures r.Success? ==>
                && register[0] == PixelRegister(position) && buffer[3..] == old(buffer[3..])
                && device.trace == old(device.trace) + RegisterRead(PixelRegister(position), buffer[..3])
                && r.value == buffer[..3]
    {
      if !(0 <= position < LedCount) {
        return Failure(ValueError);
      }
      device.Enter();
      SelectAndRead(device, register, buffer, PixelRegister(position), 0, 3);
      device.Exit();
      r := Success(buffer[..3]);
    }

    /** `_set_leds`: the whole pixel buffer in one frame from the first LED register. */
    method SetLeds(pixels: seq<byte>)
      requires Valid()
      modifies register, device
      ensures register[0] == PixelsRegister
      ensures device.trace == old(device.trace) + [Acquire, Write(BulkFrame(pixels)), Release]
    {
      register[0] := PixelsRegister;
      device.Enter();
      assert register[..] == [register[0]];
      device.Write(register[..] + pixels);
      device.Exit();
    }

    /** `read_switch`: one register read of one octet; any non-zero octet is on. */
    method ReadSwitch() returns (on: bool)
      requires Valid()
      modifies register, buffer, device
      ensures register[0] == SwitchRegister && buffer[1..] == old(buffer[1..])
      ensures device.trace == old(device.trace) + RegisterRead(SwitchRegister, buffer[..1])
      ensures on <==> buffer[0] != 0
    {
      device.Enter();
      SelectAndRead(device, register, buffer, SwitchRegister, 0, 1);
      device.Exit();
      on := buffer[0] != 0;
    }

    /** `fill`: `set_led` on every LED in order. The colour is the same for every call, so
        either the first call fails and nothing is sent, or all succeed. */
    method Fill(color: ColorArg) returns (r: Outcome)
      requires Valid()
      modifies buffer, device
      ensures r.Fail? <==> ColorBytes(color).Failure?
      ensures r.Fail? ==> r.error == ColorBytes(color).error && unchanged(buffer) && device.trace == old(device.trace)
      ensures r.Pass? ==>
                && buffer[..4] == LedFrame(LedCount - 1, ColorBytes(color).value)
                && buffer[4..] == old(buffer[4..])
                && device.trace == old(device.trace) + FillOps(ColorBytes(color).value, LedCount)
    {
      var i := 0;
      while i < LedCount
        invariant 0 <= i <= LedCount
        invariant buffer[4..] == old(buffer[4..])
        invariant i == 0 ==> unchanged(buffer) && device.trace == old(device.trace)
        invariant i > 0 ==> ColorBytes(color).Success?
        invariant i > 0 ==> buffer[..4] == LedFrame(i - 1, ColorBytes(color).value)
        invariant i > 0 ==> device.trace == old(device.trace) + FillOps(ColorBytes(color).value, i)
      {
        var outcome := SetLed(i, color);
        if outcome.Fail? {
          return outcome;
        }
        i := i + 1;
      }
      r := Pass;
    }
  }

  /** `_U8_Pixels`: the pixel buffer of eight RGB pixels. Only its `_transmit` hook is
      modelled; the buffer itself belongs to the pixel-buffer library. */
  class Pixels {
    const unit8: Unit8Encoder

    constructor (unit8: Unit8Encoder)
      ensures this.unit8 == unit8
    {
      this.unit8 := unit8;
    }

    /** `_transmit`: the serialized pixels go to the device's `_set_leds`. */
    method Transmit(pixels: seq<byte>)
      requires unit8.Valid()
      modifies unit8.register, unit8.device
      ensures unit8.register[0] == PixelsRegister
      ensures unit8.device.trace == old(unit8.device.trace) + [Acquire, Write(BulkFrame(pixels)), Release]
    {
      unit8.SetLeds(pixels);
    }
  }
}
