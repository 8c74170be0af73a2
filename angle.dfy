/** The driver for the 8-channel potentiometer ("angle") unit: its register map, the
    rescaling of raw angles to 16 bits, and the `Unit8Angle` device object whose methods
    fill a one-octet register array and a 16-octet scratch buffer in place and issue the
    bus events recorded in the device's trace. */
module Angle {
  import opened Bytes
  import opened Errors
  import opened Colors
  import opened I2C

  const DefaultAddress := 0x43
  const Angle12BitsRegister := 0x00
  const Angle8BitsRegister := 0x10
  const SwitchRegister := 0x20
  const PixelsRegister := 0x30

  const Precision8Bits := 8
  const Precision12Bits := 12
  /** The precision `__init__` applies when none is given. */
  const DefaultPrecision := Precision12Bits
  /** The brightness `set_led` and `fill` use when none is given. */
  const DefaultBrightness := 100

  const ChannelCount := 8
  const LedCount := 9

  /** The value written to the brightness register of every LED by `_set_leds`. */
  const FullBrightness := 0xFF

  /** `value in PRECISIONS`. */
  predicate IsPrecision(value: int)
  {
    value == Precision8Bits || value == Precision12Bits
  }

  /** The largest raw reading in a precision mode. */
  function MaxRaw(precision: int): (m: nat)
    requires IsPrecision(precision)
    ensures m + 1 == if precision == Precision8Bits then 0x100 else 0x1000
  {
    if precision == Precision8Bits then 0xFF else 0xFFF
  }

  /** A raw reading rescaled to 0..65535 by floor division, as `get_angle` and `angles` do. */
  function Normalize(raw: nat, precision: int): (r: nat)
    requires IsPrecision(precision)
    ensures r * MaxRaw(precision) <= raw * 0xFFFF < (r + 1) * MaxRaw(precision)
  {
    raw * 0xFFFF / MaxRaw(precision)
  }

  /** In 8-bit mode the rescaling is exact: every raw step is 257. */
  lemma Normalize8BitsIsExact(raw: nat)
    ensures Normalize(raw, Precision8Bits) == raw * 257
  {
    assert raw * 0xFFFF == (raw * 257) * 0xFF;
  }

  /** Readings inside the precision's range land inside 0..65535, with both ends hit. */
  lemma NormalizeRange(raw: nat, precision: int)
    requires IsPrecision(precision) && raw <= MaxRaw(precision)
    ensures Normalize(raw, precision) <= 0xFFFF
    ensures Normalize(0, precision) == 0 && Normalize(MaxRaw(precision), precision) == 0xFFFF
  {
    var d := MaxRaw(precision);
    assert raw * 0xFFFF <= d * 0xFFFF;
    DivMonotone(raw * 0xFFFF, d * 0xFFFF, d);
    assert d * 0xFFFF / d == 0xFFFF;
  }

  lemma DivMonotone(x: nat, y: nat, d: nat)
    requires x <= y && d > 0
    ensures x / d <= y / d
  {
    var qx, qy := x / d, y / d;
    if qx > qy {
      MulMonotone(d, qy + 1, qx);
      assert false;
    }
  }

  /** The rescaling is strictly increasing: distinct readings stay distinct. */
  lemma NormalizeStrictlyIncreasing(a: nat, b: nat, precision: int)
    requires IsPrecision(precision) && a < b
    ensures Normalize(a, precision) < Normalize(b, precision)
  {
    var d := MaxRaw(precision);
    var x := a * 0xFFFF;
    assert x + 0xFFFF <= b * 0xFFFF;
    assert x + d <= b * 0xFFFF;
    DivMonotone(x + d, b * 0xFFFF, d);
    assert (x + d) / d == x / d + 1;
  }

  /** A 12-bit reading of 256 rescales to 4096: 256 * 65535 = 4096 * 4095 + 3840. */
  lemma Normalize12BitsExample()
    ensures Normalize(256, Precision12Bits) == 4096
  {
    assert 256 * 0xFFFF == 4096 * 0xFFF + 3840;
  }

  /** Register of channel `num`'s 12-bit angle: two octets per channel from 0x00. */
  function Angle12Register(num: int): (reg: byte)
    requires 0 <= num < ChannelCount
    ensures Angle12BitsRegister <= reg && reg + 1 < Angle8BitsRegister && reg % 2 == 0
  {
    Angle12BitsRegister + num * 2
  }

  /** Register of channel `num`'s 8-bit angle: one octet per channel from 0x10. */
  function Angle8Register(num: int): (reg: byte)
    requires 0 <= num < ChannelCount
    ensures Angle8BitsRegister <= reg < Angle8BitsRegister + ChannelCount
    ensures reg < SwitchRegister
  {
    Angle8BitsRegister + num
  }

  /** First register of LED `position`'s record (red, green, blue, brightness). */
  function PixelRegister(position: int): (reg: byte)
    requires 0 <= position < LedCount
    ensures PixelsRegister <= reg && reg + 4 <= PixelsRegister + 4 * LedCount
    ensures (reg - PixelsRegister) % 4 == 0
  {
    PixelsRegister + 4 * position
  }

  /** The register regions never alias: each 12-bit channel, each 8-bit channel, the
      switch and each LED record own their registers alone. */
  lemma RegionsDisjoint(n1: int, n2: int, p1: int, p2: int)
    requires 0 <= n1 < ChannelCount && 0 <= n2 < ChannelCount
    requires 0 <= p1 < LedCount && 0 <= p2 < LedCount
    ensures n1 != n2 ==> Angle12Register(n1) + 1 < Angle12Register(n2) || Angle12Register(n2) + 1 < Angle12Register(n1)
    ensures n1 != n2 ==> Angle8Register(n1) != Angle8Register(n2)
    ensures Angle12Register(n1) + 1 < Angle8Register(n2) < SwitchRegister < PixelRegister(p1)
    ensures p1 != p2 ==> PixelRegister(p1) + 4 <= PixelRegister(p2) || PixelRegister(p2) + 4 <= PixelRegister(p1)
  {
  }

  /** The frame `set_led` writes: LED register, red, green, blue, brightness. */
  function LedFrame(position: int, rgb: seq<byte>, brightness: byte): (f: seq<byte>)
    requires 0 <= position < LedCount && |rgb| == 3
    ensures |f| == 5 && f[0] == PixelRegister(position) && f[1..] == rgb + [brightness]
  {
    [PixelRegister(position)] + rgb + [brightness]
  }

  /** The frame `_set_leds` writes for LED k: its register, its three octets of the
      pixel buffer, full brightness, and `extra`, the sixth scratch octet, which the
      method never assigns. */
  function CommitFrame(pixels: seq<byte>, k: int, extra: byte): (f: seq<byte>)
    requires |pixels| >= 3 * LedCount && 0 <= k < LedCount
    ensures |f| == 6 && f[0] == PixelRegister(k)
    ensures f[1..5] == pixels[3 * k..3 * k + 3] + [FullBrightness] && f[5] == extra
  {
    [PixelRegister(k)] + pixels[3 * k..3 * k + 3] + [FullBrightness, extra]
  }

  /** The events of `_set_leds` for LEDs 0 .. n-1: one transaction per LED, then a pause. */
  function CommitOps(pixels: seq<byte>, extra: byte, n: nat): (ops: seq<BusOp>)
    requires |pixels| >= 3 * LedCount && n <= LedCount
    ensures |ops| == 4 * n
  {
    if n == 0 then []
    else CommitOps(pixels, extra, n - 1) + [Acquire, Write(CommitFrame(pixels, n - 1, extra)), Release, Sleep]
  }

  /** `_set_leds` gives every LED a transaction of its own: transaction k acquires the bus,
      writes LED k's frame, releases the bus, and is followed by a pause. */
  lemma {:induction false} CommitOpsShape(pixels: seq<byte>, extra: byte, n: nat)
    requires |pixels| >= 3 * LedCount && n <= LedCount
    ensures var ops := CommitOps(pixels, extra, n);
            forall k :: 0 <= k < n ==>
              && ops[4 * k] == Acquire && ops[4 * k + 1] == Write(CommitFrame(pixels, k, extra))
              && ops[4 * k + 2] == Release && ops[4 * k + 3] == Sleep
  {
    if n > 0 {
      CommitOpsShape(pixels, extra, n - 1);
    }
  }

  /** `_set_leds` slices three octets per LED, so the octets of a longer buffer past the
      27th never reach the bus. */
  lemma {:induction false} CommitOpsIgnoresTail(pixels: seq<byte>, extra: byte, n: nat)
    requires |pixels| >= 3 * LedCount && n <= LedCount
    ensures CommitOps(pixels, extra, n) == CommitOps(pixels[..3 * LedCount], extra, n)
  {
    if n > 0 {
      CommitOpsIgnoresTail(pixels, extra, n - 1);
      var k := n - 1;
      assert pixels[..3 * LedCount][3 * k..3 * k + 3] == pixels[3 * k..3 * k + 3];
    }
  }

  /** The events of `fill` for LEDs 0 .. n-1: one `set_led` transaction per LED, then a pause. */
  function FillOps(rgb: seq<byte>, brightness: byte, n: nat): (ops: seq<BusOp>)
    requires |rgb| == 3 && n <= LedCount
    ensures |ops| == 4 * n
  {
    if n == 0 then []
    else FillOps(rgb, brightness, n - 1) + [Acquire, Write(LedFrame(n - 1, rgb, brightness)), Release, Sleep]
  }

  /** `fill` gives every LED a `set_led` transaction of its own, each followed by a pause. */
  lemma {:induction false} FillOpsShape(rgb: seq<byte>, brightness: byte, n: nat)
    requires |rgb| == 3 && n <= LedCount
    ensures var ops := FillOps(rgb, brightness, n);
            forall k :: 0 <= k < n ==>
              && ops[4 * k] == Acquire && ops[4 * k + 1] == Write(LedFrame(k, rgb, brightness))
              && ops[4 * k + 2] == Release && ops[4 * k + 3] == Sleep
  {
    if n > 0 {
      FillOpsShape(rgb, brightness, n - 1);
    }
  }

  /** Writing LED n-1's `_set_leds` frame over a register file where LEDs 0 .. n-2 hold
      their octets: LEDs 0 .. n-1 then hold theirs, the sixth octet lands one register past
      LED n-1's record, and registers outside the frame keep their values. */
  lemma CommitStep(m0: map<int, byte>, pixels: seq<byte>, extra: byte, n: nat)
    requires |pixels| >= 3 * LedCount && 0 < n <= LedCount
    requires forall k :: 0 <= k < n - 1 ==> Holds(m0, PixelRegister(k), pixels[3 * k..3 * k + 3] + [FullBrightness])
    ensures var m := Store(m0, CommitFrame(pixels, n - 1, extra));
            && (forall k :: 0 <= k < n ==> Holds(m, PixelRegister(k), pixels[3 * k..3 * k + 3] + [FullBrightness]))
            && PixelsRegister + 4 * n in m && m[PixelsRegister + 4 * n] == extra
            && (forall a :: a in m0 && (a < PixelsRegister + 4 * (n - 1) || a > PixelsRegister + 4 * n) ==> a in m && m[a] == m0[a])
  {
    var frame := CommitFrame(pixels, n - 1, extra);
    var m := Store(m0, frame);
    forall k | 0 <= k < n
      ensures Holds(m, PixelRegister(k), pixels[3 * k..3 * k + 3] + [FullBrightness])
    {
      var vals := pixels[3 * k..3 * k + 3] + [FullBrightness];
      if k == n - 1 {
        assert frame[1..|vals| + 1] == vals;
        HoldsStored(m0, frame, vals);
      } else {
        HoldsUntouched(m0, frame, PixelRegister(k), vals);
      }
    }
    assert frame[1..][4] == extra;
  }

  /** What `_set_leds` leaves after LEDs 0 .. n-1 (`regs` before, `m` after): each of
      them holds its pixel octets at full brightness; the sixth octet of frame k spills
      into the first register of LED k+1 and is overwritten by the next frame, so only the
      last spill survives, one register past the last record written; registers outside
      the written records keep their values. */
  ghost predicate CommitLeaves(regs: map<int, byte>, m: map<int, byte>, pixels: seq<byte>, extra: byte, n: nat)
    requires |pixels| >= 3 * LedCount && n <= LedCount
  {
    && (forall k :: 0 <= k < n ==> Holds(m, PixelRegister(k), pixels[3 * k..3 * k + 3] + [FullBrightness]))
    && (n > 0 ==> PixelsRegister + 4 * n in m && m[PixelsRegister + 4 * n] == extra)
    && (forall a :: a in regs && (a < PixelsRegister || a > PixelsRegister + 4 * n) ==> a in m && m[a] == regs[a])
  }

  lemma CommitEffectStep(regs: map<int, byte>, pixels: seq<byte>, extra: byte, n: nat)
    requires |pixels| >= 3 * LedCount && 0 < n <= LedCount
    requires CommitLeaves(regs, Effect(regs, CommitOps(pixels, extra, n - 1)), pixels, extra, n - 1)
    ensures CommitLeaves(regs, Effect(regs, CommitOps(pixels, extra, n)), pixels, extra, n)
  {
    var prev := CommitOps(pixels, extra, n - 1);
    var frame := CommitFrame(pixels, n - 1, extra);
    assert CommitOps(pixels, extra, n) == prev + ([Acquire, Write(frame), Release] + [Sleep]);
    EffectStep(regs, prev, frame, [Sleep]);
    CommitStep(Effect(regs, prev), pixels, extra, n);
  }

  /** `_set_leds` for LEDs 0 .. n-1 leaves the register file as `CommitLeaves` says. */
  lemma {:induction false} CommitEffectUpTo(regs: map<int, byte>, pixels: seq<byte>, extra: byte, n: nat)
    requires |pixels| >= 3 * LedCount && n <= LedCount
    ensures CommitLeaves(regs, Effect(regs, CommitOps(pixels, extra, n)), pixels, extra, n)
  {
    if n > 0 {
      CommitEffectUpTo(regs, pixels, extra, n - 1);
      CommitEffectStep(regs, pixels, extra, n);
    }
  }

  /** `_set_leds` leaves every LED holding its three pixel octets at full brightness. */
  lemma CommitEffect(regs: map<int, byte>, pixels: seq<byte>, extra: byte, k: int)
    requires |pixels| >= 3 * LedCount && 0 <= k < LedCount
    ensures Holds(Effect(regs, CommitOps(pixels, extra, LedCount)), PixelRegister(k), pixels[3 * k..3 * k + 3] + [FullBrightness])
  {
    CommitEffectUpTo(regs, pixels, extra, LedCount);
  }

  /** Writing LED n-1's `set_led` frame over a register file where LEDs 0 .. n-2 hold the
      colour: LEDs 0 .. n-1 then hold it, and registers outside LED n-1's record keep
      their values. */
  lemma FillStep(m0: map<int, byte>, rgb: seq<byte>, brightness: byte, n: nat)
    requires |rgb| == 3 && 0 < n <= LedCount
    requires forall k :: 0 <= k < n - 1 ==> Holds(m0, PixelRegister(k), rgb + [brightness])
    ensures var m := Store(m0, LedFrame(n - 1, rgb, brightness));
            && (forall k :: 0 <= k < n ==> Holds(m, PixelRegister(k), rgb + [brightness]))
            && (forall a :: a in m0 && (a < PixelsRegister + 4 * (n - 1) || a >= PixelsRegister + 4 * n) ==> a in m && m[a] == m0[a])
  {
    var frame := LedFrame(n - 1, rgb, brightness);
    var vals := rgb + [brightness];
    forall k | 0 <= k < n
      ensures Holds(Store(m0, frame), PixelRegister(k), vals)
    {
      if k == n - 1 {
        assert frame[1..|vals| + 1] == vals;
        HoldsStored(m0, frame, vals);
      } else {
        HoldsUntouched(m0, frame, PixelRegister(k), vals);
      }
    }
  }

  /** What `fill` leaves after LEDs 0 .. n-1 (`regs` before, `m` after): each of them
      holds the colour at the given brightness, and nothing outside their records has
      changed. */
  ghost predicate FillLeaves(regs: map<int, byte>, m: map<int, byte>, rgb: seq<byte>, brightness: byte, n: nat)
    requires n <= LedCount
  {
    && (forall k :: 0 <= k < n ==> Holds(m, PixelRegister(k), rgb + [brightness]))
    && (forall a :: a in regs && (a < PixelsRegister || a >= PixelsRegister + 4 * n) ==> a in m && m[a] == regs[a])
  }

  lemma FillEffectStep(regs: map<int, byte>, rgb: seq<byte>, brightness: byte, n: nat)
    requires |rgb| == 3 && 0 < n <= LedCount
    requires FillLeaves(regs, Effect(regs, FillOps(rgb, brightness, n - 1)), rgb, brightness, n - 1)
    ensures FillLeaves(regs, Effect(regs, FillOps(rgb, brightness, n)), rgb, brightness, n)
  {
    var prev := FillOps(rgb, brightness, n - 1);
    var frame := LedFrame(n - 1, rgb, brightness);
    assert FillOps(rgb, brightness, n) == prev + ([Acquire, Write(frame), Release] + [Sleep]);
    EffectStep(regs, prev, frame, [Sleep]);
    FillStep(Effect(regs, prev), rgb, brightness, n);
  }

  /** `fill` for LEDs 0 .. n-1 leaves the register file as `FillLeaves` says. */
  lemma {:induction false} FillEffectUpTo(regs: map<int, byte>, rgb: seq<byte>, brightness: byte, n: nat)
    requires |rgb| == 3 && n <= LedCount
    ensures FillLeaves(regs, Effect(regs, FillOps(rgb, brightness, n)), rgb, brightness, n)
  {
    if n > 0 {
      FillEffectUpTo(regs, rgb, brightness, n - 1);
      FillEffectStep(regs, rgb, brightness, n);
    }
  }

  /** The Unit8 Angle device: `self.device`, `self.register`, `self.buffer` and `self._precision`. */
  class Unit8Angle {
    const device: I2CDevice
    const register: array<byte>
    const buffer: array<byte>
    var precision: int

    ghost predicate Valid()
      reads this
    {
      register.Length == 1 && buffer.Length == 2 * ChannelCount && register != buffer && IsPrecision(precision)
    }

    /** `__init__` up to `self._precision = PRECISION_8BITS`; the pixel buffer object is
        built separately (see `Pixels`). */
    constructor (address: int := DefaultAddress)
      ensures Valid() && precision == Precision8Bits
      ensures fresh(device) && fresh(register) && fresh(buffer)
      ensures device.address == address && device.trace == []
      ensures register[..] == [0] && buffer[..] == seq(2 * ChannelCount, _ => 0)
    {
      device := new I2CDevice(address);
      register := new byte[1](_ => 0);
      buffer := new byte[2 * ChannelCount](_ => 0);
      precision := Precision8Bits;
    }

    /** `__init__` in full: `_precision` starts at 8, then the requested precision (12 when
        none is given) goes through the setter, whose `ValueError` escapes the constructor. */
    static method Create(address: int := DefaultAddress, precision: int := DefaultPrecision) returns (r: Result<Unit8Angle>)
      ensures r.Failure? <==> !IsPrecision(precision)
      ensures r.Failure? ==> r.error == ValueError
      ensures r.Success? ==>
                && fresh(r.value) && fresh(r.value.device) && fresh(r.value.register) && fresh(r.value.buffer)
                && r.value.Valid() && r.value.precision == precision
                && r.value.device.address == address && r.value.device.trace == []
                && r.value.register[..] == [0] && r.value.buffer[..] == seq(2 * ChannelCount, _ => 0)
    {
      var unit := new Unit8Angle(address);
      var outcome := unit.SetPrecision(precision);
      if outcome.Fail? {
        return Failure(outcome.error);
      }
      return Success(unit);
    }

    /** The `precision` setter: only 8 and 12 are accepted; otherwise nothing changes. */
    method SetPrecision(value: int) returns (r: Outcome)
      requires Valid()
      modifies this`precision
      ensures Valid()
      ensures r.Fail? <==> !IsPrecision(value)
      ensures r.Fail? ==> r.error == ValueError
      ensures precision == if r.Pass? then value else old(precision)
    {
      if !IsPrecision(value) {
        return Fail(ValueError);
      }
      precision := value;
      r := Pass;
    }

    /** `get_angle_12bit`: one register read of two octets, decoded little-endian. */
    method GetAngle12Bit(num: int) returns (r: Result<nat>)
      requires Valid()
      modifies register, buffer, device
      ensures r.Failure? <==> !(0 <= num < ChannelCount)
      ensures r.Failure? ==> r.error == ValueError && unchanged(register, buffer) && device.trace == old(device.trace)
      ensures r.Success? ==>
                && register[0] == Angle12Register(num) && buffer[2..] == old(buffer[2..])
                && device.trace == old(device.trace) + RegisterRead(Angle12Register(num), buffer[..2])
                && r.value == DecodeU16LE(buffer[..2])
    {
      if !(0 <= num < ChannelCount) {
        return Failure(ValueError);
      }
      device.Enter();
      SelectAndRead(device, register, buffer, Angle12Register(num), 0, 2);
      device.Exit();
      r := Success(DecodeU16LE(buffer[..2]));
    }

    /** `get_angle_8bit`: one register read of one octet. */
    method GetAngle8Bit(num: int) returns (r: Result<nat>)
      requires Valid()
      modifies register, buffer, device
      ensures r.Failure? <==> !(0 <= num < ChannelCount)
      ensures r.Failure? ==> r.error == ValueError && unchanged(register, buffer) && device.trace == old(device.trace)
      ensures r.Success? ==>
                && register[0] == Angle8Register(num) && buffer[1..] == old(buffer[1..])
                && device.trace == old(device.trace) + RegisterRead(Angle8Register(num), buffer[..1])
                && r.value == buffer[0]
    {
      if !(0 <= num < ChannelCount) {
        return Failure(ValueError);
      }
      device.Enter();
      SelectAndRead(device, register, buffer, Angle8Register(num), 0, 1);
      device.Exit();
      r := Success(buffer[0]);
    }

    /** `get_angle`: the reading of the current precision, rescaled to 0..65535. */
    method GetAngle(num: int) returns (r: Result<nat>)
      requires Valid()
      modifies register, buffer, device
      ensures r.Failure? <==> !(0 <= num < ChannelCount)
      ensures r.Failure? ==> r.error == ValueError && unchanged(register, buffer) && device.trace == old(device.trace)
      ensures r.Success? && precision == Precision8Bits ==>
                && register[0] == Angle8Register(num) && buffer[1..] == old(buffer[1..])
                && device.trace == old(device.trace) + RegisterRead(Angle8Register(num), buffer[..1])
                && r.value == Normalize(buffer[0], precision) == buffer[0] as int * 257
      ensures r.Success? && precision == Precision12Bits ==>
                && register[0] == Angle12Register(num) && buffer[2..] == old(buffer[2..])
                && device.trace == old(device.trace) + RegisterRead(Angle12Register(num), buffer[..2])
                && r.value == Normalize(DecodeU16LE(buffer[..2]), precision)
    {
      var raw;
      if precision == Precision8Bits {
        raw := GetAngle8Bit(num);
        if raw.Success? {
          Normalize8BitsIsExact(raw.value);
        }
      } else {
        raw := GetAngle12Bit(num);
      }
      if raw.Failure? {
        return Failure(raw.error);
      }
      r := Success(Normalize(raw.value, precision));
    }

    /** `angles_12bit`: under one bus acquisition, channel by channel, select the channel's
        register, read its two octets into its own slice of the scratch buffer, and pause. */
    method Angles12Bit() returns (r: seq<nat>)
      requires Valid()
      modifies register, buffer, device
      ensures |r| == ChannelCount
      ensures forall i :: 0 <= i < ChannelCount ==> r[i] == DecodeU16LE(buffer[2 * i..2 * i + 2])
      ensures register[0] == Angle12Register(ChannelCount - 1)
      ensures device.trace == old(device.trace) + [Acquire] + ScanOps(Angle12BitsRegister, 2, 2, true, buffer[..], ChannelCount) + [Release]
    {
      device.Enter();
      Scan(device, register, buffer, ChannelCount, Angle12BitsRegister, 2, 2, true);
      device.Exit();
      r := UnpackU16LE(buffer[..]);
    }

    /** `angles_8bit`: as `angles_12bit`, one octet per channel from register 0x10 into
        the first eight octets of the scratch buffer. */
    method Angles8Bit() returns (r: seq<nat>)
      requires Valid()
      modifies register, buffer, device
      ensures |r| == ChannelCount
      ensures forall i :: 0 <= i < ChannelCount ==> r[i] == buffer[i]
      ensures buffer[ChannelCount..] == old(buffer[ChannelCount..])
      ensures register[0] == Angle8Register(ChannelCount - 1)
      ensures device.trace == old(device.trace) + [Acquire] + ScanOps(Angle8BitsRegister, 1, 1, true, buffer[..], ChannelCount) + [Release]
    {
      device.Enter();
      Scan(device, register, buffer, ChannelCount, Angle8BitsRegister, 1, 1, true);
      device.Exit();
      r := buffer[..ChannelCount];
    }

    /** The `angles` property: every channel of the current precision, rescaled. */
    method Angles() returns (r: seq<nat>)
      requires Valid()
      modifies register, buffer, device
      ensures |r| == ChannelCount
      ensures precision == Precision8Bits ==>
                && (forall i :: 0 <= i < ChannelCount ==> r[i] == Normalize(buffer[i], precision))
                && register[0] == Angle8Register(ChannelCount - 1)
                && buffer[ChannelCount..] == old(buffer[ChannelCount..])
                && device.trace == old(device.trace) + [Acquire] + ScanOps(Angle8BitsRegister, 1, 1, true, buffer[..], ChannelCount) + [Release]
      ensures precision == Precision12Bits ==>
                && (forall i :: 0 <= i < ChannelCount ==> r[i] == Normalize(DecodeU16LE(buffer[2 * i..2 * i + 2]), precision))
                && register[0] == Angle12Register(ChannelCount - 1)
                && device.trace == old(device.trace) + [Acquire] + ScanOps(Angle12BitsRegister, 2, 2, true, buffer[..], ChannelCount) + [Release]
    {
      var raws;
      if precision == Precision8Bits {
        raws := Angles8Bit();
      } else {
        raws := Angles12Bit();
      }
      var p := precision;
      r := seq(ChannelCount, i requires 0 <= i < ChannelCount => Normalize(raws[i], p));
    }

    /** The `switch` property: one register read of one octet; any non-zero octet is on. */
    method Switch() returns (on: bool)
      requires Valid()
      modifies register, buffer, device
      ensures register[0] == SwitchRegister && buffer[1..] == old(buffer[1..])
      ensures device.trace == old(device.trace) + RegisterRead(SwitchRegister, buffer[..1])
      ensures on <==> buffer[0] != 0
    {
      device.Enter();
      SelectAndRead(device, register, buffer, SwitchRegister, 0, 1);
      device.Exit();
      on := buffer[0] != 0;
    }

    /** `set_led`: the arguments are checked before anything is touched; then one frame of
        five octets goes out in one transaction. */
    method SetLed(position: int, color: ColorArg, brightness: int := DefaultBrightness) returns (r: Outcome)
      requires Valid()
      modifies buffer, device
      ensures r.Fail? <==> !(0 <= position < LedCount) || !(0 <= brightness <= 100) || ColorBytes(color).Failure?
      ensures r.Fail? ==> unchanged(buffer) && device.trace == old(device.trace)
      ensures r.Fail? ==> r.error == if !(0 <= position < LedCount) || !(0 <= brightness <= 100) then ValueError else ColorBytes(color).error
      ensures r.Pass? ==>
                && buffer[..5] == LedFrame(position, ColorBytes(color).value, brightness)
                && buffer[5..] == old(buffer[5..])
                && device.trace == old(device.trace) + [Acquire, Write(buffer[..5]), Release]
    {
      if !(0 <= position < LedCount) {
        return Fail(ValueError);
      }
      if !(0 <= brightness <= 100) {
        return Fail(ValueError);
      }
      var rgb := ColorBytes(color);
      if rgb.Failure? {
        return Fail(rgb.error);
      }
      buffer[0] := PixelRegister(position);
      buffer[1], buffer[2], buffer[3] := rgb.value[0], rgb.value[1], rgb.value[2];
      buffer[4] := brightness;
      device.Enter();
      device.Write(buffer[..5]);
      device.Exit();
      r := Pass;
    }

    /** `get_led`: select the LED's record, read its four octets, return the colour. */
    method GetLed(position: int) returns (r: Result<seq<byte>>)
      requires Valid()
      modifies register, buffer, device
      ensures r.Failure? <==> !(0 <= position < LedCount)
      ensures r.Failure? ==> r.error == ValueError && unchanged(register, buffer) && device.trace == old(device.trace)
      ensures r.Success? ==>
                && register[0] == PixelRegister(position) && buffer[4..] == old(buffer[4..])
                && device.trace == old(device.trace) + RegisterRead(PixelRegister(position), buffer[..4])
                && r.value == buffer[..3]
    {
      if !(0 <= position < LedCount) {
        return Failure(ValueError);
      }
      device.Enter();
      SelectAndRead(device, register, buffer, PixelRegister(position), 0, 4);
      device.Exit();
      r := Success(buffer[..3]);
    }

    /** Fills the first five scratch octets with LED `led`'s commit frame. */
    method StageCommitFrame(pixels: seq<byte>, led: int)
      requires Valid() && |pixels| >= 3 * LedCount && 0 <= led < LedCount
      modifies buffer
      ensures buffer[..6] == CommitFrame(pixels, led, old(buffer[5]))
      ensures buffer[5..] == old(buffer[5..])
    {
      buffer[0] := PixelRegister(led);
      buffer[1], buffer[2], buffer[3] := pixels[led * 3], pixels[led * 3 + 1], pixels[led * 3 + 2];
      buffer[4] := FullBrightness;
    }

    /** `_set_leds`: one six-octet frame per LED, each in its own transaction and followed
        by a pause; the sixth octet is whatever the scratch buffer held there. */
    method SetLeds(pixels: seq<byte>)
      requires Valid() && |pixels| >= 3 * LedCount
      modifies buffer, device
      ensures buffer[..6] == CommitFrame(pixels, LedCount - 1, old(buffer[5]))
      ensures buffer[6..] == old(buffer[6..])
      ensures device.trace == old(device.trace) + CommitOps(pixels, old(buffer[5]), LedCount)
    {
      ghost var extra := buffer[5];
      var led := 0;
      while led < LedCount
        invariant 0 <= led <= LedCount
        invariant buffer[5] == extra && buffer[6..] == old(buffer[6..])
        invariant led > 0 ==> buffer[..6] == CommitFrame(pixels, led - 1, extra)
        invariant device.trace == old(device.trace) + CommitOps(pixels, extra, led)
      {
        StageCommitFrame(pixels, led);
        device.Enter();
        device.Write(buffer[..6]);
        device.Exit();
        device.Pause();
        assert CommitOps(pixels, extra, led + 1)
            == CommitOps(pixels, extra, led) + [Acquire, Write(buffer[..6]), Release, Sleep];
        led := led + 1;
      }
    }

    /** `fill`: `set_led` on every LED in order, with a pause after each. The colour and
        brightness are the same for every call, so either the first call fails and nothing
        is sent, or all succeed. */
    method Fill(color: ColorArg, brightness: int := DefaultBrightness) returns (r: Outcome)
      requires Valid()
      modifies buffer, device
      ensures r.Fail? <==> !(0 <= brightness <= 100) || ColorBytes(color).Failure?
      ensures r.Fail? ==> r.error == (if !(0 <= brightness <= 100) then ValueError else ColorBytes(color).error)
      ensures r.Fail? ==> unchanged(buffer) && device.trace == old(device.trace)
      ensures r.Pass? ==>
                && buffer[..5] == LedFrame(LedCount - 1, ColorBytes(color).value, brightness)
                && buffer[5..] == old(buffer[5..])
                && device.trace == old(device.trace) + FillOps(ColorBytes(color).value, brightness, LedCount)
    {
      var i := 0;
      while i < LedCount
        invariant 0 <= i <= LedCount
        invariant buffer[5..] == old(buffer[5..])
        invariant i == 0 ==> unchanged(buffer) && device.trace == old(device.trace)
        invariant i > 0 ==> 0 <= brightness <= 100 && ColorBytes(color).Success?
        invariant i > 0 ==> buffer[..5] == LedFrame(i - 1, ColorBytes(color).value, brightness)
        invariant i > 0 ==> device.trace == old(device.trace) + FillOps(ColorBytes(color).value, brightness, i)
      {
        var outcome := SetLed(i, color, brightness);
        if outcome.Fail? {
          return outcome;
        }
        device.Pause();
        i := i + 1;
      }
      r := Pass;
    }
  }

  /** `_U8_Pixels`: the pixel buffer of nine RGB pixels. Only its `_transmit` hook is
      modelled; the buffer itself belongs to the pixel-buffer library. */
  class Pixels {
    const unit8: Unit8Angle

    constructor (unit8: Unit8Angle)
      ensures this.unit8 == unit8
    {
      this.unit8 := unit8;
    }

    /** `_transmit`: the serialized pixels go to the device's `_set_leds`. */
    method Transmit(pixels: seq<byte>)
      requires unit8.Valid() && |pixels| >= 3 * LedCount
      modifies unit8.buffer, unit8.device
      ensures unit8.buffer[..6] == CommitFrame(pixels, LedCount - 1, old(unit8.buffer[5]))
      ensures unit8.buffer[6..] == old(unit8.buffer[6..])
      ensures unit8.device.trace == old(unit8.device.trace) + CommitOps(pixels, old(unit8.buffer[5]), LedCount)
    {
      unit8.SetLeds(pixels);
    }
  }
}
