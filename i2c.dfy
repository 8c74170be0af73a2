/** The bus as the drivers see it. The transport (`adafruit_bus_device.I2CDevice`) is
    foreign: here it records every event in a ghost trace, and a read delivers whatever
    octets the peripheral sends, which the trace records too. */
module I2C {
  import opened Bytes

  /** One event of a driver call, in the order it happens. */
  datatype BusOp =
    | Acquire                            // entering `with self.device as bus`: the bus is locked
    | Write(data: seq<byte>)             // `bus.write`: one frame, a register address then its payload
    | Read(start: nat, data: seq<byte>)  // `bus.readinto`: the octets received, stored from `start` on
    | Sleep                              // `time.sleep(0.0008)` between per-channel transactions
    | Release                            // leaving the `with` block: the bus is unlocked

  /** The transport bound to one peripheral address. */
  class I2CDevice {
    const address: int
    ghost var trace: seq<BusOp>

    constructor (address: int)
      ensures this.address == address && trace == []
    {
      this.address := address;
      trace := [];
    }

    method Enter()
      modifies this
      ensures trace == old(trace) + [BusOp.Acquire]
    {
      trace := trace + [BusOp.Acquire];
    }

    method Exit()
      modifies this
      ensures trace == old(trace) + [BusOp.Release]
    {
      trace := trace + [BusOp.Release];
    }

    method Write(data: seq<byte>)
      modifies this
      ensures trace == old(trace) + [BusOp.Write(data)]
    {
      trace := trace + [BusOp.Write(data)];
    }

    /** Receive `end - start` octets into `buf[start..end]`; what the peripheral sends is
        not known to the driver, so any octets may arrive. */
    method ReadInto(buf: array<byte>, start: nat, end: nat)
      requires start <= end <= buf.Length
      modifies this, buf
      ensures buf[..start] == old(buf[..start]) && buf[end..] == old(buf[end..])
      ensures trace == old(trace) + [BusOp.Read(start, buf[start..end])]
    {
      var k := start;
      while k < end
        invariant start <= k <= end
        invariant buf[..start] == old(buf[..start]) && buf[end..] == old(buf[end..])
        invariant trace == old(trace)
      {
        var b: byte := *;
        buf[k] := b;
        k := k + 1;
      }
      trace := trace + [BusOp.Read(start, buf[start..end])];
    }

    /** `time.sleep`, recorded with the bus events so that its place among them is known. */
    method Pause()
      modifies this
      ensures trace == old(trace) + [BusOp.Sleep]
    {
      trace := trace + [BusOp.Sleep];
    }
  }

  /** A single-register read as both drivers issue it: select the register, then read,
      as two operations with a stop between them (never a combined write-then-read). */
  function RegisterRead(reg: byte, reply: seq<byte>): seq<BusOp>
  {
    [Acquire, Write([reg]), Read(0, reply), Release]
  }

  /** The events for one channel of a multi-channel read. */
  function ChannelOps(reg: byte, start: nat, reply: seq<byte>, settle: bool): (ops: seq<BusOp>)
    ensures |ops| == StepLength(settle)
    ensures ops[0] == Write([reg]) && ops[1] == Read(start, reply) && (settle ==> ops[2] == Sleep)
  {
    [Write([reg]), Read(start, reply)] + if settle then [Sleep] else []
  }

  /** Events per channel of a multi-channel read. */
  function StepLength(settle: bool): nat
  {
    if settle then 3 else 2
  }

  /** The events of channels 0 .. n-1 of a multi-channel read inside one bus acquisition:
      channel i selects register `base + stride * i` and reads `width` octets into the
      scratch buffer at `width * i`, followed by a pause when `settle` holds. `data` is
      the scratch buffer after the reads. */
  function ScanOps(base: nat, stride: nat, width: nat, settle: bool, data: seq<byte>, n: nat): seq<BusOp>
    requires n == 0 || base + stride * (n - 1) < 256
    requires width * n <= |data|
  {
    if n == 0 then []
    else
      MulMonotone(stride, n - 1, n);
      MulMonotone(width, n - 1, n);
      ScanOps(base, stride, width, settle, data, n - 1)
      + ChannelOps(base + stride * (n - 1), width * (n - 1), data[width * (n - 1)..width * n], settle)
  }

  lemma MulMonotone(c: nat, a: nat, b: nat)
    requires a <= b
    ensures c * a <= c * b
  {
  }

  /** Channel `num` of a scan of n channels selects a register that fits in an octet and
      reads a slice that fits in the octets of all n channels. */
  lemma ScanFits(base: nat, stride: nat, width: nat, num: nat, n: nat)
    requires num < n && base + stride * (n - 1) < 256
    ensures base + stride * num < 256
    ensures width * (num + 1) == width * num + width <= width * n
  {
    MulMonotone(stride, num, n - 1);
    MulMonotone(width, num + 1, n);
  }

  /** A scan only depends on the part of the buffer it has filled. */
  lemma {:induction false} ScanOpsPrefix(base: nat, stride: nat, width: nat, settle: bool, d1: seq<byte>, d2: seq<byte>, n: nat)
    requires n == 0 || base + stride * (n - 1) < 256
    requires width * n <= |d1| && width * n <= |d2|
    requires d1[..width * n] == d2[..width * n]
    ensures ScanOps(base, stride, width, settle, d1, n) == ScanOps(base, stride, width, settle, d2, n)
  {
    if n > 0 {
      MulMonotone(stride, n - 1, n);
      MulMonotone(width, n - 1, n);
      assert d1[..width * (n - 1)] == d1[..width * n][..width * (n - 1)];
      assert d2[..width * (n - 1)] == d2[..width * n][..width * (n - 1)];
      ScanOpsPrefix(base, stride, width, settle, d1, d2, n - 1);
      assert d1[width * (n - 1)..width * n] == d1[..width * n][width * (n - 1)..];
      assert d2[width * (n - 1)..width * n] == d2[..width * n][width * (n - 1)..];
    }
  }

  /** Extending a scan by one channel: the channels already read keep their events, and
      the new channel's events come last. */
  lemma ScanOpsStep(base: nat, stride: nat, width: nat, settle: bool, before: seq<byte>, after: seq<byte>, n: nat)
    requires base + stride * n < 256
    requires width * (n + 1) <= |before| && width * (n + 1) <= |after|
    requires before[..width * n] == after[..width * n]
    ensures base + stride * n < 256 && width * n + width <= |after|
    ensures ScanOps(base, stride, width, settle, after, n + 1)
            == ScanOps(base, stride, width, settle, before, n)
               + ChannelOps(base + stride * n, width * n, after[width * n..width * n + width], settle)
  {
    if n > 0 {
      MulMonotone(stride, n - 1, n);
    }
    MulMonotone(width, n, n + 1);
    ScanOpsPrefix(base, stride, width, settle, before, after, n);
  }

  /** The state of a scan of `count` channels after channels 0 .. n-1: `last` is the
      register selected last, the octets past the scan's slices are still `tail`, and
      the history is `t0` followed by the events of those channels. */
  ghost predicate ScanReached(base: nat, stride: nat, width: nat, settle: bool, count: nat, n: nat,
                              last: int, data: seq<byte>, tail: seq<byte>, t0: seq<BusOp>, trace: seq<BusOp>)
  {
    && n <= count && base + stride * (count - 1) < 256 && width * count <= |data|
    && (n == 0 || base + stride * (n - 1) < 256) && width * n <= width * count
    && (n > 0 ==> last == base + stride * (n - 1))
    && data[width * count..] == tail
    && trace == t0 + ScanOps(base, stride, width, settle, data, n)
  }

  /** Reading channel n into its own slice, and nothing else, takes a scan from n
      channels to n + 1. */
  lemma ScanReachedStep(base: nat, stride: nat, width: nat, settle: bool, count: nat, n: nat, last: int, reg: byte,
                        before: seq<byte>, after: seq<byte>, tail: seq<byte>, t0: seq<BusOp>, trace: seq<BusOp>)
    requires n < count && ScanReached(base, stride, width, settle, count, n, last, before, tail, t0, trace)
    requires reg as int == base + stride * n && width * n + width <= width * count
    requires |after| == |before| && after[..width * n] == before[..width * n]
    requires after[width * n + width..] == before[width * n + width..]
    ensures ScanReached(base, stride, width, settle, count, n + 1, reg, after, tail, t0,
                        trace + ChannelOps(reg, width * n, after[width * n..width * n + width], settle))
  {
    ScanFits(base, stride, width, n, count);
    assert after[width * count..] == after[width * n + width..][width * count - (width * n + width)..];
    assert before[width * count..] == before[width * n + width..][width * count - (width * n + width)..];
    ScanOpsStep(base, stride, width, settle, before, after, n);
  }

  /** The step every register read repeats inside a bus acquisition: the one-octet
      register array selects `reg`, then `end - start` octets arrive in the scratch
      buffer from `start`. */
  method SelectAndRead(device: I2CDevice, register: array<byte>, buffer: array<byte>, reg: byte, start: nat, end: nat)
    requires register.Length == 1 && register != buffer && start <= end <= buffer.Length
    modifies register, buffer, device
    ensures register[0] == reg
    ensures buffer[..start] == old(buffer[..start]) && buffer[end..] == old(buffer[end..])
    ensures device.trace == old(device.trace) + [Write([reg]), Read(start, buffer[start..end])]
  {
    register[0] := reg;
    assert register[..] == [reg];
    device.Write(register[..]);
    device.ReadInto(buffer, start, end);
  }

  /** The state of `Scan` after channels 0 .. num-1 (see `ScanReached`). */
  ghost predicate Scanned(device: I2CDevice, register: array<byte>, buffer: array<byte>, count: nat,
                          base: nat, stride: nat, width: nat, settle: bool, num: nat, t0: seq<BusOp>, tail: seq<byte>)
    reads register, buffer, device
  {
    && register.Length == 1 && register != buffer
    && ScanReached(base, stride, width, settle, count, num, register[0], buffer[..], tail, t0, device.trace)
  }

  /** One pass of `Scan`'s loop: select channel `num`'s register, read its `width`
      octets into its own slice of the scratch buffer, and pause when `settle` holds. */
  method ScanChannel(device: I2CDevice, register: array<byte>, buffer: array<byte>, count: nat,
                     base: nat, stride: nat, width: nat, settle: bool, num: nat, ghost t0: seq<BusOp>, ghost tail: seq<byte>)
    requires num < count && Scanned(device, register, buffer, count, base, stride, width, settle, num, t0, tail)
    modifies register, buffer, device
    ensures Scanned(device, register, buffer, count, base, stride, width, settle, num + 1, t0, tail)
  {
    ScanFits(base, stride, width, num, count);
    ghost var before, trace := buffer[..], device.trace;
    var reg := (base + stride * num) as byte;
    SelectAndRead(device, register, buffer, reg, width * num, width * num + width);
    if settle {
      device.Pause();
    }
    assert device.trace == trace + ChannelOps(reg, width * num, buffer[width * num..width * num + width], settle);
    ScanReachedStep(base, stride, width, settle, count, num, old(register[0]), reg, before, buffer[..], tail, t0, trace);
  }

  /** The loop every multi-channel read runs inside its bus acquisition: for channels
      0 .. count-1 in turn, select register `base + stride * num`, read `width` octets
      into the scratch buffer at `width * num`, and pause after each when `settle` holds. */
  method Scan(device: I2CDevice, register: array<byte>, buffer: array<byte>, count: nat,
              base: nat, stride: nat, width: nat, settle: bool)
    requires register.Length == 1 && register != buffer
    requires 0 < count && base + stride * (count - 1) < 256 && width * count <= buffer.Length
    modifies register, buffer, device
    ensures register[0] as int == base + stride * (count - 1)
    ensures buffer[width * count..] == old(buffer[width * count..])
    ensures device.trace == old(device.trace) + ScanOps(base, stride, width, settle, buffer[..], count)
  {
    ghost var t0, tail := device.trace, buffer[width * count..];
    var num := 0;
    while num < count
      invariant Scanned(device, register, buffer, count, base, stride, width, settle, num, t0, tail)
    {
      ScanChannel(device, register, buffer, count, base, stride, width, settle, num, t0, tail);
      num := num + 1;
    }
  }

  /** A scan of n channels has exactly n steps. */
  lemma {:induction false} ScanOpsLength(base: nat, stride: nat, width: nat, settle: bool, data: seq<byte>, n: nat)
    requires n == 0 || base + stride * (n - 1) < 256
    requires width * n <= |data|
    ensures |ScanOps(base, stride, width, settle, data, n)| == StepLength(settle) * n
  {
    if n > 0 {
      if n > 1 {
        MulMonotone(stride, n - 2, n - 1);
      }
      MulMonotone(width, n - 1, n);
      ScanOpsLength(base, stride, width, settle, data, n - 1);
    }
  }

  /** Step i of a scan of n channels selects channel i's register, reads channel i's
      octets into its own slice, and pauses when `settle` holds. */
  lemma {:induction false} ScanOpsShape(base: nat, stride: nat, width: nat, settle: bool, data: seq<byte>, n: nat, i: nat)
    requires n == 0 || base + stride * (n - 1) < 256
    requires width * n <= |data|
    requires i < n
    ensures |ScanOps(base, stride, width, settle, data, n)| == StepLength(settle) * n
    ensures base + stride * i < 256 && width * i + width <= |data|
    ensures var ops := ScanOps(base, stride, width, settle, data, n);
            var k := StepLength(settle) * i;
            && ops[k] == Write([base + stride * i])
            && ops[k + 1] == Read(width * i, data[width * i..width * i + width])
            && (settle ==> ops[k + 2] == Sleep)
  {
    MulMonotone(stride, i, n - 1);
    MulMonotone(width, i + 1, n);
    ScanOpsLength(base, stride, width, settle, data, n);
    if i < n - 1 {
      ScanOpsShape(base, stride, width, settle, data, n - 1, i);
      ScanOpsEarlier(base, stride, width, settle, data, n, i);
    } else {
      ScanOpsLast(base, stride, width, settle, data, n);
    }
  }

  /** The steps of the last channel of a scan. */
  lemma ScanOpsLast(base: nat, stride: nat, width: nat, settle: bool, data: seq<byte>, n: nat)
    requires 0 < n && base + stride * (n - 1) < 256
    requires width * n <= |data|
    ensures width * (n - 1) + width <= |data|
    ensures var ops := ScanOps(base, stride, width, settle, data, n);
            var k := StepLength(settle) * (n - 1);
            && |ops| == k + StepLength(settle)
            && ops[k] == Write([base + stride * (n - 1)])
            && ops[k + 1] == Read(width * (n - 1), data[width * (n - 1)..width * (n - 1) + width])
            && (settle ==> ops[k + 2] == Sleep)
  {
    MulMonotone(width, n - 1, n);
    if n > 1 {
      MulMonotone(stride, n - 2, n - 1);
    }
    ScanOpsLength(base, stride, width, settle, data, n - 1);
  }

  /** Adding the last channel leaves the steps of every earlier channel where they were. */
  lemma ScanOpsEarlier(base: nat, stride: nat, width: nat, settle: bool, data: seq<byte>, n: nat, i: nat)
    requires 0 < n && base + stride * (n - 1) < 256
    requires width * n <= |data|
    requires i < n - 1
    requires |ScanOps(base, stride, width, settle, data, n - 1)| == StepLength(settle) * (n - 1)
    ensures var k := StepLength(settle) * i;
            && k + StepLength(settle) <= StepLength(settle) * (n - 1)
            && ScanOps(base, stride, width, settle, data, n)[k..k + StepLength(settle)]
               == ScanOps(base, stride, width, settle, data, n - 1)[k..k + StepLength(settle)]
  {
    MulMonotone(StepLength(settle), i + 1, n - 1);
    MulMonotone(stride, n - 2, n - 1);
    MulMonotone(width, n - 1, n);
  }

  /** The register file after `payload` is stored from register `reg` on, one octet
      per address. */
  function Place(regs: map<int, byte>, reg: int, payload: seq<byte>): (m: map<int, byte>)
    ensures forall a {:trigger a in m} :: a in m <==> a in regs || reg <= a < reg + |payload|
    ensures forall a {:trigger m[a]} :: reg <= a < reg + |payload| ==> m[a] == payload[a - reg]
    ensures forall a {:trigger m[a]} :: a in regs && !(reg <= a < reg + |payload|) ==> m[a] == regs[a]
  {
    regs + map a | reg <= a < reg + |payload| :: OctetAt(payload, reg, a)
  }

  /** The octet of `payload` that lands at register `a`. */
  function OctetAt(payload: seq<byte>, reg: int, a: int): byte
    requires reg <= a < reg + |payload|
  {
    payload[a - reg]
  }

  /** The peripheral's register file after it accepts one write frame: the first octet
      selects a register and the others are stored from there on, so a frame of one
      octet only selects a register. */
  function Store(regs: map<int, byte>, frame: seq<byte>): map<int, byte>
  {
    if frame == [] then regs else Place(regs, frame[0], frame[1..])
  }

  /** The register file after the writes among `ops`, applied in order; the other
      events store nothing. */
  function Effect(regs: map<int, byte>, ops: seq<BusOp>): map<int, byte>
    decreases |ops|
  {
    if ops == [] then regs
    else Effect(if ops[0].Write? then Store(regs, ops[0].data) else regs, ops[1..])
  }

  lemma {:induction false} EffectAppend(regs: map<int, byte>, a: seq<BusOp>, b: seq<BusOp>)
    ensures Effect(regs, a + b) == Effect(Effect(regs, a), b)
    decreases |a|
  {
    if a != [] {
      assert (a + b)[0] == a[0];
      assert (a + b)[1..] == a[1..] + b;
      EffectAppend(if a[0].Write? then Store(regs, a[0].data) else regs, a[1..], b);
    } else {
      assert a + b == b;
    }
  }

  /** Events other than writes store nothing. */
  lemma {:induction false} EffectWithoutWrites(regs: map<int, byte>, ops: seq<BusOp>)
    requires forall i :: 0 <= i < |ops| ==> !ops[i].Write?
    ensures Effect(regs, ops) == regs
    decreases |ops|
  {
    if ops != [] {
      EffectWithoutWrites(regs, ops[1..]);
    }
  }

  /** A frame of the register octet alone selects a register and stores nothing. */
  lemma StoreSelectOnly(regs: map<int, byte>, reg: byte)
    ensures Store(regs, [reg]) == regs
  {
    assert [reg][1..] == [];
    var m := Place(regs, reg, []);
    assert forall a :: a in m <==> a in regs;
  }

  /** Storing two payloads back to back, the second from the register just past the
      first, stores the same as storing both at once. */
  lemma PlaceConcat(regs: map<int, byte>, reg: int, p: seq<byte>, next: int, q: seq<byte>)
    requires next == reg + |p|
    ensures Place(Place(regs, reg, p), next, q) == Place(regs, reg, p + q)
  {
    var m := Place(Place(regs, reg, p), next, q);
    var want := Place(regs, reg, p + q);
    forall a
      ensures a in m <==> a in want
      ensures a in m ==> m[a] == want[a]
    {
      if reg + |p| <= a < reg + |p| + |q| {
        assert (p + q)[a - reg] == q[a - reg - |p|];
      } else if reg <= a < reg + |p| {
        assert (p + q)[a - reg] == p[a - reg];
      }
    }
    assert m == want;
  }

  /** Two frames where the second starts at the register just past the first's payload
      store the same as one frame carrying both payloads. */
  lemma StoreConcat(regs: map<int, byte>, reg: byte, p: seq<byte>, next: byte, q: seq<byte>)
    requires next == reg + |p|
    ensures Store(Store(regs, [reg] + p), [next] + q) == Store(regs, [reg] + p + q)
  {
    var first, second, both := [reg] + p, [next] + q, [reg] + p + q;
    assert first[0] == reg && first[1..] == p;
    assert second[0] == next && second[1..] == q;
    assert both[0] == reg && both[1..] == p + q;
    calc {
      Store(Store(regs, first), second);
      Place(Place(regs, reg, p), next, q);
      { PlaceConcat(regs, reg, p, next, q); }
      Place(regs, reg, p + q);
      Store(regs, both);
    }
  }

  /** A transaction that writes a single frame stores exactly that frame, whatever
      write-free events (a pause) follow it. */
  lemma WriteTransactionEffect(regs: map<int, byte>, frame: seq<byte>, after: seq<BusOp>)
    requires forall i :: 0 <= i < |after| ==> !after[i].Write?
    ensures Effect(regs, [Acquire, Write(frame), Release] + after) == Store(regs, frame)
  {
    var ops := [Acquire, Write(frame), Release] + after;
    var m := Store(regs, frame);
    assert ops[1..][1..] == ops[2..] && ops[2..][1..] == ops[3..] && ops[3..] == after;
    EffectWithoutWrites(m, after);
    calc {
      Effect(regs, ops);
      Effect(regs, ops[1..]);
      { assert ops[1..][0] == Write(frame); }
      Effect(m, ops[2..]);
      Effect(m, ops[3..]);
    }
  }

  /** A write transaction appended to a history stores its frame over the register file
      the history left, whatever write-free events (a pause) follow it. */
  lemma EffectStep(regs: map<int, byte>, prev: seq<BusOp>, frame: seq<byte>, after: seq<BusOp>)
    requires forall i :: 0 <= i < |after| ==> !after[i].Write?
    ensures Effect(regs, prev + ([Acquire, Write(frame), Release] + after)) == Store(Effect(regs, prev), frame)
  {
    EffectAppend(regs, prev, [Acquire, Write(frame), Release] + after);
    WriteTransactionEffect(Effect(regs, prev), frame, after);
  }

  /** Registers `reg`, `reg + 1`, ... hold `values`. */
  ghost predicate Holds(regs: map<int, byte>, reg: int, values: seq<byte>)
  {
    forall a :: reg <= a < reg + |values| ==> a in regs && regs[a] == values[a - reg]
  }

  /** A frame leaves a run of registers it does not reach as it was. */
  lemma HoldsUntouched(regs: map<int, byte>, frame: seq<byte>, reg: int, values: seq<byte>)
    requires Holds(regs, reg, values)
    requires |frame| > 0 && (reg + |values| <= frame[0] || frame[0] + |frame| - 1 <= reg)
    ensures Holds(Store(regs, frame), reg, values)
  {
    var m := Place(regs, frame[0], frame[1..]);
    forall a | reg <= a < reg + |values|
      ensures a in m && m[a] == values[a - reg]
    {
      assert a in regs && !(frame[0] <= a < frame[0] + |frame[1..]|);
    }
    assert Store(regs, frame) == m;
  }

  /** A frame leaves the registers from its selected one holding its payload octets. */
  lemma HoldsStored(regs: map<int, byte>, frame: seq<byte>, values: seq<byte>)
    requires |values| < |frame| && frame[1..|values| + 1] == values
    ensures Holds(Store(regs, frame), frame[0], values)
  {
    var m := Place(regs, frame[0], frame[1..]);
    forall a | frame[0] <= a < frame[0] + |values|
      ensures a in m && m[a] == values[a - frame[0]]
    {
      assert frame[1..][a - frame[0]] == frame[1..|values| + 1][a - frame[0]];
    }
    assert Store(regs, frame) == m;
  }
}
