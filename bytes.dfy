/** Octets and the little-endian decoding the drivers do with `struct.unpack`. */
module Bytes {

  /** One octet, as stored in a `bytearray` and carried on the bus. */
  type byte = b: int | 0 <= b < 256

  /** 256 to the power `n`: the number of values `n` octets can hold. */
  function Pow256(n: nat): (p: nat)
    ensures p > 0
  {
    if n == 0 then 1 else 256 * Pow256(n - 1)
  }

  /** The unsigned little-endian value of `s`: `s[0]` is the least significant octet. */
  function DecodeLE(s: seq<byte>): (v: nat)
    ensures v < Pow256(|s|)
  {
    if s == [] then 0 else s[0] + 256 * DecodeLE(s[1..])
  }

  /** The `n` octets of `v`, least significant first. */
  function EncodeLE(v: nat, n: nat): (s: seq<byte>)
    requires v < Pow256(n)
    ensures |s| == n
  {
    if n == 0 then [] else [v % 256] + EncodeLE(v / 256, n - 1)
  }

  /** Encoding then decoding gives the value back. */
  lemma {:induction false} DecodeEncodeLE(v: nat, n: nat)
    requires v < Pow256(n)
    ensures DecodeLE(EncodeLE(v, n)) == v
  {
    if n > 0 {
      var s := EncodeLE(v, n);
      assert s[1..] == EncodeLE(v / 256, n - 1);
      DecodeEncodeLE(v / 256, n - 1);
    }
  }

  /** Decoding then encoding at the same width gives the octets back. */
  lemma {:induction false} EncodeDecodeLE(s: seq<byte>)
    ensures EncodeLE(DecodeLE(s), |s|) == s
  {
    if s != [] {
      EncodeDecodeLE(s[1..]);
      var v := DecodeLE(s);
      assert v % 256 == s[0] && v / 256 == DecodeLE(s[1..]);
    }
  }

  lemma Pow256Widths()
    ensures Pow256(1) == 0x100 && Pow256(2) == 0x1_0000 && Pow256(4) == 0x1_0000_0000
  {
  }

  /** `struct.unpack("<H", s)`: an unsigned 16-bit little-endian value. */
  function DecodeU16LE(s: seq<byte>): (v: nat)
    requires |s| == 2
    ensures v < 0x1_0000
    ensures v == s[0] as int + 256 * s[1] as int
  {
    Pow256Widths();
    assert DecodeLE(s[1..]) == s[1] as int + 256 * DecodeLE(s[1..][1..]);
    assert s[1..][1..] == [];
    DecodeLE(s)
  }

  /** `struct.unpack("<l", s)`: a signed 32-bit little-endian value in two's complement. */
  function DecodeI32LE(s: seq<byte>): (v: int)
    requires |s| == 4
    ensures -0x8000_0000 <= v < 0x8000_0000
    ensures v < 0 <==> s[3] >= 0x80
    ensures v == s[0] as int + 0x100 * s[1] as int + 0x1_0000 * s[2] as int + 0x100_0000 * s[3] as int
                 - (if s[3] >= 0x80 then 0x1_0000_0000 else 0)
  {
    Pow256Widths();
    var u := DecodeLE(s);
    assert u == s[0] as int + 256 * (s[1] as int + 256 * (s[2] as int + 256 * s[3] as int)) by {
      assert DecodeLE(s[1..]) == s[1] as int + 256 * DecodeLE(s[2..]) by { assert s[1..][1..] == s[2..]; }
      assert DecodeLE(s[2..]) == s[2] as int + 256 * DecodeLE(s[3..]) by { assert s[2..][1..] == s[3..]; }
      assert DecodeLE(s[3..]) == s[3] as int + 256 * DecodeLE(s[4..]) by { assert s[3..][1..] == s[4..]; }
      assert s[4..] == [];
    }
    if u < 0x8000_0000 then u else u - 0x1_0000_0000
  }

  /** `struct.pack("<l", v)`: the partner of `DecodeI32LE`. */
  function EncodeI32LE(v: int): (s: seq<byte>)
    requires -0x8000_0000 <= v < 0x8000_0000
    ensures |s| == 4
  {
    Pow256Widths();
    EncodeLE(if v < 0 then v + 0x1_0000_0000 else v, 4)
  }

  /** Every 32-bit signed value survives packing and unpacking. */
  lemma I32RoundTrip(v: int)
    requires -0x8000_0000 <= v < 0x8000_0000
    ensures DecodeI32LE(EncodeI32LE(v)) == v
  {
    Pow256Widths();
    var u := if v < 0 then v + 0x1_0000_0000 else v;
    DecodeEncodeLE(u, 4);
  }

  /** Every four octets survive unpacking and packing. */
  lemma I32Repack(s: seq<byte>)
    requires |s| == 4
    ensures EncodeI32LE(DecodeI32LE(s)) == s
  {
    Pow256Widths();
    EncodeDecodeLE(s);
  }

  /** `struct.unpack("<8H", s)` and the like: consecutive 16-bit values. */
  function UnpackU16LE(s: seq<byte>): (r: seq<nat>)
    requires |s| % 2 == 0
    ensures |r| == |s| / 2
    ensures forall i :: 0 <= i < |r| ==> r[i] == DecodeU16LE(s[2 * i..2 * i + 2])
    decreases |s|
  {
    if s == [] then []
    else
      var rest := UnpackU16LE(s[2..]);
      assert forall i :: 1 <= i < |s| / 2 ==> s[2..][2 * (i - 1)..2 * (i - 1) + 2] == s[2 * i..2 * i + 2];
      [DecodeU16LE(s[..2])] + rest
  }

  /** `struct.unpack("<8l", s)` and the like: consecutive signed 32-bit values. */
  function UnpackI32LE(s: seq<byte>): (r: seq<int>)
    requires |s| % 4 == 0
    ensures |r| == |s| / 4
    ensures forall i :: 0 <= i < |r| ==> r[i] == DecodeI32LE(s[4 * i..4 * i + 4])
    decreases |s|
  {
    if s == [] then []
    else
      var rest := UnpackI32LE(s[4..]);
      forall i | 1 <= i < |s| / 4
        ensures s[4..][4 * (i - 1)..4 * (i - 1) + 4] == s[4 * i..4 * i + 4]
      {
        assert 4 * (i - 1) + 4 == 4 * i;
      }
      [DecodeI32LE(s[..4])] + rest
  }
}
