/** The colour argument accepted by both drivers' `set_led`, and its conversion to the
    three octets written to an LED's registers (angle.py:160-165, encoder.py:106-111). */
module Colors {
  import opened Bytes
  import opened Errors

  /** A caller's `color`: an `int`, a `tuple` or `list` of ints, or any other value. */
  datatype ColorArg = Packed(value: int) | Items(items: seq<int>) | Other

  /** A 24-bit colour `0xRRGGBB` assembled from red, green and blue octets. */
  function PackColor(rgb: seq<byte>): (v: nat)
    requires |rgb| == 3
    ensures v < 0x100_0000
  {
    rgb[0] as int * 0x1_0000 + rgb[1] as int * 0x100 + rgb[2] as int
  }

  /** `bytes(color)` for a 3-item tuple or list, `color.to_bytes(3, "big")` for an int,
      and the errors either conversion or the shape check raises. */
  function ColorBytes(c: ColorArg): (r: Result<seq<byte>>)
    ensures r.Success? ==> |r.value| == 3
    ensures r.Success? <==>
              || (c.Items? && |c.items| == 3 && forall i :: 0 <= i < 3 ==> 0 <= c.items[i] < 256)
              || (c.Packed? && 0 <= c.value < 0x100_0000)
    ensures r.Failure? ==> r.error == if c.Packed? then OverflowError else ValueError
  {
    match c
    case Items(items) =>
      if |items| == 3 && forall i :: 0 <= i < 3 ==> 0 <= items[i] < 256
      then Success([items[0], items[1], items[2]])
      else Failure(ValueError)
    case Packed(v) =>
      if 0 <= v < 0x100_0000
      then Success([v / 0x1_0000, v / 0x100 % 0x100, v % 0x100])
      else Failure(OverflowError)
    case Other =>
      Failure(ValueError)
  }

  /** A packed colour's three octets are its big-endian representation: packing them
      gives the colour back. */
  lemma PackedColorRoundTrip(v: int)
    requires 0 <= v < 0x100_0000
    ensures ColorBytes(Packed(v)).Success?
    ensures PackColor(ColorBytes(Packed(v)).value) == v
  {
    var rgb := ColorBytes(Packed(v)).value;
    assert v / 0x100 == (v / 0x1_0000) * 0x100 + v / 0x100 % 0x100;
    assert v == (v / 0x100) * 0x100 + v % 0x100;
  }

  /** Every three octets are the conversion of the colour they pack to. */
  lemma ColorOctetsRoundTrip(rgb: seq<byte>)
    requires |rgb| == 3
    ensures ColorBytes(Packed(PackColor(rgb))) == Success(rgb)
  {
    var v := PackColor(rgb);
    assert v / 0x1_0000 == rgb[0];
    assert v / 0x100 == rgb[0] as int * 0x100 + rgb[1] as int;
    assert v / 0x100 % 0x100 == rgb[1];
    assert v % 0x100 == rgb[2];
    assert [rgb[0], rgb[1], rgb[2]] == rgb;
  }

  /** A tuple `(r, g, b)` and the int `0xRRGGBB` set an LED to the same octets. */
  lemma ItemsAgreeWithPacked(rgb: seq<byte>)
    requires |rgb| == 3
    ensures ColorBytes(Items(rgb)) == ColorBytes(Packed(PackColor(rgb)))
  {
    ColorOctetsRoundTrip(rgb);
    assert [rgb[0], rgb[1], rgb[2]] == rgb;
  }
}
