/** Colours drawn to the screen, and their packing into 32-bit pixel words.
    The host is taken to be little-endian: a `u32` lies in memory low byte
    first. */
module Colors {
  import opened Primitives

  /** A colour with its alpha channel. */
  datatype Color = Color(red: u8, green: u8, blue: u8, alpha: u8)

  const OPAQUE: u8 := 255

  /** A new solid colour, with no transparency. */
  function SolidColor(red: u8, green: u8, blue: u8): (c: Color)
    ensures c.red == red && c.green == green && c.blue == blue
    ensures c.alpha == OPAQUE
  {
    Color(red, green, blue, OPAQUE)
  }

  /** The channels in the order (red, green, blue, alpha); nothing is lost. */
  function ToU8s(c: Color): (t: (u8, u8, u8, u8))
    ensures Color(t.0, t.1, t.2, t.3) == c
  {
    (c.red, c.green, c.blue, c.alpha)
  }

  /** A solid colour from three channels. */
  function FromU8s(red: u8, green: u8, blue: u8): (c: Color)
    ensures c == SolidColor(red, green, blue)
  {
    SolidColor(red, green, blue)
  }

  /** The four bytes a `u32` occupies in memory, low byte first
      (`write_u32::<NativeEndian>` on a little-endian host). */
  function LeBytes(x: u32): (b: seq<u8>)
    ensures |b| == 4
    ensures x == b[0] as int + 0x100 * b[1] as int + 0x1_0000 * b[2] as int + 0x100_0000 * b[3] as int
  {
    var q1 := x / 0x100;
    var q2 := q1 / 0x100;
    var q3 := q2 / 0x100;
    assert x == x % 0x100 + 0x100 * q1;
    assert q1 == q1 % 0x100 + 0x100 * q2;
    assert q2 == q2 % 0x100 + 0x100 * q3;
    assert x / 0x1_0000 == q2 && x / 0x100_0000 == q3;
    [x % 0x100, x / 0x100 % 0x100, x / 0x1_0000 % 0x100, x / 0x100_0000]
  }

  /** The `u32` whose memory image is the four bytes `b`
      (`transmute::<[u8; 4], u32>` on a little-endian host). */
  function FromLeBytes(b: seq<u8>): (x: u32)
    requires |b| == 4
    ensures LeBytes(x) == b
  {
    var hi := b[1] as int + 0x100 * b[2] as int + 0x1_0000 * b[3] as int;
    var top := b[2] as int + 0x100 * b[3] as int;
    var x := b[0] as int + 0x100 * hi;
    assert x % 0x100 == b[0] && x / 0x100 == hi;
    assert hi % 0x100 == b[1] && hi / 0x100 == top;
    assert x / 0x1_0000 == top;
    assert top % 0x100 == b[2] && top / 0x100 == b[3];
    assert x / 0x100_0000 == b[3];
    x
  }

  /** Writing a word out and reading it back gives the same word. */
  lemma LeBytesInverse(x: u32)
    ensures FromLeBytes(LeBytes(x)) == x
  {
  }

  /** The packed pixel word: `transmute` of the channel array
      `[red, green, blue, alpha]`. */
  function ToU32(c: Color): (x: u32)
    ensures LeBytes(x) == [c.red, c.green, c.blue, c.alpha]
    ensures x == c.red as int + 0x100 * c.green as int + 0x1_0000 * c.blue as int + 0x100_0000 * c.alpha as int
  {
    FromLeBytes([c.red, c.green, c.blue, c.alpha])
  }

  /** A solid colour from a packed word: red from bits 0-7, green from 8-15,
      blue from 16-23; the top byte is ignored. `(val & 0xff0000) >> 16` of an
      unsigned value is `val / 0x1_0000 % 0x100`, and likewise for the others. */
  function FromU32(val: u32): (c: Color)
    ensures c.alpha == OPAQUE
    ensures [c.red, c.green, c.blue] == LeBytes(val)[..3]
  {
    var blue := val / 0x1_0000 % 0x100;
    var green := val / 0x100 % 0x100;
    var red := val % 0x100;
    SolidColor(red, green, blue)
  }

  /** Two words that agree below the top byte give the same colour. */
  lemma FromU32IgnoresTopByte(x: u32)
    ensures FromU32(x) == FromU32(x % 0x100_0000)
  {
    var k, m := x / 0x100_0000, x % 0x100_0000;
    assert x == k * 0x100_0000 + m;
    assert x % 0x100 == m % 0x100;
    assert x / 0x100 == k * 0x1_0000 + m / 0x100;
    assert x / 0x1_0000 == k * 0x100 + m / 0x1_0000;
  }

  /** Packing is injective. */
  lemma ToU32Injective(c: Color, d: Color)
    requires ToU32(c) == ToU32(d)
    ensures c == d
  {
    assert LeBytes(ToU32(c)) == LeBytes(ToU32(d));
  }

  /** Unpacking a packed colour gives it back exactly when the colour is opaque. */
  lemma RoundTripIff(c: Color)
    ensures FromU32(ToU32(c)) == c <==> c.alpha == OPAQUE
  {
    var d := FromU32(ToU32(c));
    assert [d.red, d.green, d.blue] == [c.red, c.green, c.blue];
  }

  /** Round trip for every solid colour. */
  lemma RoundTrip(red: u8, green: u8, blue: u8)
    ensures FromU32(ToU32(SolidColor(red, green, blue))) == SolidColor(red, green, blue)
  {
    RoundTripIff(SolidColor(red, green, blue));
  }

  /** `0x000000.into()`: the black the screen starts with. */
  const BLACK: Color := FromU32(0x000000)

  lemma BlackIsOpaqueBlack()
    ensures BLACK == Color(0, 0, 0, 255)
    ensures ToU32(BLACK) == 0xff00_0000
    ensures LeBytes(ToU32(BLACK)) == [0, 0, 0, 255]
  {
  }
}
