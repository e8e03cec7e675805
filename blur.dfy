/** The pixel-format arithmetic of the blur effect: turning the compositor's
    screen capture into RGBA byte order, premultiplying the decoded pixels by
    their alpha, and placing the square that flashes on input. */
module Blur {
  import opened Primitives

  /** One pixel's four bytes, in buffer order. */
  datatype Pixel = Pixel(c0: u8, c1: u8, c2: u8, c3: u8)

  function Bytes(p: Pixel): seq<u8>
  {
    [p.c0, p.c1, p.c2, p.c3]
  }

  /** The pixel made of `s[i..i + 4]`. */
  function PixelAt(s: seq<u8>, i: nat): Pixel
    requires i + 4 <= |s|
  {
    Pixel(s[i], s[i + 1], s[i + 2], s[i + 3])
  }

  lemma PixelAtBytes(s: seq<u8>, i: nat)
    requires i + 4 <= |s|
    ensures Bytes(PixelAt(s, i)) == s[i..i + 4]
    ensures i == 0 ==> Bytes(PixelAt(s, i)) == s[..4]
    ensures i + 4 == |s| ==> Bytes(PixelAt(s, i)) == s[i..]
  {
  }

  /** `s` with the pixel at byte offset `i` replaced by `p`. */
  function Overwrite(s: seq<u8>, i: nat, p: Pixel): (r: seq<u8>)
    requires i + 4 <= |s|
    ensures |r| == |s|
  {
    s[i := p.c0][i + 1 := p.c1][i + 2 := p.c2][i + 3 := p.c3]
  }

  /** Overwriting the pixel just after a finished prefix `m` puts it between
      the prefix and the rest of the buffer. */
  lemma OverwriteNext(m: seq<u8>, s: seq<u8>, i: nat, p: Pixel)
    requires |m| == i && i + 4 <= |s|
    ensures PixelAt(m + s[i..], i) == PixelAt(s, i)
    ensures Overwrite(m + s[i..], i, p) == m + Bytes(p) + s[i + 4..]
  {
    var t := m + s[i..];
    assert t[i] == s[i] && t[i + 1] == s[i + 1] && t[i + 2] == s[i + 2] && t[i + 3] == s[i + 3];
  }

  /** `s` with `f` applied to every whole pixel; the trailing bytes that do
      not make up a pixel are kept as they are. */
  function MapPixels(s: seq<u8>, f: Pixel -> Pixel): (r: seq<u8>)
    ensures |r| == |s|
    decreases |s|
  {
    if |s| < 4 then s else Bytes(f(PixelAt(s, 0))) + MapPixels(s[4..], f)
  }

  lemma MapPixelsOne(s: seq<u8>, f: Pixel -> Pixel)
    requires |s| == 4
    ensures MapPixels(s, f) == Bytes(f(PixelAt(s, 0)))
  {
    assert MapPixels(s[4..], f) == [];
  }

  /** Mapping a buffer is mapping its first `k` pixels and mapping the rest. */
  lemma {:induction false} MapPixelsSplit(s: seq<u8>, f: Pixel -> Pixel, k: nat)
    requires 4 * k <= |s|
    ensures MapPixels(s, f) == MapPixels(s[..4 * k], f) + MapPixels(s[4 * k..], f)
    decreases k
  {
    if k == 0 {
      assert s[..0] == [] && s[0..] == s;
    } else {
      var rest := s[4..];
      MapPixelsSplit(rest, f, k - 1);
      assert rest[4 * (k - 1)..] == s[4 * k..];
      assert s[..4 * k][4..] == rest[..4 * (k - 1)];
      assert PixelAt(s[..4 * k], 0) == PixelAt(s, 0);
    }
  }

  /** Pixel `k` of the mapped buffer is `f` of pixel `k` of the original. */
  lemma MapPixelsAt(s: seq<u8>, f: Pixel -> Pixel, k: nat)
    requires 4 * k + 4 <= |s|
    ensures MapPixels(s, f)[4 * k .. 4 * k + 4] == Bytes(f(PixelAt(s, 4 * k)))
  {
    MapPixelsSplit(s, f, k);
    var rest := s[4 * k..];
    assert PixelAt(rest, 0) == PixelAt(s, 4 * k);
    var b := Bytes(f(PixelAt(rest, 0)));
    assert MapPixels(rest, f) == b + MapPixels(rest[4..], f);
    SliceMiddle(MapPixels(s[..4 * k], f), b, MapPixels(rest[4..], f));
  }

  lemma SliceMiddle(a: seq<u8>, b: seq<u8>, c: seq<u8>)
    ensures (a + (b + c))[|a|..|a| + |b|] == b
  {
  }

  /** The bytes after the last whole pixel are not touched. */
  lemma MapPixelsKeepsTail(s: seq<u8>, f: Pixel -> Pixel)
    ensures MapPixels(s, f)[4 * (|s| / 4)..] == s[4 * (|s| / 4)..]
  {
    var n := |s| / 4;
    MapPixelsSplit(s, f, n);
    assert MapPixels(s[4 * n..], f) == s[4 * n..];
  }

  /** One loop turn of an in-place map: with the first `k` pixels done,
      overwriting pixel `k` with its image finishes the first `k + 1`. */
  lemma MapPixelsStep(s: seq<u8>, f: Pixel -> Pixel, i: nat, k: nat, before: seq<u8>, after: seq<u8>)
    requires i == 4 * k && i + 4 <= |s|
    requires before == MapPixels(s[..i], f) + s[i..]
    requires after == Overwrite(before, i, f(PixelAt(before, i)))
    ensures after == MapPixels(s[..i + 4], f) + s[i + 4..]
  {
    OverwriteNext(MapPixels(s[..i], f), s, i, f(PixelAt(s, i)));
    var t := s[..i + 4];
    MapPixelsSplit(t, f, k);
    assert t[..i] == s[..i];
    MapPixelsOne(t[i..], f);
    assert PixelAt(t[i..], 0) == PixelAt(s, i);
  }

  /** When the loop has run over every whole pixel, the buffer is mapped. */
  lemma MapPixelsDone(s: seq<u8>, f: Pixel -> Pixel, n: nat)
    requires 4 * n <= |s| < 4 * n + 4
    ensures MapPixels(s[..4 * n], f) + s[4 * n..] == MapPixels(s, f)
  {
    MapPixelsSplit(s, f, n);
  }

  /** Mapping with `f` and then with `g` is mapping with their composition. */
  lemma {:induction false} MapPixelsCompose(s: seq<u8>, f: Pixel -> Pixel, g: Pixel -> Pixel,
                                            h: Pixel -> Pixel)
    requires forall p :: h(p) == g(f(p))
    ensures MapPixels(MapPixels(s, f), g) == MapPixels(s, h)
    decreases |s|
  {
    if |s| >= 4 {
      var m := MapPixels(s, f);
      MapPixelsCompose(s[4..], f, g, h);
      assert m[4..] == MapPixels(s[4..], f);
      assert PixelAt(m, 0) == f(PixelAt(s, 0));
    }
  }

  /** Mapping with the identity leaves the buffer as it is. */
  lemma {:induction false} MapPixelsIdentity(s: seq<u8>, f: Pixel -> Pixel)
    requires forall p :: f(p) == p
    ensures MapPixels(s, f) == s
    decreases |s|
  {
    if |s| >= 4 {
      MapPixelsIdentity(s[4..], f);
      PixelAtBytes(s, 0);
      assert s == s[..4] + s[4..];
    }
  }

  /** The bytes `a b c d` of a pixel become `d a b c`; the reverse rotation
      undoes it. */
  function Rotate(p: Pixel): (r: Pixel)
    ensures Bytes(r) == [p.c3] + Bytes(p)[..3]
    ensures Unrotate(r) == p
  {
    Pixel(p.c3, p.c0, p.c1, p.c2)
  }

  /** The reverse rotation, `d a b c` back to `a b c d`. */
  function Unrotate(p: Pixel): Pixel
  {
    Pixel(p.c1, p.c2, p.c3, p.c0)
  }

  /** Every whole pixel `a b c d` of the buffer reads `d a b c` once
      rotated. */
  lemma RotatePixelsAt(s: seq<u8>, k: nat)
    requires 4 * k + 4 <= |s|
    ensures MapPixels(s, Rotate)[4 * k .. 4 * k + 4] == [s[4 * k + 3], s[4 * k], s[4 * k + 1], s[4 * k + 2]]
  {
    MapPixelsAt(s, Rotate, k);
  }

  /** Rotating every whole pixel back restores the original buffer. */
  lemma RotatePixelsInverse(s: seq<u8>)
    ensures MapPixels(MapPixels(s, Rotate), Unrotate) == s
  {
    MapPixelsCompose(s, Rotate, Unrotate, p => p);
    MapPixelsIdentity(s, p => p);
  }

  lemma RotatePermutesPixel(p: Pixel)
    ensures multiset(Bytes(Rotate(p))) == multiset(Bytes(p))
  {
    calc {
      multiset(Bytes(Rotate(p)));
      multiset{p.c3, p.c0, p.c1, p.c2};
      multiset{p.c0, p.c1, p.c2, p.c3};
      multiset(Bytes(p));
    }
  }

  lemma MultisetConcat(a: seq<u8>, b: seq<u8>, c: seq<u8>, d: seq<u8>)
    requires multiset(a) == multiset(c) && multiset(b) == multiset(d)
    ensures multiset(a + b) == multiset(c + d)
  {
  }

  /** Rotating the pixels only moves bytes around. */
  lemma {:induction false} RotatePixelsPermutes(s: seq<u8>)
    ensures multiset(MapPixels(s, Rotate)) == multiset(s)
    decreases |s|
  {
    if |s| >= 4 {
      var p := PixelAt(s, 0);
      RotatePixelsPermutes(s[4..]);
      PixelAtBytes(s, 0);
      assert s == s[..4] + s[4..];
      RotatePermutesPixel(p);
      MultisetConcat(Bytes(Rotate(p)), MapPixels(s[4..], Rotate), Bytes(p), s[4..]);
    }
  }

  /** The length rounded down to whole pixels is four times the pixel
      count. */
  lemma WholePixels(len: nat)
    ensures len - len % 4 == 4 * (len / 4) <= len
  {
  }

  /** The three swaps of one loop turn, as updates of the byte sequence,
      leave the rotated pixel in place. */
  lemma RotateBySwaps(s: seq<u8>, i: nat, a: u8, b: u8, c: u8, d: u8)
    requires i + 4 <= |s|
    requires s[i] == a && s[i + 1] == b && s[i + 2] == c && s[i + 3] == d
    ensures s[i + 2 := d][i + 3 := c][i := d][i + 2 := a][i + 1 := a][i + 2 := b]
            == Overwrite(s, i, Rotate(PixelAt(s, i)))
  {
    var l := s[i + 2 := d][i + 3 := c][i := d][i + 2 := a][i + 1 := a][i + 2 := b];
    var r := Overwrite(s, i, Rotate(PixelAt(s, i)));
    assert |l| == |r|;
    forall j | 0 <= j < |l|
      ensures l[j] == r[j]
    {
    }
  }

  /** The nine exclusive-or statements of one loop turn: `a b c d` at
      `buffer[i..i + 4]` becomes `d a b c` in place (swap bytes 2 and 3,
      then 0 and 2, then 1 and 2). */
  method RotateInPlace(buffer: array<u8>, i: nat)
    requires i + 4 <= buffer.Length
    modifies buffer
    ensures buffer[..] == Overwrite(old(buffer[..]), i, Rotate(PixelAt(old(buffer[..]), i)))
  {
    ghost var a, b, c, d := buffer[i], buffer[i + 1], buffer[i + 2], buffer[i + 3];
    XorCancels(c, d);
    XorCancels(a, d);
    XorCancels(a, b);
    ghost var s0 := buffer[..];
    buffer[i + 2] := Xor(buffer[i + 2], buffer[i + 3]);
    buffer[i + 3] := Xor(buffer[i + 2], buffer[i + 3]);
    buffer[i + 2] := Xor(buffer[i + 2], buffer[i + 3]);
    assert buffer[..] == s0[i + 2 := d][i + 3 := c];
    ghost var s1 := buffer[..];
    buffer[i] := Xor(buffer[i], buffer[i + 2]);
    buffer[i + 2] := Xor(buffer[i], buffer[i + 2]);
    buffer[i] := Xor(buffer[i], buffer[i + 2]);
    assert buffer[..] == s1[i := d][i + 2 := a];
    ghost var s2 := buffer[..];
    buffer[i + 2] := Xor(buffer[i + 2], buffer[i + 1]);
    buffer[i + 1] := Xor(buffer[i + 1], buffer[i + 2]);
    buffer[i + 2] := Xor(buffer[i + 2], buffer[i + 1]);
    assert buffer[..] == s2[i + 1 := a][i + 2 := b];
    RotateBySwaps(s0, i, a, b, c, d);
  }

  /** One turn of the `convert_to_png` loop: with the first `k` pixels
      rotated, rotating pixel `k` in place leaves `k + 1` rotated. */
  method RotateNext(buffer: array<u8>, ghost original: seq<u8>, i: nat, ghost k: nat)
    requires i == 4 * k && i + 4 <= buffer.Length == |original|
    requires buffer[..] == MapPixels(original[..i], Rotate) + original[i..]
    modifies buffer
    ensures buffer[..] == MapPixels(original[..i + 4], Rotate) + original[i + 4..]
  {
    ghost var before := buffer[..];
    RotateInPlace(buffer, i);
    MapPixelsStep(original, Rotate, i, k, before, buffer[..]);
  }

  /** `convert_to_png`: rotates each whole pixel of the buffer in place,
      stopping before the trailing `length % 4` bytes. */
  method ConvertToPng(buffer: array<u8>)
    modifies buffer
    ensures buffer[..] == MapPixels(old(buffer[..]), Rotate)
  {
    ghost var original := buffer[..];
    var length := buffer.Length;
    length := length - length % 4;
    ghost var n := buffer.Length / 4;
    WholePixels(buffer.Length);
    var i := 0;
    ghost var k := 0;
    while i < length
      invariant 0 <= k <= n && i == 4 * k
      invariant length == 4 * n <= buffer.Length
      invariant buffer[..] == MapPixels(original[..i], Rotate) + original[i..]
    {
      RotateNext(buffer, original, i, k);
      i := i + 4;
      k := k + 1;
    }
    assert i == 4 * n;
    MapPixelsDone(original, Rotate, n);
  }

  /** `rgba_conversion`: a channel scaled by `alpha / 255`, in integer
      arithmetic. The product must fit in a `u32`: with overflow checks on, an
      overflow panics. */
  function RgbaConversion(num: u8, alpha: u32): (r: u8)
    requires num * alpha < U32_LIMIT
    ensures alpha <= 255 ==> r == num * alpha / 255 && r <= num
    ensures alpha == 255 ==> r == num
    ensures alpha == 0 ==> r == 0
  {
    var big := num * alpha;
    if alpha <= 255 then
      MulMonotone(num, alpha, 255);
      DivMonotone(big, num * 255);
      TruncU8(big / 255)
    else
      TruncU8(big / 255)
  }

  /** A larger alpha never gives a smaller channel. */
  lemma RgbaConversionMonotone(num: u8, a1: u32, a2: u32)
    requires a1 <= a2 <= 255
    ensures num * a1 <= num * a2 <= 255 * 255
    ensures RgbaConversion(num, a1) <= RgbaConversion(num, a2)
  {
    MulMonotone(num, a1, a2);
    ChannelProduct(num, a2);
    DivMonotone(num * a1, num * a2);
  }

  /** A channel times an alpha byte fits easily in a `u32`. */
  lemma ChannelProduct(num: u8, alpha: u8)
    ensures num * alpha <= 255 * 255
  {
    MulMonotone(num, alpha, 255);
  }

  lemma MulMonotone(n: nat, a: nat, b: nat)
    requires a <= b
    ensures n * a <= n * b
  {
  }

  lemma DivMonotone(x: nat, y: nat)
    requires x <= y
    ensures x / 255 <= y / 255
  {
  }

  /** Premultiplying one decoded pixel: red, green and blue scaled by the
      pixel's alpha, then bytes 0 and 2 swapped. */
  function Premultiply(p: Pixel): Pixel
  {
    var alpha: u32 := p.c3;
    ChannelProduct(p.c0, p.c3);
    ChannelProduct(p.c1, p.c3);
    ChannelProduct(p.c2, p.c3);
    var c0 := RgbaConversion(p.c0, alpha);
    var c1 := RgbaConversion(p.c1, alpha);
    var c2 := RgbaConversion(p.c2, alpha);
    Pixel(c2, c1, c0, p.c3)
  }

  /** The premultiplied pixel: byte 0 is the converted byte 2, byte 1 the
      converted byte 1, byte 2 the converted byte 0, alpha kept; no channel
      grows, an opaque pixel only has bytes 0 and 2 exchanged, and a fully
      transparent one becomes zero. */
  lemma PremultiplyPixel(p: Pixel)
    ensures var q := Premultiply(p);
      && q.c0 == p.c2 * p.c3 / 255 && q.c1 == p.c1 * p.c3 / 255 && q.c2 == p.c0 * p.c3 / 255
      && q.c3 == p.c3
      && q.c0 <= p.c2 && q.c1 <= p.c1 && q.c2 <= p.c0
      && (p.c3 == 255 ==> q == Pixel(p.c2, p.c1, p.c0, 255))
      && (p.c3 == 0 ==> q == Pixel(0, 0, 0, 0))
  {
  }

  /** The body of `get_screen`'s loop for the pixel at byte offset `i`:
      the three colour channels converted by the pixel's alpha, then
      channels 0 and 2 exchanged through a temporary. */
  method PremultiplyInPlace(pixels: array<u8>, i: nat)
    requires i + 4 <= pixels.Length
    modifies pixels
    ensures pixels[..] == Overwrite(old(pixels[..]), i, Premultiply(PixelAt(old(pixels[..]), i)))
  {
    var alpha: u32 := pixels[i + 3];
    ChannelProduct(pixels[i], pixels[i + 3]);
    ChannelProduct(pixels[i + 1], pixels[i + 3]);
    ChannelProduct(pixels[i + 2], pixels[i + 3]);
    pixels[i] := RgbaConversion(pixels[i], alpha);
    pixels[i + 1] := RgbaConversion(pixels[i + 1], alpha);
    pixels[i + 2] := RgbaConversion(pixels[i + 2], alpha);
    var tmp := pixels[i + 2];
    pixels[i + 2] := pixels[i];
    pixels[i] := tmp;
  }

  /** The loop of `get_screen` over the decoded image's pixels: every pixel
      of the RGBA buffer is premultiplied in place. An RGBA buffer holds four
      bytes per pixel. */
  method PremultiplyPixels(pixels: array<u8>)
    requires pixels.Length % 4 == 0
    modifies pixels
    ensures pixels[..] == MapPixels(old(pixels[..]), Premultiply)
  {
    ghost var original := pixels[..];
    ghost var n := pixels.Length / 4;
    assert pixels.Length == 4 * n;
    var i := 0;
    ghost var k := 0;
    while i < pixels.Length
      invariant 0 <= k <= n && i == 4 * k && pixels.Length == 4 * n
      invariant pixels[..] == MapPixels(original[..i], Premultiply) + original[i..]
    {
      ghost var before := pixels[..];
      PremultiplyInPlace(pixels, i);
      MapPixelsStep(original, Premultiply, i, k, before, pixels[..]);
      i := i + 4;
      k := k + 1;
    }
    assert i == 4 * n;
    MapPixelsDone(original, Premultiply, n);
  }

  /** Side of the square flashed on input. */
  const SQUARE: u32 := 32

  /** Where the square goes, from two random words: `rx % (w - 32)` across
      and `ry % (h - 32)` down. Both sides must exceed 32, or the subtraction
      underflows or the remainder divides by zero. */
  function SquareOrigin(w: u32, h: u32, rx: u32, ry: u32): (o: (u32, u32))
    requires w > SQUARE && h > SQUARE
    ensures o.0 + SQUARE < w && o.1 + SQUARE < h
  {
    (rx % (w - SQUARE), ry % (h - SQUARE))
  }

  /** Every origin that keeps the square clear of the right and bottom edges
      by a pixel can be drawn. */
  lemma SquareOriginCovers(w: u32, h: u32, x: u32, y: u32)
    requires w > SQUARE && h > SQUARE
    requires x + SQUARE < w && y + SQUARE < h
    ensures SquareOrigin(w, h, x, y) == (x, y)
  {
    ModSmall(x, w - SQUARE);
    ModSmall(y, h - SQUARE);
  }

  lemma ModSmall(x: nat, m: nat)
    requires x < m
    ensures x % m == x
  {
  }
}
