/**
 * Decoded thumbnails: a width, a height and row-major 32-bit ARGB pixels, read
 * the way `PixelReader.getArgb` and the channel arithmetic of the cache do.
 */
module Pixels {
  import opened Arith

  /**
   * A Java `int` ARGB word, as its unsigned value: the shifts and masks of the
   * source (`(argb >> 16) & 0xFF`, ...) select one byte whatever the sign bit,
   * so they are written below as division and remainder by powers of two.
   */
  type Argb = p: int | 0 <= p < 0x1_0000_0000

  function Alpha(p: Argb): int { p / 0x100_0000 }
  function Red(p: Argb): int { (p / 0x1_0000) % 0x100 }
  function Green(p: Argb): int { (p / 0x100) % 0x100 }
  function Blue(p: Argb): int { p % 0x100 }

  predicate IsChannel(v: int) { 0 <= v < 256 }

  /** The ARGB word with the given channels. */
  function Pack(a: int, r: int, g: int, b: int): Argb
    requires IsChannel(a) && IsChannel(r) && IsChannel(g) && IsChannel(b)
  {
    a * 0x100_0000 + r * 0x1_0000 + g * 0x100 + b
  }

  /** Reading the channels of a packed word gives back the channels packed. */
  lemma ChannelsOfPack(a: int, r: int, g: int, b: int)
    requires IsChannel(a) && IsChannel(r) && IsChannel(g) && IsChannel(b)
    ensures Alpha(Pack(a, r, g, b)) == a && Red(Pack(a, r, g, b)) == r
    ensures Green(Pack(a, r, g, b)) == g && Blue(Pack(a, r, g, b)) == b
  {
    var p := Pack(a, r, g, b);
    var low := g * 0x100 + b;
    assert 0 <= low < 0x1_0000;
    assert p == (a * 0x100 + r) * 0x1_0000 + low;
    assert p / 0x1_0000 == a * 0x100 + r;
    assert p / 0x100 == (a * 0x100 + r) * 0x100 + g;
    assert p / 0x100_0000 == a;
  }

  /** The four channels determine the word: nothing else is stored in it. */
  lemma PackOfChannels(p: Argb)
    ensures IsChannel(Alpha(p)) && IsChannel(Red(p)) && IsChannel(Green(p)) && IsChannel(Blue(p))
    ensures Pack(Alpha(p), Red(p), Green(p), Blue(p)) == p
  {
    var hi, lo := p / 0x1_0000, p % 0x1_0000;
    var top, r := hi / 0x100, hi % 0x100;
    var g, b := lo / 0x100, lo % 0x100;
    DivModUnique(p, 0x100_0000, top, r * 0x1_0000 + lo);
    DivModUnique(p, 0x100, hi * 0x100 + g, b);
    DivModUnique(hi * 0x100 + g, 0x100, hi, g);
  }

  /**
   * `argb & 0x00FFFFFF`, the pixel the disk tier receives: the alpha byte is
   * cleared and the colour channels are kept.
   */
  function StripAlpha(p: Argb): (q: Argb)
    ensures Alpha(q) == 0
    ensures Red(q) == Red(p) && Green(q) == Green(p) && Blue(q) == Blue(p)
  {
    LowBytesKeepChannels(p);
    p % 0x100_0000
  }

  /** The low three bytes of a word carry its three colour channels. */
  lemma LowBytesKeepChannels(p: Argb)
    ensures Alpha(p % 0x100_0000) == 0
    ensures Red(p % 0x100_0000) == Red(p)
    ensures Green(p % 0x100_0000) == Green(p)
    ensures Blue(p % 0x100_0000) == Blue(p)
  {
    var a, q := p / 0x100_0000, p % 0x100_0000;
    var x, m := q / 0x1_0000, q % 0x1_0000;
    var y, b := q / 0x100, q % 0x100;
    DivModUnique(q, 0x100_0000, 0, q);
    DivModUnique(p, 0x1_0000, a * 0x100 + x, m);
    DivModUnique(a * 0x100 + x, 0x100, a, x);
    DivModUnique(x, 0x100, 0, x);
    DivModUnique(p, 0x100, a * 0x1_0000 + y, b);
    DivModUnique(a * 0x1_0000 + y, 0x100, a * 0x100 + y / 0x100, y % 0x100);
  }

  datatype Raster = Raster(width: nat, height: nat, pixels: seq<Argb>)

  /** A well-formed image holds exactly one pixel per (x, y) position. */
  type Image = r: Raster | |r.pixels| == r.width * r.height
    witness Raster(0, 0, [])

  lemma RowMajorIndex(x: nat, y: nat, w: nat, h: nat)
    requires x < w && y < h
    ensures y * w + x < w * h
  {
    assert y * w + x < y * w + w == (y + 1) * w;
    assert (y + 1) * w <= h * w by {
      assert y + 1 <= h;
    }
  }

  /** `getArgb(x, y)` on an in-range position. */
  function PixelAt(img: Image, x: nat, y: nat): Argb
    requires x < img.width && y < img.height
  {
    RowMajorIndex(x, y, img.width, img.height);
    img.pixels[y * img.width + x]
  }

  /** The image the disk tier holds for `img`: same size, every pixel without alpha. */
  function WithoutAlpha(img: Image): (r: Image)
    ensures r.width == img.width && r.height == img.height
    ensures forall i :: 0 <= i < |img.pixels| ==> r.pixels[i] == StripAlpha(img.pixels[i])
  {
    Raster(img.width, img.height, seq(|img.pixels|, i requires 0 <= i < |img.pixels| => StripAlpha(img.pixels[i])))
  }

  /** A `w` x `h` image painted in one colour. */
  function Uniform(w: nat, h: nat, p: Argb): (r: Image)
    ensures r.width == w && r.height == h
  {
    Raster(w, h, seq(w * h, _ => p))
  }
}
