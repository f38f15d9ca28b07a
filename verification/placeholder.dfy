/**
 * `isPlaceholderImage` of the pixz cache: decides whether a thumbnail is the
 * synthetic grey or black square produced when decoding failed, from the
 * image size and five sampled pixels.
 */
module Placeholder {
  import opened Wrappers
  import opened Pixels

  const ThumbnailSize := 300
  const PlaceholderGrey := 60
  const GreyTolerance := 10
  const BlackLimit := 5
  /** Distance of the corner samples from the image edges. */
  const CornerInset := 10

  function Abs(x: int): nat { if x < 0 then -x else x }

  /** `isBlackPixel`: every colour channel below 5. */
  predicate IsBlackPixel(argb: Argb) {
    var red := Red(argb);
    var green := Green(argb);
    var blue := Blue(argb);
    red < BlackLimit && green < BlackLimit && blue < BlackLimit
  }

  predicate IsFullSize(img: Image) {
    img.width == ThumbnailSize && img.height == ThumbnailSize
  }

  /** `isPlaceholderImage`, branch for branch; `None` is Java's `null`. */
  function IsPlaceholderImage(image: Option<Image>): bool {
    if image.None? || image.value.width == 0 || image.value.height == 0 then
      true
    else if image.value.width != ThumbnailSize || image.value.height != ThumbnailSize then
      false
    else
      var img := image.value;
      var argb := PixelAt(img, img.width / 2, img.height / 2);
      var red := Red(argb);
      var green := Green(argb);
      var blue := Blue(argb);
      var isGrayPlaceholder := Abs(red - PlaceholderGrey) <= GreyTolerance
                               && Abs(green - PlaceholderGrey) <= GreyTolerance
                               && Abs(blue - PlaceholderGrey) <= GreyTolerance;
      if red < BlackLimit && green < BlackLimit && blue < BlackLimit then
        var topLeft := PixelAt(img, CornerInset, CornerInset);
        var topRight := PixelAt(img, img.width - CornerInset, CornerInset);
        var bottomLeft := PixelAt(img, CornerInset, img.height - CornerInset);
        var bottomRight := PixelAt(img, img.width - CornerInset, img.height - CornerInset);
        IsBlackPixel(topLeft) && IsBlackPixel(topRight) && IsBlackPixel(bottomLeft) && IsBlackPixel(bottomRight)
      else
        isGrayPlaceholder
  }

  // ---- the rule stated on channel ranges and absolute sample positions ----

  predicate InGreyBand(v: int) { 50 <= v <= 70 }

  predicate IsNearGrey(p: Argb) {
    InGreyBand(Red(p)) && InGreyBand(Green(p)) && InGreyBand(Blue(p))
  }

  function Centre(img: Image): Argb
    requires IsFullSize(img)
  {
    img.pixels[150 * 300 + 150]
  }

  predicate CornersBlack(img: Image)
    requires IsFullSize(img)
  {
    && IsBlackPixel(img.pixels[10 * 300 + 10])
    && IsBlackPixel(img.pixels[10 * 300 + 290])
    && IsBlackPixel(img.pixels[290 * 300 + 10])
    && IsBlackPixel(img.pixels[290 * 300 + 290])
  }

  /** Size gate: a missing or empty image counts as a placeholder. */
  lemma EmptyIsPlaceholder(image: Option<Image>)
    requires image.None? || image.value.width == 0 || image.value.height == 0
    ensures IsPlaceholderImage(image)
  {
  }

  /** Size gate: a non-empty image that is not exactly 300 x 300 is never a placeholder. */
  lemma OtherSizeIsReal(img: Image)
    requires img.width != 0 && img.height != 0 && !IsFullSize(img)
    ensures !IsPlaceholderImage(Some(img))
  {
  }

  /**
   * Colour rule for a 300 x 300 image: a placeholder exactly when the centre
   * pixel (150, 150) is within 10 of grey 60 in every channel, or is black
   * together with the four samples at (10, 10), (290, 10), (10, 290) and
   * (290, 290).
   */
  lemma ColourRule(img: Image)
    requires IsFullSize(img)
    ensures IsPlaceholderImage(Some(img)) <==>
              (IsNearGrey(Centre(img)) || (IsBlackPixel(Centre(img)) && CornersBlack(img)))
  {
  }

  /** The grey and the black test never both apply, so the order of the two checks is immaterial. */
  lemma GreyAndBlackDisjoint(p: Argb)
    ensures !(IsNearGrey(p) && IsBlackPixel(p))
  {
  }

  // ---- concrete images on either side of each test ----

  const Grey60: Argb := Pack(0xFF, 60, 60, 60)

  lemma UniformGreyIsPlaceholder()
    ensures IsPlaceholderImage(Some(Uniform(300, 300, Pack(0xFF, 60, 60, 60))))
    ensures IsPlaceholderImage(Some(Uniform(300, 300, Pack(0xFF, 55, 65, 58))))
    ensures !IsPlaceholderImage(Some(Uniform(300, 300, Pack(0xFF, 60, 60, 80))))
  {
    ChannelsOfPack(0xFF, 60, 60, 60);
    ChannelsOfPack(0xFF, 55, 65, 58);
    ChannelsOfPack(0xFF, 60, 60, 80);
  }

  const Black: Argb := 0xFF00_0000
  const White: Argb := 0xFFFF_FFFF

  /** A 300 x 300 black image whose only non-black pixel is at index `bright` (if any). */
  function BlackWithSpot(bright: int): (r: Image)
    ensures IsFullSize(r)
  {
    Raster(300, 300, seq(300 * 300, i => if i == bright then White else Black))
  }

  lemma BlackSquareIsPlaceholder()
    ensures IsPlaceholderImage(Some(BlackWithSpot(-1)))
  {
    var img := BlackWithSpot(-1);
    assert Centre(img) == Black;
    assert img.pixels[10 * 300 + 10] == img.pixels[10 * 300 + 290] == Black;
    assert img.pixels[290 * 300 + 10] == img.pixels[290 * 300 + 290] == Black;
    ColourRule(img);
  }

  /** One bright corner sample makes the black square a real (dark) frame. */
  lemma BrightCornerIsReal()
    ensures !IsPlaceholderImage(Some(BlackWithSpot(10 * 300 + 10)))
  {
    var img := BlackWithSpot(10 * 300 + 10);
    assert Centre(img) == Black;
    assert img.pixels[10 * 300 + 10] == White;
    ColourRule(img);
  }

  /** Whatever its colours, an image of any other non-empty size passes as real. */
  lemma OtherSizeGreyIsReal()
    ensures !IsPlaceholderImage(Some(Uniform(299, 300, Pack(0xFF, 60, 60, 60))))
    ensures !IsPlaceholderImage(Some(Uniform(300, 301, Pack(0xFF, 0, 0, 0))))
  {
  }
}
