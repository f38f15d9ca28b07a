/**
 * `isImageFile` and `isVideoFile`: classification of a file by the
 * extension of its name, case-insensitively. Both packages carry the same
 * definition.
 */
module MediaType {
  import opened Text

  /** The recognised image extensions, dot included. */
  const ImageSuffixes: set<string> := {".jpg", ".jpeg", ".png", ".gif", ".bmp"}

  /** The recognised video extensions, dot included. */
  const VideoSuffixes: set<string> := {".mp4", ".avi", ".mov", ".mkv", ".m4v", ".flv"}

  /** The name, lowered, ends with one of the image extensions. */
  function IsImageFile(name: string): (r: bool)
    ensures r <==> exists s :: s in ImageSuffixes && EndsWith(Lower(name), s)
  {
    var lower := Lower(name);
    EndsWith(lower, ".jpg") || EndsWith(lower, ".jpeg")
    || EndsWith(lower, ".png") || EndsWith(lower, ".gif")
    || EndsWith(lower, ".bmp")
  }

  /** The name, lowered, ends with one of the video extensions. */
  function IsVideoFile(name: string): (r: bool)
    ensures r <==> exists s :: s in VideoSuffixes && EndsWith(Lower(name), s)
  {
    var lower := Lower(name);
    EndsWith(lower, ".mp4") || EndsWith(lower, ".avi")
    || EndsWith(lower, ".mov") || EndsWith(lower, ".mkv")
    || EndsWith(lower, ".m4v") || EndsWith(lower, ".flv")
  }

  /** Classification depends only on the lowered name, so renaming by case changes nothing. */
  lemma ClassificationIgnoresCase(name: string)
    ensures IsImageFile(Lower(name)) == IsImageFile(name)
    ensures IsVideoFile(Lower(name)) == IsVideoFile(name)
  {
    LowerIdempotent(name);
  }

  /** The last character of a name that ends with a suffix is the suffix's last character. */
  lemma LastOfSuffix(s: string, suffix: string)
    requires suffix != [] && EndsWith(s, suffix)
    ensures s[|s| - 1] == suffix[|suffix| - 1]
  {
    assert s[|s| - |suffix|..][|suffix| - 1] == s[|s| - 1];
  }

  /** Every image extension ends in `g`, `f` or `p`. */
  lemma ImageLastChar(name: string)
    requires IsImageFile(name)
    ensures var l := Lower(name); |l| > 0 && l[|l| - 1] in {'g', 'f', 'p'}
  {
    var l := Lower(name);
    if EndsWith(l, ".jpg") { LastOfSuffix(l, ".jpg"); }
    else if EndsWith(l, ".jpeg") { LastOfSuffix(l, ".jpeg"); }
    else if EndsWith(l, ".png") { LastOfSuffix(l, ".png"); }
    else if EndsWith(l, ".gif") { LastOfSuffix(l, ".gif"); }
    else { LastOfSuffix(l, ".bmp"); }
  }

  /** Every video extension ends in `4`, `i` or `v`. */
  lemma VideoLastChar(name: string)
    requires IsVideoFile(name)
    ensures var l := Lower(name); |l| > 0 && l[|l| - 1] in {'4', 'i', 'v'}
  {
    var l := Lower(name);
    if EndsWith(l, ".mp4") { LastOfSuffix(l, ".mp4"); }
    else if EndsWith(l, ".avi") { LastOfSuffix(l, ".avi"); }
    else if EndsWith(l, ".mov") { LastOfSuffix(l, ".mov"); }
    else if EndsWith(l, ".mkv") { LastOfSuffix(l, ".mkv"); }
    else if EndsWith(l, ".m4v") { LastOfSuffix(l, ".m4v"); }
    else { LastOfSuffix(l, ".flv"); }
  }

  /** No file is both an image and a video. */
  lemma ImageAndVideoDisjoint(name: string)
    ensures !(IsImageFile(name) && IsVideoFile(name))
  {
    if IsImageFile(name) {
      ImageLastChar(name);
    }
    if IsVideoFile(name) {
      VideoLastChar(name);
    }
  }

  /** An upper-case image extension is still an image. */
  lemma UpperCaseImage()
    ensures IsImageFile("A.JPG") && !IsVideoFile("A.JPG")
  {
    assert Lower("A.JPG") == "a.jpg";
    assert EndsWith("a.jpg", ".jpg");
    ImageAndVideoDisjoint("A.JPG");
  }

  /** A mixed-case video extension is still a video. */
  lemma MixedCaseVideo()
    ensures IsVideoFile("b.Mp4") && !IsImageFile("b.Mp4")
  {
    assert Lower("b.Mp4") == "b.mp4";
    assert EndsWith("b.mp4", ".mp4");
    ImageAndVideoDisjoint("b.Mp4");
  }

  /** The extension needs its dot: a file called just `jpg` is neither. */
  lemma BareExtensionIsNeither()
    ensures !IsImageFile("jpg") && !IsVideoFile("jpg")
  {
    assert Lower("jpg") == "jpg";
  }
}
