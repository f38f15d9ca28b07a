/**
 * `ThumbnailGenerator`: producing a thumbnail for one file, cache first.
 * Decoding, the media player and the timers are outside the model: what
 * they produce is an input (the outcome of a decode, the sequence of events
 * that try to complete a video's future, the result of drawing the
 * placeholder). The thread pool and the semaphore only bound concurrency
 * and are not modelled.
 */
module Generator {
  import opened Wrappers
  import opened Pixels
  import opened Placeholder
  import opened Futures
  import opened ThumbnailCache

  const ThumbnailSize := 300
  /** How long the pixz worker waits before completing a silent video with the placeholder. */
  const FallbackDelayPixz := 2000
  /** The same fallback in the wingallery copy. */
  const FallbackDelayWin := 5000
  /** The media player's own pause before it gives up. */
  const AttemptTimeout := 4000

  /** What loading an image file at 300 x 300 produced. */
  datatype Decode =
    | Decoded(image: Image, isError: bool)
    | Threw

  /** The decode produced something usable: no error flag and a non-empty size. */
  predicate Usable(d: Decode) {
    d.Decoded? && !d.isError && d.image.width != 0 && d.image.height != 0
  }

  /** What the pixz worker completes the image future with. */
  function DecodeResult(d: Decode): (r: Option<Image>)
    ensures r.Some? <==> Usable(d)
    ensures r.Some? ==> r.value == d.image
  {
    match d
    case Threw => None
    case Decoded(image, isError) =>
      if isError || image.width == 0 || image.height == 0 then None else Some(image)
  }

  /** The outcome of a generation request and whether it had to decode or start a player. */
  datatype Generated = Generated(future: Future<Option<Image>>, cache: Cache, generated: bool)

  /**
   * `generateImageThumbnail` of the pixz copy. A cache hit completes at once
   * without decoding. Otherwise the decode's result completes the future, and
   * only a non-null result is offered to the cache (which itself refuses
   * placeholders).
   */
  function GenerateImagePixz(c: Cache, key: Option<Key>, load: Loader, decode: Decode, write: WriteOutcome): (r: Generated)
    ensures var hit := GetCachedThumbnail(c, key, load);
            && (hit.image.Some? ==> r == Generated(Completed(hit.image), hit.cache, false))
            && (hit.image.None? ==>
                  && r.generated
                  && r.future == Completed(DecodeResult(decode))
                  && (Usable(decode) ==> r.cache == CacheThumbnailPixz(hit.cache, key, Some(decode.image), write))
                  && (!Usable(decode) ==> r.cache == hit.cache))
  {
    var hit := GetCachedThumbnail(c, key, load);
    if hit.image.Some? then
      Generated(Completed(hit.image), hit.cache, false)
    else
      var result := DecodeResult(decode);
      var cache := if result.Some? then CacheThumbnailPixz(hit.cache, key, result, write) else hit.cache;
      Generated(Completed(result), cache, true)
  }

  /**
   * `generateImageThumbnail` of the wingallery copy: no cache and no checks,
   * only a decode that throws yields null.
   */
  function GenerateImageWin(decode: Decode): (r: Option<Image>)
    ensures r.None? <==> decode.Threw?
    ensures r.Some? ==> r.value == decode.image
  {
    match decode
    case Threw => None
    case Decoded(image, _) => Some(image)
  }

  /**
   * The events that try to complete a video's future, in the order they
   * happen. A good captured frame completes it with the frame; every other
   * event completes it with whatever `createPlaceholderImage` returns on the
   * thread the event runs on.
   */
  datatype VideoEvent =
    | FrameCaptured(frame: Option<Image>)  // the snapshot taken once the player is ready
    | SnapshotFailed                       // the snapshot threw
    | ViewFailed                           // building the media view threw
    | DecoderError                         // the player reported an error
    | AttemptTimedOut                      // the player's own 4-second pause ran out
    | SetupFailed                          // opening the media threw
    | FallbackFired                        // the worker's fallback timer ran out
    | WorkerFailed                         // the pixz worker was interrupted or threw

  /** A frame that can serve as a thumbnail: present and of non-zero size. */
  predicate GoodFrame(e: VideoEvent) {
    e.FrameCaptured? && e.frame.Some? && e.frame.value.width > 0 && e.frame.value.height > 0
  }

  /**
   * The event's handler runs on the JavaFX application thread: everything
   * inside `tryJavaFXThumbnail`, which is posted with `Platform.runLater`.
   * The fallback timer and the worker's own error handling run on executor
   * threads, where the canvas snapshot in `createPlaceholderImage` throws and
   * its catch returns null.
   */
  predicate OnFxThread(e: VideoEvent) {
    !e.FallbackFired? && !e.WorkerFailed?
  }

  /**
   * What an event completes the future with. `placeholder` is what drawing
   * the placeholder gives on the application thread (null if it threw there
   * too); off that thread it always gives null.
   */
  function EventValue(e: VideoEvent, placeholder: Option<Image>): (r: Option<Image>)
    ensures GoodFrame(e) ==> r == e.frame
    ensures !GoodFrame(e) && OnFxThread(e) ==> r == placeholder
    ensures !OnFxThread(e) ==> r.None?
  {
    match e
    case FrameCaptured(frame) =>
      if frame.Some? && frame.value.width > 0 && frame.value.height > 0 then frame else placeholder
    case FallbackFired => None
    case WorkerFailed => None
    case _ => placeholder
  }

  function EventValues(events: seq<VideoEvent>, placeholder: Option<Image>): (r: seq<Option<Image>>)
    ensures |r| == |events|
    ensures forall i :: 0 <= i < |events| ==> r[i] == EventValue(events[i], placeholder)
  {
    seq(|events|, i requires 0 <= i < |events| => EventValue(events[i], placeholder))
  }

  /** The video future once the given events have happened. */
  function VideoFuture(events: seq<VideoEvent>, placeholder: Option<Image>): (r: Future<Option<Image>>)
    ensures events == [] ==> r.Pending?
    ensures events != [] ==> r == Completed(EventValue(events[0], placeholder))
  {
    FirstCompletionWins(Pending, EventValues(events, placeholder));
    CompleteAll(Pending, EventValues(events, placeholder))
  }

  /**
   * `generateVideoThumbnail` of the pixz copy, as written. A cache hit
   * completes at once. Otherwise the first event decides the future, and
   * once it is complete whatever it holds, if not null, is offered to the
   * cache, placeholder or not.
   */
  function GenerateVideoPixz(c: Cache, key: Option<Key>, load: Loader, events: seq<VideoEvent>,
                             placeholder: Option<Image>, write: WriteOutcome): (r: Generated)
    ensures var hit := GetCachedThumbnail(c, key, load);
            && (hit.image.Some? ==> r == Generated(Completed(hit.image), hit.cache, false))
            && (hit.image.None? ==>
                  && r.generated
                  && r.future == VideoFuture(events, placeholder)
                  && (events == [] ==> r.cache == hit.cache)
                  && (events != [] ==> r.cache == CacheThumbnailPixz(hit.cache, key, EventValue(events[0], placeholder), write)))
  {
    var hit := GetCachedThumbnail(c, key, load);
    if hit.image.Some? then
      Generated(Completed(hit.image), hit.cache, false)
    else
      var future := VideoFuture(events, placeholder);
      var cache := if future.Completed? && future.value.Some? then CacheThumbnailPixz(hit.cache, key, future.value, write) else hit.cache;
      Generated(future, cache, true)
  }

  /**
   * `generateVideoThumbnail` as its comments intend: only a captured frame is
   * cached; a placeholder, whichever event produced it, is shown but never
   * stored, so that a later refresh tries again.
   */
  function GenerateVideoPixzFixed(c: Cache, key: Option<Key>, load: Loader, events: seq<VideoEvent>,
                                  placeholder: Option<Image>, write: WriteOutcome): (r: Generated)
    ensures var hit := GetCachedThumbnail(c, key, load);
            && (hit.image.Some? ==> r == Generated(Completed(hit.image), hit.cache, false))
            && (hit.image.None? ==>
                  && r.generated
                  && r.future == VideoFuture(events, placeholder)
                  && (events != [] && GoodFrame(events[0]) ==>
                        r.cache == CacheThumbnailPixz(hit.cache, key, events[0].frame, write))
                  && (events == [] || !GoodFrame(events[0]) ==> r.cache == hit.cache))
  {
    var hit := GetCachedThumbnail(c, key, load);
    if hit.image.Some? then
      Generated(Completed(hit.image), hit.cache, false)
    else
      var future := VideoFuture(events, placeholder);
      var cache := if events != [] && GoodFrame(events[0]) then CacheThumbnailPixz(hit.cache, key, future.value, write) else hit.cache;
      Generated(future, cache, true)
  }

  /** `generateVideoThumbnail` of the wingallery copy: no cache, the first event decides. */
  function GenerateVideoWin(events: seq<VideoEvent>, placeholder: Option<Image>): (r: Future<Option<Image>>)
    requires forall i :: 0 <= i < |events| ==> !events[i].WorkerFailed?
    ensures events == [] ==> r.Pending?
    ensures events != [] && GoodFrame(events[0]) ==> r == Completed(events[0].frame)
    ensures events != [] && !GoodFrame(events[0]) && OnFxThread(events[0]) ==> r == Completed(placeholder)
    ensures events != [] && !OnFxThread(events[0]) ==> r == Completed(None)
  {
    VideoFuture(events, placeholder)
  }

  // ---- the placeholder the video path draws ----

  /**
   * The play icon: the triangle with corners (130, 130), (170, 150) and
   * (130, 170), tested at the pixel's centre and scaled by 4 to stay in
   * whole numbers.
   */
  predicate InPlayIcon(x: int, y: int) {
    && 260 <= 2 * x + 1
    && 2 * x + 259 <= 4 * y
    && 4 * y <= 937 - 2 * x
  }

  const Background: Argb := 0xFF3C_3C3C
  const IconColour: Argb := 0xFFC8_C8C8

  function PlaceholderPixel(x: int, y: int): Argb {
    if InPlayIcon(x, y) then IconColour else Background
  }

  /**
   * `createPlaceholderImage`: a 300 x 300 square of grey (60, 60, 60) with
   * a light (200, 200, 200) play triangle in the middle, fully opaque.
   */
  function CreatePlaceholderImage(): (r: Image)
    ensures IsFullSize(r)
    ensures Centre(r) == IconColour
    ensures forall i :: 0 <= i < |r.pixels| ==> r.pixels[i] in {Background, IconColour}
  {
    Raster(300, 300, seq(300 * 300, i => PlaceholderPixel(i % 300, i / 300)))
  }

  /** The detector does not recognise the video placeholder: its sampled centre is the icon, not the grey. */
  lemma PlaceholderEscapesDetector()
    ensures !IsPlaceholderImage(Some(CreatePlaceholderImage()))
  {
    var p := CreatePlaceholderImage();
    ColourRule(p);
    IconIsLight();
  }

  lemma IconIsLight()
    ensures Red(IconColour) == 200 && !IsNearGrey(IconColour) && !IsBlackPixel(IconColour)
  {
    ChannelsOfPack(0xFF, 200, 200, 200);
  }

  // ---- properties relating requests ----

  /** A lookup that misses leaves the key missing, so asking again misses again. */
  lemma MissStaysMiss(c: Cache, k: Key, load: Loader)
    requires GetCachedThumbnail(c, Some(k), load).image.None?
    ensures var c' := GetCachedThumbnail(c, Some(k), load).cache;
            GetCachedThumbnail(c', Some(k), load) == Lookup(None, c')
  {
  }

  /**
   * Cache first: once an image request has produced a real thumbnail, asking
   * again completes at once with the same thumbnail and decodes nothing.
   */
  lemma ImageRequestThenHit(c: Cache, k: Key, load: Loader, decode: Decode, decode': Decode, write: WriteOutcome)
    requires Usable(decode) && !IsPlaceholderImage(Some(decode.image))
    ensures var first := GenerateImagePixz(c, Some(k), load, decode, write);
            && first.future.Completed? && first.future.value.Some?
            && GenerateImagePixz(first.cache, Some(k), load, decode', write)
               == Generated(first.future, first.cache, false)
  {
  }

  /** A decode that yields a placeholder is shown but not kept, so the next request decodes again. */
  lemma PlaceholderImageRetried(c: Cache, k: Key, load: Loader, decode: Decode, decode': Decode, write: WriteOutcome)
    requires GetCachedThumbnail(c, Some(k), load).image.None?
    requires Usable(decode) && IsPlaceholderImage(Some(decode.image))
    ensures var first := GenerateImagePixz(c, Some(k), load, decode, write);
            && first.future == Completed(Some(decode.image))
            && GenerateImagePixz(first.cache, Some(k), load, decode', write).generated
  {
    MissStaysMiss(c, k, load);
  }

  /**
   * A video whose player stays silent until the worker's fallback fires
   * completes with null: nothing is shown and nothing is cached, so the next
   * request generates again.
   */
  lemma SilentVideoShowsNothing(c: Cache, key: Option<Key>, load: Loader, events: seq<VideoEvent>,
                                placeholder: Option<Image>, write: WriteOutcome)
    requires events != [] && events[0] == FallbackFired
    ensures VideoFuture(events, placeholder) == Completed(None)
    ensures GetCachedThumbnail(c, key, load).image.None? ==>
              GenerateVideoPixz(c, key, load, events, placeholder, write).cache == GetCachedThumbnail(c, key, load).cache
  {
  }

  /**
   * As written, a video the player fails on (an error report, media that
   * cannot be opened, a snapshot that throws, the player's own timeout) has
   * the drawn placeholder written to disk, and every later request returns
   * it without trying the video again.
   */
  lemma FailedVideoPlaceholderIsPersisted(e: VideoEvent, k: Key, load: Loader, at: int, later: seq<VideoEvent>)
    requires OnFxThread(e) && !GoodFrame(e)
    ensures var placeholder := Some(CreatePlaceholderImage());
            var first := GenerateVideoPixz(Empty, Some(k), load, [e], placeholder, Written(at));
            && first.future == Completed(placeholder)
            && k in first.cache.disk && first.cache.disk[k].image == WithoutAlpha(placeholder.value)
            && GenerateVideoPixz(first.cache, Some(k), load, later, placeholder, Written(at))
               == Generated(Completed(placeholder), first.cache, false)
  {
    PlaceholderEscapesDetector();
  }

  /** The player reporting an error is one such failure. */
  lemma DecoderErrorPlaceholderIsPersisted(k: Key, load: Loader, at: int)
    ensures var placeholder := Some(CreatePlaceholderImage());
            var first := GenerateVideoPixz(Empty, Some(k), load, [DecoderError], placeholder, Written(at));
            k in first.cache.disk && first.cache.disk[k].image == WithoutAlpha(placeholder.value)
  {
    FailedVideoPlaceholderIsPersisted(DecoderError, k, load, at, []);
  }

  /**
   * With the fix, a placeholder never reaches the cache, whichever event
   * produced it and whatever the detector says of it: a request that missed
   * and ended with a placeholder leaves the next request to try again.
   */
  lemma FixedRetriesAfterPlaceholder(c: Cache, k: Key, load: Loader, events: seq<VideoEvent>, later: seq<VideoEvent>,
                                     placeholder: Option<Image>, write: WriteOutcome)
    requires GetCachedThumbnail(c, Some(k), load).image.None?
    requires events == [] || !GoodFrame(events[0])
    ensures var first := GenerateVideoPixzFixed(c, Some(k), load, events, placeholder, write);
            && first.cache.disk == GetCachedThumbnail(c, Some(k), load).cache.disk
            && GenerateVideoPixzFixed(first.cache, Some(k), load, later, placeholder, write).generated
  {
    MissStaysMiss(c, k, load);
  }

  /** With the fix, a captured frame is still cached exactly as before. */
  lemma FixedKeepsFrames(c: Cache, key: Option<Key>, load: Loader, events: seq<VideoEvent>,
                         placeholder: Option<Image>, write: WriteOutcome)
    requires events != [] && GoodFrame(events[0])
    ensures GenerateVideoPixzFixed(c, key, load, events, placeholder, write)
            == GenerateVideoPixz(c, key, load, events, placeholder, write)
  {
  }
}
