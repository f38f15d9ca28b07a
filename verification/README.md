# Gallery core in Dafny

A model of the sequential rules that sit under the UI of the two copies of the
JavaFX photo and video gallery, packages `pixz` and `wingallery`:

- **Thumbnail cache** (`ThumbnailCache`, `CacheKey`): the key is an MD5 digest
  of `path + "_" + mtime`, written as 32 lowercase hex digits plus `.jpg`.
  Lookup goes to memory first (weak references a collector may clear), then
  to disk. A disk file whose load throws (an unusable URL) is deleted. Stores write
  through to both tiers; the pixz copy refuses placeholders. Removal, the
  failed-file set and the age-based purge are modelled too. Memory and disk
  are maps. Garbage collection is an explicit `Reclaim` step. The digest,
  the disk decoder and the outcome of a disk write are parameters.
- **Placeholder detector** (`Placeholder`, `Pixels`): `isPlaceholderImage`
  branch for branch: the size gate, the grey band around (60, 60, 60) at
  the centre pixel, and the black centre with four black sample corners.
  ARGB words are integers in [0, 2^32), read through Java's shift-and-mask
  channel extraction.
- **Thumbnail generators** (`Generator`, `Futures`, `MediaType`):
  case-insensitive extension classification. The cache-first short circuit.
  Image decode results. The video future, completed by the first of a
  sequence of events (captured frame, player error, timeouts, fallback
  timer). What the pixz copy hands to the cache once that future completes.
  The video placeholder, drawn as a 300 x 300 raster.
- **Masonry packers** (`Masonry`, `MasonryPixz`, `MasonryWin`): greedy
  shortest-column placement with ties to the lowest index.
  - pixz: 300 x 300 cells with a 2-pixel gap, in exact integers; this is
    proved to be a round-robin deal.
  - wingallery: children of given heights, no gap, and a column width
    (a `real`) that shares the available width exactly.
- **Session file** (`Session`): `saveSession` writes one existing path per
  line. `loadSession` reads lines, trims them, skips blanks, keeps existing
  directories and de-duplicates in order. `clearSession` deletes the file.
  The file system checks are parameters.
- **Gallery list logic** (`GalleryView`, `Sorting`, `Merge`, `FolderScan`,
  `Gallery`):
  - the filter and stable sort behind `applyFiltersAndSort`;
  - the recursive folder scan;
  - the de-duplicating (pixz) and appending (wingallery) merge of scan
    results;
  - folder registration;
  - prefix-based `removeFolder`;
  - both `onRefreshClick`s;
  - viewer navigation and `indexOf`;
  - `saveCurrentSession`, which writes only when folders are selected.

Everything is an immutable value; operations are pure functions from a
state to the next state. Where the two packages differ, the model has one
member per package (`CacheThumbnailPixz` and `CacheThumbnailWin`,
`MergePixz` and `MergeWin`) or a `Variant` parameter.

In three places the code does something its comments or names suggest
otherwise; the model follows the code:
- The comment at pixz `ThumbnailGenerator.java:110` says a placeholder is not
  cached. A placeholder drawn when the player fails on the JavaFX thread is
  nonetheless written to the cache (see Findings).
- Neither generator consults the failed-file set (`markAsFailed`,
  `hasFailed`). It is separate state that only its own methods touch.
- `layoutChildren` returns early when there are no children, so an empty
  pane keeps the preferred height of its last layout.

## Model

| member | source | states |
|---|---|---|
| `Text.Lower` | src/main/java/com/example/wingallery/GalleryController.java:381-382 | lowering keeps the length, leaves no ASCII capital, and changes no character that is not a capital |
| `Text.LowerIdempotent` | src/main/java/com/example/pixz/ThumbnailGenerator.java:280 | lowering an already lowered name changes nothing, so a name and its lowered form classify alike |
| `Text.Trim` | src/main/java/com/example/wingallery/SessionManager.java:68 | the trimmed line is a slice of the line with only characters up to space cut from either end; neither of its ends is such a character; it is empty exactly when the line is blank |
| `Text.TrimFixedPoint` | src/main/java/com/example/wingallery/SessionManager.java:68 | a path without blanks at either end is its own trim, so saving and trimming gives it back unchanged |
| `Text.Decimal` | src/main/java/com/example/pixz/ThumbnailCache.java:57 | the rendering of the mtime is non-empty, consists of digits and a minus sign, and starts with the minus exactly for negative times |
| `Text.DecimalRoundTrip` | src/main/java/com/example/pixz/ThumbnailCache.java:57 | parsing the rendering of any mtime gives that mtime back |
| `Text.DecimalInjective` | src/main/java/com/example/wingallery/ThumbnailCache.java:51 | two different mtimes never render the same |
| `MediaType.IsImageFile` | src/main/java/com/example/pixz/ThumbnailGenerator.java:279-284 | true exactly when the lowered name ends with one of `.jpg .jpeg .png .gif .bmp` (stated over the set of suffixes) |
| `MediaType.IsVideoFile` | src/main/java/com/example/pixz/ThumbnailGenerator.java:289-294 | true exactly when the lowered name ends with one of `.mp4 .avi .mov .mkv .m4v .flv` |
| `MediaType.ClassificationIgnoresCase` | src/main/java/com/example/wingallery/ThumbnailGenerator.java:185-200 | a name and its lowered form have the same image and video classification |
| `MediaType.ImageAndVideoDisjoint` | src/main/java/com/example/wingallery/ThumbnailGenerator.java:195-200 | no name is both an image and a video |
| `MediaType.UpperCaseImage` | src/main/java/com/example/pixz/ThumbnailGenerator.java:280-281 | `A.JPG` is an image and not a video |
| `MediaType.MixedCaseVideo` | src/main/java/com/example/pixz/ThumbnailGenerator.java:290-291 | `b.Mp4` is a video and not an image |
| `MediaType.BareExtensionIsNeither` | src/main/java/com/example/wingallery/ThumbnailGenerator.java:187 | a file named just `jpg` is neither: the dot is part of every suffix |
| `Pixels.ChannelsOfPack` | src/main/java/com/example/pixz/ThumbnailCache.java:133-135 | the shift-and-mask channel reads recover each of the four channels a word was packed from |
| `Pixels.PackOfChannels` | src/main/java/com/example/pixz/ThumbnailCache.java:131-135 | every word's channels are bytes, and repacking them gives the word back |
| `Pixels.StripAlpha` | src/main/java/com/example/pixz/ThumbnailCache.java:216 | `argb & 0x00FFFFFF` has alpha 0 and the same red, green and blue |
| `Pixels.WithoutAlpha` | src/main/java/com/example/wingallery/ThumbnailCache.java:126-133 | the persisted raster has the same size and each pixel is the source pixel with its alpha cleared |
| `Placeholder.IsBlackPixel` | src/main/java/com/example/pixz/ThumbnailCache.java:174-179 | a pixel is black when each of red, green and blue is below 5; `Placeholder.ColourRule` uses it for the centre and the four corners, and a pixel is never both black and near grey |
| `Placeholder.IsPlaceholderImage` | src/main/java/com/example/pixz/ThumbnailCache.java:118-172 | the detector; its meaning is stated by `Placeholder.EmptyIsPlaceholder`, `Placeholder.OtherSizeIsReal` and `Placeholder.ColourRule`, and the generated video placeholder escapes it (`Generator.PlaceholderEscapesDetector`) |
| `Placeholder.EmptyIsPlaceholder` | src/main/java/com/example/pixz/ThumbnailCache.java:118-120 | null or a zero width or height is a placeholder |
| `Placeholder.OtherSizeIsReal` | src/main/java/com/example/pixz/ThumbnailCache.java:124-127 | a non-empty image that is not exactly 300 x 300 is never a placeholder |
| `Placeholder.ColourRule` | src/main/java/com/example/pixz/ThumbnailCache.java:129-168 | a 300 x 300 image is a placeholder exactly when its centre is within 10 of grey 60 in every channel, or its centre and the four sample pixels at (10,10), (290,10), (10,290) and (290,290) are all below 5 in every channel |
| `Placeholder.GreyAndBlackDisjoint` | src/main/java/com/example/pixz/ThumbnailCache.java:140-154 | no pixel passes both the grey test and the black test, so the order of the two branches does not matter |
| `Placeholder.UniformGreyIsPlaceholder` | src/main/java/com/example/pixz/ThumbnailCache.java:137-142 | uniform (60,60,60) and (55,65,58) squares are placeholders; (60,60,80) is not |
| `Placeholder.BlackSquareIsPlaceholder` | src/main/java/com/example/pixz/ThumbnailCache.java:152-165 | an all-black 300 x 300 square is a placeholder |
| `Placeholder.BrightCornerIsReal` | src/main/java/com/example/pixz/ThumbnailCache.java:156-165 | the same square with one bright sample corner is not |
| `Placeholder.OtherSizeGreyIsReal` | src/main/java/com/example/pixz/ThumbnailCache.java:125-126 | grey or black squares of 299 x 300 or 300 x 301 are not placeholders |
| `CacheKey.ByteHex` | src/main/java/com/example/pixz/ThumbnailCache.java:61-65 | each byte becomes exactly two lowercase hex digits, zero padded, whose value is the byte |
| `CacheKey.HexEncode` | src/main/java/com/example/pixz/ThumbnailCache.java:60-66 | the rendering has two lowercase hex digits per digest byte |
| `CacheKey.HexRoundTrip` | src/main/java/com/example/wingallery/ThumbnailCache.java:54-58 | reading the hex rendering two digits at a time gives the digest bytes back |
| `CacheKey.HexInjective` | src/main/java/com/example/pixz/ThumbnailCache.java:61-65 | different digests render differently |
| `CacheKey.Preimage` | src/main/java/com/example/pixz/ThumbnailCache.java:57 | the hashed string starts with the path and `_`, and what follows its last `_` reads back as the mtime |
| `CacheKey.PreimageInjective` | src/main/java/com/example/pixz/ThumbnailCache.java:57 | `path + "_" + mtime` determines both the path and the mtime |
| `CacheKey.Key` | src/main/java/com/example/pixz/ThumbnailCache.java:55-71 | the key is null exactly when hashing fails; otherwise it has 36 characters, ends in `.jpg`, and its first 32 are lowercase hex digits that decode to the digest of `path + "_" + mtime` |
| `CacheKey.KeyCollisionNeedsDigestCollision` | src/main/java/com/example/wingallery/ThumbnailCache.java:49-60 | two files share a key only if the digests of their pre-hash strings agree |
| `CacheKey.NewMtimeNewKey` | src/main/java/com/example/wingallery/ThumbnailCache.java:51 | editing a file (a new mtime) gives a new key unless the digest collides |
| `Futures.Complete` | src/main/java/com/example/pixz/ThumbnailGenerator.java:106-109 | completing a pending future stores the value; completing a completed one changes nothing |
| `Futures.FirstCompletionWins` | src/main/java/com/example/pixz/ThumbnailGenerator.java:246-259 | after a sequence of completion attempts a pending future holds the first value offered, and a completed future is never changed |
| `Futures.CompleteAll` | src/main/java/com/example/wingallery/ThumbnailGenerator.java:51-52 | offering no attempts leaves the future as it was; its partner `Futures.FirstCompletionWins` states that the first attempt on a pending future wins |
| `Futures.CompleteAllIdempotent` | src/main/java/com/example/wingallery/ThumbnailGenerator.java:51-52 | offering the same attempts again changes nothing |
| `ThumbnailCache.Reclaim` | src/main/java/com/example/pixz/ThumbnailCache.java:29-30 | the collector clears only that key's memory reference; the disk, the failed set and every other key are untouched |
| `ThumbnailCache.GetCachedThumbnail` | src/main/java/com/example/pixz/ThumbnailCache.java:76-113 | no key: null and no change. Live memory entry: returned, nothing changes. Otherwise the cleared entry goes, and a disk file that loads is returned and put in memory. A disk file whose load throws is deleted and null returned. No file: null. Only the looked-up key changes |
| `ThumbnailCache.CacheThumbnailWin` | src/main/java/com/example/wingallery/ThumbnailCache.java:107-144 | a null thumbnail or key changes nothing; otherwise memory maps the key to the thumbnail, a successful write puts the alpha-cleared raster on disk, a throw before `ImageIO.write` leaves the old disk entry as it was, and a throw inside it after it deleted the target leaves no disk entry; other keys untouched |
| `ThumbnailCache.CacheThumbnailPixz` | src/main/java/com/example/pixz/ThumbnailCache.java:185-229 | a detected placeholder changes nothing; anything else is stored exactly as wingallery stores it |
| `ThumbnailCache.AbortedStoreThenReclaimMisses` | src/main/java/com/example/wingallery/ThumbnailCache.java:137 | a store whose `ImageIO.write` deleted the old file and then threw leaves nothing on disk, so once the memory copy is reclaimed the lookup misses |
| `ThumbnailCache.RemoveCachedThumbnail` | src/main/java/com/example/pixz/ThumbnailCache.java:241-258 | the key leaves both tiers and nothing else changes; a null key changes nothing |
| `ThumbnailCache.ClearMemoryCache` | src/main/java/com/example/wingallery/ThumbnailCache.java:149-151 | memory empties; disk and the failed set stay |
| `ThumbnailCache.ClearOldCache` | src/main/java/com/example/wingallery/ThumbnailCache.java:156-175 | exactly the disk files modified before `now - days * 86 400 000` go; the rest are kept unchanged and memory stays |
| `ThumbnailCache.HasFailed` | src/main/java/com/example/pixz/ThumbnailCache.java:270-272 | whether generation for the path was marked failed; `ThumbnailCache.MarkAsFailed`, `ThumbnailCache.RemoveFromFailed` and `ThumbnailCache.ClearFailedList` state how each update changes it for every path |
| `ThumbnailCache.MarkAsFailed` | src/main/java/com/example/pixz/ThumbnailCache.java:263-265 | the path is now failed, no other path's status changes, both tiers stay |
| `ThumbnailCache.RemoveFromFailed` | src/main/java/com/example/pixz/ThumbnailCache.java:277-279 | the path is no longer failed, no other path's status changes |
| `ThumbnailCache.GetFailedThumbnails` | src/main/java/com/example/pixz/ThumbnailCache.java:284-286 | the returned set holds exactly the failed paths; as a value it is unaffected by later changes |
| `ThumbnailCache.ClearFailedList` | src/main/java/com/example/pixz/ThumbnailCache.java:291-293 | no path is failed afterwards; both tiers stay |
| `ThumbnailCache.StoreThenLookup` | src/main/java/com/example/wingallery/ThumbnailCache.java:107-114 | right after a store, lookup answers from memory with the stored image |
| `ThumbnailCache.ReclaimedThenDisk` | src/main/java/com/example/wingallery/ThumbnailCache.java:74-93 | once the collector clears a stored thumbnail, lookup loads the alpha-cleared copy from disk and, if it loads, puts it back in memory |
| `ThumbnailCache.RemoveThenLookupMisses` | src/main/java/com/example/pixz/ThumbnailCache.java:246-252 | after removal, lookup misses |
| `ThumbnailCache.ThrowingLoadDeletesEntry` | src/main/java/com/example/pixz/ThumbnailCache.java:104-112 | a disk file whose load throws (an unusable URL) is gone after one lookup, and the next lookup misses |
| `ThumbnailCache.UndecodableEntryStays` | src/main/java/com/example/pixz/ThumbnailCache.java:98-102 | a disk file that loads, even as an error image, is returned and kept in memory and stays on disk; the next lookup returns it again |
| `ThumbnailCache.DetectorIgnoresAlpha` | src/main/java/com/example/pixz/ThumbnailCache.java:214-217 | clearing alpha does not change what the placeholder detector says |
| `ThumbnailCache.PixzStoreKeepsDiskClean` | src/main/java/com/example/pixz/ThumbnailCache.java:189-192 | the pixz store never puts a file the detector calls a placeholder on disk |
| `ThumbnailCache.OtherOperationsKeepDiskClean` | src/main/java/com/example/pixz/ThumbnailCache.java:234-258 | lookup, removal, purge and memory clearing keep a placeholder-free disk placeholder-free |
| `ThumbnailCache.WinStoresPlaceholders` | src/main/java/com/example/wingallery/ThumbnailCache.java:107-114 | the wingallery store writes a grey (60,60,60) placeholder to disk |
| `Generator.DecodeResult` | src/main/java/com/example/pixz/ThumbnailGenerator.java:54-67 | the image future holds the decoded image exactly when the decode neither threw nor flagged an error nor had a zero dimension; otherwise null |
| `Generator.GenerateImagePixz` | src/main/java/com/example/pixz/ThumbnailGenerator.java:35-78 | a cache hit completes at once with the cached image and decodes nothing. A miss decodes; a usable result goes to the pixz store, an unusable one stores nothing |
| `Generator.GenerateImageWin` | src/main/java/com/example/wingallery/ThumbnailGenerator.java:25-35 | null exactly when loading throws, otherwise the loaded image, errors and empty sizes included |
| `Generator.EventValue` | src/main/java/com/example/pixz/ThumbnailGenerator.java:103-249 | a captured frame of positive size completes with the frame; any other player event, handled on the JavaFX thread, completes with the drawn placeholder; the fallback timer and the worker's error handling, on executor threads where the canvas snapshot throws, complete with null |
| `Generator.VideoFuture` | src/main/java/com/example/pixz/ThumbnailGenerator.java:100-129 | with no event the future is pending; otherwise it holds what the first event offers |
| `Generator.GenerateVideoPixz` | src/main/java/com/example/pixz/ThumbnailGenerator.java:85-145 | a cache hit completes at once. On a miss the first event decides the future, and its value, placeholder or frame, is offered to the pixz store |
| `Generator.GenerateVideoPixzFixed` | src/main/java/com/example/pixz/ThumbnailGenerator.java:110 | as above, but only a captured frame is offered to the store |
| `Generator.GenerateVideoWin` | src/main/java/com/example/wingallery/ThumbnailGenerator.java:41-60 | pending until an event; a good frame completes with the frame, any other player event with the drawn placeholder, and the 5-second fallback, which runs off the JavaFX thread, with null |
| `Generator.CreatePlaceholderImage` | src/main/java/com/example/pixz/ThumbnailGenerator.java:150-181 | the video placeholder is 300 x 300, its pixels are grey 60 or the light icon colour, and its centre is the icon colour |
| `Generator.PlaceholderEscapesDetector` | src/main/java/com/example/pixz/ThumbnailGenerator.java:161-170 | the detector does not recognise the video placeholder, since the play triangle covers the sampled centre |
| `Generator.MissStaysMiss` | src/main/java/com/example/pixz/ThumbnailGenerator.java:37-40 | a lookup that missed leaves the key missing for the next lookup |
| `Generator.ImageRequestThenHit` | src/main/java/com/example/pixz/ThumbnailGenerator.java:37-40 | after an image request produced a real thumbnail, the next request completes at once with it and decodes nothing |
| `Generator.PlaceholderImageRetried` | src/main/java/com/example/pixz/ThumbnailGenerator.java:71-75 | a decoded image the detector calls a placeholder is shown but not kept, so the next request decodes again |
| `Generator.SilentVideoShowsNothing` | src/main/java/com/example/pixz/ThumbnailGenerator.java:103-141 | when the 2-second fallback fires first, the future completes with null, and the cache stays as the lookup left it, so the next request generates again |
| `Generator.FailedVideoPlaceholderIsPersisted` | src/main/java/com/example/pixz/ThumbnailGenerator.java:134-141 | as written, when the player fails on the JavaFX thread (an error report, media that cannot be opened, a failed snapshot, its own 4-second timeout) the drawn placeholder lands on disk, and every later request returns it without trying the video again |
| `Generator.DecoderErrorPlaceholderIsPersisted` | src/main/java/com/example/pixz/ThumbnailGenerator.java:243-249 | a player error report is one such failure: its placeholder ends up on disk |
| `Generator.FixedRetriesAfterPlaceholder` | src/main/java/com/example/pixz/ThumbnailGenerator.java:110 | with the fix, a request ending in a placeholder leaves the disk as the lookup left it, and the next request generates again |
| `Generator.FixedKeepsFrames` | src/main/java/com/example/pixz/ThumbnailGenerator.java:134-141 | with the fix, a captured frame is handled exactly as before |
| `Masonry.ShortestIsUnique` | src/main/java/com/example/pixz/MasonryPane.java:52-60 | the column the scan picks is uniquely determined by the heights |
| `Masonry.FindShortestColumn` | src/main/java/com/example/wingallery/MasonryPane.java:56-64 | the scan returns a column no other column is shorter than, and every column before it is strictly taller (ties go to the lowest index) |
| `Masonry.TallestColumn` | src/main/java/com/example/wingallery/MasonryPane.java:77-81 | the maximum is at least 0, at least every column, and equal to some column unless it is 0 |
| `MasonryPixz.CalculateColumns` | src/main/java/com/example/pixz/MasonryPane.java:27-33 | for a positive available width, at least one column; with more than one, that many cells and gaps fit, and one more would not; otherwise the count is unchanged |
| `MasonryPixz.RoundRobinStep` | src/main/java/com/example/pixz/MasonryPane.java:70 | dealing child `k` adds one to column `k mod n` and nothing to the others |
| `MasonryPixz.RoundRobinCountIsCount` | src/main/java/com/example/pixz/MasonryPane.java:51-71 | the closed form of a column's count equals the number of children whose index is that column modulo `n` |
| `MasonryPixz.Balanced` | src/main/java/com/example/pixz/MasonryPane.java:51-71 | column counts differ by at most one, with the extra children in the leftmost columns |
| `MasonryPixz.ShortestIsNextInRotation` | src/main/java/com/example/pixz/MasonryPane.java:52-60 | after `k` children the shortest column is `k mod n` |
| `MasonryPixz.TallestIsFirst` | src/main/java/com/example/pixz/MasonryPane.java:73-77 | column 0 has `ceil(k / n)` children and no column has more |
| `MasonryPixz.LayoutStep` | src/main/java/com/example/pixz/MasonryPane.java:63-70 | placing child `k` at column `k mod n` puts it at column `k mod n`, row `k div n`, and keeps every column `302` times its count high |
| `MasonryPixz.FinalHeight` | src/main/java/com/example/pixz/MasonryPane.java:73-79 | after the last child the tallest column is column 0, at `302 * ceil(k / n)` |
| `MasonryPixz.LayoutChildren` | src/main/java/com/example/pixz/MasonryPane.java:36-80 | the column count is recalculated. With no children nothing else changes. Otherwise child `i` sits at `(left + (i mod n) * 302, top + (i div n) * 302)` as a 300 x 300 cell, and column `c` ends 302 times its count high. The preferred height is the tallest column less one gap, plus the vertical insets |
| `MasonryPixz.ComputePrefWidth` | src/main/java/com/example/pixz/MasonryPane.java:83-85 | the preferred width; `MasonryPixz.PrefWidthEnclosesColumns` states that it spans the laid-out cells plus the insets |
| `MasonryPixz.PrefWidthEnclosesColumns` | src/main/java/com/example/pixz/MasonryPane.java:82-85 | the preferred width reaches from the left inset to the last column's right edge plus the right inset, and fits the pane whenever more than one column was calculated |
| `MasonryWin.CalculateColumns` | src/main/java/com/example/wingallery/MasonryPane.java:25-30 | for a positive available width, at least one column; with more than one, that many 300-pixel columns fit, and one more would not; otherwise the count is unchanged |
| `MasonryWin.ActualColumnWidth` | src/main/java/com/example/wingallery/MasonryPane.java:32-36 | the columns' widths add up exactly to the available width |
| `MasonryWin.TotalsStep` | src/main/java/com/example/wingallery/MasonryPane.java:74 | placing a child raises only its own column, by the child's height |
| `MasonryWin.GreedyStep` | src/main/java/com/example/wingallery/MasonryPane.java:56-64 | choosing the shortest column extends the greedy assignment by one child |
| `MasonryWin.LayoutStep` | src/main/java/com/example/wingallery/MasonryPane.java:55-75 | one loop iteration keeps the assignment greedy, the heights equal to the assigned children's sums, and every placement at its column's edge and reached height |
| `MasonryWin.LayoutChildren` | src/main/java/com/example/wingallery/MasonryPane.java:39-83 | the column count is recalculated; with no children nothing else changes. Otherwise each child goes to the shortest column, ties to the lowest index. It is placed one column wide and its own height tall, at its column's left edge and the height that column had reached. Each column ends as the sum of its children's heights. The preferred height is the tallest column (at least 0) plus the vertical insets |
| `MasonryWin.ComputePrefWidth` | src/main/java/com/example/wingallery/MasonryPane.java:86-88 | the preferred width; `MasonryWin.PrefWidthIsNominal` states that it is 300 per column and ignores the insets |
| `MasonryWin.PrefWidthIsNominal` | src/main/java/com/example/wingallery/MasonryPane.java:85-88 | the preferred width is 300 per column, does not depend on the insets, and stays within the available width once more than one column fits |
| `MasonryWin.ColumnTotalGrows` | src/main/java/com/example/wingallery/MasonryPane.java:74 | with non-negative heights a column only grows as children are placed |
| `MasonryWin.NoOverlapInColumn` | src/main/java/com/example/wingallery/MasonryPane.java:67-74 | a later child in the same column starts no higher than an earlier one ends |
| `MasonryWin.TotalsAddUp` | src/main/java/com/example/wingallery/MasonryPane.java:52-75 | the column heights together add up to the sum of all children's heights |
| `Session.FilterMembers` | src/main/java/com/example/wingallery/SessionManager.java:40-42 | the paths written are exactly the given paths that exist |
| `Session.SaveSession` | src/main/java/com/example/wingallery/SessionManager.java:36-51 | the file is each existing path, in order, each followed by the line separator, and nothing else |
| `Session.ReadLines` | src/main/java/com/example/wingallery/SessionManager.java:67 | lines hold no line break, and only an empty file has no lines |
| `Session.ReadLinesOfJoin` | src/main/java/com/example/wingallery/SessionManager.java:65-67 | reading the lines back from lines written with `\n` or `\r\n` gives the same lines |
| `Session.Add` | src/main/java/com/example/wingallery/SessionManager.java:57 | `LinkedHashSet.add` appends a new path, ignores a known one, and keeps the set duplicate-free |
| `Session.LoadLines` | src/main/java/com/example/wingallery/SessionManager.java:67-78 | the reading loop only appends to what it collected, and collects no duplicate |
| `Session.LoadLinesMembers` | src/main/java/com/example/wingallery/SessionManager.java:67-78 | a path is collected exactly when it is the trim of some line and names an existing directory |
| `Session.LoadSession` | src/main/java/com/example/wingallery/SessionManager.java:56-85 | a missing file loads nothing; otherwise the result has no duplicates, holds exactly the trimmed lines that name existing directories, and is `Session.Dedup` of those lines in file order, so each path sits where its first restorable line was |
| `Session.Dedup` | src/main/java/com/example/wingallery/SessionManager.java:57 | the reference for `LinkedHashSet` insertion order: the result is duplicate-free and holds exactly the elements of the input, in the order of first occurrence; that order is fixed by the head-first definition, which `Session.LoadLinesIsDedup` ties to the reading loop, and is not restated in the ensures |
| `Session.LoadLinesIsDedup` | src/main/java/com/example/wingallery/SessionManager.java:66-77 | the reading loop appends to what it holds the reference de-duplication of the restorable trimmed lines it does not hold yet |
| `Session.RepeatedPathKeepsFirstPlace` | src/main/java/com/example/wingallery/SessionManager.java:66-77 | a file with lines `/b`, `/a`, ` /b` restores `/b` then `/a` |
| `Session.ClearSession` | src/main/java/com/example/wingallery/SessionManager.java:90-98 | the file is gone |
| `Session.ClearThenLoad` | src/main/java/com/example/wingallery/SessionManager.java:60-63 | after clearing, loading gives nothing |
| `Session.LoadLinesOfDistinct` | src/main/java/com/example/wingallery/SessionManager.java:65-78 | distinct trimmed lines are collected in line order, restorable ones only |
| `Session.SaveThenLoad` | src/main/java/com/example/wingallery/SessionManager.java:39-78 | for distinct paths with no blanks at the ends and no line breaks, loading what was saved gives, in saving order, exactly those paths that are existing directories |
| `Session.FilterNarrower` | src/main/java/com/example/wingallery/SessionManager.java:72 | filtering by "exists" and then by "exists and is a directory" is filtering by the second alone |
| `Sorting.LessLexTotal` | src/main/java/com/example/pixz/GalleryController.java:493 | any two different names are ordered one way or the other |
| `Sorting.OrderOf` | src/main/java/com/example/pixz/GalleryController.java:492-496 | "Name" selects the name order, "Date Modified" the date order, anything else no sort |
| `Sorting.TiedMeans` | src/main/java/com/example/wingallery/GalleryController.java:415-418 | by name two items tie exactly when their names agree up to case; by date exactly when their times are equal |
| `Sorting.PrecedesTransitive` | src/main/java/com/example/pixz/GalleryController.java:493-495 | both orders are transitive |
| `Sorting.Sort` | src/main/java/com/example/pixz/GalleryController.java:492-496 | the sorted list is a permutation of the list and in order |
| `Sorting.SortStable` | src/main/java/com/example/wingallery/GalleryController.java:415-418 | items the order cannot separate keep their relative order |
| `GalleryView.MatchesSearch` | src/main/java/com/example/pixz/GalleryController.java:479-480 | a case-insensitive substring test on the name, passed by every item when the search is absent or blank; see `GalleryView.BlankSearchShowsAll` and `GalleryView.SearchIsUntrimmed` |
| `GalleryView.MatchesFolder` | src/main/java/com/example/pixz/GalleryController.java:437-440 | pixz shows only direct children of the filter folder, wingallery (its `GalleryController.java:406-407`) every path starting with it; `GalleryView.PixzFolderWithinWin` relates the two |
| `GalleryView.Filtered` | src/main/java/com/example/pixz/GalleryController.java:462-489 | no longer than the list, and every item kept matches the type, search and folder filters |
| `GalleryView.FilteredMembers` | src/main/java/com/example/pixz/GalleryController.java:486-488 | an item is kept exactly when it is listed and passes all three filters |
| `GalleryView.FilteredAppend` | src/main/java/com/example/wingallery/GalleryController.java:385-412 | filtering keeps list order: the filter of a concatenation is the concatenation of the filters |
| `GalleryView.FilteredIdempotent` | src/main/java/com/example/wingallery/GalleryController.java:409-411 | filtering the shown list again changes nothing |
| `GalleryView.Displayed` | src/main/java/com/example/pixz/GalleryController.java:462-496 | the shown list is a permutation of the filtered items, all of which match, and is in order when a known sort is chosen |
| `GalleryView.DisplayedMembers` | src/main/java/com/example/wingallery/GalleryController.java:385-419 | an item is shown exactly when it is listed and passes every filter |
| `GalleryView.UnsortedKeepsListOrder` | src/main/java/com/example/pixz/GalleryController.java:492-496 | with an unknown sort choice the shown list is in list order |
| `GalleryView.DisplayedStable` | src/main/java/com/example/pixz/GalleryController.java:493-495 | sorting keeps the list order of items with names equal up to case, or with equal times |
| `GalleryView.ByDateNewestFirst` | src/main/java/com/example/pixz/GalleryController.java:494-495 | by date, each shown item is at least as recent as every later one |
| `GalleryView.BlankSearchShowsAll` | src/main/java/com/example/pixz/GalleryController.java:479 | a blank search with all types and all folders shows every item in list order |
| `GalleryView.SearchIsUntrimmed` | src/main/java/com/example/pixz/GalleryController.java:458-480 | the search is case-insensitive but not trimmed: `CAT` finds `cat.jpg`, ` cat` does not |
| `GalleryView.PixzFolderWithinWin` | src/main/java/com/example/pixz/GalleryController.java:437-440 | an item the pixz direct-child filter shows is also shown by the wingallery prefix filter |
| `GalleryView.WinShowsSubfolders` | src/main/java/com/example/wingallery/GalleryController.java:406-407 | the wingallery filter for `/p` shows `/p/sub/a.jpg`, which the pixz filter hides |
| `GalleryView.WinShowsSiblingFolder` | src/main/java/com/example/wingallery/GalleryController.java:406-407 | the wingallery filter for `/p` also shows `/p2/b.jpg` of the sibling folder `/p2`, which the pixz filter hides |
| `Merge.AddIfAbsent` | src/main/java/com/example/pixz/GalleryController.java:680-689 | afterwards the path is listed, the old items are an unchanged prefix, and unique paths stay unique |
| `Merge.MergePixz` | src/main/java/com/example/pixz/GalleryController.java:679-690 | existing items stay in front unchanged; every scanned path is listed; nothing new appears that was not scanned; unique paths stay unique |
| `Merge.MergeNothingNew` | src/main/java/com/example/pixz/GalleryController.java:681-686 | a scan whose paths are all listed changes nothing |
| `Merge.MergePixzIdempotent` | src/main/java/com/example/pixz/GalleryController.java:679-690 | merging the same scan twice is merging it once |
| `Merge.MergeWin` | src/main/java/com/example/wingallery/GalleryController.java:591 | the existing items followed by every scanned item |
| `Merge.MergesAgreeOnNewPaths` | src/main/java/com/example/wingallery/GalleryController.java:591 | for a repeat-free scan of unlisted paths the two merges agree |
| `Merge.WinRescanDuplicates` | src/main/java/com/example/wingallery/GalleryController.java:591 | rescanning listed paths in wingallery lists a path twice |
| `FolderScan.ItemFor` | src/main/java/com/example/pixz/GalleryController.java:748-758 | a file gives an item exactly when it is an image or a video, an image taking precedence; the item's path, folder and name are the file's |
| `FolderScan.ScanFolder` | src/main/java/com/example/pixz/GalleryController.java:739-767 | the recursive scan; stated by `FolderScan.ScanFolderSound`, `FolderScan.ScanFolderComplete` and `FolderScan.ScanFolderCounts` |
| `FolderScan.ScanFolderComplete` | src/main/java/com/example/pixz/GalleryController.java:743-761 | the items found are exactly the media items of the files reached through folders that can be listed: none is missed and none is invented |
| `FolderScan.ScanFolderCounts` | src/main/java/com/example/pixz/GalleryController.java:753-765 | each folder's recorded count is the number of items found directly in it |
| `FolderScan.ScanFolderSound` | src/main/java/com/example/wingallery/GalleryController.java:611-651 | every item found is a media file of the matching kind in a folder within the scanned one; the folders counted, each with a positive count, are exactly the folders of the items found |
| `FolderScan.ScannedPathUnder` | src/main/java/com/example/pixz/GalleryController.java:745-747 | the path of every item found starts with the scanned folder and a separator |
| `Gallery.RegisterFolders` | src/main/java/com/example/wingallery/GalleryController.java:594-603 | the selected set grows by exactly the counted folders with a positive count |
| `Gallery.ApplyScan` | src/main/java/com/example/pixz/GalleryController.java:677-702 | the list keeps its items in front; the selection only grows; the view and viewer index stay; the pixz merge keeps paths unique |
| `Gallery.ScanRegistersItsFolders` | src/main/java/com/example/wingallery/GalleryController.java:582-609 | after a scan every item found is listed and its folder selected, and every newly selected folder lies within the scanned one and directly holds an item found |
| `Gallery.DropPrefixed` | src/main/java/com/example/wingallery/GalleryController.java:577 | no kept item's path starts with the prefix |
| `Gallery.DropPrefixedMembers` | src/main/java/com/example/pixz/GalleryController.java:654-660 | an item survives exactly when it was listed and its path does not start with the prefix |
| `Gallery.DropPrefixedAppend` | src/main/java/com/example/pixz/GalleryController.java:371-380 | the survivors keep their order |
| `Gallery.DropPrefixedKeepsUnique` | src/main/java/com/example/pixz/GalleryController.java:654-660 | removal keeps paths unique |
| `Gallery.ResetFolderFilter` | src/main/java/com/example/pixz/GalleryController.java:649-651 | the folder filter is cleared exactly when it was the removed folder; the other settings stay |
| `Gallery.RemoveFolder` | src/main/java/com/example/pixz/GalleryController.java:635-664 | the folder leaves the selection, a filter on it is cleared, and exactly the items whose path starts with the folder string are removed |
| `Gallery.RemoveFolderTakesSibling` | src/main/java/com/example/wingallery/GalleryController.java:577 | removing `/p` also removes the items of `/p2`, which stays selected |
| `Gallery.RemoveFolderFixed` | src/main/java/com/example/wingallery/GalleryController.java:558-580 | as `removeFolder`, but removing exactly the items whose path starts with the folder and a separator |
| `Gallery.RemoveFolderFixedExact` | src/main/java/com/example/pixz/GalleryController.java:655 | with the fix an item goes exactly when its folder is the removed folder or lies below it |
| `Gallery.RemoveFolderFixedTakesScan` | src/main/java/com/example/pixz/GalleryController.java:653-660 | with the fix every item a scan of the folder found is still removed |
| `Gallery.RefreshPixz` | src/main/java/com/example/pixz/GalleryController.java:366-405 | with a folder filter, exactly the items whose path starts with it go, and it is rescanned if it exists. Without one, the list is cleared and exactly the selected folders that exist are rescanned. Selection and view stay |
| `Gallery.RefreshWin` | src/main/java/com/example/wingallery/GalleryController.java:320-339 | the list is cleared and exactly the selected folders that still exist are rescanned, each once |
| `Gallery.RefreshWinRebuilds` | src/main/java/com/example/wingallery/GalleryController.java:327-335 | after the rescans finish the list is exactly their items, in the order they finished |
| `Gallery.FilteredRefreshStaysUnique` | src/main/java/com/example/pixz/GalleryController.java:370-384 | a filtered pixz refresh and its rescan keep paths unique |
| `Gallery.PlaceholderPaths` | src/main/java/com/example/pixz/GalleryController.java:343-359 | the collected paths are exactly those of listed items whose loaded thumbnail the detector calls a placeholder |
| `Gallery.InvalidateAll` | src/main/java/com/example/pixz/GalleryController.java:361-364 | exactly the keys of the collected paths leave both tiers; every other entry stays as it was |
| `Gallery.RefreshRegenerates` | src/main/java/com/example/pixz/GalleryController.java:342-364 | after the refresh's removals, looking up an item that showed a placeholder misses |
| `Gallery.Next` | src/main/java/com/example/pixz/GalleryController.java:1577-1582 | the index moves up by one exactly when it was below the last position, and the item there is shown; otherwise nothing happens |
| `Gallery.Previous` | src/main/java/com/example/wingallery/GalleryController.java:1208-1213 | the index moves down by one exactly when it was above 0, and the item there is shown; otherwise nothing happens |
| `Gallery.IndexOf` | src/main/java/com/example/pixz/GalleryController.java:956 | -1 exactly when the item is not listed; otherwise the first position holding it |
| `Gallery.NextPreviousInverse` | src/main/java/com/example/wingallery/GalleryController.java:1201-1213 | back after forward, and forward after back, return to the start when both moves happen |
| `Gallery.NextTimesStops` | src/main/java/com/example/pixz/GalleryController.java:1577-1582 | `k` presses of next move `k` places but stop at the last item |
| `Gallery.SaveCurrentSession` | src/main/java/com/example/wingallery/GalleryController.java:169-173 | with no folder selected the session file is left as it was; otherwise it is rewritten |
| `Gallery.SaveCurrentThenLoad` | src/main/java/com/example/wingallery/GalleryController.java:152-173 | closing with folders selected, the next start restores those that are still directories, in saving order |
| `Gallery.EmptySelectionRestoresEarlierSession` | src/main/java/com/example/pixz/GalleryController.java:189-192 | closing with nothing selected leaves the old file, so the next start restores the earlier session |

## Left out

- JavaFX UI: cards, viewers, sidebar, header labels, the empty and no-results panes, animations and window chrome. `refreshGallery` and `updateHeaderInfo` only redraw.
- Concurrency: the executor, the semaphore, `Platform.runLater` and the futures' threads. A video's future is the first of an ordered sequence of completion events. Which event comes first (frame, error, 4 s player timeout, 2 s or 5 s fallback) is an input, not a clock.
- Threads are not modelled, but which thread an event runs on is (`Generator.OnFxThread`). Events on executor threads (`FallbackFired`, `WorkerFailed`) offer null, because the canvas snapshot in `createPlaceholderImage` throws off the JavaFX thread and its catch returns null. The player's own events run inside `Platform.runLater` and offer the drawn placeholder.
- Garbage collection: a cleared weak reference is the explicit `Reclaim` step, not memory pressure.
- Foreign code is a parameter:
  - MD5 (`MessageDigest`) is a function from the pre-hash string to an optional 16-byte digest. `getBytes` is folded into it.
  - Image decoding, JPEG encoding and the media player's snapshot are inputs that may fail.
  - The disk decoder is a loader function.
- JPEG loss: the disk tier holds the alpha-cleared raster exactly. Lossy compression is not modelled.
- The file system is a parameter: `listFiles` is an entry tree; `exists`, `isDirectory` and reading the session file are predicates and options. Creating the cache and session directories, and the I/O errors `saveSession` and `loadSession` swallow, are not modelled.
- `FolderScan.ScanFolder`: the listing is a finite tree, so directory cycles are excluded. `File.isDirectory` follows symbolic links, so in the source a link to an ancestor makes `scanFolderRecursive` (pixz `GalleryController.java:745-747`, wingallery `GalleryController.java:616-619`) descend again under an ever longer path. It stops only when the operating system refuses to resolve the path or the stack overflows. A `StackOverflowError` thrown inside `CompletableFuture.runAsync` (pixz `GalleryController.java:669`, wingallery `GalleryController.java:584`) completes the future exceptionally, so that scan adds no item and registers no folder, and nothing reports it.
- A corrupt cache file: the JavaFX `Image` constructor (pixz `ThumbnailCache.java:98`, wingallery `ThumbnailCache.java:90`) does not throw for a file it cannot decode; it returns an image with its error flag set. The loader then gives `Some` of that image, which the lookup returns and keeps in memory and never deletes (`ThumbnailCache.UndecodableEntryStays`), and the pixz generator takes it as a hit. Only a load that throws deletes the file. The error flag itself is not modelled.
- wingallery's scan-time thumbnail generation inside `scanFolderRecursive` is not modelled. It does not affect the list, the counts or the selection.
- `Text.Lower` and `Sorting.Precedes` lower only ASCII letters. `String.toLowerCase` and `CASE_INSENSITIVE_ORDER` on other scripts are not modelled.
- `Text.Lower`: does not model lowering in the default locale. Under a Turkish or Azerbaijani locale `toLowerCase()` turns `I` into a dotless `ı`, so `X.GIF` and `X.AVI` fail the extension tests (pixz `ThumbnailGenerator.java:280` and `:290`) and the search at pixz `GalleryController.java:479` compares differently; the model lowers as in a locale-neutral setting.
- `Generator.CreatePlaceholderImage`: the canvas triangle is rasterised by pixel centre, without antialiasing. Only the centre pixel matters to the detector, and it lies well inside the triangle.
- Geometry: the pixz packer works in exact integers. The wingallery column width is an exact rational. Java `double` rounding is not modelled. Cover-fit and viewer geometry are left out.
- Timestamps are unbounded integers.
- The iteration order of `selectedFolders` (a `HashSet`) is a parameter: any sequence listing each member once.
- `Gallery.Next` and `Gallery.Previous` require the viewer index to be -1 or a list position, as it always is when the viewer is open. Outside that range `Next` still does nothing once the index is at or past the last item (pixz `GalleryController.java:1577`); only an index below -1 for `Next`, or above the list size for `Previous`, would reach a `mediaItems.get` that throws, and that exception is not modelled.
- `Gallery.IndexOf` uses value equality. `MediaItem` has no `equals`, so Java compares identity. The two differ only for duplicate items, which wingallery can list after a rescan.
- `Text.DecimalRoundTrip`: `ParseDecimal` and `ParseDigits` are total helper inverses introduced for the proof. They are not part of the source.
- The wingallery folder filter is a plain prefix test. It shows sibling folders such as `/p2` under `/p`, as `GalleryView.WinShowsSiblingFolder` and `Gallery.RemoveFolderTakesSibling` illustrate. The model keeps that behaviour.
- `Generator.GenerateVideoWin` takes no `WorkerFailed` event: wingallery posts the player to the JavaFX thread straight from the caller and has no worker that could be interrupted.
- Sorting by date uses the `modified` time an item captured when it was scanned. The comparators read `getFile().lastModified()` at sort time (pixz `GalleryController.java:495`, wingallery `GalleryController.java:418`), so a file changed since its scan sorts by its new time there.
- `FolderScan.ScanFolderCounts` assumes a listing a file system can produce (`FolderScan.ProperListing`): the names in one directory are distinct and contain no separator. For other trees two sub-folders could share a path and their counts would overwrite each other.
- `clearSession` errors and `ThumbnailGenerator.shutdown` are I/O or lifecycle only.
- `ThumbnailCache.GetCachedThumbnail`: does not model a failed delete. The catch around `Files.deleteIfExists` (pixz `ThumbnailCache.java:106-109`, wingallery `ThumbnailCache.java:96-98`) swallows the `IOException`, so the file can stay on disk; the model always removes it.
- `ThumbnailCache.RemoveCachedThumbnail`: does not model a failed delete. The `IOException` from `Files.deleteIfExists` (pixz `ThumbnailCache.java:252-255`) is swallowed and the file stays; the model always removes it.
- `ThumbnailCache.ClearOldCache`: does not model failed deletes or unreadable times. A file whose modification time cannot be read is kept (pixz `ThumbnailCache.java:303-306`, wingallery `ThumbnailCache.java:161-165`), and a delete that fails is ignored (pixz `ThumbnailCache.java:310-313`, wingallery `ThumbnailCache.java:168-170`); the model reads every time and deletes every old file.
- `ThumbnailCache.CacheThumbnailWin` and `ThumbnailCache.CacheThumbnailPixz`: do not model a write that fails part-way. `ImageIO.write` (pixz `ThumbnailCache.java:222`, wingallery `ThumbnailCache.java:137`) deletes the target first; the model covers a throw before the write (`WriteFailed`, old file kept) and a throw after the delete and before any byte is written (`WriteAborted`, no file), but not a truncated JPEG left by an error mid-write, because what the decoder makes of a truncated file is not modelled.
- `Session.SaveThenLoad`: requires every path to equal its own trim and hold no line break. `saveSession` writes a path verbatim (wingallery `SessionManager.java:43`) and `loadSession` trims each line (`SessionManager.java:68`), so a selected folder whose name begins or ends with a blank comes back under the trimmed path, restored only if that path is also an existing directory, and is otherwise dropped.
- `Items.Child`: joins with one separator and fixes it to `/`. For the root folder `/` it gives `//a.jpg` where `File` normalises to `/a.jpg`, and the Windows separator `\` that wingallery targets is not modelled.

## Findings

| source | as written | input that shows it | evidently intended | confidence | as-written member | corrected member |
|---|---|---|---|---|---|---|
| src/main/java/com/example/pixz/ThumbnailGenerator.java:134-141 | When the player fails on the JavaFX thread (the error handler at lines 243-249, the setup catch at lines 264-271, a failed snapshot, its own 4-second timeout), the future completes with the drawn placeholder and `whenComplete` offers it to `cacheThumbnail`. The detector samples the centre pixel, which lies inside the light play triangle, so the placeholder is not recognised and is written to disk. Every later request, refresh included, returns it from the cache | a video the player reports an error for: the event sequence `[DecoderError]` (likewise `[SetupFailed]`) | the comment at line 110: a placeholder is not cached and is retried on refresh | medium, not executed | `Generator.FailedVideoPlaceholderIsPersisted` | `Generator.GenerateVideoPixzFixed`, `Generator.FixedRetriesAfterPlaceholder` |
| src/main/java/com/example/pixz/GalleryController.java:655 | `removeFolder` drops every item whose path starts with the folder string, including the items of a sibling folder whose name extends it. The sibling stays selected but loses its items; the wingallery copy does the same at src/main/java/com/example/wingallery/GalleryController.java:577, and the filtered pixz refresh at src/main/java/com/example/pixz/GalleryController.java:373 drops the sibling's items by the same prefix test | remove `/p` with items `/p/a.jpg` and `/p2/b.jpg` listed and both folders selected | remove only the folder's own items and those of its sub-folders (prefix ending at the separator) | high, not executed | `Gallery.RemoveFolderTakesSibling` | `Gallery.RemoveFolderFixed`, `Gallery.RemoveFolderFixedExact` |
