/**
 * The two-tier thumbnail cache of both packages (`ThumbnailCache`): a memory
 * tier of weakly held images and a disk tier of JPEG files named by cache key,
 * plus the pixz copy's set of files whose generation failed.
 *
 * The memory tier maps a key to `Some(image)` while the weak reference is
 * live and to `None` once the garbage collector has cleared it (`Reclaim`).
 * A disk file is the alpha-free image handed to the JPEG writer together with
 * its last-modified time; reading it back goes through a `Loader`, which
 * returns `None` when the load throws. The JavaFX `Image` constructor throws
 * only for a URL it cannot use; a file it cannot decode still gives an image,
 * with its error flag set, so such a load returns `Some`.
 */
module ThumbnailCache {
  import opened Wrappers
  import opened Pixels
  import opened Placeholder

  type Key = string

  datatype DiskFile = DiskFile(image: Image, modified: int)

  type Loader = DiskFile -> Option<Image>

  /**
   * What the store's write step did: wrote the file at the given time; threw
   * before `ImageIO.write` touched the file (`WriteFailed`); or threw inside
   * `ImageIO.write` after it had deleted the old file and before it created
   * the new one (`WriteAborted`), which leaves no file at all.
   */
  datatype WriteOutcome = Written(at: int) | WriteFailed | WriteAborted

  datatype Cache = Cache(memory: map<Key, Option<Image>>, disk: map<Key, DiskFile>, failed: set<string>)

  const Empty: Cache := Cache(map[], map[], {})

  /** `memoryCache.get(key)` holds a reference that has not been cleared. */
  predicate IsLive(c: Cache, k: Key) {
    k in c.memory && c.memory[k].Some?
  }

  predicate SameEntry<V(==)>(m: map<Key, V>, m': map<Key, V>, k: Key) {
    (k in m <==> k in m') && (k in m ==> m[k] == m'[k])
  }

  /** Both tiers agree on every key other than `k`. */
  ghost predicate OnlyKeyChanged(c: Cache, c': Cache, k: Key) {
    forall k' :: k' != k ==> SameEntry(c.memory, c'.memory, k') && SameEntry(c.disk, c'.disk, k')
  }

  /** The garbage collector clears the weak reference held for `k`. */
  function Reclaim(c: Cache, k: Key): (r: Cache)
    ensures !IsLive(r, k) && r.disk == c.disk && r.failed == c.failed
    ensures OnlyKeyChanged(c, r, k)
  {
    if k in c.memory then c.(memory := c.memory[k := None]) else c
  }

  datatype Lookup = Lookup(image: Option<Image>, cache: Cache)

  /**
   * `getCachedThumbnail`. A live memory entry is the answer and the disk is
   * not consulted; a cleared entry is dropped before the disk is tried; a disk
   * file that loads is put back into memory; one whose load throws is
   * deleted. Nothing else changes.
   */
  function GetCachedThumbnail(c: Cache, key: Option<Key>, load: Loader): (r: Lookup)
    ensures r.cache.failed == c.failed
    ensures key.None? ==> r == Lookup(None, c)
    ensures key.Some? ==> OnlyKeyChanged(c, r.cache, key.value)
    ensures key.Some? && IsLive(c, key.value) ==> r == Lookup(c.memory[key.value], c)
    ensures key.Some? && !IsLive(c, key.value) ==>
              var k := key.value;
              if k !in c.disk then
                r.image == None && k !in r.cache.memory && r.cache.disk == c.disk
              else if load(c.disk[k]).Some? then
                r.image == load(c.disk[k]) && k in r.cache.memory && r.cache.memory[k] == r.image && r.cache.disk == c.disk
              else
                r.image == None && k !in r.cache.memory && k !in r.cache.disk
  {
    match key
    case None => Lookup(None, c)
    case Some(k) =>
      if IsLive(c, k) then
        Lookup(c.memory[k], c)
      else
        var memory := c.memory - {k};
        if k in c.disk then
          match load(c.disk[k])
          case Some(image) => Lookup(Some(image), c.(memory := memory[k := Some(image)]))
          case None => Lookup(None, c.(memory := memory, disk := c.disk - {k}))
        else
          Lookup(None, c.(memory := memory))
  }

  /**
   * `cacheThumbnail` of the wingallery copy: any non-null thumbnail under a
   * derivable key goes to memory, and, unless the write step throws, to disk
   * without its alpha channel. A throw inside `ImageIO.write` after it deleted
   * the target loses the old file. A null thumbnail or key changes nothing.
   */
  function CacheThumbnailWin(c: Cache, key: Option<Key>, thumbnail: Option<Image>, write: WriteOutcome): (r: Cache)
    ensures r.failed == c.failed
    ensures thumbnail.None? || key.None? ==> r == c
    ensures thumbnail.Some? && key.Some? ==>
              && OnlyKeyChanged(c, r, key.value)
              && key.value in r.memory && r.memory[key.value] == thumbnail
              && (write.Written? ==> key.value in r.disk && r.disk[key.value] == DiskFile(WithoutAlpha(thumbnail.value), write.at))
              && (write.WriteFailed? ==> SameEntry(c.disk, r.disk, key.value))
              && (write.WriteAborted? ==> key.value !in r.disk)
  {
    if thumbnail.None? then c
    else match key
      case None => c
      case Some(k) =>
        var withMemory := c.(memory := c.memory[k := thumbnail]);
        match write
        case Written(at) => withMemory.(disk := c.disk[k := DiskFile(WithoutAlpha(thumbnail.value), at)])
        case WriteFailed => withMemory
        case WriteAborted => withMemory.(disk := c.disk - {k})
  }

  /**
   * `cacheThumbnail` of the pixz copy: as the wingallery copy, except that an
   * image the detector classifies as a placeholder is refused outright.
   */
  function CacheThumbnailPixz(c: Cache, key: Option<Key>, thumbnail: Option<Image>, write: WriteOutcome): (r: Cache)
    ensures thumbnail.None? ==> r == c
    ensures IsPlaceholderImage(thumbnail) ==> r == c
    ensures !IsPlaceholderImage(thumbnail) ==> r == CacheThumbnailWin(c, key, thumbnail, write)
  {
    if thumbnail.None? then c
    else if IsPlaceholderImage(thumbnail) then c
    else CacheThumbnailWin(c, key, thumbnail, write)
  }

  /** `removeCachedThumbnail`: the key leaves both tiers; other keys are untouched. */
  function RemoveCachedThumbnail(c: Cache, key: Option<Key>): (r: Cache)
    ensures r.failed == c.failed
    ensures key.None? ==> r == c
    ensures key.Some? ==> key.value !in r.memory && key.value !in r.disk && OnlyKeyChanged(c, r, key.value)
  {
    match key
    case None => c
    case Some(k) => c.(memory := c.memory - {k}, disk := c.disk - {k})
  }

  /** `clearMemoryCache`: the memory tier empties, the disk tier stays. */
  function ClearMemoryCache(c: Cache): (r: Cache)
    ensures r.memory == map[] && r.disk == c.disk && r.failed == c.failed
  {
    c.(memory := map[])
  }

  const MillisPerDay := 24 * 60 * 60 * 1000

  /**
   * `clearOldCache(daysOld)` at wall-clock time `now`: exactly the disk files
   * last modified before `now - daysOld * 86_400_000` are deleted.
   */
  function ClearOldCache(c: Cache, daysOld: int, now: int): (r: Cache)
    ensures r.memory == c.memory && r.failed == c.failed
    ensures forall k :: k in r.disk <==> k in c.disk && c.disk[k].modified >= now - daysOld * 86_400_000
    ensures forall k :: k in r.disk ==> r.disk[k] == c.disk[k]
  {
    var cutoffTime := now - daysOld * MillisPerDay;
    c.(disk := map k | k in c.disk && !(c.disk[k].modified < cutoffTime) :: c.disk[k])
  }

  // ---- failed-generation set (pixz) ----

  predicate HasFailed(c: Cache, path: string) {
    path in c.failed
  }

  function MarkAsFailed(c: Cache, path: string): (r: Cache)
    ensures HasFailed(r, path)
    ensures forall p :: p != path ==> HasFailed(r, p) == HasFailed(c, p)
    ensures r.memory == c.memory && r.disk == c.disk
  {
    c.(failed := c.failed + {path})
  }

  function RemoveFromFailed(c: Cache, path: string): (r: Cache)
    ensures !HasFailed(r, path)
    ensures forall p :: p != path ==> HasFailed(r, p) == HasFailed(c, p)
    ensures r.memory == c.memory && r.disk == c.disk
  {
    c.(failed := c.failed - {path})
  }

  /** `getFailedThumbnails`: a copy, so later changes to the cache do not reach it. */
  function GetFailedThumbnails(c: Cache): (r: set<string>)
    ensures forall p :: p in r <==> HasFailed(c, p)
  {
    c.failed
  }

  function ClearFailedList(c: Cache): (r: Cache)
    ensures forall p :: !HasFailed(r, p)
    ensures r.memory == c.memory && r.disk == c.disk
  {
    c.(failed := {})
  }

  // ---- properties relating the operations ----

  /** Write-through: right after a store, lookup answers from memory with the stored image. */
  lemma StoreThenLookup(c: Cache, k: Key, img: Image, write: WriteOutcome, load: Loader)
    ensures var c' := CacheThumbnailWin(c, Some(k), Some(img), write);
            GetCachedThumbnail(c', Some(k), load) == Lookup(Some(img), c')
  {
  }

  /**
   * Once the memory copy is reclaimed, lookup falls back to the disk file,
   * which holds the stored image's colours without alpha, and re-populates memory.
   */
  lemma ReclaimedThenDisk(c: Cache, k: Key, img: Image, at: int, load: Loader)
    ensures var c' := Reclaim(CacheThumbnailWin(c, Some(k), Some(img), Written(at)), k);
            && c'.disk[k].image == WithoutAlpha(img)
            && var r := GetCachedThumbnail(c', Some(k), load);
            && r.image == load(DiskFile(WithoutAlpha(img), at))
            && (r.image.Some? ==> IsLive(r.cache, k))
  {
  }

  /** After removal, lookup misses whatever the disk would have loaded. */
  lemma RemoveThenLookupMisses(c: Cache, k: Key, load: Loader)
    ensures var c' := RemoveCachedThumbnail(c, Some(k));
            GetCachedThumbnail(c', Some(k), load) == Lookup(None, c')
  {
  }

  /**
   * A store whose write aborts after `ImageIO.write` deleted the target loses
   * the disk copy: once the memory copy is reclaimed, lookup misses, whatever
   * was on disk before.
   */
  lemma AbortedStoreThenReclaimMisses(c: Cache, k: Key, img: Image, load: Loader)
    ensures var c' := Reclaim(CacheThumbnailWin(c, Some(k), Some(img), WriteAborted), k);
            GetCachedThumbnail(c', Some(k), load).image == None
  {
  }

  /** A disk file whose load throws is deleted: the second lookup finds nothing to load. */
  lemma ThrowingLoadDeletesEntry(c: Cache, k: Key, load: Loader)
    requires !IsLive(c, k) && k in c.disk && load(c.disk[k]).None?
    ensures var r := GetCachedThumbnail(c, Some(k), load);
            && r.image.None? && k !in r.cache.disk
            && GetCachedThumbnail(r.cache, Some(k), load) == Lookup(None, r.cache)
  {
  }

  /**
   * A disk file that does not decode still loads, as an image with its error
   * flag set: the lookup returns it and keeps it in memory, the file stays on
   * disk, and the next lookup returns the same image from memory.
   */
  lemma UndecodableEntryStays(c: Cache, k: Key, load: Loader)
    requires !IsLive(c, k) && k in c.disk && load(c.disk[k]).Some?
    ensures var r := GetCachedThumbnail(c, Some(k), load);
            && r.image == load(c.disk[k]) && r.cache.disk == c.disk && IsLive(r.cache, k)
            && GetCachedThumbnail(r.cache, Some(k), load) == Lookup(r.image, r.cache)
  {
  }

  /** Clearing alpha does not change what the placeholder detector sees. */
  lemma {:induction false} DetectorIgnoresAlpha(img: Image)
    ensures IsPlaceholderImage(Some(WithoutAlpha(img))) == IsPlaceholderImage(Some(img))
  {
    var s := WithoutAlpha(img);
    if img.width == ThumbnailSize && img.height == ThumbnailSize {
      assert img.pixels[150 * 300 + 150] == img.pixels[150 * 300 + 150];
      ColourRule(img);
      ColourRule(s);
      assert s.pixels[150 * 300 + 150] == StripAlpha(img.pixels[150 * 300 + 150]);
      assert s.pixels[10 * 300 + 10] == StripAlpha(img.pixels[10 * 300 + 10]);
      assert s.pixels[10 * 300 + 290] == StripAlpha(img.pixels[10 * 300 + 290]);
      assert s.pixels[290 * 300 + 10] == StripAlpha(img.pixels[290 * 300 + 10]);
      assert s.pixels[290 * 300 + 290] == StripAlpha(img.pixels[290 * 300 + 290]);
    }
  }

  /** The disk tier holds no file the detector would classify as a placeholder. */
  predicate NoPlaceholderOnDisk(c: Cache) {
    forall k :: k in c.disk ==> !IsPlaceholderImage(Some(c.disk[k].image))
  }

  /**
   * The pixz store keeps the disk free of placeholders: a refused image writes
   * nothing, and an accepted one is still accepted once its alpha is cleared.
   */
  lemma PixzStoreKeepsDiskClean(c: Cache, key: Option<Key>, thumbnail: Option<Image>, write: WriteOutcome)
    requires NoPlaceholderOnDisk(c)
    ensures NoPlaceholderOnDisk(CacheThumbnailPixz(c, key, thumbnail, write))
  {
    if thumbnail.Some? && !IsPlaceholderImage(thumbnail) {
      DetectorIgnoresAlpha(thumbnail.value);
    }
  }

  /** Lookup, removal and purging only ever delete disk files, so they keep the disk clean too. */
  lemma OtherOperationsKeepDiskClean(c: Cache, key: Option<Key>, load: Loader, daysOld: int, now: int)
    requires NoPlaceholderOnDisk(c)
    ensures NoPlaceholderOnDisk(GetCachedThumbnail(c, key, load).cache)
    ensures NoPlaceholderOnDisk(RemoveCachedThumbnail(c, key))
    ensures NoPlaceholderOnDisk(ClearOldCache(c, daysOld, now))
    ensures NoPlaceholderOnDisk(ClearMemoryCache(c))
  {
  }

  /** The wingallery store has no gate: a placeholder image does reach the disk. */
  lemma WinStoresPlaceholders(c: Cache, k: Key, at: int)
    ensures var grey := Uniform(300, 300, Grey60);
            && IsPlaceholderImage(Some(grey))
            && !NoPlaceholderOnDisk(CacheThumbnailWin(c, Some(k), Some(grey), Written(at)))
  {
    var grey := Uniform(300, 300, Grey60);
    var c' := CacheThumbnailWin(c, Some(k), Some(grey), Written(at));
    UniformGreyIsPlaceholder();
    DetectorIgnoresAlpha(grey);
    assert c'.disk[k].image == WithoutAlpha(grey);
  }
}
