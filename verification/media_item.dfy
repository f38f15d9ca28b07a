/**
 * `MediaItem` as the controllers use it: an immutable record of one media
 * file. The thumbnail reference and the display size are not part of it.
 */
module Items {
  import opened Wrappers

  datatype Kind = Image | Video

  /**
   * A media file: its absolute path, the absolute path of the folder holding
   * it (`getParentFile`, absent for a root), its name, its kind and its
   * last-modified time in milliseconds.
   */
  datatype MediaItem = MediaItem(path: string, parent: Option<string>, name: string, kind: Kind, modified: int)

  /** `File.separator`. */
  const Sep: char := '/'

  /** The path of `name` inside the folder `folder`. */
  function Child(folder: string, name: string): string {
    folder + [Sep] + name
  }
}
