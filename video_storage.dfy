/** The one persisted entity and the single `videoData` slot of the
    browser's local storage that holds it. */
module VideoStorage {
  import opened Wrappers

  /** The record the creation form writes and the display view reads. */
  datatype VideoRecord = VideoRecord(
    title: string,
    link: string,
    notes: string,
    createdBy: string,
    createdAt: string,
    id: string)

  /** The `videoData` key. `None` is an unset key; `Some(r)` is the serialised
      form of `r`, which is never the empty string. */
  class VideoStore {
    var videoData: Option<VideoRecord>

    constructor (initial: Option<VideoRecord>)
      ensures videoData == initial
    {
      videoData := initial;
    }
  }
}
