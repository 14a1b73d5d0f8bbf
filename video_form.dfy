/** The creation form: its submit guard, the record it builds and the write
    to the `videoData` slot. */
module VideoForm {
  import opened Wrappers
  import opened VideoStorage

  /** The fixed author written into every record. */
  const DemoUser := "Demo User"

  /** The two views of the application. */
  datatype Route = FormRoute | VideoRoute

  /** The guard of the submit handler: both title and link are non-empty. */
  predicate CanSubmit(title: string, link: string) {
    title != "" && link != ""
  }

  /** Whether the submit button is greyed out; it is exactly when the
      submit handler would refuse. */
  function SubmitDisabled(title: string, link: string): (disabled: bool)
    ensures disabled <==> !CanSubmit(title, link)
  {
    title == [] || link == []
  }

  /** `notes || ""`: an empty note falls back to the empty string, so the
      stored note is always the one typed. */
  function NotesOrEmpty(notes: string): (stored: string)
    ensures stored == notes
  {
    if notes == "" then "" else notes
  }

  /** The submit handler. `createdAt` and `id` are the clock readings
      (`new Date().toISOString()` and `Date.now().toString()`). On success the
      new record replaces whatever the slot held and the form navigates to the
      video view; otherwise nothing changes and there is no navigation. */
  method Submit(store: VideoStore, title: string, link: string, notes: string,
                createdAt: string, id: string)
    returns (navigateTo: Option<Route>)
    modifies store
    ensures CanSubmit(title, link) ==>
      store.videoData.Some? &&
      store.videoData.value.title == title &&
      store.videoData.value.link == link &&
      store.videoData.value.notes == notes &&
      store.videoData.value.createdBy == DemoUser &&
      store.videoData.value.createdAt == createdAt &&
      store.videoData.value.id == id &&
      navigateTo == Some(VideoRoute)
    ensures !CanSubmit(title, link) ==>
      store.videoData == old(store.videoData) && navigateTo == None
  {
    navigateTo := None;
    if title != "" && link != "" {
      var record := VideoRecord(title, link, NotesOrEmpty(notes), DemoUser, createdAt, id);
      store.videoData := Some(record);
      navigateTo := Some(VideoRoute);
    }
  }
}
