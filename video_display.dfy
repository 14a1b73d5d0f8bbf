/** The display view: the link resolver that turns a stored YouTube link
    into an embeddable player URL, and the load-or-redirect step run when
    the view opens. */
module VideoDisplay {
  import opened Wrappers
  import opened JsString
  import opened VideoStorage
  import VideoForm

  /** The fields of a successfully parsed `URL` the resolver reads:
      `hostname`, `pathname`, and `searchParams.get('v')` (`None` when the
      parameter is absent). A failed parse is `None` one level up. */
  datatype ParsedUrl = ParsedUrl(hostname: string, pathname: string, v: Option<string>)

  const WatchHost := "youtube.com"
  const ShortLinkHost := "youtu.be"
  const ShortsMarker := "/shorts/"
  const EmbedPrefix := "https://www.youtube.com/embed/"
  const EmbedSuffix := "?rel=0&modestbranding=1"

  /** The video id picked out of a parsed link, `""` when there is none.
      Host tests are substring tests; a non-empty `v` beats `/shorts/`. */
  function VideoId(u: ParsedUrl): string {
    if Contains(u.hostname, WatchHost) then
      if u.v.Some? && u.v.value != "" then u.v.value
      else if Contains(u.pathname, ShortsMarker) then Split(u.pathname, ShortsMarker)[1]
      else ""
    else if Contains(u.hostname, ShortLinkHost) then Slice(u.pathname, 1)
    else ""
  }

  /** Reads the id back out of an embeddable URL; `None` when the text is not
      the template around a non-empty id. */
  function EmbeddedId(url: string): (id: Option<string>)
    ensures id.Some? ==> id.value != "" && url == EmbedPrefix + id.value + EmbedSuffix
  {
    if |url| > |EmbedPrefix| + |EmbedSuffix|
       && url[..|EmbedPrefix|] == EmbedPrefix
       && url[|url| - |EmbedSuffix|..] == EmbedSuffix
    then
      var id := url[|EmbedPrefix|..|url| - |EmbedSuffix|];
      assert url == url[..|EmbedPrefix|] + id + url[|url| - |EmbedSuffix|..];
      Some(id)
    else None
  }

  /** The template applied to a non-empty id; `""` is the "unresolvable"
      answer for an empty one. */
  function EmbedFor(id: string): (url: string)
    ensures url == "" <==> id == ""
    ensures id != "" ==> EmbeddedId(url) == Some(id)
  {
    if id != "" then
      EmbeddedIdOfTemplate(id);
      EmbedPrefix + id + EmbedSuffix
    else ""
  }

  /** `getEmbedUrl`: `None` stands for a link the `URL` constructor rejects,
      which yields `""` rather than an exception. */
  function GetEmbedUrl(parsed: Option<ParsedUrl>): (url: string)
    ensures parsed.None? ==> url == ""
    ensures url == "" || EmbeddedId(url).Some?
  {
    match parsed
    case None => ""
    case Some(u) => EmbedFor(VideoId(u))
  }

  /** The template can be read back: its id is recovered exactly. */
  lemma EmbeddedIdOfTemplate(id: string)
    requires id != ""
    ensures EmbeddedId(EmbedPrefix + id + EmbedSuffix) == Some(id)
  {
    var url := EmbedPrefix + id + EmbedSuffix;
    assert url[..|EmbedPrefix|] == EmbedPrefix;
    assert url[|url| - |EmbedSuffix|..] == EmbedSuffix;
    assert url[|EmbedPrefix|..|url| - |EmbedSuffix|] == id;
  }

  /** Different ids give different players. */
  lemma EmbedForInjective(a: string, b: string)
    requires EmbedFor(a) == EmbedFor(b)
    ensures a == b
  {
    if a != "" {
      assert EmbeddedId(EmbedFor(a)) == Some(a);
      assert EmbeddedId(EmbedFor(b)) == Some(b);
    }
  }

  /** Every answer is `""` or the template around a non-empty id. */
  lemma ResultShape(parsed: Option<ParsedUrl>)
    ensures var url := GetEmbedUrl(parsed);
      url == "" ||
      exists id :: EmbeddedId(url) == Some(id) && id != "" && url == EmbedPrefix + id + EmbedSuffix
  {
    var url := GetEmbedUrl(parsed);
    if url != "" {
      var id := EmbeddedId(url).value;
      assert EmbeddedId(url) == Some(id);
    }
  }

  /** On a `youtube.com` host a non-empty `v` is the id, whatever the path
      holds, `/shorts/` included. */
  lemma WatchParamWins(u: ParsedUrl, v: string)
    requires Contains(u.hostname, WatchHost)
    requires u.v == Some(v) && v != ""
    ensures GetEmbedUrl(Some(u)) == EmbedPrefix + v + EmbedSuffix
  {
  }

  /** On a `youtube.com` host without a usable `v`, the id is the text after
      the first `/shorts/` up to the next `/shorts/`. */
  lemma ShortsUpToNextMarker(u: ParsedUrl, i: nat, j: nat)
    requires Contains(u.hostname, WatchHost)
    requires u.v.None? || u.v == Some("")
    requires FirstOccurrence(u.pathname, ShortsMarker, i)
    requires FirstOccurrence(u.pathname[i + |ShortsMarker|..], ShortsMarker, j)
    ensures var id := u.pathname[i + |ShortsMarker|..][..j];
      GetEmbedUrl(Some(u)) == EmbedFor(id)
  {
    var rest := u.pathname[i + |ShortsMarker|..];
    SplitAtFirst(u.pathname, ShortsMarker, i);
    SplitAtFirst(rest, ShortsMarker, j);
    var fields := Split(u.pathname, ShortsMarker);
    assert fields[1] == Split(rest, ShortsMarker)[0] == rest[..j];
    assert Contains(u.pathname, ShortsMarker);
    assert VideoId(u) == fields[1];
  }

  /** ... or up to the end of the path when no second `/shorts/` follows,
      so `/shorts/abc/def` gives `abc/def`. */
  lemma ShortsToEndOfPath(u: ParsedUrl, i: nat)
    requires Contains(u.hostname, WatchHost)
    requires u.v.None? || u.v == Some("")
    requires FirstOccurrence(u.pathname, ShortsMarker, i)
    requires !Contains(u.pathname[i + |ShortsMarker|..], ShortsMarker)
    ensures GetEmbedUrl(Some(u)) == EmbedFor(u.pathname[i + |ShortsMarker|..])
  {
    var rest := u.pathname[i + |ShortsMarker|..];
    SplitAtFirst(u.pathname, ShortsMarker, i);
    SplitWithout(rest, ShortsMarker);
  }

  /** The common shape `/shorts/<id>` or `/shorts/<id>/shorts/...`: an id
      free of `/` right after the leading marker is taken whole. */
  lemma ShortsIdWithoutSlash(u: ParsedUrl, id: string, tail: string)
    requires Contains(u.hostname, WatchHost)
    requires u.v.None? || u.v == Some("")
    requires u.pathname == ShortsMarker + id + tail
    requires '/' !in id
    requires tail == [] || (|ShortsMarker| <= |tail| && tail[..|ShortsMarker|] == ShortsMarker)
    ensures GetEmbedUrl(Some(u)) == EmbedFor(id)
  {
    var rest := id + tail;
    assert u.pathname == ShortsMarker + rest;
    FirstOccurrenceAtStart(ShortsMarker, rest);
    assert u.pathname[|ShortsMarker|..] == rest;
    if tail == [] {
      assert rest == id;
      AbsentFirstChar(id, ShortsMarker);
      ShortsToEndOfPath(u, 0);
    } else {
      FirstOccurrenceAfter(id, tail, ShortsMarker);
      ShortsUpToNextMarker(u, 0, |id|);
      assert rest[..|id|] == id;
    }
  }

  /** A `youtube.com` link with neither a usable `v` nor `/shorts/` in its
      path is unresolvable. */
  lemma WatchWithoutId(u: ParsedUrl)
    requires Contains(u.hostname, WatchHost)
    requires u.v.None? || u.v == Some("")
    requires !Contains(u.pathname, ShortsMarker)
    ensures GetEmbedUrl(Some(u)) == ""
  {
  }

  /** On a `youtu.be` host (that is not also a `youtube.com` host) the id is
      the path without its first character. */
  lemma ShortLinkDropsFirstChar(u: ParsedUrl)
    requires !Contains(u.hostname, WatchHost) && Contains(u.hostname, ShortLinkHost)
    ensures |u.pathname| <= 1 ==> GetEmbedUrl(Some(u)) == ""
    ensures |u.pathname| > 1 ==> GetEmbedUrl(Some(u)) == EmbedPrefix + u.pathname[1..] + EmbedSuffix
  {
  }

  /** Any other host is unresolvable. */
  lemma OtherHostUnresolvable(u: ParsedUrl)
    requires !Contains(u.hostname, WatchHost) && !Contains(u.hostname, ShortLinkHost)
    ensures GetEmbedUrl(Some(u)) == ""
  {
  }

  /** The host test is containment: every host with `youtube.com` anywhere in
      it resolves exactly as the bare host `youtube.com` does, whatever the
      path and `v` hold. */
  lemma WatchHostAnywhere(before: string, after: string, path: string, v: Option<string>)
    ensures GetEmbedUrl(Some(ParsedUrl(before + WatchHost + after, path, v)))
            == GetEmbedUrl(Some(ParsedUrl(WatchHost, path, v)))
  {
    var host := before + WatchHost + after;
    assert host[|before|..|before| + |WatchHost|] == WatchHost;
    assert OccursAt(host, WatchHost, |before|);
    assert OccursAt(WatchHost, WatchHost, 0);
  }

  /** A watch link resolves to its `v`. */
  lemma WatchLinkExample()
    ensures GetEmbedUrl(Some(ParsedUrl("www.youtube.com", "/watch", Some("dQw4w9WgXcQ"))))
            == "https://www.youtube.com/embed/dQw4w9WgXcQ?rel=0&modestbranding=1"
  {
    var u := ParsedUrl("www.youtube.com", "/watch", Some("dQw4w9WgXcQ"));
    assert OccursAt(u.hostname, WatchHost, 4);
    WatchParamWins(u, "dQw4w9WgXcQ");
  }

  /** A short link resolves to its path after the leading `/`. */
  lemma ShortLinkExample()
    ensures GetEmbedUrl(Some(ParsedUrl("youtu.be", "/abc123", None)))
            == EmbedPrefix + "abc123" + EmbedSuffix
  {
    var u := ParsedUrl("youtu.be", "/abc123", None);
    assert OccursAt(u.hostname, ShortLinkHost, 0);
    ShortLinkDropsFirstChar(u);
  }

  /** A link to another site is unresolvable. */
  lemma OtherSiteExample()
    ensures GetEmbedUrl(Some(ParsedUrl("example.com", "/video", None))) == ""
  {
    AbsentFirstChar("example.com", WatchHost);
    AbsentFirstChar("example.com", ShortLinkHost);
  }

  /** Nothing after `/shorts/` is unresolvable. */
  lemma EmptyShortsExample()
    ensures GetEmbedUrl(Some(ParsedUrl("www.youtube.com", "/shorts/", Some("")))) == ""
  {
    var u := ParsedUrl("www.youtube.com", "/shorts/", Some(""));
    assert OccursAt(u.hostname, WatchHost, 4);
    assert OccursAt(u.pathname, ShortsMarker, 0);
    assert u.pathname[|ShortsMarker|..] == "";
    ShortsToEndOfPath(u, 0);
  }

  /** The outcome of opening the display view. */
  datatype LoadOutcome = Show(record: VideoRecord) | RedirectToForm

  /** The loading effect: a stored record is shown, an unset slot sends the
      user back to the form. */
  method Load(store: VideoStore) returns (outcome: LoadOutcome)
    ensures outcome.Show? <==> store.videoData.Some?
    ensures outcome.Show? ==> outcome.record == store.videoData.value
  {
    var data := store.videoData;
    if data.Some? {
      outcome := Show(data.value);
    } else {
      outcome := RedirectToForm;
    }
  }

  /** Submitting the form and then opening the display view: a successful
      submit is read back field for field, overwriting any earlier record; a
      refused one leaves the earlier state to be loaded. */
  method SubmitThenLoad(previous: Option<VideoRecord>, title: string, link: string,
                        notes: string, createdAt: string, id: string)
    returns (navigateTo: Option<VideoForm.Route>, outcome: LoadOutcome)
    ensures VideoForm.CanSubmit(title, link) ==>
      navigateTo == Some(VideoForm.VideoRoute) &&
      outcome == Show(VideoRecord(title, link, notes, VideoForm.DemoUser, createdAt, id))
    ensures !VideoForm.CanSubmit(title, link) ==>
      navigateTo == None &&
      outcome == (if previous.Some? then Show(previous.value) else RedirectToForm)
  {
    var store := new VideoStore(previous);
    navigateTo := VideoForm.Submit(store, title, link, notes, createdAt, id);
    outcome := Load(store);
  }
}
