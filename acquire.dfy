/**
 * The acquisition step of `main`: a non-empty `--rss-title` resolves the feed
 * and fetches the enclosure into a local file; otherwise the downloader
 * fetches `--url` directly. The network, the file system and the downloader
 * are replaced by the effects they would perform and by the inputs they would
 * supply: the document the feed URL serves and the info the downloader reports.
 */
module Acquire {
  import opened Wrappers
  import opened Soup
  import opened Rss
  import opened Naming

  /** An outside effect the pipeline performs, in order. */
  datatype Effect =
    | HttpGet(url: string)                    // requests.get(url)
    | WriteBytes(path: string, from: string)  // write the body fetched from `from` to `path`
    | YtDlpDownload(url: string)              // the downloader fetches and transcodes `url`

  /** What acquisition did, and the audio file name it hands to transcription or the exception it raised. */
  datatype Run = Run(effects: seq<Effect>, audioFile: Result<string, Error>)

  /** Python truthiness of the optional `--rss-title` argument. */
  predicate Truthy(title: Option<string>) {
    title.Some? && title.value != ""
  }

  /** The feed branch: resolve, fetch the enclosure with no status check, write it under its last segment. */
  function FromFeed(feedUrl: string, pattern: string, feed: Document): Run {
    AfterResolution(feedUrl, ParseRss(feed, pattern))
  }

  /** What the feed branch does once the fetched feed resolved to `resolved`. */
  function AfterResolution(feedUrl: string, resolved: Result<string, Error>): Run {
    match resolved
    case Failure(e) => Run([HttpGet(feedUrl)], Failure(e))
    case Success(url) =>
      var file := FeedAudioFile(url);
      Run([HttpGet(feedUrl), HttpGet(url), WriteBytes(file, url)], Success(file))
  }

  /** `download_audio`: the downloader runs, then the name is `OUT_TMPL % info`. */
  function DownloadAudio(url: string, info: map<string, string>): Run {
    Run([YtDlpDownload(url)], Format(OutTmpl, info))
  }

  /** The branch choice of `main`. */
  function AcquireAudio(url: string, rssTitle: Option<string>, feed: Document, info: map<string, string>): Run {
    if Truthy(rssTitle) then FromFeed(url, rssTitle.value, feed) else DownloadAudio(url, info)
  }

  /** The run performed the downloader. */
  predicate UsesDownloader(run: Run) {
    exists k :: 0 <= k < |run.effects| && run.effects[k].YtDlpDownload?
  }

  /**
   * A non-empty title takes the feed branch: the run is what follows resolving
   * the fetched feed (see ResolutionOutcome), and the downloader's info plays no part.
   */
  lemma FeedBranch(url: string, rssTitle: Option<string>, feed: Document, info: map<string, string>, info': map<string, string>)
    requires Truthy(rssTitle)
    ensures AcquireAudio(url, rssTitle, feed, info) == AfterResolution(url, ParseRss(feed, rssTitle.value))
    ensures AcquireAudio(url, rssTitle, feed, info) == AcquireAudio(url, rssTitle, feed, info')
  {
  }

  /**
   * What follows resolution: the feed fetch comes first and the downloader is
   * never used; an error propagates unchanged with nothing else fetched or
   * written; a resolved URL is fetched with no status check and written to the
   * file named after its last segment, which becomes the audio file.
   */
  lemma ResolutionOutcome(feedUrl: string, resolved: Result<string, Error>)
    ensures var run := AfterResolution(feedUrl, resolved);
      && !UsesDownloader(run)
      && |run.effects| > 0 && run.effects[0] == HttpGet(feedUrl)
      && match resolved
         case Failure(e) => run.effects == [HttpGet(feedUrl)] && run.audioFile == Failure(e)
         case Success(enc) =>
           && run.effects == [HttpGet(feedUrl), HttpGet(enc), WriteBytes(FeedAudioFile(enc), enc)]
           && run.audioFile == Success(FeedAudioFile(enc))
  {
    var run := AfterResolution(feedUrl, resolved);
    assert forall k :: 0 <= k < |run.effects| ==> !run.effects[k].YtDlpDownload?;
  }

  /**
   * Without a title (absent or empty) the feed is never fetched or parsed:
   * the only effect is the downloader, the feed plays no part, and the file is
   * `id + "." + ext` from the downloader's info.
   */
  lemma {:induction false} DirectBranch(url: string, rssTitle: Option<string>, feed: Document, feed': Document, info: map<string, string>)
    requires !Truthy(rssTitle)
    ensures var run := AcquireAudio(url, rssTitle, feed, info);
      && run.effects == [YtDlpDownload(url)]
      && run == AcquireAudio(url, rssTitle, feed', info)
      && ("id" in info && "ext" in info ==> run.audioFile == Success(info["id"] + "." + info["ext"]))
      && ("id" !in info ==> run.audioFile == Failure(KeyMissing("id")))
      && ("id" in info && "ext" !in info ==> run.audioFile == Failure(KeyMissing("ext")))
  {
    FormatOutTmpl(info);
  }

  /** An empty `--rss-title` counts as absent. */
  lemma EmptyTitleIsDirect(url: string, feed: Document, info: map<string, string>)
    ensures AcquireAudio(url, Some(""), feed, info) == AcquireAudio(url, None, feed, info)
    ensures AcquireAudio(url, Some(""), feed, info).effects == [YtDlpDownload(url)]
  {
  }

  /**
   * A successful feed run ends by writing the audio file, under a name without
   * '/', from the URL the feed resolved to; a successful direct run means the
   * info held "id" and "ext", which name the file.
   */
  lemma {:induction false} SuccessWritesOneFile(url: string, rssTitle: Option<string>, feed: Document, info: map<string, string>)
    requires AcquireAudio(url, rssTitle, feed, info).audioFile.Success?
    ensures var run := AcquireAudio(url, rssTitle, feed, info);
      Truthy(rssTitle) ==>
        && run.effects[|run.effects| - 1] == WriteBytes(run.audioFile.value, run.effects[1].url)
        && '/' !in run.audioFile.value
        && ParseRss(feed, rssTitle.value) == Success(run.effects[1].url)
    ensures var run := AcquireAudio(url, rssTitle, feed, info);
      !Truthy(rssTitle) ==>
        "id" in info && "ext" in info && run.audioFile.value == info["id"] + "." + info["ext"]
  {
    FormatOutTmpl(info);
    assert OutTmpl[0].Field? && OutTmpl[2].Field?;
  }
}
