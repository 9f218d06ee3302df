/**
 * The per-link decision logic of the crawler: what happens to one comment's
 * link in the synchronous path (`download_external_pages`) and in the
 * asynchronous fetch (`fetch_external_pages_async`,
 * `download_external_pages_async`).
 *
 * The outside world appears only as oracles: the link that `extract_url`
 * found (or `None`), what the network answers for a URL, and whether the
 * disk accepts a write of some content to some path. The synchronous path
 * also returns the trace of I/O it attempted, so that the order of side
 * effects can be stated.
 */
module Crawler {
  import opened PosixPath
  import opened Filenames

  datatype Option<T> = None | Some(value: T)

  datatype Result<T, E> = Ok(value: T) | Err(error: E)

  /** What `requests.get(url)` yields: a transport failure, or a status and the decoded body. */
  datatype HttpReply = ConnectionFailed | Response(status: int, text: string)

  /** Why `download` raised: a transport failure, or `raise_for_status` rejecting the status. */
  datatype FetchError = ConnectionError | HttpError(status: int)

  /** What `session.get(url)` then `response.text()` yield: the request fails, or a status and a body that may fail to decode. */
  datatype AsyncReply = RequestFailed | Opened(status: int, body: Option<string>)

  /** Whether opening the file for writing and writing the content succeeds. */
  datatype IoStatus = Written | IoFailed

  /** One attempted I/O operation. */
  datatype Effect = HttpGet(url: string) | OpenWrite(path: string, content: string)

  /** How `download_external_pages` ended for one comment. */
  datatype Outcome =
    | NoUrl
    | FetchFailed(url: string, error: FetchError)
    | SaveFailed(url: string, path: string)
    | Saved(url: string, path: string)

  datatype Run = Run(outcome: Outcome, effects: seq<Effect>)

  /** The save that `download_external_pages_async` hands to the executor. */
  datatype SaveJob = SaveJob(path: string, content: string)

  /** The statuses for which `raise_for_status` raises: client errors 4xx and server errors 5xx. */
  predicate IsErrorStatus(status: int) {
    400 <= status < 600
  }

  /** `extract_url` found a usable link: Python's `if not url` is false. */
  predicate HasUrl(href: Option<string>) {
    href.Some? && href.value != ""
  }

  /** `download`: the body of the reply, unless the request failed or the status is an error. */
  function Download(url: string, net: string -> HttpReply): (r: Result<string, FetchError>)
    ensures r.Ok? <==> net(url).Response? && !IsErrorStatus(net(url).status)
    ensures r.Ok? ==> r.value == net(url).text
    ensures r.Err? ==>
      r.error == (if net(url).ConnectionFailed? then ConnectionError else HttpError(net(url).status))
  {
    match net(url)
    case ConnectionFailed => Err(ConnectionError)
    case Response(status, text) =>
      if IsErrorStatus(status) then Err(HttpError(status)) else Ok(text)
  }

  /**
   * `save_to_file`: one write of `content`, to a file directly inside
   * `outputDir` whose name is derived from `url` and ends in ".html".
   */
  function SaveToFile(outputDir: string, url: string, content: string, disk: (string, string) -> IoStatus): (r: (Effect, IoStatus))
    ensures r.0 == OpenWrite(SavePath(outputDir, url), content)
    ensures |outputDir| <= |r.0.path| && r.0.path[..|outputDir|] == outputDir
    ensures Basename(r.0.path) == UrlToFilename(url) + Extension
    ensures r.1 == disk(r.0.path, content)
  {
    var path := SavePath(outputDir, url);
    SavePathInsideDir(outputDir, url);
    (OpenWrite(path, content), disk(path, content))
  }

  /**
   * `download_external_pages`, once `extract_url` has returned. It never
   * raises: a missing or empty link returns before any I/O; a failed
   * download stops before any save; a failed save is caught.
   */
  function DownloadExternalPages(
    outputDir: string, href: Option<string>,
    net: string -> HttpReply, disk: (string, string) -> IoStatus): (r: Run)
    ensures r.outcome.NoUrl? <==> !HasUrl(href)
    ensures r.effects == [] <==> !HasUrl(href)
    ensures HasUrl(href) ==> r.effects[0] == HttpGet(href.value) && r.outcome.url == href.value
    ensures |r.effects| <= 2
    ensures forall k :: 0 <= k < |r.effects| && r.effects[k].OpenWrite? ==>
      && k == 1
      && Download(href.value, net) == Ok(r.effects[k].content)
      && r.effects[k].path == SavePath(outputDir, href.value)
    ensures r.outcome.FetchFailed? <==> HasUrl(href) && Download(href.value, net).Err?
    ensures r.outcome.Saved? <==>
      && HasUrl(href)
      && Download(href.value, net).Ok?
      && disk(SavePath(outputDir, href.value), Download(href.value, net).value) == Written
    ensures r.outcome.Saved? || r.outcome.SaveFailed? ==>
      r.outcome.path == SavePath(outputDir, href.value) && |r.effects| == 2
    ensures HasUrl(href) && Download(href.value, net).Err? ==>
      r == Run(FetchFailed(href.value, Download(href.value, net).error), [HttpGet(href.value)])
    ensures HasUrl(href) && Download(href.value, net).Ok? ==>
      r.effects == [HttpGet(href.value), OpenWrite(SavePath(outputDir, href.value), Download(href.value, net).value)]
  {
    if !HasUrl(href) then Run(NoUrl, [])
    else
      var url := href.value;
      match Download(url, net)
      case Err(e) => Run(FetchFailed(url, e), [HttpGet(url)])
      case Ok(content) =>
        var (write, status) := SaveToFile(outputDir, url, content, disk);
        var outcome := if status == Written then Saved(url, write.path) else SaveFailed(url, write.path);
        Run(outcome, [HttpGet(url), write])
  }

  /**
   * `fetch_external_pages_async`: the URL paired with the body, or `None`
   * when there is no link, the request fails, or the body cannot be read.
   * The status is not inspected.
   */
  function FetchExternalPagesAsync(href: Option<string>, session: string -> AsyncReply): (r: Option<(string, string)>)
    ensures r.Some? <==>
      HasUrl(href) && session(href.value).Opened? && session(href.value).body.Some?
    ensures r.Some? ==> r.value.0 == href.value && r.value.1 == session(href.value).body.value
  {
    if !HasUrl(href) then None
    else
      var url := href.value;
      match session(url)
      case RequestFailed => None
      case Opened(_, body) =>
        match body
        case None => None
        case Some(content) => Some((url, content))
  }

  /**
   * `download_external_pages_async`: schedules one save of the fetched body,
   * to the path the synchronous path would use, exactly when the fetch
   * returned a pair. Whether the scheduled save completes is not modelled.
   */
  function DownloadExternalPagesAsync(
    session: string -> AsyncReply, outputDir: string, href: Option<string>): (r: Option<SaveJob>)
    ensures r.Some? <==> FetchExternalPagesAsync(href, session).Some?
    ensures r.Some? ==>
      && r.value.content == session(href.value).body.value
      && r.value.path == SavePath(outputDir, href.value)
  {
    match FetchExternalPagesAsync(href, session)
    case None => None
    case Some((url, content)) => Some(SaveJob(SavePath(outputDir, url), content))
  }

  /** Without a link, neither path consults the network or the disk: any oracles give the same result. */
  lemma NoUrlIsolatesOracles(
    outputDir: string, href: Option<string>,
    net1: string -> HttpReply, net2: string -> HttpReply,
    disk1: (string, string) -> IoStatus, disk2: (string, string) -> IoStatus,
    session1: string -> AsyncReply, session2: string -> AsyncReply)
    requires !HasUrl(href)
    ensures DownloadExternalPages(outputDir, href, net1, disk1) == DownloadExternalPages(outputDir, href, net2, disk2) == Run(NoUrl, [])
    ensures FetchExternalPagesAsync(href, session1) == FetchExternalPagesAsync(href, session2) == None
    ensures DownloadExternalPagesAsync(session1, outputDir, href) == DownloadExternalPagesAsync(session2, outputDir, href) == None
  {
  }

  /** The asynchronous fetch ignores the status: two replies that differ only in status give the same result. */
  lemma FetchAsyncIgnoresStatus(href: Option<string>, session: string -> AsyncReply, s1: int, s2: int, body: Option<string>)
    requires HasUrl(href) && session(href.value) == Opened(s1, body)
    ensures FetchExternalPagesAsync(href, session) == FetchExternalPagesAsync(href, (u: string) => if u == href.value then Opened(s2, body) else session(u))
  {
  }

  /**
   * When the server answers with a non-error status and a readable body,
   * both paths write that body to the same file: the synchronous path
   * attempts the write, the asynchronous path schedules it.
   */
  lemma SyncAsyncAgreeOnSuccess(
    outputDir: string, href: Option<string>, status: int, text: string,
    net: string -> HttpReply, disk: (string, string) -> IoStatus, session: string -> AsyncReply)
    requires HasUrl(href) && !IsErrorStatus(status)
    requires net(href.value) == Response(status, text)
    requires session(href.value) == Opened(status, Some(text))
    ensures var sync := DownloadExternalPages(outputDir, href, net, disk);
      var path := SavePath(outputDir, href.value);
      && sync.effects == [HttpGet(href.value), OpenWrite(path, text)]
      && DownloadExternalPagesAsync(session, outputDir, href) == Some(SaveJob(path, text))
  {
  }

  /**
   * On a 4xx or 5xx answer the two paths disagree: the synchronous path
   * records a failed fetch and writes nothing, while the asynchronous path
   * returns the error page as content and schedules its save.
   */
  lemma SyncAsyncDisagreeOnErrorStatus(
    outputDir: string, href: Option<string>, status: int, text: string,
    net: string -> HttpReply, disk: (string, string) -> IoStatus, session: string -> AsyncReply)
    requires HasUrl(href) && IsErrorStatus(status)
    requires net(href.value) == Response(status, text)
    requires session(href.value) == Opened(status, Some(text))
    ensures DownloadExternalPages(outputDir, href, net, disk) == Run(FetchFailed(href.value, HttpError(status)), [HttpGet(href.value)])
    ensures FetchExternalPagesAsync(href, session) == Some((href.value, text))
    ensures DownloadExternalPagesAsync(session, outputDir, href) == Some(SaveJob(SavePath(outputDir, href.value), text))
  {
  }
}
