# Crawler naming and per-link logic, in Dafny

This project models the sequential core of `crawler.py`, a small crawler.
The crawler reads a Hacker News comment page. For each comment it takes the
first link, downloads the linked page, and saves it as a file in an output
directory. The model covers two parts:

- **File naming.** `url_to_filename` deletes every `"https://"` (Python
  `str.replace` semantics: left to right, non-overlapping). It then turns
  every `'/'` into `'-'`. `save_to_file` joins that name plus `".html"` onto
  the output directory with `os.path.join`.
- **What happens to one link.** This covers the synchronous
  `download_external_pages`, the asynchronous `fetch_external_pages_async`,
  and `download_external_pages_async`.
  - Link extraction, the HTTP layer and the disk are oracles passed as
    parameters: an `Option<string>` link, `string -> HttpReply`,
    `string -> AsyncReply` and `(string, string) -> IoStatus`.
  - The synchronous path returns an `Outcome` (`NoUrl`, `FetchFailed`,
    `SaveFailed` or `Saved`). It also returns the trace of I/O it attempted
    (`HttpGet`, then possibly `OpenWrite`).

Modules:

- `PyStr` (`pystr.dfy`): Python's `str.replace` and `str.count` for a
  non-empty pattern. `Occurrences`, which counts every start position, is an
  independent reference for them.
- `PosixPath` (`posixpath.dfy`): `os.path.join` of two components, on
  POSIX. It also defines `os.path.basename`, which the crawler does not call.
  It is used only to state that a saved file lies directly inside the output
  directory.
- `Filenames` (`filenames.dfy`): `url_to_filename` and the path
  `save_to_file` opens.
- `Crawler` (`crawler.py`'s control flow, in `crawler.dfy`): `download`,
  `save_to_file`, `download_external_pages`, `fetch_external_pages_async`
  and `download_external_pages_async`.

The core has no loops and no mutable state. Every operation is a
`function`, and its properties are `ensures` clauses and lemmas.

## Model

| member | source | states |
|---|---|---|
| `PyStr.Replace` | crawler.py:47 | `str.replace` scanning left to right without overlap. Deleting a pattern (empty replacement) never lengthens the string, and a replacement as long as the pattern keeps the length. What it produces around a match is stated by `PyStr.ReplaceSplit`. |
| `PyStr.Count` | crawler.py:47 | The number of matches `str.replace` substitutes, scanning left to right without overlap, is at most `|s| / |pat|`. |
| `PyStr.ReplaceLength` | crawler.py:47 | `str.replace` changes the length by `|rep| - |pat|` for each match it substitutes. |
| `PyStr.CountZeroIff` | crawler.py:47 | The left-to-right scan substitutes nothing exactly when the pattern occurs nowhere in the string. |
| `PyStr.CountIsOccurrences` | crawler.py:47 | The pattern's first character may not reappear in it. For such a pattern, the non-overlapping scan count equals the number of positions where the pattern starts. |
| `PyStr.ReplaceWithoutMatch` | crawler.py:47 | Replacing a pattern that does not occur returns the string unchanged. |
| `PyStr.ReplaceCharPointwise` | crawler.py:47 | Replacing one character by another keeps the length. Each position holding the old character gets the new one, and every other position keeps its character. |
| `PyStr.AtMatch` | crawler.py:47 | A string that starts with the pattern becomes the replacement followed by the replaced rest. |
| `PyStr.ReplaceSplit` | crawler.py:47 | Take a pattern whose first character does not reappear in it, so it cannot overlap itself. Then every occurrence splits the result: replacing in `x + pat + y` gives the replaced `x`, then `rep`, then the replaced `y`. |
| `PyStr.ReplaceCharConcat` | crawler.py:47 | Replacing one character by another distributes over concatenation. |
| `PosixPath.Join` | crawler.py:40 | `os.path.join` of two parts. An absolute second part replaces the first. Otherwise the result starts with the first part, ends with the second, and is at most one character longer than the two together. |
| `PosixPath.Basename` | crawler.py:40 | `os.path.basename` never contains a separator. |
| `PosixPath.BasenameOfComponent` | crawler.py:40 | Take an empty prefix or one ending in `/`, and append a component without `/`. The basename of the result is that component. |
| `PosixPath.JoinComponent` | crawler.py:40 | Joining a component without `/` gives the directory, then a `/` exactly when the directory is non-empty and does not already end in `/`, then the component. The component is the basename. |
| `Filenames.UrlToFilename` | crawler.py:46-47 | The name never contains `'/'`, never contains `"https://"`, and is never longer than the URL. |
| `Filenames.NoSeparatorNoScheme` | crawler.py:47 | A string without `'/'` cannot contain `"https://"`. |
| `Filenames.SchemeHeadUnique` | crawler.py:47 | The first character of `"https://"` appears nowhere else in it, so it cannot overlap itself. |
| `Filenames.UrlToFilenameLength` | crawler.py:47 | The name is the URL length minus 8 for each `"https://"` it contains. The length is unchanged exactly when the URL has no `"https://"`. |
| `Filenames.UrlToFilenamePointwise` | crawler.py:47 | If the URL has no `"https://"`, the name matches it position by position, except that each `'/'` becomes `'-'`. |
| `Filenames.UrlToFilenameFixedPoint` | crawler.py:47 | A string is its own name exactly when it contains no `'/'`. |
| `Filenames.UrlToFilenameIdempotent` | crawler.py:47 | Renaming a name again changes nothing. |
| `Filenames.UrlToFilenameSplitsAtScheme` | crawler.py:47 | Each `"https://"` vanishes from the name: the name of `x + "https://" + y` is the name of `x` followed by the name of `y`, for any `x` and `y`. |
| `Filenames.UrlToFilenameDropsLeadingScheme` | crawler.py:47 | A leading `"https://"` is dropped: the name of `"https://" + y` is the name of `y`. With `UrlToFilenamePointwise` this fixes, character by character, the name of every URL with one leading scheme and no other. |
| `Filenames.UrlToFilenameNotInjective` | crawler.py:47 | `"https://a/b"`, `"a/b"` and `"a-b"` all get the name `"a-b"`. |
| `Filenames.SavePath` | crawler.py:40 | The path `save_to_file` opens starts with the output directory and ends with the derived name plus `".html"`, with at most one character between them. |
| `Filenames.SavePathInsideDir` | crawler.py:40 | The saved path is the output directory, then a `/` exactly when the directory is non-empty and does not already end in `/`, then one `/`-free component ending in `".html"`. That component is the path's basename, so the file lands directly inside the directory. |
| `Filenames.SavePathCollision` | crawler.py:40-42 | Two URLs are saved to the same file exactly when their names are equal. The file is opened in `"w"` mode, so such a collision overwrites. |
| `Filenames.SavePathOverwrites` | crawler.py:40-42 | `"https://a/b"`, `"a/b"` and `"a-b"` are all written to the same path in any output directory. |
| `Crawler.Download` | crawler.py:13-20 | Returns the body exactly when the request succeeds and `raise_for_status` accepts the status (not 400-599). Otherwise the error is a connection error for a transport failure, or an HTTP error carrying the reply's own status. |
| `Crawler.SaveToFile` | crawler.py:38-43 | One write of the given content to exactly `os.path.join(output_dir, name + ".html")`. That path starts with the output directory, and its basename is the derived name plus `".html"`. The disk oracle decides whether the write succeeds. |
| `Crawler.DownloadExternalPages` | crawler.py:23-35 | No link, or an empty one, gives `NoUrl` with no I/O. Otherwise the first I/O is the GET of that URL. A write happens only second, only after `download` returned content, and writes that content to that URL's save path. When `download` fails, the whole run is `FetchFailed` with `download`'s own error and a trace holding only the GET. When it succeeds, the trace is exactly the GET and then the write of that content to that URL's save path. The result is `Saved` exactly when the write succeeds. Every case returns normally. |
| `Crawler.FetchExternalPagesAsync` | crawler.py:74-95 | Returns a pair exactly when there is a link, the request succeeds and the body is read. The pair is that same URL and that body. Every other case gives `None`. |
| `Crawler.DownloadExternalPagesAsync` | crawler.py:98-105 | Schedules a save exactly when the fetch returned a pair. The save targets the same path the synchronous path uses and carries the fetched body. |
| `Crawler.NoUrlIsolatesOracles` | crawler.py:27-30 | Without a link, all three operations give the same result for any network, session or disk, so none of them was consulted. |
| `Crawler.FetchAsyncIgnoresStatus` | crawler.py:84-88 | The asynchronous fetch gives the same result whatever status the server returns. |
| `Crawler.SyncAsyncAgreeOnSuccess` | crawler.py:27-32 | On a non-error status with a readable body, the synchronous path attempts exactly GET, then a write of that body to the save path. The asynchronous path schedules the same write. |
| `Crawler.SyncAsyncDisagreeOnErrorStatus` | crawler.py:16-17 | On a 4xx or 5xx answer, the synchronous path ends in `FetchFailed` and writes nothing. The asynchronous path returns the error page as content and schedules its save. |

## Left out

- Python `str.replace` with an empty pattern: `PyStr.Replace` requires a non-empty pattern, and the crawler only replaces `"https://"` and `"/"`.
- `os.path.join` with more than two components, `bytes` paths, and the Windows path rules: the crawler joins exactly two strings on POSIX.
- The body of `download` beyond its branches: redirects, encodings and what `requests` counts as a transport failure are all in the `HttpReply` oracle.
- `extract_comments` and the internals of `extract_url`: BeautifulSoup calls, modelled only as the optional link they return.
- The case where `extract_url` itself raises. In `download_external_pages` (crawler.py:27) the call is inside the `try`, but `url` is then unbound when the handler logs it, so the function raises `UnboundLocalError` instead of returning. In `fetch_external_pages_async` (crawler.py:79) the call is outside any `try`, so the exception reaches the caller. Both paths are modelled only from the point where `extract_url` has returned.
- `save_to_file_async`: it submits `save_to_file` to an executor and never awaits the future. `DownloadExternalPagesAsync` records only that a save was scheduled, not that it happened or whether it failed.
- A write that opens (and so truncates) the file but then fails: `IoStatus` records only success or failure of the whole open-and-write.
- Logging, the thread name lookup and the concurrency drivers (threads, thread pool, `asyncio.gather`), wall-clock timing and output-directory creation in `crawler_runner.py` and `crawler_threads.py`: these are scheduling, clock and filesystem concerns outside the sequential logic.
- `threads.py` and `telemetry.py` are not part of this model.
