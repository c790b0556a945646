# CivitAI downloader, modelled in Dafny

`download.py` fetches one model file from CivitAI. It builds the API URL
`https://civitai.com/api/download/models/<modelVersionId>` from the query of
the URL it is given. It sends one request to that URL. On a redirect status
(301, 302, 303, 307, 308) it takes the `Location` header as the download URL.
It requests the download URL and derives a file name: from the
`Content-Disposition` header when that is non-empty, otherwise from the last
segment of the URL path. It joins the name to the output directory. It then
copies the response body to the file in reads of at most 1638400 bytes,
counting the bytes written, and shows progress when `Content-Length` is a
non-zero number.

The model is split into modules:

- `Downloader` (`downloader.dfy`) holds the script itself:
  - `ResolveDownloadUrl`;
  - the file-name derivation `OutputFilename`, which applies `FilenameFrom` to the Content-Disposition value;
  - the Content-Length handling `TotalSize` / `ShowsProgress`;
  - `DownloadFile`, which derives the name and size and then runs the copy loop `CopyBody`, a method over two small classes: `ResponseStream`, which `read` consumes, and `OutputFile`, which `write` appends to;
  - the seed URL `SeedUrl`;
  - the whole of `main` as the pure function `Run`, and the method `RunDownloader` that carries it out step by step.
- The library behaviour the script relies on is modelled explicitly, each in the form CPython gives it:
  - `PyStr`: `str.find`, `split`, `strip`, `lower`;
  - `Percent`: `urllib.parse.unquote` and its inverse `quote`, following percent-encoding in section 2.1 of RFC 3986 and UTF-8 decoding with U+FFFD replacement;
  - `PyInt`: `int()` on header text, with CPython's default limit of 4300 digits, and `str()` as its inverse;
  - `UrlPath`: the `path` of `urllib.parse.urlparse` (CPython 3.12), and `posixpath.basename` / `join`;
  - `Http`: `HTTPResponse.getheader`, which matches names without regard to case and joins repeated fields with `", "`.

The network is a parameter: a function from the request's number in the
run (0 for the first, 1 for the second) and its URL to the reply `urlopen`
gives, so the two requests can be answered differently even for the same
URL. That reply is a response with status, header fields and body, or a
failure with its reason. With its default handlers `urlopen` follows a
301, 302, 303, 307 or 308 itself, or raises `HTTPError` when there is no
`Location` or `URI` header, so the redirect test at download.py:55 does not hold for a
response `urlopen` returns and `resolve_download_url` then returns its input.
The model keeps the test as written, and the unconstrained network covers
both. How the script ends is an `Outcome`:

- `Raised`: an exception escapes `main`. Only the seed-URL step is outside the `try`.
- `Reported`: the exception is caught and printed as `ERROR: ...`.
- `Completed`: the file is written, with its path and contents.

Six behaviours of the code that are easy to misread:

- Progress is shown only when `int(Content-Length)` is non-zero, not merely when the header is present (download.py:89). A `Content-Length` of `0` shows nothing.
- A redirect without `Location` passes `None` on as the download URL. `urllib.request.Request(None)` then raises inside the `try`. The run is therefore reported, as `Reported(NoRedirectTarget)`, and no second request is made.
- A missing or empty `modelVersionId` raises `ValueError` outside the `try` (download.py:108-111). It therefore escapes `main` (`Raised`) instead of being printed as `ERROR:`.
- The text after the first `filename=` runs to the next `filename=` or the end. It is not cut at `;` (download.py:67).
- A derived name of `""`, `.` or `..` (a URL path ending in `/`, or `filename=` with nothing after it) joins to the output directory, the directory itself or its parent. The `open` at download.py:78 then always raises, and the run is reported as `Reported(OpenFailed(path))`. A path holding a NUL character fails there too.
- An empty output directory (the positional argument can be `""`) makes `os.makedirs("", exist_ok=True)` at download.py:73 raise whatever exists on disk, and so does one holding NUL. The run is reported as `Reported(MakedirsFailed(directory))`, before Content-Length is read.

## Model

| member | source | states |
|---|---|---|
| Downloader.ResolveDownloadUrl | download.py:50-57 | the download URL from the response to the one request: the Location header on a redirect status, the URL itself otherwise (its contract is stated by `ResolveDecision` and `ResolveTakesLocation`) |
| Http.GetHeader | download.py:56 | `getheader(name)`: the values of every field whose name matches without regard to case, joined with `", "`, or `None` (stated by `GetHeaderAbsent` and `GetHeaderSingle`) |
| Downloader.ResolveDecision | download.py:55-57 | a non-redirect status gives the input URL unchanged; the result is missing exactly when the status is a redirect and no header field is named Location in any case |
| Downloader.ResolveTakesLocation | download.py:55-56 | on a redirect status the result is the value of the single Location field, verbatim |
| Http.GetHeaderAbsent | download.py:56 | `getheader` gives `None` exactly when no field has the name, compared without case |
| Http.GetHeaderSingle | download.py:56 | a header carried by exactly one field reads as that field's value |
| Http.NoValuesIffNoField | download.py:65 | the values found for a name are empty exactly when no field carries it |
| Http.SingleFieldValue | download.py:65 | one matching field yields its value as the only one |
| Downloader.FilenameFrom | download.py:65-70 | the name from a non-empty Content-Disposition value, or from the URL path otherwise (stated by the lemmas below) |
| Downloader.OutputFilename | download.py:65-70 | the name derived from the response's Content-Disposition header, `getheader` applied (stated through `FilenameFrom`) |
| Downloader.FilenameFromDisposition | download.py:65-67 | with a non-empty Content-Disposition value (`OutputFilename` hands the header's value to `FilenameFrom`): no `filename=` gives the IndexError failure; otherwise the name is the text from after the first `filename=` to the next one or the end, with `"` stripped from both ends and then unquoted |
| Downloader.OnlyParameter | download.py:67 | in `prefix + "filename=" + name`, where neither part holds `filename=`, `split("filename=")[1]` is `name` |
| Downloader.FilenameKeepsTrailingParameters | download.py:67 | such a disposition gives exactly `unquote(name.strip('"'))`, so `;` parameters after the name stay in it |
| Downloader.QuotedFilenameRoundTrip | download.py:66-67 | a name sent as `filename="<quote(name)>"` comes back as the name itself |
| Downloader.FilenameFromUrl | download.py:68-70 | without a non-empty Content-Disposition, the name is the last `/`-free suffix of the URL path: the whole path, or what follows its last `/` |
| Downloader.FilenameOfOrdinaryUrl | download.py:69-70 | for scheme://host/path?query#fragment, with a Latin-1 host free of `/ ? # [ ]`, a path free of `?`, `#` and `;`, and no tab or line break, the name is the basename of the path; query and fragment never reach it |
| Downloader.FilenameOfDirectoryUrl | download.py:70 | a URL path ending in `/` gives the empty name |
| Downloader.JoinKeepsName | download.py:72 | a name without `/` is appended to the output directory, with a `/` between unless the directory ends in one, and is the base name of the joined path (so `.` and `..` name the directory itself or its parent) |
| Downloader.JoinAbsoluteName | download.py:72 | a name starting with `/` replaces the output directory altogether |
| Downloader.TotalSize | download.py:75-76 | `int(Content-Length)` when the header is present and non-empty, `None` otherwise, the `int()` failure when the text is no number (stated by `DeclaredSize`, `NoProgressWithoutSize`, `UnreadableSize`) |
| Downloader.ShowsProgress | download.py:89 | `if total_size:`: progress only for a present, non-zero size |
| Downloader.DeclaredSize | download.py:75-76 | a Content-Length written as `str(n)` gives total size `n` when it has at most 4300 digits, and progress is shown exactly when `n != 0`; a longer numeral fails with the `int()` error |
| Downloader.NoProgressWithoutSize | download.py:75-76 | an absent, empty or `0` Content-Length gives no size or size 0, and no progress |
| Downloader.PlanDownload | download.py:65-78 | download_file up to the `open`: the name, the joined path, the `makedirs` failure for an empty or NUL-holding directory, the size, and the failure of `open` for a path that names no file (stated by the lemmas around it) |
| Downloader.UnusableDirectoryFails | download.py:72-73 | an empty output directory, or one holding NUL, makes download_file fail at `makedirs`, whatever the name and the size |
| Downloader.FileNameOpens | download.py:72-78 | in a usable output directory, a derived name without `/` or NUL gives a plan exactly when it is not `""`, `.` or `..`, and the plan writes to the name joined to the directory with the declared size |
| Downloader.DirectoryNameFails | download.py:72-78 | a derived name of `""`, `.` or `..` makes download_file fail at the `open` of the joined path (the output directory, itself or its parent), or earlier at `makedirs` |
| Downloader.UnreadableSize | download.py:73-76 | a non-numeric Content-Length makes download_file fail with the `int()` error before anything is written, unless `makedirs` has failed already |
| Downloader.ResponseStream.Read | download.py:83 | a read returns the next bytes of the body, at most the amount asked for, and is empty only at the end of the body, or for amount 0 |
| Downloader.OutputFile.constructor | download.py:78 | a file opened with `"wb"` starts empty |
| Downloader.OutputFile.Write | download.py:87 | a write appends the chunk to the contents |
| Downloader.CopyBody | download.py:78-92 | the loop leaves the file holding the whole body, `downloaded` equal to its length, the chunks read concatenating to it, each non-empty and at most 1638400 bytes, and one running total per chunk when progress is shown, none otherwise |
| Downloader.DownloadFile | download.py:60-92 | fails exactly as the name, `makedirs`, size or open step does; otherwise it writes the joined path with the whole body: `downloaded` equals the body length, the chunks read concatenate to the body, each is non-empty and at most 1638400 bytes, and progress is one running total per chunk when the size is non-zero, none otherwise |
| Downloader.RunningTotalsSpec | download.py:88-89 | one progress value per chunk, the i-th being the bytes in chunks 0..i, the last being all bytes written |
| Downloader.RunningTotalsIncrease | download.py:88-89 | with non-empty chunks the progress values are positive, strictly increasing and never above the bytes written |
| Downloader.ChunkCount | download.py:82-85 | with chunks of 1 to N bytes, the bytes total at least the number of chunks and at most N times it |
| Downloader.SeedUrl | download.py:106-111 | the API URL from the first `modelVersionId` value, or the `ValueError`/`IndexError` main meets (stated by `SeedUrlSpec`) |
| Downloader.SeedUrlSpec | download.py:106-109 | a seed URL exists exactly when the first `modelVersionId` value exists and is non-empty; it is the API prefix followed by that value |
| Downloader.Run | download.py:99-117 | main as a function of the query, the output directory and the replies to its two requests (stated by the lemmas below and carried out by `RunDownloader`) |
| Downloader.NoRequestWithoutVersion | download.py:106-111 | without a usable `modelVersionId`, main raises whatever the network would answer: no request is made |
| Downloader.OnlySeedUrlRaises | download.py:108-117 | main raises exactly when the seed URL cannot be built; every later failure is caught and reported |
| Downloader.FailedRequestReported | download.py:113-117 | a run is reported with a request failure exactly when the first request fails, or the first resolves and the second fails |
| Downloader.CompletedRun | download.py:113-115 | a run completes exactly when both requests are answered, the first resolves, and name, `makedirs`, size and open succeed; it writes the body of the second response under the joined derived name, which names a file, without following a second redirect |
| Downloader.RunDownloader | download.py:99-117 | carrying out main step by step, with DownloadFile doing the copy, ends as `Run` says |
| PyStr.Find | download.py:67 | `str.find(sep, start)`: the first occurrence at or after `start`, or -1 when there is none |
| PyStr.Split | download.py:67 | `str.split(sep)`: at least one piece (stated by `SplitJoin`, `SplitPieces`, `SplitSecondPieceBetween`) |
| PyStr.LowerChar | download.py:56 | `str.lower` on one Latin-1 character: `A`-`Z` and the upper-case letters U+00C0..U+00DE except U+00D7 move up by 32, every other character is unchanged |
| PyStr.Lower | download.py:56 | `str.lower` on Latin-1 text, as `getheader` applies it to field names (download.py:56, 65, 75) and `urlsplit` to the scheme: the length is kept; `A`-`Z` and U+00C0..U+00DE except U+00D7 move up by 32; every other character is unchanged (the contract of `LowerChar`, applied at each index) |
| PyStr.LowerIdempotent | download.py:56 | lower-casing twice gives what lower-casing once gives |
| PyStr.SplitJoin | download.py:67 | joining the pieces of `split(sep)` with `sep` gives back the string |
| PyStr.SplitPieces | download.py:67 | no piece of `split(sep)` contains `sep`; there is one piece exactly when `sep` does not occur |
| PyStr.SplitSecondPieceBetween | download.py:67 | `split(sep)[1]` exists exactly when `sep` occurs, and runs from after its first occurrence to the next occurrence or the end |
| PyStr.OnlyOccurrenceBetween | download.py:67 | `sep` occurs in `a + sep + b` only between `a` and `b` when neither holds it and its first character does not recur in it |
| PyStr.AbsentCharacter | download.py:67 | a separator with a character the string lacks does not occur in it |
| PyStr.Strip | download.py:67 | `str.strip(c)` for one character (stated by `StripSpec` and `StripEnclosed`) |
| PyStr.StripSpec | download.py:67 | `strip(c)` returns the contiguous part of the input that starts after the leading run of `c`, removes only `c` on either side, and neither starts nor ends with `c` |
| PyStr.StripEnclosed | download.py:67 | stripping `c` from `c + q + c`, where `q` has no `c`, gives `q` |
| Percent.Unquote | download.py:67 | `urllib.parse.unquote`: text without `%` as it is, otherwise decoded run by run (stated by `UnquoteQuote` and `UnquoteIsGeneralPath`) |
| Percent.UnquoteQuote | download.py:67 | `unquote(quote(s)) == s` for every string |
| Percent.DecodeEncode | download.py:67 | UTF-8 decoding undoes UTF-8 encoding |
| Percent.UnquoteIsGeneralPath | download.py:67 | the shortcut `unquote` takes for a text without `%` agrees with its run-by-run decoding, which leaves such a text, `+` included, unchanged |
| UrlPath.UrlParsePath | download.py:69 | `urlparse(url).path` after leading controls and spaces are stripped and tabs and line breaks removed, or `None` for an unbalanced `[`/`]` network location (stated by `PathIsPartOfUrl` and `OrdinaryUrlPath`) |
| UrlPath.CleanUrl | download.py:69 | what `urlsplit` takes apart: the URL without its leading C0 controls and spaces, and with every tab, carriage return and line feed removed; it holds none of those three |
| UrlPath.PathIsPartOfUrl | download.py:69 | the parsed path is one contiguous part of the cleaned URL and holds neither `?`, `#`, tab nor line break |
| UrlPath.OrdinaryUrlPath | download.py:69 | for scheme://host/path, with a Latin-1 host free of `/ ? # [ ]`, a path free of `?`, `#` and `;`, and no tab or line break anywhere, followed by nothing, a query or a fragment, the parsed path is exactly `/path` |
| UrlPath.PathJoin | download.py:72 | `os.path.join(directory, name)` on POSIX (stated by `JoinKeepsName`, whose base-name clause is its inverse, and `JoinAbsoluteName`) |
| UrlPath.Basename | download.py:70 | the base name is a `/`-free suffix of the path, preceded by `/` unless it is the whole path |
| PyInt.ParseInt | download.py:76 | `int(text)`: white space around an optional sign and digits with single underscores between them, at most 4300 digits; anything else is the ValueError (stated by `ParseDecimal`) |
| PyInt.ParseDecimal | download.py:76 | `int(str(n)) == n` for every integer of at most 4300 digits; a longer numeral raises |
| PyInt.NatDecimalValue | download.py:76 | the digits `str` writes for a natural number denote that number |

## Left out

- Argument parsing (`get_args`, download.py:15-27) is not modelled. The URL's query, `parse_qs` already applied, and the output directory are parameters of `Run`.
- `parse_qs` and the `urlparse` of the command-line URL in `main` are not modelled. The query is an abstract map from key to value list, so the `ValueError` that `urlparse` can raise there is not modelled.
- The token file and the prompt (`get_token`, `store_token`, `prompt_for_token`) are not modelled. This is file and terminal I/O, and the token only goes into request headers.
- Request construction, the Authorization and User-Agent headers, and `urlopen` itself are a function from request number and URL to reply. Its internal following of redirects, its `HTTPError` for error statuses and its truncation of the body to Content-Length are all folded into that function.
- Exceptions during a `read` part-way through the body are not modelled: the body is a finite byte sequence, read in full.
- `os.makedirs` and the real file handle are not modelled. The output file is an object holding a byte sequence. Filesystem errors that depend on what exists are not modelled: a missing intermediate directory in a name with `/`, permissions, a full disk, a name too long. `makedirs` raising for an output directory that names an existing file is not modelled either.
- The progress percentage is not modelled: its floating-point division, `.2f` formatting, stdout writes, timing and final message. The model keeps the `downloaded` value each progress line is computed from.
- The text of exception messages (`ERROR: ...`) is not modelled. A failure is a named kind with the reason from the network, when there is one.
- `Lower` and the white space of `int()` cover Latin-1, the range header text is decoded in; case mapping beyond U+00FF is not modelled.
- ParseInt: the digit limit is the default 4300; a limit changed through `PYTHONINTMAXSTRDIGITS` or `sys.set_int_max_str_digits` is not modelled.
- UrlParsePath: does not model `urlsplit`'s check of bracketed IPv6 hosts beyond the `[`/`]` balance test, the `ValueError` of `_checknetloc` for a non-ASCII network location whose NFKC form holds `/`, `?`, `#`, `@` or `:`, or its caching. `OrdinaryUrlPath` and `FilenameOfOrdinaryUrl` ask for a Latin-1 host, where no character has such an NFKC form.
- CopyBody: writes at most 1638400 bytes per step. The model's stream returns the largest chunk allowed; the contract only promises that each chunk is non-empty and within the limit.
- A name taken from Content-Disposition can be absolute or contain `..`, escaping the output directory (`JoinAbsoluteName`). The script does not guard against this, and neither does the model.
