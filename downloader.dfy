/**
 * The CivitAI downloader script (download.py): it builds the API URL of a
 * model version, resolves it once to a download URL, derives the output
 * file name from the response, and copies the response body to that file
 * in chunks of at most 1638400 bytes while counting what it wrote.
 *
 * The network is a function from the request's place in the run and its
 * URL to the reply `urlopen` gives; the response stream and the output file
 * are objects the copy loop changes.
 */
module Downloader {
  import opened Wrappers
  import opened Bytes
  import opened PyStr
  import opened Percent
  import opened PyInt
  import opened UrlPath
  import opened Http

  /** The most bytes one `read` asks for. */
  const ChunkSize: nat := 1638400

  const SeedUrlPrefix: string := "https://civitai.com/api/download/models/"

  const VersionKey: string := "modelVersionId"

  const FilenameKey: string := "filename="

  /** The exceptions the script can meet, by where they arise. */
  datatype Failure =
    | NoVersionId                   // the ValueError main raises itself
    | NoVersionValues               // IndexError from `[0]` on an empty value list
    | RequestFailed(reason: string) // whatever `urlopen` raises
    | NoRedirectTarget              // a redirect without Location: Request(None) raises
    | NoFilenameParameter           // IndexError from `split("filename=")[1]`
    | InvalidUrl                    // ValueError from `urlparse`
    | InvalidContentLength(text: string) // ValueError from `int()`
    | MakedirsFailed(directory: string) // `os.makedirs` raises for an empty directory or one with NUL
    | OpenFailed(path: string)      // `open(path, "wb")` raises for a path that names no file

  /**
   * What `urlopen` does with a request: the first argument counts the
   * requests of the run from 0, so the same URL may be answered differently
   * the second time.
   */
  type Server = (nat, string) -> Reply

  /** What `urlopen` does with one request. */
  datatype Reply = Answered(response: Response) | Failed(reason: string)

  // ---------------------------------------------------------------------
  // resolve_download_url

  predicate IsRedirect(status: int) {
    status in {301, 302, 303, 307, 308}
  }

  /** The download URL for `url`, given the response its one request got. */
  function ResolveDownloadUrl(url: string, response: Response): Option<string> {
    if IsRedirect(response.status) then GetHeader(response, "Location") else Some(url)
  }

  lemma LowerLocation()
    ensures Lower("Location") == "location"
  {
    var l := Lower("Location");
    assert l[0] == 'l' && l[1] == 'o' && l[2] == 'c' && l[3] == 'a';
    assert l[4] == 't' && l[5] == 'i' && l[6] == 'o' && l[7] == 'n';
  }

  /**
   * A status other than 301, 302, 303, 307 and 308 leaves the URL as it is.
   * A redirect status gives no URL exactly when no field is named
   * Location (in any case).
   */
  lemma ResolveDecision(url: string, response: Response)
    ensures !IsRedirect(response.status) ==> ResolveDownloadUrl(url, response) == Some(url)
    ensures ResolveDownloadUrl(url, response).None? <==>
      IsRedirect(response.status)
      && forall i :: 0 <= i < |response.headers| ==> Lower(response.headers[i].name) != "location"
  {
    LowerLocation();
    GetHeaderAbsent(response, "Location");
  }

  /** A redirect yields the value of its one Location field, verbatim. */
  lemma ResolveTakesLocation(url: string, response: Response, j: nat)
    requires IsRedirect(response.status)
    requires j < |response.headers| && Lower(response.headers[j].name) == "location"
    requires forall i :: 0 <= i < |response.headers| && i != j ==> Lower(response.headers[i].name) != "location"
    ensures ResolveDownloadUrl(url, response) == Some(response.headers[j].value)
  {
    LowerLocation();
    GetHeaderSingle(response, "Location", j);
  }

  // ---------------------------------------------------------------------
  // download_file: the output file name

  /** `disposition.split("filename=")[1]`, or `None` where that raises IndexError. */
  function FilenameParameter(disposition: string): Option<string> {
    var parts := Split(disposition, FilenameKey);
    if |parts| < 2 then None else Some(parts[1])
  }

  /**
   * The file name download_file derives from the URL and the value of the
   * Content-Disposition header, before it is joined to the directory.
   */
  function FilenameFrom(url: string, disposition: Option<string>): Result<string, Failure> {
    if disposition.Some? && disposition.value != "" then
      match FilenameParameter(disposition.value)
      case None => Failure(NoFilenameParameter)
      case Some(field) => Success(Unquote(Strip(field, '"')))
    else
      match UrlParsePath(url)
      case None => Failure(InvalidUrl)
      case Some(path) => Success(Basename(path))
  }

  /** The file name download_file writes to, before it is joined to the directory. */
  function OutputFilename(url: string, response: Response): Result<string, Failure> {
    FilenameFrom(url, GetHeader(response, "Content-Disposition"))
  }

  /**
   * With a non-empty Content-Disposition, the name is the text after the
   * first `filename=` up to the next `filename=` or the end, `"` stripped
   * from both ends, percent-decoded; without any `filename=` the
   * derivation fails.
   */
  lemma FilenameFromDisposition(url: string, disposition: string)
    requires disposition != ""
    ensures Find(disposition, FilenameKey, 0) < 0 <==>
      FilenameFrom(url, Some(disposition)) == Failure(NoFilenameParameter)
    ensures Find(disposition, FilenameKey, 0) >= 0 ==>
      && Find(disposition, FilenameKey, 0) + |FilenameKey| <= |disposition|
      && FilenameFrom(url, Some(disposition)) == Success(Unquote(Strip(
           disposition[Find(disposition, FilenameKey, 0) + |FilenameKey|..
                       PieceEnd(disposition, FilenameKey, Find(disposition, FilenameKey, 0) + |FilenameKey|)],
           '"')))
  {
    SplitSecondPieceBetween(disposition, FilenameKey);
  }

  /**
   * Parameters after `;` stay in the name: a disposition whose only
   * `filename=` is followed by `name` gives the stripped, decoded `name`
   * whatever `;` it holds.
   */
  lemma FilenameKeepsTrailingParameters(url: string, prefix: string, name: string)
    requires NoOccurrence(prefix, FilenameKey) && NoOccurrence(name, FilenameKey)
    ensures FilenameFrom(url, Some(prefix + FilenameKey + name)) == Success(Unquote(Strip(name, '"')))
  {
    var d := prefix + FilenameKey + name;
    assert FilenameParameter(d) == Some(name) by {
      OnlyParameter(prefix, name);
    }
  }

  lemma OnlyParameter(prefix: string, name: string)
    requires NoOccurrence(prefix, FilenameKey) && NoOccurrence(name, FilenameKey)
    ensures FilenameParameter(prefix + FilenameKey + name) == Some(name)
  {
    var d := prefix + FilenameKey + name;
    var b := |prefix| + |FilenameKey|;
    assert FilenameKey[1..] == "ilename=";
    OnlyOccurrenceBetween(prefix, FilenameKey, name);
    SplitSecondPieceBetween(d, FilenameKey);
    assert d[b..|d|] == name;
  }

  /**
   * A name sent quoted and percent-encoded as `filename="<quote(name)>"`,
   * after a prefix without `filename=`, comes back as `name` itself.
   */
  lemma QuotedFilenameRoundTrip(url: string, prefix: string, name: string)
    requires NoOccurrence(prefix, FilenameKey)
    ensures FilenameFrom(url, Some(prefix + FilenameKey + "\"" + Quote(name) + "\"")) == Success(name)
  {
    var field := "\"" + Quote(name) + "\"";
    QuotedField(name, field);
    Regroup(prefix + FilenameKey, "\"", Quote(name));
    Regroup(prefix + FilenameKey, "\"" + Quote(name), "\"");
    FilenameKeepsTrailingParameters(url, prefix, field);
  }

  lemma Regroup(x: string, y: string, z: string)
    ensures x + y + z == x + (y + z)
  {
  }

  /** A quoted, percent-encoded name holds no `filename=` and strips and decodes back to the name. */
  lemma QuotedField(name: string, field: string)
    requires field == "\"" + Quote(name) + "\""
    ensures NoOccurrence(field, FilenameKey)
    ensures Unquote(Strip(field, '"')) == name
  {
    var q := Quote(name);
    QuoteIsAscii(name);
    assert '"' !in q && '=' !in q;
    assert '=' !in field;
    assert FilenameKey[8] == '=';
    AbsentCharacter(field, FilenameKey, 8);
    StripEnclosed(q, '"');
    UnquoteQuote(name);
  }

  /**
   * Without a non-empty Content-Disposition the name is the base name of
   * the URL path: what follows its last `/` (see `Basename`).
   */
  lemma FilenameFromUrl(url: string, disposition: Option<string>, path: string)
    requires disposition == None || disposition == Some("")
    requires UrlParsePath(url) == Some(path)
    ensures FilenameFrom(url, disposition) == Success(Basename(path))
  {
  }

  /**
   * For an ordinary URL (scheme, `://`, host, path, then nothing or a query
   * or fragment) and no Content-Disposition, the name is the last segment
   * of that path: the query and the fragment never reach it.
   */
  lemma FilenameOfOrdinaryUrl(scheme: string, host: string, path: string, tail: string, disposition: Option<string>)
    requires disposition == None || disposition == Some("")
    requires scheme != [] && IsAsciiLetter(scheme[0])
    requires forall k :: 0 <= k < |scheme| ==> IsSchemeChar(scheme[k])
    requires forall k :: 0 <= k < |host| ==> PlainHostChar(host[k])
    requires path != [] && path[0] == '/' && '?' !in path && '#' !in path && ';' !in path
    requires tail == [] || tail[0] == '?' || tail[0] == '#'
    requires SafeText(path) && SafeText(tail)
    ensures FilenameFrom(scheme + "://" + host + path + tail, disposition) == Success(Basename(path))
  {
    OrdinaryUrlPath(scheme, host, path, tail);
  }

  /** A URL path that ends in `/` gives the empty name. */
  lemma FilenameOfDirectoryUrl(url: string, disposition: Option<string>, path: string)
    requires disposition == None || disposition == Some("")
    requires UrlParsePath(url) == Some(path) && path != [] && path[|path| - 1] == '/'
    ensures FilenameFrom(url, disposition) == Success("")
  {
    FilenameFromUrl(url, disposition, path);
  }

  // ---------------------------------------------------------------------
  // download_file: the output path and the declared size

  /**
   * A name without `/`, such as one taken from the URL path, is appended to
   * the output directory, with a `/` between them when the directory has
   * none at its end, and is the base name of the result. (A name of `.` or
   * `..` therefore names the directory itself or its parent.)
   */
  lemma JoinKeepsName(directory: string, name: string)
    requires '/' !in name
    ensures var r := PathJoin(directory, name);
      && |directory| <= |r| && r[..|directory|] == directory
      && r[|r| - |name|..] == name
      && (r == directory + name || r == directory + "/" + name)
      && (directory == [] || directory[|directory| - 1] == '/' <==> r == directory + name)
    ensures Basename(PathJoin(directory, name)) == name
  {
    var r := PathJoin(directory, name);
    SameBasename(r, name);
  }

  /** A name that starts with `/` replaces the output directory altogether. */
  lemma JoinAbsoluteName(directory: string, name: string)
    requires name != [] && name[0] == '/'
    ensures PathJoin(directory, name) == name
  {
  }

  /** `int(Content-Length)` when the header is there and not empty; `None` otherwise. */
  function TotalSize(response: Response): Result<Option<int>, Failure> {
    var header := GetHeader(response, "Content-Length");
    if header.None? || header.value == "" then Success(None)
    else
      match ParseInt(header.value)
      case None => Failure(InvalidContentLength(header.value))
      case Some(n) => Success(Some(n))
  }

  /** `if total_size:` — progress is shown only for a non-zero size. */
  predicate ShowsProgress(total: Option<int>) {
    total.Some? && total.value != 0
  }

  /**
   * A Content-Length written as `str(n)` gives size `n`, and progress is
   * shown exactly when `n != 0`; a numeral of more than 4300 digits makes
   * `int()` raise.
   */
  lemma DeclaredSize(response: Response, n: int)
    requires GetHeader(response, "Content-Length") == Some(Decimal(n))
    ensures TotalSize(response) ==
      if DecimalLength(n) <= MaxStrDigits then Success(Some(n)) else Failure(InvalidContentLength(Decimal(n)))
    ensures TotalSize(response).Success? ==> (ShowsProgress(TotalSize(response).value) <==> n != 0)
  {
    ParseDecimal(n);
  }

  /** An absent, empty or zero Content-Length shows no progress (and never divides by zero). */
  lemma NoProgressWithoutSize(response: Response)
    requires GetHeader(response, "Content-Length") in {None, Some(""), Some("0")}
    ensures TotalSize(response) == Success(None) || TotalSize(response) == Success(Some(0))
    ensures !ShowsProgress(TotalSize(response).value)
  {
    if GetHeader(response, "Content-Length") == Some("0") {
      assert Decimal(0) == "0";
      DeclaredSize(response, 0);
    }
  }

  /** A Content-Length that is not a number makes download_file fail before it writes. */
  lemma UnreadableSize(url: string, outputDir: string, response: Response, text: string)
    requires GetHeader(response, "Content-Length") == Some(text) && text != ""
    requires ParseInt(text).None?
    requires OutputFilename(url, response).Success?
    ensures PlanDownload(url, outputDir, response) ==
      if MakedirsRaises(outputDir) then Failure(MakedirsFailed(outputDir))
      else Failure(InvalidContentLength(text))
  {
  }

  datatype Plan = Plan(outputFile: string, totalSize: Option<int>)

  /**
   * A path `open(path, "wb")` can create or truncate a file at: one without
   * a NUL character (Python raises ValueError) whose last component is not
   * empty, `.` or `..` (those name a directory, or nothing at all).
   */
  predicate NamesFile(path: string) {
    '\0' !in path && !DirectoryName(Basename(path))
  }

  /** A last path component that names a directory: none, the directory itself, or its parent. */
  predicate DirectoryName(last: string) {
    last == "" || last == "." || last == ".."
  }

  /**
   * An output directory `os.makedirs(dir, exist_ok=True)` raises for
   * whatever exists on disk: the empty name (FileNotFoundError) and a name
   * holding NUL (ValueError).
   */
  predicate MakedirsRaises(directory: string) {
    directory == [] || '\0' in directory
  }

  /** The steps of download_file up to opening the output file. */
  function PlanDownload(url: string, outputDir: string, response: Response): Result<Plan, Failure> {
    var name :- OutputFilename(url, response);
    var outputFile := PathJoin(outputDir, name);
    if MakedirsRaises(outputDir) then Failure(MakedirsFailed(outputDir))
    else
      var total :- TotalSize(response);
      if !NamesFile(outputFile) then Failure(OpenFailed(outputFile))
      else Success(Plan(outputFile, total))
  }

  /** An empty output directory, or one holding NUL, fails at `makedirs`, before the size is read. */
  lemma UnusableDirectoryFails(url: string, outputDir: string, response: Response)
    requires OutputFilename(url, response).Success?
    requires MakedirsRaises(outputDir)
    ensures PlanDownload(url, outputDir, response) == Failure(MakedirsFailed(outputDir))
  {
  }

  /**
   * A derived name of `""`, `.` or `..` joins to the output directory, the
   * directory itself or its parent: download_file fails at the `open`,
   * unless `makedirs` has failed already.
   */
  lemma DirectoryNameFails(url: string, outputDir: string, response: Response, name: string)
    requires OutputFilename(url, response) == Success(name)
    requires DirectoryName(name)
    requires TotalSize(response).Success?
    ensures PlanDownload(url, outputDir, response) ==
      if MakedirsRaises(outputDir) then Failure(MakedirsFailed(outputDir))
      else Failure(OpenFailed(PathJoin(outputDir, name)))
  {
    if !MakedirsRaises(outputDir) {
      var path := PathJoin(outputDir, name);
      JoinKeepsName(outputDir, name);
      assert Basename(path) == name;
      PlanOpens(url, outputDir, response, name);
    }
  }

  /**
   * Any other name without `/` or NUL, in a usable output directory, is
   * opened: the plan succeeds exactly when the name is not `""`, `.` or
   * `..`, and then writes to the name joined to the directory with the
   * declared size.
   */
  lemma FileNameOpens(url: string, outputDir: string, response: Response, name: string)
    requires OutputFilename(url, response) == Success(name)
    requires '/' !in name && '\0' !in name
    requires !MakedirsRaises(outputDir)
    requires TotalSize(response).Success?
    ensures PlanDownload(url, outputDir, response).Success? <==> !DirectoryName(name)
    ensures PlanDownload(url, outputDir, response).Success? ==>
      PlanDownload(url, outputDir, response).value == Plan(PathJoin(outputDir, name), TotalSize(response).value)
  {
    var path := PathJoin(outputDir, name);
    JoinKeepsName(outputDir, name);
    JoinAvoids(outputDir, name, '\0');
    assert Basename(path) == name;
    PlanOpens(url, outputDir, response, name);
  }

  /** Once the directory is made and the name and size are derived, the plan stands or falls with the path. */
  lemma PlanOpens(url: string, outputDir: string, response: Response, name: string)
    requires OutputFilename(url, response) == Success(name)
    requires !MakedirsRaises(outputDir)
    requires TotalSize(response).Success?
    ensures PlanDownload(url, outputDir, response) ==
      if NamesFile(PathJoin(outputDir, name)) then Success(Plan(PathJoin(outputDir, name), TotalSize(response).value))
      else Failure(OpenFailed(PathJoin(outputDir, name)))
  {
  }

  // ---------------------------------------------------------------------
  // download_file: the copy loop

  /** The response body as a stream that `read` consumes from the front. */
  class ResponseStream {
    const body: seq<byte>
    var position: nat

    ghost predicate Valid()
      reads this
    {
      position <= |body|
    }

    constructor (body: seq<byte>)
      ensures Valid() && this.body == body && position == 0
    {
      this.body := body;
      position := 0;
    }

    /**
     * `response.read(amount)`: the next bytes of the body, at most
     * `amount` of them, and at least one unless the body is used up or
     * `amount` is 0.
     */
    method Read(amount: nat) returns (chunk: seq<byte>)
      requires Valid()
      modifies this
      ensures Valid()
      ensures old(position) <= position && chunk == body[old(position)..position]
      ensures |chunk| <= amount
      ensures chunk == [] <==> amount == 0 || old(position) == |body|
    {
      var n := if amount < |body| - position then amount else |body| - position;
      chunk := body[position..position + n];
      position := position + n;
    }
  }

  /** A file opened with mode "wb": it starts empty and every write appends. */
  class OutputFile {
    const path: string
    var contents: seq<byte>

    constructor (path: string)
      ensures this.path == path && contents == []
    {
      this.path := path;
      contents := [];
    }

    method Write(chunk: seq<byte>)
      modifies this
      ensures contents == old(contents) + chunk
    {
      contents := contents + chunk;
    }
  }

  /** The chunks one after another. */
  function Concat(chunks: seq<seq<byte>>): seq<byte>
    decreases |chunks|
  {
    if chunks == [] then [] else Concat(chunks[..|chunks| - 1]) + chunks[|chunks| - 1]
  }

  /** The value of `downloaded` after each chunk. */
  function RunningTotals(chunks: seq<seq<byte>>): seq<nat>
    decreases |chunks|
  {
    if chunks == [] then [] else RunningTotals(chunks[..|chunks| - 1]) + [|Concat(chunks)|]
  }

  /**
   * A running total per chunk, the last one the length of all of them,
   * each one step further than the one before for non-empty chunks.
   */
  lemma {:induction false} RunningTotalsSpec(chunks: seq<seq<byte>>)
    ensures |RunningTotals(chunks)| == |chunks|
    ensures chunks != [] ==> RunningTotals(chunks)[|chunks| - 1] == |Concat(chunks)|
    ensures forall i :: 0 <= i < |chunks| ==> RunningTotals(chunks)[i] == |Concat(chunks[..i + 1])|
    decreases |chunks|
  {
    if chunks != [] {
      var init := chunks[..|chunks| - 1];
      var totals := RunningTotals(chunks);
      assert totals == RunningTotals(init) + [|Concat(chunks)|];
      RunningTotalsSpec(init);
      forall i | 0 <= i < |chunks|
        ensures totals[i] == |Concat(chunks[..i + 1])|
      {
        if i < |chunks| - 1 {
          assert totals[i] == RunningTotals(init)[i];
          assert chunks[..i + 1] == init[..i + 1];
        } else {
          assert chunks[..i + 1] == chunks;
        }
      }
    }
  }

  /** With non-empty chunks the totals strictly increase and the first is positive. */
  lemma {:induction false} RunningTotalsIncrease(chunks: seq<seq<byte>>)
    requires forall i :: 0 <= i < |chunks| ==> chunks[i] != []
    ensures var totals := RunningTotals(chunks);
      && |totals| == |chunks|
      && (forall i :: 0 <= i < |totals| ==> 0 < totals[i] <= |Concat(chunks)|)
      && forall i, j :: 0 <= i < j < |totals| ==> totals[i] < totals[j]
    decreases |chunks|
  {
    if chunks != [] {
      var init := chunks[..|chunks| - 1];
      RunningTotalsIncrease(init);
      RunningTotalsSpec(init);
      RunningTotalsSpec(chunks);
      assert chunks[|chunks| - 1] != [];
    }
  }

  /** Chunks of at most `size` bytes each: at least |body| / size of them are needed. */
  lemma {:induction false} ChunkCount(chunks: seq<seq<byte>>, size: nat)
    requires forall i :: 0 <= i < |chunks| ==> 0 < |chunks[i]| <= size
    ensures |chunks| <= |Concat(chunks)| <= |chunks| * size
    decreases |chunks|
  {
    if chunks != [] {
      ChunkCount(chunks[..|chunks| - 1], size);
    }
  }

  /** One more chunk adds its bytes to the concatenation and one total to the progress. */
  lemma AppendChunk(chunks: seq<seq<byte>>, chunk: seq<byte>)
    ensures Concat(chunks + [chunk]) == Concat(chunks) + chunk
    ensures RunningTotals(chunks + [chunk]) == RunningTotals(chunks) + [|Concat(chunks)| + |chunk|]
  {
    assert (chunks + [chunk])[..|chunks|] == chunks;
  }

  lemma SliceAppend(s: seq<byte>, i: nat, j: nat)
    requires i <= j <= |s|
    ensures s[..j] == s[..i] + s[i..j]
  {
  }

  /** What download_file leaves behind: the file, its bytes, the counter and the progress shown. */
  datatype Download = Download(path: string, contents: seq<byte>, downloaded: nat, progress: seq<nat>)

  /**
   * The `with open(output_file, "wb")` block of download_file: the copy loop.
   * The file at `path` ends up holding the whole body; `downloaded` counts
   * it; the chunks read, each non-empty and at most ChunkSize long, make up
   * the body; one progress value is reported per chunk when `showProgress`.
   */
  method CopyBody(path: string, body: seq<byte>, showProgress: bool)
    returns (d: Download, ghost chunks: seq<seq<byte>>)
    ensures d.path == path && d.contents == body && d.downloaded == |body|
    ensures Concat(chunks) == body
    ensures forall i :: 0 <= i < |chunks| ==> 0 < |chunks[i]| <= ChunkSize
    ensures d.progress == if showProgress then RunningTotals(chunks) else []
  {
    chunks := [];
    var stream := new ResponseStream(body);
    var file := new OutputFile(path);
    var downloaded: nat := 0;
    var progress: seq<nat> := [];
    while true
      invariant stream.Valid() && stream.body == body
      invariant file.path == path
      invariant file.contents == body[..stream.position] == Concat(chunks)
      invariant downloaded == |file.contents|
      invariant forall i :: 0 <= i < |chunks| ==> 0 < |chunks[i]| <= ChunkSize
      invariant progress == if showProgress then RunningTotals(chunks) else []
      decreases |body| - stream.position
    {
      var chunk := stream.Read(ChunkSize);
      if chunk == [] {
        break;
      }
      file.Write(chunk);
      downloaded := downloaded + |chunk|;
      AppendChunk(chunks, chunk);
      SliceAppend(body, |file.contents| - |chunk|, stream.position);
      chunks := chunks + [chunk];
      if showProgress {
        progress := progress + [downloaded];
      }
    }
    assert body[..stream.position] == body;
    d := Download(file.path, file.contents, downloaded, progress);
  }

  /**
   * download_file(url, outputDir) given the response to its request: the
   * name and size are derived first, and a failure there leaves no file;
   * otherwise the body is copied to the joined path.
   */
  method DownloadFile(url: string, outputDir: string, response: Response)
    returns (result: Result<Download, Failure>, ghost chunks: seq<seq<byte>>)
    ensures PlanDownload(url, outputDir, response).Failure? ==>
      result == Failure(PlanDownload(url, outputDir, response).error)
    ensures PlanDownload(url, outputDir, response).Success? ==>
      var plan := PlanDownload(url, outputDir, response).value;
      && result.Success?
      && result.value.path == plan.outputFile
      && result.value.contents == response.body
      && result.value.downloaded == |response.body|
      && Concat(chunks) == response.body
      && (forall i :: 0 <= i < |chunks| ==> 0 < |chunks[i]| <= ChunkSize)
      && result.value.progress == (if ShowsProgress(plan.totalSize) then RunningTotals(chunks) else [])
  {
    chunks := [];
    var planned := PlanDownload(url, outputDir, response);
    if planned.Failure? {
      result := Failure(planned.error);
      return;
    }
    var plan := planned.value;
    var d;
    d, chunks := CopyBody(plan.outputFile, response.body, ShowsProgress(plan.totalSize));
    result := Success(d);
  }

  // ---------------------------------------------------------------------
  // main: the seed URL and the top-level flow

  /**
   * `query_params.get("modelVersionId", [None])[0]` turned into the API URL.
   * A missing key and an empty first value fail with the ValueError main
   * raises; an empty value list fails with IndexError.
   */
  function SeedUrl(query: map<string, seq<string>>): Result<string, Failure> {
    if VersionKey !in query then Failure(NoVersionId)
    else if query[VersionKey] == [] then Failure(NoVersionValues)
    else if query[VersionKey][0] == "" then Failure(NoVersionId)
    else Success(SeedUrlPrefix + query[VersionKey][0])
  }

  /**
   * There is a seed URL exactly when the first modelVersionId value is
   * there and not empty, and that value is what the URL carries after the
   * fixed API prefix.
   */
  lemma SeedUrlSpec(query: map<string, seq<string>>)
    ensures SeedUrl(query).Success? <==>
      VersionKey in query && query[VersionKey] != [] && query[VersionKey][0] != ""
    ensures SeedUrl(query).Success? ==>
      var url := SeedUrl(query).value;
      && |SeedUrlPrefix| < |url|
      && url[..|SeedUrlPrefix|] == SeedUrlPrefix
      && url[|SeedUrlPrefix|..] == query[VersionKey][0]
  {
  }

  /** How a run of main ends: an exception out of main, an `ERROR:` line, or a written file. */
  datatype Outcome =
    | Raised(failure: Failure)
    | Reported(failure: Failure)
    | Completed(outputFile: string, contents: seq<byte>)

  /**
   * main once the arguments and the token are at hand: `query` is what
   * `parse_qs` gives for the URL's query, `server` what `urlopen` does with
   * the first (0) and the second (1) request. Only the seed URL is built
   * outside the `try`.
   */
  function Run(query: map<string, seq<string>>, outputDir: string, server: Server): Outcome {
    match SeedUrl(query)
    case Failure(f) => Raised(f)
    case Success(seed) =>
      match server(0, seed)
      case Failed(reason) => Reported(RequestFailed(reason))
      case Answered(first) =>
        match ResolveDownloadUrl(seed, first)
        case None => Reported(NoRedirectTarget)
        case Some(url) =>
          match server(1, url)
          case Failed(reason) => Reported(RequestFailed(reason))
          case Answered(second) =>
            match PlanDownload(url, outputDir, second)
            case Failure(f) => Reported(f)
            case Success(plan) => Completed(plan.outputFile, second.body)
  }

  /** main, step by step, copying the body through DownloadFile. */
  method RunDownloader(query: map<string, seq<string>>, outputDir: string, server: Server)
    returns (outcome: Outcome)
    ensures outcome == Run(query, outputDir, server)
  {
    var seed := SeedUrl(query);
    if seed.Failure? {
      return Raised(seed.error);
    }
    var first := server(0, seed.value);
    if first.Failed? {
      return Reported(RequestFailed(first.reason));
    }
    var target := ResolveDownloadUrl(seed.value, first.response);
    if target.None? {
      return Reported(NoRedirectTarget);
    }
    var second := server(1, target.value);
    if second.Failed? {
      return Reported(RequestFailed(second.reason));
    }
    var result;
    ghost var chunks;
    result, chunks := DownloadFile(target.value, outputDir, second.response);
    if result.Failure? {
      outcome := Reported(result.error);
    } else {
      outcome := Completed(result.value.path, result.value.contents);
    }
  }

  /**
   * Without a usable modelVersionId main raises before any request: the
   * outcome is the same whatever the network does.
   */
  lemma NoRequestWithoutVersion(query: map<string, seq<string>>, outputDir: string,
                                server1: Server, server2: Server)
    requires SeedUrl(query).Failure?
    ensures Run(query, outputDir, server1) == Run(query, outputDir, server2) == Raised(SeedUrl(query).error)
  {
  }

  /** Every failure after the seed URL is caught and reported; only the seed URL can raise. */
  lemma OnlySeedUrlRaises(query: map<string, seq<string>>, outputDir: string, server: Server)
    ensures Run(query, outputDir, server).Raised? <==> SeedUrl(query).Failure?
  {
  }

  /**
   * A request that fails is reported: the first one, or the second once
   * the first has resolved to a URL.
   */
  lemma FailedRequestReported(query: map<string, seq<string>>, outputDir: string, server: Server)
    ensures (Run(query, outputDir, server).Reported? && Run(query, outputDir, server).failure.RequestFailed?) <==>
      && SeedUrl(query).Success?
      && (|| server(0, SeedUrl(query).value).Failed?
          || (&& ResolveDownloadUrl(SeedUrl(query).value, server(0, SeedUrl(query).value).response).Some?
              && server(1, ResolveDownloadUrl(SeedUrl(query).value, server(0, SeedUrl(query).value).response).value).Failed?))
  {
  }

  /**
   * A completed run resolved the seed URL once and wrote the body of the
   * response to the second request, for the resolved URL, whatever that
   * response's status: a second redirect is not followed. The file it
   * wrote is one `open` can create.
   */
  lemma CompletedRun(query: map<string, seq<string>>, outputDir: string, server: Server)
    ensures Run(query, outputDir, server).Completed? <==>
      && SeedUrl(query).Success?
      && server(0, SeedUrl(query).value).Answered?
      && ResolveDownloadUrl(SeedUrl(query).value, server(0, SeedUrl(query).value).response).Some?
      && var url := ResolveDownloadUrl(SeedUrl(query).value, server(0, SeedUrl(query).value).response).value;
         server(1, url).Answered? && PlanDownload(url, outputDir, server(1, url).response).Success?
    ensures Run(query, outputDir, server).Completed? ==>
      var url := ResolveDownloadUrl(SeedUrl(query).value, server(0, SeedUrl(query).value).response).value;
      var response := server(1, url).response;
      && Run(query, outputDir, server).contents == response.body
      && Run(query, outputDir, server).outputFile
         == PathJoin(outputDir, OutputFilename(url, response).value)
      && NamesFile(Run(query, outputDir, server).outputFile)
  {
  }
}
