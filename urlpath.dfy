/**
 * The path of a URL as `urllib.parse.urlparse(url).path` gives it, and the
 * two `posixpath` functions the downloader applies to file names:
 * `basename` and `join`.
 *
 * `urlparse` (as in CPython 3.12) first strips leading C0 control
 * characters and spaces and removes every tab, carriage return and line
 * feed. It then takes off a scheme (letters, digits, `+`, `-`, `.` before the
 * first `:`, starting with a letter), then a network location when `//`
 * follows (up to the first `/`, `?` or `#`), then the fragment at the first
 * `#`, then the query at the first `?`, and, for the schemes it lists as
 * using parameters, the `;parameters` of the last path segment. A network
 * location with only one of `[` and `]` raises `ValueError`, here `None`.
 */
module UrlPath {
  import opened Wrappers
  import opened PyStr

  predicate IsAsciiLetter(c: char) {
    'a' <= c <= 'z' || 'A' <= c <= 'Z'
  }

  predicate IsSchemeChar(c: char) {
    IsAsciiLetter(c) || '0' <= c <= '9' || c == '+' || c == '-' || c == '.'
  }

  /** The schemes for which `urlparse` splits off `;parameters`. */
  const UsesParams: seq<string> :=
    ["", "ftp", "hdl", "prospero", "http", "imap", "https", "shttp", "rtsp", "rtsps", "rtspu",
     "sip", "sips", "mms", "sftp", "tel"]

  /** Every character of `s` may appear in a scheme. */
  predicate SchemeChars(s: string)
    decreases |s|
  {
    s == [] || (IsSchemeChar(s[0]) && SchemeChars(s[1..]))
  }

  lemma {:induction false} SchemeCharsEverywhere(s: string)
    ensures SchemeChars(s) <==> forall k :: 0 <= k < |s| ==> IsSchemeChar(s[k])
    decreases |s|
  {
    if s != [] {
      SchemeCharsEverywhere(s[1..]);
      assert forall k :: 1 <= k < |s| ==> s[k] == s[1..][k - 1];
    }
  }

  /** The lower-cased scheme and what follows its `:`, or no scheme and the whole URL. */
  function SplitScheme(url: string): (r: (string, string))
    ensures |r.1| <= |url| && r.1 == url[|url| - |r.1|..]
  {
    var i := IndexOf(url, ':');
    if 0 < i < |url| && IsAsciiLetter(url[0]) && SchemeChars(url[..i]) then
      (Lower(url[..i]), url[i + 1..])
    else
      ("", url)
  }

  /** The characters that end a network location. */
  predicate EndsNetloc(c: char) {
    c == '/' || c == '?' || c == '#'
  }

  /** The end of a network location that starts at `start`: the first `/`, `?` or `#`, or the end. */
  function NetlocEnd(s: string, start: nat): (r: nat)
    requires start <= |s|
    ensures start <= r <= |s|
    ensures forall k :: start <= k < r ==> !EndsNetloc(s[k])
    ensures r == |s| || EndsNetloc(s[r])
    decreases |s| - start
  {
    if start == |s| || EndsNetloc(s[start]) then start else NetlocEnd(s, start + 1)
  }

  /** `s` up to its first `c`, or all of `s`. */
  function CutAt(s: string, c: char): (r: string)
    ensures |r| <= |s| && r == s[..|r|] && c !in r
    ensures |r| == |s| || s[|r|] == c
  {
    s[..IndexOf(s, c)]
  }

  /** The path without the `;parameters` of its last segment. */
  function SplitParams(path: string): (r: string)
    ensures |r| <= |path| && r == path[..|r|]
  {
    var slash := RFind(path, '/');
    var i := Find(path, ";", if slash < 0 then 0 else slash);
    if i < 0 then path else path[..i]
  }

  /** The network location after a leading `//`, and what follows it. */
  function SplitNetloc(rest: string): (r: (string, string))
    ensures |r.1| <= |rest| && r.1 == rest[|rest| - |r.1|..]
  {
    if |rest| >= 2 && rest[..2] == "//" then
      var e := NetlocEnd(rest, 2);
      (rest[2..e], rest[e..])
    else
      ("", rest)
  }

  /** What is left once fragment, query and `;parameters` are cut off. */
  function PathPart(scheme: string, afterNetloc: string): (r: string)
    ensures |r| <= |afterNetloc| && r == afterNetloc[..|r|]
    ensures '?' !in r && '#' !in r
  {
    var path := CutAt(CutAt(afterNetloc, '#'), '?');
    if scheme in UsesParams && ';' in path then SplitParams(path) else path
  }

  /** The characters `urlsplit` strips from the front of a URL: C0 controls and space. */
  predicate C0OrSpace(c: char) {
    c as int <= 0x20
  }

  /** The characters `urlsplit` removes wherever they stand. */
  predicate Unsafe(c: char) {
    c == '\t' || c == '\r' || c == '\n'
  }

  predicate SafeText(s: string) {
    forall k :: 0 <= k < |s| ==> !Unsafe(s[k])
  }

  /** `url.lstrip()` of the C0 controls and space. */
  function StripLeadingC0(url: string): (r: string)
    ensures |r| <= |url| && r == url[|url| - |r|..]
    ensures r == [] || !C0OrSpace(r[0])
    ensures forall k :: 0 <= k < |url| - |r| ==> C0OrSpace(url[k])
    decreases |url|
  {
    if url != [] && C0OrSpace(url[0]) then StripLeadingC0(url[1..]) else url
  }

  /** `url` with every tab, carriage return and line feed removed. */
  function RemoveUnsafe(url: string): (r: string)
    ensures SafeText(r) && |r| <= |url|
    ensures SafeText(url) ==> r == url
    decreases |url|
  {
    if url == [] then []
    else if Unsafe(url[0]) then RemoveUnsafe(url[1..])
    else [url[0]] + RemoveUnsafe(url[1..])
  }

  /** The URL `urlsplit` goes on to take apart. */
  function CleanUrl(url: string): string {
    RemoveUnsafe(StripLeadingC0(url))
  }

  /** A URL that starts with no control or space and holds no tab or line break is parsed as it is. */
  lemma CleanUrlKeeps(url: string)
    requires url == [] || !C0OrSpace(url[0])
    requires SafeText(url)
    ensures CleanUrl(url) == url
  {
  }

  /** `urlparse(url).path`, or `None` where `urlparse` raises `ValueError`. */
  function UrlParsePath(url: string): Option<string> {
    var clean := CleanUrl(url);
    var rest := SplitScheme(clean).1;
    var netloc := SplitNetloc(rest);
    if ('[' in netloc.0) != (']' in netloc.0) then None
    else Some(PathPart(SplitScheme(clean).0, netloc.1))
  }

  /**
   * The path is one contiguous part of the cleaned URL, found at offset
   * `a`, and holds neither `?` nor `#`: query and fragment are never part
   * of it.
   */
  lemma PathIsPartOfUrl(url: string, p: string) returns (a: nat)
    requires UrlParsePath(url) == Some(p)
    ensures '?' !in p && '#' !in p && SafeText(p)
    ensures a + |p| <= |CleanUrl(url)| && CleanUrl(url)[a..a + |p|] == p
  {
    var clean := CleanUrl(url);
    var rest := SplitScheme(clean).1;
    var afterNetloc := SplitNetloc(rest).1;
    assert p == PathPart(SplitScheme(clean).0, afterNetloc);
    SuffixOfSuffix(clean, rest, afterNetloc);
    a := |clean| - |afterNetloc|;
    PrefixOfSuffix(clean, afterNetloc, p, a);
    SafeSlice(clean, a, p);
  }

  lemma SafeSlice(s: string, a: nat, p: string)
    requires SafeText(s) && a + |p| <= |s| && s[a..a + |p|] == p
    ensures SafeText(p)
  {
    assert forall k :: 0 <= k < |p| ==> p[k] == s[a + k];
  }

  lemma SuffixOfSuffix(s: string, t: string, u: string)
    requires |t| <= |s| && t == s[|s| - |t|..]
    requires |u| <= |t| && u == t[|t| - |u|..]
    ensures |u| <= |s| && u == s[|s| - |u|..]
  {
  }

  lemma PrefixOfSuffix(s: string, t: string, p: string, a: nat)
    requires |t| <= |s| && t == s[|s| - |t|..] && a == |s| - |t|
    requires |p| <= |t| && p == t[..|p|]
    ensures a + |p| <= |s| && s[a..a + |p|] == p
  {
  }

  /**
   * A character an ordinary host name may hold: a Latin-1 character other
   * than `/`, `?`, `#`, `[`, `]`, tab and line breaks.
   */
  predicate PlainHostChar(c: char) {
    c as int < 0x100 && !EndsNetloc(c) && c != '[' && c != ']' && !Unsafe(c)
  }

  /**
   * For an ordinary URL — a scheme, `://`, a host of plain characters, a
   * path that starts with `/` and has no `?`, `#` or `;`, and then nothing
   * or a query or fragment, none of them with a tab or line break — the
   * path is exactly that path.
   */
  lemma OrdinaryUrlPath(scheme: string, host: string, path: string, tail: string)
    requires scheme != [] && IsAsciiLetter(scheme[0])
    requires forall k :: 0 <= k < |scheme| ==> IsSchemeChar(scheme[k])
    requires forall k :: 0 <= k < |host| ==> PlainHostChar(host[k])
    requires path != [] && path[0] == '/' && '?' !in path && '#' !in path && ';' !in path
    requires tail == [] || tail[0] == '?' || tail[0] == '#'
    requires SafeText(path) && SafeText(tail)
    ensures UrlParsePath(scheme + "://" + host + path + tail) == Some(path)
  {
    var rest := "//" + host + (path + tail);
    UrlOfParts(scheme, host, path, tail);
    SafeUrl(scheme, host, path, tail);
    CleanUrlKeeps(scheme + ":" + rest);
    SchemeOfUrl(scheme, rest);
    NetlocOfUrl(host, path + tail);
    PathBeforeTail(Lower(scheme), path, tail);
    assert '[' !in host && ']' !in host by {
      forall k | 0 <= k < |host| ensures host[k] != '[' && host[k] != ']' {
        assert PlainHostChar(host[k]);
      }
    }
    ParsedUrl(scheme + ":" + rest, Lower(scheme), rest, host, path + tail);
  }

  lemma UrlOfParts(scheme: string, host: string, path: string, tail: string)
    ensures scheme + "://" + host + path + tail == scheme + ":" + ("//" + host + (path + tail))
  {
    assert "://" == ":" + "//";
  }

  lemma SafeUrl(scheme: string, host: string, path: string, tail: string)
    requires forall k :: 0 <= k < |scheme| ==> IsSchemeChar(scheme[k])
    requires forall k :: 0 <= k < |host| ==> PlainHostChar(host[k])
    requires SafeText(path) && SafeText(tail)
    ensures SafeText(scheme + ":" + ("//" + host + (path + tail)))
  {
    var url := scheme + ":" + ("//" + host + (path + tail));
    forall k | 0 <= k < |url|
      ensures !Unsafe(url[k])
    {
      if k < |scheme| {
        assert url[k] == scheme[k];
      } else if k < |scheme| + 3 {
      } else if k < |scheme| + 3 + |host| {
        assert url[k] == host[k - |scheme| - 3];
      } else if k < |scheme| + 3 + |host| + |path| {
        assert url[k] == path[k - |scheme| - 3 - |host|];
      } else {
        assert url[k] == tail[k - |scheme| - 3 - |host| - |path|];
      }
    }
  }

  /** `urlparse` put together from its steps. */
  lemma ParsedUrl(url: string, scheme: string, rest: string, netloc: string, afterNetloc: string)
    requires CleanUrl(url) == url
    requires SplitScheme(url) == (scheme, rest)
    requires SplitNetloc(rest) == (netloc, afterNetloc)
    requires '[' !in netloc && ']' !in netloc
    ensures UrlParsePath(url) == Some(PathPart(scheme, afterNetloc))
  {
  }

  lemma SchemeOfUrl(scheme: string, rest: string)
    requires scheme != [] && IsAsciiLetter(scheme[0])
    requires forall k :: 0 <= k < |scheme| ==> IsSchemeChar(scheme[k])
    ensures SplitScheme(scheme + ":" + rest) == (Lower(scheme), rest)
  {
    var url := scheme + ":" + rest;
    assert url == scheme + (":" + rest);
    assert ':' !in scheme;
    IndexOfAfter(scheme, ":" + rest, ':');
    assert url[..|scheme|] == scheme;
    SchemeCharsEverywhere(scheme);
    assert url[|scheme| + 1..] == rest;
  }

  lemma NetlocOfUrl(host: string, afterHost: string)
    requires forall k :: 0 <= k < |host| ==> !EndsNetloc(host[k])
    requires afterHost != [] && afterHost[0] == '/'
    ensures SplitNetloc("//" + host + afterHost) == (host, afterHost)
  {
    var rest := "//" + host + afterHost;
    assert rest[..2] == "//";
    assert rest[2 + |host|] == '/';
    forall k | 2 <= k < 2 + |host|
      ensures !EndsNetloc(rest[k])
    {
      assert rest[k] == host[k - 2];
    }
    assert NetlocEnd(rest, 2) == 2 + |host|;
    assert rest[2..2 + |host|] == host;
    assert rest[2 + |host|..] == afterHost;
  }

  lemma PathBeforeTail(scheme: string, path: string, tail: string)
    requires '?' !in path && '#' !in path && ';' !in path
    requires tail == [] || tail[0] == '?' || tail[0] == '#'
    ensures PathPart(scheme, path + tail) == path
  {
    var g := CutAt(CutAt(path + tail, '#'), '?');
    assert g == path by {
      CutBeforeTail(path, tail);
    }
    assert ';' !in g;
  }

  lemma CutBeforeTail(path: string, tail: string)
    requires '?' !in path && '#' !in path
    requires tail == [] || tail[0] == '?' || tail[0] == '#'
    ensures CutAt(CutAt(path + tail, '#'), '?') == path
  {
    var t := CutAt(tail, '#');
    IndexOfAfter(path, tail, '#');
    assert CutAt(path + tail, '#') == path + t;
    IndexOfAfter(path, t, '?');
    if t != [] {
      assert t[0] == '?';
    }
    assert (path + t)[..|path|] == path;
  }

  /** `os.path.basename(p)`: what follows the last `/`. */
  function Basename(p: string): (r: string)
    ensures |r| <= |p| && r == p[|p| - |r|..]
    ensures '/' !in r
    ensures |r| == |p| || p[|p| - |r| - 1] == '/'
  {
    p[RFind(p, '/') + 1..]
  }

  /** A `/`-free suffix right after a `/`, or the whole path, is the base name. */
  lemma SameBasename(p: string, name: string)
    requires '/' !in name && |name| <= |p| && p[|p| - |name|..] == name
    requires |name| == |p| || p[|p| - |name| - 1] == '/'
    ensures Basename(p) == name
  {
  }

  /** `os.path.join(directory, name)` on POSIX. */
  function PathJoin(directory: string, name: string): string {
    if name != [] && name[0] == '/' then name
    else if directory == [] || directory[|directory| - 1] == '/' then directory + name
    else directory + "/" + name
  }

  /** A character other than `/` that neither part holds is not in their join. */
  lemma JoinAvoids(directory: string, name: string, c: char)
    requires c != '/' && c !in directory && c !in name
    ensures c !in PathJoin(directory, name)
  {
    var r := PathJoin(directory, name);
    if r != name {
      var slash := if directory == [] || directory[|directory| - 1] == '/' then "" else "/";
      assert r == directory + (slash + name);
      assert c !in slash + name;
    }
  }
}
