/**
 * Video-id extraction from the YouTube URL shapes the app accepts, and the
 * normalisation of the segments a Whisper transcription returns. URLs are
 * split the way Python's `urlparse` splits them into scheme, network
 * location, path, query and fragment (the components of section 3 of
 * RFC 3986), and `v` is looked up the way `parse_qs` finds it.
 */
module TranscriptFetcher {
  import opened Wrappers
  import opened Text
  import opened Records

  /** A character the id pattern `[A-Za-z0-9_-]` accepts. */
  predicate IsIdChar(c: char) {
    'A' <= c <= 'Z' || 'a' <= c <= 'z' || '0' <= c <= '9' || c == '_' || c == '-'
  }

  /** `re.fullmatch(r"[A-Za-z0-9_-]{11}", s)`. */
  predicate IsVideoId(s: string) {
    |s| == 11 && forall i :: 0 <= i < |s| ==> IsIdChar(s[i])
  }

  const EmptyUrl: string := "YouTube URL is empty."
  const NoIdFound: string :=
    "Could not extract a video ID from the provided URL. "
    + "Please use a standard YouTube URL (watch?v=..., youtu.be/..., or /shorts/...)."

  function InvalidUrl(original: string): string { "Invalid YouTube URL: " + original }

  function InvalidId(original: string): string {
    "Could not extract a valid YouTube video ID from: " + original
  }

  /** `_validate_video_id`: the candidate itself when it is an id, else an
      error naming the original input. */
  function ValidateVideoId(candidate: string, original: string): (r: Result<string, string>)
    ensures r.Success? <==> IsVideoId(candidate)
    ensures r.Success? ==> r.value == candidate
    ensures r.Failure? ==> r.error == InvalidId(original)
  {
    if IsVideoId(candidate) then Success(candidate) else Failure(InvalidId(original))
  }

  /** The five components `urlparse` yields (`params` stays in the path). */
  datatype UrlParts = UrlParts(scheme: string, netloc: string, path: string, query: string, fragment: string)

  predicate IsAsciiLetter(c: char) { 'A' <= c <= 'Z' || 'a' <= c <= 'z' }

  predicate IsSchemeChar(c: char) { IsAsciiLetter(c) || '0' <= c <= '9' || c == '+' || c == '-' || c == '.' }

  /** The text before the first `:` is a scheme: non-empty, starting with a
      letter, made of scheme characters. */
  predicate HasScheme(url: string) {
    var i := IndexOf(url, ':');
    0 < i < |url| && IsAsciiLetter(url[0]) && forall j :: 0 <= j < i ==> IsSchemeChar(url[j])
  }

  /** The scheme (lower-cased) and what follows its `:`, or no scheme. */
  function SplitScheme(url: string): (string, string) {
    if HasScheme(url) then (ToLower(url[..IndexOf(url, ':')]), url[IndexOf(url, ':') + 1..]) else ("", url)
  }

  /** After `//`, the network location up to the next `/`, `?` or `#`, and
      the rest; no network location without `//`. */
  function SplitNetloc(s: string): (string, string) {
    if |s| >= 2 && s[..2] == "//" then
      var e := 2 + IndexOfAny(s[2..], "/?#");
      (s[2..e], s[e..])
    else ("", s)
  }

  /** Path, query and fragment: the fragment follows the first `#`, the
      query the first `?` before it. */
  function SplitPathQuery(rest: string): (r: (string, string, string))
    ensures '?' !in r.0 && '#' !in r.0 && '#' !in r.1
  {
    var hash := IndexOf(rest, '#');
    var fragment := if hash < |rest| then rest[hash + 1..] else "";
    var beforeHash := rest[..hash];
    var mark := IndexOf(beforeHash, '?');
    var query := if mark < |beforeHash| then beforeHash[mark + 1..] else "";
    (beforeHash[..mark], query, fragment)
  }

  /** `urlparse`. A network location with one square bracket but not the
      other raises `ValueError`. */
  function SplitUrl(url: string): (r: Result<UrlParts, string>)
    ensures r.Success? ==> '?' !in r.value.path && '#' !in r.value.path && '#' !in r.value.query
    ensures r.Success? ==> ('[' in r.value.netloc) == (']' in r.value.netloc)
    ensures r.Failure? <==> var netloc := SplitNetloc(SplitScheme(url).1).0; ('[' in netloc) != (']' in netloc)
  {
    var (scheme, afterScheme) := SplitScheme(url);
    var (netloc, rest) := SplitNetloc(afterScheme);
    if ('[' in netloc) != (']' in netloc) then Failure("Invalid IPv6 URL")
    else
      var (path, query, fragment) := SplitPathQuery(rest);
      Success(UrlParts(scheme, netloc, path, query, fragment))
  }

  /** A query field `v=<value>` with a non-empty value. */
  predicate IsVField(field: string) {
    |field| > 2 && field[0] == 'v' && field[1] == '='
  }

  /** `parse_qs(query)["v"][0]`: the value of the first `&`-separated field
      named `v` whose value is not empty. */
  function FirstV(fields: seq<string>): (r: Option<string>)
    ensures r.None? <==> forall i :: 0 <= i < |fields| ==> !IsVField(fields[i])
    ensures r.Some? ==> exists i :: 0 <= i < |fields| && IsVField(fields[i]) && fields[i][2..] == r.value
                                    && forall j :: 0 <= j < i ==> !IsVField(fields[j])
    decreases |fields|
  {
    if fields == [] then None
    else
      var field := fields[0];
      var eq := IndexOf(field, '=');
      if eq + 1 < |field| && field[..eq] == "v" then Some(field[eq + 1..]) else FirstV(fields[1..])
  }

  /** The `v` value of a query, if one of its `&`-separated fields has one. */
  function QueryV(query: string): (r: Option<string>)
    ensures r.Some? ==> r.value != []
    ensures r.None? <==> forall field :: field in Split(query, '&') ==> !IsVField(field)
  {
    FirstV(Split(query, '&'))
  }

  /** The three parts put back together with their `?` and `#` give the
      input, and a part whose delimiter is absent is empty. With the
      delimiter-free parts of `SplitPathQuery`'s contract, this pins the
      split at the first `#` and the first `?` before it. */
  lemma SplitPathQueryReassembles(rest: string)
    ensures var r := SplitPathQuery(rest);
            var marked := '?' in rest[..IndexOf(rest, '#')];
            && rest == r.0 + (if marked then "?" + r.1 else "") + (if '#' in rest then "#" + r.2 else "")
            && (!marked ==> r.1 == "")
            && ('#' !in rest ==> r.2 == "")
  {
    SplitAtHash(rest);
    SplitAtMark(rest);
  }

  /** The fragment is what follows the first `#`. */
  lemma SplitAtHash(rest: string)
    ensures var r := SplitPathQuery(rest);
            && rest == rest[..IndexOf(rest, '#')] + (if '#' in rest then "#" + r.2 else "")
            && ('#' !in rest ==> r.2 == "")
  {
    var hash := IndexOf(rest, '#');
    IndexOfFinds(rest, '#');
    CutAt(rest, hash, '#');
  }

  /** Before the `#`, the path and the query are what precede and follow
      the first `?`. */
  lemma SplitAtMark(rest: string)
    ensures var r := SplitPathQuery(rest);
            var beforeHash := rest[..IndexOf(rest, '#')];
            && beforeHash == r.0 + (if '?' in beforeHash then "?" + r.1 else "")
            && ('?' !in beforeHash ==> r.1 == "")
  {
    var beforeHash := rest[..IndexOf(rest, '#')];
    var mark := IndexOf(beforeHash, '?');
    var r := SplitPathQuery(rest);
    assert r.0 == beforeHash[..mark];
    assert r.1 == if mark < |beforeHash| then beforeHash[mark + 1..] else "";
    IndexOfFinds(beforeHash, '?');
    CutAt(beforeHash, mark, '?');
  }

  /** `c` occurs in `s` exactly when `IndexOf` stops before the end. */
  lemma IndexOfFinds(s: string, c: char)
    ensures c in s <==> IndexOf(s, c) < |s|
  {
    if IndexOf(s, c) == |s| {
      assert forall j :: 0 <= j < |s| ==> s[j] != c;
    }
  }

  /** Cutting at an occurrence of `c`, or at the end, loses nothing. */
  lemma CutAt(s: string, i: nat, c: char)
    requires i <= |s| && (i < |s| ==> s[i] == c)
    ensures s == s[..i] + (if i < |s| then [c] + s[i + 1..] else "")
  {
    if i < |s| {
      assert s[i..] == [c] + s[i + 1..];
      assert s == s[..i] + s[i..];
    } else {
      assert s[..i] == s;
    }
  }

  /** `s.lstrip("/")`. */
  function StripLeadingSlashes(s: string): (r: string)
    ensures |r| <= |s| && r == s[|s| - |r|..]
    ensures r == [] || r[0] != '/'
  {
    if s != [] && s[0] == '/' then StripLeadingSlashes(s[1..]) else s
  }

  /** `lstrip` removes only slashes: every character before the result is `/`. */
  lemma {:induction false} StripLeadingSlashesOnlySlashes(s: string)
    ensures var r := StripLeadingSlashes(s);
            forall k :: 0 <= k < |s| - |r| ==> s[k] == '/'
    decreases |s|
  {
    if s != [] && s[0] == '/' {
      StripLeadingSlashesOnlySlashes(s[1..]);
      var r := StripLeadingSlashes(s);
      forall k | 0 <= k < |s| - |r|
        ensures s[k] == '/'
      {
        if k > 0 {
          assert s[k] == s[1..][k - 1];
        }
      }
    }
  }

  /** `path.lstrip("/").split("/")[0]`. */
  function FirstPathComponent(path: string): string {
    Split(StripLeadingSlashes(path), '/')[0]
  }

  /** `re.match(r"^<prefix>([A-Za-z0-9_-]{11})", path).group(1)`: the eleven
      id characters right after `prefix`; anything after them is ignored. */
  function IdAfter(path: string, prefix: string): Option<string> {
    if prefix <= path && |prefix| + 11 <= |path| && IsVideoId(path[|prefix|..|prefix| + 11])
    then Some(path[|prefix|..|prefix| + 11])
    else None
  }

  /** The last resort for any host: a `v` query value, validated. */
  function FromQuery(query: string, original: string): (r: Result<string, string>)
    ensures r.Success? <==> QueryV(query).Some? && IsVideoId(QueryV(query).value)
    ensures r.Success? ==> r.value == QueryV(query).value
    ensures r.Failure? ==> r.error == InvalidId(original) || r.error == NoIdFound
  {
    match QueryV(query)
    case Some(v) => ValidateVideoId(v, original)
    case None => Failure(NoIdFound)
  }

  /** The rules for a youtube.com host: `/watch` takes its `v` value (an
      empty one when missing) and stops there; `/shorts/` and `/embed/`
      take the id that follows; anything else falls back to the query. */
  function FromYouTubePath(path: string, query: string, original: string): (r: Result<string, string>)
    ensures r.Success? ==> IsVideoId(r.value)
    ensures r.Failure? ==> r.error == InvalidId(original) || r.error == NoIdFound
    ensures path == "/watch" ==> (r.Success? <==> QueryV(query).Some? && IsVideoId(QueryV(query).value))
    ensures path == "/watch" && r.Success? ==> r.value == QueryV(query).value
    ensures path == "/watch" && r.Failure? ==> r.error == InvalidId(original)
  {
    if path == "/watch" then
      ValidateVideoId(match QueryV(query) case Some(v) => v case None => "", original)
    else
      match IdAfter(path, "/shorts/")
      case Some(id) => Success(id)
      case None =>
        match IdAfter(path, "/embed/")
        case Some(id) => Success(id)
        case None => FromQuery(query, original)
  }

  predicate IsYouTubeHost(host: string) {
    Contains(host, "youtube.com") || Contains(host, "m.youtube.com") || Contains(host, "www.youtube.com")
  }

  /** The host rules of `extract_video_id`, once the URL is split. */
  function FromParts(parts: UrlParts, original: string): (r: Result<string, string>)
    ensures r.Success? ==> IsVideoId(r.value)
    ensures r.Failure? ==> r.error == InvalidId(original) || r.error == NoIdFound
  {
    var host := ToLower(parts.netloc);
    if Contains(host, "youtu.be") then ValidateVideoId(FirstPathComponent(parts.path), original)
    else if IsYouTubeHost(host) then FromYouTubePath(parts.path, parts.query, original)
    else FromQuery(parts.query, original)
  }

  /** `extract_video_id`: every id it returns is eleven characters of the id
      alphabet, and it fails only with one of its four messages. */
  function ExtractVideoId(youtubeUrl: string): (r: Result<string, string>)
    ensures r.Success? ==> IsVideoId(r.value)
    ensures r.Failure? ==> r.error in {EmptyUrl, InvalidUrl(youtubeUrl), InvalidId(youtubeUrl), NoIdFound}
  {
    var value := Strip(youtubeUrl);
    if value == "" then Failure(EmptyUrl)
    else if IsVideoId(value) then Success(value)
    else
      match SplitUrl(value)
      case Failure(_) => Failure(InvalidUrl(youtubeUrl))
      case Success(parts) => FromParts(parts, youtubeUrl)
  }

  /** Blank input is refused before anything else, and only blank input
      gets that message. */
  lemma ExtractBlank(youtubeUrl: string)
    ensures ExtractVideoId(youtubeUrl) == Failure(EmptyUrl) <==> IsBlank(youtubeUrl)
  {
    StripEmpty(youtubeUrl);
    var value := Strip(youtubeUrl);
    if value != "" && !IsVideoId(value) {
      assert youtubeUrl != [];
      assert |EmptyUrl| < |InvalidUrl(youtubeUrl)|;
      if SplitUrl(value).Success? {
        assert |EmptyUrl| < |InvalidId(youtubeUrl)| && |EmptyUrl| < |NoIdFound|;
      }
    }
  }

  /** A bare id, surrounding whitespace aside, is returned as it is. */
  lemma ExtractRawId(youtubeUrl: string)
    requires IsVideoId(Strip(youtubeUrl))
    ensures ExtractVideoId(youtubeUrl) == Success(Strip(youtubeUrl))
  {
  }

  /** The first `:` after a scheme of letters is the one that ends it. */
  lemma SchemeColon(scheme: string, afterScheme: string)
    requires scheme != [] && forall j :: 0 <= j < |scheme| ==> IsAsciiLetter(scheme[j])
    ensures var url := scheme + ([':'] + afterScheme);
            IndexOf(url, ':') == |scheme| && HasScheme(url)
  {
    var url := scheme + ([':'] + afterScheme);
    IndexOfConcat(scheme, [':'] + afterScheme, ':');
    assert forall j :: 0 <= j < |scheme| ==> url[j] == scheme[j];
  }

  /** A scheme of letters is split off at its `:` and lower-cased. */
  lemma SchemeSplit(scheme: string, afterScheme: string)
    requires scheme != [] && forall j :: 0 <= j < |scheme| ==> IsAsciiLetter(scheme[j])
    ensures SplitScheme(scheme + ([':'] + afterScheme)) == (ToLower(scheme), afterScheme)
  {
    var url := scheme + ([':'] + afterScheme);
    SchemeColon(scheme, afterScheme);
    assert url[..|scheme|] == scheme;
    assert url[|scheme| + 1..] == afterScheme;
    calc {
      SplitScheme(url);
      (ToLower(url[..|scheme|]), url[|scheme| + 1..]);
      (ToLower(scheme), afterScheme);
    }
  }

  lemma SchemeHttps(afterScheme: string)
    ensures SplitScheme("https:" + afterScheme) == ("https", afterScheme)
  {
    assert "https:" + afterScheme == "https" + ([':'] + afterScheme);
    SchemeSplit("https", afterScheme);
    ToLowerUnchanged("https");
  }

  lemma NetlocOf(host: string, rest: string)
    requires forall i :: 0 <= i < |host| ==> host[i] !in "/?#"
    requires rest == [] || rest[0] in "/?#"
    ensures SplitNetloc("//" + host + rest) == (host, rest)
  {
    var s := "//" + host + rest;
    assert s[..2] == "//";
    assert s[2..] == host + rest;
    IndexOfAnyConcat(host, rest, "/?#");
    assert s[2..2 + |host|] == host;
    assert s[2 + |host|..] == rest;
  }

  /** A network location `urlparse` keeps whole: no delimiter, no bracket. */
  predicate PlainHost(host: string) {
    forall i :: 0 <= i < |host| ==> host[i] != '/' && host[i] != '?' && host[i] != '#' && host[i] != '[' && host[i] != ']'
  }

  /** The part of an `https` URL after its network location: the path, then
      `?` and the query when there is one. */
  function PathAndQuery(path: string, query: Option<string>): string {
    match query
    case Some(q) => path + "?" + q
    case None => path
  }

  /** An `https` URL put together from its parts. */
  function HttpsUrl(host: string, path: string, query: Option<string>): string {
    "https://" + host + PathAndQuery(path, query)
  }

  /** The query component `urlparse` reports: empty when there is no `?`. */
  function QueryText(query: Option<string>): string {
    match query
    case Some(q) => q
    case None => ""
  }

  /** A path that is empty or absolute and holds no `?` or `#`. */
  predicate PlainPath(path: string) {
    (path == [] || path[0] == '/') && forall i :: 0 <= i < |path| ==> path[i] != '?' && path[i] != '#'
  }

  lemma PathQueryOf(path: string, query: Option<string>)
    requires PlainPath(path)
    requires query.Some? ==> '#' !in query.value
    ensures SplitPathQuery(PathAndQuery(path, query)) == (path, QueryText(query), "")
  {
    var rest := PathAndQuery(path, query);
    assert '#' !in rest;
    assert rest[..|rest|] == rest;
    if query.Some? {
      assert rest == path + ("?" + query.value);
      IndexOfConcat(path, "?" + query.value, '?');
      assert rest[..|path|] == path;
      assert rest[|path| + 1..] == query.value;
    } else {
      assert '?' !in path;
      assert path[..|path|] == path;
    }
  }

  /** How `urlparse` splits an `https` URL with a plain host and path and a
      query (if any) without `#`. */
  lemma SplitHttps(host: string, path: string, query: Option<string>)
    requires PlainHost(host) && PlainPath(path)
    requires query.Some? ==> '#' !in query.value
    ensures SplitUrl(HttpsUrl(host, path, query)) == Success(UrlParts("https", host, path, QueryText(query), ""))
  {
    var rest := PathAndQuery(path, query);
    var afterScheme := "//" + host + rest;
    assert HttpsUrl(host, path, query) == "https:" + afterScheme;
    SchemeHttps(afterScheme);
    NetlocOf(host, rest);
    PathQueryOf(path, query);
  }

  /** Id characters are neither URL delimiters nor whitespace. */
  lemma IdCharFacts(s: string)
    requires IsVideoId(s)
    ensures forall i :: 0 <= i < |s| ==> s[i] !in "/?#&="
    ensures !IsSpace(s[0]) && !IsSpace(s[|s| - 1])
  {
    GraphicNotSpace(s[0]);
    GraphicNotSpace(s[|s| - 1]);
  }

  /** A URL that starts with a scheme `https:` and does not end in whitespace
      is its own stripped form and is not a bare id (`:` is no id character). */
  lemma UrlNotBare(url: string)
    requires |url| > 5 && url[0] == 'h' && url[5] == ':' && !IsSpace(url[|url| - 1])
    ensures Strip(url) == url && !IsVideoId(url)
  {
    GraphicNotSpace('h');
    StripUnchanged(url);
  }

  /** An `https` URL with a plain host and path reaches the host rules
      whole, with its own text as the original input. */
  lemma ExtractHttps(host: string, path: string, query: Option<string>)
    requires PlainHost(host) && PlainPath(path)
    requires query.Some? ==> '#' !in query.value
    requires var url := HttpsUrl(host, path, query); !IsSpace(url[|url| - 1])
    ensures var url := HttpsUrl(host, path, query);
            ExtractVideoId(url) == FromParts(UrlParts("https", host, path, QueryText(query), ""), url)
  {
    var url := HttpsUrl(host, path, query);
    assert url[0] == 'h' && url[5] == ':';
    UrlNotBare(url);
    SplitHttps(host, path, query);
  }

  /** `/<id>` is a plain path whose first component is the id. */
  lemma SlashedId(id: string)
    requires IsVideoId(id)
    ensures PlainPath("/" + id) && FirstPathComponent("/" + id) == id
  {
    IdCharFacts(id);
    assert StripLeadingSlashes("/" + id) == id;
    SplitNone(id, '/');
  }

  /** On a `youtu.be` host, the first path component is the id. */
  lemma ExtractShortLink(host: string, id: string)
    requires PlainHost(host) && Contains(ToLower(host), "youtu.be")
    requires IsVideoId(id)
    ensures ExtractVideoId(HttpsUrl(host, "/" + id, None)) == Success(id)
  {
    var url := HttpsUrl(host, "/" + id, None);
    IdCharFacts(id);
    assert url[|url| - 1] == id[|id| - 1];
    SlashedId(id);
    ExtractHttps(host, "/" + id, None);
  }

  /** The `youtu.be` rule for any plain path and any query: the first path
      component is validated, and the query is never consulted. */
  lemma ExtractShortLinkRule(host: string, path: string, query: Option<string>)
    requires PlainHost(host) && Contains(ToLower(host), "youtu.be")
    requires PlainPath(path)
    requires query.Some? ==> '#' !in query.value
    requires var url := HttpsUrl(host, path, query); !IsSpace(url[|url| - 1])
    ensures var url := HttpsUrl(host, path, query);
            ExtractVideoId(url) == ValidateVideoId(FirstPathComponent(path), url)
  {
    ExtractHttps(host, path, query);
  }

  /** `youtu.be/<id>` followed by any query, such as a `si=` share token,
      yields the id. */
  lemma ExtractShortLinkWithQuery(host: string, id: string, query: string)
    requires PlainHost(host) && Contains(ToLower(host), "youtu.be")
    requires IsVideoId(id)
    requires '#' !in query && (query == [] || !IsSpace(query[|query| - 1]))
    ensures ExtractVideoId(HttpsUrl(host, "/" + id, Some(query))) == Success(id)
  {
    var url := HttpsUrl(host, "/" + id, Some(query));
    if query == [] {
      assert url[|url| - 1] == '?';
      GraphicNotSpace('?');
    } else {
      assert url[|url| - 1] == query[|query| - 1];
    }
    SlashedId(id);
    ExtractShortLinkRule(host, "/" + id, Some(query));
  }

  /** On a `youtu.be` host, a first path component that is not an id is
      refused as an invalid id, even when the query carries a valid `v`:
      that rule never falls through to the query. */
  lemma ExtractShortLinkInvalid(host: string, path: string, query: Option<string>)
    requires PlainHost(host) && Contains(ToLower(host), "youtu.be")
    requires PlainPath(path) && !IsVideoId(FirstPathComponent(path))
    requires query.Some? ==> '#' !in query.value
    requires var url := HttpsUrl(host, path, query); !IsSpace(url[|url| - 1])
    ensures var url := HttpsUrl(host, path, query);
            ExtractVideoId(url) == Failure(InvalidId(url))
  {
    ExtractHttps(host, path, query);
  }

  /** The first field of a query that starts `v=<id>` and continues, if at
      all, after an `&`. */
  lemma QueryVLeading(id: string, more: string)
    requires IsVideoId(id)
    requires more == [] || more[0] == '&'
    ensures QueryV("v=" + id + more) == Some(id)
  {
    IdCharFacts(id);
    var field := "v=" + id;
    assert '&' !in field;
    if more == [] {
      SplitNone(field, '&');
      assert field + more == field;
    } else {
      SplitCons(field, '&', more[1..]);
      assert field + more == field + ['&'] + more[1..];
    }
    assert IndexOf(field, '=') == 1;
    assert field[..1] == "v" && field[2..] == id;
  }

  /** On a youtube.com host, `/watch` takes its id from `v=<id>` at the head
      of the query, whatever parameters follow. */
  lemma ExtractWatch(host: string, id: string, more: string)
    requires PlainHost(host) && !Contains(ToLower(host), "youtu.be") && IsYouTubeHost(ToLower(host))
    requires IsVideoId(id)
    requires more == [] || (more[0] == '&' && !IsSpace(more[|more| - 1]))
    requires '#' !in more
    ensures ExtractVideoId(HttpsUrl(host, "/watch", Some("v=" + id + more))) == Success(id)
  {
    var query := "v=" + id + more;
    var url := HttpsUrl(host, "/watch", Some(query));
    IdCharFacts(id);
    if more == [] {
      assert url[|url| - 1] == id[|id| - 1];
    } else {
      assert url[|url| - 1] == more[|more| - 1];
    }
    assert '#' !in query;
    RulePathsPlain();
    ExtractHttps(host, "/watch", Some(query));
    QueryVLeading(id, more);
  }

  /** On a youtube.com host, a `/watch` URL without a query is refused as an
      invalid id and is not handed on to the other rules. */
  lemma ExtractWatchWithoutV(host: string)
    requires PlainHost(host) && !Contains(ToLower(host), "youtu.be") && IsYouTubeHost(ToLower(host))
    ensures var url := HttpsUrl(host, "/watch", None);
            ExtractVideoId(url) == Failure(InvalidId(url))
  {
    var url := HttpsUrl(host, "/watch", None);
    assert url[|url| - 1] == 'h';
    GraphicNotSpace('h');
    RulePathsPlain();
    ExtractHttps(host, "/watch", None);
    assert Split("", '&') == [""];
  }

  /** The `/watch` rule on a youtube.com host, for any query: the first `v`
      value (an empty one when there is none) is validated, and the later
      rules are never tried. */
  lemma ExtractWatchRule(host: string, query: Option<string>)
    requires PlainHost(host) && !Contains(ToLower(host), "youtu.be") && IsYouTubeHost(ToLower(host))
    requires query.Some? ==> '#' !in query.value
    requires var url := HttpsUrl(host, "/watch", query); !IsSpace(url[|url| - 1])
    ensures var url := HttpsUrl(host, "/watch", query);
            ExtractVideoId(url) == ValidateVideoId(match QueryV(QueryText(query)) case Some(v) => v case None => "", url)
  {
    RulePathsPlain();
    ExtractHttps(host, "/watch", query);
  }

  /** A `v=<id>` field after another field: `parse_qs` still finds it. */
  lemma QueryVAfter(field: string, id: string)
    requires '&' !in field && !IsVField(field)
    requires IsVideoId(id)
    ensures QueryV(field + "&v=" + id) == Some(id)
  {
    IdCharFacts(id);
    var vfield := "v=" + id;
    assert '&' !in vfield;
    assert field + "&v=" + id == field + ['&'] + vfield;
    SplitCons(field, '&', vfield);
    SplitNone(vfield, '&');
    assert Split(field + "&v=" + id, '&') == [field, vfield];
    assert IsVField(vfield) && vfield[2..] == id;
  }

  /** `/watch?<field>&v=<id>`, the shape of a shared link such as
      `watch?feature=share&v=<id>`, yields the id. */
  lemma ExtractWatchLater(host: string, field: string, id: string)
    requires PlainHost(host) && !Contains(ToLower(host), "youtu.be") && IsYouTubeHost(ToLower(host))
    requires '&' !in field && '#' !in field && !IsVField(field)
    requires IsVideoId(id)
    ensures ExtractVideoId(HttpsUrl(host, "/watch", Some(field + "&v=" + id))) == Success(id)
  {
    var query := field + "&v=" + id;
    var url := HttpsUrl(host, "/watch", Some(query));
    IdCharFacts(id);
    assert url[|url| - 1] == id[|id| - 1];
    assert '#' !in query;
    QueryVAfter(field, id);
    ExtractWatchRule(host, Some(query));
  }

  /** A path of lower-case words after slashes is plain. */
  lemma WordPath(path: string)
    requires path != [] && path[0] == '/'
    requires forall i :: 0 <= i < |path| ==> 'a' <= path[i] <= 'z' || path[i] == '/'
    ensures PlainPath(path)
  {
  }

  /** The paths the YouTube rules look for are plain. */
  lemma RulePathsPlain()
    ensures PlainPath("/watch") && PlainPath("/shorts/") && PlainPath("/embed/")
  {
    WordPath("/watch");
    WordPath("/shorts/");
    WordPath("/embed/");
  }

  /** A plain path stays plain when text without `?` or `#` is added. */
  lemma PlainPathAppend(path: string, more: string)
    requires PlainPath(path) && path != []
    requires forall i :: 0 <= i < |more| ==> more[i] != '?' && more[i] != '#'
    ensures PlainPath(path + more)
  {
    assert forall i :: |path| <= i < |path + more| ==> (path + more)[i] == more[i - |path|];
  }

  /** The path rules take the eleven id characters after `/shorts/` or
      `/embed/`, whatever follows them. */
  lemma ShortsOrEmbedPath(kind: string, id: string, tail: string, query: string, original: string)
    requires kind == "/shorts/" || kind == "/embed/"
    requires IsVideoId(id)
    ensures FromYouTubePath(kind + id + tail, query, original) == Success(id)
  {
    var path := kind + id + tail;
    assert |path| > 6;
    assert path[|kind|..|kind| + 11] == id;
    if kind == "/embed/" {
      assert path[1] == 'e';
      assert !("/shorts/" <= path);
    }
  }

  /** On a youtube.com host, `/shorts/<id>` and `/embed/<id>` yield the id,
      whatever follows it in the path. */
  lemma ExtractShortsOrEmbed(host: string, kind: string, id: string, tail: string)
    requires PlainHost(host) && !Contains(ToLower(host), "youtu.be") && IsYouTubeHost(ToLower(host))
    requires kind == "/shorts/" || kind == "/embed/"
    requires IsVideoId(id)
    requires forall i :: 0 <= i < |tail| ==> tail[i] != '?' && tail[i] != '#'
    requires tail == [] || !IsSpace(tail[|tail| - 1])
    ensures ExtractVideoId(HttpsUrl(host, kind + id + tail, None)) == Success(id)
  {
    var path := kind + id + tail;
    var url := HttpsUrl(host, path, None);
    IdCharFacts(id);
    if tail == [] {
      assert url[|url| - 1] == id[|id| - 1];
    } else {
      assert url[|url| - 1] == tail[|tail| - 1];
    }
    RulePathsPlain();
    PlainPathAppend(kind, id);
    PlainPathAppend(kind + id, tail);
    ExtractHttps(host, path, None);
    ShortsOrEmbedPath(kind, id, tail, "", url);
  }

  /** On a host that is not YouTube's, only a `v` query parameter counts. */
  lemma ExtractOtherHost(host: string, path: string, query: Option<string>)
    requires PlainHost(host) && !Contains(ToLower(host), "youtu.be") && !IsYouTubeHost(ToLower(host))
    requires PlainPath(path)
    requires query.Some? ==> '#' !in query.value
    requires var url := HttpsUrl(host, path, query); !IsSpace(url[|url| - 1])
    ensures var url := HttpsUrl(host, path, query);
            ExtractVideoId(url) == FromQuery(QueryText(query), url)
  {
    ExtractHttps(host, path, query);
  }

  /** On a youtube.com host, a path other than `/watch` that does not start
      with `/shorts/<id>` or `/embed/<id>` falls through to the `v` query. */
  lemma ExtractYouTubeFallback(host: string, path: string, query: Option<string>)
    requires PlainHost(host) && !Contains(ToLower(host), "youtu.be") && IsYouTubeHost(ToLower(host))
    requires PlainPath(path) && path != "/watch"
    requires IdAfter(path, "/shorts/") == None && IdAfter(path, "/embed/") == None
    requires query.Some? ==> '#' !in query.value
    requires var url := HttpsUrl(host, path, query); !IsSpace(url[|url| - 1])
    ensures var url := HttpsUrl(host, path, query);
            ExtractVideoId(url) == FromQuery(QueryText(query), url)
  {
    ExtractHttps(host, path, query);
  }

  /** A network location with one square bracket but not the other makes
      the URL invalid, whatever follows it. */
  lemma ExtractUnmatchedBracket(host: string, path: string, query: Option<string>)
    requires forall i :: 0 <= i < |host| ==> host[i] !in "/?#"
    requires ('[' in host) != (']' in host)
    requires PlainPath(path)
    requires var url := HttpsUrl(host, path, query); !IsSpace(url[|url| - 1])
    ensures var url := HttpsUrl(host, path, query);
            ExtractVideoId(url) == Failure(InvalidUrl(url))
  {
    var url := HttpsUrl(host, path, query);
    var rest := PathAndQuery(path, query);
    assert url[0] == 'h' && url[5] == ':';
    UrlNotBare(url);
    assert url == "https:" + ("//" + host + rest);
    SchemeHttps("//" + host + rest);
    NetlocOf(host, rest);
  }

  /** A host name of lower-case letters and dots is plain and is its own
      lower-cased form. */
  lemma LowerDottedHost(host: string)
    requires forall i :: 0 <= i < |host| ==> 'a' <= host[i] <= 'z' || host[i] == '.'
    ensures PlainHost(host) && ToLower(host) == host
  {
    ToLowerUnchanged(host);
  }

  /** The short-link host is plain and is recognised as such. */
  lemma ShortLinkHost()
    ensures PlainHost("youtu.be") && Contains(ToLower("youtu.be"), "youtu.be")
  {
    LowerDottedHost("youtu.be");
  }

  lemma WwwNotShortLink()
    ensures !Contains("www.youtube.com", "youtu.be")
  {
    NoOccurrence("www.youtube.com", "youtu.be", 5);
  }

  lemma WwwContainsYouTube()
    ensures Contains("www.youtube.com", "youtube.com")
  {
    var host := "www.youtube.com";
    assert Contains(host, host);
    ContainsSuffix(host, host, 4);
    assert host[4..] == "youtube.com";
  }

  /** The host of the canonical URLs is plain and is YouTube's, not the
      short-link host. */
  lemma WwwYouTubeHost()
    ensures PlainHost("www.youtube.com")
    ensures !Contains(ToLower("www.youtube.com"), "youtu.be") && IsYouTubeHost(ToLower("www.youtube.com"))
  {
    LowerDottedHost("www.youtube.com");
    WwwNotShortLink();
    WwwContainsYouTube();
  }

  /** The `m.youtube.com` and `www.youtube.com` tests add nothing: a host
      is YouTube's exactly when it contains `youtube.com`. */
  lemma YouTubeHostIsContains(host: string)
    ensures IsYouTubeHost(host) <==> Contains(host, "youtube.com")
  {
    if Contains(host, "m.youtube.com") {
      ContainsSuffix(host, "m.youtube.com", 2);
      assert "m.youtube.com"[2..] == "youtube.com";
    }
    if Contains(host, "www.youtube.com") {
      ContainsSuffix(host, "www.youtube.com", 4);
      assert "www.youtube.com"[4..] == "youtube.com";
    }
  }

  lemma WithoutY(s: string)
    requires forall i :: 0 <= i < |s| ==> s[i] != 'y'
    ensures !Contains(s, "youtu.be") && !Contains(s, "youtube.com")
  {
    NoOccurrenceChar(s, "youtu.be", 0);
    NoOccurrenceChar(s, "youtube.com", 0);
  }

  /** A host spelt with dots and the letters `a` to `x` is none of
      YouTube's: it has no `y`. */
  lemma NotYouTubeHost(host: string)
    requires forall i :: 0 <= i < |host| ==> 'a' <= host[i] <= 'x' || host[i] == '.'
    ensures !Contains(host, "youtu.be") && !IsYouTubeHost(host)
  {
    WithoutY(host);
    YouTubeHostIsContains(host);
  }

  lemma WatchPrefix()
    ensures "https://www.youtube.com/watch?v=" == "https://" + "www.youtube.com" + ("/watch" + "?" + "v=")
  {
  }

  /** A canonical watch URL is the `https` URL of `/watch` on the www host
      whose query starts `v=<id>`. */
  lemma WatchUrlText(id: string, more: string)
    ensures "https://www.youtube.com/watch?v=" + id + more
            == HttpsUrl("www.youtube.com", "/watch", Some("v=" + id + more))
  {
    WatchPrefix();
    ConcatAssoc("https://www.youtube.com/watch?v=", id, more);
    ConcatAssoc("https://" + "www.youtube.com", "/watch" + "?" + "v=", id + more);
    ConcatAssoc("/watch" + "?", "v=", id + more);
    ConcatAssoc("v=", id, more);
  }

  lemma ShortLinkPrefix()
    ensures "https://youtu.be/" == "https://" + "youtu.be" + "/"
  {
  }

  lemma ShortsPrefix()
    ensures "https://www.youtube.com/shorts/" == "https://" + "www.youtube.com" + "/shorts/"
  {
  }

  /** `https://www.youtube.com/watch?v=<id>` yields the id. */
  lemma WatchForm(id: string)
    requires IsVideoId(id)
    ensures ExtractVideoId("https://www.youtube.com/watch?v=" + id) == Success(id)
  {
    WwwYouTubeHost();
    ExtractWatch("www.youtube.com", id, "");
    WatchUrlText(id, "");
    ConcatEmpty("https://www.youtube.com/watch?v=" + id);
  }

  /** `https://youtu.be/<id>` yields the id. */
  lemma ShortLinkForm(id: string)
    requires IsVideoId(id)
    ensures ExtractVideoId("https://youtu.be/" + id) == Success(id)
  {
    ShortLinkHost();
    ExtractShortLink("youtu.be", id);
    ShortLinkPrefix();
    ConcatAssoc("https://" + "youtu.be", "/", id);
  }

  /** `https://www.youtube.com/shorts/<id>` yields the id. */
  lemma ShortsForm(id: string)
    requires IsVideoId(id)
    ensures ExtractVideoId("https://www.youtube.com/shorts/" + id) == Success(id)
  {
    WwwYouTubeHost();
    ExtractShortsOrEmbed("www.youtube.com", "/shorts/", id, "");
    ShortsPrefix();
    ConcatAssoc("https://" + "www.youtube.com", "/shorts/", id);
    ConcatEmpty("/shorts/" + id);
  }

  /** Without a query there is no `v` to fall back on. */
  lemma NoQueryNoId(original: string)
    ensures FromQuery("", original) == Failure(NoIdFound)
  {
    assert Split("", '&') == [""];
  }

  /** The plain host of a site that is not YouTube's. */
  lemma OtherSiteHost()
    ensures PlainHost("www.google.com")
    ensures !Contains(ToLower("www.google.com"), "youtu.be") && !IsYouTubeHost(ToLower("www.google.com"))
  {
    NotYouTubeHost("www.google.com");
    LowerDottedHost("www.google.com");
  }

  lemma OtherSiteUrlText()
    ensures var url := HttpsUrl("www.google.com", "", None);
            url == "https://www.google.com" && url[|url| - 1] == 'm'
  {
  }

  /** A URL of another site without a query has no id to offer. */
  lemma OtherSiteRefused()
    ensures ExtractVideoId("https://www.google.com") == Failure(NoIdFound)
  {
    OtherSiteHost();
    OtherSiteUrlText();
    GraphicNotSpace('m');
    ExtractOtherHost("www.google.com", "", None);
    NoQueryNoId(HttpsUrl("www.google.com", "", None));
  }

  /** The output of a Whisper transcription as the code sees it: each
      element is an object with optional `text`, `start` and `end`, or
      something else. */
  datatype RawSegment = NotAnObject | Entry(text: Option<string>, start: Option<real>, end: Option<real>)

  const NoSegments: string := "Whisper transcription returned no segments."
  const NoUsableText: string := "Whisper transcription returned segments but none had usable text."

  /** One element normalised: trimmed text, `start` (0 when missing) and
      the non-negative span up to `end` (which defaults to `start`); an
      element that is not an object or has blank text is dropped. */
  function Normalise(raw: RawSegment): (r: Option<Segment>)
    ensures r.Some? ==> r.value.text != "" && Strip(r.value.text) == r.value.text && r.value.duration >= 0.0
    ensures r.Some? <==> raw.Entry? && Strip(match raw.text case Some(s) => s case None => "") != ""
    ensures r.Some? ==> r.value.text == Strip(match raw.text case Some(s) => s case None => "")
    ensures r.Some? ==> r.value.start == (match raw.start case Some(x) => x case None => 0.0)
    ensures r.Some? ==> var end := match raw.end case Some(x) => x case None => r.value.start;
                        r.value.duration == (if end > r.value.start then end - r.value.start else 0.0)
  {
    match raw
    case NotAnObject => None
    case Entry(text, start, end) =>
      var t := Strip(match text case Some(s) => s case None => "");
      var s := match start case Some(x) => x case None => 0.0;
      var e := match end case Some(x) => x case None => s;
      StripIdempotent(match text case Some(x) => x case None => "");
      if t == "" then None else Some(Segment(t, s, if e - s > 0.0 then e - s else 0.0))
  }

  /** The normalised segments, in input order. */
  function Usable(raw: seq<RawSegment>): seq<Segment>
    decreases |raw|
  {
    if raw == [] then []
    else
      var rest := Usable(raw[..|raw| - 1]);
      match Normalise(raw[|raw| - 1])
      case Some(seg) => rest + [seg]
      case None => rest
  }

  /** What the normalisation step returns or raises. */
  function Normalised(raw: seq<RawSegment>): Result<seq<Segment>, string> {
    if raw == [] then Failure(NoSegments)
    else if Usable(raw) == [] then Failure(NoUsableText)
    else Success(Usable(raw))
  }

  /** The normalisation loop of `_transcribe_with_whisper`. */
  method NormaliseSegments(raw: seq<RawSegment>) returns (r: Result<seq<Segment>, string>)
    ensures r == Normalised(raw)
  {
    if |raw| == 0 {
      return Failure(NoSegments);
    }
    var segments: seq<Segment> := [];
    var i := 0;
    while i < |raw|
      invariant i <= |raw|
      invariant segments == Usable(raw[..i])
    {
      assert raw[..i + 1][..i] == raw[..i];
      match raw[i] {
        case NotAnObject =>
        case Entry(text, start, end) =>
          var t := Strip(match text case Some(x) => x case None => "");
          var s := match start case Some(x) => x case None => 0.0;
          var e := match end case Some(x) => x case None => s;
          var duration := if e - s > 0.0 then e - s else 0.0;
          if t != "" {
            segments := segments + [Segment(t, s, duration)];
          }
      }
      i := i + 1;
    }
    assert raw[..i] == raw;
    if segments == [] {
      return Failure(NoUsableText);
    }
    return Success(segments);
  }

  /** Every kept segment has stripped, non-blank text and a non-negative
      duration, and no more segments come out than went in. */
  lemma {:induction false} UsableWellFormed(raw: seq<RawSegment>)
    ensures |Usable(raw)| <= |raw|
    ensures forall seg :: seg in Usable(raw) ==> seg.text != "" && Strip(seg.text) == seg.text && seg.duration >= 0.0
    decreases |raw|
  {
    if raw != [] {
      UsableWellFormed(raw[..|raw| - 1]);
    }
  }

  /** Normalisation keeps input order: it distributes over concatenation. */
  lemma {:induction false} UsableAppend(a: seq<RawSegment>, b: seq<RawSegment>)
    ensures Usable(a + b) == Usable(a) + Usable(b)
    decreases |b|
  {
    if b == [] {
      assert a + b == a;
    } else {
      UsableAppend(a, b[..|b| - 1]);
      assert (a + b)[..|a + b| - 1] == a + b[..|b| - 1];
    }
  }

  /** Nothing survives exactly when no element normalises to a segment. */
  lemma {:induction false} UsableEmpty(raw: seq<RawSegment>)
    ensures Usable(raw) == [] <==> forall i :: 0 <= i < |raw| ==> Normalise(raw[i]).None?
    decreases |raw|
  {
    if raw != [] {
      var init := raw[..|raw| - 1];
      UsableEmpty(init);
      assert forall i :: 0 <= i < |init| ==> init[i] == raw[i];
    }
  }
}
