/**
 * The search side of GalleryApp.search(): the request URI, the response as
 * the catalog client delivers it, deduplication of artwork URLs, the
 * minimum-results threshold, the buffer build, and the alert text.
 */
module Catalog {
  import opened Wrappers
  import opened Sequences
  import Text

  const ITUNES_API := "https://itunes.apple.com/search"
  const LIMIT := "200"

  /** Fewer distinct artwork URLs than this is a failed search. */
  const MIN_RESULTS := 21

  /** One decoded search result; only `artworkUrl100` is used. */
  datatype ItunesResult = ItunesResult(wrapperType: string, kind: string, artworkUrl100: string)

  /** What sending the request produced, as the HTTP client and JSON decoder deliver it. */
  datatype Response =
    | SendFailed(exception: string)
      // the client threw IOException or InterruptedException; `exception` is its toString()
    | Received(statusCode: int, text: string, results: seq<ItunesResult>)
      // `text` is the response's toString(), `results` the decoded `results` array

  /** The three ways one search can fail. */
  datatype SearchError =
    | NetworkError(response: string)     // status code other than 200
    | ClientError(exception: string)     // the send itself threw
    | InsufficientResults(count: nat)    // 20 or fewer distinct URLs

  /** The three query parameters of a search URI, still URL-encoded. */
  datatype QueryParams = QueryParams(term: string, media: string, limit: string)

  // ---------------------------------------------------------------- URI

  /** `enc` stands for URLEncoder.encode(_, UTF_8). */
  function SearchUri(enc: string -> string, term: string, media: string): (uri: string)
    ensures ITUNES_API + "?term=" <= uri
  {
    ITUNES_API + "?term=" + enc(term) + "&media=" + enc(media) + "&limit=" + enc(LIMIT)
  }

  /** The text before the first `c` and the text after it, if `s` contains `c`. */
  function SplitAt(s: string, c: char): Option<(string, string)>
    decreases |s|
  {
    if s == [] then None
    else if s[0] == c then Some(([], s[1..]))
    else match SplitAt(s[1..], c)
      case None => None
      case Some(p) => Some(([s[0]] + p.0, p.1))
  }

  function StripPrefix(s: string, p: string): Option<string> {
    if p <= s then Some(s[|p|..]) else None
  }

  /** Reads the encoded term, media and limit back out of a search URI. */
  function ParseSearchUri(uri: string): Option<QueryParams> {
    match StripPrefix(uri, ITUNES_API + "?term=")
    case None => None
    case Some(afterTerm) =>
      match SplitAt(afterTerm, '&')
      case None => None
      case Some(term) =>
        match StripPrefix(term.1, "media=")
        case None => None
        case Some(afterMedia) =>
          match SplitAt(afterMedia, '&')
          case None => None
          case Some(media) =>
            match StripPrefix(media.1, "limit=")
            case None => None
            case Some(limit) => Some(QueryParams(term.0, media.0, limit))
  }

  lemma {:induction false} SplitAtJoin(a: string, c: char, b: string)
    requires c !in a
    ensures SplitAt(a + [c] + b, c) == Some((a, b))
    decreases |a|
  {
    var s := a + [c] + b;
    if a == [] {
      assert s[1..] == b;
    } else {
      assert s[1..] == a[1..] + [c] + b;
      SplitAtJoin(a[1..], c, b);
      assert [a[0]] + a[1..] == a;
    }
  }

  /**
   * The URI carries the encoded term, media and limit as three separate
   * parameters: they can be read back whenever the encoder writes no `&`
   * into the term or the media, which is so for URL encoding.
   */
  lemma SearchUriRoundTrip(enc: string -> string, term: string, media: string)
    requires '&' !in enc(term) && '&' !in enc(media)
    ensures ParseSearchUri(SearchUri(enc, term, media)) == Some(QueryParams(enc(term), enc(media), enc(LIMIT)))
  {
    var t, m, l := enc(term), enc(media), enc(LIMIT);
    SearchUriShape(enc, term, media);
    ParseJoined(t, m, l);
  }

  /** The URI as the fixed prefix followed by the three values and their separators. */
  lemma SearchUriShape(enc: string -> string, term: string, media: string)
    ensures SearchUri(enc, term, media)
      == (ITUNES_API + "?term=") + (enc(term) + ['&'] + ("media=" + (enc(media) + ['&'] + ("limit=" + enc(LIMIT)))))
  {}

  /** Parsing a URI joined from three values, the first two without `&`, gives back the values. */
  lemma ParseJoined(t: string, m: string, l: string)
    requires '&' !in t && '&' !in m
    ensures ParseSearchUri((ITUNES_API + "?term=") + (t + ['&'] + ("media=" + (m + ['&'] + ("limit=" + l)))))
      == Some(QueryParams(t, m, l))
  {
    var limitPart := "limit=" + l;
    var afterMedia := m + ['&'] + limitPart;
    var mediaPart := "media=" + afterMedia;
    var afterTerm := t + ['&'] + mediaPart;
    StripPrefixJoin(ITUNES_API + "?term=", afterTerm);
    SplitAtJoin(t, '&', mediaPart);
    StripPrefixJoin("media=", afterMedia);
    SplitAtJoin(m, '&', limitPart);
    StripPrefixJoin("limit=", l);
  }

  lemma StripPrefixJoin(p: string, rest: string)
    ensures StripPrefix(p + rest, p) == Some(rest)
  {
    assert p <= p + rest;
    assert (p + rest)[|p|..] == rest;
  }

  // ------------------------------------------------------- deduplication

  /** The set of artwork URLs over all results, built as the source's loop adds them. */
  function ArtworkSet(results: seq<ItunesResult>): set<string>
    decreases |results|
  {
    if results == [] then {}
    else ArtworkSet(results[..|results| - 1]) + {results[|results| - 1].artworkUrl100}
  }

  /** A URL is in the set exactly when some result carries it. */
  lemma {:induction false} ArtworkSetMembers(results: seq<ItunesResult>, u: string)
    ensures u in ArtworkSet(results) <==> exists i :: 0 <= i < |results| && results[i].artworkUrl100 == u
    decreases |results|
  {
    if results != [] {
      var init := results[..|results| - 1];
      ArtworkSetMembers(init, u);
      if u in ArtworkSet(init) {
        var i :| 0 <= i < |init| && init[i].artworkUrl100 == u;
        assert results[i] == init[i];
      }
      if exists i :: 0 <= i < |init| && init[i].artworkUrl100 == u {
        var i :| 0 <= i < |init| && init[i].artworkUrl100 == u;
        assert results[i] == init[i];
      }
      if exists i :: 0 <= i < |results| && results[i].artworkUrl100 == u {
        var i :| 0 <= i < |results| && results[i].artworkUrl100 == u;
        if i < |init| {
          assert init[i] == results[i];
        }
      }
    }
  }

  /** There are never more distinct URLs than results. */
  lemma {:induction false} ArtworkSetBound(results: seq<ItunesResult>)
    ensures |ArtworkSet(results)| <= |results|
    decreases |results|
  {
    if results != [] {
      ArtworkSetBound(results[..|results| - 1]);
    }
  }

  /** The dedup loop: every result's `artworkUrl100` added to a hash set. */
  method Deduplicate(results: seq<ItunesResult>) returns (urls: set<string>)
    ensures urls == ArtworkSet(results)
    ensures |urls| <= |results|
  {
    urls := {};
    for i := 0 to |results|
      invariant urls == ArtworkSet(results[..i])
    {
      assert results[..i + 1][..i] == results[..i];
      urls := urls + {results[i].artworkUrl100};
    }
    assert results[..|results|] == results;
    ArtworkSetBound(results);
  }

  // ------------------------------------------------------- threshold

  /** The message of the exception thrown when too few distinct URLs came back. */
  function InsufficientMessage(count: nat): (msg: string)
    ensures |msg| > |INSUFFICIENT_SUFFIX| && msg[|msg| - |INSUFFICIENT_SUFFIX|..] == INSUFFICIENT_SUFFIX
    ensures var digits := msg[..|msg| - |INSUFFICIENT_SUFFIX|];
      Text.AllDigits(digits) && Text.ParseDecimal(digits) == count
    ensures var digits := msg[..|msg| - |INSUFFICIENT_SUFFIX|];
      digits[0] == '0' ==> |digits| == 1
  {
    var digits := Text.Decimal(count);
    Text.DecimalRoundTrip(count);
    var msg := digits + INSUFFICIENT_SUFFIX;
    assert msg[..|msg| - |INSUFFICIENT_SUFFIX|] == digits;
    msg
  }

  const INSUFFICIENT_SUFFIX := " distinct results found, but 21 or more are needed."

  /** The observed count can be read back from the message. */
  lemma InsufficientMessageInjective(m: nat, n: nat)
    requires InsufficientMessage(m) == InsufficientMessage(n)
    ensures m == n
  {
    var dm, dn := Text.Decimal(m), Text.Decimal(n);
    assert |dm| == |dn|;
    assert dm == InsufficientMessage(m)[..|dm|];
    assert dn == InsufficientMessage(n)[..|dn|];
    Text.DecimalInjective(m, n);
  }

  lemma InsufficientMessageExample()
    ensures InsufficientMessage(15) == "15" + INSUFFICIENT_SUFFIX
  {
    assert Text.Decimal(15) == "15";
  }

  /**
   * The outcome of one search: the distinct URL set when the status is 200
   * and at least 21 distinct URLs came back, otherwise the error raised.
   */
  function SearchOutcome(response: Response): (r: Result<set<string>, SearchError>)
    ensures r.Ok? <==>
      response.Received? && response.statusCode == 200 && |ArtworkSet(response.results)| >= MIN_RESULTS
    ensures r.Ok? ==> r.value == ArtworkSet(response.results)
    ensures r.Err? && r.error.InsufficientResults? ==> r.error.count < MIN_RESULTS
    ensures response.SendFailed? ==> r == Err(ClientError(response.exception))
    ensures response.Received? && response.statusCode != 200 ==> r == Err(NetworkError(response.text))
  {
    match response
    case SendFailed(ex) => Err(ClientError(ex))
    case Received(status, text, results) =>
      if status != 200 then Err(NetworkError(text))
      else if |ArtworkSet(results)| <= 20 then Err(InsufficientResults(|ArtworkSet(results)|))
      else Ok(ArtworkSet(results))
  }

  /**
   * A successful outcome has between 21 distinct URLs and as many as there
   * were results; a failed threshold reports the exact count, at most 20.
   */
  lemma SearchOutcomeBounds(response: Response)
    ensures SearchOutcome(response).Ok? ==>
      response.Received? && MIN_RESULTS <= |SearchOutcome(response).value| <= |response.results|
    ensures response.Received? ==>
      (SearchOutcome(response) == Err(InsufficientResults(|ArtworkSet(response.results)|)) <==>
       response.statusCode == 200 && |ArtworkSet(response.results)| < MIN_RESULTS)
  {
    if response.Received? {
      ArtworkSetBound(response.results);
    }
  }

  // ------------------------------------------------------- buffer build

  /**
   * The build loop: one image handle per distinct URL, each enqueued once, in
   * the set's iteration order (any order), with the progress counter `load`
   * reported after each one.
   */
  method BuildQueue(urls: set<string>) returns (images: seq<string>, loads: seq<nat>)
    ensures |images| == |urls| && NoDuplicates(images)
    ensures forall u :: u in images <==> u in urls
    ensures |loads| == |urls|
    ensures forall i :: 0 <= i < |loads| ==> loads[i] == i + 1
  {
    images, loads := [], [];
    var remaining := urls;
    var load := 0;
    while remaining != {}
      invariant remaining <= urls
      invariant |images| + |remaining| == |urls|
      invariant NoDuplicates(images)
      invariant forall u :: u in urls <==> u in images || u in remaining
      invariant forall u :: u in images ==> u !in remaining
      invariant load == |images| == |loads|
      invariant forall i :: 0 <= i < |loads| ==> loads[i] == i + 1
      decreases |remaining|
    {
      var url :| url in remaining;
      images := images + [url];
      load := load + 1;
      loads := loads + [load];
      remaining := remaining - {url};
    }
  }

  // ------------------------------------------------------- alert

  /** The text of the exception that aborted the search, as its toString() reads. */
  function ExceptionText(e: SearchError): (text: string)
    ensures e.NetworkError? ==> "java.io.IOException: " <= text
    ensures e.NetworkError? ==> text[|"java.io.IOException: "|..] == e.response
    ensures e.ClientError? ==> text == e.exception
    ensures e.InsufficientResults? ==> "java.lang.IllegalArgumentException: " <= text
    ensures e.InsufficientResults? ==> InsufficientMessage(e.count) == text[|"java.lang.IllegalArgumentException: "|..]
  {
    match e
    case NetworkError(response) => "java.io.IOException: " + response
    case ClientError(exception) => exception
    case InsufficientResults(count) => "java.lang.IllegalArgumentException: " + InsufficientMessage(count)
  }

  /** The alert body: the URI, a blank line, and the exception. */
  function AlertBody(uri: string, e: SearchError): (body: string)
    ensures |body| == |"URI: "| + |uri| + |"\n\nException: "| + |ExceptionText(e)|
    ensures "URI: " <= body && body[|"URI: "|..|"URI: "| + |uri|] == uri
    ensures body[|"URI: "| + |uri|..|body| - |ExceptionText(e)|] == "\n\nException: "
    ensures body[|body| - |ExceptionText(e)|..] == ExceptionText(e)
  {
    var body := "URI: " + uri + "\n\nException: " + ExceptionText(e);
    ConcatParts("URI: ", uri, "\n\nException: ", ExceptionText(e));
    body
  }

  /** In `a + b + c + d`, `b` sits right after `a` and `d` is the tail. */
  lemma ConcatParts(a: string, b: string, c: string, d: string)
    ensures var s := a + b + c + d;
      |s| == |a| + |b| + |c| + |d| && a <= s && s[|a|..|a| + |b|] == b &&
      s[|a| + |b|..|s| - |d|] == c && s[|s| - |d|..] == d
  {
    var s := a + b + c + d;
    assert s[|a|..|a| + |b|] == b;
    assert s[|a| + |b|..|s| - |d|] == c;
    assert s[|s| - |d|..] == d;
  }
}
