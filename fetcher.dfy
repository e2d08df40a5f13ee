/**
 * Downloading the resolved image (`get_image_bytes`): inline payloads are decoded locally,
 * every other URL is normalised and fetched with one GET through the logged-in session.
 */
module Fetcher {
  import opened Base
  import opened Text

  /** `urljoin` and `b64decode`, two library calls whose internals are not modelled. */
  datatype Library = Library(
    join: (string, string) -> string,   // urljoin(base, reference)
    decode: string -> Option<Bytes>)    // b64decode(text); None where it raises

  /** The one request the session sends: the URL, and the `Referer` header it carries. */
  datatype Request = Get(url: string, referer: string)

  /** What the session's transport answers; `Unreachable` is a request that raised. */
  datatype HttpReply = Unreachable | Reply(ok: bool, status: int, body: Bytes)

  /** The exceptions `get_image_bytes` can raise. */
  datatype FetchError =
    | MissingComma                        // `split(",", 1)[1]` on an inline value without a comma
    | BadBase64                           // `b64decode` rejected the payload
    | HttpStatus(status: int, url: string) // the RuntimeError for a non-ok response
    | TransportFailure(url: string)       // the request itself raised

  datatype Fetched = NoSource | Data(bytes: Bytes) | Failed(error: FetchError)

  /** The result of one call, and the requests it sent, in order. */
  datatype Fetch = Fetch(result: Fetched, requests: seq<Request>)

  const INLINE_PREFIX := "data:image/"
  const PROTOCOL_RELATIVE := "//"
  const HTTP := "http"
  const DEFAULT_SCHEME := "https:"

  /** A value that `get_image_bytes` decodes instead of requesting. */
  predicate IsInline(url: string) {
    StartsWith(url, INLINE_PREFIX)
  }

  /**
   * The rewriting before the request: a protocol-relative reference gets `https:`, and
   * whatever then does not start with `http` is joined against the page's URL.
   */
  function Normalize(url: string, pageUrl: string, lib: Library): (r: string)
    ensures StartsWith(url, PROTOCOL_RELATIVE) ==> r == DEFAULT_SCHEME + url && StartsWith(r, HTTP)
    ensures !StartsWith(url, PROTOCOL_RELATIVE) && StartsWith(url, HTTP) ==> r == url
    ensures !StartsWith(url, PROTOCOL_RELATIVE) && !StartsWith(url, HTTP) ==> r == lib.join(pageUrl, url)
  {
    var withScheme := if StartsWith(url, PROTOCOL_RELATIVE) then DEFAULT_SCHEME + url else url;
    assert StartsWith(url, PROTOCOL_RELATIVE) ==> withScheme[..|HTTP|] == HTTP;
    if StartsWith(withScheme, HTTP) then withScheme else lib.join(pageUrl, withScheme)
  }

  /** `get_image_bytes(context, page, raw_url)`, with `server` answering the session's GET. */
  function GetImageBytes(raw: Option<string>, pageUrl: string, lib: Library, server: Request -> HttpReply): Fetch
  {
    if raw.None? || raw.value == "" then Fetch(NoSource, [])
    else if IsInline(raw.value) then
      match AfterFirstComma(raw.value)
      case None => Fetch(Failed(MissingComma), [])
      case Some(payload) =>
        match lib.decode(payload)
        case None => Fetch(Failed(BadBase64), [])
        case Some(b) => Fetch(Data(b), [])
    else
      var url := Normalize(raw.value, pageUrl, lib);
      var request := Get(url, pageUrl);
      var result :=
        match server(request)
        case Unreachable => Failed(TransportFailure(url))
        case Reply(ok, status, body) => if ok then Data(body) else Failed(HttpStatus(status, url));
      Fetch(result, [request])
  }

  /**
   * What `get_image_bytes` returns and which requests it sends, case by case: nothing for an
   * empty value, a local decode for an inline `data:image/` value, and otherwise one GET,
   * whose answer decides the result.
   */
  lemma GetImageBytesCases(raw: Option<string>, pageUrl: string, lib: Library, server: Request -> HttpReply)
    ensures var f := GetImageBytes(raw, pageUrl, lib, server);
      // nothing to fetch: None, and no request
      && (f.result.NoSource? <==> raw.None? || raw.value == "")
      // inline payloads never reach the network
      && (f.requests == [] <==> raw.None? || raw.value == "" || IsInline(raw.value))
      && (raw.Some? && IsInline(raw.value) ==>
            (f.result == Failed(MissingComma) <==> ',' !in raw.value))
      && (raw.Some? && IsInline(raw.value) && ',' in raw.value ==>
            exists i :: 0 <= i < |raw.value| && raw.value[i] == ',' && ',' !in raw.value[..i] &&
              f.result == match lib.decode(raw.value[i + 1..])
                          case None => Failed(BadBase64)
                          case Some(b) => Data(b))
      // otherwise exactly one GET, for the normalised URL, with the page as Referer
      && (f.requests != [] ==> f.requests == [Get(Normalize(raw.value, pageUrl, lib), pageUrl)])
      && (f.requests != [] ==>
            match server(f.requests[0])
            case Unreachable => f.result == Failed(TransportFailure(f.requests[0].url))
            case Reply(ok, status, body) =>
              f.result == if ok then Data(body) else Failed(HttpStatus(status, f.requests[0].url)))
  {
  }

  /** After normalisation the URL starts with `http`, or it is what `urljoin` returned. */
  lemma NormalizedShape(url: string, pageUrl: string, lib: Library)
    ensures var r := Normalize(url, pageUrl, lib);
      StartsWith(r, HTTP) || r == lib.join(pageUrl, url)
  {
  }

  /**
   * Normalising twice changes nothing, unless the join produced a relative reference again
   * (the join is a library call about which nothing is assumed).
   */
  lemma NormalizeIdempotent(url: string, pageUrl: string, lib: Library)
    requires StartsWith(Normalize(url, pageUrl, lib), HTTP)
    ensures Normalize(Normalize(url, pageUrl, lib), pageUrl, lib) == Normalize(url, pageUrl, lib)
  {
    var r := Normalize(url, pageUrl, lib);
    assert r[0] == r[..|HTTP|][0] == 'h';
    assert !StartsWith(r, PROTOCOL_RELATIVE);
  }

  /** `//` and `http` URLs never reach `urljoin`: two libraries that differ only there agree. */
  lemma AbsoluteNeedsNoJoin(url: string, pageUrl: string, lib: Library, other: Library)
    requires StartsWith(url, PROTOCOL_RELATIVE) || StartsWith(url, HTTP)
    ensures Normalize(url, pageUrl, lib) == Normalize(url, pageUrl, other)
  {
  }

  /** A protocol-relative reference: `//cdn.example/x.jpg` is fetched as `https://cdn.example/x.jpg`. */
  lemma ProtocolRelativeExample(pageUrl: string, lib: Library)
    ensures Normalize("//cdn.example/x.jpg", pageUrl, lib) == "https://cdn.example/x.jpg"
  {
    assert StartsWith("//cdn.example/x.jpg", PROTOCOL_RELATIVE);
  }

  /** An ok reply's body is returned unchanged, whatever its status code and the URL shape. */
  lemma OkBodyUnchanged(raw: string, pageUrl: string, lib: Library, server: Request -> HttpReply, status: int, body: Bytes)
    requires raw != "" && !IsInline(raw)
    requires server(Get(Normalize(raw, pageUrl, lib), pageUrl)) == Reply(true, status, body)
    ensures GetImageBytes(Some(raw), pageUrl, lib, server).result == Data(body)
  {
  }
}
