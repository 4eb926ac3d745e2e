/** The API route that resolves a share link to a profile id: it rejects a
    request without a `url`, fetches the page once, scans the body and
    answers with one status and one JSON payload. */
module ExtractHandler {
  import opened Wrappers
  import opened ProfileMatch

  /** What the HTTP client hands back as `response.data`: the page text, or
      a value that is not a string (a parsed JSON object, `null`, ...), on
      which `.match` is not a function and throws. */
  datatype Data = Text(text: string) | NonText

  /** The outcome of the single GET request: a response, or a rejection
      (network error, invalid URL, non-2xx status, timeout). */
  datatype FetchResult = Fetched(data: Data) | FetchFailed

  /** The JSON object sent back: `{ id }` or `{ error }`. */
  datatype Payload = IdPayload(id: string) | ErrorPayload(error: string)

  datatype Response = Response(status: nat, payload: Payload)

  const UrlRequired: string := "URL is required"
  const ProfileIdNotFound: string := "Profile ID not found"
  const FailedToFetch: string := "Failed to fetch URL"

  /** JavaScript's `!url` for a query parameter that is absent (`undefined`)
      or a string: true for `undefined` and for the empty string. */
  predicate UrlMissing(url: Option<string>) {
    url.None? || url.value == ""
  }

  /** The fetched page could be scanned: the request succeeded and its data
      is a string. */
  predicate Readable(f: FetchResult) {
    f.Fetched? && f.data.Text?
  }

  /** The status-and-payload decision for a response once the request was made. */
  function Respond(f: FetchResult): (r: Response)
    ensures r.status == 500 <==> !Readable(f)
    ensures r.status == 404 <==> Readable(f) && forall i: nat :: !MatchesAt(f.data.text, i)
    ensures r.status == 200 <==> Readable(f) && exists i: nat :: MatchesAt(f.data.text, i)
    ensures r.status == 200 ==> r.payload.IdPayload?
                                && |r.payload.id| >= 1 && AllDigits(r.payload.id)
                                && exists i: nat :: IsLeftmostCapture(f.data.text, i, r.payload.id)
    ensures r.status == 404 ==> r.payload == ErrorPayload(ProfileIdNotFound)
    ensures r.status == 500 ==> r.payload == ErrorPayload(FailedToFetch)
  {
    match f
    case FetchFailed => Response(500, ErrorPayload(FailedToFetch))
    case Fetched(NonText) => Response(500, ErrorPayload(FailedToFetch))
    case Fetched(Text(body)) =>
      match FindProfileId(body)
      case Some(id) => Response(200, IdPayload(id))
      case None => Response(404, ErrorPayload(ProfileIdNotFound))
  }

  /** The handler: `url` is the query parameter, `fetch` performs the GET
      request on a URL and reports its outcome. */
  function Handle(url: Option<string>, fetch: string -> FetchResult): (r: Response)
    ensures r.status in {400, 200, 404, 500}
    ensures r.status == 400 <==> UrlMissing(url)
    ensures r.status == 400 ==> r.payload == ErrorPayload(UrlRequired)
    ensures r.status == 500 <==> !UrlMissing(url) && !Readable(fetch(url.value))
    ensures r.status == 404 <==> !UrlMissing(url) && Readable(fetch(url.value))
                                 && forall i: nat :: !MatchesAt(fetch(url.value).data.text, i)
    ensures r.status == 200 <==> !UrlMissing(url) && Readable(fetch(url.value))
                                 && exists i: nat :: MatchesAt(fetch(url.value).data.text, i)
    ensures r.status == 200 ==> r.payload.IdPayload? && |r.payload.id| >= 1 && AllDigits(r.payload.id)
    ensures r.status == 200 ==> exists i: nat :: IsLeftmostCapture(fetch(url.value).data.text, i, r.payload.id)
    ensures r.status == 404 ==> r.payload == ErrorPayload(ProfileIdNotFound)
    ensures r.status == 500 ==> r.payload == ErrorPayload(FailedToFetch)
  {
    if UrlMissing(url) then Response(400, ErrorPayload(UrlRequired))
    else Respond(fetch(url.value))
  }

  /** A request without a `url` is answered without fetching anything: the
      response does not depend on the fetch at all. */
  lemma MissingUrlFetchesNothing(url: Option<string>, fetch1: string -> FetchResult, fetch2: string -> FetchResult)
    requires UrlMissing(url)
    ensures Handle(url, fetch1) == Handle(url, fetch2) == Response(400, ErrorPayload(UrlRequired))
  {
  }

  /** Otherwise the response depends only on what fetching `url` returned,
      and the URL fetched is exactly the requested one. */
  lemma ResponseDependsOnFetchOfUrl(u: string, fetch1: string -> FetchResult, fetch2: string -> FetchResult)
    requires u != ""
    requires fetch1(u) == fetch2(u)
    ensures Handle(Some(u), fetch1) == Handle(Some(u), fetch2)
  {
  }
}
