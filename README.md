# Share-link profile-id extractor, modelled in Dafny

The repository is a small Next.js site with two tools. One is an OTP generator
that calls an external library. The other is an API route,
`pages/api/extract.js`, that resolves a share link to a numeric profile id.
The API route holds the only logic the repository owns. It does four things:

1. It rejects a request whose `url` query parameter is absent or empty (400).
2. It fetches the page once.
3. It scans the body with `/content="fb:\/\/profile\/(\d+)"/` and answers
   200 with `{ id }` for the first match, or 404 when nothing matches.
4. It answers 500 when the fetch or the scan throws.

This project models that route as pure functions and proves what it answers.

- `wrappers.dfy` holds `Option`.
- `profile_match.dfy` holds the body scan.
  - Module `ProfileMatch` defines the semantics of the regular expression
    under `String.prototype.match` without the `g` flag.
    - `CaptureAt` says the pattern matches at index `i` with capture `id`.
    - `MatchesAt` says some capture exists at `i`.
    - `IsLeftmostCapture` says it is the first such index.
  - `FindProfileId` scans the start indices in ascending order and is proved
    equal to that semantics.
  - Module `ProfileMatchExamples` works through small example pages.
- `extract_handler.dfy` holds the status decision (module `ExtractHandler`).
  - The query parameter is an `Option<string>`.
  - The GET request is a function parameter `fetch: string -> FetchResult`.
    This lets the model state that no fetch happens when the URL is missing.
  - `response.data` is either a string or some other value.

Because `\d` never matches `"`, the digit run at a given start index must be
maximal and must end at the quote. So each start index matches in at most one
way, and the result of the scan is fully determined. `CaptureIsWholeRun`,
`CaptureUnique` and `LeftmostCaptureIsFound` prove this.

The OTP half of the site is the single call `authenticator.generate(key)`
(pages/index.js:25) into the external `otplib` package. That package is not
part of this model (see "Left out").

## Model

| member | source | states |
|---|---|---|
| ProfileMatch.CaptureAt | pages/api/extract.js:32 | the reference definition of one match: at index `i` the body holds the literal `content="fb://profile/`, then the capture `id` of one or more ASCII digits, then `"` |
| ProfileMatch.MatchesAt | pages/api/extract.js:32 | the regular expression matches at index `i`: some capture `id` satisfies `CaptureAt` there |
| ProfileMatch.IsLeftmostCapture | pages/api/extract.js:32 | what a match without the `g` flag reports: `id` is the capture at `i` and no earlier index matches |
| ProfileMatch.DigitRunLen | pages/api/extract.js:32 | the length of the `\d` run at a position: every counted character is an ASCII digit, and the run stops at the end of the body or at a non-digit |
| ProfileMatch.DigitRunLenIsExact | pages/api/extract.js:32 | a run of k digits that is not followed by a digit has length exactly k |
| ProfileMatch.CaptureIsWholeRun | pages/api/extract.js:32 | a capture of `(\d+)` followed by `"` is the whole digit run after the prefix, never a proper prefix of it |
| ProfileMatch.CaptureUnique | pages/api/extract.js:32 | a start index matches in at most one way: two captures at the same index are equal |
| ProfileMatch.MatchAt | pages/api/extract.js:32 | trying the pattern at one index yields a value exactly when the regular expression matches there, and the value is that match's capture |
| ProfileMatch.FindFrom | pages/api/extract.js:32 | scanning from index i returns the first index at or after i where the pattern matches, with its capture, or reports that no index at or after i matches |
| ProfileMatch.FindProfileId | pages/api/extract.js:32-33 | `match` is null exactly when no index of the body matches; otherwise `match[1]` is the capture at the leftmost matching index, is non-empty and holds ASCII digits only |
| ProfileMatch.LeftmostCaptureUnique | pages/api/extract.js:32 | the leftmost match is unique in both its start index and its capture |
| ProfileMatch.LeftmostCaptureIsFound | pages/api/extract.js:32-34 | the converse of `FindProfileId`'s contract: whenever `id` is the capture of the leftmost match, the scan returns exactly `id`, so scan and regular-expression semantics agree in both directions |
| ProfileMatchExamples.FindsIdInMetaTag | pages/api/extract.js:32 | an app-link meta tag `content="fb://profile/100042"` yields `100042` |
| ProfileMatchExamples.RejectsMalformedIds | pages/api/extract.js:32 | an empty digit run, or digits followed by a non-quote, give no match |
| ProfileMatchExamples.ReportsFirstOfTwo | pages/api/extract.js:32-34 | with two ids on the page, the first one is reported |
| ExtractHandler.UrlMissing | pages/api/extract.js:4-6 | JavaScript's `!url` on the query parameter: true exactly when it is absent (`undefined`) or the empty string |
| ExtractHandler.Readable | pages/api/extract.js:8-39 | the fetched page can be scanned: the request succeeded and `response.data` is a string; otherwise `axios.get` rejects or `.match` throws and the catch answers 500 |
| ExtractHandler.Respond | pages/api/extract.js:32-39 | once a request was made: 500 exactly when it failed or its data is not a string; otherwise 200 with the leftmost id when some index matches, and 404 with "Profile ID not found" exactly when none does |
| ExtractHandler.Handle | pages/api/extract.js:4-39 | exactly one of 400, 200, 404 and 500 is produced; 400 with "URL is required" exactly when `url` is absent or empty; 500 with "Failed to fetch URL", 404 with "Profile ID not found" and 200 under the conditions of `Respond` applied to the fetch of `url`; a 200 payload is a non-empty all-digit id that is the leftmost capture |
| ExtractHandler.MissingUrlFetchesNothing | pages/api/extract.js:6-9 | with a missing or empty `url`, the response is 400 whatever the fetch would return, so no fetch is consulted |
| ExtractHandler.ResponseDependsOnFetchOfUrl | pages/api/extract.js:8-9 | with a non-empty `url`, the response depends only on the result of fetching that exact URL |

## Left out

- The HTTP I/O is not modelled: the `axios.get` call, the `req` and `res`
  objects and JSON serialisation. The fetch is an input function whose result
  is a response or a failure. A failure covers a network error, an invalid
  URL, a non-2xx status and a timeout, which all make `axios.get` reject. The
  reply is a returned `Response` value holding a status and a payload.
- The browser-impersonation request headers (pages/api/extract.js:10-29) are
  a constant table. Nothing in the handler branches on them.
- Throws other than a failed fetch or a non-string body are not modelled.
  An example is a failing `res.status().json()` inside the `try`.
- A non-string `response.data` is a single `NonText` case. The model does not
  distinguish a parsed object, `null` or `undefined`: `.match` throws on each
  of them, and each gives 500. An object that defines its own `match` method
  is not modelled.
- A `url` parameter repeated in the query, which Next.js delivers as an
  array, is not modelled. The model takes the parameter as absent or as one
  string.
- The model reads the body as a sequence of characters, not of UTF-16 code
  units. The pattern is pure ASCII, so the captured id is the same either
  way. Only the indices inside bodies with non-BMP characters would differ.
- The OTP generation (pages/index.js:2, 23-30) is not modelled. It only
  calls the external `otplib` package, and no code in the repository
  implements base32 decoding (section 6 of RFC 4648), the time counter
  (section 4 of RFC 6238) or HMAC with dynamic truncation (section 5.3 of
  RFC 4226). The `'Invalid key'` fallback is part of that UI code.
- The React page (pages/index.js:5-78) is not modelled. That covers its
  component state and its client-side call to the API route, which are
  presentation and network plumbing.
