# fugotcha, modelled in Dafny

fugotcha is a command-line scraper for the Fugazi Live Series catalog on
dischord.com. Given a page slug and a page count, it opens
`https://www.dischord.com/fugazi_live_series/<slug>`. For each page it reads
the track names and the release id, then follows the page's "next" link. It
stops when the count is reached or a page has no such link. A count of 0
means "no limit".

This project models the logic of `index.js` in four modules:

- `Text` (text.dfy): the two JavaScript string built-ins the program relies
  on. One is `String.prototype.trim`, with the ECMAScript WhiteSpace and
  LineTerminator code points. The other is `String.prototype.replace` with a
  string pattern, which removes the first occurrence only.
- `Validation` (validation.dfy): `validatePage` and `validateCount`. Their
  `process.exit(1)` becomes the `Err` alternative of a `Result`: an `Err`
  stands for the process ending with status 1, and an `Ok` for the validator
  returning its value to the callback.
- `Extraction` (extraction.dfy): the text clean-up inside
  `extractReleaseId` and `extractTracks`.
- `Scrape` (scrape.dfy): the do-while loop of the `.action` callback, as a
  method with a `while` loop, and the callback as a whole.

The browser is an oracle, `site: seq<Page>`. Each `Page` holds:

- the raw texts of its `.track_name` elements;
- the raw text of its `.releaseNumber`;
- whether it has a `#nextButton a` link.

The pages are listed in the order the "next" links lead through them.
`Reachable(site)` is the number of pages up to and including the first one
without a "next" link.

## Model

| member | source | states |
|---|---|---|
| `Text.Trim` | index.js:89 | The result has no leading or trailing whitespace and is no longer than the input. An already trimmed string is returned unchanged. |
| `Text.TrimRemovesOnlyWhitespace` | index.js:89 | `trim` keeps a contiguous infix of its input, and everything it drops on either side is whitespace. |
| `Text.TrimEmpty` | index.js:89 | `trim` yields the empty string exactly when the input is all whitespace. |
| `Text.TrimIsUnique` | index.js:89 | Split the input into whitespace, a trimmed middle and whitespace, in any way: `trim` returns that middle. |
| `Text.TrimAfterWhitespace` | index.js:68 | Whitespace followed by a trimmed string trims to that string. |
| `Text.TrimIdempotent` | index.js:89 | Trimming twice is trimming once. |
| `Text.FirstOccurrence` | index.js:108 | The index that `replace` acts on: the pattern occurs there, and nowhere before it. `None` means it occurs nowhere. |
| `Text.RemoveFirst` | index.js:108 | Replacing with `''` returns the input unchanged when the pattern is absent. Otherwise the result is exactly one pattern length shorter. |
| `Text.RemoveFirstInverse` | index.js:108 | Reinserting the pattern at its first occurrence restores the input, so only that one occurrence was removed. |
| `Text.RemoveFirstOfPrefix` | index.js:108 | A pattern at the start of the input is the occurrence removed, and the rest is kept. |
| `Validation.ValidatePage` | index.js:101-109 | An undefined slug is the `Page is a required parameter.` error, and every defined slug is accepted. Without `fugazi_live_series/`, the slug comes back unchanged. With it, the slug comes back exactly 19 characters shorter. |
| `Validation.ValidatePageStripsLeadingSegment` | index.js:107-108 | A slug given with the `fugazi_live_series/` path in front is reduced to the bare slug. |
| `Validation.ValidatePageReinsert` | index.js:108 | Reinserting `fugazi_live_series/` at its first occurrence in the result restores the input. |
| `Validation.ValidateCount` | index.js:117-124 | It accepts exactly the non-negative integers, and an accepted count equals the input. NaN, the infinities, negative numbers and fractions give the `Count must be a non-negative integer.` error. |
| `Validation.ValidateCountAcceptsEveryLimit` | index.js:119-120 | Every natural number is accepted as itself. |
| `Validation.ValidateCountRejectsFraction` | index.js:119-123 | Every number with a fractional part is refused, whatever its integer part. |
| `Extraction.CleanReleaseId` | index.js:68 | The release id has no leading or trailing whitespace and is no longer than the raw text. Without the `Fugazi Live Series` label, it is the trimmed raw text. |
| `Extraction.CleanReleaseIdOfLabelledText` | index.js:68 | For text made of the label, whitespace and then an id, the result is exactly that id. |
| `Extraction.TrackNames` | index.js:87-91 | There is one name per matched element, in the same order, and each name is the trimmed text of its element. |
| `Extraction.TrackNamesAreTrimmed` | index.js:88-90 | No track name has leading or trailing whitespace. |
| `Extraction.TrackNamesAppend` | index.js:88-90 | The mapping works element by element: the names of two consecutive runs of elements are the two runs' names, concatenated. |
| `Extraction.TrackNamesIdempotent` | index.js:88-90 | Extracting names from names that are already clean changes nothing. |
| `Scrape.Reachable` | index.js:37-46 | The reachable part of the catalog has at least one page. It ends at the first page without a "next" link, and every page before that has one. |
| `Scrape.ScrapePage` | index.js:30-31 | One pass extracts one track name per `.track_name` element and a trimmed release id. |
| `Scrape.PagesProcessedIsFirstStop` | index.js:35-46 | The number of pages processed is the first page after which the loop's stop rule fires. The rule: the limit is reached, or the page has no "next" link. |
| `Scrape.StopIsPagesProcessed` | index.js:35-46 | If the loop stops after page `n`, having gone on after every earlier page, then `n` is the number of pages processed and at most the reachable count. The run reaches the end of the catalog exactly when the limit is 0 or exceeds the reachable count. |
| `Scrape.ZeroLimitIsUnbounded` | index.js:35 | The closed form `PagesProcessed` gives limit 0 the same count as any limit above the reachable count: all reachable pages. That the loop itself treats 0 as unbounded is the `ScrapePages` contract together with `PagesProcessedIsFirstStop`. |
| `Scrape.Advance` | index.js:35-46 | Each pass increments `i` by exactly 1. A click is attempted only when `++i < pageLimit` holds or `pageLimit === 0`. After the pass, either the loop goes on from the next page, or it has stopped after exactly the number of pages processed. |
| `Scrape.ScrapePages` | index.js:27-47 | The loop terminates after processing at least one page and at most the limit (when the limit is not 0). The count processed is the limit or the reachable count, whichever is smaller (just the reachable count for limit 0). Page `k` of the output is what was extracted from the `k`-th page. The run reports the missing "next" link exactly when the limit is 0 or exceeds the reachable count. |
| `Scrape.Action` | index.js:19-47 | An undefined slug and an invalid count are refused before any page is visited. Otherwise the start URL is the base URL plus the cleaned slug, and the run processes `PagesProcessed` pages. Each page's result is its `ScrapePage` extraction, in catalog order. |

## Left out

- Puppeteer (`launch`, `newPage`, `goto`, `waitForSelector`, `$eval`, `$$eval`, `click`, `close`): these are foreign browser automation, replaced by the `site` oracle. The model assumes four things:
  - the start page loads, and the catalog ends. `WellFormed` asks for both: `site` has a first page, and its last listed page has no "next" link.
  - a page has no "next" link exactly when `$eval('#nextButton a', ...)` throws;
  - the page read after a click is the next page of the catalog. The source does not wait for the navigation a click starts, so the model does not capture that timing.
  - every page visited has `.mp3_list`, `#productInfo` and `.releaseNumber`. If one is missing, `waitForSelector` times out (index.js:66, 86) or `$eval` throws (index.js:67). The rejected promise then ends the run after fewer pages than `PagesProcessed`, and `browser.close()` (index.js:49) is skipped. This failure path is not modelled.
- Non-termination of the source: with `-c 0` on a catalog whose "next" links never end (a cycle of pages, say), the do-while of index.js:29-47 runs forever, because only a missing link stops it. `WellFormed` excludes such catalogs, and the loop's termination proof rests on that. A positive count loses nothing: the run only reads the first `count` pages, so the catalog can be cut after them and given an end page.
- JavaScript strings are sequences of UTF-16 code units, while a Dafny `string` holds Unicode scalar values. Every whitespace code point and both patterns lie in the Basic Multilingual Plane and are ASCII, so no result changes. But a lone surrogate, which `innerText` can return, has no counterpart in the model.
- Scrape.ScrapePages: takes the per-page extraction as a parameter. It is stated of any such function, and `Action` passes `ScrapePage`. This keeps the loop's proof independent of the string functions.
- Commander wiring and the `--help` text: argument parsing. The default count of 1 that commander supplies is not modelled; a caller passes `Finite(1.0)` for it.
- `console.log` and `console.error` output, including `tracks.join(',')`: this is I/O, and the model does not claim the joined line can be split back.
- `Number(value)` coercion in `validateCount`: floating-point parsing is not modelled. `ValidateCount` takes the already coerced value as a `JsNumber`: NaN, ±Infinity or a finite value. Finite values are exact reals, without the rounding of IEEE doubles.
- `process.exit` and the asynchronous Promise structure are modelled as sequential calls that return a `Result`.
- `innerText` (layout-dependent text extraction) is not modelled. The raw text of each element is an input.
- Validation.ValidatePage: does not reduce a full URL to its last path segment. The code comment says "just get the last bit", but the code removes only the first `fugazi_live_series/`, and the model follows the code.
- Quoted CSV output, header rows and optional fields do not appear in `index.js`, so they are not modelled.
