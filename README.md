# mocword-download: selector validation, URL templates and link extraction

A Dafny model of the text logic in `mocword-download/main.go`. This is the part
of the Google Books n-gram downloader that can be written down precisely:

- **Selector validation.** The `-language` and `-ngram` flags are comma-separated
  lists of tokens. Each token must come from a fixed whitelist: `validLanguages`
  or `validNgrams`. `findInvalidFlagElement` returns the first token outside the
  whitelist, or `""` when there is none. `verifyFlagLanguage`, `verifyFlagNgram`
  and `verifyFlags` turn that answer into an error.
- **URL templates.** `downloadIndexURL` gives the index page of one
  (language, ngram) selector. `totalCountsURL` gives its total-counts file. Both
  sit under a fixed host and corpus version (`20200217`).
- **Link extraction.** `dataURLList` walks the `li` elements of a parsed index
  page. It collects each item's first-anchor `href` and records an error for
  every item that has none.

Files and modules:

- `wrappers.dfy` (`Wrappers`): `Option`, which stands for Go's nil-or-value results.
- `go_strings.dfy` (`GoStrings`): `strings.Split` and `strings.Join` for a
  one-character separator, with their round-trip laws.
- `flags.dfy` (`Flags`): the whitelists, the default flag values, the
  `findInvalidFlagElement` loop as a method proved against the function
  `FirstInvalid`, and the three verify functions. It ends with strict variants
  that fix the empty-token defect described under Findings.
- `urls.dfy` (`Urls`): the two templates, with lemmas about their shared prefix
  and directory and about their injectivity.
- `links.dfy` (`Links`): the abstract page (list items holding anchors), the
  `dataURLList` loop as a method proved against `Hrefs` and `LastMissing`, and
  lemmas about those two functions.

An item without an `href` does not stop extraction: every URL found is
returned, together with the error of the last offending item
(`Links.OffenderDoesNotStopExtraction`).

Errors are datatypes rather than formatted strings. Each constructor carries
the value that the Go format string inserts. `%w` wrapping becomes a nested
constructor (`InvalidFlag(cause)`).

## Model

| member | source | states |
|---|---|---|
| GoStrings.SplitLength | mocword-download/main.go:101 | splitting on a comma gives one more piece than there are commas; empty pieces are kept, and `""` gives one piece |
| GoStrings.SplitPiecesFreeOfSep | mocword-download/main.go:101 | no piece contains the separator |
| GoStrings.JoinSplit | mocword-download/main.go:101 | joining the pieces with the separator rebuilds the original string |
| GoStrings.SplitJoin | mocword-download/main.go:37-45 | splitting the join of a non-empty, comma-free list returns that list, as when the default flags are validated |
| Flags.FindInvalidFlagElement | mocword-download/main.go:100-115 | the nested scan with its `found` flag and early return answers the first split piece outside the whitelist, or `""` |
| Flags.FirstInvalidAllValid | mocword-download/main.go:103-114 | if every piece is whitelisted, the answer is `""` |
| Flags.FirstInvalidLeftmost | mocword-download/main.go:103-111 | otherwise the answer is exactly the leftmost piece outside the whitelist; all earlier pieces are valid |
| Flags.FirstInvalidIsInvalidToken | mocword-download/main.go:101-114 | the answer is always `""` or a piece of the flag that is not whitelisted |
| Flags.FirstInvalidEmptyIff | mocword-download/main.go:101-111 | the answer is `""` exactly when all pieces are valid or the leftmost invalid piece is empty |
| Flags.VerifyFlagLanguageAcceptsValid | mocword-download/main.go:86-91 | a language flag whose pieces are all whitelisted gives no error |
| Flags.VerifyFlagLanguageNamesLeftmost | mocword-download/main.go:86-91 | a language flag whose leftmost invalid piece is non-empty is rejected with that piece named |
| Flags.VerifyFlagNgramAcceptsValid | mocword-download/main.go:93-98 | an ngram flag whose pieces are all whitelisted gives no error |
| Flags.VerifyFlagNgramNamesLeftmost | mocword-download/main.go:93-98 | an ngram flag whose leftmost invalid piece is non-empty is rejected with that piece named |
| Flags.VerifyFlagErrorsNameInvalidTokens | mocword-download/main.go:86-98 | any error either check reports names a non-empty, non-whitelisted piece of its flag |
| Flags.VerifyFlagsFailsIffEitherFails | mocword-download/main.go:74-84 | `verifyFlags` fails exactly when the language check or the ngram check fails; a failing language check is the error reported, wrapped once |
| Flags.VerifyFlagsAcceptsValid | mocword-download/main.go:74-84 | whitelisted pieces on both flags pass `verifyFlags` |
| Flags.DefaultFlagsPass | mocword-download/main.go:21-45 | the default flag values (each whitelist joined with commas) pass `verifyFlags` |
| Flags.EmptyFlagAccepted | mocword-download/main.go:86-97 | `""` is in neither whitelist, yet an empty flag passes both checks and `verifyFlags` |
| Flags.EmptyTokenHidesLaterInvalid | mocword-download/main.go:87-110 | `"eng,,xyz"` splits into `eng`, `""`, `xyz` and passes the language check, although `xyz` is not a language |
| Flags.StrictFirstInvalidSpec | mocword-download/main.go:100-115 | the corrected search finds nothing exactly when all pieces are valid, and otherwise finds the leftmost invalid piece |
| Flags.StrictAgreesWithoutEmptyTokens | mocword-download/main.go:100-115 | when no piece is empty, the corrected search and the original report the same piece |
| Flags.StrictChecksAcceptExactlyValid | mocword-download/main.go:86-98 | the corrected checks accept a flag exactly when all its pieces are whitelisted |
| Flags.StrictRejectsEmptyToken | mocword-download/main.go:86-91 | the corrected language check rejects `"eng,,xyz"` and `""`, naming the empty piece |
| Urls.URLsInLangDir | mocword-download/main.go:117-123 | both URLs start with the fixed host/version prefix followed by `<lang>/`; the index file is `<lang>-<ngram>-ngrams_exports.html` and the counts file is `totalcounts-<ngram>` |
| Urls.IndexURLSuffix | mocword-download/main.go:121-123 | every index URL ends in `-ngrams_exports.html` |
| Urls.DownloadIndexURLInjective | mocword-download/main.go:121-123 | for languages without `/`, equal index URLs come from equal (language, ngram) pairs |
| Urls.TotalCountsURLInjective | mocword-download/main.go:117-119 | for languages without `/`, equal total-counts URLs come from equal (language, ngram) pairs |
| Urls.WhitelistedSelectorsHaveDistinctIndexURLs | mocword-download/main.go:21-35 | distinct whitelisted selectors have distinct index URLs |
| Links.DataURLList | mocword-download/main.go:148-167 | a parse failure returns no URLs and the wrapped parser error; otherwise the loop returns `Hrefs` of the items and the error `LastMissing` of the items |
| Links.HrefsAppend | mocword-download/main.go:156-164 | the URLs of a concatenation of items are the URLs of each part, in document order |
| Links.HrefsSingle | mocword-download/main.go:157-163 | one item contributes its first anchor's `href`, or nothing when that is absent |
| Links.HrefsComplete | mocword-download/main.go:156-164 | with an `href` on every item there are exactly as many URLs as items, the k-th being item k's |
| Links.HrefsMembers | mocword-download/main.go:156-164 | a URL is returned exactly when it is some item's first-anchor `href` |
| Links.LastMissingNoneIff | mocword-download/main.go:156-161 | the error is nil exactly when every item's first anchor has an `href` |
| Links.LastMissingNamesLastOffender | mocword-download/main.go:156-161 | a reported error carries the anchor text of the last item without an `href` |
| Links.OffenderDoesNotStopExtraction | mocword-download/main.go:156-164 | an item without an `href` is skipped and the items before and after it still contribute their URLs, whatever those items are; it is the error named when no later item offends |
| Links.TwoEntryListing | mocword-download/main.go:156-164 | a listing of `a.gz` and `b.gz` gives both URLs, in order, and no error |

## Left out

- `main`, `run` and `parseFlags` (mocword-download/main.go:47-72): flag-package wiring, printing and `log.Fatal`. `VerifyFlags` takes the two flag values as parameters in place of the globals.
- `getHTML` (mocword-download/main.go:125-146): an HTTP GET, a body read and a UTF-8 check. At line 136 the status-code error is overwritten by the read's error, so no status-code guarantee is claimed anywhere.
- HTML parsing: the page is given already parsed, as a `Document` of list items and their anchors. Which anchors belong to which `li` (nested lists included) is decided by the caller who builds it.
- `do` (mocword-download/main.go:169-207): filesystem, HTTP and gzip I/O, and the function is unfinished. It has no final return, and its existence check and rename do not implement an idempotent or atomic install. `path.Base` and `filepath.Join` are not part of this model.
- The downloader's concurrency and cancellation: the code has none beyond handing a context to an HTTP request.
- Flags.VerifyFlagLanguage: errors are constructors carrying the offending token, not the `%q`-quoted message text.
- Links.DataURLList: errors are constructors carrying the parser's reason or the anchor text, not the formatted message text.
- GoStrings.SplitLength: `strings.Split` is modelled for a one-character separator only, which is the only kind the code uses.

## Findings

| source | as written | input that shows it | evidently intended | confidence | as-written member | corrected member |
|---|---|---|---|---|---|---|
| mocword-download/main.go:100-115 | "no invalid token" and "the invalid token is empty" both come back as `""`, so the verify functions accept a flag whose leftmost invalid token is empty, along with every token after it | `-language "eng,,xyz"` (also `-language ""`) | reject any flag that has a token outside the whitelist, the empty token included | high; not executed | Flags.EmptyTokenHidesLaterInvalid | Flags.StrictChecksAcceptExactlyValid |
