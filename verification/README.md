# Image scraper core, modelled in Dafny

This project models the image-URL pipeline of the FinalWeb gallery. The server
(`final_web/server.js`) takes a list of page URLs. It fetches each page and
collects the images the page references, from `<img>` elements and from inline
`background` styles. Each reference is normalised against the page's URL.
Failures are reported per URL. The client does two small pure steps: the URL
form splits and checks what the user typed (`UrlInput.tsx`), and the service
flattens the per-URL results into one gallery list (`ScraperService.ts`).

Modules, one per file:

- `Wrappers` (`wrappers.dfy`): `Option` and `Result`. They stand for JavaScript's `null`/`undefined` and for thrown errors.
- `Strings` (`strings.dfy`): prefix and substring tests, plus the ASCII case folding used by regular expressions with the `i` flag.
- `UrlNormalizer` (`url_normalizer.dfy`): `normalizeUrl`.
- `ExtensionFilter` (`extension_filter.dfy`): the `<img>` extension test `/\.(jpeg|jpg|gif|png|webp|svg)/i`.
- `BackgroundToken` (`background_token.dfy`): the `url(...)` pattern applied to `style` attributes.
- `Extractor` (`extractor.dfy`): the two passes over a parsed page.
- `Batch` (`batch.dfy`): the `/api/scrape` handler, which holds the 400 guard, the per-URL `try` and the `results` object.
- `UrlInput` (`url_input.dfy`): `handleSubmit`, which splits, trims, adds a scheme and submits all or nothing.
- `ScraperService` (`scraper_service.dfy`): the flattening loop of `scrapeUrls`, and how the server's results reach it.

Foreign code enters as function-typed parameters:

- `Resolver`: `new URL(ref, base).href`. `None` means the constructor threw.
- `Environment.validate`: `new URL(url).href`, or the thrown error's message.
- `Environment.fetch`: the body of the `i`-th GET, or the error's message. The fetch is indexed by input position. A URL listed twice can therefore get two different answers, and "the last one wins" is a real statement.
- `Environment.parse`: `cheerio.load`, or the message of the error it throws. A page is a sequence of `Element(tag, attributes)` in document order.
- the `isValid` argument of `HandleSubmit`: whether `new URL(x)` accepts `x`.

Notes on reading the code:

- The two regular expressions appear with doubled backslashes (`\\.`, `url\\(`). Taken literally, the extension test would demand a backslash in every URL. The model uses the evident single-backslash patterns:
  - extension test: a `.` followed by a listed extension, anywhere in the string, ignoring ASCII case;
  - background pattern: `url(` in any case, an optional quote, a maximal run of characters other than `'`, `"` and `)`, an optional quote, then `)`.
- The background pattern is modelled in full, including the closing `)`. At each start position the backtracking engine has only one way to succeed (`MatchAtIsPatternMatch`), and the leftmost match wins (`FirstUrlTokenIsLeftmost`).
- `/i` without the `u` flag folds only ASCII letters onto ASCII letters, so `AsciiLower` is exact.
- The extension filter applies to `<img>` references only. A background record is kept whenever its token normalises to a non-empty URL (`BackgroundSkipsExtensionFilter`).
- Stored URLs are `http(s)` URLs only when the resolver returns `http(s)` URLs (`ResultsAreAbsolute`); a `data:` reference resolves to a `data:` URL. WHATWG `href` always carries a scheme, so no stored URL is relative or protocol-relative. `NeverProtocolRelative` proves the second half from the weaker assumption that the resolver never returns a `//`-prefixed string.
- The background branch tests `if (normalizedUrl)`, so an empty string is dropped. The model keeps that test.
- `results[url] = …` follows JavaScript property semantics. A new key is appended. An existing key keeps its position and takes the new value. The keys come out once each, in order of first occurrence, and each holds the outcome of its last occurrence.
- `handleSubmit` only tests for the four letters `http`. A host such as `httpbin.org` therefore gets no `https://` prefix and is handed to the URL check as it is (`HttpNamedHostKeepsNoScheme`).

## Model

| member | source | states |
|---|---|---|
| UrlNormalizer.Normalize | final_web/server.js:15-33 | an absolute or protocol-relative reference always gives an absolute `http(s)` URL; `null` can only come from the resolver failing; any other reference gets exactly the resolver's answer |
| UrlNormalizer.AbsoluteUnchanged | final_web/server.js:18-20 | a reference starting with `http://` or `https://` is returned unchanged, whatever the base and resolver |
| UrlNormalizer.ProtocolRelativeGetsHttps | final_web/server.js:23-25 | a `//` reference yields an `https://` URL, and removing the six characters `https:` gives the reference back; the resolver is not consulted |
| UrlNormalizer.RelativeDelegatesToResolver | final_web/server.js:27-32 | any other reference yields the resolver's result against the base, failure included, and nothing throws |
| UrlNormalizer.NormalizeIdempotent | final_web/server.js:18-20 | normalising an absolute result again, against any base, gives the same string |
| UrlNormalizer.ResultsAreAbsolute | final_web/server.js:15-33 | when the resolver only produces `http(s)` URLs, no result is relative or protocol-relative |
| UrlNormalizer.NeverProtocolRelative | final_web/server.js:15-33 | when the resolver never returns a `//`-prefixed string, as a scheme-carrying `href` never does, no result is protocol-relative |
| ExtensionFilter.SearchImageExtension | final_web/server.js:69 | the left-to-right regex search succeeds exactly when some `.` is followed by one of jpeg, jpg, gif, png, webp, svg, ignoring ASCII case |
| ExtensionFilter.HasImageExtension | final_web/server.js:69 | a URL that passes holds a dot followed by at least three more characters |
| ExtensionFilter.MatchWordAt | final_web/server.js:69 | one alternative of the pattern is tried at a position: true exactly when the word matches there, ignoring case |
| ExtensionFilter.FilterIgnoresSurroundings | final_web/server.js:69 | the filter is a loose substring test: text added before or after an accepted URL, such as a query string, keeps it accepted |
| ExtensionFilter.FilterIgnoresCase | final_web/server.js:69 | a URL is accepted exactly when its lower-cased form is |
| ExtensionFilter.UpperCasePngAccepted | final_web/server.js:69 | `https://site.com/photo.PNG` is accepted |
| ExtensionFilter.NoExtensionAfter | final_web/server.js:69 | a dot followed by a character that starts none of the six extensions begins no match |
| ExtensionFilter.BmpRejected | final_web/server.js:69 | `https://site.com/photo.bmp` is rejected |
| BackgroundToken.RunEnd | final_web/server.js:84 | the greedy group `[^'")]+` stops at the first quote or `)` or at the end |
| BackgroundToken.MatchAt | final_web/server.js:84 | a match attempt at one position captures a non-empty token free of quotes and `)` |
| BackgroundToken.MatchAtIsSound | final_web/server.js:84 | whatever the deterministic attempt reports at a position is a match of the pattern there |
| BackgroundToken.MatchAtIsComplete | final_web/server.js:84 | every match of the pattern at a position is the one the deterministic attempt reports |
| BackgroundToken.MatchAtIsPatternMatch | final_web/server.js:84 | the deterministic attempt succeeds with token t exactly when some choice of the optional quotes makes the pattern match with group t |
| BackgroundToken.FirstMatchFrom | final_web/server.js:84 | finds the leftmost position where the pattern matches, or reports that it matches nowhere |
| BackgroundToken.FirstUrlToken | final_web/server.js:84-85 | the token, when found, is non-empty and free of quotes and `)` |
| BackgroundToken.FirstUrlTokenIsLeftmost | final_web/server.js:84-85 | the token is that of the leftmost match; no token means the pattern matches nowhere |
| BackgroundToken.LeftmostMatchIsReported | final_web/server.js:84-85 | a match with no earlier match is the one reported |
| BackgroundToken.NoMatchBeforeParen | final_web/server.js:84 | no match starts where its `(` would precede the first `(` of the style |
| BackgroundToken.QuotesAreStripped | final_web/server.js:84 | `url(t)`, `url('t')` and `url("t")` all yield t |
| BackgroundToken.BannerStyleToken | final_web/server.js:84-85 | `background-image: url('/bg.jpg')` yields `/bg.jpg` |
| Extractor.ImageReference | final_web/server.js:65-67 | the reference is a non-empty `src`, else a non-empty `data-src`; with neither there is none |
| Extractor.ImgRecord | final_web/server.js:64-78 | an `<img>` record exists only for a normalised reference that passes the extension filter; `alt` defaults to "" and `width`/`height` default to "unknown" |
| Extractor.HasBackgroundStyle | final_web/server.js:81-83 | an element the selector `[style*="background"]` picks has a `style` attribute long enough to hold the word, so the `if (style)` test never drops it |
| Extractor.BackgroundRecord | final_web/server.js:81-97 | a background record needs a `style` containing "background", a `url(...)` token and a non-empty normalised URL; its alt is "Background Image" and its sizes are "unknown" |
| Extractor.Harvest | final_web/server.js:61-97 | one `.each` pass adds at most one record per element |
| Extractor.HarvestUrlsNonEmpty | final_web/server.js:61-97 | a pass whose element step never yields an empty URL yields none |
| Extractor.Extract | final_web/server.js:61-97 | a page's list has at most two records per element and no record with an empty URL, since both pushes test `normalizedUrl` |
| Extractor.HarvestAppend | final_web/server.js:61-97 | each pass keeps document order: the pass over a split page is the pass over the first part followed by the pass over the second |
| Extractor.HarvestMember | final_web/server.js:61-97 | a record is in a pass exactly when some element of the page produced it |
| Extractor.SilentElementChangesNothing | final_web/server.js:65-67 | an element that yields nothing, such as an `<img>` with neither `src` nor `data-src`, leaves the list unchanged wherever it stands |
| Extractor.ExtractedImageProvenance | final_web/server.js:61-97 | an image is on the page's list exactly when one element produced it in the `<img>` pass or the background pass |
| Extractor.ExtractOrder | final_web/server.js:61-97 | all `<img>` records precede all background records, each pass in document order |
| Extractor.BackgroundSkipsExtensionFilter | final_web/server.js:84-94 | a background token is kept whenever it normalises to a non-empty URL, with no extension check |
| Extractor.ImgNeedsExtension | final_web/server.js:68-69 | an `<img>` whose reference normalises is kept exactly when the URL passes the extension filter |
| Extractor.ImgPageExample | final_web/server.js:64-75 | `<img src="/a.png" alt="cat">` on `https://s.com/` gives one record with the resolved URL, alt "cat" and unknown sizes |
| Extractor.BackgroundPageExample | final_web/server.js:81-94 | a `div` with `background-image: url('/bg.jpg')` gives one "Background Image" record with the resolved URL |
| Extractor.PathIsRelative | final_web/server.js:18-25 | a reference that starts with a single `/` is neither absolute nor protocol-relative |
| Batch.ProcessUrl | final_web/server.js:47-109 | a validation, fetch or parse failure gives `{success:false}` with that error's message; success needs all three steps to succeed; on success `count` equals the number of images, which are extracted with the validated URL as base |
| Batch.Keys | final_web/server.js:44-108 | the own keys of `results` in property order, one per stored entry |
| Batch.Lookup | final_web/server.js:99-108 | `results[key]` is defined exactly when `key` is one of the own keys |
| Batch.Assign | final_web/server.js:99-108 | `results[url] = …` adds at most one key, and the key then reads the stored value |
| Batch.AssignKeys | final_web/server.js:99-108 | storing under a new key appends it; storing under an existing key keeps the key order |
| Batch.AssignLookup | final_web/server.js:99-108 | after storing, the key reads the new value and every other key reads as before |
| Batch.FirstIndex | final_web/server.js:46-108 | the position of a string's first occurrence, with no earlier occurrence |
| Batch.FirstIndexIsFirst | final_web/server.js:46-108 | the first occurrence is the position no earlier position matches |
| Batch.FirstIndexOfPrefix | final_web/server.js:46-108 | a later iteration does not move the first occurrence of a string already met |
| Batch.Distinct | final_web/server.js:46-108 | the key order of the results object: each input string once, ordered by first occurrence |
| Batch.Results | final_web/server.js:44-110 | the keys are the input strings, once each, in order of first occurrence; each key holds the outcome of its last occurrence |
| Batch.ResultsStep | final_web/server.js:46-110 | one more iteration settles its own key and leaves the others with their last outcome |
| Batch.HandleScrape | final_web/server.js:36-112 | a missing, non-array or empty `urls` gives 400 "Please provide an array of URLs" before any URL is processed; otherwise the keys are the inputs once each in order of first occurrence, and each key holds its last outcome |
| Batch.OutcomeDependsOnlyOnOwnRequest | final_web/server.js:46-110 | a key's result depends only on its own validation, last fetch and extraction, so other URLs' failures cannot affect it |
| Batch.TimeoutBesideSuccess | final_web/server.js:46-110 | a timed-out URL and a fetched, parsed URL in one batch give a failure and a success side by side |
| Batch.DuplicateKeepsLastOutcome | final_web/server.js:99-108 | a URL listed twice is one key holding the second request's outcome |
| UrlInput.DropSeparators | final_web/src/components/UrlInput.tsx:19 | a run of newlines and commas is consumed whole |
| UrlInput.SplitFrom | final_web/src/components/UrlInput.tsx:19 | splitting yields at least one piece; `SplitOfJoin` says where the pieces break |
| UrlInput.Split | final_web/src/components/UrlInput.tsx:19 | `split(/[\n,]+/)` gives at least one piece, and no piece holds a newline or comma |
| UrlInput.SplitOfSeparatorFree | final_web/src/components/UrlInput.tsx:19 | text without newlines or commas is one piece |
| UrlInput.SplitOfJoin | final_web/src/components/UrlInput.tsx:19 | a maximal run of newlines and commas ends exactly one piece: text, a run, then the rest, split into the text followed by the pieces of the rest |
| UrlInput.SplitExample | final_web/src/components/UrlInput.tsx:19 | `"a\n,b"` splits into `a` and `b` |
| UrlInput.SplitLosesOnlySeparators | final_web/src/components/UrlInput.tsx:19 | the pieces, concatenated, are the input with its separators removed |
| UrlInput.SplitPiecesHaveNoSeparator | final_web/src/components/UrlInput.tsx:19 | no piece contains a newline or comma |
| UrlInput.RemoveSeparators | final_web/src/components/UrlInput.tsx:19 | the text kept by splitting has no separator |
| UrlInput.SkipLeading | final_web/src/components/UrlInput.tsx:19 | the leading white space `trim` removes ends at the first character that is not white space |
| UrlInput.SkipTrailing | final_web/src/components/UrlInput.tsx:19 | the trailing white space `trim` removes starts after the last character that is not white space |
| UrlInput.Trim | final_web/src/components/UrlInput.tsx:19 | `trim` never lengthens its input and leaves no white space at either end |
| UrlInput.TrimIsStretch | final_web/src/components/UrlInput.tsx:19 | the result is a stretch of the input with only white space outside it, and no white space at either end |
| UrlInput.TrimIdempotent | final_web/src/components/UrlInput.tsx:19 | trimming twice is trimming once |
| UrlInput.TrimAndDropEmpty | final_web/src/components/UrlInput.tsx:19 | no empty entry survives `filter(Boolean)` |
| UrlInput.TrimAndDropEmptyAppend | final_web/src/components/UrlInput.tsx:19 | `.map(trim).filter(Boolean)` keeps piece order across any split of the pieces |
| UrlInput.TrimAndDropEmptySingle | final_web/src/components/UrlInput.tsx:19 | one piece gives its trimmed form, or nothing when that is empty |
| UrlInput.NonEmptyPieceSurvives | final_web/src/components/UrlInput.tsx:19 | every piece whose trimmed form is non-empty survives as that form, between the entries of the pieces before and after it |
| UrlInput.KeptEntriesComeFromPieces | final_web/src/components/UrlInput.tsx:19 | every entry is the trimmed form of some piece of the split |
| UrlInput.TrimKeepsNoSeparator | final_web/src/components/UrlInput.tsx:19 | trimming a piece cannot introduce a separator |
| UrlInput.RawEntriesAreClean | final_web/src/components/UrlInput.tsx:19 | every raw entry is non-empty, contains no newline or comma, and is already trimmed |
| UrlInput.RawEntries | final_web/src/components/UrlInput.tsx:19 | at most one entry per piece; every entry is non-empty, has no newline or comma and is already trimmed |
| UrlInput.TypedEntryIsKept | final_web/src/components/UrlInput.tsx:19 | every non-blank piece the user typed reaches the raw entries, trimmed |
| UrlInput.WithScheme | final_web/src/components/UrlInput.tsx:33-34 | an entry starting with "http" passes unchanged; any other entry becomes "https://" + entry |
| UrlInput.WithSchemeIdempotent | final_web/src/components/UrlInput.tsx:33-34 | adding the scheme twice adds it once |
| UrlInput.HttpNamedHostKeepsNoScheme | final_web/src/components/UrlInput.tsx:33-34 | `httpbin.org` is passed on without a scheme |
| UrlInput.Accepted | final_web/src/components/UrlInput.tsx:30-38 | there are never more accepted URLs than entries |
| UrlInput.Refused | final_web/src/components/UrlInput.tsx:30-38 | the refused list is exactly the entries the URL check rejects |
| UrlInput.NothingRefusedAcceptsAll | final_web/src/components/UrlInput.tsx:30-45 | with nothing refused, the accepted list has the same length and order as the entries, each with its scheme |
| UrlInput.Classify | final_web/src/components/UrlInput.tsx:30-38 | the loop sends every entry to exactly one of the two lists, in input order, and every accepted URL passes the check |
| UrlInput.SubmitEntries | final_web/src/components/UrlInput.tsx:21-45 | no entries means no submission; any invalid entry means no submission and a list of the culprits; otherwise every entry is submitted in order |
| UrlInput.HandleSubmit | final_web/src/components/UrlInput.tsx:15-46 | `onScrape` is reached only when there is at least one entry and all of them are valid, with one URL per raw entry in order; otherwise the invalid entries are reported |
| ScraperService.Contribution | final_web/src/services/ScraperService.ts:30-32 | a failed entry, or one without `images`, contributes nothing; a successful entry contributes its `images` |
| ScraperService.FlattenResults | final_web/src/services/ScraperService.ts:27-35 | the loop's output is the in-order concatenation of the successful entries' images |
| ScraperService.SuccessfulImages | final_web/src/services/ScraperService.ts:29-33 | reference definition of the flattened list; `FlattenProvenance` and `FlattenLength` state its content |
| ScraperService.SuccessfulImagesSnoc | final_web/src/services/ScraperService.ts:29-33 | one more entry appends its contribution at the end |
| ScraperService.SuccessfulImagesAppend | final_web/src/services/ScraperService.ts:29-33 | flattening preserves entry order across any split of the entries |
| ScraperService.EmptyContributionAddsNothing | final_web/src/services/ScraperService.ts:30 | a failed entry, or a successful one with missing or empty images, adds nothing wherever it stands |
| ScraperService.FlattenLength | final_web/src/services/ScraperService.ts:27-35 | the output length is the sum of the successful entries' image counts |
| ScraperService.FlattenSound | final_web/src/services/ScraperService.ts:29-33 | every image in the output comes from some successful entry |
| ScraperService.FlattenComplete | final_web/src/services/ScraperService.ts:29-33 | every image of a successful entry is in the output |
| ScraperService.FlattenProvenance | final_web/src/services/ScraperService.ts:29-33 | an image is in the output exactly when some successful entry lists it |
| ScraperService.ToClient | final_web/src/services/ScraperService.ts:9-18 | a server success reads as `success` with its images and count; a failure reads as not `success`, with no images and its error |
| ScraperService.ToClientEntries | final_web/src/services/ScraperService.ts:29 | one client entry per result key, in key order |
| ScraperService.ClientSeesServerImages | final_web/src/services/ScraperService.ts:27-35 | what the client collects is exactly the images of the server's succeeded keys, in key order |

## Left out

- Express wiring is not modelled: CORS, JSON body parsing, `/api/health`, `app.listen` and the `checkHealth` client call. This is transport plumbing with no logic to state.
- The HTTP GET, with its user-agent header and 10-second timeout, is not modelled. It becomes `Environment.fetch`, which returns a body or the error's message.
- The axios POST of `scrapeUrls`, and its re-throw on error, are not modelled.
- HTML parsing and selector matching are not modelled. A page is a sequence of elements in document order with lower-case tag names. `$('img')` becomes a tag test, and `[style*="background"]` becomes a case-sensitive substring test on the `style` attribute.
- WHATWG URL parsing and resolution are not modelled. They become the `Resolver`, `Environment.validate` and `isValid` parameters.
- The outer `catch` that answers 500 is not modelled. The inner `catch` absorbs every error of the loop body, and storing a result cannot throw, so no input reaches it.
- Batch.ProcessUrl: the inner `catch` records errors from URL validation, the fetch and `cheerio.load`. The two `.each` passes are assumed not to throw: on a parsed page they only read string attributes, test a regular expression and call `normalizeUrl`, whose own `catch` absorbs the resolver's error.
- `urls` arrays holding non-strings are not modelled. JavaScript would turn such an element into a string key. The model takes an array of strings.
- JavaScript object quirks are not modelled. Integer-like keys are listed first, in numeric order, by `Object.entries`. A `__proto__` key sets the prototype instead of storing a result. Neither string is a valid absolute URL, so neither can carry images.
- Side effects are not modelled: `console.error`, the toast messages, async sequencing and the loading flags.
- React presentation is not modelled: `Index.tsx`, `ImageGrid.tsx` and `Header.tsx`.
- Strings are modelled as sequences of Unicode scalar values, not JavaScript's UTF-16 code units. A character outside the Basic Multilingual Plane is one `char` here and two code units in JavaScript, and a lone surrogate cannot be represented. Every pattern and separator the code uses lies in the Basic Multilingual Plane, and no contract observes a string's length in code units.
- UrlNormalizer.ResultsAreAbsolute: this states the "every URL is absolute" invariant only for resolvers that return `http(s)` URLs. The model's `Resolver` is unconstrained, while WHATWG `href` always carries a scheme; the lemma does not assume that.
