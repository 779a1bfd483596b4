# MusicThread web feed, modelled in Dafny

The MusicThread web feed is a Cloudflare worker. It answers `GET /thread/<key>` by calling MusicThread's "get thread" API and rendering the thread and its links as an Atom feed. The whole worker is `src/main.js`. This project models:

- the request handler `main`: its method check, its path check, the outcomes of the API call, and the response it builds;
- the path parser `parseThreadKey`;
- the two templates `generateRssFeed` and `generateItemContent`;
- the text helpers `encodeHtml` and `String.prototype.capitalize`.

Modules:

- `Wrappers` (`wrappers.dfy`): `Option`, the JavaScript exceptions that can escape (`JsError`), and `Completion`. A `Completion` is a value or a throw.
- `Strings` (`strings.dfy`): the JavaScript string built-ins in the forms the worker uses them. These are `replace` with a one-character pattern (global, or first match only), `split` on one character, and ASCII `toUpperCase`/`toLowerCase`. `Join` is not used by the worker: it is the inverse of `split`, defined for the round-trip lemmas about it. It also has `Concat` and `Contains`, which the templates are stated with.
- `Format` (`format.dfy`): `encodeHtml`, with a per-character reference definition and a decoder. Also `capitalize`.
- `Path` (`path.dfy`): `parseThreadKey`.
- `Feed` (`feed.dfy`): the thread and link records, and the item and entry templates. Also the feed head, `generateRssFeed` (a method with the `forEach` loop, proved against the function `RssFeed`), and the corrected categories of "## Findings".
- `Handler` (`handler.dfy`): `main`, as `HandleRequest`. The outcome of the API call is a parameter.

Each template is a list of pieces in source order, literal text alternating with interpolated values, joined by `Concat`. The interpolated values are gathered first in a record (`ItemText`, `EntryText`, `HeadText`). The properties are proved once about the record and then instantiated for a link or a thread. Long literal text is written as a concatenation of short literals; the text is the same.

Where the code does something other than what its own text evidently aims at, the model follows the code:

- Tags. The callback on line 68 of `src/main.js` evidently builds one `<category term="..."/>` per thread tag, but its result is never written to the feed (see "## Findings"). A tagged thread makes `generateRssFeed` throw a `ReferenceError`. An untagged one gets the literal text `undefined` after the head. So a thread tagged `jazz` with one link gets no feed: the exception escapes `main` (`Feed.TaggedThreadThrows`).
- Slashes. `encodeHtml` escapes only the first `/`, because its last `replace` has no `g` flag. The model keeps this.
- Raw values. The item content puts the link description in `<p>` without escaping it. The feed title is interpolated raw. Both are kept.

## Model

| member | source | states |
|---|---|---|
| Strings.ReplaceAllAbsent | src/main.js:127-131 | a global `replace` of a character leaves text without that character unchanged |
| Strings.ReplaceAllRemoves | src/main.js:127-131 | after a global `replace` with a replacement free of the character, no occurrence of the character is left |
| Strings.ReplaceAllConcat | src/main.js:127-131 | a global `replace` of a character works piece by piece: replacing in a concatenation is concatenating the replaced pieces |
| Strings.ReplaceFirstAbsent | src/main.js:132 | `replace` without `g` leaves text without the character unchanged |
| Strings.ReplaceFirstAt | src/main.js:132 | `replace` without `g` puts the replacement in place of the first occurrence of the character, and everything before and after it stays |
| Strings.Split | src/main.js:143 | `split` on a character gives one more piece than there are separators, and no piece holds the separator |
| Strings.JoinSplit | src/main.js:143 | splitting loses nothing: joining the pieces with the separator gives back the string |
| Strings.SplitJoin | src/main.js:143 | pieces free of the separator are recovered exactly by splitting their join |
| Strings.UpperCaseHasNoLower | src/main.js:98 | after `toUpperCase` no ASCII lower-case letter is left |
| Strings.LowerCaseHasNoUpper | src/main.js:98 | after `toLowerCase` no ASCII upper-case letter is left |
| Strings.LowerOfUpper | src/main.js:98 | lower-casing an upper-cased string is lower-casing the original: upper-casing changes letters' case only |
| Strings.CaseKeepsOthers | src/main.js:98 | characters that are not ASCII letters stay in place under both `toUpperCase` and `toLowerCase` |
| Strings.ReplaceAll | src/main.js:127-131 | `replace(/c/g, rep)`; its contract is stated by Strings.ReplaceAllAbsent, Strings.ReplaceAllRemoves and Strings.ReplaceAllConcat |
| Strings.ReplaceFirst | src/main.js:132 | `replace(/c/, rep)`; its contract is stated by Strings.ReplaceFirstAbsent and Strings.ReplaceFirstAt |
| Format.EncodeHtml | src/main.js:125-133 | `encodeHtml`; its contract is stated by Format.EncodeHtmlByCharacter, Format.DecodeEncodeHtml, Format.EncodeHtmlNoMarkup and Format.EncodeHtmlSlashes |
| Format.EscapeChar | src/main.js:127-131 | the entity for one character holds no `<`, `>`, `'` or `"`, and holds a `/` exactly when the character is `/` |
| Format.EscapeMarkupByCharacter | src/main.js:126-131 | the five global replacements, ampersand first, are the same as escaping each character on its own (no double escaping of `&`) |
| Format.EncodeHtmlByCharacter | src/main.js:125-133 | `encodeHtml` equals the reference: characters are escaped one by one, the first `/` becomes `&#x2F;`, and later slashes stay |
| Format.EncodeHtmlNoMarkup | src/main.js:125-133 | the output of `encodeHtml` holds no `<`, `>`, `'` or `"` |
| Format.EncodeHtmlSlashes | src/main.js:132 | `encodeHtml` removes exactly one slash when there is one: the output has one slash fewer, or none if the input had none |
| Format.EncodeHtmlPlain | src/main.js:125-133 | text without any of `& < > ' " /` passes through `encodeHtml` unchanged |
| Format.DecodeHtml | src/main.js:125-133 | the decoder of the six entities never lengthens its input |
| Format.DecodeEncodeHtml | src/main.js:125-133 | round trip: decoding the output of `encodeHtml` gives back its input, so escaping loses nothing |
| Format.EncodeHtmlAmpersand | src/main.js:127 | `&` becomes `&amp;` |
| Format.EncodeHtmlFirstSlashOnly | src/main.js:132 | in text with nothing else to escape, `a/b` becomes `a&#x2F;b` whatever slashes `b` holds: later slashes are left as they are |
| Format.Capitalize | src/main.js:97-99 | `capitalize` keeps the length and each letter up to case; the first character is not lower case and no later one is upper case |
| Format.CapitalizeUnique | src/main.js:97-99 | those four facts determine the result: any string having them is `capitalize` of the input |
| Format.CapitalizeIdempotent | src/main.js:97-99 | capitalizing twice is capitalizing once |
| Format.CapitalizeKeepsOthers | src/main.js:97-99 | a character that is not an ASCII letter occurs in the result exactly when it occurs in the input |
| Format.CapitalizeExamples | src/main.js:97-99 | `VIDEO` becomes `Video`, `song` becomes `Song`, and the empty string stays empty |
| Path.ParseThreadKey | src/main.js:141-160 | a key that is returned is non-empty and holds no slash |
| Path.ParseThreadKeyExactly | src/main.js:141-160 | `parseThreadKey` returns `key` if and only if the path is one leading character followed by `thread/` and `key`, with `key` non-empty and free of slashes |
| Path.ThreadPathAccepted | src/main.js:141-160 | `/thread/<key>` yields its key unchanged |
| Path.WrongSegmentCountRefused | src/main.js:147-149 | a path whose remainder does not hold exactly one slash is refused |
| Path.ParseThreadKeyRefusals | src/main.js:147-157 | `/thread/`, `/thread/abc/`, `/threads/abc`, `/` and the empty path are refused |
| Path.ThreadKeyRefused | src/main.js:141-160 | every path not of the form `?thread/<key>` is refused |
| Feed.ItemContent | src/main.js:108-114 | `generateItemContent`; its contract is stated by Feed.ItemContentParagraph and Feed.ItemContentHeadings |
| Feed.Entry | src/main.js:70-83 | the entry appended for one link; its contract is stated by Feed.EntryDelimited, Feed.EntryFields and Feed.EntrySummaryIffDescription |
| Feed.FeedHead | src/main.js:56-67 | the feed's opening lines; its contract is stated by Feed.FeedHeadFields and Feed.SubtitleIffDescription |
| Feed.TagCategories | src/main.js:68 | the value of the tags' `forEach` in the feed text; its contract is stated by Feed.RssFeedThrowsIffTagged and Feed.RssFeedUndefinedAfterHead |
| Feed.RssFeed | src/main.js:55-87 | what `generateRssFeed` evaluates to; its contract is stated by Feed.GenerateRssFeed, Feed.RssFeedThrowsIffTagged, Feed.RssFeedClosed, Feed.EmptyThreadFeed and Feed.AppendLinkAppendsEntry |
| Feed.ItemContentParagraph | src/main.js:108-114 | the raw `<p>description</p>` is there exactly when the description has text; otherwise the content is that of the link without description, and with text it is inserted just before the closing paragraph |
| Feed.ItemContentHeadings | src/main.js:109-111 | the content starts with the thumbnail image; the escaped title is in `<h1>` and the escaped artist in `<h3>by ...</h3>` |
| Feed.EntryDelimited | src/main.js:70-83 | each entry starts with `<entry>` and ends with `</entry>` |
| Feed.EntryFields | src/main.js:71-82 | each entry has `<published>` and `<updated>` holding the submission time verbatim, a `type` category labelled with the capitalized type, the escaped title, and the escaped item content |
| Feed.EntrySummaryIffDescription | src/main.js:79-81 | the entry up to its category does not depend on the description; a summary with the escaped description follows exactly when the description has text, and then the thumbnail; otherwise the thumbnail follows at once |
| Feed.SubtitleIffDescription | src/main.js:56-67 | the head is that of the thread without description, followed by a subtitle with the escaped description exactly when the description has text |
| Feed.FeedHeadFields | src/main.js:56-66 | the head starts with the XML declaration; it has the generation time, the escaped author name, the feed address as id, and the raw thread title |
| Feed.EntriesConcat | src/main.js:69-84 | the entries are exactly one entry per link, concatenated in link order, with nothing between them |
| Feed.GenerateRssFeed | src/main.js:55-87 | the method, with its loop over the links, produces `RssFeed`: the head, the text of the tags' `forEach`, the entries in link order, and `</feed>`; or the exception of line 68 |
| Feed.AppendEntries | src/main.js:69-84 | appending each link's entry in order gives the start followed by the entries of all links |
| Feed.RssFeedThrowsIffTagged | src/main.js:68 | the feed throws exactly when the thread has tags, and then with a ReferenceError for `feedCategories` |
| Feed.RssFeedUndefinedAfterHead | src/main.js:66-68 | a feed that is produced has the text `undefined` right after the head |
| Feed.RssFeedClosed | src/main.js:85 | a feed that is produced ends with `</feed>` |
| Feed.EmptyThreadFeed | src/main.js:55-87 | an untagged thread without links gives the head, `undefined` and `</feed>`, with no entry |
| Feed.AppendLinkAppendsEntry | src/main.js:69-85 | one more link at the end adds its entry just before `</feed>` and changes nothing else, and does not change whether the feed throws |
| Feed.TaggedThreadThrows | src/main.js:68 | a thread tagged `jazz` with one link gets no feed: the ReferenceError is thrown |
| Feed.CategoriesListTags | src/main.js:68 | corrected categories: each tag's escaped `<category term=".."/>` occurs among them |
| Feed.CategoriesEmptyIffUntagged | src/main.js:68 | corrected categories are empty exactly when there are no tags |
| Feed.FixedFeedListsTags | src/main.js:55-87 | the corrected feed has one category element for each tag of the thread |
| Feed.FixedFeedUntagged | src/main.js:66-68 | without tags the corrected feed is the feed as written with the `undefined` after the head removed, and nothing else different |
| Feed.TaggedThreadFixed | src/main.js:68 | with the correction, a thread tagged `jazz` (or with any tag that needs no escaping) has that tag's category verbatim |
| Handler.Settle | src/main.js:16-46 | the `try` block and the feed response; its contract is stated by Handler.UpstreamErrorPassedOn, Handler.UpstreamStatusOutOfRange, Handler.FetchFailuresAre500, Handler.SuccessServesFeed and Handler.ShapelessBodyThrows |
| Handler.HandleRequest | src/main.js:5-47 | `main`; its contract is stated by Handler.NonGetRejected, Handler.UnsupportedPathNotFound, Handler.ThreadPathFetches, Handler.StatusCodes and Handler.OkOnlyForFeed |
| Handler.Route | src/main.js:7-14 | the API is called exactly for a GET whose path has a thread key |
| Handler.NonGetRejected | src/main.js:7-9 | a request that is not a GET is answered 400 `Only GET is supported`, whatever its path and whatever the API would say |
| Handler.UnsupportedPathNotFound | src/main.js:11-14 | a GET whose path has no thread key is answered 404 in plain text, whatever the API would say |
| Handler.ThreadPathFetches | src/main.js:11-19 | a GET of `/thread/<key>` calls the API address for that key, and the answer depends on the API's outcome alone |
| Handler.UpstreamErrorPassedOn | src/main.js:26-30 | an API status from 400 to 599 is passed on; the body is the standard message, followed by ` (<error>)` exactly when the JSON has an `error` |
| Handler.UpstreamStatusOutOfRange | src/main.js:26-35 | an API status above 599 is answered 500 with the standard message: the `Response` constructor on line 29 rejects it with a RangeError, which the `catch` on line 34 turns into a 500 |
| Handler.FetchFailuresAre500 | src/main.js:18-36 | an unreachable API, a body that is not JSON, or a `null` body with an error status are answered 500 with the standard message |
| Handler.SuccessServesFeed | src/main.js:32-46 | a successful API response with a thread is answered 200 with the XML content type and the feed exactly when the thread has no tags; otherwise the ReferenceError escapes |
| Handler.ShapelessBodyThrows | src/main.js:32-39 | a successful API response whose JSON is `null`, or whose payload the model represents as having no `thread`/`links` to read, is rejected with a TypeError that escapes |
| Handler.StatusCodes | src/main.js:5-47 | every response has status 200, 400, 404 or 500, or the API's own status when it is from 400 to 599; the XML content type goes with 200 and with nothing else, and every other status has the plain-text content type |
| Handler.OkOnlyForFeed | src/main.js:5-47 | status 200 is given exactly for a routed GET whose API response succeeded with an untagged thread; an exception escapes only after an API status below 400 |
| Handler.ThreadNotFoundPassedOn | src/main.js:26-30 | the API's 404 naming its error is passed on as a 404 whose body names it too |

## Findings

| source | as written | input that shows it | evidently intended | confidence | as-written member | corrected member |
|---|---|---|---|---|---|---|
| src/main.js:68 | `+ root.thread.tags.forEach(tag => feedCategories += ...)`: `forEach` returns `undefined`, and its callback writes to an undeclared `feedCategories` | a thread with tags `["jazz"]` throws a ReferenceError that escapes the handler; a thread without tags gets the text `undefined` in its feed | the feed lists `<category term="<escaped tag>"/>` for each tag, in tag order, and adds nothing when there are no tags | high; not executed | Feed.TaggedThreadThrows | Feed.FixedFeedListsTags |

`Feed.RssFeed`, `Feed.GenerateRssFeed` and `Handler.HandleRequest` model the code as written; that is what the handler's lemmas are about. `Feed.FixedRssFeed` is the corrected feed. It is proved to list every tag (`Feed.FixedFeedListsTags`, `Feed.TaggedThreadFixed`) and, without tags, to differ from the feed as written only by the missing `undefined` (`Feed.FixedFeedUntagged`).

## Left out

- Request URLs: the handler takes the method and the URL's path name. `new URL(...)` parsing, query strings and percent-encoding are not modelled.
- `fetch` and its `Accept` header, `response.json()`, and the `addEventListener`/`respondWith` wiring are left out. The outcome of the API call is the parameter `Fetched`: unreachable, or a status with a body that is not JSON, `null`, or some other JSON value.
- JSON values are reduced to what `main` reads. `error` is the text `${json.error}` would give when it is neither `null` nor `undefined`. The payload is a typed thread response or "not shaped as one".
- Handler.ShapelessBodyThrows: a payload the model cannot read as a thread response is one case, rejected with a `TypeError`. JavaScript distinguishes cases the model does not:
  - a thread with non-empty `tags` but no `links` throws the `ReferenceError` of line 68 before line 69 reads `links`;
  - a payload missing a field that is only concatenated (a link's `key`, `submitted_at` or `thumbnail_url`, the thread's `key` or `title`) does not throw at all: the field prints as `undefined` and the response is a 200 feed; a missing field that goes through `encodeHtml` or `capitalize` (a link's `title`, `artist` or `type`, the author's `name`) does throw a TypeError, as the model says;
  - fields of other types, which JavaScript converts to text, are not modelled.
- `new Date().toISOString()` is the parameter `now`.
- `console.log(pathComponents)` has no effect on the result and is left out.
- What the runtime answers when `main`'s promise rejects is not part of this model; the handler ends in `Reject(error)`.
- `capitalize` is installed on `String.prototype`; here it is a plain function. `toUpperCase`/`toLowerCase` are modelled for ASCII letters only; other characters are kept, so non-ASCII case mappings (some of which change the length) are not modelled. Strings are sequences of characters, not UTF-16 code units.
- Feed.FeedHeadFields, Feed.EntryFields: the XML is stated as containing given elements, not as well-formed XML. The raw title and description can break it, and the model does not claim otherwise.
- Whole-document element counts ("exactly one entry") are replaced by structural statements: the entries are one per link, concatenated in link order (`Feed.EntriesConcat`, `Feed.EmptyThreadFeed`, `Feed.AppendLinkAppendsEntry`), and each is delimited by `<entry>` and `</entry>`.
- The `forEach` over the links is the method `Feed.AppendEntries`. `Feed.GenerateRssFeed` calls it between building the head and appending `</feed>`.
