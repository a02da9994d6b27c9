# QR Share: a verified model of the share store and the video viewer

QR Share is a single-page web application. A visitor types some text, pastes
a video link or picks a video file (at most 10 MiB). The page saves the
content in the browser's storage under a fresh ten-character id with an
optional expiry of some days. It then shows a QR code for a share link of
the form `origin + pathname + "?id=" + id`. Opening that link on the same
browser reads the record back. Text is shown as text. A YouTube or Vimeo
link is shown in an embedded player, and any other link or uploaded file
plays in the page's own video element.

This project models the logic behind that behaviour, all of it in
`js/app.js`:

- `content_store.dfy` (module `ContentStore`): the expiring content store.
  - `saveContent` is `Store.Save`. It appends a record and then drops every
    record whose expiry is not after the current time.
  - `getContent` is `Store.Get` and `Lookup`. A read finds the first record
    with the id. It returns that record only if it is still live, so the
    first writer of an id wins.
  - Timestamps are integer milliseconds, and the current time is a
    parameter.
- `video_display.dfy` (module `VideoDisplay`): the viewer's decision in
  `displayVideoContent`, `isYouTubeUrl`, `getYouTubeVideoId`, `isVimeoUrl`
  and `getVimeoVideoId`. It covers which player is used and the address it
  is given.
- `create.dfy` (module `Create`): the checks `generateQRCode` makes before
  saving anything, and the whole create step as a method. Those checks are:
  - the text is empty once trimmed;
  - the link is empty or does not parse;
  - no file was chosen;
  - the file is over 10 MiB.
- `share_link.dfy` (module `ShareLink`): `getShareUrl`. It comes with the
  proof that reading the `id` query parameter of a share link gives the id
  back, for ids without `&`, `#`, `+` or `%`. Generated ids are hexadecimal
  (js/app.js:451), so they qualify.
- `strings.dfy` and `url_query.dfy` (modules `Strings` and `UrlQuery`):
  the parts of JavaScript's string and URL library the code relies on, each
  specified and proved. They are `includes`, `split` with `pop`/last
  element, `trim` (over JavaScript's white-space set) and
  `URLSearchParams.get` on the query of a URL. `wrappers.dfy` holds
  `Option`/`Result`.

Two consequences of the code are worth stating up front:
- Ids are not unique keys. A save pushes a new record, and a read uses
  `find`. So the first record written under an id decides every read
  (`SaveKeepsEarlierRecord`). An expired first record hides a later live one
  until a save prunes it (`ExpiredRecordHidesLaterOne`).
- A share link carries only `id`. There is no inline copy of the content,
  so a record saved on another browser is not found.

## Model

| member | source | states |
|---|---|---|
| ContentStore.ExpiryFor | js/app.js:462 | no expiry exactly when the day count is 0 or less; otherwise creation time plus days × 86 400 000 ms, strictly after creation |
| ContentStore.Live | js/app.js:481-482 | no ensures: a record is live when it has no expiry or its expiry is after `now`, the test of the clean-up filter and of the read (line 498); see `Prune`, `Lookup` |
| ContentStore.NewRecord | js/app.js:456-471 | the saved record has the given id, type, data and creation time; `source` is copied only for videos; `mimeType` is kept only for videos with a non-empty type; a new record is well formed and live at its own creation time |
| ContentStore.Prune | js/app.js:480-483 | the clean-up filter keeps only records live at `now`, each one taken from the input |
| ContentStore.PruneCounts | js/app.js:480-483 | the filter keeps every live record as often as it occurs and drops every expired one (an exact multiset characterisation) |
| ContentStore.PruneAppend | js/app.js:480-483 | filtering distributes over concatenation, so order is kept |
| ContentStore.PruneAllLive | js/app.js:480-483 | a list whose records are all live is unchanged by the filter |
| ContentStore.PruneIdempotent | js/app.js:480-483 | filtering twice at the same time equals filtering once |
| ContentStore.PruneWellFormed | js/app.js:480-483 | the filter keeps well-formed records well formed |
| ContentStore.FindFirst | js/app.js:495 | `find` by id: the index of the first record with that id, or none when no record has it |
| ContentStore.Lookup | js/app.js:490-503 | a read returns a live record with the id from the list; for the first record with the id, the result is that record if it is live and null otherwise; null when the id is absent |
| ContentStore.FirstLive | js/app.js:490-503 | reference definition: null exactly when no live record has the id, else the first live one |
| ContentStore.LookupSkip | js/app.js:495 | a record with another id in front does not change the read |
| ContentStore.LookupAfterPrune | js/app.js:480-502 | after the clean-up, a read returns the first LIVE record with the id, whatever expired records came before it |
| ContentStore.LookupAgreesWithFirstLive | js/app.js:490-503 | whenever a read finds something, it is the first live record with the id |
| ContentStore.FirstLiveAppend | js/app.js:477 | appending a record changes the first live match only when no earlier live record has the id |
| ContentStore.Store.constructor | js/app.js:474 | a store starts from the stored list, and is valid when every stored record is well formed |
| ContentStore.Store.Save | js/app.js:455-487 | the new list is the old list plus the new record, filtered at `now`; equally, the filtered old list followed by the new record; every kept record is live; well-formedness is kept |
| ContentStore.Store.Get | js/app.js:490-503 | the read on the store's list, with the same three guarantees as `Lookup`; in a valid store, a record found is well formed |
| ContentStore.SaveThenGet | js/app.js:455-503 | when no live record has the id, a read right after a save returns exactly the saved record |
| ContentStore.SaveKeepsEarlierRecord | js/app.js:477-499 | when a live record with the id exists, a save does not change what a read returns (first writer wins) |
| ContentStore.ExpiredRecordHidesLaterOne | js/app.js:480-502 | an expired first record with an id hides a later live one from reads, and the next save's clean-up makes the later one visible |
| ContentStore.SaveRemovesExpired | js/app.js:480-483 | a record expired at save time is no longer in the store after the save |
| VideoDisplay.DisplayModes | js/app.js:310-361 | the YouTube player is used exactly for link records mentioning youtube.com or youtu.be; Vimeo exactly for the remaining link records mentioning vimeo.com; the own player for all else, with the record's data; embed sources start with the embed bases at lines 327 and 337 |
| VideoDisplay.DisplayFor | js/app.js:310-361 | no ensures: the viewer's choice of player and address; see `DisplayModes`, `YouTubeWatchLink`, `YouTuBeLink`, `VimeoLink`, `DisplayOther` |
| VideoDisplay.IsYouTubeUrl | js/app.js:376-378 | no ensures: the link contains `youtube.com` or `youtu.be`; see `DisplayModes` |
| VideoDisplay.YouTubeVideoId | js/app.js:381-392 | no ensures: the `v` parameter for youtube.com links, the last `/` piece for youtu.be links, empty otherwise; see `YouTubeByParam`, `YouTubeWatchLink`, `YouTuBeLink`, `YouTubeLinkWithoutVideoParam` |
| VideoDisplay.IsVimeoUrl | js/app.js:395-397 | no ensures: the link contains `vimeo.com`; see `DisplayModes` |
| VideoDisplay.VimeoVideoId | js/app.js:400-409 | no ensures: the last `/` piece of a vimeo.com link, empty otherwise; see `VimeoLink` |
| VideoDisplay.TemplateText | js/app.js:327 | no ensures: a template literal renders a null id as the text `null`; see `YouTubeLinkWithoutVideoParam` |
| VideoDisplay.DisplayYouTube | js/app.js:324-333 | proof step (one branch of `DisplayFor`): a YouTube link is embedded at the YouTube embed base followed by its id as a template literal renders it |
| VideoDisplay.DisplayVimeo | js/app.js:334-343 | proof step (one branch of `DisplayFor`): a Vimeo link that is not a YouTube link is embedded at the Vimeo base followed by its last path piece |
| VideoDisplay.DisplayOther | js/app.js:344-351 | any other link plays directly from the link itself |
| VideoDisplay.YouTubeByParam | js/app.js:384-386 | a youtube.com link whose `v` parameter is `id` is embedded at the embed base followed by `id` |
| VideoDisplay.WatchLinkParam | js/app.js:385-386 | a youtube.com link whose query starts `v=id`, with or without further pairs, has `v` parameter `id`, for an `id` without `&`, `#`, `+` or `%` (characters the host would treat specially) |
| VideoDisplay.YouTubeWatchLink | js/app.js:381-392 | a watch link `base?v=id[&more]` is embedded at the embed base followed by exactly `id`, for an `id` without `&`, `#`, `+` or `%` |
| VideoDisplay.YouTuBeLink | js/app.js:387-389 | a youtu.be link `prefix/id` is embedded at the embed base followed by exactly `id` |
| VideoDisplay.VimeoLink | js/app.js:400-409 | a vimeo.com link `prefix/id` is embedded at the Vimeo base followed by exactly `id` |
| VideoDisplay.YouTubeLinkWithoutVideoParam | js/app.js:384-386 | a youtube.com link without a `v` parameter is embedded at the embed base followed by the text `null` |
| VideoDisplay.YouTubeWatchExample | js/app.js:324-327 | `https://www.youtube.com/watch?v=ABC123` is embedded at the embed base followed by `ABC123` |
| VideoDisplay.YouTuBeExample | js/app.js:387-388 | `https://youtu.be/XYZ789` is embedded at the embed base followed by `XYZ789` |
| VideoDisplay.OtherHostExample | js/app.js:344-347 | `https://example.org/clip.mp4` plays in the page's own player from that address |
| Create.Validate | js/app.js:96-159 | each rejection happens exactly when its condition holds: blank text, blank link, a non-blank link that does not parse, no file, a file over 10 MiB; a read failure is never decided before reading |
| Create.ContentFor | js/app.js:109-187 | the saved content is the trimmed, non-empty text with no source and no media type; the trimmed, non-empty link with source `url` and no media type; or the read data URL with source `file` and the file's type |
| Create.Generate | js/app.js:87-222 | a rejected request and a failed file read save nothing and report their reason; an accepted request saves the new record exactly as `saveContent` does and returns the share link |
| ShareLink.ShareUrl | js/app.js:506-508 | no ensures: origin, path, `?id=` and the id; its property is `ShareUrlRoundTrip` |
| ShareLink.ShareUrlRoundTrip | js/app.js:506-508 | the `id` query parameter of a share link is the id it was built from, when origin and path carry no `?` or `#` and the id no `&`, `#`, `+` or `%` |
| Strings.TrimChars | js/app.js:101 | `trim` returns the middle block of the input with only white space before and after it, and no white space at its ends |
| Strings.TrimEmptyIffBlank | js/app.js:104 | the trimmed text is empty exactly when every character is JavaScript white space |
| Strings.Trim | js/app.js:101 | no ensures: `trim` over JavaScript's white-space set; see `TrimChars`, `TrimEmptyIffBlank` |
| Strings.Contains | js/app.js:377 | no ensures: `includes`, the substring occurs at some position; see `ContainsMiddle`, `NotContainedWithoutChar` |
| Strings.IndexOf | js/app.js:385-386 | helper of the simplified query parsing behind `URLSearchParams`: the position of the first occurrence of a character, or none when it does not occur |
| Strings.AfterFirst | js/app.js:385-386 | helper of the simplified query parsing: the text is what comes before the first occurrence, the character, then the result |
| Strings.Split | js/app.js:404 | `split` gives at least one piece, no piece holds the separator, and joining the pieces gives back the input |
| Strings.SplitUnique | js/app.js:404 | the pieces are the only separator-free list that joins back to the input |
| Strings.LastSegmentSpec | js/app.js:404-405 | the last piece is a suffix with no separator in it, preceded by the separator or equal to the whole text |
| Strings.LastSegmentAfterSep | js/app.js:388 | for `prefix/tail` with no `/` in `tail`, the last piece is `tail` |
| Strings.LastSegment | js/app.js:404-405 | no ensures: the last piece of `split`, as `pop()` at line 388 and `parts[parts.length - 1]`; see `LastSegmentSpec`, `LastSegmentAfterSep` |
| UrlQuery.Search | js/app.js:385 | the query of a URL never contains `#` |
| UrlQuery.FirstValue | js/app.js:385-386 | `get` gives null exactly when no pair has the name, else the value of the first pair with it |
| UrlQuery.SearchAfterBase | js/app.js:385 | the query of `base?query` is `query` |
| UrlQuery.GetLeadingPair | js/app.js:385-386 | a query starting with `key=value` yields `value` for `key` |
| UrlQuery.Get | js/app.js:385-386 | no ensures: `URLSearchParams.get` on a query, split on `&`, without decoding; see `FirstValue`, `GetLeadingPair` |
| UrlQuery.Param | js/app.js:385-386 | no ensures: the named parameter of a URL's query; see `SearchAfterBase`, `WatchLinkParam`, `ShareUrlRoundTrip` |

## Left out

- The DOM: tabs, alerts, the video source switch, copying, downloading the QR image, resetting forms and the not-found message (js/app.js:1-84, 297-307, 363-373, 411-442). Rejections become `CreateError` values.
- QR rendering (js/app.js:224-242): a call into a library that is not part of this model.
- `generateUniqueId` (js/app.js:444-452): its randomness, clock and SHA-256 hash are not modelled. The id is a parameter of `Create.Generate`.
- Reading a file (js/app.js:161-209): the asynchronous FileReader and its progress percentage are not modelled. Only the outcome is, as the `fileRead` parameter (None when the read fails).
- Browser storage: the JSON text in `localStorage` is modelled as a list of records, with the JSON round trip taken as lossless. A storage quota error thrown by `setItem` is not modelled.
- Dates: times are integer milliseconds, and `now` is a parameter. ISO-8601 strings, `formatDate` and the expiry text of the view page are not modelled.
- ContentStore.ExpiryFor: does not model the `RangeError` that `toISOString` throws for a date beyond ±8.64e15 ms. Integers here are unbounded.
- Create.Validate: the day count is an integer. A `parseInt` result of NaN behaves like 0 here, which matches the code's `expirationDays > 0` test.
- Create.Validate: whether `new URL` accepts a link is the `parsesAsUrl` field, because WHATWG URL parsing is not modelled.
- VideoDisplay.YouTubeVideoId: assumes a stored youtube.com link parses as a URL. `new URL` throwing there (js/app.js:385) is not modelled, since links only enter the store after passing that parse.
- UrlQuery.Get: does not percent-decode or turn `+` into a space as `URLSearchParams` does. It splits on `&` and on the first `=` only, and ignores empty pairs as the host does.
- UrlQuery.Search: takes the text after the first `?` before the first `#`, and does not normalise the URL as `new URL` would.
- `viewContentById` and `showSharedContent` (js/app.js:245-294): page routing around `getContent`, `getShareUrl` and `displayVideoContent`, which are modelled. Text records are shown as text without any decision to model.
- Several open tabs writing the same storage at once: not modelled. Each save is one atomic step.
