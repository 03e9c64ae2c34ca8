# Twitter Media Downloader — a Dafny model of its core

Twitter Media Downloader is a user script for x.com / twitter.com. It adds a
download button to each tweet that has media. A click looks the tweet up
through the site's GraphQL `TweetDetail` endpoint. It asks for each photo at
original size, takes a video's highest-bitrate mp4 variant (or the bare
`{bitrate: 0}` seed when no mp4 variant has a positive bitrate) and an
animated gif's first mp4 variant, fetches them, and saves a zip archive.
The archive holds the numbered media files, a `metadata.txt` and a Windows
`.url` shortcut to the tweet.

This project models the three parts of the script that hold its logic:

- **Request** (`request.dfy`): `getCookie`, the `;`/`=` cookie parser
  with its `reduce` into a dictionary, and the four request headers built
  from it.
- **Resolver** (`resolver.dfy`): the part of `fetchTweetData` after the
  HTTP call. The JSON response is a tree of optional fields. The resolver
  walks the optional-chaining path to the first timeline entry
  `tweet-{id}`. Each media item then goes through the `flatMap` callback:
  - a photo gives its `media_url_https` plus `?name=orig`;
  - a video gives the `reduce` seeded with `{bitrate: 0}` over its mp4
    variants: the first one with the highest positive bitrate, or the bare
    seed when none has a positive bitrate;
  - an animated gif gives its first mp4 variant.

  A thrown error anywhere makes the whole result empty.
- **Packager** (`packager.dfy`): `downloadMedia`, as a method with the
  source's loop. It does the following:
  - matches the status link with the source's regular expression, searched
    leftmost as `String.prototype.match` does, and normalises the link;
  - builds the metadata text;
  - walks the descriptors and puts each fetched file into the archive under
    `{handle}_{id}_{n}.mp4|jpg`;
  - adds `metadata.txt` and the shortcut, and names the archive.

  The method is proved equal to a loop-free specification, `Manifest`. The
  module `ArchiveFacts` proves the archive's properties on that
  specification.

Two support modules give the JavaScript behaviour the script relies on:

- `js_text.dfy` covers `split` with a one-character separator and `trim`
  with ECMAScript's exact white-space set. It also covers how a template
  literal renders a non-negative integer and `undefined`.
- `js_array.dfy` covers `find` and `filter`.

`wrappers.dfy` holds the `Option` type. `None` stands for JavaScript's
`undefined` or `null`, and for a failed fetch.

Stated in the model's own terms:

- The network is a parameter. The HTTP response is a `Response` value.
  Each media fetch is given as its outcome: the bytes, or `None` when
  `fetch` or `blob()` rejects.
- The archive is the sequence of entries handed to the zip library, in
  order.
- `document.cookie`, the tweet's caption and the date text are string
  parameters.

Some of the code's behaviour may be unexpected. The model follows the code
in each case:

- Media files are numbered by successful fetches, not by position. A failed
  fetch is logged and skipped, and the next success takes its number.
- Nothing is retried.
- Nothing remembers which tweets were already downloaded.
- A video with no mp4 variant of positive bitrate still yields the bare seed
  `{bitrate: 0}`.
  - `downloadMedia` checks `content_type === 'video/mp4'` to choose the
    branch. The seed has no content type, so it takes the image branch.
  - There it is fetched from, and written into the metadata as, the string
    `[object Object]`, and it is named `.jpg`.
  - `Packager.SourceUrl` and `Packager.Extension` give this, and
    `Resolver.VideoChoiceSeedExample` shows it.
- An animated gif is not compared by bitrate. The first mp4 variant is
  taken (`Resolver.GifChoiceExample`).

## Model

| member | source | states |
|---|---|---|
| `JsText.Split` | TwitterMediaDownloader.js:21-22 | `split` with a one-character separator always returns at least one piece, no piece contains the separator, and there is exactly one piece when the string has no separator |
| `JsText.JoinSplit` | TwitterMediaDownloader.js:21-22 | joining the pieces of a split with the separator gives back the original string |
| `JsText.SplitJoin` | TwitterMediaDownloader.js:21-22 | splitting a join of separator-free pieces gives back exactly those pieces |
| `JsText.Trim` | TwitterMediaDownloader.js:22 | `trim` returns the infix of the string left once ECMAScript white space is cut from both ends; what is cut is all white space and what is left neither starts nor ends with any |
| `JsText.TrimOfTrimmed` | TwitterMediaDownloader.js:22 | a string with no white space at either end is its own trim |
| `JsText.TrimPadded` | TwitterMediaDownloader.js:22 | `trim` removes white space of any length around a string that starts and ends visibly, and nothing of the string itself |
| `JsText.TrimOneTrailing` | TwitterMediaDownloader.js:189 | trimming a text that starts and ends visibly, plus one trailing white-space character, removes exactly that character |
| `JsText.NatToString` | TwitterMediaDownloader.js:174 | `${mediaIndex}` is a non-empty run of decimal digits with no leading zero |
| `JsText.DecimalRoundTrip` | TwitterMediaDownloader.js:174 | reading back the decimal rendering of a number gives the number |
| `JsText.NatToStringInjective` | TwitterMediaDownloader.js:174-179 | different media indices render differently |
| `JsArray.Find` | TwitterMediaDownloader.js:99 | `find` gives `undefined` exactly when no element satisfies the predicate; otherwise it gives an element of the array that satisfies it |
| `JsArray.FindFirst` | TwitterMediaDownloader.js:99 | `find` returns the element at the first index that satisfies the predicate |
| `JsArray.Filter` | TwitterMediaDownloader.js:117-118 | `filter` keeps exactly the elements that satisfy the predicate, and no more elements than there were |
| `JsArray.FilterAppend` | TwitterMediaDownloader.js:117-118 | filtering commutes with concatenation, so the kept elements stay in their order |
| `Request.ParsePiece` | TwitterMediaDownloader.js:22 | the name of a piece is free of `=` and of white space at its ends; the value is `undefined` exactly when the piece has no `=`, and otherwise is free of `=` and of white space at its ends |
| `Request.ParsePieceOfPair` | TwitterMediaDownloader.js:22 | a piece `name=value` with white space of any length around the name and the value (as in `" lang = fr "`) parses to that name and value, trimmed |
| `Request.ParsePieceCutsAtSecondEquals` | TwitterMediaDownloader.js:22 | destructuring keeps only the first two `=`-parts: in `name=value=more` the value is `value` |
| `Request.Jar` | TwitterMediaDownloader.js:21-25 | the dictionary the `reduce` builds has exactly the names of all cookie pieces as its keys |
| `Request.JarLastWins` | TwitterMediaDownloader.js:21-25 | a later piece with the same name overwrites an earlier one: the last piece with a name gives its value |
| `Request.GetCookie` | TwitterMediaDownloader.js:26-29 | the language returned is never empty (`|| 'en'`) |
| `Request.GetCookieAbsent` | TwitterMediaDownloader.js:26-29 | with no `lang` piece the language is `en`; with no `ct0` piece the CSRF token is empty |
| `Request.GetCookieLastPiece` | TwitterMediaDownloader.js:20-30 | the language and the CSRF token are the values of the last `lang` and `ct0` pieces, and an empty or missing value falls back to the default |
| `Request.GetCookieOfTwo` | TwitterMediaDownloader.js:20-30 | the cookie string `ct0={token}; lang={lang}`, as the browser writes it, gives that token and that language, or `en` when the language is empty |
| `Request.BuildRequest` | TwitterMediaDownloader.js:78-84 | the request goes to the TweetDetail endpoint for the given tweet id, with exactly the four headers: the fixed bearer credential, `x-twitter-active-user: yes`, and the language (never empty) and CSRF token `getCookie` returns |
| `Request.RequestHeadersFromCookie` | TwitterMediaDownloader.js:78-84 | the language and CSRF headers are the last `lang` and `ct0` cookie values, with their defaults |
| `Request.RequestWithoutCsrfCookie` | TwitterMediaDownloader.js:83 | without a `ct0` cookie the `x-csrf-token` header is empty |
| `Resolver.TweetResultFor` | TwitterMediaDownloader.js:99-100 | a tweet result is found only under the first instruction's entries, and it is the `tweet_results.result` of an entry whose id is `tweet-{id}` |
| `Resolver.HighestBitrate` | TwitterMediaDownloader.js:119-121 | the `reduce` result carries a bitrate at least that of every variant. It is the seed exactly when no variant has a positive bitrate; otherwise it is the copy of such a variant |
| `Resolver.HighestBitrateFirstMax` | TwitterMediaDownloader.js:119-121 | because the comparison is strict, the first variant carrying the maximum bitrate wins |
| `Resolver.VideoChoice` | TwitterMediaDownloader.js:116-127 | a video always yields a descriptor with a non-negative bitrate: the seed, or the copy of an mp4 variant with a positive bitrate |
| `Resolver.VideoChoiceMaximal` | TwitterMediaDownloader.js:116-127 | a video yields a descriptor whose bitrate is at least that of every mp4 variant. It is the seed exactly when no mp4 variant has a positive bitrate; otherwise it is an mp4 descriptor with a positive bitrate |
| `Resolver.VideoChoiceFirstMax` | TwitterMediaDownloader.js:116-127 | a video yields the first mp4 variant carrying the highest bitrate, whatever the non-mp4 variants hold |
| `Resolver.VideoChoiceExample` | TwitterMediaDownloader.js:116-127 | of mp4 bitrates 100, 500 and 300, the 500 variant is chosen |
| `Resolver.VideoChoiceSeedExample` | TwitterMediaDownloader.js:117-127 | a video whose only variant is not mp4 yields the bare `{bitrate: 0}` descriptor |
| `Resolver.GifChoice` | TwitterMediaDownloader.js:128-136 | an animated gif yields nothing exactly when it has no mp4 variant, and otherwise the copy of one of its mp4 variants |
| `Resolver.GifChoiceFirst` | TwitterMediaDownloader.js:128-136 | an animated gif yields its first mp4 variant |
| `Resolver.GifChoiceNone` | TwitterMediaDownloader.js:128-136 | an animated gif yields nothing exactly when it has no mp4 variant |
| `Resolver.GifChoiceExample` | TwitterMediaDownloader.js:128-136 | a gif's first mp4 variant is chosen even when a later one has a higher bitrate |
| `Resolver.ItemOutcomeOf` | TwitterMediaDownloader.js:113-138 | the `flatMap` callback yields a photo URL exactly for a photo. A video with variants yields exactly `VideoChoice` of them: the seed or an mp4 of positive bitrate. A gif with variants is skipped exactly when `GifChoice` finds no mp4 variant and otherwise yields that choice. Only items of other kinds, and gifs without an mp4 variant, are skipped |
| `Resolver.PhotoOutcome` | TwitterMediaDownloader.js:114-115 | a photo yields `media_url_https` followed by `?name=orig` (`undefined?name=orig` when the field is missing) |
| `Resolver.ItemOutcomeThrows` | TwitterMediaDownloader.js:113-139 | an item throws exactly when it is a video or gif without `video_info.variants`; an item of another kind contributes nothing; only photos yield photo URLs |
| `Resolver.Collect` | TwitterMediaDownloader.js:113-144 | the `flatMap` succeeds exactly when no item throws, and yields at most one descriptor per item |
| `Resolver.CollectAppend` | TwitterMediaDownloader.js:113-139 | `flatMap` concatenates in order: the result for a list is the result for its first part followed by that for its second part |
| `Resolver.CollectAllYield` | TwitterMediaDownloader.js:113-139 | when every item yields, the result has one descriptor per item, in order |
| `Resolver.ResolveMedia` | TwitterMediaDownloader.js:92-144 | a non-empty result needs an OK response whose target tweet has a media list, and has no more descriptors than that list has items |
| `Resolver.ResolveWithoutTargetEntry` | TwitterMediaDownloader.js:99-105 | a response whose first instruction has no entry `tweet-{id}` resolves to nothing |
| `Resolver.ResolveUsesFirstTargetEntry` | TwitterMediaDownloader.js:99-100 | the tweet result is taken from the first entry `tweet-{id}` of the first instruction |
| `Resolver.ResolveThrowEmpties` | TwitterMediaDownloader.js:141-144 | one media item that throws empties the whole result |
| `Resolver.ResolveIsCollect` | TwitterMediaDownloader.js:107-139 | on an OK response whose target tweet has media and no item throws, the result is the `flatMap` of the media list |
| `Packager.Segment` | TwitterMediaDownloader.js:151 | `[^\/]+` consumes the longest prefix without `/` |
| `Packager.DigitRun` | TwitterMediaDownloader.js:151 | `\d+` consumes the longest prefix of decimal digits |
| `Packager.MatchFrom` | TwitterMediaDownloader.js:151 | a match captures a non-empty handle without `/` and a non-empty run of digits |
| `Packager.ParseStatusLink` | TwitterMediaDownloader.js:151-153 | a match of the status-link pattern captures a non-empty handle without `/` and a non-empty run of digits |
| `Packager.ParseStatusUrl` | TwitterMediaDownloader.js:151-153 | a status link on either host, followed by anything that does not continue the digits, yields its handle and tweet id |
| `Packager.CanonicalLink` | TwitterMediaDownloader.js:156 | the normalised link `https://x.com/{handle}/status/{id}` of a valid handle and id matches the pattern with exactly those captures |
| `Packager.CanonicalLinkStable` | TwitterMediaDownloader.js:155-156 | the normalised `https://x.com/{handle}/status/{id}` link parses back to the same handle and id |
| `Packager.Extension` | TwitterMediaDownloader.js:172-180 | the extension is `mp4` exactly when the descriptor has content type `video/mp4`, and `jpg` otherwise |
| `Packager.SourceUrl` | TwitterMediaDownloader.js:172-181 | what is fetched and written into the metadata: a photo's URL; `media.url` (or `undefined`) for an mp4 descriptor; `[object Object]` for any other descriptor object |
| `Packager.Metadata` | TwitterMediaDownloader.js:163-189 | the `metadata.txt` text has no white space at either end and, for a link that starts and ends visibly, begins with the tweet link |
| `Packager.Manifest` | TwitterMediaDownloader.js:163-190 | the archive holds the successfully fetched items in order, item `k` as file number `k + 1` with its bytes, then `metadata.txt`, then the shortcut `{handle}_{id}.url` holding `[InternetShortcut]` and `URL={link}` |
| `Packager.PutFile` | TwitterMediaDownloader.js:175-180 | `zip.file` under a name not yet in the archive appends one entry at the end |
| `Packager.PutFileReplaces` | TwitterMediaDownloader.js:175-180 | `zip.file` under a name already in the archive replaces that entry's content where it stands and changes nothing else |
| `Packager.MediaNamesDistinct` | TwitterMediaDownloader.js:174-179 | media files with different indices have different names, whatever their extensions |
| `Packager.Survivors` | TwitterMediaDownloader.js:170-187 | the items archived are at most the items given |
| `Packager.HeadLinesText` | TwitterMediaDownloader.js:163-167 | the metadata starts with the link, the caption only when it is non-empty, `@handle` and the date, one per line |
| `Packager.ArchiveStep` | TwitterMediaDownloader.js:170-187 | a failed fetch leaves the archive and the metadata unchanged. A successful one appends the next numbered file and its source line |
| `Packager.ManifestClose` | TwitterMediaDownloader.js:189-190 | adding `metadata.txt` and then the shortcut appends exactly those two entries after the media files |
| `Packager.DownloadMedia` | TwitterMediaDownloader.js:147-196 | the loop's archive equals the specification `Manifest`. The URLs fetched are each item's source URL, in order. The archive is named `{handle}_{id}.zip` |
| `ArchiveFacts.SurvivorsAppend` | TwitterMediaDownloader.js:170-187 | the items archived from two runs of descriptors are those of the first run followed by those of the second |
| `ArchiveFacts.FailedFetchAddsNothing` | TwitterMediaDownloader.js:171-186 | an item whose fetch fails leaves no trace: the archive equals the one built without that item |
| `ArchiveFacts.AllFetchedNumberedByPosition` | TwitterMediaDownloader.js:169-183 | when every fetch succeeds, item `k` becomes file number `k + 1` holding its bytes |
| `ArchiveFacts.NothingFetched` | TwitterMediaDownloader.js:184-190 | when every fetch fails, the archive holds only `metadata.txt` and the shortcut |
| `ArchiveFacts.ManifestNamesDistinct` | TwitterMediaDownloader.js:174-190 | the archive has one entry per successful fetch plus two, and no two entries share a name |
| `ArchiveFacts.Mp4ExtensionIff` | TwitterMediaDownloader.js:172-181 | a media file is named `.mp4` exactly when its descriptor has content type `video/mp4`, and `.jpg` otherwise |
| `ArchiveFacts.MetadataRows` | TwitterMediaDownloader.js:163-189 | when the last line ends in a visible character, `metadata.txt` is its lines joined by line feeds. When no line contains a line feed, splitting the text at line feeds gives back the lines |
| `ArchiveFacts.SecondOfThreeFails` | TwitterMediaDownloader.js:169-186 | of three photos whose second fetch fails, the first and third become files `_1.jpg` and `_2.jpg` |

## Left out

- Network I/O, `async`/`await` and `console.error` are not modelled. The
  HTTP response and each media fetch outcome are parameters. An HTTP error
  status on a media URL still yields a body, which is archived; the model
  covers that as a fetch that returned bytes.
- A body that `response.json()` cannot parse is modelled as a missing body
  (`Response.body` is `None`). It resolves to no media, as the `catch` does
  in the source. The parse itself is not modelled.
- The query string of the TweetDetail request is left out. It is
  `encodeURI` of `JSON.stringify` of constant flag sets. Only the
  `focalTweetId` variable and the headers are modelled.
- The zip library's compression, `generateAsync` and FileSaver's `saveAs`
  are left out. The archive is its ordered list of entries, and the saved
  name is returned.
- The date is an opaque string. It stands for
  `new Date(datetime).toLocaleString()`, which depends on the locale and
  the clock.
- The DOM is left out: `addDownloadButton`, `onDownloadButtonClick`
  (including its check that the media list is non-empty), the
  `MutationObserver` and the `querySelector` lookups. The link, caption
  and date they read are parameters.
- JSON values are typed. A field that holds a value of the wrong JSON type
  is not modelled. Bitrates are integers rather than IEEE doubles. `null`
  is treated like a missing field. That matches what `?.` and the
  truthiness tests do with it, but not how it is rendered as a string.
- Resolver.ItemOutcomeOf: a photo whose `media_url_https` is `null` yields
  `null?name=orig` in the source. The model has no `null`, so it yields
  `undefined?name=orig`.
- Packager.SourceUrl: an mp4 descriptor whose `url` is `null` is fetched
  from, and written into the metadata as, `null` in the source. The model
  uses `undefined`.
- Request.Jar: a cookie piece named `__proto__` is not stored on a plain
  object in JavaScript, so its name is not a key there. The model stores
  it like any other name. The `lang` and `ct0` values are unaffected.
- Packager.DownloadMedia: requires the status link to match the pattern.
  The source reads `tweetParts[1]` on a `null` match and throws, so no
  archive is produced.
