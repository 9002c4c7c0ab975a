# Downloader response normalisation, in Dafny

This project models the part of each extractor of the `Downloader` class
(`src/scraper/downloader.ts`) that runs once the upstream service has
answered. Each extractor turns what came back into a result envelope:
`{ creator, status: 200, result }` on success and
`{ creator, status: false, msg }` on failure. `ytMp3Downloader` is the
exception: it resolves with a flat object or rejects its promise.

Every HTTP exchange is an input `Fetched<T>`. It either delivers a body or
throws. The body is already reduced to what the extractor reads from it:
the cheerio selector results (optional attribute strings, texts, one record
per matched element) or the JSON fields. With that, each extractor is a
deterministic function of its inputs.

- `JsText` and `JsNumber` state the JavaScript built-ins the extractors
  rely on: `trim`, `toLowerCase`, `indexOf`/`includes`, `split`/`join`, and
  `parseInt` without a radix. `parseInt` skips white space, takes an
  optional sign, switches to base 16 after `0x`, and reads the longest
  digit prefix; `NaN` is `None`.
- `FieldChain` states `a || b || ''` on optional strings.
- `Counts` holds the two engagement-count policies. The V1 policy expands
  `K` to `000` and drops `,`. The V2 policy deletes `K`, `M` and `,`.
- One module per extractor: `Facebook`, `TikTokV1`, `TikTokV2`,
  `Instagram`, `YouTube`, `YtMp3`, `Sfile`.

Where the source works step by step, the model does too, and each loop is
proved against a specification function:

- the carousel `slides.each` loop is `TikTokV1.CollectSlideLinks`;
- the Instagram `.each` loop is `Instagram.CollectMediaItems`;
- the YouTube `forEach` over formats is `YouTube.BuildDownloadLinks`;
- the extractors that contain these loops, and the two TikTok extractors
  with their `let` counters, are methods.

Everything else is a function.

Where the tests and the code disagree, the model follows the code:

- `"5.1K"` reads as 5 under the V1 policy. `K` becomes `000`, giving
  `5.1000`, and `parseInt` stops at the point. The tests expect 5100 and
  4800 (tests/downloader.test.ts:96 and :158).
- A carousel post has type `images`, not `carousel`
  (tests/downloader.test.ts:152).
- The tests call `tiktokDownloader` and `tiktokDownloaderAdvanced`. Neither
  exists in the code; the model has `tiktokDownloaderV1` and
  `tiktokDownloaderV2` only.

## Model

| member | source | states |
|---|---|---|
| Envelope.Message | src/scraper/downloader.ts:85-91 | a thrown `Error` contributes its message; any other thrown value gives `Unknown error` |
| Envelope.Caught | src/scraper/downloader.ts:85-91 | the catch block of every `async` extractor answers with a failure envelope carrying the creator and that message |
| JsText.Trim | src/scraper/downloader.ts:118-120 | `trim()` returns the slice of the input left after removing white space at both ends; the removed characters are all white space and the result neither starts nor ends with white space |
| JsText.TrimAround | src/scraper/downloader.ts:118-125 | `trim()` ignores any white space added before or after a text |
| JsText.IndexOf | src/scraper/downloader.ts:380 | `indexOf` finds the first occurrence, and there is none before it; `None` means no occurrence at all |
| JsText.ToLower | src/scraper/downloader.ts:380 | `toLowerCase()` keeps the length and maps each ASCII letter to lower case |
| JsText.Before | src/scraper/downloader.ts:592 | the text before the first occurrence of `sep`: a prefix of the text with no occurrence of `sep` starting inside it, followed by an occurrence of `sep` unless it is the whole text |
| JsText.Split | src/scraper/downloader.ts:592 | the first piece of `split(sep)` is the text before the first `sep`; the result is the input alone exactly when `sep` does not occur, and has at least two pieces when it does |
| JsText.SplitRest | src/scraper/downloader.ts:592 | after the first piece, the pieces are those of the text following the first `sep` |
| JsText.JoinSplit | src/scraper/downloader.ts:458-460 | joining the pieces of a split with the same separator gives back the input |
| JsText.SplitJoin | src/scraper/downloader.ts:458-460 | splitting a join gives back the pieces when none of them contains the separator's first character |
| JsText.SplitFirst | src/scraper/downloader.ts:592 | a piece free of the separator's first character is split off first |
| JsNumber.ParseInt | src/scraper/downloader.ts:126-128 | `parseInt` without a radix; what it reads is stated by the lemmas below |
| JsNumber.ParseIntAfterSpace | src/scraper/downloader.ts:253 | leading white space is skipped: prefixing any amount of it changes nothing |
| JsNumber.ParseIntSigned | src/scraper/downloader.ts:126-128 | a leading `-` negates the digit run that follows and a leading `+` keeps it |
| JsNumber.ParseIntDigitsThen | src/scraper/downloader.ts:126-128 | `parseInt` reads a leading run of decimal digits up to the first character that cannot continue it |
| JsNumber.ParseIntDecimal | src/scraper/downloader.ts:594-595 | `parseInt` reads back every decimal rendering exactly |
| JsNumber.ParseIntNoDigits | src/scraper/downloader.ts:253 | a string without decimal digits gives `NaN` |
| JsNumber.ParseIntOnlyZeros | src/scraper/downloader.ts:126-128 | when every digit is a `0` and zeros come in runs of at least two, `parseInt(..) \|\| 0` is 0 |
| JsNumber.DecimalValue | src/scraper/downloader.ts:594-595 | the value of the decimal rendering of `n` is `n` |
| JsNumber.ValueAppend | src/scraper/downloader.ts:126-128 | reading digits is positional: the digits of the tail are the low places |
| JsNumber.OrZero | src/scraper/downloader.ts:126-128 | `\|\| 0` turns `NaN` into 0 and keeps a number |
| FieldChain.OrEmpty | src/scraper/downloader.ts:81-82 | `x \|\| ''` is non-empty exactly when `x` is present and non-empty, and is then `x` |
| FieldChain.NonEmpty | src/scraper/downloader.ts:563-566 | `x \|\| null` is present exactly when `x` is present and non-empty |
| FieldChain.FirstNonEmpty | src/scraper/downloader.ts:177-179 | an `\|\|` chain yields `''` exactly when every candidate is falsy, and otherwise a candidate all of whose predecessors are falsy |
| FieldChain.FirstNonEmptyPicksFirstTruthy | src/scraper/downloader.ts:329-337 | a truthy candidate preceded only by falsy ones is the chain's value |
| Counts.ExpandK | src/scraper/downloader.ts:126-128 | the V1 replacement leaves no `K` and no `,`, and adds no character other than `0` |
| Counts.CountV1 | src/scraper/downloader.ts:125-128 | the V1 count of a text; what it reads is stated by the `CountV1` lemmas below |
| Counts.CountV1Plain | src/scraper/downloader.ts:125-128 | V1: a plain number such as `55` or `733` reads as itself |
| Counts.CountV1Thousands | src/scraper/downloader.ts:125-128 | V1: `nK` reads as `n * 1000` (`12K` is 12000) |
| Counts.CountV1Grouped | src/scraper/downloader.ts:125-128 | V1: a thousands comma is ignored (`1,234` is 1234) |
| Counts.CountV1Groups | src/scraper/downloader.ts:125-128 | V1: any number of thousands commas is ignored: comma-joined digit groups read as the number their digits spell (`1,234,567` is 1234567) |
| Counts.CountV1Fraction | src/scraper/downloader.ts:125-128 | V1: nothing after a decimal point counts (`5.1K` is `5.1000`, read as 5) |
| Counts.CountV1NonNumeric | src/scraper/downloader.ts:125-138 | V1: empty text and text without digits read as 0, whatever `K`s, commas or signs it holds |
| Counts.CountV1Padded | src/scraper/downloader.ts:125-128 | V1: white space of any kind around a counter text changes nothing, so the V1 results above hold for padded texts too |
| Counts.ExpandKAppend | src/scraper/downloader.ts:126-128 | the V1 replacement works character by character: it distributes over concatenation |
| Counts.ExpandKKeeps | src/scraper/downloader.ts:126-128 | the V1 replacement keeps every character other than `K` and `,`, in order |
| Counts.ExpandKReplaces | src/scraper/downloader.ts:126-128 | wherever it stands, a `K` becomes exactly `000` and a `,` disappears |
| Counts.StripKM | src/scraper/downloader.ts:253 | the V2 deletion leaves no `K`, `M` or `,`, never lengthens the text and adds no character |
| Counts.StripKMAppend | src/scraper/downloader.ts:253 | the V2 deletion distributes over concatenation |
| Counts.StripKMKeeps | src/scraper/downloader.ts:253 | the V2 deletion keeps every character other than `K`, `M` and `,`, in order |
| Counts.StripKMDeletes | src/scraper/downloader.ts:253 | wherever it stands, a `K`, `M` or `,` disappears |
| Counts.CountV2 | src/scraper/downloader.ts:252-256 | V2: a JSON number passes through unchanged and an absent counter is 0 |
| Counts.CountV2Suffixed | src/scraper/downloader.ts:252-256 | V2: `nK` and `nM` read as `n` |
| Counts.CountV2Fraction | src/scraper/downloader.ts:252-256 | V2: nothing after a decimal point counts (`5.1K` is 5, `1.2M` is 1) |
| Counts.CountV2Groups | src/scraper/downloader.ts:252-256 | V2: comma-joined digit groups read as the number their digits spell |
| Counts.CountV2NonNumeric | src/scraper/downloader.ts:252-274 | V2: a string without digits counts as 0 |
| Counts.PoliciesDiffer | src/scraper/downloader.ts:125-138 | for every `n > 0`, V1 reads `nK` as 1000 times what V2 reads, so the two disagree |
| Facebook.FacebookDownloader | src/scraper/downloader.ts:69-91 | fails with `No video or image found in the response.` exactly when both sources are missing or empty; on success each field is its source or `''`, at least one is non-empty, and a transport error becomes its message |
| TikTokV1.SlideLinks | src/scraper/downloader.ts:146-155 | the carousel links: at most one per slide, each non-empty and carried by some slide |
| TikTokV1.SlideLinksAppend | src/scraper/downloader.ts:146-155 | the links of consecutive runs of slides concatenate, so document order is kept |
| TikTokV1.SlideLinksMembers | src/scraper/downloader.ts:146-155 | a link is collected exactly when it is non-empty and some slide carries it |
| TikTokV1.SlideLinksEmpty | src/scraper/downloader.ts:146-159 | no link is collected exactly when every slide lacks one |
| TikTokV1.SlideLinksAllPresent | src/scraper/downloader.ts:146-155 | when every slide has a link, the links are the slides' own, position by position |
| TikTokV1.CollectSlideLinks | src/scraper/downloader.ts:146-155 | the loop collects exactly the non-empty slide links in order |
| TikTokV1.VideoLink | src/scraper/downloader.ts:177-179 | the video link is `''` exactly when none of its three sources is present and non-empty |
| TikTokV1.VideoLinkFallback | src/scraper/downloader.ts:177-179 | the video link is the watermark-free href, else the HD direct URL, else the alternative HD direct URL, else `''` |
| TikTokV1.TikTokDownloaderV1 | src/scraper/downloader.ts:117-207 | with slides: fails with the carousel message exactly when no slide has a link, else yields the images; without slides: fails with the required-data message exactly when author, caption or video link is empty, else yields the video; fields are trimmed texts, V1 counts and `\|\| ''` defaults |
| TikTokV2.ItemType | src/scraper/downloader.ts:281 | an item's type defaults to `Video` and is never empty |
| TikTokV2.NormalizeItem | src/scraper/downloader.ts:280-322 | images, unknown types and failed secondary requests keep the payload's link, quality and size; a resolved `Video`/`Music` item takes the resolved link when there is one, and the payload's quality and size take precedence over the resolved ones |
| TikTokV2.ImageIgnoresFetch | src/scraper/downloader.ts:286-294 | an image item does not depend on any secondary request |
| TikTokV2.NormalizeItems | src/scraper/downloader.ts:279-323 | one output item per input item, in the same order |
| TikTokV2.Accepted | src/scraper/downloader.ts:240-244 | the payload is accepted exactly when `api` is there and its `status` is `OK` |
| TikTokV2.Stats | src/scraper/downloader.ts:246 | a missing `mediaStats` object leaves every counter absent |
| TikTokV2.User | src/scraper/downloader.ts:276 | `apiData.userInfo \|\| {}`: the user object when present; otherwise name, username and avatar are all absent |
| TikTokV2.TikTokDownloaderV2 | src/scraper/downloader.ts:240-347 | succeeds exactly when `api` is there with `status` `OK`, else fails with the retrieval message; the four counters follow the V2 policy independently; author is `name \|\| title \|\| ''`; the preview URL falls back to the image preview; media items are normalised in order |
| Instagram.IsVideo | src/scraper/downloader.ts:379-381 | a block is a video exactly when its trimmed, lower-cased link text contains `video` or it holds a video icon |
| Instagram.ItemOf | src/scraper/downloader.ts:377-390 | an item's url is the block's link; it is a video exactly when the trimmed, lower-cased link text contains `video` or a video icon is present; it has a preview exactly when the preview source is non-empty |
| Instagram.MediaItems | src/scraper/downloader.ts:375-392 | the items of the blocks: at most one per block, each with a non-empty url |
| Instagram.MediaItemsAppend | src/scraper/downloader.ts:375-392 | items of consecutive runs of blocks concatenate, so document order is kept |
| Instagram.MediaItemsFromBlocks | src/scraper/downloader.ts:375-392 | every item comes from a block with a link, and every block with a link yields its item |
| Instagram.MediaItemsEmpty | src/scraper/downloader.ts:375-395 | no item is emitted exactly when no block has a link |
| Instagram.VideoInAnyCase | src/scraper/downloader.ts:379-381 | link text containing `video` in any ASCII case marks the block as a video |
| Instagram.CollectMediaItems | src/scraper/downloader.ts:374-392 | the loop emits exactly the items of the blocks with a link, in order |
| Instagram.InstagramDownloader | src/scraper/downloader.ts:373-407 | fails with `No media items found in the response.` exactly when no block has a link; otherwise the result is the non-empty list of items |
| YouTube.FindMedia | src/scraper/downloader.ts:543-548 | `find` yields the first entry of the requested type, or nothing exactly when there is none |
| YouTube.DownloadLinks | src/scraper/downloader.ts:550-556 | every key of the dictionary is a quality followed by `p` |
| YouTube.DownloadLinksKeys | src/scraper/downloader.ts:550-556 | the dictionary's keys are exactly the formats' `quality + "p"` |
| YouTube.DownloadLinksLastWins | src/scraper/downloader.ts:550-556 | a key maps to the link of the last format with that quality: later duplicates overwrite |
| YouTube.BuildDownloadLinks | src/scraper/downloader.ts:550-556 | the loop builds exactly the dictionary of the formats written in order |
| YouTube.FormatsOf | src/scraper/downloader.ts:567 | `videoMedia?.formats \|\| []`: the video entry's formats, or none when the entry or its formats are missing |
| YouTube.YoutubeDownloader | src/scraper/downloader.ts:541-576 | a payload that arrives always succeeds; thumbnail and video come from the first video entry and audio from the first audio entry, each only when non-empty; formats default to `[]`; links are built from the video entry's formats |
| YtMp3.CookiePair | src/scraper/downloader.ts:459 | a cookie pair is the prefix of its `set-cookie` entry up to the first `;` |
| YtMp3.CookiePairs | src/scraper/downloader.ts:458-459 | one cookie pair per `set-cookie` entry, in order, each that entry's prefix up to its first `;` |
| YtMp3.CookieHeader | src/scraper/downloader.ts:454-464 | an absent `set-cookie` header gives the fixed fallback cookies; a present but empty list gives `''` |
| YtMp3.CookieHeaderPairs | src/scraper/downloader.ts:457-460 | a non-empty header splits back on `"; "` into exactly one pair per entry, in order |
| YtMp3.PageUrl | src/scraper/downloader.ts:466 | the page URL is `https://ryin.info/` followed by the slug |
| YtMp3.CatchAll | src/scraper/downloader.ts:496-502 | anything thrown along the chain rejects with `{creator, status: false, error}`; `error` is present exactly when an `Error` was thrown, and is then that `Error`'s message |
| YtMp3.YtMp3Downloader | src/scraper/downloader.ts:438-503 | an unsuccessful conversion rejects with a bare `Failed to fetch video data` whatever the later hops would do; a thrown hop rejects with the envelope; a page without a link rejects with a bare `Download link not found on page`; otherwise it resolves with `status: true`, the video details, the formatted size and the link read from the slug's page fetched with the built cookie header |
| YtMp3.ResolvedThroughAllHops | src/scraper/downloader.ts:438-491 | resolution needs every hop to answer, and the link is what the slug's page answered |
| Sfile.Mimetype | src/scraper/downloader.ts:592 | for every text: `''` when the text has no `" - "`; otherwise the text after the first `" - "`, cut at the next `" - "` and then at the first line break |
| Sfile.MimetypeOfListing | src/scraper/downloader.ts:592 | for a listing `label - type` followed by a line break, where label and type contain no `" - "`, the label does not end in `" -"` and the type has no line break, the mimetype is the type |
| Sfile.SeparatorAfterLabel | src/scraper/downloader.ts:592 | the first `" - "` is the one after a label that holds none and does not end in `" -"` |
| Sfile.DownloadLink | src/scraper/downloader.ts:593-596 | without a link the download is `''`; with one it is the link, `&k=` and two digits that `parseInt` reads back as `k` |
| Sfile.SfileDownloader | src/scraper/downloader.ts:590-609 | a page that arrives always succeeds; filename is the image `alt` or `''`, and mimetype and download are as above |

## Left out

- HTTP requests, their headers and bodies are not modelled. Each exchange is an input that delivers a body or throws.
- cheerio selector evaluation is not modelled: selector results are inputs. A `.text()` over several matches is taken as one given string.
- `Promise.all` in `tiktokDownloaderV2` is modelled as a sequential map, because the items are independent and the output order is the input order. The promise nesting of `ytMp3Downloader` is modelled as a function of its three answers.
- The size formatting of `Generator.formatFileSize` is a parameter, because its code is not part of this model. The YouTube timestamp and footer only feed request headers, so they are left out.
- `Math.random` in `sfileDownloader` is not modelled: `k` is a parameter with 10 ≤ `k` ≤ 15.
- `global.creator` is a constant holding the source's characters exactly.
- Numbers are unbounded integers. The floating-point rounding of very long digit strings in `parseInt`, and `NaN` or non-integral JSON numbers in V2 counters, are not modelled.
- JsText.ToLower: maps ASCII letters only. The Unicode case mapping of `toLowerCase()` is not modelled.
- `TypeError`s raised by absent nested JSON objects are not modelled. Examples: a YouTube payload without `medias`, and a converter reply without `data`. Their messages come from the JavaScript engine. The model takes those objects as present.
- JSON fields of unexpected types are not modelled. Examples: a non-string `type`, or a boolean counter. Strings are modelled as strings; counters, and the converter's `view_count` that `ytMp3Downloader` passes on, as numbers, strings or absent.
- example/debug-tiktok-structure.cjs is a debugging script that writes files and logs, and is not part of this model.
