# supermirage-2 feed, modelled in Dafny

supermirage-2 is a photo and video gallery backed by a Backblaze B2 bucket. It
serves one endless, shuffled feed without any server-side session. The model covers
the feed's five parts:

- **Seeded shuffle** (`lib/shuffle.ts`). `shuffleArray` copies the list and runs a
  downward Fisher–Yates pass. Its swap indices come from a 32-bit linear
  congruential generator (multiplier 1664525, increment 1013904223, modulus
  2^32). `shuffleArrayRandom` runs the same pass with indices drawn from
  `Math.random()`. Module `Shuffle` has both loops as methods on arrays. They are
  proved against one functional pass, `FisherYatesFrom`, that takes its index draws
  as a sequence.
- **Media endpoint** (`app/api/media/route.ts`), module `MediaRoute`:
  - `getFileType`;
  - the bucket lister `listAllKeys`, with its truncation loop and its 60-second
    key cache (class `KeyCache`);
  - the `GET` handler. It reads `offset` and `order`, mints a seed when no order
    token is given, shuffles the whole list by the token and returns a window of
    24 items with a `nextOffset` cursor.
- **Download URLs** (`lib/backblaze.ts`), module `Backblaze`:
  - local `test/` keys stay local;
  - images go through the `/api/image` proxy;
  - videos get a direct bucket URL;
  - keys are percent-encoded one `/`-segment at a time.
- **Image proxy** (`app/api/image/route.ts`), module `ImageRoute`: the MIME table,
  the upstream URL, and the choice of status and headers once the upstream fetch
  has settled.
- **Client cursor** (`app/hooks/useInfiniteMedia.ts`), module `InfiniteMedia`.
  `getKey` builds each page's request from the page before it. It also derives
  `media`, `isEmpty`, `isReachingEnd` and `loadMore`.

Module `FeedSession` joins the cursor and the endpoint: it loads pages the way
`useSWRInfinite(getKey, fetcher)` does and proves the end-to-end theorem. For n
listed keys, the cursor stops after ⌈n/24⌉ requests (one for an empty bucket).
The items shown are then exactly the whole list in the minted seed's order: each
key once, none missing. The nonce has no effect on any page.

Two helper modules model the JavaScript built-ins the core calls:

- `JsText`: `split`, `join`, `pop`, ASCII `toLowerCase`, `String(n)` for
  integers, and the digit-prefix part of `parseInt`.
- `UrlCodec`:
  - `encodeURIComponent`, with UTF-8 for the encoder;
  - the `application/x-www-form-urlencoded` serializer and parser of section 5
    of the WHATWG URL Standard, as used by `URLSearchParams`;
  - `searchParams.get`.

The bucket's listing responses, the clock, the upstream fetch result and the random
numbers are inputs of the operations that use them.

## Model

| member | source | states |
|---|---|---|
| Shuffle.NextState | lib/shuffle.ts:11-14 | the generator state after a step is below 2^32, so every `random / 2^32` is a fraction in [0, 1) |
| Shuffle.DrawIndex | lib/shuffle.ts:17 | the index drawn while `currentIndex` positions remain lies in [0, currentIndex), so both swap positions are in bounds |
| Shuffle.LcgDraws | lib/shuffle.ts:10-18 | the seeded draws form a valid draw sequence: one per turn, the k-th below length − k |
| Shuffle.Swap | lib/shuffle.ts:21-24 | a swap exchanges the two positions and leaves every other position as it was |
| Shuffle.SwapPermutes | lib/shuffle.ts:21-24 | a swap keeps the multiset of elements |
| Shuffle.SwapElements | lib/shuffle.ts:21-24 | the destructuring assignment changes the array to the swap of its old contents, writing only the two positions |
| Shuffle.FisherYatesFromPermutes | lib/shuffle.ts:16-25 | the downward pass keeps the multiset of elements, whatever valid draws it gets |
| Shuffle.FisherYatesFromKeepsTail | lib/shuffle.ts:16-25 | the pass never touches positions at or above `currentIndex` again; they are final |
| Shuffle.Shuffled | lib/shuffle.ts:5-28 | `shuffleArray(s, seed)` as a value: a list of the same length with the same multiset of elements |
| Shuffle.FisherYatesFromMap | lib/shuffle.ts:16-25 | the pass moves positions without looking at the elements, so it commutes with mapping a function over the list |
| Shuffle.ShuffledMap | lib/shuffle.ts:5-28 | shuffling mapped items equals mapping the shuffled keys: the permutation depends only on length and seed |
| Shuffle.ShuffledShort | lib/shuffle.ts:16-24 | lists of length 0 or 1 come back unchanged |
| Shuffle.SeededStep | lib/shuffle.ts:16-25 | one turn of the seeded loop keeps the loop's promise: the remaining pass with the remaining draws still ends at the same result, and the position just written is final |
| Shuffle.ShuffleArray | lib/shuffle.ts:5-28 | the loop, run on a fresh copy, leaves exactly `Shuffled(source, seed)` in it, which is a permutation of the source; the caller's array is unchanged |
| Shuffle.ScaleDraw | lib/shuffle.ts:39 | the floor of the exact product `r * currentIndex` for r in [0, 1) lies in [0, currentIndex) |
| Shuffle.RandomDraws | lib/shuffle.ts:38-40 | the draws taken from the `Math.random()` results form a valid draw sequence |
| Shuffle.RandomStep | lib/shuffle.ts:38-47 | one turn of the `Math.random` loop keeps the loop's promise: same remaining result, and the position just written is final |
| Shuffle.ShuffleArrayRandom | lib/shuffle.ts:34-50 | the loop leaves the pass over the supplied draws in a fresh copy, which is a permutation of the source; the caller's array is unchanged |
| MediaRoute.GetFileType | app/api/media/route.ts:20-31 | a key is a video exactly when its lower-cased form is, or ends in `.` plus, one of the six video extensions; everything else is an image |
| MediaRoute.KeptKeys | app/api/media/route.ts:58-64 | the keys kept from a response are exactly the keys of its objects with a non-empty `Key` and a positive `Size` |
| MediaRoute.ResponsesRead | app/api/media/route.ts:51-67 | the lister reads responses up to the first one that is not truncated; the listing completes exactly when such a response comes, and otherwise every response is read |
| MediaRoute.PushKept | app/api/media/route.ts:59-63 | the inner loop appends the kept keys of one response, in response order, to those already collected |
| MediaRoute.ListingAdvance | app/api/media/route.ts:57-66 | after one response, the listing is the keys so far followed by the rest of the listing, or it ends there when the response is not truncated |
| MediaRoute.FetchAllKeys | app/api/media/route.ts:44-67 | the loop returns the whole listing in upstream order across responses (none when the responses run out, i.e. a request fails) and makes exactly `ResponsesRead` requests |
| MediaRoute.KeyCache.constructor | app/api/media/route.ts:34-35 | the cache starts with no stored list and `cachedAt` 0 |
| MediaRoute.KeyCache.ListAllKeys | app/api/media/route.ts:38-72 | a stored list (even an empty one) younger than 60000 ms is returned with no request and the cache untouched; otherwise the bucket is listed and, on success, stored with `cachedAt` set to the `now` read on entry; a failed listing changes nothing |
| MediaRoute.PageItems | app/api/media/route.ts:94 | the page holds `min(24, max(0, n − offset))` items, and item i is shuffled item `offset + i` |
| MediaRoute.PageWindow | app/api/media/route.ts:94-95 | the page is the slice at `offset`; `nextOffset` is present exactly when items remain after it, and then equals `offset + 24`; an offset at or past the end gives an empty page and no cursor |
| MediaRoute.FollowCursorComplete | app/api/media/route.ts:94-95 | following `nextOffset` from any offset in the list until it is absent concatenates to the rest of the list, each item once |
| MediaRoute.ParseOffset | app/api/media/route.ts:81 | an absent `offset`, or one that `parseInt` reads as NaN (empty, or not starting with a digit), gives 0; otherwise the offset is the parsed value |
| MediaRoute.ParseOffsetDecimal | app/api/media/route.ts:81 | a cursor written as `String(nextOffset)` is read back as the same offset |
| MediaRoute.OrderToken | app/api/media/route.ts:84 | the token is never empty; a non-empty `order` parameter is kept unchanged; otherwise the token is a decimal string that `parseInt` reads back as the minted seed |
| MediaRoute.OrderedItems | app/api/media/route.ts:85-92 | the list in the token's order has one item per listed key, and holds the same items as the listing |
| MediaRoute.PageResponse | app/api/media/route.ts:80-101 | the body's items are the window at the parsed offset of the whole list in the token's order; the cursor is present exactly when items remain and then points just past the window |
| MediaRoute.BuildResponse | app/api/media/route.ts:76-101 | the body for a request query holds at most 24 items, each one of the listed items; they are the window at the query's `offset` of the whole list in the token's order, with the cursor just past it exactly when items remain; the order token is non-empty and echoes the query's own non-empty `order` |
| MediaRoute.PageResponseEchoesOrder | app/api/media/route.ts:84 | a non-empty `order` parameter comes back unchanged as the body's `order` |
| MediaRoute.PageResponseListingOrder | app/api/media/route.ts:85-92 | a non-empty `order` that does not parse as a number leaves the items in listing order, unshuffled |
| MediaRoute.PageResponseMintsSeed | app/api/media/route.ts:84-92 | with the `order` parameter absent or empty, the list is shuffled by the minted seed, whose decimal token is returned |
| MediaRoute.PageResponseIgnoresMint | app/api/media/route.ts:84 | once a request carries an order token, the seed that would have been minted plays no part in the body |
| MediaRoute.HandleGet | app/api/media/route.ts:74-116 | the reply is the JSON body for the query over the cached or freshly listed keys, with the 30-second CDN cache header; a failed listing gives status 500 with the body error `Failed to fetch media`; a fresh cache is left as it was, a successful listing is stored with `cachedAt` set to `now`, and a failed one leaves the cache as it was |
| Backblaze.EncodeKeyPerChar | lib/backblaze.ts:25-28 | encoding segment by segment and rejoining equals encoding every character but `/` and keeping each `/` |
| Backblaze.EncodeKey | lib/backblaze.ts:25-28 | the encoded key splits on `/` into exactly the key's segments, each replaced in place by its `encodeURIComponent`, so it has as many segments as the key |
| Backblaze.EncodeKeyRoundTrip | lib/backblaze.ts:25-28 | percent-decoding an encoded ASCII key, with or without `+` handling, gives the key back |
| Backblaze.EncodeKeyQuerySafe | lib/backblaze.ts:25-29 | an encoded ASCII key holds no `&`, `=` or `+`, so it is one query value |
| Backblaze.GetDownloadUrl | lib/backblaze.ts:15-39 | a `test/` key maps to `/` + key; every other key maps to a URL on the bucket origin or to the proxy's `?key=` query, ending in the encoded key |
| Backblaze.TestKeyStaysLocal | lib/backblaze.ts:17-19 | a key under `test/` maps to `/` + key, whatever its extension, and never to the bucket or the proxy |
| Backblaze.DirectUrlIffVideo | lib/backblaze.ts:21-38 | outside `test/`, the bucket URL is chosen exactly when `getFileType` says video, and the proxy URL exactly when it says image; a video key maps to the bucket origin + encoded key, an image key to `/api/image?key=` + encoded key |
| Backblaze.ImageUrlCarriesKey | lib/backblaze.ts:22-29 | for an ASCII image key, the `key` parameter the proxy reads from its download URL is the key itself |
| Backblaze.SingleParamParses | app/api/image/route.ts:28-29 | a query that is one `name=value` piece, with no delimiter in the value, parses to that single pair, decoded |
| Backblaze.VideoUrlNamesKey | lib/backblaze.ts:32-38 | for an ASCII video key, the download URL is on the bucket origin and the path after it decodes back to the key |
| ImageRoute.InferMimeFromKey | app/api/image/route.ts:8-24 | a key has a MIME type exactly when its lower-cased form is, or ends in `.` plus, a table extension, and the type is that entry |
| ImageRoute.JpegAliases | app/api/image/route.ts:8-24 | a key `stem.ext` gets `image/jpeg` exactly when `ext`, in any capitalisation, is `jpg` or `jpeg` |
| ImageRoute.ContentTypeDefault | app/api/image/route.ts:50 | the Content-Type is `application/octet-stream` exactly when the extension is not in the table; every table type is an `image/` type |
| ImageRoute.ContentTypeAsWrittenAgrees | app/api/image/route.ts:21-24 | outside the two inherited member names, the source's object lookup agrees with the table lookup |
| ImageRoute.PrototypeExtensionCounterexample | app/api/image/route.ts:21-24 | for a key ending in `.constructor`, the lookup as written yields the text of the `Object` function, where the table gives octet-stream |
| ImageRoute.MissingKeyRejected | app/api/image/route.ts:28-32 | 400 is returned exactly when `key` is missing or empty, whatever the upstream would have returned |
| ImageRoute.PlanRequest | app/api/image/route.ts:28-41 | a missing or empty `key` is answered with 400 and nothing is fetched; any other key makes the handler fetch that key's bucket URL |
| ImageRoute.UpstreamUrlOnBucket | app/api/image/route.ts:35-39 | for every key, the upstream URL is the bucket origin followed by the encoded key, and for a video key it is the URL `getDownloadUrl` builds |
| ImageRoute.UpstreamUrlNamesKey | app/api/image/route.ts:35-39 | the upstream URL's path decodes back to an ASCII key |
| ImageRoute.ProxyFetchesImageKey | app/api/image/route.ts:28-41 | requesting the URL `getDownloadUrl` gives an ASCII image key makes the proxy fetch that key's bucket URL |
| ImageRoute.Complete | app/api/image/route.ts:41-71 | every reply has a status in 200..599; the upstream body is forwarded exactly when upstream is ok with a body, and then with 200; a rejected fetch gives 500 |
| ImageRoute.UpstreamFailure | app/api/image/route.ts:46-48 | an upstream that is not ok or has no body is answered with its status, or 404 for status 0, as "Not found"; a status a text `Response` cannot carry makes the constructor throw, which the catch turns into 500 |
| ImageRoute.UpstreamSuccess | app/api/image/route.ts:50-67 | a success is 200 with the upstream body, the inferred Content-Type and the immutable Cache-Control; Content-Length, ETag and Last-Modified appear only with the non-empty upstream value; no other header is set |
| ImageRoute.PassedHeaders | app/api/image/route.ts:53-63 | each pass-through header is present exactly when upstream supplied a non-empty value, and carries that value |
| ImageRoute.FixedHeaders | app/api/image/route.ts:60-65 | Content-Type and Cache-Control are always set, to the inferred type and the immutable directive |
| ImageRoute.HeaderNames | app/api/image/route.ts:59-66 | a success sets no header beyond the five names |
| ImageRoute.HandleGet | app/api/image/route.ts:26-72 | every reply has a status in 200..599, and the upstream body is forwarded, with 200, only when the key was present and upstream answered ok with a body |
| InfiniteMedia.GetKey | app/hooks/useInfiniteMedia.ts:15-35 | `getKey` returns no key exactly when a previous page exists and has no cursor; every key it returns is a path under `/api/media` |
| InfiniteMedia.FirstKey | app/hooks/useInfiniteMedia.ts:19-25 | the page-0 key is `/api/media` for nonce 0 and `/api/media?nonce=N` otherwise; the server reads neither `order` nor `offset` from it |
| InfiniteMedia.FirstKeyWithoutNonce | app/hooks/useInfiniteMedia.ts:20-24 | with nonce 0 the first key is the bare path, whose query is empty |
| InfiniteMedia.FirstKeyWithNonce | app/hooks/useInfiniteMedia.ts:20-24 | with a non-zero nonce the first key is `?nonce=N`, which parses to that single pair |
| InfiniteMedia.SerializeNonce | app/hooks/useInfiniteMedia.ts:21-23 | the serialized nonce parameter is `nonce=` followed by `String(nonce)`, untouched by form encoding |
| InfiniteMedia.LaterKey | app/hooks/useInfiniteMedia.ts:27-34 | a later key carries nonce, order and offset in that order; the server reads back the previous page's non-empty order token and its cursor as the offset |
| InfiniteMedia.LaterKeyQuery | app/hooks/useInfiniteMedia.ts:28-34 | the query of a later key parses back to exactly the parameters that were set |
| InfiniteMedia.CarriedOrder | app/hooks/useInfiniteMedia.ts:30 | the `order` read from a later key is the previous token when non-empty, and absent otherwise |
| InfiniteMedia.CarriedOffset | app/hooks/useInfiniteMedia.ts:31-33 | the offset read from a later key is the previous page's cursor |
| InfiniteMedia.FlattenAppend | app/hooks/useInfiniteMedia.ts:46 | loading one more page appends its items to `media` |
| InfiniteMedia.Media | app/hooks/useInfiniteMedia.ts:46 | an item is in `media` exactly when some loaded page holds it; before data arrives `media` is empty |
| InfiniteMedia.IsEmpty | app/hooks/useInfiniteMedia.ts:48 | before data arrives the feed is not empty; once a page is loaded it is empty exactly when the first page adds nothing to `media` |
| InfiniteMedia.IsReachingEnd | app/hooks/useInfiniteMedia.ts:49 | an empty feed is reported as reaching its end, and the end is never reported before data arrives |
| InfiniteMedia.ReachingEndStopsKeys | app/hooks/useInfiniteMedia.ts:48-49 | `isReachingEnd` agrees with `getKey`: while the end is not reached `getKey` still yields a key for the next page, and once it is reached with a non-empty first page `getKey` yields none |
| InfiniteMedia.LoadMore | app/hooks/useInfiniteMedia.ts:57 | `loadMore` asks for more pages than the current size |
| FeedSession.FirstPageServed | app/hooks/useInfiniteMedia.ts:20-24 | the endpoint answers the first key with the window at offset 0 of the list shuffled by the minted seed, under that seed's token |
| FeedSession.LaterPageServed | app/hooks/useInfiniteMedia.ts:27-34 | the endpoint answers a later key with the window at the previous page's cursor of the same shuffled list |
| FeedSession.LoadFrom | app/hooks/useInfiniteMedia.ts:37-44 | the loader fetches at most `size` pages |
| FeedSession.LoadStops | app/hooks/useInfiniteMedia.ts:37-44 | loading stops early only at a page for which `getKey` yields no key: fewer than `size` pages means `getKey` returns null for the page after the last one loaded |
| FeedSession.ServerAnswersWithWindows | app/hooks/useInfiniteMedia.ts:15-44 | the hook's `getKey` and fetcher against the endpoint answer every request with the window at the carried cursor, and stop after a page without one |
| FeedSession.LoadFollowsCursor | app/hooks/useInfiniteMedia.ts:37-44 | pages loaded after a page with a cursor are the successive windows from that cursor |
| FeedSession.LoadFromStart | app/hooks/useInfiniteMedia.ts:37-44 | a session loaded from nothing is the successive windows from offset 0 |
| FeedSession.SessionIsWindows | app/hooks/useInfiniteMedia.ts:37-44 | a session of `size` pages is the first `size` windows of the shuffled list, cut off at the first window without a cursor |
| FeedSession.WindowsCover | app/api/media/route.ts:94-95 | windows from an offset in the list number `min(remaining, ⌈(n − offset)/24⌉)`, concatenate to the matching slice, and the last has no cursor exactly when the slice reaches the end |
| FeedSession.WindowsExtend | app/api/media/route.ts:94-95 | allowing one more window keeps the earlier windows and adds at most one |
| FeedSession.WindowsFromStart | app/api/media/route.ts:94-95 | `size` windows from 0 number `min(size, ⌈n/24⌉)` (one for n = 0), hold the first `24·size` items, and end without a cursor exactly when they cover the list |
| FeedSession.PageCountCovers | app/api/media/route.ts:80 | `size` pages of 24 cover n > 0 items exactly when size ≥ ⌈n/24⌉ |
| FeedSession.SessionPrefix | app/hooks/useInfiniteMedia.ts:46-49 | after `size` pages, `media` is the first `24·size` items of the shuffled list, and `isReachingEnd` holds exactly when `size` ≥ ⌈n/24⌉ |
| FeedSession.WindowsComplete | app/api/media/route.ts:94-95 | enough windows from 0 number exactly ⌈n/24⌉ (one for n = 0), concatenate to the whole list and end without a cursor |
| FeedSession.WindowsFollowCursor | app/api/media/route.ts:94-95 | following `nextOffset` from an offset inside the list until it is absent meets the same items as a window chain from there whose budget reaches the end |
| FeedSession.SessionRequests | app/hooks/useInfiniteMedia.ts:15-17 | a full session makes ⌈n/24⌉ requests (one for n = 0), after which `getKey` yields no key and `isReachingEnd` holds |
| FeedSession.SessionMedia | app/hooks/useInfiniteMedia.ts:46 | a full session's `media` is exactly the list shuffled by the minted seed, so a permutation of the listed items: every key once |
| FeedSession.SessionEmptyIff | app/hooks/useInfiniteMedia.ts:48 | a session of at least one page reports `isEmpty` exactly when the bucket lists no keys |
| FeedSession.SessionComplete | app/hooks/useInfiniteMedia.ts:14-57 | the end-to-end theorem: ⌈n/24⌉ requests, then no key, `media` equal to the whole shuffled list and a permutation of the listing, `isReachingEnd` |
| FeedSession.SessionIgnoresNonce | app/hooks/useInfiniteMedia.ts:22 | the nonce changes no page of a session: the endpoint reads only `order` and `offset` |
| FeedSession.LoadMoreExtends | app/hooks/useInfiniteMedia.ts:57 | after `loadMore` the loaded pages extend the earlier ones by at most one page |
| JsText.Split | lib/backblaze.ts:26 | `split` yields at least one part, and no part contains the separator |
| JsText.JoinSplit | lib/backblaze.ts:26-28 | joining the parts of a split gives the string back |
| JsText.SplitJoin | lib/backblaze.ts:26-28 | splitting a join of separator-free parts gives the parts back |
| JsText.LastSegmentIff | app/api/media/route.ts:21 | `split(sep).pop()` is the unique part that the string ends with and that follows its last separator, or the whole string when there is none |
| JsText.ExtensionIff | app/api/media/route.ts:21 | the last `.`-segment is `ext` exactly when the string is `ext` or ends in `.` + `ext` |
| JsText.LowerLastSegment | lib/backblaze.ts:22 | lower-casing before or after taking the last `.`-segment gives the same extension |
| JsText.DecimalString | app/hooks/useInfiniteMedia.ts:32 | `String(n)` is a non-empty digit string without a leading zero (unless n = 0) |
| JsText.ParseInt | app/api/media/route.ts:85 | `parseInt` gives NaN exactly when the string does not start with a digit |
| JsText.ParseDecimal | app/api/media/route.ts:85 | `parseInt(String(n), 10)` is n |
| UrlCodec.Utf8 | lib/backblaze.ts:27 | a character is encoded as one to four bytes, a single byte equal to its code exactly when it is ASCII |
| UrlCodec.PercentByte | lib/backblaze.ts:27 | a byte becomes `%` and two hex digits whose value is the byte |
| UrlCodec.EncodeUriComponent | lib/backblaze.ts:27 | `encodeURIComponent` output holds only unreserved characters and `%` |
| UrlCodec.UriComponentRoundTrip | app/api/image/route.ts:29 | the urlencoded parser decodes `encodeURIComponent` of an ASCII string back to it |
| UrlCodec.FormEncode | app/hooks/useInfiniteMedia.ts:23 | a form-encoded name or value holds no `&` and no `=` |
| UrlCodec.FormRoundTrip | app/hooks/useInfiniteMedia.ts:34 | form-decoding a form-encoded ASCII string gives it back |
| UrlCodec.QueryRoundTrip | app/hooks/useInfiniteMedia.ts:34 | parsing the serialization of ASCII name/value pairs gives back the same pairs in the same order |
| UrlCodec.Get | app/api/media/route.ts:77-78 | `searchParams.get` finds a value exactly when the name occurs, and then it is the value of the first occurrence |
| UrlCodec.GetSkips | app/api/media/route.ts:77-78 | pairs with other names in front do not change what `get` finds |
| UrlCodec.QueryOfPath | app/api/media/route.ts:76 | the query of `path?query`, for a path without `?`, is `query` |

## Left out

- Network and storage I/O is not modelled: the S3 client, `ListObjectsV2Command`, `fetch`, `NextResponse`/`Response` construction and body streaming. Listing responses and the upstream fetch result are inputs; the upstream body is an opaque token.
- The `s3Client` and `bucketName` configuration and the environment variables in lib/backblaze.ts:1-13 are not modelled.
- The React components, pages and layout are not modelled, nor DOM-bound code such as the lightbox and video autoplay.
- `Date.now()` and `Math.random()` are not called: the clock (`now`), the seed minted for a session (`minted`) and the `Math.random()` results of `shuffleArrayRandom` (`randoms`) are parameters. The minted seed's range, `Math.floor(Math.random() * 0xffffffff) >>> 0`, is not imposed.
- MediaRoute.FetchAllKeys: continuation tokens are not modelled. The responses are the sequence the successive requests return, and a request that fails is the end of that sequence.
- Concurrency is not modelled: overlapping requests racing to refresh the key cache, and the async interleaving of the hook's requests.
- The module-level `cachedKeys`/`cachedAt` variables become the fields of one `KeyCache` object that the handler is given.
- Shuffle.DrawIndex: computes `(state * bound) / 2^32` in integer division. This equals the source's `Math.floor(state / 2^32 * bound)` in doubles only while the products stay below 2^53 (state below 2^32 and lists shorter than 2^21).
- Shuffle.NextState: exact integer arithmetic. For seeds of 2^53 / 1664525 and above, the source's double product loses precision.
- Shuffle.ScaleDraw: floors the exact real product `r * bound`. The source floors the double product `Math.random() * currentIndex`, which is first rounded to the nearest double, so at a rounding tie the source can pick the next index up. One example is r = (4·2^52 − 1)/(7·2^52) with bound 7: the model gives 3, and the double product rounds to 4.0. `RandomDraws` and `ShuffleArrayRandom` inherit this difference. The draws still stay below the bound, so the pass is still a permutation.
- JsText.ParseInt: reads only a leading run of ASCII digits. Leading whitespace and a sign are not read, and the model and the source then differ:
  - an `offset` of `+24` or ` 24` is 24 in the source, but 0 in the model;
  - an `order` of `+5` or ` 5` shuffles by seed 5 in the source, but leaves the listing order in the model;
  - an `order` of `-5` shuffles by a negative seed in the source, but leaves the listing order in the model;
  - an `offset` of `-24` gives 0 in both.
- JsText.ParseInt: a digit run is read exactly. In the source, runs beyond 2^53 are rounded, and a run too long to be finite gives `Infinity`, which skips the shuffle.
- JsText.ToLower: lower-cases ASCII letters only. Unicode case mappings are not modelled.
- UrlCodec.PercentDecode: decodes each escape to the character with that byte's code, without UTF-8 decoding. The round trips through the parser are proved for ASCII keys and values only.
- UrlCodec.QueryOf: takes the query as the text after the first `?`. URL fragments and the rest of `new URL(request.url)` parsing are not modelled.
- The hook's fetcher error path (a response that is not ok throws) is not modelled. The endpoint's fetch is total in `FeedSession`, and SWR's error state, `isLoading`, `isLoadingMore`, revalidation, deduplication and `mutate` are out of scope.
- The `console.error` logging in both route handlers is not modelled.
- ImageRoute.UpstreamSuccess: the Content-Type is the table lookup `ContentType`, the corrected behaviour. The source as written differs for keys ending in `.constructor` or `.__proto__`, as the Findings table shows.
- ImageRoute.InferMimeFromKey: its iff is the corrected table lookup. The source's object lookup also answers for the extensions `constructor` and `__proto__`, as the Findings table shows.
- ImageRoute.ContentTypeDefault: states the corrected octet-stream default, which the source as written breaks for `.constructor` and `.__proto__` keys.
- ImageRoute.Complete: builds the success reply with the corrected `ContentType`, so it differs from the source for `.constructor` and `.__proto__` keys.
- ImageRoute.HandleGet: uses `Complete`, so it has the same corrected Content-Type for `.constructor` and `.__proto__` keys.
- FeedSession.SessionComplete: the key list and the minted seed are held fixed for the whole session. The 60-second key cache can refresh between two page requests. A bucket that changes in between can then show a key twice or skip one, and the model does not capture that.
- InfiniteMedia.LoadMore: states only that the requested size grows; what the larger size loads is stated by FeedSession.LoadMoreExtends.

## Findings

| source | as written | input that shows it | evidently intended | confidence | as-written member | corrected member |
|---|---|---|---|---|---|---|
| app/api/image/route.ts:8-24 | `imageExtToMime[ext]` indexes a plain object literal, so an extension naming an inherited member (`constructor`, `__proto__`) finds `Object.prototype`'s value, which is truthy and so is not replaced by the octet-stream default | key `photo.constructor` is served with `Content-Type: function Object() { [native code] }` | only the ten table entries map to a type; every other extension gets `application/octet-stream` | high, not executed | ImageRoute.PrototypeExtensionCounterexample | ImageRoute.ContentTypeDefault |
