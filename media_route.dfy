/**
 * The media listing endpoint of app/api/media/route.ts: the file-type rule, the
 * bucket key lister with its 60-second cache, and the `GET` handler that shuffles
 * the whole key list by the order token and returns one window of 24 items with
 * a `nextOffset` cursor.
 *
 * The bucket's listing responses, the clock and the random seed drawn for a
 * session are inputs.
 */
module MediaRoute {
  import opened JsText
  import opened UrlCodec
  import Shuffle

  // ---------------------------------------------------------------------------
  // items and the file-type rule
  // ---------------------------------------------------------------------------

  datatype MediaType = Image | Video

  datatype MediaItem = MediaItem(key: string, kind: MediaType)

  /** The JSON body: one page of items, the order token, and the cursor when more remain. */
  datatype MediaResponse = MediaResponse(items: seq<MediaItem>, order: string, nextOffset: Option<nat>)

  const VideoExtensions: seq<string> := ["mp4", "mov", "avi", "webm", "mkv", "m4v"]

  /**
   * `getFileType`: the last `.`-segment of the lower-cased key decides. The source
   * also lists image extensions, but never consults them: everything that is not
   * a video extension is an image. So a key is a video exactly when its
   * lower-cased form is a video extension or ends in `.` followed by one
   * (`"MP4"` and `"a/b/c.mp4"` are videos, `"x.JPG"` and `"noext"` images).
   */
  function GetFileType(key: string): (kind: MediaType)
    ensures kind == Video <==> exists ext :: ext in VideoExtensions && EndsWithExtension(ToLower(key), ext)
  {
    var extension := LastSegment(ToLower(key), '.');
    VideoExtensionIff(ToLower(key));
    if extension in VideoExtensions then Video else Image
  }

  /** Against every video extension, the last `.`-segment test is the suffix test. */
  lemma VideoExtensionIff(s: string)
    ensures forall ext :: ext in VideoExtensions ==> (LastSegment(s, '.') == ext <==> EndsWithExtension(s, ext))
  {
    forall ext | ext in VideoExtensions
      ensures LastSegment(s, '.') == ext <==> EndsWithExtension(s, ext)
    {
      ExtensionIff(s, ext);
    }
  }

  function ToItem(key: string): MediaItem
  {
    MediaItem(key, GetFileType(key))
  }

  // ---------------------------------------------------------------------------
  // listing the bucket
  // ---------------------------------------------------------------------------

  /** One object of a listing response; `Key` and `Size` may be absent. */
  datatype S3Object = S3Object(key: Option<string>, size: Option<int>)

  /** One `ListObjectsV2` response; absent `Contents` is an empty sequence here. */
  datatype ListPage = ListPage(contents: seq<S3Object>, isTruncated: bool)

  /** `obj.Key && obj.Size && obj.Size > 0`. */
  predicate Keeps(obj: S3Object)
  {
    obj.key.Some? && obj.key.value != "" && obj.size.Some? && obj.size.value > 0
  }

  /** The keys one response contributes, in response order. */
  function KeptKeys(objects: seq<S3Object>): (keys: seq<string>)
    ensures |keys| <= |objects|
    ensures forall k :: k in keys <==> exists i :: 0 <= i < |objects| && Keeps(objects[i]) && objects[i].key.value == k
    decreases |objects|
  {
    if |objects| == 0 then []
    else
      var last := objects[|objects| - 1];
      var init := objects[..|objects| - 1];
      assert forall i :: 0 <= i < |init| ==> init[i] == objects[i];
      KeptKeys(init) + (if Keeps(last) then [last.key.value] else [])
  }

  /**
   * The whole listing: the kept keys of every response up to and including the
   * first one that is not truncated; `None` when the responses run out first
   * (the upstream call that would follow fails).
   */
  function Listing(responses: seq<ListPage>): Option<seq<string>>
  {
    if |responses| == 0 then None
    else
      var here := KeptKeys(responses[0].contents);
      if !responses[0].isTruncated then Some(here)
      else Prefixed(here, Listing(responses[1..]))
  }

  function Prefixed(prefix: seq<string>, rest: Option<seq<string>>): Option<seq<string>>
  {
    match rest
    case None => None
    case Some(keys) => Some(prefix + keys)
  }

  lemma PrefixedAppend(a: seq<string>, b: seq<string>, rest: Option<seq<string>>)
    ensures Prefixed(a, Prefixed(b, rest)) == Prefixed(a + b, rest)
    ensures Prefixed([], rest) == rest
  {
    if rest.Some? {
      assert a + (b + rest.value) == (a + b) + rest.value;
      assert [] + rest.value == rest.value;
    }
  }

  /** How many responses the listing loop reads. */
  function ResponsesRead(responses: seq<ListPage>): (n: nat)
    ensures n <= |responses|
    ensures forall i :: 0 <= i < n - 1 ==> responses[i].isTruncated
    ensures Listing(responses).Some? <==> (n > 0 && !responses[n - 1].isTruncated)
    ensures Listing(responses).None? ==> n == |responses|
  {
    if |responses| == 0 then 0
    else if !responses[0].isTruncated then 1
    else
      var n := ResponsesRead(responses[1..]);
      assert forall i :: 1 <= i < |responses| ==> responses[i] == responses[1..][i - 1];
      1 + n
  }

  /**
   * The loop of `listAllKeys`: request pages until one is not truncated, pushing
   * every kept key in order.
   */
  method FetchAllKeys(responses: seq<ListPage>) returns (keys: Option<seq<string>>, requests: nat)
    ensures keys == Listing(responses)
    ensures requests == ResponsesRead(responses)
  {
    var collected: seq<string> := [];
    requests := 0;
    assert responses[0..] == responses;
    PrefixedAppend([], [], Listing(responses));
    while requests < |responses|
      invariant requests <= |responses|
      invariant Listing(responses) == Prefixed(collected, Listing(responses[requests..]))
      invariant ResponsesRead(responses) == requests + ResponsesRead(responses[requests..])
      decreases |responses| - requests
    {
      var response := responses[requests];
      ListingAdvance(responses, requests, collected);
      collected := PushKept(collected, response.contents);
      requests := requests + 1;
      if !response.isTruncated {
        keys := Some(collected);
        return;
      }
    }
    keys := None;
  }

  /** The inner loop of `listAllKeys`: push the key of every kept object of one response. */
  method PushKept(collected: seq<string>, contents: seq<S3Object>) returns (pushed: seq<string>)
    ensures pushed == collected + KeptKeys(contents)
  {
    pushed := collected;
    for i := 0 to |contents|
      invariant pushed == collected + KeptKeys(contents[..i])
    {
      var obj := contents[i];
      assert contents[..i + 1][..i] == contents[..i];
      if obj.key.Some? && obj.key.value != "" && obj.size.Some? && obj.size.value > 0 {
        pushed := pushed + [obj.key.value];
      }
    }
    assert contents[..|contents|] == contents;
  }

  /**
   * One turn of the listing loop: after the response at `at`, the listing is the
   * keys so far followed by the rest of the listing, or ends here when the
   * response is not truncated; one more request has been read.
   */
  lemma ListingAdvance(responses: seq<ListPage>, at: nat, before: seq<string>)
    requires at < |responses|
    requires Listing(responses) == Prefixed(before, Listing(responses[at..]))
    requires ResponsesRead(responses) == at + ResponsesRead(responses[at..])
    ensures var here := before + KeptKeys(responses[at].contents);
            if responses[at].isTruncated then Listing(responses) == Prefixed(here, Listing(responses[at + 1..]))
            else Listing(responses) == Some(here)
    ensures responses[at].isTruncated ==> ResponsesRead(responses) == at + 1 + ResponsesRead(responses[at + 1..])
    ensures !responses[at].isTruncated ==> ResponsesRead(responses) == at + 1
  {
    var rest := responses[at..];
    assert rest[0] == responses[at] && rest[1..] == responses[at + 1..];
    PrefixedAppend(before, KeptKeys(responses[at].contents), Listing(responses[at + 1..]));
  }

  const CacheTtlMs: int := 60_000

  /** The module-level cache `cachedKeys`/`cachedAt` with the lister that fills it. */
  class KeyCache {
    var cachedKeys: Option<seq<string>>
    var cachedAt: int

    constructor ()
      ensures cachedKeys == None && cachedAt == 0
    {
      cachedKeys := None;
      cachedAt := 0;
    }

    /** A list is stored (an empty one counts) and it is younger than the TTL at `now`. */
    predicate IsFresh(now: int)
      reads this
    {
      cachedKeys.Some? && now - cachedAt < CacheTtlMs
    }

    /**
     * `listAllKeys`, with `Date.now()` read on entry given as `now`: a fresh
     * stored list is returned without any upstream request; otherwise the bucket
     * is listed and, when the listing completes, stored with `cachedAt := now`.
     * A failed listing leaves the cache as it was.
     */
    method ListAllKeys(now: int, responses: seq<ListPage>) returns (keys: Option<seq<string>>, requests: nat)
      modifies this
      ensures old(IsFresh(now)) ==> keys == old(cachedKeys) && requests == 0 && unchanged(this)
      ensures !old(IsFresh(now)) ==> keys == Listing(responses) && requests == ResponsesRead(responses)
      ensures !old(IsFresh(now)) && keys.Some? ==> cachedKeys == keys && cachedAt == now
      ensures !old(IsFresh(now)) && keys.None? ==> unchanged(this)
    {
      if cachedKeys.Some? && now - cachedAt < CacheTtlMs {
        return cachedKeys, 0;
      }
      keys, requests := FetchAllKeys(responses);
      if keys.Some? {
        cachedKeys := keys;
        cachedAt := now;
      }
    }
  }

  // ---------------------------------------------------------------------------
  // the page window
  // ---------------------------------------------------------------------------

  const PageSize: nat := 24

  function Min(a: int, b: int): int { if a <= b then a else b }

  function Max(a: int, b: int): int { if a >= b then a else b }

  /** `shuffled.slice(offset, offset + pageSize)`. */
  function PageItems<T>(s: seq<T>, offset: nat): (page: seq<T>)
    ensures |page| == Min(PageSize, Max(0, |s| - offset))
    ensures forall i :: 0 <= i < |page| ==> page[i] == s[offset + i]
  {
    if offset >= |s| then [] else s[offset..Min(offset + PageSize, |s|)]
  }

  /** `offset + pageItems.length < shuffled.length ? offset + pageItems.length : undefined`. */
  function NextOffset(total: nat, offset: nat, pageLength: nat): Option<nat>
  {
    if offset + pageLength < total then Some(offset + pageLength) else None
  }

  /**
   * The window and its cursor: the page is the slice starting at `offset`, and
   * the cursor is present exactly when items remain after it; an offset at or
   * past the end gives an empty page and no cursor.
   */
  lemma PageWindow<T>(s: seq<T>, offset: nat)
    ensures var page := PageItems(s, offset);
            && (offset <= |s| ==> page == s[offset..offset + |page|])
            && (NextOffset(|s|, offset, |page|).Some? <==> offset + PageSize < |s|)
            && (NextOffset(|s|, offset, |page|).Some? ==> NextOffset(|s|, offset, |page|).value == offset + PageSize)
            && (offset >= |s| ==> page == [] && NextOffset(|s|, offset, |page|).None?)
  {
  }

  /** The concatenated pages met by following the cursor from `offset` until it is absent. */
  function FollowCursor<T>(s: seq<T>, offset: nat): seq<T>
    decreases |s| - offset
  {
    var page := PageItems(s, offset);
    match NextOffset(|s|, offset, |page|)
    case None => page
    case Some(next) => page + FollowCursor(s, next)
  }

  /** Following the cursor from any offset within the list yields the rest of it, each item once. */
  lemma {:induction false} FollowCursorComplete<T>(s: seq<T>, offset: nat)
    requires offset <= |s|
    ensures FollowCursor(s, offset) == s[offset..]
    decreases |s| - offset
  {
    var page := PageItems(s, offset);
    PageWindow(s, offset);
    match NextOffset(|s|, offset, |page|)
    case None =>
    case Some(next) =>
      FollowCursorComplete(s, next);
      assert s[offset..] == s[offset..next] + s[next..];
  }

  // ---------------------------------------------------------------------------
  // the GET handler
  // ---------------------------------------------------------------------------

  /** `Math.max(0, offsetParam ? parseInt(offsetParam, 10) || 0 : 0)`. */
  function ParseOffset(param: Option<string>): (offset: nat)
    ensures param.None? ==> offset == 0
    ensures param.Some? && ParseInt(param.value).None? ==> offset == 0
    ensures param.Some? && ParseInt(param.value).Some? ==> offset == ParseInt(param.value).value
  {
    if param.None? || param.value == "" then 0
    else match ParseInt(param.value)
      case None => 0
      case Some(v) => Max(0, v)
  }

  /** A cursor written back as `String(nextOffset)` is read back as the same offset. */
  lemma ParseOffsetDecimal(offset: nat)
    ensures ParseOffset(Some(DecimalString(offset))) == offset
  {
    ParseDecimal(offset);
  }

  /**
   * `orderParam || String(minted)`: a non-empty `order` parameter is kept as it
   * is; otherwise the token is the decimal form of the seed `minted` drawn for
   * this session.
   */
  function OrderToken(param: Option<string>, minted: nat): (order: string)
    ensures order != ""
    ensures param.Some? && param.value != "" ==> order == param.value
    ensures (param.None? || param.value == "") ==> ParseInt(order) == Some(minted)
  {
    ParseDecimal(minted);
    if param.Some? && param.value != "" then param.value else DecimalString(minted)
  }

  /**
   * The whole list in the order a token selects: shuffled by its `parseInt`
   * value, or in listing order when that is NaN.
   */
  function OrderedItems(keys: seq<string>, order: string): (all: seq<MediaItem>)
    ensures |all| == |keys|
    ensures multiset(all) == multiset(Shuffle.Map(ToItem, keys))
  {
    var allItems := Shuffle.Map(ToItem, keys);
    match ParseInt(order)
    case Some(seed) => Shuffle.Shuffled(allItems, seed)
    case None => allItems
  }

  /**
   * `r` is the page of `all` at `offset`: `min(24, max(0, n − offset))` items,
   * item `i` being `all[offset + i]`, with a cursor exactly when items remain
   * past the page, and then pointing just past it.
   */
  predicate IsPageOf(r: MediaResponse, all: seq<MediaItem>, offset: nat)
  {
    && |r.items| == Min(PageSize, Max(0, |all| - offset))
    && (forall i :: 0 <= i < |r.items| ==> r.items[i] == all[offset + i])
    && (r.nextOffset.Some? <==> offset + PageSize < |all|)
    && (r.nextOffset.Some? ==> r.nextOffset.value == offset + PageSize)
  }

  /**
   * The JSON body `GET` builds from its `offset` and `order` parameters over the
   * listed keys: the window at the requested offset of the whole list in the
   * token's order, the token itself, and the cursor just past the window when
   * items remain.
   */
  function PageResponse(offsetParam: Option<string>, orderParam: Option<string>, keys: seq<string>, minted: nat): (r: MediaResponse)
    ensures IsPageOf(r, OrderedItems(keys, r.order), ParseOffset(offsetParam))
  {
    var offset := ParseOffset(offsetParam);
    var order := OrderToken(orderParam, minted);
    var shuffled := OrderedItems(keys, order);
    var pageItems := PageItems(shuffled, offset);
    PageWindow(shuffled, offset);
    MediaResponse(pageItems, order, NextOffset(|shuffled|, offset, |pageItems|))
  }

  /**
   * The JSON body for a request query: at most 24 of the listed items, the
   * window at the query's `offset` of the whole list in the token's order,
   * under a non-empty order token that echoes the query's own non-empty `order`.
   */
  function BuildResponse(query: string, keys: seq<string>, minted: nat): (r: MediaResponse)
    ensures |r.items| <= PageSize && |r.items| <= |keys|
    ensures forall i :: 0 <= i < |r.items| ==> r.items[i] in Shuffle.Map(ToItem, keys)
    ensures IsPageOf(r, OrderedItems(keys, r.order), ParseOffset(Get(ParseQuery(query), "offset")))
    ensures r.order != ""
    ensures Get(ParseQuery(query), "order").Some? && Get(ParseQuery(query), "order").value != "" ==>
              r.order == Get(ParseQuery(query), "order").value
  {
    var params := ParseQuery(query);
    var r := PageResponse(Get(params, "offset"), Get(params, "order"), keys, minted);
    WindowListed(r, OrderedItems(keys, r.order), ParseOffset(Get(params, "offset")), Shuffle.Map(ToItem, keys));
    r
  }

  /** Every item of a page of a permutation of `listed` is one of `listed`. */
  lemma WindowListed(r: MediaResponse, all: seq<MediaItem>, offset: nat, listed: seq<MediaItem>)
    requires IsPageOf(r, all, offset)
    requires multiset(all) == multiset(listed)
    ensures forall i :: 0 <= i < |r.items| ==> r.items[i] in listed
  {
    forall i | 0 <= i < |r.items|
      ensures r.items[i] in listed
    {
      assert all[offset + i] in multiset(all);
    }
  }

  /** A non-empty `order` parameter is echoed back unchanged. */
  lemma PageResponseEchoesOrder(offsetParam: Option<string>, orderParam: Option<string>, keys: seq<string>, minted: nat)
    requires orderParam.Some? && orderParam.value != ""
    ensures PageResponse(offsetParam, orderParam, keys, minted).order == orderParam.value
  {
  }

  /** A non-empty, non-numeric `order` parameter leaves the items in listing order, unshuffled. */
  lemma PageResponseListingOrder(offsetParam: Option<string>, orderParam: Option<string>, keys: seq<string>, minted: nat)
    requires orderParam.Some? && orderParam.value != "" && ParseInt(orderParam.value).None?
    ensures var r := PageResponse(offsetParam, orderParam, keys, minted);
            var offset := ParseOffset(offsetParam);
            forall i :: 0 <= i < |r.items| ==> r.items[i] == ToItem(keys[offset + i])
  {
    var order := OrderToken(orderParam, minted);
    var all := Shuffle.Map(ToItem, keys);
    assert order == orderParam.value;
    assert OrderedItems(keys, order) == all;
    assert PageResponse(offsetParam, orderParam, keys, minted).items == PageItems(all, ParseOffset(offsetParam));
  }

  /**
   * Without an `order` parameter, or with an empty one, the list is shuffled by
   * the freshly drawn seed, whose token is returned.
   */
  lemma PageResponseMintsSeed(offsetParam: Option<string>, orderParam: Option<string>, keys: seq<string>, minted: nat)
    requires orderParam.None? || orderParam.value == ""
    ensures var r := PageResponse(offsetParam, orderParam, keys, minted);
            r.order == DecimalString(minted)
            && OrderedItems(keys, r.order) == Shuffle.Shuffled(Shuffle.Map(ToItem, keys), minted)
  {
    ParseDecimal(minted);
  }

  /** Once the request carries an order token, the seed drawn for it plays no part. */
  lemma PageResponseIgnoresMint(offsetParam: Option<string>, orderParam: Option<string>, keys: seq<string>, minted1: nat, minted2: nat)
    requires orderParam.Some? && orderParam.value != ""
    ensures PageResponse(offsetParam, orderParam, keys, minted1) == PageResponse(offsetParam, orderParam, keys, minted2)
  {
  }

  /** The route's reply: the JSON page with its cache header, or the 500 error. */
  datatype MediaReply =
    | Json(body: MediaResponse, cacheControl: string)
    | Failed(status: nat, error: string)

  const MediaCacheControl: string := "public, s-maxage=30, stale-while-revalidate=120"

  /**
   * `GET /api/media`: list the keys through the cache, then build the page; a
   * listing that fails becomes a 500 reply.
   */
  method HandleGet(cache: KeyCache, query: string, now: int, responses: seq<ListPage>, minted: nat)
    returns (reply: MediaReply)
    modifies cache
    ensures old(cache.IsFresh(now)) ==>
              reply == Json(BuildResponse(query, old(cache.cachedKeys).value, minted), MediaCacheControl)
    ensures !old(cache.IsFresh(now)) ==>
              reply == match Listing(responses)
                       case None => Failed(500, "Failed to fetch media")
                       case Some(keys) => Json(BuildResponse(query, keys, minted), MediaCacheControl)
    ensures old(cache.IsFresh(now)) ==> unchanged(cache)
    ensures !old(cache.IsFresh(now)) && Listing(responses).Some? ==>
              cache.cachedKeys == Listing(responses) && cache.cachedAt == now
    ensures !old(cache.IsFresh(now)) && Listing(responses).None? ==> unchanged(cache)
  {
    var keys, _ := cache.ListAllKeys(now, responses);
    match keys
    case None =>
      reply := Failed(500, "Failed to fetch media");
    case Some(listed) =>
      reply := Json(BuildResponse(query, listed, minted), MediaCacheControl);
  }
}
