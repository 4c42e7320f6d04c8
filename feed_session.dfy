/**
 * The feed end to end: the client cursor of app/hooks/useInfiniteMedia.ts
 * requesting pages from the media endpoint of app/api/media/route.ts, with
 * the key list and the seed minted for the first request held fixed. Pages are
 * loaded one after another, each from the key `getKey` builds out of the page
 * before it, until `size` pages are loaded or `getKey` stops.
 */
module FeedSession {
  import opened JsText
  import opened UrlCodec
  import opened MediaRoute
  import opened InfiniteMedia
  import Shuffle

  /** The media endpoint answering a request path over the listed keys. */
  function Serve(keys: seq<string>, minted: nat, path: string): MediaResponse
  {
    BuildResponse(QueryOf(path), keys, minted)
  }

  /** The hook's `getKey` as the loader sees it: a key, or none, for each page index and previous page. */
  type KeyFn = (nat, Option<MediaResponse>) -> Option<string>

  /**
   * The pages `useSWRInfinite(getKey, fetcher)` loads from page `pageIndex` on,
   * after `previous`, at most `remaining` of them: each page is what `fetch`
   * answers for the key `getKey` gives for it, and loading stops at the first
   * page without a key (see `LoadStops`).
   */
  function LoadFrom(getKey: KeyFn, fetch: string -> MediaResponse, pageIndex: nat, previous: Option<MediaResponse>, remaining: nat)
    : (pages: seq<MediaResponse>)
    ensures |pages| <= remaining
    decreases remaining
  {
    if remaining == 0 then []
    else match getKey(pageIndex, previous)
      case None => []
      case Some(path) =>
        var page := fetch(path);
        [page] + LoadFrom(getKey, fetch, pageIndex + 1, Some(page), remaining - 1)
  }

  /**
   * Loading stops early only at a page without a key: fewer than `remaining`
   * pages are loaded only when `getKey` yields no key for the page after the
   * last one loaded.
   */
  lemma {:induction false} LoadStops(getKey: KeyFn, fetch: string -> MediaResponse, pageIndex: nat, previous: Option<MediaResponse>, remaining: nat)
    ensures var pages := LoadFrom(getKey, fetch, pageIndex, previous, remaining);
            |pages| < remaining ==>
              getKey(pageIndex + |pages|, if |pages| == 0 then previous else Some(pages[|pages| - 1])).None?
    decreases remaining
  {
    if remaining > 0 && getKey(pageIndex, previous).Some? {
      var page := fetch(getKey(pageIndex, previous).value);
      var rest := LoadFrom(getKey, fetch, pageIndex + 1, Some(page), remaining - 1);
      LoadStops(getKey, fetch, pageIndex + 1, Some(page), remaining - 1);
      assert LoadFrom(getKey, fetch, pageIndex, previous, remaining) == [page] + rest;
      if |rest| > 0 {
        assert ([page] + rest)[|rest|] == rest[|rest| - 1];
      }
    }
  }

  /** The hook's `getKey` for a given nonce. */
  function HookKey(nonce: int): KeyFn
  {
    (pageIndex: nat, previous: Option<MediaResponse>) => GetKey(nonce, pageIndex, previous)
  }

  /** The media endpoint as the hook's fetcher sees it. */
  function Server(keys: seq<string>, minted: nat): string -> MediaResponse
  {
    path => Serve(keys, minted, path)
  }

  /** The pages of a session whose page count is `size`, fetched from the endpoint, starting from nothing. */
  function Session(nonce: int, keys: seq<string>, minted: nat, size: nat): seq<MediaResponse>
  {
    LoadFrom(HookKey(nonce), Server(keys, minted), 0, None, size)
  }

  /** The whole list in the order of the minted seed. */
  function ShuffledItems(keys: seq<string>, minted: nat): seq<MediaItem>
  {
    Shuffle.Shuffled(Shuffle.Map(ToItem, keys), minted)
  }

  /** The page the endpoint returns at `offset` of the ordered list `all` under the token `order`. */
  function Window(all: seq<MediaItem>, order: string, offset: nat): MediaResponse
  {
    var items := PageItems(all, offset);
    MediaResponse(items, order, NextOffset(|all|, offset, |items|))
  }

  /** At most `remaining` windows from `offset` on, each starting at the cursor of the one before. */
  function Windows(all: seq<MediaItem>, order: string, offset: nat, remaining: nat): seq<MediaResponse>
    decreases remaining
  {
    if remaining == 0 then []
    else
      var page := Window(all, order, offset);
      [page] + match page.nextOffset
               case None => []
               case Some(next) => Windows(all, order, next, remaining - 1)
  }

  /** How many pages hold `n` items: one empty page when there are none. */
  function PageCount(n: nat): nat
  {
    if n == 0 then 1 else (n + 23) / 24
  }

  /** The first request mints the seed, starts at offset 0 and returns its token. */
  lemma FirstPageServed(nonce: int, keys: seq<string>, minted: nat)
    ensures GetKey(nonce, 0, None).Some?
    ensures Serve(keys, minted, GetKey(nonce, 0, None).value)
              == Window(ShuffledItems(keys, minted), DecimalString(minted), 0)
  {
    FirstKey(nonce, None);
    var params := ParseQuery(QueryOf(GetKey(nonce, 0, None).value));
    PageResponseMintsSeed(Get(params, "offset"), None, keys, minted);
  }

  /** A later request carries the token and cursor of the page before it and gets the next window. */
  lemma LaterPageServed(nonce: int, keys: seq<string>, minted: nat, pageIndex: nat, previous: MediaResponse)
    requires pageIndex > 0 && previous.order == DecimalString(minted) && previous.nextOffset.Some?
    ensures GetKey(nonce, pageIndex, Some(previous)).Some?
    ensures Serve(keys, minted, GetKey(nonce, pageIndex, Some(previous)).value)
              == Window(ShuffledItems(keys, minted), DecimalString(minted), previous.nextOffset.value)
  {
    DecimalAscii(minted);
    LaterKey(nonce, pageIndex, previous);
    ParseDecimal(minted);
  }

  /**
   * `getKey` and `fetch` together serve the windows of `all` under the token
   * `order`: the first key is answered with the window at offset 0; a page
   * without a cursor gets no key; a later page with the token and a cursor
   * gets a key answered with the window at that cursor.
   */
  ghost predicate AnswersWithWindows(getKey: KeyFn, fetch: string -> MediaResponse, all: seq<MediaItem>, order: string)
  {
    && getKey(0, None).Some?
    && fetch(getKey(0, None).value) == Window(all, order, 0)
    && (forall pageIndex: nat, page: MediaResponse :: page.nextOffset.None? ==> getKey(pageIndex, Some(page)).None?)
    && (forall pageIndex: nat, page: MediaResponse ::
          pageIndex > 0 && page.order == order && page.nextOffset.Some? ==>
            getKey(pageIndex, Some(page)).Some?
            && fetch(getKey(pageIndex, Some(page)).value) == Window(all, order, page.nextOffset.value))
  }

  /** The hook's keys, answered by the endpoint, serve the windows of the list shuffled by the minted seed. */
  lemma ServerAnswersWithWindows(nonce: int, keys: seq<string>, minted: nat)
    ensures AnswersWithWindows(HookKey(nonce), Server(keys, minted), ShuffledItems(keys, minted), DecimalString(minted))
  {
    FirstPageServed(nonce, keys, minted);
    forall pageIndex: nat, page: MediaResponse | pageIndex > 0 && page.order == DecimalString(minted) && page.nextOffset.Some?
      ensures GetKey(nonce, pageIndex, Some(page)).Some?
      ensures Serve(keys, minted, GetKey(nonce, pageIndex, Some(page)).value)
                == Window(ShuffledItems(keys, minted), DecimalString(minted), page.nextOffset.value)
    {
      LaterPageServed(nonce, keys, minted, pageIndex, page);
    }
  }

  /**
   * One load after a page with the token and a cursor: the window at that
   * cursor, followed by whatever follows that window's own cursor.
   */
  lemma LoadStep(getKey: KeyFn, fetch: string -> MediaResponse, all: seq<MediaItem>, order: string,
                 pageIndex: nat, previous: MediaResponse, remaining: nat)
    requires AnswersWithWindows(getKey, fetch, all, order)
    requires pageIndex > 0 && previous.order == order && previous.nextOffset.Some? && remaining > 0
    requires var page := Window(all, order, previous.nextOffset.value);
             page.nextOffset.Some? ==>
               LoadFrom(getKey, fetch, pageIndex + 1, Some(page), remaining - 1) == Windows(all, order, page.nextOffset.value, remaining - 1)
    ensures LoadFrom(getKey, fetch, pageIndex, Some(previous), remaining) == Windows(all, order, previous.nextOffset.value, remaining)
  {
    var page := fetch(getKey(pageIndex, Some(previous)).value);
    assert page == Window(all, order, previous.nextOffset.value);
    var rest := LoadFrom(getKey, fetch, pageIndex + 1, Some(page), remaining - 1);
    if page.nextOffset.None? {
      assert getKey(pageIndex + 1, Some(page)).None?;
    }
  }

  /**
   * After a page with the token and a cursor, keys and answers serving
   * windows make the loader fetch exactly the windows that follow that cursor.
   */
  lemma {:induction false} LoadFollowsCursor(getKey: KeyFn, fetch: string -> MediaResponse, all: seq<MediaItem>, order: string,
                                              pageIndex: nat, previous: MediaResponse, remaining: nat)
    requires AnswersWithWindows(getKey, fetch, all, order)
    requires pageIndex > 0 && previous.order == order && previous.nextOffset.Some?
    ensures LoadFrom(getKey, fetch, pageIndex, Some(previous), remaining) == Windows(all, order, previous.nextOffset.value, remaining)
    decreases remaining
  {
    if remaining > 0 {
      var page := Window(all, order, previous.nextOffset.value);
      if page.nextOffset.Some? {
        LoadFollowsCursor(getKey, fetch, all, order, pageIndex + 1, page, remaining - 1);
      }
      LoadStep(getKey, fetch, all, order, pageIndex, previous, remaining);
    }
  }

  /** From nothing, keys and answers serving windows make the loader fetch the chain of windows from offset 0. */
  lemma LoadFromStart(getKey: KeyFn, fetch: string -> MediaResponse, all: seq<MediaItem>, order: string, size: nat)
    requires AnswersWithWindows(getKey, fetch, all, order)
    ensures LoadFrom(getKey, fetch, 0, None, size) == Windows(all, order, 0, size)
  {
    if size > 0 {
      var first := Window(all, order, 0);
      assert getKey(0, None).Some? && fetch(getKey(0, None).value) == first;
      if first.nextOffset.Some? {
        LoadFollowsCursor(getKey, fetch, all, order, 1, first, size - 1);
        LoadFirst(getKey, fetch, all, order, size);
      } else {
        assert getKey(1, Some(first)).None?;
        LoadFirst(getKey, fetch, all, order, size);
      }
    }
  }

  /** The first load, given what follows the first window: the step of `LoadFromStart`. */
  lemma LoadFirst(getKey: KeyFn, fetch: string -> MediaResponse, all: seq<MediaItem>, order: string, size: nat)
    requires size > 0 && getKey(0, None).Some? && fetch(getKey(0, None).value) == Window(all, order, 0)
    requires var first := Window(all, order, 0);
             && (first.nextOffset.None? ==> getKey(1, Some(first)).None?)
             && (first.nextOffset.Some? ==>
                   LoadFrom(getKey, fetch, 1, Some(first), size - 1) == Windows(all, order, first.nextOffset.value, size - 1))
    ensures LoadFrom(getKey, fetch, 0, None, size) == Windows(all, order, 0, size)
  {
    var first := Window(all, order, 0);
    if first.nextOffset.None? {
      assert LoadFrom(getKey, fetch, 1, Some(first), size - 1) == [];
    }
  }

  /** A whole session is the chain of windows from offset 0 under the minted seed. */
  lemma SessionIsWindows(nonce: int, keys: seq<string>, minted: nat, size: nat)
    ensures Session(nonce, keys, minted, size) == Windows(ShuffledItems(keys, minted), DecimalString(minted), 0, size)
  {
    ServerAnswersWithWindows(nonce, keys, minted);
    LoadFromStart(HookKey(nonce), Server(keys, minted), ShuffledItems(keys, minted), DecimalString(minted), size);
  }

  lemma CountStep(n: nat, offset: nat, remaining: nat)
    requires offset + 24 < n && remaining >= 1
    ensures 1 + Min(remaining - 1, (n - (offset + 24) + 23) / 24) == Min(remaining, (n - offset + 23) / 24)
    ensures Min(n, offset + 24 + 24 * (remaining - 1)) == Min(n, offset + 24 * remaining)
  {
  }

  lemma CountLast(n: nat, offset: nat, remaining: nat)
    requires offset < n <= offset + 24 && remaining >= 1
    ensures (n - offset + 23) / 24 == 1
    ensures Min(n, offset + 24 * remaining) == n
  {
  }

  /**
   * Following the cursor from an offset `o` inside the list for `remaining`
   * pages yields `min(remaining, ⌈(n − o)/24⌉)` pages whose items are the list
   * from `o` up to `o + 24·remaining`, in order; the last one has no cursor
   * exactly when that reaches the end.
   */
  ghost predicate Covers(all: seq<MediaItem>, order: string, offset: nat, remaining: nat)
    requires offset < |all|
  {
    var pages := Windows(all, order, offset, remaining);
    var n := |all|;
    && |pages| == Min(remaining, (n - offset + 23) / 24)
    && Flatten(pages) == all[offset..Min(n, offset + 24 * remaining)]
    && (|pages| > 0 ==> (pages[|pages| - 1].nextOffset.None? <==> offset + 24 * remaining >= n))
  }

  /** The windows from any offset inside the list cover it as `Covers` says. */
  lemma {:induction false} WindowsCover(all: seq<MediaItem>, order: string, offset: nat, remaining: nat)
    requires offset < |all|
    ensures Covers(all, order, offset, remaining)
    decreases remaining
  {
    if remaining > 0 {
      if offset + 24 < |all| {
        WindowsCover(all, order, offset + 24, remaining - 1);
        CoverStep(all, order, offset, remaining);
      } else {
        CoverLast(all, order, offset, remaining);
      }
    }
  }

  /** Covering from the next cursor on extends to covering from this window on. */
  lemma CoverStep(all: seq<MediaItem>, order: string, offset: nat, remaining: nat)
    requires offset + 24 < |all| && remaining > 0
    requires Covers(all, order, offset + 24, remaining - 1)
    ensures Covers(all, order, offset, remaining)
  {
    var n := |all|;
    var page := Window(all, order, offset);
    var pages := Windows(all, order, offset, remaining);
    var rest := Windows(all, order, offset + 24, remaining - 1);
    WindowsMore(all, order, offset, remaining);
    FlattenCons(page, rest);
    CountStep(n, offset, remaining);
    var end := Min(n, offset + 24 * remaining);
    assert all[offset..end] == all[offset..offset + 24] + all[offset + 24..end];
    if |rest| > 0 {
      assert pages[|pages| - 1] == rest[|rest| - 1];
    }
  }

  /** The window that reaches the end covers the rest of the list on its own. */
  lemma CoverLast(all: seq<MediaItem>, order: string, offset: nat, remaining: nat)
    requires offset < |all| <= offset + 24 && remaining > 0
    ensures Covers(all, order, offset, remaining)
  {
    var page := Window(all, order, offset);
    WindowsLast(all, order, offset, remaining);
    CountLast(|all|, offset, remaining);
    FlattenCons(page, []);
  }

  /** A window followed by more: its cursor is 24 further on. */
  lemma WindowsMore(all: seq<MediaItem>, order: string, offset: nat, remaining: nat)
    requires offset + 24 < |all| && remaining > 0
    ensures Windows(all, order, offset, remaining) == [Window(all, order, offset)] + Windows(all, order, offset + 24, remaining - 1)
    ensures Window(all, order, offset).items == all[offset..offset + 24]
  {
    PageWindow(all, offset);
  }

  /** The window reaching the end is the last one. */
  lemma WindowsLast(all: seq<MediaItem>, order: string, offset: nat, remaining: nat)
    requires offset < |all| <= offset + 24 && remaining > 0
    ensures Windows(all, order, offset, remaining) == [Window(all, order, offset)]
    ensures Window(all, order, offset).items == all[offset..] && Window(all, order, offset).nextOffset.None?
  {
    PageWindow(all, offset);
  }

  lemma FlattenCons(page: MediaResponse, rest: seq<MediaResponse>)
    ensures Flatten([page] + rest) == page.items + Flatten(rest)
  {
    assert ([page] + rest)[1..] == rest;
  }

  /** One more page of budget keeps every window and adds at most one. */
  lemma {:induction false} WindowsExtend(all: seq<MediaItem>, order: string, offset: nat, remaining: nat)
    ensures var before := Windows(all, order, offset, remaining);
            var after := Windows(all, order, offset, remaining + 1);
            before <= after && |after| <= |before| + 1
    decreases remaining
  {
    if remaining > 0 {
      var page := Window(all, order, offset);
      if page.nextOffset.Some? {
        WindowsExtend(all, order, page.nextOffset.value, remaining - 1);
      }
    }
  }

  /**
   * A session of `size ≥ 1` pages holds the first `min(size, ⌈n/24⌉)` pages of
   * the shuffled list: its media is the list's first `24·size` items (all of
   * them once `size` covers the list), and it reports the end exactly when
   * `size` pages cover the whole list.
   */
  lemma SessionPrefix(nonce: int, keys: seq<string>, minted: nat, size: nat)
    requires size >= 1
    ensures var pages := Session(nonce, keys, minted, size);
            var n := |keys|;
            && |pages| == Min(size, PageCount(n))
            && Media(Some(pages)) == ShuffledItems(keys, minted)[..Min(n, 24 * size)]
            && (IsReachingEnd(Some(pages)) <==> size >= PageCount(n))
  {
    var all := ShuffledItems(keys, minted);
    SessionIsWindows(nonce, keys, minted, size);
    WindowsFromStart(all, DecimalString(minted), size);
  }

  /**
   * The chain from offset 0 with a budget of `size ≥ 1` pages: `min(size,
   * PageCount(n))` pages holding the first `24·size` items of the list, the
   * first page empty only for an empty list, and the last without a cursor
   * exactly when `size` reaches the page count.
   */
  lemma WindowsFromStart(all: seq<MediaItem>, order: string, size: nat)
    requires size >= 1
    ensures var pages := Windows(all, order, 0, size);
            var n := |all|;
            && |pages| == Min(size, PageCount(n))
            && Flatten(pages) == all[..Min(n, 24 * size)]
            && (|pages[0].items| == 0 <==> n == 0)
            && (pages[|pages| - 1].nextOffset.None? <==> size >= PageCount(n))
  {
    var n := |all|;
    var pages := Windows(all, order, 0, size);
    var first := Window(all, order, 0);
    PageWindow(all, 0);
    if n == 0 {
      assert pages == [first];
      FlattenCons(first, []);
    } else {
      WindowsCover(all, order, 0, size);
      PageCountCovers(n, size);
      assert pages[0] == first;
      assert all[..Min(n, 24 * size)] == all[0..Min(n, 24 * size)];
    }
  }

  /**
   * Following `nextOffset` from an offset inside the list until it is absent
   * meets the same items as a window chain from there whose budget reaches the
   * end of the list.
   */
  lemma WindowsFollowCursor(all: seq<MediaItem>, order: string, offset: nat, remaining: nat)
    requires offset < |all| && offset + 24 * remaining >= |all|
    ensures Flatten(Windows(all, order, offset, remaining)) == FollowCursor(all, offset)
  {
    WindowsCover(all, order, offset, remaining);
    FollowCursorComplete(all, offset);
    assert Min(|all|, offset + 24 * remaining) == |all|;
    assert all[offset..|all|] == all[offset..];
  }

  /** A session of at least one page reports `isEmpty` exactly when the bucket lists no keys. */
  lemma SessionEmptyIff(nonce: int, keys: seq<string>, minted: nat, size: nat)
    requires size >= 1
    ensures IsEmpty(Some(Session(nonce, keys, minted, size))) <==> |keys| == 0
  {
    SessionIsWindows(nonce, keys, minted, size);
    WindowsFromStart(ShuffledItems(keys, minted), DecimalString(minted), size);
  }

  /** `size` pages of 24 cover `n > 0` items exactly when `size` is at least `⌈n/24⌉`. */
  lemma PageCountCovers(n: nat, size: nat)
    requires n > 0
    ensures 24 * size >= n <==> size >= PageCount(n)
  {
  }

  /**
   * Once `size` reaches the page count, the session has made exactly
   * `⌈n/24⌉` requests (one for an empty list), `getKey` asks for no more, the
   * media is the whole shuffled list, each listed item exactly as often as it
   * is listed, and the end is reported.
   */
  lemma SessionComplete(nonce: int, keys: seq<string>, minted: nat, size: nat)
    requires size >= PageCount(|keys|)
    ensures var pages := Session(nonce, keys, minted, size);
            && |pages| == PageCount(|keys|)
            && GetKey(nonce, |pages|, Some(pages[|pages| - 1])).None?
            && Media(Some(pages)) == ShuffledItems(keys, minted)
            && multiset(Media(Some(pages))) == multiset(Shuffle.Map(ToItem, keys))
            && IsReachingEnd(Some(pages))
  {
    SessionRequests(nonce, keys, minted, size);
    SessionMedia(nonce, keys, minted, size);
  }

  /** A complete session makes `PageCount(n)` requests, after which `getKey` stops and the end is reported. */
  lemma SessionRequests(nonce: int, keys: seq<string>, minted: nat, size: nat)
    requires size >= PageCount(|keys|)
    ensures var pages := Session(nonce, keys, minted, size);
            && |pages| == PageCount(|keys|)
            && GetKey(nonce, |pages|, Some(pages[|pages| - 1])).None?
            && IsReachingEnd(Some(pages))
  {
    SessionIsWindows(nonce, keys, minted, size);
    WindowsComplete(ShuffledItems(keys, minted), DecimalString(minted), size);
  }

  /** A complete session shows the whole shuffled list: every listed item exactly as often as it is listed. */
  lemma SessionMedia(nonce: int, keys: seq<string>, minted: nat, size: nat)
    requires size >= PageCount(|keys|)
    ensures var pages := Session(nonce, keys, minted, size);
            && Media(Some(pages)) == ShuffledItems(keys, minted)
            && multiset(Media(Some(pages))) == multiset(Shuffle.Map(ToItem, keys))
  {
    SessionIsWindows(nonce, keys, minted, size);
    WindowsComplete(ShuffledItems(keys, minted), DecimalString(minted), size);
  }

  /** With a budget of at least the page count, the chain from offset 0 is complete. */
  lemma WindowsComplete(all: seq<MediaItem>, order: string, size: nat)
    requires size >= PageCount(|all|)
    ensures var pages := Windows(all, order, 0, size);
            && |pages| == PageCount(|all|)
            && Flatten(pages) == all
            && pages[|pages| - 1].nextOffset.None?
  {
    WindowsFromStart(all, order, size);
    assert all[..|all|] == all;
  }

  /** The nonce changes the request paths, never the pages: sessions differing only in it load the same pages. */
  lemma SessionIgnoresNonce(nonce1: int, nonce2: int, keys: seq<string>, minted: nat, size: nat)
    ensures Session(nonce1, keys, minted, size) == Session(nonce2, keys, minted, size)
  {
    SessionIsWindows(nonce1, keys, minted, size);
    SessionIsWindows(nonce2, keys, minted, size);
  }

  /** `loadMore` keeps every page already loaded and adds at most one. */
  lemma LoadMoreExtends(nonce: int, keys: seq<string>, minted: nat, size: nat)
    ensures var before := Session(nonce, keys, minted, size);
            var after := Session(nonce, keys, minted, LoadMore(size));
            && before <= after && |after| <= |before| + 1
  {
    SessionIsWindows(nonce, keys, minted, size);
    SessionIsWindows(nonce, keys, minted, LoadMore(size));
    WindowsExtend(ShuffledItems(keys, minted), DecimalString(minted), 0, size);
  }
}
