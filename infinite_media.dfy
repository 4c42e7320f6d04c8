/**
 * The client cursor of app/hooks/useInfiniteMedia.ts: `getKey` builds the
 * request path of each page from the page before it, and `media`, `isEmpty`
 * and `isReachingEnd` are read off the pages loaded so far.
 */
module InfiniteMedia {
  import opened JsText
  import opened UrlCodec
  import opened MediaRoute

  const MediaPath: string := "/api/media"

  /** `if (nonce) params.set('nonce', String(nonce))`: only a non-zero nonce is sent. */
  function NonceParams(nonce: int): seq<(string, string)>
  {
    if nonce != 0 then [("nonce", IntString(nonce))] else []
  }

  /** The parameters of a later page: nonce, then the carried order token, then the offset. */
  function CarriedParams(nonce: int, previous: Option<MediaResponse>): seq<(string, string)>
  {
    NonceParams(nonce)
      + (if previous.Some? && previous.value.order != "" then [("order", previous.value.order)] else [])
      + (if previous.Some? && previous.value.nextOffset.Some?
         then [("offset", DecimalString(previous.value.nextOffset.value))] else [])
  }

  /**
   * `getKey(pageIndex, previousPageData)`: no key once the previous page has no
   * cursor; the first page carries at most the nonce; every later page carries
   * the previous page's order token and cursor.
   */
  function GetKey(nonce: int, pageIndex: nat, previous: Option<MediaResponse>): (key: Option<string>)
    ensures key.None? <==> previous.Some? && previous.value.nextOffset.None?
    ensures key.Some? ==> MediaPath <= key.value
  {
    if previous.Some? && previous.value.nextOffset.None? then None
    else if pageIndex == 0 then
      var query := Serialize(NonceParams(nonce));
      Some(if query != "" then MediaPath + "?" + query else MediaPath)
    else Some(MediaPath + "?" + Serialize(CarriedParams(nonce, previous)))
  }

  /** Every name and value the cursor sends is ASCII. */
  lemma {:induction false} DecimalAscii(n: nat)
    ensures IsAscii(DecimalString(n))
  {
    var s := DecimalString(n);
    assert forall i :: 0 <= i < |s| ==> IsDigit(s[i]);
  }

  lemma NonceParamsAscii(nonce: int)
    ensures forall i :: 0 <= i < |NonceParams(nonce)| ==>
              IsAscii(NonceParams(nonce)[i].0) && IsAscii(NonceParams(nonce)[i].1)
  {
    if nonce != 0 {
      DecimalAscii(if nonce < 0 then -nonce else nonce);
      assert IsAscii(IntString(nonce));
    }
  }

  /**
   * The first page asks for `/api/media` when the nonce is 0 and for
   * `/api/media?nonce=N` otherwise; the server reads no `order` and no `offset`
   * from it, so it mints a seed and starts at 0.
   */
  lemma FirstKey(nonce: int, previous: Option<MediaResponse>)
    requires previous.None? || previous.value.nextOffset.Some?
    ensures var key := GetKey(nonce, 0, previous);
            && key.Some?
            && (nonce == 0 ==> key.value == MediaPath)
            && (nonce != 0 ==> key.value == MediaPath + "?nonce=" + IntString(nonce))
            && ParseQuery(QueryOf(key.value)) == NonceParams(nonce)
            && Get(ParseQuery(QueryOf(key.value)), "order").None?
            && Get(ParseQuery(QueryOf(key.value)), "offset").None?
  {
    var key := GetKey(nonce, 0, previous).value;
    if nonce == 0 {
      FirstKeyWithoutNonce(previous);
    } else {
      FirstKeyWithNonce(nonce, previous);
    }
    var params := ParseQuery(QueryOf(key));
    assert forall i :: 0 <= i < |params| ==> params[i].0 == "nonce";
  }

  lemma FirstKeyWithoutNonce(previous: Option<MediaResponse>)
    requires previous.None? || previous.value.nextOffset.Some?
    ensures GetKey(0, 0, previous) == Some(MediaPath)
    ensures ParseQuery(QueryOf(MediaPath)) == []
  {
    assert Serialize([]) == "";
    QueryOfPlainPath(MediaPath);
    assert Split("", '&') == [""];
  }

  lemma FirstKeyWithNonce(nonce: int, previous: Option<MediaResponse>)
    requires nonce != 0
    requires previous.None? || previous.value.nextOffset.Some?
    ensures GetKey(nonce, 0, previous) == Some(MediaPath + "?nonce=" + IntString(nonce))
    ensures ParseQuery(QueryOf(MediaPath + "?nonce=" + IntString(nonce))) == [("nonce", IntString(nonce))]
  {
    FirstPathWithNonce(nonce, previous);
    FirstQueryWithNonce(nonce);
  }

  lemma FirstPathWithNonce(nonce: int, previous: Option<MediaResponse>)
    requires nonce != 0
    requires previous.None? || previous.value.nextOffset.Some?
    ensures GetKey(nonce, 0, previous) == Some(MediaPath + "?nonce=" + IntString(nonce))
  {
    var value := IntString(nonce);
    var query := Serialize(NonceParams(nonce));
    SerializeNonce(nonce);
    assert query != "";
    assert GetKey(nonce, 0, previous) == Some(MediaPath + "?" + query);
    assert MediaPath + "?" + ("nonce=" + value) == MediaPath + "?nonce=" + value;
  }

  lemma FirstQueryWithNonce(nonce: int)
    requires nonce != 0
    ensures ParseQuery(QueryOf(MediaPath + "?nonce=" + IntString(nonce))) == [("nonce", IntString(nonce))]
  {
    var value := IntString(nonce);
    SerializeNonce(nonce);
    NonceParamsAscii(nonce);
    QueryRoundTrip(NonceParams(nonce));
    QueryOfPath(MediaPath, "nonce=" + value);
    assert MediaPath + "?" + ("nonce=" + value) == MediaPath + "?nonce=" + value;
  }

  /** A non-zero nonce is serialized as `nonce=` followed by its decimal form. */
  lemma SerializeNonce(nonce: int)
    requires nonce != 0
    ensures Serialize(NonceParams(nonce)) == "nonce=" + IntString(nonce)
  {
    var value := IntString(nonce);
    IntStringPlain(nonce);
    PlainTextEncodes(value);
    NonceNameEncodes();
    var pair := SerializePair(("nonce", value));
    assert SerializedPairs(NonceParams(nonce)) == [pair];
    assert pair == "nonce=" + value;
  }

  /** `String(i)` is a sign and digits, all left alone by the serializer. */
  lemma IntStringPlain(i: int)
    ensures IsFormPlainText(IntString(i))
  {
    var digits := DecimalString(if i < 0 then -i else i);
    assert forall k :: 0 <= k < |digits| ==> IsDigit(digits[k]);
    assert IsFormPlain('-');
  }

  /** The parameter name `nonce` is serialized as it is. */
  lemma NonceNameEncodes()
    ensures FormEncode("nonce") == "nonce"
  {
    var name := "nonce";
    assert forall k :: 0 <= k < |name| ==> IsAsciiAlphanumeric(name[k]);
    PlainTextEncodes(name);
  }

  /**
   * A later page carries, in this order, the nonce when it is non-zero, the
   * previous page's order token when it is non-empty, and the previous page's
   * cursor as a decimal offset; the server reads them back as sent.
   */
  lemma LaterKey(nonce: int, pageIndex: nat, previous: MediaResponse)
    requires pageIndex > 0 && previous.nextOffset.Some? && IsAscii(previous.order)
    ensures var key := GetKey(nonce, pageIndex, Some(previous));
            && key.Some?
            && key.value == MediaPath + "?" + Serialize(CarriedParams(nonce, Some(previous)))
            && ParseQuery(QueryOf(key.value)) == CarriedParams(nonce, Some(previous))
            && Get(ParseQuery(QueryOf(key.value)), "order") == (if previous.order != "" then Some(previous.order) else None)
            && ParseOffset(Get(ParseQuery(QueryOf(key.value)), "offset")) == previous.nextOffset.value
  {
    var params := CarriedParams(nonce, Some(previous));
    var path := MediaPath + "?" + Serialize(params);
    assert GetKey(nonce, pageIndex, Some(previous)) == Some(path);
    LaterKeyQuery(nonce, previous);
    assert ParseQuery(QueryOf(path)) == params;
    CarriedOrder(nonce, previous);
    CarriedOffset(nonce, previous);
  }

  lemma LaterKeyQuery(nonce: int, previous: MediaResponse)
    requires previous.nextOffset.Some? && IsAscii(previous.order)
    ensures ParseQuery(QueryOf(MediaPath + "?" + Serialize(CarriedParams(nonce, Some(previous))))) ==
              CarriedParams(nonce, Some(previous))
  {
    var params := CarriedParams(nonce, Some(previous));
    CarriedParamsAscii(nonce, previous);
    QueryRoundTrip(params);
    QueryOfPath(MediaPath, Serialize(params));
  }

  lemma CarriedParamsAscii(nonce: int, previous: MediaResponse)
    requires previous.nextOffset.Some? && IsAscii(previous.order)
    ensures var params := CarriedParams(nonce, Some(previous));
            forall i :: 0 <= i < |params| ==> IsAscii(params[i].0) && IsAscii(params[i].1)
  {
    NonceParamsAscii(nonce);
    DecimalAscii(previous.nextOffset.value);
    assert IsAscii("order") && IsAscii("offset");
  }

  /** The order token the server reads back from a later page's parameters. */
  lemma CarriedOrder(nonce: int, previous: MediaResponse)
    requires previous.nextOffset.Some?
    ensures Get(CarriedParams(nonce, Some(previous)), "order") == (if previous.order != "" then Some(previous.order) else None)
  {
    var orderParams := if previous.order != "" then [("order", previous.order)] else [];
    var offsetParams := [("offset", DecimalString(previous.nextOffset.value))];
    assert CarriedParams(nonce, Some(previous)) == NonceParams(nonce) + (orderParams + offsetParams);
    GetSkips(NonceParams(nonce), orderParams + offsetParams, "order");
  }

  /** The offset the server reads back from a later page's parameters is the previous cursor. */
  lemma CarriedOffset(nonce: int, previous: MediaResponse)
    requires previous.nextOffset.Some?
    ensures ParseOffset(Get(CarriedParams(nonce, Some(previous)), "offset")) == previous.nextOffset.value
  {
    var offset := previous.nextOffset.value;
    var orderParams := if previous.order != "" then [("order", previous.order)] else [];
    var offsetParams := [("offset", DecimalString(offset))];
    assert CarriedParams(nonce, Some(previous)) == NonceParams(nonce) + (orderParams + offsetParams);
    GetSkips(NonceParams(nonce), orderParams + offsetParams, "offset");
    GetSkips(orderParams, offsetParams, "offset");
    ParseOffsetDecimal(offset);
  }

  // ---------------------------------------------------------------------------
  // what the hook derives from the loaded pages
  // ---------------------------------------------------------------------------

  /** The items of the pages, page after page. */
  function Flatten(pages: seq<MediaResponse>): seq<MediaItem>
  {
    if |pages| == 0 then [] else pages[0].items + Flatten(pages[1..])
  }

  /** An item is in the flattened pages exactly when some page holds it. */
  lemma {:induction false} FlattenMembership(pages: seq<MediaResponse>)
    ensures forall item :: item in Flatten(pages) <==> exists p :: 0 <= p < |pages| && item in pages[p].items
    decreases |pages|
  {
    if |pages| > 0 {
      FlattenMembership(pages[1..]);
      assert forall p :: 1 <= p < |pages| ==> pages[p] == pages[1..][p - 1];
      forall item | item in Flatten(pages)
        ensures exists p :: 0 <= p < |pages| && item in pages[p].items
      {
        if item !in pages[0].items {
          assert item in Flatten(pages[1..]);
          var q :| 0 <= q < |pages[1..]| && item in pages[1..][q].items;
          assert item in pages[q + 1].items;
        }
      }
      forall item | exists p :: 0 <= p < |pages| && item in pages[p].items
        ensures item in Flatten(pages)
      {
        var p :| 0 <= p < |pages| && item in pages[p].items;
        if p > 0 {
          assert item in pages[1..][p - 1].items;
        }
      }
    }
  }

  /**
   * `data ? data.flatMap(page => page.items) : []`: an item is shown exactly
   * when some loaded page holds it.
   */
  function Media(data: Option<seq<MediaResponse>>): (media: seq<MediaItem>)
    ensures forall item :: item in media <==> data.Some? && exists p :: 0 <= p < |data.value| && item in data.value[p].items
  {
    if data.None? then [] else FlattenMembership(data.value); Flatten(data.value)
  }

  /** Loading one more page appends its items to the media already shown. */
  lemma {:induction false} FlattenAppend(pages: seq<MediaResponse>, page: MediaResponse)
    ensures Flatten(pages + [page]) == Flatten(pages) + page.items
    decreases |pages|
  {
    if |pages| == 0 {
      assert Flatten([page]) == page.items + Flatten([]);
    } else {
      assert (pages + [page])[1..] == pages[1..] + [page];
      FlattenAppend(pages[1..], page);
    }
  }

  /** `data?.[0]?.items.length === 0`. */
  predicate IsEmpty(data: Option<seq<MediaResponse>>)
    ensures data.None? ==> !IsEmpty(data)
    ensures data.Some? && |data.value| > 0 ==> (IsEmpty(data) <==> Media(data) == Media(Some(data.value[1..])))
  {
    data.Some? && |data.value| > 0 && |data.value[0].items| == 0
  }

  /** `isEmpty || (data && data[data.length - 1]?.nextOffset === undefined)`. */
  predicate IsReachingEnd(data: Option<seq<MediaResponse>>)
    ensures IsEmpty(data) ==> IsReachingEnd(data)
    ensures IsReachingEnd(data) ==> data.Some?
  {
    IsEmpty(data)
      || (data.Some? && (|data.value| == 0 || data.value[|data.value| - 1].nextOffset.None?))
  }

  /**
   * `isReachingEnd` and `getKey` agree on when loading is over: while the end
   * is not reached `getKey` still yields a key for the next page, and once it
   * is reached with a non-empty first page `getKey` yields none.
   */
  lemma ReachingEndStopsKeys(nonce: int, data: Option<seq<MediaResponse>>)
    ensures data.Some? && |data.value| > 0 && !IsReachingEnd(data) ==>
              GetKey(nonce, |data.value|, Some(data.value[|data.value| - 1])).Some?
    ensures data.Some? && |data.value| > 0 && |data.value[0].items| > 0 && IsReachingEnd(data) ==>
              GetKey(nonce, |data.value|, Some(data.value[|data.value| - 1])).None?
  {
  }

  /** `loadMore`: ask for one more page. */
  function LoadMore(size: nat): (next: nat)
    ensures next > size
  {
    size + 1
  }
}
