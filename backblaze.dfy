/**
 * `getDownloadUrl` of lib/backblaze.ts: local test files stay local, images go
 * through the `/api/image` proxy and videos get a direct bucket URL, every key
 * percent-encoded one `/`-segment at a time.
 */
module Backblaze {
  import opened JsText
  import opened UrlCodec
  import MediaRoute

  const BucketDomain: string := "supermirage.s3.us-west-004.backblazeb2.com"

  /** The public bucket URL every encoded key is appended to. */
  const BucketOrigin: string := "https://" + BucketDomain + "/"

  const ImageProxyPath: string := "/api/image"

  const TestPrefix: string := "test/"

  /** The video extensions of the download-URL builder, a set of its own. */
  const DownloadVideoExtensions: set<string> := {"mp4", "mov", "avi", "webm", "mkv", "m4v"}

  // ---------------------------------------------------------------------------
  // per-segment encoding
  // ---------------------------------------------------------------------------

  /** `.map(encodeURIComponent)` over the `/`-segments of a key. */
  function EncodeSegments(segments: seq<string>): (r: seq<string>)
    ensures |r| == |segments|
    ensures forall i :: 0 <= i < |r| ==> r[i] == EncodeUriComponent(segments[i])
  {
    seq(|segments|, i requires 0 <= i < |segments| => EncodeUriComponent(segments[i]))
  }

  lemma EncodeSegmentsCons(segment: string, segments: seq<string>)
    ensures EncodeSegments([segment] + segments) == [EncodeUriComponent(segment)] + EncodeSegments(segments)
  {
  }

  /**
   * `key.split('/').map(encodeURIComponent).join('/')`. A `/` inside a segment
   * would be escaped, so the encoded key splits back into exactly the encoded
   * segments of the key.
   */
  function EncodeKey(key: string): (encoded: string)
    ensures Split(encoded, '/') == EncodeSegments(Split(key, '/'))
  {
    var segments := EncodeSegments(Split(key, '/'));
    assert forall i :: 0 <= i < |segments| ==> '/' !in segments[i];
    SplitJoin(segments, '/');
    Join(segments, '/')
  }

  /** The encoder seen one character at a time: `/` is kept, everything else as `encodeURIComponent` does. */
  function EncodeKeyChar(c: char): string
  {
    if c == '/' then "/" else EncodeUriChar(c)
  }

  /**
   * Encoding segment by segment and rejoining is the same as encoding every
   * character except `/`.
   */
  lemma {:induction false} EncodeKeyPerChar(key: string)
    ensures EncodeKey(key) == FlatMap(EncodeKeyChar, key)
    decreases |key|
  {
    if |key| > 0 {
      EncodeKeyPerChar(key[1..]);
      if key[0] == '/' {
        SlashStep(key);
      } else {
        SegmentCharStep(key);
      }
    }
  }

  /** A leading `/` starts an empty segment, which encodes to nothing. */
  lemma SlashStep(key: string)
    requires |key| > 0 && key[0] == '/'
    requires EncodeKey(key[1..]) == FlatMap(EncodeKeyChar, key[1..])
    ensures EncodeKey(key) == FlatMap(EncodeKeyChar, key)
  {
    var rest := Split(key[1..], '/');
    var encRest := EncodeSegments(rest);
    assert FlatMap(EncodeKeyChar, key) == "/" + FlatMap(EncodeKeyChar, key[1..]);
    assert Split(key, '/') == [""] + rest;
    EncodeSegmentsCons("", rest);
    assert EncodeUriComponent("") == "";
    assert ([""] + encRest)[1..] == encRest;
  }

  /** Any other leading character joins the first segment and is encoded there. */
  lemma SegmentCharStep(key: string)
    requires |key| > 0 && key[0] != '/'
    requires EncodeKey(key[1..]) == FlatMap(EncodeKeyChar, key[1..])
    ensures EncodeKey(key) == FlatMap(EncodeKeyChar, key)
  {
    var c := key[0];
    var rest := Split(key[1..], '/');
    var encRest := EncodeSegments(rest);
    var first := [c] + rest[0];
    assert Split(key, '/') == [first] + rest[1..];
    UriComponentCons(c, rest[0]);
    EncodeSegmentsCons(first, rest[1..]);
    assert rest == [rest[0]] + rest[1..];
    EncodeSegmentsCons(rest[0], rest[1..]);
    JoinPrefixFirst(EncodeUriChar(c), encRest, '/');
    assert EncodeKey(key) == EncodeUriChar(c) + EncodeKey(key[1..]);
    assert EncodeKeyChar(c) == EncodeUriChar(c);
    assert FlatMap(EncodeKeyChar, key) == EncodeKeyChar(c) + FlatMap(EncodeKeyChar, key[1..]);
  }

  /** For ASCII keys, percent-decoding the encoded key gives the key back. */
  lemma {:induction false} EncodeKeyRoundTrip(key: string)
    requires IsAscii(key)
    ensures FormDecode(EncodeKey(key)) == key
    ensures PercentDecode(EncodeKey(key)) == key
  {
    EncodeKeyPerChar(key);
    KeyCharsRoundTrip(key);
  }

  lemma {:induction false} KeyCharsRoundTrip(s: string)
    requires IsAscii(s)
    ensures '+' !in FlatMap(EncodeKeyChar, s) && '&' !in FlatMap(EncodeKeyChar, s) && '=' !in FlatMap(EncodeKeyChar, s)
    ensures PercentDecode(FlatMap(EncodeKeyChar, s)) == s
    ensures FormDecode(FlatMap(EncodeKeyChar, s)) == s
    decreases |s|
  {
    var e := FlatMap(EncodeKeyChar, s);
    if |s| > 0 {
      var head, tail := EncodeKeyChar(s[0]), FlatMap(EncodeKeyChar, s[1..]);
      KeyCharsRoundTrip(s[1..]);
      KeyCharDecodes(s[0], tail);
      assert e == head + tail;
      assert s == [s[0]] + s[1..];
    }
    ReplacePlusNoPlus(e);
  }

  /** One ASCII character of the key: its encoded form holds no `+`, `&`, `=` and decodes back to it. */
  lemma KeyCharDecodes(c: char, rest: string)
    requires c as int < 0x80
    ensures '+' !in EncodeKeyChar(c) && '&' !in EncodeKeyChar(c) && '=' !in EncodeKeyChar(c)
    ensures PercentDecode(EncodeKeyChar(c) + rest) == [c] + PercentDecode(rest)
  {
    if c == '/' {
      PercentDecodeLiteral(c, rest);
    } else {
      UriCharDecodes(c, rest);
    }
  }

  /** The encoded key holds neither `&`, `=` nor `+`, so it is a single query value. */
  lemma EncodeKeyQuerySafe(key: string)
    requires IsAscii(key)
    ensures '+' !in EncodeKey(key) && '&' !in EncodeKey(key) && '=' !in EncodeKey(key)
  {
    EncodeKeyPerChar(key);
    KeyCharsRoundTrip(key);
  }

  // ---------------------------------------------------------------------------
  // the download URL
  // ---------------------------------------------------------------------------

  predicate StartsWith(s: string, prefix: string)
  {
    prefix <= s
  }

  /**
   * `getDownloadUrl(key)`: a `test/` key is served from the site itself as it
   * is; every other key becomes the bucket origin or the image proxy's `key=`
   * query followed by the encoded key.
   */
  function GetDownloadUrl(key: string): (url: string)
    ensures StartsWith(key, TestPrefix) ==> url == "/" + key
    ensures !StartsWith(key, TestPrefix) ==>
              HasSuffix(url, EncodeKey(key))
              && (StartsWith(url, BucketOrigin) || StartsWith(url, ImageProxyPath + "?key="))
  {
    if StartsWith(key, TestPrefix) then "/" + key
    else if LowerExtension(key) !in DownloadVideoExtensions then ImageProxyPath + "?key=" + EncodeKey(key)
    else BucketOrigin + EncodeKey(key)
  }

  /** A key under `test/` is served from the site itself, whatever its extension. */
  lemma TestKeyStaysLocal(key: string)
    requires StartsWith(key, TestPrefix)
    ensures GetDownloadUrl(key) == "/" + key
    ensures !StartsWith(GetDownloadUrl(key), BucketOrigin) && !StartsWith(GetDownloadUrl(key), ImageProxyPath + "?")
  {
    var url := GetDownloadUrl(key);
    assert key[0] == TestPrefix[0];
    assert url[0] == '/' && url[1] == 't';
    assert BucketOrigin[0] == 'h' && (ImageProxyPath + "?")[1] == 'a';
  }

  /**
   * Outside `test/`, the direct bucket URL is chosen exactly when the media
   * listing classifies the key as a video: both use the same six extensions of
   * the lower-cased last `.`-segment. Every other key goes through the proxy.
   */
  lemma DirectUrlIffVideo(key: string)
    requires !StartsWith(key, TestPrefix)
    ensures StartsWith(GetDownloadUrl(key), BucketOrigin) <==> MediaRoute.GetFileType(key) == MediaRoute.Video
    ensures StartsWith(GetDownloadUrl(key), ImageProxyPath + "?key=") <==> MediaRoute.GetFileType(key) == MediaRoute.Image
    ensures MediaRoute.GetFileType(key) == MediaRoute.Video ==> GetDownloadUrl(key) == BucketOrigin + EncodeKey(key)
    ensures MediaRoute.GetFileType(key) == MediaRoute.Image ==> GetDownloadUrl(key) == ImageProxyPath + "?key=" + EncodeKey(key)
  {
    LowerLastSegment(key);
    var ext := LowerExtension(key);
    assert ext in DownloadVideoExtensions <==> ext in MediaRoute.VideoExtensions;
    var url := GetDownloadUrl(key);
    assert BucketOrigin[0] == 'h' && (ImageProxyPath + "?key=")[0] == '/';
    if StartsWith(url, BucketOrigin) {
      assert url[0] == 'h';
    }
    if StartsWith(url, ImageProxyPath + "?key=") {
      assert url[0] == '/';
    }
  }

  /**
   * An ASCII image key travels through the proxy URL intact: the `key`
   * parameter the proxy reads back from the URL's query is the key itself.
   */
  lemma ImageUrlCarriesKey(key: string)
    requires IsAscii(key) && !StartsWith(key, TestPrefix)
    requires MediaRoute.GetFileType(key) == MediaRoute.Image
    ensures Get(ParseQuery(QueryOf(GetDownloadUrl(key))), "key") == Some(key)
  {
    DirectUrlIffVideo(key);
    EncodeKeyQuerySafe(key);
    EncodeKeyRoundTrip(key);
    ProxyQueryCarries(EncodeKey(key), key);
  }

  /** A proxy URL whose `key` value is free of `&`, `=` and `+` hands the decoded value to the proxy. */
  lemma ProxyQueryCarries(encoded: string, key: string)
    requires '+' !in encoded && '&' !in encoded && '=' !in encoded
    requires FormDecode(encoded) == key
    ensures Get(ParseQuery(QueryOf(ImageProxyPath + "?key=" + encoded)), "key") == Some(key)
  {
    var url := ImageProxyPath + "?key=" + encoded;
    assert url == ImageProxyPath + "?" + ("key=" + encoded);
    QueryOfPath(ImageProxyPath, "key=" + encoded);
    SingleParamParses("key", encoded);
    assert "key=" + encoded == "key" + "=" + encoded;
    var pairs := ParseQuery(QueryOf(url));
    assert pairs == [("key", key)];
    assert Get(pairs, "key") == Some(key);
  }

  /** A query made of one `name=value` piece, free of `&`, `=` and `+`, parses to that one pair. */
  lemma SingleParamParses(name: string, value: string)
    requires name != "" && IsFormPlainText(name)
    requires '+' !in value && '&' !in value && '=' !in value
    ensures ParseQuery(name + "=" + value) == [(name, FormDecode(value))]
  {
    var query := name + "=" + value;
    assert '&' !in name && '=' !in name by {
      assert forall i :: 0 <= i < |name| ==> IsFormPlain(name[i]);
    }
    assert '&' !in query;
    SplitSingle(query, '&');
    JoinSplit(query, '&');
    assert Split(query, '&') == [query];
    assert query == name + ("=" + value);
    SplitFreePrefix(name, "=" + value, '=');
    assert ("=" + value)[1..] == value;
    assert Split("=" + value, '=') == [""] + Split(value, '=');
    SplitSingle(value, '=');
    JoinSplit(value, '=');
    assert name + "" == name;
    assert Split(query, '=') == [name, value];
    PlainTextDecodes(name);
    assert ParsePieces([query]) == [ParsePair(query)] + ParsePieces([]);
  }

  /**
   * An ASCII video key outside `test/` gets the bucket URL whose path decodes
   * back to the key.
   */
  lemma VideoUrlNamesKey(key: string)
    requires IsAscii(key) && !StartsWith(key, TestPrefix)
    requires MediaRoute.GetFileType(key) == MediaRoute.Video
    ensures StartsWith(GetDownloadUrl(key), BucketOrigin) && PercentDecode(GetDownloadUrl(key)[|BucketOrigin|..]) == key
  {
    DirectUrlIffVideo(key);
    EncodeKeyRoundTrip(key);
    assert (BucketOrigin + EncodeKey(key))[|BucketOrigin|..] == EncodeKey(key);
  }
}
