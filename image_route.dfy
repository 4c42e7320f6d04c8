/**
 * The image proxy of app/api/image/route.ts: it reads the `key` parameter,
 * fetches the object from the public bucket URL and answers with the upstream
 * body under a Content-Type taken from the key's extension.
 *
 * The upstream `fetch` is an input: `None` when it rejects, otherwise the
 * response's status, whether it is ok and has a body, and the three headers
 * passed through.
 */
module ImageRoute {
  import opened JsText
  import opened UrlCodec
  import Backblaze
  import MediaRoute

  // ---------------------------------------------------------------------------
  // the MIME table
  // ---------------------------------------------------------------------------

  const ImageMimeTypes: map<string, string> := map[
    "webp" := "image/webp",
    "jpg" := "image/jpeg",
    "jpeg" := "image/jpeg",
    "png" := "image/png",
    "gif" := "image/gif",
    "bmp" := "image/bmp",
    "svg" := "image/svg+xml",
    "avif" := "image/avif",
    "heic" := "image/heic",
    "heif" := "image/heif"
  ]

  const OctetStream: string := "application/octet-stream"

  /**
   * `inferMimeFromKey`: the lookup is case-insensitive and by extension. A key
   * has a MIME type exactly when its lower-cased form is, or ends in `.`
   * followed by, one of the ten extensions, and the type is that extension's
   * entry.
   */
  function InferMimeFromKey(key: string): (mime: Option<string>)
    ensures mime.Some? <==>
              exists ext {:trigger EndsWithExtension(ToLower(key), ext)} ::
                ext in ImageMimeTypes && EndsWithExtension(ToLower(key), ext)
    ensures forall ext {:trigger EndsWithExtension(ToLower(key), ext)} ::
              ext in ImageMimeTypes && EndsWithExtension(ToLower(key), ext) ==>
              mime == Some(ImageMimeTypes[ext])
  {
    var ext := LowerExtension(key);
    LowerLastSegment(key);
    TableExtensionIff(ToLower(key));
    if ext in ImageMimeTypes then Some(ImageMimeTypes[ext]) else None
  }

  /** Against every table extension, the last `.`-segment test is the suffix test. */
  lemma TableExtensionIff(s: string)
    ensures forall ext :: ext in ImageMimeTypes ==> (LastSegment(s, '.') == ext <==> EndsWithExtension(s, ext))
  {
    forall ext | ext in ImageMimeTypes
      ensures LastSegment(s, '.') == ext <==> EndsWithExtension(s, ext)
    {
      ExtensionIff(s, ext);
    }
  }

  /**
   * `jpg` and `jpeg`, in any capitalisation, are the extensions that give
   * `image/jpeg`, and the only ones.
   */
  lemma JpegAliases(stem: string, ext: string)
    requires '.' !in ext
    ensures InferMimeFromKey(stem + "." + ext) == Some("image/jpeg") <==> ToLower(ext) == "jpg" || ToLower(ext) == "jpeg"
  {
    ExtensionLookup(stem, ext);
  }

  /** The type of `stem.ext` is looked up by the lower-cased `ext`. */
  lemma ExtensionLookup(stem: string, ext: string)
    requires '.' !in ext
    ensures InferMimeFromKey(stem + "." + ext) ==
              if ToLower(ext) in ImageMimeTypes then Some(ImageMimeTypes[ToLower(ext)]) else None
  {
    ExtensionOf(stem, ext);
  }

  /** Whatever precedes it, a trailing `.ext` is the last `.`-segment. */
  lemma ExtensionOf(stem: string, ext: string)
    requires '.' !in ext
    ensures LastSegment(stem + "." + ext, '.') == ext
  {
    var key := stem + "." + ext;
    ExtensionIff(key, ext);
    assert key[|key| - |"." + ext|..] == "." + ext;
  }

  /** The Content-Type sent: the inferred type, or `application/octet-stream`. */
  function ContentType(key: string): string
  {
    match InferMimeFromKey(key)
    case Some(mime) => mime
    case None => OctetStream
  }

  /**
   * An extension outside the table, and only such an extension, yields
   * `application/octet-stream`; every table entry is an `image/` type.
   */
  lemma ContentTypeDefault(key: string)
    ensures ContentType(key) == OctetStream <==> LowerExtension(key) !in ImageMimeTypes
    ensures LowerExtension(key) in ImageMimeTypes ==> "image/" <= ContentType(key)
  {
  }

  // ---------------------------------------------------------------------------
  // the lookup as written: a plain object literal
  // ---------------------------------------------------------------------------

  /**
   * The all-lower-case property names every object literal inherits from
   * `Object.prototype`, with the text each value becomes as a header value.
   */
  const InheritedMembers: map<string, string> := map[
    "constructor" := "function Object() { [native code] }",
    "__proto__" := "[object Object]"
  ]

  /**
   * `imageExtToMime[ext] || 'application/octet-stream'` as the source writes it:
   * indexing a plain object also finds the inherited members, and their values
   * are truthy.
   */
  function ContentTypeAsWritten(key: string): string
  {
    var ext := LowerExtension(key);
    if ext in ImageMimeTypes then ImageMimeTypes[ext]
    else if ext in InheritedMembers then InheritedMembers[ext]
    else OctetStream
  }

  /** Outside the two inherited names the literal lookup agrees with the table lookup. */
  lemma ContentTypeAsWrittenAgrees(key: string)
    requires LowerExtension(key) !in InheritedMembers
    ensures ContentTypeAsWritten(key) == ContentType(key)
  {
  }

  /**
   * An object whose key ends in `.constructor` is served with the text of the
   * `Object` function as its Content-Type, where the table lookup gives
   * `application/octet-stream`.
   */
  lemma PrototypeExtensionCounterexample(stem: string)
    ensures ContentTypeAsWritten(stem + ".constructor") == "function Object() { [native code] }"
    ensures ContentType(stem + ".constructor") == OctetStream
  {
    ExtensionOf(stem, "constructor");
    assert stem + ".constructor" == stem + "." + "constructor";
    var lower := ToLower("constructor");
    assert forall i :: 0 <= i < |lower| ==> lower[i] == "constructor"[i];
    assert lower == "constructor";
  }

  // ---------------------------------------------------------------------------
  // the GET handler
  // ---------------------------------------------------------------------------

  /** What the proxy learns from its upstream `fetch`. */
  datatype Upstream = Upstream(
    ok: bool,
    status: nat,
    hasBody: bool,
    contentLength: Option<string>,
    etag: Option<string>,
    lastModified: Option<string>)

  datatype Body = Text(text: string) | UpstreamBody

  /** A reply; the headers are the object literal handed to `Response`, one value per name. */
  datatype ImageReply = ImageReply(status: nat, body: Body, headers: map<string, string>)

  /** The handler either answers at once or fetches one URL first. */
  datatype Plan = Answer(reply: ImageReply) | Fetch(url: string)

  const ImmutableCacheControl: string := "public, s-maxage=31536000, immutable"

  const MissingKey: ImageReply := ImageReply(400, Text("Missing key"), map[])

  const InternalError: ImageReply := ImageReply(500, Text("Internal error"), map[])

  /** `searchParams.get('key') || ''`. */
  function RequestedKey(query: string): string
  {
    match Get(ParseQuery(query), "key")
    case None => ""
    case Some(key) => key
  }

  /** `https://<bucket domain>/` followed by the key encoded segment by segment. */
  function UpstreamUrl(key: string): string
  {
    Backblaze.BucketOrigin + Backblaze.EncodeKey(key)
  }

  /**
   * The first half of `GET`: a missing or empty `key` is answered with 400 and
   * nothing is fetched; any other key makes the handler fetch its bucket URL.
   */
  function PlanRequest(query: string): (plan: Plan)
    ensures plan.Answer? <==> Get(ParseQuery(query), "key").None? || Get(ParseQuery(query), "key").value == ""
    ensures plan.Answer? ==> plan.reply == MissingKey
    ensures plan.Fetch? ==> plan.url == UpstreamUrl(Get(ParseQuery(query), "key").value)
  {
    var key := RequestedKey(query);
    if key == "" then Answer(MissingKey) else Fetch(UpstreamUrl(key))
  }

  /** `upstream.status || 404`. */
  function NotFoundStatus(upstream: Upstream): nat
  {
    if upstream.status == 0 then 404 else upstream.status
  }

  /**
   * Whether a `Response` with a text body may have this status: it must lie in
   * 200..599 and not be one of the null-body statuses 204, 205 and 304; any
   * other status makes the constructor throw, and the handler's `catch` answers
   * 500.
   */
  predicate CanCarryText(status: nat)
  {
    200 <= status <= 599 && status != 204 && status != 205 && status != 304
  }

  /** A pass-through header, present only when upstream supplied a non-empty value. */
  function OptionalHeader(name: string, value: Option<string>): map<string, string>
  {
    if value.Some? && value.value != "" then map[name := value.value] else map[]
  }

  function SuccessHeaders(key: string, upstream: Upstream): map<string, string>
  {
    map["Content-Type" := ContentType(key)]
      + OptionalHeader("Content-Length", upstream.contentLength)
      + OptionalHeader("ETag", upstream.etag)
      + OptionalHeader("Last-Modified", upstream.lastModified)
      + map["Cache-Control" := ImmutableCacheControl]
  }

  /**
   * The second half of `GET`, once the fetch has settled (`None`: it rejected).
   * Every reply has a status in 200..599; the upstream body is forwarded exactly
   * when upstream is ok with a body, and then with 200; a rejected fetch gives
   * 500.
   */
  function Complete(key: string, fetched: Option<Upstream>): (reply: ImageReply)
    ensures 200 <= reply.status <= 599
    ensures reply.body == UpstreamBody <==> fetched.Some? && fetched.value.ok && fetched.value.hasBody
    ensures reply.body == UpstreamBody ==> reply.status == 200
    ensures fetched.None? ==> reply == InternalError
  {
    match fetched
    case None => InternalError
    case Some(upstream) =>
      if !upstream.ok || !upstream.hasBody then
        var status := NotFoundStatus(upstream);
        if CanCarryText(status) then ImageReply(status, Text("Not found"), map[]) else InternalError
      else ImageReply(200, UpstreamBody, SuccessHeaders(key, upstream))
  }

  /**
   * `GET /api/image?key=…` with the fetch outcome given: every reply has a
   * status in 200..599, and the upstream body is forwarded, with 200, only when
   * the key was present and upstream answered ok with a body.
   */
  function HandleGet(query: string, fetched: Option<Upstream>): (reply: ImageReply)
    ensures 200 <= reply.status <= 599
    ensures reply.body == UpstreamBody ==>
              reply.status == 200 && PlanRequest(query).Fetch?
              && fetched.Some? && fetched.value.ok && fetched.value.hasBody
  {
    match PlanRequest(query)
    case Answer(reply) => reply
    case Fetch(_) => Complete(RequestedKey(query), fetched)
  }

  /**
   * A missing or empty `key` is answered with 400 before any request goes
   * upstream: the reply does not depend on what a fetch would have returned.
   */
  lemma MissingKeyRejected(query: string, fetched1: Option<Upstream>, fetched2: Option<Upstream>)
    ensures PlanRequest(query).Answer? <==>
      (Get(ParseQuery(query), "key").None? || Get(ParseQuery(query), "key").value == "")
    ensures PlanRequest(query).Answer? ==>
      HandleGet(query, fetched1) == HandleGet(query, fetched2) == MissingKey
  {
  }

  /**
   * The fetched URL is the bucket origin followed by the encoded key, and it is
   * the very URL the download-URL builder gives a video key.
   */
  lemma UpstreamUrlOnBucket(key: string)
    ensures Backblaze.StartsWith(UpstreamUrl(key), Backblaze.BucketOrigin)
    ensures UpstreamUrl(key)[|Backblaze.BucketOrigin|..] == Backblaze.EncodeKey(key)
    ensures !Backblaze.StartsWith(key, Backblaze.TestPrefix) && MediaRoute.GetFileType(key) == MediaRoute.Video ==>
              UpstreamUrl(key) == Backblaze.GetDownloadUrl(key)
  {
    if !Backblaze.StartsWith(key, Backblaze.TestPrefix) {
      Backblaze.DirectUrlIffVideo(key);
    }
    assert UpstreamUrl(key)[|Backblaze.BucketOrigin|..] == Backblaze.EncodeKey(key);
  }

  /** The path of the fetched URL decodes back to the requested ASCII key. */
  lemma UpstreamUrlNamesKey(key: string)
    requires IsAscii(key)
    ensures PercentDecode(UpstreamUrl(key)[|Backblaze.BucketOrigin|..]) == key
  {
    Backblaze.EncodeKeyRoundTrip(key);
    UpstreamUrlOnBucket(key);
  }

  /**
   * Following a proxy URL the download-URL builder made for a non-empty ASCII
   * image key fetches exactly that key's bucket URL.
   */
  lemma ProxyFetchesImageKey(key: string)
    requires key != "" && IsAscii(key) && !Backblaze.StartsWith(key, Backblaze.TestPrefix)
    requires MediaRoute.GetFileType(key) == MediaRoute.Image
    ensures PlanRequest(QueryOf(Backblaze.GetDownloadUrl(key))) == Fetch(UpstreamUrl(key))
  {
    Backblaze.ImageUrlCarriesKey(key);
  }


  /**
   * An upstream that is not ok or has no body yields a "Not found" reply with
   * the upstream status, 404 in place of 0; a status a text response cannot
   * carry ends in 500 instead. Such a reply never carries the upstream body.
   */
  lemma UpstreamFailure(key: string, upstream: Upstream)
    requires !upstream.ok || !upstream.hasBody
    ensures var reply := Complete(key, Some(upstream));
            var status := if upstream.status == 0 then 404 else upstream.status;
            && reply.status != 0
            && reply.body != UpstreamBody
            && (CanCarryText(status) ==> reply == ImageReply(status, Text("Not found"), map[]))
            && (!CanCarryText(status) ==> reply == InternalError)
  {
  }

  /**
   * A successful upstream answers 200 with its body, the key's Content-Type,
   * the immutable Cache-Control, and each of Content-Length, ETag and
   * Last-Modified exactly when upstream supplied a non-empty value for it;
   * no other header is set.
   */
  lemma UpstreamSuccess(key: string, upstream: Upstream)
    requires upstream.ok && upstream.hasBody
    ensures var reply := Complete(key, Some(upstream));
            && reply.status == 200 && reply.body == UpstreamBody
            && Lookup(reply.headers, "Content-Type") == Some(ContentType(key))
            && Lookup(reply.headers, "Cache-Control") == Some(ImmutableCacheControl)
            && Lookup(reply.headers, "Content-Length") == OptionalValue(upstream.contentLength)
            && Lookup(reply.headers, "ETag") == OptionalValue(upstream.etag)
            && Lookup(reply.headers, "Last-Modified") == OptionalValue(upstream.lastModified)
            && reply.headers.Keys <= {"Content-Type", "Content-Length", "ETag", "Last-Modified", "Cache-Control"}
  {
    FixedHeaders(key, upstream);
    PassedHeaders(key, upstream);
    HeaderNames(key, upstream);
  }

  /** The two headers every success carries. */
  lemma FixedHeaders(key: string, upstream: Upstream)
    ensures var headers := SuccessHeaders(key, upstream);
            && Lookup(headers, "Content-Type") == Some(ContentType(key))
            && Lookup(headers, "Cache-Control") == Some(ImmutableCacheControl)
  {
    var h0 := map["Content-Type" := ContentType(key)];
    var h3 := h0 + OptionalHeader("Content-Length", upstream.contentLength)
                 + OptionalHeader("ETag", upstream.etag)
                 + OptionalHeader("Last-Modified", upstream.lastModified);
    OptionalHeaderOther("Content-Length", upstream.contentLength, "Content-Type");
    OptionalHeaderOther("ETag", upstream.etag, "Content-Type");
    OptionalHeaderOther("Last-Modified", upstream.lastModified, "Content-Type");
    assert h3["Content-Type"] == ContentType(key);
  }

  /** A success sets no header beyond the five names. */
  lemma HeaderNames(key: string, upstream: Upstream)
    ensures SuccessHeaders(key, upstream).Keys <= {"Content-Type", "Content-Length", "ETag", "Last-Modified", "Cache-Control"}
  {
    OptionalHeaderNames("Content-Length", upstream.contentLength);
    OptionalHeaderNames("ETag", upstream.etag);
    OptionalHeaderNames("Last-Modified", upstream.lastModified);
  }

  /** An optional header sets at most its own name. */
  lemma OptionalHeaderNames(name: string, value: Option<string>)
    ensures OptionalHeader(name, value).Keys <= {name}
  {
  }

  /** The three headers passed through from upstream when it supplied them. */
  lemma PassedHeaders(key: string, upstream: Upstream)
    ensures var headers := SuccessHeaders(key, upstream);
            && Lookup(headers, "Content-Length") == OptionalValue(upstream.contentLength)
            && Lookup(headers, "ETag") == OptionalValue(upstream.etag)
            && Lookup(headers, "Last-Modified") == OptionalValue(upstream.lastModified)
  {
    var h0 := map["Content-Type" := ContentType(key)];
    var h1 := h0 + OptionalHeader("Content-Length", upstream.contentLength);
    var h2 := h1 + OptionalHeader("ETag", upstream.etag);
    var h3 := h2 + OptionalHeader("Last-Modified", upstream.lastModified);
    var h4 := h3 + map["Cache-Control" := ImmutableCacheControl];
    OptionalHeaderOther("ETag", upstream.etag, "Content-Length");
    OptionalHeaderOther("Last-Modified", upstream.lastModified, "Content-Length");
    OptionalHeaderOther("Last-Modified", upstream.lastModified, "ETag");
    assert Lookup(h1, "Content-Length") == OptionalValue(upstream.contentLength);
    assert Lookup(h2, "ETag") == OptionalValue(upstream.etag);
    assert Lookup(h3, "Last-Modified") == OptionalValue(upstream.lastModified);
  }

  /** An optional header sets no name but its own. */
  lemma OptionalHeaderOther(name: string, value: Option<string>, other: string)
    requires other != name
    ensures other !in OptionalHeader(name, value)
  {
  }

  /** The value of a header, if it is set. */
  function Lookup(headers: map<string, string>, name: string): Option<string>
  {
    if name in headers then Some(headers[name]) else None
  }

  /** The value a pass-through header ends up with: the upstream value when it is non-empty. */
  function OptionalValue(value: Option<string>): Option<string>
  {
    if value.Some? && value.value != "" then value else None
  }
}
