/**
 * The outcomes of the request flow both handlers share (tarkov-news.js lines 27-66,
 * worker.js lines 36-72): a cache hit, an upstream failure, a success, and the two awaits
 * on the miss path whose rejection nothing catches. The outcomes are values here; the
 * handlers in `Pages` and `Worker` are proved to produce them.
 */
module Handler {
  import opened Wrappers
  import opened Text
  import opened Params
  import opened Scan
  import opened Feed
  import opened Http

  const CacheControl: Header := ("Cache-Control", "public, max-age=900")

  /** `items.slice(0, limit)`: a negative end counts from the back. */
  function Slice(items: seq<NewsItem>, limit: int): (r: seq<NewsItem>)
    ensures |r| <= |items| && r == items[..|r|]
    ensures 0 <= limit <= |items| ==> |r| == limit
    ensures limit >= |items| ==> r == items
    ensures limit < 0 ==> |r| == if |items| + limit > 0 then |items| + limit else 0
  {
    var end := if limit < 0 then (if |items| + limit > 0 then |items| + limit else 0)
               else if limit < |items| then limit else |items|;
    items[..end]
  }

  /** The 502 answer: `{ ok: false, error: "upstream_failed", status }`, stamped. */
  function FailureResponse(status: int, api: seq<Header>): Response {
    Stamp(Json(UpstreamFailed(false, ErrorUpstream, status), 502, []), api)
  }

  /** The body of a successful answer: the request's query and window, and the first
      `limit` of the parsed items (`generatedAt` is not modelled). */
  function SuccessBody(r: FeedRequest, xml: string, safeDate: DateParser, ellipsis: string): Body
    requires '>' !in ellipsis
  {
    FeedEnvelope(true, SourceName, r.query, r.hours, Slice(FeedItems(xml, safeDate, ellipsis), r.limit))
  }

  /** The 200 answer: JSON with the cache-control header, stamped. */
  function SuccessResponse(r: FeedRequest, xml: string, safeDate: DateParser, ellipsis: string, api: seq<Header>): Response
    requires '>' !in ellipsis
  {
    Stamp(Json(SuccessBody(r, xml, safeDate, ellipsis), 200, [CacheControl]), api)
  }

  /** The stamped header names leave the content type and cache control alone. */
  ghost predicate Separate(api: seq<Header>) {
    DistinctNames(api) && Avoids(api, ToLower(ContentType)) && Avoids(api, ToLower(CacheControl.0))
  }

  /** An upstream failure gives 502 with the upstream status in a JSON body, and the
      stamped headers. */
  lemma FailureOutcome(status: int, api: seq<Header>)
    requires Separate(api)
    ensures var resp := FailureResponse(status, api);
      && resp.status == 502
      && resp.body == UpstreamFailed(false, "upstream_failed", status)
      && Lookup(resp.headers, ContentType) == Some(JsonContentType)
      && Stamped(resp.headers, api)
  {
    var json := Json(UpstreamFailed(false, ErrorUpstream, status), 502, []);
    var sets := [(ContentType, JsonContentType)];
    assert sets + [] == sets;
    ApplyAllStamps([], sets);
    GetSingle(json.headers, ToLower(ContentType), JsonContentType);
    StampHeaders(json, api, ContentType);
  }

  /** A success gives 200, JSON, `Cache-Control: public, max-age=900`, the stamped headers,
      and a body carrying the request's query and window. */
  lemma SuccessOutcome(r: FeedRequest, xml: string, safeDate: DateParser, ellipsis: string, api: seq<Header>)
    requires '>' !in ellipsis && Separate(api)
    ensures var resp := SuccessResponse(r, xml, safeDate, ellipsis, api);
      && resp.status == 200
      && Lookup(resp.headers, ContentType) == Some(JsonContentType)
      && Lookup(resp.headers, "Cache-Control") == Some("public, max-age=900")
      && Stamped(resp.headers, api)
      && resp.body == FeedEnvelope(true, "google-news-rss", r.query, r.hours, Slice(FeedItems(xml, safeDate, ellipsis), r.limit))
  {
    var json := Json(SuccessBody(r, xml, safeDate, ellipsis), 200, [CacheControl]);
    JsonHeaders(json);
    StampHeaders(json, api, ContentType);
    StampHeaders(json, api, CacheControl.0);
  }

  /** The items of a success: the first `min(limit, n)` of the sorted items, where `n` is
      the number of item blocks; sorted newest first, undated last, every title non-empty
      and every excerpt free of tags. */
  lemma SuccessItems(xml: string, safeDate: DateParser, ellipsis: string, limit: int)
    requires '>' !in ellipsis && limit >= 0
    ensures var items := Slice(FeedItems(xml, safeDate, ellipsis), limit);
      && |items| == (if limit < |ItemBlocks(xml)| then limit else |ItemBlocks(xml)|)
      && Sorted(items)
      && (forall i :: 0 <= i < |items| ==> items[i].title != [] && TagFree(items[i].excerpt))
      && (forall i, j :: 0 <= i < j < |items| && items[i].publishedAt.None? ==> items[j].publishedAt.None?)
  {
    FeedItemsSpec(xml, safeDate, ellipsis);
    SlicePreserves(FeedItems(xml, safeDate, ellipsis), limit);
  }

  /** A prefix of a sorted, well-formed, undated-last sequence is all three. */
  lemma SlicePreserves(all: seq<NewsItem>, limit: int)
    requires Sorted(all)
    requires forall i :: 0 <= i < |all| ==> all[i].title != [] && TagFree(all[i].excerpt)
    requires forall i, j :: 0 <= i < j < |all| && all[i].publishedAt.None? ==> all[j].publishedAt.None?
    ensures var items := Slice(all, limit);
      && Sorted(items)
      && (forall i :: 0 <= i < |items| ==> items[i].title != [] && TagFree(items[i].excerpt))
      && (forall i, j :: 0 <= i < j < |items| && items[i].publishedAt.None? ==> items[j].publishedAt.None?)
  {
    var items := Slice(all, limit);
    forall i, j | 0 <= i < j < |items| ensures !Less(Key(items[i]), Key(items[j])) {
      assert items[i] == all[i] && items[j] == all[j];
    }
    forall i | 0 <= i < |items| ensures items[i].title != [] && TagFree(items[i].excerpt) {
      assert items[i] == all[i];
    }
    forall i, j | 0 <= i < j < |items| && items[i].publishedAt.None? ensures items[j].publishedAt.None? {
      assert items[i] == all[i] && items[j] == all[j];
    }
  }

  /** The headers `json(body, 200, { "Cache-Control": ... })` starts with: the content
      type and the cache control, each read back case-insensitively. */
  lemma JsonHeaders(json: Response)
    requires json.headers == ApplyAll([], [(ContentType, JsonContentType)] + [CacheControl])
    ensures Lookup(json.headers, ContentType) == Some(JsonContentType)
    ensures Lookup(json.headers, "Cache-Control") == Some("public, max-age=900")
  {
    var sets := [(ContentType, JsonContentType)] + [CacheControl];
    assert DistinctNames(sets) by {
      NamesDiffer(ContentType, CacheControl.0);
    }
    ApplyAllStamps([], sets);
    ApplyAllLowered([], sets);
    assert sets[0] == (ContentType, JsonContentType) && sets[1] == CacheControl;
    GetSingle(json.headers, ToLower(ContentType), JsonContentType);
    GetSingle(json.headers, ToLower(CacheControl.0), CacheControl.1);
  }

  /** A response this flow stores is already stamped, so serving it from the cache (which
      stamps it again) gives back exactly what was stored. */
  lemma HitServesStored(r: FeedRequest, xml: string, safeDate: DateParser, ellipsis: string, api: seq<Header>)
    requires '>' !in ellipsis && DistinctNames(api)
    ensures var stored := SuccessResponse(r, xml, safeDate, ellipsis, api);
      Stamp(stored, api) == stored
  {
    StampIdempotent(Json(SuccessBody(r, xml, safeDate, ellipsis), 200, [CacheControl]), api);
  }

  // ---- the request flow over a cache and an upstream ----

  /** Every stored response is already stamped with `api`. */
  ghost predicate StoreStamped(store: map<string, Response>, api: seq<Header>) {
    forall key :: key in store ==> Stamp(store[key], api) == store[key]
  }

  /** Storing a stamped response keeps every stored response stamped. */
  lemma StoreStampedPut(store: map<string, Response>, key: string, resp: Response, api: seq<Header>)
    requires StoreStamped(store, api) && Stamp(resp, api) == resp
    ensures StoreStamped(store[key := resp], api)
  {
  }

  /** A hit on a store whose responses are all stamped is served exactly as stored. */
  lemma HitExact(store: map<string, Response>, key: string, resp: Response, api: seq<Header>)
    requires StoreStamped(store, api) && key in store && resp == Stamp(store[key], api)
    ensures resp == store[key]
  {
  }

  /** What a cache miss does: exactly one fetch, of the upstream request for `r`. A fetch
      that rejects, or a body that cannot be read, ends the handler with an exception and
      stores nothing; a status outside 200..299 gives the 502 answer and stores nothing;
      otherwise the 200 answer, stored under `key`. */
  ghost predicate Missed(api: seq<Header>, ellipsis: string, r: FeedRequest, key: string, safeDate: DateParser,
                         store0: map<string, Response>, store1: map<string, Response>,
                         log0: seq<UpstreamRequest>, log1: seq<UpstreamRequest>,
                         respond: UpstreamRequest -> UpstreamReply, out: Outcome)
    requires r.hours >= 0 && '>' !in ellipsis
  {
    && log1 == log0 + [UpstreamFor(r)]
    && match respond(UpstreamFor(r))
       case Rejected => out == Thrown && store1 == store0
       case Reply(status, text) =>
         if !IsOk(status) then
           out == Answer(FailureResponse(status, api)) && store1 == store0
         else if text.None? then
           out == Thrown && store1 == store0
         else
           && out == Answer(SuccessResponse(r, text.value, safeDate, ellipsis, api))
           && store1 == store0[key := out.response]
  }

  /** The successful miss: the stamped 200 answer built from the parsed items cut to the
      limit, stored under `key`. */
  lemma MissAnswer(api: seq<Header>, ellipsis: string, r: FeedRequest, key: string, safeDate: DateParser,
                   store: map<string, Response>, log0: seq<UpstreamRequest>,
                   respond: UpstreamRequest -> UpstreamReply, status: int, xml: string, resp: Response)
    requires r.hours >= 0 && '>' !in ellipsis
    requires respond(UpstreamFor(r)) == Reply(status, Some(xml)) && IsOk(status)
    requires resp == SuccessResponse(r, xml, safeDate, ellipsis, api)
    ensures Missed(api, ellipsis, r, key, safeDate, store, store[key := resp], log0, log0 + [UpstreamFor(r)], respond, Answer(resp))
  {
  }

  /** Storing the 200 answer keeps a store of stamped responses stamped, so a later hit on
      it is served exactly as stored. */
  lemma MissKeepsStamped(api: seq<Header>, ellipsis: string, r: FeedRequest, key: string, safeDate: DateParser,
                         store: map<string, Response>, xml: string, resp: Response)
    requires r.hours >= 0 && '>' !in ellipsis && DistinctNames(api)
    requires resp == SuccessResponse(r, xml, safeDate, ellipsis, api)
    requires StoreStamped(store, api)
    ensures StoreStamped(store[key := resp], api)
  {
    HitServesStored(r, xml, safeDate, ellipsis, api);
    StoreStampedPut(store, key, resp, api);
  }
}
