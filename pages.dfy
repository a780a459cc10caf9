/**
 * The Pages Function `GET /api/tarkov-news` (functions/api/tarkov-news.js): the five API
 * headers it stamps on every answer, its ellipsis, and `onRequestGet` itself, run against an
 * edge cache and an upstream.
 */
module Pages {
  import opened Wrappers
  import opened Text
  import opened Params
  import opened Feed
  import opened Http
  import opened Handler

  /** The ellipsis `truncate` appends: U+2026, one character. */
  const Ellipsis := "\U{2026}"

  /** The headers `withApiHeaders` sets, in order. */
  const ApiHeaders: seq<Header> := [
    ("X-Content-Type-Options", "nosniff"),
    ("Referrer-Policy", "strict-origin-when-cross-origin"),
    ("Permissions-Policy", "geolocation=(), camera=(), microphone=(), payment=()"),
    ("X-Frame-Options", "DENY"),
    ("Content-Security-Policy", "default-src 'none'; frame-ancestors 'none';")
  ]

  /** The five names are distinct once lower-cased, and none of them is the content type
      or the cache control the JSON answers carry: lengths 22, 15, 18, 15 and 23 against 12
      and 13, and the two of length 15 differ in their first letter. */
  lemma ApiSeparate()
    ensures Separate(ApiHeaders)
  {
    forall i, j | 0 <= i < j < |ApiHeaders| ensures ToLower(ApiHeaders[i].0) != ToLower(ApiHeaders[j].0) {
      NamesDiffer(ApiHeaders[i].0, ApiHeaders[j].0);
    }
    assert |ToLower(CacheControl.0)| == 13 && |ToLower(ContentType)| == 12;
  }

  /** `withApiHeaders(response)`: a copy of the headers with the five API headers set on it,
      in order; status, status text and body are kept. */
  method WithApiHeaders(response: Response) returns (r: Response)
    ensures r == Stamp(response, ApiHeaders)
  {
    var h := new Headers(response.headers);
    h.Set("X-Content-Type-Options", "nosniff");
    h.Set("Referrer-Policy", "strict-origin-when-cross-origin");
    h.Set("Permissions-Policy", "geolocation=(), camera=(), microphone=(), payment=()");
    h.Set("X-Frame-Options", "DENY");
    h.Set("Content-Security-Policy", "default-src 'none'; frame-ancestors 'none';");
    r := Response(response.status, response.statusText, h.entries, response.body);
    ApplyFive(Normal(response.headers), ApiHeaders);
  }

  /** Five `set` calls in a row are the run of them. */
  lemma ApplyFive(entries: seq<Header>, sets: seq<Header>)
    requires |sets| == 5
    ensures ApplyAll(entries, sets) == SetHeader(SetHeader(SetHeader(SetHeader(SetHeader(entries,
      sets[0].0, sets[0].1), sets[1].0, sets[1].1), sets[2].0, sets[2].1), sets[3].0, sets[3].1), sets[4].0, sets[4].1)
  {
    var e1 := SetHeader(entries, sets[0].0, sets[0].1);
    var e2 := SetHeader(e1, sets[1].0, sets[1].1);
    var e3 := SetHeader(e2, sets[2].0, sets[2].1);
    var e4 := SetHeader(e3, sets[3].0, sets[3].1);
    assert sets[1..][0] == sets[1] && sets[1..][1..] == sets[2..];
    assert sets[2..][0] == sets[2] && sets[2..][1..] == sets[3..];
    assert sets[3..][0] == sets[3] && sets[3..][1..] == sets[4..];
    assert sets[4..][0] == sets[4] && sets[4..][1..] == [];
    assert ApplyAll(entries, sets) == ApplyAll(e1, sets[1..]);
    assert ApplyAll(e1, sets[1..]) == ApplyAll(e2, sets[2..]);
    assert ApplyAll(e2, sets[2..]) == ApplyAll(e3, sets[3..]);
    assert ApplyAll(e3, sets[3..]) == ApplyAll(e4, sets[4..]);
  }

  /** What `withApiHeaders` does to the header list: each of the five names is carried by
      one entry and reads as its value (so `X-Frame-Options` reads `DENY`), and every other
      name reads as before. */
  lemma ApiStamped(response: Response, name: string)
    requires Avoids(ApiHeaders, ToLower(name))
    ensures Stamped(Stamp(response, ApiHeaders).headers, ApiHeaders)
    ensures forall j :: 0 <= j < |ApiHeaders| ==>
      Lookup(Stamp(response, ApiHeaders).headers, ApiHeaders[j].0) == Some(ApiHeaders[j].1)
    ensures Lookup(Stamp(response, ApiHeaders).headers, name) == Lookup(response.headers, name)
  {
    ApiSeparate();
    StampHeaders(response, ApiHeaders, name);
  }

  /** `onRequestGet`: normalise the parameters, look the full request URL up in the cache
      and serve a hit stamped, without fetching; on a miss fetch the feed once, answer 502
      on a failing status without storing, or answer 200 with the parsed items cut to
      `limit` and store that answer under the request URL; a rejected fetch or body read
      ends it with an exception and stores nothing. When every stored response is stamped,
      as this handler keeps it, a hit is served exactly as stored. */
  method OnRequestGet(request: Request, cache: EdgeCache, upstream: Upstream, safeDate: DateParser)
      returns (out: Outcome)
    modifies cache, upstream
    ensures var r := Normalize(request.params);
      if request.url in old(cache.store) then
        && out == Answer(Stamp(old(cache.store)[request.url], ApiHeaders))
        && cache.store == old(cache.store)
        && upstream.requests == old(upstream.requests)
      else
        Missed(ApiHeaders, Ellipsis, r, request.url, safeDate, old(cache.store), cache.store,
               old(upstream.requests), upstream.requests, upstream.respond, out)
    ensures old(StoreStamped(cache.store, ApiHeaders)) ==> StoreStamped(cache.store, ApiHeaders)
    ensures old(StoreStamped(cache.store, ApiHeaders)) && request.url in old(cache.store) ==>
      out == Answer(old(cache.store)[request.url])
  {
    var r := Normalize(request.params);
    var cached := cache.Match(request.url);
    if cached.Some? {
      var resp := WithApiHeaders(cached.value);
      if StoreStamped(cache.store, ApiHeaders) {
        HitExact(cache.store, request.url, resp, ApiHeaders);
      }
      out := Answer(resp);
      return;
    }
    out := FetchAndStore(r, request.url, cache, upstream, safeDate);
  }

  /** The miss path of `onRequestGet`: one fetch; a rejected fetch or body read throws and
      a failing status gives the 502 answer, both storing nothing; otherwise the 200 answer,
      stored under `key`. */
  method FetchAndStore(r: FeedRequest, key: string, cache: EdgeCache, upstream: Upstream, safeDate: DateParser)
      returns (out: Outcome)
    requires r.hours >= 0
    modifies cache, upstream
    ensures Missed(ApiHeaders, Ellipsis, r, key, safeDate, old(cache.store), cache.store,
                   old(upstream.requests), upstream.requests, upstream.respond, out)
    ensures old(StoreStamped(cache.store, ApiHeaders)) ==> StoreStamped(cache.store, ApiHeaders)
  {
    ghost var store0, log0 := cache.store, upstream.requests;
    var reply := upstream.Fetch(UpstreamFor(r));
    if reply.Rejected? {
      out := Thrown;
      return;
    }
    if !IsOk(reply.status) {
      var resp := WithApiHeaders(Json(UpstreamFailed(false, ErrorUpstream, reply.status), 502, []));
      out := Answer(resp);
      return;
    }
    if reply.text.None? {
      out := Thrown;
      return;
    }
    var xml := reply.text.value;
    var items := ParseRss(xml, safeDate, Ellipsis);
    var body := FeedEnvelope(true, SourceName, r.query, r.hours, Slice(items, r.limit));
    var resp := WithApiHeaders(Json(body, 200, [CacheControl]));
    assert resp == SuccessResponse(r, xml, safeDate, Ellipsis, ApiHeaders);
    MissAnswer(ApiHeaders, Ellipsis, r, key, safeDate, store0, log0, upstream.respond, reply.status, xml, resp);
    if StoreStamped(store0, ApiHeaders) {
      ApiSeparate();
      MissKeepsStamped(ApiHeaders, Ellipsis, r, key, safeDate, store0, xml, resp);
    }
    cache.Put(key, resp);
    out := Answer(resp);
  }

  /** An excerpt of the Pages Function never exceeds 180 characters, and a cut one ends in
      the ellipsis. */
  lemma ExcerptWithin(html: string)
    ensures |Excerpt(html, Ellipsis)| <= ExcerptMax
    ensures |CleanText(html)| > ExcerptMax ==> Excerpt(html, Ellipsis)[|Excerpt(html, Ellipsis)| - 1] == '\U{2026}'
  {
  }
}
