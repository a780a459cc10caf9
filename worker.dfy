/**
 * The standalone Worker (worker/worker.js): its route, its method check, the three API
 * headers it stamps, its ellipsis, and its `fetch` handler, run against an edge cache and an
 * upstream. The feed pipeline behind the route is the one `Pages` runs.
 */
module Worker {
  import opened Wrappers
  import opened Text
  import opened Params
  import opened Feed
  import opened Http
  import opened Handler

  /** The one path the Worker answers. */
  const Route := "/api/tarkov-news"

  /** The ellipsis `truncate` appends: the UTF-8 bytes of U+2026 read as Windows-1252,
      three characters. */
  const Ellipsis := "\U{00E2}\U{20AC}\U{00A6}"

  /** The headers `withApiHeaders` sets, in order: no frame options, no content security
      policy. */
  const ApiHeaders: seq<Header> := [
    ("X-Content-Type-Options", "nosniff"),
    ("Referrer-Policy", "strict-origin-when-cross-origin"),
    ("Permissions-Policy", "geolocation=(), camera=(), microphone=(), payment=()")
  ]

  /** The three names are distinct once lower-cased, and none of them is the content type
      or the cache control: lengths 22, 15 and 18 against 12 and 13. */
  lemma ApiSeparate()
    ensures Separate(ApiHeaders)
  {
    forall i, j | 0 <= i < j < |ApiHeaders| ensures ToLower(ApiHeaders[i].0) != ToLower(ApiHeaders[j].0) {
      NamesDiffer(ApiHeaders[i].0, ApiHeaders[j].0);
    }
    assert |ToLower(CacheControl.0)| == 13 && |ToLower(ContentType)| == 12;
  }

  /** `withApiHeaders(response)`: a copy of the headers with the three API headers set on it,
      in order; status, status text and body are kept. */
  method WithApiHeaders(response: Response) returns (r: Response)
    ensures r == Stamp(response, ApiHeaders)
  {
    var h := new Headers(response.headers);
    h.Set("X-Content-Type-Options", "nosniff");
    h.Set("Referrer-Policy", "strict-origin-when-cross-origin");
    h.Set("Permissions-Policy", "geolocation=(), camera=(), microphone=(), payment=()");
    r := Response(response.status, response.statusText, h.entries, response.body);
    ApplyThree(Normal(response.headers), ApiHeaders);
  }

  /** Three `set` calls in a row are the run of them. */
  lemma ApplyThree(entries: seq<Header>, sets: seq<Header>)
    requires |sets| == 3
    ensures ApplyAll(entries, sets)
         == SetHeader(SetHeader(SetHeader(entries, sets[0].0, sets[0].1), sets[1].0, sets[1].1), sets[2].0, sets[2].1)
  {
    var e1 := SetHeader(entries, sets[0].0, sets[0].1);
    var e2 := SetHeader(e1, sets[1].0, sets[1].1);
    assert sets[1..][0] == sets[1] && sets[1..][1..] == sets[2..];
    assert sets[2..][0] == sets[2] && sets[2..][1..] == [];
    assert ApplyAll(entries, sets) == ApplyAll(e1, sets[1..]);
    assert ApplyAll(e1, sets[1..]) == ApplyAll(e2, sets[2..]);
  }

  /** What `withApiHeaders` does to the header list: each of the three names is carried by
      one entry and reads as its value, and every other name reads as before. */
  lemma ApiStamped(response: Response, name: string)
    requires Avoids(ApiHeaders, ToLower(name))
    ensures Stamped(Stamp(response, ApiHeaders).headers, ApiHeaders)
    ensures forall j :: 0 <= j < |ApiHeaders| ==>
      Lookup(Stamp(response, ApiHeaders).headers, ApiHeaders[j].0) == Some(ApiHeaders[j].1)
    ensures Lookup(Stamp(response, ApiHeaders).headers, name) == Lookup(response.headers, name)
  {
    ApiSeparate();
    StampHeaders(response, ApiHeaders, name);
  }

  /** The Worker adds no frame options and no content security policy: whatever the response
      carried under those names (usually nothing) is what it still carries. */
  lemma NoFrameOrCsp(response: Response)
    ensures Lookup(Stamp(response, ApiHeaders).headers, "X-Frame-Options")
         == Lookup(response.headers, "X-Frame-Options")
    ensures Lookup(Stamp(response, ApiHeaders).headers, "Content-Security-Policy")
         == Lookup(response.headers, "Content-Security-Policy")
  {
    forall j | 0 <= j < |ApiHeaders| ensures ToLower(ApiHeaders[j].0) != ToLower("X-Frame-Options") {
      NamesDiffer(ApiHeaders[j].0, "X-Frame-Options");
    }
    forall j | 0 <= j < |ApiHeaders|
      ensures ToLower(ApiHeaders[j].0) != ToLower("Content-Security-Policy")
    {
      NamesDiffer(ApiHeaders[j].0, "Content-Security-Policy");
    }
    ApiStamped(response, "X-Frame-Options");
    ApiStamped(response, "Content-Security-Policy");
  }

  /** GET and HEAD are the methods the Worker serves. */
  predicate Allowed(verb: string) {
    verb == "GET" || verb == "HEAD"
  }

  /** The `fetch` handler: a path other than the route gives 404 and a method other than GET
      or HEAD gives 405, both before the cache or the upstream is touched; otherwise the
      request runs the feed flow: normalise, serve a cache hit stamped without fetching, or
      fetch once and answer 502 (not stored) or 200 (stored under the request URL); a
      rejected fetch or body read ends it with an exception and stores nothing. When every
      stored response is stamped, as this handler keeps it, a hit is served exactly as
      stored. */
  method Fetch(request: Request, cache: EdgeCache, upstream: Upstream, safeDate: DateParser)
      returns (out: Outcome)
    modifies cache, upstream
    ensures request.path != Route ==>
      && out == Answer(TextResponse("Not found", 404))
      && cache.store == old(cache.store) && upstream.requests == old(upstream.requests)
    ensures request.path == Route && !Allowed(request.verb) ==>
      && out == Answer(TextResponse("Method Not Allowed", 405))
      && cache.store == old(cache.store) && upstream.requests == old(upstream.requests)
    ensures request.path == Route && Allowed(request.verb) ==>
      var r := Normalize(request.params);
      if request.url in old(cache.store) then
        && out == Answer(Stamp(old(cache.store)[request.url], ApiHeaders))
        && cache.store == old(cache.store)
        && upstream.requests == old(upstream.requests)
      else
        Missed(ApiHeaders, Ellipsis, r, request.url, safeDate, old(cache.store), cache.store,
               old(upstream.requests), upstream.requests, upstream.respond, out)
    ensures old(StoreStamped(cache.store, ApiHeaders)) ==> StoreStamped(cache.store, ApiHeaders)
    ensures old(StoreStamped(cache.store, ApiHeaders)) && request.url in old(cache.store)
              && request.path == Route && Allowed(request.verb) ==>
      out == Answer(old(cache.store)[request.url])
  {
    if request.path != Route {
      out := Answer(TextResponse("Not found", 404));
      return;
    }
    if request.verb != "GET" && request.verb != "HEAD" {
      out := Answer(TextResponse("Method Not Allowed", 405));
      return;
    }
    var r := Normalize(request.params);
    var cached := cache.Match(request.url);
    if cached.Some? {
      var resp := WithApiHeaders(cached.value);
      if StoreStamped(cache.store, ApiHeaders) {
        HitExact(cache.store, request.url, resp, ApiHeaders);
      }
      out := Answer(resp);
      return;
    }
    out := FetchAndStore(r, request.url, cache, upstream, safeDate);
  }

  /** The miss path of the handler: one fetch; a rejected fetch or body read throws and a
      failing status gives the 502 answer, both storing nothing; otherwise the 200 answer,
      stored under `key`. */
  method FetchAndStore(r: FeedRequest, key: string, cache: EdgeCache, upstream: Upstream, safeDate: DateParser)
      returns (out: Outcome)
    requires r.hours >= 0
    modifies cache, upstream
    ensures Missed(ApiHeaders, Ellipsis, r, key, safeDate, old(cache.store), cache.store,
                   old(upstream.requests), upstream.requests, upstream.respond, out)
    ensures old(StoreStamped(cache.store, ApiHeaders)) ==> StoreStamped(cache.store, ApiHeaders)
  {
    ghost var store0, log0 := cache.store, upstream.requests;
    var reply := upstream.Fetch(UpstreamFor(r));
    if reply.Rejected? {
      out := Thrown;
      return;
    }
    if !IsOk(reply.status) {
      var resp := WithApiHeaders(Json(UpstreamFailed(false, ErrorUpstream, reply.status), 502, []));
      out := Answer(resp);
      return;
    }
    if reply.text.None? {
      out := Thrown;
      return;
    }
    var xml := reply.text.value;
    var items := ParseRss(xml, safeDate, Ellipsis);
    var body := FeedEnvelope(true, SourceName, r.query, r.hours, Slice(items, r.limit));
    var resp := WithApiHeaders(Json(body, 200, [CacheControl]));
    assert resp == SuccessResponse(r, xml, safeDate, Ellipsis, ApiHeaders);
    MissAnswer(ApiHeaders, Ellipsis, r, key, safeDate, store0, log0, upstream.respond, reply.status, xml, resp);
    if StoreStamped(store0, ApiHeaders) {
      ApiSeparate();
      MissKeepsStamped(ApiHeaders, Ellipsis, r, key, safeDate, store0, xml, resp);
    }
    cache.Put(key, resp);
    out := Answer(resp);
  }

  /** An excerpt of the Worker can reach 182 characters: 179 kept characters and the
      three-character ellipsis. */
  lemma ExcerptOverrun(html: string)
    ensures |Excerpt(html, Ellipsis)| <= ExcerptMax + 2
  {
  }

  /** The bound is reached: a text longer than 180 characters whose 179th character is not
      whitespace keeps all of its first 179 characters, and the result has 182. */
  lemma TruncateReaches(s: string)
    requires |s| > ExcerptMax && !IsSpace(s[ExcerptMax - 2])
    ensures Truncate(s, ExcerptMax, Ellipsis) == s[..ExcerptMax - 1] + Ellipsis
    ensures |Truncate(s, ExcerptMax, Ellipsis)| == ExcerptMax + 2
  {
    var r := Truncate(s, ExcerptMax, Ellipsis);
    var k := |r| - |Ellipsis|;
    assert k == ExcerptMax - 1;
    assert r == r[..k] + r[k..];
  }
}
