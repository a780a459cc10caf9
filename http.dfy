/**
 * The runtime objects both handlers touch: a Fetch `Headers` list, the `Response` the
 * handlers build with `json(...)` or `new Response(...)`, the edge cache `caches.default`
 * and the upstream `fetch`. Header names are case-insensitive: a `Headers` object
 * lower-cases every name it is given, and `get` matches names case-insensitively.
 */
module Http {
  import opened Wrappers
  import opened Text
  import opened Params
  import opened Feed

  type Header = (string, string)

  // ---- header lists ----

  /** The values of the entries whose name is exactly `key`, in list order. */
  function Values(entries: seq<Header>, key: string): (r: seq<string>)
    ensures |r| <= |entries|
    ensures r == [] <==> forall i :: 0 <= i < |entries| ==> entries[i].0 != key
  {
    if entries == [] then []
    else (if entries[0].0 == key then [entries[0].1] else []) + Values(entries[1..], key)
  }

  /** The entries without those named `key`. */
  function Without(entries: seq<Header>, key: string): (r: seq<Header>)
    ensures |r| <= |entries|
  {
    if entries == [] then []
    else if entries[0].0 == key then Without(entries[1..], key)
    else [entries[0]] + Without(entries[1..], key)
  }

  /** `Headers.set` on a lower-cased name: the first entry with that name takes the new
      value and the others with that name go; with no such entry, one is appended. */
  function SetKey(entries: seq<Header>, key: string, value: string): (r: seq<Header>)
    ensures |r| <= |entries| + 1
  {
    if entries == [] then [(key, value)]
    else if entries[0].0 == key then [(key, value)] + Without(entries[1..], key)
    else [entries[0]] + SetKey(entries[1..], key, value)
  }

  /** Every name is lower-case already, as a `Headers` object keeps them. */
  ghost predicate Lowered(entries: seq<Header>) {
    forall i :: 0 <= i < |entries| ==> ToLower(entries[i].0) == entries[i].0
  }

  /** `new Headers(init)`: the same entries in the same order, each name lower-cased. */
  function Normal(entries: seq<Header>): (r: seq<Header>)
    ensures |r| == |entries|
    ensures forall i :: 0 <= i < |r| ==> r[i].0 == ToLower(entries[i].0) && r[i].1 == entries[i].1
  {
    seq(|entries|, i requires 0 <= i < |entries| => (ToLower(entries[i].0), entries[i].1))
  }

  /** The values of a name that several entries carry, joined by ", ". */
  function Join(vs: seq<string>): (r: string)
    ensures |vs| == 1 ==> r == vs[0]
  {
    if vs == [] then "" else if |vs| == 1 then vs[0] else vs[0] + ", " + Join(vs[1..])
  }

  /** `headers.get(name)`: `null` when no entry's name matches `name` case-insensitively,
      otherwise the values of every matching entry, in order, joined by ", ". */
  function Lookup(entries: seq<Header>, name: string): (r: Option<string>)
    ensures r.None? <==> forall i :: 0 <= i < |entries| ==> ToLower(entries[i].0) != ToLower(name)
  {
    var vs := Values(Normal(entries), ToLower(name));
    if vs == [] then None else Some(Join(vs))
  }

  /** `headers.set(name, value)`. */
  function SetHeader(entries: seq<Header>, name: string, value: string): seq<Header> {
    SetKey(entries, ToLower(name), value)
  }

  /** Lower-casing every name of a list yields a lower-cased list. */
  lemma NormalLowered(entries: seq<Header>)
    ensures Lowered(Normal(entries))
  {
    forall i | 0 <= i < |entries| ensures ToLower(ToLower(entries[i].0)) == ToLower(entries[i].0) {
      ToLowerIdempotent(entries[i].0);
    }
  }

  /** Copying a lower-cased list into a `Headers` object changes nothing. */
  lemma NormalKeeps(entries: seq<Header>)
    requires Lowered(entries)
    ensures Normal(entries) == entries
  {
  }

  /** On a lower-cased list, a name held by a single entry reads as that entry's value,
      however the name is spelt. */
  lemma GetSingle(entries: seq<Header>, key: string, value: string)
    requires Lowered(entries) && Values(entries, key) == [value]
    ensures forall name :: ToLower(name) == key ==> Lookup(entries, name) == Some(value)
  {
    NormalKeeps(entries);
  }

  lemma {:induction false} ValuesWithoutSame(entries: seq<Header>, key: string)
    ensures Values(Without(entries, key), key) == []
  {
    if entries != [] {
      ValuesWithoutSame(entries[1..], key);
    }
  }

  lemma {:induction false} ValuesWithoutOther(entries: seq<Header>, key: string, other: string)
    requires other != key
    ensures Values(Without(entries, key), other) == Values(entries, other)
  {
    if entries != [] {
      ValuesWithoutOther(entries[1..], key, other);
      if entries[0].0 != key {
        assert Without(entries, key) == [entries[0]] + Without(entries[1..], key);
        assert ([entries[0]] + Without(entries[1..], key))[1..] == Without(entries[1..], key);
      }
    }
  }

  /** After `set`, exactly one entry carries the name, with the new value. */
  lemma {:induction false} SetKeyFound(entries: seq<Header>, key: string, value: string)
    ensures Values(SetKey(entries, key, value), key) == [value]
  {
    if entries != [] {
      if entries[0].0 == key {
        ValuesWithoutSame(entries[1..], key);
        assert ([(key, value)] + Without(entries[1..], key))[1..] == Without(entries[1..], key);
      } else {
        SetKeyFound(entries[1..], key, value);
        assert ([entries[0]] + SetKey(entries[1..], key, value))[1..] == SetKey(entries[1..], key, value);
      }
    }
  }

  /** `set` leaves every other name as it was: the same values, in the same order. */
  lemma {:induction false} SetKeyOther(entries: seq<Header>, key: string, value: string, other: string)
    requires other != key
    ensures Values(SetKey(entries, key, value), other) == Values(entries, other)
  {
    if entries != [] {
      if entries[0].0 == key {
        ValuesWithoutOther(entries[1..], key, other);
        assert ([(key, value)] + Without(entries[1..], key))[1..] == Without(entries[1..], key);
      } else {
        SetKeyOther(entries[1..], key, value, other);
        assert ([entries[0]] + SetKey(entries[1..], key, value))[1..] == SetKey(entries[1..], key, value);
      }
    }
  }

  /** A name not yet present is appended at the end. */
  lemma {:induction false} SetKeyAppends(entries: seq<Header>, key: string, value: string)
    requires Values(entries, key) == []
    ensures SetKey(entries, key, value) == entries + [(key, value)]
  {
    if entries != [] {
      SetKeyAppends(entries[1..], key, value);
      assert entries == [entries[0]] + entries[1..];
    }
  }

  lemma {:induction false} WithoutAbsent(entries: seq<Header>, key: string)
    requires Values(entries, key) == []
    ensures Without(entries, key) == entries
  {
    if entries != [] {
      WithoutAbsent(entries[1..], key);
      assert entries == [entries[0]] + entries[1..];
    }
  }

  /** Setting the value a name already has, held by a single entry, changes nothing. */
  lemma {:induction false} SetKeyPresent(entries: seq<Header>, key: string, value: string)
    requires Values(entries, key) == [value]
    ensures SetKey(entries, key, value) == entries
  {
    if entries != [] {
      if entries[0].0 == key {
        var rest := Values(entries[1..], key);
        assert [entries[0].1] + rest == [value];
        assert |rest| == 0 && ([entries[0].1] + rest)[0] == entries[0].1;
        WithoutAbsent(entries[1..], key);
        assert entries == [(key, value)] + entries[1..];
      } else {
        SetKeyPresent(entries[1..], key, value);
        assert entries == [entries[0]] + entries[1..];
      }
    }
  }

  lemma {:induction false} WithoutLowered(entries: seq<Header>, key: string)
    requires Lowered(entries)
    ensures Lowered(Without(entries, key))
  {
    if entries != [] {
      WithoutLowered(entries[1..], key);
    }
  }

  /** `set` with a lower-case name keeps a lower-cased list lower-cased. */
  lemma {:induction false} SetKeyLowered(entries: seq<Header>, key: string, value: string)
    requires Lowered(entries) && ToLower(key) == key
    ensures Lowered(SetKey(entries, key, value))
  {
    if entries != [] {
      if entries[0].0 == key {
        WithoutLowered(entries[1..], key);
      } else {
        SetKeyLowered(entries[1..], key, value);
      }
    }
  }

  /** Two names of different lengths, or whose first letters differ once lower-cased, stay
      different once lower-cased. */
  lemma NamesDiffer(a: string, b: string)
    requires |a| != |b| || (a != [] && b != [] && Lower(a[0]) != Lower(b[0]))
    ensures ToLower(a) != ToLower(b)
  {
    if |a| == |b| {
      assert ToLower(a)[0] != ToLower(b)[0];
    }
  }

  /** A run of `set` calls, in order. */
  function ApplyAll(entries: seq<Header>, sets: seq<Header>): seq<Header>
    decreases |sets|
  {
    if sets == [] then entries
    else ApplyAll(SetHeader(entries, sets[0].0, sets[0].1), sets[1..])
  }

  /** No two of the names coincide once lower-cased. */
  ghost predicate DistinctNames(sets: seq<Header>) {
    forall i, j :: 0 <= i < j < |sets| ==> ToLower(sets[i].0) != ToLower(sets[j].0)
  }

  /** None of the names lower-cases to `key`. */
  ghost predicate Avoids(sets: seq<Header>, key: string) {
    forall j :: 0 <= j < |sets| ==> ToLower(sets[j].0) != key
  }

  /** Every name of `sets` is carried by exactly one entry, with its value from `sets`. */
  ghost predicate Stamped(entries: seq<Header>, sets: seq<Header>) {
    forall j :: 0 <= j < |sets| ==> Values(entries, ToLower(sets[j].0)) == [sets[j].1]
  }

  /** `set` calls keep a lower-cased list lower-cased. */
  lemma {:induction false} ApplyAllLowered(entries: seq<Header>, sets: seq<Header>)
    requires Lowered(entries)
    ensures Lowered(ApplyAll(entries, sets))
    decreases |sets|
  {
    if sets != [] {
      ToLowerIdempotent(sets[0].0);
      SetKeyLowered(entries, ToLower(sets[0].0), sets[0].1);
      ApplyAllLowered(SetHeader(entries, sets[0].0, sets[0].1), sets[1..]);
    }
  }

  /** A name none of the `set` calls touches keeps its values. */
  lemma {:induction false} ApplyAllOther(entries: seq<Header>, sets: seq<Header>, key: string)
    requires Avoids(sets, key)
    ensures Values(ApplyAll(entries, sets), key) == Values(entries, key)
    decreases |sets|
  {
    if sets != [] {
      SetKeyOther(entries, ToLower(sets[0].0), sets[0].1, key);
      assert Avoids(sets[1..], key) by {
        forall j | 0 <= j < |sets[1..]| ensures ToLower(sets[1..][j].0) != key {
          assert sets[1..][j] == sets[j + 1];
        }
      }
      ApplyAllOther(SetHeader(entries, sets[0].0, sets[0].1), sets[1..], key);
    }
  }

  /** After a run of `set` calls with distinct names, each name holds its value once. */
  lemma {:induction false} ApplyAllStamps(entries: seq<Header>, sets: seq<Header>)
    requires DistinctNames(sets)
    ensures Stamped(ApplyAll(entries, sets), sets)
    decreases |sets|
  {
    if sets != [] {
      var first := SetHeader(entries, sets[0].0, sets[0].1);
      var rest := sets[1..];
      assert DistinctNames(rest) by {
        forall i, j | 0 <= i < j < |rest| ensures ToLower(rest[i].0) != ToLower(rest[j].0) {
          assert rest[i] == sets[i + 1] && rest[j] == sets[j + 1];
        }
      }
      ApplyAllStamps(first, rest);
      var key := ToLower(sets[0].0);
      assert Avoids(rest, key) by {
        forall j | 0 <= j < |rest| ensures ToLower(rest[j].0) != key {
          assert rest[j] == sets[j + 1];
        }
      }
      SetKeyFound(entries, key, sets[0].1);
      ApplyAllOther(first, rest, key);
      var r := ApplyAll(entries, sets);
      forall j | 0 <= j < |sets| ensures Values(r, ToLower(sets[j].0)) == [sets[j].1] {
        if j > 0 {
          assert sets[j] == rest[j - 1];
        }
      }
    }
  }

  /** Applying the `set` calls to a list they have already stamped changes nothing. */
  lemma {:induction false} ApplyAllFixed(entries: seq<Header>, sets: seq<Header>)
    requires Stamped(entries, sets)
    ensures ApplyAll(entries, sets) == entries
    decreases |sets|
  {
    if sets != [] {
      SetKeyPresent(entries, ToLower(sets[0].0), sets[0].1);
      assert Stamped(entries, sets[1..]) by {
        forall j | 0 <= j < |sets[1..]|
          ensures Values(entries, ToLower(sets[1..][j].0)) == [sets[1..][j].1]
        {
          assert sets[1..][j] == sets[j + 1];
        }
      }
      ApplyAllFixed(entries, sets[1..]);
    }
  }

  /** Running the same `set` calls twice is running them once. */
  lemma ApplyAllIdempotent(entries: seq<Header>, sets: seq<Header>)
    requires DistinctNames(sets)
    ensures ApplyAll(ApplyAll(entries, sets), sets) == ApplyAll(entries, sets)
  {
    ApplyAllStamps(entries, sets);
    ApplyAllFixed(ApplyAll(entries, sets), sets);
  }

  /** A Fetch `Headers` object: the list of entries, changed in place by `set`. Its names
      are always lower-case. */
  class Headers {
    var entries: seq<Header>

    ghost predicate Valid()
      reads this
    {
      Lowered(entries)
    }

    /** `new Headers(init)`: a copy of the given entries with their names lower-cased. */
    constructor (init: seq<Header>)
      ensures entries == Normal(init) && Valid()
    {
      entries := Normal(init);
      NormalLowered(init);
    }

    /** `get(name)`. */
    function Get(name: string): Option<string>
      reads this
    {
      Lookup(entries, name)
    }

    /** `set(name, value)`: afterwards the name reads as `value`, and every other name
        reads as before. */
    method Set(name: string, value: string)
      requires Valid()
      modifies this
      ensures Valid()
      ensures entries == SetHeader(old(entries), name, value)
      ensures Get(name) == Some(value)
      ensures forall other :: ToLower(other) != ToLower(name) ==> Get(other) == old(Get(other))
    {
      var key := ToLower(name);
      ToLowerIdempotent(name);
      SetKeyLowered(entries, key, value);
      SetKeyFound(entries, key, value);
      NormalKeeps(entries);
      entries := SetKey(entries, key, value);
      GetSingle(entries, key, value);
      NormalKeeps(entries);
      forall other | ToLower(other) != key ensures Get(other) == old(Get(other)) {
        SetKeyOther(old(entries), key, value, ToLower(other));
      }
    }
  }

  // ---- responses ----

  const ErrorUpstream := "upstream_failed"
  const SourceName := "google-news-rss"

  /** The response bodies the handlers produce: a plain text, or one of the two JSON
      objects (`JSON.stringify` is not modelled; the object is kept as a value). */
  datatype Body =
    | PlainText(text: string)
    | UpstreamFailed(ok: bool, error: string, status: int)
    | FeedEnvelope(ok: bool, source: string, query: string, windowHours: int, items: seq<NewsItem>)

  datatype Response = Response(status: int, statusText: string, headers: seq<Header>, body: Body)

  const ContentType := "Content-Type"
  const JsonContentType := "application/json; charset=utf-8"
  const TextContentType := "text/plain;charset=UTF-8"

  /** `json(obj, status, extraHeaders)`: a response whose headers are built from
      `{ "Content-Type": ..., ...extraHeaders }`, names lower-cased. */
  function Json(body: Body, status: int, extra: seq<Header>): (r: Response)
    ensures r.status == status && r.statusText == "" && r.body == body
    ensures r.headers == ApplyAll([], [(ContentType, JsonContentType)] + extra)
    ensures Lowered(r.headers)
  {
    ApplyAllLowered([], [(ContentType, JsonContentType)] + extra);
    Response(status, "", ApplyAll([], [(ContentType, JsonContentType)] + extra), body)
  }

  /** `new Response(text, { status })`: a plain-text response; the runtime gives it the
      content type `text/plain;charset=UTF-8`. */
  function TextResponse(text: string, status: int): (r: Response)
    ensures r.status == status && r.body == PlainText(text)
    ensures Lookup(r.headers, ContentType) == Some(TextContentType)
  {
    var sets := [(ContentType, TextContentType)];
    ApplyAllLowered([], sets);
    ApplyAllStamps([], sets);
    GetSingle(ApplyAll([], sets), ToLower(ContentType), TextContentType);
    Response(status, "", ApplyAll([], sets), PlainText(text))
  }

  /** `withApiHeaders(response)` as a value: same status, status text and body, with the
      given headers set on a `Headers` copy of the header list. */
  function Stamp(resp: Response, sets: seq<Header>): (r: Response)
    ensures r.status == resp.status && r.statusText == resp.statusText && r.body == resp.body
    ensures Lowered(r.headers)
  {
    NormalLowered(resp.headers);
    ApplyAllLowered(Normal(resp.headers), sets);
    Response(resp.status, resp.statusText, ApplyAll(Normal(resp.headers), sets), resp.body)
  }

  /** What stamping does to the header list: each stamped name is carried by one entry and
      reads as its value, and a name none of them matches reads as before. */
  lemma StampHeaders(resp: Response, sets: seq<Header>, name: string)
    requires DistinctNames(sets)
    requires Avoids(sets, ToLower(name))
    ensures Stamped(Stamp(resp, sets).headers, sets)
    ensures forall j :: 0 <= j < |sets| ==> Lookup(Stamp(resp, sets).headers, sets[j].0) == Some(sets[j].1)
    ensures Lookup(Stamp(resp, sets).headers, name) == Lookup(resp.headers, name)
  {
    var h := Stamp(resp, sets).headers;
    ApplyAllStamps(Normal(resp.headers), sets);
    ApplyAllOther(Normal(resp.headers), sets, ToLower(name));
    NormalKeeps(h);
    forall j | 0 <= j < |sets| ensures Lookup(h, sets[j].0) == Some(sets[j].1) {
      GetSingle(h, ToLower(sets[j].0), sets[j].1);
    }
  }

  /** Stamping a stamped response again gives it back unchanged. */
  lemma StampIdempotent(resp: Response, sets: seq<Header>)
    requires DistinctNames(sets)
    ensures Stamp(Stamp(resp, sets), sets) == Stamp(resp, sets)
  {
    var h := Stamp(resp, sets).headers;
    NormalKeeps(h);
    ApplyAllIdempotent(Normal(resp.headers), sets);
  }

  /** An incoming request: the full URL as text (the cache key), its path, its method (`verb`) and
      its query parameters, already split and decoded. */
  datatype Request = Request(url: string, path: string, verb: string, params: seq<Pair>)

  /** How a handler ends: with a response, or with an exception it does not catch, which
      the platform answers with its own error page. */
  datatype Outcome = Answer(response: Response) | Thrown

  // ---- cache and upstream ----

  /** `caches.default`: stored responses keyed by request URL. */
  class EdgeCache {
    var store: map<string, Response>

    constructor (initial: map<string, Response>)
      ensures store == initial
    {
      store := initial;
    }

    /** `cache.match(key)`. */
    method Match(key: string) returns (r: Option<Response>)
      ensures r.Some? <==> key in store
      ensures r.Some? ==> r.value == store[key]
    {
      if key in store {
        r := Some(store[key]);
      } else {
        r := None;
      }
    }

    /** `cache.put(key, response)`; the handlers do not wait for it, and it is modelled as
        completing at once. */
    method Put(key: string, resp: Response)
      modifies this
      ensures store == old(store)[key := resp]
    {
      store := store[key := resp];
    }
  }

  /** What `fetch` gives back: `Rejected` when the promise rejects (no response at all),
      otherwise a status and the body text, where `None` stands for `text()` rejecting. */
  datatype UpstreamReply =
    | Rejected
    | Reply(status: int, text: Option<string>)

  /** `response.ok`: a status in 200..299. */
  predicate IsOk(status: int) {
    200 <= status <= 299
  }

  /** The upstream as seen from the handler: a fixed answer per request (two fetches of the
      same request get the same reply), and a log of the requests made, so that "no fetch
      happened" can be stated. */
  class Upstream {
    const respond: UpstreamRequest -> UpstreamReply
    var requests: seq<UpstreamRequest>

    constructor (respond: UpstreamRequest -> UpstreamReply)
      ensures this.respond == respond && requests == []
    {
      this.respond := respond;
      requests := [];
    }

    /** `fetch(url, { headers })`, with the `text()` read that follows it: either can
        reject, and the reply says which. */
    method Fetch(req: UpstreamRequest) returns (reply: UpstreamReply)
      modifies this
      ensures requests == old(requests) + [req]
      ensures reply == respond(req)
    {
      requests := requests + [req];
      reply := respond(req);
    }
  }
}
