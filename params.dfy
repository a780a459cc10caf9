/**
 * Request normalisation and the upstream query, identical in both handlers
 * (functions/api/tarkov-news.js lines 8-24, worker/worker.js lines 16-34).
 * Query parameters arrive already split and percent-decoded, as name/value pairs in
 * the order they appear in the URL.
 */
module Params {
  import opened Wrappers
  import opened Text
  import opened Numbers

  type Pair = (string, string)

  /** `URLSearchParams.get(name)`: the value of the first pair with that name, if any. */
  function Get(params: seq<Pair>, name: string): (r: Option<string>)
    ensures r.None? <==> forall i :: 0 <= i < |params| ==> params[i].0 != name
    ensures r.Some? ==> exists i :: 0 <= i < |params| && params[i] == (name, r.value)
                                    && forall j :: 0 <= j < i ==> params[j].0 != name
  {
    if params == [] then None
    else if params[0].0 == name then Some(params[0].1)
    else
      var r := Get(params[1..], name);
      assert r.Some? ==> exists i :: 1 <= i < |params| && params[i] == (name, r.value)
                                     && forall j :: 0 <= j < i ==> params[j].0 != name by {
        if r.Some? {
          var i :| 0 <= i < |params| - 1 && params[1..][i] == (name, r.value)
                   && forall j :: 0 <= j < i ==> params[1..][j].0 != name;
          assert params[i + 1] == (name, r.value);
          forall j | 0 <= j < i + 1 ensures params[j].0 != name {
            if j > 0 { assert params[j] == params[1..][j - 1]; }
          }
        }
      }
      r
  }

  /** `get(name) || fallback`: a missing or empty parameter takes the fallback. */
  function ValueOr(v: Option<string>, fallback: string): (r: string)
    ensures (v.None? || v == Some("")) ==> r == fallback
    ensures v.Some? && v.value != "" ==> r == v.value
  {
    match v
    case Some(s) => if s == "" then fallback else s
    case None => fallback
  }

  const DefaultLang := "de"
  const DefaultHours := "72"
  const DefaultLimit := "12"
  const DefaultQuery := "\"Escape from Tarkov\" OR Tarkov OR Battlestate"
  const MinHours := 1
  const MaxHours := 168
  const MinLimit := 1
  const MaxLimit := 30

  /** The canonical request: lower-cased `lang`, clamped `hours` and `limit`, and `q`. */
  datatype FeedRequest = FeedRequest(lang: string, hours: int, limit: int, query: string)

  /** Parameter normalisation: never fails, every bad input becomes a default. */
  function Normalize(params: seq<Pair>): (r: FeedRequest)
    ensures MinHours <= r.hours <= MaxHours && MinLimit <= r.limit <= MaxLimit
    ensures r.query != []
    ensures (Get(params, "q").None? || Get(params, "q") == Some("")) ==> r.query == DefaultQuery
    ensures Get(params, "q").Some? && Get(params, "q").value != "" ==> r.query == Get(params, "q").value
    ensures var v := ValueOr(Get(params, "lang"), DefaultLang);
      |r.lang| == |v| && forall i :: 0 <= i < |v| ==> r.lang[i] == Lower(v[i])
  {
    FeedRequest(
      ToLower(ValueOr(Get(params, "lang"), DefaultLang)),
      ClampInt(ValueOr(Get(params, "hours"), DefaultHours), MinHours, MaxHours),
      ClampInt(ValueOr(Get(params, "limit"), DefaultLimit), MinLimit, MaxLimit),
      ValueOr(Get(params, "q"), DefaultQuery))
  }

  /** The default texts parse to the default numbers, which are already in range. */
  lemma DefaultsParse()
    ensures ParseInt(DefaultHours) == Finite(72) && ParseInt(DefaultLimit) == Finite(12)
  {
    ParseTwoDigits('7', '2');
    ParseTwoDigits('1', '2');
  }

  lemma ParseTwoDigits(a: char, b: char)
    requires IsDigit(a) && IsDigit(b)
    ensures ParseInt([a, b]) == Finite(10 * DigitValue(a) + DigitValue(b))
  {
    TwoDigitsValue(a, b);
    assert DigitsValue([a, b]) < 100 < OverflowBound;
    ParseIntAllDigits([a, b]);
  }

  lemma TwoDigitsValue(a: char, b: char)
    requires IsDigit(a) && IsDigit(b)
    ensures AllDigits([a, b]) && DigitsValue([a, b]) == 10 * DigitValue(a) + DigitValue(b)
  {
    var d := [a, b];
    assert d[..1] == [a] && [a][..0] == [];
    assert DigitsValue([a]) == DigitValue(a);
  }

  /** An absent or empty `hours` / `limit` gives 72 / 12. */
  lemma NormalizeDefaults(params: seq<Pair>)
    ensures (Get(params, "hours").None? || Get(params, "hours") == Some("")) ==> Normalize(params).hours == 72
    ensures (Get(params, "limit").None? || Get(params, "limit") == Some("")) ==> Normalize(params).limit == 12
  {
    DefaultsParse();
  }

  /** An absent or empty `lang` gives "de". */
  lemma NormalizeLangDefault(params: seq<Pair>)
    requires Get(params, "lang").None? || Get(params, "lang") == Some("")
    ensures Normalize(params).lang == DefaultLang
  {
    assert ValueOr(Get(params, "lang"), DefaultLang) == DefaultLang;
    ToLowerNoCapitals(DefaultLang);
  }

  /** A present `hours` value: an in-range integer prefix is kept, a larger one becomes 168,
      a smaller one 1, and text `parseInt` cannot read as a finite number becomes 1. */
  lemma NormalizeHours(params: seq<Pair>, v: string)
    requires Get(params, "hours") == Some(v) && v != ""
    ensures ParseInt(v).Finite? && 1 <= ParseInt(v).value <= 168 ==> Normalize(params).hours == ParseInt(v).value
    ensures ParseInt(v).Finite? && ParseInt(v).value > 168 ==> Normalize(params).hours == 168
    ensures ParseInt(v).Finite? && ParseInt(v).value < 1 ==> Normalize(params).hours == 1
    ensures !ParseInt(v).Finite? ==> Normalize(params).hours == 1
  {
  }

  /** A present `limit` value, by the same rule with bounds 1 and 30. */
  lemma NormalizeLimit(params: seq<Pair>, v: string)
    requires Get(params, "limit") == Some(v) && v != ""
    ensures ParseInt(v).Finite? && 1 <= ParseInt(v).value <= 30 ==> Normalize(params).limit == ParseInt(v).value
    ensures ParseInt(v).Finite? && ParseInt(v).value > 30 ==> Normalize(params).limit == 30
    ensures ParseInt(v).Finite? && ParseInt(v).value < 1 ==> Normalize(params).limit == 1
    ensures !ParseInt(v).Finite? ==> Normalize(params).limit == 1
  {
  }

  /** The three locale parameters sent upstream. */
  datatype Locale = Locale(hl: string, gl: string, ceid: string)

  const German := Locale("de", "DE", "DE:de")
  const English := Locale("en-US", "US", "US:en")

  /** The locale mapping: the lower-cased `lang` equal to `"de"` selects the German profile,
      every other value the US English one. */
  function LocaleFor(lang: string): (r: Locale)
    ensures r == German || r == English
    ensures r == German <==> lang == "de"
  {
    if lang == "de" then German else English
  }

  /** `lang` spells "de" in any letter case. */
  predicate SpellsDe(v: string) {
    |v| == 2 && (v[0] == 'd' || v[0] == 'D') && (v[1] == 'e' || v[1] == 'E')
  }

  /** The German profile is chosen exactly when `lang` is absent, empty, or "de" in any
      letter case; anything else, "xx" included, falls to US English. */
  lemma GermanExactly(params: seq<Pair>)
    ensures LocaleFor(Normalize(params).lang) == German <==>
      (Get(params, "lang").None? || Get(params, "lang") == Some("") || SpellsDe(Get(params, "lang").value))
  {
    var raw := ValueOr(Get(params, "lang"), DefaultLang);
    var lowered := ToLower(raw);
    assert ToLower("de") == "de";
    if lowered == "de" {
      assert Lower(raw[0]) == 'd' && Lower(raw[1]) == 'e';
      assert SpellsDe(raw);
    }
    if SpellsDe(raw) {
      assert lowered == [Lower(raw[0]), Lower(raw[1])];
    }
  }

  const UpstreamEndpoint := "https://news.google.com/rss/search"
  const UserAgent := "gearcollector.de (+https://gearcollector.de)"
  const AcceptFeed := "application/rss+xml, application/xml;q=0.9, */*;q=0.8"

  /** The upstream request: endpoint, query parameters in the order they are set, and the
      two request headers. */
  datatype UpstreamRequest = UpstreamRequest(endpoint: string, query: seq<Pair>, headers: seq<Pair>)

  /** The upstream search text: `${q} when:${hours}h`. */
  function SearchText(query: string, hours: nat): string {
    query + " when:" + DecimalString(hours) + "h"
  }

  /** The upstream request built from a canonical request. */
  function UpstreamFor(r: FeedRequest): (u: UpstreamRequest)
    requires r.hours >= 0
    ensures u.endpoint == UpstreamEndpoint
    ensures |u.query| == 4 && u.query[0].0 == "q" && u.query[1].0 == "hl" && u.query[2].0 == "gl" && u.query[3].0 == "ceid"
    ensures u.query[0].1 == SearchText(r.query, r.hours)
    ensures Locale(u.query[1].1, u.query[2].1, u.query[3].1) == LocaleFor(r.lang)
    ensures u.headers == [("User-Agent", UserAgent), ("Accept", AcceptFeed)]
  {
    var loc := LocaleFor(r.lang);
    UpstreamRequest(
      UpstreamEndpoint,
      [("q", SearchText(r.query, r.hours)), ("hl", loc.hl), ("gl", loc.gl), ("ceid", loc.ceid)],
      [("User-Agent", UserAgent), ("Accept", AcceptFeed)])
  }

  /** The search text keeps the query as its prefix, and the window written after
      " when:" reads back, with `parseInt`, as exactly the normalised `hours`. */
  lemma SearchTextWindow(query: string, hours: nat)
    requires hours < OverflowBound
    ensures var t := SearchText(query, hours);
      && t[..|query|] == query
      && t[|query|..|query| + 6] == " when:"
      && ParseInt(t[|query| + 6..]) == Finite(hours)
      && t[|t| - 1] == 'h'
  {
    SearchTextParts(query, hours);
    ParseIntDecimal(hours, "h");
  }

  /** The three parts of the search text. */
  lemma SearchTextParts(query: string, hours: nat)
    ensures var t := SearchText(query, hours);
      && |t| == |query| + 6 + |DecimalString(hours)| + 1
      && t[..|query|] == query
      && t[|query|..|query| + 6] == " when:"
      && t[|query| + 6..] == DecimalString(hours) + "h"
  {
    var pre := query + " when:";
    var w := DecimalString(hours) + "h";
    var t := SearchText(query, hours);
    assert t == pre + w;
    assert t[|pre|..] == w;
    assert t[..|pre|] == pre;
    assert pre[..|query|] == query && pre[|query|..] == " when:";
  }
}
