# Tarkov news feed endpoint, modelled in Dafny

The gearcollector site serves `GET /api/tarkov-news?lang=&hours=&limit=&q=`. The endpoint exists twice:

- as a Cloudflare Pages Function, `functions/api/tarkov-news.js`;
- as a standalone Cloudflare Worker, `worker/worker.js`, which also routes.

Both variants work the same way:

1. Normalise the query parameters.
2. Look the full request URL up in the edge cache, and serve a hit with the API security headers set on it again.
3. On a miss, build a Google News RSS search request and fetch it once.
4. If the upstream status is not 2xx, answer `502 {ok:false, error:"upstream_failed", status}` and store nothing.
5. Otherwise, scan the RSS text for `<item>` blocks and turn each block into a news item. Sort the items newest first, cut them to `limit`, answer `200` with `Cache-Control: public, max-age=900`, and store that answer under the request URL.

The variants differ in three places:

- **API header set**: the Pages Function stamps five headers and the Worker three.
- **Excerpt ellipsis**: the Pages Function appends `…` (U+2026, one character). The Worker appends the mojibake `â€¦`, which is three characters.
- **Routing**: only the Worker has it. A path other than `/api/tarkov-news` gets 404; any method but GET and HEAD gets 405.

The shared helpers are modelled once, and the variants' constants are passed in as parameters.

Modules, in dependency order:

- `Wrappers`: the `Option` type.
- `Text`: `Text.Trim` and the other trims, ASCII lower-casing, whitespace collapsing, `Text.StripTags`, `Text.Truncate`, `replaceAll` and `Text.DecodeEntities`.
- `Numbers`: JavaScript `Number.parseInt` (`NaN`, finite, or infinite on overflow), `clampInt`, and the decimal rendering of the hours window.
- `Params`: parameter lookup, normalisation, the locale profile and the upstream request.
- `Scan`: the regular expressions.
  - The global item expression `/<item\b[\s\S]*?<\/item>/gi` is written as a leftmost, lazy, non-overlapping search.
  - `textOf`'s tag expression and the CDATA strippers.
  - Each one is characterised by a ghost predicate that says what a match is.
- `Feed`: item building, the excerpt pipeline, the stable newest-first sort and `parseRss`. `parseRss` is a method with the source's `for … push` loop, proved equal to its specification function `Feed.FeedItems`.
- `Http`:
  - header lists as a `Headers` object keeps them: every name is stored lower-cased; `set` replaces the first entry of the name in place and drops later ones; `get` matches names case-insensitively and joins the values of several entries with ", ";
  - the `Headers` object, the JSON and text responses, and a handler's outcome (an answer, or an exception the handler does not catch);
  - the edge cache (`EdgeCache`, a class over a `map`);
  - the upstream (`Upstream`, a class that logs every request and answers with a fixed reply function; a reply can also be a rejected `fetch` or a rejected `text()`).
- `Handler`: the outcomes shared by both variants (hit; and on a miss, an exception, the 502 answer or the stored 200 answer), as values and lemmas.
- `Pages`: `onRequestGet` together with the Pages Function's header set and ellipsis.
- `Worker`: `fetch` together with the Worker's routing, header set and ellipsis.

Behaviour of the code worth noting:

- The content-security-policy and `X-Frame-Options` headers are set by the Pages Function, not by the Worker.
- Any `lang` other than `de` in some letter case selects US English, so `lang=xx` does not give German.
- A cut excerpt can be shorter than 180 characters, because `trimEnd` runs before the ellipsis is appended. In the Worker it can reach 182 characters, because its ellipsis is three characters long.
- `decodeEntities` decodes twice: `&amp;lt;` becomes `<`.
- Upstream failures are never stored in the cache.
- Only a non-2xx status becomes the 502 answer. A `fetch` that rejects (a network error) or a body read that rejects is not caught, so the handler throws and the platform answers with its own error; nothing is stored.

## Model

| member | source | states |
|---|---|---|
| Text.Lower | functions/api/tarkov-news.js:8 | `toLowerCase` on one character: an ASCII capital moves 32 code points up, to its small letter, and every other character is kept |
| Text.ToLower | functions/api/tarkov-news.js:8 | lower-casing keeps the length and lowers each character in place |
| Text.TrimStart | functions/api/tarkov-news.js:139 | the result is a suffix of the input; everything cut is whitespace, and the result does not start with whitespace |
| Text.TrimEnd | functions/api/tarkov-news.js:149 | `trimEnd`: the result is a prefix of the input; everything cut is whitespace, and the result does not end with whitespace |
| Text.Trim | functions/api/tarkov-news.js:139 | `trim`: the result is the input's characters from the end of the leading whitespace on, everything after it is whitespace, and it has no whitespace at either end |
| Text.ToLowerIdempotent | functions/api/tarkov-news.js:8 | lower-casing twice is the same as lower-casing once |
| Text.VisibleAppend | functions/api/tarkov-news.js:127 | the visible characters of a concatenation are those of its parts, in order |
| Text.VisiblePart | functions/api/tarkov-news.js:127 | a part of a text with only whitespace around it has the same visible characters |
| Text.TrimVisible | functions/api/tarkov-news.js:127 | `trim` removes whitespace only: the visible characters stay, in order |
| Text.TrimStartVisible | functions/api/tarkov-news.js:139 | `trimStart` removes whitespace only |
| Text.TrimStartAppend | functions/api/tarkov-news.js:127 | before a visible character, `trimStart` drops exactly the leading whitespace |
| Text.CollapseRun | functions/api/tarkov-news.js:127 | a run of whitespace alone becomes one space, or nothing when it is empty |
| Text.CollapseSplit | functions/api/tarkov-news.js:127 | collapsing works piecewise around a visible character, which is kept in place |
| Text.CollapseVisible | functions/api/tarkov-news.js:127 | collapsing changes whitespace only: the visible characters stay, in order |
| Text.CollapseSpaces | functions/api/tarkov-news.js:127 | `replace(/\s+/g, " ")`: the only whitespace left is single plain spaces, every other character comes from the input, and the result is no longer than the input; `Text.CollapseVisible` and `Text.CollapseSplit` state which characters it keeps |
| Text.FindChar | functions/api/tarkov-news.js:143 | finds the first occurrence of a character at or after a position, and otherwise proves there is none |
| Text.StripTags | functions/api/tarkov-news.js:142-144 | `replace(/<[^>]*>/g, "")` is no longer than its input and every character it keeps comes from the input; `Text.StripTagsSplit` states which characters it keeps; the Worker's copy at worker/worker.js:137-139 is the same |
| Text.StripTagsPrefix | functions/api/tarkov-news.js:143 | text before the first `<` is kept as it is, and stripping carries on after it |
| Text.StripTagsTag | functions/api/tarkov-news.js:143 | a `<` up to the first `>` after it is deleted, and nothing after the `>` is touched |
| Text.StripTagsUnclosed | functions/api/tarkov-news.js:143 | a `<` with no `>` anywhere after it is kept |
| Text.StripTagsSplit | functions/api/tarkov-news.js:142-144 | for `u<t>v`, with no `<` in `u` and no `>` in `t`, the result is `u` followed by the stripped `v`: the text around a tag survives and the tag goes |
| Text.StripTagsTagFree | functions/api/tarkov-news.js:142-144 | after stripping, no `<` is followed later by a `>`, so no tag is left |
| Text.StripTagsKeepsTagFree | functions/api/tarkov-news.js:142-144 | text without a tag passes through unchanged |
| Text.StripTagsNoLt | functions/api/tarkov-news.js:142-144 | text without `<` passes through unchanged |
| Text.StripTagsIdempotent | functions/api/tarkov-news.js:142-144 | stripping twice is the same as stripping once |
| Text.CollapseKeepsTagFree | functions/api/tarkov-news.js:127 | collapsing whitespace creates no tag |
| Text.TrimKeepsTagFree | functions/api/tarkov-news.js:127 | trimming creates no tag |
| Text.TrimKeepsSingleSpaced | functions/api/tarkov-news.js:127 | trimming keeps whitespace single |
| Text.Truncate | functions/api/tarkov-news.js:146-150 | text within `max` is returned as is. Longer text becomes a prefix of at most `max - 1` characters that does not end in whitespace, followed by the ellipsis; the Worker's copy at worker/worker.js:141-145 is the same |
| Text.TruncateKeepsTagFree | functions/api/tarkov-news.js:146-150 | truncating tag-free text with an ellipsis that has no `>` gives tag-free text |
| Text.ReplaceAll | functions/api/tarkov-news.js:160 | `replaceAll` with a replacement no longer than the pattern never lengthens the text |
| Text.ReplaceAllNoMatch | functions/api/tarkov-news.js:160 | text that lacks the pattern's first character is left unchanged |
| Text.ReplaceAllHead | functions/api/tarkov-news.js:160 | the first output character comes from the replacement when the pattern is at the start, and otherwise is the input's first character |
| Text.ReplaceAllCopiesPrefix | functions/api/tarkov-news.js:160 | output that contains no replacement character so far is a verbatim copy of the input |
| Text.ReplaceAllNotAtStart | functions/api/tarkov-news.js:160 | a string that shares no character with the replacement, and that is the pattern or does not start the input, does not start the output either |
| Text.ReplaceAllAvoids | functions/api/tarkov-news.js:160 | after `replaceAll`, the pattern is gone, and no string whose characters the replacement does not use reappears |
| Text.DecodeWith | functions/api/tarkov-news.js:158-166 | a chain of shortening replacements never lengthens the text |
| Text.DecodeEntities | functions/api/tarkov-news.js:158-166 | `decodeEntities` never lengthens its input; the Worker's copy at worker/worker.js:153-161 is the same |
| Text.DecodeEntitiesNoAmp | functions/api/tarkov-news.js:158-166 | text without `&` is left unchanged |
| Text.DecodeWithKeepsAbsent | functions/api/tarkov-news.js:158-166 | a string absent from the input, whose characters no replacement uses, stays absent |
| Text.DecodeWithEliminates | functions/api/tarkov-news.js:158-166 | a pass's pattern is absent from the output when no replacement from that pass on shares a character with it |
| Text.DecodeEntitiesLeavesNoEntity | functions/api/tarkov-news.js:158-166 | no `&lt;`, `&gt;`, `&quot;`, `&#39;` or `&apos;` survives decoding (`&amp;` can survive, as in `&amp;amp;`) |
| Text.DecodesTwice | functions/api/tarkov-news.js:160-161 | the passes run in sequence, so `&amp;lt;` decodes to `<` |
| Numbers.DigitChar | functions/api/tarkov-news.js:21 | a digit value below 10 has a digit character that reads back as that value |
| Numbers.LeadingDigits | functions/api/tarkov-news.js:72 | the longest prefix made of digits: all digits, and followed by a non-digit or by the end |
| Numbers.ParseInt | functions/api/tarkov-news.js:72 | `Number.parseInt(s, 10)` gives `NaN`, an infinity, or an integer below 2^1024 - 2^970 in magnitude |
| Numbers.FromMagnitude | functions/api/tarkov-news.js:72-73 | a magnitude is finite exactly when it is below the overflow bound; at or past the bound it is an infinity |
| Numbers.ClampInt | functions/api/tarkov-news.js:71-75 | `clampInt`: an in-range finite parse is kept; one above the range gives `max`, one below it gives `min`; `NaN` or an infinity gives `min`; the Worker's copy at worker/worker.js:76-80 is the same |
| Numbers.DecimalString | functions/api/tarkov-news.js:21 | `${n}` is a non-empty digit string without a leading zero, and it reads back as `n` |
| Numbers.ParseIntDigits | functions/api/tarkov-news.js:72 | `parseInt` of a digit string followed by a non-digit is the value of the digits |
| Numbers.ParseIntDecimal | functions/api/tarkov-news.js:21 | `parseInt` reads back what `${n}` writes |
| Numbers.LeadingDigitsOf | functions/api/tarkov-news.js:72 | the digit run of a digit string followed by a non-digit is exactly that digit string |
| Numbers.ParseIntMinus | functions/api/tarkov-news.js:72 | a `-` before the digits negates their value |
| Numbers.ParseIntPlus | functions/api/tarkov-news.js:72 | a `+` before the digits leaves their value as it is |
| Numbers.ParseIntSpaces | functions/api/tarkov-news.js:72 | leading whitespace never changes what `parseInt` reads |
| Numbers.ParseIntNaN | functions/api/tarkov-news.js:72 | text that starts with neither whitespace, a sign nor a digit reads as `NaN` |
| Params.Get | functions/api/tarkov-news.js:8-14 | `searchParams.get`: no value when the name is absent; otherwise the value of the first pair with that name |
| Params.ValueOr | functions/api/tarkov-news.js:8-14 | `get(name) \|\| fallback`: an absent or empty value takes the fallback, and any other value is kept |
| Params.Normalize | functions/api/tarkov-news.js:8-14 | `hours` is always in 1..168 and `limit` in 1..30; `q` is the given non-empty value or the default query; `lang` is the given non-empty value lowered character by character, or `de`; the Worker's copy at worker/worker.js:16-23 is the same |
| Params.DefaultsParse | functions/api/tarkov-news.js:9-10 | the default texts `72` and `12` parse to 72 and 12 |
| Params.NormalizeDefaults | functions/api/tarkov-news.js:9-10 | an absent or empty `hours` gives 72, and an absent or empty `limit` gives 12 |
| Params.NormalizeLangDefault | functions/api/tarkov-news.js:8 | an absent or empty `lang` gives `de` |
| Params.NormalizeHours | functions/api/tarkov-news.js:9 | `hours`: an in-range parse is kept; above 168 gives 168; below 1 gives 1; unparsable text gives 1 |
| Params.NormalizeLimit | functions/api/tarkov-news.js:10 | `limit`: an in-range parse is kept; above 30 gives 30; below 1 gives 1; unparsable text gives 1 |
| Params.LocaleFor | functions/api/tarkov-news.js:16-18 | the locale is one of the two profiles, and it is German exactly when the lower-cased `lang` is `de`; the Worker's copy at worker/worker.js:25-27 is the same |
| Params.GermanExactly | functions/api/tarkov-news.js:8-18 | German is chosen exactly when `lang` is absent, empty, or `de` in any letter case; `xx` gives English |
| Params.UpstreamFor | functions/api/tarkov-news.js:20-38 | the upstream request goes to the RSS search endpoint with the parameters `q`, `hl`, `gl`, `ceid` in that order, carrying the search text for the query and window and the locale profile for `lang`, with the fixed `User-Agent` and `Accept` headers; the Worker's copy at worker/worker.js:29-47 is the same |
| Params.SearchTextWindow | functions/api/tarkov-news.js:21 | the search text is the query, ` when:`, the hours window and `h`; the window reads back as the normalised `hours` |
| Params.SearchTextParts | functions/api/tarkov-news.js:21 | the search text splits into exactly the query, ` when:`, the digits and `h` |
| Scan.FindCI | functions/api/tarkov-news.js:111 | finds the first case-insensitive occurrence at or after a position, and otherwise proves there is none |
| Scan.ItemMatchUnique | functions/api/tarkov-news.js:111 | the lazy quantifier makes the end of an item match a function of its start |
| Scan.ItemAt | functions/api/tarkov-news.js:111 | finds the item match at a position, or proves there is none |
| Scan.NextItem | functions/api/tarkov-news.js:111 | the leftmost item match at or after a position, with no match before it |
| Scan.ItemSpans | functions/api/tarkov-news.js:111 | the global match: spans that are ordered, within the text and non-overlapping |
| Scan.ItemSpansSound | functions/api/tarkov-news.js:111 | every span matches `<item\b[\s\S]*?</item>` without case |
| Scan.ItemSpansComplete | functions/api/tarkov-news.js:111 | no match is skipped: none starts before the first span, between two spans, or after the last |
| Scan.ItemBlocks | functions/api/tarkov-news.js:111 | the item blocks are the texts of the spans, in order |
| Scan.ItemBlocksShape | functions/api/tarkov-news.js:111 | every block opens with `<item` and closes with `</item>`, without case |
| Scan.TagMatchUnique | functions/api/tarkov-news.js:136 | a tag match at a position has one capture |
| Scan.TagAt | functions/api/tarkov-news.js:136 | the tag match at a position, or proof that there is none |
| Scan.FindTag | functions/api/tarkov-news.js:136-138 | `xml.match(re)`: the leftmost tag match, or proof that there is no match at all |
| Scan.DropCdataOpen | functions/api/tarkov-news.js:139 | a leading `<![CDATA[`, in any letter case, is cut, and nothing else is |
| Scan.DropCdataClose | functions/api/tarkov-news.js:139 | a trailing `]]>` is cut, and nothing else is |
| Scan.CdataUnwrap | functions/api/tarkov-news.js:139 | a wrapped CDATA section comes out as exactly its contents |
| Scan.TextOf | functions/api/tarkov-news.js:135-140 | the text of a tag has no whitespace at either end |
| Scan.TextOfAbsent | functions/api/tarkov-news.js:138 | a block without a complete tag pair gives `""` |
| Scan.TextOfFirst | functions/api/tarkov-news.js:135-140 | the text is the leftmost match's capture, CDATA-unwrapped and trimmed; the Worker's copy at worker/worker.js:130-135 is the same |
| Feed.CleanText | functions/api/tarkov-news.js:127 | the cleaned description has no tags, single spaces and no whitespace at either end, is no longer than its input, and holds exactly the visible characters of the tag-stripped description, in order |
| Feed.Excerpt | functions/api/tarkov-news.js:127 | the excerpt is tag-free. Cleaned text of at most 180 characters is kept whole; longer text is cut to at most 179 characters plus the ellipsis, which ends the excerpt |
| Feed.NonEmpty | functions/api/tarkov-news.js:126 | `publishedAt \|\| null`: a non-empty date is kept, and an empty one becomes null |
| Feed.BuildItem | functions/api/tarkov-news.js:114-128 | the item is well formed, and its title is the decoded title or `(untitled)` when that is empty |
| Feed.BuilderWellFormed | functions/api/tarkov-news.js:114-128 | every item the loop body builds is well formed |
| Feed.BuiltItems | functions/api/tarkov-news.js:113-129 | one item per block, in block order |
| Feed.LessIrreflexive | functions/api/tarkov-news.js:131 | the key order is irreflexive |
| Feed.LessTransitive | functions/api/tarkov-news.js:131 | the key order is transitive |
| Feed.LessTotal | functions/api/tarkov-news.js:131 | any two different keys are ordered one way or the other |
| Feed.EmptyLeast | functions/api/tarkov-news.js:131 | the empty key (an undated item) sorts below every date |
| Feed.Insert | functions/api/tarkov-news.js:131 | one stable insertion step adds exactly one item |
| Feed.InsertPermutes | functions/api/tarkov-news.js:131 | an insertion step adds the item and loses nothing |
| Feed.InsertSorted | functions/api/tarkov-news.js:131 | inserting into a sorted sequence keeps it sorted |
| Feed.SortDesc | functions/api/tarkov-news.js:131 | sorting keeps the length |
| Feed.SortDescSorted | functions/api/tarkov-news.js:131 | the sort's output has keys in descending order |
| Feed.SortDescPermutes | functions/api/tarkov-news.js:131 | the sort's output is a permutation of its input |
| Feed.SortDescKeepsSorted | functions/api/tarkov-news.js:131 | a sequence that is already sorted is left as it is, which is what stability gives |
| Feed.InsertWithKey | functions/api/tarkov-news.js:131 | an insertion step keeps the order of the items of every key, and puts the new item after those of its own key |
| Feed.SortDescStable | functions/api/tarkov-news.js:131 | the sort is stable: for every key, the items carrying it come out in their input order |
| Feed.SortedNullsLast | functions/api/tarkov-news.js:131 | in a sorted sequence, undated items come after all dated ones |
| Feed.FeedItemsSpec | functions/api/tarkov-news.js:109-133 | `parseRss` gives one item per item block, a permutation of the built items, sorted newest first, with undated items last, non-empty titles and tag-free excerpts; the Worker's copy at worker/worker.js:104-128 is the same |
| Feed.PushItems | functions/api/tarkov-news.js:113-129 | the `for … push` loop builds exactly the items of the blocks, in order |
| Feed.ParseRss | functions/api/tarkov-news.js:109-133 | `parseRss` computes its specification `Feed.FeedItems`; the Worker's copy at worker/worker.js:104-128 is the same |
| Http.Values | functions/api/tarkov-news.js:90-100 | the values stored under a name: none exactly when no entry has that name |
| Http.ValuesWithoutOther | functions/api/tarkov-news.js:92-100 | removing the entries of one name leaves the values of every other name as they were |
| Http.NormalLowered | functions/api/tarkov-news.js:90 | after the copy, every name is lower-case |
| Http.NormalKeeps | functions/api/tarkov-news.js:90 | copying a list whose names are lower-case already changes nothing |
| Http.Lookup | functions/api/tarkov-news.js:90-106 | `get(name)` is `null` exactly when no entry's name matches `name` without case |
| Http.GetSingle | functions/api/tarkov-news.js:90-106 | a name that a single entry carries reads as that entry's value, in any letter case |
| Http.SetKeyFound | functions/api/tarkov-news.js:92 | after `set`, exactly one entry carries the name, with the new value |
| Http.SetKeyOther | functions/api/tarkov-news.js:92 | `set` leaves the values of every other name as they were |
| Http.SetKeyAppends | functions/api/tarkov-news.js:92 | `set` of a name not yet present appends it at the end |
| Http.SetKeyPresent | functions/api/tarkov-news.js:92 | setting a name that one entry carries to the value it already holds changes nothing |
| Http.SetKeyLowered | functions/api/tarkov-news.js:92 | `set` keeps every name lower-case |
| Http.ApplyAllLowered | functions/api/tarkov-news.js:92-100 | a run of `set` calls keeps every name lower-case |
| Http.NamesDiffer | functions/api/tarkov-news.js:92-100 | names of different lengths, or with different first letters, stay different after lower-casing |
| Http.ApplyAllOther | functions/api/tarkov-news.js:92-100 | a run of `set` calls leaves every other name alone |
| Http.ApplyAllStamps | functions/api/tarkov-news.js:92-100 | after a run of `set` calls with distinct names, each name holds its value exactly once |
| Http.ApplyAllFixed | functions/api/tarkov-news.js:92-100 | headers that are already stamped are left unchanged |
| Http.ApplyAllIdempotent | functions/api/tarkov-news.js:92-100 | running the `set` calls twice is the same as running them once |
| Http.Headers.constructor | functions/api/tarkov-news.js:90 | `new Headers(init)` copies the given list with each name lower-cased |
| Http.Headers.Set | functions/api/tarkov-news.js:92 | `h.set(name, value)`: names stay lower-case, `get(name)` reads as the value in any letter case, and every name that differs without case reads as before |
| Http.Json | functions/api/tarkov-news.js:77-85 | `json(obj, status, extra)`: the status and body are kept, the headers are the content type with the extra headers set on top, and their names are lower-case; the Worker's copy at worker/worker.js:82-90 is the same |
| Http.TextResponse | worker/worker.js:9 | a plain-text response with the given status and body, whose `Content-Type` reads `text/plain;charset=UTF-8` |
| Http.Stamp | functions/api/tarkov-news.js:102-106 | the stamped response keeps the status, status text and body, and its header names are lower-case |
| Http.StampHeaders | functions/api/tarkov-news.js:89-107 | after stamping, each stamped name is carried by one entry and `get` reads it as its value, and a name no stamped name matches reads as before |
| Http.StampIdempotent | functions/api/tarkov-news.js:89-107 | stamping twice is the same as stamping once |
| Http.EdgeCache.constructor | functions/api/tarkov-news.js:27 | the cache starts with the given contents |
| Http.EdgeCache.Match | functions/api/tarkov-news.js:30 | `cache.match(key)` finds exactly the stored response, and finds nothing when the key is not stored |
| Http.EdgeCache.Put | functions/api/tarkov-news.js:65 | `cache.put(key, resp)` stores the response under the key and changes no other key |
| Http.Upstream.constructor | functions/api/tarkov-news.js:33-38 | the upstream starts with an empty request log |
| Http.Upstream.Fetch | functions/api/tarkov-news.js:33-46 | `fetch` logs exactly one request and returns the reply for it, which may be a rejected `fetch` or a rejected `text()`; the Worker's copy at worker/worker.js:42-55 is the same |
| Handler.Slice | functions/api/tarkov-news.js:47 | `slice(0, limit)` is a prefix: `limit` items when there are that many, and all of them otherwise; a negative limit counts from the back |
| Handler.FailureOutcome | functions/api/tarkov-news.js:40-44 | a failure gives 502, the `upstream_failed` body carrying the upstream status, the JSON content type and the stamped headers |
| Handler.SuccessOutcome | functions/api/tarkov-news.js:46-63 | a success gives 200, the JSON content type, `Cache-Control: public, max-age=900`, the stamped headers, and the body with the query, window and cut items |
| Handler.SuccessItems | functions/api/tarkov-news.js:47 | the served items are the first `min(limit, blocks)` items, newest first with undated items last, with non-empty titles and tag-free excerpts |
| Handler.SlicePreserves | functions/api/tarkov-news.js:47 | cutting to `limit` keeps the order and the item properties |
| Handler.JsonHeaders | functions/api/tarkov-news.js:59-62 | the 200 answer's headers carry the JSON content type and the cache-control value |
| Handler.HitServesStored | functions/api/tarkov-news.js:31 | a response this flow stores comes back unchanged when it is stamped again on a hit |
| Handler.StoreStampedPut | functions/api/tarkov-news.js:65 | storing a stamped response keeps the whole store stamped |
| Handler.HitExact | functions/api/tarkov-news.js:30-31 | on a stamped store, a hit serves exactly what was stored |
| Handler.MissKeepsStamped | functions/api/tarkov-news.js:58-65 | storing the 200 answer keeps a store of stamped responses stamped |
| Pages.ApiSeparate | functions/api/tarkov-news.js:92-100 | the five header names are distinct, and none of them is the content type or the cache control |
| Pages.WithApiHeaders | functions/api/tarkov-news.js:89-107 | `withApiHeaders` performs the five `set` calls in order, and status, status text and body are kept |
| Pages.ApplyFive | functions/api/tarkov-news.js:92-100 | five `set` calls in a row are the run of them |
| Pages.ApiStamped | functions/api/tarkov-news.js:89-107 | after `withApiHeaders`, each of the five names is carried by one entry and reads as its value (`X-Frame-Options` reads `DENY`), and every other name reads as before |
| Pages.OnRequestGet | functions/api/tarkov-news.js:4-67 | on a hit, it serves the stamped stored response without fetching or storing. On a miss, it makes one fetch of the upstream request; a rejected fetch or body read throws and a non-2xx status answers 502, both without storing; otherwise it answers 200 and stores the answer under the request URL. A stamped store stays stamped, and on it a hit returns exactly what was stored |
| Pages.FetchAndStore | functions/api/tarkov-news.js:33-66 | the miss path: one fetch; an exception or 502 without storing, or 200 stored under the key; a stamped store stays stamped |
| Pages.ExcerptWithin | functions/api/tarkov-news.js:146-150 | with `…`, an excerpt never exceeds 180 characters, and a cut one ends in `…` |
| Worker.ApiSeparate | worker/worker.js:94-96 | the three header names are distinct, and none of them is the content type or the cache control |
| Worker.WithApiHeaders | worker/worker.js:92-102 | the Worker's `withApiHeaders` performs its three `set` calls in order |
| Worker.ApplyThree | worker/worker.js:94-96 | three `set` calls in a row are the run of them |
| Worker.ApiStamped | worker/worker.js:92-102 | after stamping, each of the three names is carried by one entry and reads as its value, and every other name reads as before |
| Worker.NoFrameOrCsp | worker/worker.js:92-102 | the Worker's stamping leaves `X-Frame-Options` and `Content-Security-Policy` exactly as they were |
| Worker.Fetch | worker/worker.js:5-73 | other paths get 404 and a method other than GET or HEAD gets 405, both without touching the cache or the upstream; otherwise the same hit and miss behaviour as the Pages Function |
| Worker.FetchAndStore | worker/worker.js:42-72 | the Worker's miss path: one fetch; an exception or 502 without storing, or 200 stored under the key; a stamped store stays stamped |
| Worker.ExcerptOverrun | worker/worker.js:141-145 | with the three-character ellipsis, an excerpt is at most 182 characters |
| Worker.TruncateReaches | worker/worker.js:141-145 | the bound is reached: text longer than 180 whose 179th character is not whitespace is cut to 179 characters plus `â€¦`, 182 in all |

## Left out

- URL parsing and percent-decoding are not modelled. A request arrives with its URL string, path, method and decoded query pairs. The upstream URL is kept as an endpoint plus ordered query pairs and is not serialised.
- `JSON.stringify` is not modelled. Response bodies are kept as values (`Http.Body`), so the byte layout of the JSON is not captured.
- `safeDate` (`new Date(raw)` and `toISOString`) is a parameter of the model, `Feed.DateParser`. Date parsing and formatting are not modelled.
- `generatedAt` is left out of the success body, because it is the current time.
- The cache's freshness window (its TTL), the shared cache's own policy and `resp.clone()` are not modelled.
- `waitUntil(cache.put(...))` is modelled as a store that completes before the handler returns. The asynchrony and the race between concurrent misses are not modelled.
- The runtime removing the body of a HEAD answer is not modelled.
- Feed.Less: `localeCompare` is modelled as ordinal code-point comparison. For ISO-8601 timestamps and the empty string both orders agree, but for arbitrary strings they can differ.
- Feed.SortDesc: the library's `Array.prototype.sort` is modelled by the result every stable sort gives, a stable insertion sort on values. The in-place sorting steps and the comparator calls are not modelled.
- Text.Lower: `toLowerCase` is modelled for ASCII letters only. Non-ASCII capitals in `lang` are kept as they are; this does not change which locale is chosen.
- Text.IsSpace: the whitespace set is that of JavaScript's `\s` and `trim`, with the Unicode space separators written out.
- Text.Truncate: requires `max >= 1`; the source only calls it with 180. Lengths are counted in code points, where JavaScript's `length` and `slice` count UTF-16 code units. For text with characters outside the Basic Multilingual Plane the model therefore cuts later than the source, and it never splits a surrogate pair, which the source can do.
- Feed.Excerpt: requires an ellipsis without `>`, which both `…` and `â€¦` satisfy. Its 180-character limit is in code points, not UTF-16 code units, as for `Text.Truncate`.
- Pages.ExcerptWithin: the 180-character bound is in code points, not UTF-16 code units, as for `Text.Truncate`.
- Worker.ExcerptOverrun: the 182-character bound is in code points, not UTF-16 code units, as for `Text.Truncate`.
- Worker.TruncateReaches: the 179 kept characters are code points, not UTF-16 code units, as for `Text.Truncate`.
- Http.Json: `new Response(body, { headers: record })` appends the record's entries, where the model sets them one by one. The two agree when the names differ without case, as those of `json`'s callers do.
- Header entries are kept in insertion order. The runtime's iteration order (sorted by name) is not modelled; only `get` is stated.
- `cache.match` and `cache.put` rejecting are not modelled.
- Http.Upstream.Fetch: the upstream is a fixed function of the request, so two fetches of the same request get the same reply. This is not a model of a live upstream; each handler call fetches at most once.
- An uncaught exception is the outcome `Thrown`, whatever it was. The platform's error response for it is not modelled.
- Numbers.ParseInt: doubles are modelled only through overflow to infinity. Magnitudes between 2^53 and the overflow bound are kept exact instead of being rounded, which does not change how `clampInt` clamps them.
- Handler.SuccessItems: requires `limit >= 0`. Negative limits are described by `Handler.Slice` instead; normalisation never produces one.
