/**
 * `parseRss`: one news item per item block, built from five tags, then sorted newest first
 * by `publishedAt` with the stable `Array.prototype.sort`. Date parsing (`safeDate`) is a
 * parameter; `localeCompare` is ordinal comparison of the two date strings.
 */
module Feed {
  import opened Wrappers
  import opened Text
  import opened Scan

  /** One entry of the `items` array in the response body. */
  datatype NewsItem = NewsItem(
    title: string,
    url: string,
    source: string,
    publishedAt: Option<string>,
    excerpt: string)

  const Untitled := "(untitled)"
  const ExcerptMax := 180

  /** `x || fallback` for a string `x`: the empty string is falsy. */
  function OrElse(x: string, fallback: string): string {
    if x == "" then fallback else x
  }

  /** `stripTags(html).replace(/\s+/g, " ").trim()`: the text an excerpt is cut from. It
      holds the visible characters of the tag-stripped description, in order, with single
      plain spaces between them and none at either end. */
  function CleanText(html: string): (r: string)
    ensures TagFree(r) && SingleSpaced(r)
    ensures Unpadded(r)
    ensures |r| <= |html|
    ensures Visible(r) == Visible(StripTags(html))
  {
    var stripped := StripTags(html);
    var collapsed := CollapseSpaces(stripped);
    CollapseVisible(stripped);
    TrimVisible(collapsed);
    StripTagsTagFree(html);
    CollapseKeepsTagFree(stripped);
    TrimKeepsTagFree(collapsed);
    TrimKeepsSingleSpaced(collapsed);
    Trim(collapsed)
  }

  /** The excerpt: the cleaned description truncated to 180 characters. It holds no tag; a
      clean text of at most 180 characters is kept whole, a longer one gives at most 179
      characters followed by the ellipsis. */
  function Excerpt(html: string, ellipsis: string): (r: string)
    requires '>' !in ellipsis
    ensures TagFree(r)
    ensures |CleanText(html)| <= ExcerptMax ==> r == CleanText(html)
    ensures |CleanText(html)| > ExcerptMax ==>
      |ellipsis| <= |r| <= ExcerptMax - 1 + |ellipsis| && r[|r| - |ellipsis|..] == ellipsis
  {
    var clean := CleanText(html);
    TruncateKeepsTagFree(clean, ExcerptMax, ellipsis);
    Truncate(clean, ExcerptMax, ellipsis)
  }

  /** The date-parsing black box: `safeDate(raw)` is an ISO-8601 string or `null`. */
  type DateParser = string -> Option<string>

  /** `publishedAt || null`: an empty date string is falsy too. */
  function NonEmpty(d: Option<string>): (r: Option<string>)
    ensures r != Some("")
    ensures r.Some? ==> r == d
    ensures d.Some? && d.value != "" ==> r == d
  {
    if d == Some("") then None else d
  }

  /** `decodeEntities(textOf(block, tag))`: the decoded text of one tag. */
  function TagText(block: string, tag: string): string {
    DecodeEntities(TextOf(block, tag))
  }

  /** What every built item satisfies: a non-empty title, a date that is either absent or
      non-empty, and an excerpt without tags. */
  ghost predicate WellFormed(item: NewsItem) {
    item.title != [] && item.publishedAt != Some("") && TagFree(item.excerpt)
  }

  /** The body of the `for (const block of itemBlocks)` loop: the five tag texts become one
      item. The title falls back to "(untitled)", so it is never empty. */
  function BuildItem(block: string, safeDate: DateParser, ellipsis: string): (r: NewsItem)
    requires '>' !in ellipsis
    ensures WellFormed(r)
    ensures TagText(block, "title") != "" ==> r.title == TagText(block, "title")
    ensures TagText(block, "title") == "" ==> r.title == Untitled
  {
    NewsItem(
      OrElse(TagText(block, "title"), Untitled),
      OrElse(TagText(block, "link"), ""),
      OrElse(TagText(block, "source"), ""),
      NonEmpty(safeDate(TagText(block, "pubDate"))),
      Excerpt(TagText(block, "description"), ellipsis))
  }

  /** The loop body as a function of the block alone, for one response. */
  function Builder(safeDate: DateParser, ellipsis: string): (build: string -> NewsItem)
    requires '>' !in ellipsis
  {
    b => BuildItem(b, safeDate, ellipsis)
  }

  /** Every item the loop body builds is well-formed. */
  lemma BuilderWellFormed(safeDate: DateParser, ellipsis: string)
    requires '>' !in ellipsis
    ensures forall b :: WellFormed(Builder(safeDate, ellipsis)(b))
  {
    forall b ensures WellFormed(Builder(safeDate, ellipsis)(b)) {
      assert Builder(safeDate, ellipsis)(b) == BuildItem(b, safeDate, ellipsis);
    }
  }

  /** The items pushed by the loop, one per block, in block order. */
  function BuiltItems(blocks: seq<string>, build: string -> NewsItem): (r: seq<NewsItem>)
    ensures |r| == |blocks|
    ensures forall i :: 0 <= i < |r| ==> r[i] == build(blocks[i])
  {
    if blocks == [] then []
    else
      var init := blocks[..|blocks| - 1];
      assert forall i :: 0 <= i < |init| ==> init[i] == blocks[i];
      BuiltItems(init, build) + [build(blocks[|blocks| - 1])]
  }

  // ---- ordering ----

  /** The sort key `publishedAt || ""`. */
  function Key(item: NewsItem): string {
    item.publishedAt.GetOr("")
  }

  /** Ordinal (code-point) comparison of two strings: `a` sorts before `b`. */
  predicate Less(a: string, b: string) {
    if a == [] then b != []
    else if b == [] then false
    else if a[0] != b[0] then a[0] < b[0]
    else Less(a[1..], b[1..])
  }

  lemma {:induction false} LessIrreflexive(a: string)
    ensures !Less(a, a)
  {
    if a != [] {
      LessIrreflexive(a[1..]);
    }
  }

  lemma {:induction false} LessTransitive(a: string, b: string, c: string)
    requires Less(a, b) && Less(b, c)
    ensures Less(a, c)
  {
    if a != [] && b != [] && c != [] && a[0] == b[0] && b[0] == c[0] {
      LessTransitive(a[1..], b[1..], c[1..]);
    }
  }

  lemma {:induction false} LessTotal(a: string, b: string)
    ensures a == b || Less(a, b) || Less(b, a)
  {
    if a != [] && b != [] && a[0] == b[0] {
      LessTotal(a[1..], b[1..]);
      if a[1..] == b[1..] {
        assert a == [a[0]] + a[1..] && b == [b[0]] + b[1..];
      }
    }
  }

  /** "Not before" is transitive: the order the sort relies on is a total preorder. */
  lemma NotLessTransitive(a: string, b: string, c: string)
    requires !Less(a, b) && !Less(b, c)
    ensures !Less(a, c)
  {
    LessTotal(a, b);
    if Less(b, a) && Less(a, c) {
      LessTransitive(b, a, c);
    }
  }

  /** The empty key sorts before every other key, so it is last in descending order. */
  lemma EmptyLeast(b: string)
    ensures !Less(b, "")
    ensures Less("", b) <==> b != ""
  {
  }

  /** Newest first: no item has a key that sorts before a later item's key. */
  ghost predicate Sorted(s: seq<NewsItem>) {
    forall i, j :: 0 <= i < j < |s| ==> !Less(Key(s[i]), Key(s[j]))
  }

  /** One insertion step of a stable sort: `x` goes after every item whose key does not sort
      before its own, so it stays behind items with an equal key. */
  function Insert(t: seq<NewsItem>, x: NewsItem): (r: seq<NewsItem>)
    ensures |r| == |t| + 1
  {
    if t == [] then [x]
    else if Less(Key(t[|t| - 1]), Key(x)) then Insert(t[..|t| - 1], x) + [t[|t| - 1]]
    else t + [x]
  }

  /** Insertion adds `x` and keeps everything else. */
  lemma {:induction false} InsertPermutes(t: seq<NewsItem>, x: NewsItem)
    ensures multiset(Insert(t, x)) == multiset(t) + multiset{x}
    decreases |t|
  {
    if t != [] {
      assert t == t[..|t| - 1] + [t[|t| - 1]];
      InsertPermutes(t[..|t| - 1], x);
    }
  }

  /** `items.sort((a, b) => (b.publishedAt || "").localeCompare(a.publishedAt || ""))`
      as a stable insertion sort: the reference result that any stable sort with this
      comparator produces. */
  function SortDesc(s: seq<NewsItem>): (r: seq<NewsItem>)
    ensures |r| == |s|
  {
    if s == [] then [] else Insert(SortDesc(s[..|s| - 1]), s[|s| - 1])
  }

  lemma SortedAppend(u: seq<NewsItem>, z: NewsItem)
    requires Sorted(u)
    requires forall y :: y in u ==> !Less(Key(y), Key(z))
    ensures Sorted(u + [z])
  {
    var s := u + [z];
    forall i, j | 0 <= i < j < |s| ensures !Less(Key(s[i]), Key(s[j])) {
      if j == |u| {
        assert s[i] == u[i] && s[i] in u;
      } else {
        assert s[i] == u[i] && s[j] == u[j];
      }
    }
  }

  /** Inserting into a sorted sequence keeps it sorted. */
  lemma {:induction false} InsertSorted(t: seq<NewsItem>, x: NewsItem)
    requires Sorted(t)
    ensures Sorted(Insert(t, x))
    decreases |t|
  {
    if t != [] {
      var last := t[|t| - 1];
      var init := t[..|t| - 1];
      assert Sorted(init) by {
        forall i, j | 0 <= i < j < |init| ensures !Less(Key(init[i]), Key(init[j])) {
          assert init[i] == t[i] && init[j] == t[j];
        }
      }
      if Less(Key(last), Key(x)) {
        InsertSorted(init, x);
        InsertPermutes(init, x);
        var u := Insert(init, x);
        forall y | y in u ensures !Less(Key(y), Key(last)) {
          assert y in multiset(u);
          if y == x {
            LessIrreflexive(Key(x));
            if Less(Key(x), Key(last)) {
              LessTransitive(Key(x), Key(last), Key(x));
            }
          } else {
            assert y in multiset(init);
            var i :| 0 <= i < |init| && init[i] == y;
            assert t[i] == y;
          }
        }
        SortedAppend(u, last);
      } else {
        forall y | y in t ensures !Less(Key(y), Key(x)) {
          var i :| 0 <= i < |t| && t[i] == y;
          if i < |t| - 1 {
            NotLessTransitive(Key(y), Key(last), Key(x));
          }
        }
        SortedAppend(t, x);
      }
    }
  }

  /** The sorted items are ordered newest first. */
  lemma {:induction false} SortDescSorted(s: seq<NewsItem>)
    ensures Sorted(SortDesc(s))
    decreases |s|
  {
    if s != [] {
      SortDescSorted(s[..|s| - 1]);
      InsertSorted(SortDesc(s[..|s| - 1]), s[|s| - 1]);
    }
  }

  /** The sorted items are the built items, rearranged: nothing lost, nothing added. */
  lemma {:induction false} SortDescPermutes(s: seq<NewsItem>)
    ensures multiset(SortDesc(s)) == multiset(s)
    decreases |s|
  {
    if s != [] {
      SortDescPermutes(s[..|s| - 1]);
      InsertPermutes(SortDesc(s[..|s| - 1]), s[|s| - 1]);
      assert s == s[..|s| - 1] + [s[|s| - 1]];
    }
  }

  /** Sorting what is already sorted changes nothing; in particular items whose keys are
      all equal keep their order (the sort is stable), and sorting twice is sorting once. */
  lemma {:induction false} SortDescKeepsSorted(s: seq<NewsItem>)
    requires Sorted(s)
    ensures SortDesc(s) == s
    decreases |s|
  {
    if s != [] {
      var init := s[..|s| - 1];
      assert Sorted(init) by {
        forall i, j | 0 <= i < j < |init| ensures !Less(Key(init[i]), Key(init[j])) {
          assert init[i] == s[i] && init[j] == s[j];
        }
      }
      SortDescKeepsSorted(init);
      if init != [] {
        assert !Less(Key(init[|init| - 1]), Key(s[|s| - 1]));
      }
      assert init + [s[|s| - 1]] == s;
    }
  }

  /** The items of `s` whose sort key is `k`, in their order in `s`. */
  function WithKey(s: seq<NewsItem>, k: string): (r: seq<NewsItem>)
    ensures |r| <= |s|
    ensures forall y :: y in r ==> y in s && Key(y) == k
  {
    if s == [] then []
    else
      var last := s[|s| - 1];
      WithKey(s[..|s| - 1], k) + (if Key(last) == k then [last] else [])
  }

  lemma WithKeySnoc(u: seq<NewsItem>, y: NewsItem, k: string)
    ensures WithKey(u + [y], k) == WithKey(u, k) + (if Key(y) == k then [y] else [])
  {
    assert (u + [y])[..|u|] == u;
  }

  /** Insertion keeps the order of the items that share any one key: `x` lands after the
      items with its own key, and the items it passes have a different key. */
  lemma {:induction false} InsertWithKey(t: seq<NewsItem>, x: NewsItem, k: string)
    ensures WithKey(Insert(t, x), k) == WithKey(t, k) + (if Key(x) == k then [x] else [])
    decreases |t|
  {
    if t == [] {
      WithKeySnoc([], x, k);
    } else {
      var last := t[|t| - 1];
      var init := t[..|t| - 1];
      assert t == init + [last];
      if Less(Key(last), Key(x)) {
        InsertWithKey(init, x, k);
        if Key(last) == k {
          LessIrreflexive(k);
        }
        WithKeyPassing(init, last, x, k, Insert(init, x));
      } else {
        WithKeySnoc(t, x, k);
      }
    }
  }

  /** `x` passing an item of another key does not reorder either key's items. */
  lemma WithKeyPassing(init: seq<NewsItem>, last: NewsItem, x: NewsItem, k: string,
                       u: seq<NewsItem>)
    requires Key(last) != k || Key(x) != k
    requires WithKey(u, k) == WithKey(init, k) + (if Key(x) == k then [x] else [])
    ensures WithKey(u + [last], k)
      == WithKey(init + [last], k) + (if Key(x) == k then [x] else [])
  {
    WithKeySnoc(u, last, k);
    WithKeySnoc(init, last, k);
  }

  /** The sort is stable: items with equal keys keep their input order. */
  lemma {:induction false} SortDescStable(s: seq<NewsItem>, k: string)
    ensures WithKey(SortDesc(s), k) == WithKey(s, k)
    decreases |s|
  {
    if s != [] {
      var init := s[..|s| - 1];
      SortDescStable(init, k);
      InsertWithKey(SortDesc(init), s[|s| - 1], k);
    }
  }

  /** Undated items come after every dated one. */
  lemma SortedNullsLast(s: seq<NewsItem>)
    requires Sorted(s)
    requires forall i :: 0 <= i < |s| ==> s[i].publishedAt != Some("")
    ensures forall i, j :: 0 <= i < j < |s| && s[i].publishedAt.None? ==> s[j].publishedAt.None?
  {
    forall i, j | 0 <= i < j < |s| && s[i].publishedAt.None? ensures s[j].publishedAt.None? {
      EmptyLeast(Key(s[j]));
      assert !Less(Key(s[i]), Key(s[j]));
    }
  }

  // ---- the whole parse ----

  /** `parseRss(xml)`: the built items, sorted. */
  function FeedItems(xml: string, safeDate: DateParser, ellipsis: string): (r: seq<NewsItem>)
    requires '>' !in ellipsis
  {
    SortDesc(BuiltItems(ItemBlocks(xml), Builder(safeDate, ellipsis)))
  }

  /** What `parseRss` promises: one item per item block, every title non-empty, every
      excerpt free of tags, a rearrangement of the built items, newest first, undated last. */
  lemma FeedItemsSpec(xml: string, safeDate: DateParser, ellipsis: string)
    requires '>' !in ellipsis
    ensures var r := FeedItems(xml, safeDate, ellipsis);
      && |r| == |ItemBlocks(xml)|
      && multiset(r) == multiset(BuiltItems(ItemBlocks(xml), Builder(safeDate, ellipsis)))
      && Sorted(r)
      && (forall i :: 0 <= i < |r| ==> r[i].title != [] && TagFree(r[i].excerpt))
      && (forall i, j :: 0 <= i < j < |r| && r[i].publishedAt.None? ==> r[j].publishedAt.None?)
  {
    BuilderWellFormed(safeDate, ellipsis);
    SortedBuilt(ItemBlocks(xml), Builder(safeDate, ellipsis));
  }

  /** The sort of items that are all well-formed. */
  lemma SortedBuilt(blocks: seq<string>, build: string -> NewsItem)
    requires forall b :: WellFormed(build(b))
    ensures var r := SortDesc(BuiltItems(blocks, build));
      && |r| == |blocks|
      && multiset(r) == multiset(BuiltItems(blocks, build))
      && Sorted(r)
      && (forall i :: 0 <= i < |r| ==> WellFormed(r[i]))
      && (forall i, j :: 0 <= i < j < |r| && r[i].publishedAt.None? ==> r[j].publishedAt.None?)
  {
    var built := BuiltItems(blocks, build);
    var r := SortDesc(built);
    SortDescPermutes(built);
    SortDescSorted(built);
    forall i | 0 <= i < |r| ensures WellFormed(r[i]) {
      assert r[i] in multiset(built);
      var k :| 0 <= k < |built| && built[k] == r[i];
    }
    SortedNullsLast(r);
  }

  /** The `for (const block of itemBlocks)` loop: one item pushed per block. */
  method PushItems(blocks: seq<string>, build: string -> NewsItem) returns (built: seq<NewsItem>)
    ensures built == BuiltItems(blocks, build)
  {
    built := [];
    for i := 0 to |blocks|
      invariant built == BuiltItems(blocks[..i], build)
    {
      assert blocks[..i + 1][..i] == blocks[..i] && blocks[..i + 1][i] == blocks[i];
      built := built + [build(blocks[i])];
    }
    assert blocks[..|blocks|] == blocks;
  }

  /** `parseRss`: push one item per block, then sort with the library's stable sort. */
  method ParseRss(xml: string, safeDate: DateParser, ellipsis: string) returns (items: seq<NewsItem>)
    requires '>' !in ellipsis
    ensures items == FeedItems(xml, safeDate, ellipsis)
  {
    var built := PushItems(ItemBlocks(xml), Builder(safeDate, ellipsis));
    items := SortDesc(built);
  }
}
